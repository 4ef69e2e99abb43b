/** `src/filters/index.js`: the list of filters, the application of a
    filter's removals and rewrites, the completion of site-relative links
    and the optional removal of inline links. */
module Filters {
  import opened Wrappers
  import opened Text
  import opened Rewrite
  import opened Rules
  import opened Global
  import opened Wikipedia
  import opened Medium
  import opened StackOverflow

  /** What `parseUrl` reports about an address: its host name and
      `protocol + "//" + hostname`. Parsing itself is not modelled: the
      caller passes its outcome, `None` for `null`. */
  datatype UrlInfo = UrlInfo(hostname: string, baseAddress: string)

  /** The rules `ps` applied one after the other to `data`, each with a
      global `replaceAll`; with `erase` every match is deleted. */
  function ApplyRules(data: string, ps: seq<Matcher>, erase: bool): string
    decreases |ps|
  {
    if ps == [] then data
    else ReplaceFrom(ApplyRules(data, ps[..|ps| - 1], erase), 0, ps[|ps| - 1], erase)
  }

  /** Applying two lists of rules in a row is applying their concatenation. */
  lemma {:induction false} ApplyRulesConcat(data: string, a: seq<Matcher>, b: seq<Matcher>, erase: bool)
    ensures ApplyRules(data, a + b, erase) == ApplyRules(ApplyRules(data, a, erase), b, erase)
    decreases |b|
  {
    if b != [] {
      assert (a + b)[..|a + b| - 1] == a + b[..|b| - 1];
      assert (a + b)[|a + b| - 1] == b[|b| - 1];
      ApplyRulesConcat(data, a, b[..|b| - 1], erase);
    } else {
      assert a + b == a;
    }
  }

  /** Deleting the matches of a pattern never makes a text longer. */
  lemma {:induction false} RemoveFromShorter(s: string, i: nat, m: Matcher)
    requires i <= |s|
    ensures |ReplaceFrom(s, i, m, true)| <= |s| - i
    decreases |s| - i
  {
    var h := m(s, i);
    var out := ReplaceFrom(s, i, m, true);
    if Fits(s, i, h) && h.value.end > i {
      RemoveFromShorter(s, h.value.end, m);
      assert out == "" + ReplaceFrom(s, h.value.end, m, true);
    } else if Fits(s, i, h) && i < |s| {
      RemoveFromShorter(s, i + 1, m);
      assert out == "" + ([s[i]] + ReplaceFrom(s, i + 1, m, true));
    } else if i < |s| {
      RemoveFromShorter(s, i + 1, m);
      assert out == [s[i]] + ReplaceFrom(s, i + 1, m, true);
    }
  }

  /** Removal patterns, applied in any number, never make a text longer. */
  lemma {:induction false} RemovalsShorten(data: string, ps: seq<Matcher>)
    ensures |ApplyRules(data, ps, true)| <= |data|
    decreases |ps|
  {
    if ps != [] {
      RemovalsShorten(data, ps[..|ps| - 1]);
      RemoveFromShorter(ApplyRules(data, ps[..|ps| - 1], true), 0, ps[|ps| - 1]);
    }
  }

  /** Rules that match nowhere leave the text as it is. */
  lemma {:induction false} RulesNeverMatching(data: string, ps: seq<Matcher>, erase: bool)
    requires forall k, t: string, i: nat :: 0 <= k < |ps| ==> ps[k](t, i).None?
    ensures ApplyRules(data, ps, erase) == data
    decreases |ps|
  {
    if ps != [] {
      var prev := ApplyRules(data, ps[..|ps| - 1], erase);
      RulesNeverMatching(data, ps[..|ps| - 1], erase);
      NoMatchUnchanged(prev, 0, ps[|ps| - 1], erase);
    }
  }

  /** `applyRemovePatterns`: every match of every pattern deleted, pattern
      by pattern; a missing list changes nothing. */
  function RemovePatterns(data: string, patterns: Option<seq<Matcher>>): string {
    if patterns.None? then data else ApplyRules(data, patterns.value, true)
  }

  /** `applyReplacePatterns`: every match of every rule replaced, rule by
      rule; a missing list changes nothing. */
  function ReplacePatterns(data: string, patterns: Option<seq<Matcher>>): string {
    if patterns.None? then data else ApplyRules(data, patterns.value, false)
  }

  /** The loop of `applyRemovePatterns`. */
  method ApplyRemovePatterns(data: string, patterns: Option<seq<Matcher>>) returns (r: string)
    ensures r == RemovePatterns(data, patterns)
    ensures |r| <= |data|
  {
    if patterns.None? {
      return data;
    }
    var ps := patterns.value;
    r := data;
    var k := 0;
    while k < |ps|
      invariant 0 <= k <= |ps|
      invariant r == ApplyRules(data, ps[..k], true)
    {
      assert ps[..k + 1][..k] == ps[..k];
      r := RemoveAll(r, ps[k]);
      k := k + 1;
    }
    assert ps[..k] == ps;
    RemovalsShorten(data, ps);
  }

  /** The loop of `applyReplacePatterns`. */
  method ApplyReplacePatterns(data: string, patterns: Option<seq<Matcher>>) returns (r: string)
    ensures r == ReplacePatterns(data, patterns)
  {
    if patterns.None? {
      return data;
    }
    var ps := patterns.value;
    r := data;
    var k := 0;
    while k < |ps|
      invariant 0 <= k <= |ps|
      invariant r == ApplyRules(data, ps[..k], false)
    {
      assert ps[..k + 1][..k] == ps[..k];
      r := ReplaceAll(r, ps[k]);
      k := k + 1;
    }
    assert ps[..k] == ps;
  }

  /** The global pattern `\[([^\]]*)\]\(\/([^\/][^\)]*)\)` at `i`: a link
      whose target starts with a single `/`, rewritten to
      `[title](base/address)`. */
  function AbsolutizeAt(base: string, s: string, i: nat): (r: Option<Hit>)
    ensures r.Some? ==> i < r.value.end <= |s| && s[i] == '[' && s[r.value.end - 1] == ')'
  {
    if i < |s| && s[i] == '[' then
      var k := FirstFrom(s, i + 1, ']');
      if StartsAt(s, k + 1, "(/") && k + 3 < |s| && s[k + 3] != '/' then
        var m := FirstFrom(s, k + 4, ')');
        if m < |s| then Some(Hit(m + 1, Link(s[i + 1..k], base + "/" + s[k + 3..m])))
        else None
      else None
    else None
  }

  /** A site-relative link at `i`: its title runs to the first `]` at `k`,
      `(/` and a character other than `/` follow, and the target ends at the
      first `)` after that character, at `m`. */
  predicate RelativeLinkLayout(s: string, i: nat, k: nat, m: nat) {
    && i < k && k + 3 < m < |s| && s[i] == '['
    && (forall x :: i < x < k ==> s[x] != ']')
    && StartsAt(s, k, "](/") && s[k + 3] != '/'
    && (forall x :: k + 4 <= x < m ==> s[x] != ')') && s[m] == ')'
  }

  /** Every site-relative link is rewritten to point below `base`. */
  lemma AbsolutizeComplete(base: string, s: string, i: nat, k: nat, m: nat)
    requires RelativeLinkLayout(s, i, k, m)
    ensures AbsolutizeAt(base, s, i) == Some(Hit(m + 1, Link(s[i + 1..k], base + "/" + s[k + 3..m])))
  {
    assert s[k..k + 3] == "](/";
    assert s[k] == ']' && s[k + 1] == '(' && s[k + 2] == '/';
    FirstFromExact(s, i + 1, k, ']');
    assert StartsAt(s, k + 1, "(/");
    FirstFromExact(s, k + 4, m, ')');
  }

  /** Only site-relative links are rewritten. */
  lemma AbsolutizeSound(base: string, s: string, i: nat)
    requires AbsolutizeAt(base, s, i).Some?
    ensures exists k: nat, m: nat ::
      && RelativeLinkLayout(s, i, k, m)
      && AbsolutizeAt(base, s, i).value == Hit(m + 1, Link(s[i + 1..k], base + "/" + s[k + 3..m]))
  {
    var k := FirstFrom(s, i + 1, ']');
    var m := FirstFrom(s, k + 4, ')');
    assert s[k + 1..k + 3] == "(/";
    assert s[k + 1] == '(' && s[k + 2] == '/';
    assert s[k..k + 3] == "](/";
    assert RelativeLinkLayout(s, i, k, m);
  }

  /** A link made absolute against a base that does not start with `/` is
      not rewritten again. */
  lemma AbsolutizeOnce(base: string, title: string, address: string)
    requires base != [] && base[0] != '/'
    requires forall x :: 0 <= x < |title| ==> title[x] != ']'
    ensures AbsolutizeAt(base, Link(title, base + "/" + address), 0).None?
  {
    var t := Link(title, base + "/" + address);
    var k := 1 + |title|;
    LinkLayout(title, base + "/" + address);
    assert t[k + 2] == base[0];
    FirstFromExact(t, 1, k, ']');
    assert !StartsAt(t, k + 1, "(/") by {
      assert "(/"[1] == '/';
    }
  }

  /** `makeRelativeUrlsAbsolute`: every site-relative link rewritten to
      point below the base address; an empty base changes nothing. */
  function MakeRelativeUrlsAbsolute(data: string, base: string): string {
    if base == "" then data else ReplaceAll(data, (s: string, i: nat) => AbsolutizeAt(base, s, i))
  }

  /** A text without `](/` has no site-relative link and is kept as it is. */
  lemma AbsolutizeUntouched(data: string, base: string)
    requires !Contains(data, "](/")
    ensures MakeRelativeUrlsAbsolute(data, base) == data
  {
    if base != "" {
      var m: Matcher := (s: string, i: nat) => AbsolutizeAt(base, s, i);
      ContainsIff(data, "](/");
      forall k | 0 <= k <= |data|
        ensures !Fits(data, k, m(data, k))
      {
        if AbsolutizeAt(base, data, k).Some? {
          AbsolutizeSound(base, data, k);
        }
      }
      NoMatchUnchanged(data, 0, m, false);
    }
  }

  /** `\]\([^\)]+\)` at `c`: the position of the `)` that closes a
      non-empty target. */
  function TargetClose(s: string, c: nat): (r: Option<nat>)
    ensures r.Some? ==> StartsAt(s, c, "](") && c + 2 < r.value < |s| && s[r.value] == ')'
    ensures r.Some? ==> forall x :: c + 2 <= x < r.value ==> s[x] != ')'
  {
    if StartsAt(s, c, "](") then
      var m := FirstFrom(s, c + 2, ')');
      if m > c + 2 && m < |s| then Some(m) else None
    else None
  }

  /** The global pattern `\[\[?([^\]]+\]?)\]\([^\)]+\)` at `i`, replaced by
      its group: the link text without its brackets and target. The
      optional `[` is taken when the text after it is not empty; the first
      `]` ends the text, and the optional `]` is taken when `](` and a
      target follow it. */
  function InlineLinkAt(s: string, i: nat): (r: Option<Hit>)
    ensures r.Some? ==> i < r.value.end <= |s|
  {
    if i + 1 < |s| && s[i] == '[' then
      var k := FirstFrom(s, i + 1, ']');
      var j := if s[i + 1] == '[' && k > i + 2 then i + 2 else i + 1;
      if k <= j then None
      else
        var closed := TargetClose(s, k + 1);
        if closed.Some? then Some(Hit(closed.value + 1, s[j..k + 1]))
        else
          var open := TargetClose(s, k);
          if open.Some? then Some(Hit(open.value + 1, s[j..k]))
          else None
    else None
  }

  /** An inline link at `i`: the kept text runs from `j` (after one or two
      `[`) to `c`, where `](` starts; `k` is the first `]`, which the text
      keeps when `c` is one past it; the target ends at the `)` at `m`. */
  predicate InlineLinkLayout(s: string, i: nat, j: nat, k: nat, c: nat, m: nat) {
    && i < j < k && (c == k || c == k + 1) && c + 2 < m < |s|
    && s[i] == '[' && (forall x :: i < x < k ==> s[x] != ']') && s[k] == ']'
    && j == (if s[i + 1] == '[' && k > i + 2 then i + 2 else i + 1)
    && StartsAt(s, c, "](")
    && (forall x :: c + 2 <= x < m ==> s[x] != ')') && s[m] == ')'
  }

  /** A target that closes at the first `)` after `](` is found. */
  lemma TargetCloseExact(s: string, c: nat, m: nat)
    requires StartsAt(s, c, "](") && c + 2 < m < |s| && s[m] == ')'
    requires forall x :: c + 2 <= x < m ==> s[x] != ')'
    ensures TargetClose(s, c) == Some(m)
  {
    FirstFromExact(s, c + 2, m, ')');
  }

  /** Only a `]` starts a target. */
  lemma TargetCloseNeedsBracket(s: string, c: nat)
    requires c < |s| && s[c] != ']'
    ensures TargetClose(s, c).None?
  {
    assert c + 2 <= |s| ==> s[c..c + 2][0] == s[c];
  }

  /** Every inline link is replaced by its text. */
  lemma InlineLinkComplete(s: string, i: nat, j: nat, k: nat, c: nat, m: nat)
    requires InlineLinkLayout(s, i, j, k, c, m)
    ensures InlineLinkAt(s, i) == Some(Hit(m + 1, s[j..c]))
  {
    FirstFromExact(s, i + 1, k, ']');
    TargetCloseExact(s, c, m);
    if c == k {
      assert s[k + 1] == "]("[1] by {
        assert s[k..k + 2] == "](";
      }
      TargetCloseNeedsBracket(s, k + 1);
    }
  }

  /** Only inline links are replaced, each by its text. */
  lemma InlineLinkSound(s: string, i: nat)
    requires InlineLinkAt(s, i).Some?
    ensures exists j: nat, k: nat, c: nat, m: nat ::
      && InlineLinkLayout(s, i, j, k, c, m)
      && InlineLinkAt(s, i).value == Hit(m + 1, s[j..c])
  {
    var k := FirstFrom(s, i + 1, ']');
    var j := if s[i + 1] == '[' && k > i + 2 then i + 2 else i + 1;
    var closed := TargetClose(s, k + 1);
    var c := if closed.Some? then k + 1 else k;
    var m := TargetClose(s, c).value;
    if closed.Some? {
      assert s[k + 1..k + 3] == "](";
    }
    assert InlineLinkLayout(s, i, j, k, c, m);
  }

  /** A character `[\\\[]` accepts. */
  predicate IsOpenMark(c: char) { c == '\\' || c == '[' }

  /** A character `[\\\]]` accepts. */
  predicate IsCloseMark(c: char) { c == '\\' || c == ']' }

  /** The global pattern `[\\\[]+([0-9]+)[\\\]]+` at `i`, replaced by the
      number in plain brackets. Each run is taken whole: no character of a
      run could start the next one. */
  function CitationAt(s: string, i: nat): (r: Option<Hit>)
    ensures r.Some? ==> i < r.value.end <= |s|
  {
    if i < |s| && IsOpenMark(s[i]) then
      var a := RunEnd(s, i, IsOpenMark);
      var d := RunEnd(s, a, IsDigit);
      if d > a then
        var e := RunEnd(s, d, IsCloseMark);
        if e > d then Some(Hit(e, "[" + s[a..d] + "]")) else None
      else None
    else None
  }

  /** A citation mark at `i`: opening marks up to `a`, digits up to `d`,
      closing marks up to `e`. */
  predicate CitationLayout(s: string, i: nat, a: nat, d: nat, e: nat) {
    && i < a < d < e <= |s|
    && (forall x :: i <= x < a ==> IsOpenMark(s[x]))
    && (forall x :: a <= x < d ==> IsDigit(s[x]))
    && (forall x :: d <= x < e ==> IsCloseMark(s[x]))
    && (e < |s| ==> !IsCloseMark(s[e]))
  }

  /** Every citation mark becomes its number in plain brackets. */
  lemma CitationComplete(s: string, i: nat, a: nat, d: nat, e: nat)
    requires CitationLayout(s, i, a, d, e)
    ensures CitationAt(s, i) == Some(Hit(e, "[" + s[a..d] + "]"))
  {
    RunEndExact(s, i, a, IsOpenMark);
    RunEndExact(s, a, d, IsDigit);
    RunEndExact(s, d, e, IsCloseMark);
  }

  /** Only citation marks are rewritten. */
  lemma CitationSound(s: string, i: nat)
    requires CitationAt(s, i).Some?
    ensures exists a: nat, d: nat ::
      && CitationLayout(s, i, a, d, CitationAt(s, i).value.end)
      && CitationAt(s, i).value.text == "[" + s[a..d] + "]"
  {
    var a := RunEnd(s, i, IsOpenMark);
    var d := RunEnd(s, a, IsDigit);
    assert CitationLayout(s, i, a, d, CitationAt(s, i).value.end);
  }

  /** `removeInlineLinks`: links replaced by their text, then citation
      marks normalised. */
  function RemoveInlineLinks(data: string): string {
    ReplaceAll(ReplaceAll(data, InlineLinkAt), CitationAt)
  }

  /** A text without `[` and `\` holds neither links nor citation marks and
      is kept as it is. */
  lemma RemoveInlineLinksUntouched(data: string)
    requires '[' !in data && '\\' !in data
    ensures RemoveInlineLinks(data) == data
  {
    forall k | 0 <= k <= |data|
      ensures !Fits(data, k, InlineLinkAt(data, k)) && !Fits(data, k, CitationAt(data, k))
    {
      if k < |data| {
        assert data[k] in data;
      }
    }
    NoMatchUnchanged(data, 0, InlineLinkAt, false);
    assert data[0..] == data;
    NoMatchUnchanged(data, 0, CitationAt, false);
  }

  /** One filter applied to `data` for the host `domain`: its removals,
      then its rewrites, when its domain pattern matches the host; the text
      unchanged otherwise. */
  function ApplyFilter(f: FilterSet, domain: string, data: string): string {
    if f.domain(domain) then ReplacePatterns(RemovePatterns(data, f.remove), f.replace) else data
  }

  /** The filters `fs` applied in list order. */
  function ApplyFilters(fs: seq<FilterSet>, domain: string, data: string): string
    decreases |fs|
  {
    if fs == [] then data
    else ApplyFilter(fs[|fs| - 1], domain, ApplyFilters(fs[..|fs| - 1], domain, data))
  }

  /** Applying two lists of filters in a row is applying their
      concatenation. */
  lemma {:induction false} ApplyFiltersConcat(a: seq<FilterSet>, b: seq<FilterSet>, domain: string, data: string)
    ensures ApplyFilters(a + b, domain, data) == ApplyFilters(b, domain, ApplyFilters(a, domain, data))
    decreases |b|
  {
    if b != [] {
      assert (a + b)[..|a + b| - 1] == a + b[..|b| - 1];
      assert (a + b)[|a + b| - 1] == b[|b| - 1];
      ApplyFiltersConcat(a, b[..|b| - 1], domain, data);
    } else {
      assert a + b == a;
    }
  }

  /** Filters whose domain patterns do not match the host change nothing. */
  lemma {:induction false} ApplyFiltersOtherHosts(fs: seq<FilterSet>, domain: string, data: string)
    requires forall k :: 0 <= k < |fs| ==> !fs[k].domain(domain)
    ensures ApplyFilters(fs, domain, data) == data
    decreases |fs|
  {
    if fs != [] {
      ApplyFiltersOtherHosts(fs[..|fs| - 1], domain, data);
    }
  }

  /** `filter`: the host's filters in list order, then the site-relative
      links completed against the base address, then, when asked, the
      inline links removed. An address that does not parse has the empty
      host and base. */
  function FilterText(fs: seq<FilterSet>, info: Option<UrlInfo>, data: string, ignoreLinks: bool): string {
    var domain := if info.None? then "" else info.value.hostname;
    var base := if info.None? then "" else info.value.baseAddress;
    var t := MakeRelativeUrlsAbsolute(ApplyFilters(fs, domain, data), base);
    if ignoreLinks then RemoveInlineLinks(t) else t
  }

  /** The built-in filters, in order of application. */
  const DefaultFilters: seq<FilterSet> := [GlobalFilter, WikipediaFilter, MediumFilter, StackOverflowFilter]

  /** For an address that does not parse, only the global filter applies:
      the empty host matches no site's domain, and no link is completed. */
  lemma UnparsedAddressGlobalOnly(data: string, ignoreLinks: bool)
    ensures var t := ApplyFilter(GlobalFilter, "", data);
      FilterText(DefaultFilters, None, data, ignoreLinks) == if ignoreLinks then RemoveInlineLinks(t) else t
  {
    ContainsNeedsLength("", ".wikipedia.org");
    ContainsNeedsLength("", "medium.com");
    ContainsNeedsLength("", "stackoverflow.com");
    ApplyFiltersConcat([GlobalFilter], [WikipediaFilter, MediumFilter, StackOverflowFilter], "", data);
    assert [GlobalFilter] + [WikipediaFilter, MediumFilter, StackOverflowFilter] == DefaultFilters;
    ApplyFiltersOtherHosts([WikipediaFilter, MediumFilter, StackOverflowFilter], "", ApplyFilter(GlobalFilter, "", data));
  }

  /** The module-level filter list of `src/filters/index.js`, which
      `addFilter` extends. */
  class Registry {
    var filters: seq<FilterSet>

    /** The list as the module loads it. */
    constructor()
      ensures filters == DefaultFilters
    {
      filters := DefaultFilters;
    }

    /** `addFilter`: the new filter is applied after all earlier ones. */
    method AddFilter(f: FilterSet)
      modifies this
      ensures filters == old(filters) + [f]
    {
      filters := filters + [f];
    }

    /** `filter`, given the outcome of `parseUrl` for the address. */
    method Filter(info: Option<UrlInfo>, data: string, ignoreLinks: bool) returns (r: string)
      ensures r == FilterText(filters, info, data, ignoreLinks)
    {
      var domain := if info.None? then "" else info.value.hostname;
      var base := if info.None? then "" else info.value.baseAddress;
      r := data;
      var k := 0;
      while k < |filters|
        invariant 0 <= k <= |filters|
        invariant r == ApplyFilters(filters[..k], domain, data)
      {
        assert filters[..k + 1][..k] == filters[..k];
        var f := filters[k];
        if f.domain(domain) {
          r := ApplyRemovePatterns(r, f.remove);
          r := ApplyReplacePatterns(r, f.replace);
        }
        k := k + 1;
      }
      assert filters[..k] == filters;
      r := MakeRelativeUrlsAbsolute(r, base);
      if ignoreLinks {
        r := RemoveInlineLinks(r);
      }
    }
  }

  /** A filter added to the registry runs last, on what the earlier filters
      produced. */
  lemma AddedFilterRunsLast(fs: seq<FilterSet>, f: FilterSet, domain: string, data: string)
    ensures ApplyFilters(fs + [f], domain, data) == ApplyFilter(f, domain, ApplyFilters(fs, domain, data))
  {
    assert (fs + [f])[..|fs|] == fs;
  }
}
