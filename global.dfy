/** `globalFilter` of `src/filters/global.js`: the rules applied to the
    Markdown of every page, whatever its host. */
module Global {
  import opened Wrappers
  import opened Text
  import opened Rewrite
  import opened Rules

  /** The domain pattern `.*` matches the empty string, so it matches every
      host name. */
  predicate AnyHost(host: string) {
    true
  }

  /** The heading anchor some sites render as `[Â¶](#`: a pilcrow read with
      the wrong encoding. */
  const PilcrowOpen: string := "[\U{C2}\U{B6}](#"

  /** `/\[Â¶\]\(#[^\s]+\s+"[^"]+"\)/g`, removed. */
  function PilcrowAt(s: string, i: nat): (r: Option<Hit>)
    ensures r.Some? ==> StartsAt(s, i, PilcrowOpen) && i + 6 < r.value.end <= |s| && s[r.value.end - 1] == ')'
  {
    if StartsAt(s, i, PilcrowOpen) then
      match TitledTargetEnd(s, i + 6)
      case None => None
      case Some(e) => Some(Hit(e, ""))
    else None
  }

  /** `s[i..e]` is a pilcrow anchor: the opening, then a target, spaces and
      a quoted title (see `TitledTargetParts`). */
  predicate PilcrowParts(s: string, i: nat, a: nat, b: nat, e: nat) {
    StartsAt(s, i, PilcrowOpen) && TitledTargetParts(s, i + 6, a, b, e)
  }

  /** What the rule removes is a pilcrow anchor of the pattern's shape. */
  lemma PilcrowSound(s: string, i: nat)
    requires PilcrowAt(s, i).Some?
    ensures exists a, b :: PilcrowParts(s, i, a, b, PilcrowAt(s, i).value.end)
  {
    var e := PilcrowAt(s, i).value.end;
    var a, b :| TitledTargetParts(s, i + 6, a, b, e);
    assert PilcrowParts(s, i, a, b, e);
  }

  /** Every pilcrow anchor of the pattern's shape is removed up to its `)`. */
  lemma PilcrowComplete(s: string, i: nat, a: nat, b: nat, e: nat)
    requires PilcrowParts(s, i, a, b, e)
    ensures PilcrowAt(s, i) == Some(Hit(e, ""))
  {
    TitledTargetComplete(s, i + 6, a, b, e);
  }

  /** A character of a link text as `[^\]\n]` accepts it. */
  predicate LabelChar(c: char) {
    c != ']' && c != '\n'
  }

  /** `/\[[\n\s]*([^\]\n]*)[\n\s]*\]\(([^\)]*)\)/g` with `"[$1]($2)"`: the
      white space after `[` is dropped. Neither part of the text can hold a
      `]`, so every way to read the text ends at the same first `]`, and the
      greedy reading gives the groups: white space before the `]` stays in
      the first group unless a line feed separates it. */
  function LinkSpacingAt(s: string, i: nat): (r: Option<Hit>)
    ensures r.Some? ==> i < r.value.end <= |s| && s[i] == '[' && s[r.value.end - 1] == ')'
  {
    if i < |s| && s[i] == '[' then
      var j := RunEnd(s, i + 1, IsSpace);
      var k := RunEnd(s, j, LabelChar);
      var p := RunEnd(s, k, IsSpace);
      if p + 1 < |s| && s[p] == ']' && s[p + 1] == '(' then
        var m := FirstFrom(s, p + 2, ')');
        if m < |s| then Some(Hit(m + 1, Link(s[j..k], s[p + 2..m])))
        else None
      else None
    else None
  }

  /** The match of the rule at `i`, given where each of its parts ends. */
  lemma LinkSpacingAtParts(s: string, i: nat, j: nat, k: nat, p: nat, m: nat)
    requires i < |s| && s[i] == '[' && RunEnd(s, i + 1, IsSpace) == j && RunEnd(s, j, LabelChar) == k
    requires RunEnd(s, k, IsSpace) == p && p + 1 < |s| && s[p] == ']' && s[p + 1] == '('
    requires FirstFrom(s, p + 2, ')') == m && m < |s|
    ensures LinkSpacingAt(s, i) == Some(Hit(m + 1, Link(s[j..k], s[p + 2..m])))
  {}

  /** A link whose text starts with no white space and holds no `]` or line
      feed, and whose target holds no `)`, is matched whole and written back
      unchanged. */
  lemma TidyLinkUnchanged(name: string, target: string)
    requires forall x :: 0 <= x < |name| ==> LabelChar(name[x])
    requires name != [] ==> !IsSpace(name[0])
    requires forall x :: 0 <= x < |target| ==> target[x] != ')'
    ensures LinkSpacingAt(Link(name, target), 0) == Some(Hit(|Link(name, target)|, Link(name, target)))
  {
    var t := Link(name, target);
    var k := 1 + |name|;
    LinkParts(name, target);
    TidyLinkName(name, target);
    TidyLinkTarget(name, target);
    LinkSpacingAtParts(t, 0, 1, k, k, |t| - 1);
  }

  /** A link with loose white space at `i`: `[` and white space up to `j`;
      the text, holding no `]` or line feed, up to `k`; white space up to
      the `](` at `p`; and the target, holding no `)`, up to the `)` at
      `m`. */
  predicate LinkSpacingLayout(s: string, i: nat, j: nat, k: nat, p: nat, m: nat) {
    && i < j <= k <= p && p + 2 <= m < |s| && s[i] == '['
    && (forall x :: i < x < j ==> IsSpace(s[x])) && !IsSpace(s[j])
    && (forall x :: j <= x < k ==> LabelChar(s[x])) && !LabelChar(s[k])
    && (forall x :: k <= x < p ==> IsSpace(s[x])) && s[p] == ']' && s[p + 1] == '('
    && (forall x :: p + 2 <= x < m ==> s[x] != ')') && s[m] == ')'
  }

  /** Every such link is matched whole and rewritten with the white space
      after `[` dropped. */
  lemma LinkSpacingComplete(s: string, i: nat, j: nat, k: nat, p: nat, m: nat)
    requires LinkSpacingLayout(s, i, j, k, p, m)
    ensures LinkSpacingAt(s, i) == Some(Hit(m + 1, Link(s[j..k], s[p + 2..m])))
  {
    RunEndExact(s, i + 1, j, IsSpace);
    RunEndExact(s, j, k, LabelChar);
    RunEndExact(s, k, p, IsSpace);
    FirstFromExact(s, p + 2, m, ')');
    LinkSpacingAtParts(s, i, j, k, p, m);
  }

  /** Whatever the rule rewrites is such a link, and the rewrite is its
      text and target. */
  lemma LinkSpacingSound(s: string, i: nat)
    requires LinkSpacingAt(s, i).Some?
    ensures exists j: nat, k: nat, p: nat, m: nat ::
      (LinkSpacingLayout(s, i, j, k, p, m) && LinkSpacingAt(s, i).value == Hit(m + 1, Link(s[j..k], s[p + 2..m])))
  {
    var j := RunEnd(s, i + 1, IsSpace);
    var k := RunEnd(s, j, LabelChar);
    var p := RunEnd(s, k, IsSpace);
    var m := FirstFrom(s, p + 2, ')');
    LinkSpacingAtParts(s, i, j, k, p, m);
    assert LinkSpacingLayout(s, i, j, k, p, m);
  }

  /** In a tidy link the link text starts right after `[` and ends at `]`. */
  lemma TidyLinkName(name: string, target: string)
    requires forall x :: 0 <= x < |name| ==> LabelChar(name[x])
    requires name != [] ==> !IsSpace(name[0])
    ensures var t := Link(name, target);
      RunEnd(t, 1, IsSpace) == 1 && RunEnd(t, 1, LabelChar) == |name| + 1 && RunEnd(t, |name| + 1, IsSpace) == |name| + 1
  {
    var t := Link(name, target);
    var k := 1 + |name|;
    LinkLayout(name, target);
    assert t[1] == if name == [] then ']' else name[0];
    RunEndExact(t, 1, 1, IsSpace);
    forall x | 1 <= x < k ensures LabelChar(t[x]) {
      assert t[x] == name[x - 1];
    }
    RunEndExact(t, 1, k, LabelChar);
    RunEndExact(t, k, k, IsSpace);
  }

  /** In a tidy link the target ends at the final `)`. */
  lemma TidyLinkTarget(name: string, target: string)
    requires forall x :: 0 <= x < |target| ==> target[x] != ')'
    ensures var t := Link(name, target); FirstFrom(t, |name| + 3, ')') == |t| - 1
  {
    var t := Link(name, target);
    LinkLayout(name, target);
    FirstFromExact(t, |name| + 3, |t| - 1, ')');
  }

  /** The link the rule writes is tidy already: the rule matches it whole
      and writes it back unchanged. */
  lemma LinkSpacingTidy(s: string, i: nat)
    requires LinkSpacingAt(s, i).Some?
    ensures var t := LinkSpacingAt(s, i).value.text; LinkSpacingAt(t, 0) == Some(Hit(|t|, t))
  {
    var j := RunEnd(s, i + 1, IsSpace);
    var k := RunEnd(s, j, LabelChar);
    var p := RunEnd(s, k, IsSpace);
    var m := FirstFrom(s, p + 2, ')');
    LinkSpacingAtParts(s, i, j, k, p, m);
    var name := s[j..k];
    assert forall x :: 0 <= x < |name| ==> name[x] == s[j + x];
    var target := s[p + 2..m];
    assert forall x :: 0 <= x < |target| ==> target[x] == s[p + 2 + x];
    TidyLinkUnchanged(name, target);
  }

  /** `/\)\[/g` with `")\n["`: links stuck together go on separate lines. */
  function StuckLinksAt(s: string, i: nat): Option<Hit> {
    LiteralAt(")[", ")\n[", s, i)
  }

  /** Separating stuck links leaves none stuck, so a second pass changes
      nothing. */
  lemma StuckLinksIdempotent(s: string)
    ensures Absent(ReplaceAll(s, StuckLinksAt), ")[")
    ensures ReplaceAll(ReplaceAll(s, StuckLinksAt), StuckLinksAt) == ReplaceAll(s, StuckLinksAt)
  {
    var find := ")[";
    var repl := ")\n[";
    assert find[1..] == "[" && repl[1..] == "\n[" && repl[..2] == ")\n";
    LiteralReplaceIdempotent(find, repl, StuckLinksAt, s);
  }

  /** `/\[([^\]]*)\]\(\/\/([^\)]*)\)/g` with `"[$1](https://$2)"`: a
      protocol-relative link gets the `https:` scheme. */
  function SchemeAt(s: string, i: nat): (r: Option<Hit>)
    ensures r.Some? ==> i < r.value.end <= |s| && s[i] == '[' && s[r.value.end - 1] == ')'
  {
    if i < |s| && s[i] == '[' then
      var k := FirstFrom(s, i + 1, ']');
      if StartsAt(s, k + 1, "(//") then
        var m := FirstFrom(s, k + 4, ')');
        if m < |s| then Some(Hit(m + 1, Link(s[i + 1..k], "https://" + s[k + 4..m])))
        else None
      else None
    else None
  }

  /** The match of the scheme rule at `i`, given where its parts end. */
  lemma SchemeAtParts(s: string, i: nat, k: nat, m: nat)
    requires i < |s| && s[i] == '[' && FirstFrom(s, i + 1, ']') == k && StartsAt(s, k + 1, "(//")
    requires FirstFrom(s, k + 4, ')') == m && m < |s|
    ensures SchemeAt(s, i) == Some(Hit(m + 1, Link(s[i + 1..k], "https://" + s[k + 4..m])))
  {}

  /** Where the link at `i` has no `(//` after its `]`, the rule does not
      match. */
  lemma SchemeAtNoSlashes(s: string, i: nat, k: nat)
    requires i < |s| && FirstFrom(s, i + 1, ']') == k && !StartsAt(s, k + 1, "(//")
    ensures SchemeAt(s, i).None?
  {}

  /** A link that has been given its scheme is not rewritten again. */
  lemma SchemeOnce(s: string, i: nat)
    requires SchemeAt(s, i).Some?
    ensures SchemeAt(SchemeAt(s, i).value.text, 0).None?
  {
    var k := FirstFrom(s, i + 1, ']');
    var m := FirstFrom(s, k + 4, ')');
    SchemeAtParts(s, i, k, m);
    var name := s[i + 1..k];
    assert forall x :: 0 <= x < |name| ==> name[x] == s[i + 1 + x];
    SchemedLinkOnce(name, s[k + 4..m]);
  }

  /** A protocol-relative link at `i`: `[`, a text without `]` up to the
      `]` at `k`, `(//`, and a rest without `)` up to the `)` at `m`. */
  predicate SchemeLayout(s: string, i: nat, k: nat, m: nat) {
    && i < k && k + 4 <= m < |s| && s[i] == '['
    && (forall x :: i < x < k ==> s[x] != ']') && s[k] == ']'
    && StartsAt(s, k + 1, "(//")
    && (forall x :: k + 4 <= x < m ==> s[x] != ')') && s[m] == ')'
  }

  /** `[t](//x)` becomes `[t](https://x)`. */
  lemma SchemeComplete(s: string, i: nat, k: nat, m: nat)
    requires SchemeLayout(s, i, k, m)
    ensures SchemeAt(s, i) == Some(Hit(m + 1, Link(s[i + 1..k], "https://" + s[k + 4..m])))
  {
    FirstFromExact(s, i + 1, k, ']');
    FirstFromExact(s, k + 4, m, ')');
    SchemeAtParts(s, i, k, m);
  }

  /** Whatever the rule rewrites is a protocol-relative link, given the
      `https:` scheme. */
  lemma SchemeSound(s: string, i: nat)
    requires SchemeAt(s, i).Some?
    ensures exists k: nat, m: nat ::
      (SchemeLayout(s, i, k, m) && SchemeAt(s, i).value == Hit(m + 1, Link(s[i + 1..k], "https://" + s[k + 4..m])))
  {
    var k := FirstFrom(s, i + 1, ']');
    var m := FirstFrom(s, k + 4, ')');
    SchemeAtParts(s, i, k, m);
    assert SchemeLayout(s, i, k, m);
  }

  /** A link to an `https://` target is not rewritten by the rule. */
  lemma SchemedLinkOnce(name: string, rest: string)
    requires forall x :: 0 <= x < |name| ==> name[x] != ']'
    ensures SchemeAt(Link(name, "https://" + rest), 0).None?
  {
    var t := Link(name, "https://" + rest);
    var k := 1 + |name|;
    LinkLayout(name, "https://" + rest);
    assert t[k + 2] == 'h';
    FirstFromExact(t, 1, k, ']');
    assert !StartsAt(t, k + 1, "(//") by {
      assert "(//"[1] == '/';
    }
    SchemeAtNoSlashes(t, 0, k);
  }

  /** The global filter: pilcrow anchors are removed, then link spacing,
      stuck links and missing schemes are repaired, on every host. */
  const GlobalFilter: FilterSet :=
    FilterSet(AnyHost, Some([PilcrowAt]), Some([LinkSpacingAt, StuckLinksAt, SchemeAt]))
}
