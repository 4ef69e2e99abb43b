/** `wikipediaFilter` of `src/filters/wikipedia.js`: on Wikipedia pages the
    removals of `WikipediaRemovals` run first, then thumbnails are replaced
    by the full-size image and headings are given an underline as long as
    their title. */
module Wikipedia {
  import opened Wrappers
  import opened Text
  import opened Rewrite
  import opened Rules
  import opened WikipediaRemovals

  /** `/.*\.wikipedia\.org/`: the leading `.*` may match nothing, so a host
      matches iff it contains `.wikipedia.org`. */
  predicate WikipediaHost(host: string) {
    Contains(host, ".wikipedia.org")
  }

  /** Every language sub-domain matches. */
  lemma WikipediaHostSubdomain(sub: string)
    ensures WikipediaHost(sub + ".wikipedia.org")
  {
    ContainsSuffix(sub, ".wikipedia.org");
  }

  /** The bare domain does not: the pattern needs the dot in front of it. */
  lemma WikipediaBareDomain()
    ensures !WikipediaHost("wikipedia.org")
  {
    ContainsNeedsLength("wikipedia.org", ".wikipedia.org");
  }

  /** `s[a..b]` holds no line terminator: what `.{n}` accepts. */
  predicate InLineRange(s: string, a: nat, b: nat) {
    a <= b <= |s| && forall k :: a <= k < b ==> InLine(s[k])
  }

  /** `\(https:\/\/upload.wikimedia.org\/wikipedia\/` at `i`, in any case.
      The two unescaped dots of the host name match any character but a
      line terminator. The prefix is 40 characters long. */
  predicate ThumbPrefix(s: string, i: nat) {
    && StartsAtFolded(s, i, "(https://upload") && i + 40 <= |s| && InLine(s[i + 15])
    && StartsAtFolded(s, i + 16, "wikimedia") && InLine(s[i + 25])
    && StartsAtFolded(s, i + 26, "org/wikipedia/")
  }

  /** `\/[^\)]+\)` at `y`: where the size-prefixed file name and its `)`
      end. */
  function TailEnd(s: string, y: nat): (r: Option<nat>)
    ensures r.Some? ==> y + 2 < r.value <= |s| && s[y] == '/' && s[r.value - 1] == ')'
    ensures r.Some? ==> forall k :: y < k < r.value - 1 ==> s[k] != ')'
  {
    if y < |s| && s[y] == '/' then
      var r := FirstFrom(s, y + 1, ')');
      if r > y + 1 && r < |s| then Some(r + 1) else None
    else None
  }

  /** `\..{3,4}` at the dot `x`, followed by the tail: the position of the
      tail's `/`. The greedy `{3,4}` tries four characters before three. */
  function DotCandidate(s: string, x: nat): (r: Option<nat>)
    ensures r.Some? ==> x < |s| && s[x] == '.' && (r.value == x + 5 || r.value == x + 4)
    ensures r.Some? ==> InLineRange(s, x + 1, r.value) && TailEnd(s, r.value).Some?
    ensures r.Some? && r.value == x + 4 ==> !(InLineRange(s, x + 1, x + 5) && TailEnd(s, x + 5).Some?)
  {
    if x < |s| && s[x] == '.' then
      if InLineRange(s, x + 1, x + 5) && TailEnd(s, x + 5).Some? then Some(x + 5)
      else if InLineRange(s, x + 1, x + 4) && TailEnd(s, x + 4).Some? then Some(x + 4)
      else None
    else None
  }

  /** Backtracking of the greedy `[^\)]+`: the last dot in `[lo, top)` from
      which the rest of the pattern matches. */
  function LastDot(s: string, lo: nat, top: nat): (r: Option<nat>)
    requires lo <= top
    ensures r.Some? ==> lo <= r.value < top && DotCandidate(s, r.value).Some?
    ensures r.Some? ==> forall x :: r.value < x < top ==> DotCandidate(s, x).None?
    ensures r.None? ==> forall x :: lo <= x < top ==> DotCandidate(s, x).None?
    decreases top - lo
  {
    if top == lo then None
    else if DotCandidate(s, top - 1).Some? then Some(top - 1)
    else LastDot(s, lo, top - 1)
  }

  /** The replacement `"(https://upload.wikimedia.org/wikipedia/$1/$2)"`. */
  function FullSize(g1: string, g2: string): string {
    "(https://upload.wikimedia.org/wikipedia/" + g1 + "/" + g2 + ")"
  }

  /** `s[a..b]` holds no `)`. */
  predicate NoClose(s: string, a: nat, b: nat) {
    b <= |s| && forall k :: a <= k < b ==> s[k] != ')'
  }

  /** The prefix, the first group `([^\/]+)` and `\/thumb\/` at `i`: the
      position of the `/` that ends the first group. */
  function ThumbGroupEnd(s: string, i: nat): (r: Option<nat>)
    ensures r.Some? ==> i + 40 < r.value && r.value + 7 <= |s|
    ensures r.Some? ==> ThumbPrefix(s, i) && StartsAtFolded(s, r.value, "/thumb/")
    ensures r.Some? ==> forall k :: i + 40 <= k < r.value ==> s[k] != '/'
  {
    if ThumbPrefix(s, i) then
      var p := FirstFrom(s, i + 40, '/');
      if p > i + 40 && StartsAtFolded(s, p, "/thumb/") then Some(p) else None
    else None
  }

  /** Where the second group's dot and `/` lie, and where the match ends. */
  datatype ThumbRest = ThumbRest(x: nat, y: nat, end: nat)

  /** The second group `([^\)]+\..{3,4})` and the tail from `a`. */
  function ThumbRestFrom(s: string, a: nat): (r: Option<ThumbRest>)
    requires a <= |s|
    ensures r.Some? ==> a < r.value.x && r.value.x + 4 <= r.value.y && r.value.y + 2 < r.value.end <= |s|
  {
    var q := FirstFrom(s, a, ')');
    if q <= a then None
    else
      var x := LastDot(s, a + 1, q);
      if x.None? then None
      else
        var y := DotCandidate(s, x.value).value;
        Some(ThumbRest(x.value, y, TailEnd(s, y).value))
  }

  /** The global pattern
      `\(https:\/\/upload.wikimedia.org\/wikipedia\/([^\/]+)\/thumb\/([^\)]+\..{3,4})\/[^\)]+\)`,
      ignoring case, at `i`, as a matcher: the address of the full-size
      image. The first group stops at the first `/`; the second is the
      longest reading: it ends at the last dot, before the first `)`, that
      is followed by three or four characters, a `/`, a non-empty name and
      a `)`. */
  function ThumbAt(s: string, i: nat): (r: Option<Hit>)
    ensures r.Some? ==> i < r.value.end <= |s|
  {
    var g := ThumbGroupEnd(s, i);
    if g.None? then None
    else
      var rest := ThumbRestFrom(s, g.value + 7);
      if rest.None? then None
      else Some(Hit(rest.value.end, FullSize(s[i + 40..g.value], s[g.value + 7..rest.value.y])))
  }

  /** The first group is found wherever the prefix is followed by a
      non-empty run without `/` and then `/thumb/`. */
  lemma ThumbGroupComplete(s: string, i: nat, p: nat)
    requires ThumbPrefix(s, i) && i + 40 < p && StartsAtFolded(s, p, "/thumb/")
    requires forall k :: i + 40 <= k < p ==> s[k] != '/'
    ensures ThumbGroupEnd(s, i) == Some(p)
  {
    assert s[p] == '/' by {
      assert Lower(s[p + 0]) == Lower("/thumb/"[0]);
    }
    FirstFromExact(s, i + 40, p, '/');
  }

  /** What the thumbnail rule keeps as its second group: no `)` up to its
      extension, a dot and three or four characters of the line; the
      size-prefixed name after the `/` at `y` is dropped. */
  lemma ThumbRestSound(s: string, a: nat)
    requires a <= |s| && ThumbRestFrom(s, a).Some?
    ensures var r := ThumbRestFrom(s, a).value;
      && NoClose(s, a, r.x) && s[r.x] == '.'
      && (r.y == r.x + 4 || r.y == r.x + 5) && InLineRange(s, r.x + 1, r.y)
      && s[r.y] == '/' && NoClose(s, r.y + 1, r.end - 1) && s[r.end - 1] == ')'
  {
    var q := FirstFrom(s, a, ')');
    var x := LastDot(s, a + 1, q).value;
    var r := ThumbRestFrom(s, a).value;
    assert r.x == x;
  }

  /** The second group is the longest possible: it keeps four characters
      after the dot when the rest fits, and no later dot before the first
      `)` could end it. */
  lemma ThumbRestLongest(s: string, a: nat)
    requires a <= |s| && ThumbRestFrom(s, a).Some?
    ensures var r := ThumbRestFrom(s, a).value; var q := FirstFrom(s, a, ')');
      && r.x < q
      && (r.y == r.x + 4 ==> !(InLineRange(s, r.x + 1, r.x + 5) && TailEnd(s, r.x + 5).Some?))
      && forall z :: r.x < z < q ==> DotCandidate(s, z).None?
  {
    var q := FirstFrom(s, a, ')');
    var x := LastDot(s, a + 1, q).value;
    var r := ThumbRestFrom(s, a).value;
    assert r.x == x;
  }

  /** A character `\-` accepts. */
  predicate IsDash(c: char) { c == '-' }

  /** The replacement function: the title, then a line of as many dashes as
      the title is long. */
  function Underlined(title: string): string {
    "\n" + title + "\n" + Repeat('-', Utf16Length(title)) + "\n"
  }

  /** The global pattern `\n(.+)\n\-{32,}\n`, ignoring case, with a function
      as its replacement, so no `$`-pattern is expanded: a line feed, a
      non-empty title line ending at a line feed, at least 32 dashes and a
      line feed. The title is the whole line, since `.` stops at the first
      line terminator and only a line feed may follow it. */
  function HeadingAt(s: string, i: nat): (r: Option<Hit>)
    ensures r.Some? ==> i < r.value.end <= |s|
  {
    if i < |s| && s[i] == '\n' then
      var t := LineEnd(s, i + 1);
      if t > i + 1 && t < |s| && s[t] == '\n' then
        var d := RunEnd(s, t + 1, IsDash);
        if d >= t + 33 && d < |s| && s[d] == '\n' then Some(Hit(d + 1, Underlined(s[i + 1..t])))
        else None
      else None
    else None
  }

  /** A line feed at `i`, a title line up to the line feed at `t`, at least
      32 dashes, and the line feed that ends the match at `e`. */
  predicate HeadingLayout(s: string, i: nat, t: nat, e: nat) {
    && i + 1 < t && t + 34 <= e <= |s| && s[i] == '\n' && s[t] == '\n' && s[e - 1] == '\n'
    && (forall k :: i < k < t ==> !IsLineTerminator(s[k]))
    && (forall k :: t < k < e - 1 ==> s[k] == '-')
  }

  /** Every heading of that layout is matched and rewritten with the title
      between `i + 1` and `t`. */
  lemma HeadingComplete(s: string, i: nat, t: nat, e: nat)
    requires HeadingLayout(s, i, t, e)
    ensures HeadingAt(s, i) == Some(Hit(e, Underlined(s[i + 1..t])))
  {
    LineEndExact(s, i + 1, t);
    RunEndExact(s, t + 1, e - 1, IsDash);
  }

  /** What the rule rewrites is a heading of that layout. */
  lemma HeadingSound(s: string, i: nat)
    requires HeadingAt(s, i).Some?
    ensures exists t: nat :: HeadingLayout(s, i, t, HeadingAt(s, i).value.end)
  {
    var t := LineEnd(s, i + 1);
    assert HeadingLayout(s, i, t, HeadingAt(s, i).value.end);
  }

  /** The Wikipedia filter: the nine removals, then the two rewrites. */
  const WikipediaFilter: FilterSet := FilterSet(WikipediaHost, Some(Removals), Some([ThumbAt, HeadingAt]))
}
