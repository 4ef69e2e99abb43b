/** `stackoverflowFilter` of `src/filters/stackoverflow.js`: on Stack
    Overflow pages the block that starts at the `* Links` item and ends at
    the last `Three |` is removed. */
module StackOverflow {
  import opened Wrappers
  import opened Text
  import opened Rewrite
  import opened Rules

  /** `/(?:.*\.)?stackoverflow\.com/`: a host matches iff it contains
      `stackoverflow.com`. */
  predicate StackOverflowHost(host: string) {
    Contains(host, "stackoverflow.com")
  }

  /** The bare domain and every sub-domain of it match. */
  lemma StackOverflowHostSubdomain(sub: string)
    ensures StackOverflowHost(sub + "stackoverflow.com")
  {
    ContainsSuffix(sub, "stackoverflow.com");
  }

  /** The character ` +` repeats. */
  predicate IsBlank(c: char) { c == ' ' }

  /** The only characters `(.|\r|\n)` refuses: the line and paragraph
      separators U+2028 and U+2029. */
  predicate NotSeparator(c: char) {
    c != '\U{2028}' && c != '\U{2029}'
  }

  /** `Three +\|` at `q`: the position after its `|`. */
  function ThreeBarEnd(s: string, q: nat): (r: Option<nat>)
    ensures r.Some? ==> StartsAt(s, q, "Three") && q + 6 < r.value <= |s| && s[r.value - 1] == '|'
    ensures r.Some? ==> forall x :: q + 5 <= x < r.value - 1 ==> s[x] == ' '
  {
    if StartsAt(s, q, "Three") then
      var t := RunEnd(s, q + 5, IsBlank);
      if t > q + 5 && t < |s| && s[t] == '|' then Some(t + 1) else None
    else None
  }

  /** `Three`, one or more blanks and `|` is recognised wherever it occurs. */
  lemma ThreeBarComplete(s: string, q: nat, t: nat)
    requires StartsAt(s, q, "Three") && q + 5 < t < |s| && s[t] == '|'
    requires forall x :: q + 5 <= x < t ==> s[x] == ' '
    ensures ThreeBarEnd(s, q) == Some(t + 1)
  {
    RunEndExact(s, q + 5, t, IsBlank);
  }

  /** No `Three |` starts inside another one: its letters after the `T`, its
      blanks and its `|` are no `T`. */
  lemma ThreeBarNoOverlap(s: string, q: nat, x: nat)
    requires ThreeBarEnd(s, q).Some?
    ensures q < x < ThreeBarEnd(s, q).value ==> ThreeBarEnd(s, x).None?
  {
    var e := ThreeBarEnd(s, q).value;
    if q < x < e {
      if x < q + 5 {
        assert s[q..q + 5] == "Three";
        assert s[x] == "Three"[x - q];
      }
      assert s[x] != 'T';
      assert x + 5 <= |s| ==> s[x..x + 5][0] == s[x];
    }
  }

  /** Backtracking of the greedy `(.|\r|\n)*`: the last position in
      `[b, top)` where `Three +\|` matches. */
  function LastThreeBar(s: string, b: nat, top: nat): (r: Option<nat>)
    requires b <= top
    ensures r.Some? ==> b <= r.value < top && ThreeBarEnd(s, r.value).Some?
    ensures r.Some? ==> forall x :: r.value < x < top ==> ThreeBarEnd(s, x).None?
    ensures r.None? ==> forall x :: b <= x < top ==> ThreeBarEnd(s, x).None?
    decreases top - b
  {
    if top == b then None
    else if ThreeBarEnd(s, top - 1).Some? then Some(top - 1)
    else LastThreeBar(s, b, top - 1)
  }

  /** The global pattern `\* +Links(.|\r|\n)*Three +\|` at `i`, removed. The
      middle part takes everything up to the first U+2028 or U+2029 and then
      gives back characters until `Three +\|` matches, so the match ends at
      the last `Three |` before that separator. */
  function LinksBlockAt(s: string, i: nat): (r: Option<Hit>)
    ensures r.Some? ==> i < r.value.end <= |s| && r.value.text == ""
  {
    if i < |s| && s[i] == '*' then
      var a := RunEnd(s, i + 1, IsBlank);
      if a > i + 1 && StartsAt(s, a, "Links") then
        var f := RunEnd(s, a + 5, NotSeparator);
        match LastThreeBar(s, a + 5, f)
        case None => None
        case Some(q) => Some(Hit(ThreeBarEnd(s, q).value, ""))
      else None
    else None
  }

  /** `* Links` at `i`: the star, one or more blanks, and `Links` ending at
      `b`. */
  predicate LinksOpening(s: string, i: nat, b: nat) {
    && i + 7 <= b <= |s| && s[i] == '*'
    && (forall x :: i < x < b - 5 ==> s[x] == ' ') && StartsAt(s, b - 5, "Links")
  }

  /** The first U+2028 or U+2029 at or after `b`, or the end of `s`. */
  function SeparatorFrom(s: string, b: nat): (f: nat)
    requires b <= |s|
    ensures b <= f <= |s| && (f < |s| ==> !NotSeparator(s[f]))
    ensures forall x :: b <= x < f ==> NotSeparator(s[x])
  {
    RunEnd(s, b, NotSeparator)
  }

  lemma LinksOpeningScan(s: string, i: nat, b: nat)
    requires LinksOpening(s, i, b)
    ensures RunEnd(s, i + 1, IsBlank) == b - 5
  {
    assert s[b - 5..b] == "Links";
    assert s[b - 5] == 'L';
    RunEndExact(s, i + 1, b - 5, IsBlank);
  }

  /** What the rule removes at `i`: from the `* Links` opening up to and
      including the last `Three |` that starts before the first separator,
      and nothing when there is none. */
  lemma LinksBlockExtent(s: string, i: nat, b: nat)
    requires LinksOpening(s, i, b)
    ensures var f := SeparatorFrom(s, b); var q := LastThreeBar(s, b, f);
      && (q.None? <==> LinksBlockAt(s, i).None?)
      && (q.Some? ==> LinksBlockAt(s, i).value.end == ThreeBarEnd(s, q.value).value)
  {
    LinksOpeningScan(s, i, b);
  }

  /** The block removed at `i` covers every `Three |` that starts after the
      opening and before the first separator: the removal is greedy. */
  lemma LinksBlockGreedy(s: string, i: nat, b: nat, q: nat)
    requires LinksOpening(s, i, b) && b <= q < SeparatorFrom(s, b) && ThreeBarEnd(s, q).Some?
    ensures LinksBlockAt(s, i).Some? && LinksBlockAt(s, i).value.end >= ThreeBarEnd(s, q).value
  {
    LinksBlockExtent(s, i, b);
    var f := SeparatorFrom(s, b);
    var last := LastThreeBar(s, b, f).value;
    ThreeBarNoOverlap(s, q, last);
  }

  /** The Stack Overflow filter: one removal, no rewrites. */
  const StackOverflowFilter: FilterSet := FilterSet(StackOverflowHost, Some([LinksBlockAt]), None)
}
