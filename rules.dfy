/** The shape of a filter of `src/filters/`: a domain pattern, an optional
    list of patterns whose matches are removed and an optional list of
    rewrite rules, together with the small scanners several of their
    regular expressions share. */
module Rules {
  import opened Wrappers
  import opened Text
  import opened Rewrite

  /** A filter. `domain` holds for the host names on which `domain.match`
      of the filter's pattern succeeds; a rewrite rule is a matcher that
      yields the replacement text of each match. */
  datatype FilterSet = FilterSet(domain: string -> bool, remove: Option<seq<Matcher>>, replace: Option<seq<Matcher>>)

  /** A character `[^\s]` accepts. */
  predicate NotSpace(c: char) { !IsSpace(c) }

  /** The first position at or after `j` holding `c`, or `|s|`: where a
      greedy `[^c]*` starting at `j` stops. */
  function FirstFrom(s: string, j: nat, c: char): (r: nat)
    requires j <= |s|
    ensures j <= r <= |s| && (r < |s| ==> s[r] == c)
    ensures forall k :: j <= k < r ==> s[k] != c
    decreases |s| - j
  {
    if j < |s| && s[j] != c then FirstFrom(s, j + 1, c) else j
  }

  /** A stretch free of `c` that ends at a `c` or at the end of `s` is what
      `FirstFrom` finds. */
  lemma {:induction false} FirstFromExact(s: string, j: nat, e: nat, c: char)
    requires j <= e <= |s| && (e < |s| ==> s[e] == c)
    requires forall k :: j <= k < e ==> s[k] != c
    ensures FirstFrom(s, j, c) == e
    decreases e - j
  {
    if j < e {
      FirstFromExact(s, j + 1, e, c);
    }
  }

  /** A run of characters satisfying `p` that ends at the first character
      refusing it is what `RunEnd` finds. */
  lemma {:induction false} RunEndExact(s: string, j: nat, e: nat, p: char -> bool)
    requires j <= e <= |s| && (e < |s| ==> !p(s[e]))
    requires forall k :: j <= k < e ==> p(s[k])
    ensures RunEnd(s, j, p) == e
    decreases e - j
  {
    if j < e {
      RunEndExact(s, j + 1, e, p);
    }
  }

  /** A character `.` accepts. */
  predicate InLine(c: char) { !IsLineTerminator(c) }

  /** The end of the line that starts at `j`: where a greedy `.*` stops. */
  function LineEnd(s: string, j: nat): (r: nat)
    requires j <= |s|
    ensures j <= r <= |s| && (r < |s| ==> IsLineTerminator(s[r]))
    ensures forall k :: j <= k < r ==> !IsLineTerminator(s[k])
  {
    RunEnd(s, j, InLine)
  }

  /** A stretch without line terminators that ends at one, or at the end of
      `s`, is the line `LineEnd` finds. */
  lemma LineEndExact(s: string, j: nat, e: nat)
    requires j <= e <= |s| && (e < |s| ==> IsLineTerminator(s[e]))
    requires forall k :: j <= k < e ==> !IsLineTerminator(s[k])
    ensures LineEnd(s, j) == e
  {
    RunEndExact(s, j, e, InLine);
  }

  /** `[^\s]+\s+"[^"]+"\)` at `j`, a link target followed by a quoted title:
      the position after its `)`. Each part stops at the first character
      its class refuses, so backtracking never finds another match. */
  function TitledTargetEnd(s: string, j: nat): (r: Option<nat>)
    requires j <= |s|
    ensures r.Some? ==> j < r.value <= |s| && s[r.value - 1] == ')'
    ensures r.Some? ==> exists a, b :: TitledTargetParts(s, j, a, b, r.value)
  {
    var a := RunEnd(s, j, NotSpace);
    if a == j || a == |s| then None
    else
      var b := RunEnd(s, a, IsSpace);
      if b == |s| || s[b] != '"' then None
      else
        var c := FirstFrom(s, b + 1, '"');
        if c == b + 1 || c + 1 >= |s| || s[c + 1] != ')' then None
        else
          assert TitledTargetParts(s, j, a, b, c + 2);
          Some(c + 2)
  }

  /** `s[j..e]` reads target, spaces, quoted title and `)`: the target
      `s[j..a]` has no space, `s[a..b]` is all spaces, and the title between
      the quotes at `b` and `e - 2` has no quote. */
  predicate TitledTargetParts(s: string, j: nat, a: nat, b: nat, e: nat) {
    && j < a < b && b + 3 < e <= |s|
    && (forall k :: j <= k < a ==> !IsSpace(s[k]))
    && (forall k :: a <= k < b ==> IsSpace(s[k]))
    && s[b] == '"' && s[e - 2] == '"' && s[e - 1] == ')'
    && (forall k :: b < k < e - 2 ==> s[k] != '"')
  }

  /** Any target-and-title text of that shape is recognised, with the same
      end: the scanner matches every string the pattern matches. */
  lemma TitledTargetComplete(s: string, j: nat, a: nat, b: nat, e: nat)
    requires TitledTargetParts(s, j, a, b, e)
    ensures TitledTargetEnd(s, j) == Some(e)
  {
    RunEndExact(s, j, a, NotSpace);
    RunEndExact(s, a, b, IsSpace);
    FirstFromExact(s, b + 1, e - 2, '"');
  }

  /** The Markdown link `[name](target)`. */
  function Link(name: string, target: string): (t: string)
    ensures |t| == |name| + |target| + 4
  {
    "[" + name + "](" + target + ")"
  }

  /** Where the characters of a link lie: `[`, the name one by one, and
      the target one by one up to the final `)`. */
  lemma LinkLayout(name: string, target: string)
    ensures var t := Link(name, target);
      && t[0] == '[' && t[|t| - 1] == ')'
      && (forall x :: 1 <= x <= |name| ==> t[x] == name[x - 1])
      && (forall x :: |name| + 3 <= x < |t| - 1 ==> t[x] == target[x - |name| - 3])
  {}

  /** Where the parts of a link lie: the name before `](` and the target
      after it. */
  lemma LinkParts(name: string, target: string)
    ensures var t := Link(name, target);
      && t[|name| + 1] == ']' && t[|name| + 2] == '('
      && t[1..|name| + 1] == name && t[|name| + 3..|t| - 1] == target
  {}
}
