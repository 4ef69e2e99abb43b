/** How the converter applies a regular expression or a search string to a
    text. Every pattern of the converter is written as a `Matcher`: a scanner
    that says whether the pattern matches at a given position, where that
    match ends, and what text the rule puts in its place. On top of it this
    module defines the JavaScript operations the converter calls:
    `replace`/`replaceAll` with the global flag (`ReplaceAll`, `RemoveAll`),
    `match` with the global flag (`MatchAll`), `match` without it
    (`FirstHit`), and `String.prototype.replace` with a search string
    (`ReplaceFirst`), including the `$`-patterns of its replacement string. */
module Rewrite {
  import opened Wrappers
  import opened Text

  /** A match: the position just after the matched text, and the text the
      rule substitutes for it (removal rules ignore it). */
  datatype Hit = Hit(end: nat, text: string)

  /** A pattern, as a scanner: `m(s, i)` is the match that the regular
      expression's engine finds when it tries position `i` of `s`. */
  type Matcher = (string, nat) -> Option<Hit>

  /** `h` is a match inside `s` that starts at `i`. */
  predicate Fits(s: string, i: nat, h: Option<Hit>) {
    h.Some? && i <= h.value.end <= |s|
  }

  /** What a global `replace` produces from position `i` on: at each
      position, a match is replaced by its text (or by nothing when `erase`)
      and scanning resumes where the match ended; elsewhere one character is
      copied. After an empty match the next character is copied, as
      JavaScript advances `lastIndex` by one. */
  function ReplaceFrom(s: string, i: nat, m: Matcher, erase: bool): string
    requires i <= |s|
    decreases |s| - i
  {
    var h := m(s, i);
    if Fits(s, i, h) then
      (if erase then "" else h.value.text)
      + (if h.value.end > i then ReplaceFrom(s, h.value.end, m, erase)
         else if i < |s| then [s[i]] + ReplaceFrom(s, i + 1, m, erase)
         else "")
    else if i < |s| then [s[i]] + ReplaceFrom(s, i + 1, m, erase)
    else ""
  }

  /** `s.replaceAll(pattern, replacement)` for a global pattern. */
  function ReplaceAll(s: string, m: Matcher): string {
    ReplaceFrom(s, 0, m, false)
  }

  /** `s.replaceAll(pattern, "")`: every match deleted. */
  function RemoveAll(s: string, m: Matcher): string {
    ReplaceFrom(s, 0, m, true)
  }

  /** `m` matches nowhere in `s` at or after `i`. */
  predicate NoMatchFrom(s: string, i: nat, m: Matcher) {
    forall k :: i <= k <= |s| ==> !Fits(s, k, m(s, k))
  }

  /** Where a pattern matches nowhere, replacing changes nothing. */
  lemma {:induction false} NoMatchUnchanged(s: string, i: nat, m: Matcher, erase: bool)
    requires i <= |s|
    requires NoMatchFrom(s, i, m)
    ensures ReplaceFrom(s, i, m, erase) == s[i..]
    decreases |s| - i
  {
    assert !Fits(s, i, m(s, i));
    if i < |s| {
      NoMatchUnchanged(s, i + 1, m, erase);
      assert s[i..] == [s[i]] + s[i + 1..];
    }
  }

  /** The positions at which a global `match` finds its matches, from `i`
      on: in increasing order, each one a match, none inside an earlier one. */
  function MatchStarts(s: string, i: nat, m: Matcher): (r: seq<nat>)
    requires i <= |s|
    ensures forall k :: 0 <= k < |r| ==> i <= r[k] <= |s|
    ensures forall k :: 0 <= k < |r| ==> Fits(s, r[k], m(s, r[k]))
    ensures forall k :: 0 <= k < |r| - 1 ==> r[k] < r[k + 1]
    ensures forall k :: 0 <= k < |r| - 1 ==> Fits(s, r[k], m(s, r[k])) && m(s, r[k]).value.end <= r[k + 1]
    ensures NoMatchFrom(s, i, m) ==> r == []
    decreases |s| - i
  {
    var h := m(s, i);
    if Fits(s, i, h) then
      if h.value.end > i then [i] + MatchStarts(s, h.value.end, m)
      else if i < |s| then [i] + MatchStarts(s, i + 1, m)
      else [i]
    else if i < |s| then MatchStarts(s, i + 1, m)
    else []
  }

  /** Where a global `match` resumes after a match at `j`: its end, or the
      next position after an empty match. */
  function After(s: string, j: nat, m: Matcher): nat {
    if Fits(s, j, m(s, j)) && m(s, j).value.end > j then m(s, j).value.end else j + 1
  }

  /** The positions `r` follow one another as a global `match` finds them:
      each next one is the first hit where the previous match leaves off, and
      nothing matches after the last one. */
  predicate Chained(s: string, r: seq<nat>, m: Matcher) {
    (forall k :: 0 <= k < |r| - 1 ==>
       After(s, r[k], m) <= |s| && FirstHit(s, After(s, r[k], m), m) == Some(r[k + 1])) &&
    (r != [] && After(s, r[|r| - 1], m) <= |s| ==> NoMatchFrom(s, After(s, r[|r| - 1], m), m))
  }

  /** `MatchStarts` misses no match: it is empty exactly when nothing
      matches, its first position is the first hit from `i`, and its
      positions are chained as a global `match` finds them. */
  lemma {:induction false} MatchStartsComplete(s: string, i: nat, m: Matcher)
    requires i <= |s|
    ensures var r := MatchStarts(s, i, m);
      (r == [] <==> FirstHit(s, i, m).None?) &&
      (r != [] ==> FirstHit(s, i, m) == Some(r[0])) &&
      Chained(s, r, m)
    decreases |s| - i
  {
    if Fits(s, i, m(s, i)) {
      var a := After(s, i, m);
      if a <= |s| {
        MatchStartsComplete(s, a, m);
        var rest := MatchStarts(s, a, m);
        assert MatchStarts(s, i, m) == [i] + rest;
        ChainedCons(s, i, rest, m);
      } else {
        assert MatchStarts(s, i, m) == [i];
      }
    } else if i < |s| {
      MatchStartsComplete(s, i + 1, m);
      assert MatchStarts(s, i, m) == MatchStarts(s, i + 1, m);
    }
  }

  /** A match at `i` in front of the chain that starts where it leaves off
      extends the chain. */
  lemma ChainedCons(s: string, i: nat, rest: seq<nat>, m: Matcher)
    requires After(s, i, m) <= |s| && Chained(s, rest, m)
    requires rest == [] ==> NoMatchFrom(s, After(s, i, m), m)
    requires rest != [] ==> FirstHit(s, After(s, i, m), m) == Some(rest[0])
    ensures Chained(s, [i] + rest, m)
  {
    var r := [i] + rest;
    forall k | 0 <= k < |r| - 1
      ensures After(s, r[k], m) <= |s| && FirstHit(s, After(s, r[k], m), m) == Some(r[k + 1])
    {
      if k > 0 {
        assert r[k] == rest[k - 1] && r[k + 1] == rest[k];
      }
    }
  }

  /** `s.match(pattern)` for a global pattern: the matched substrings in
      order (the empty list stands for `null`). */
  function MatchAll(s: string, m: Matcher): (r: seq<string>)
    ensures var p := MatchStarts(s, 0, m);
      |r| == |p| && forall k :: 0 <= k < |r| ==> r[k] == s[p[k]..m(s, p[k]).value.end]
  {
    var p := MatchStarts(s, 0, m);
    seq(|p|, k requires 0 <= k < |p| => s[p[k]..m(s, p[k]).value.end])
  }

  /** Where a global `match` finds nothing, the result is empty (`null`). */
  lemma NoMatchNoMatches(s: string, m: Matcher)
    requires NoMatchFrom(s, 0, m)
    ensures MatchAll(s, m) == []
  {
  }

  /** `s.match(pattern)` without the global flag: the first position at or
      after `i` where the pattern matches. */
  function FirstHit(s: string, i: nat, m: Matcher): (r: Option<nat>)
    requires i <= |s|
    ensures r.Some? ==> i <= r.value <= |s| && Fits(s, r.value, m(s, r.value))
    ensures r.Some? ==> forall k :: i <= k < r.value ==> !Fits(s, k, m(s, k))
    ensures r.None? <==> NoMatchFrom(s, i, m)
    decreases |s| - i
  {
    if Fits(s, i, m(s, i)) then Some(i)
    else if i == |s| then None
    else FirstHit(s, i + 1, m)
  }

  /** A match at `j` with none from `i` up to it is the first hit. */
  lemma FirstHitAt(s: string, i: nat, j: nat, m: Matcher)
    requires i <= j <= |s| && Fits(s, j, m(s, j))
    requires forall k :: i <= k < j ==> !Fits(s, k, m(s, k))
    ensures FirstHit(s, i, m) == Some(j)
  {
  }

  /** The text a replacement string stands for in `String.prototype.replace`
      when the pattern is a search string: `$$` is `$`, `$&` the matched
      text, `` $` `` the text before the match, `$'` the text after it; any
      other `$` is literal (a search string has no capture groups). */
  function Substitute(repl: string, matched: string, before: string, after: string): string
    decreases |repl|
  {
    if |repl| >= 2 && repl[0] == '$' && repl[1] in "$&`'" then
      (if repl[1] == '$' then "$"
       else if repl[1] == '&' then matched
       else if repl[1] == '`' then before
       else after)
      + Substitute(repl[2..], matched, before, after)
    else if repl == [] then []
    else [repl[0]] + Substitute(repl[1..], matched, before, after)
  }

  /** A replacement string without `$` stands for itself. */
  lemma {:induction false} SubstituteNoDollar(repl: string, matched: string, before: string, after: string)
    requires '$' !in repl
    ensures Substitute(repl, matched, before, after) == repl
    decreases |repl|
  {
    if repl != [] {
      assert repl[0] != '$';
      assert '$' !in repl[1..] by {
        assert forall k :: 0 <= k < |repl| - 1 ==> repl[1..][k] == repl[k + 1];
      }
      SubstituteNoDollar(repl[1..], matched, before, after);
    }
  }

  /** `s.replace(pat, repl)` with a search string: only the first occurrence
      of `pat` is replaced, by `repl` with its `$`-patterns expanded. */
  function ReplaceFirst(s: string, pat: string, repl: string): (r: string)
    ensures IndexOf(s, pat, 0).None? ==> r == s
  {
    match IndexOf(s, pat, 0)
    case None => s
    case Some(p) => s[..p] + Substitute(repl, pat, s[..p], s[p + |pat|..]) + s[p + |pat|..]
  }

  /** The search-string pattern `find` of `replaceAll(find, repl)`: it
      matches where `find` occurs, and stands for `repl` with its
      `$`-patterns expanded. */
  function LiteralAt(find: string, repl: string, s: string, i: nat): (r: Option<Hit>)
    ensures r.Some? <==> StartsAt(s, i, find)
    ensures r.Some? ==> r.value.end == i + |find|
    ensures r.Some? && '$' !in repl ==> r.value.text == repl
  {
    if StartsAt(s, i, find) then
      var text := Substitute(repl, find, s[..i], s[i + |find|..]);
      assert '$' !in repl ==> text == repl by {
        if '$' !in repl { SubstituteNoDollar(repl, find, s[..i], s[i + |find|..]); }
      }
      Some(Hit(i + |find|, text))
    else None
  }

  /** `find` occurs nowhere in `t`. */
  predicate Absent(t: string, find: string) {
    forall k :: 0 <= k <= |t| ==> !StartsAt(t, k, find)
  }

  /** An occurrence in the second part of a concatenation. */
  lemma StartsAtShift(a: string, b: string, k: nat, lit: string)
    requires |a| <= k && StartsAt(a + b, k, lit)
    ensures StartsAt(b, k - |a|, lit)
  {
    assert (a + b)[k..k + |lit|] == b[k - |a|..k - |a| + |lit|];
  }

  /** Where the rule does not match, the pass copies one character. */
  lemma CopyStep(s: string, i: nat, m: Matcher, erase: bool)
    requires i < |s| && !Fits(s, i, m(s, i))
    ensures ReplaceFrom(s, i, m, erase) == [s[i]] + ReplaceFrom(s, i + 1, m, erase)
  {}

  /** Where the rule matches something, the pass emits the replacement and
      resumes after the match. */
  lemma HitStep(s: string, i: nat, m: Matcher)
    requires Fits(s, i, m(s, i)) && m(s, i).value.end > i
    ensures ReplaceFrom(s, i, m, false) == m(s, i).value.text + ReplaceFrom(s, m(s, i).value.end, m, false)
  {}

  /** Where a literal rule matches, the output begins with the first
      character of `find`. */
  lemma LiteralOutputHead(find: string, repl: string, m: Matcher, s: string, j: nat)
    requires |find| >= 1 && |repl| >= 1 && repl[0] == find[0] && '$' !in repl
    requires forall t: string, i: nat :: m(t, i) == LiteralAt(find, repl, t, i)
    requires j <= |s|
    ensures Fits(s, j, m(s, j)) ==> |ReplaceFrom(s, j, m, false)| > 0 && ReplaceFrom(s, j, m, false)[0] == find[0]
  {
    if Fits(s, j, m(s, j)) {
      assert m(s, j) == LiteralAt(find, repl, s, j);
      HitStep(s, j, m);
    }
  }

  /** Under a literal rule whose replacement begins with the first character
      of `find`, text that the pass produced from position `j` on and that
      begins with `w` (a text without that character) was copied: the input
      at `j` begins with `w` as well. */
  lemma {:induction false} LiteralCopiedPrefix(find: string, repl: string, m: Matcher, s: string, j: nat, w: string)
    requires |find| >= 1 && |repl| >= 1 && repl[0] == find[0] && '$' !in repl
    requires forall t: string, i: nat :: m(t, i) == LiteralAt(find, repl, t, i)
    requires j <= |s| && find[0] !in w
    requires |w| <= |ReplaceFrom(s, j, m, false)| && ReplaceFrom(s, j, m, false)[..|w|] == w
    ensures StartsAt(s, j, w)
    decreases |w|
  {
    var out := ReplaceFrom(s, j, m, false);
    if w != [] {
      LiteralOutputHead(find, repl, m, s, j);
      assert out[0] == out[..|w|][0] == w[0];
      assert !Fits(s, j, m(s, j));
      CopyStep(s, j, m, false);
      var rest := ReplaceFrom(s, j + 1, m, false);
      assert rest[..|w| - 1] == out[..|w|][1..];
      assert find[0] !in w[1..];
      LiteralCopiedPrefix(find, repl, m, s, j + 1, w[1..]);
      SliceCons(s, j, j + |w|);
    }
  }

  /** An occurrence at the head of the output, where the input had no match,
      was an occurrence in the input. */
  lemma LiteralHeadCopied(find: string, repl: string, m: Matcher, s: string, i: nat)
    requires |find| >= 1 && |repl| >= 1 && repl[0] == find[0] && '$' !in repl
    requires find[0] !in find[1..]
    requires forall t: string, i: nat :: m(t, i) == LiteralAt(find, repl, t, i)
    requires i < |s| && !Fits(s, i, m(s, i))
    ensures StartsAt(ReplaceFrom(s, i, m, false), 0, find) ==> StartsAt(s, i, find)
  {
    if StartsAt(ReplaceFrom(s, i, m, false), 0, find) {
      CopyStep(s, i, m, false);
      CopiedHead(find, repl, m, s, i);
    }
  }

  /** Where the pass copied the character at `i`, an occurrence at the head
      of its output starts at `i` in the input. */
  lemma CopiedHead(find: string, repl: string, m: Matcher, s: string, i: nat)
    requires |find| >= 1 && |repl| >= 1 && repl[0] == find[0] && '$' !in repl
    requires find[0] !in find[1..]
    requires forall t: string, i: nat :: m(t, i) == LiteralAt(find, repl, t, i)
    requires i < |s| && ReplaceFrom(s, i, m, false) == [s[i]] + ReplaceFrom(s, i + 1, m, false)
    requires StartsAt(ReplaceFrom(s, i, m, false), 0, find)
    ensures StartsAt(s, i, find)
  {
    var out := ReplaceFrom(s, i, m, false);
    var rest := ReplaceFrom(s, i + 1, m, false);
    var w := find[1..];
    assert rest[..|w|] == out[..|find|][1..];
    LiteralCopiedPrefix(find, repl, m, s, i + 1, w);
    assert s[i] == out[..|find|][0];
    SliceCons(s, i, i + |find|);
  }

  /** After a literal rule has replaced every occurrence of `find`, no
      occurrence is left, provided that the replacement begins with the
      first character of `find`, that character occurs nowhere else in
      `find` or in the replacement, and the replacement does not itself
      begin with `find`. */
  lemma {:induction false} LiteralReplaceLeavesNone(find: string, repl: string, m: Matcher, s: string, i: nat)
    requires |find| >= 1 && |repl| >= |find| && repl[0] == find[0] && '$' !in repl
    requires find[0] !in find[1..] && find[0] !in repl[1..] && repl[..|find|] != find
    requires forall t: string, i: nat :: m(t, i) == LiteralAt(find, repl, t, i)
    requires i <= |s|
    ensures Absent(ReplaceFrom(s, i, m, false), find)
    decreases |s| - i
  {
    var out := ReplaceFrom(s, i, m, false);
    var h := m(s, i);
    if Fits(s, i, h) {
      assert h == LiteralAt(find, repl, s, i);
      var e := h.value.end;
      LiteralReplaceLeavesNone(find, repl, m, s, e);
      var rest := ReplaceFrom(s, e, m, false);
      HitStep(s, i, m);
      assert out == repl + rest;
      forall k | 0 <= k <= |out| ensures !StartsAt(out, k, find) {
        if k >= |repl| {
          if StartsAt(out, k, find) {
            StartsAtShift(repl, rest, k, find);
          }
        } else if k > 0 {
          assert out[k] == repl[k] == repl[1..][k - 1];
        } else {
          assert out[..|find|] == repl[..|find|];
        }
      }
    } else if i < |s| {
      LiteralReplaceLeavesNone(find, repl, m, s, i + 1);
      var rest := ReplaceFrom(s, i + 1, m, false);
      CopyStep(s, i, m, false);
      LiteralHeadCopied(find, repl, m, s, i);
      forall k | 0 <= k <= |out| ensures !StartsAt(out, k, find) {
        if k >= 1 && StartsAt(out, k, find) {
          StartsAtShift([s[i]], rest, k, find);
        }
      }
    }
  }

  /** A literal rule of that kind is idempotent: a second pass finds
      nothing to replace. */
  lemma LiteralReplaceIdempotent(find: string, repl: string, m: Matcher, s: string)
    requires |find| >= 1 && |repl| >= |find| && repl[0] == find[0] && '$' !in repl
    requires find[0] !in find[1..] && find[0] !in repl[1..] && repl[..|find|] != find
    requires forall t: string, i: nat :: m(t, i) == LiteralAt(find, repl, t, i)
    ensures Absent(ReplaceAll(s, m), find)
    ensures ReplaceAll(ReplaceAll(s, m), m) == ReplaceAll(s, m)
  {
    var t := ReplaceAll(s, m);
    LiteralReplaceLeavesNone(find, repl, m, s, 0);
    forall k | 0 <= k <= |t| ensures !Fits(t, k, m(t, k)) {
    }
    NoMatchUnchanged(t, 0, m, false);
    assert t[0..] == t;
  }
}
