/** Character classes and string primitives of JavaScript that the converter
    relies on: the `\s` class, the characters `.` refuses, ASCII case folding
    of the `i` flag, `trim`, `repeat`, `indexOf`/`includes`, and the decimal
    rendering of a placeholder ordinal. */
module Text {
  import opened Wrappers

  /** The characters JavaScript's `\s` matches and `String.prototype.trim`
      removes: WhiteSpace and LineTerminator of ECMA-262. */
  predicate IsSpace(c: char) {
    || c == '\t' || c == '\n' || c == '\U{B}' || c == '\U{C}' || c == '\r' || c == ' '
    || c == '\U{A0}' || c == '\U{1680}' || ('\U{2000}' <= c <= '\U{200A}')
    || c == '\U{2028}' || c == '\U{2029}' || c == '\U{202F}' || c == '\U{205F}'
    || c == '\U{3000}' || c == '\U{FEFF}'
  }

  /** The characters `.` does not match in a JavaScript regular expression. */
  predicate IsLineTerminator(c: char) {
    c == '\n' || c == '\r' || c == '\U{2028}' || c == '\U{2029}'
  }

  predicate IsDigit(c: char) { '0' <= c <= '9' }

  /** ASCII case folding: what the `i` flag compares for the ASCII letters of
      a pattern (outside unicode mode no other character folds onto them). */
  function Lower(c: char): char {
    if 'A' <= c <= 'Z' then (c as int + 32) as char else c
  }

  /** `lit` occurs in `s` at position `i`. */
  predicate StartsAt(s: string, i: nat, lit: string) {
    i + |lit| <= |s| && s[i..i + |lit|] == lit
  }

  /** `lit` occurs in `s` at position `i`, ignoring ASCII case. */
  predicate StartsAtFolded(s: string, i: nat, lit: string) {
    i + |lit| <= |s| && forall k :: 0 <= k < |lit| ==> Lower(s[i + k]) == Lower(lit[k])
  }

  /** The end of the longest run of characters satisfying `p` that starts at
      `j`: what a greedy `[...]*` consumes. */
  function RunEnd(s: string, j: nat, p: char -> bool): (r: nat)
    requires j <= |s|
    ensures j <= r <= |s|
    ensures forall k :: j <= k < r ==> p(s[k])
    ensures r < |s| ==> !p(s[r])
    decreases |s| - j
  {
    if j < |s| && p(s[j]) then RunEnd(s, j + 1, p) else j
  }

  /** The class `[^>]`. */
  predicate NotCloseAngle(c: char) { c != '>' }

  /** The class `[^<]`. */
  predicate NotOpenAngle(c: char) { c != '<' }

  /** `c` repeated `n` times (`c.repeat(n)`). */
  function Repeat(c: char, n: nat): (r: string)
    ensures |r| == n
    ensures forall k :: 0 <= k < n ==> r[k] == c
  {
    if n == 0 then [] else Repeat(c, n - 1) + [c]
  }

  /** The length of `s` in UTF-16 code units, which is what JavaScript's
      `length` counts: characters outside the Basic Multilingual Plane take
      two. */
  function Utf16Length(s: string): (n: nat)
    ensures n >= |s|
  {
    if s == [] then 0 else Utf16Length(s[..|s| - 1]) + (if s[|s| - 1] as int > 0xFFFF then 2 else 1)
  }

  /** Only characters outside the Basic Multilingual Plane make the two
      lengths differ. */
  lemma {:induction false} Utf16LengthBmp(s: string)
    ensures Utf16Length(s) == |s| <==> forall k :: 0 <= k < |s| ==> s[k] as int <= 0xFFFF
  {
    if s != [] {
      var init := s[..|s| - 1];
      Utf16LengthBmp(init);
      assert forall k :: 0 <= k < |init| ==> init[k] == s[k];
    }
  }

  /** Measured in code units, a concatenation is as long as its parts. */
  lemma {:induction false} Utf16LengthConcat(a: string, b: string)
    ensures Utf16Length(a + b) == Utf16Length(a) + Utf16Length(b)
    decreases |b|
  {
    if b != [] {
      var init := b[..|b| - 1];
      assert (a + b)[..|a + b| - 1] == a + init;
      Utf16LengthConcat(a, init);
    } else {
      assert a + b == a;
    }
  }

  /** A run of a character of the Basic Multilingual Plane is one code unit
      per character. */
  lemma {:induction false} Utf16LengthRepeat(c: char, n: nat)
    requires c as int <= 0xFFFF
    ensures Utf16Length(Repeat(c, n)) == n
    decreases n
  {
    if n > 0 {
      assert Repeat(c, n)[..n - 1] == Repeat(c, n - 1);
      Utf16LengthRepeat(c, n - 1);
    }
  }

  /** `s` without its leading whitespace. */
  function TrimStart(s: string): (r: string)
    ensures |r| <= |s| && r == s[|s| - |r|..]
    ensures forall k :: 0 <= k < |s| - |r| ==> IsSpace(s[k])
    ensures r != [] ==> !IsSpace(r[0])
  {
    if s != [] && IsSpace(s[0]) then TrimStart(s[1..]) else s
  }

  /** `s` without its trailing whitespace. */
  function TrimEnd(s: string): (r: string)
    ensures |r| <= |s| && r == s[..|r|]
    ensures forall k :: |r| <= k < |s| ==> IsSpace(s[k])
    ensures r != [] ==> !IsSpace(r[|r| - 1])
  {
    if s != [] && IsSpace(s[|s| - 1]) then TrimEnd(s[..|s| - 1]) else s
  }

  /** `s.trim()`: the stretch of `s` between its leading and trailing
      whitespace. */
  function Trim(s: string): (r: string)
    ensures var a := |s| - |TrimStart(s)|; a + |r| <= |s| && r == s[a..a + |r|]
    ensures r != [] ==> !IsSpace(r[0]) && !IsSpace(r[|r| - 1])
  {
    var t := TrimStart(s);
    var r := TrimEnd(t);
    SliceOfSuffix(s, |s| - |t|, |r|);
    r
  }

  /** `Trim` drops white space only, at both ends. */
  lemma TrimDropsOnlySpace(s: string)
    ensures var a := |s| - |TrimStart(s)|;
      (forall k :: 0 <= k < a ==> IsSpace(s[k])) &&
      (forall k :: a + |Trim(s)| <= k < |s| ==> IsSpace(s[k]))
  {
    var t := TrimStart(s);
    var a := |s| - |t|;
    var r := TrimEnd(t);
    assert Trim(s) == r;
    forall k | a + |r| <= k < |s|
      ensures IsSpace(s[k])
    {
      assert s[k] == t[k - a];
    }
  }

  /** A prefix of a suffix is a slice. */
  lemma SliceOfSuffix(s: string, a: nat, n: nat)
    requires a + n <= |s|
    ensures s[a..][..n] == s[a..a + n]
  {
  }

  /** Trimming yields the empty string exactly when `s` is all whitespace. */
  lemma TrimEmptyIff(s: string)
    ensures (forall k :: 0 <= k < |s| ==> IsSpace(s[k])) <==> Trim(s) == []
  {
    var t := TrimStart(s);
    if t != [] {
      assert t[0] == s[|s| - |t|];
    }
  }

  /** Trimming introduces no character. */
  lemma TrimKeepsAbsent(t: string, c: char)
    requires c !in t
    ensures c !in Trim(t)
  {
    var r := Trim(t);
    var a := |t| - |TrimStart(t)|;
    forall k | 0 <= k < |r| ensures r[k] != c {
      assert r[k] == t[a + k];
    }
  }

  /** Trimming a trimmed string changes nothing. */
  lemma TrimIdempotent(s: string)
    ensures Trim(Trim(s)) == Trim(s)
  {
    var r := Trim(s);
    if r != [] {
      assert !IsSpace(r[0]);
      assert TrimStart(r) == r;
      assert TrimEnd(r) == r;
    }
  }

  /** The decimal digits of `n`, most significant first (`${n}`). */
  function NatToString(n: nat): (r: string)
    ensures r != []
    ensures forall k :: 0 <= k < |r| ==> IsDigit(r[k])
    ensures |r| > 1 ==> r[0] != '0'
  {
    if n < 10 then [('0' as int + n) as char]
    else NatToString(n / 10) + [('0' as int + n % 10) as char]
  }

  /** The number a string of decimal digits denotes. */
  function DigitsValue(s: string): nat
    requires forall k :: 0 <= k < |s| ==> IsDigit(s[k])
  {
    if s == [] then 0
    else
      assert IsDigit(s[|s| - 1]);
      10 * DigitsValue(s[..|s| - 1]) + (s[|s| - 1] as int - '0' as int)
  }

  /** Reading back the digits of an ordinal gives the ordinal. */
  lemma {:induction false} NatToStringRoundTrip(n: nat)
    ensures DigitsValue(NatToString(n)) == n
  {
    if n >= 10 {
      NatToStringRoundTrip(n / 10);
      var r := NatToString(n);
      assert r[..|r| - 1] == NatToString(n / 10);
    }
  }

  /** The first position at which `pat` occurs in `s` at or after `from`. */
  function IndexOf(s: string, pat: string, from: nat): (r: Option<nat>)
    requires from <= |s|
    ensures r.Some? ==> from <= r.value && StartsAt(s, r.value, pat)
    ensures r.Some? ==> forall k :: from <= k < r.value ==> !StartsAt(s, k, pat)
    ensures r.None? ==> forall k :: from <= k <= |s| ==> !StartsAt(s, k, pat)
    decreases |s| - from
  {
    if StartsAt(s, from, pat) then Some(from)
    else if from == |s| then None
    else IndexOf(s, pat, from + 1)
  }

  /** The first position at or after `from` at which `lit` occurs in `s`,
      ignoring ASCII case. */
  function IndexOfFolded(s: string, lit: string, from: nat): (r: Option<nat>)
    requires from <= |s|
    ensures r.Some? ==> from <= r.value && StartsAtFolded(s, r.value, lit)
    ensures r.Some? ==> forall k :: from <= k < r.value ==> !StartsAtFolded(s, k, lit)
    ensures r.None? ==> forall k :: from <= k <= |s| ==> !StartsAtFolded(s, k, lit)
    decreases |s| - from
  {
    if StartsAtFolded(s, from, lit) then Some(from)
    else if from == |s| then None
    else IndexOfFolded(s, lit, from + 1)
  }

  /** `s.includes(pat)`. */
  predicate Contains(s: string, pat: string) {
    IndexOf(s, pat, 0).Some?
  }

  /** `s.includes(pat)` holds exactly when `pat` occurs somewhere in `s`. */
  lemma ContainsIff(s: string, pat: string)
    ensures Contains(s, pat) <==> exists k :: 0 <= k <= |s| && StartsAt(s, k, pat)
  {
    var r := IndexOf(s, pat, 0);
    if r.Some? {
      assert StartsAt(s, r.value, pat);
    }
  }

  /** A string ending in `pat` contains it: the host-name patterns match
      every sub-domain. */
  lemma ContainsSuffix(sub: string, pat: string)
    ensures Contains(sub + pat, pat)
  {
    var h := sub + pat;
    ContainsIff(h, pat);
    assert h[|sub|..|sub| + |pat|] == pat;
    assert StartsAt(h, |sub|, pat);
  }

  /** A string shorter than `pat` does not contain it. */
  lemma ContainsNeedsLength(s: string, pat: string)
    requires |s| < |pat|
    ensures !Contains(s, pat)
  {
    ContainsIff(s, pat);
  }

  /** Concatenation regroups freely. */
  lemma Associative<T>(a: seq<T>, b: seq<T>, c: seq<T>)
    ensures a + b + c == a + (b + c)
  {
  }

  /** A prefix one element longer. */
  lemma PrefixStep<T>(s: seq<T>, k: nat)
    requires k < |s|
    ensures s[..k + 1] == s[..k] + [s[k]]
  {
  }

  /** The prefix as long as the sequence is the sequence. */
  lemma PrefixWhole<T>(s: seq<T>)
    ensures s[..|s|] == s
  {
  }

  lemma SliceCons<T>(s: seq<T>, j: nat, n: nat)
    requires j < n <= |s|
    ensures s[j..n] == [s[j]] + s[j + 1..n]
  {}

  lemma SliceSplit<T>(s: seq<T>, a: nat, b: nat, c: nat)
    requires a <= b <= c <= |s|
    ensures s[a..c] == s[a..b] + s[b..c]
  {}
}
