/** The element-shaped patterns of the formatters, such as
    `/(<pre[^>]*>(?:.|\n)*?<\/pre>)/gi`: an opening tag, anything up to its
    `>`, a body, and a closing tag. A pattern position is given as the string
    of characters allowed there, so `["<", "tT", "rR"]` is `<tr` under the `i`
    flag and `["<", "tT", "hHdD|"]` is `<t[h|d]`. The body `(?:.|\n)` takes
    any character but `\r`, U+2028 and U+2029. */
module Markup {
  import opened Wrappers
  import opened Text
  import opened Rewrite
  import opened Rules

  /** The character classes `cls` match, one by one, at position `i`. */
  predicate ClassesAt(s: string, i: nat, cls: seq<string>) {
    i + |cls| <= |s| && forall k :: 0 <= k < |cls| ==> s[i + k] in cls[k]
  }

  /** A character `(?:.|\n)` accepts. */
  predicate BodyChar(c: char) {
    c != '\r' && c != '\U{2028}' && c != '\U{2029}'
  }

  /** The non-greedy body: the first position at or after `k` where `close`
      matches, provided every character before it is a body character. */
  function LazyClose(s: string, k: nat, close: seq<string>): (r: Option<nat>)
    requires k <= |s|
    ensures r.Some? ==> k <= r.value <= |s| && ClassesAt(s, r.value, close)
    ensures r.Some? ==> forall j :: k <= j < r.value ==> BodyChar(s[j]) && !ClassesAt(s, j, close)
    decreases |s| - k
  {
    if ClassesAt(s, k, close) then Some(k)
    else if k < |s| && BodyChar(s[k]) then LazyClose(s, k + 1, close)
    else None
  }

  /** A closing tag reachable from `k` through body characters is found, and
      the one found is the first: the non-greedy body never skips a close. */
  lemma {:induction false} LazyCloseComplete(s: string, k: nat, close: seq<string>, m: nat)
    requires k <= m <= |s| && ClassesAt(s, m, close)
    requires forall j :: k <= j < m ==> BodyChar(s[j])
    ensures LazyClose(s, k, close).Some? && LazyClose(s, k, close).value <= m
    decreases m - k
  {
    if !ClassesAt(s, k, close) {
      LazyCloseComplete(s, k + 1, close, m);
    }
  }

  /** The end of the opening tag `open[^>]*>` at `i`, if there is one: the
      position just after its `>`. */
  function OpenTagEnd(s: string, i: nat, open: seq<string>): (r: Option<nat>)
    ensures r.Some? ==> ClassesAt(s, i, open) && i + |open| < r.value <= |s| && s[r.value - 1] == '>'
    ensures r.Some? ==> forall j :: i + |open| <= j < r.value - 1 ==> s[j] != '>'
  {
    if ClassesAt(s, i, open) then
      var g := RunEnd(s, i + |open|, NotCloseAngle);
      if g < |s| then Some(g + 1) else None
    else None
  }

  /** An opening tag is closed by the first `>` after its name. */
  lemma OpenTagEndComplete(s: string, i: nat, open: seq<string>, g: nat)
    requires ClassesAt(s, i, open) && i + |open| <= g < |s| && s[g] == '>'
    requires forall j :: i + |open| <= j < g ==> s[j] != '>'
    ensures OpenTagEnd(s, i, open) == Some(g + 1)
  {
    RunEndExact(s, i + |open|, g, NotCloseAngle);
  }

  /** `open[^>]*>(?:.|\n)*?close`: an element up to the first closing tag
      after its opening tag. */
  function ElementAt(open: seq<string>, close: seq<string>, s: string, i: nat): (r: Option<Hit>)
    ensures r.Some? ==> ClassesAt(s, i, open) && i + |open| + 1 + |close| <= r.value.end <= |s|
    ensures r.Some? ==> r.value.end >= |close| && ClassesAt(s, r.value.end - |close|, close)
    ensures r.Some? ==> r.value.text == ""
  {
    match OpenTagEnd(s, i, open)
    case None => None
    case Some(b) =>
      match LazyClose(s, b, close)
      case None => None
      case Some(m) => Some(Hit(m + |close|, ""))
  }

  /** Every element is matched: an opening tag whose first `>` is at `g`,
      followed through body characters by a closing tag at `m`, is matched
      at `i`, and the match ends at the first closing tag after `g`. */
  lemma ElementComplete(open: seq<string>, close: seq<string>, s: string, i: nat, g: nat, m: nat)
    requires ClassesAt(s, i, open) && i + |open| <= g < m <= |s| && s[g] == '>'
    requires forall j :: i + |open| <= j < g ==> s[j] != '>'
    requires ClassesAt(s, m, close)
    requires forall j :: g + 1 <= j < m ==> BodyChar(s[j])
    ensures var r := ElementAt(open, close, s, i);
      r.Some? && g + 1 + |close| <= r.value.end <= m + |close| &&
      ClassesAt(s, r.value.end - |close|, close) &&
      forall j :: g + 1 <= j < r.value.end - |close| ==> !ClassesAt(s, j, close)
  {
    OpenTagEndComplete(s, i, open, g);
    LazyCloseComplete(s, g + 1, close, m);
  }

  /** The greedy body: the last position in `[b, m]` where `close` matches. */
  function LastClose(s: string, b: nat, m: nat, close: seq<string>): (r: Option<nat>)
    requires b <= m <= |s|
    ensures r.Some? ==> b <= r.value <= m && ClassesAt(s, r.value, close)
    ensures r.Some? ==> forall j :: r.value < j <= m ==> !ClassesAt(s, j, close)
    ensures r.None? ==> forall j :: b <= j <= m ==> !ClassesAt(s, j, close)
    decreases m - b
  {
    if ClassesAt(s, m, close) then Some(m)
    else if m == b then None
    else LastClose(s, b, m - 1, close)
  }

  /** `open[^>]*>((?:.|\n)*)close`: an element up to the LAST closing tag
      reachable through body characters; the hit's text is the body. */
  function GreedyElementAt(open: seq<string>, close: seq<string>, s: string, i: nat): (r: Option<Hit>)
    ensures r.Some? ==> ClassesAt(s, i, open) && r.value.end <= |s|
    ensures r.Some? ==> forall j :: 0 <= j < |r.value.text| ==> BodyChar(r.value.text[j])
  {
    match OpenTagEnd(s, i, open)
    case None => None
    case Some(b) =>
      var f := RunEnd(s, b, BodyChar);
      match LastClose(s, b, f, close)
      case None => None
      case Some(m) =>
        assert forall j :: 0 <= j < m - b ==> s[b..m][j] == s[b + j];
        Some(Hit(m + |close|, s[b..m]))
  }
}
