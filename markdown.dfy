/** `cleanMarkdown` of `src/formatters/index.js`: the final tidy-up of the
    converted text before it is returned. */
module Markdown {
  import opened Wrappers
  import opened Text
  import opened Rewrite

  /** Three line feeds in a row start at position `k` of `s`. */
  predicate TripleAt(s: string, k: nat) {
    k + 3 <= |s| && s[k] == '\n' && s[k + 1] == '\n' && s[k + 2] == '\n'
  }

  /** `/\n{3,}/g`: a run of three or more line feeds, taken whole (greedy),
      replaced by exactly two. */
  function BlankRunAt(s: string, i: nat): (r: Option<Hit>)
    ensures r.Some? <==> TripleAt(s, i)
    ensures r.Some? ==> i + 3 <= r.value.end <= |s| && r.value.text == "\n\n"
    ensures r.Some? ==> (forall k :: i <= k < r.value.end ==> s[k] == '\n')
                        && (r.value.end < |s| ==> s[r.value.end] != '\n')
  {
    if TripleAt(s, i) then Some(Hit(RunEnd(s, i, c => c == '\n'), "\n\n"))
    else None
  }

  /** Collapses runs of blank lines, then trims surrounding whitespace. */
  function CleanMarkdown(markdown: string): string {
    Trim(ReplaceAll(markdown, BlankRunAt))
  }

  /** No three line feeds in a row. */
  predicate NoTripleBreak(s: string) {
    forall k :: 0 <= k < |s| ==> !TripleAt(s, k)
  }

  /** What the collapsing pass keeps from position `i` on: no triple line
      feed, and a leading line feed (or two) only where the input has one
      (or two) at `i`. */
  predicate CollapsedFrom(s: string, i: nat, out: string) {
    && NoTripleBreak(out)
    && (|out| >= 2 && out[0] == '\n' && out[1] == '\n' ==> i + 2 <= |s| && s[i] == '\n' && s[i + 1] == '\n')
    && (|out| >= 1 && out[0] == '\n' ==> i < |s| && s[i] == '\n')
  }

  lemma CollapseAfterRun(s: string, i: nat, e: nat, rest: string)
    requires TripleAt(s, i) && i + 3 <= e <= |s| && (e < |s| ==> s[e] != '\n')
    requires CollapsedFrom(s, e, rest)
    ensures CollapsedFrom(s, i, "\n\n" + rest)
  {
    var out := "\n\n" + rest;
    forall k | 0 <= k < |out| ensures !TripleAt(out, k) {
      if k >= 2 {
        assert TripleAt(out, k) ==> TripleAt(rest, k - 2);
      }
    }
  }

  lemma CollapseAfterChar(s: string, i: nat, rest: string)
    requires i < |s| && !TripleAt(s, i)
    requires CollapsedFrom(s, i + 1, rest)
    ensures CollapsedFrom(s, i, [s[i]] + rest)
  {
    var out := [s[i]] + rest;
    forall k | 0 <= k < |out| ensures !TripleAt(out, k) {
      if k >= 1 {
        assert TripleAt(out, k) ==> TripleAt(rest, k - 1);
      }
    }
  }

  lemma {:induction false} CollapseFrom(s: string, i: nat)
    requires i <= |s|
    ensures CollapsedFrom(s, i, ReplaceFrom(s, i, BlankRunAt, false))
    decreases |s| - i
  {
    var h := BlankRunAt(s, i);
    if Fits(s, i, h) {
      CollapseFrom(s, h.value.end);
      CollapseAfterRun(s, i, h.value.end, ReplaceFrom(s, h.value.end, BlankRunAt, false));
    } else if i < |s| {
      CollapseFrom(s, i + 1);
      CollapseAfterChar(s, i, ReplaceFrom(s, i + 1, BlankRunAt, false));
    }
  }

  /** A piece of a text without three line feeds in a row has none either. */
  lemma NoTripleBreakSlice(s: string, a: nat, b: nat)
    requires a <= b <= |s| && NoTripleBreak(s)
    ensures NoTripleBreak(s[a..b])
  {
    forall k | 0 <= k < b - a ensures !TripleAt(s[a..b], k) {
      assert TripleAt(s[a..b], k) ==> TripleAt(s, a + k);
    }
  }

  /** Trimming keeps a text free of triple line feeds. */
  lemma NoTripleBreakTrim(t: string)
    requires NoTripleBreak(t)
    ensures NoTripleBreak(Trim(t))
  {
    var a := |t| - |TrimStart(t)|;
    NoTripleBreakSlice(t, a, a + |Trim(t)|);
  }

  /** The cleaned text never holds three line feeds in a row. */
  lemma CleanMarkdownNoTripleBreak(markdown: string)
    ensures NoTripleBreak(CleanMarkdown(markdown))
  {
    CollapseFrom(markdown, 0);
    NoTripleBreakTrim(ReplaceAll(markdown, BlankRunAt));
  }

  /** Cleaning cleaned text changes nothing. */
  lemma CleanMarkdownIdempotent(markdown: string)
    ensures CleanMarkdown(CleanMarkdown(markdown)) == CleanMarkdown(markdown)
  {
    var r := CleanMarkdown(markdown);
    CleanMarkdownNoTripleBreak(markdown);
    forall k | 0 <= k <= |r| ensures !Fits(r, k, BlankRunAt(r, k)) {
    }
    NoMatchUnchanged(r, 0, BlankRunAt, false);
    assert r[0..] == r;
    TrimIdempotent(ReplaceAll(markdown, BlankRunAt));
  }
}
