/** `formatCodeblocks` of `src/formatters/codeblock.js`: every `<pre>` block
    of the page is rendered as a fenced code block, recorded in the shared
    replacements array, and replaced in the page by its placeholder. */
module Codeblock {
  import opened Wrappers
  import opened Text
  import opened Rewrite
  import opened Markup
  import opened Rules
  import opened Html
  import opened Vault

  /** `/(<pre[^>]*>(?:.|\n)*?<\/pre>)/gi` */
  function PreBlockAt(s: string, i: nat): Option<Hit> {
    ElementAt(["<", "pP", "rR", "eE"], ["<", "/", "pP", "rR", "eE", ">"], s, i)
  }

  /** `/<br[^>]*>/g` (case-sensitive), replaced by a line feed. */
  function BreakTagAt(s: string, i: nat): (r: Option<Hit>)
    ensures r.Some? ==> StartsAt(s, i, "<br") && i + 3 < r.value.end <= |s| && s[r.value.end - 1] == '>'
    ensures r.Some? ==> forall k :: i + 3 <= k < r.value.end - 1 ==> s[k] != '>'
    ensures r.Some? ==> r.value.text == "\n"
  {
    if StartsAt(s, i, "<br") then
      var g := RunEnd(s, i + 3, NotCloseAngle);
      if g < |s| then Some(Hit(g + 1, "\n")) else None
    else None
  }

  /** Every `<br…>` tag is matched, up to its first `>`. */
  lemma BreakTagComplete(s: string, i: nat, g: nat)
    requires StartsAt(s, i, "<br") && i + 3 <= g < |s| && s[g] == '>'
    requires forall k :: i + 3 <= k < g ==> s[k] != '>'
    ensures BreakTagAt(s, i) == Some(Hit(g + 1, "\n"))
  {
    RunEndExact(s, i + 3, g, NotCloseAngle);
  }

  /** `/<p>/g` (case-sensitive, no attributes), replaced by a line feed. */
  function ParagraphTagAt(s: string, i: nat): Option<Hit> {
    LiteralAt("<p>", "\n", s, i)
  }

  /** The text of a code block before entity decoding: `<br>` tags and
      `<p>` become line feeds, then every other tag is removed. */
  function CodeText(block: string): string {
    StripTags(ReplaceAll(ReplaceAll(block, BreakTagAt), ParagraphTagAt))
  }

  /** A fenced code block around `text`. */
  function Fence(text: string): string {
    "```\n" + text + "\n```\n"
  }

  /** The text between the fences of a fenced block. */
  function Unfence(md: string): string
    requires |md| >= 9
  {
    md[4..|md| - 5]
  }

  /** The fence is undone by `Unfence`: the block holds exactly `text`. */
  lemma FenceRoundTrip(text: string)
    ensures |Fence(text)| == |text| + 9
    ensures StartsAt(Fence(text), 0, "```\n") && StartsAt(Fence(text), |text| + 4, "\n```\n")
    ensures Unfence(Fence(text)) == text
  {
    var f := Fence(text);
    assert f[..4] == "```\n";
    assert f[|text| + 4..|text| + 9] == "\n```\n";
    assert f[4..|f| - 5] == text;
  }

  /** The Markdown recorded for a `<pre>` block: entities are decoded after
      the tags are gone, so a decoded `<` stays in the code. */
  function CodeMarkdown(block: string, decode: string -> string): string {
    Fence(decode(CodeText(block)))
  }

  /** The placeholder of the `c`-th block of one call; `nonce` stands for
      `Math.random()`. */
  function CodeToken(c: nat, nonce: nat -> string): string {
    "urltomarkdowncodeblockplaceholder" + NatToString(c) + nonce(c)
  }

  /** The records one call appends, in block order. */
  function CodeRecords(blocks: seq<string>, decode: string -> string, nonce: nat -> string): (r: seq<Record>)
    ensures |r| == |blocks|
    ensures forall c :: 0 <= c < |r| ==> r[c] == Record(CodeToken(c, nonce), CodeMarkdown(blocks[c], decode))
  {
    seq(|blocks|, c requires 0 <= c < |blocks| => Record(CodeToken(c, nonce), CodeMarkdown(blocks[c], decode)))
  }

  /** The placeholders of one call, in block order. */
  function CodeTokens(n: nat, nonce: nat -> string): (r: seq<string>)
    ensures |r| == n && forall c :: 0 <= c < n ==> r[c] == CodeToken(c, nonce)
  {
    seq(n, c requires 0 <= c < n => CodeToken(c, nonce))
  }

  /** Each placeholder is the fixed prefix followed by the block's ordinal
      in decimal, which can be read back. */
  lemma CodeTokenShape(c: nat, nonce: nat -> string)
    ensures var t := CodeToken(c, nonce); var d := NatToString(c);
      && StartsAt(t, 0, "urltomarkdowncodeblockplaceholder")
      && t[33..33 + |d|] == d && DigitsValue(d) == c
  {
    var t := CodeToken(c, nonce);
    var d := NatToString(c);
    assert t[..33] == "urltomarkdowncodeblockplaceholder";
    assert t[33..33 + |d|] == d;
    NatToStringRoundTrip(c);
  }

  /** The text handed to the entity decoder holds no tag any more. */
  lemma CodeTextHasNoTags(block: string)
    ensures NoTags(CodeText(block))
  {
    StripTagsLeavesNoTags(ReplaceAll(ReplaceAll(block, BreakTagAt), ParagraphTagAt));
  }

  /** The loop of `formatCodeblocks` over the blocks found: each block's
      code is recorded at the next free index of `vault`, after the records
      already there, and its first occurrence in the page is replaced by its
      wrapped placeholder. */
  method StashCodeblocks(html: string, codeblocks: seq<string>, vault: Replacements, decode: string -> string, nonce: nat -> string)
    returns (out: string)
    modifies vault
    ensures vault.records == old(vault.records) + CodeRecords(codeblocks, decode, nonce)
    ensures out == Splice(html, codeblocks, CodeTokens(|codeblocks|, nonce))
  {
    var start := |vault.records|;
    ghost var tokens := CodeTokens(|codeblocks|, nonce);
    ghost var records := CodeRecords(codeblocks, decode, nonce);
    out := html;
    var c := 0;
    while c < |codeblocks|
      invariant 0 <= c <= |codeblocks|
      invariant vault.records == old(vault.records) + records[..c]
      invariant out == Splice(html, codeblocks[..c], tokens[..c])
    {
      var codeblock := codeblocks[c];
      var filtered := CodeText(codeblock);
      filtered := decode(filtered);
      var markdown := Fence(filtered);
      var placeholder := CodeToken(c, nonce);
      vault.Put(start + c, Record(placeholder, markdown));
      PrefixStep(records, c);
      Associative(old(vault.records), records[..c], [records[c]]);
      SpliceStep(html, codeblocks, tokens, c);
      out := ReplaceFirst(out, codeblock, Wrapped(placeholder));
      c := c + 1;
    }
    PrefixWhole(codeblocks);
    PrefixWhole(tokens);
    PrefixWhole(records);
  }

  /** Rewrites every `<pre>` block of `html` into a placeholder, appending
      one record per block to `vault` after the records already there; a
      page without `<pre>` blocks is returned unchanged. */
  method FormatCodeblocks(html: string, vault: Replacements, decode: string -> string, nonce: nat -> string)
    returns (out: string)
    modifies vault
    ensures var blocks := MatchAll(html, PreBlockAt);
      && vault.records == old(vault.records) + CodeRecords(blocks, decode, nonce)
      && out == Splice(html, blocks, CodeTokens(|blocks|, nonce))
  {
    var codeblocks := MatchAll(html, PreBlockAt);
    out := StashCodeblocks(html, codeblocks, vault, decode, nonce);
  }

  /** Without a `<pre>` block nothing is recorded and the page is unchanged. */
  lemma NoCodeblocksNoChange(html: string, decode: string -> string, nonce: nat -> string)
    requires NoMatchFrom(html, 0, PreBlockAt)
    ensures MatchAll(html, PreBlockAt) == []
    ensures CodeRecords([], decode, nonce) == [] && Splice(html, [], CodeTokens(0, nonce)) == html
  {
    NoMatchNoMatches(html, PreBlockAt);
  }
}
