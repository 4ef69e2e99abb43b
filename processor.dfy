/** `src/lib/processor.js`: from a page to its Markdown. Readability picks
    the article, code blocks and tables are set aside behind placeholders,
    the rest is converted, the placeholders are filled back in, the site's
    filters run and the title is put in front. The HTML parser, Readability,
    the HTML-to-Markdown converter, the entity decoder, `Math.random` and
    `parseUrl` are not modelled: they are the fields of `Env`. */
module Processor {
  import opened Wrappers
  import opened Text
  import opened Rewrite
  import opened Html
  import opened Vault
  import opened Codeblock
  import opened Table
  import opened Rules
  import opened Filters

  /** The options a caller may pass; `None` stands for a missing option
      (`undefined` or `null`). */
  datatype Options = Options(inlineTitle: Option<bool>, ignoreLinks: Option<bool>, improveReadability: Option<bool>)

  /** The options in force once the defaults are filled in. */
  datatype Settings = Settings(inlineTitle: bool, ignoreLinks: bool, improveReadability: bool)

  /** `options.x ?? default` for each option: an explicit choice is kept,
      and a missing option takes its default (title inline, links kept,
      readability on). */
  function Resolve(o: Options): (r: Settings)
    ensures r.inlineTitle <==> o.inlineTitle != Some(false)
    ensures r.ignoreLinks <==> o.ignoreLinks == Some(true)
    ensures r.improveReadability <==> o.improveReadability != Some(false)
  {
    Settings(
      match o.inlineTitle case Some(b) => b case None => true,
      match o.ignoreLinks case Some(b) => b case None => false,
      match o.improveReadability case Some(b) => b case None => true)
  }

  /** A parsed document as the processor reads it: the text of its
      `<title>`, the `outerHTML` of its root element, the `innerHTML` of its
      body (`None` where the element is missing), and the `innerHTML` of the
      element with a given `id`. */
  datatype Document = Document(
    title: Option<string>,
    outerHtml: Option<string>,
    bodyHtml: Option<string>,
    innerById: string -> Option<string>)

  /** The collaborators of the processor. `readability` stands for parsing
      a copy of the document and running Readability on it: it yields the
      article's `content`, or `None` when there is none or it throws. The
      two nonces stand for the calls of `Math.random` of the two
      formatters. */
  datatype Env = Env(
    parse: string -> Document,
    readability: string -> Option<string>,
    toMarkdown: string -> string,
    decode: string -> string,
    codeNonce: nat -> string,
    tableNonce: nat -> string,
    parseUrl: string -> Option<UrlInfo>)

  /** The page's title, or `""` without a `<title>`. */
  function TitleOf(doc: Document): (r: string)
    ensures doc.title.Some? ==> r == doc.title.value
    ensures doc.title.None? ==> r == ""
  {
    match doc.title
    case Some(t) => t
    case None => ""
  }

  /** The HTML of a fresh document whose body holds `inner`. */
  function BodyDocument(inner: string): string {
    "<!DOCTYPE html><html><body>" + inner + "</body></html>"
  }

  /** The document worked on: the element with the requested `id`, parsed
      anew as the body of its own page, when an `id` is given and found;
      otherwise the whole page. */
  function WorkingDocument(doc: Document, id: string, env: Env): Document {
    if id != "" && doc.innerById(id).Some? then env.parse(BodyDocument(doc.innerById(id).value))
    else doc
  }

  /** The HTML used when Readability is off or gives nothing: the root
      element, else the body, else nothing. */
  function RawHtml(d: Document): (r: string)
    ensures d.outerHtml.Some? ==> r == d.outerHtml.value
    ensures d.outerHtml.None? && d.bodyHtml.Some? ==> r == d.bodyHtml.value
    ensures d.outerHtml.None? && d.bodyHtml.None? ==> r == ""
  {
    if d.outerHtml.Some? then d.outerHtml.value
    else if d.bodyHtml.Some? then d.bodyHtml.value
    else ""
  }

  /** Readability is asked and finds a non-empty article. Without a root
      element there is nothing to copy, and the attempt fails. */
  predicate ReadabilityFinds(d: Document, improve: bool, readability: string -> Option<string>) {
    && improve && d.outerHtml.Some?
    && readability(d.outerHtml.value).Some? && readability(d.outerHtml.value).value != ""
  }

  /** The HTML handed to the formatters: Readability's article when it
      finds a non-empty one, the raw HTML otherwise. */
  function ReadableHtml(d: Document, improve: bool, readability: string -> Option<string>): (r: string)
    ensures ReadabilityFinds(d, improve, readability) ==> r == readability(d.outerHtml.value).value
    ensures !ReadabilityFinds(d, improve, readability) ==> r == RawHtml(d)
  {
    var article := if improve && d.outerHtml.Some? then readability(d.outerHtml.value) else None;
    if article.Some? && article.value != "" then article.value else RawHtml(d)
  }

  /** The code blocks of `readable`, in page order. */
  function CodeBlocksOf(readable: string): seq<string> {
    MatchAll(readable, PreBlockAt)
  }

  /** `readable` with its code blocks set aside. */
  function WithoutCode(readable: string, env: Env): string {
    var blocks := CodeBlocksOf(readable);
    Splice(readable, blocks, CodeTokens(|blocks|, env.codeNonce))
  }

  /** The tables left once the code blocks are set aside. */
  function TablesOf(readable: string, env: Env): seq<string> {
    MatchAll(WithoutCode(readable, env), TableAt)
  }

  /** `readable` with its code blocks, then its tables, set aside: what the
      HTML-to-Markdown converter is given. */
  function Stashed(readable: string, env: Env): string {
    var tables := TablesOf(readable, env);
    Splice(WithoutCode(readable, env), tables, TableTokens(|tables|, env.tableNonce))
  }

  /** The records of both formatters, the code blocks' first. */
  function StashedRecords(readable: string, env: Env): seq<Record> {
    CodeRecords(CodeBlocksOf(readable), env.decode, env.codeNonce)
      + TableRecords(TablesOf(readable, env), env.decode, env.tableNonce)
  }

  /** The converted page with every placeholder filled back in, as the
      processor does it: `replace` with the record's Markdown as the
      replacement string, so its `$`-patterns are expanded. */
  function MarkdownOf(readable: string, env: Env): string {
    RestoreAsWritten(env.toMarkdown(Stashed(readable, env)), StashedRecords(readable, env))
  }

  /** The page's Markdown is the record-for-record literal restoration
      `Vault.Restore` whenever no code block or table renders to Markdown
      holding a `$`; only a `$` in a record makes the two differ. */
  lemma MarkdownAgreesWithoutDollar(readable: string, env: Env)
    requires var records := StashedRecords(readable, env);
      forall k :: 0 <= k < |records| ==> '$' !in records[k].replacement
    ensures MarkdownOf(readable, env)
         == Restore(env.toMarkdown(Stashed(readable, env)), StashedRecords(readable, env))
  {
    RestoreAgreesWithoutDollar(env.toMarkdown(Stashed(readable, env)), StashedRecords(readable, env));
  }

  /** `# title` on a line of its own in front of `body`, when asked and the
      title is not empty. The body always follows unchanged. */
  function WithTitle(title: string, inlineTitle: bool, body: string): (r: string)
    ensures inlineTitle && title != "" ==>
      |r| == |title| + 3 + |body| && r[..|title| + 3] == "# " + title + "\n" && r[|title| + 3..] == body
    ensures !(inlineTitle && title != "") ==> r == body
  {
    if inlineTitle && title != "" then
      var head := "# " + title + "\n";
      assert (head + body)[..|head|] == head;
      assert (head + body)[|head|..] == body;
      head + body
    else body
  }

  /** What `processDom` returns as its Markdown: the page's Markdown,
      filtered for the address when there is one, under its title. */
  function ProcessedText(filters: seq<FilterSet>, url: string, title: string, markdown: string, s: Settings, env: Env): string {
    var filtered := if url != "" then FilterText(filters, env.parseUrl(url), markdown, s.ignoreLinks) else markdown;
    WithTitle(title, s.inlineTitle, filtered)
  }

  /** The restoration loop: each record in array order, its placeholder's
      first occurrence replaced by its Markdown with the `$`-patterns of
      `replace` expanded. */
  method RestorePlaceholders(markdown: string, records: seq<Record>) returns (out: string)
    ensures out == RestoreAsWritten(markdown, records)
  {
    out := markdown;
    var k := 0;
    while k < |records|
      invariant 0 <= k <= |records|
      invariant out == RestoreAsWritten(markdown, records[..k])
    {
      assert records[..k + 1][..k] == records[..k];
      out := RestoreOneAsWritten(out, records[k]);
      k := k + 1;
    }
    assert records[..k] == records;
  }

  /** Both formatters on a fresh `replacements` array: the HTML to convert
      and the records to fill back in. */
  method SetAside(readable: string, env: Env) returns (html: string, records: seq<Record>)
    ensures html == Stashed(readable, env)
    ensures records == StashedRecords(readable, env)
  {
    var replacements := new Replacements();
    ghost var code := CodeRecords(CodeBlocksOf(readable), env.decode, env.codeNonce);
    ghost var tables := TableRecords(TablesOf(readable, env), env.decode, env.tableNonce);
    html := FormatCodeblocks(readable, replacements, env.decode, env.codeNonce);
    assert html == WithoutCode(readable, env);
    assert replacements.records == code by {
      assert [] + code == code;
    }
    html := FormatTables(html, replacements, env.decode, env.tableNonce);
    assert replacements.records == code + tables;
    records := replacements.records;
  }

  /** `processDom`: the Markdown and the title of `doc`. */
  method ProcessDom(url: string, doc: Document, id: string, options: Options, env: Env, registry: Registry)
    returns (markdown: string, title: string)
    ensures title == TitleOf(doc)
    ensures var s := Resolve(options);
      markdown == ProcessedText(registry.filters, url, title,
        MarkdownOf(ReadableHtml(WorkingDocument(doc, id, env), s.improveReadability, env.readability), env), s, env)
  {
    var s := Resolve(options);
    title := TitleOf(doc);
    var working := WorkingDocument(doc, id, env);
    var readable := ReadableHtml(working, s.improveReadability, env.readability);
    var html, records := SetAside(readable, env);
    var converted := env.toMarkdown(html);
    var result := RestorePlaceholders(converted, records);
    assert result == MarkdownOf(readable, env);
    if url != "" {
      result := registry.Filter(env.parseUrl(url), result, s.ignoreLinks);
    }
    if s.inlineTitle && title != "" {
      result := "# " + title + "\n" + result;
    }
    markdown := result;
  }

  /** `processHtml`: style and script blocks removed, the page parsed and
      processed whole. */
  method ProcessHtml(url: string, html: string, options: Options, env: Env, registry: Registry)
    returns (markdown: string, title: string)
    ensures var doc := env.parse(StripStyleAndScriptBlocks(html)); var s := Resolve(options);
      && title == TitleOf(doc)
      && markdown == ProcessedText(registry.filters, url, title,
           MarkdownOf(ReadableHtml(doc, s.improveReadability, env.readability), env), s, env)
  {
    var doc := env.parse(StripStyleAndScriptBlocks(html));
    markdown, title := ProcessDom(url, doc, "", options, env, registry);
  }

  /** A page without code blocks or tables is converted directly: nothing
      is set aside and nothing is filled back in. */
  lemma PlainPageConvertedDirectly(readable: string, env: Env)
    requires NoMatchFrom(readable, 0, PreBlockAt) && NoMatchFrom(readable, 0, TableAt)
    ensures MarkdownOf(readable, env) == env.toMarkdown(readable)
  {
    NoMatchNoMatches(readable, PreBlockAt);
    assert WithoutCode(readable, env) == readable;
    NoMatchNoMatches(readable, TableAt);
    assert Stashed(readable, env) == readable;
    assert StashedRecords(readable, env) == [];
  }
}
