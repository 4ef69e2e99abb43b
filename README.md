# HTML-to-Markdown conversion core, in Dafny

This project models the string-and-array core of an HTML-to-Markdown
conversion service. It proves properties about that model.

- **Table renderer** (`convertTableToMarkdown`, `formatTables`). An HTML
  table becomes a rectangular grid of cleaned cell texts. Each column is as
  wide as its longest cell and at least 3 UTF-16 code units. When the columns add up
  to fewer than 96 code units, the table is rendered as a pipe table.
  Otherwise it becomes a two-level bullet list.
- **Code-block fencer** (`formatCodeblocks`). Each `<pre>` block becomes a
  fenced code block.
- **Placeholder vault.** Both formatters append `{placeholder, replacement}`
  records to one shared `replacements` array. They splice
  `<p>placeholder</p>` into the HTML. The processor later puts each
  record's Markdown back.
- **Processor** (`processDom`, `processHtml`). It fills in the option
  defaults and chooses the working document. It falls back when Readability
  finds nothing, then runs the two formatters in order and restores the
  placeholders. Last, it filters for the address and prepends the title.
- **Filter chain** (`filter`, `addFilter`). This is an ordered registry of
  `{domain, remove, replace}` rule sets: the global, Wikipedia, Medium and
  Stack Overflow sets. After all sets have run, root-relative links are made
  absolute. Inline links are stripped last, and only on request.
- **Small helpers.** These are `cleanMarkdown`, the style, script, tag and
  newline strippers, `extractTitle`, `getOptions`, and the classification of
  fetch errors in the request handler.

Every regular expression of the core is modelled as a hand-written
deterministic scanner. A scanner is a `Matcher`: given a string and a
position, it returns `None` or the end of the match and its replacement
text (module `Rewrite`). JavaScript's global `replace`/`replaceAll` is
`Rewrite.ReplaceFrom`. It scans left to right, tries the matcher at each
position, and after a match resumes at the match's end. Most scanners come
with two lemmas:

- a `...Complete` or `...Exact` lemma: every text laid out as the pattern
  describes is matched, with the stated end and replacement;
- a `...Sound` lemma: every match is laid out that way.

Greedy backtracking (`.*` followed by more pattern) is modelled as a search
for the last position where the rest of the pattern matches.

The modules follow the source files:

| module | source file |
|---|---|
| `Text`, `Rewrite` | JavaScript string primitives and `String.prototype.replace` |
| `Markup` | the `<tag[^>]*>…</tag>` element patterns shared by the formatters |
| `Html` | `src/utils/html.js` |
| `Markdown` | `src/formatters/index.js` |
| `Vault` | the `replacements` array and the restoration loop |
| `Codeblock` | `src/formatters/codeblock.js` |
| `Table` | `src/formatters/table.js` |
| `Rules` | shared scanning helpers of the filter rules |
| `Global`, `Wikipedia`, `WikipediaRemovals`, `Medium`, `StackOverflow` | `src/filters/*.js` |
| `Filters` | `src/filters/index.js` |
| `Processor` | `src/lib/processor.js` |
| `Convert` | `src/handlers/convert.js` |

The collaborators the source calls but that are not modelled are
parameters. These are the HTML parser, Readability, the Turndown converter,
the entity decoder `decode`, `Math.random`, `parseUrl`, `isValidUrl` and
`fetchUrl`. They are gathered as fields of `Processor.Env` and as parameters
of `Convert.PostDecision`.

## Model

| member | source | states |
|---|---|---|
| Text.Trim | src/formatters/index.js:12 | `trim()` yields a contiguous stretch of the input that neither starts nor ends with whitespace |
| Text.TrimDropsOnlySpace | src/formatters/index.js:12 | everything `trim()` drops, before and after that stretch, is whitespace |
| Text.TrimEmptyIff | src/utils/html.js:35 | trimming gives `""` exactly when the string is all whitespace |
| Text.TrimIdempotent | src/formatters/index.js:12 | trimming twice is trimming once |
| Text.IndexOf | src/lib/processor.js:72 | `indexOf`: the first position at or after `from` where the pattern occurs, and `None` exactly when it occurs nowhere there |
| Text.NatToString | src/formatters/codeblock.js:28 | `${c}` of a placeholder ordinal: non-empty decimal digits with no leading zero |
| Text.NatToStringRoundTrip | src/formatters/codeblock.js:28 | reading the digits of an ordinal back gives the ordinal |
| Text.IndexOfFolded | src/utils/html.js:7 | the first position where the pattern occurs ignoring ASCII case, as the `i` flag compares, and `None` exactly when it occurs nowhere |
| Text.ContainsIff | src/handlers/convert.js:118-119 | `includes(pat)` holds exactly when `pat` occurs at some position |
| Text.Repeat | src/formatters/table.js:123 | `"-".repeat(n)`: exactly `n` copies of the character |
| Text.RunEnd | src/formatters/codeblock.js:19 | a greedy `[...]*` stops at the first character outside the class, having consumed only characters of the class |
| Rewrite.NoMatchUnchanged | src/filters/index.js:27 | a global replace with no match anywhere returns the text unchanged |
| Rewrite.MatchStarts | src/formatters/codeblock.js:11 | the starts of the matches of a global `match`: increasing, each a match, none overlapping the previous match |
| Rewrite.MatchStartsComplete | src/formatters/codeblock.js:11 | a global `match` misses no match: empty exactly when nothing matches, the first start is the first hit, each next start is the first hit where the previous match ends (one further after an empty match), and nothing matches after the last |
| Rewrite.ChainedCons | src/formatters/codeblock.js:11 | a match in front of the matches found from where it ends keeps that chain |
| Rewrite.MatchAll | src/formatters/codeblock.js:11 | `match(/…/g)`: the matched texts, one per match start, in order |
| Rewrite.NoMatchNoMatches | src/formatters/codeblock.js:11-13 | without a match, the global `match` yields no fragment |
| Rewrite.FirstHit | src/formatters/table.js:38 | a non-global `match` finds the first position where the pattern matches, and fails exactly when it matches nowhere |
| Rewrite.SubstituteNoDollar | src/lib/processor.js:72 | a replacement string without `$` is inserted literally |
| Rewrite.ReplaceFirst | src/formatters/codeblock.js:30 | `replace` with a string pattern leaves the text unchanged when the pattern does not occur |
| Rewrite.LiteralAt | src/filters/medium.js:8-9 | a literal pattern matches exactly where it occurs, spans its own length and yields the replacement |
| Rewrite.LiteralReplaceLeavesNone | src/filters/medium.js:8-9 | after a literal global replace whose replacement cannot recreate the pattern, the pattern occurs nowhere in the output |
| Rewrite.LiteralReplaceIdempotent | src/filters/global.js:15-16 | such a literal replace, applied a second time, changes nothing |
| Markup.LazyClose | src/formatters/codeblock.js:11 | the lazy body of a `<pre>` element stops at the first closing tag, over characters `.` or `\n` accept |
| Markup.LazyCloseComplete | src/formatters/codeblock.js:11 | a closing tag reachable through characters `.` or `\n` accept is found, at or before it |
| Markup.OpenTagEnd | src/formatters/codeblock.js:11 | `<pre[^>]*>`: the opening name, ignoring case, then no `>` up to the first `>` |
| Markup.OpenTagEndComplete | src/formatters/codeblock.js:11 | an opening name followed by a `>` is closed at the first such `>` |
| Markup.ElementAt | src/formatters/table.js:180 | a lazily closed element starts with the opening name and ends with the closing tag |
| Markup.ElementComplete | src/formatters/table.js:180 | every element is matched: an opening tag up to its first `>`, then a closing tag reachable through body characters, gives a match ending at the first closing tag after the `>` |
| Markup.LastClose | src/formatters/table.js:38 | the last closing tag before a limit: none occurs later |
| Markup.GreedyElementAt | src/formatters/table.js:38 | the greedy caption body holds only characters `.` or `\n` accept |
| Html.LazyBlockAt | src/utils/html.js:7 | a `<style…</style>` span matches exactly when the opening occurs here (ignoring case) and a closing tag follows; it ends at the first such closing tag and is removed |
| Html.StripBlocksWithoutOpeningTag | src/utils/html.js:24-26 | a page without `<style` (or `<script`) keeps its text through that stripper |
| Html.TitleAt | src/utils/html.js:34 | `<title[^>]*>([^<]+)<\/title>` matches from `<title` to `</title>`, capturing a non-empty text without `<` |
| Html.TitleComplete | src/utils/html.js:34 | every `<title …>text</title>` with a non-empty text free of `<`, in any case, is matched whole and its text captured |
| Html.TitleSound | src/utils/html.js:34 | every match is such a title element, and the capture is exactly its text |
| Html.ExtractTitle | src/utils/html.js:33-36 | the title is the trimmed text of the element at the first match, so it holds no `<` and has no surrounding white space; `""` when no title element matches |
| Html.ExtractTitleFirst | src/utils/html.js:33-36 | where a title element lies at `i` and no match starts before it, the title is its trimmed text |
| Html.ExtractTitleNone | src/utils/html.js:35 | a page without a title element has the title `""` |
| Html.TagAt | src/utils/html.js:44 | the tag pattern matches at `<` followed by anything but `>`, up to the next `>` or the end of input |
| Html.StripTagsFromLeavesNoTags | src/utils/html.js:44 | stripping leaves no `<` that could start a tag |
| Html.StripTagsLeavesNoTags | src/utils/html.js:43-45 | after `stripTags`, every remaining `<` is the last character or followed by `>` |
| Html.StripTagsIdempotent | src/utils/html.js:43-45 | `stripTags` applied twice is `stripTags` once |
| Html.LineBreakAt | src/utils/html.js:53 | `\r\n`, `\n` or `\r` matches, preferring the two-character break |
| Html.StripNewlinesFrom | src/utils/html.js:53 | the scan removes line breaks and keeps every other character |
| Html.StripNewlinesIsWithoutBreaks | src/utils/html.js:52-54 | `stripNewlines` is the input with its `\n` and `\r` deleted |
| Html.WithoutBreaksHasNone | src/utils/html.js:53 | the result has no `\n` or `\r`, and a string without them is unchanged |
| Html.StripNewlinesProperties | src/utils/html.js:52-54 | the output holds no `\n` or `\r`, and `stripNewlines` is idempotent |
| Markdown.BlankRunAt | src/formatters/index.js:11 | `\n{3,}` matches exactly at three line feeds, takes the whole run, and yields `\n\n` |
| Markdown.CollapseAfterRun | src/formatters/index.js:11 | a collapsed run followed by collapsed text contains no triple line feed |
| Markdown.CollapseAfterChar | src/formatters/index.js:11 | a copied character followed by collapsed text contains no triple line feed |
| Markdown.CollapseFrom | src/formatters/index.js:11 | the collapse leaves no `\n\n\n` anywhere |
| Markdown.NoTripleBreakSlice | src/formatters/index.js:12 | a stretch of text without `\n\n\n` has none either |
| Markdown.NoTripleBreakTrim | src/formatters/index.js:12 | trimming cannot create `\n\n\n` |
| Markdown.CleanMarkdownNoTripleBreak | src/formatters/index.js:9-13 | the output of `cleanMarkdown` never contains `\n\n\n` |
| Markdown.CleanMarkdownIdempotent | src/formatters/index.js:9-13 | `cleanMarkdown` is idempotent |
| Vault.Replacements.constructor | src/lib/processor.js:63 | a conversion starts with an empty `replacements` array |
| Vault.Replacements.Put | src/formatters/codeblock.js:29 | `replacements[index] = record` overwrites an entry inside the array or appends one just past its end; no other entry changes |
| Vault.SpliceStep | src/formatters/codeblock.js:30 | splicing one more fragment replaces the fragment's first occurrence in the HTML so far by `<p>placeholder</p>` |
| Vault.SpliceNothing | src/formatters/codeblock.js:13 | with no fragment the HTML is unchanged |
| Vault.RestoreOne | src/lib/processor.js:72 | the first occurrence of the placeholder is replaced by the record's Markdown, character for character; the text before and after it is kept, and a text without the placeholder is unchanged |
| Vault.RestoreWithoutPlaceholders | src/lib/processor.js:71-73 | records whose placeholders the converted text does not hold leave it unchanged |
| Vault.RestoreAsWrittenWithoutPlaceholders | src/lib/processor.js:71-73 | as written too, records whose placeholders the converted text does not hold leave it unchanged |
| Vault.RestoreOneAgreesWithoutDollar | src/lib/processor.js:72 | for a replacement without `$`, the source's `replace` and the literal restoration agree |
| Vault.RestoreAgreesWithoutDollar | src/lib/processor.js:71-73 | when no record's Markdown holds `$`, the restoration loop as written and the literal one give the same text |
| Vault.RestoreAsWrittenLosesDollar | src/lib/processor.js:71-73 | as written, a record whose Markdown is `$$` puts back `$`; the literal restoration puts back `$$` |
| Codeblock.BreakTagAt | src/formatters/codeblock.js:19 | `<br[^>]*>` (case-sensitive) matches from `<br` to the first `>` after it and yields a line feed |
| Codeblock.BreakTagComplete | src/formatters/codeblock.js:19 | every `<br` followed by a `>` is matched up to the first such `>`, yielding a line feed |
| Codeblock.FenceRoundTrip | src/formatters/codeblock.js:27 | the fenced block is the text between an opening fence line and a closing fence line, 9 characters longer; removing the fences gives the text back |
| Codeblock.CodeTextHasNoTags | src/formatters/codeblock.js:19-23 | the text handed to the entity decoder holds no tag: `<br>` and `<p>` became line feeds and every other tag was stripped |
| Codeblock.CodeRecords | src/formatters/codeblock.js:25-29 | one record per block, in block order: the `c`-th holds the `c`-th placeholder and the fenced, decoded text of the `c`-th block |
| Codeblock.CodeTokens | src/formatters/codeblock.js:28 | the placeholders of one call, one per block ordinal |
| Codeblock.CodeTokenShape | src/formatters/codeblock.js:28 | every placeholder starts with `urltomarkdowncodeblockplaceholder`, followed by the block's ordinal in decimal, which reads back as the ordinal |
| Codeblock.StashCodeblocks | src/formatters/codeblock.js:14-31 | the loop appends the blocks' records after the records already in the array, and replaces each block's first occurrence by its wrapped placeholder, in block order |
| Codeblock.FormatCodeblocks | src/formatters/codeblock.js:9-35 | every `<pre>` block found is recorded at `start + c`, after the earlier records, and spliced out of the HTML |
| Codeblock.NoCodeblocksNoChange | src/formatters/codeblock.js:11-13 | with no `<pre>` block, nothing is recorded and the HTML is returned unchanged |
| Table.Clean | src/formatters/table.js:10-15 | a cleaned cell neither starts nor ends with whitespace |
| Table.Ljust | src/formatters/table.js:24-27 | the string followed by spaces up to `width` UTF-16 code units (the unit of `length`) when shorter, unchanged otherwise |
| Table.LjustProperties | src/formatters/table.js:24-27 | `ljust` keeps a string already `width` code units long, is idempotent, and is undone by dropping trailing spaces when the string does not end in one |
| Table.TrimSpacesRightOfPadded | src/formatters/table.js:26 | dropping the trailing spaces of a padded string gives back the string |
| Table.CleanAll | src/formatters/table.js:59-61 | the cells of a row, each cleaned, in order |
| Table.Items | src/formatters/table.js:55-64 | one list of cleaned cells per row, in row order |
| Table.MaxColsIsMaximum | src/formatters/table.js:67-72 | `nCols` is the length of the longest row: no row is longer, and some row is that long (or there are no cells) |
| Table.PadRow | src/formatters/table.js:76-78 | a row extended with `""` cells to `n` cells, its own cells kept |
| Table.Normalize | src/formatters/table.js:75-79 | every row extended to `n` cells |
| Table.NormalizeRectangular | src/formatters/table.js:75-79 | after normalisation every row has exactly `nCols` cells, and every original cell is kept in its place |
| Table.ColumnWidthIsMaximum | src/formatters/table.js:82-93 | a column's width is at least 3 and at least every cell's `length` in UTF-16 code units, and is 3 or the length of some cell |
| Table.Widths | src/formatters/table.js:82-93 | one width per column, each the column's width over all rows, measured in UTF-16 code units |
| Table.SumAtLeast | src/formatters/table.js:96-99 | widths of at least 3 add up to at least 3 per column |
| Table.RowLineLength | src/formatters/table.js:113-117 | a line of cells as wide as their columns starts and ends with a bar and is one code unit longer than the widths plus one per column |
| Table.Padded | src/formatters/table.js:104-108 | every cell padded with `ljust` to its column's width; the grid stays rectangular |
| Table.Rules | src/formatters/table.js:121-124 | the separator's column `c` is exactly `columnWidths[c]` dashes |
| Table.CaptionPrefix | src/formatters/table.js:38-41 | ends in a blank line, and is empty exactly when the table has no caption |
| Table.TableMarkdownEmptyIff | src/formatters/table.js:46-52 | a table converts to `""` exactly when it has fewer than two rows; otherwise its Markdown starts with a line feed |
| Table.GridLinesAligned | src/formatters/table.js:104-134 | once padded, every grid line and the separator line have the same `length` in UTF-16 code units |
| Table.ManyColumnsMakeList | src/formatters/table.js:101 | a table of 32 columns or more adds up to at least 96 code units, so it is rendered as a list |
| Table.RowEntriesEmptyIff | src/formatters/table.js:139-165 | a data row contributes nothing to the list exactly when it and the header row are empty in every column |
| Table.CleanCells | src/formatters/table.js:59-61 | the loop over the cells of a row computes `CleanAll` |
| Table.ParseRows | src/formatters/table.js:55-64 | the loop over the rows computes `Items` |
| Table.CountColumns | src/formatters/table.js:67-72 | the loop computes the length of the longest row |
| Table.NormalizeColumns | src/formatters/table.js:75-79 | the nested loops pad every row to `nCols` cells |
| Table.ComputeWidths | src/formatters/table.js:82-93 | the nested loops compute every column's width from the cells' UTF-16 `length` |
| Table.TotalWidth | src/formatters/table.js:96-99 | the loop sums the widths |
| Table.PadCells | src/formatters/table.js:104-108 | the nested loops pad every cell to its column's width |
| Table.RowLineStep | src/formatters/table.js:114-116 | one more cell on a line appends the cell and a bar |
| Table.AppendRowLine | src/formatters/table.js:113-117 | the loop appends a bar, then each cell followed by a bar |
| Table.AppendDataLines | src/formatters/table.js:128-134 | the loop appends one line per data row, each ended by a line feed |
| Table.RenderGrid | src/formatters/table.js:110-135 | the grid: the header line, the separator line, then the data lines |
| Table.AppendEntry | src/formatters/table.js:140-151 | an entry is the bullet, `header: ` when the header is not empty, the cell and a line feed, or nothing when both are empty |
| Table.AppendRowEntries | src/formatters/table.js:140-165 | a data row's entries: its first column under `* `, its other columns under `  * ` |
| Table.RenderList | src/formatters/table.js:138-166 | the list: a blank line, then every data row's entries |
| Table.RenderRows | src/formatters/table.js:55-167 | the rows parsed, normalised and measured in UTF-16 code units, then rendered as the grid when the widths add up to less than 96, as the list otherwise |
| Table.ConvertTableToMarkdown | src/formatters/table.js:34-170 | nothing for fewer than two rows; otherwise a line feed, the caption, then the grid or list |
| Table.TableRecords | src/formatters/table.js:184-187 | one record per table, in table order, each holding the table's placeholder and its Markdown |
| Table.TableTokens | src/formatters/table.js:186 | the placeholders of one call, one per table ordinal |
| Table.StashTables | src/formatters/table.js:183-189 | the loop appends the tables' records after the records already there and replaces each table's first occurrence by its wrapped placeholder |
| Table.FormatTables | src/formatters/table.js:178-193 | every table found is recorded at `start + t`, after the earlier records, and spliced out of the HTML |
| Rules.FirstFrom | src/filters/global.js:20 | a greedy `[^c]*` stops at the first `c` or the end, having passed no `c` |
| Rules.FirstFromExact | src/filters/global.js:20 | where the first `c` lies, the scan stops there |
| Rules.RunEndExact | src/filters/global.js:10 | where the first character outside the class lies, the greedy run stops there |
| Rules.LineEnd | src/filters/wikipedia.js:11 | a trailing `.*` stops at the first line terminator or the end, having passed none |
| Rules.LineEndExact | src/filters/wikipedia.js:11 | where the first line terminator lies, `.*` stops there |
| Rules.TitledTargetEnd | src/filters/global.js:6 | `[^\s]+\s+"[^"]+"\)` matches only a target, blanks and a quoted title closed by `)` |
| Rules.TitledTargetComplete | src/filters/global.js:6 | every target-and-quoted-title text of that shape is matched up to its `)` |
| Rules.Link | src/filters/global.js:11 | the link `[name](target)` is 4 characters longer than its parts |
| Rules.LinkLayout | src/filters/global.js:11 | the link opens with `[` and closes with `)`; the name's characters follow the `[` one by one, and the target's precede the final `)` |
| Rules.LinkParts | src/filters/global.js:11 | `](` follows the name; the name lies between `[` and `](`, the target between `](` and the final `)` |
| Global.PilcrowAt | src/filters/global.js:6 | a pilcrow anchor is matched from `[Â¶](#` up to its `)` and removed |
| Global.PilcrowSound | src/filters/global.js:6 | whatever the pilcrow rule removes is an anchor with a target and a quoted title |
| Global.PilcrowComplete | src/filters/global.js:6 | every pilcrow anchor with a target and a quoted title is removed up to its `)` |
| Global.LinkSpacingAt | src/filters/global.js:10-11 | the link-spacing rule matches from `[` to `)` |
| Global.LinkSpacingAtParts | src/filters/global.js:10-11 | a link with white space after `[` is rewritten as `[label](target)`, the leading white space dropped |
| Global.LinkSpacingComplete | src/filters/global.js:10-11 | every `[`, white space, a text without `]` or line feed, white space, `](`, a target without `)` and `)` is matched whole and written as `[text](target)` |
| Global.LinkSpacingSound | src/filters/global.js:10-11 | every rewrite is of such a link, to its text and target |
| Global.TidyLinkUnchanged | src/filters/global.js:10-11 | a link without leading white space, `]` or line feed in its text is matched whole and written back unchanged |
| Global.TidyLinkName | src/filters/global.js:10 | in such a link the label starts right after `[` and ends at `]` |
| Global.TidyLinkTarget | src/filters/global.js:10 | in such a link the target ends at the final `)` |
| Global.LinkSpacingTidy | src/filters/global.js:10-11 | the link the rule writes is tidy: rewriting it again changes nothing |
| Global.StuckLinksIdempotent | src/filters/global.js:15-16 | after `)[` becomes `)\n[` no `)[` is left, so a second pass changes nothing |
| Global.SchemeAt | src/filters/global.js:20-21 | the scheme rule matches from `[` to `)` |
| Global.SchemeAtParts | src/filters/global.js:20-21 | `[t](//x)` becomes `[t](https://x)` |
| Global.SchemeComplete | src/filters/global.js:20-21 | every `[t](//x)` with no `]` in `t` and no `)` in `x` becomes `[t](https://x)` |
| Global.SchemeSound | src/filters/global.js:20-21 | every rewrite is of such a protocol-relative link, given the `https:` scheme |
| Global.SchemeAtNoSlashes | src/filters/global.js:20 | a link whose target does not start with `//` is not rewritten |
| Global.SchemeOnce | src/filters/global.js:20-21 | a link given its scheme is not rewritten again |
| Global.SchemedLinkOnce | src/filters/global.js:20 | a link to an `https://` target is not rewritten |
| Medium.MediumHostSubdomain | src/filters/medium.js:5 | the domain pattern matches `medium.com` and every sub-domain of it |
| Medium.MediumHostLength | src/filters/medium.js:5 | a host shorter than `medium.com` never matches |
| Medium.MiroPathPlain | src/filters/medium.js:8-9 | the image address holds neither `(` nor `$`, so the replacement is inserted literally |
| Medium.MiroIdempotent | src/filters/medium.js:8-9 | after the rewrite no 60-pixel address is left, so applying the rule again changes nothing |
| Medium.OpeningEnd | src/filters/medium.js:12 | the opening white space, `[`, white space and `![` |
| Medium.ImageEnd | src/filters/medium.js:12 | the image's non-empty alt text and non-empty source |
| Medium.TargetEnd | src/filters/medium.js:12 | the link's address up to the `?`, the query up to `)`, and the white space after it |
| Medium.LinkedImageParts | src/filters/medium.js:12 | the groups of a linked image lie in order inside the text |
| Medium.LinkedImageAt | src/filters/medium.js:12-13 | the linked-image rule matches a non-empty stretch of the text |
| Medium.LinkedImagePartsAt | src/filters/medium.js:12 | a linked image laid out as the pattern says yields those groups |
| Medium.LinkedImageAtParts | src/filters/medium.js:12-13 | such a linked image is replaced by the image line, then the link with the alt text and the address without its query |
| Medium.OpeningComplete | src/filters/medium.js:12 | every opening of the pattern's shape is recognised |
| Medium.ImageComplete | src/filters/medium.js:12 | every image of the pattern's shape is recognised |
| Medium.TargetComplete | src/filters/medium.js:12 | every link target with a query, of the pattern's shape, is recognised |
| Medium.TargetEndAt | src/filters/medium.js:12 | the target scan ends where the layout says |
| Medium.LinkedImageComplete | src/filters/medium.js:12-13 | every linked image with a query string, with the white space around it, becomes `\n![alt](img)\n[alt](href)\n\n` with the query dropped |
| Medium.OpeningSound | src/filters/medium.js:12 | a recognised opening has the pattern's shape |
| Medium.TargetSound | src/filters/medium.js:12 | a recognised link target has the pattern's shape |
| Medium.LinkedImageSound | src/filters/medium.js:12-13 | whatever the rule matches is a linked image of the pattern's shape, and the address kept is the text between `](` and the `?` |
| StackOverflow.StackOverflowHostSubdomain | src/filters/stackoverflow.js:5 | the domain pattern matches `stackoverflow.com` and every sub-domain of it |
| StackOverflow.ThreeBarEnd | src/filters/stackoverflow.js:6 | the end marker is `Three`, one or more spaces and a bar |
| StackOverflow.ThreeBarComplete | src/filters/stackoverflow.js:6 | every `Three`, spaces and bar is recognised wherever it occurs |
| StackOverflow.ThreeBarNoOverlap | src/filters/stackoverflow.js:6 | no end marker starts inside another |
| StackOverflow.LastThreeBar | src/filters/stackoverflow.js:6 | the last position before a limit where the end marker matches: none matches later |
| StackOverflow.LinksBlockAt | src/filters/stackoverflow.js:6 | the removal matches a non-empty stretch and deletes it |
| StackOverflow.SeparatorFrom | src/filters/stackoverflow.js:6 | the middle part runs to the first U+2028 or U+2029 |
| StackOverflow.LinksOpeningScan | src/filters/stackoverflow.js:6 | the opening is `*`, one or more spaces and `Links` |
| StackOverflow.LinksBlockExtent | src/filters/stackoverflow.js:6 | the removal runs from `* Links` to the end of the last `Three`, blanks and bar that starts before the first separator, and nothing is removed when there is none |
| StackOverflow.LinksBlockGreedy | src/filters/stackoverflow.js:6 | the removed block covers every end marker after the opening: the removal is greedy |
| Wikipedia.WikipediaHostSubdomain | src/filters/wikipedia.js:5 | every `<sub>.wikipedia.org` host matches the domain pattern |
| Wikipedia.WikipediaBareDomain | src/filters/wikipedia.js:5 | the bare `wikipedia.org` does not match: the pattern needs a dot in front |
| Wikipedia.TailEnd | src/filters/wikipedia.js:19 | `\/[^\)]+\)`: a slash, a non-empty run without `)`, and the `)` |
| Wikipedia.DotCandidate | src/filters/wikipedia.js:19 | a dot followed by 4 characters of the line, or by 3 when 4 do not fit, and then the tail |
| Wikipedia.LastDot | src/filters/wikipedia.js:19 | the greedy `[^\)]+` gives back characters to the last dot where the rest matches |
| Wikipedia.ThumbGroupEnd | src/filters/wikipedia.js:19 | after the upload prefix (any letter case), the first group runs up to the first `/`, which starts `/thumb/` |
| Wikipedia.ThumbRestFrom | src/filters/wikipedia.js:19 | the second group and the tail lie in order after `/thumb/` |
| Wikipedia.ThumbAt | src/filters/wikipedia.js:19-20 | the thumbnail rule matches a non-empty stretch of the text |
| Wikipedia.ThumbGroupComplete | src/filters/wikipedia.js:19 | wherever the prefix is followed by a group without `/` and `/thumb/`, the first group is found |
| Wikipedia.ThumbRestSound | src/filters/wikipedia.js:19-20 | the second group kept has no `)`, ends with a dot and 3 or 4 characters, and the size-prefixed name after it is dropped up to the `)` |
| Wikipedia.ThumbRestLongest | src/filters/wikipedia.js:19 | the second group is the longest the greedy pattern allows: no later dot before the first `)` could end it |
| Text.Utf16Length | src/filters/wikipedia.js:25 | JavaScript's `length` counts UTF-16 code units, at least one per character |
| Text.Utf16LengthBmp | src/filters/wikipedia.js:25 | the two lengths agree exactly when no character lies outside the Basic Multilingual Plane |
| Wikipedia.HeadingAt | src/filters/wikipedia.js:23-26 | the heading rule matches a non-empty stretch of the text |
| Wikipedia.HeadingComplete | src/filters/wikipedia.js:23-26 | every title line followed by 32 or more dashes is rewritten with an underline of exactly `title.length` dashes |
| Wikipedia.HeadingSound | src/filters/wikipedia.js:23 | whatever the heading rule rewrites is a title line followed by 32 or more dashes |
| WikipediaRemovals.CiteNoteAt | src/filters/wikipedia.js:7 | the bold citation mark is removed |
| WikipediaRemovals.CiteNoteExact | src/filters/wikipedia.js:7 | the rule removes exactly the marks `**[^](#cite_ref…)**` with a target without `)` |
| WikipediaRemovals.EscapedEnd | src/filters/wikipedia.js:8 | the optional escaped `\]` after an edit link is taken when present |
| WikipediaRemovals.EditLinkAt | src/filters/wikipedia.js:8 | an edit link is removed |
| WikipediaRemovals.EditLinkComplete | src/filters/wikipedia.js:8 | every `[edit](target "title")` link, in any letter case, is removed with its optional escaped brackets |
| WikipediaRemovals.EditLinkSound | src/filters/wikipedia.js:8 | whatever the rule removes is such an edit link |
| WikipediaRemovals.JumpUpAt | src/filters/wikipedia.js:9 | a back-reference is removed |
| WikipediaRemovals.JumpUpExact | src/filters/wikipedia.js:9 | the rule removes exactly `^`, one white-space character, `[Jump up to` in any case and text up to the first `)` |
| WikipediaRemovals.CiteRefAt | src/filters/wikipedia.js:10 | a citation link is removed |
| WikipediaRemovals.CiteRefComplete | src/filters/wikipedia.js:10 | every `[text](#cite_ref…)` link, text without `]`, is removed up to its `)` |
| WikipediaRemovals.CiteRefSound | src/filters/wikipedia.js:10 | whatever the rule removes is such a citation link |
| WikipediaRemovals.WikidataAt | src/filters/wikipedia.js:11 | the Wikidata edit link is removed |
| WikipediaRemovals.WikidataExact | src/filters/wikipedia.js:11 | the rule removes exactly the opening and the rest of its line |
| WikipediaRemovals.FindAudioDot | src/filters/wikipedia.js:12 | an audio extension `.mp3`, `.ogg`, `.oga` or `.flac` occurs in the stretch exactly when the search finds one |
| WikipediaRemovals.ListenAt | src/filters/wikipedia.js:12 | the audio player link is removed |
| WikipediaRemovals.ListenComplete | src/filters/wikipedia.js:12 | every player link to an audio file is removed up to the link's `)` |
| WikipediaRemovals.ListenSound | src/filters/wikipedia.js:12 | whatever the rule removes is a player link to an audio file |
| WikipediaRemovals.AudioFileAt | src/filters/wikipedia.js:13 | the audio-file link is removed |
| WikipediaRemovals.AudioFileExact | src/filters/wikipedia.js:13 | the rule removes the link up to its first `)` and exactly the rest of that line |
| WikipediaRemovals.SpokenIconAt | src/filters/wikipedia.js:14 | the Spoken Wikipedia icon is removed |
| WikipediaRemovals.SpokenIconExact | src/filters/wikipedia.js:14 | the rule removes exactly the icons, up to the first `)` after the opening |
| WikipediaRemovals.PlayAudioAt | src/filters/wikipedia.js:15 | a line with a "Play audio" link is removed |
| WikipediaRemovals.PlayAudioExact | src/filters/wikipedia.js:15 | the rule matches at `[` exactly when the line holds `](`, then `Play audio`, then `)`, and it removes the rest of the line |
| WikipediaRemovals.PlayAudioFirst | src/filters/wikipedia.js:15 | whenever some choice of the parts fits in the line, the rest of the line from `[` is removed |
| Filters.ApplyRulesConcat | src/filters/index.js:26-28 | the rules run in list order, each seeing the previous output: running `a + b` is running `a`, then `b` |
| Filters.RemoveFromShorter | src/filters/index.js:27 | removing every match never lengthens the text |
| Filters.RemovalsShorten | src/filters/index.js:26-28 | a list of removals never lengthens the text |
| Filters.RulesNeverMatching | src/filters/index.js:26-28 | rules that match nowhere leave the text unchanged |
| Filters.ApplyRemovePatterns | src/filters/index.js:23-30 | the loop removes every match of each pattern in turn; a missing list leaves the text unchanged; the text never grows |
| Filters.ApplyReplacePatterns | src/filters/index.js:38-45 | the loop applies each rule to all matches in turn; a missing list leaves the text unchanged |
| Filters.AbsolutizeAt | src/filters/index.js:57-60 | the relative-link rule matches from `[` to `)` |
| Filters.AbsolutizeComplete | src/filters/index.js:57-60 | `[t](/x…)` with `x` not `/` becomes `[t](base/x…)` |
| Filters.AbsolutizeSound | src/filters/index.js:57-60 | whatever the rule rewrites is a link whose target starts with one `/` and not two |
| Filters.AbsolutizeOnce | src/filters/index.js:57-60 | a link made absolute is not rewritten again when the base does not start with `/` |
| Filters.AbsolutizeUntouched | src/filters/index.js:53-61 | a text without `](/` is unchanged |
| Filters.TargetClose | src/filters/index.js:70 | a link target `]( … )`: non-empty and without `)` |
| Filters.InlineLinkAt | src/filters/index.js:70 | the inline-link rule matches a non-empty stretch of the text |
| Filters.TargetCloseExact | src/filters/index.js:70 | wherever `](`, a non-empty target without `)` and `)` lie, the target is found |
| Filters.TargetCloseNeedsBracket | src/filters/index.js:70 | without `](` there is no target |
| Filters.InlineLinkComplete | src/filters/index.js:70 | a link `[label](url)` is replaced by its label |
| Filters.InlineLinkSound | src/filters/index.js:70 | whatever the rule replaces is a link, and the text kept is its label |
| Filters.CitationAt | src/filters/index.js:71 | the numeric-marker rule matches a non-empty stretch of the text |
| Filters.CitationComplete | src/filters/index.js:71 | escaped or bracketed numeric markers become `[n]` |
| Filters.CitationSound | src/filters/index.js:71 | whatever the rule rewrites is a run of `\` or `[`, digits, and a run of `\` or `]` |
| Filters.RemoveInlineLinksUntouched | src/filters/index.js:69-73 | a text without `[` or `\` is unchanged |
| Filters.ApplyFiltersConcat | src/filters/index.js:88-93 | the filter sets run in registry order, each seeing the previous output |
| Filters.ApplyFiltersOtherHosts | src/filters/index.js:89 | sets whose domain does not match the host leave the text unchanged |
| Filters.UnparsedAddressGlobalOnly | src/filters/index.js:83-89 | with an unparsable address only the global set runs, no link is made absolute, and links are removed only on request |
| Filters.Registry.constructor | src/filters/index.js:10-15 | the registry holds the global, Wikipedia, Medium and Stack Overflow sets, in that order |
| Filters.Registry.AddFilter | src/filters/index.js:110-112 | a new set is appended after the existing ones, which keep their order |
| Filters.Registry.Filter | src/filters/index.js:82-104 | each matching set removes then replaces, in registry order; relative links are then made absolute; links are removed last and only when asked |
| Filters.AddedFilterRunsLast | src/filters/index.js:110-112 | an added set runs after every set registered before it |
| Processor.Resolve | src/lib/processor.js:17-19 | missing options default to inline title on, links kept, Readability on; an explicit choice is kept |
| Processor.TitleOf | src/lib/processor.js:22-23 | the title is the `<title>` text, or `""` without one |
| Processor.RawHtml | src/lib/processor.js:54-60 | the fallback is the root element's HTML, else the body's, else `""` |
| Processor.ReadableHtml | src/lib/processor.js:37-60 | Readability's article when it yields a non-empty one; the raw HTML when it is off, yields nothing or throws |
| Processor.WithTitle | src/lib/processor.js:79-83 | `# title` and a line feed precede the body exactly when asked and the title is not empty; the body follows unchanged |
| Processor.RestorePlaceholders | src/lib/processor.js:71-73 | the loop restores the records in array order, first occurrence only, with the `$`-patterns of `replace` expanded in each record's Markdown |
| Processor.MarkdownAgreesWithoutDollar | src/lib/processor.js:71-73 | the page's Markdown equals the literal record-for-record restoration whenever no record's Markdown holds `$` |
| Processor.SetAside | src/lib/processor.js:63-65 | code blocks are set aside before tables, both in one fresh array, code records first |
| Processor.ProcessDom | src/lib/processor.js:16-84 | the title is the `<title>` text; the Markdown is the readable HTML with code and tables set aside, converted, restored as `replace` does it (`$`-patterns expanded), filtered only when the address is not empty, and titled when asked |
| Processor.ProcessHtml | src/lib/processor.js:93-101 | style and script blocks are stripped before parsing, and the page is processed whole, with no `id` |
| Processor.PlainPageConvertedDirectly | src/lib/processor.js:63-73 | a page without code blocks or tables is handed to the converter unchanged and nothing is restored |
| Convert.GetOptions | src/handlers/convert.js:25-49 | inline title iff `title` is `true` or `"true"`; links removed iff `links` is `false` or `"false"`; Readability off iff `clean` is `false` or `"false"`; all three always set |
| Convert.HandlerDefaultsWin | src/handlers/convert.js:30-32 | with no parameters the handler asks for no inline title, though the processor's own default puts it in |
| Convert.NullReadsAsAbsent | src/handlers/convert.js:105-109 | a `null` query parameter reads like a missing one |
| Convert.FailureText | src/handlers/convert.js:118-120 | the blocked message exactly when the error's message mentions `403`, the generic failure otherwise |
| Convert.FailureStatus | src/handlers/convert.js:119 | status 502 exactly when the error's message mentions `HTTP`, 504 otherwise |
| Convert.GetFailureBody | src/handlers/convert.js:117-125 | the error text, followed by the site's answer exactly when the message mentions `HTTP` |
| Convert.ForbiddenIsBlocked | src/handlers/convert.js:151-152 | an `HTTP 403` error is reported as blocking automated access, with status 502 |
| Convert.PostDecision | src/handlers/convert.js:139-174 | provided HTML is converted without fetching, the URL used only for filtering; with neither, or an empty fetched page, status 400; a failed fetch is classified by its message |
| Convert.PostFetchConverts | src/handlers/convert.js:143-172 | a fetched page is converted exactly when the address is valid, the fetch succeeds and the page is not empty |

## Left out

- Network I/O is not modelled: `fetchUrl` (src/utils/fetch.js) is a parameter of `Convert.PostDecision`, with its timeouts and retries.
- Request routing and HTTP plumbing are not modelled. This covers src/index.js, JSON parsing of the body, `Response` objects, CORS headers and the `X-Title` header with its `encodeURIComponent`.
- The GET handler is modelled only through its option reading and its error text. Its URL check, call of `processHtml` and response are the same chain as the POST path.
- The POST handler's outer `catch` (a body that is not JSON gives status 400 with "Could not parse that document") is not modelled, because it is JSON parsing.
- Convert.PostDecision: `url` and `html` are strings, `""` when missing. A body with non-string `url` or `html` values is not modelled. The outcome names what is converted, not the Markdown itself: that is `Processor.ProcessHtml` followed by `Markdown.CleanMarkdown`.
- The HTML parser, `querySelector`, `outerHTML`/`innerHTML`, Readability, the Turndown converter and the entity decoder `decode` are opaque functions in `Processor.Env`. An `id` is looked up as an element id, so a CSS selector error is not modelled. A Readability run that throws or yields nothing is `None`.
- `parseUrl` (src/utils/url.js) is an opaque function that yields a host name and a base address, or `None`. `isValidUrl` is a parameter.
- `Math.random` in placeholders is a nonce parameter. Placeholders are proved distinct only through their ordinal and prefix; uniqueness against the page text is not claimed.
- Wikipedia.ThumbAt: only the parts of a thumbnail match are characterised (`ThumbGroupComplete`, `ThumbRestSound`, `ThumbRestLongest`). That every thumbnail address of the pattern's shape is rewritten is not proved as one lemma.
- Markup.GreedyElementAt: the greedy caption body is stated only as holding characters that `.` or `\n` accept. Its end at the last closing tag comes from `Markup.LastClose`.
- Table.Clean: states only that the cleaned text is trimmed, because `decode` is opaque.
- Rewrite.ReplaceFirst: states only that a text without the pattern is unchanged. Its `$` expansion is shown by `Vault.RestoreAsWrittenLosesDollar`.
- Strings are sequences of Unicode characters, not of UTF-16 code units. Where the source measures a string with `length` (the heading underline, the table's padding and column widths), the model measures it with `Text.Utf16Length`; positions and slices are counted in characters, which differs from the source only for text outside the Basic Multilingual Plane.
- The registry is one `Filters.Registry` object. Sharing it between concurrent requests is not modelled.

## Findings

| source | as written | input that shows it | evidently intended | confidence | as-written member | corrected member |
|---|---|---|---|---|---|---|
| src/lib/processor.js:71-73 | `markdown.replace(placeholder, replacement)` is given the formatted Markdown as a replacement string, so `$$`, `$&` and the other `$`-patterns in it are expanded | the page `<pre>$$</pre>`: its record holds `$$` in the fenced block, and the restored Markdown holds `$` | the record's Markdown put back character for character | not executed | Vault.RestoreAsWrittenLosesDollar | Vault.RestoreOne |

The processor (`Processor.MarkdownOf`, `Processor.RestorePlaceholders`, `Processor.ProcessDom`) restores as written, with `Vault.RestoreAsWritten`. The corrected restoration is `Vault.Restore`, built on `Vault.RestoreOne`, whose contract states the literal placement. `Processor.MarkdownAgreesWithoutDollar` proves that the page's Markdown equals the corrected restoration whenever no record's Markdown holds `$`. Restoring only the first occurrence of each placeholder is the same in both.
