/** The placeholder technique shared by both formatters and the processor: a
    fragment of the page is replaced by `<p>placeholder</p>` so that the
    HTML-to-Markdown converter passes it through as plain text, and a record
    `{placeholder, replacement}` remembers the Markdown to put back later. */
module Vault {
  import opened Wrappers
  import opened Text
  import opened Rewrite

  datatype Record = Record(placeholder: string, replacement: string)

  /** The `replacements` array of one conversion, written by both formatters
      and read back by the processor. */
  class Replacements {
    var records: seq<Record>

    constructor ()
      ensures records == []
    {
      records := [];
    }

    /** `replacements[index] = r` for an index inside the array or just past
        its end. */
    method Put(index: nat, r: Record)
      requires index <= |records|
      modifies this
      ensures records == if index < |old(records)| then old(records)[index := r] else old(records) + [r]
    {
      if index < |records| {
        records := records[index := r];
      } else {
        records := records + [r];
      }
    }
  }

  /** The block element that stands in for a fragment. */
  function Wrapped(placeholder: string): string {
    "<p>" + placeholder + "</p>"
  }

  /** The HTML after each fragment in turn has had its first occurrence
      replaced by its wrapped placeholder (`html = html.replace(fragment,
      "<p>" + placeholder + "</p>")` in a loop). */
  function Splice(html: string, fragments: seq<string>, placeholders: seq<string>): string
    requires |fragments| == |placeholders|
    decreases |fragments|
  {
    if fragments == [] then html
    else
      var n := |fragments| - 1;
      ReplaceFirst(Splice(html, fragments[..n], placeholders[..n]), fragments[n], Wrapped(placeholders[n]))
  }

  /** One more fragment spliced: the next step of the loop. */
  lemma SpliceStep(html: string, fragments: seq<string>, placeholders: seq<string>, c: nat)
    requires |fragments| == |placeholders| && c < |fragments|
    ensures Splice(html, fragments[..c + 1], placeholders[..c + 1])
         == ReplaceFirst(Splice(html, fragments[..c], placeholders[..c]), fragments[c], Wrapped(placeholders[c]))
  {
    assert fragments[..c + 1][..c] == fragments[..c];
    assert placeholders[..c + 1][..c] == placeholders[..c];
  }

  /** With no fragment the HTML is unchanged. */
  lemma SpliceNothing(html: string)
    ensures Splice(html, [], []) == html
  {
  }

  /** `s.replace(placeholder, replacement)` as the processor writes it: the
      first occurrence only, and the replacement's `$`-patterns expanded. */
  function RestoreOneAsWritten(markdown: string, r: Record): string {
    ReplaceFirst(markdown, r.placeholder, r.replacement)
  }

  /** The restoration loop as written: each record in array order. */
  function RestoreAsWritten(markdown: string, records: seq<Record>): string
    decreases |records|
  {
    if records == [] then markdown
    else
      var n := |records| - 1;
      RestoreOneAsWritten(RestoreAsWritten(markdown, records[..n]), records[n])
  }

  /** The first occurrence of `r.placeholder` replaced by `r.replacement`
      character for character. */
  function RestoreOne(markdown: string, r: Record): (out: string)
    ensures IndexOf(markdown, r.placeholder, 0).None? ==> out == markdown
    ensures IndexOf(markdown, r.placeholder, 0).Some? ==>
      var p := IndexOf(markdown, r.placeholder, 0).value;
      && |out| == |markdown| - |r.placeholder| + |r.replacement|
      && out[..p] == markdown[..p]
      && StartsAt(out, p, r.replacement)
      && out[p + |r.replacement|..] == markdown[p + |r.placeholder|..]
  {
    match IndexOf(markdown, r.placeholder, 0)
    case None => markdown
    case Some(p) =>
      var out := markdown[..p] + r.replacement + markdown[p + |r.placeholder|..];
      assert out[..p] == markdown[..p];
      assert out[p..p + |r.replacement|] == r.replacement;
      assert out[p + |r.replacement|..] == markdown[p + |r.placeholder|..];
      out
  }

  /** Restoration: each record in array order, first occurrence only. */
  function Restore(markdown: string, records: seq<Record>): string
    decreases |records|
  {
    if records == [] then markdown
    else
      var n := |records| - 1;
      RestoreOne(Restore(markdown, records[..n]), records[n])
  }

  /** Records whose placeholders the converted text no longer holds put
      nothing back: the text is unchanged. */
  lemma {:induction false} RestoreWithoutPlaceholders(markdown: string, records: seq<Record>)
    requires forall k :: 0 <= k < |records| ==> IndexOf(markdown, records[k].placeholder, 0).None?
    ensures Restore(markdown, records) == markdown
    decreases |records|
  {
    if records != [] {
      var n := |records| - 1;
      RestoreWithoutPlaceholders(markdown, records[..n]);
    }
  }

  /** As written, too, records whose placeholders the converted text no
      longer holds leave it unchanged. */
  lemma {:induction false} RestoreAsWrittenWithoutPlaceholders(markdown: string, records: seq<Record>)
    requires forall k :: 0 <= k < |records| ==> IndexOf(markdown, records[k].placeholder, 0).None?
    ensures RestoreAsWritten(markdown, records) == markdown
    decreases |records|
  {
    if records != [] {
      var n := |records| - 1;
      RestoreAsWrittenWithoutPlaceholders(markdown, records[..n]);
    }
  }

  /** One step as written and as intended agree when the fragment holds no `$`. */
  lemma RestoreOneAgreesWithoutDollar(markdown: string, r: Record)
    requires '$' !in r.replacement
    ensures RestoreOneAsWritten(markdown, r) == RestoreOne(markdown, r)
  {
    match IndexOf(markdown, r.placeholder, 0)
    case None =>
    case Some(p) =>
      SubstituteNoDollar(r.replacement, r.placeholder, markdown[..p], markdown[p + |r.placeholder|..]);
  }

  /** As written and as intended agree whenever no rendered fragment holds
      a `$`. */
  lemma {:induction false} RestoreAgreesWithoutDollar(markdown: string, records: seq<Record>)
    requires forall k :: 0 <= k < |records| ==> '$' !in records[k].replacement
    ensures RestoreAsWritten(markdown, records) == Restore(markdown, records)
    decreases |records|
  {
    if records != [] {
      var n := |records| - 1;
      RestoreAgreesWithoutDollar(markdown, records[..n]);
      RestoreOneAgreesWithoutDollar(Restore(markdown, records[..n]), records[n]);
    }
  }

  /** The restoration as written does not put back a code block holding
      `$$` verbatim: it writes a single `$`. */
  lemma RestoreAsWrittenLosesDollar()
    ensures RestoreAsWritten("P", [Record("P", "$$")]) == "$"
    ensures Restore("P", [Record("P", "$$")]) == "$$"
  {
    var r := Record("P", "$$");
    assert StartsAt("P", 0, "P");
    assert IndexOf("P", "P", 0) == Some(0);
    assert RestoreAsWritten("P", [r]) == RestoreOneAsWritten("P", r) by {
      assert [r][..0] == [];
    }
    assert Substitute("$$", "P", "", "") == "$" + Substitute("", "P", "", "");
    assert Restore("P", [r]) == RestoreOne("P", r) by {
      assert [r][..0] == [];
    }
  }
}
