/** The regular-expression helpers of `src/utils/html.js`: removing style
    and script blocks, reading the page title, removing tags and removing
    line breaks. Each pattern is a scanner over the text (see `Rewrite`). */
module Html {
  import opened Wrappers
  import opened Text
  import opened Rewrite
  import opened Rules

  /** `<open[\s\S]*?close` with the `i` flag: from `open` at `i` to the first
      `close` after it (non-greedy), across line breaks. */
  function LazyBlockAt(open: string, close: string, s: string, i: nat): (r: Option<Hit>)
    ensures r.Some? <==> StartsAtFolded(s, i, open) && IndexOfFolded(s, close, i + |open|).Some?
    ensures r.Some? ==> i + |open| + |close| <= r.value.end <= |s| && r.value.text == ""
    ensures r.Some? ==> StartsAtFolded(s, r.value.end - |close|, close)
    ensures r.Some? ==> forall k :: i + |open| <= k < r.value.end - |close| ==> !StartsAtFolded(s, k, close)
  {
    if StartsAtFolded(s, i, open) then
      match IndexOfFolded(s, close, i + |open|)
      case Some(j) => Some(Hit(j + |close|, ""))
      case None => None
    else None
  }

  /** `/<style[\s\S]*?<\/style>/gi` */
  function StyleBlockAt(s: string, i: nat): Option<Hit> {
    LazyBlockAt("<style", "</style>", s, i)
  }

  /** `/<script[\s\S]*?<\/script>/gi` */
  function ScriptBlockAt(s: string, i: nat): Option<Hit> {
    LazyBlockAt("<script", "</script>", s, i)
  }

  /** Removes every `<style ... </style>` block, non-greedy and ignoring case. */
  function StripStyleBlocks(html: string): string {
    RemoveAll(html, StyleBlockAt)
  }

  /** Removes every `<script ... </script>` block, non-greedy and ignoring case. */
  function StripScriptBlocks(html: string): string {
    RemoveAll(html, ScriptBlockAt)
  }

  /** Style blocks first, then script blocks. */
  function StripStyleAndScriptBlocks(html: string): string {
    StripScriptBlocks(StripStyleBlocks(html))
  }

  /** A page with no `<style` anywhere keeps its text when style blocks are
      stripped, and likewise for `<script`. */
  lemma StripBlocksWithoutOpeningTag(html: string)
    ensures (forall k :: 0 <= k <= |html| ==> !StartsAtFolded(html, k, "<style"))
            ==> StripStyleBlocks(html) == html
    ensures (forall k :: 0 <= k <= |html| ==> !StartsAtFolded(html, k, "<script"))
            ==> StripScriptBlocks(html) == html
  {
    if forall k :: 0 <= k <= |html| ==> !StartsAtFolded(html, k, "<style") {
      NoMatchUnchanged(html, 0, StyleBlockAt, true);
    }
    if forall k :: 0 <= k <= |html| ==> !StartsAtFolded(html, k, "<script") {
      NoMatchUnchanged(html, 0, ScriptBlockAt, true);
    }
  }

  /** `/<title[^>]*>([^<]+)<\/title>/i`: the hit's text is the captured title. */
  function TitleAt(s: string, i: nat): (r: Option<Hit>)
    ensures r.Some? ==> StartsAtFolded(s, i, "<title") && r.value.end <= |s|
    ensures r.Some? ==> r.value.text != [] && '<' !in r.value.text
    ensures r.Some? ==> r.value.end >= 8 && StartsAtFolded(s, r.value.end - 8, "</title>")
  {
    if StartsAtFolded(s, i, "<title") then
      var g := RunEnd(s, i + 6, NotCloseAngle);
      if g < |s| then
        var h := RunEnd(s, g + 1, NotOpenAngle);
        if h > g + 1 && StartsAtFolded(s, h, "</title>") then
          Some(Hit(h + 8, s[g + 1..h]))
        else None
      else None
    else None
  }

  /** A title element at `i`: `<title` in any case, attributes up to the
      `>` at `g`, a non-empty text without `<` up to `h`, and `</title>` in
      any case at `h`. */
  predicate TitleLayout(s: string, i: nat, g: nat, h: nat) {
    && StartsAtFolded(s, i, "<title") && i + 6 <= g && g + 1 < h && h + 8 <= |s|
    && (forall x :: i + 6 <= x < g ==> s[x] != '>') && s[g] == '>'
    && (forall x :: g < x < h ==> s[x] != '<') && StartsAtFolded(s, h, "</title>")
  }

  /** Every title element is matched, from `<title` through `</title>`, and
      its text is captured whole. */
  lemma TitleComplete(s: string, i: nat, g: nat, h: nat)
    requires TitleLayout(s, i, g, h)
    ensures TitleAt(s, i) == Some(Hit(h + 8, s[g + 1..h]))
  {
    assert Lower(s[h]) == Lower("</title>"[0]);
    RunEndExact(s, i + 6, g, NotCloseAngle);
    RunEndExact(s, g + 1, h, NotOpenAngle);
  }

  /** Whatever the pattern matches is a title element, and the capture is
      its text. */
  lemma TitleSound(s: string, i: nat)
    requires TitleAt(s, i).Some?
    ensures exists g: nat, h: nat :: TitleLayout(s, i, g, h) && TitleAt(s, i).value == Hit(h + 8, s[g + 1..h])
  {
    var g := RunEnd(s, i + 6, NotCloseAngle);
    var h := RunEnd(s, g + 1, NotOpenAngle);
    assert TitleLayout(s, i, g, h);
  }

  /** The trimmed text of the first `<title>` element whose text holds no
      `<`, or "" when there is none. */
  function ExtractTitle(html: string): (r: string)
    ensures '<' !in r
    ensures r != [] ==> !IsSpace(r[0]) && !IsSpace(r[|r| - 1])
    ensures NoMatchFrom(html, 0, TitleAt) ==> r == ""
    ensures FirstHit(html, 0, TitleAt).Some? ==>
      exists g: nat, h: nat :: TitleLayout(html, FirstHit(html, 0, TitleAt).value, g, h) && r == Trim(html[g + 1..h])
  {
    match FirstHit(html, 0, TitleAt)
    case None => ""
    case Some(p) =>
      var t := TitleAt(html, p).value.text;
      TrimKeepsAbsent(t, '<');
      TitleSound(html, p);
      Trim(t)
  }

  /** The title is the trimmed text of the first title element: where one
      lies at `i` and no match starts before it, that is the title. */
  lemma ExtractTitleFirst(html: string, i: nat, g: nat, h: nat)
    requires TitleLayout(html, i, g, h)
    requires forall k :: 0 <= k < i ==> TitleAt(html, k).None?
    ensures ExtractTitle(html) == Trim(html[g + 1..h])
  {
    TitleComplete(html, i, g, h);
    FirstHitAt(html, 0, i, TitleAt);
  }

  /** A page whose text holds no title element has the empty title. */
  lemma ExtractTitleNone(html: string)
    requires forall i, g, h :: !TitleLayout(html, i, g, h)
    ensures ExtractTitle(html) == ""
  {
    forall k | 0 <= k <= |html| ensures !Fits(html, k, TitleAt(html, k)) {
      if TitleAt(html, k).Some? {
        TitleSound(html, k);
      }
    }
  }

  /** `/<\/?[^>]+(>|$)/g`: a `<` followed by at least one character other
      than `>`, up to and including the next `>`, or to the end of the text
      when no `>` follows. */
  function TagAt(s: string, i: nat): (r: Option<Hit>)
    ensures r.Some? <==> i + 1 < |s| && s[i] == '<' && s[i + 1] != '>'
    ensures r.Some? ==> i + 1 < r.value.end <= |s| && r.value.text == ""
    ensures r.Some? ==> forall k :: i < k < r.value.end - 1 ==> s[k] != '>'
    ensures r.Some? ==> r.value.end == |s| || s[r.value.end - 1] == '>'
  {
    if i + 1 < |s| && s[i] == '<' && s[i + 1] != '>' then
      var g := RunEnd(s, i + 1, c => c != '>');
      Some(Hit(if g < |s| then g + 1 else g, ""))
    else None
  }

  /** Removes every tag, and an unterminated `<...` at the end of the text. */
  function StripTags(html: string): string {
    RemoveAll(html, TagAt)
  }

  /** In the text left by `StripTags`, a `<` is the last character or is
      followed by `>`: no tag survives. */
  predicate NoTags(s: string) {
    forall k :: 0 <= k < |s| && s[k] == '<' ==> k == |s| - 1 || s[k + 1] == '>'
  }

  lemma {:induction false} StripTagsFromLeavesNoTags(s: string, i: nat)
    requires i <= |s|
    ensures NoTags(ReplaceFrom(s, i, TagAt, true))
    decreases |s| - i
  {
    var r := ReplaceFrom(s, i, TagAt, true);
    var h := TagAt(s, i);
    if Fits(s, i, h) {
      StripTagsFromLeavesNoTags(s, h.value.end);
    } else if i < |s| {
      StripTagsFromLeavesNoTags(s, i + 1);
      var rest := ReplaceFrom(s, i + 1, TagAt, true);
      assert r == [s[i]] + rest;
      if s[i] == '<' && i + 1 < |s| {
        assert s[i + 1] == '>';
        assert !Fits(s, i + 1, TagAt(s, i + 1));
        assert rest[0] == '>';
      }
      forall k | 0 <= k < |r| && r[k] == '<' ensures k == |r| - 1 || r[k + 1] == '>' {
        if k > 0 {
          assert r[k] == rest[k - 1];
          if k < |r| - 1 { assert r[k + 1] == rest[k]; }
        }
      }
    }
  }

  /** `StripTags` leaves no tag behind. */
  lemma StripTagsLeavesNoTags(html: string)
    ensures NoTags(StripTags(html))
  {
    StripTagsFromLeavesNoTags(html, 0);
  }

  /** Stripping tags twice is stripping them once. */
  lemma StripTagsIdempotent(html: string)
    ensures StripTags(StripTags(html)) == StripTags(html)
  {
    var r := StripTags(html);
    StripTagsLeavesNoTags(html);
    forall k | 0 <= k <= |r| ensures !Fits(r, k, TagAt(r, k)) {
    }
    NoMatchUnchanged(r, 0, TagAt, true);
  }

  /** `/(\r\n|\n|\r)/gm` */
  function LineBreakAt(s: string, i: nat): (r: Option<Hit>)
    ensures r.Some? <==> i < |s| && (s[i] == '\n' || s[i] == '\r')
    ensures r.Some? ==> r.value.text == "" && r.value.end == (if StartsAt(s, i, "\r\n") then i + 2 else i + 1)
  {
    if StartsAt(s, i, "\r\n") then Some(Hit(i + 2, ""))
    else if i < |s| && (s[i] == '\n' || s[i] == '\r') then Some(Hit(i + 1, ""))
    else None
  }

  /** Removes every line break. */
  function StripNewlines(str: string): string {
    RemoveAll(str, LineBreakAt)
  }

  /** Reference definition: the characters of `s` other than `\n` and `\r`,
      in order. */
  function WithoutBreaks(s: string): string {
    if s == [] then []
    else (if s[0] == '\n' || s[0] == '\r' then [] else [s[0]]) + WithoutBreaks(s[1..])
  }

  lemma {:induction false} StripNewlinesFrom(s: string, i: nat)
    requires i <= |s|
    ensures ReplaceFrom(s, i, LineBreakAt, true) == WithoutBreaks(s[i..])
    decreases |s| - i
  {
    if i < |s| {
      assert s[i..][1..] == s[i + 1..];
      if StartsAt(s, i, "\r\n") {
        StripNewlinesFrom(s, i + 2);
        assert s[i + 1..][1..] == s[i + 2..];
        assert s[i + 1] == s[i..i + 2][1] == '\n';
      } else {
        StripNewlinesFrom(s, i + 1);
      }
    }
  }

  /** `StripNewlines` keeps exactly the characters other than `\n` and `\r`. */
  lemma StripNewlinesIsWithoutBreaks(str: string)
    ensures StripNewlines(str) == WithoutBreaks(str)
  {
    StripNewlinesFrom(str, 0);
    assert str[0..] == str;
  }

  lemma {:induction false} WithoutBreaksHasNone(s: string)
    ensures '\n' !in WithoutBreaks(s) && '\r' !in WithoutBreaks(s)
    ensures (forall k :: 0 <= k < |s| ==> s[k] != '\n' && s[k] != '\r') ==> WithoutBreaks(s) == s
  {
    if s != [] {
      WithoutBreaksHasNone(s[1..]);
      if forall k :: 0 <= k < |s| ==> s[k] != '\n' && s[k] != '\r' {
        assert forall k :: 0 <= k < |s| - 1 ==> s[1..][k] == s[k + 1];
        assert s == [s[0]] + s[1..];
      }
    }
  }

  /** The result holds no line break, and stripping again changes nothing. */
  lemma StripNewlinesProperties(str: string)
    ensures '\n' !in StripNewlines(str) && '\r' !in StripNewlines(str)
    ensures StripNewlines(StripNewlines(str)) == StripNewlines(str)
  {
    var r := StripNewlines(str);
    StripNewlinesIsWithoutBreaks(str);
    WithoutBreaksHasNone(str);
    StripNewlinesIsWithoutBreaks(r);
    WithoutBreaksHasNone(r);
  }
}
