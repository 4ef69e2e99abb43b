/** The nine removal patterns of `wikipediaFilter` in
    `src/filters/wikipedia.js`: citation marks, edit links, "Jump up to"
    back-references, the Wikidata edit link and the spoken-article player.
    Each pattern is a scanner whose parts stop at the first character their
    class refuses; where JavaScript would backtrack, the scanner says which
    reading wins. */
module WikipediaRemovals {
  import opened Wrappers
  import opened Text
  import opened Rewrite
  import opened Rules

  const CiteNoteOpen: string := "**[^](#cite_ref"
  const EditOpen: string := "[edit]("
  const JumpUpOpen: string := "[Jump up to"
  const CiteRefTarget: string := "(#cite_ref"
  const WikidataOpen: string := "[![Edit this at Wikidata]"
  const ListenOpen: string := "[![Listen to this article]("
  const AudioFileOpen: string := "[This audio file]("
  const SpokenIconOpen: string := "![Spoken Wikipedia icon]("
  const PlayAudio: string := "Play audio"

  /** 1. The global pattern `\*\*\[\^\]\(#cite_ref[^\)]+\)\*\*`: a bold
      citation mark. */
  function CiteNoteAt(s: string, i: nat): (r: Option<Hit>)
    ensures r.Some? ==> i < r.value.end <= |s| && r.value.text == ""
  {
    if StartsAt(s, i, CiteNoteOpen) then
      var j := i + |CiteNoteOpen|;
      var m := FirstFrom(s, j, ')');
      if m > j && StartsAt(s, m, ")**") then Some(Hit(m + 3, "")) else None
    else None
  }

  /** The opening, a non-empty target without `)` ending at `m`, and `)**`. */
  predicate CiteNoteLayout(s: string, i: nat, m: nat) {
    && StartsAt(s, i, CiteNoteOpen) && i + |CiteNoteOpen| < m && StartsAt(s, m, ")**")
    && (forall x :: i + |CiteNoteOpen| <= x < m ==> s[x] != ')')
  }

  /** The rule removes exactly the citation marks of that layout. */
  lemma CiteNoteExact(s: string, i: nat, m: nat)
    ensures CiteNoteAt(s, i) == Some(Hit(m + 3, "")) <==> CiteNoteLayout(s, i, m)
  {
    if CiteNoteLayout(s, i, m) {
      assert s[m..m + 3][0] == s[m];
      FirstFromExact(s, i + |CiteNoteOpen|, m, ')');
    }
  }

  /** Where the `[edit](` part starts: after the optional `\[`. */
  function EditCore(s: string, i: nat): nat {
    if StartsAt(s, i, "\\[") then i + 2 else i
  }

  /** Where the link's target starts, after `[edit](`. */
  function EditTarget(s: string, i: nat): nat {
    EditCore(s, i) + |EditOpen|
  }

  /** Where the match ends after the optional `\]` at `e`. */
  function EscapedEnd(s: string, e: nat): (r: nat)
    requires e <= |s|
    ensures e <= r <= |s|
  {
    if StartsAt(s, e, "\\]") then e + 2 else e
  }

  /** 2. The global pattern `(?:\\\[)?\[edit\]\([^\s]+\s+"[^"]+"\)(?:\\\])?`,
      ignoring case: a section's
      edit link, possibly inside escaped brackets. When the optional `\[`
      is there but the rest fails after it, leaving it out cannot help: the
      `\` is no `[`. */
  function EditLinkAt(s: string, i: nat): (r: Option<Hit>)
    ensures r.Some? ==> i < r.value.end <= |s| && r.value.text == ""
  {
    var c := EditCore(s, i);
    if StartsAtFolded(s, c, EditOpen) then
      match TitledTargetEnd(s, EditTarget(s, i))
      case None => None
      case Some(e) => Some(Hit(EscapedEnd(s, e), ""))
    else None
  }

  /** Every edit link, in any letter case, is removed with its escapes. */
  lemma EditLinkComplete(s: string, i: nat, a: nat, b: nat, e: nat)
    requires StartsAtFolded(s, EditCore(s, i), EditOpen)
    requires TitledTargetParts(s, EditTarget(s, i), a, b, e)
    ensures EditLinkAt(s, i) == Some(Hit(EscapedEnd(s, e), ""))
  {
    TitledTargetComplete(s, EditTarget(s, i), a, b, e);
  }

  /** What the rule removes is an edit link of that shape. */
  lemma EditLinkSound(s: string, i: nat)
    requires EditLinkAt(s, i).Some?
    ensures StartsAtFolded(s, EditCore(s, i), EditOpen)
    ensures exists a, b, e ::
      TitledTargetParts(s, EditTarget(s, i), a, b, e) && EditLinkAt(s, i).value.end == EscapedEnd(s, e)
  {
    var e := TitledTargetEnd(s, EditTarget(s, i)).value;
    var a, b :| TitledTargetParts(s, EditTarget(s, i), a, b, e);
  }

  /** 3. The global pattern `\^\s\[Jump up to[^\)]*\)`, ignoring case: a
      back-reference from a footnote. */
  function JumpUpAt(s: string, i: nat): (r: Option<Hit>)
    ensures r.Some? ==> i < r.value.end <= |s| && r.value.text == ""
  {
    if i + 1 < |s| && s[i] == '^' && IsSpace(s[i + 1]) && StartsAtFolded(s, i + 2, JumpUpOpen) then
      var m := FirstFrom(s, i + 2 + |JumpUpOpen|, ')');
      if m < |s| then Some(Hit(m + 1, "")) else None
    else None
  }

  /** `^`, one white-space character, the words in any case, and text
      without `)` up to the `)` at `m`. */
  predicate JumpUpLayout(s: string, i: nat, m: nat) {
    && i + 1 < |s| && s[i] == '^' && IsSpace(s[i + 1]) && StartsAtFolded(s, i + 2, JumpUpOpen)
    && i + 2 + |JumpUpOpen| <= m < |s| && s[m] == ')'
    && (forall x :: i + 2 + |JumpUpOpen| <= x < m ==> s[x] != ')')
  }

  /** The rule removes exactly the back-references of that layout. */
  lemma JumpUpExact(s: string, i: nat, m: nat)
    ensures JumpUpAt(s, i) == Some(Hit(m + 1, "")) <==> JumpUpLayout(s, i, m)
  {
    if JumpUpLayout(s, i, m) {
      FirstFromExact(s, i + 2 + |JumpUpOpen|, m, ')');
    }
  }

  /** 4. The global pattern `\[[^\]]*\]\(#cite_ref[^\)]+\)`: a citation link. */
  function CiteRefAt(s: string, i: nat): (r: Option<Hit>)
    ensures r.Some? ==> i < r.value.end <= |s| && r.value.text == ""
  {
    if i < |s| && s[i] == '[' then
      var k := FirstFrom(s, i + 1, ']');
      if StartsAt(s, k + 1, CiteRefTarget) then
        var j := k + 1 + |CiteRefTarget|;
        var m := FirstFrom(s, j, ')');
        if m > j && m < |s| then Some(Hit(m + 1, "")) else None
      else None
    else None
  }

  /** `[`, a text without `]` up to the `]` at `k`, `(#cite_ref`, and a
      non-empty reference without `)` up to the `)` at `m`. */
  predicate CiteRefLayout(s: string, i: nat, k: nat, m: nat) {
    && i < k < |s| && s[i] == '[' && s[k] == ']'
    && (forall x :: i < x < k ==> s[x] != ']') && StartsAt(s, k + 1, CiteRefTarget)
    && k + 1 + |CiteRefTarget| < m < |s| && s[m] == ')'
    && (forall x :: k + 1 + |CiteRefTarget| <= x < m ==> s[x] != ')')
  }

  /** Every citation link of that layout is removed up to its `)`. */
  lemma CiteRefComplete(s: string, i: nat, k: nat, m: nat)
    requires CiteRefLayout(s, i, k, m)
    ensures CiteRefAt(s, i) == Some(Hit(m + 1, ""))
  {
    FirstFromExact(s, i + 1, k, ']');
    FirstFromExact(s, k + 1 + |CiteRefTarget|, m, ')');
  }

  /** What the rule removes is a citation link of that layout. */
  lemma CiteRefSound(s: string, i: nat)
    requires CiteRefAt(s, i).Some?
    ensures CiteRefLayout(s, i, FirstFrom(s, i + 1, ']'), CiteRefAt(s, i).value.end - 1)
  {
  }

  /** 5. The global pattern `\[\!\[Edit this at Wikidata\].*`: the Wikidata
      edit link and the rest of its line. */
  function WikidataAt(s: string, i: nat): (r: Option<Hit>)
    ensures r.Some? ==> i < r.value.end <= |s| && r.value.text == ""
  {
    if StartsAt(s, i, WikidataOpen) then Some(Hit(LineEnd(s, i + |WikidataOpen|), "")) else None
  }

  /** The opening and then the line up to `e`, where a line terminator or
      the end of the text follows. */
  predicate RestOfLine(s: string, j: nat, e: nat) {
    && j <= e <= |s| && (e < |s| ==> IsLineTerminator(s[e]))
    && (forall x :: j <= x < e ==> !IsLineTerminator(s[x]))
  }

  /** The rule removes the opening together with exactly the rest of its
      line. */
  lemma WikidataExact(s: string, i: nat, e: nat)
    ensures WikidataAt(s, i) == Some(Hit(e, "")) <==> StartsAt(s, i, WikidataOpen) && RestOfLine(s, i + |WikidataOpen|, e)
  {
    if StartsAt(s, i, WikidataOpen) && RestOfLine(s, i + |WikidataOpen|, e) {
      LineEndExact(s, i + |WikidataOpen|, e);
    }
  }

  /** `ext` starts at `j` and ends by `q`. */
  predicate ExtensionAt(s: string, j: nat, q: nat, ext: string) {
    j + |ext| <= q && StartsAt(s, j, ext)
  }

  /** A `.` at `x` followed by `mp3`, `ogg`, `oga` or `flac`, all before `q`. */
  predicate AudioDotAt(s: string, x: nat, q: nat) {
    && x < q <= |s| && s[x] == '.'
    && (ExtensionAt(s, x + 1, q, "mp3") || ExtensionAt(s, x + 1, q, "ogg")
        || ExtensionAt(s, x + 1, q, "oga") || ExtensionAt(s, x + 1, q, "flac"))
  }

  /** `[^\)]*\.(mp3|ogg|oga|flac)[^\)]*` fills `s[lo..q]`, which holds no
      `)`: some dot in it starts an audio extension. */
  predicate HasAudioFile(s: string, lo: nat, q: nat) {
    exists x :: lo <= x < q && AudioDotAt(s, x, q)
  }

  /** The search for an audio extension in `s[x..q]`, from the left. */
  function FindAudioDot(s: string, x: nat, q: nat): (r: bool)
    requires x <= q <= |s|
    ensures r <==> exists y :: x <= y < q && AudioDotAt(s, y, q)
    decreases q - x
  {
    if x == q then false
    else AudioDotAt(s, x, q) || FindAudioDot(s, x + 1, q)
  }

  /** 6. The global pattern
      `\[\!\[Listen to this article\]\([^\)]*\)\]\([^\)]*\.(mp3|ogg|oga|flac)[^\)]*\)`:
      the player of a spoken article, linked to its audio file. */
  function ListenAt(s: string, i: nat): (r: Option<Hit>)
    ensures r.Some? ==> i < r.value.end <= |s| && r.value.text == ""
  {
    if StartsAt(s, i, ListenOpen) then
      var m := FirstFrom(s, i + |ListenOpen|, ')');
      if StartsAt(s, m, ")](") then
        var q := FirstFrom(s, m + 3, ')');
        if q < |s| && FindAudioDot(s, m + 3, q) then Some(Hit(q + 1, "")) else None
      else None
    else None
  }

  /** The opening, an image target without `)` up to the `)` at `m`, `](`,
      and a link target without `)` naming an audio file, up to the `)` at
      `q`. */
  predicate ListenLayout(s: string, i: nat, m: nat, q: nat) {
    && StartsAt(s, i, ListenOpen) && i + |ListenOpen| <= m && StartsAt(s, m, ")](")
    && (forall x :: i + |ListenOpen| <= x < m ==> s[x] != ')')
    && m + 3 <= q < |s| && s[q] == ')' && (forall x :: m + 3 <= x < q ==> s[x] != ')')
    && HasAudioFile(s, m + 3, q)
  }

  /** Every player of that layout is removed up to the link's `)`. */
  lemma ListenComplete(s: string, i: nat, m: nat, q: nat)
    requires ListenLayout(s, i, m, q)
    ensures ListenAt(s, i) == Some(Hit(q + 1, ""))
  {
    assert s[m..m + 3][0] == s[m];
    FirstFromExact(s, i + |ListenOpen|, m, ')');
    FirstFromExact(s, m + 3, q, ')');
  }

  /** What the rule removes is a player of that layout. */
  lemma ListenSound(s: string, i: nat)
    requires ListenAt(s, i).Some?
    ensures ListenLayout(s, i, FirstFrom(s, i + |ListenOpen|, ')'), ListenAt(s, i).value.end - 1)
  {
    var m := FirstFrom(s, i + |ListenOpen|, ')');
    assert s[m..m + 3][0] == s[m];
  }

  /** 7. The global pattern `\[This audio file\]\([^\)]*\).*`: the audio
      file's link and the rest of its line. */
  function AudioFileAt(s: string, i: nat): (r: Option<Hit>)
    ensures r.Some? ==> i < r.value.end <= |s| && r.value.text == ""
  {
    if StartsAt(s, i, AudioFileOpen) then
      var m := FirstFrom(s, i + |AudioFileOpen|, ')');
      if m < |s| then Some(Hit(LineEnd(s, m + 1), "")) else None
    else None
  }

  /** The rule removes the link up to its first `)` and the rest of that
      line. */
  lemma AudioFileExact(s: string, i: nat, m: nat, e: nat)
    requires StartsAt(s, i, AudioFileOpen) && i + |AudioFileOpen| <= m < |s| && s[m] == ')'
    requires forall x :: i + |AudioFileOpen| <= x < m ==> s[x] != ')'
    ensures AudioFileAt(s, i) == Some(Hit(e, "")) <==> RestOfLine(s, m + 1, e)
  {
    FirstFromExact(s, i + |AudioFileOpen|, m, ')');
    if RestOfLine(s, m + 1, e) {
      LineEndExact(s, m + 1, e);
    }
  }

  /** 8. The global pattern `\!\[Spoken Wikipedia icon\]\([^\)]*\)`: the
      spoken-article icon. */
  function SpokenIconAt(s: string, i: nat): (r: Option<Hit>)
    ensures r.Some? ==> i < r.value.end <= |s| && r.value.text == ""
  {
    if StartsAt(s, i, SpokenIconOpen) then
      var m := FirstFrom(s, i + |SpokenIconOpen|, ')');
      if m < |s| then Some(Hit(m + 1, "")) else None
    else None
  }

  /** The rule removes exactly the icons whose target ends at the `)` at
      `m`. */
  lemma SpokenIconExact(s: string, i: nat, m: nat)
    ensures SpokenIconAt(s, i) == Some(Hit(m + 1, "")) <==>
      && StartsAt(s, i, SpokenIconOpen) && i + |SpokenIconOpen| <= m < |s| && s[m] == ')'
      && (forall x :: i + |SpokenIconOpen| <= x < m ==> s[x] != ')')
  {
    if && StartsAt(s, i, SpokenIconOpen) && i + |SpokenIconOpen| <= m < |s| && s[m] == ')'
       && (forall x :: i + |SpokenIconOpen| <= x < m ==> s[x] != ')')
    {
      FirstFromExact(s, i + |SpokenIconOpen|, m, ')');
    }
  }

  /** 9. The global pattern `\[.*\]\(.*Play audio.*\).*`: a line holding a link whose
      target mentions "Play audio". The final `.*` always runs to the end of
      the line, so only whether the parts fit in the line matters; the
      leftmost choice of each part fits whenever any choice does. */
  function PlayAudioAt(s: string, i: nat): (r: Option<Hit>)
    ensures r.Some? ==> i < r.value.end <= |s| && r.value.text == ""
  {
    if i < |s| && s[i] == '[' then
      var l := LineEnd(s, i + 1);
      match IndexOf(s, "](", i + 1)
      case None => None
      case Some(a) =>
        if a + 2 > |s| then None
        else
          match IndexOf(s, PlayAudio, a + 2)
          case None => None
          case Some(b) =>
            if b + |PlayAudio| > |s| then None
            else
              var c := FirstFrom(s, b + |PlayAudio|, ')');
              if c < l then Some(Hit(l, "")) else None
    else None
  }

  /** `[` at `i`, then within its line `](` at `a`, "Play audio" at `b` and
      `)` at `c`, in that order. */
  predicate PlayAudioLayout(s: string, i: nat, a: nat, b: nat, c: nat) {
    && i < |s| && i < a && a + 2 <= b && b + |PlayAudio| <= c < LineEnd(s, i + 1)
    && s[i] == '[' && StartsAt(s, a, "](") && StartsAt(s, b, PlayAudio) && s[c] == ')'
  }

  /** The rule matches at `i` exactly when the line has that layout, and then
      removes the whole line from the `[` on. */
  lemma PlayAudioExact(s: string, i: nat)
    requires i < |s|
    ensures PlayAudioAt(s, i).Some? <==> exists a, b, c :: PlayAudioLayout(s, i, a, b, c)
    ensures PlayAudioAt(s, i).Some? ==> PlayAudioAt(s, i).value.end == LineEnd(s, i + 1)
  {
    if exists a, b, c :: PlayAudioLayout(s, i, a, b, c) {
      var a, b, c :| PlayAudioLayout(s, i, a, b, c);
      PlayAudioFirst(s, i, a, b, c);
    }
    if PlayAudioAt(s, i).Some? {
      var a := IndexOf(s, "](", i + 1).value;
      var b := IndexOf(s, PlayAudio, a + 2).value;
      var c := FirstFrom(s, b + |PlayAudio|, ')');
      assert PlayAudioLayout(s, i, a, b, c);
    }
  }

  /** Whenever some choice of the parts fits in the line, the leftmost one
      does, and the rule matches. */
  lemma PlayAudioFirst(s: string, i: nat, a: nat, b: nat, c: nat)
    requires PlayAudioLayout(s, i, a, b, c)
    ensures PlayAudioAt(s, i) == Some(Hit(LineEnd(s, i + 1), ""))
  {
    var a0 := IndexOf(s, "](", i + 1);
    assert a0.Some? && a0.value <= a;
    var b0 := IndexOf(s, PlayAudio, a0.value + 2);
    assert b0.Some? && b0.value <= b;
    var c0 := FirstFrom(s, b0.value + |PlayAudio|, ')');
    assert c0 <= c;
  }

  /** The removals in the order the filter lists them. */
  const Removals: seq<Matcher> :=
    [CiteNoteAt, EditLinkAt, JumpUpAt, CiteRefAt, WikidataAt, ListenAt, AudioFileAt, SpokenIconAt, PlayAudioAt]
}
