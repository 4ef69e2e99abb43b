/** `mediumFilter` of `src/filters/medium.js`: on Medium pages, small
    preview images are swapped for larger ones and linked images are
    unwrapped into an image followed by a plain link. */
module Medium {
  import opened Wrappers
  import opened Text
  import opened Rewrite
  import opened Rules

  /** `/(?:.*\.)?medium\.com/`: the optional prefix may match nothing, so a
      host matches iff it contains `medium.com`. */
  predicate MediumHost(host: string) {
    Contains(host, "medium.com")
  }

  /** The bare domain and every sub-domain of it match. */
  lemma MediumHostSubdomain(sub: string)
    ensures MediumHost(sub + "medium.com")
  {
    ContainsSuffix(sub, "medium.com");
  }

  /** A host shorter than the domain never matches. */
  lemma MediumHostLength(host: string)
    requires |host| < 10
    ensures !MediumHost(host)
  {
    ContainsNeedsLength(host, "medium.com");
  }

  /** The address both the 60-pixel and the 600-pixel images share. */
  const MiroPath: string := "https://miro.medium.com/max/"
  const MiroFind: string := "(" + MiroPath + "60/"
  const MiroRepl: string := "(" + MiroPath + "600/"

  /** The string pattern `(https://miro.medium.com/max/60/`, replaced by the
      600-pixel address. */
  function MiroAt(s: string, i: nat): Option<Hit> {
    LiteralAt(MiroFind, MiroRepl, s, i)
  }

  /** The shared address holds neither `(` nor `$`. */
  lemma MiroPathPlain()
    ensures forall x :: 0 <= x < |MiroPath| ==> MiroPath[x] != '(' && MiroPath[x] != '$'
  {}

  /** After the rewrite no 60-pixel address is left, so a second pass
      changes nothing. */
  lemma MiroIdempotent(s: string)
    ensures Absent(ReplaceAll(s, MiroAt), MiroFind)
    ensures ReplaceAll(ReplaceAll(s, MiroAt), MiroAt) == ReplaceAll(s, MiroAt)
  {
    MiroPathPlain();
    var n := |MiroPath|;
    assert MiroFind[1..] == MiroPath + "60/";
    assert MiroRepl[1..] == MiroPath + "600/";
    assert MiroRepl[..|MiroFind|] != MiroFind by {
      assert MiroRepl[n + 3] == '0' && MiroFind[n + 3] == '/';
    }
    assert '$' !in MiroRepl by {
      forall x | 0 <= x < |MiroRepl| ensures MiroRepl[x] != '$' {
        if 1 <= x <= n { assert MiroRepl[x] == MiroPath[x - 1]; }
      }
    }
    assert '(' !in MiroFind[1..] by {
      forall x | 0 <= x < |MiroFind[1..]| ensures MiroFind[1..][x] != '(' {
        if x < n { assert MiroFind[1..][x] == MiroPath[x]; }
      }
    }
    assert '(' !in MiroRepl[1..] by {
      forall x | 0 <= x < |MiroRepl[1..]| ensures MiroRepl[1..][x] != '(' {
        if x < n { assert MiroRepl[1..][x] == MiroPath[x]; }
      }
    }
    LiteralReplaceIdempotent(MiroFind, MiroRepl, MiroAt, s);
  }

  /** Where the groups of a linked image lie: the image's alt text is
      `s[altStart..altEnd]`, its source runs from `altEnd + 2` to `srcEnd`,
      the link's address without its query is `s[hrefStart..hrefEnd]`, and
      the match ends at `end`. */
  datatype LinkedImage = LinkedImage(altStart: nat, altEnd: nat, srcEnd: nat, hrefStart: nat, hrefEnd: nat, end: nat)

  /** A character of `[^\?\)]`. */
  predicate HrefChar(c: char) {
    c != '?' && c != ')'
  }

  /** The opening `\s*\[\s*!\[` at `i`: the position after its `![`. */
  function OpeningEnd(s: string, i: nat): (r: Option<nat>)
    requires i <= |s|
    ensures r.Some? ==> i + 3 <= r.value <= |s|
  {
    var a := RunEnd(s, i, IsSpace);
    if a < |s| && s[a] == '[' then
      var b := RunEnd(s, a + 1, IsSpace);
      if b + 1 < |s| && s[b] == '!' && s[b + 1] == '[' then Some(b + 2) else None
    else None
  }

  /** The image `([^\]]+)\]\(([^\)]+)\)` from `j`: the end of its alt text
      and the position of its closing `)`. */
  function ImageEnd(s: string, j: nat): (r: Option<(nat, nat)>)
    requires j <= |s|
    ensures r.Some? ==> j < r.value.0 && r.value.0 + 2 < r.value.1 < |s|
  {
    var c := FirstFrom(s, j, ']');
    if c > j && c + 1 < |s| && s[c + 1] == '(' then
      var d := FirstFrom(s, c + 2, ')');
      if d > c + 2 && d < |s| then Some((c, d)) else None
    else None
  }

  /** The link target `\s*\]\(([^\?\)]*)\?[^\)]*\)\s*` from `j`: the
      start of its address, the position of the `?` that ends the address,
      and the end of the white space after the link. */
  function TargetEnd(s: string, j: nat): (r: Option<(nat, nat, nat)>)
    requires j <= |s|
    ensures r.Some? ==> j + 2 <= r.value.0 <= r.value.1 < r.value.2 <= |s|
  {
    var e := RunEnd(s, j, IsSpace);
    if e + 1 < |s| && s[e] == ']' && s[e + 1] == '(' then
      var f := RunEnd(s, e + 2, HrefChar);
      if f < |s| && s[f] == '?' then
        var g := FirstFrom(s, f + 1, ')');
        if g < |s| then Some((e + 2, f, RunEnd(s, g + 1, IsSpace))) else None
      else None
    else None
  }

  /** The global pattern `\s*\[\s*!\[([^\]]+)\]\(([^\)]+)\)\s*\]\(([^\?\)]*)\?[^\)]*\)\s*`
      at `i`. Every part stops at the first character its class refuses,
      so the match is unique. */
  function LinkedImageParts(s: string, i: nat): (r: Option<LinkedImage>)
    requires i <= |s|
    ensures r.Some? ==> var p := r.value;
      i < p.altStart < p.altEnd && p.altEnd + 2 < p.srcEnd < p.hrefStart <= p.hrefEnd < p.end <= |s|
  {
    var oj := OpeningEnd(s, i);
    if oj.None? then None
    else
      var j := oj.value;
      var im := ImageEnd(s, j);
      if im.None? then None
      else
        var c := im.value.0;
        var d := im.value.1;
        var tg := TargetEnd(s, d + 1);
        if tg.None? then None
        else Some(LinkedImage(j, c, d, tg.value.0, tg.value.1, tg.value.2))
  }

  /** The groups lie inside `s`. */
  predicate Within(s: string, p: LinkedImage) {
    p.altStart <= p.altEnd && p.altEnd + 2 <= p.srcEnd <= |s| && p.hrefStart <= p.hrefEnd <= |s|
  }

  /** The replacement `"\n![$1]($2)\n[$1]($3)\n\n"`: the image on a line of
      its own, then a plain link with the image's alt text as its text. */
  function Unwrapped(s: string, p: LinkedImage): string
    requires Within(s, p)
  {
    var alt := s[p.altStart..p.altEnd];
    "\n!" + Link(alt, s[p.altEnd + 2..p.srcEnd]) + "\n" + Link(alt, s[p.hrefStart..p.hrefEnd]) + "\n\n"
  }

  /** The linked-image rule as a matcher. */
  function LinkedImageAt(s: string, i: nat): (r: Option<Hit>)
    ensures r.Some? ==> i < r.value.end <= |s|
  {
    if i > |s| then None
    else
      var r := LinkedImageParts(s, i);
      if r.None? then None else Some(Hit(r.value.end, Unwrapped(s, r.value)))
  }

  /** The groups of the rule at `i`, given where each of its parts ends. */
  lemma LinkedImagePartsAt(s: string, i: nat, j: nat, c: nat, d: nat, e: nat, f: nat, h: nat)
    requires i <= |s| && OpeningEnd(s, i) == Some(j) && ImageEnd(s, j) == Some((c, d))
    requires TargetEnd(s, d + 1) == Some((e, f, h))
    ensures LinkedImageParts(s, i) == Some(LinkedImage(j, c, d, e, f, h))
  {
    assert OpeningEnd(s, i).value == j;
    var im := ImageEnd(s, j);
    assert im.value.0 == c && im.value.1 == d;
    var tg := TargetEnd(s, d + 1);
    assert tg.value.0 == e && tg.value.1 == f && tg.value.2 == h;
  }

  /** The match of the rule at `i`, given where each of its parts ends. */
  lemma LinkedImageAtParts(s: string, i: nat, j: nat, c: nat, d: nat, e: nat, f: nat, h: nat)
    requires i <= |s| && OpeningEnd(s, i) == Some(j) && ImageEnd(s, j) == Some((c, d))
    requires TargetEnd(s, d + 1) == Some((e, f, h))
    ensures LinkedImageAt(s, i) == Some(Hit(h, Unwrapped(s, LinkedImage(j, c, d, e, f, h))))
  {
    LinkedImagePartsAt(s, i, j, c, d, e, f, h);
    var p := LinkedImageParts(s, i).value;
    assert p.altStart == j && p.altEnd == c && p.srcEnd == d;
    assert p.hrefStart == e && p.hrefEnd == f && p.end == h;
  }

  /** `s[i..j]` is white space, `[`, white space and `![`. */
  predicate OpeningLayout(s: string, i: nat, a: nat, j: nat) {
    && i <= a && a + 3 <= j <= |s|
    && (forall x :: i <= x < a ==> IsSpace(s[x])) && s[a] == '['
    && (forall x :: a < x < j - 2 ==> IsSpace(s[x])) && s[j - 2] == '!' && s[j - 1] == '['
  }

  /** From `j`: the alt text up to the `]` at `c`, `(`, and the source up to
      the `)` at `d`. */
  predicate ImageLayout(s: string, j: nat, c: nat, d: nat) {
    && j < c && c + 2 < d < |s|
    && (forall x :: j <= x < c ==> s[x] != ']') && s[c] == ']' && s[c + 1] == '('
    && (forall x :: c + 2 <= x < d ==> s[x] != ')') && s[d] == ')'
  }

  /** After the image's `)` at `d`: white space, `](` ending at `e`, the
      address up to the `?` at `f`, the query up to the `)` at `g`, and white
      space up to `h`. */
  predicate TargetLayout(s: string, d: nat, e: nat, f: nat, g: nat, h: nat) {
    && d + 3 <= e <= f < g < h <= |s|
    && (forall x :: d < x < e - 2 ==> IsSpace(s[x])) && s[e - 2] == ']' && s[e - 1] == '('
    && (forall x :: e <= x < f ==> HrefChar(s[x])) && s[f] == '?'
    && (forall x :: f < x < g ==> s[x] != ')') && s[g] == ')'
    && (forall x :: g < x < h ==> IsSpace(s[x])) && (h < |s| ==> !IsSpace(s[h]))
  }

  lemma OpeningComplete(s: string, i: nat, a: nat, j: nat)
    requires OpeningLayout(s, i, a, j)
    ensures OpeningEnd(s, i) == Some(j)
  {
    RunEndExact(s, i, a, IsSpace);
    RunEndExact(s, a + 1, j - 2, IsSpace);
  }

  lemma ImageComplete(s: string, j: nat, c: nat, d: nat)
    requires ImageLayout(s, j, c, d)
    ensures ImageEnd(s, j) == Some((c, d))
  {
    FirstFromExact(s, j, c, ']');
    FirstFromExact(s, c + 2, d, ')');
  }

  lemma TargetComplete(s: string, d: nat, e: nat, f: nat, g: nat, h: nat)
    requires TargetLayout(s, d, e, f, g, h)
    ensures TargetEnd(s, d + 1) == Some((e, f, h))
  {
    RunEndExact(s, d + 1, e - 2, IsSpace);
    RunEndExact(s, e, f, HrefChar);
    FirstFromExact(s, f + 1, g, ')');
    RunEndExact(s, g + 1, h, IsSpace);
    TargetEndAt(s, d + 1, e, f, g, h);
  }

  /** The target scan from `j`, given where each of its parts ends. */
  lemma TargetEndAt(s: string, j: nat, e: nat, f: nat, g: nat, h: nat)
    requires j <= |s| && RunEnd(s, j, IsSpace) + 2 == e && e <= |s| && s[e - 2] == ']' && s[e - 1] == '('
    requires RunEnd(s, e, HrefChar) == f && f < |s| && s[f] == '?'
    requires FirstFrom(s, f + 1, ')') == g && g < |s| && RunEnd(s, g + 1, IsSpace) == h
    ensures TargetEnd(s, j) == Some((e, f, h))
  {}

  /** Every linked image of the pattern's shape is matched, together with
      the white space around it, and unwrapped into the image and a link to
      the address with its query string dropped. */
  lemma LinkedImageComplete(s: string, i: nat, a: nat, j: nat, c: nat, d: nat, e: nat, f: nat, g: nat, h: nat)
    requires OpeningLayout(s, i, a, j) && ImageLayout(s, j, c, d) && TargetLayout(s, d, e, f, g, h)
    ensures LinkedImageAt(s, i) == Some(Hit(h, Unwrapped(s, LinkedImage(j, c, d, e, f, h))))
  {
    OpeningComplete(s, i, a, j);
    ImageComplete(s, j, c, d);
    TargetComplete(s, d, e, f, g, h);
    LinkedImageAtParts(s, i, j, c, d, e, f, h);
  }

  lemma OpeningSound(s: string, i: nat)
    requires i <= |s| && OpeningEnd(s, i).Some?
    ensures exists a: nat :: OpeningLayout(s, i, a, OpeningEnd(s, i).value)
  {
    var a := RunEnd(s, i, IsSpace);
    assert OpeningLayout(s, i, a, OpeningEnd(s, i).value);
  }

  lemma TargetSound(s: string, d: nat)
    requires d < |s| && TargetEnd(s, d + 1).Some?
    ensures var (e, f, h) := TargetEnd(s, d + 1).value; exists g: nat :: TargetLayout(s, d, e, f, g, h)
  {
    var (e, f, h) := TargetEnd(s, d + 1).value;
    var g := FirstFrom(s, f + 1, ')');
    assert TargetLayout(s, d, e, f, g, h);
  }

  lemma ImageSound(s: string, j: nat)
    requires j <= |s| && ImageEnd(s, j).Some?
    ensures ImageLayout(s, j, ImageEnd(s, j).value.0, ImageEnd(s, j).value.1)
  {
  }

  /** Conversely, whatever the rule matches has that shape: its groups lie
      where the layouts put them, so the address it keeps is the text
      between `](` and the query's `?`. */
  lemma LinkedImageSound(s: string, i: nat)
    requires i <= |s| && LinkedImageParts(s, i).Some?
    ensures var p := LinkedImageParts(s, i).value;
      && (exists a: nat :: OpeningLayout(s, i, a, p.altStart))
      && ImageLayout(s, p.altStart, p.altEnd, p.srcEnd)
      && (exists g: nat :: TargetLayout(s, p.srcEnd, p.hrefStart, p.hrefEnd, g, p.end))
  {
    var p := LinkedImageParts(s, i).value;
    var j := OpeningEnd(s, i).value;
    var im := ImageEnd(s, j).value;
    var tg := TargetEnd(s, im.1 + 1).value;
    assert p.altStart == j && p.altEnd == im.0 && p.srcEnd == im.1;
    assert p.hrefStart == tg.0 && p.hrefEnd == tg.1 && p.end == tg.2;
    OpeningSound(s, i);
    ImageSound(s, j);
    TargetSound(s, im.1);
  }

  /** The Medium filter: no removals, then the two rewrites in order. */
  const MediumFilter: FilterSet := FilterSet(MediumHost, None, Some([MiroAt, LinkedImageAt]))
}
