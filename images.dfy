/**
 * The image rendition pipeline of dist/lib/images.js: find the `<img>` tags of a
 * post's HTML, keep the remotely hosted ones, choose and name their renditions,
 * rewrite each kept tag into a `<picture>` block, and plan the per-rendition writes.
 */
module Images {
  import opened Base
  import opened JsStrings

  /** A rendition the caller asks for; `quality` may be absent. */
  datatype Rendition = Rendition(format: string, width: nat, quality: Option<nat>)

  /** A rendition resolved for one source image: the directory and file it is written to. */
  datatype Resolved = Resolved(format: string, width: nat, quality: Option<nat>,
                               outputDir: string, outputFile: string)

  /** A kept `<img>` tag: its exact text, its `src` and its resolved renditions. */
  datatype ImageMatch = ImageMatch(imageHtml: string, src: string, renditions: seq<Resolved>)

  /** The pseudo-format that mirrors the fetched bytes unchanged. */
  const Original: string := "original"

  /** How a template literal renders a string that may be `undefined`. */
  function Interp(v: Option<string>): (r: string)
    ensures v.Some? ==> r == v.value
    ensures v.None? ==> r == "undefined"
  {
    match v
    case Some(s) => s
    case None => "undefined"
  }

  // ---------------------------------------------------------------------------
  // Scanning: html.match(/<img[^>]+>/g)
  // ---------------------------------------------------------------------------

  /** A match of `<img[^>]+>` occupies `s[i..e]`. */
  predicate ImgMatchAt(s: string, i: nat, e: nat) {
    OccursAt(s, "<img", i) && i + 5 < e <= |s| && s[e - 1] == '>' && '>' !in s[i + 4..e - 1]
  }

  /** The text of a whole `<img …>` tag as the scanner returns it. */
  predicate IsImgTag(t: string) {
    ImgMatchAt(t, 0, |t|)
  }

  lemma ImgMatchEndUnique(s: string, i: nat, e1: nat, e2: nat)
    requires ImgMatchAt(s, i, e1) && ImgMatchAt(s, i, e2)
    ensures e1 == e2
  {
  }

  lemma ImgMatchSlice(s: string, i: nat, e: nat)
    requires ImgMatchAt(s, i, e)
    ensures IsImgTag(s[i..e])
  {
    var t := s[i..e];
    assert |t| == e - i;
    assert t[0..4] == s[i..i + 4];
    var body := t[4..|t| - 1];
    forall k | 0 <= k < |body| ensures body[k] == s[i + 4..e - 1][k] {
      assert body[k] == t[4 + k] == s[i + 4 + k];
    }
    assert body == s[i + 4..e - 1];
  }

  /** End of the `<img…>` match that starts at `i`, if one does. */
  function ImgTagEnd(s: string, i: nat): (r: Option<nat>)
    requires i <= |s|
    ensures r.Some? ==> ImgMatchAt(s, i, r.value)
    ensures r.None? ==> forall e: nat :: !ImgMatchAt(s, i, e)
  {
    if !OccursAt(s, "<img", i) then None
    else
      match IndexOfChar(s, '>', i + 4)
      case None =>
        NoImgMatchWithoutClose(s, i);
        None
      case Some(k) =>
        if k > i + 4 then
          assert s[i + 4..k + 1 - 1] == s[i + 4..k];
          Some(k + 1)
        else
          NoImgMatchWithEmptyBody(s, i);
          None
  }

  lemma NoImgMatchWithoutClose(s: string, i: nat)
    requires i + 4 <= |s| && '>' !in s[i + 4..]
    ensures forall e: nat :: !ImgMatchAt(s, i, e)
  {
    forall k: nat | i + 4 < k < |s| ensures s[k] != '>' {
      assert s[k] == s[i + 4..][k - (i + 4)];
    }
  }

  lemma NoImgMatchWithEmptyBody(s: string, i: nat)
    requires i + 4 < |s| && s[i + 4] == '>'
    ensures forall e: nat :: !ImgMatchAt(s, i, e)
  {
  }

  /** The tags the global match returns when the search starts at index `p`. */
  function ScanFrom(s: string, p: nat): (tags: seq<string>)
    requires p <= |s|
    ensures forall k :: 0 <= k < |tags| ==> IsImgTag(tags[k])
    decreases |s| - p
  {
    if p == |s| then []
    else
      match ImgTagEnd(s, p)
      case Some(e) =>
        ImgMatchSlice(s, p, e);
        [s[p..e]] + ScanFrom(s, e)
      case None => ScanFrom(s, p + 1)
  }

  /** `html.match(/<img[^>]+>/g) || []`. */
  function ScanImgTags(html: string): (tags: seq<string>)
    ensures forall k :: 0 <= k < |tags| ==> IsImgTag(tags[k])
  {
    ScanFrom(html, 0)
  }

  /**
   * Matching is leftmost and non-overlapping: the first tag found from `p` is the
   * match at the least index where one starts, and the rest are found after it.
   */
  lemma {:induction false} ScanLeftmost(s: string, p: nat)
    requires p <= |s| && ScanFrom(s, p) != []
    ensures exists i: nat, e: nat :: (p <= i && ImgMatchAt(s, i, e) && ScanFrom(s, p)[0] == s[i..e] &&
      ScanFrom(s, p)[1..] == ScanFrom(s, e) &&
      forall j: nat, e': nat :: p <= j < i ==> !ImgMatchAt(s, j, e'))
    decreases |s| - p
  {
    match ImgTagEnd(s, p)
    case Some(e) =>
      assert ScanFrom(s, p)[0] == s[p..e];
    case None =>
      ScanLeftmost(s, p + 1);
      var i: nat, e: nat :| p + 1 <= i && ImgMatchAt(s, i, e) && ScanFrom(s, p + 1)[0] == s[i..e] &&
        ScanFrom(s, p + 1)[1..] == ScanFrom(s, e) &&
        forall j: nat, e': nat :: p + 1 <= j < i ==> !ImgMatchAt(s, j, e');
      assert forall j: nat, e': nat :: p <= j < i ==> !ImgMatchAt(s, j, e');
  }

  /** The scan comes back empty exactly when no match starts at or after `p`. */
  lemma {:induction false} ScanFindsEveryMatch(s: string, p: nat)
    requires p <= |s|
    ensures ScanFrom(s, p) == [] <==> forall i: nat, e: nat :: p <= i ==> !ImgMatchAt(s, i, e)
    decreases |s| - p
  {
    if p < |s| {
      match ImgTagEnd(s, p)
      case Some(e) =>
        assert ImgMatchAt(s, p, e);
      case None =>
        ScanFindsEveryMatch(s, p + 1);
        assert forall e: nat :: !ImgMatchAt(s, p, e);
    }
  }

  /** HTML in which `<img` never occurs has no image tags. */
  lemma {:induction false} NoImgNoTags(s: string, p: nat)
    requires p <= |s| && !Contains(s, "<img")
    ensures ScanFrom(s, p) == []
    decreases |s| - p
  {
    if p < |s| {
      assert !OccursAt(s, "<img", p);
      NoImgNoTags(s, p + 1);
    }
  }

  // ---------------------------------------------------------------------------
  // The src attribute: imageHtml.match(/src="([^"]+)"/)?.[1] || ""
  // ---------------------------------------------------------------------------

  /** A match of `src="[^"]+"` occupies `t[i..e + 1]`; its value is `t[i + 5..e]`. */
  predicate SrcMatchAt(t: string, i: nat, e: nat) {
    OccursAt(t, "src=\"", i) && i + 5 < e < |t| && t[e] == '"' && '"' !in t[i + 5..e]
  }

  lemma SrcMatchEndUnique(t: string, i: nat, e1: nat, e2: nat)
    requires SrcMatchAt(t, i, e1) && SrcMatchAt(t, i, e2)
    ensures e1 == e2
  {
  }

  /** Closing quote of the `src="…"` match that starts at `i`, if one does. */
  function SrcEnd(t: string, i: nat): (r: Option<nat>)
    requires i <= |t|
    ensures r.Some? ==> SrcMatchAt(t, i, r.value)
    ensures r.None? ==> forall e: nat :: !SrcMatchAt(t, i, e)
  {
    if !OccursAt(t, "src=\"", i) then None
    else
      match IndexOfChar(t, '"', i + 5)
      case None =>
        NoSrcMatchWithoutClose(t, i);
        None
      case Some(k) =>
        if k > i + 5 then Some(k)
        else
          NoSrcMatchWithEmptyValue(t, i);
          None
  }

  lemma NoSrcMatchWithoutClose(t: string, i: nat)
    requires i + 5 <= |t| && '"' !in t[i + 5..]
    ensures forall e: nat :: !SrcMatchAt(t, i, e)
  {
    forall e: nat | i + 5 < e < |t| ensures t[e] != '"' {
      assert t[e] == t[i + 5..][e - (i + 5)];
    }
  }

  lemma NoSrcMatchWithEmptyValue(t: string, i: nat)
    requires i + 5 < |t| && t[i + 5] == '"'
    ensures forall e: nat :: !SrcMatchAt(t, i, e)
  {
  }

  /** The leftmost `src="…"` match at or after `from`, as `(start, closing quote)`. */
  function SrcMatchFrom(t: string, from: nat): (r: Option<(nat, nat)>)
    requires from <= |t|
    ensures r.Some? ==> from <= r.value.0 && SrcMatchAt(t, r.value.0, r.value.1)
    ensures r.Some? ==> forall j: nat, e: nat :: from <= j < r.value.0 ==> !SrcMatchAt(t, j, e)
    ensures r.None? ==> forall j: nat, e: nat :: from <= j ==> !SrcMatchAt(t, j, e)
    decreases |t| - from
  {
    match SrcEnd(t, from)
    case Some(e) => Some((from, e))
    case None =>
      if from == |t| then
        assert forall j: nat, e: nat :: from <= j ==> !SrcMatchAt(t, j, e);
        None
      else SrcMatchFrom(t, from + 1)
  }

  function SrcMatch(t: string): Option<(nat, nat)> {
    SrcMatchFrom(t, 0)
  }

  /** The `src` of a tag: the value of its first `src="…"`, or "" when it has none. */
  function ExtractSrc(t: string): (src: string)
    ensures src == "" <==> forall i: nat, e: nat :: !SrcMatchAt(t, i, e)
    ensures '"' !in src
  {
    match SrcMatch(t)
    case Some((i, e)) => t[i + 5..e]
    case None => ""
  }

  /** The filter of line 77: an `http://` or `https://` anywhere, and no `?`. */
  predicate Qualifies(src: string)
    ensures Qualifies(src) ==> |src| >= |"http://"| && '?' !in src
  {
    (Contains(src, "http://") || Contains(src, "https://")) && '?' !in src
  }

  /** The kept tags, in scan order. */
  function KeptTags(tags: seq<string>): (kept: seq<string>)
    ensures |kept| <= |tags|
    ensures forall t :: t in kept <==> t in tags && Qualifies(ExtractSrc(t))
    ensures (forall t :: t in tags ==> Qualifies(ExtractSrc(t))) ==> kept == tags
    ensures (forall t :: t in tags ==> !Qualifies(ExtractSrc(t))) <==> kept == []
  {
    if tags == [] then []
    else
      var rest := KeptTags(tags[1..]);
      assert forall t :: t in tags <==> t == tags[0] || t in tags[1..];
      if Qualifies(ExtractSrc(tags[0])) then [tags[0]] + rest else rest
  }

  /** The filter keeps order and multiplicity: it works tag by tag, left to right. */
  lemma {:induction false} KeptTagsAppend(a: seq<string>, b: seq<string>)
    ensures KeptTags(a + b) == KeptTags(a) + KeptTags(b)
  {
    if a == [] {
      assert a + b == b;
    } else {
      assert (a + b)[0] == a[0];
      assert (a + b)[1..] == a[1..] + b;
      KeptTagsAppend(a[1..], b);
    }
  }

  /** A single tag is kept exactly when its `src` qualifies. */
  lemma KeptTagsSingle(t: string)
    ensures KeptTags([t]) == if Qualifies(ExtractSrc(t)) then [t] else []
  {
    assert [t][1..] == [];
  }

  // ---------------------------------------------------------------------------
  // Rendition selection and file names (lines 79-96)
  // ---------------------------------------------------------------------------

  /** `src` ends in `.jpg` or `.jpeg`, in any case (`/\.jpe?g$/i`). */
  predicate IsJpegName(src: string)
    ensures IsJpegName(src) ==> |src| >= 4 && Lower(src[|src| - 1]) == 'g' && Lower(src[|src| - 2]) in {'p', 'e'}
  {
    var jpg := EndsWithIgnoringCase(src, ".jpg");
    var jpeg := EndsWithIgnoringCase(src, ".jpeg");
    assert jpg ==> Lower(src[|src| - 4 + 3]) == ".jpg"[3] && Lower(src[|src| - 4 + 2]) == ".jpg"[2];
    assert jpeg ==> Lower(src[|src| - 5 + 4]) == ".jpeg"[4] && Lower(src[|src| - 5 + 3]) == ".jpeg"[3];
    assert ".jpg"[3] == 'g' && ".jpg"[2] == 'p' && ".jpeg"[4] == 'g' && ".jpeg"[3] == 'e';
    jpg || jpeg
  }

  /** `String(src.split("/").pop())`: the text after the last `/`. */
  function LastSegment(src: string): (seg: string)
    ensures '/' !in seg
    ensures |seg| <= |src| && src[|src| - |seg|..] == seg
    ensures |seg| < |src| ==> src[|src| - |seg| - 1] == '/'
  {
    LastPieceIsSuffix(src, '/');
    LastPiece(src, '/')
  }

  /** The last segment is the name after the final `/`, whatever comes before it. */
  lemma LastSegmentAfterSlash(dir: string, name: string)
    requires '/' !in name
    ensures LastSegment(dir + "/" + name) == name
  {
    var s := dir + "/" + name;
    var seg := LastSegment(s);
    assert s[|s| - |name| - 1] == '/';
    forall k | |s| - |seg| <= k < |s| ensures s[k] != '/' {
      assert s[k] == seg[k - (|s| - |seg|)];
    }
    forall k | |s| - |name| <= k < |s| ensures s[k] != '/' {
      assert s[k] == name[k - (|s| - |name|)];
    }
    assert s[|s| - |name|..] == name;
  }

  predicate IsWordChar(c: char) {
    'a' <= c <= 'z' || 'A' <= c <= 'Z' || IsDigit(c) || c == '_'
  }

  predicate AllWord(s: string) {
    forall i :: 0 <= i < |s| ==> IsWordChar(s[i])
  }

  /** A match of `([^\/]+)\.\w+$` whose group is `s[i..e]` and whose dot is at `e`. */
  predicate StemMatchAt(s: string, i: nat, e: nat) {
    i < e && e + 1 < |s| && s[e] == '.' && '/' !in s[i..e] && AllWord(s[e + 1..])
  }

  /** The group of `src.match(/([^\/]+)\.\w+$/)`: the last segment without its extension. */
  function FileStem(src: string): (stem: Option<string>)
    ensures stem.Some? ==> stem.value != "" && '/' !in stem.value
  {
    var seg := LastSegment(src);
    match LastIndexOfChar(seg, '.')
    case None => None
    case Some(d) =>
      if 0 < d && d + 1 < |seg| && AllWord(seg[d + 1..]) then
        assert forall c :: c in seg[..d] ==> c in seg;
        Some(seg[..d])
      else None
  }

  /** Every match of the stem pattern lies in the last segment and ends at its last dot. */
  lemma StemMatchInLastSegment(s: string, i: nat, e: nat)
    requires StemMatchAt(s, i, e)
    ensures |s| - |LastSegment(s)| <= i
    ensures FileStem(s) == Some(s[|s| - |LastSegment(s)|..e])
  {
    var seg := LastSegment(s);
    var k0 := |s| - |seg|;
    NoSlashAfterStemStart(s, i, e);
    assert k0 <= i;
    var d := e - k0;
    assert seg[d] == '.';
    assert seg[d + 1..] == s[e + 1..];
    WordHasNoDot(s[e + 1..]);
    LastIndexOfCharAt(seg, '.', d);
    assert seg[..d] == s[k0..e];
  }

  lemma WordHasNoDot(w: string)
    requires AllWord(w)
    ensures '.' !in w
  {
  }

  /** From the start of a stem match on, the string holds no `/`. */
  lemma NoSlashAfterStemStart(s: string, i: nat, e: nat)
    requires StemMatchAt(s, i, e)
    ensures forall p :: i <= p < |s| ==> s[p] != '/'
  {
    forall p | i <= p < |s| ensures s[p] != '/' {
      if p < e {
        assert s[p] == s[i..e][p - i];
      } else if p > e {
        assert IsWordChar(s[e + 1..][p - e - 1]);
      }
    }
  }

  /**
   * FileStem is what the regular expression captures: no match when it is None;
   * otherwise a match whose group is the stem, with every match starting no earlier
   * and ending at the same dot (the leftmost, greedy one).
   */
  lemma FileStemIsRegexMatch(s: string)
    ensures FileStem(s).None? ==> forall i: nat, e: nat :: !StemMatchAt(s, i, e)
    ensures FileStem(s).Some? ==> exists i: nat, e: nat :: (StemMatchAt(s, i, e) && FileStem(s).value == s[i..e] &&
      forall j: nat, e': nat :: StemMatchAt(s, j, e') ==> i <= j && e' == e)
  {
    forall i, e | StemMatchAt(s, i, e) ensures FileStem(s).Some? {
      StemMatchInLastSegment(s, i, e);
    }
    if FileStem(s).Some? {
      var k0 := |s| - |LastSegment(s)|;
      var e := FileStemMatch(s);
      forall j: nat, e': nat | StemMatchAt(s, j, e') ensures k0 <= j && e' == e {
        StemMatchInLastSegment(s, j, e');
      }
    }
  }

  /** A file stem is the group of a match starting where the last segment does. */
  lemma FileStemMatch(s: string) returns (e: nat)
    requires FileStem(s).Some?
    ensures StemMatchAt(s, |s| - |LastSegment(s)|, e)
    ensures FileStem(s).value == s[|s| - |LastSegment(s)|..e]
  {
    var seg := LastSegment(s);
    var k0 := |s| - |seg|;
    var d := LastIndexOfChar(seg, '.').value;
    e := k0 + d;
    assert seg == s[k0..];
    assert s[k0..e] == seg[..d];
    assert s[e + 1..] == seg[d + 1..];
    assert s[e] == seg[d];
  }

  /** The file name of a rendition of `src`: a pure function of (src, format, width). */
  function OutputFile(src: string, format: string, width: nat): (name: string)
    ensures format == Original ==> name == LastSegment(src) && '/' !in name
    ensures format != Original ==>
      |format| < |name| && name[|name| - |format|..] == format && name[|name| - |format| - 1] == '.'
  {
    if format == Original then LastSegment(src)
    else
      var numbered := Interp(FileStem(src)) + "@" + NatToString(width);
      EndsWithExtension(numbered, format);
      numbered + "." + format
  }

  lemma EndsWithExtension(name: string, ext: string)
    ensures var n := name + "." + ext; n[|n| - |ext|..] == ext && n[|n| - |ext| - 1] == '.'
  {
  }

  /** Distinct (format, width) pairs give distinct file names for one source. */
  lemma OutputFileInjective(src: string, f1: string, w1: nat, f2: string, w2: nat)
    requires f1 != Original && f2 != Original
    requires OutputFile(src, f1, w1) == OutputFile(src, f2, w2)
    ensures f1 == f2 && w1 == w2
  {
    var stem := Interp(FileStem(src));
    assert OutputFile(src, f1, w1) == stem + "@" + NatToString(w1) + "." + f1;
    assert OutputFile(src, f2, w2) == stem + "@" + NatToString(w2) + "." + f2;
    NumberedNameInjective(stem, NatToString(w1), f1, NatToString(w2), f2);
    NatToStringInjective(w1, w2);
  }

  /** `stem@digits.format` determines its digits and its format. */
  lemma NumberedNameInjective(stem: string, d1: string, f1: string, d2: string, f2: string)
    requires AllDigits(d1) && AllDigits(d2)
    requires stem + "@" + d1 + "." + f1 == stem + "@" + d2 + "." + f2
    ensures d1 == d2 && f1 == f2
  {
    var p := stem + "@";
    var t1, t2 := d1 + "." + f1, d2 + "." + f2;
    assert stem + "@" + d1 + "." + f1 == p + t1;
    assert stem + "@" + d2 + "." + f2 == p + t2;
    assert t1 == (p + t1)[|p|..];
    assert t2 == (p + t2)[|p|..];
    FirstDotAfterDigits(d1, f1);
    FirstDotAfterDigits(d2, f2);
    assert d1 == t1[..|d1|] && d2 == t2[..|d2|];
    assert f1 == t1[|d1| + 1..] && f2 == t2[|d2| + 1..];
  }

  lemma FirstDotAfterDigits(d: string, f: string)
    requires AllDigits(d)
    ensures IndexOfChar(d + "." + f, '.', 0) == Some(|d|)
  {
    var t := d + "." + f;
    assert t[0..|d|] == d;
    IndexOfCharAt(t, '.', 0, |d|);
  }

  function Resolve(src: string, r: Rendition, imageDir: string): Resolved {
    Resolved(r.format, r.width, r.quality, imageDir, OutputFile(src, r.format, r.width))
  }

  /**
   * Lines 81-96: a JPEG source takes the caller's renditions in order; any other
   * source takes the single passthrough rendition named after its last segment.
   */
  function SelectRenditions(src: string, renditions: seq<Rendition>, imageDir: string): (rs: seq<Resolved>)
    ensures !IsJpegName(src) ==> rs == [Resolved(Original, 0, Some(0), imageDir, LastSegment(src))]
    ensures IsJpegName(src) ==> (|rs| == |renditions| &&
      forall k :: 0 <= k < |rs| ==>
        rs[k].format == renditions[k].format && rs[k].width == renditions[k].width &&
        rs[k].quality == renditions[k].quality)
    ensures forall k :: 0 <= k < |rs| ==>
      rs[k].outputDir == imageDir && rs[k].outputFile == OutputFile(src, rs[k].format, rs[k].width)
  {
    var chosen := if IsJpegName(src) then renditions else [Rendition(Original, 0, Some(0))];
    seq(|chosen|, k requires 0 <= k < |chosen| => Resolve(src, chosen[k], imageDir))
  }

  /** Lines 72-113 without the downloads: the kept tags with their renditions. */
  function FindMatches(html: string, renditions: seq<Rendition>, imageDir: string): (ms: seq<ImageMatch>)
    ensures forall k :: 0 <= k < |ms| ==> ms[k].imageHtml in ScanImgTags(html)
    ensures forall k :: 0 <= k < |ms| ==> ms[k].src == ExtractSrc(ms[k].imageHtml) && Qualifies(ms[k].src)
    ensures forall k :: 0 <= k < |ms| ==> ms[k].renditions == SelectRenditions(ms[k].src, renditions, imageDir)
    ensures TagsOf(ms) == KeptTags(ScanImgTags(html))
  {
    var ms := MatchAll(KeptTags(ScanImgTags(html)), renditions, imageDir);
    MatchesOfKept(ScanImgTags(html), ms);
    ms
  }

  lemma MatchesOfKept(tags: seq<string>, ms: seq<ImageMatch>)
    requires TagsOf(ms) == KeptTags(tags)
    ensures forall k :: 0 <= k < |ms| ==> ms[k].imageHtml in tags && Qualifies(ExtractSrc(ms[k].imageHtml))
  {
    forall k | 0 <= k < |ms| ensures ms[k].imageHtml in tags && Qualifies(ExtractSrc(ms[k].imageHtml)) {
      assert ms[k].imageHtml == KeptTags(tags)[k];
    }
  }

  /** A match per tag, in order, each with the tag's `src` and its renditions. */
  function MatchAll(kept: seq<string>, renditions: seq<Rendition>, imageDir: string): (ms: seq<ImageMatch>)
    ensures TagsOf(ms) == kept
    ensures forall k :: 0 <= k < |ms| ==>
      ms[k].src == ExtractSrc(ms[k].imageHtml) && ms[k].renditions == SelectRenditions(ms[k].src, renditions, imageDir)
  {
    var ms := seq(|kept|, k requires 0 <= k < |kept| =>
      ImageMatch(kept[k], ExtractSrc(kept[k]), SelectRenditions(ExtractSrc(kept[k]), renditions, imageDir)));
    assert TagsOf(ms) == kept;
    ms
  }

  /** The tags of `html` that the pipeline rewrites. */
  function TagsOf(ms: seq<ImageMatch>): seq<string> {
    seq(|ms|, k requires 0 <= k < |ms| => ms[k].imageHtml)
  }

  /** A tag is rewritten exactly when it was scanned and its `src` qualifies. */
  lemma RewrittenTagsAreQualifying(html: string, renditions: seq<Rendition>, imageDir: string, t: string)
    ensures t in TagsOf(FindMatches(html, renditions, imageDir)) <==>
      t in ScanImgTags(html) && Qualifies(ExtractSrc(t))
  {
  }

  // ---------------------------------------------------------------------------
  // The <picture> block (lines 117-136)
  // ---------------------------------------------------------------------------

  /** `rendition.width || 9999`. */
  function SrcsetWidth(width: nat): (w: nat)
    ensures w > 0 && (width > 0 ==> w == width)
    ensures width == 0 ==> w == 9999
  {
    if width == 0 then 9999 else width
  }

  /** The `type` attribute: absent for the passthrough format. */
  function TypeAttr(format: string): (a: string)
    ensures a == "" <==> format == Original
  {
    if format == Original then "" else "type=\"image/" + format + "\""
  }

  function SourceTag(pub: string, r: Resolved): (tag: string)
    ensures var head := "<source srcset=\"" + pub + r.outputFile + " ";
      var tail := TypeAttr(r.format) + ">";
      |head| + |tail| <= |tag| && tag[..|head|] == head && tag[|tag| - |tail|..] == tail
  {
    var head := "<source srcset=\"" + pub + r.outputFile + " ";
    FramedBy(head, NatToString(SrcsetWidth(r.width)), "w\" ", TypeAttr(r.format), ">");
    head + NatToString(SrcsetWidth(r.width)) + "w\" " + TypeAttr(r.format) + ">"
  }

  function SourceTags(pub: string, rs: seq<Resolved>): (tags: seq<string>)
    ensures |tags| == |rs|
    ensures forall k :: 0 <= k < |rs| ==> tags[k] == SourceTag(pub, rs[k])
  {
    seq(|rs|, k requires 0 <= k < |rs| => SourceTag(pub, rs[k]))
  }

  /** `imgRendition?.outputFile`: the last rendition's file, "undefined" when there is none. */
  function FallbackFile(rs: seq<Resolved>): (f: string)
    ensures rs != [] ==> f == rs[|rs| - 1].outputFile
    ensures rs == [] ==> f == Interp(None)
  {
    if rs == [] then "undefined" else rs[|rs| - 1].outputFile
  }

  /** `imageHtml.replace(/src="[^"]+"/, r)`: only the first `src="…"` is replaced. */
  function ReplaceSrc(t: string, r: string): (n: string)
    ensures SrcMatch(t).None? ==> n == t
    ensures SrcMatch(t).Some? ==>
      var (i, e) := SrcMatch(t).value;
      i + |t| - e - 1 <= |n| && n[..i] == t[..i] && n[|n| - (|t| - e - 1)..] == t[e + 1..]
  {
    match SrcMatch(t)
    case None => t
    case Some((i, e)) =>
      var n := t[..i] + Substitute(r, t[i..e + 1], t[..i], t[e + 1..]) + t[e + 1..];
      KeepsEnds(t[..i], Substitute(r, t[i..e + 1], t[..i], t[e + 1..]), t[e + 1..]);
      n
  }

  lemma ReplaceSrcLiteral(t: string, r: string)
    requires SrcMatch(t).Some? && '$' !in r
    ensures ReplaceSrc(t, r) == t[..SrcMatch(t).value.0] + r + t[SrcMatch(t).value.1 + 1..]
  {
    var (i, e) := SrcMatch(t).value;
    SubstituteLiteral(r, t[i..e + 1], t[..i], t[e + 1..]);
  }

  /** The fallback `<img>`; a tag without a `src="…"` stays as it is. */
  function FallbackImg(imageHtml: string, pub: string, rs: seq<Resolved>): (img: string)
    ensures SrcMatch(imageHtml).None? ==> img == imageHtml
  {
    ReplaceSrc(imageHtml, "src=\"" + pub + FallbackFile(rs) + "\"")
  }

  lemma PictureLiterals()
    ensures "<picture>" + "\n" == "<picture>\n" && "\n" + "</picture>" == "\n</picture>"
  {
  }

  function PictureBlock(imageHtml: string, pub: string, rs: seq<Resolved>): (block: string)
    ensures |block| >= 21 && block[..10] == "<picture>\n" && block[|block| - 11..] == "\n</picture>"
  {
    FramedBySeven("<picture>", "\n", Join(SourceTags(pub, rs), '\n'), "\n", FallbackImg(imageHtml, pub, rs), "\n", "</picture>");
    PictureLiterals();
    "<picture>" + "\n" + Join(SourceTags(pub, rs), '\n') + "\n" + FallbackImg(imageHtml, pub, rs) + "\n" + "</picture>"
  }

  /**
   * The fallback `<img>` points at the last rendition: its `src`, read back the way
   * the scanner reads one, is the public path of that rendition's file.
   */
  lemma FallbackSrcIsLastRendition(t: string, pub: string, rs: seq<Resolved>)
    requires SrcMatch(t).Some?
    requires pub + FallbackFile(rs) != "" && '"' !in pub + FallbackFile(rs) && '$' !in pub + FallbackFile(rs)
    ensures ExtractSrc(FallbackImg(t, pub, rs)) == pub + FallbackFile(rs)
  {
    var v := pub + FallbackFile(rs);
    QuotedConcat(pub, FallbackFile(rs));
    SrcAfterReplace(t, v);
  }

  lemma QuotedConcat(a: string, b: string)
    ensures "src=\"" + a + b + "\"" == "src=\"" + (a + b) + "\""
  {
  }

  /** After `replace(/src="[^"]+"/, 'src="v"')` the tag's `src` reads back as `v`. */
  lemma SrcAfterReplace(t: string, v: string)
    requires SrcMatch(t).Some?
    requires v != "" && '"' !in v && '$' !in v
    ensures ExtractSrc(ReplaceSrc(t, "src=\"" + v + "\"")) == v
  {
    var r := "src=\"" + v + "\"";
    var (i, e) := SrcMatch(t).value;
    ReplaceSrcLiteral(t, r);
    var n := ReplaceSrc(t, r);
    assert n == t[..i] + r + t[e + 1..];
    SrcRewriteKeepsLeftmost(t, i, e, v);
    QuotedValueAt(t[..i], v, t[e + 1..]);
  }

  /** In `a + 'src="v"' + b` the value sits right after the opening quote. */
  lemma QuotedValueAt(a: string, v: string, b: string)
    ensures var n := a + ("src=\"" + v + "\"") + b;
      |a| + 5 + |v| < |n| && n[|a| + 5..|a| + 5 + |v|] == v
  {
    var n := a + ("src=\"" + v + "\"") + b;
    assert n[|a|..] == "src=\"" + v + "\"" + b;
    assert n[|a| + 5..|a| + 5 + |v|] == n[|a|..][5..5 + |v|];
  }

  /** Putting `src="v"` in place of the leftmost `src="…"` leaves it the leftmost one. */
  lemma SrcRewriteKeepsLeftmost(t: string, i: nat, e: nat, v: string)
    requires SrcMatch(t) == Some((i, e))
    requires v != "" && '"' !in v
    ensures SrcMatch(t[..i] + ("src=\"" + v + "\"") + t[e + 1..]) == Some((i, i + 5 + |v|))
  {
    var r := "src=\"" + v + "\"";
    var n := t[..i] + r + t[e + 1..];
    var e2 := i + 5 + |v|;
    FramedSrc(t[..i], v, t[e + 1..]);
    assert SrcMatchAt(n, i, e2);
    assert t[i..i + 5] == "src=\"";
    SamePrefix(n, t, i, i + 5);
    forall j: nat, e': nat | j < i ensures !SrcMatchAt(n, j, e') {
      NoEarlierSrcMatch(t, n, i, j, e');
    }
    LeftmostSrcMatch(n, i, e2);
  }

  /** A match with none before it is the one `SrcMatch` finds. */
  lemma LeftmostSrcMatch(t: string, i: nat, e: nat)
    requires SrcMatchAt(t, i, e)
    requires forall j: nat, e': nat :: j < i ==> !SrcMatchAt(t, j, e')
    ensures SrcMatch(t) == Some((i, e))
  {
    var m := SrcMatch(t);
    assert m.Some?;
    SrcMatchEndUnique(t, i, m.value.1, e);
  }

  /** The pieces of `a + 'src="v"' + b`. */
  lemma FramedSrc(a: string, v: string, b: string)
    ensures var n := a + ("src=\"" + v + "\"") + b; var e := |a| + 5 + |v|;
      e < |n| && n[..|a|] == a && n[|a|..|a| + 5] == "src=\"" && n[|a| + 5..e] == v && n[e] == '"'
  {
    var n := a + ("src=\"" + v + "\"") + b;
    var m := "src=\"" + v + "\"" + b;
    assert n[|a|..] == m;
    assert n[|a|..|a| + 5] == m[..5];
    assert n[|a| + 5..|a| + 5 + |v|] == m[5..5 + |v|];
  }

  /** Two strings that agree below `i` and on `[i, m)` agree below `m`. */
  lemma SamePrefix(n: string, t: string, i: nat, m: nat)
    requires i <= m <= |n| && m <= |t| && n[..i] == t[..i] && n[i..m] == t[i..m]
    ensures n[..m] == t[..m]
  {
    assert n[..m] == n[..i] + n[i..m];
    assert t[..m] == t[..i] + t[i..m];
  }

  /** A match before `i` in `n` would be one in `t`, since both agree up to the `"` at `i + 4`. */
  lemma NoEarlierSrcMatch(t: string, n: string, i: nat, j: nat, e: nat)
    requires SrcMatch(t).Some? && SrcMatch(t).value.0 == i
    requires i + 5 <= |t| && i + 5 <= |n| && n[..i + 5] == t[..i + 5] && t[i + 4] == '"'
    requires j < i
    ensures !SrcMatchAt(n, j, e)
  {
    assert n[i + 4] == n[..i + 5][i + 4];
    InSlice(n, j + 5, e, i + 4);
    SrcMatchAgreesBelow(n, t, i + 5, j, e);
  }

  lemma InSlice(s: string, a: nat, b: nat, q: nat)
    ensures a <= q < b <= |s| ==> s[q] in s[a..b]
  {
    if a <= q < b <= |s| {
      assert s[a..b][q - a] == s[q];
    }
  }

  /** Matches that end before `m` are the same in two strings that agree below `m`. */
  lemma SrcMatchAgreesBelow(n: string, t: string, m: nat, j: nat, e: nat)
    requires m <= |n| && m <= |t| && n[..m] == t[..m]
    ensures e < m ==> (SrcMatchAt(n, j, e) <==> SrcMatchAt(t, j, e))
  {
    if e < m && j + 5 <= e {
      assert n[j..j + 5] == n[..m][j..j + 5] == t[..m][j..j + 5] == t[j..j + 5];
      assert n[j + 5..e] == n[..m][j + 5..e] == t[..m][j + 5..e] == t[j + 5..e];
      assert n[e] == n[..m][e] == t[..m][e] == t[e];
    }
  }

  /** No source line and no fallback `<img>` holds a line break when the inputs hold none. */
  lemma BlockPartsHaveNoNewline(imageHtml: string, pub: string, rs: seq<Resolved>)
    requires '\n' !in imageHtml && '\n' !in pub
    requires forall k :: 0 <= k < |rs| ==> '\n' !in rs[k].outputFile && '\n' !in rs[k].format
    ensures forall k :: 0 <= k < |rs| ==> '\n' !in SourceTags(pub, rs)[k]
    ensures '\n' !in FallbackImg(imageHtml, pub, rs)
  {
    forall k | 0 <= k < |rs| ensures '\n' !in SourceTags(pub, rs)[k] {
      SourceTagHasNoNewline(pub, rs[k]);
    }
    FallbackHasNoNewline(imageHtml, pub, rs);
  }

  lemma SourceTagHasNoNewline(pub: string, r: Resolved)
    requires '\n' !in pub && '\n' !in r.outputFile && '\n' !in r.format
    ensures '\n' !in SourceTag(pub, r)
  {
    assert '\n' !in NatToString(SrcsetWidth(r.width));
  }

  lemma FallbackHasNoNewline(imageHtml: string, pub: string, rs: seq<Resolved>)
    requires '\n' !in imageHtml && '\n' !in pub
    requires forall k :: 0 <= k < |rs| ==> '\n' !in rs[k].outputFile
    ensures '\n' !in FallbackImg(imageHtml, pub, rs)
  {
    assert '\n' !in FallbackFile(rs);
    ReplaceSrcAvoids(imageHtml, "src=\"" + pub + FallbackFile(rs) + "\"", '\n');
  }

  /** A character in neither the tag nor the replacement is not in the result. */
  lemma ReplaceSrcAvoids(t: string, r: string, c: char)
    requires c !in t && c !in r
    ensures c !in ReplaceSrc(t, r)
  {
    match SrcMatch(t)
    case None =>
    case Some((i, e)) =>
      assert t == t[..i] + t[i..e + 1] + t[e + 1..];
      SubstituteAvoids(r, t[i..e + 1], t[..i], t[e + 1..], c);
  }

  /** The lines of a block: opening tag, the sources (an empty line when none), fallback, closing tag. */
  function BlockLines(imageHtml: string, pub: string, rs: seq<Resolved>): seq<string> {
    ["<picture>"] + (if rs == [] then [""] else SourceTags(pub, rs)) +
    [FallbackImg(imageHtml, pub, rs), "</picture>"]
  }

  lemma BlockIsJoinOfLines(imageHtml: string, pub: string, rs: seq<Resolved>)
    ensures PictureBlock(imageHtml, pub, rs) == Join(BlockLines(imageHtml, pub, rs), '\n')
  {
    var sources := SourceTags(pub, rs);
    var middle := if rs == [] then [""] else sources;
    assert Join(middle, '\n') == Join(sources, '\n');
    JoinOfFramedLines(middle, FallbackImg(imageHtml, pub, rs));
  }

  lemma JoinOfFramedLines(middle: seq<string>, f: string)
    requires middle != []
    ensures Join(["<picture>"] + middle + [f, "</picture>"], '\n') ==
      "<picture>" + "\n" + Join(middle, '\n') + "\n" + f + "\n" + "</picture>"
  {
    JoinAppend(["<picture>"], middle, '\n');
    JoinAppend(["<picture>"] + middle, [f, "</picture>"], '\n');
    var j := Join(middle, '\n');
    assert Join([f, "</picture>"], '\n') == f + "\n" + "</picture>";
    assert ("<picture>" + "\n" + j) + "\n" + (f + "\n" + "</picture>") ==
      "<picture>" + "\n" + j + "\n" + f + "\n" + "</picture>";
  }

  lemma BlockLinesHaveNoNewline(imageHtml: string, pub: string, rs: seq<Resolved>)
    requires '\n' !in imageHtml && '\n' !in pub
    requires forall k :: 0 <= k < |rs| ==> '\n' !in rs[k].outputFile && '\n' !in rs[k].format
    ensures forall k :: 0 <= k < |BlockLines(imageHtml, pub, rs)| ==> '\n' !in BlockLines(imageHtml, pub, rs)[k]
  {
    BlockPartsHaveNoNewline(imageHtml, pub, rs);
    FramedLinesHaveNoNewline(if rs == [] then [""] else SourceTags(pub, rs), FallbackImg(imageHtml, pub, rs));
  }

  lemma FramedLinesHaveNoNewline(middle: seq<string>, f: string)
    requires forall k :: 0 <= k < |middle| ==> '\n' !in middle[k]
    requires '\n' !in f
    ensures var lines := ["<picture>"] + middle + [f, "</picture>"];
      forall k :: 0 <= k < |lines| ==> '\n' !in lines[k]
  {
    var lines := ["<picture>"] + middle + [f, "</picture>"];
    forall k | 1 <= k <= |middle| ensures lines[k] == middle[k - 1] {
    }
  }

  /**
   * Read line by line, a `<picture>` block is its opening tag, one `<source>` per
   * rendition in rendition order (an empty line when there is none), the fallback
   * `<img>` and the closing tag.
   */
  lemma PictureBlockLines(imageHtml: string, pub: string, rs: seq<Resolved>)
    requires '\n' !in imageHtml && '\n' !in pub
    requires forall k :: 0 <= k < |rs| ==> '\n' !in rs[k].outputFile && '\n' !in rs[k].format
    ensures Split(PictureBlock(imageHtml, pub, rs), '\n') ==
      ["<picture>"] + (if rs == [] then [""] else SourceTags(pub, rs)) +
      [FallbackImg(imageHtml, pub, rs), "</picture>"]
  {
    BlockLinesHaveNoNewline(imageHtml, pub, rs);
    BlockIsJoinOfLines(imageHtml, pub, rs);
    SplitJoin(BlockLines(imageHtml, pub, rs), '\n');
  }

  // ---------------------------------------------------------------------------
  // Rewriting (lines 115-138)
  // ---------------------------------------------------------------------------

  /** One iteration: the first occurrence of the tag's exact text becomes its block. */
  function RewriteStep(html: string, m: ImageMatch, pub: string): (next: string)
    ensures Find(html, m.imageHtml, 0).None? ==> next == html
    ensures var f := Find(html, m.imageHtml, 0); f.Some? ==> f.value <= |next| && next[..f.value] == html[..f.value]
  {
    ReplaceFirst(html, m.imageHtml, PictureBlock(m.imageHtml, pub, m.renditions))
  }

  /** The HTML after the first |ms| iterations. */
  function Rewritten(html: string, ms: seq<ImageMatch>, pub: string): string
    decreases |ms|
  {
    if ms == [] then html else RewriteStep(Rewritten(html, ms[..|ms| - 1], pub), ms[|ms| - 1], pub)
  }

  lemma DropLastOfAppend<T>(a: seq<T>, b: seq<T>)
    requires b != []
    ensures (a + b)[..|a + b| - 1] == a + b[..|b| - 1] && (a + b)[|a + b| - 1] == b[|b| - 1]
  {
  }

  /** The iterations compose: rewriting with `a + b` is rewriting with `a`, then with `b`. */
  lemma {:induction false} RewrittenAppend(html: string, a: seq<ImageMatch>, b: seq<ImageMatch>, pub: string)
    ensures Rewritten(html, a + b, pub) == Rewritten(Rewritten(html, a, pub), b, pub)
    decreases |b|
  {
    if b == [] {
      assert a + b == a;
    } else {
      var ab, front, last := a + b, b[..|b| - 1], b[|b| - 1];
      DropLastOfAppend(a, b);
      calc {
        Rewritten(html, ab, pub);
        RewriteStep(Rewritten(html, a + front, pub), last, pub);
        { RewrittenAppend(html, a, front, pub); }
        RewriteStep(Rewritten(Rewritten(html, a, pub), front, pub), last, pub);
        Rewritten(Rewritten(html, a, pub), b, pub);
      }
    }
  }

  /**
   * A step changes only the first occurrence of the tag: the text before it and
   * the text after it stay, and (for `$`-free blocks) the block goes in verbatim.
   * A tag that no longer occurs leaves the text unchanged.
   */
  lemma RewriteStepOnlyReplacesFirst(html: string, m: ImageMatch, pub: string)
    requires '$' !in PictureBlock(m.imageHtml, pub, m.renditions)
    ensures Find(html, m.imageHtml, 0).None? ==> RewriteStep(html, m, pub) == html
    ensures Find(html, m.imageHtml, 0).Some? ==>
      var i := Find(html, m.imageHtml, 0).value;
      (forall j: nat :: j < i ==> !OccursAt(html, m.imageHtml, j)) &&
      RewriteStep(html, m, pub) ==
        html[..i] + PictureBlock(m.imageHtml, pub, m.renditions) + html[i + |m.imageHtml|..]
  {
    ReplaceFirstLiteral(html, m.imageHtml, PictureBlock(m.imageHtml, pub, m.renditions));
  }

  /** The `forEach` of lines 116-138: each kept tag, in scan order, replaced in turn. */
  method RewriteHtml(html: string, ms: seq<ImageMatch>, pub: string) returns (newHtml: string)
    ensures newHtml == Rewritten(html, ms, pub)
  {
    newHtml := html;
    var i := 0;
    while i < |ms|
      invariant 0 <= i <= |ms|
      invariant newHtml == Rewritten(html, ms[..i], pub)
    {
      assert ms[..i + 1][..i] == ms[..i];
      newHtml := RewriteStep(newHtml, ms[i], pub);
      i := i + 1;
    }
    assert ms[..|ms|] == ms;
  }

  /** When no tag qualifies the HTML comes back exactly as it went in. */
  lemma UnqualifiedHtmlUnchanged(html: string, renditions: seq<Rendition>, imageDir: string, pub: string)
    requires forall t :: t in ScanImgTags(html) ==> !Qualifies(ExtractSrc(t))
    ensures FindMatches(html, renditions, imageDir) == []
    ensures Rewritten(html, FindMatches(html, renditions, imageDir), pub) == html
  {
  }

  /** HTML without any `<img` comes back exactly as it went in. */
  lemma HtmlWithoutImagesUnchanged(html: string, renditions: seq<Rendition>, imageDir: string, pub: string)
    requires !Contains(html, "<img")
    ensures Rewritten(html, FindMatches(html, renditions, imageDir), pub) == html
  {
    NoImgNoTags(html, 0);
    UnqualifiedHtmlUnchanged(html, renditions, imageDir, pub);
  }

  // ---------------------------------------------------------------------------
  // The write plan (processImages, processImage: lines 16-61)
  // ---------------------------------------------------------------------------

  /** `path.join(outputDir, outputFile)`, left abstract. */
  datatype OutPath = PathJoin(dir: string, file: string)

  /** The encoder sharp is given after the resize. */
  datatype Encoding = Webp(quality: nat) | MozJpeg(quality: nat) | NoEncoder

  /** What one rendition does with the image's fetched bytes. */
  datatype Step =
    | WriteVerbatim(path: OutPath)
    | ResizeAndSave(path: OutPath, width: nat, encoding: Encoding)

  /** One fetch of `url`, then one step per rendition, all on the same bytes. */
  datatype ImagePlan = ImagePlan(url: string, steps: seq<Step>)

  /** Lines 21 and 25-30: webp and jpg (mozjpeg) get the quality, 80 when absent; others no encoder. */
  function EncoderFor(format: string, quality: Option<nat>): (enc: Encoding)
    ensures enc.Webp? <==> format == "webp"
    ensures enc.MozJpeg? <==> format == "jpg"
    ensures !enc.NoEncoder? ==> enc.quality == (if quality.Some? then quality.value else 80)
  {
    var q := quality.GetOr(80);
    if format == "webp" then Webp(q) else if format == "jpg" then MozJpeg(q) else NoEncoder
  }

  function PlanStep(r: Resolved): (step: Step)
    ensures step.path == PathJoin(r.outputDir, r.outputFile)
    ensures step.WriteVerbatim? <==> r.format == Original
    ensures step.ResizeAndSave? ==> step.width == r.width && step.encoding == EncoderFor(r.format, r.quality)
  {
    var path := PathJoin(r.outputDir, r.outputFile);
    if r.format == Original then WriteVerbatim(path) else ResizeAndSave(path, r.width, EncoderFor(r.format, r.quality))
  }

  /** `processImages(src, theseRenditions)` as a plan: one step per rendition, in order. */
  function PlanImage(url: string, rs: seq<Resolved>): (p: ImagePlan)
    ensures p.url == url && |p.steps| == |rs|
    ensures forall k :: 0 <= k < |rs| ==>
      p.steps[k].path == PathJoin(rs[k].outputDir, rs[k].outputFile) &&
      (p.steps[k].WriteVerbatim? <==> rs[k].format == Original)
    ensures forall k :: 0 <= k < |rs| && rs[k].format != Original ==>
      p.steps[k].width == rs[k].width && p.steps[k].encoding == EncoderFor(rs[k].format, rs[k].quality)
  {
    ImagePlan(url, seq(|rs|, k requires 0 <= k < |rs| => PlanStep(rs[k])))
  }

  /** The outcome of the one fetch; the status is never inspected by the code. */
  datatype Fetched = NetworkError | Response(status: nat, body: seq<bv8>)

  /** A file operation the plan performs once the bytes have arrived. */
  datatype Effect =
    | WriteFile(path: OutPath, bytes: seq<bv8>)
    | Transcode(path: OutPath, input: seq<bv8>, width: nat, encoding: Encoding)
  {
    function Input(): seq<bv8> {
      match this
      case WriteFile(_, b) => b
      case Transcode(_, b, _, _) => b
    }
    function Path(): OutPath {
      match this
      case WriteFile(p, _) => p
      case Transcode(p, _, _, _) => p
    }
  }

  function Perform(s: Step, body: seq<bv8>): Effect {
    match s
    case WriteVerbatim(path) => WriteFile(path, body)
    case ResizeAndSave(path, w, enc) => Transcode(path, body, w, enc)
  }

  /**
   * The effects of a plan: none when the fetch fails outright; otherwise one per
   * step, all reading the one body that was fetched, whatever the status.
   */
  function RunPlan(p: ImagePlan, f: Fetched): (effects: seq<Effect>)
    ensures f.NetworkError? ==> effects == []
    ensures f.Response? ==> (|effects| == |p.steps| &&
      forall k :: 0 <= k < |effects| ==>
        effects[k].Input() == f.body && effects[k].Path() == p.steps[k].path &&
        (effects[k].WriteFile? <==> p.steps[k].WriteVerbatim?))
    ensures f.Response? ==> forall k :: 0 <= k < |p.steps| && p.steps[k].ResizeAndSave? ==>
      effects[k].Transcode? && effects[k].width == p.steps[k].width && effects[k].encoding == p.steps[k].encoding
  {
    match f
    case NetworkError => []
    case Response(_, body) => seq(|p.steps|, k requires 0 <= k < |p.steps| => Perform(p.steps[k], body))
  }

  function PlansFor(ms: seq<ImageMatch>): (plans: seq<ImagePlan>)
    ensures |plans| == |ms|
    ensures forall k :: 0 <= k < |ms| ==> plans[k] == PlanImage(ms[k].src, ms[k].renditions)
  {
    seq(|ms|, k requires 0 <= k < |ms| => PlanImage(ms[k].src, ms[k].renditions))
  }

  // ---------------------------------------------------------------------------
  // processHtml (lines 71-143)
  // ---------------------------------------------------------------------------

  /**
   * The rewritten HTML and one write plan per kept image. The HTML is a function of
   * the inputs alone: no fetch result enters it.
   */
  method ProcessHtml(html: string, renditions: seq<Rendition>, imageDir: string, imagePublicDir: Option<string>)
    returns (newHtml: string, plans: seq<ImagePlan>)
    ensures newHtml == Rewritten(html, FindMatches(html, renditions, imageDir), Interp(imagePublicDir))
    ensures plans == PlansFor(FindMatches(html, renditions, imageDir))
  {
    var matches := FindMatches(html, renditions, imageDir);
    plans := PlansFor(matches);
    newHtml := RewriteHtml(html, matches, Interp(imagePublicDir));
  }
}
