/**
 * A post holding one plain `<img>` tag, worked through the whole pipeline: first the
 * general facts about such a tag, then the example of a JPEG at `https://x.test/a.jpg`
 * with the renditions `webp@800@80` and `jpeg@1600@85` published under `/img/`.
 */
module Scenario {
  import opened Base
  import opened JsStrings
  import opened Images

  /** A tag that holds nothing but its `src`. */
  function PlainTag(url: string): string {
    "<img src=\"" + url + "\">"
  }

  /** A whole tag scans to itself. */
  lemma LoneTagScansToItself(t: string)
    requires IsImgTag(t)
    ensures ScanImgTags(t) == [t]
  {
    assert ImgTagEnd(t, 0).Some?;
    ImgMatchEndUnique(t, 0, ImgTagEnd(t, 0).value, |t|);
    assert t[0..|t|] == t;
    assert ScanFrom(t, |t|) == [];
    assert ScanFrom(t, 0) == [t];
  }

  lemma PlainTagIsImgTag(url: string)
    requires '>' !in url
    ensures IsImgTag(PlainTag(url))
  {
    var t := PlainTag(url);
    assert t[..4] == "<img";
    assert t[..|t| - 1] == "<img src=\"" + url + "\"";
    assert t[4..|t| - 1] == t[..|t| - 1][4..];
  }

  /** The first `src="…"` of a plain tag is the one that holds its URL. */
  lemma SrcMatchOfPlainTag(url: string)
    requires url != "" && '"' !in url
    ensures SrcMatch(PlainTag(url)) == Some((5, 10 + |url|))
  {
    var t := PlainTag(url);
    var e := 10 + |url|;
    assert t[..10] == "<img src=\"";
    assert t[5..10] == t[..10][5..10];
    assert t[10..e] == url;
    assert t[e] == '"';
    assert SrcMatchAt(t, 5, e);
    forall j: nat, e': nat | j < 5 ensures !SrcMatchAt(t, j, e') {
      assert t[j] == t[..10][j];
    }
    assert SrcMatch(t).Some?;
    SrcMatchEndUnique(t, 5, e, SrcMatch(t).value.1);
  }

  /** The `src` of a plain tag is its URL. */
  lemma SrcOfPlainTag(url: string)
    requires url != "" && '"' !in url
    ensures ExtractSrc(PlainTag(url)) == url
  {
    SrcMatchOfPlainTag(url);
    assert PlainTag(url)[10..10 + |url|] == url;
  }

  /** Rewriting the `src` of a plain tag keeps the rest of the tag. */
  lemma ReplaceSrcOfPlainTag(url: string, r: string)
    requires url != "" && '"' !in url && '$' !in r
    ensures ReplaceSrc(PlainTag(url), r) == "<img " + r + ">"
  {
    var t := PlainTag(url);
    SrcMatchOfPlainTag(url);
    ReplaceSrcLiteral(t, r);
    assert t[..5] == "<img ";
    assert t[10 + |url| + 1..] == ">";
  }

  /** The test is unanchored: a scheme anywhere in a relative path qualifies. */
  lemma EmbeddedSchemeQualifies(prefix: string, rest: string)
    requires '?' !in prefix + rest
    ensures Qualifies(prefix + "http://" + rest)
  {
    var s := prefix + "http://" + rest;
    assert s[|prefix|..|prefix| + |"http://"|] == "http://";
    assert OccursAt(s, "http://", |prefix|);
  }

  /** The test is case-sensitive: an upper-case scheme does not qualify. */
  lemma UpperCaseSchemeDropped(rest: string)
    requires 'h' !in rest
    ensures !Qualifies("HTTPS://" + rest)
  {
    var s := "HTTPS://" + rest;
    assert 'h' !in s;
    MissingCharNotContained(s, "http://", 'h');
    MissingCharNotContained(s, "https://", 'h');
  }

  lemma MissingCharNotContained(s: string, p: string, c: char)
    requires c in p && c !in s
    ensures !Contains(s, p)
  {
    forall i: nat | i + |p| <= |s| ensures !OccursAt(s, p, i) {
      assert forall x :: x in s[i..i + |p|] ==> x in s;
    }
  }

  lemma SecureUrlQualifies(rest: string)
    requires '?' !in rest
    ensures Qualifies("https://" + rest)
  {
    assert OccursAt("https://" + rest, "https://", 0);
  }

  lemma JpgNameIsJpeg(name: string)
    ensures IsJpegName(name + ".jpg")
  {
    var s := name + ".jpg";
    assert s[|s| - 4] == '.' && s[|s| - 3] == 'j' && s[|s| - 2] == 'p' && s[|s| - 1] == 'g';
  }

  /** The stem of `dir/stem.ext` is `stem`, dots in the stem included. */
  lemma FileStemOf(dir: string, stem: string, ext: string)
    requires stem != "" && ext != "" && '/' !in stem && AllWord(ext)
    ensures FileStem(dir + "/" + stem + "." + ext) == Some(stem)
  {
    WordHasNoSlash(ext);
    WordHasNoDot(ext);
    var name := stem + "." + ext;
    var src := dir + "/" + stem + "." + ext;
    assert src == dir + "/" + name;
    LastSegmentAfterSlash(dir, name);
    FileStemOfName(src, stem, ext);
  }

  lemma WordHasNoSlash(w: string)
    requires AllWord(w)
    ensures '/' !in w
  {
  }

  lemma FileStemOfName(src: string, stem: string, ext: string)
    requires stem != "" && ext != "" && '.' !in ext && AllWord(ext)
    requires LastSegment(src) == stem + "." + ext
    ensures FileStem(src) == Some(stem)
  {
    LastDotBeforeExtension(stem, ext);
  }

  lemma LastDotBeforeExtension(stem: string, ext: string)
    requires '.' !in ext
    ensures var name := stem + "." + ext;
      LastIndexOfChar(name, '.') == Some(|stem|) && name[..|stem|] == stem && name[|stem| + 1..] == ext
  {
    var name := stem + "." + ext;
    assert name[|stem| + 1..] == ext;
    LastIndexOfCharAt(name, '.', |stem|);
  }

  // ---------------------------------------------------------------------------
  // The example: `https://<host>/<stem>.jpg` with two renditions under `/img/`
  // ---------------------------------------------------------------------------

  const PublicDir: string := "/img/"
  const Example: seq<Rendition> := [Rendition("webp", 800, Some(80)), Rendition("jpeg", 1600, Some(85))]

  function Url(host: string, stem: string): string {
    "https://" + host + "/" + stem + ".jpg"
  }

  /**
   * Host and stem that keep the URL one plain, qualifying `src`, and keep `$` out of
   * the replacement text.
   */
  predicate PlainParts(host: string, stem: string) {
    stem != "" && '/' !in stem &&
    '"' !in host + stem && '>' !in host + stem && '?' !in host + stem && '$' !in stem
  }

  function WebpFile(stem: string, imageDir: string): Resolved {
    Resolved("webp", 800, Some(80), imageDir, stem + "@800.webp")
  }

  function JpegFile(stem: string, imageDir: string): Resolved {
    Resolved("jpeg", 1600, Some(85), imageDir, stem + "@1600.jpeg")
  }

  function WebpSource(stem: string): string {
    "<source srcset=\"/img/" + stem + "@800.webp 800w\" type=\"image/webp\">"
  }

  function JpegSource(stem: string): string {
    "<source srcset=\"/img/" + stem + "@1600.jpeg 1600w\" type=\"image/jpeg\">"
  }

  function FallbackTag(stem: string): string {
    "<img src=\"/img/" + stem + "@1600.jpeg\">"
  }

  function ExpectedBlock(stem: string): string {
    "<picture>\n" + WebpSource(stem) + "\n" + JpegSource(stem) + "\n" + FallbackTag(stem) + "\n</picture>"
  }

  lemma WidthNumerals()
    ensures NatToString(800) == "800" && NatToString(1600) == "1600"
  {
    assert NatToString(8) == "8";
    assert NatToString(80) == "80";
    assert NatToString(1) == "1";
    assert NatToString(16) == "16";
    assert NatToString(160) == "160";
  }

  lemma ExampleUrlQualifies(host: string, stem: string)
    requires PlainParts(host, stem)
    ensures Qualifies(Url(host, stem))
  {
    var rest := host + "/" + stem + ".jpg";
    assert Url(host, stem) == "https://" + rest;
    SecureUrlQualifies(rest);
  }

  lemma ExampleUrlIsJpeg(host: string, stem: string)
    requires PlainParts(host, stem)
    ensures IsJpegName(Url(host, stem))
  {
    JpgNameIsJpeg("https://" + host + "/" + stem);
  }

  lemma ExampleUrlStem(host: string, stem: string)
    requires PlainParts(host, stem)
    ensures FileStem(Url(host, stem)) == Some(stem)
  {
    assert Url(host, stem) == ("https://" + host) + "/" + stem + "." + "jpg";
    assert AllWord("jpg");
    FileStemOf("https://" + host, stem, "jpg");
  }

  lemma ExampleUrlIsPlain(host: string, stem: string)
    requires PlainParts(host, stem)
    ensures '"' !in Url(host, stem) && '>' !in Url(host, stem)
  {
  }

  lemma ExampleFileNames(host: string, stem: string)
    requires PlainParts(host, stem)
    ensures OutputFile(Url(host, stem), "webp", 800) == stem + "@800.webp"
    ensures OutputFile(Url(host, stem), "jpeg", 1600) == stem + "@1600.jpeg"
  {
    ExampleUrlStem(host, stem);
    WidthNumerals();
    NumberedName(stem, "800", "webp");
    NumberedName(stem, "1600", "jpeg");
    FileSuffixes();
  }

  lemma NumberedName(stem: string, width: string, format: string)
    ensures stem + "@" + width + "." + format == stem + ("@" + width + "." + format)
  {
  }

  lemma FileSuffixes()
    ensures "@" + "800" + "." + "webp" == "@800.webp"
    ensures "@" + "1600" + "." + "jpeg" == "@1600.jpeg"
  {
  }

  /** The scan finds the one tag, and the filter keeps it. */
  lemma ExampleKept(host: string, stem: string)
    requires PlainParts(host, stem)
    ensures KeptTags(ScanImgTags(PlainTag(Url(host, stem)))) == [PlainTag(Url(host, stem))]
    ensures ExtractSrc(PlainTag(Url(host, stem))) == Url(host, stem)
  {
    var url := Url(host, stem);
    ExampleUrlIsPlain(host, stem);
    PlainTagIsImgTag(url);
    LoneTagScansToItself(PlainTag(url));
    SrcOfPlainTag(url);
    ExampleUrlQualifies(host, stem);
    assert KeptTags([PlainTag(url)]) == [PlainTag(url)];
  }

  /** Both renditions apply, named after the stem. */
  lemma ExampleRenditions(host: string, stem: string, imageDir: string)
    requires PlainParts(host, stem)
    ensures SelectRenditions(Url(host, stem), Example, imageDir) == [WebpFile(stem, imageDir), JpegFile(stem, imageDir)]
  {
    ExampleUrlIsJpeg(host, stem);
    ExampleFileNames(host, stem);
    var rs := SelectRenditions(Url(host, stem), Example, imageDir);
    assert |rs| == 2;
    assert rs[0] == WebpFile(stem, imageDir);
    assert rs[1] == JpegFile(stem, imageDir);
    PairOf(rs);
  }

  lemma PairOf<T>(s: seq<T>)
    requires |s| == 2
    ensures s == [s[0], s[1]]
  {
  }

  /** The one tag qualifies and takes both renditions. */
  lemma ExampleMatches(host: string, stem: string, imageDir: string)
    requires PlainParts(host, stem)
    ensures FindMatches(PlainTag(Url(host, stem)), Example, imageDir) ==
      [ImageMatch(PlainTag(Url(host, stem)), Url(host, stem), [WebpFile(stem, imageDir), JpegFile(stem, imageDir)])]
  {
    ExampleKept(host, stem);
    ExampleRenditions(host, stem, imageDir);
  }

  /** A `<source>` of a resized rendition, written out. */
  lemma SourceTagOfResized(pub: string, r: Resolved)
    requires r.format != Original && r.width > 0
    ensures SourceTag(pub, r) ==
      "<source srcset=\"" + pub + r.outputFile + " " + NatToString(r.width) + "w\" type=\"image/" + r.format + "\">"
  {
  }

  lemma WebpSourceOf(stem: string, imageDir: string)
    ensures SourceTag(PublicDir, WebpFile(stem, imageDir)) == WebpSource(stem)
  {
    SourceTagOfResized(PublicDir, WebpFile(stem, imageDir));
    WidthNumerals();
    WebpSourceWritten(stem, NatToString(800));
  }

  lemma WebpSourceWritten(stem: string, width: string)
    requires width == "800"
    ensures "<source srcset=\"" + PublicDir + (stem + "@800.webp") + " " + width + "w\" type=\"image/" + "webp" + "\">" ==
      WebpSource(stem)
  {
    SourceRegroup(stem, PublicDir, stem + "@800.webp", width, "webp");
    SourceLiterals();
  }

  lemma JpegSourceOf(stem: string, imageDir: string)
    ensures SourceTag(PublicDir, JpegFile(stem, imageDir)) == JpegSource(stem)
  {
    SourceTagOfResized(PublicDir, JpegFile(stem, imageDir));
    WidthNumerals();
    JpegSourceWritten(stem, NatToString(1600));
  }

  lemma JpegSourceWritten(stem: string, width: string)
    requires width == "1600"
    ensures "<source srcset=\"" + PublicDir + (stem + "@1600.jpeg") + " " + width + "w\" type=\"image/" + "jpeg" + "\">" ==
      JpegSource(stem)
  {
    SourceRegroup(stem, PublicDir, stem + "@1600.jpeg", width, "jpeg");
    SourceLiterals();
  }

  /** `stem` is where the rendition's file name starts. */
  lemma SourceRegroup(stem: string, pub: string, file: string, width: string, format: string)
    requires |stem| <= |file| && file[..|stem|] == stem
    ensures "<source srcset=\"" + pub + file + " " + width + "w\" type=\"image/" + format + "\">" ==
      ("<source srcset=\"" + pub) + stem + (file[|stem|..] + " " + width + "w\" type=\"image/" + format + "\">")
  {
    assert file == stem + file[|stem|..];
  }

  lemma SourceLiterals()
    ensures "<source srcset=\"" + PublicDir == "<source srcset=\"/img/"
    ensures "@800.webp" + " " + "800" + "w\" type=\"image/" + "webp" + "\">" == "@800.webp 800w\" type=\"image/webp\">"
    ensures "@1600.jpeg" + " " + "1600" + "w\" type=\"image/" + "jpeg" + "\">" == "@1600.jpeg 1600w\" type=\"image/jpeg\">"
  {
    SourceOpening();
    WebpSourceTail();
    JpegSourceTail();
  }

  lemma SourceOpening()
    ensures "<source srcset=\"" + PublicDir == "<source srcset=\"/img/"
  {
  }

  lemma WebpSourceTail()
    ensures "@800.webp" + " " + "800" + "w\" type=\"image/" + "webp" + "\">" == "@800.webp 800w\" type=\"image/webp\">"
  {
  }

  lemma JpegSourceTail()
    ensures "@1600.jpeg" + " " + "1600" + "w\" type=\"image/" + "jpeg" + "\">" == "@1600.jpeg 1600w\" type=\"image/jpeg\">"
  {
  }

  lemma ExampleSources(stem: string, imageDir: string)
    ensures SourceTags(PublicDir, [WebpFile(stem, imageDir), JpegFile(stem, imageDir)]) ==
      [WebpSource(stem), JpegSource(stem)]
  {
    WebpSourceOf(stem, imageDir);
    JpegSourceOf(stem, imageDir);
  }

  lemma ExampleFallback(host: string, stem: string, imageDir: string)
    requires PlainParts(host, stem)
    ensures FallbackImg(PlainTag(Url(host, stem)), PublicDir, [WebpFile(stem, imageDir), JpegFile(stem, imageDir)]) ==
      FallbackTag(stem)
  {
    ExampleUrlIsPlain(host, stem);
    assert FallbackFile([WebpFile(stem, imageDir), JpegFile(stem, imageDir)]) == stem + "@1600.jpeg";
    var r := "src=\"" + PublicDir + (stem + "@1600.jpeg") + "\"";
    assert '$' !in r;
    ReplaceSrcOfPlainTag(Url(host, stem), r);
    FallbackTagWritten(stem);
  }

  lemma FallbackTagWritten(stem: string)
    ensures "<img " + ("src=\"" + PublicDir + (stem + "@1600.jpeg") + "\"") + ">" == FallbackTag(stem)
  {
  }

  /** A block of two renditions, written out. */
  lemma TwoRenditionBlock(t: string, pub: string, rs: seq<Resolved>, first: string, second: string, fallback: string)
    requires SourceTags(pub, rs) == [first, second] && FallbackImg(t, pub, rs) == fallback
    ensures PictureBlock(t, pub, rs) == "<picture>\n" + first + "\n" + second + "\n" + fallback + "\n</picture>"
  {
    BlockText(first, second, fallback);
  }

  lemma BlockText(first: string, second: string, fallback: string)
    ensures "<picture>" + "\n" + Join([first, second], '\n') + "\n" + fallback + "\n" + "</picture>" ==
      "<picture>\n" + first + "\n" + second + "\n" + fallback + "\n</picture>"
  {
    assert Join([first, second], '\n') == first + "\n" + second;
  }

  lemma ExpectedBlockIsLiteral(stem: string)
    requires '$' !in stem
    ensures '$' !in ExpectedBlock(stem)
  {
    WebpSourceIsLiteral(stem);
    JpegSourceIsLiteral(stem);
    FallbackTagIsLiteral(stem);
    NoDollarInBlock(WebpSource(stem), JpegSource(stem), FallbackTag(stem));
  }

  lemma WebpSourceIsLiteral(stem: string)
    requires '$' !in stem
    ensures '$' !in WebpSource(stem)
  {
  }

  lemma JpegSourceIsLiteral(stem: string)
    requires '$' !in stem
    ensures '$' !in JpegSource(stem)
  {
  }

  lemma FallbackTagIsLiteral(stem: string)
    requires '$' !in stem
    ensures '$' !in FallbackTag(stem)
  {
  }

  lemma NoDollarInBlock(first: string, second: string, fallback: string)
    requires '$' !in first && '$' !in second && '$' !in fallback
    ensures '$' !in "<picture>\n" + first + "\n" + second + "\n" + fallback + "\n</picture>"
  {
  }

  lemma EmptyEnds(t: string, b: string)
    ensures t[..0] + b + t[|t|..] == b
  {
    assert t[..0] == [] && t[|t|..] == [];
  }

  /** A post that is one kept tag and nothing else becomes that tag's block. */
  lemma WholePostRewritten(t: string, m: ImageMatch, pub: string)
    requires m.imageHtml == t && '$' !in PictureBlock(t, pub, m.renditions)
    ensures Rewritten(t, [m], pub) == PictureBlock(t, pub, m.renditions)
  {
    assert Rewritten(t, [m], pub) == RewriteStep(t, m, pub) by { assert [m][..0] == []; }
    assert OccursAt(t, t, 0);
    assert Find(t, t, 0) == Some(0);
    RewriteStepOnlyReplacesFirst(t, m, pub);
    EmptyEnds(t, PictureBlock(t, pub, m.renditions));
  }

  /** The block: a `<source>` per rendition, then the tag pointing at the last one. */
  lemma ExampleBlock(host: string, stem: string, imageDir: string)
    requires PlainParts(host, stem)
    ensures PictureBlock(PlainTag(Url(host, stem)), PublicDir, [WebpFile(stem, imageDir), JpegFile(stem, imageDir)]) ==
      ExpectedBlock(stem)
  {
    ExampleSources(stem, imageDir);
    ExampleFallback(host, stem, imageDir);
    TwoRenditionBlock(PlainTag(Url(host, stem)), PublicDir, [WebpFile(stem, imageDir), JpegFile(stem, imageDir)],
      WebpSource(stem), JpegSource(stem), FallbackTag(stem));
  }

  /**
   * The whole post becomes the block: two `<source>` tags, webp then jpeg, and a
   * fallback pointing at the jpeg.
   */
  lemma ExampleRewrite(host: string, stem: string, imageDir: string)
    requires PlainParts(host, stem)
    ensures Rewritten(PlainTag(Url(host, stem)), FindMatches(PlainTag(Url(host, stem)), Example, imageDir), PublicDir) ==
      ExpectedBlock(stem)
  {
    var t := PlainTag(Url(host, stem));
    var m := ImageMatch(t, Url(host, stem), [WebpFile(stem, imageDir), JpegFile(stem, imageDir)]);
    ExampleMatches(host, stem, imageDir);
    ExampleBlock(host, stem, imageDir);
    ExpectedBlockIsLiteral(stem);
    WholePostRewritten(t, m, PublicDir);
  }

  /** A plan of two renditions: one step each, in order. */
  lemma TwoRenditionPlan(url: string, a: Resolved, b: Resolved)
    ensures PlanImage(url, [a, b]) == ImagePlan(url, [PlanStep(a), PlanStep(b)])
  {
  }

  /** One fetch of the URL; the webp rendition gets quality 80, the `jpeg` one no encoder. */
  lemma ExamplePlans(host: string, stem: string, imageDir: string)
    requires PlainParts(host, stem)
    ensures PlansFor(FindMatches(PlainTag(Url(host, stem)), Example, imageDir)) ==
      [ImagePlan(Url(host, stem), [ResizeAndSave(PathJoin(imageDir, stem + "@800.webp"), 800, Webp(80)),
                                   ResizeAndSave(PathJoin(imageDir, stem + "@1600.jpeg"), 1600, NoEncoder)])]
  {
    ExampleMatches(host, stem, imageDir);
    TwoRenditionPlan(Url(host, stem), WebpFile(stem, imageDir), JpegFile(stem, imageDir));
  }
}
