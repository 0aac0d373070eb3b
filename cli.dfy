/**
 * The two small parsers of dist/cli/index.js: the `--renditions` mini-language
 * (`webp@1920,jpeg@800@90,original`) and the `--image-dir` pair
 * (`/tmp/foo/,/foo/`).
 */
module Cli {
  import opened Base
  import opened JsStrings
  import opened Images

  const DefaultWidth: nat := 0
  const DefaultQuality: nat := 80

  /**
   * `Number(field)` on the numerals modelled: the empty string is 0 and a string of
   * decimal digits is its value; anything else is not a natural number.
   */
  function NumberOf(field: string): (r: Option<nat>)
    ensures field == "" ==> r == Some(0)
    ensures r.Some? <==> AllDigits(field)
  {
    if AllDigits(field) then Some(DigitsValue(field)) else None
  }

  /** A width or quality written out reads back as itself. */
  lemma NumberOfNumeral(n: nat)
    ensures NumberOf(NatToString(n)) == Some(n)
  {
    DigitsOfNat(n);
  }

  /**
   * Lines 48-50 for one token: the format is the text before the first `@`, the width
   * the second field (0 when missing), the quality the third (80 when missing); later
   * fields are ignored. A field that is not a numeral makes the token fail.
   */
  function ParseRendition(token: string): (r: Result<Rendition, string>)
    ensures r.Success? ==>
      var f := r.value.format;
      '@' !in f && |f| <= |token| && token[..|f|] == f && (|f| < |token| ==> token[|f|] == '@') &&
      r.value.quality.Some?
    ensures r.Success? <==>
      forall k :: 1 <= k < |Split(token, '@')| && k <= 2 ==> AllDigits(Split(token, '@')[k])
    ensures r.Failure? ==> r.error == token
  {
    FirstPieceIsPrefix(token, '@');
    var fields := Split(token, '@');
    var width := if |fields| > 1 then NumberOf(fields[1]) else Some(DefaultWidth);
    var quality := if |fields| > 2 then NumberOf(fields[2]) else Some(DefaultQuality);
    if width.Some? && quality.Some? then Success(Rendition(fields[0], width.value, Some(quality.value)))
    else Failure(token)
  }

  /** A bare format such as `original` gets width 0 and quality 80. */
  lemma BareFormat(token: string)
    requires '@' !in token
    ensures ParseRendition(token) == Success(Rendition(token, DefaultWidth, Some(DefaultQuality)))
  {
    SplitWithoutSeparator(token, '@');
  }

  /** `format@width` keeps the width and defaults the quality to 80. */
  lemma FormatAndWidth(format: string, width: nat)
    requires '@' !in format
    ensures ParseRendition(format + "@" + NatToString(width)) ==
      Success(Rendition(format, width, Some(DefaultQuality)))
  {
    var w := NatToString(width);
    assert '@' !in w;
    SplitConcat(format, w, '@');
    SplitWithoutSeparator(format, '@');
    SplitWithoutSeparator(w, '@');
    NumberOfNumeral(width);
  }

  /** Three fields joined with `@` split back into those fields. */
  lemma SplitThreeFields(a: string, b: string, c: string)
    requires '@' !in a && '@' !in b && '@' !in c
    ensures Split(a + "@" + b + "@" + c, '@') == [a, b, c]
  {
    var bc := b + "@" + c;
    SplitTwoFields(b, c);
    SplitAtFirst(a, bc, '@');
    Regroup(a, "@", b, c);
  }

  lemma Regroup(a: string, x: string, b: string, c: string)
    ensures a + x + b + x + c == a + x + (b + x + c)
  {
  }

  lemma SplitTwoFields(a: string, b: string)
    requires '@' !in a && '@' !in b
    ensures Split(a + "@" + b, '@') == [a, b]
  {
    SplitAtFirst(a, b, '@');
    SplitWithoutSeparator(b, '@');
  }

  /** `format@width@quality` with numeral fields: each field read as a number (`""` reads as 0). */
  lemma ThreeNumeralFields(format: string, width: string, quality: string)
    requires '@' !in format && '@' !in width && '@' !in quality
    requires AllDigits(width) && AllDigits(quality)
    ensures ParseRendition(format + "@" + width + "@" + quality) ==
      Success(Rendition(format, DigitsValue(width), Some(DigitsValue(quality))))
  {
    SplitThreeFields(format, width, quality);
  }

  /** `format@width` with a numeral width: the width read as a number and quality 80. */
  lemma TwoNumeralFields(format: string, width: string)
    requires '@' !in format && '@' !in width && AllDigits(width)
    ensures ParseRendition(format + "@" + width) ==
      Success(Rendition(format, DigitsValue(width), Some(DefaultQuality)))
  {
    SplitTwoFields(format, width);
  }

  /** An empty quality field is `Number("")`, 0; the default 80 applies only to a missing field. */
  lemma EmptyQualityIsZero(format: string, width: string)
    requires '@' !in format && '@' !in width && AllDigits(width)
    ensures ParseRendition(format + "@" + width + "@") == Success(Rendition(format, DigitsValue(width), Some(0)))
  {
    assert format + "@" + width + "@" == format + "@" + width + "@" + "";
    ThreeNumeralFields(format, width, "");
  }

  /** Fields after the third change nothing (only the token reported on failure differs). */
  lemma ExtraFieldsIgnored(format: string, width: string, quality: string, rest: string)
    requires '@' !in format && '@' !in width && '@' !in quality
    ensures var long := ParseRendition(format + "@" + width + "@" + quality + "@" + rest);
      var short := ParseRendition(format + "@" + width + "@" + quality);
      long.Success? == short.Success? && (long.Success? ==> long.value == short.value)
  {
    var prefix := format + "@" + width + "@" + quality;
    SplitThreeFields(format, width, quality);
    SplitConcat(prefix, rest, '@');
    assert prefix + "@" + rest == prefix + ['@'] + rest;
    var fields := Split(prefix + "@" + rest, '@');
    assert |fields| > 2 && fields[0] == format && fields[1] == width && fields[2] == quality;
  }

  /** How a rendition is written on the command line, with all three fields. */
  function FormatRendition(format: string, width: nat, quality: nat): (token: string)
    ensures ',' !in format ==> ',' !in token
    ensures token != ""
  {
    var w, q := NatToString(width), NatToString(quality);
    assert ',' !in w && ',' !in q;
    format + "@" + w + "@" + q
  }

  /** Parsing a written-out rendition gives it back. */
  lemma RenditionRoundTrip(format: string, width: nat, quality: nat)
    requires '@' !in format
    ensures ParseRendition(FormatRendition(format, width, quality)) == Success(Rendition(format, width, Some(quality)))
  {
    var w, q := NatToString(width), NatToString(quality);
    assert '@' !in w && '@' !in q;
    SplitThreeFields(format, w, q);
    NumberOfNumeral(width);
    NumberOfNumeral(quality);
  }

  /** `.filter(Boolean)`: the non-empty tokens, in order. */
  function NonEmpty(parts: seq<string>): (tokens: seq<string>)
    ensures |tokens| <= |parts|
    ensures forall t :: t in tokens <==> t in parts && t != ""
  {
    if parts == [] then []
    else
      assert forall t :: t in parts <==> t == parts[0] || t in parts[1..];
      (if parts[0] == "" then [] else [parts[0]]) + NonEmpty(parts[1..])
  }

  lemma {:induction false} NonEmptyAppend(a: seq<string>, b: seq<string>)
    ensures NonEmpty(a + b) == NonEmpty(a) + NonEmpty(b)
  {
    if a != [] {
      assert (a + b)[0] == a[0];
      assert (a + b)[1..] == a[1..] + b;
      NonEmptyAppend(a[1..], b);
    } else {
      assert a + b == b;
    }
  }

  /** The tokens of `(options.renditions || "").split(",").filter(Boolean)`. */
  function Tokens(option: Option<string>): (tokens: seq<string>)
    ensures forall k :: 0 <= k < |tokens| ==> tokens[k] != "" && ',' !in tokens[k]
    ensures option.None? ==> tokens == []
  {
    var parts := Split(option.GetOr(""), ',');
    assert forall k :: 0 <= k < |NonEmpty(parts)| ==> NonEmpty(parts)[k] in parts;
    NonEmpty(parts)
  }

  /** Each token parsed in turn; the first token with a non-numeric field is reported. */
  function ParseAll(tokens: seq<string>): (r: Result<seq<Rendition>, string>)
    ensures r.Success? <==> forall k :: 0 <= k < |tokens| ==> ParseRendition(tokens[k]).Success?
    ensures r.Success? ==> (|r.value| == |tokens| &&
      forall k :: 0 <= k < |tokens| ==> r.value[k] == ParseRendition(tokens[k]).value)
    ensures r.Failure? ==> r.error in tokens
  {
    if tokens == [] then Success([])
    else
      match ParseRendition(tokens[0])
      case Failure(t) => Failure(t)
      case Success(first) =>
        match ParseAll(tokens[1..])
        case Failure(t) => Failure(t)
        case Success(rest) =>
          assert forall k :: 1 <= k < |tokens| ==> tokens[k] == tokens[1..][k - 1];
          Success([first] + rest)
  }

  /** Lines 44-51: the `--renditions` option as a list of renditions. */
  function ParseRenditions(option: Option<string>): (r: Result<seq<Rendition>, string>)
    ensures r.Success? <==> forall k :: 0 <= k < |Tokens(option)| ==> ParseRendition(Tokens(option)[k]).Success?
    ensures r.Success? ==> (|r.value| == |Tokens(option)| &&
      forall k :: 0 <= k < |r.value| ==> r.value[k] == ParseRendition(Tokens(option)[k]).value)
    ensures r.Failure? ==> r.error in Tokens(option)
  {
    ParseAll(Tokens(option))
  }

  /** An absent or empty option gives no renditions. */
  lemma AbsentOrEmptyRenditions()
    ensures ParseRenditions(None) == Success([])
    ensures ParseRenditions(Some("")) == Success([])
  {
    SplitWithoutSeparator("", ',');
  }

  /** An empty token between two commas is dropped. */
  lemma EmptyTokenDropped(a: string, b: string)
    ensures Tokens(Some(a + ",," + b)) == Tokens(Some(a + "," + b))
  {
    var pa, pb := Split(a, ','), Split(b, ',');
    SplitAroundEmptyToken(a, b);
    SplitConcat(a, b, ',');
    NonEmptyAppend(pa, [""] + pb);
    NonEmptyAppend([""], pb);
    assert NonEmpty([""] + pb) == NonEmpty(pb);
    NonEmptyAppend(pa, pb);
  }

  lemma SplitAroundEmptyToken(a: string, b: string)
    ensures Split(a + ",," + b, ',') == Split(a, ',') + ([""] + Split(b, ','))
  {
    SplitConcat(a, "," + b, ',');
    SplitAtFirst("", b, ',');
    assert "" + [','] + b == "," + b;
    EmptyTokenRegroup(a, b);
  }

  lemma EmptyTokenRegroup(a: string, b: string)
    ensures a + ",," + b == a + [','] + ("," + b)
  {
    assert ",," == [','] + [','];
  }

  /** A trailing comma is dropped. */
  lemma TrailingCommaDropped(a: string)
    ensures Tokens(Some(a + ",")) == Tokens(Some(a))
  {
    SplitConcat(a, "", ',');
    SplitWithoutSeparator("", ',');
    assert a + "," == a + [','] + "";
    NonEmptyAppend(Split(a, ','), [""]);
  }

  /** The renditions written out and joined with commas parse back, in order. */
  lemma RenditionsRoundTrip(rs: seq<Rendition>)
    requires forall k :: 0 <= k < |rs| ==> '@' !in rs[k].format && ',' !in rs[k].format && rs[k].quality.Some?
    ensures ParseRenditions(Some(Join(WrittenRenditions(rs), ','))) == Success(rs)
  {
    var tokens := WrittenRenditions(rs);
    if tokens == [] {
      SplitWithoutSeparator("", ',');
    } else {
      SplitJoin(tokens, ',');
    }
    NonEmptyKeepsAllNonEmpty(tokens);
    forall k | 0 <= k < |tokens| ensures ParseRendition(tokens[k]) == Success(rs[k]) {
      RenditionRoundTrip(rs[k].format, rs[k].width, rs[k].quality.value);
    }
    ParseAllPointwise(tokens, rs);
  }

  lemma ParseAllPointwise(tokens: seq<string>, rs: seq<Rendition>)
    requires |tokens| == |rs|
    requires forall k :: 0 <= k < |tokens| ==> ParseRendition(tokens[k]) == Success(rs[k])
    ensures ParseAll(tokens) == Success(rs)
  {
    assert ParseAll(tokens).value == rs;
  }

  function WrittenRenditions(rs: seq<Rendition>): (tokens: seq<string>)
    ensures |tokens| == |rs|
    ensures forall k :: 0 <= k < |rs| && ',' !in rs[k].format ==> ',' !in tokens[k]
    ensures forall k :: 0 <= k < |rs| ==> tokens[k] != ""
  {
    seq(|rs|, k requires 0 <= k < |rs| => FormatRendition(rs[k].format, rs[k].width, rs[k].quality.GetOr(DefaultQuality)))
  }

  lemma {:induction false} NonEmptyKeepsAllNonEmpty(parts: seq<string>)
    requires forall k :: 0 <= k < |parts| ==> parts[k] != ""
    ensures NonEmpty(parts) == parts
  {
    if parts != [] {
      NonEmptyKeepsAllNonEmpty(parts[1..]);
    }
  }

  /**
   * Line 38: the output directory is the text before the first comma, the public
   * directory the text between the first and second commas, undefined when there
   * is no comma; an absent option reads as "".
   */
  function ImageDirs(option: Option<string>): (dirs: (string, Option<string>))
    ensures option.None? ==> dirs == ("", None)
    ensures ',' !in dirs.0 && (dirs.1.Some? ==> ',' !in dirs.1.value)
  {
    var parts := Split(option.GetOr(""), ',');
    (parts[0], if |parts| > 1 then Some(parts[1]) else None)
  }

  /** `out,pub` and `out,pub,more` both give the pair; further parts are ignored. */
  lemma ImageDirsPair(out: string, pub: string, more: seq<string>)
    requires ',' !in out && ',' !in pub
    ensures ImageDirs(Some(Join([out, pub] + more, ','))) == (out, Some(pub))
  {
    var tail := Join([pub] + more, ',');
    JoinCons(out, [pub] + more, ',');
    assert [out, pub] + more == [out] + ([pub] + more);
    SplitAtFirst(out, tail, ',');
    if more == [] {
      SplitWithoutSeparator(pub, ',');
    } else {
      JoinCons(pub, more, ',');
      SplitAtFirst(pub, Join(more, ','), ',');
    }
  }

  /** A directory without a comma leaves the public directory undefined. */
  lemma ImageDirsSingle(out: string)
    requires ',' !in out
    ensures ImageDirs(Some(out)) == (out, None)
  {
    SplitWithoutSeparator(out, ',');
  }
}
