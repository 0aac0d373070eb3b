# Image renditions for WordPress-to-Markdown posts, in Dafny

This project models the image-rendition core of a WordPress-to-Markdown exporter.
Before a post is written out, `processHtml` (dist/lib/images.js) rewrites the post's HTML:

- It scans the HTML for `<img …>` tags and reads each tag's first `src="…"`.
- It keeps the tags whose `src` contains `http://` or `https://` anywhere (case-sensitive) and no `?`.
- It picks the renditions for each kept image:
  - a `.jpg`/`.jpeg` source gets the caller's list;
  - any other source gets one `original` passthrough.
- It names every output file.
- It replaces each kept tag, first occurrence by exact text, with a `<picture>` block. The block holds one `<source>` per rendition and a fallback `<img>` that points at the last rendition.

The downloads (`processImages`/`processImage`) are modelled as a write plan: one fetch per image, then one step per rendition. The rewritten HTML never depends on them.

The command line (dist/cli/index.js) contributes two small parsers:

- the `--renditions` mini-language, as in `webp@1920,jpeg@800@90,original`;
- the `--image-dir` pair, as in `/tmp/foo/,/foo/`.

Files:

- `base.dfy` (module `Base`): `Option` and `Result`.
- `jsstrings.dfy` (module `JsStrings`): the JavaScript string built-ins the core relies on.
  - Each of these has a reference characterisation:
    - `indexOf` and `lastIndexOf` of a character, and `includes`;
    - `split` and `join` on one character;
    - decimal numerals.
  - `String.prototype.replace` with a string replacement. Its `$` patterns (GetSubstitution) are defined by `Substitute` and characterised for `$`-free templates.
- `images.dfy` (module `Images`): the pipeline of dist/lib/images.js.
  - The regular expressions are given as match predicates (`ImgMatchAt`, `SrcMatchAt`, `StemMatchAt`), with leftmost-search functions proved against them.
  - The per-tag stages are pure functions.
  - The `forEach` that rewrites the HTML is the method `RewriteHtml`, a `while` loop over the kept tags proved against the fold `Rewritten`.
  - `ProcessHtml` ties the stages together and returns the new HTML and the write plans.
- `cli.dfy` (module `Cli`): the rendition parser (lines 44-51) and the image-dir split (line 38).
- `scenario.dfy` (module `Scenario`): a worked end-to-end case. The post `<img src="https://HOST/STEM.jpg">` is rewritten with the renditions webp@800 (quality 80) and jpeg@1600 (quality 85), public directory `/img/`. This is proved for every host and stem without `"`, `>`, `?`, and with a non-empty stem free of `/` and `$`.

The code behaves as follows in cases a reader of `processHtml` might not expect, and the model does the same:

- The fetch response's status is never inspected. `RunPlan` performs every step on whatever body arrives: a 404 page is written or transcoded like an image. Only an outright network error produces no writes.
- A quality setting is applied only for the formats `webp` and `jpg` (mozjpeg). The format `jpeg` gets no encoder step (`NoEncoder`), so its quality is not used.
- A `<source>` for the `original` format keeps the space that precedes the empty `type` attribute (`… 9999w" >`).
- The interpolation of an absent value renders as `undefined`:
  - a source with no file stem gives `undefined@800.webp`;
  - an empty rendition list gives a fallback `src` of `<publicDir>undefined`;
  - a missing public directory gives `undefined` in front of every path. The image-dir split yields none when `--image-dir` has no comma.
- `$` patterns in a replacement string are interpreted as `String.prototype.replace` does. Lemmas that insert a block verbatim require the block to be free of `$`.
- Quality is not range-checked, and a width or quality of 0 is accepted.
- The source filter is neither anchored nor case-insensitive: a relative `/proxy/http://x/a.jpg` is kept, an absolute `HTTPS://X/A.JPG` is dropped, and any `?`, even in a fragment, drops the tag.

## Model

| member | source | states |
|---|---|---|
| Images.ScanFrom | dist/lib/images.js:72 | every string the global `<img[^>]+>` scan returns is a whole image tag: `<img`, at least one non-`>` character, then `>` |
| Images.ScanFindsEveryMatch | dist/lib/images.js:72 | the scan from an index returns no tag if and only if no `<img[^>]+>` match starts at or after that index |
| Images.ScanImgTags | dist/lib/images.js:72 | every tag the scan of the whole HTML returns is a `<img[^>]+>` match |
| Images.ScanLeftmost | dist/lib/images.js:72 | the scan is leftmost and non-overlapping: its first tag is the match at the least start index, and the remaining tags are the scan from that match's end |
| Images.NoImgNoTags | dist/lib/images.js:72 | HTML in which `<img` never occurs yields no tags |
| Images.ImgTagEnd | dist/lib/images.js:72 | the end of the tag match at a given index is found exactly when a match starts there |
| Images.SrcMatchFrom | dist/lib/images.js:75 | finds the leftmost `src="…"` match with a non-empty, quote-free value, and reports none exactly when no match exists |
| Images.ExtractSrc | dist/lib/images.js:75 | a tag's `src` is empty exactly when the tag has no `src="…"` match; the value holds no `"` |
| Images.Qualifies | dist/lib/images.js:77 | a qualifying `src` is at least as long as `http://` and holds no `?` |
| Images.KeptTags | dist/lib/images.js:73-77 | a tag is kept if and only if it was scanned and its `src` contains `http://` or `https://` and no `?`; all are kept when all qualify, none exactly when none qualifies |
| Images.KeptTagsAppend | dist/lib/images.js:73-77 | the filter distributes over concatenation, so kept tags stay in scan order and a repeated tag is kept as often as it occurs |
| Images.KeptTagsSingle | dist/lib/images.js:73-77 | one tag is kept if and only if its `src` qualifies |
| Images.RewrittenTagsAreQualifying | dist/lib/images.js:72-77 | a tag is among the ones rewritten if and only if the scan found it and its `src` qualifies |
| Images.FindMatches | dist/lib/images.js:72-113 | the matches' tags are the kept tags, in scan order and with their repeats; every match carries its tag's qualifying `src` and the renditions selected for that `src` |
| Images.LastSegment | dist/lib/images.js:94 | `src.split("/").pop()` is the slash-free suffix of `src` that follows its last `/` (or all of `src`) |
| Images.LastSegmentAfterSlash | dist/lib/images.js:94 | the last segment of `dir/name` is `name` whenever `name` has no `/`, whatever `dir` is |
| Images.FileStem | dist/lib/images.js:79 | a stem, when there is one, is non-empty and holds no `/` |
| Images.FileStemIsRegexMatch | dist/lib/images.js:79 | the stem is absent exactly when `([^\/]+)\.\w+$` has no match; otherwise it is the group of the leftmost match, and every match ends at the same dot |
| Images.StemMatchInLastSegment | dist/lib/images.js:79 | every match of the stem pattern lies in the last path segment, and the stem runs from that segment's start to the match's dot |
| Images.IsJpegName | dist/lib/images.js:83 | a JPEG name has at least four characters and ends, ignoring case, in `pg` or `eg` |
| Images.Interp | dist/lib/images.js:95 | a template literal renders a present value as itself and an absent one as `undefined` |
| Images.OutputFile | dist/lib/images.js:89-96 | an `original`, whatever the source, is named after the source's slash-free last segment; any other format gives a name that ends in `.` followed by the format |
| Images.SelectRenditions | dist/lib/images.js:81-96 | a non-JPEG source gets exactly one `original` rendition with width 0 and quality 0, named after its last segment; a JPEG source gets the caller's renditions with the same length, order, formats, widths and qualities; every rendition gets `outputDir = imageDir` and the file name `OutputFile(src, format, width)` |
| Images.OutputFileInjective | dist/lib/images.js:89-96 | for one source, two non-original renditions with the same file name have the same format and width |
| Images.NumberedNameInjective | dist/lib/images.js:95 | `stem@digits.format` determines its digits and its format |
| Images.SrcsetWidth | dist/lib/images.js:120 | the `srcset` width is never 0; it is the rendition's width whenever that is non-zero, and 9999 for width 0 |
| Images.TypeAttr | dist/lib/images.js:121-125 | the `type` attribute is empty if and only if the format is `original` |
| Images.SourceTag | dist/lib/images.js:117-126 | a `<source>` starts with `<source srcset="`, the public directory, the file name and a space, and ends with the `type` attribute and `>` |
| Images.SourceTags | dist/lib/images.js:117-126 | one `<source>` per rendition, the k-th for the k-th rendition |
| Images.PictureBlock | dist/lib/images.js:133-136 | a block starts with `<picture>` and a line break, and ends with a line break and `</picture>` |
| Images.PictureBlockLines | dist/lib/images.js:117-136 | read line by line, a block is: `<picture>`, then one `<source>` per rendition in rendition order (one empty line when there is none), then the fallback `<img>`, then `</picture>` |
| Images.BlockIsJoinOfLines | dist/lib/images.js:133-136 | the block is its lines joined with line breaks |
| Images.BlockLinesHaveNoNewline | dist/lib/images.js:117-136 | no line of the block holds a line break when the tag, the public directory, the file names and the formats hold none |
| Images.ReplaceSrc | dist/lib/images.js:129-132 | a tag without `src="…"` is unchanged; otherwise the text before the first match and after its closing quote is kept |
| Images.FallbackImg | dist/lib/images.js:128-132 | a tag without `src="…"` is its own fallback |
| Images.ReplaceSrcLiteral | dist/lib/images.js:129-132 | with a `$`-free replacement, the text before and after the first `src="…"` is kept and the replacement goes in verbatim |
| Images.FallbackFile | dist/lib/images.js:128-131 | the fallback file is the last rendition's file, and `undefined` when there is no rendition |
| Images.FallbackSrcIsLastRendition | dist/lib/images.js:128-132 | the fallback `<img>`'s `src`, read back the way the scanner reads one, is the public path of the last rendition's file |
| Images.SrcAfterReplace | dist/lib/images.js:129-132 | after putting `src="v"` in place of the first `src="…"`, the tag's `src` reads back as `v` |
| Images.SrcRewriteKeepsLeftmost | dist/lib/images.js:129-132 | the new `src="v"` is again the leftmost `src` match, at the same index |
| Images.RewriteStep | dist/lib/images.js:137 | a tag that does not occur leaves the HTML unchanged; otherwise the HTML before its first occurrence is kept |
| Images.RewriteStepOnlyReplacesFirst | dist/lib/images.js:137 | one step replaces the first occurrence of the tag's exact text with the block, and keeps the text before and after it; a tag that no longer occurs leaves the HTML unchanged |
| Images.RewrittenAppend | dist/lib/images.js:115-138 | the fold `Rewritten` of the `forEach` composes: rewriting with `a + b` is rewriting with `a`, then with `b` |
| Images.RewriteHtml | dist/lib/images.js:115-138 | the loop leaves `newHtml` equal to the kept tags replaced one after another in scan order |
| Images.UnqualifiedHtmlUnchanged | dist/lib/images.js:72-77 | when no scanned tag qualifies, nothing is matched and the HTML comes back exactly as it went in |
| Images.HtmlWithoutImagesUnchanged | dist/lib/images.js:72-142 | HTML without any `<img` comes back exactly as it went in |
| Images.EncoderFor | dist/lib/images.js:16-30 | `webp` gets a webp encoder and `jpg` a mozjpeg encoder, each with the given quality or 80 when none is given; every other format gets no encoder |
| Images.PlanStep | dist/lib/images.js:45-58 | a step writes to `join(outputDir, outputFile)`; it is a verbatim write if and only if the format is `original`, and otherwise resizes to the rendition's width with that format's encoder |
| Images.PlanImage | dist/lib/images.js:44-60 | one fetch of the URL, then one step per rendition in order; each step writes to `join(outputDir, outputFile)`; it writes the bytes verbatim exactly when the format is `original`, and otherwise resizes to the rendition's width with that format's encoder |
| Images.RunPlan | dist/lib/images.js:40-60 | a network error performs nothing; any response, whatever its status, performs one effect per step at that step's path, every effect reads the one fetched body, and a resize step transcodes to that step's width with that step's encoder |
| Images.PlansFor | dist/lib/images.js:98 | one plan per kept image, the k-th for the k-th match's URL and renditions |
| Images.ProcessHtml | dist/lib/images.js:71-143 | the new HTML is the kept tags rewritten in scan order with the public directory (`undefined` when absent), and it is a function of the inputs alone; the plans are one per kept image |
| JsStrings.IndexOfChar | dist/cli/index.js:45 | the result is the first occurrence of the character at or after `from`, and there is none exactly when the character does not occur there |
| JsStrings.LastIndexOfChar | dist/lib/images.js:79 | the result is the last occurrence of the character, and there is none exactly when the character does not occur |
| JsStrings.Find | dist/lib/images.js:137 | the result is the first occurrence of the substring at or after `from`, and there is none exactly when it does not occur there |
| JsStrings.Contains | dist/lib/images.js:77 | `includes` holds exactly when the substring occurs somewhere |
| JsStrings.Split | dist/cli/index.js:45 | `split` never returns an empty list, and no piece holds the separator |
| JsStrings.Join | dist/lib/images.js:134 | the join of no pieces is empty; a join starts with its first piece, and every character in it is the separator or comes from a piece |
| JsStrings.JoinSplit | dist/cli/index.js:45 | joining the pieces of a split gives back the string |
| JsStrings.SplitJoin | dist/lib/images.js:134 | splitting the join of separator-free pieces gives back the pieces |
| JsStrings.SplitConcat | dist/cli/index.js:45 | splitting at a separator splits the two sides independently |
| JsStrings.SplitAtFirst | dist/cli/index.js:48 | a separator-free first field splits off on its own |
| JsStrings.FirstPieceIsPrefix | dist/cli/index.js:48 | the first piece is the prefix before the first separator |
| JsStrings.LastPieceIsSuffix | dist/lib/images.js:94 | the last piece is the suffix after the last separator |
| JsStrings.NatToString | dist/lib/images.js:95 | a width renders as a non-empty string of decimal digits, one digit exactly below 10, with no leading `0` except for 0 itself |
| JsStrings.DigitsOfNat | dist/cli/index.js:50 | reading a rendered number back gives the number |
| JsStrings.NatToStringInjective | dist/lib/images.js:95 | distinct widths render differently |
| JsStrings.Substitute | dist/lib/images.js:137 | the text of a replacement template up to its first `$` is inserted as it is |
| JsStrings.ReplaceFirst | dist/lib/images.js:137 | a string without the needle is unchanged; otherwise the text before its first occurrence and after that occurrence is kept |
| JsStrings.SubstituteLiteral | dist/lib/images.js:137 | a replacement without `$` is inserted verbatim |
| JsStrings.SubstituteAvoids | dist/lib/images.js:129-132 | a character in none of the replacement, the match, or the text around it is not in the inserted text |
| JsStrings.ReplaceFirstLiteral | dist/lib/images.js:137 | with a `$`-free replacement, the first occurrence is replaced verbatim and the rest of the string is kept |
| Cli.NumberOf | dist/cli/index.js:50 | `Number("")` is 0, and a field reads as a natural number exactly when it is all decimal digits |
| Cli.NumberOfNumeral | dist/cli/index.js:50 | a number written in decimal reads back as itself |
| Cli.ParseRendition | dist/cli/index.js:48-50 | the format is the text before the first `@`, and the quality is always present; a token parses if and only if its second and third fields, where present, are all digits; a failure reports the token itself |
| Cli.ThreeNumeralFields | dist/cli/index.js:48-50 | `format@width@quality` with numeral fields gives that format, the width's value and the quality's value |
| Cli.TwoNumeralFields | dist/cli/index.js:48-50 | `format@width` with a numeral width gives that format and width, and quality 80 |
| Cli.EmptyQualityIsZero | dist/cli/index.js:48-50 | an empty quality field, as in `webp@800@`, gives quality 0, not the default 80 |
| Cli.BareFormat | dist/cli/index.js:48-50 | a token without `@`, such as `original`, gives width 0 and quality 80 |
| Cli.FormatAndWidth | dist/cli/index.js:48-50 | `format@width` keeps the width and defaults the quality to 80 |
| Cli.ExtraFieldsIgnored | dist/cli/index.js:48 | fields after the third change neither whether the token parses nor the rendition it gives |
| Cli.SplitThreeFields | dist/cli/index.js:48 | `format@width@quality` with `@`-free fields destructures into exactly those three fields |
| Cli.FormatRendition | dist/cli/index.js:48-50 | a written-out rendition is a non-empty token, free of commas when its format is |
| Cli.RenditionRoundTrip | dist/cli/index.js:48-50 | parsing a written-out format, width and quality gives them back |
| Cli.Tokens | dist/cli/index.js:44-46 | every token is non-empty and free of commas; an absent option gives none |
| Cli.ParseRenditions | dist/cli/index.js:44-51 | the option parses if and only if every token does, and then gives one rendition per token in token order; otherwise one of the tokens is reported |
| Cli.NonEmpty | dist/cli/index.js:46 | `filter(Boolean)` keeps exactly the non-empty tokens |
| Cli.NonEmptyAppend | dist/cli/index.js:46 | the filter distributes over concatenation, so token order is preserved |
| Cli.ParseAll | dist/cli/index.js:47-51 | the list parses exactly when every token does; then there is one rendition per token, in token order; otherwise the reported token is one of them |
| Cli.AbsentOrEmptyRenditions | dist/cli/index.js:44-46 | an absent or empty `--renditions` gives no renditions |
| Cli.EmptyTokenDropped | dist/cli/index.js:44-46 | an empty token between two commas is dropped |
| Cli.TrailingCommaDropped | dist/cli/index.js:44-46 | a trailing comma is dropped |
| Cli.RenditionsRoundTrip | dist/cli/index.js:44-51 | renditions written out and joined with commas parse back to the same list, in order |
| Cli.WrittenRenditions | dist/cli/index.js:44-51 | one non-empty token per rendition, comma-free when the formats are |
| Cli.NonEmptyKeepsAllNonEmpty | dist/cli/index.js:46 | a list of non-empty tokens passes the filter unchanged |
| Cli.ImageDirs | dist/cli/index.js:38 | an absent option gives the output directory "" and no public directory; neither part holds a comma |
| Cli.ImageDirsPair | dist/cli/index.js:38 | `out,pub` and `out,pub,…` give the pair (out, pub); further parts are ignored |
| Cli.ImageDirsSingle | dist/cli/index.js:38 | a comma-free value is the output directory, and the public directory is undefined |
| Scenario.LoneTagScansToItself | dist/lib/images.js:72 | HTML that is one whole image tag scans to that tag alone |
| Scenario.SrcOfPlainTag | dist/lib/images.js:75 | the `src` of `<img src="URL">` is URL when URL has no `"` |
| Scenario.ReplaceSrcOfPlainTag | dist/lib/images.js:129-132 | replacing the `src` of `<img src="URL">` gives `<img ` + replacement + `>` |
| Scenario.EmbeddedSchemeQualifies | dist/lib/images.js:77 | the test is unanchored: `http://` anywhere in a `?`-free `src`, even after a relative prefix, qualifies it |
| Scenario.UpperCaseSchemeDropped | dist/lib/images.js:77 | the test is case-sensitive: a `src` starting with `HTTPS://` and holding no lower-case `h` does not qualify |
| Scenario.SecureUrlQualifies | dist/lib/images.js:77 | an `https://` URL without `?` qualifies |
| Scenario.JpgNameIsJpeg | dist/lib/images.js:83 | a name ending in `.jpg` is a JPEG name |
| Scenario.FileStemOf | dist/lib/images.js:79 | the stem of `dir/stem.ext` is `stem` for a slash-free stem and a word extension |
| Scenario.ExampleKept | dist/lib/images.js:72-77 | the example post scans to its one tag, and the filter keeps it |
| Scenario.ExampleFileNames | dist/lib/images.js:89-96 | the example's renditions are named `STEM@800.webp` and `STEM@1600.jpeg` |
| Scenario.ExampleRenditions | dist/lib/images.js:81-96 | the JPEG example takes both renditions, in order, named after its stem |
| Scenario.ExampleMatches | dist/lib/images.js:72-113 | the example has exactly one match: its tag, its URL and both renditions |
| Scenario.ExampleSources | dist/lib/images.js:117-126 | the sources are `srcset="/img/STEM@800.webp 800w" type="image/webp"` and `srcset="/img/STEM@1600.jpeg 1600w" type="image/jpeg"`, in that order |
| Scenario.ExampleFallback | dist/lib/images.js:128-132 | the fallback is `<img src="/img/STEM@1600.jpeg">` |
| Scenario.ExampleBlock | dist/lib/images.js:117-136 | the example's block is the expected two-source `<picture>` |
| Scenario.WholePostRewritten | dist/lib/images.js:116-137 | a post that is exactly one kept tag becomes that tag's block |
| Scenario.ExampleRewrite | dist/lib/images.js:71-142 | the whole example post becomes `<picture>`, the webp source, the jpeg source, the fallback and `</picture>`, one per line |
| Scenario.ExamplePlans | dist/lib/images.js:16-60 | the example fetches its URL once; the webp rendition is resized to 800 with webp quality 80, and the `jpeg` rendition is resized to 1600 with no encoder |

## Left out

- Fetching, decoding, resizing and writing images (`fetch`, `response.buffer()`, `sharp`, `fs.writeFileSync`, dist/lib/images.js:1-61) are network, native-library and disk I/O. They appear only as the opaque steps and effects of the write plan. `path.join` is the abstract `PathJoin`.
- Promise concurrency is not modelled: the `Promise.all` calls, the `.catch((e) => false)` and the final await (dist/lib/images.js:44, 98-100, 140). Only its consequence is kept: the HTML is computed from the inputs alone.
- The check `if (!imagePromise)` (dist/lib/images.js:102-104) is left out. A promise is always truthy, so the branch is dead.
- A failure part-way through a plan (one rendition written, the next failing) is not modelled. `RunPlan` describes the effects a plan attempts.
- Images.IsJpegName: case folding covers ASCII letters only. It is exact for `.jpg`/`.jpeg`, whose regular expression involves no other letters.
- Cli.NumberOf: only the empty string and decimal digit strings are modelled. Other forms `Number()` accepts are not (signs, spaces, decimals, exponents, hexadecimal).
- Widths and qualities are unbounded naturals, whereas JavaScript numbers are doubles. The model does not round a numeral above 2^53 (`Number("9007199254740993")` is 9007199254740992), and `NatToString` does not switch to exponent notation from 10^21 on (the program would name a file `…@1e+21.webp`).
- Cli.ParseRendition: a width or quality that `Number()` would turn into `NaN` makes the model report the token (`Failure`), where the program would carry `NaN` on.
- Cli.ExtraFieldsIgnored: states only that the parse result and the rendition agree. On a failure the reported token is the whole token, so it differs when extra fields are present.
- The option handling of dist/cli/index.js:1-36 (commander, `--help`, `--input`, `--output`, `--force-permalinks`) and the call at lines 40-54 are argument plumbing. cli/index.ts is its TypeScript source. Neither is part of this model.
- dist/lib/index.js and index.js are not part of this model. They hold the paginator, the taxonomy cache, dates, front matter, HTML-to-Markdown, and the creation of the image directory before writing.
- Strings are sequences of Unicode scalar values, whereas JavaScript strings and regular expressions work on UTF-16 code units. The results agree on every well-formed string, since every delimiter is ASCII and `\w` and `/i` involve only ASCII; a string with a lone surrogate cannot be represented.
- Regular-expression matching is modelled only for the three patterns the core uses, each as a match predicate. A general regular-expression engine is not modelled.
