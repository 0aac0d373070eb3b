/**
 * The JavaScript string built-ins the image pipeline and the command line rely on:
 * the first / last index of a character, the first occurrence of a substring,
 * `split` and `join` on a one-character separator, and decimal numerals, each with
 * a reference characterisation; and `String.prototype.replace` with a string
 * replacement, whose `$` patterns are defined by `Substitute` and characterised
 * for `$`-free templates.
 */
module JsStrings {
  import opened Base

  /** `s` holds `p` starting at index `i`. */
  predicate OccursAt(s: string, p: string, i: nat) {
    i + |p| <= |s| && s[i..i + |p|] == p
  }

  /** Index of the first `c` at or after `from` (`s.indexOf(c, from)`). */
  function IndexOfChar(s: string, c: char, from: nat): (r: Option<nat>)
    requires from <= |s|
    ensures r.Some? ==> from <= r.value < |s| && s[r.value] == c && c !in s[from..r.value]
    ensures r.None? ==> c !in s[from..]
    decreases |s| - from
  {
    if from == |s| then None
    else if s[from] == c then Some(from)
    else
      var r := IndexOfChar(s, c, from + 1);
      assert s[from..] == [s[from]] + s[from + 1..];
      assert r.Some? ==> s[from..r.value] == [s[from]] + s[from + 1..r.value];
      r
  }

  /** The first `c` at or after `from` is the one at `k` when none comes between. */
  lemma {:induction false} IndexOfCharAt(s: string, c: char, from: nat, k: nat)
    requires from <= k < |s| && s[k] == c && c !in s[from..k]
    ensures IndexOfChar(s, c, from) == Some(k)
    decreases k - from
  {
    if from < k {
      assert s[from] == s[from..k][0];
      assert s[from + 1..k] == s[from..k][1..];
      IndexOfCharAt(s, c, from + 1, k);
    }
  }

  /** Index of the last `c` in `s` (`s.lastIndexOf(c)`). */
  function LastIndexOfChar(s: string, c: char): (r: Option<nat>)
    ensures r.Some? ==> r.value < |s| && s[r.value] == c && c !in s[r.value + 1..]
    ensures r.None? ==> c !in s
  {
    if s == [] then None
    else if s[|s| - 1] == c then Some(|s| - 1)
    else
      var r := LastIndexOfChar(s[..|s| - 1], c);
      assert s == s[..|s| - 1] + [s[|s| - 1]];
      assert r.Some? ==> s[r.value + 1..] == s[..|s| - 1][r.value + 1..] + [s[|s| - 1]];
      r
  }

  /** `lastIndexOf` is `k` when `s[k]` is `c` and no `c` follows it. */
  lemma LastIndexOfCharAt(s: string, c: char, k: nat)
    requires k < |s| && s[k] == c && c !in s[k + 1..]
    ensures LastIndexOfChar(s, c) == Some(k)
  {
    var r := LastIndexOfChar(s, c);
    assert r.Some?;
    forall j | k < j < |s| ensures s[j] != c {
      assert s[j] == s[k + 1..][j - k - 1];
    }
  }

  /** Index of the first occurrence of `p` at or after `from` (`s.indexOf(p, from)`). */
  function Find(s: string, p: string, from: nat): (r: Option<nat>)
    requires from <= |s|
    ensures r.Some? ==> from <= r.value && OccursAt(s, p, r.value)
    ensures r.Some? ==> forall j :: from <= j < r.value ==> !OccursAt(s, p, j)
    ensures r.None? ==> forall j :: from <= j ==> !OccursAt(s, p, j)
    decreases |s| - from
  {
    if OccursAt(s, p, from) then Some(from)
    else if from == |s| then None
    else Find(s, p, from + 1)
  }

  /** `s.includes(p)`. */
  function Contains(s: string, p: string): (b: bool)
    ensures b <==> exists i :: OccursAt(s, p, i)
  {
    Find(s, p, 0).Some?
  }

  /** ASCII lower-casing: the only folding a `/…/i` regular expression over ASCII letters does. */
  function Lower(c: char): char {
    if 'A' <= c <= 'Z' then (c as int - 'A' as int + 'a' as int) as char else c
  }

  /** `s` ends with `suffix`, ignoring the case of ASCII letters; `suffix` is lower-case. */
  predicate EndsWithIgnoringCase(s: string, suffix: string) {
    |suffix| <= |s| &&
    forall i :: 0 <= i < |suffix| ==> Lower(s[|s| - |suffix| + i]) == suffix[i]
  }

  /** `s.split(sep)` for a one-character separator: never empty, pieces hold no separator. */
  function Split(s: string, sep: char): (parts: seq<string>)
    ensures |parts| >= 1
    ensures forall i :: 0 <= i < |parts| ==> sep !in parts[i]
    decreases |s|
  {
    match IndexOfChar(s, sep, 0)
    case None =>
      assert s[0..] == s;
      [s]
    case Some(k) =>
      assert s[0..k] == s[..k];
      [s[..k]] + Split(s[k + 1..], sep)
  }

  /** `parts.join(sep)`. */
  function Join(parts: seq<string>, sep: char): (r: string)
    ensures |parts| == 0 ==> r == ""
    ensures |parts| > 0 ==> |parts[0]| <= |r| && r[..|parts[0]|] == parts[0]
    ensures forall c :: c in r ==> c == sep || exists k :: 0 <= k < |parts| && c in parts[k]
  {
    if |parts| == 0 then ""
    else if |parts| == 1 then parts[0]
    else parts[0] + [sep] + Join(parts[1..], sep)
  }

  lemma {:induction false} JoinSplit(s: string, sep: char)
    ensures Join(Split(s, sep), sep) == s
    decreases |s|
  {
    match IndexOfChar(s, sep, 0)
    case None =>
    case Some(k) =>
      var rest := Split(s[k + 1..], sep);
      JoinSplit(s[k + 1..], sep);
      JoinCons(s[..k], rest, sep);
      assert s == s[..k] + [sep] + s[k + 1..];
  }

  lemma JoinCons(first: string, rest: seq<string>, sep: char)
    requires |rest| >= 1
    ensures Join([first] + rest, sep) == first + [sep] + Join(rest, sep)
  {
    assert ([first] + rest)[1..] == rest;
  }

  lemma {:induction false} SplitJoin(parts: seq<string>, sep: char)
    requires |parts| >= 1
    requires forall i :: 0 <= i < |parts| ==> sep !in parts[i]
    ensures Split(Join(parts, sep), sep) == parts
  {
    if |parts| > 1 {
      var rest := Join(parts[1..], sep);
      var s := parts[0] + [sep] + rest;
      var k := |parts[0]|;
      assert s[..k] == parts[0];
      assert s[k + 1..] == rest;
      assert s[0..k] == parts[0];
      IndexOfCharAt(s, sep, 0, k);
      SplitJoin(parts[1..], sep);
    } else {
      assert Join(parts, sep) == parts[0];
      assert IndexOfChar(parts[0], sep, 0).None? by {
        assert parts[0][0..] == parts[0];
      }
    }
  }

  lemma {:induction false} JoinAppend(a: seq<string>, b: seq<string>, sep: char)
    requires |a| >= 1 && |b| >= 1
    ensures Join(a + b, sep) == Join(a, sep) + [sep] + Join(b, sep)
  {
    if |a| > 1 {
      assert (a + b)[1..] == a[1..] + b;
      JoinAppend(a[1..], b, sep);
    } else {
      assert (a + b)[1..] == b;
    }
  }

  /** Splitting at a separator splits the two sides independently. */
  lemma SplitConcat(a: string, b: string, sep: char)
    ensures Split(a + [sep] + b, sep) == Split(a, sep) + Split(b, sep)
  {
    var pa, pb := Split(a, sep), Split(b, sep);
    JoinSplit(a, sep);
    JoinSplit(b, sep);
    JoinAppend(pa, pb, sep);
    assert Join(pa + pb, sep) == a + [sep] + b;
    PiecesWithoutSeparator(pa, pb, sep);
    SplitJoin(pa + pb, sep);
  }

  lemma PiecesWithoutSeparator(pa: seq<string>, pb: seq<string>, sep: char)
    requires forall i :: 0 <= i < |pa| ==> sep !in pa[i]
    requires forall i :: 0 <= i < |pb| ==> sep !in pb[i]
    ensures forall i :: 0 <= i < |pa + pb| ==> sep !in (pa + pb)[i]
  {
    forall i | |pa| <= i < |pa + pb| ensures (pa + pb)[i] == pb[i - |pa|] {
    }
  }

  /** The first occurrence of `c` is at `k` when `s[k]` is `c` and nothing before it is. */
  lemma FirstIndexOfChar(s: string, c: char, k: nat)
    requires k < |s| && s[k] == c && c !in s[..k]
    ensures IndexOfChar(s, c, 0) == Some(k)
  {
    assert s[0..][k] == c;
    forall j | 0 <= j < k ensures s[j] != c {
      assert s[j] == s[..k][j];
    }
    forall j | k < j <= |s| ensures c in s[0..j] {
      assert s[0..j][k] == c;
    }
  }

  /** A first piece without the separator splits off on its own. */
  lemma SplitAtFirst(a: string, b: string, sep: char)
    requires sep !in a
    ensures Split(a + [sep] + b, sep) == [a] + Split(b, sep)
  {
    var s := a + [sep] + b;
    assert s[..|a|] == a;
    FirstIndexOfChar(s, sep, |a|);
    assert s[|a| + 1..] == b;
  }

  /** A string without the separator splits into itself alone. */
  lemma SplitWithoutSeparator(s: string, sep: char)
    requires sep !in s
    ensures Split(s, sep) == [s]
  {
    assert s[0..] == s;
  }

  /** The first piece of `s.split(sep)` is the prefix before the first separator. */
  lemma FirstPieceIsPrefix(s: string, sep: char)
    ensures var first := Split(s, sep)[0];
      |first| <= |s| && s[..|first|] == first && (|first| < |s| ==> s[|first|] == sep)
  {
    assert s[0..] == s;
  }

  /** The last piece of `s.split(sep)`. */
  function LastPiece(s: string, sep: char): string {
    var parts := Split(s, sep);
    parts[|parts| - 1]
  }

  /** The last piece of `s.split(sep)` is the suffix after the last separator. */
  lemma {:induction false} LastPieceIsSuffix(s: string, sep: char)
    ensures |LastPiece(s, sep)| <= |s|
    ensures s[|s| - |LastPiece(s, sep)|..] == LastPiece(s, sep)
    ensures |LastPiece(s, sep)| < |s| ==> s[|s| - |LastPiece(s, sep)| - 1] == sep
    decreases |s|
  {
    match IndexOfChar(s, sep, 0)
    case None =>
    case Some(k) =>
      LastPieceIsSuffix(s[k + 1..], sep);
      SplitLastPieceOfTail(s, sep, k);
      SeparatedSuffixStep(s, sep, k, LastPiece(s[k + 1..], sep));
  }

  /** A separated suffix of `s[k + 1..]` is a separated suffix of `s` when `s[k]` is the separator. */
  lemma SeparatedSuffixStep(s: string, sep: char, k: nat, u: string)
    requires k < |s| && s[k] == sep
    requires |u| <= |s| - k - 1 && s[k + 1..][|s| - k - 1 - |u|..] == u
    requires |u| < |s| - k - 1 ==> s[k + 1..][|s| - k - 1 - |u| - 1] == sep
    ensures |u| <= |s| && s[|s| - |u|..] == u
    ensures |u| < |s| ==> s[|s| - |u| - 1] == sep
  {
    SuffixOfSuffix(s, k + 1, u);
    SeparatorBeforeSuffix(s, k, u);
  }

  /** Past the first separator, the last piece is that of the tail. */
  lemma SplitLastPieceOfTail(s: string, sep: char, k: nat)
    requires IndexOfChar(s, sep, 0) == Some(k)
    ensures k < |s| && s[k] == sep
    ensures LastPiece(s, sep) == LastPiece(s[k + 1..], sep)
  {
    var tail := Split(s[k + 1..], sep);
    var parts := Split(s, sep);
    assert parts == [s[..k]] + tail;
    assert parts[|parts| - 1] == tail[|tail| - 1];
  }

  /** The character before a suffix of `s[k + 1..]` is `s[k]` or lies in that tail. */
  lemma SeparatorBeforeSuffix(s: string, k: nat, u: string)
    requires k < |s| && |u| <= |s| - k - 1
    ensures |u| == |s| - k - 1 ==> s[|s| - |u| - 1] == s[k]
    ensures |u| < |s| - k - 1 ==> s[|s| - |u| - 1] == s[k + 1..][|s| - k - 1 - |u| - 1]
  {
  }

  /** A suffix of `s[from..]` is a suffix of `s`. */
  lemma SuffixOfSuffix(s: string, from: nat, u: string)
    requires from <= |s| && |u| <= |s| - from && s[from..][|s| - from - |u|..] == u
    ensures s[|s| - |u|..] == u
  {
    assert s[from..][|s| - from - |u|..] == s[|s| - |u|..];
  }

  predicate IsDigit(c: char) {
    '0' <= c <= '9'
  }

  predicate AllDigits(s: string) {
    forall i :: 0 <= i < |s| ==> IsDigit(s[i])
  }

  function DigitChar(d: nat): (c: char)
    requires d < 10
    ensures IsDigit(c)
  {
    ('0' as int + d) as char
  }

  function DigitValue(c: char): (d: nat)
    requires IsDigit(c)
    ensures d < 10 && DigitChar(d) == c
  {
    c as int - '0' as int
  }

  /** The decimal numeral of `n`, as a template literal renders a non-negative integer. */
  function NatToString(n: nat): (s: string)
    ensures |s| >= 1 && AllDigits(s)
    ensures (|s| == 1) == (n < 10)
    ensures (s[0] == '0') == (n == 0)
    decreases n
  {
    if n < 10 then [DigitChar(n)]
    else
      var high := NatToString(n / 10);
      assert (high + [DigitChar(n % 10)])[0] == high[0];
      high + [DigitChar(n % 10)]
  }

  /** The value of a string of decimal digits (leading zeros allowed, the empty string is 0). */
  function DigitsValue(s: string): nat
    requires AllDigits(s)
  {
    if s == [] then 0 else DigitsValue(s[..|s| - 1]) * 10 + DigitValue(s[|s| - 1])
  }

  lemma {:induction false} DigitsOfNat(n: nat)
    ensures DigitsValue(NatToString(n)) == n
    decreases n
  {
    var s := NatToString(n);
    if n >= 10 {
      DigitsOfNat(n / 10);
      assert s[..|s| - 1] == NatToString(n / 10);
    } else {
      assert s[..0] == [];
    }
  }

  lemma NatToStringInjective(m: nat, n: nat)
    requires NatToString(m) == NatToString(n)
    ensures m == n
  {
    DigitsOfNat(m);
    DigitsOfNat(n);
  }

  /**
   * The replacement text `String.prototype.replace` inserts for template `r`
   * (GetSubstitution with no capture groups): `$$` gives `$`, `$&` the matched
   * text, `` $` `` the text before the match, `$'` the text after it; every other
   * `$` is literal.
   */
  function Substitute(r: string, matched: string, before: string, after: string): (s: string)
    ensures forall k :: 0 <= k <= |r| && '$' !in r[..k] ==> k <= |s| && s[..k] == r[..k]
    decreases |r|
  {
    if r == [] then ""
    else if r[0] == '$' then
      assert forall k :: 1 <= k <= |r| ==> r[..k][0] == '$';
      DollarCases(r, matched, before, after)
    else
      var rest := Substitute(r[1..], matched, before, after);
      LiteralPrefixStep(r, rest);
      [r[0]] + rest
  }

  /** The cases of `Substitute` for a template that starts with `$`. */
  function DollarCases(r: string, matched: string, before: string, after: string): string
    requires r != [] && r[0] == '$'
    decreases |r|, 0
  {
    if |r| >= 2 && r[1] == '$' then "$" + Substitute(r[2..], matched, before, after)
    else if |r| >= 2 && r[1] == '&' then matched + Substitute(r[2..], matched, before, after)
    else if |r| >= 2 && r[1] == '`' then before + Substitute(r[2..], matched, before, after)
    else if |r| >= 2 && r[1] == '\'' then after + Substitute(r[2..], matched, before, after)
    else "$" + Substitute(r[1..], matched, before, after)
  }

  lemma LiteralPrefixStep(r: string, rest: string)
    requires r != [] && r[0] != '$'
    requires forall k :: 0 <= k <= |r[1..]| && '$' !in r[1..][..k] ==> k <= |rest| && rest[..k] == r[1..][..k]
    ensures forall k :: 0 <= k <= |r| && '$' !in r[..k] ==> k <= |[r[0]] + rest| && ([r[0]] + rest)[..k] == r[..k]
  {
    forall k | 0 <= k <= |r| && '$' !in r[..k] ensures k <= |[r[0]] + rest| && ([r[0]] + rest)[..k] == r[..k] {
      if k > 0 {
        assert r[..k] == [r[0]] + r[1..][..k - 1];
        assert '$' !in r[1..][..k - 1];
        assert ([r[0]] + rest)[..k] == [r[0]] + rest[..k - 1];
      }
    }
  }

  lemma {:induction false} SubstituteLiteral(r: string, matched: string, before: string, after: string)
    requires '$' !in r
    ensures Substitute(r, matched, before, after) == r
    decreases |r|
  {
    if r != [] {
      assert r[0] != '$';
      assert r == [r[0]] + r[1..];
      SubstituteLiteral(r[1..], matched, before, after);
    }
  }

  /** A character none of the inputs holds is not in the substituted text. */
  lemma {:induction false} SubstituteAvoids(r: string, matched: string, before: string, after: string, c: char)
    requires c !in r && c !in matched && c !in before && c !in after
    ensures c !in Substitute(r, matched, before, after)
    decreases |r|
  {
    if r == [] {
    } else if r[0] == '$' && |r| >= 2 && r[1] in "$&`'" {
      assert r[2..] == r[1..][1..];
      SubstituteAvoids(r[2..], matched, before, after, c);
    } else {
      SubstituteAvoids(r[1..], matched, before, after, c);
    }
  }

  /** `s.replace(needle, r)` with a string pattern: only the first occurrence is replaced. */
  function ReplaceFirst(s: string, needle: string, r: string): (t: string)
    ensures Find(s, needle, 0).None? ==> t == s
    ensures Find(s, needle, 0).Some? ==>
      var i := Find(s, needle, 0).value;
      i + |s| - (i + |needle|) <= |t| && t[..i] == s[..i] && t[|t| - (|s| - (i + |needle|))..] == s[i + |needle|..]
  {
    match Find(s, needle, 0)
    case None => s
    case Some(i) =>
      var sub := Substitute(r, needle, s[..i], s[i + |needle|..]);
      KeepsEnds(s[..i], sub, s[i + |needle|..]);
      s[..i] + sub + s[i + |needle|..]
  }

  /** Putting text between a prefix and a suffix keeps both. */
  lemma KeepsEnds(a: string, m: string, b: string)
    ensures (a + m + b)[..|a|] == a && (a + m + b)[|a + m + b| - |b|..] == b
  {
  }

  /** A concatenation starts with its first part and ends with its last two. */
  lemma FramedBy(a: string, b: string, c: string, d: string, e: string)
    ensures var s := a + b + c + d + e; |a| + |d| + |e| <= |s| && s[..|a|] == a && s[|s| - |d| - |e|..] == d + e
  {
    var s := a + b + c + d + e;
    assert s == a + (b + c) + (d + e);
    KeepsEnds(a, b + c, d + e);
  }

  /** A concatenation of seven starts with its first two parts and ends with its last two. */
  lemma FramedBySeven(a: string, b: string, c: string, d: string, e: string, f: string, g: string)
    ensures var s := a + b + c + d + e + f + g;
      |a + b| + |f + g| <= |s| && s[..|a + b|] == a + b && s[|s| - |f + g|..] == f + g
  {
    var s := a + b + c + d + e + f + g;
    assert s == (a + b) + (c + d + e) + (f + g);
    KeepsEnds(a + b, c + d + e, f + g);
  }

  /** With a `$`-free replacement, the first occurrence is replaced verbatim. */
  lemma ReplaceFirstLiteral(s: string, needle: string, r: string)
    requires '$' !in r
    ensures Find(s, needle, 0).Some? ==>
      var i := Find(s, needle, 0).value;
      ReplaceFirst(s, needle, r) == s[..i] + r + s[i + |needle|..]
  {
    match Find(s, needle, 0)
    case None =>
    case Some(i) =>
      SubstituteLiteral(r, needle, s[..i], s[i + |needle|..]);
  }
}
