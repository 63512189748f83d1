/**
 How an uploaded image is named on disk. Every stored image path is
 `"products/" + time + "_" + random + "." + extension`, where `time` is the
 decimal value of `time()` and `random` the eight characters of
 `Str::random(8)`. Both are supplied by the caller (they are the two
 nondeterministic inputs of the controller). `ParseStoredPath` is the inverse
 of `StoredPath`; the lemmas show that it recovers exactly what was used.
 */
module ImagePaths {

  datatype Option<T> = None | Some(value: T)

  /** The characters `Str::random` draws from: ASCII letters and digits. */
  predicate IsAlphaNum(c: char) {
    'a' <= c <= 'z' || 'A' <= c <= 'Z' || '0' <= c <= '9'
  }

  predicate IsDigit(c: char) {
    '0' <= c <= '9'
  }

  predicate AllAlphaNum(s: string) {
    forall i :: 0 <= i < |s| ==> IsAlphaNum(s[i])
  }

  predicate AllDigits(s: string) {
    forall i :: 0 <= i < |s| ==> IsDigit(s[i])
  }

  /** A value of `Str::random(8)`. */
  type Suffix = s: string | |s| == 8 && AllAlphaNum(s) witness "AAAAAAAA"

  /** What the environment supplies for one uploaded file: the seconds that
      `time()` returned and the suffix that `Str::random(8)` returned. */
  datatype Draw = Draw(time: nat, random: Suffix)

  /** The sub-directory of the public root that holds the images. */
  const Directory: string := "products/"

  function DigitChar(d: nat): (c: char)
    requires d < 10
    ensures IsDigit(c) && c as int - '0' as int == d
  {
    ('0' as int + d) as char
  }

  function DigitValue(c: char): nat
    requires IsDigit(c)
  {
    c as int - '0' as int
  }

  /** PHP's conversion of a non-negative integer to a string. */
  function Decimal(n: nat): (s: string)
    ensures |s| >= 1 && AllDigits(s)
    ensures s[0] != '0' || s == "0"
    decreases n
  {
    if n < 10 then [DigitChar(n)] else Decimal(n / 10) + [DigitChar(n % 10)]
  }

  /** The number a string of decimal digits denotes. */
  function DigitsValue(s: string): nat
    requires AllDigits(s)
    decreases |s|
  {
    if s == [] then 0 else DigitsValue(s[..|s| - 1]) * 10 + DigitValue(s[|s| - 1])
  }

  /** The name given to an upload with the given draw and extension. */
  function FileName(d: Draw, extension: string): string {
    Decimal(d.time) + "_" + d.random + "." + extension
  }

  /** The path recorded in the image row, relative to the public root. */
  function StoredPath(d: Draw, extension: string): string {
    Directory + FileName(d, extension)
  }

  /** The position of the first `c` in `s`, or `|s|` when there is none. */
  function IndexOf(s: string, c: char): (i: nat)
    ensures i <= |s|
    ensures forall j :: 0 <= j < i ==> s[j] != c
    ensures i < |s| ==> s[i] == c
    decreases |s|
  {
    if s == [] then 0 else if s[0] == c then 0 else 1 + IndexOf(s[1..], c)
  }

  /** A digit string as `Decimal` writes it: no leading zero. */
  predicate Canonical(s: string) {
    |s| >= 1 && AllDigits(s) && (s[0] != '0' || |s| == 1)
  }

  /** Splits a stored path back into its draw and its extension. */
  function ParseStoredPath(p: string): Option<(Draw, string)> {
    if |p| < |Directory| || p[..|Directory|] != Directory then None
    else
      var name := p[|Directory|..];
      var i := IndexOf(name, '_');
      if i == |name| || !Canonical(name[..i]) then None
      else
        var rest := name[i + 1..];
        if |rest| < 9 || rest[8] != '.' || !AllAlphaNum(rest[..8]) then None
        else Some((Draw(DigitsValue(name[..i]), rest[..8]), rest[9..]))
  }

  lemma {:induction false} DigitsValueOfDecimal(n: nat)
    ensures DigitsValue(Decimal(n)) == n
    decreases n
  {
    var s := Decimal(n);
    if n >= 10 {
      DigitsValueOfDecimal(n / 10);
      assert s[..|s| - 1] == Decimal(n / 10);
    }
  }

  lemma {:induction false} DigitsValuePositive(s: string)
    requires AllDigits(s) && |s| >= 1 && s[0] != '0'
    ensures DigitsValue(s) >= 1
    decreases |s|
  {
    if |s| > 1 {
      DigitsValuePositive(s[..|s| - 1]);
    }
  }

  lemma {:induction false} DecimalOfDigitsValue(s: string)
    requires Canonical(s)
    ensures Decimal(DigitsValue(s)) == s
    decreases |s|
  {
    if |s| > 1 {
      var init := s[..|s| - 1];
      DigitsValuePositive(init);
      DecimalOfDigitsValue(init);
      var v := DigitsValue(s);
      assert v / 10 == DigitsValue(init) && v % 10 == DigitValue(s[|s| - 1]);
      assert s == init + [s[|s| - 1]];
    }
  }

  lemma IndexOfFirst(a: string, c: char, b: string)
    requires forall j :: 0 <= j < |a| ==> a[j] != c
    ensures IndexOf(a + [c] + b, c) == |a|
  {
    assert (a + [c] + b)[|a|] == c;
  }

  /** Parsing recovers the draw and extension a path was built from. */
  lemma ParseStoredPathRoundTrip(d: Draw, extension: string)
    ensures ParseStoredPath(StoredPath(d, extension)) == Some((d, extension))
  {
    var p := StoredPath(d, extension);
    var digits := Decimal(d.time);
    var name := FileName(d, extension);
    assert p[|Directory|..] == name;
    assert name == digits + ['_'] + (d.random + "." + extension);
    IndexOfFirst(digits, '_', d.random + "." + extension);
    assert name[..|digits|] == digits;
    var rest := name[|digits| + 1..];
    assert rest == d.random + "." + extension;
    assert rest[..8] == d.random;
    assert rest[9..] == extension;
    DigitsValueOfDecimal(d.time);
  }

  /** Every path the parser accepts is exactly the stored path it describes. */
  lemma ParseStoredPathExact(p: string, d: Draw, extension: string)
    requires ParseStoredPath(p) == Some((d, extension))
    ensures p == StoredPath(d, extension)
  {
    var name := p[|Directory|..];
    var i := IndexOf(name, '_');
    var rest := name[i + 1..];
    DecimalOfDigitsValue(name[..i]);
    assert name == name[..i] + "_" + rest[..8] + "." + rest[9..];
    assert p == p[..|Directory|] + name;
  }

  /** Two uploads share a path only when they share time, suffix and extension. */
  lemma StoredPathInjective(d1: Draw, e1: string, d2: Draw, e2: string)
    requires StoredPath(d1, e1) == StoredPath(d2, e2)
    ensures d1 == d2 && e1 == e2
  {
    ParseStoredPathRoundTrip(d1, e1);
    ParseStoredPathRoundTrip(d2, e2);
  }
}
