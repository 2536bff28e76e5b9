/** Paths on the install medium: `inst_getCDFilePath` formats either
    "<cdrom>/<file>" for files at the root of the medium or
    "<cdrom>/osroots/<variant>/<file>" for files of one OS variant, into a static buffer of
    1024 bytes that `snprintf` never overflows. */
module SourcePaths {

  /** Size of the static path buffer, terminating NUL included. */
  const PATH_BUFFER_SIZE: nat := 1024

  const SIZE_LIMIT: nat := 0x1_0000_0000_0000_0000

  /** `size_t` on the machines the installer is built for. */
  type size_t = x: nat | x < SIZE_LIMIT

  predicate IsDigit(c: char)
  {
    '0' <= c <= '9'
  }

  predicate AllDigits(s: string)
  {
    forall i :: 0 <= i < |s| ==> IsDigit(s[i])
  }

  function DigitChar(d: nat): (c: char)
    requires d < 10
    ensures IsDigit(c)
  {
    ('0' as int + d) as char
  }

  /** `%zu`: the decimal digits of `n`, most significant first, without leading zeros. */
  function Decimal(n: nat): (r: string)
    ensures |r| >= 1 && AllDigits(r)
    ensures r[0] == '0' ==> n == 0
  {
    if n < 10 then [DigitChar(n)]
    else
      var high := Decimal(n / 10);
      high + [DigitChar(n % 10)]
  }

  /** The number a string of decimal digits denotes. */
  function DecimalValue(s: string): nat
    requires AllDigits(s)
  {
    if |s| == 0 then 0
    else DecimalValue(s[..|s| - 1]) * 10 + (s[|s| - 1] as int - '0' as int)
  }

  /** Formatting a number and reading it back gives the number. */
  lemma {:induction false} DecimalRoundTrip(n: nat)
    ensures DecimalValue(Decimal(n)) == n
  {
    if n >= 10 {
      var high := Decimal(n / 10);
      DecimalRoundTrip(n / 10);
      assert (high + [DigitChar(n % 10)])[..|high|] == high;
    }
  }

  /** Different numbers are formatted differently. */
  lemma DecimalInjective(m: nat, n: nat)
    requires Decimal(m) == Decimal(n)
    ensures m == n
  {
    DecimalRoundTrip(m);
    DecimalRoundTrip(n);
  }

  /** `snprintf` into a buffer of `size` bytes keeps at most `size - 1` characters. */
  function Truncate(s: string, size: nat): (r: string)
    requires size > 0
    ensures |r| <= size - 1 && |r| <= |s|
    ensures r == s[..|r|]
    ensures |s| < size ==> r == s
  {
    if |s| < size then s else s[..size - 1]
  }

  /** The text `inst_getCDFilePath` would format with an unbounded buffer. */
  function FullPath(cdrom: string, variant: size_t, file: string): string
  {
    if variant > 0 then cdrom + "/osroots/" + Decimal(variant) + "/" + file
    else cdrom + "/" + file
  }

  /** The path of `file` on the medium, as left in the static buffer. */
  function CDFilePath(cdrom: string, variant: size_t, file: string): (r: string)
    ensures |r| < PATH_BUFFER_SIZE && |r| <= |FullPath(cdrom, variant, file)|
    ensures r == FullPath(cdrom, variant, file)[..|r|]
    ensures |FullPath(cdrom, variant, file)| < PATH_BUFFER_SIZE ==> r == FullPath(cdrom, variant, file)
  {
    Truncate(FullPath(cdrom, variant, file), PATH_BUFFER_SIZE)
  }

  /** A digit run ended by '/' is delimited unambiguously. */
  lemma DigitsThenSlash(d1: string, f1: string, d2: string, f2: string)
    requires AllDigits(d1) && AllDigits(d2)
    requires d1 + "/" + f1 == d2 + "/" + f2
    ensures d1 == d2 && f1 == f2
  {
    var s1, s2 := d1 + "/" + f1, d2 + "/" + f2;
    SlashAfterDigits(d1, f1, d2, f2);
    SlashAfterDigits(d2, f2, d1, f1);
    assert d1 == s1[..|d1|] && d2 == s2[..|d2|];
    assert f1 == s1[|d1| + 1..] && f2 == s2[|d2| + 1..];
  }

  /** The '/' after a digit run cannot fall inside a longer digit run. */
  lemma SlashAfterDigits(d1: string, f1: string, d2: string, f2: string)
    requires AllDigits(d2)
    requires d1 + "/" + f1 == d2 + "/" + f2
    ensures |d1| >= |d2|
  {
    var s := d1 + "/" + f1;
    assert s[|d1|] == '/';
  }

  /** When it fits the buffer, a variant path names its variant and its file unambiguously. */
  lemma VariantPathInjective(cdrom: string, v1: size_t, f1: string, v2: size_t, f2: string)
    requires v1 > 0 && v2 > 0
    requires |FullPath(cdrom, v1, f1)| < PATH_BUFFER_SIZE && |FullPath(cdrom, v2, f2)| < PATH_BUFFER_SIZE
    requires CDFilePath(cdrom, v1, f1) == CDFilePath(cdrom, v2, f2)
    ensures v1 == v2 && f1 == f2
  {
    var prefix := cdrom + "/osroots/";
    var t1, t2 := Decimal(v1) + "/" + f1, Decimal(v2) + "/" + f2;
    VariantFullPath(cdrom, v1, f1);
    VariantFullPath(cdrom, v2, f2);
    CommonPrefix(prefix, t1, t2);
    DigitsThenSlash(Decimal(v1), f1, Decimal(v2), f2);
    DecimalInjective(v1, v2);
  }

  lemma VariantFullPath(cdrom: string, v: size_t, f: string)
    requires v > 0
    ensures FullPath(cdrom, v, f) == (cdrom + "/osroots/") + (Decimal(v) + "/" + f)
  {
  }

  lemma CommonPrefix(p: string, a: string, b: string)
    requires p + a == p + b
    ensures a == b
  {
    assert a == (p + a)[|p|..];
  }

  /** Root files and variant files share one namespace: for every variant v > 0, the root
      file "osroots/<v>/<file>" has the same path as `file` of variant v, truncated or not. */
  lemma RootShadowsVariant(cdrom: string, v: size_t, file: string)
    requires v > 0
    ensures CDFilePath(cdrom, 0, "osroots/" + Decimal(v) + "/" + file) == CDFilePath(cdrom, v, file)
  {
  }
}
