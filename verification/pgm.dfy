/** The binary greyscale Netpbm format ("P5") that saveFrame writes:
    decimal numbers as `operator<<` prints them, the header, and a reader
    for the files that pins down what the header says. */
module Pgm {
  import opened Common

  /** The character of a decimal digit. */
  function DigitChar(d: nat): (c: char)
    requires d < 10
    ensures '0' <= c <= '9'
  {
    ('0' as int + d) as char
  }

  /** The decimal digits of n, most significant first, without leading zeros. */
  function Digits(n: nat): (s: string)
    ensures 1 <= |s|
    ensures forall k | 0 <= k < |s| :: '0' <= s[k] <= '9'
    ensures |s| > 1 ==> s[0] != '0'
  {
    if n < 10 then [DigitChar(n)] else Digits(n / 10) + [DigitChar(n % 10)]
  }

  /** An int as `operator<<` prints it: a minus sign for negative values,
      then the digits of the magnitude. */
  function Decimal(n: int): (s: string)
    ensures 1 <= |s| && (s[0] == '-' <==> n < 0)
    ensures n < 0 ==> s[1..] == Digits(-n)
    ensures 0 <= n ==> s == Digits(n)
  {
    if n < 0 then "-" + Digits(-n) else Digits(n)
  }

  /** The bytes of an ASCII string. */
  function Ascii(s: string): (b: seq<Byte>)
    requires forall k | 0 <= k < |s| :: s[k] as int < 0x100
    ensures |b| == |s|
  {
    seq(|s|, k requires 0 <= k < |s| => s[k] as int)
  }

  /** The ASCII bytes of Decimal(n). */
  function DecimalBytes(n: int): (b: seq<Byte>)
    ensures 1 <= |b|
  {
    Ascii(Decimal(n))
  }

  predicate IsDigitByte(b: Byte)
  {
    '0' as int <= b <= '9' as int
  }

  const NEWLINE: Byte := 10
  /** "P5\n", the magic number of a binary greymap. */
  const MAGIC: seq<Byte> := [80, 53, 10]
  /** "255\n", the maximum sample value and its line end. */
  const MAXVAL: seq<Byte> := [50, 53, 53, 10]

  /** The value of a run of ASCII digits. */
  function DigitsValue(b: seq<Byte>): nat
    requires forall k | 0 <= k < |b| :: IsDigitByte(b[k])
  {
    if b == [] then 0
    else
      var last := b[|b| - 1];
      assert IsDigitByte(last);
      DigitsValue(b[..|b| - 1]) * 10 + (last - '0' as int)
  }

  /** Reading the digits of n back gives n. */
  lemma {:induction false} DigitsRoundTrip(n: nat)
    ensures forall k | 0 <= k < |Ascii(Digits(n))| :: IsDigitByte(Ascii(Digits(n))[k])
    ensures DigitsValue(Ascii(Digits(n))) == n
  {
    var b := Ascii(Digits(n));
    if n >= 10 {
      DigitsRoundTrip(n / 10);
      assert b[..|b| - 1] == Ascii(Digits(n / 10));
    }
  }

  /** Different frame numbers print differently. */
  lemma DecimalInjective(m: int, n: int)
    requires Decimal(m) == Decimal(n)
    ensures m == n
  {
    if m < 0 {
      DigitsInjective(-m, -n);
    } else {
      DigitsInjective(m, n);
    }
  }

  /** Distinct naturals have distinct digit strings. */
  lemma DigitsInjective(a: nat, b: nat)
    requires Digits(a) == Digits(b)
    ensures a == b
  {
    DigitsRoundTrip(a);
    DigitsRoundTrip(b);
  }

  /** A number in decimal and the newline after it. */
  function NumberLine(n: nat): seq<Byte>
  {
    DecimalBytes(n) + [NEWLINE]
  }

  /** `"P5\n" << width << '\n' << height << "\n255\n"`. */
  function Header(width: nat, height: nat): (h: seq<Byte>)
    ensures |MAGIC| <= |h| && h[..|MAGIC|] == MAGIC
    ensures ReadNumber(h[|MAGIC|..]).Some? && ReadNumber(h[|MAGIC|..]).value.0 == width
    ensures ReadNumber(h[|MAGIC|..]).Some?
            ==> ReadNumber(ReadNumber(h[|MAGIC|..]).value.1) == Some((height, MAXVAL))
  {
    var afterWidth := NumberLine(height) + MAXVAL;
    ReadNumberRoundTrip(width, afterWidth);
    ReadNumberRoundTrip(height, MAXVAL);
    AppendAssoc(MAGIC, NumberLine(width), afterWidth);
    AppendAssoc(MAGIC + NumberLine(width), NumberLine(height), MAXVAL);
    MAGIC + NumberLine(width) + NumberLine(height) + MAXVAL
  }

  /** A decoded greyscale image: dimensions and row-major samples. */
  datatype Image = Image(width: nat, height: nat, pixels: seq<Byte>)

  /** How many digit bytes open b. */
  function DigitRun(b: seq<Byte>): (n: nat)
    ensures n <= |b|
    ensures forall k | 0 <= k < n :: IsDigitByte(b[k])
    ensures n < |b| ==> !IsDigitByte(b[n])
  {
    if b == [] || !IsDigitByte(b[0]) then 0 else 1 + DigitRun(b[1..])
  }

  /** A non-empty run of digits ended by a newline: its value and the bytes
      after the newline. */
  function ReadNumber(b: seq<Byte>): Option<(nat, seq<Byte>)>
  {
    var n := DigitRun(b);
    if n == 0 || n == |b| || b[n] != NEWLINE then None
    else Some((DigitsValue(b[..n]), b[n + 1..]))
  }

  /** A reader for the files saveFrame writes: "P5\n", the width and height
      each ended by a newline, "255\n", then exactly width * height samples. */
  function ParsePgm(b: seq<Byte>): Option<Image>
  {
    if |b| < 3 || b[..3] != MAGIC then None
    else match ReadNumber(b[3..])
      case None => None
      case Some((w, afterWidth)) =>
        match ReadNumber(afterWidth)
        case None => None
        case Some((h, afterHeight)) =>
          if |afterHeight| < 4 || afterHeight[..4] != MAXVAL || |afterHeight| - 4 != w * h then None
          else Some(Image(w, h, afterHeight[4..]))
  }

  /** The run of digits of a number ends where its newline starts. */
  lemma {:induction false} DigitRunStops(digits: seq<Byte>, rest: seq<Byte>)
    requires forall k | 0 <= k < |digits| :: IsDigitByte(digits[k])
    requires rest != [] && !IsDigitByte(rest[0])
    ensures DigitRun(digits + rest) == |digits|
  {
    if digits != [] {
      assert (digits + rest)[1..] == digits[1..] + rest;
      DigitRunStops(digits[1..], rest);
    }
  }

  /** A number printed by saveFrame and followed by a newline reads back. */
  lemma ReadNumberRoundTrip(n: nat, rest: seq<Byte>)
    ensures ReadNumber(NumberLine(n) + rest) == Some((n, rest))
  {
    var digits := DecimalBytes(n);
    assert digits == Ascii(Digits(n));
    DigitsRoundTrip(n);
    var b := NumberLine(n) + rest;
    AppendAssoc(digits, [NEWLINE], rest);
    DigitRunStops(digits, [NEWLINE] + rest);
    assert DigitRun(b) == |digits| && b[|digits|] == NEWLINE;
    assert b[..|digits|] == digits && b[|digits| + 1..] == rest;
    assert DigitsValue(b[..|digits|]) == n;
  }

  /** A header followed by width * height samples reads back as that image. */
  lemma ParseRoundTrip(width: nat, height: nat, pixels: seq<Byte>)
    requires |pixels| == width * height
    ensures ParsePgm(Header(width, height) + pixels) == Some(Image(width, height, pixels))
  {
    HeaderThen(width, height, pixels);
    ParseFields(width, height, pixels);
  }

  /** The header fields, each parsed from the front, then the samples. */
  lemma ParseFields(width: nat, height: nat, pixels: seq<Byte>)
    requires |pixels| == width * height
    ensures ParsePgm(MAGIC + (NumberLine(width) + (NumberLine(height) + (MAXVAL + pixels))))
            == Some(Image(width, height, pixels))
  {
    var afterHeight := MAXVAL + pixels;
    var afterWidth := NumberLine(height) + afterHeight;
    var b := MAGIC + (NumberLine(width) + afterWidth);
    assert b[..3] == MAGIC && b[3..] == NumberLine(width) + afterWidth;
    ReadNumberRoundTrip(width, afterWidth);
    ReadNumberRoundTrip(height, afterHeight);
    assert ReadNumber(b[3..]) == Some((width, afterWidth));
    assert ReadNumber(afterWidth) == Some((height, afterHeight));
    assert afterHeight[..4] == MAXVAL && afterHeight[4..] == pixels;
  }

  /** The header and what follows it, field by field from the front. */
  lemma HeaderThen(width: nat, height: nat, pixels: seq<Byte>)
    ensures Header(width, height) + pixels
            == MAGIC + (NumberLine(width) + (NumberLine(height) + (MAXVAL + pixels)))
  {
    var afterHeight := MAXVAL + pixels;
    var afterWidth := NumberLine(height) + afterHeight;
    calc {
      Header(width, height) + pixels;
      MAGIC + NumberLine(width) + NumberLine(height) + MAXVAL + pixels;
      { AppendAssoc(MAGIC + NumberLine(width) + NumberLine(height), MAXVAL, pixels); }
      MAGIC + NumberLine(width) + NumberLine(height) + afterHeight;
      { AppendAssoc(MAGIC + NumberLine(width), NumberLine(height), afterHeight); }
      MAGIC + NumberLine(width) + afterWidth;
      { AppendAssoc(MAGIC, NumberLine(width), afterWidth); }
      MAGIC + (NumberLine(width) + afterWidth);
    }
  }
}
