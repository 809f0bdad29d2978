/** The name of a recording file: the camera name, a space, the local time as
    `YYYY-MM-DD HH-MM-SS`, and the `.avi` extension.  The clock is read by the
    caller; here the moment is a `Timestamp` parameter. */
module Filename {

  /** A broken-down local time, as a `datetime` value gives it. */
  datatype Timestamp = Timestamp(year: nat, month: nat, day: nat, hour: nat, minute: nat, second: nat)

  /** The ranges a clock reading can take; years are restricted to four digits. */
  predicate ValidTimestamp(t: Timestamp) {
    1000 <= t.year <= 9999 && 1 <= t.month <= 12 && 1 <= t.day <= 31 &&
    t.hour <= 23 && t.minute <= 59 && t.second <= 59
  }

  function Pow10(k: nat): (r: nat)
    ensures r >= 1
  {
    if k == 0 then 1 else 10 * Pow10(k - 1)
  }

  function DigitChar(d: nat): char
    requires d < 10
  {
    ('0' as int + d) as char
  }

  predicate IsDigit(c: char) {
    '0' <= c <= '9'
  }

  function DigitValue(c: char): (d: nat)
    requires IsDigit(c)
  {
    (c as int) - ('0' as int)
  }

  /** `n` in decimal, zero-padded on the left to at least `width` digits
      (the `%0<width>d` conversion that `strftime` applies to each field). */
  function Decimal(n: nat, width: nat): (s: string)
    decreases n + width
  {
    if n < 10 && width <= 1 then [DigitChar(n)]
    else Decimal(n / 10, if width == 0 then 0 else width - 1) + [DigitChar(n % 10)]
  }

  /** The number a string of decimal digits denotes. */
  function Value(s: string): nat
    requires forall i :: 0 <= i < |s| ==> IsDigit(s[i])
  {
    if s == [] then 0 else 10 * Value(s[..|s| - 1]) + DigitValue(s[|s| - 1])
  }

  /** `Decimal` prints only digits, exactly `width` of them when `n` fits in that
      width, and reading them back gives `n`. */
  lemma {:induction false} DecimalRoundTrip(n: nat, width: nat)
    ensures forall i :: 0 <= i < |Decimal(n, width)| ==> IsDigit(Decimal(n, width)[i])
    ensures Value(Decimal(n, width)) == n
    ensures 1 <= width && n < Pow10(width) ==> |Decimal(n, width)| == width
    decreases n + width
  {
    var s := Decimal(n, width);
    if n < 10 && width <= 1 {
      assert s[..0] == [];
      assert width == 1 ==> Pow10(width) == 10;
    } else {
      var w' := if width == 0 then 0 else width - 1;
      DecimalRoundTrip(n / 10, w');
      var p := Decimal(n / 10, w');
      assert s[..|s| - 1] == p;
      DecimalWidthStep(n, width);
    }
  }

  /** A number below `10^width` (`width >= 2`) leaves at most `width - 1` digits
      once its last digit is removed. */
  lemma DecimalWidthStep(n: nat, width: nat)
    requires !(n < 10 && width <= 1)
    ensures 1 <= width && n < Pow10(width) ==> 1 <= width - 1 && n / 10 < Pow10(width - 1)
  {
    if 1 <= width && n < Pow10(width) {
      assert Pow10(width) == 10 * Pow10(width - 1);
      if width == 1 {
        assert false;
      }
    }
  }

  /** The time part of the name, `YYYY-MM-DD HH-MM-SS` (19 characters). */
  function Stamp(t: Timestamp): string {
    Decimal(t.year, 4) + "-" + Decimal(t.month, 2) + "-" + Decimal(t.day, 2) + " " +
    Decimal(t.hour, 2) + "-" + Decimal(t.minute, 2) + "-" + Decimal(t.second, 2)
  }

  /** The recording file name: `<name> <YYYY-MM-DD HH-MM-SS>.avi`, with the
      camera name taken verbatim. */
  function FileName(name: string, t: Timestamp): string {
    name + " " + Stamp(t) + ".avi"
  }

  predicate AllDigits(s: string) {
    forall i :: 0 <= i < |s| ==> IsDigit(s[i])
  }

  /** Reads a 19-character `YYYY-MM-DD HH-MM-SS` back into a timestamp; `None`
      when a field is not made of digits. */
  function ParseStamp(s: string): (r: Option<Timestamp>)
    requires |s| == 19
  {
    var y, mo, d, h, mi, se := s[0..4], s[5..7], s[8..10], s[11..13], s[14..16], s[17..19];
    if AllDigits(y) && AllDigits(mo) && AllDigits(d) && AllDigits(h) && AllDigits(mi) && AllDigits(se)
    then Some(Timestamp(Value(y), Value(mo), Value(d), Value(h), Value(mi), Value(se)))
    else None
  }

  datatype Option<T> = None | Some(value: T)

  /** Splits a file name into the camera name and the timestamp. */
  function ParseFileName(f: string): (r: Option<(string, Timestamp)>)
  {
    if |f| < 24 || f[|f| - 4..] != ".avi" || f[|f| - 24] != ' ' then None
    else match ParseStamp(f[|f| - 23..|f| - 4])
      case None => None
      case Some(t) => Some((f[..|f| - 24], t))
  }

  lemma FieldWidths(t: Timestamp)
    requires ValidTimestamp(t)
    ensures |Decimal(t.year, 4)| == 4 && |Decimal(t.month, 2)| == 2 && |Decimal(t.day, 2)| == 2
    ensures |Decimal(t.hour, 2)| == 2 && |Decimal(t.minute, 2)| == 2 && |Decimal(t.second, 2)| == 2
  {
    assert Pow10(2) == 100 && Pow10(4) == 10000;
    DecimalRoundTrip(t.year, 4);
    DecimalRoundTrip(t.month, 2);
    DecimalRoundTrip(t.day, 2);
    DecimalRoundTrip(t.hour, 2);
    DecimalRoundTrip(t.minute, 2);
    DecimalRoundTrip(t.second, 2);
  }

  lemma StampLayout(t: Timestamp)
    requires ValidTimestamp(t)
    ensures |Stamp(t)| == 19
    ensures Stamp(t)[0..4] == Decimal(t.year, 4)
    ensures Stamp(t)[5..7] == Decimal(t.month, 2)
    ensures Stamp(t)[8..10] == Decimal(t.day, 2)
    ensures Stamp(t)[11..13] == Decimal(t.hour, 2)
    ensures Stamp(t)[14..16] == Decimal(t.minute, 2)
    ensures Stamp(t)[17..19] == Decimal(t.second, 2)
  {
    FieldWidths(t);
    var y, mo, d := Decimal(t.year, 4), Decimal(t.month, 2), Decimal(t.day, 2);
    var h, mi, se := Decimal(t.hour, 2), Decimal(t.minute, 2), Decimal(t.second, 2);
    var s := Stamp(t);
    Piece([], y, "-" + mo + "-" + d + " " + h + "-" + mi + "-" + se);
    Piece(y + "-", mo, "-" + d + " " + h + "-" + mi + "-" + se);
    Piece(y + "-" + mo + "-", d, " " + h + "-" + mi + "-" + se);
    Piece(y + "-" + mo + "-" + d + " ", h, "-" + mi + "-" + se);
    Piece(y + "-" + mo + "-" + d + " " + h + "-", mi, "-" + se);
    Piece(y + "-" + mo + "-" + d + " " + h + "-" + mi + "-", se, []);
  }

  /** The middle part of a concatenation sits at the length of its prefix. */
  lemma Piece(p: string, x: string, q: string)
    ensures (p + x + q)[|p|..|p| + |x|] == x
  {
  }

  /** Parsing the time part of a name gives back the timestamp it was made from. */
  lemma StampRoundTrip(t: Timestamp)
    requires ValidTimestamp(t)
    ensures |Stamp(t)| == 19 && ParseStamp(Stamp(t)) == Some(t)
  {
    StampLayout(t);
    DecimalRoundTrip(t.year, 4);
    DecimalRoundTrip(t.month, 2);
    DecimalRoundTrip(t.day, 2);
    DecimalRoundTrip(t.hour, 2);
    DecimalRoundTrip(t.minute, 2);
    DecimalRoundTrip(t.second, 2);
  }

  /** A file name splits back into the camera name and the moment it was opened. */
  lemma FileNameRoundTrip(name: string, t: Timestamp)
    requires ValidTimestamp(t)
    ensures ParseFileName(FileName(name, t)) == Some((name, t))
  {
    StampRoundTrip(t);
    var f := FileName(name, t);
    assert |f| == |name| + 24;
    assert f[|f| - 4..] == ".avi";
    assert f[|f| - 24] == ' ';
    assert f[|f| - 23..|f| - 4] == Stamp(t);
    assert f[..|f| - 24] == name;
  }

  /** Two recordings get the same file only when the camera name and the second
      they were opened at are both the same. */
  lemma FileNameInjective(n1: string, t1: Timestamp, n2: string, t2: Timestamp)
    requires ValidTimestamp(t1) && ValidTimestamp(t2)
    ensures FileName(n1, t1) == FileName(n2, t2) <==> n1 == n2 && t1 == t2
  {
    FileNameRoundTrip(n1, t1);
    FileNameRoundTrip(n2, t2);
  }

  /* The program builds the name by handing `name + " %Y-%m-%d %H-%M-%S"` to
     `strftime`, so the camera name itself is read as part of the format. */

  /** `strftime` over a format string: the six conversions the program uses and
      `%%`; every other character is copied. */
  function Strftime(fmt: string, t: Timestamp): string
    decreases |fmt|
  {
    if fmt == [] then []
    else if fmt[0] == '%' && |fmt| >= 2 && IsConversion(fmt[1]) then Conversion(fmt[1], t) + Strftime(fmt[2..], t)
    else [fmt[0]] + Strftime(fmt[1..], t)
  }

  predicate IsConversion(c: char) {
    c == 'Y' || c == 'm' || c == 'd' || c == 'H' || c == 'M' || c == 'S' || c == '%'
  }

  /** What one conversion prints; `%%` prints a single `%`. */
  function Conversion(c: char, t: Timestamp): string
    requires IsConversion(c)
  {
    match c
    case 'Y' => Decimal(t.year, 4)
    case 'm' => Decimal(t.month, 2)
    case 'd' => Decimal(t.day, 2)
    case 'H' => Decimal(t.hour, 2)
    case 'M' => Decimal(t.minute, 2)
    case 'S' => Decimal(t.second, 2)
    case _ => "%"
  }

  /** The file name exactly as the program computes it. */
  function AsWrittenFileName(name: string, t: Timestamp): string {
    Strftime(name + " %Y-%m-%d %H-%M-%S", t) + ".avi"
  }

  lemma PlainStep(c: char, rest: string, t: Timestamp)
    requires c != '%'
    ensures Strftime([c] + rest, t) == [c] + Strftime(rest, t)
  {
    assert ([c] + rest)[1..] == rest;
  }

  lemma ConversionStep(c: char, rest: string, t: Timestamp)
    requires IsConversion(c) && c != '%'
    ensures Strftime(['%', c] + rest, t) == Conversion(c, t) + Strftime(rest, t)
  {
    assert (['%', c] + rest)[2..] == rest;
  }

  /** Characters other than `%` pass through `strftime` unchanged. */
  lemma {:induction false} StrftimeVerbatim(name: string, rest: string, t: Timestamp)
    requires '%' !in name
    ensures Strftime(name + rest, t) == name + Strftime(rest, t)
  {
    if name == [] {
      assert name + rest == rest;
    } else {
      assert name[0] in name;
      assert name == [name[0]] + name[1..];
      assert name + rest == [name[0]] + (name[1..] + rest);
      assert '%' !in name[1..] by {
        forall i | 0 <= i < |name[1..]| ensures name[1..][i] != '%' {
          assert name[1..][i] == name[i + 1];
          assert name[i + 1] in name;
        }
      }
      PlainStep(name[0], name[1..] + rest, t);
      StrftimeVerbatim(name[1..], rest, t);
    }
  }

  /** A conversion followed by a separator character. */
  lemma FieldStep(c: char, sep: char, rest: string, t: Timestamp)
    requires IsConversion(c) && c != '%' && sep != '%'
    ensures Strftime(['%', c, sep] + rest, t) == Conversion(c, t) + [sep] + Strftime(rest, t)
  {
    assert ['%', c, sep] + rest == ['%', c] + ([sep] + rest);
    ConversionStep(c, [sep] + rest, t);
    PlainStep(sep, rest, t);
  }

  lemma TimeFormat(t: Timestamp)
    ensures Strftime(['%', 'H', '-'] + (['%', 'M', '-'] + ['%', 'S']), t) ==
      Conversion('H', t) + "-" + Conversion('M', t) + "-" + Conversion('S', t)
  {
    FieldStep('H', '-', ['%', 'M', '-'] + ['%', 'S'], t);
    FieldStep('M', '-', ['%', 'S'], t);
    assert ['%', 'S'] == ['%', 'S'] + [];
    ConversionStep('S', [], t);
  }

  lemma DateFormat(rest: string, t: Timestamp)
    ensures Strftime(['%', 'Y', '-'] + (['%', 'm', '-'] + (['%', 'd', ' '] + rest)), t) ==
      Conversion('Y', t) + "-" + Conversion('m', t) + "-" + Conversion('d', t) + " " + Strftime(rest, t)
  {
    FieldStep('Y', '-', ['%', 'm', '-'] + (['%', 'd', ' '] + rest), t);
    FieldStep('m', '-', ['%', 'd', ' '] + rest, t);
    FieldStep('d', ' ', rest, t);
  }

  /** The stamp is the six conversions with their separators. */
  lemma StampConversions(t: Timestamp)
    ensures Stamp(t) == Conversion('Y', t) + "-" + Conversion('m', t) + "-" + Conversion('d', t) + " " +
      (Conversion('H', t) + "-" + Conversion('M', t) + "-" + Conversion('S', t))
  {
  }

  lemma FormatLiteral()
    ensures " %Y-%m-%d %H-%M-%S" ==
      [' '] + (['%', 'Y', '-'] + (['%', 'm', '-'] + (['%', 'd', ' '] + (['%', 'H', '-'] + (['%', 'M', '-'] + ['%', 'S'])))))
  {
  }

  /** The format the program appends to the name expands to a space and the stamp. */
  lemma StampFormat(t: Timestamp)
    ensures Strftime(" %Y-%m-%d %H-%M-%S", t) == " " + Stamp(t)
  {
    var tf := ['%', 'H', '-'] + (['%', 'M', '-'] + ['%', 'S']);
    FormatLiteral();
    PlainStep(' ', ['%', 'Y', '-'] + (['%', 'm', '-'] + (['%', 'd', ' '] + tf)), t);
    DateFormat(tf, t);
    TimeFormat(t);
    StampConversions(t);
  }

  /** For a camera name without `%` the program's name is the intended one. */
  lemma AsWrittenAgrees(name: string, t: Timestamp)
    requires '%' !in name
    ensures AsWrittenFileName(name, t) == FileName(name, t)
  {
    StrftimeVerbatim(name, " %Y-%m-%d %H-%M-%S", t);
    StampFormat(t);
  }

  lemma DayThenFormat(fmt: string, t: Timestamp)
    requires Strftime(fmt, t) == " " + Stamp(t)
    ensures Strftime("Cam" + (['%', 'd'] + fmt), t) == "Cam" + Decimal(t.day, 2) + " " + Stamp(t)
  {
    StrftimeVerbatim("Cam", ['%', 'd'] + fmt, t);
    ConversionStep('d', fmt, t);
  }

  lemma DayLiteral()
    ensures "Cam%d" + " %Y-%m-%d %H-%M-%S" == "Cam" + (['%', 'd'] + " %Y-%m-%d %H-%M-%S")
  {
  }

  /** A `%d` in a camera name is replaced by the day of the month. */
  lemma DayInName(t: Timestamp)
    ensures AsWrittenFileName("Cam%d", t) == "Cam" + Decimal(t.day, 2) + " " + Stamp(t) + ".avi"
  {
    StampFormat(t);
    DayLiteral();
    DayThenFormat(" %Y-%m-%d %H-%M-%S", t);
  }

  /** On the first of a month a camera called `Cam%d` records into the same file
      as a camera called `Cam01`, and its file does not carry the name `Cam%d`. */
  lemma PercentInNameCollides(t: Timestamp)
    requires t.day == 1
    ensures AsWrittenFileName("Cam%d", t) == AsWrittenFileName("Cam01", t)
    ensures AsWrittenFileName("Cam%d", t) != FileName("Cam%d", t)
  {
    DayInName(t);
    assert Decimal(1, 2) == "01";
    AsWrittenAgrees("Cam01", t);
    assert AsWrittenFileName("Cam%d", t)[3] == '0';
    assert FileName("Cam%d", t)[3] == '%';
  }
}
