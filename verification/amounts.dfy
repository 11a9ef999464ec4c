/** `pd.to_numeric(df["amount"], errors="coerce")` (etl.py:64) on one cell,
    read as an exact decimal literal; anything else is coerced to a missing
    amount. */
module Amounts {
  import opened Wrappers
  import opened AsciiText
  import opened Digits

  /** The number `units / 10^scale`, kept exactly as written. */
  datatype Decimal = Decimal(units: int, scale: nat)

  function Negate(x: Decimal): Decimal {
    Decimal(-x.units, x.scale)
  }

  /** Python's `isspace` characters that pandas' number reader does not skip:
      the four ASCII information separators. */
  predicate IsSeparatorControl(c: char) { '\U{1C}' <= c <= '\U{1F}' }

  /** The text holds none of those separators. */
  predicate Readable(s: string) { forall i :: 0 <= i < |s| ==> !IsSeparatorControl(s[i]) }

  lemma ReadableAppend(a: string, b: string)
    requires Readable(a) && Readable(b)
    ensures Readable(a + b)
  {
    forall i | 0 <= i < |a + b|
      ensures !IsSeparatorControl((a + b)[i])
    {
      if i >= |a| {
        assert (a + b)[i] == b[i - |a|];
      }
    }
  }

  /** A separator is whitespace, so text without whitespace is readable. */
  lemma ReadableOfNoSpace(s: string)
    requires NoSpace(s)
    ensures Readable(s)
  {
    forall i | 0 <= i < |s|
      ensures !IsSeparatorControl(s[i])
    {
      assert !IsSpace(s[i]);
    }
  }

  /** An unsigned literal: digits, or digits with one decimal point, with at
      least one digit somewhere. */
  predicate IsUnsignedLiteral(t: string) {
    || (|t| > 0 && AllDigits(t))
    || (exists i :: 0 <= i < |t| && t[i] == '.' && AllDigits(t[..i]) && AllDigits(t[i + 1..]) && |t| >= 2)
  }

  function ParseUnsigned(t: string): (r: Option<Decimal>)
    ensures r.Some? ==> r.value.units >= 0
  {
    var parts := SplitOn(t, '.');
    if |parts| == 1 then
      if |t| > 0 && AllDigits(t) then Some(Decimal(DigitsValue(t), 0)) else None
    else if |parts| == 2 && AllDigits(parts[0]) && AllDigits(parts[1]) && |parts[0]| + |parts[1]| > 0 then
      Some(Decimal(DigitsValue(parts[0] + parts[1]), |parts[1]|))
    else
      None
  }

  /** An optional sign followed by an unsigned literal. */
  function ParseSigned(t: string): (r: Option<Decimal>)
  {
    if |t| > 0 && (t[0] == '+' || t[0] == '-') then
      match ParseUnsigned(t[1..])
      case Some(x) => Some(if t[0] == '-' then Negate(x) else x)
      case None => None
    else
      ParseUnsigned(t)
  }

  /** One amount cell; None is NaN. Surrounding whitespace is skipped. */
  function ParseAmount(cell: string): (r: Option<Decimal>)
    ensures !Readable(cell) ==> r.None?
    ensures AllSpace(cell) ==> r.None?
  {
    if !Readable(cell) then
      None
    else
      ParseSigned(Strip(cell))
  }

  // ---------------------------------------------------------------------------
  // Which texts are accepted
  // ---------------------------------------------------------------------------

  lemma SplitAtPoint(t: string, i: int)
    requires 0 <= i < |t| && t[i] == '.' && '.' !in t[..i] && '.' !in t[i + 1..]
    ensures SplitOn(t, '.') == [t[..i], t[i + 1..]]
  {
    assert t == t[..i] + ['.'] + t[i + 1..];
    SplitOnField(t[..i], t[i + 1..], '.');
    SplitOnNoSep(t[i + 1..], '.');
  }

  lemma LiteralAccepted(t: string)
    requires IsUnsignedLiteral(t)
    ensures ParseUnsigned(t).Some?
  {
    if |t| > 0 && AllDigits(t) {
      assert '.' !in t;
      SplitOnNoSep(t, '.');
    } else {
      var j :| 0 <= j < |t| && t[j] == '.' && AllDigits(t[..j]) && AllDigits(t[j + 1..]) && |t| >= 2;
      assert '.' !in t[..j] && '.' !in t[j + 1..];
      SplitAtPoint(t, j);
    }
  }

  lemma AcceptedIsLiteral(t: string)
    requires ParseUnsigned(t).Some?
    ensures IsUnsignedLiteral(t)
  {
    var parts := SplitOn(t, '.');
    JoinSplitOn(t, '.');
    if |parts| == 2 {
      var a, b := parts[0], parts[1];
      assert parts[1..] == [b];
      assert t == a + ['.'] + b;
      var i := |a|;
      assert t[..i] == a && t[i + 1..] == b && t[i] == '.';
    }
  }

  /** The unsigned reader accepts exactly the unsigned literals. */
  lemma UnsignedAccepts(t: string)
    ensures ParseUnsigned(t).Some? <==> IsUnsignedLiteral(t)
  {
    if IsUnsignedLiteral(t) {
      LiteralAccepted(t);
    }
    if ParseUnsigned(t).Some? {
      AcceptedIsLiteral(t);
    }
  }

  /** An unsigned literal, optionally preceded by one sign. */
  predicate IsAmountLiteral(t: string) {
    || IsUnsignedLiteral(t)
    || (|t| > 0 && (t[0] == '+' || t[0] == '-') && IsUnsignedLiteral(t[1..]))
  }

  /** A text starting with a sign is not an unsigned literal. */
  lemma SignNotUnsigned(t: string)
    requires |t| > 0 && (t[0] == '+' || t[0] == '-')
    ensures !IsUnsignedLiteral(t)
  {
  }

  /** The signed reader accepts exactly the optionally signed literals. */
  lemma SignedAccepts(t: string)
    ensures ParseSigned(t).Some? <==> IsAmountLiteral(t)
  {
    UnsignedAccepts(t);
    if |t| > 0 && (t[0] == '+' || t[0] == '-') {
      UnsignedAccepts(t[1..]);
      SignNotUnsigned(t);
    }
  }

  /** A cell is read as a number exactly when it holds no separator control
      and, once stripped, is a signed or unsigned decimal literal. */
  lemma AmountAccepts(cell: string)
    ensures ParseAmount(cell).Some? <==> Readable(cell) && IsAmountLiteral(Strip(cell))
  {
    SignedAccepts(Strip(cell));
  }

  // ---------------------------------------------------------------------------
  // Writing a decimal and reading it back
  // ---------------------------------------------------------------------------

  function Abs(n: int): nat { if n < 0 then -n else n }

  /** The digits of `|units|`, padded so that at least one digit precedes the
      decimal point. */
  function Magnitude(x: Decimal): (ds: string)
    ensures |ds| > x.scale && AllDigits(ds)
  {
    var n := Abs(x.units);
    var w := if NumDigits(n) > x.scale + 1 then NumDigits(n) else x.scale + 1;
    FixedDigits(n, w)
  }

  /** The plain decimal spelling: optional minus, integer digits, and when
      the scale is positive a point and exactly `scale` fraction digits. */
  function FormatAmount(x: Decimal): (s: string)
    ensures |s| > 0
  {
    var body := UnsignedText(x);
    if x.units < 0 then "-" + body else body
  }

  lemma MagnitudeValue(x: Decimal)
    ensures DigitsValue(Magnitude(x)) == Abs(x.units)
  {
    var n := Abs(x.units);
    var w := |Magnitude(x)|;
    Pow10Monotone(NumDigits(n), w);
    FixedDigitsValue(n, w);
  }

  lemma NoSeparatorInDigits(ds: string, c: char)
    requires AllDigits(ds) && !IsDigit(c)
    ensures c !in ds
  {
  }

  /** The unsigned text of a formatted decimal. */
  function UnsignedText(x: Decimal): (body: string)
    ensures |body| > 0 && IsDigit(body[0])
  {
    var ds := Magnitude(x);
    var k := |ds| - x.scale;
    if x.scale == 0 then ds else ds[..k] + "." + ds[k..]
  }

  lemma WholeOfFormat(x: Decimal)
    requires x.scale == 0
    ensures ParseUnsigned(UnsignedText(x)) == Some(Decimal(Abs(x.units), x.scale))
  {
    var ds := Magnitude(x);
    MagnitudeValue(x);
    NoSeparatorInDigits(ds, '.');
    SplitOnNoSep(ds, '.');
  }

  /** Digits, a point and digits read as one decimal whose scale is the
      number of fraction digits. */
  lemma PointedDigits(a: string, b: string)
    requires AllDigits(a) && AllDigits(b) && |a| + |b| > 0
    ensures ParseUnsigned(a + ['.'] + b) == Some(Decimal(DigitsValue(a + b), |b|))
  {
    NoSeparatorInDigits(a, '.');
    NoSeparatorInDigits(b, '.');
    SplitOnField(a, b, '.');
    SplitOnNoSep(b, '.');
  }

  lemma FractionOfFormat(x: Decimal)
    requires x.scale > 0
    ensures ParseUnsigned(UnsignedText(x)) == Some(Decimal(Abs(x.units), x.scale))
  {
    var ds := Magnitude(x);
    var k := |ds| - x.scale;
    var a, b := ds[..k], ds[k..];
    assert UnsignedText(x) == a + ['.'] + b;
    assert a + b == ds;
    PointedDigits(a, b);
    MagnitudeValue(x);
  }

  /** The unsigned part of a formatted decimal reads back as its magnitude. */
  lemma UnsignedOfFormat(x: Decimal)
    ensures ParseUnsigned(UnsignedText(x)) == Some(Decimal(Abs(x.units), x.scale))
  {
    if x.scale == 0 {
      WholeOfFormat(x);
    } else {
      FractionOfFormat(x);
    }
  }

  lemma SignedOfFormat(x: Decimal)
    ensures ParseSigned(FormatAmount(x)) == Some(x)
  {
    UnsignedOfFormat(x);
    var s := FormatAmount(x);
    if x.units < 0 {
      assert s[1..] == UnsignedText(x);
    }
  }

  /** The factor an optional leading sign applies. */
  function SignFactor(sign: string): int {
    if sign == "-" then -1 else 1
  }

  /** A leading sign scales the reading of the unsigned text after it. */
  lemma SignedReading(sign: string, u: string, x: Decimal)
    requires sign == "" || sign == "+" || sign == "-"
    requires u != [] && u[0] != '+' && u[0] != '-'
    requires ParseUnsigned(u) == Some(x)
    ensures ParseSigned(sign + u) == Some(Decimal(SignFactor(sign) * x.units, x.scale))
  {
    var t := sign + u;
    if sign == "" {
      assert t == u;
    } else if sign == "+" {
      assert t[0] == '+' && t[1..] == u;
      assert SignFactor(sign) == 1;
    } else {
      assert t[0] == '-' && t[1..] == u;
      assert SignFactor(sign) == -1;
    }
  }

  /** An optionally signed run of digits reads as that whole number. */
  lemma SignedWholeValue(sign: string, a: string)
    requires sign == "" || sign == "+" || sign == "-"
    requires |a| > 0 && AllDigits(a)
    ensures ParseSigned(sign + a) == Some(Decimal(SignFactor(sign) * DigitsValue(a), 0))
  {
    NoSeparatorInDigits(a, '.');
    SplitOnNoSep(a, '.');
    assert IsDigit(a[0]);
    SignedReading(sign, a, Decimal(DigitsValue(a), 0));
  }

  /** An optionally signed literal with a point, such as ".5", "5." or "-0.25",
      reads as all its digits over ten to the number of fraction digits. */
  lemma SignedPointedValue(sign: string, a: string, b: string)
    requires sign == "" || sign == "+" || sign == "-"
    requires AllDigits(a) && AllDigits(b) && |a| + |b| > 0
    ensures ParseSigned(sign + a + ['.'] + b) == Some(Decimal(SignFactor(sign) * DigitsValue(a + b), |b|))
  {
    var u := a + ['.'] + b;
    PointedDigits(a, b);
    if |a| > 0 {
      assert u[0] == a[0] && IsDigit(a[0]);
    } else {
      assert u[0] == '.';
    }
    SignedReading(sign, u, Decimal(DigitsValue(a + b), |b|));
    ConcatAroundPoint(sign, a, b);
  }

  lemma ConcatAroundPoint(p: string, a: string, b: string)
    ensures p + a + ['.'] + b == p + (a + ['.'] + b)
  {
  }

  /** Leading zeros do not change an amount: "007" reads as 7. */
  lemma ZeroPaddedValue(z: string, a: string)
    requires forall i :: 0 <= i < |z| ==> z[i] == '0'
    requires |a| > 0 && AllDigits(a)
    ensures ParseSigned(z + a) == Some(Decimal(DigitsValue(a), 0))
  {
    LeadingZeros(z, a);
    var none := "";
    SignedWholeValue(none, z + a);
    assert none + (z + a) == z + a;
  }

  lemma FormatHasNoSpace(x: Decimal)
    ensures NoSpace(FormatAmount(x))
    ensures Readable(FormatAmount(x))
  {
    var s := FormatAmount(x);
    var ds := Magnitude(x);
    forall i | 0 <= i < |s|
      ensures IsDigit(s[i]) || s[i] == '.' || s[i] == '-'
    {
    }
  }

  /** Every decimal survives being written and read back, scale included. */
  lemma FormatThenParse(x: Decimal)
    ensures ParseAmount(FormatAmount(x)) == Some(x)
  {
    FormatHasNoSpace(x);
    StripNoSpace(FormatAmount(x));
    SignedOfFormat(x);
  }

  /** Whitespace around a literal does not change the amount it denotes. */
  lemma PaddingIgnored(a: string, t: string, b: string)
    requires AllSpace(a) && AllSpace(b) && NoSpace(t) && |t| > 0
    requires Readable(a) && Readable(b)
    ensures ParseAmount(a + t + b) == ParseAmount(t)
  {
    StripUnique(a, t, b);
    StripNoSpace(t);
    ReadableOfNoSpace(t);
    ReadableAppend(a, t);
    ReadableAppend(a + t, b);
  }

  /** A formatted decimal with whitespace around it still reads back. */
  lemma PaddedFormatThenParse(x: Decimal, a: string, b: string)
    requires AllSpace(a) && AllSpace(b) && Readable(a) && Readable(b)
    ensures ParseAmount(a + FormatAmount(x) + b) == Some(x)
  {
    FormatHasNoSpace(x);
    FormatThenParse(x);
    PaddingIgnored(a, FormatAmount(x), b);
  }

  // ---------------------------------------------------------------------------
  // Worked examples
  // ---------------------------------------------------------------------------

  lemma FormatNegativeExample()
    ensures FormatAmount(Decimal(-50, 1)) == "-5.0"
  {
    assert NumDigits(50) == 2;
    TwoDigits(50);
    assert Magnitude(Decimal(-50, 1)) == "50";
  }

  /** A padded, signed amount keeps its trailing zero as scale. */
  lemma PaddedAmountExample(s: string, pad: string)
    requires pad == " " && s == pad + "-5.0" + pad
    ensures ParseAmount(s) == Some(Decimal(-50, 1))
  {
    FormatNegativeExample();
    PaddedFormatThenParse(Decimal(-50, 1), pad, pad);
  }

  /** A character other than a digit or the point rules out an unsigned literal. */
  lemma StrayRejectsUnsigned(t: string, i: int)
    requires 0 <= i < |t| && !IsDigit(t[i]) && t[i] != '.'
    ensures !IsUnsignedLiteral(t)
  {
    forall j | 0 <= j < |t| && t[j] == '.'
      ensures !(AllDigits(t[..j]) && AllDigits(t[j + 1..]))
    {
      if i < j {
        assert t[..j][i] == t[i];
      } else {
        assert t[j + 1..][i - j - 1] == t[i];
      }
    }
  }

  /** A character other than a digit, the point or a leading sign rules out
      a signed literal. */
  lemma StrayRejectsAmount(t: string, i: int)
    requires 0 <= i < |t| && !IsDigit(t[i]) && t[i] != '.'
    requires i > 0 || (t[i] != '+' && t[i] != '-')
    ensures !IsAmountLiteral(t)
  {
    StrayRejectsUnsigned(t, i);
    if t[0] == '+' || t[0] == '-' {
      var u := t[1..];
      assert u[i - 1] == t[i];
      StrayRejectsUnsigned(u, i - 1);
    }
  }

  /** A cell without whitespace that holds a character other than a digit,
      the point or a leading sign is coerced to a missing amount. */
  lemma StrayCharRejected(cell: string, i: int)
    requires NoSpace(cell)
    requires 0 <= i < |cell| && !IsDigit(cell[i]) && cell[i] != '.'
    requires i > 0 || (cell[i] != '+' && cell[i] != '-')
    ensures ParseAmount(cell) == None
  {
    StrayRejectsAmount(cell, i);
    StripNoSpace(cell);
    AmountAccepts(cell);
  }

  lemma WordRejected(t: string)
    requires t == "abc"
    ensures ParseAmount(t) == None
  {
    StrayCharRejected(t, 0);
  }

  lemma ThousandsRejected(t: string)
    requires t == "1,234"
    ensures ParseAmount(t) == None
  {
    StrayCharRejected(t, 1);
  }

  /** Blank cells, words and thousands separators are coerced to a missing amount. */
  lemma RejectedAmountExample()
    ensures ParseAmount("") == None && ParseAmount("abc") == None && ParseAmount("1,234") == None
  {
    WordRejected("abc");
    ThousandsRejected("1,234");
  }
}
