/**
 * String helpers: prefix extraction, "yyyy-MM-dd"-style date text, download
 * speed text and the int-array-to-string-array conversion.
 */
module StringUtils {
  import opened JavaLang

  // ---------------------------------------------------------------------
  // getSubString
  // ---------------------------------------------------------------------

  function Min(a: int, b: int): int { if a <= b then a else b }

  /**
   * The first `length` UTF-16 code units of `str`, or all of it when
   * shorter; null stays null. A negative length makes `substring` throw. A
   * cut can fall between the two halves of a surrogate pair, leaving a lone
   * high surrogate at the end, as in Java.
   */
  function GetSubString(str: Option<JString>, length: int): (r: Outcome<Option<JString>>)
    ensures str.None? ==> r == Value(None)
    ensures str.Some? && length < 0 ==> r == Thrown(IndexOutOfBounds)
    ensures str.Some? && length >= 0 ==>
      && r.Value? && r.value.Some?
      && |r.value.value| == Min(length, |str.value|)
      && r.value.value <= str.value
  {
    match str
    case None => Value(None)
    case Some(s) =>
      var end := Min(length, |s|);
      if end < 0 then Thrown(IndexOutOfBounds) else Value(Some(s[..end]))
  }

  /** Cutting to a length no shorter than the string gives the string back, and cutting twice is cutting once to the smaller length. */
  lemma SubStringLimits(s: JString, m: nat, n: nat)
    ensures n >= |s| ==> GetSubString(Some(s), n) == Value(Some(s))
    ensures m <= n ==>
      var inner := GetSubString(Some(s), n).value.value;
      GetSubString(Some(inner), m) == GetSubString(Some(s), m)
  {
    if n >= |s| {
      assert s[..|s|] == s;
    }
    if m <= n {
      var inner := GetSubString(Some(s), n).value.value;
      assert inner == s[..Min(n, |s|)];
      assert inner[..Min(m, |inner|)] == s[..Min(m, |s|)];
    }
  }

  /**
   * A character outside the Basic Multilingual Plane is two code units (a
   * high and a low surrogate), so a cut to length 1 keeps only the high
   * surrogate, not the character.
   */
  lemma SubStringSplitsSurrogatePair()
    ensures GetSubString(Some([0xD83D, 0xDE00]), 1) == Value(Some([0xD83D]))
  {
    assert [0xD83D, 0xDE00][..1] == [0xD83D as CodeUnit];
  }

  // ---------------------------------------------------------------------
  // getDataStr
  // ---------------------------------------------------------------------

  /** A month or day field: a '0' goes in front exactly when the value is 1..9. */
  function Field(v: int): string
  {
    if 1 <= v < 10 then "0" + Decimal(v) else Decimal(v)
  }

  /** year + "-" + field(month) + "-" + field(day). */
  function DataStr(year: int, month: int, day: int): string
  {
    Decimal(year) + "-" + Field(month) + "-" + Field(day)
  }

  /** Builds the date text step by step, as the source does. */
  method GetDataStr(year: int, month: int, day: int) returns (date: string)
    ensures date == DataStr(year, month, day)
  {
    date := Decimal(year) + "-";
    if 1 <= month < 10 {
      date := date + ("0" + Decimal(month));
    } else {
      date := date + Decimal(month);
    }
    date := date + "-";
    if 1 <= day < 10 {
      date := date + ("0" + Decimal(day));
    } else {
      date := date + Decimal(day);
    }
  }

  /**
   * A field reads back as its value; values 1..99 take exactly two
   * characters; 0, negatives and values from 10 up are printed unpadded.
   */
  lemma FieldShape(v: int)
    ensures v >= 0 ==> AllDigits(Field(v)) && DigitsValue(Field(v)) == v
    ensures 1 <= v < 100 ==> |Field(v)| == 2
    ensures !(1 <= v < 10) ==> Field(v) == Decimal(v)
    ensures v < 0 ==> Field(v)[0] == '-'
  {
    DecimalShape(v);
    if v >= 0 {
      NatDigitsShape(v);
      if 1 <= v < 10 {
        assert Field(v) == ['0', DigitChar(v)];
        assert Field(v)[..1] == ['0'];
      }
      if 10 <= v < 100 {
        NatDigitsShape(v / 10);
      }
    }
  }

  /** A year in 1000..9999 prints as four digits that read back as the year. */
  lemma FourDigitYear(year: int)
    requires 1000 <= year <= 9999
    ensures |Decimal(year)| == 4 && AllDigits(Decimal(year)) && DigitsValue(Decimal(year)) == year
  {
    NatDigitsShape(year);
    NatDigitsShape(year / 10);
    NatDigitsShape(year / 100);
  }

  /**
   * For a real calendar date with a four-digit year the text is exactly
   * "yyyy-MM-dd": ten characters, dashes at 4 and 7, and each field reads
   * back as the number it came from.
   */
  lemma DataStrIsIsoDate(year: int, month: int, day: int)
    requires 1000 <= year <= 9999 && 1 <= month <= 12 && 1 <= day <= 31
    ensures var d := DataStr(year, month, day);
      && |d| == 10 && d[4] == '-' && d[7] == '-'
      && AllDigits(d[..4]) && AllDigits(d[5..7]) && AllDigits(d[8..])
      && DigitsValue(d[..4]) == year && DigitsValue(d[5..7]) == month && DigitsValue(d[8..]) == day
  {
    FourDigitYear(year);
    FieldShape(month);
    FieldShape(day);
    var y, m, dd := Decimal(year), Field(month), Field(day);
    var d := y + "-" + m + "-" + dd;
    assert d == DataStr(year, month, day);
    assert d[..4] == y;
    assert d[5..7] == m;
    assert d[8..] == dd;
  }

  // ---------------------------------------------------------------------
  // getDownloadVelocity
  // ---------------------------------------------------------------------

  /** The speed in tenths of a MB, truncated: the long division (kb * 10) / 1024. */
  function Tenths(kb: int): int
    requires kb >= 1024
  {
    (kb * 10) / 1024
  }

  /**
   * Below 1024 KB/s (negatives included) the figure is printed as KB/s.
   * Otherwise the MB figure is truncated to tenths and printed without a
   * decimal point when whole, with one decimal digit when not.
   */
  function GetDownloadVelocity(kb: int): (r: string)
    requires kb < 1024 || Tenths(kb) < 100_000_000
    ensures |r| > 4 && r[|r| - 4..] == (if kb < 1024 then "KB/s" else "MB/s")
  {
    if kb < 1024 then Decimal(kb) + "KB/s"
    else
      var t := Tenths(kb);
      if t % 10 == 0 then Decimal(t / 10) + "MB/s"
      else Decimal(t / 10) + "." + [DigitChar(t % 10)] + "MB/s"
  }

  /**
   * The printed MB figure truncates rather than rounds: its whole part is
   * kb div 1024, its tenth digit is the truncated tenth, and the true speed
   * lies in [shown, shown + 0.1) MB/s.
   */
  lemma VelocityTruncates(kb: int)
    requires kb >= 1024 && Tenths(kb) < 100_000_000
    ensures var t := Tenths(kb);
      && t * 1024 <= kb * 10 < (t + 1) * 1024
      && t / 10 == kb / 1024
      && GetDownloadVelocity(kb) ==
         Decimal(kb / 1024) + (if t % 10 == 0 then "" else "." + [DigitChar(t % 10)]) + "MB/s"
  {
    var t := Tenths(kb);
    var q := kb / 1024;
    assert q * 1024 <= kb < q * 1024 + 1024;
    assert q * 10 * 1024 <= kb * 10 < (q * 10 + 10) * 1024;
    assert q * 10 <= t < q * 10 + 10;
  }

  /** Below 1024 the text reads back, before its "KB/s" suffix, as the number itself. */
  lemma VelocityKilobytes(kb: int)
    requires kb < 1024
    ensures var r := GetDownloadVelocity(kb);
      && |r| > 4 && r[|r| - 4..] == "KB/s" && ParseDecimal(r[..|r| - 4]) == Some(kb)
  {
    var r := GetDownloadVelocity(kb);
    DecimalShape(kb);
    assert r[..|r| - 4] == Decimal(kb);
    DecimalRoundTrip(kb);
  }

  // ---------------------------------------------------------------------
  // getStringArrayFromIntArray
  // ---------------------------------------------------------------------

  /** A new array of the same length whose element i is the decimal text of element i; a null array throws. */
  method StringArrayFromIntArray(ints: array?<int>) returns (r: Outcome<array<string>>)
    ensures ints == null ==> r == Thrown(NullPointer)
    ensures ints != null ==>
      && r.Value? && fresh(r.value)
      && r.value.Length == ints.Length
      && forall i :: 0 <= i < ints.Length ==> r.value[i] == Decimal(ints[i])
  {
    if ints == null {
      return Thrown(NullPointer);
    }
    var strs := new string[ints.Length];
    for i := 0 to ints.Length
      invariant forall j :: 0 <= j < i ==> strs[j] == Decimal(ints[j])
    {
      strs[i] := Decimal(ints[i]);
    }
    return Value(strs);
  }

  /** The conversion loses nothing: each string reads back as its int. */
  lemma StringArrayReadsBack(ints: seq<int>, strs: seq<string>)
    requires |strs| == |ints| && forall i :: 0 <= i < |ints| ==> strs[i] == Decimal(ints[i])
    ensures forall i :: 0 <= i < |ints| ==> ParseDecimal(strs[i]) == Some(ints[i])
  {
    forall i | 0 <= i < |ints| ensures ParseDecimal(strs[i]) == Some(ints[i]) {
      DecimalRoundTrip(ints[i]);
    }
  }
}
