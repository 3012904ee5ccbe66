/**
 * The `DD.MM.YYYY` date token: finding it in free text (`re.search` with the
 * pattern `\d{2}\.\d{2}\.\d{4}`), reading it as a calendar date
 * (`datetime.strptime(.., '%d.%m.%Y')`) and rendering the storage key
 * (`strftime('%Y-%m-%d')`).
 */
module DateToken {
  import opened Options
  import opened TextOps
  import opened Calendar

  const TokenLength := 10

  /** `t` matches `\d{2}\.\d{2}\.\d{4}` in full. */
  predicate IsToken(t: string) {
    && |t| == TokenLength
    && IsDigit(t[0]) && IsDigit(t[1]) && t[2] == '.'
    && IsDigit(t[3]) && IsDigit(t[4]) && t[5] == '.'
    && IsDigit(t[6]) && IsDigit(t[7]) && IsDigit(t[8]) && IsDigit(t[9])
  }

  /** A token starts at index `i` of `s`. */
  predicate TokenAt(s: string, i: int) {
    0 <= i && i + TokenLength <= |s| && IsToken(s[i..i + TokenLength])
  }

  /** The first index at or after `from` where a token starts. */
  function FindTokenFrom(s: string, from: nat): (r: Option<nat>)
    requires from <= |s|
    ensures r.Some? ==> from <= r.value && TokenAt(s, r.value)
    ensures r.Some? ==> forall j :: from <= j < r.value ==> !TokenAt(s, j)
    ensures r.None? ==> forall j :: from <= j ==> !TokenAt(s, j)
    decreases |s| - from
  {
    if from + TokenLength > |s| then None
    else if IsToken(s[from..from + TokenLength]) then Some(from)
    else FindTokenFrom(s, from + 1)
  }

  /** `re.search`: the index of the leftmost token in `s`, if any. */
  function FindToken(s: string): (r: Option<nat>)
    ensures r.Some? ==> TokenAt(s, r.value) && forall j :: 0 <= j < r.value ==> !TokenAt(s, j)
    ensures r.None? <==> forall j :: !TokenAt(s, j)
  {
    FindTokenFrom(s, 0)
  }

  /** The number written by the digits `s[lo..hi]`. */
  function Number(s: string, lo: nat, hi: nat): nat
    requires lo <= hi <= |s| && forall k :: lo <= k < hi ==> IsDigit(s[k])
  {
    DecimalValue(s[lo..hi])
  }

  /** The day, month and year fields of a token, read as numbers. */
  function TokenFields(t: string): Date
    requires IsToken(t)
  {
    Date(Number(t, 6, 10), Number(t, 3, 5), Number(t, 0, 2))
  }

  /** `datetime.strptime(t, '%d.%m.%Y')` for a string that matched the token
      pattern: it succeeds exactly when the fields form a real calendar date. */
  function Strptime(t: string): (r: Option<Date>)
    requires IsToken(t)
    ensures r.Some? <==>
      && Number(t, 6, 10) >= MinYear
      && 1 <= Number(t, 3, 5) <= 12
      && 1 <= Number(t, 0, 2) <= DaysInMonth(Number(t, 6, 10), Number(t, 3, 5))
    ensures r.Some? ==> r.value.day == Number(t, 0, 2) && r.value.month == Number(t, 3, 5)
                        && r.value.year == Number(t, 6, 10)
  {
    var d := TokenFields(t);
    DecimalValueBound(t[6..10]);
    if IsValidDate(d) then Some(d) else None
  }

  /** `YYYY-MM-DD` in shape: digits with hyphens at indexes 4 and 7. */
  predicate IsIsoShape(k: string) {
    && |k| == 10
    && IsDigit(k[0]) && IsDigit(k[1]) && IsDigit(k[2]) && IsDigit(k[3]) && k[4] == '-'
    && IsDigit(k[5]) && IsDigit(k[6]) && k[7] == '-' && IsDigit(k[8]) && IsDigit(k[9])
  }

  /** `strftime('%Y-%m-%d')` of a valid date: four-digit year, two-digit month
      and day, each zero-padded. */
  function FormatIso(d: Date): (k: string)
    requires IsValidDate(d)
    ensures IsIsoShape(k)
  {
    Pad(d.year, 4) + "-" + Pad(d.month, 2) + "-" + Pad(d.day, 2)
  }

  /** Reads an ISO key back; the inverse of `FormatIso`. */
  function ParseIso(k: string): Option<Date> {
    if !IsIsoShape(k) then None
    else
      var d := Date(Number(k, 0, 4), Number(k, 5, 7), Number(k, 8, 10));
      if IsValidDate(d) then Some(d) else None
  }

  /** A storage key: the ISO form of a real calendar date. */
  predicate IsIsoKey(k: string) {
    ParseIso(k).Some?
  }

  /** A date token holds digits and dots only, no whitespace. */
  lemma NoSpaceInToken(t: string, i: nat)
    requires i < |t| && IsSpace(t[i])
    ensures !IsToken(t)
  {
  }

  /** Reading the ISO key of a valid date gives the date back, so distinct
      dates get distinct keys and every key the bot stores is well formed. */
  lemma IsoRoundTrip(d: Date)
    requires IsValidDate(d)
    ensures ParseIso(FormatIso(d)) == Some(d)
  {
    var k := FormatIso(d);
    PadValue(d.year, 4);
    PadValue(d.month, 2);
    PadValue(d.day, 2);
    assert k[0..4] == Pad(d.year, 4);
    assert k[5..7] == Pad(d.month, 2);
    assert k[8..10] == Pad(d.day, 2);
  }

  /** The key of an accepted token `DD.MM.YYYY` is `YYYY-MM-DD` built from the
      very same digits. */
  lemma IsoKeyOfToken(t: string)
    requires IsToken(t) && Strptime(t).Some?
    ensures FormatIso(Strptime(t).value) == t[6..10] + "-" + t[3..5] + "-" + t[0..2]
  {
    ValuePad(t[6..10]);
    ValuePad(t[3..5]);
    ValuePad(t[0..2]);
  }

  /** Two tokens that are accepted receive the same key exactly when they are
      the same string. */
  lemma IsoKeyInjective(t1: string, t2: string)
    requires IsToken(t1) && Strptime(t1).Some?
    requires IsToken(t2) && Strptime(t2).Some?
    ensures FormatIso(Strptime(t1).value) == FormatIso(Strptime(t2).value) <==> t1 == t2
  {
    IsoKeyOfToken(t1);
    IsoKeyOfToken(t2);
    var k1 := FormatIso(Strptime(t1).value);
    var k2 := FormatIso(Strptime(t2).value);
    if k1 == k2 {
      assert t1[0..2] == k1[8..10] == t2[0..2];
      assert t1[3..5] == k1[5..7] == t2[3..5];
      assert t1[6..10] == k1[0..4] == t2[6..10];
      assert t1 == t1[0..2] + "." + t1[3..5] + "." + t1[6..10];
      assert t2 == t2[0..2] + "." + t2[3..5] + "." + t2[6..10];
    }
  }

  /** The value of a four-digit field, digit by digit. */
  lemma FourDigitValue(s: string)
    requires |s| == 4 && AllSatisfy(s, IsDigit)
    ensures DecimalValue(s) == 1000 * DigitValue(s[0]) + 100 * DigitValue(s[1])
                               + 10 * DigitValue(s[2]) + DigitValue(s[3])
  {
    var s1, s2, s3 := s[..1], s[..2], s[..3];
    assert s1[..0] == [] && s2[..1] == s1 && s3[..2] == s2 && s[..3] == s3;
    assert DecimalValue(s1) == DigitValue(s[0]);
    assert DecimalValue(s2) == 10 * DigitValue(s[0]) + DigitValue(s[1]);
    assert DecimalValue(s3) == 100 * DigitValue(s[0]) + 10 * DigitValue(s[1]) + DigitValue(s[2]);
  }

  /** The value of a two-digit field, digit by digit. */
  lemma TwoDigitValue(s: string)
    requires |s| == 2 && AllSatisfy(s, IsDigit)
    ensures DecimalValue(s) == 10 * DigitValue(s[0]) + DigitValue(s[1])
  {
    var s1 := s[..1];
    assert s1[..0] == [] && s[..1] == s1;
    assert DecimalValue(s1) == DigitValue(s[0]);
  }

  /** `31.02.2026` is rejected: February 2026 has 28 days. */
  lemma RejectsThirtyFirstOfFebruary()
    ensures IsToken("31.02.2026") && Strptime("31.02.2026").None?
  {
    var t := "31.02.2026";
    assert t[0..2] == "31" && t[3..5] == "02";
  }

  /** Day `00` and month `13` are rejected. */
  lemma RejectsOutOfRangeFields()
    ensures IsToken("00.01.2026") && Strptime("00.01.2026").None?
    ensures IsToken("01.13.2026") && Strptime("01.13.2026").None?
  {
    assert "00.01.2026"[0..2] == "00";
    assert "01.13.2026"[3..5] == "13";
  }

  /** Year `0000` is before `datetime.MINYEAR` and is rejected. */
  lemma RejectsYearZero()
    ensures IsToken("01.01.0000") && Strptime("01.01.0000").None?
  {
    var t := "01.01.0000";
    assert t[6..10] == "0000";
    FourDigitValue("0000");
  }

  /** 29 February does not exist in 2100, a century year not divisible by 400. */
  lemma RejectsLeapDayOf2100()
    ensures IsToken("29.02.2100") && Strptime("29.02.2100").None?
  {
    var t := "29.02.2100";
    assert Number(t, 6, 10) == 2100 by {
      assert t[6..10] == "2100";
      FourDigitValue("2100");
    }
    assert Number(t, 3, 5) == 2 by {
      assert t[3..5] == "02";
      TwoDigitValue("02");
    }
    assert Number(t, 0, 2) == 29 by {
      assert t[0..2] == "29";
      TwoDigitValue("29");
    }
  }

  /** 29 February exists in 2000, a year divisible by 400. */
  lemma AcceptsLeapDayOf2000()
    ensures IsToken("29.02.2000") && Strptime("29.02.2000") == Some(Date(2000, 2, 29))
  {
    var u := "29.02.2000";
    assert Number(u, 6, 10) == 2000 by {
      assert u[6..10] == "2000";
      FourDigitValue("2000");
    }
    assert Number(u, 3, 5) == 2 by {
      assert u[3..5] == "02";
      TwoDigitValue("02");
    }
    assert Number(u, 0, 2) == 29 by {
      assert u[0..2] == "29";
      TwoDigitValue("29");
    }
  }
}
