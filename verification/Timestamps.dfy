/** The wire timestamp of section 5.6 of RFC 3339, as `cpp/src/tier1.cpp` parses it and
    `cpp/src/protocol.cpp` prints it: YYYY-MM-DDTHH:MM:SSZ, UTC only, no fraction. */
module Timestamps {
  import opened Wrappers
  import opened Machine
  import opened Calendar
  import opened Decimal
  import CivilTime

  datatype Fields = Fields(year: int, month: int, day: int, hour: int, minute: int, second: int)

  /** The ranges the parser checks. The day is only checked against 31. */
  predicate InRange(f: Fields) {
    && 0 <= f.year <= 9999 && 1 <= f.month <= 12 && 1 <= f.day <= 31
    && 0 <= f.hour <= 23 && 0 <= f.minute <= 59 && 0 <= f.second <= 59
  }

  /** Does the day exist in its month? */
  predicate DayExists(f: Fields) { ValidDate(Date(f.year, f.month, f.day)) }

  /** The grammar: one text for each tuple of fields in range. */
  function WireText(f: Fields): (s: string)
    requires InRange(f)
    ensures |s| == 20
  {
    FixedWidth(f.year, 4) + "-" + FixedWidth(f.month, 2) + "-" + FixedWidth(f.day, 2) + "T"
    + FixedWidth(f.hour, 2) + ":" + FixedWidth(f.minute, 2) + ":" + FixedWidth(f.second, 2) + "Z"
  }

  function UnixSeconds(f: Fields): int {
    DayNumber(f.year, f.month, f.day) * 86400 + f.hour * 3600 + f.minute * 60 + f.second
  }

  // ---- Parsing -------------------------------------------------------------------------

  predicate HasSeparators(iso: string)
    requires |iso| == 20
  {
    iso[4] == '-' && iso[7] == '-' && iso[10] == 'T' && iso[13] == ':' && iso[16] == ':' && iso[19] == 'Z'
  }

  /** The value of a digit group, or -1. */
  function Group(iso: string, pos: nat, count: nat): int
    requires pos + count <= |iso|
  {
    if AllDigits(iso[pos..pos + count]) then Value(iso[pos..pos + count]) else -1
  }

  function GroupsOf(iso: string): Fields
    requires |iso| == 20
  {
    Fields(Group(iso, 0, 4), Group(iso, 5, 2), Group(iso, 8, 2),
           Group(iso, 11, 2), Group(iso, 14, 2), Group(iso, 17, 2))
  }

  /** The instant a wire timestamp denotes, if it is one. */
  function WireTime(iso: string): Option<int> {
    if |iso| == 20 && HasSeparators(iso) && InRange(GroupsOf(iso))
    then Some(UnixSeconds(GroupsOf(iso))) else None
  }

  method ParseDigits(iso: string, pos: nat, count: nat) returns (v: int)
    requires pos + count <= |iso|
    ensures v == Group(iso, pos, count)
  {
    v := 0;
    var i := 0;
    while i < count
      invariant 0 <= i <= count
      invariant AllDigits(iso[pos..pos + i]) && v == Value(iso[pos..pos + i])
    {
      var c := iso[pos + i];
      if c < '0' || c > '9' {
        assert iso[pos..pos + count][i] == c;
        return -1;
      }
      assert iso[pos..pos + (i + 1)] == iso[pos..pos + i] + [c];
      v := v * 10 + (c as int - '0' as int);
      i := i + 1;
    }
  }

  /** A four-digit year is at most 9999, so the parser need not check it. */
  lemma GroupIsSmall(iso: string, pos: nat, count: nat)
    requires pos + count <= |iso|
    ensures -1 <= Group(iso, pos, count) < Pow10(count)
    ensures Pow10(4) == 10000 && Pow10(2) == 100
  {
    Pow10IsPositive(count);
    assert Pow10(1) == 10 && Pow10(3) == 1000;
    if AllDigits(iso[pos..pos + count]) {
      FixedWidthOfValue(iso[pos..pos + count]);
    }
  }

  method ParseRfc3339Utc(iso: string) returns (secs: int, ok: bool)
    ensures ok <==> WireTime(iso).Some?
    ensures secs == (if ok then WireTime(iso).value else 0)
  {
    ok := false;
    secs := 0;
    if |iso| != 20 {
      return;
    }
    if iso[4] != '-' || iso[7] != '-' || iso[10] != 'T' || iso[13] != ':' || iso[16] != ':' || iso[19] != 'Z' {
      return;
    }
    var year := ParseDigits(iso, 0, 4);
    var mon := ParseDigits(iso, 5, 2);
    var day := ParseDigits(iso, 8, 2);
    var hour := ParseDigits(iso, 11, 2);
    var min := ParseDigits(iso, 14, 2);
    var sec := ParseDigits(iso, 17, 2);
    ghost var f := Fields(year, mon, day, hour, min, sec);
    assert HasSeparators(iso) && GroupsOf(iso) == f;
    GroupIsSmall(iso, 0, 4);
    if year < 0 || mon < 1 || mon > 12 || day < 1 || day > 31 || hour < 0 || hour > 23
       || min < 0 || min > 59 || sec < 0 || sec > 59 {
      assert !InRange(f);
      return;
    }
    assert InRange(f);
    ok := true;
    CivilTime.FourDigitYearsFit(year, mon, day);
    var days := CivilTime.DaysFromCivil(year as i64, mon as u32, day as u32);
    secs := days as int * 86400 + hour * 3600 + min * 60 + sec;
    assert secs == UnixSeconds(f);
  }

  // ---- Printing ------------------------------------------------------------------------

  /** The calendar fields of an instant. */
  function FieldsAt(t: int): Fields {
    var date := CivilDate(t / 86400);
    var rem := t % 86400;
    Fields(date.y, date.m, date.d, rem / 3600, rem % 3600 / 60, rem % 60)
  }

  /** The text the printer's format string asks for. */
  function FormatText(t: int): string {
    var f := FieldsAt(t);
    DayRoundTrip(t / 86400);
    PadInt(f.year, 4) + "-" + PadNat(f.month, 2) + "-" + PadNat(f.day, 2) + "T"
    + PadNat(f.hour, 2) + ":" + PadNat(f.minute, 2) + ":" + PadNat(f.second, 2) + "Z"
  }

  /** Any 64-bit instant has a year of at most twelve digits. */
  lemma YearBound(t: int)
    requires INT64_MIN <= t <= INT64_MAX
    ensures -1_000_000_000_000 < FieldsAt(t).year < 1_000_000_000_000
  {
    var z := t / 86400;
    assert -106_751_991_167_301 <= z <= 106_751_991_167_300;
    var era, doe := (z + 719468) / 146097, (z + 719468) % 146097;
    CivilTime.DayOfEraBounds(doe);
    assert -740_000_000 < era < 740_000_000;
  }

  lemma PadWidth(n: nat, w: nat, k: nat)
    requires k >= 1 && w <= k && n < Pow10(k)
    ensures |PadNat(n, w)| <= k
  {
    DigitCount(n, k);
    ZerosAppend(if w > |Digits(n)| then w - |Digits(n)| else 0);
  }

  /** The text of any 64-bit instant leaves room in the 32-byte buffer. */
  lemma FormatFits(t: int)
    requires INT64_MIN <= t <= INT64_MAX
    ensures |FormatText(t)| <= 29
  {
    var f := FieldsAt(t);
    YearBound(t);
    DayRoundTrip(t / 86400);
    assert Pow10(2) == 100 && Pow10(1) == 10;
    PadWidth(f.month, 2, 2);
    PadWidth(f.day, 2, 2);
    PadWidth(f.hour, 2, 2);
    PadWidth(f.minute, 2, 2);
    PadWidth(f.second, 2, 2);
    assert Pow10(12) == 1_000_000_000_000 by { assert Pow10(4) == 10000; assert Pow10(8) == 100_000_000; }
    if f.year >= 0 { PadWidth(f.year, 4, 12); } else { PadWidth(-f.year, 3, 12); }
  }

  /** `snprintf` into a buffer of `size` characters, the last of which ends the string. */
  function Snprintf(size: nat, text: string): string
    requires size > 0
  {
    if |text| < size then text else text[..size - 1]
  }

  method FormatRfc3339Utc(unixSecs: i64) returns (text: string)
    ensures text == FormatText(unixSecs as int)
    ensures |text| <= 29
  {
    var days := TruncDiv(unixSecs, 86400);
    var rem := TruncMod(unixSecs, 86400);
    if rem < 0 {
      rem := rem + 86400;
      days := days - 1;
    }
    assert days as int == unixSecs as int / 86400 && rem as int == unixSecs as int % 86400;
    var y, mo, d := CivilTime.CivilFromDays(days);
    var hh := rem / 3600;
    var mm := rem % 3600 / 60;
    var ss := rem % 60;
    DayRoundTrip(days as int);
    FormatFits(unixSecs as int);
    text := Snprintf(32, PadInt(y as int, 4) + "-" + PadNat(mo as int, 2) + "-" + PadNat(d as int, 2) + "T"
                         + PadNat(hh as int, 2) + ":" + PadNat(mm as int, 2) + ":" + PadNat(ss as int, 2) + "Z");
  }

  // ---- The grammar ---------------------------------------------------------------------

  /** Where each group of a wire text sits. */
  lemma WireTextLayout(f: Fields)
    requires InRange(f)
    ensures var s := WireText(f);
            && HasSeparators(s)
            && s[0..4] == FixedWidth(f.year, 4) && s[5..7] == FixedWidth(f.month, 2)
            && s[8..10] == FixedWidth(f.day, 2) && s[11..13] == FixedWidth(f.hour, 2)
            && s[14..16] == FixedWidth(f.minute, 2) && s[17..19] == FixedWidth(f.second, 2)
  {
  }

  lemma PowersOfTen()
    ensures Pow10(2) == 100 && Pow10(4) == 10000
  {
  }

  /** The parser reads every wire text back as the fields it was made from. */
  lemma WireTextParses(f: Fields)
    requires InRange(f)
    ensures GroupsOf(WireText(f)) == f
    ensures WireTime(WireText(f)) == Some(UnixSeconds(f))
  {
    WireTextLayout(f);
    PowersOfTen();
    ValueOfFixedWidth(f.year, 4);
    ValueOfFixedWidth(f.month, 2);
    ValueOfFixedWidth(f.day, 2);
    ValueOfFixedWidth(f.hour, 2);
    ValueOfFixedWidth(f.minute, 2);
    ValueOfFixedWidth(f.second, 2);
  }

  /** The parser accepts nothing but wire texts. */
  lemma AcceptedIsWireText(iso: string)
    requires WireTime(iso).Some?
    ensures InRange(GroupsOf(iso)) && WireText(GroupsOf(iso)) == iso
  {
    var f := GroupsOf(iso);
    FixedWidthOfValue(iso[0..4]);
    FixedWidthOfValue(iso[5..7]);
    FixedWidthOfValue(iso[8..10]);
    FixedWidthOfValue(iso[11..13]);
    FixedWidthOfValue(iso[14..16]);
    FixedWidthOfValue(iso[17..19]);
    assert iso == iso[0..4] + "-" + iso[5..7] + "-" + iso[8..10] + "T"
                  + iso[11..13] + ":" + iso[14..16] + ":" + iso[17..19] + "Z";
  }

  /** The text of fields, character by character. */
  function TextOf(f: Fields): string
    requires 0 <= f.year < 10000 && 0 <= f.month < 100 && 0 <= f.day < 100
    requires 0 <= f.hour < 100 && 0 <= f.minute < 100 && 0 <= f.second < 100
  {
    var digit := "0123456789";
    [digit[f.year / 1000], digit[f.year / 100 % 10], digit[f.year / 10 % 10], digit[f.year % 10], '-',
     digit[f.month / 10], digit[f.month % 10], '-', digit[f.day / 10], digit[f.day % 10], 'T',
     digit[f.hour / 10], digit[f.hour % 10], ':', digit[f.minute / 10], digit[f.minute % 10], ':',
     digit[f.second / 10], digit[f.second % 10], 'Z']
  }

  lemma JoinGroups(y: string, mo: string, d: string, h: string, mi: string, s: string)
    requires |y| == 4 && |mo| == |d| == |h| == |mi| == |s| == 2
    ensures y + "-" + mo + "-" + d + "T" + h + ":" + mi + ":" + s + "Z"
            == [y[0], y[1], y[2], y[3], '-', mo[0], mo[1], '-', d[0], d[1], 'T',
                h[0], h[1], ':', mi[0], mi[1], ':', s[0], s[1], 'Z']
  {
  }

  lemma WireTextByPosition(f: Fields)
    requires InRange(f)
    ensures WireText(f) == TextOf(f)
  {
    JoinGroups(FixedWidth(f.year, 4), FixedWidth(f.month, 2), FixedWidth(f.day, 2),
               FixedWidth(f.hour, 2), FixedWidth(f.minute, 2), FixedWidth(f.second, 2));
    FourDigits(f.year);
    TwoDigits(f.month);
    TwoDigits(f.day);
    TwoDigits(f.hour);
    TwoDigits(f.minute);
    TwoDigits(f.second);
  }

  lemma TextParses(f: Fields)
    requires InRange(f)
    ensures WireTime(TextOf(f)) == Some(UnixSeconds(f))
  {
    WireTextByPosition(f);
    WireTextParses(f);
  }

  lemma AcceptedFields(iso: string)
    requires WireTime(iso).Some?
    ensures InRange(GroupsOf(iso)) && iso == TextOf(GroupsOf(iso)) && WireTime(iso).value == UnixSeconds(GroupsOf(iso))
  {
    AcceptedIsWireText(iso);
    WireTextByPosition(GroupsOf(iso));
  }

  /** Acceptance is exactly the grammar, and gives exactly the seconds of the fields. */
  lemma AcceptsExactlyTheGrammar(iso: string, t: int)
    ensures WireTime(iso) == Some(t) <==>
            exists f: Fields ::
              && 0 <= f.year <= 9999 && 1 <= f.month <= 12 && 1 <= f.day <= 31
              && 0 <= f.hour <= 23 && 0 <= f.minute <= 59 && 0 <= f.second <= 59
              && iso == TextOf(f) && t == UnixSeconds(f)
  {
    if WireTime(iso) == Some(t) {
      AcceptedFields(iso);
    }
    forall f: Fields | InRange(f) && iso == TextOf(f)
      ensures WireTime(iso) == Some(UnixSeconds(f))
    {
      TextParses(f);
    }
  }
}
