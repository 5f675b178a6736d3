/** Laws of the timestamp codec: printing and parsing undo each other, and the byte order
    of wire texts is the order of the instants they denote (section 5.1 of RFC 3339). */
module TimestampLaws {
  import opened Wrappers
  import opened Calendar
  import opened Decimal
  import opened Timestamps

  // ---- Instants and their fields -----------------------------------------------------------

  lemma SecondsOfDay(rem: int)
    requires 0 <= rem < 86400
    ensures rem == rem / 3600 * 3600 + rem % 3600 / 60 * 60 + rem % 60
    ensures 0 <= rem / 3600 <= 23 && 0 <= rem % 3600 / 60 <= 59
  {
  }

  lemma FieldsAtAreExact(t: int)
    ensures UnixSeconds(FieldsAt(t)) == t && DayExists(FieldsAt(t))
    ensures 0 <= FieldsAt(t).year <= 9999 ==> InRange(FieldsAt(t))
  {
    DayRoundTrip(t / 86400);
    SecondsOfDay(t % 86400);
  }

  lemma SecondsSplit(days: int, hour: int, minute: int, second: int)
    requires 0 <= hour <= 23 && 0 <= minute <= 59 && 0 <= second <= 59
    ensures var t := days * 86400 + hour * 3600 + minute * 60 + second;
            && t / 86400 == days && t % 86400 / 3600 == hour
            && t % 86400 % 3600 / 60 == minute && t % 86400 % 60 == second
  {
    var rem := hour * 3600 + minute * 60 + second;
    assert (days * 86400 + rem) / 86400 == days && (days * 86400 + rem) % 86400 == rem;
  }

  lemma FieldsAreRecovered(f: Fields)
    requires InRange(f) && DayExists(f)
    ensures FieldsAt(UnixSeconds(f)) == f
  {
    var date := Date(f.year, f.month, f.day);
    DateRoundTrip(date);
    SecondsSplit(DateNumber(date), f.hour, f.minute, f.second);
  }

  /** The instant of a time of day on the date that lies `n` calendar days after the epoch. */
  lemma SecondsAreCounted(n: nat, hour: int, minute: int, second: int)
    ensures var date := Walk(Date(1970, 1, 1), n);
            UnixSeconds(Fields(date.y, date.m, date.d, hour, minute, second)) == n * 86400 + hour * 3600 + minute * 60 + second
  {
    EpochIsDayZero(Date(1970, 1, 1), 0);
    WalkCounts(Date(1970, 1, 1), n);
  }

  // ---- Printing, then parsing ----------------------------------------------------------------

  lemma FormatIsWireText(t: int)
    requires 0 <= FieldsAt(t).year <= 9999
    ensures InRange(FieldsAt(t)) && FormatText(t) == WireText(FieldsAt(t))
  {
    var f := FieldsAt(t);
    FieldsAtAreExact(t);
    PowersOfTen();
    PadIsFixedWidth(f.year, 4);
    PadIsFixedWidth(f.month, 2);
    PadIsFixedWidth(f.day, 2);
    PadIsFixedWidth(f.hour, 2);
    PadIsFixedWidth(f.minute, 2);
    PadIsFixedWidth(f.second, 2);
  }

  lemma PadIsWide(n: nat)
    ensures |PadNat(n, 2)| >= 2
  {
  }

  /** A year outside 0..9999 prints as something the parser refuses. */
  lemma OtherYearsAreRefused(t: int)
    requires !(0 <= FieldsAt(t).year <= 9999)
    ensures WireTime(FormatText(t)).None?
  {
    var f := FieldsAt(t);
    DayRoundTrip(t / 86400);
    if f.year < 0 {
      assert FormatText(t)[0] == '-';
      if |FormatText(t)| == 20 {
        assert FormatText(t)[0..4][0] == '-';
      }
    } else {
      PowersOfTen();
      DigitCount(f.year, 4);
      PadIsWide(f.month);
      PadIsWide(f.day);
      PadIsWide(f.hour);
      PadIsWide(f.minute);
      PadIsWide(f.second);
    }
  }

  /** Parsing what was printed returns the instant exactly when its year has four digits. */
  lemma PrintThenParse(t: int)
    ensures WireTime(FormatText(t)) == if 0 <= FieldsAt(t).year <= 9999 then Some(t) else None
  {
    if 0 <= FieldsAt(t).year <= 9999 {
      FormatIsWireText(t);
      WireTextParses(FieldsAt(t));
      FieldsAtAreExact(t);
    } else {
      OtherYearsAreRefused(t);
    }
  }

  // ---- Parsing, then printing ----------------------------------------------------------------

  /** A day past the end of its month counts on into the next month. */
  function Rolled(f: Fields): Fields {
    if DayExists(f) then f
    else f.(month := f.month + 1, day := f.day - DaysInMonth(f.year, f.month))
  }

  lemma DayNumberIsLinear(y: int, m: int, d: int, d': int)
    ensures DayNumber(y, m, d') == DayNumber(y, m, d) + (d' - d)
  {
  }

  lemma RolledIsSameInstant(f: Fields)
    requires InRange(f)
    ensures InRange(Rolled(f)) && DayExists(Rolled(f))
    ensures UnixSeconds(Rolled(f)) == UnixSeconds(f)
  {
    if !DayExists(f) {
      var last := Date(f.year, f.month, DaysInMonth(f.year, f.month));
      NextDayAddsOne(last);
      DayNumberIsLinear(f.year, f.month, last.d, f.day);
      DayNumberIsLinear(f.year, f.month + 1, 1, Rolled(f).day);
    }
  }

  /** Printing what was parsed returns the text exactly when the day exists; otherwise it is
      the date rolled into the next month, and denotes the same instant. */
  lemma ParseThenPrint(iso: string)
    requires WireTime(iso).Some?
    ensures InRange(Rolled(GroupsOf(iso)))
    ensures var printed := FormatText(WireTime(iso).value);
            && printed == WireText(Rolled(GroupsOf(iso)))
            && (printed == iso <==> DayExists(GroupsOf(iso)))
            && WireTime(printed) == WireTime(iso)
  {
    var f := GroupsOf(iso);
    AcceptedIsWireText(iso);
    RolledIsSameInstant(f);
    FieldsAreRecovered(Rolled(f));
    FormatIsWireText(UnixSeconds(f));
    WireTextParses(f);
    WireTextParses(Rolled(f));
  }

  lemma MidnightOfDayZero(f: Fields)
    requires DayNumber(f.year, f.month, f.day) == 0 && f.hour == f.minute == f.second == 0
    ensures UnixSeconds(f) == 0
  {
  }

  lemma MidnightOfEpoch(f: Fields, date: Date)
    requires date == Date(1970, 1, 1) == Date(f.year, f.month, f.day)
    requires f.hour == f.minute == f.second == 0
    ensures UnixSeconds(f) == 0
  {
    EpochIsDayZero(date, DateNumber(date));
    MidnightOfDayZero(f);
  }

  lemma EpochExists(f: Fields, date: Date)
    requires date == Date(1970, 1, 1) == Date(f.year, f.month, f.day)
    ensures DayExists(f)
  {
    EpochIsDayZero(date, DateNumber(date));
    assert ValidDate(date);
  }

  lemma EpochText(f: Fields)
    requires f.year == 1970 && f.month == f.day == 1 && f.hour == f.minute == f.second == 0
    ensures InRange(f) && TextOf(f) == "1970-01-01T00:00:00Z"
  {
  }

  lemma EpochFields() returns (f: Fields)
    ensures InRange(f) && DayExists(f) && UnixSeconds(f) == 0 && TextOf(f) == "1970-01-01T00:00:00Z"
  {
    f := Fields(1970, 1, 1, 0, 0, 0);
    EpochText(f);
    MidnightOfEpoch(f, Date(f.year, f.month, f.day));
    EpochExists(f, Date(f.year, f.month, f.day));
  }

  /** A text whose fields denote second 0 is the only text of it. */
  lemma TextOfSecondZero(f: Fields, t: int, iso: string)
    requires InRange(f) && DayExists(f) && UnixSeconds(f) == 0 && iso == TextOf(f)
    ensures WireTime(iso) == Some(t) <==> t == 0
    ensures FormatText(t) == iso <==> t == 0
  {
    TextParses(f);
    WireTextByPosition(f);
    WireTextParses(f);
    ParseThenPrint(iso);
    PrintThenParse(t);
  }

  /** The text of the epoch is that of second 0, and of no other. */
  lemma EpochIsSecondZero(t: int, iso: string)
    requires iso == "1970-01-01T00:00:00Z"
    ensures WireTime(iso) == Some(t) <==> t == 0
    ensures FormatText(t) == iso <==> t == 0
  {
    var f := EpochFields();
    TextOfSecondZero(f, t, iso);
  }

  lemma PairOfDigits(n: nat)
    requires n < 100
    ensures PadNat(n, 2) == ["0123456789"[n / 10], "0123456789"[n % 10]]
  {
    PowersOfTen();
    PadIsFixedWidth(n, 2);
    TwoDigits(n);
  }

  /** The sixteen characters after the year. */
  function AfterYear(f: Fields): string
    requires 1 <= f.month <= 12 && 1 <= f.day <= 31 && 0 <= f.hour <= 23 && 0 <= f.minute <= 59 && 0 <= f.second <= 59
  {
    var digit := "0123456789";
    ['-', digit[f.month / 10], digit[f.month % 10], '-', digit[f.day / 10], digit[f.day % 10], 'T',
     digit[f.hour / 10], digit[f.hour % 10], ':', digit[f.minute / 10], digit[f.minute % 10], ':',
     digit[f.second / 10], digit[f.second % 10], 'Z']
  }

  lemma JoinPairs(y: string, mo: string, d: string, h: string, mi: string, s: string)
    requires |mo| == |d| == |h| == |mi| == |s| == 2
    ensures y + "-" + mo + "-" + d + "T" + h + ":" + mi + ":" + s + "Z"
            == y + ['-', mo[0], mo[1], '-', d[0], d[1], 'T', h[0], h[1], ':', mi[0], mi[1], ':', s[0], s[1], 'Z']
  {
  }

  lemma FieldRanges(t: int)
    ensures var f := FieldsAt(t);
            1 <= f.month <= 12 && 1 <= f.day <= 31 && 0 <= f.hour <= 23 && 0 <= f.minute <= 59 && 0 <= f.second <= 59
  {
    FieldsAtAreExact(t);
    SecondsOfDay(t % 86400);
  }

  /** The year, and then those sixteen. */
  lemma FormatSplits(t: int, f: Fields)
    requires f == FieldsAt(t)
    requires 1 <= f.month <= 12 && 1 <= f.day <= 31 && 0 <= f.hour <= 23 && 0 <= f.minute <= 59 && 0 <= f.second <= 59
    ensures FormatText(t) == PadInt(f.year, 4) + AfterYear(f)
  {
    PairOfDigits(f.month);
    PairOfDigits(f.day);
    PairOfDigits(f.hour);
    PairOfDigits(f.minute);
    PairOfDigits(f.second);
    JoinPairs(PadInt(f.year, 4), PadNat(f.month, 2), PadNat(f.day, 2), PadNat(f.hour, 2), PadNat(f.minute, 2), PadNat(f.second, 2));
  }

  lemma YearIsNumeral(year: int)
    ensures year >= 0 ==> IsNumeral(PadInt(year, 4), year, 4)
    ensures year < 0 ==> PadInt(year, 4) != "" && PadInt(year, 4)[0] == '-' && IsNumeral(PadInt(year, 4)[1..], -year, 3)
  {
    if year >= 0 {
      PadNatIsNumeral(year, 4);
    } else {
      PadNatIsNumeral(-year, 3);
    }
  }

  /** The printed text of any instant: the year in at least four places, sign included, and no
      leading zero beyond them; then the rest in sixteen characters. */
  lemma FormatIsExact(t: int) returns (year: string)
    ensures var f := FieldsAt(t);
            && 1 <= f.month <= 12 && 1 <= f.day <= 31 && 0 <= f.hour <= 23 && 0 <= f.minute <= 59 && 0 <= f.second <= 59
            && FormatText(t) == year + AfterYear(f)
            && (f.year >= 0 ==> IsNumeral(year, f.year, 4))
            && (f.year < 0 ==> year != "" && year[0] == '-' && IsNumeral(year[1..], -f.year, 3))
  {
    var f := FieldsAt(t);
    year := PadInt(f.year, 4);
    FieldRanges(t);
    FormatSplits(t, f);
    YearIsNumeral(f.year);
  }

  // ---- Order ---------------------------------------------------------------------------------

  /** Byte-lexicographic order of strings. */
  predicate LexLess(a: string, b: string) {
    b != "" && (a == "" || a[0] < b[0] || (a[0] == b[0] && LexLess(a[1..], b[1..])))
  }

  lemma {:induction false} LexSplit(a: string, a': string, b: string, b': string)
    requires |a| == |b|
    ensures LexLess(a + a', b + b') <==> LexLess(a, b) || (a == b && LexLess(a', b'))
  {
    if a == "" {
      assert a + a' == a' && b + b' == b';
    } else {
      LexSplit(a[1..], a', b[1..], b');
      assert (a + a')[1..] == a[1..] + a' && (b + b')[1..] == b[1..] + b';
      assert a == [a[0]] + a[1..] && b == [b[0]] + b[1..];
    }
  }

  /** Digit strings of one length are ordered as the numbers they denote. */
  lemma {:induction false} LexOrdersNumbers(a: string, b: string)
    requires |a| == |b| && AllDigits(a) && AllDigits(b)
    ensures LexLess(a, b) <==> Value(a) < Value(b)
    ensures a == b <==> Value(a) == Value(b)
  {
    FixedWidthOfValue(a);
    FixedWidthOfValue(b);
    if a == "" {
    } else {
      var n := |a| - 1;
      LexOrdersNumbers(a[..n], b[..n]);
      LexSplit(a[..n], a[n..], b[..n], b[n..]);
      assert a == a[..n] + a[n..] && b == b[..n] + b[n..];
      assert a[n..] == [a[n]] && b[n..] == [b[n]];
    }
  }

  /** One fixed-width number and the separator after it decide the order, or leave it to the rest. */
  lemma LexGroup(m: nat, n: nat, w: nat, sep: string, p: string, q: string)
    requires m < Pow10(w) && n < Pow10(w) && |sep| == 1
    ensures LexLess(FixedWidth(m, w) + sep + p, FixedWidth(n, w) + sep + q)
            <==> m < n || (m == n && LexLess(p, q))
  {
    var a, b := FixedWidth(m, w), FixedWidth(n, w);
    ValueOfFixedWidth(m, w);
    ValueOfFixedWidth(n, w);
    LexOrdersNumbers(a, b);
    LexSplit(a + sep, p, b + sep, q);
    LexSplit(a, sep, b, sep);
    assert (a + sep)[..w] == a && (b + sep)[..w] == b;
    assert sep[1..] == "";
  }

  /** Fields in reading order. */
  predicate FieldsBefore(f: Fields, g: Fields) {
    f.year < g.year || (f.year == g.year && (
    f.month < g.month || (f.month == g.month && (
    f.day < g.day || (f.day == g.day && (
    f.hour < g.hour || (f.hour == g.hour && (
    f.minute < g.minute || (f.minute == g.minute &&
    f.second < g.second)))))))))
  }

  function TimeText(f: Fields): string
    requires InRange(f)
  {
    FixedWidth(f.hour, 2) + ":" + (FixedWidth(f.minute, 2) + ":" + (FixedWidth(f.second, 2) + "Z" + ""))
  }

  lemma WireTextSplits(f: Fields)
    requires InRange(f)
    ensures WireText(f) == FixedWidth(f.year, 4) + "-" + (FixedWidth(f.month, 2) + "-"
                           + (FixedWidth(f.day, 2) + "T" + TimeText(f)))
  {
  }

  lemma TimeTextOrder(f: Fields, g: Fields)
    requires InRange(f) && InRange(g)
    ensures LexLess(TimeText(f), TimeText(g)) <==>
            f.hour < g.hour || (f.hour == g.hour && (
            f.minute < g.minute || (f.minute == g.minute && f.second < g.second)))
  {
    PowersOfTen();
    var sf, sg := FixedWidth(f.second, 2) + "Z" + "", FixedWidth(g.second, 2) + "Z" + "";
    var mf, mg := FixedWidth(f.minute, 2) + ":" + sf, FixedWidth(g.minute, 2) + ":" + sg;
    LexGroup(f.second, g.second, 2, "Z", "", "");
    LexGroup(f.minute, g.minute, 2, ":", sf, sg);
    LexGroup(f.hour, g.hour, 2, ":", mf, mg);
  }

  lemma WireTextOrder(f: Fields, g: Fields)
    requires InRange(f) && InRange(g)
    ensures LexLess(WireText(f), WireText(g)) <==> FieldsBefore(f, g)
  {
    PowersOfTen();
    var df, dg := FixedWidth(f.day, 2) + "T" + TimeText(f), FixedWidth(g.day, 2) + "T" + TimeText(g);
    var mf, mg := FixedWidth(f.month, 2) + "-" + df, FixedWidth(g.month, 2) + "-" + dg;
    WireTextSplits(f);
    WireTextSplits(g);
    TimeTextOrder(f, g);
    LexGroup(f.day, g.day, 2, "T", TimeText(f), TimeText(g));
    LexGroup(f.month, g.month, 2, "-", df, dg);
    LexGroup(f.year, g.year, 4, "-", mf, mg);
  }

  lemma DaysThenSeconds(days: int, h: int, m: int, s: int, days': int, h': int, m': int, s': int)
    requires 0 <= h <= 23 && 0 <= m <= 59 && 0 <= s <= 59
    requires 0 <= h' <= 23 && 0 <= m' <= 59 && 0 <= s' <= 59
    ensures days * 86400 + h * 3600 + m * 60 + s < days' * 86400 + h' * 3600 + m' * 60 + s'
            <==> days < days' || (days == days' && (h < h' || (h == h' && (m < m' || (m == m' && s < s')))))
  {
  }

  lemma SecondsOrder(f: Fields, g: Fields)
    requires InRange(f) && InRange(g) && DayExists(f) && DayExists(g)
    ensures FieldsBefore(f, g) <==> UnixSeconds(f) < UnixSeconds(g)
  {
    var a, b := Date(f.year, f.month, f.day), Date(g.year, g.month, g.day);
    DayNumberIsMonotone(a, b);
    DayNumberIsMonotone(b, a);
    DaysThenSeconds(DateNumber(a), f.hour, f.minute, f.second, DateNumber(b), g.hour, g.minute, g.second);
  }

  /** Two accepted timestamps whose days exist sort as bytes the way they sort in time,
      and are equal exactly when they denote the same instant. */
  lemma ByteOrderIsTimeOrder(a: string, b: string)
    requires WireTime(a).Some? && DayExists(GroupsOf(a))
    requires WireTime(b).Some? && DayExists(GroupsOf(b))
    ensures LexLess(a, b) <==> WireTime(a).value < WireTime(b).value
    ensures a == b <==> WireTime(a) == WireTime(b)
  {
    AcceptedIsWireText(a);
    AcceptedIsWireText(b);
    WireTextOrder(GroupsOf(a), GroupsOf(b));
    SecondsOrder(GroupsOf(a), GroupsOf(b));
    ParseThenPrint(a);
    ParseThenPrint(b);
  }

  /** Without the day check neither holds: 31 February sorts before 1 March, and is later. */
  lemma MissingDayBreaksOrder()
    ensures var a, b := WireText(Fields(2023, 2, 31, 0, 0, 0)), WireText(Fields(2023, 3, 1, 0, 0, 0));
            && WireTime(a).Some? && WireTime(b).Some?
            && LexLess(a, b) && WireTime(a).value > WireTime(b).value
    ensures var c := WireText(Fields(2023, 3, 3, 0, 0, 0));
            && c != WireText(Fields(2023, 2, 31, 0, 0, 0))
            && WireTime(c) == WireTime(WireText(Fields(2023, 2, 31, 0, 0, 0)))
  {
    var f, g, h := Fields(2023, 2, 31, 0, 0, 0), Fields(2023, 3, 1, 0, 0, 0), Fields(2023, 3, 3, 0, 0, 0);
    WireTextParses(f);
    WireTextParses(g);
    WireTextParses(h);
    WireTextOrder(f, g);
    RolledIsSameInstant(f);
    assert Rolled(f) == h;
    SecondsOrder(g, h);
  }

  /** What an accepted text prints as: the same instant, with a day that exists. */
  lemma PrintedForm(a: string) returns (b: string)
    requires WireTime(a).Some?
    ensures WireTime(b) == WireTime(a) && DayExists(GroupsOf(b))
    ensures b == a <==> DayExists(GroupsOf(a))
    ensures LexLess(a, b) <==> FieldsBefore(GroupsOf(a), GroupsOf(b))
    ensures b != a ==> FieldsBefore(GroupsOf(a), GroupsOf(b))
  {
    var f := GroupsOf(a);
    b := FormatText(WireTime(a).value);
    AcceptedIsWireText(a);
    ParseThenPrint(a);
    RolledIsSameInstant(f);
    WireTextParses(Rolled(f));
    WireTextOrder(f, Rolled(f));
  }

  /** An accepted timestamp sorts as it should against all those whose days exist exactly when
      its own day exists. */
  lemma ByteOrderIsTimeOrderIffDayExists(a: string)
    requires WireTime(a).Some?
    ensures DayExists(GroupsOf(a))
            <==> forall b :: WireTime(b).Some? && DayExists(GroupsOf(b))
                             ==> (LexLess(a, b) <==> WireTime(a).value < WireTime(b).value)
  {
    if DayExists(GroupsOf(a)) {
      forall b | WireTime(b).Some? && DayExists(GroupsOf(b))
        ensures LexLess(a, b) <==> WireTime(a).value < WireTime(b).value
      {
        ByteOrderIsTimeOrder(a, b);
      }
    } else {
      var b := PrintedForm(a);
      assert LexLess(a, b) && WireTime(a).value == WireTime(b).value;
    }
  }

  /** And it shares its instant with none of them exactly when its own day exists. */
  lemma ParsingIsInjectiveIffDayExists(a: string)
    requires WireTime(a).Some?
    ensures DayExists(GroupsOf(a))
            <==> forall b :: WireTime(b) == WireTime(a) && DayExists(GroupsOf(b)) ==> a == b
  {
    if DayExists(GroupsOf(a)) {
      forall b | WireTime(b) == WireTime(a) && DayExists(GroupsOf(b))
        ensures a == b
      {
        ByteOrderIsTimeOrder(a, b);
      }
    } else {
      var b := PrintedForm(a);
      assert WireTime(b) == WireTime(a) && b != a;
    }
  }
}
