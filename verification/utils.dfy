/** The time-lock and date helpers of `utils.py`: parsing of `YYYY-MM-DD`
    dates (the `full-date` production of section 5.6 of RFC 3339, with the
    month-length and leap-year restrictions of section 5.7), the `is_unlocked`
    predicate, and the filename-safe creation timestamp. The current date and
    the current instant are parameters. */
module Utils {
  import opened Wrappers
  import StrOrder

  /** A calendar date, as `datetime.date` holds it. */
  datatype Date = Date(year: int, month: int, day: int)

  /** An instant, as `datetime.datetime` holds it (naive local time). */
  datatype DateTime = DateTime(date: Date, hour: int, minute: int, second: int, microsecond: int)

  predicate IsLeapYear(y: int)
  {
    y % 4 == 0 && (y % 100 != 0 || y % 400 == 0)
  }

  function DaysInMonth(y: int, m: int): int
    requires 1 <= m <= 12
  {
    if m == 2 then (if IsLeapYear(y) then 29 else 28)
    else if m == 4 || m == 6 || m == 9 || m == 11 then 30
    else 31
  }

  /** The dates `datetime.date` can represent: years 1 to 9999, real days. */
  predicate ValidDate(d: Date)
  {
    1 <= d.year <= 9999 && 1 <= d.month <= 12 && 1 <= d.day <= DaysInMonth(d.year, d.month)
  }

  predicate ValidDateTime(t: DateTime)
  {
    && ValidDate(t.date)
    && 0 <= t.hour < 24 && 0 <= t.minute < 60 && 0 <= t.second < 60
    && 0 <= t.microsecond < 1000000
  }

  /** `a <= b` on `datetime.date`. */
  predicate DateLe(a: Date, b: Date)
  {
    a.year < b.year
    || (a.year == b.year && (a.month < b.month || (a.month == b.month && a.day <= b.day)))
  }

  /** `a < b` on `datetime.datetime`: field by field, most significant first. */
  predicate Before(a: DateTime, b: DateTime)
  {
    if a.date != b.date then DateLe(a.date, b.date)
    else if a.hour != b.hour then a.hour < b.hour
    else if a.minute != b.minute then a.minute < b.minute
    else if a.second != b.second then a.second < b.second
    else a.microsecond < b.microsecond
  }

  // ---------------------------------------------------------------- digits

  predicate IsDigit(c: char)
  {
    '0' <= c <= '9'
  }

  predicate AllDigits(s: string)
  {
    forall i | 0 <= i < |s| :: IsDigit(s[i])
  }

  function Pow10(w: nat): nat
  {
    if w == 0 then 1 else 10 * Pow10(w - 1)
  }

  function DigitChar(v: int): char
    requires 0 <= v < 10
  {
    (48 + v) as char
  }

  /** The value of a string of ASCII digits, most significant first. */
  function DigitsValue(s: string): nat
    requires AllDigits(s)
    decreases |s|
  {
    if |s| == 0 then 0 else DigitsValue(s[..|s| - 1]) * 10 + (s[|s| - 1] as int - 48)
  }

  /** `n` written with exactly `w` digits, zero-filled on the left (`%0wd`). */
  function Pad(n: nat, w: nat): (r: string)
    ensures |r| == w && AllDigits(r)
    decreases w
  {
    if w == 0 then "" else Pad(n / 10, w - 1) + [DigitChar(n % 10)]
  }

  lemma {:induction false} PadValue(n: nat, w: nat)
    requires n < Pow10(w)
    ensures DigitsValue(Pad(n, w)) == n
    decreases w
  {
    if w > 0 {
      PadValue(n / 10, w - 1);
      var p := Pad(n, w);
      assert p[..w - 1] == Pad(n / 10, w - 1);
    }
  }

  lemma {:induction false} ValuePad(s: string)
    requires AllDigits(s)
    ensures DigitsValue(s) < Pow10(|s|)
    ensures Pad(DigitsValue(s), |s|) == s
    decreases |s|
  {
    if |s| > 0 {
      var init := s[..|s| - 1];
      ValuePad(init);
      var v := DigitsValue(s);
      assert v / 10 == DigitsValue(init) && v % 10 == s[|s| - 1] as int - 48;
      assert s == init + [s[|s| - 1]];
    }
  }

  /** Zero-filled numbers of one width sort as the numbers do. */
  lemma {:induction false} PadLess(u: nat, v: nat, w: nat)
    requires u < v < Pow10(w)
    ensures StrOrder.Less(Pad(u, w), Pad(v, w))
    decreases w
  {
    if u / 10 < v / 10 {
      PadLess(u / 10, v / 10, w - 1);
      StrOrder.LessAppend(Pad(u / 10, w - 1), Pad(v / 10, w - 1), [DigitChar(u % 10)], [DigitChar(v % 10)]);
    } else {
      assert u / 10 == v / 10 && u % 10 < v % 10;
      StrOrder.LessCommonPrefix(Pad(u / 10, w - 1), [DigitChar(u % 10)], [DigitChar(v % 10)]);
    }
  }

  // ---------------------------------------------------------------- dates

  /** `date.isoformat()`: `YYYY-MM-DD`. */
  function FormatDate(d: Date): (s: string)
    requires ValidDate(d)
  {
    Pad(d.year, 4) + "-" + Pad(d.month, 2) + "-" + Pad(d.day, 2)
  }

  /** `datetime.date.fromisoformat(s)`: exactly ten characters, `-` at
      positions 4 and 7, ASCII digits elsewhere, and a real calendar date;
      `None` where Python raises `ValueError`. */
  function ParseIsoDate(s: string): (r: Option<Date>)
    ensures r.Some? ==> ValidDate(r.value) && FormatDate(r.value) == s
  {
    if |s| == 10 && s[4] == '-' && s[7] == '-'
       && AllDigits(s[0..4]) && AllDigits(s[5..7]) && AllDigits(s[8..10]) then
      var d := Date(DigitsValue(s[0..4]), DigitsValue(s[5..7]), DigitsValue(s[8..10]));
      if ValidDate(d) then
        ValuePad(s[0..4]);
        ValuePad(s[5..7]);
        ValuePad(s[8..10]);
        assert s == s[0..4] + "-" + s[5..7] + "-" + s[8..10];
        Some(d)
      else None
    else None
  }

  /** The positions of the three fields in `YYYY-MM-DD`. */
  lemma DateParts(y: string, m: string, d: string)
    requires |y| == 4 && |m| == 2 && |d| == 2
    ensures var s := y + "-" + m + "-" + d;
      |s| == 10 && s[4] == '-' && s[7] == '-' && s[0..4] == y && s[5..7] == m && s[8..10] == d
  {
  }

  /** Every real date is read back from its own text. */
  lemma ParseFormat(d: Date)
    requires ValidDate(d)
    ensures ParseIsoDate(FormatDate(d)) == Some(d)
  {
    DateParts(Pad(d.year, 4), Pad(d.month, 2), Pad(d.day, 2));
    Pow10Values();
    PadValue(d.year, 4);
    PadValue(d.month, 2);
    PadValue(d.day, 2);
  }

  /** `validate_date(s)`. */
  predicate ValidateDate(s: string)
  {
    ParseIsoDate(s).Some?
  }

  /** `validate_date` accepts exactly the texts of real calendar dates. */
  lemma ValidateDateExactly(s: string)
    ensures ValidateDate(s) <==> exists d :: ValidDate(d) && FormatDate(d) == s
  {
    if exists d :: ValidDate(d) && FormatDate(d) == s {
      var d :| ValidDate(d) && FormatDate(d) == s;
      ParseFormat(d);
    }
  }

  lemma TwoDigits(a: char, b: char)
    requires IsDigit(a) && IsDigit(b)
    ensures DigitsValue([a, b]) == (a as int - 48) * 10 + (b as int - 48)
  {
    assert [a][..0] == [];
    assert DigitsValue([a]) == a as int - 48;
    assert [a, b][..1] == [a];
  }

  /** February 29 of a year is accepted exactly in leap years: every fourth
      year, but of the centuries only those divisible by 400. */
  lemma LeapDay(y: int)
    requires 1 <= y <= 9999
    ensures ValidateDate(Pad(y, 4) + "-02-29") <==> IsLeapYear(y)
  {
    var s := Pad(y, 4) + "-02-29";
    assert s == Pad(y, 4) + "-" + "02" + "-" + "29";
    DateParts(Pad(y, 4), "02", "29");
    Pow10Values();
    PadValue(y, 4);
    assert "02" == ['0', '2'] && "29" == ['2', '9'];
    TwoDigits('0', '2');
    TwoDigits('2', '9');
    assert ParseIsoDate(s) == if ValidDate(Date(y, 2, 29)) then Some(Date(y, 2, 29)) else None;
  }

  /** Only the exact `YYYY-MM-DD` form is read. */
  lemma FormExamples()
    ensures !ValidateDate("2024-1-01") && !ValidateDate("2024/01/01") && !ValidateDate("")
    ensures !ValidateDate(" 2024-01-01") && !ValidateDate("2024-01-01T00:00")
  {
  }

  /** A valid date text holds only digits and `-`, so never the metadata delimiter. */
  lemma ValidDateHasNoDelimiter(s: string)
    requires ValidateDate(s)
    ensures '|' !in s
  {
    var d := ParseIsoDate(s).value;
    assert s == FormatDate(d);
  }

  /** `is_unlocked(s)` with `date.today()` passed in as `today`: parse, then
      `today >= unlock_date`; an unparseable text is locked. */
  predicate IsUnlocked(s: string, today: Date)
  {
    match ParseIsoDate(s)
    case None => false
    case Some(d) => DateLe(d, today)
  }

  /** For a real date, unlocked exactly from that day on. */
  lemma UnlockedExactly(d: Date, today: Date)
    requires ValidDate(d)
    ensures IsUnlocked(FormatDate(d), today) <==> DateLe(d, today)
  {
    ParseFormat(d);
  }

  /** The comparison is `>=`: a capsule opens on its unlock day itself. */
  lemma UnlockedOnTheDay(d: Date)
    requires ValidDate(d)
    ensures IsUnlocked(FormatDate(d), d)
  {
    ParseFormat(d);
  }

  /** Fail closed: text that does not parse is never unlocked. */
  lemma FailClosed(s: string, today: Date)
    requires !ValidateDate(s)
    ensures !IsUnlocked(s, today)
  {
  }

  lemma UnlockedIsValid(s: string, today: Date)
    requires IsUnlocked(s, today)
    ensures ValidateDate(s)
  {
  }

  /** Once unlocked, unlocked on every later day. */
  lemma UnlockedMonotone(s: string, today: Date, later: Date)
    requires IsUnlocked(s, today) && DateLe(today, later)
    ensures IsUnlocked(s, later)
  {
  }

  // ---------------------------------------------------------------- timestamps

  /** `s.replace(':', '-')`. */
  function ReplaceColons(s: string): (r: string)
    ensures |r| == |s| && ':' !in r
    ensures forall i | 0 <= i < |s| && s[i] != ':' :: r[i] == s[i]
    ensures forall i | 0 <= i < |s| && s[i] == ':' :: r[i] == '-'
    decreases |s|
  {
    if |s| == 0 then "" else [if s[0] == ':' then '-' else s[0]] + ReplaceColons(s[1..])
  }

  /** One zero-filled field followed by a separator and the rest of the text. */
  function Field(v: nat, w: nat, sep: char, rest: string): string
  {
    Pad(v, w) + ([sep] + rest)
  }

  /** `.ffffff`, or nothing for a whole second. */
  function Fraction(us: nat): string
  {
    if us == 0 then "" else "." + Pad(us, 6)
  }

  /** `YYYY-MM-DDTHH?MM?SS[.ffffff]` with `sep` between the time fields. */
  function Render(t: DateTime, sep: char): string
    requires ValidDateTime(t)
  {
    Field(t.date.year, 4, '-', Field(t.date.month, 2, '-', Field(t.date.day, 2, 'T',
      Field(t.hour, 2, sep, Field(t.minute, 2, sep, Pad(t.second, 2) + Fraction(t.microsecond))))))
  }

  /** `t.isoformat()` with the default separator and `timespec='auto'`: the
      fraction is written only when the microsecond is not zero. */
  function IsoFormat(t: DateTime): string
    requires ValidDateTime(t)
  {
    Render(t, ':')
  }

  /** `get_current_timestamp()` with `datetime.now()` passed in as `now`. */
  function CurrentTimestamp(now: DateTime): string
    requires ValidDateTime(now)
  {
    ReplaceColons(IsoFormat(now))
  }

  lemma {:induction false} ReplaceColonsAppend(a: string, b: string)
    ensures ReplaceColons(a + b) == ReplaceColons(a) + ReplaceColons(b)
    decreases |a|
  {
    if |a| > 0 {
      ReplaceColonsAppend(a[1..], b);
      assert (a + b)[1..] == a[1..] + b;
    } else {
      assert a + b == b;
    }
  }

  lemma ReplaceColonsDigits(s: string)
    requires AllDigits(s)
    ensures ReplaceColons(s) == s
  {
  }

  lemma ReplaceColonsField(v: nat, w: nat, sep: char, rest: string)
    ensures ReplaceColons(Field(v, w, sep, rest))
         == Field(v, w, if sep == ':' then '-' else sep, ReplaceColons(rest))
  {
    ReplaceColonsAppend(Pad(v, w), [sep] + rest);
    ReplaceColonsAppend([sep], rest);
    ReplaceColonsDigits(Pad(v, w));
  }

  /** The timestamp is the ISO text with `-` between the time fields. */
  lemma CurrentTimestampIsRender(t: DateTime)
    requires ValidDateTime(t)
    ensures CurrentTimestamp(t) == Render(t, '-')
  {
    var f := Fraction(t.microsecond);
    assert ReplaceColons(f) == f by {
      if t.microsecond != 0 {
        ReplaceColonsAppend(".", Pad(t.microsecond, 6));
        ReplaceColonsDigits(Pad(t.microsecond, 6));
      }
    }
    ReplaceColonsAppend(Pad(t.second, 2), f);
    ReplaceColonsDigits(Pad(t.second, 2));
    var s := Pad(t.second, 2) + f;
    ReplaceColonsField(t.minute, 2, ':', s);
    ReplaceColonsField(t.hour, 2, ':', Field(t.minute, 2, ':', s));
    ReplaceColonsField(t.date.day, 2, 'T', Field(t.hour, 2, ':', Field(t.minute, 2, ':', s)));
    ReplaceColonsField(t.date.month, 2, '-', Field(t.date.day, 2, 'T', Field(t.hour, 2, ':', Field(t.minute, 2, ':', s))));
    ReplaceColonsField(t.date.year, 4, '-', Field(t.date.month, 2, '-', Field(t.date.day, 2, 'T', Field(t.hour, 2, ':', Field(t.minute, 2, ':', s)))));
  }

  /** A field that is smaller decides; an equal field passes the decision on. */
  lemma FieldLess(u: nat, v: nat, w: nat, sep: char, r1: string, r2: string)
    requires u < Pow10(w) && v < Pow10(w)
    requires u < v || (u == v && StrOrder.Less(r1, r2))
    ensures StrOrder.Less(Field(u, w, sep, r1), Field(v, w, sep, r2))
  {
    if u < v {
      PadLess(u, v, w);
      StrOrder.LessAppend(Pad(u, w), Pad(v, w), [sep] + r1, [sep] + r2);
    } else {
      StrOrder.LessCommonPrefix([sep], r1, r2);
      StrOrder.LessCommonPrefix(Pad(u, w), [sep] + r1, [sep] + r2);
    }
  }

  lemma FractionLess(a: nat, b: nat)
    requires a < b < 1000000
    ensures StrOrder.Less(Fraction(a), Fraction(b))
  {
    if a != 0 {
      PadLess(a, b, 6);
      StrOrder.LessCommonPrefix(".", Pad(a, 6), Pad(b, 6));
    }
  }

  lemma Pow10Values()
    ensures Pow10(2) == 100 && Pow10(4) == 10000 && Pow10(6) == 1000000
  {
  }

  /** Lexicographic order of timestamps is chronological order, including the
      case where one instant falls on a whole second and its text has no fraction. */
  lemma TimestampOrder(a: DateTime, b: DateTime)
    requires ValidDateTime(a) && ValidDateTime(b) && Before(a, b)
    ensures StrOrder.Less(CurrentTimestamp(a), CurrentTimestamp(b))
  {
    CurrentTimestampIsRender(a);
    CurrentTimestampIsRender(b);
    Pow10Values();
    var sa := Pad(a.second, 2) + Fraction(a.microsecond);
    var sb := Pad(b.second, 2) + Fraction(b.microsecond);
    var la := a.date.year == b.date.year && a.date.month == b.date.month && a.date.day == b.date.day
              && a.hour == b.hour && a.minute == b.minute;
    if la && a.second < b.second {
      PadLess(a.second, b.second, 2);
      StrOrder.LessAppend(Pad(a.second, 2), Pad(b.second, 2), Fraction(a.microsecond), Fraction(b.microsecond));
    } else if la && a.second == b.second {
      FractionLess(a.microsecond, b.microsecond);
      StrOrder.LessCommonPrefix(Pad(a.second, 2), Fraction(a.microsecond), Fraction(b.microsecond));
    }
    var ma := Field(a.minute, 2, '-', sa);
    var mb := Field(b.minute, 2, '-', sb);
    if a.date == b.date && a.hour == b.hour {
      FieldLess(a.minute, b.minute, 2, '-', sa, sb);
    }
    var ha := Field(a.hour, 2, '-', ma);
    var hb := Field(b.hour, 2, '-', mb);
    if a.date == b.date {
      FieldLess(a.hour, b.hour, 2, '-', ma, mb);
    }
    var da := Field(a.date.day, 2, 'T', ha);
    var db := Field(b.date.day, 2, 'T', hb);
    if a.date.year == b.date.year && a.date.month == b.date.month {
      FieldLess(a.date.day, b.date.day, 2, 'T', ha, hb);
    }
    var moa := Field(a.date.month, 2, '-', da);
    var mob := Field(b.date.month, 2, '-', db);
    if a.date.year == b.date.year {
      FieldLess(a.date.month, b.date.month, 2, '-', da, db);
    }
    FieldLess(a.date.year, b.date.year, 4, '-', moa, mob);
  }

  /** Instants that differ give different timestamps, hence different files. */
  lemma TimestampInjective(a: DateTime, b: DateTime)
    requires ValidDateTime(a) && ValidDateTime(b) && a != b
    ensures CurrentTimestamp(a) != CurrentTimestamp(b)
  {
    if Before(a, b) {
      TimestampOrder(a, b);
      StrOrder.LessIrreflexive(CurrentTimestamp(a));
    } else {
      assert Before(b, a);
      TimestampOrder(b, a);
      StrOrder.LessIrreflexive(CurrentTimestamp(b));
    }
  }

  /** Only the characters a timestamp is made of. */
  predicate StampText(s: string)
  {
    forall c | c in s :: IsDigit(c) || c == '-' || c == 'T' || c == '.'
  }

  lemma StampTextPad(n: nat, w: nat)
    ensures StampText(Pad(n, w))
  {
    var p := Pad(n, w);
    forall c | c in p
      ensures IsDigit(c)
    {
      var i :| 0 <= i < |p| && p[i] == c;
    }
  }

  lemma StampTextField(v: nat, w: nat, sep: char, rest: string)
    requires sep == '-' || sep == 'T'
    requires StampText(rest)
    ensures StampText(Field(v, w, sep, rest))
  {
    StampTextPad(v, w);
    assert Field(v, w, sep, rest) == Pad(v, w) + [sep] + rest;
  }

  /** Timestamps hold digits, `-`, `T` and `.` only: no `:` and no `/`
      (filename-safe) and no metadata delimiter `|`. */
  lemma TimestampCharacters(t: DateTime)
    requires ValidDateTime(t)
    ensures StampText(CurrentTimestamp(t))
  {
    CurrentTimestampIsRender(t);
    var f := Fraction(t.microsecond);
    StampTextPad(t.microsecond, 6);
    assert StampText(f) by {
      if t.microsecond != 0 {
        assert f == ['.'] + Pad(t.microsecond, 6);
      }
    }
    StampTextPad(t.second, 2);
    var r := Pad(t.second, 2) + f;
    assert StampText(r);
    StampTextField(t.minute, 2, '-', r);
    var r1 := Field(t.minute, 2, '-', r);
    StampTextField(t.hour, 2, '-', r1);
    var r2 := Field(t.hour, 2, '-', r1);
    StampTextField(t.date.day, 2, 'T', r2);
    var r3 := Field(t.date.day, 2, 'T', r2);
    StampTextField(t.date.month, 2, '-', r3);
    var r4 := Field(t.date.month, 2, '-', r3);
    StampTextField(t.date.year, 4, '-', r4);
  }

  /** Hence a timestamp never contains the metadata delimiter. */
  lemma TimestampUndelimited(t: DateTime)
    requires ValidDateTime(t)
    ensures '|' !in CurrentTimestamp(t)
  {
    var ts := CurrentTimestamp(t);
    TimestampCharacters(t);
    forall i | 0 <= i < |ts|
      ensures ts[i] != '|'
    {
      assert ts[i] in ts;
    }
  }
}
