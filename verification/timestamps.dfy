/**
  The `created_at` text of a post. The feed orders posts by this column with
  `ORDER BY created_at DESC`, i.e. by SQLite's BINARY comparison of the text,
  so "newest first" holds only when the text order is the time order.

  - `AsWritten` is the pattern `createPost` formats the clock with,
    "dd-MM-yyy HH:mm": day first, so the text order is not the time order
    (`AsWrittenMisorders` exhibits two readings whose texts sort the wrong way).
  - `Timestamp` is the "yyyy-MM-dd HH:mm:ss" text of SQLite's
    `CURRENT_TIMESTAMP`, which the seed rows receive and which the `Post`
    record documents for this column; its text order is exactly the time
    order (`TimestampOrder`). `createPost` as written stores the first;
    its corrected variant stores this one.
*/
module Timestamps {
  import opened Text

  /** A clock reading, as `LocalDateTime.now()` returns it, in years 1..9999. */
  datatype DateTime = DateTime(year: int, month: int, day: int, hour: int, minute: int, second: int)
  {
    predicate Valid() {
      && 1 <= year <= 9999 && 1 <= month <= 12 && 1 <= day <= 31
      && 0 <= hour < 24 && 0 <= minute < 60 && 0 <= second < 60
    }
  }

  type Clock = t: DateTime | t.Valid() witness DateTime(1970, 1, 1, 0, 0, 0)

  /** Chronological order: field by field, the year first. */
  predicate Before(a: DateTime, b: DateTime) {
    || a.year < b.year
    || (a.year == b.year && a.month < b.month)
    || (a.year == b.year && a.month == b.month && a.day < b.day)
    || (a.year == b.year && a.month == b.month && a.day == b.day && a.hour < b.hour)
    || (a.year == b.year && a.month == b.month && a.day == b.day && a.hour == b.hour && a.minute < b.minute)
    || (a.year == b.year && a.month == b.month && a.day == b.day && a.hour == b.hour && a.minute == b.minute
        && a.second < b.second)
  }

  function Pow10(w: nat): (p: nat)
    ensures p >= 1
  {
    if w == 0 then 1 else 10 * Pow10(w - 1)
  }

  function Digit(d: nat): (c: char)
    requires d < 10
  {
    ('0' as int + d) as char
  }

  /** `n` in decimal, left-padded with zeros to exactly `w` digits. */
  function Pad(n: nat, w: nat): (r: string)
    requires n < Pow10(w)
    ensures |r| == w
  {
    if w == 0 then [] else Pad(n / 10, w - 1) + [Digit(n % 10)]
  }

  /** Fixed-width decimal text compares exactly as the numbers do, and equal text means equal numbers. */
  lemma {:induction false} PadOrder(a: nat, b: nat, w: nat)
    requires a < Pow10(w) && b < Pow10(w)
    ensures LexLess(Pad(a, w), Pad(b, w)) <==> a < b
    ensures Pad(a, w) == Pad(b, w) <==> a == b
  {
    if w == 0 {
    } else {
      PadOrder(a / 10, b / 10, w - 1);
      LexLessConcat(Pad(a / 10, w - 1), [Digit(a % 10)], Pad(b / 10, w - 1), [Digit(b % 10)]);
      assert LexLess([Digit(a % 10)], [Digit(b % 10)]) <==> a % 10 < b % 10;
      assert a == 10 * (a / 10) + a % 10 && b == 10 * (b / 10) + b % 10;
    }
  }

  /** One fixed-width field followed by the rest of the text. */
  lemma FieldOrder(a: nat, b: nat, w: nat, ra: string, rb: string)
    requires a < Pow10(w) && b < Pow10(w)
    ensures LexLess(Pad(a, w) + ra, Pad(b, w) + rb) <==> a < b || (a == b && LexLess(ra, rb))
    ensures Pad(a, w) + ra == Pad(b, w) + rb <==> a == b && ra == rb
  {
    PadOrder(a, b, w);
    LexLessConcat(Pad(a, w), ra, Pad(b, w), rb);
  }

  /** A separator character shared by both texts decides nothing. */
  lemma SeparatorOrder(c: char, ra: string, rb: string)
    ensures LexLess([c] + ra, [c] + rb) <==> LexLess(ra, rb)
    ensures [c] + ra == [c] + rb <==> ra == rb
  {
    assert ([c] + ra)[1..] == ra && ([c] + rb)[1..] == rb;
  }

  /** "HH:mm:ss" */
  function TimeText(t: Clock): (r: string)
    ensures |r| == 8
  {
    Pad(t.hour, 2) + [':'] + (Pad(t.minute, 2) + [':'] + Pad(t.second, 2))
  }

  /** "yyyy-MM-dd HH:mm:ss", the text of SQLite's `CURRENT_TIMESTAMP`. */
  function Timestamp(t: Clock): (r: string)
    ensures |r| == 19
  {
    Pad(t.year, 4) + ['-'] + (Pad(t.month, 2) + ['-'] + (Pad(t.day, 2) + [' '] + TimeText(t)))
  }

  /** Splits `Pad(a, w) + [c] + rest` into its field and what follows the separator. */
  lemma FieldThenSeparator(a: nat, b: nat, w: nat, c: char, ra: string, rb: string)
    requires a < Pow10(w) && b < Pow10(w)
    ensures LexLess(Pad(a, w) + [c] + ra, Pad(b, w) + [c] + rb) <==> a < b || (a == b && LexLess(ra, rb))
    ensures Pad(a, w) + [c] + ra == Pad(b, w) + [c] + rb <==> a == b && ra == rb
  {
    assert Pad(a, w) + [c] + ra == Pad(a, w) + ([c] + ra);
    assert Pad(b, w) + [c] + rb == Pad(b, w) + ([c] + rb);
    FieldOrder(a, b, w, [c] + ra, [c] + rb);
    SeparatorOrder(c, ra, rb);
  }

  lemma TimeTextOrder(a: Clock, b: Clock)
    ensures LexLess(TimeText(a), TimeText(b)) <==>
      || a.hour < b.hour
      || (a.hour == b.hour && a.minute < b.minute)
      || (a.hour == b.hour && a.minute == b.minute && a.second < b.second)
    ensures TimeText(a) == TimeText(b) <==> a.hour == b.hour && a.minute == b.minute && a.second == b.second
  {
    PadOrder(a.second, b.second, 2);
    FieldThenSeparator(a.minute, b.minute, 2, ':', Pad(a.second, 2), Pad(b.second, 2));
    FieldThenSeparator(a.hour, b.hour, 2, ':',
      Pad(a.minute, 2) + [':'] + Pad(a.second, 2), Pad(b.minute, 2) + [':'] + Pad(b.second, 2));
  }

  /** The stored text orders posts exactly as their clock readings: text order is time order. */
  lemma TimestampOrder(a: Clock, b: Clock)
    ensures LexLess(Timestamp(a), Timestamp(b)) <==> Before(a, b)
    ensures Timestamp(a) == Timestamp(b) <==> a == b
  {
    TimeTextOrder(a, b);
    var da := Pad(a.day, 2) + [' '] + TimeText(a);
    var db := Pad(b.day, 2) + [' '] + TimeText(b);
    FieldThenSeparator(a.day, b.day, 2, ' ', TimeText(a), TimeText(b));
    var ma := Pad(a.month, 2) + ['-'] + da;
    var mb := Pad(b.month, 2) + ['-'] + db;
    FieldThenSeparator(a.month, b.month, 2, '-', da, db);
    FieldThenSeparator(a.year, b.year, 4, '-', ma, mb);
  }

  /**
    `DateTimeFormatter.ofPattern("dd-MM-yyy HH:mm")`: two-digit day, month,
    hour and minute; the year with at least three digits (so four for every
    year from 1000 on); seconds dropped.
  */
  function AsWritten(t: Clock): (r: string)
    ensures |r| == (if t.year < 1000 then 15 else 16)
    ensures r[..2] == Pad(t.day, 2) && r[2] == '-' && r[3..5] == Pad(t.month, 2) && r[5] == '-'
    ensures r[|r| - 5..] == Pad(t.hour, 2) + [':'] + Pad(t.minute, 2)
    ensures t.year >= 1000 ==> r[6..10] == Pad(t.year, 4) && r[10] == ' '
  {
    var dayMonth, year, time := DayMonthText(t), YearText(t), MinuteText(t);
    ThreeParts(dayMonth, year, [' '] + time);
    dayMonth + (year + ([' '] + time))
  }

  /** "dd-MM-" */
  function DayMonthText(t: Clock): (r: string)
    ensures |r| == 6 && r[..2] == Pad(t.day, 2) && r[2] == '-' && r[3..5] == Pad(t.month, 2) && r[5] == '-'
  {
    ThreeParts(Pad(t.day, 2) + ['-'], Pad(t.month, 2), ['-']);
    Pad(t.day, 2) + ['-'] + Pad(t.month, 2) + ['-']
  }

  /** "yyy": at least three digits. */
  function YearText(t: Clock): (r: string)
    ensures |r| == (if t.year < 1000 then 3 else 4)
    ensures t.year >= 1000 ==> r == Pad(t.year, 4)
  {
    if t.year < 1000 then Pad(t.year, 3) else Pad(t.year, 4)
  }

  /** "HH:mm" */
  function MinuteText(t: Clock): (r: string)
    ensures |r| == 5
  {
    Pad(t.hour, 2) + [':'] + Pad(t.minute, 2)
  }

  /** The three parts of `a + (b + c)` are found back by slicing at their lengths. */
  lemma ThreeParts(a: string, b: string, c: string)
    ensures (a + (b + c))[..|a|] == a && (a + (b + c))[|a|..|a| + |b|] == b
    ensures (a + (b + c))[|a| + |b|..] == c
    ensures (a + b + c)[..|a|] == a && (a + b + c)[|a|..|a| + |b|] == b
  {
    assert a + (b + c) == a + b + c;
  }

  /** The last minute of 2025 and the first of 2026. */
  const NewYearsEve: Clock := DateTime(2025, 12, 31, 23, 59, 0)
  const NewYearsDay: Clock := DateTime(2026, 1, 1, 0, 0, 0)

  /**
    As written, the later reading has the smaller text: "01-01-2026 00:00"
    sorts below "31-12-2025 23:59", so `DESC` lists the older post first.
  */
  lemma AsWrittenMisorders()
    ensures Before(NewYearsEve, NewYearsDay)
    ensures LexLess(AsWritten(NewYearsDay), AsWritten(NewYearsEve))
  {
    assert Pad(1, 2) == ['0', '1'] by {
      assert Pad(0, 1) == ['0'];
    }
    assert Pad(31, 2) == ['3', '1'] by {
      assert Pad(3, 1) == ['3'];
    }
    assert AsWritten(NewYearsDay)[0] == '0';
    assert AsWritten(NewYearsEve)[0] == '3';
  }

  /** The seconds are dropped: two readings of the same minute get the same text. */
  lemma AsWrittenIgnoresSeconds(a: Clock, b: Clock)
    requires a.year == b.year && a.month == b.month && a.day == b.day
    requires a.hour == b.hour && a.minute == b.minute
    ensures AsWritten(a) == AsWritten(b)
  {
  }

  /** A two-digit field is its tens digit, then its units digit. */
  lemma PadTwo(n: nat)
    requires n < 100
    ensures Pad(n, 2) == [Digit(n / 10), Digit(n % 10)]
  {
    assert Pad(n / 10, 1) == [Digit(n / 10)];
  }

  /** The first two digits of a four-digit field. */
  lemma PadFourLeading(n: nat)
    requires n < 10000
    ensures Pad(n, 4)[0] == Digit(n / 1000) && Pad(n, 4)[1] == Digit(n / 100 % 10)
    ensures Pad(n, 4)[2] == Digit(n / 10 % 10)
  {
    var m := n / 10;
    assert m / 10 == n / 100 && n / 100 / 10 == n / 1000;
    PadTwo(m / 10);
    assert Pad(m, 3) == Pad(m / 10, 2) + [Digit(m % 10)];
    assert Pad(n, 4) == Pad(m, 3) + [Digit(n % 10)];
  }

  /**
    As written, a reading on days 1 to 20 of any month has a text below the
    `CURRENT_TIMESTAMP` text of any reading in the years 2000 to 2099, later
    or not: "10-10-2026 12:00" sorts below "2026-10-10 10:00:00", since
    '1' < '2'.
  */
  lemma AsWrittenBelowTimestamp(a: Clock, b: Clock)
    requires a.day <= 20 && 2000 <= b.year <= 2099
    ensures LexLess(AsWritten(a), Timestamp(b))
  {
    var x, y := AsWritten(a), Timestamp(b);
    AsWrittenLeading(a);
    TimestampLeading(b);
    if a.day < 20 {
      LexLessAt(x, y, 0);
    } else {
      assert x[..2] == y[..2];
      LexLessAt(x, y, 2);
    }
  }

  /** "dd-": the day's two digits and a dash open the as-written text. */
  lemma AsWrittenLeading(a: Clock)
    ensures |AsWritten(a)| >= 3 && AsWritten(a)[2] == '-'
    ensures AsWritten(a)[0] == Digit(a.day / 10) && AsWritten(a)[1] == Digit(a.day % 10)
  {
    PadTwo(a.day);
    assert AsWritten(a)[..2] == Pad(a.day, 2);
  }

  /** The year's first three digits open the `CURRENT_TIMESTAMP` text. */
  lemma TimestampLeading(b: Clock)
    ensures |Timestamp(b)| >= 3
    ensures Timestamp(b)[0] == Digit(b.year / 1000) && Timestamp(b)[1] == Digit(b.year / 100 % 10)
    ensures Timestamp(b)[2] == Digit(b.year / 10 % 10)
  {
    PadFourLeading(b.year);
    var rest := ['-'] + (Pad(b.month, 2) + ['-'] + (Pad(b.day, 2) + [' '] + TimeText(b)));
    assert Timestamp(b) == Pad(b.year, 4) + rest;
  }

  /** With the stored format, the same two readings sort in time order. */
  lemma TimestampKeepsNewYearInOrder()
    ensures LexLess(Timestamp(NewYearsEve), Timestamp(NewYearsDay))
  {
    TimestampOrder(NewYearsEve, NewYearsDay);
  }
}
