/**
  Retention (internal/prune/prune.go, Prune of trino.go and clickhouse.go):
  Trino deletes by create time, ClickHouse drops whole UTC days by the name of
  their partition.
*/
module Pruning {
  import opened ByteStrings
  import opened Rows

  // ---------------------------------------------------------------- calendar

  /** A day of the proleptic Gregorian calendar. */
  datatype Date = Date(year: nat, month: nat, day: nat)

  predicate Leap(year: nat) {
    year % 4 == 0 && (year % 100 != 0 || year % 400 == 0)
  }

  function DaysIn(year: nat, month: nat): nat {
    if month == 2 then (if Leap(year) then 29 else 28)
    else if month == 4 || month == 6 || month == 9 || month == 11 then 30
    else 31
  }

  function NextDay(d: Date): Date {
    if d.day < DaysIn(d.year, d.month) then Date(d.year, d.month, d.day + 1)
    else if d.month < 12 then Date(d.year, d.month + 1, 1)
    else Date(d.year + 1, 1, 1)
  }

  /** The n-th day from 1 January of year 0. */
  function CivilOf(n: nat): (d: Date)
    ensures 1 <= d.month <= 12 && 1 <= d.day <= 31
  {
    if n == 0 then Date(0, 1, 1) else NextDay(CivilOf(n - 1))
  }

  predicate Earlier(a: Date, b: Date) {
    a.year < b.year || (a.year == b.year && (a.month < b.month || (a.month == b.month && a.day < b.day)))
  }

  lemma {:induction false} CivilOrder(m: nat, n: nat)
    requires m < n
    ensures Earlier(CivilOf(m), CivilOf(n))
  {
    if m < n - 1 {
      CivilOrder(m, n - 1);
    }
  }

  /** Days before 1 January of a year, by the leap-year rule. */
  function DaysBeforeYear(year: nat): int {
    365 * year + Multiples(year, 4) - Multiples(year, 100) + Multiples(year, 400)
  }

  /** How many multiples of k there are below n. */
  function Multiples(n: nat, k: nat): nat
    requires k > 0
  {
    (n + k - 1) / k
  }

  lemma {:induction false} WithinMonth(n: nat, year: nat, month: nat, k: nat)
    requires CivilOf(n) == Date(year, month, 1) && k < DaysIn(year, month)
    ensures CivilOf(n + k) == Date(year, month, 1 + k)
  {
    if k > 0 {
      WithinMonth(n, year, month, k - 1);
    }
  }

  lemma NextMonth(n: nat, year: nat, month: nat)
    requires CivilOf(n) == Date(year, month, 1) && 1 <= month <= 12
    ensures CivilOf(n + DaysIn(year, month)) == if month < 12 then Date(year, month + 1, 1) else Date(year + 1, 1, 1)
  {
    WithinMonth(n, year, month, DaysIn(year, month) - 1);
  }

  function DaysBeforeMonth(year: nat, month: nat): nat
    requires 1 <= month
  {
    if month == 1 then 0 else DaysBeforeMonth(year, month - 1) + DaysIn(year, month - 1)
  }

  lemma {:induction false} FirstOfMonth(n: nat, year: nat, month: nat)
    requires CivilOf(n) == Date(year, 1, 1) && 1 <= month <= 12
    ensures CivilOf(n + DaysBeforeMonth(year, month)) == Date(year, month, 1)
  {
    if month > 1 {
      FirstOfMonth(n, year, month - 1);
      NextMonth(n + DaysBeforeMonth(year, month - 1), year, month - 1);
    }
  }

  lemma YearLength(year: nat)
    ensures DaysBeforeMonth(year, 12) + 31 == if Leap(year) then 366 else 365
  {
    var february := DaysIn(year, 2);
    assert DaysBeforeMonth(year, 2) == 31;
    assert DaysBeforeMonth(year, 3) == 31 + february;
    assert DaysBeforeMonth(year, 4) == 62 + february;
    assert DaysBeforeMonth(year, 5) == 92 + february;
    assert DaysBeforeMonth(year, 6) == 123 + february;
    assert DaysBeforeMonth(year, 7) == 153 + february;
    assert DaysBeforeMonth(year, 8) == 184 + february;
    assert DaysBeforeMonth(year, 9) == 215 + february;
    assert DaysBeforeMonth(year, 10) == 245 + february;
    assert DaysBeforeMonth(year, 11) == 276 + february;
    assert DaysBeforeMonth(year, 12) == 306 + february;
  }

  lemma Every4(n: nat)
    ensures Multiples(n + 1, 4) == Multiples(n, 4) + if n % 4 == 0 then 1 else 0
  {}

  lemma Every100(n: nat)
    ensures Multiples(n + 1, 100) == Multiples(n, 100) + if n % 100 == 0 then 1 else 0
  {}

  lemma Every400(n: nat)
    ensures Multiples(n + 1, 400) == Multiples(n, 400) + if n % 400 == 0 then 1 else 0
  {}

  lemma HundredFours(n: nat)
    requires n % 100 == 0
    ensures n % 4 == 0
  {
    var m := 25 * (n / 100);
    assert n == 4 * m;
  }

  lemma FourHundreds(n: nat)
    requires n % 400 == 0
    ensures n % 100 == 0
  {
    var m := 4 * (n / 400);
    assert n == 100 * m;
  }

  lemma LeapDays(year: nat)
    ensures DaysBeforeYear(year + 1) == DaysBeforeYear(year) + if Leap(year) then 366 else 365
  {
    hide Multiples;
    Every4(year);
    Every100(year);
    Every400(year);
    if year % 400 == 0 {
      FourHundreds(year);
    }
    if year % 100 == 0 {
      HundredFours(year);
    }
  }

  lemma YearStep(n: nat, year: nat)
    requires CivilOf(n) == Date(year, 1, 1)
    ensures CivilOf(n + if Leap(year) then 366 else 365) == Date(year + 1, 1, 1)
  {
    hide CivilOf;
    hide DaysBeforeMonth;
    hide DaysBeforeYear;
    hide Leap;
    FirstOfMonth(n, year, 12);
    NextMonth(n + DaysBeforeMonth(year, 12), year, 12);
    YearLength(year);
  }

  lemma YearZero()
    ensures DaysBeforeYear(0) == 0 && CivilOf(0) == Date(0, 1, 1)
  {}

  /** Counting days forward agrees with the closed form. */
  lemma {:induction false} FirstOfYear(year: nat)
    ensures DaysBeforeYear(year) >= 0 && CivilOf(DaysBeforeYear(year)) == Date(year, 1, 1)
  {
    hide CivilOf;
    hide DaysBeforeYear;
    if year == 0 {
      YearZero();
    } else {
      FirstOfYear(year - 1);
      YearStep(DaysBeforeYear(year - 1), year - 1);
      LeapDays(year - 1);
    }
  }

  /** Days before the first of each month in a common year. */
  const MONTH_STARTS: seq<nat> := [0, 31, 59, 90, 120, 151, 181, 212, 243, 273, 304, 334, 365]

  lemma MonthStart(year: nat, month: nat)
    requires 1 <= month <= 12
    ensures DaysBeforeMonth(year, month) == MONTH_STARTS[month - 1] + if month > 2 && Leap(year) then 1 else 0
    ensures DaysIn(year, month) == MONTH_STARTS[month] - MONTH_STARTS[month - 1] + if month == 2 && Leap(year) then 1 else 0
  {
    hide Leap;
    if month > 1 {
      MonthStart(year, month - 1);
    }
  }

  /** The dates of the Gregorian calendar. */
  predicate IsDate(year: nat, month: nat, day: nat) {
    && 1 <= month <= 12
    && 1 <= day <= MONTH_STARTS[month] - MONTH_STARTS[month - 1]
                   + if month == 2 && year % 4 == 0 && (year % 100 != 0 || year % 400 == 0) then 1 else 0
  }

  lemma DateInMonth(year: nat, month: nat, day: nat)
    requires IsDate(year, month, day)
    ensures 1 <= month <= 12 && 1 <= day <= DaysIn(year, month)
  {
    MonthStart(year, month);
  }

  /** The number of a date's day, in closed form. */
  function DayNumber(year: nat, month: nat, day: nat): int
    requires 1 <= month <= 12
  {
    365 * year + (year + 3) / 4 - (year + 99) / 100 + (year + 399) / 400
    + MONTH_STARTS[month - 1]
    + (if month > 2 && year % 4 == 0 && (year % 100 != 0 || year % 400 == 0) then 1 else 0)
    + day - 1
  }

  /** The start of a date, in nanoseconds since 1 January 1970. */
  function Midnight(year: nat, month: nat, day: nat): int
    requires 1 <= month <= 12
  {
    (DayNumber(year, month, day) - DayNumber(1970, 1, 1)) * 86_400 * 1_000_000_000
  }

  /** Counting days forward reaches every date of the Gregorian calendar at the number its closed form gives. */
  lemma DayOfDate(year: nat, month: nat, day: nat)
    requires IsDate(year, month, day)
    ensures DayNumber(year, month, day) >= 0 && CivilOf(DayNumber(year, month, day)) == Date(year, month, day)
  {
    hide *;
    DateInMonth(year, month, day);
    FirstOfYear(year);
    DayNumberParts(year, month, day);
    FirstOfMonth(DaysBeforeYear(year), year, month);
    WithinMonth(DaysBeforeYear(year) + DaysBeforeMonth(year, month), year, month, day - 1);
  }

  lemma DayNumberParts(year: nat, month: nat, day: nat)
    requires 1 <= month <= 12
    ensures DayNumber(year, month, day) == DaysBeforeYear(year) + DaysBeforeMonth(year, month) + (day - 1)
  {
    MonthStart(year, month);
    hide DaysBeforeMonth;
  }

  /** The Unix epoch falls where DayOf puts it. */
  lemma EpochDay()
    ensures CivilOf(EPOCH_DAY) == Date(1970, 1, 1)
  {
    hide CivilOf;
    FirstOfYear(1970);
    assert DaysBeforeYear(1970) == EPOCH_DAY;
  }

  const DAY: int := 86_400_000_000_000
  const EPOCH_DAY: int := 719_528  // 1 January 1970, counted from year 0

  /** The UTC day of an instant. */
  function DayOf(t: Instant): int {
    t / DAY + EPOCH_DAY
  }

  /** Years 0 to 9999, which four digits can name. */
  predicate InCalendar(t: Instant) {
    DayOf(t) >= 0 && CivilOf(DayOf(t)).year <= 9999
  }

  // ---------------------------------------------------------------- partition names

  /** v in k decimal digits, zero-padded. */
  function Digits(v: nat, k: nat): (r: Bytes)
    ensures |r| == k
    ensures forall i | 0 <= i < k :: IsDigit(r[i])
  {
    if k == 0 then [] else Digits(v / 10, k - 1) + [(48 + v % 10) as Byte]
  }

  function DateId(d: Date): Bytes {
    Digits(d.year, 4) + (Digits(d.month, 2) + Digits(d.day, 2))
  }

  /** partitionID: the UTC day as YYYYMMDD. */
  function PartitionId(t: Instant): Bytes
    requires InCalendar(t)
  {
    DateId(CivilOf(DayOf(t)))
  }

  lemma {:induction false} DigitsValue(v: nat, k: nat)
    requires v < Pow10(k)
    ensures DecimalValue(Digits(v, k)) == v
  {
    if k > 0 {
      DigitsValue(v / 10, k - 1);
      assert Digits(v, k)[..k - 1] == Digits(v / 10, k - 1);
    }
  }

  /**
    The name of a day's partition: for any instant of a date, eight digits, four
    of the year, two of the month, counted from 1, and two of the day.
  */
  lemma PartitionName(year: nat, month: nat, day: nat, t: Instant)
    requires year <= 9999 && IsDate(year, month, day)
    requires Midnight(year, month, day) <= t < Midnight(year, month, day) + 86_400 * 1_000_000_000
    ensures InCalendar(t) && DayName(PartitionId(t))
    ensures DecimalValue(PartitionId(t)[..4]) == year
    ensures DecimalValue(PartitionId(t)[4..6]) == month
    ensures DecimalValue(PartitionId(t)[6..]) == day
  {
    DayOfDate(year, month, day);
    DayOfMidnight(year, month, day, t);
    assert CivilOf(DayNumber(year, month, day)).day <= 31;
    hide DayNumber;
    hide CivilOf;
    hide DayOf;
    hide Midnight;
    DateDigits(Date(year, month, day));
    hide DateId;
    hide DecimalValue;
  }

  lemma DayOfMidnight(year: nat, month: nat, day: nat, t: Instant)
    requires 1 <= month <= 12
    requires Midnight(year, month, day) <= t < Midnight(year, month, day) + 86_400 * 1_000_000_000
    ensures DayOf(t) == DayNumber(year, month, day)
  {
    assert DayNumber(1970, 1, 1) == EPOCH_DAY;
    hide DayNumber;
    DayIs(t, DayNumber(year, month, day) - EPOCH_DAY);
  }

  lemma DateDigits(d: Date)
    requires d.year <= 9999 && d.month <= 12 && d.day <= 31
    ensures DayName(DateId(d))
    ensures DecimalValue(DateId(d)[..4]) == d.year
    ensures DecimalValue(DateId(d)[4..6]) == d.month
    ensures DecimalValue(DateId(d)[6..]) == d.day
  {
    assert Pow10(2) == 100;
    assert Pow10(4) == 10_000;
    DigitsValue(d.year, 4);
    DigitsValue(d.month, 2);
    DigitsValue(d.day, 2);
    hide DecimalValue;
    hide Digits;
    hide Pow10;
    var id := DateId(d);
    assert id[..4] == Digits(d.year, 4) && id[4..6] == Digits(d.month, 2) && id[6..] == Digits(d.day, 2);
  }

  lemma DayIs(t: Instant, day: int)
    requires day * 86_400 * 1_000_000_000 <= t < day * 86_400 * 1_000_000_000 + 86_400 * 1_000_000_000
    ensures DayOf(t) == day + EPOCH_DAY
  {
    assert day * 86_400 * 1_000_000_000 == day * DAY;
    assert t == day * DAY + (t - day * DAY);
  }

  lemma {:induction false} LessConcat(a: Bytes, b: Bytes, x: Bytes, y: Bytes)
    requires |a| == |b|
    requires Less(a, b) || (a == b && Less(x, y))
    ensures Less(a + x, b + y)
  {
    if a == [] {
      assert a + x == x && b + y == y;
    } else {
      assert (a + x)[1..] == a[1..] + x && (b + y)[1..] == b[1..] + y;
      if a[0] == b[0] {
        LessConcat(a[1..], b[1..], x, y);
      }
    }
  }

  lemma {:induction false} DigitsOrder(v: nat, w: nat, k: nat)
    requires v < w < Pow10(k)
    ensures Less(Digits(v, k), Digits(w, k))
  {
    var x, y := [(48 + v % 10) as Byte], [(48 + w % 10) as Byte];
    if v / 10 < w / 10 {
      DigitsOrder(v / 10, w / 10, k - 1);
    }
    LessConcat(Digits(v / 10, k - 1), Digits(w / 10, k - 1), x, y);
  }

  lemma DateOrder(a: Date, b: Date)
    requires Earlier(a, b) && b.year <= 9999 && b.month <= 12 && b.day <= 31 && a.month <= 12 && a.day <= 31
    ensures Less(DateId(a), DateId(b))
  {
    assert Pow10(2) == 100;
    assert Pow10(4) == 10_000;
    hide Less;
    hide Digits;
    if a.year < b.year {
      DigitsOrder(a.year, b.year, 4);
    } else {
      if a.month < b.month {
        DigitsOrder(a.month, b.month, 2);
      } else {
        DigitsOrder(a.day, b.day, 2);
      }
      LessConcat(Digits(a.month, 2), Digits(b.month, 2), Digits(a.day, 2), Digits(b.day, 2));
    }
    LessConcat(Digits(a.year, 4), Digits(b.year, 4),
               Digits(a.month, 2) + Digits(a.day, 2), Digits(b.month, 2) + Digits(b.day, 2));
  }

  /** The string order of partition names is the order of days. */
  lemma PartitionOrder(t: Instant, u: Instant)
    requires InCalendar(t) && InCalendar(u)
    ensures Less(PartitionId(t), PartitionId(u)) <==> DayOf(t) < DayOf(u)
    ensures PartitionId(t) == PartitionId(u) <==> DayOf(t) == DayOf(u)
  {
    hide CivilOf;
    hide Less;
    LessTotal(PartitionId(t), PartitionId(u));
    LessTotal(PartitionId(t), PartitionId(t));
    if DayOf(t) < DayOf(u) {
      CivilOrder(DayOf(t), DayOf(u));
      DateOrder(CivilOf(DayOf(t)), CivilOf(DayOf(u)));
    } else if DayOf(u) < DayOf(t) {
      CivilOrder(DayOf(u), DayOf(t));
      DateOrder(CivilOf(DayOf(u)), CivilOf(DayOf(t)));
    }
  }

  // ---------------------------------------------------------------- the two prunes

  /** DELETE ... WHERE create_time < cutoff: what is left. */
  function TrinoPruned(rows: seq<Row>, cutoff: Instant): seq<Row> {
    if rows == [] then []
    else (if rows[0].createTime < cutoff then [] else [rows[0]]) + TrinoPruned(rows[1..], cutoff)
  }

  /** As often as before, if not before the cutoff; otherwise gone. */
  lemma {:induction false} PrunedRows(rows: seq<Row>, cutoff: Instant, r: Row)
    ensures multiset(TrinoPruned(rows, cutoff))[r] == if r.createTime < cutoff then 0 else multiset(rows)[r]
  {
    if rows != [] {
      PrunedRows(rows[1..], cutoff, r);
      assert rows == [rows[0]] + rows[1..];
    }
  }

  predicate AllInCalendar(rows: seq<Row>) {
    forall i | 0 <= i < |rows| :: InCalendar(rows[i].createTime)
  }

  /** The rows outside the named partitions. */
  function Without(rows: seq<Row>, ids: set<Bytes>): seq<Row>
    requires AllInCalendar(rows)
  {
    if rows == [] then []
    else (if PartitionId(rows[0].createTime) in ids then [] else [rows[0]]) + Without(rows[1..], ids)
  }

  lemma {:induction false} WithoutMembers(rows: seq<Row>, ids: set<Bytes>)
    requires AllInCalendar(rows)
    ensures AllInCalendar(Without(rows, ids))
    ensures forall r :: r in Without(rows, ids) <==> r in rows && InCalendar(r.createTime) && PartitionId(r.createTime) !in ids
  {
    hide CivilOf;
    hide DateId;
    if rows != [] {
      WithoutMembers(rows[1..], ids);
      assert rows == [rows[0]] + rows[1..];
    }
  }

  lemma {:induction false} WithoutTwice(rows: seq<Row>, a: set<Bytes>, b: set<Bytes>)
    requires AllInCalendar(rows)
    ensures AllInCalendar(Without(rows, a)) && Without(Without(rows, a), b) == Without(rows, a + b)
  {
    hide CivilOf;
    hide DateId;
    WithoutMembers(rows, a);
    if rows != [] {
      WithoutTwice(rows[1..], a, b);
      WithoutMembers(rows[1..], a);
      if PartitionId(rows[0].createTime) !in a {
        assert Without(rows, a)[1..] == Without(rows[1..], a);
      } else {
        assert Without(rows, a) == Without(rows[1..], a);
      }
    }
  }

  /** partitionIDPattern: eight digits. */
  predicate DayName(id: Bytes) {
    |id| == 8 && forall i | 0 <= i < 8 :: IsDigit(id[i])
  }

  /**
    The answer to the system.parts query: distinct names before the cutoff's, in
    order, and every row before the cutoff's day is in one of them. Names of
    parts that hold no row may appear too.
  */
  predicate Lists(ids: seq<Bytes>, rows: seq<Row>, cutoff: Instant)
    requires AllInCalendar(rows) && InCalendar(cutoff)
  {
    && (forall i, j | 0 <= i < j < |ids| :: Less(ids[i], ids[j]))
    && (forall i | 0 <= i < |ids| :: Less(ids[i], PartitionId(cutoff)))
    && (forall i | 0 <= i < |rows| && Less(PartitionId(rows[i].createTime), PartitionId(cutoff)) ::
          PartitionId(rows[i].createTime) in ids)
  }

  function Names(ids: seq<Bytes>): set<Bytes> {
    set id | id in ids
  }

  class Table {
    var rows: seq<Row>

    constructor (rows: seq<Row>)
      ensures this.rows == rows
    {
      this.rows := rows;
    }

    /** partitionsBefore: refuses the whole listing over a name that is no day. */
    method PartitionsBefore(listed: Option<seq<Bytes>>) returns (ids: Option<seq<Bytes>>)
      ensures ids == if listed.Some? && (forall i | 0 <= i < |listed.value| :: DayName(listed.value[i]))
                     then listed else None
    {
      if listed.None? {
        return None;
      }
      for i := 0 to |listed.value|
        invariant forall j | 0 <= j < i :: DayName(listed.value[j])
      {
        if !DayName(listed.value[i]) {
          return None;
        }
      }
      ids := listed;
    }

    /**
      ClickHouse's Prune. `listed` is the server's answer to the listing (None
      for an error); the i-th DROP PARTITION fails if fails(i).
    */
    method Prune(cutoff: Instant, listed: Option<seq<Bytes>>, fails: nat -> bool) returns (ok: bool, ghost drops: nat)
      requires AllInCalendar(rows) && InCalendar(cutoff)
      requires listed.Some? ==> Lists(listed.value, rows, cutoff)
      modifies this
      ensures AllInCalendar(rows)
      ensures ok ==> listed.Some? && drops == |listed.value|
      ensures ok <==> listed.Some? && forall i: nat | i < |listed.value| :: DayName(listed.value[i]) && !fails(i)
      ensures listed.None? ==> rows == old(rows)
      ensures listed.Some? ==> drops <= |listed.value| && rows == Without(old(rows), Names(listed.value[..drops]))
      ensures listed.Some? && (exists i: nat | i < |listed.value| :: !DayName(listed.value[i])) ==> drops == 0
      ensures listed.Some? ==> forall i: nat | i < drops :: !fails(i)
    {
      hide Without;
      hide InCalendar;
      hide Lists;
      drops := 0;
      WithoutNothing(rows);
      var ids := PartitionsBefore(listed);
      assert listed.Some? ==> Names(listed.value[..0]) == {};
      if ids.None? {
        return false, 0;
      }
      for i := 0 to |ids.value|
        invariant drops == i && AllInCalendar(rows)
        invariant rows == Without(old(rows), Names(ids.value[..i]))
        invariant forall j: nat | j < i :: !fails(j)
      {
        if fails(i) {
          return false, i;
        }
        var id := ids.value[i];
        WithoutTwice(old(rows), Names(ids.value[..i]), {id});
        assert Names(ids.value[..i + 1]) == Names(ids.value[..i]) + {id} by {
          assert ids.value[..i + 1] == ids.value[..i] + [id];
        }
        WithoutMembers(rows, {id});
        rows := Without(rows, {id});
        drops := i + 1;
      }
      assert ids.value[..|ids.value|] == ids.value;
      ok := true;
    }
  }

  lemma {:induction false} WithoutNothing(rows: seq<Row>)
    requires AllInCalendar(rows)
    ensures Without(rows, {}) == rows
  {
    hide InCalendar;
    hide PartitionId;
    if rows != [] {
      WithoutNothing(rows[1..]);
      assert rows == [rows[0]] + rows[1..];
    }
  }

  // ---------------------------------------------------------------- agreement

  /** startOfUTCDay. */
  function StartOfDay(t: Instant): Instant {
    t / DAY * DAY
  }

  /** The rows a whole-day prune keeps although they are before the cutoff. */
  predicate Spared(r: Row, cutoff: Instant) {
    StartOfDay(cutoff) <= r.createTime < cutoff
  }

  lemma DaysBefore(t: Instant, cutoff: Instant)
    ensures DayOf(t) < DayOf(cutoff) <==> t < StartOfDay(cutoff)
  {}

  lemma NameBefore(t: Instant, ids: seq<Bytes>, rows: seq<Row>, cutoff: Instant)
    requires AllInCalendar(rows) && InCalendar(cutoff) && Lists(ids, rows, cutoff)
    requires exists i | 0 <= i < |rows| :: rows[i].createTime == t
    ensures InCalendar(t) && (PartitionId(t) in Names(ids) <==> t < StartOfDay(cutoff))
  {
    hide InCalendar;
    hide PartitionId;
    PartitionOrder(t, cutoff);
    DaysBefore(t, cutoff);
    hide DayOf;
    if PartitionId(t) in Names(ids) {
      var i :| 0 <= i < |ids| && ids[i] == PartitionId(t);
    }
  }

  lemma {:induction false} PrunesDiffer(all: seq<Row>, rows: seq<Row>, ids: seq<Bytes>, cutoff: Instant)
    requires AllInCalendar(all) && InCalendar(cutoff) && Lists(ids, all, cutoff)
    requires AllInCalendar(rows) && forall i | 0 <= i < |rows| :: rows[i] in all
    ensures |TrinoPruned(rows, cutoff)| <= |Without(rows, Names(ids))|
    ensures Without(rows, Names(ids)) == TrinoPruned(rows, cutoff) <==>
              forall i | 0 <= i < |rows| :: !Spared(rows[i], cutoff)
    decreases |rows|
  {
    hide InCalendar;
    hide PartitionId;
    hide Lists;
    if rows != [] {
      var r, rest := rows[0], rows[1..];
      PrunesDiffer(all, rest, ids, cutoff);
      assert r in all;
      NameBefore(r.createTime, ids, all, cutoff);
      StartNotAfter(cutoff);
      hide StartOfDay;
      assert (forall i | 0 <= i < |rows| :: !Spared(rows[i], cutoff)) <==>
             !Spared(r, cutoff) && (forall i | 0 <= i < |rest| :: !Spared(rest[i], cutoff)) by {
        assert rows == [r] + rest;
      }
      var kept, left := Without(rest, Names(ids)), TrinoPruned(rest, cutoff);
      if Spared(r, cutoff) {
        assert |Without(rows, Names(ids))| == 1 + |kept| && TrinoPruned(rows, cutoff) == [] + left;
      } else if r.createTime < cutoff {
        assert Without(rows, Names(ids)) == [] + kept == kept && TrinoPruned(rows, cutoff) == [] + left == left;
      } else {
        assert Without(rows, Names(ids)) == [r] + kept && TrinoPruned(rows, cutoff) == [r] + left;
        assert Without(rows, Names(ids))[1..] == kept && TrinoPruned(rows, cutoff)[1..] == left;
      }
    }
  }

  lemma StartNotAfter(t: Instant)
    ensures StartOfDay(t) <= t
  {}

  /**
    A finished partition prune leaves exactly what Trino's DELETE leaves if and
    only if no row lies on the cutoff's own day before the cutoff.
  */
  lemma PrunesAgree(rows: seq<Row>, ids: seq<Bytes>, cutoff: Instant)
    requires AllInCalendar(rows) && InCalendar(cutoff) && Lists(ids, rows, cutoff)
    ensures Without(rows, Names(ids)) == TrinoPruned(rows, cutoff) <==>
              forall i | 0 <= i < |rows| :: !Spared(rows[i], cutoff)
  {
    PrunesDiffer(rows, rows, ids, cutoff);
  }

  /** Such a row: created at the epoch, a nanosecond before a cutoff that is no midnight. */
  lemma PrunesDisagree(r: Row)
    requires r.createTime == 0
    ensures InCalendar(0) && InCalendar(1) && Lists([], [r], 1)
    ensures Without([r], Names([])) == [r] && TrinoPruned([r], 1) == []
  {
    EpochDay();
    hide CivilOf;
    PartitionOrder(0, 1);
    hide PartitionId;
  }

  /** An unfinished one has dropped only rows before the cutoff, and older days before younger ones. */
  lemma PartialPrune(rows: seq<Row>, ids: seq<Bytes>, cutoff: Instant, drops: nat, gone: Row, left: Row)
    requires AllInCalendar(rows) && InCalendar(cutoff) && Lists(ids, rows, cutoff) && drops <= |ids|
    requires gone in rows && gone !in Without(rows, Names(ids[..drops]))
    requires left in Without(rows, Names(ids[..drops]))
    ensures gone.createTime < cutoff
    ensures DayOf(gone.createTime) < DayOf(left.createTime)
  {
    hide PartitionId;
    hide InCalendar;
    hide Less;
    hide Without;
    WithoutMembers(rows, Names(ids[..drops]));
    var g, l := PartitionId(gone.createTime), PartitionId(left.createTime);
    var i :| 0 <= i < drops && ids[i] == g;
    PartitionOrder(gone.createTime, cutoff);
    PartitionOrder(gone.createTime, left.createTime);
    DaysBefore(gone.createTime, cutoff);
    StartNotAfter(cutoff);
    hide DayOf;
    if Less(l, PartitionId(cutoff)) {
      var k :| 0 <= k < |rows| && rows[k] == left;
      var j :| 0 <= j < |ids| && ids[j] == l;
      assert j >= drops;
    } else {
      LessTotal(g, l);
      LessTotal(l, PartitionId(cutoff));
      if Less(l, g) {
        LessTransitive(l, g, PartitionId(cutoff));
      }
    }
  }

  // ---------------------------------------------------------------- prune.Run

  /** partitionAlignedCutoff. */
  function AlignedCutoff(now: Instant, retentionDays: int): Instant {
    StartOfDay(now) - retentionDays * DAY
  }

  /** The cutoff is the UTC midnight retentionDays days before the one that starts now's day. */
  lemma CutoffIs(now: Instant, retentionDays: int)
    ensures AlignedCutoff(now, retentionDays) % (86_400 * 1_000_000_000) == 0
    ensures var days := retentionDays * 86_400 * 1_000_000_000;
            now - days - 86_400 * 1_000_000_000 < AlignedCutoff(now, retentionDays) <= now - days
  {
    assert AlignedCutoff(now, retentionDays) == (now / DAY - retentionDays) * DAY;
  }

  /** Pruning removes every row a day older than the retention and none within it. */
  lemma RetentionKept(rows: seq<Row>, now: Instant, retentionDays: int, r: Row)
    requires r in rows
    ensures now - r.createTime <= retentionDays * 86_400 * 1_000_000_000 ==>
              r in TrinoPruned(rows, AlignedCutoff(now, retentionDays))
    ensures now - r.createTime >= (retentionDays + 1) * 86_400 * 1_000_000_000 ==>
              r !in TrinoPruned(rows, AlignedCutoff(now, retentionDays))
  {
    CutoffIs(now, retentionDays);
    PrunedRows(rows, AlignedCutoff(now, retentionDays), r);
    assert r in multiset(rows);
    hide TrinoPruned;
    assert multiset(rows)[r] > 0;
  }

  /** The cutoff Run passes is a UTC midnight, so both backends prune the same rows. */
  lemma RunAgrees(rows: seq<Row>, ids: seq<Bytes>, now: Instant, retentionDays: int)
    requires AllInCalendar(rows) && InCalendar(AlignedCutoff(now, retentionDays))
    requires Lists(ids, rows, AlignedCutoff(now, retentionDays))
    ensures AlignedCutoff(now, retentionDays) == StartOfDay(AlignedCutoff(now, retentionDays))
    ensures Without(rows, Names(ids)) == TrinoPruned(rows, AlignedCutoff(now, retentionDays))
  {
    var cutoff := AlignedCutoff(now, retentionDays);
    assert cutoff == (now / DAY - retentionDays) * DAY;
    assert cutoff / DAY == now / DAY - retentionDays;
    PrunesAgree(rows, ids, cutoff);
  }

  /** Run against a ClickHouse table. */
  method Run(t: Table, retentionDays: int, now: Instant, listed: Option<seq<Bytes>>, fails: nat -> bool)
    returns (ok: bool)
    requires AllInCalendar(t.rows)
    requires retentionDays >= 0 ==>
      && InCalendar(AlignedCutoff(now, retentionDays))
      && (listed.Some? ==> Lists(listed.value, t.rows, AlignedCutoff(now, retentionDays)))
    modifies t
    ensures retentionDays < 0 ==> !ok && t.rows == old(t.rows)
    ensures ok ==> t.rows == TrinoPruned(old(t.rows), AlignedCutoff(now, retentionDays))
    ensures ok <==> retentionDays >= 0 && listed.Some?
                    && forall i: nat | i < |listed.value| :: DayName(listed.value[i]) && !fails(i)
    ensures listed.None? ==> t.rows == old(t.rows)
    ensures listed.Some? ==> exists drops: nat | drops <= |listed.value| ::
              t.rows == Without(old(t.rows), Names(listed.value[..drops]))
  {
    if retentionDays < 0 {
      WithoutNothing(t.rows);
      assert listed.Some? ==> Names(listed.value[..0]) == {};
      return false;
    }
    hide InCalendar;
    hide Lists;
    hide AlignedCutoff;
    if listed.Some? {
      RunAgrees(t.rows, listed.value, now, retentionDays);
    }
    ghost var drops;
    ok, drops := t.Prune(AlignedCutoff(now, retentionDays), listed, fails);
    assert ok ==> listed.value[..drops] == listed.value;
  }
}
