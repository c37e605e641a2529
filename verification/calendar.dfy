// Months added to a date (oto_mcp/billing.py, `_add_period` and `_safe_replace`;
// oto_mcp/deprecations.py, `_plus_de_mois`; oto_mcp/billing_runner.py, the loop of `_tirer`).

module Calendar {
  import opened Options

  predicate IsLeap(year: int) {
    year % 4 == 0 && (year % 100 != 0 || year % 400 == 0)
  }

  function DaysIn(year: int, month: int): (n: int)
    ensures 28 <= n <= 31
  {
    if month == 2 then (if IsLeap(year) then 29 else 28)
    else if month == 4 || month == 6 || month == 9 || month == 11 then 30 else 31
  }

  /** A date and a time of day, in one time zone. */
  datatype Moment = Moment(year: int, month: int, day: int, time: nat)

  predicate IsDate(year: int, month: int, day: int) {
    1 <= year <= 9999 && 1 <= month <= 12 && 1 <= day <= DaysIn(year, month)
  }

  predicate Valid(m: Moment) {
    IsDate(m.year, m.month, m.day)
  }

  predicate Before(a: Moment, b: Moment) {
    a.year < b.year || (a.year == b.year && (a.month < b.month || (a.month == b.month
      && (a.day < b.day || (a.day == b.day && a.time < b.time)))))
  }

  /** The lengths of the months, and the leap years: those divisible by 4, of the centuries those
      divisible by 400. */
  lemma MonthLengths(year: int, month: int)
    requires 1 <= month <= 12
    ensures
      var february := if year % 400 == 0 then 29 else if year % 100 == 0 then 28 else if year % 4 == 0 then 29 else 28;
      DaysIn(year, month) == [31, february, 31, 30, 31, 30, 31, 31, 30, 31, 30, 31][month - 1]
  {
    assert year % 400 == 0 ==> year % 4 == 0 && year % 100 == 0;
  }

  /** Of two moments, one is before the other unless they are the same, and never both. */
  lemma BeforeIsAnOrder(a: Moment, b: Moment, c: Moment)
    ensures !(Before(a, b) && Before(b, a))
    ensures Before(a, b) || Before(b, a) || a == b
    ensures Before(a, b) && Before(b, c) ==> Before(a, c)
  {
  }

  // Months counted from the origin of the calendar.
  function Rank(m: Moment): int {
    12 * m.year + m.month - 1
  }

  function DaysAt(rank: int): (n: int)
    ensures 28 <= n <= 31
  {
    DaysIn(rank / 12, rank % 12 + 1)
  }

  function Least(a: int, b: int): int {
    if a <= b then a else b
  }

  // The day of a month, or its last day; nothing past the last year.
  function InMonth(rank: int, day: int, time: nat): Option<Moment> {
    if 1 <= rank / 12 <= 9999 then Some(Moment(rank / 12, rank % 12 + 1, Least(day, DaysAt(rank)), time)) else None
  }

  lemma InMonthIsValid(rank: int, day: int, time: nat)
    requires 1 <= day && InMonth(rank, day, time).Some?
    ensures Valid(InMonth(rank, day, time).value) && Rank(InMonth(rank, day, time).value) == rank
  {
  }

  lemma RankParts(year: int, month: int)
    requires 1 <= month <= 12
    ensures (12 * year + month - 1) / 12 == year && (12 * year + month - 1) % 12 == month - 1
  {
  }

  /** `_safe_replace`: of the day itself, 30, 29 and 28, the first that exists is the day or
      the last of the month; there is none exactly when the year is past the last one. */
  method SafeReplace(m: Moment, year: int, month: int) returns (r: Option<Moment>)
    requires Valid(m) && 1 <= year && 1 <= month <= 12
    ensures r == InMonth(12 * year + month - 1, m.day, m.time)
  {
    var days := [m.day, 30, 29, 28];
    RankParts(year, month);
    for k := 0 to 4
      invariant forall j | 0 <= j < k :: !IsDate(year, month, days[j])
    {
      if IsDate(year, month, days[k]) {
        assert k > 0 ==> !IsDate(year, month, days[0]) && m.day > DaysIn(year, month) >= days[k];
        assert k > 1 ==> !IsDate(year, month, days[1]);
        assert k > 2 ==> !IsDate(year, month, days[2]);
        assert days[k] == Least(m.day, DaysIn(year, month));
        return Some(Moment(year, month, days[k], m.time));
      }
      assert k == 3 ==> year > 9999;
    }
    assert !IsDate(year, month, days[3]);
    return None;
  }

  function Months(interval: string): (n: nat)
    ensures n > 0
  {
    if interval == "year" then 12 else 1
  }

  function NextPeriod(m: Moment, interval: string): Option<Moment> {
    InMonth(Rank(m) + Months(interval), m.day, m.time)
  }

  lemma NextMonth(year: int, month: int)
    requires 1 <= month <= 12
    ensures
      var y, m := year + (if month + 1 > 12 then 1 else 0), (month + 1 - 1) % 12 + 1;
      1 <= m <= 12 && 12 * y + m - 1 == 12 * year + month
  {
    assert month % 12 == if month == 12 then 0 else month;
  }

  // One year later in the same month, or the month after; on the same day or the last one there,
  // at the same time.
  predicate OneLater(m: Moment, interval: string, r: Option<Moment>) {
    var year := if interval == "year" || m.month == 12 then m.year + 1 else m.year;
    var month := if interval == "year" then m.month else if m.month == 12 then 1 else m.month + 1;
    && (r.Some? <==> year <= 9999)
    && (r.Some? ==> r.value == Moment(year, month, if m.day <= DaysIn(year, month) then m.day else DaysIn(year, month), m.time))
  }

  lemma NextIsOneLater(m: Moment, interval: string)
    requires Valid(m)
    ensures OneLater(m, interval, NextPeriod(m, interval))
  {
    RankParts(m.year + 1, m.month);
    NextMonth(m.year, m.month);
    RankParts(m.year, if m.month == 12 then 1 else m.month + 1);
    RankParts(m.year + 1, 1);
    hide DaysIn;
  }

  /** `_add_period`: exactly one year or one month later; nothing past the last year. */
  method AddPeriod(m: Moment, interval: string) returns (r: Option<Moment>)
    requires Valid(m)
    ensures r == NextPeriod(m, interval)
    ensures OneLater(m, interval, r)
  {
    NextIsOneLater(m, interval);
    hide OneLater;
    if interval == "year" {
      r := SafeReplace(m, m.year + 1, m.month);
      assert 12 * (m.year + 1) + m.month - 1 == Rank(m) + 12;
    } else {
      hide InMonth, IsDate;
      NextMonth(m.year, m.month);
      var month := m.month + 1;
      var year := m.year + if month > 12 then 1 else 0;
      r := SafeReplace(m, year, (month - 1) % 12 + 1);
    }
  }

  // `_plus_de_mois`.
  function PlusMonths(m: Moment, months: int): Option<Moment> {
    var rank := m.month - 1 + months;
    var year, month := m.year + rank / 12, rank % 12 + 1;
    if 1 <= year <= 9999 then Some(Moment(year, month, Least(m.day, DaysIn(year, month)), m.time)) else None
  }

  lemma PlusMonthsIsInMonth(m: Moment, months: int)
    ensures PlusMonths(m, months) == InMonth(Rank(m) + months, m.day, m.time)
  {
    var rank := m.month - 1 + months;
    assert (12 * m.year + rank) / 12 == m.year + rank / 12 && (12 * m.year + rank) % 12 == rank % 12;
  }

  // ---- periods added one after the other

  function Iterate(m: Moment, interval: string, n: nat): Option<Moment> {
    if n == 0 then Some(m)
    else
      var before := Iterate(m, interval, n - 1);
      if before.None? then None else NextPeriod(before.value, interval)
  }

  // The month reached after `n` periods.
  function At(m: Moment, interval: string, n: nat): int {
    Rank(m) + Months(interval) * n
  }

  lemma AtNext(m: Moment, interval: string, n: nat)
    ensures At(m, interval, n) >= Rank(m) && At(m, interval, 0) == Rank(m)
    ensures n > 0 ==> At(m, interval, n) == At(m, interval, n - 1) + Months(interval)
  {
    assert n > 0 ==> Months(interval) * n == Months(interval) * (n - 1) + Months(interval);
  }

  // The least of the day and of the lengths of the months that the periods go through.
  function LeastDay(m: Moment, interval: string, n: nat): int {
    if n == 0 then m.day else Least(LeastDay(m, interval, n - 1), DaysAt(At(m, interval, n)))
  }

  /** After `n` periods the month is the one `_plus_de_mois` gives, and the day is cut by every
      month on the way; the last year stops both at the same point. */
  lemma {:induction false} IterateIs(m: Moment, interval: string, n: nat)
    requires Valid(m)
    ensures 1 <= LeastDay(m, interval, n) <= m.day
    ensures Iterate(m, interval, n) == InMonth(At(m, interval, n), LeastDay(m, interval, n), m.time)
  {
    AtNext(m, interval, n);
    RankParts(m.year, m.month);
    hide Months, At, DaysIn;
    if n > 0 {
      IterateIs(m, interval, n - 1);
      LeastDayFits(m, interval, n - 1);
      AtNext(m, interval, n - 1);
      hide InMonth, DaysAt, NextPeriod;
      NextInMonth(At(m, interval, n - 1), LeastDay(m, interval, n - 1), m.time, interval);
    }
  }

  lemma NextInMonth(rank: int, day: int, time: nat, interval: string)
    requires 1 <= day <= DaysAt(rank) && rank >= 12
    ensures InMonth(rank, day, time).None? ==> InMonth(rank + Months(interval), day, time).None?
    ensures InMonth(rank, day, time).Some?
            ==> NextPeriod(InMonth(rank, day, time).value, interval)
                == InMonth(rank + Months(interval), Least(day, DaysAt(rank + Months(interval))), time)
  {
    hide DaysAt;
    if InMonth(rank, day, time).Some? {
      InMonthIsValid(rank, day, time);
    }
  }

  // The least day exists in the last month gone through.
  lemma LeastDayFits(m: Moment, interval: string, n: nat)
    requires Valid(m)
    ensures LeastDay(m, interval, n) <= DaysAt(At(m, interval, n))
  {
    AtNext(m, interval, 0);
    RankParts(m.year, m.month);
    hide At, DaysIn;
  }

  lemma {:induction false} LeastDayIff(m: Moment, interval: string, n: nat, day: int)
    ensures day <= LeastDay(m, interval, n) <==> day <= m.day && forall k | 1 <= k <= n :: day <= DaysAt(At(m, interval, k))
  {
    if n > 0 {
      LeastDayIff(m, interval, n - 1, day);
    }
  }

  // No month on the way is shorter than the day of the last one.
  ghost predicate NoShorterMonth(m: Moment, interval: string, n: nat) {
    forall k | 1 <= k < n :: Least(m.day, DaysAt(At(m, interval, n))) <= DaysAt(At(m, interval, k))
  }

  /** The same month, never later; and the same day exactly when no month on the way is too
      short for it. */
  lemma IterateAgainstPlusMonths(m: Moment, interval: string, n: nat)
    requires Valid(m) && 1 <= n
    ensures
      var a, b := Iterate(m, interval, n), PlusMonths(m, Months(interval) * n);
      && (a.Some? <==> b.Some?)
      && (a.Some? ==> Rank(a.value) == Rank(b.value) == At(m, interval, n) && a.value.day <= b.value.day && a.value.time == b.value.time)
      && (a.Some? ==> (a == b <==> NoShorterMonth(m, interval, n)))
  {
    IterateIs(m, interval, n);
    PlusMonthsIsInMonth(m, Months(interval) * n);
    var rank := At(m, interval, n);
    hide DaysAt, InMonth, Rank, Months, DaysIn, IsDate;
    LeastDayIff(m, interval, n, Least(m.day, DaysAt(rank)));
    LeastDayFits(m, interval, n);
    SameMonth(rank, LeastDay(m, interval, n), m.day, m.time);
  }

  lemma SameMonth(rank: int, a: int, b: int, time: nat)
    requires 1 <= a <= b
    ensures
      var x, y := InMonth(rank, a, time), InMonth(rank, b, time);
      && (x.Some? <==> y.Some?)
      && (x.Some? ==> Rank(x.value) == Rank(y.value) == rank && x.value.time == y.value.time == time)
      && (x.Some? ==> x.value.day == Least(a, DaysAt(rank)) && y.value.day == Least(b, DaysAt(rank)))
      && (x == y <==> x.None? || x.value.day == y.value.day)
  {
    hide DaysAt;
    if InMonth(rank, a, time).Some? {
      InMonthIsValid(rank, a, time);
      InMonthIsValid(rank, b, time);
    }
  }

  /** One period, or a day that every month has: the two additions are the same. */
  lemma SameForShortDays(m: Moment, interval: string, n: nat)
    requires Valid(m) && 1 <= n && (n == 1 || m.day <= 28)
    ensures Iterate(m, interval, n) == PlusMonths(m, Months(interval) * n)
  {
    IterateAgainstPlusMonths(m, interval, n);
  }

  // ---- catching up

  /** A period later is later. */
  lemma NextIsLater(m: Moment, interval: string)
    requires Valid(m) && NextPeriod(m, interval).Some?
    ensures Valid(NextPeriod(m, interval).value) && Before(m, NextPeriod(m, interval).value)
    ensures Rank(NextPeriod(m, interval).value) > Rank(m)
  {
    InMonthIsValid(Rank(m) + Months(interval), m.day, m.time);
  }

  /** The next renewal: the first period end strictly after `now`, counted from `base`. It is
      missing exactly when every period end there is comes before. */
  method CatchUp(base: Moment, now: Moment, interval: string) returns (r: Option<Moment>, ghost n: nat)
    requires Valid(base) && Valid(now)
    ensures 1 <= n && r == Iterate(base, interval, n)
    ensures forall k | 1 <= k < n :: Iterate(base, interval, k).Some? && !Before(now, Iterate(base, interval, k).value)
    ensures r.Some? ==> Before(now, r.value)
  {
    r := AddPeriod(base, interval);
    n := 1;
    assert Iterate(base, interval, 0) == Some(base);
    if r.Some? {
      NextIsLater(base, interval);
    }
    while r.Some? && !Before(now, r.value)
      invariant 1 <= n && r == Iterate(base, interval, n)
      invariant r.Some? ==> Valid(r.value)
      invariant forall k | 1 <= k < n :: Iterate(base, interval, k).Some? && !Before(now, Iterate(base, interval, k).value)
      decreases if r.Some? then Rank(now) - Rank(r.value) + 1 else 0
    {
      var nxt := r.value;
      r := AddPeriod(nxt, interval);
      n := n + 1;
      if r.Some? {
        NextIsLater(nxt, interval);
      }
    }
  }
}
