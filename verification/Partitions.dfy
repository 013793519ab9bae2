/** Monthly partitions of the price history: the task that creates next month's partition, and how
    the partitions tile time. */
module Partitions {

  datatype Date = Date(year: int, month: int, day: int)

  // Partition bounds are midnights, so an instant is placed by its date.
  datatype Instant = Instant(date: Date, micros: nat)

  // FOR VALUES FROM start TO end: the end is not included.
  datatype Range = Range(start: Date, end: Date)

  predicate ValidDate(d: Date) { 0 <= d.year && 1 <= d.month <= 12 && 1 <= d.day <= 31 }

  predicate Before(a: Date, b: Date) {
    a.year < b.year || (a.year == b.year && (a.month < b.month || (a.month == b.month && a.day < b.day)))
  }

  predicate Contains(r: Range, t: Instant) {
    !Before(t.date, r.start) && Before(t.date, r.end)
  }

  // The calendar month of a date, counted from the start of year 0.
  function Month(d: Date): int { 12 * d.year + d.month - 1 }

  function FirstOf(month: int): Date { Date(month / 12, month % 12 + 1, 1) }

  function MonthRange(month: int): Range { Range(FirstOf(month), FirstOf(month + 1)) }

  /***** Partition names *****/

  function Digit(d: nat): char
    requires d < 10
  {
    ('0' as int + d) as char
  }

  function Decimal(n: nat): string {
    if n < 10 then [Digit(n)] else Decimal(n / 10) + [Digit(n % 10)]
  }

  // price_history_{year}_{month:02d}
  function PartitionName(month: nat): string {
    var m := month % 12 + 1;
    "price_history_" + Decimal(month / 12) + "_" + [Digit(m / 10), Digit(m % 10)]
  }

  lemma {:induction false} DecimalInjective(a: nat, b: nat)
    requires Decimal(a) == Decimal(b)
    ensures a == b
  {
    var s := Decimal(a);
    assert s[|s| - 1] == Digit(a % 10) && s[|s| - 1] == Digit(b % 10);
    DecimalLength(a);
    DecimalLength(b);
    if a >= 10 && b >= 10 {
      assert s[..|s| - 1] == Decimal(a / 10) && s[..|s| - 1] == Decimal(b / 10);
      DecimalInjective(a / 10, b / 10);
    }
  }

  lemma {:induction false} DecimalLength(n: nat)
    ensures |Decimal(n)| >= 1 && (|Decimal(n)| == 1 <==> n < 10)
  {
    if n >= 10 { DecimalLength(n / 10); }
  }

  // A partition's name determines its month.
  lemma NameDeterminesMonth(a: nat, b: nat)
    requires PartitionName(a) == PartitionName(b)
    ensures a == b
  {
    var s := PartitionName(a);
    var n := |"price_history_"|;
    var ma, mb := a % 12 + 1, b % 12 + 1;
    assert s[|s| - 2..] == [Digit(ma / 10), Digit(ma % 10)] == [Digit(mb / 10), Digit(mb % 10)];
    assert s[|s| - 2] == Digit(ma / 10) == Digit(mb / 10) && s[|s| - 1] == Digit(ma % 10) == Digit(mb % 10);
    assert s[n..|s| - 3] == Decimal(a / 12) == Decimal(b / 12);
    DecimalInjective(a / 12, b / 12);
  }

  // The number a string of digits stands for.
  function Value(s: string): int {
    if s == [] then 0 else 10 * Value(s[..|s| - 1]) + (s[|s| - 1] as int - '0' as int)
  }

  lemma {:induction false} DecimalValue(n: nat)
    ensures Value(Decimal(n)) == n
  {
    if n >= 10 {
      DecimalValue(n / 10);
      var s := Decimal(n);
      assert s[..|s| - 1] == Decimal(n / 10);
    } else {
      assert Decimal(n)[..0] == [];
    }
  }

  // The name of a date's month spells its year and its month, the month in two digits.
  lemma NameSpells(d: Date) returns (year: string, month: string)
    requires ValidDate(d)
    ensures PartitionName(Month(d)) == "price_history_" + year + "_" + month
    ensures Value(year) == d.year && |month| == 2 && Value(month) == d.month
  {
    year, month := Decimal(d.year), [Digit(d.month / 10), Digit(d.month % 10)];
    DecimalValue(d.year);
    assert Month(d) / 12 == d.year && Month(d) % 12 + 1 == d.month;
    assert month[..1] == [Digit(d.month / 10)] && month[..1][..0] == [];
    assert Value(month[..1]) == d.month / 10;
  }

  /***** The task *****/

  // CREATE TABLE IF NOT EXISTS
  function Created(partitions: map<string, Range>, name: string, range: Range): map<string, Range> {
    if name in partitions then partitions else partitions[name := range]
  }

  // How partitions are named, as a function of the month.
  type Naming = nat -> string

  // What one run of the task does: the partition of the month after today's.
  function TaskRun(naming: Naming, partitions: map<string, Range>, today: Date): map<string, Range>
    requires ValidDate(today)
  {
    Created(partitions, naming(Month(today) + 1), MonthRange(Month(today) + 1))
  }

  class PriceHistory {
    var partitions: map<string, Range>

    // The migration creates June and July 2026.
    constructor ()
      ensures partitions == Initial(PartitionName)
    {
      partitions := map["price_history_2026_06" := Range(Date(2026, 6, 1), Date(2026, 7, 1)),
                        "price_history_2026_07" := Range(Date(2026, 7, 1), Date(2026, 8, 1))];
      new;
      InitialNames();
    }

    method CreatePartition(today: Date) returns (name: string)
      requires ValidDate(today)
      modifies this
      ensures name == PartitionName(Month(today) + 1)
      ensures partitions == TaskRun(PartitionName, old(partitions), today)
    {
      var nextStart: Date, nextEnd: Date;
      if today.month == 12 {
        nextStart := Date(today.year + 1, 1, 1);
        nextEnd := Date(today.year + 1, 2, 1);
      } else {
        nextStart := Date(today.year, today.month + 1, 1);
        if today.month + 1 == 12 {
          nextEnd := Date(today.year + 1, 1, 1);
        } else {
          nextEnd := Date(today.year, today.month + 2, 1);
        }
      }
      assert nextStart == FirstOf(Month(today) + 1) && nextEnd == FirstOf(Month(today) + 2);
      name := "price_history_" + Decimal(nextStart.year) + "_"
              + [Digit(nextStart.month / 10), Digit(nextStart.month % 10)];
      if name !in partitions {
        partitions := partitions[name := Range(nextStart, nextEnd)];
      }
    }
  }

  /***** How the partitions tile time *****/

  const JUNE_2026 := 12 * 2026 + 5

  function Initial(naming: Naming): map<string, Range> {
    map[naming(JUNE_2026) := MonthRange(JUNE_2026), naming(JUNE_2026 + 1) := MonthRange(JUNE_2026 + 1)]
  }

  lemma InitialNames()
    ensures PartitionName(JUNE_2026) == "price_history_2026_06"
    ensures PartitionName(JUNE_2026 + 1) == "price_history_2026_07"
    ensures MonthRange(JUNE_2026) == Range(Date(2026, 6, 1), Date(2026, 7, 1))
    ensures MonthRange(JUNE_2026 + 1) == Range(Date(2026, 7, 1), Date(2026, 8, 1))
  {
    assert Decimal(2) == "2" && Decimal(20) == "20" && Decimal(202) == "202" && Decimal(2026) == "2026";
  }

  function Runs(naming: Naming, days: seq<Date>): map<string, Range>
    requires forall d | d in days :: ValidDate(d)
  {
    if days == [] then Initial(naming)
    else TaskRun(naming, Runs(naming, days[..|days| - 1]), days[|days| - 1])
  }

  // The partitions after the task has run on the given days, in this order.
  function PartitionsAfter(days: seq<Date>): map<string, Range>
    requires forall d | d in days :: ValidDate(d)
  {
    Runs(PartitionName, days)
  }

  ghost predicate Injective(naming: Naming) {
    forall a, b :: naming(a) == naming(b) ==> a == b
  }

  // A month has a partition, under its name and with its bounds.
  predicate HasMonth(naming: Naming, partitions: map<string, Range>, month: nat) {
    naming(month) in partitions && partitions[naming(month)] == MonthRange(month)
  }

  ghost predicate ByMonth(naming: Naming, partitions: map<string, Range>) {
    forall name | name in partitions ::
      exists month: nat :: name == naming(month) && HasMonth(naming, partitions, month)
  }

  ghost predicate RanIn(days: seq<Date>, month: int) { exists d | d in days :: Month(d) == month }

  // The months that have a partition after a series of runs: the two first ones and every month
  // that follows a month with a run.
  ghost predicate Expected(days: seq<Date>, month: nat) {
    month == JUNE_2026 || month == JUNE_2026 + 1 || RanIn(days, month - 1)
  }

  lemma CreatedMonths(naming: Naming, partitions: map<string, Range>, next: nat, month: nat)
    requires Injective(naming) && ByMonth(naming, partitions)
    ensures var after := Created(partitions, naming(next), MonthRange(next));
            && ByMonth(naming, after)
            && (HasMonth(naming, after, month) <==> HasMonth(naming, partitions, month) || month == next)
  {
    var after := Created(partitions, naming(next), MonthRange(next));
    if naming(next) in partitions {
      var m: nat :| naming(next) == naming(m) && HasMonth(naming, partitions, m);
    } else {
      assert HasMonth(naming, after, next);
      forall n | n in partitions ensures exists m: nat :: n == naming(m) && HasMonth(naming, after, m) {
        var m: nat :| n == naming(m) && HasMonth(naming, partitions, m);
        assert HasMonth(naming, after, m);
      }
    }
  }

  lemma InitialMonths(naming: Naming, month: nat)
    requires Injective(naming)
    ensures ByMonth(naming, Initial(naming))
    ensures HasMonth(naming, Initial(naming), month) <==> month == JUNE_2026 || month == JUNE_2026 + 1
  {
    var june := Created(map[], naming(JUNE_2026), MonthRange(JUNE_2026));
    CreatedMonths(naming, map[], JUNE_2026, month);
    CreatedMonths(naming, june, JUNE_2026 + 1, month);
    assert naming(JUNE_2026) != naming(JUNE_2026 + 1);
    assert Initial(naming) == Created(june, naming(JUNE_2026 + 1), MonthRange(JUNE_2026 + 1));
  }

  lemma {:induction false} RunsMonths(naming: Naming, days: seq<Date>, month: nat)
    requires Injective(naming) && forall d | d in days :: ValidDate(d)
    ensures ByMonth(naming, Runs(naming, days))
    ensures HasMonth(naming, Runs(naming, days), month) <==> Expected(days, month)
  {
    if days == [] {
      InitialMonths(naming, month);
    } else {
      var before, last := days[..|days| - 1], days[|days| - 1];
      assert days == before + [last];
      assert last in days;
      RunsMonths(naming, before, month);
      CreatedMonths(naming, Runs(naming, before), Month(last) + 1, month);
      ExpectedAppend(before, last, month);
      assert Runs(naming, days) == TaskRun(naming, Runs(naming, before), last);
    }
  }

  lemma ExpectedAppend(days: seq<Date>, last: Date, month: nat)
    ensures Expected(days + [last], month) <==> Expected(days, month) || month == Month(last) + 1
  {
    assert forall d :: d in days + [last] <==> d in days || d == last;
  }

  lemma NamesInjective()
    ensures Injective(PartitionName)
  {
    forall a: nat, b: nat | PartitionName(a) == PartitionName(b) ensures a == b {
      NameDeterminesMonth(a, b);
    }
  }

  lemma ContainsIff(month: nat, t: Instant)
    requires ValidDate(t.date)
    ensures Contains(MonthRange(month), t) <==> Month(t.date) == month
  {
    var y, m := month / 12, month % 12;
    assert month == 12 * y + m;
    assert (month + 1) / 12 == (if m == 11 then y + 1 else y) && (month + 1) % 12 == (if m == 11 then 0 else m + 1);
  }

  ghost predicate Covered(partitions: map<string, Range>, t: Instant) {
    exists name | name in partitions :: Contains(partitions[name], t)
  }

  // Whenever and however often the task has run, no instant lies in two partitions.
  lemma PartitionsDisjoint(days: seq<Date>, t: Instant)
    requires (forall d | d in days :: ValidDate(d)) && ValidDate(t.date)
    ensures var p := PartitionsAfter(days);
            forall n1, n2 | n1 in p && n2 in p && Contains(p[n1], t) && Contains(p[n2], t) :: n1 == n2
  {
    NamesInjective();
    forall n | n in PartitionsAfter(days) && Contains(PartitionsAfter(days)[n], t)
      ensures n == PartitionName(Month(t.date))
    {
      UniquePartition(PartitionName, days, n, t);
    }
  }

  lemma UniquePartition(naming: Naming, days: seq<Date>, name: string, t: Instant)
    requires Injective(naming) && (forall d | d in days :: ValidDate(d)) && ValidDate(t.date)
    requires name in Runs(naming, days) && Contains(Runs(naming, days)[name], t)
    ensures name == naming(Month(t.date)) && HasMonth(naming, Runs(naming, days), Month(t.date))
  {
    RunsMonths(naming, days, 0);
    var m: nat :| name == naming(m) && HasMonth(naming, Runs(naming, days), m);
    ContainsIff(m, t);
  }

  // An instant has a partition exactly when it lies in June or July 2026 or the task ran at least
  // once in the month before it.
  lemma CoveredIff(days: seq<Date>, t: Instant)
    requires (forall d | d in days :: ValidDate(d)) && ValidDate(t.date)
    ensures Covered(PartitionsAfter(days), t) <==> Expected(days, Month(t.date))
  {
    NamesInjective();
    CoveredIffAnyNaming(PartitionName, days, t);
  }

  lemma CoveredIffAnyNaming(naming: Naming, days: seq<Date>, t: Instant)
    requires Injective(naming) && (forall d | d in days :: ValidDate(d)) && ValidDate(t.date)
    ensures Covered(Runs(naming, days), t) <==> Expected(days, Month(t.date))
  {
    var p, month := Runs(naming, days), Month(t.date);
    RunsMonths(naming, days, month);
    ContainsIff(month, t);
    if Covered(p, t) {
      var name :| name in p && Contains(p[name], t);
      UniquePartition(naming, days, name, t);
    }
  }

  // If the task has run at least once in every month from July 2026 up to the one before the
  // present, every instant from June 2026 to the end of the present month is covered.
  lemma NoGaps(days: seq<Date>, now: Date, t: Instant)
    requires (forall d | d in days :: ValidDate(d)) && ValidDate(now) && ValidDate(t.date)
    requires forall month | JUNE_2026 + 1 <= month < Month(now) :: RanIn(days, month)
    requires JUNE_2026 <= Month(t.date) <= Month(now)
    ensures Covered(PartitionsAfter(days), t)
  {
    var month := Month(t.date);
    assert month > JUNE_2026 + 1 ==> RanIn(days, month - 1);
    CoveredIff(days, t);
  }
}
