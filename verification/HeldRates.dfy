/** When a page is converted at one pair of rates although entries expire and NBU changes its answers
    while it is built, and when it is not. */
module HeldRates {
  import opened Wrappers
  import opened Money
  import opened RateStore
  import opened RateRuns
  import opened Conversions
  import opened PageRates

  /***** Rates that survive expiry *****/

  // The rate a lookup answers without asking NBU.
  function KnownRate(s: Store, key: Key): Option<Rate> {
    if key.currency == UAH then Some(UAH_RATE)
    else if key in s.cache then Some(s.cache[key].rate)
    else if key in s.db then Some(s.db[key])
    else None
  }

  // A lookup answers the rate whatever NBU says, even if the entry has expired.
  predicate Held(s: Store, key: Key, rate: Rate) {
    KnownRate(s, key) == Some(rate) && KnownRate(Expired(s, key), key) == Some(rate)
  }

  // An entry without lifetime is held, and one with a lifetime exactly if it agrees with its row.
  lemma HeldIff(s: Store, key: Key)
    requires key in s.cache && key.currency != UAH
    ensures Held(s, key, s.cache[key].rate) <==> s.cache[key].ttl.None? || Agrees(s, key)
  {}

  lemma LookupKeepsHeld(s: Store, key: Key, answer: Option<Rate>, held: Key, rate: Rate)
    requires Held(s, held, rate)
    ensures Held(GetRate(s, key, answer).0, held, rate)
  {}

  // A held rate stays held until today's sync brings another one for its key.
  lemma StepHeldIff(s: Store, e: Event, key: Key, rate: Rate)
    requires Held(s, key, rate)
    ensures Held(Step(s, e), key, rate)
       <==> !(e.TodaySync? && key in TodayRows(s.today, e.bulk) && TodayRows(s.today, e.bulk)[key] != rate)
  {
    match e
    case Lookup(k, answer) => LookupKeepsHeld(s, k, answer, key, rate);
    case _ =>
  }

  // The lookup that gave the rate leaves it held, unless it found an entry that was not, or fell back
  // and cached the fallback rate with a lifetime.
  lemma LookupHeldIff(s: Store, key: Key, answer: Option<Rate>)
    requires GetRate(s, key, answer).1.Some?
    ensures Held(GetRate(s, key, answer).0, key, GetRate(s, key, answer).1.value)
       <==> && (BranchOf(s, key, answer) == Hit ==> Held(s, key, GetRate(s, key, answer).1.value))
            && (BranchOf(s, key, answer) == Fallback ==> key.day != s.today || s.ttlSeconds == 0)
  {}

  predicate Known(s: Store, c: Currency, day: int, r: Rates) {
    c == USD || (KnownRate(s, Key(USD, day)) == Some(r.usd) && KnownRate(s, Key(c, day)) == Some(r.other))
  }

  predicate Holds(s: Store, c: Currency, day: int, r: Rates) {
    c == USD || (Held(s, Key(USD, day), r.usd) && Held(s, Key(c, day), r.other))
  }

  // The conversion succeeds at these rates and leaves them in force.
  ghost predicate Uses(s: Store, num: int, c: Currency, nbu: Nbu, r: Rates) {
    var (s', amount) := ConvertOn(s, num, 1, c, s.today, nbu);
    amount.Some? && InForce(s', c, s.today, r)
  }

  lemma KnownConverts(s: Store, num: int, den: Divisor, c: Currency, day: int, nbu: Nbu, r: Rates)
    requires Known(s, c, day, r)
    ensures var (s', amount) := ConvertOn(s, num, den, c, day, nbu);
            amount == Some(Convert(num, den, c, r.usd, r.other)) && s'.today == s.today && InForce(s', c, day, r)
  {
    if c != USD {
      LookupFixesRate(s, Key(USD, day), nbu(Key(USD, day)), Key(USD, day));
      LookupFixesRate(GetRate(s, Key(USD, day), nbu(Key(USD, day))).0, Key(c, day), nbu(Key(c, day)), Key(USD, day));
    }
  }

  // An answer of NBU that no known rate can stand in for.
  lemma UnknownEscapes(s: Store, c: Currency, r: Rates)
    requires c != USD && !Known(s, c, s.today, r)
    ensures !Uses(s, 0, c, _ => Some(r.usd + r.other), r)
  {
    var nbu: Nbu := _ => Some(r.usd + r.other);
    var k1, k2 := Key(USD, s.today), Key(c, s.today);
    if ConvertOn(s, 0, 1, c, s.today, nbu).1.Some? {
      LookupFixesRate(s, k1, nbu(k1), k1);
      LookupFixesRate(GetRate(s, k1, nbu(k1)).0, k2, nbu(k2), k1);
    }
  }

  // The next conversion uses the rates for every answer of NBU exactly when each of its two keys is
  // cached with its rate, or not cached and has a row with that rate.
  lemma UsesIff(s: Store, c: Currency, r: Rates)
    requires c != USD
    ensures (forall num, nbu :: Uses(s, num, c, nbu, r)) <==> Known(s, c, s.today, r)
  {
    if Known(s, c, s.today, r) {
      forall num, nbu ensures Uses(s, num, c, nbu, r) { KnownConverts(s, num, 1, c, s.today, nbu, r); }
    } else {
      UnknownEscapes(s, c, r);
    }
  }

  ghost predicate Drops(es: seq<Event>) { forall e | e in es :: e.Expire? }

  lemma {:induction false} DropsKeepHeld(s: Store, es: seq<Event>, key: Key, rate: Rate)
    requires Drops(es) && Held(s, key, rate)
    ensures Held(Run(s, es), key, rate) && Run(s, es).today == s.today
    decreases |es|
  {
    if es != [] {
      assert es[0] in es && forall e | e in es[1..] :: e in es;
      StepHeldIff(s, es[0], key, rate);
      DropsKeepHeld(Step(s, es[0]), es[1..], key, rate);
    }
  }

  // Dropping one entry is enough to lose a rate that is not held.
  lemma UnheldIsLost(s: Store, key: Key, rate: Rate) returns (es: seq<Event>)
    requires !Held(s, key, rate)
    ensures Drops(es) && KnownRate(Run(s, es), key) != Some(rate) && Run(s, es).today == s.today
  {
    es := if KnownRate(s, key) == Some(rate) then [Expire(key)] else [];
    RunStep(s, Expire(key), []);
  }

  // It uses them for every answer of NBU and whatever entries expire before it exactly when both rates
  // are held.
  lemma UsesAfterDropsIff(s: Store, c: Currency, r: Rates)
    requires c != USD
    ensures (forall es, num, nbu | Drops(es) :: Uses(Run(s, es), num, c, nbu, r)) <==> Holds(s, c, s.today, r)
  {
    var k1, k2 := Key(USD, s.today), Key(c, s.today);
    if Holds(s, c, s.today, r) {
      forall es, num, nbu | Drops(es) ensures Uses(Run(s, es), num, c, nbu, r) {
        DropsKeepHeld(s, es, k1, r.usd);
        DropsKeepHeld(s, es, k2, r.other);
        KnownConverts(Run(s, es), num, 1, c, s.today, nbu, r);
      }
    } else {
      var lost, rate := if Held(s, k1, r.usd) then k2 else k1, if Held(s, k1, r.usd) then r.other else r.usd;
      var es := UnheldIsLost(s, lost, rate);
      UnknownEscapes(Run(s, es), c, r);
    }
  }

  /***** One pair of rates *****/

  // Today's rates are not synced to others.
  ghost predicate Steady(es: seq<Event>, c: Currency, r: Rates) {
    forall e | e in es && e.TodaySync? ::
      (USD in e.bulk ==> e.bulk[USD] == r.usd) && (c in e.bulk ==> e.bulk[c] == r.other)
  }

  // Nor does midnight pass.
  ghost predicate Calm(es: seq<Event>, c: Currency, r: Rates) {
    Steady(es, c, r) && forall e | e in es :: !e.Midnight?
  }

  lemma {:induction false} SteadyKeepsHolds(s: Store, es: seq<Event>, c: Currency, day: int, r: Rates)
    requires Steady(es, c, r) && Holds(s, c, day, r)
    ensures Holds(Run(s, es), c, day, r)
    decreases |es|
  {
    if es != [] {
      var e := es[0];
      assert e in es && forall e | e in es[1..] :: e in es;
      if c != USD {
        StepHeldIff(s, e, Key(USD, day), r.usd);
        StepHeldIff(s, e, Key(c, day), r.other);
      }
      SteadyKeepsHolds(Step(s, e), es[1..], c, day, r);
    }
  }

  lemma ConvertKeepsHeld(s: Store, num: int, den: Divisor, c: Currency, day: int, nbu: Nbu, held: Key, rate: Rate)
    requires Held(s, held, rate)
    ensures Held(ConvertOn(s, num, den, c, day, nbu).0, held, rate)
  {
    var k1, k2 := Key(USD, day), Key(c, day);
    LookupKeepsHeld(s, k1, nbu(k1), held, rate);
    LookupKeepsHeld(GetRate(s, k1, nbu(k1)).0, k2, nbu(k2), held, rate);
  }

  lemma ConvertKeepsHolds(s: Store, num: int, den: Divisor, c: Currency, day: int, nbu: Nbu, other: int, r: Rates)
    requires Holds(s, c, other, r)
    ensures var (s', amount) := ConvertOn(s, num, den, c, day, nbu);
            && Holds(s', c, other, r)
            && (day == other ==> amount == Some(Convert(num, den, c, r.usd, r.other)) && s'.today == s.today)
  {
    if c != USD {
      ConvertKeepsHeld(s, num, den, c, day, nbu, Key(USD, other), r.usd);
      ConvertKeepsHeld(s, num, den, c, day, nbu, Key(c, other), r.other);
    }
    if day == other { KnownConverts(s, num, den, c, day, nbu, r); }
  }

  // One more amount, after steady events, keeps held rates held and is converted at them if it is for their day.
  lemma NextHeld(s: Store, a: Option<Ask>, c: Currency, es: seq<Event>, nbu: Nbu, day: int, r: Rates)
    requires Holds(s, c, day, r) && Steady(es, c, r)
    ensures var (u, amount) := ConvertOpt(s, a, c, es, nbu);
            && Holds(u, c, day, r)
            && (a.Some? && DayOf(Run(s, es), a.value) == day ==> amount == Some(Some(ShownAsk(a.value, c, r))))
            && (a.None? ==> u == s && amount == Some(None))
  {
    if a.Some? {
      var t := Run(s, es);
      SteadyKeepsHolds(s, es, c, day, r);
      ConvertKeepsHolds(t, a.value.num, a.value.den, c, DayOf(t, a.value), nbu, day, r);
    }
  }

  lemma {:induction false} StaysToday(s: Store, es: seq<Event>)
    requires forall e | e in es :: !e.Midnight?
    ensures Run(s, es).today == s.today
    decreases |es|
  {
    if es != [] {
      assert es[0] in es && forall e | e in es[1..] :: e in es;
      StaysToday(Step(s, es[0]), es[1..]);
    }
  }

  // The same for an amount for today, after calm events.
  lemma NextShown(s: Store, a: Option<Ask>, c: Currency, es: seq<Event>, nbu: Nbu, r: Rates)
    requires Holds(s, c, s.today, r) && Calm(es, c, r) && (a.Some? ==> a.value.day.None?)
    ensures var (u, amount) := ConvertOpt(s, a, c, es, nbu);
            && u.today == s.today && Holds(u, c, u.today, r)
            && amount == Some(if a.None? then None else Some(ShownAsk(a.value, c, r)))
  {
    StaysToday(s, es);
    NextHeld(s, a, c, es, nbu, s.today, r);
    if a.Some? { ConvertQuotes(Run(s, es), a.value, c, nbu); }
  }

  lemma ShownAtNext(shown: seq<Option<int>>, asks: Asks, amount: Option<int>, c: Currency, r: Rates)
    requires |shown| < |asks| && ShownAt(shown, asks, c, r)
    requires amount == if asks[|shown|].None? then None else Some(ShownAsk(asks[|shown|].value, c, r))
    ensures ShownAt(shown + [amount], asks, c, r)
  {}

  lemma HeldExtends(s: Store, shown: seq<Option<int>>, asks: Asks, c: Currency, es: seq<Event>, nbu: Nbu, r: Rates)
    requires |shown| < |asks| && ForToday(asks) && ShownAt(shown, asks, c, r)
    requires Holds(s, c, s.today, r) && Calm(es, c, r)
    ensures var (u, more) := Extend(s, Some(shown), asks[|shown|], c, es, nbu);
            && u.today == s.today && Holds(u, c, u.today, r)
            && more.Some? && ShownAt(more.value, asks, c, r)
  {
    var a := asks[|shown|];
    NextShown(s, a, c, es, nbu, r);
    ShownAtNext(shown, asks, if a.None? then None else Some(ShownAsk(a.value, c, r)), c, r);
  }

  // The page is calm before the conversions m up to n.
  ghost predicate CalmFrom(w: World, m: nat, n: nat, c: Currency, r: Rates) {
    forall i | m <= i < n :: Calm(w.before(i), c, r)
  }

  // Once a page has shown its first amounts at held rates it goes on at them, whatever entries expire,
  // other requests ask and NBU answers in the meantime.
  lemma {:induction false} HeldPage(s: Store, asks: Asks, m: nat, n: nat, c: Currency, w: World, r: Rates)
    requires m <= n <= |asks| && ForToday(asks) && CalmFrom(w, m, n, c, r)
    requires var (t, shown) := ConvertFirst(s, asks, m, c, w);
             shown.Some? && ShownAt(shown.value, asks, c, r) && Holds(t, c, t.today, r)
    ensures var (s', shown) := ConvertFirst(s, asks, n, c, w);
            && shown.Some? && ShownAt(shown.value, asks, c, r)
            && s'.today == ConvertFirst(s, asks, m, c, w).0.today && Holds(s', c, s'.today, r)
  {
    if m < n {
      HeldPage(s, asks, m, n - 1, c, w, r);
      var (t, sofar) := ConvertFirst(s, asks, n - 1, c, w);
      HeldExtends(t, sofar.value, asks, c, w.before(n - 1), w.nbu(n - 1), r);
    }
  }

  // Position i holds the first amount of the page.
  ghost predicate FirstAt(asks: Asks, i: nat) {
    i < |asks| && asks[i].Some? && forall j | 0 <= j < i :: asks[j].None?
  }

  lemma {:induction false} NothingYet(s: Store, asks: Asks, n: nat, c: Currency, w: World)
    requires n <= |asks| && forall j | 0 <= j < n :: asks[j].None?
    ensures ConvertFirst(s, asks, n, c, w).0 == s && ConvertFirst(s, asks, n, c, w).1.Some?
  {
    if n > 0 { NothingYet(s, asks, n - 1, c, w); }
  }

  // The first amount is shown at the rates that it leaves in force.
  lemma FirstShown(s: Store, asks: Asks, c: Currency, w: World, i: nat)
    requires FirstAt(asks, i) && ForToday(asks) && ConvertFirst(s, asks, i + 1, c, w).1.Some?
    ensures var (t, shown) := ConvertFirst(s, asks, i + 1, c, w); ShownAt(shown.value, asks, c, RatesNow(t, c))
  {
    var a, t := asks[i].value, Run(s, w.before(i));
    NothingYet(s, asks, i, c, w);
    ConvertQuotes(t, a, c, w.nbu(i));
    QuoteToday(ConvertOn(t, a.num, a.den, c, t.today, w.nbu(i)).0, a, c);
  }

  // A page whose first conversion leaves its rates held is converted at that one pair of rates: whatever
  // entries expire, other requests ask and NBU answers in the meantime.
  lemma OnePairOfRates(s: Store, asks: Asks, c: Currency, w: World, i: nat)
    requires FirstAt(asks, i) && ForToday(asks)
    requires var (t, first) := ConvertFirst(s, asks, i + 1, c, w);
             first.Some? && Holds(t, c, t.today, RatesNow(t, c)) && CalmFrom(w, i + 1, |asks|, c, RatesNow(t, c))
    ensures var t := ConvertFirst(s, asks, i + 1, c, w).0;
            var (s', shown) := ConvertAll(s, asks, c, w);
            && shown.Some? && ShownAt(shown.value, asks, c, RatesNow(t, c))
            && s'.today == t.today && Holds(s', c, s'.today, RatesNow(t, c))
  {
    FirstShown(s, asks, c, w, i);
    HeldPage(s, asks, i + 1, |asks|, c, w, RatesNow(ConvertFirst(s, asks, i + 1, c, w).0, c));
  }

  // The rates an amount for a day has left in force.
  function RatesAfter(s: Store, asks: Asks, c: Currency, w: World, i: nat, day: int): Rates
    requires i < |asks|
  {
    RatesOn(ConvertFirst(s, asks, i + 1, c, w).0, c, day)
  }

  // Once an amount for a day has left its rates held, they stay held, even after midnight.
  lemma {:induction false} DayStaysHeld(s: Store, asks: Asks, c: Currency, w: World, day: int, r: Rates, i: nat, n: nat)
    requires i < n <= |asks| && Holds(ConvertFirst(s, asks, i + 1, c, w).0, c, day, r)
    requires forall j | i < j < n :: Steady(w.before(j), c, r)
    ensures Holds(ConvertFirst(s, asks, n, c, w).0, c, day, r)
  {
    if i + 1 < n {
      DayStaysHeld(s, asks, c, w, day, r, i, n - 1);
      NextHeld(ConvertFirst(s, asks, n - 1, c, w).0, asks[n - 1], c, w.before(n - 1), w.nbu(n - 1), day, r);
    }
  }

  // An amount is shown at the rates that its own conversion leaves in force.
  lemma ShownAsLeft(s: Store, asks: Asks, c: Currency, w: World, i: nat, day: int)
    requires i < |asks| && asks[i].Some? && asks[i].value.day == Some(day) && ConvertAll(s, asks, c, w).1.Some?
    ensures ConvertAll(s, asks, c, w).1.value[i]
         == Some(ShownAsk(asks[i].value, c, RatesAfter(s, asks, c, w, i, day)))
  {
    AmountShown(s, asks, i, c, w);
    ConvertQuotes(Run(ConvertFirst(s, asks, i, c, w).0, w.before(i)), asks[i].value, c, w.nbu(i));
  }

  lemma ShownAsHeld(s: Store, asks: Asks, c: Currency, w: World, j: nat, day: int, r: Rates)
    requires j < |asks| && asks[j].Some? && asks[j].value.day == Some(day) && ConvertAll(s, asks, c, w).1.Some?
    requires Holds(ConvertFirst(s, asks, j, c, w).0, c, day, r) && Steady(w.before(j), c, r)
    ensures ConvertAll(s, asks, c, w).1.value[j] == Some(ShownAsk(asks[j].value, c, r))
  {
    AmountShown(s, asks, j, c, w);
    NextHeld(ConvertFirst(s, asks, j, c, w).0, asks[j], c, w.before(j), w.nbu(j), day, r);
  }

  // So two amounts of a day are shown at one pair of rates if the first of them leaves its rates held.
  lemma DaySharesRates(s: Store, asks: Asks, c: Currency, w: World, day: int, i: nat, j: nat)
    requires i < j < |asks| && ConvertAll(s, asks, c, w).1.Some?
    requires asks[i].Some? && asks[j].Some? && asks[i].value.day == Some(day) == asks[j].value.day
    requires var r := RatesAfter(s, asks, c, w, i, day);
             && Holds(ConvertFirst(s, asks, i + 1, c, w).0, c, day, r)
             && forall k | i < k <= j :: Steady(w.before(k), c, r)
    ensures var r, shown := RatesAfter(s, asks, c, w, i, day), ConvertAll(s, asks, c, w).1.value;
            && shown[i] == Some(ShownAsk(asks[i].value, c, r))
            && shown[j] == Some(ShownAsk(asks[j].value, c, r))
  {
    var r := RatesAfter(s, asks, c, w, i, day);
    ShownAsLeft(s, asks, c, w, i, day);
    DayStaysHeld(s, asks, c, w, day, r, i, j);
    ShownAsHeld(s, asks, c, w, j, day, r);
  }

  /***** When the first conversion leaves its rates held *****/

  // One of the lookups of a conversion ends in the fallback.
  predicate FallsBack(s: Store, c: Currency, day: int, nbu: Nbu) {
    var k1, k2 := Key(USD, day), Key(c, day);
    c != USD && (BranchOf(s, k1, nbu(k1)) == Fallback || BranchOf(GetRate(s, k1, nbu(k1)).0, k2, nbu(k2)) == Fallback)
  }

  lemma CoherentLookupHolds(s: Store, key: Key, answer: Option<Rate>)
    requires Coherent(s) && BranchOf(s, key, answer) != Fallback && GetRate(s, key, answer).1.Some?
    ensures Coherent(GetRate(s, key, answer).0)
    ensures Held(GetRate(s, key, answer).0, key, GetRate(s, key, answer).1.value)
  {
    StepCoherentIff(s, Lookup(key, answer));
    if BranchOf(s, key, answer) == Hit { assert Agrees(s, key); }
  }

  lemma CoherentConversionHolds(s: Store, a: Ask, c: Currency, nbu: Nbu)
    requires Coherent(s) && !FallsBack(s, c, DayOf(s, a), nbu)
    requires ConvertOn(s, a.num, a.den, c, DayOf(s, a), nbu).1.Some?
    ensures var day, s' := DayOf(s, a), ConvertOn(s, a.num, a.den, c, DayOf(s, a), nbu).0;
            s'.today == s.today && Holds(s', c, day, RatesOn(s', c, day))
  {
    ConvertQuotes(s, a, c, nbu);
    if c != USD {
      var k1, k2 := Key(USD, DayOf(s, a)), Key(c, DayOf(s, a));
      var s1 := GetRate(s, k1, nbu(k1)).0;
      CoherentLookupHolds(s, k1, nbu(k1));
      LookupFixesRate(s, k1, nbu(k1), k1);
      if c != UAH {
        CoherentLookupHolds(s1, k2, nbu(k2));
        LookupFixesRate(s1, k2, nbu(k2), k1);
        LookupKeepsHeld(s1, k2, nbu(k2), k1, GetRate(s, k1, nbu(k1)).1.value);
      }
    }
  }

  // So a page that begins with a coherent cache is shown at one pair of rates unless its first
  // conversion fails or ends in the fallback.
  lemma CoherentPage(s: Store, asks: Asks, c: Currency, w: World, i: nat)
    requires FirstAt(asks, i) && ForToday(asks)
    requires var t := Run(s, w.before(i)); Coherent(t) && !FallsBack(t, c, t.today, w.nbu(i))
    requires var (t, first) := ConvertFirst(s, asks, i + 1, c, w);
             first.Some? && CalmFrom(w, i + 1, |asks|, c, RatesNow(t, c))
    ensures var r := RatesNow(ConvertFirst(s, asks, i + 1, c, w).0, c);
            var (s', shown) := ConvertAll(s, asks, c, w);
            shown.Some? && ShownAt(shown.value, asks, c, r) && Holds(s', c, s'.today, r)
  {
    NothingYet(s, asks, i, c, w);
    CoherentConversionHolds(Run(s, w.before(i)), asks[i].value, c, w.nbu(i));
    OnePairOfRates(s, asks, c, w, i);
  }

  /***** Two rates on one page *****/

  const DOLLAR_ASK: Option<Ask> := Some(Ask(1_0000, 1, None))

  // Two prices of a dollar, in hryvnias.
  lemma TwoConversions(s: Store, asks: Asks, w: World)
    requires asks == [DOLLAR_ASK, DOLLAR_ASK]
    ensures ConvertAll(s, asks, UAH, w) ==
            var (t, first) := ConvertOpt(s, DOLLAR_ASK, UAH, w.before(0), w.nbu(0));
            if first.None? then (t, None)
            else
              var (u, second) := ConvertOpt(t, DOLLAR_ASK, UAH, w.before(1), w.nbu(1));
              (u, if second.Some? then Some([first.value, second.value]) else None)
  {
    assert ConvertFirst(s, asks, 0, UAH, w) == (s, Some([]));
    var (t, first) := ConvertOpt(s, DOLLAR_ASK, UAH, w.before(0), w.nbu(0));
    if first.Some? {
      assert [] + [first.value] == [first.value];
      assert ConvertFirst(s, asks, 1, UAH, w) == (t, Some([first.value]));
      var (u, second) := ConvertOpt(t, DOLLAR_ASK, UAH, w.before(1), w.nbu(1));
      if second.Some? { assert [first.value] + [second.value] == [first.value, second.value]; }
    } else {
      assert ConvertFirst(s, asks, 1, UAH, w) == (t, None);
    }
  }

  // A dollar is shown at the dollar's rate.
  lemma DollarAsk(s: Store, es: seq<Event>, nbu: Nbu, t: Store, rate: Rate)
    requires t == Run(s, es) && GetRate(t, Key(USD, t.today), nbu(Key(USD, t.today))).1 == Some(rate)
    ensures ConvertOpt(s, DOLLAR_ASK, UAH, es, nbu)
         == (GetRate(t, Key(USD, t.today), nbu(Key(USD, t.today))).0, Some(Some(Round(1_0000 * rate, UAH_RATE))))
  {}

  // Yesterday's rate is 40, and there is none for today.
  const YESTERDAY_ONLY := Store(map[Key(USD, 4) := 40_0000_0000], map[], 5, 3600, [])

  // NBU is down for the first price; the entry expires; NBU answers 50 for the second price.
  const OUTAGE_ENDS := World(n => if n == 1 then [Expire(Key(USD, 5))] else [],
                             n => if n == 1 then (_ => Some(50_0000_0000)) else (_ => None))

  // "One page, one pair of rates" is false: the first price is shown at the fallback rate, the second at
  // the rate of today.
  lemma ExpiryShowsTwoRates()
    ensures ConvertAll(YESTERDAY_ONLY, [DOLLAR_ASK, DOLLAR_ASK], UAH, OUTAGE_ENDS).1
         == Some([Some(40_0000), Some(50_0000)])
  {
    var s, w, key := YESTERDAY_ONLY, OUTAGE_ENDS, Key(USD, 5);
    TwoConversions(s, [DOLLAR_ASK, DOLLAR_ASK], w);
    FallsBackToYesterday();
    var t := GetRate(s, key, None).0;
    DollarAsk(s, [], w.nbu(0), s, 40_0000_0000);
    RunStep(t, Expire(key), []);
    DollarAsk(t, [Expire(key)], w.nbu(1), Expired(t, key), 50_0000_0000);
  }

  lemma FallsBackToYesterday()
    ensures var (s, key) := (YESTERDAY_ONLY, Key(USD, 5));
            var (t, rate) := GetRate(s, key, None);
            rate == Some(40_0000_0000) && t.today == 5
            && GetRate(Expired(t, key), key, Some(50_0000_0000)).1 == Some(50_0000_0000)
  {
    var s, key := YESTERDAY_ONLY, Key(USD, 5);
    assert Key(USD, 4) in s.db && NewestRow(s.db, key, 4, 40_0000_0000);
    NewestDetermines(s.db, key, 4, 40_0000_0000);
  }

  const BOTH_DAYS := Store(map[Key(USD, 5) := 40_0000_0000, Key(USD, 6) := 50_0000_0000], map[], 5, 3600, [])

  const MIDNIGHT_BETWEEN := World(n => if n == 1 then [Midnight] else [], _ => (_ => None))

  // Midnight does the same, although both days have a rate.
  lemma MidnightShowsTwoRates()
    ensures ConvertAll(BOTH_DAYS, [DOLLAR_ASK, DOLLAR_ASK], UAH, MIDNIGHT_BETWEEN).1
         == Some([Some(40_0000), Some(50_0000)])
  {
    var s, w := BOTH_DAYS, MIDNIGHT_BETWEEN;
    TwoConversions(s, [DOLLAR_ASK, DOLLAR_ASK], w);
    assert Key(USD, 5) in s.db && Key(USD, 6) in s.db;
    DollarAsk(s, [], w.nbu(0), s, 40_0000_0000);
    var t := GetRate(s, Key(USD, 5), None).0;
    RunStep(t, Midnight, []);
    DollarAsk(t, [Midnight], w.nbu(1), t.(today := 6), 50_0000_0000);
  }
}
