/** The rate lookups behind a conversion, as functions of the store, and what they mean together
    with the fixed-point arithmetic. */
module Conversions {
  import opened Wrappers
  import opened Money
  import opened RateStore
  import opened RateRuns

  // CurrencyService.convert: the dollar's rate is looked up before the target's, neither for USD.
  function ConvertOn(s: Store, num: int, den: int, to: Currency, day: int, nbu: Nbu): (Store, Option<int>)
    requires 0 < den
  {
    if to == USD then (s, Some(Convert(num, den, USD, UAH_RATE, UAH_RATE)))
    else
      var (s1, usd) := GetRate(s, Key(USD, day), nbu(Key(USD, day)));
      if usd.None? then (s1, None)
      else if to == UAH then (s1, Some(Convert(num, den, UAH, usd.value, UAH_RATE)))
      else
        var (s2, target) := GetRate(s1, Key(to, day), nbu(Key(to, day)));
        if target.None? then (s2, None) else (s2, Some(Convert(num, den, to, usd.value, target.value)))
  }

  // AlertService._to_usd: both rates are looked up for today, except for USD.
  function ToUsdOn(s: Store, amount: int, currency: Currency, nbu: Nbu): (Store, Option<int>) {
    if currency == USD then (s, Some(amount))
    else
      var (s1, usd) := GetRate(s, Key(USD, s.today), nbu(Key(USD, s.today)));
      if usd.None? then (s1, None)
      else
        var (s2, other) := GetRate(s1, Key(currency, s1.today), nbu(Key(currency, s1.today)));
        if other.None? then (s2, None) else (s2, Some(ToUsd(amount, currency, usd.value, other.value)))
  }

  // A conversion acts on the store as the lookups it makes, so what holds of runs holds of it.
  lemma ConvertIsLookups(s: Store, num: int, den: int, to: Currency, day: int, nbu: Nbu) returns (es: seq<Event>)
    requires 0 < den
    ensures ConvertOn(s, num, den, to, day, nbu).0 == Run(s, es)
    ensures |es| <= 2 && forall i | 0 <= i < |es| :: es[i].Lookup?
  {
    var k1, k2 := Key(USD, day), Key(to, day);
    var (s1, usd) := GetRate(s, k1, nbu(k1));
    es := if to == USD then [] else if usd.None? || to == UAH then [Lookup(k1, nbu(k1))]
          else [Lookup(k1, nbu(k1)), Lookup(k2, nbu(k2))];
    if to != USD { RunStep(s, Lookup(k1, nbu(k1)), es[1..]); }
    if |es| == 2 { RunStep(s1, Lookup(k2, nbu(k2)), []); }
  }

  lemma ToUsdIsLookups(s: Store, amount: int, currency: Currency, nbu: Nbu) returns (es: seq<Event>)
    ensures ToUsdOn(s, amount, currency, nbu).0 == Run(s, es)
    ensures |es| <= 2 && forall i | 0 <= i < |es| :: es[i].Lookup?
  {
    var k1, k2 := Key(USD, s.today), Key(currency, s.today);
    var (s1, usd) := GetRate(s, k1, nbu(k1));
    es := if currency == USD then [] else if usd.None? then [Lookup(k1, nbu(k1))]
          else [Lookup(k1, nbu(k1)), Lookup(k2, nbu(k2))];
    if currency != USD { RunStep(s, Lookup(k1, nbu(k1)), es[1..]); }
    if |es| == 2 { RunStep(s1, Lookup(k2, nbu(k2)), []); }
  }

  lemma RunStep(s: Store, e: Event, es: seq<Event>)
    ensures Run(s, [e] + es) == Run(Step(s, e), es)
    ensures Run(s, []) == s
  {
    assert ([e] + es)[1..] == es;
  }

  // The rate a lookup would find in the cache, with the base currency built in.
  function RateInForce(s: Store, key: Key): Option<Rate> {
    if key.currency == UAH then Some(UAH_RATE)
    else if key in s.cache then Some(s.cache[key].rate) else None
  }

  // No midnight, no sync of today's rates and no expiry: only lookups and historical syncs.
  ghost predicate Quiet(es: seq<Event>) {
    forall e | e in es :: e.Lookup? || e.HistoricalSync?
  }

  lemma {:induction false} QuietKeepsRates(s: Store, es: seq<Event>, key: Key)
    requires Quiet(es) && RateInForce(s, key).Some?
    ensures RateInForce(Run(s, es), key) == RateInForce(s, key)
    decreases |es|
  {
    if es != [] {
      assert es[0] in es;
      if key.currency != UAH { EntryKept(s, es[0], key); }
      assert forall e | e in es[1..] :: e in es;
      QuietKeepsRates(Step(s, es[0]), es[1..], key);
    }
  }

  // A lookup changes no rate in force, and leaves its answer in force; it leaves none if it fails.
  lemma LookupFixesRate(s: Store, key: Key, answer: Option<Rate>, other: Key)
    ensures RateInForce(GetRate(s, key, answer).0, key) == GetRate(s, key, answer).1
    ensures RateInForce(s, other).Some? ==> RateInForce(GetRate(s, key, answer).0, other) == RateInForce(s, other)
    ensures GetRate(s, key, answer).0.today == s.today
  {}

  lemma ConvertKeepsRates(s: Store, num: int, den: int, to: Currency, day: int, nbu: Nbu, other: Key)
    requires 0 < den && RateInForce(s, other).Some?
    ensures RateInForce(ConvertOn(s, num, den, to, day, nbu).0, other) == RateInForce(s, other)
  {
    var k1, k2 := Key(USD, day), Key(to, day);
    LookupFixesRate(s, k1, nbu(k1), other);
    LookupFixesRate(GetRate(s, k1, nbu(k1)).0, k2, nbu(k2), other);
  }

  // A conversion that fails was missing one of its rates, and still is.
  lemma ConvertFails(s: Store, num: int, den: int, to: Currency, day: int, nbu: Nbu)
    requires 0 < den && ConvertOn(s, num, den, to, day, nbu).1.None?
    ensures var s' := ConvertOn(s, num, den, to, day, nbu).0;
            RateInForce(s', Key(USD, day)).None? || RateInForce(s', Key(to, day)).None?
  {
    var k1, k2 := Key(USD, day), Key(to, day);
    LookupFixesRate(s, k1, nbu(k1), k1);
    LookupFixesRate(GetRate(s, k1, nbu(k1)).0, k2, nbu(k2), k2);
  }

  // A threshold that was stored leaves both of its rates in force.
  lemma ToUsdFixesRates(s: Store, amount: int, currency: Currency, nbu: Nbu)
    requires currency != USD && ToUsdOn(s, amount, currency, nbu).1.Some?
    ensures var (s', usd) := ToUsdOn(s, amount, currency, nbu);
            var ru, ro := RateInForce(s', Key(USD, s.today)), RateInForce(s', Key(currency, s.today));
            && s'.today == s.today && ru.Some? && ro.Some?
            && usd == Some(ToUsd(amount, currency, ru.value, ro.value))
  {
    var k1, k2 := Key(USD, s.today), Key(currency, s.today);
    LookupFixesRate(s, k1, nbu(k1), k1);
    LookupFixesRate(GetRate(s, k1, nbu(k1)).0, k2, nbu(k2), k1);
  }

  // A threshold is stored exactly when both rates of today can be had; in dollars none is needed.
  lemma ToUsdAnswersIff(s: Store, amount: int, currency: Currency, nbu: Nbu)
    ensures var (s', usd) := ToUsdOn(s, amount, currency, nbu);
            usd.Some? <==> currency == USD || (RateInForce(s', Key(USD, s.today)).Some?
                                               && RateInForce(s', Key(currency, s.today)).Some?)
  {
    var k1, k2 := Key(USD, s.today), Key(currency, s.today);
    LookupFixesRate(s, k1, nbu(k1), k1);
    LookupFixesRate(GetRate(s, k1, nbu(k1)).0, k2, nbu(k2), k1);
  }

  // A conversion that succeeds leaves the rates it used in force, so every later conversion of the
  // same request uses the same ones.
  lemma ConvertFixesRates(s: Store, num: int, den: int, to: Currency, day: int, nbu: Nbu)
    requires 0 < den && to != USD && ConvertOn(s, num, den, to, day, nbu).1.Some?
    ensures var (s', amount) := ConvertOn(s, num, den, to, day, nbu);
            var ru, rt := RateInForce(s', Key(USD, day)), RateInForce(s', Key(to, day));
            && s'.today == s.today && ru.Some? && rt.Some?
            && amount == Some(Convert(num, den, to, ru.value, rt.value))
  {
    var k1, k2 := Key(USD, day), Key(to, day);
    LookupFixesRate(s, k1, nbu(k1), k1);
    LookupFixesRate(GetRate(s, k1, nbu(k1)).0, k2, nbu(k2), k1);
  }

  // With both rates in force, convert uses them, asks nobody and changes nothing.
  lemma ConvertUsesRatesInForce(s: Store, num: int, den: int, to: Currency, day: int, nbu: Nbu)
    requires 0 < den && to != USD
    requires RateInForce(s, Key(USD, day)).Some? && RateInForce(s, Key(to, day)).Some?
    ensures ConvertOn(s, num, den, to, day, nbu)
         == (s, Some(Convert(num, den, to, RateInForce(s, Key(USD, day)).value, RateInForce(s, Key(to, day)).value)))
  {}

  // A conversion that answers gives the nearest amount at the rates that it leaves in force for its day.
  lemma ConvertNearest(s: Store, num: int, den: int, to: Currency, day: int, nbu: Nbu)
    requires 0 < den && ConvertOn(s, num, den, to, day, nbu).1.Some?
    ensures var (s', amount) := ConvertOn(s, num, den, to, day, nbu);
            var ru, rt := RateInForce(s', Key(USD, day)), RateInForce(s', Key(to, day));
            if to == USD then s' == s && IsNearestEven(num, den, amount.value)
            else ru.Some? && rt.Some? && IsNearestEven(num * ru.value, den * rt.value, amount.value)
  {
    if to == USD {
      ConvertIsNearest(num, den, USD, UAH_RATE, UAH_RATE);
    } else {
      ConvertFixesRates(s, num, den, to, day, nbu);
      var s' := ConvertOn(s, num, den, to, day, nbu).0;
      var ru, rt := RateInForce(s', Key(USD, day)).value, RateInForce(s', Key(to, day)).value;
      ConvertIsNearest(num, den, to, ru, rt);
    }
  }

  // A threshold is stored as it was typed if it is in dollars, and else as the nearest amount at today's rates.
  lemma ToUsdNearest(s: Store, amount: int, currency: Currency, nbu: Nbu)
    requires ToUsdOn(s, amount, currency, nbu).1.Some?
    ensures var (s', usd) := ToUsdOn(s, amount, currency, nbu);
            var ru, ro := RateInForce(s', Key(USD, s.today)), RateInForce(s', Key(currency, s.today));
            if currency == USD then s' == s && usd.value == amount
            else ru.Some? && ro.Some? && IsNearestEven(amount * ro.value, ru.value, usd.value)
  {
    if currency != USD {
      ToUsdFixesRates(s, amount, currency, nbu);
      var s' := ToUsdOn(s, amount, currency, nbu).0;
      ToUsdIsNearest(amount, currency, RateInForce(s', Key(USD, s.today)).value,
                     RateInForce(s', Key(currency, s.today)).value);
    }
  }
}

/** CurrencyService as the object that owns the table, the cache and the talk with NBU. */
module CurrencyServices {
  import opened Wrappers
  import opened Money
  import opened RateStore
  import opened RateRuns
  import opened Conversions

  class CurrencyService {
    var db: map<Key, Rate>
    var cache: map<Key, Entry>
    var today: int
    const ttlSeconds: nat
    var requests: seq<Request>

    function State(): Store
      reads this
    {
      Store(db, cache, today, ttlSeconds, requests)
    }

    constructor (today: int, ttlSeconds: nat)
      ensures State() == Store(map[], map[], today, ttlSeconds, [])
    {
      this.today, this.ttlSeconds := today, ttlSeconds;
      db, cache, requests := map[], map[], [];
    }

    method Cache(key: Key, rate: Rate)
      modifies this`cache
      ensures State() == Cached(old(State()), key, rate)
    {
      if key.day == today && ttlSeconds != 0 {
        cache := cache[key := Entry(rate, Some(ttlSeconds))];
      } else {
        cache := cache[key := Entry(rate, None)];
      }
    }

    method Upsert(key: Key, rate: Rate)
      modifies this`db
      ensures db == old(db)[key := rate]
    {
      db := db[key := rate];
    }

    method FetchFromNbu(key: Key, nbu: Nbu) returns (answer: Option<Rate>)
      modifies this`requests
      ensures answer == nbu(key) && requests == old(requests) + [Single(key)]
    {
      requests := requests + [Single(key)];
      answer := nbu(key);
    }

    method GetRate(key: Key, nbu: Nbu) returns (rate: Option<Rate>)
      modifies this`db, this`cache, this`requests
      ensures (State(), rate) == RateStore.GetRate(old(State()), key, nbu(key))
    {
      if key.currency == UAH { return Some(UAH_RATE); }
      if key in cache { return Some(cache[key].rate); }
      if key in db {
        Cache(key, db[key]);
        return Some(db[key]);
      }
      rate := FetchFromNbu(key, nbu);
      if rate.Some? {
        Upsert(key, rate.value);
        Cache(key, rate.value);
        return;
      }
      rate := RateOnOrBefore(db, key);
      if rate.Some? {
        Cache(key, rate.value);
      }
    }

    method Convert(num: int, den: int, to: Currency, forDate: Option<int>, nbu: Nbu)
      returns (amount: Option<int>)
      requires 0 < den
      modifies this`db, this`cache, this`requests
      ensures var day := if forDate.Some? then forDate.value else old(today);
              (State(), amount) == ConvertOn(old(State()), num, den, to, day, nbu)
    {
      if to == USD { return Some(Round(num, den)); }
      var day := if forDate.Some? then forDate.value else today;
      var usd := GetRate(Key(USD, day), nbu);
      if usd.None? { return None; }
      if to == UAH { return Some(Round(num * usd.value, den * UAH_RATE)); }
      var target := GetRate(Key(to, day), nbu);
      if target.None? { return None; }
      return Some(Round(num * usd.value, den * target.value));
    }

    // AlertService._to_usd
    method ToUsd(amount: int, currency: Currency, nbu: Nbu) returns (usd: Option<int>)
      modifies this`db, this`cache, this`requests
      ensures (State(), usd) == ToUsdOn(old(State()), amount, currency, nbu)
    {
      if currency == USD { return Some(amount); }
      var rateUsd := GetRate(Key(USD, today), nbu);
      if rateUsd.None? { return None; }
      var rateOther := GetRate(Key(currency, today), nbu);
      if rateOther.None? { return None; }
      return Some(Round(amount * rateOther.value, rateUsd.value));
    }

    // The bulk answer is empty when the request to NBU fails.
    method SyncTodayRates(bulk: map<Currency, Rate>) returns (synced: nat)
      modifies this`db, this`cache, this`requests
      ensures State() == SyncToday(old(State()), bulk)
      ensures synced == |TodayRows(old(today), bulk)|
    {
      requests := requests + [Bulk(today)];
      ghost var start := State();
      synced := 0;
      for i := 0 to |SYNC_CURRENCIES|
        invariant State() == TodayTurns(start, i, bulk)
        invariant synced == TodayCount(i, bulk)
      {
        var c := SYNC_CURRENCIES[i];
        if c !in bulk { continue; }
        Upsert(Key(c, today), bulk[c]);
        Cache(Key(c, today), bulk[c]);
        synced := synced + 1;
      }
      TodayTurnsSync(old(State()), bulk);
    }

    method SyncHistoricalRates(dateFrom: int, dateTo: int, nbu: Nbu) returns (written: nat)
      modifies this`db, this`requests
      ensures State() == SyncHistorical(old(State()), dateFrom, dateTo, nbu)
      ensures |db| == |old(db)| + written
    {
      ghost var start := Progress(db, requests, 0);
      written := 0;
      var current := dateFrom;
      while current <= dateTo
        invariant dateFrom <= current && (current <= dateTo + 1 || current == dateFrom)
        invariant Progress(db, requests, written) == Turns(start, Visits(dateFrom, current - 1), nbu)
      {
        ghost var visited := Visits(dateFrom, current - 1);
        assert visited + DayVisits(current, 0) == visited;
        for i := 0 to |SYNC_CURRENCIES|
          invariant Progress(db, requests, written) == Turns(start, visited + DayVisits(current, i), nbu)
        {
          var key := Key(SYNC_CURRENCIES[i], current);
          NextTurn(start, visited, current, i, nbu);
          if key in db { continue; }
          var rate := FetchFromNbu(key, nbu);
          if rate.Some? {
            Upsert(key, rate.value);
            written := written + 1;
          }
        }
        assert Visits(dateFrom, current) == visited + DayVisits(current, |SYNC_CURRENCIES|);
        current := current + 1;
      }
      assert Visits(dateFrom, current - 1) == Visits(dateFrom, dateTo);
      VisitsAre(dateFrom, dateTo);
      TurnsVisit(old(db), old(requests), Visits(dateFrom, dateTo), nbu);
    }

    // One thing that happens to the service while a caller waits: another caller, a sync, Redis, midnight.
    method Happen(event: Event)
      modifies this
      ensures State() == Step(old(State()), event)
    {
      match event {
        case Lookup(key, answer) =>
          var _ := GetRate(key, _ => answer);
        case TodaySync(bulk) =>
          var _ := SyncTodayRates(bulk);
        case HistoricalSync(dateFrom, dateTo, nbu) =>
          var _ := SyncHistoricalRates(dateFrom, dateTo, nbu);
        case Expire(key) =>
          if key in cache && cache[key].ttl.Some? { cache := cache - {key}; }
        case Midnight =>
          today := today + 1;
      }
    }

    method Elapse(events: seq<Event>)
      modifies this
      ensures State() == Run(old(State()), events)
    {
      for i := 0 to |events|
        invariant Run(State(), events[i..]) == Run(old(State()), events)
      {
        assert events[i..][1..] == events[i + 1..];
        Happen(events[i]);
      }
    }
  }
}
