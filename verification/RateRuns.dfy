/** The exchange-rate service over whole runs: lookups, both syncs, expiring cache entries and
    passing midnights, in any order and number. Steps are sequential and committed. */
module RateRuns {
  import opened Wrappers
  import opened Money
  import opened RateStore

  datatype Event =
    | Lookup(key: Key, answer: Option<Rate>)  // with what NBU would answer if it were asked
    | TodaySync(bulk: map<Currency, Rate>)    // with NBU's bulk answer, empty when the call fails
    | HistoricalSync(dateFrom: int, dateTo: int, nbu: Nbu)
    | Expire(key: Key)                        // Redis drops an entry that has a lifetime
    | Midnight

  function Expired(s: Store, key: Key): Store {
    if key in s.cache && s.cache[key].ttl.Some? then s.(cache := s.cache - {key}) else s
  }

  function Step(s: Store, e: Event): Store {
    match e
    case Lookup(key, answer) => GetRate(s, key, answer).0
    case TodaySync(bulk) => SyncToday(s, bulk)
    case HistoricalSync(dateFrom, dateTo, nbu) => SyncHistorical(s, dateFrom, dateTo, nbu)
    case Expire(key) => Expired(s, key)
    case Midnight => s.(today := s.today + 1)
  }

  function Run(s: Store, es: seq<Event>): Store
    decreases |es|
  {
    if es == [] then s else Run(Step(s, es[0]), es[1..])
  }

  // What the lookups of a run answer, in order.
  function Answers(s: Store, es: seq<Event>): seq<Option<Rate>>
    decreases |es|
  {
    if es == [] then []
    else
      (if es[0].Lookup? then [GetRate(s, es[0].key, es[0].answer).1] else [])
      + Answers(Step(s, es[0]), es[1..])
  }

  /***** Where the cached rates come from *****/

  // History of a cache entry: written with the rate of its own row, or by the fallback branch,
  // which saw the given table.
  datatype Origin = FromRow | FromFallback(table: map<Key, Rate>)

  datatype Traced = Traced(store: Store, origins: map<Key, Origin>)

  function TracedStep(t: Traced, e: Event): Traced {
    var s := t.store;
    var origins :=
      match e
      case Lookup(key, answer) =>
        (match BranchOf(s, key, answer)
         case Exact => t.origins[key := FromRow]
         case Fetched => t.origins[key := FromRow]
         case Fallback => t.origins[key := FromFallback(s.db)]
         case _ => t.origins)
      case TodaySync(bulk) => t.origins + map k | k in TodayRows(s.today, bulk) :: FromRow
      case _ => t.origins;
    Traced(Step(s, e), origins)
  }

  function TracedRun(t: Traced, es: seq<Event>): Traced
    decreases |es|
  {
    if es == [] then t else TracedRun(TracedStep(t, es[0]), es[1..])
  }

  // The cache entry for the key agrees with the table.
  ghost predicate Agrees(s: Store, key: Key) {
    key in s.cache ==> key in s.db && s.db[key] == s.cache[key].rate
  }

  // Every cached rate is the rate of its row. The hryvnia is never looked up in the cache.
  ghost predicate Coherent(s: Store) {
    forall key | key in s.cache && key.currency != UAH :: Agrees(s, key)
  }

  // The rate is that of the newest row strictly before the key's date in a table without the key.
  ghost predicate NewestStrictlyEarlier(table: map<Key, Rate>, key: Key, rate: Rate) {
    exists d :: d < key.day && NewestRow(table, key, d, rate)
  }

  ghost predicate Explained(t: Traced, key: Key)
    requires key in t.store.cache && key in t.origins
  {
    match t.origins[key]
    case FromRow => Agrees(t.store, key)
    case FromFallback(table) =>
      && key !in table && table.Keys <= t.store.db.Keys
      && NewestStrictlyEarlier(table, key, t.store.cache[key].rate)
  }

  // Every cached rate is its row's rate, or the fallback's rate at the moment it was cached.
  ghost predicate Provenance(t: Traced) {
    forall key | key in t.store.cache && key.currency != UAH :: key in t.origins && Explained(t, key)
  }

  lemma LookupKeepsProvenance(t: Traced, e: Event)
    requires Provenance(t) && e.Lookup?
    ensures Provenance(TracedStep(t, e))
  {
    var u := TracedStep(t, e);
    forall key | key in u.store.cache && key.currency != UAH ensures key in u.origins && Explained(u, key) {
      if key != e.key || BranchOf(t.store, key, e.answer) == Hit {
        assert Explained(t, key);
      } else if BranchOf(t.store, key, e.answer) == Fallback {
        FallbackIsEarlier(t.store.db, key);
      }
    }
  }

  lemma FallbackIsEarlier(db: map<Key, Rate>, key: Key)
    requires key !in db && RateOnOrBefore(db, key).Some?
    ensures NewestStrictlyEarlier(db, key, RateOnOrBefore(db, key).value)
  {
    var d :| NewestRow(db, key, d, RateOnOrBefore(db, key).value);
    assert d != key.day;
  }

  lemma TodaySyncKeepsProvenance(t: Traced, e: Event)
    requires Provenance(t) && e.TodaySync?
    ensures Provenance(TracedStep(t, e))
  {
    var u := TracedStep(t, e);
    forall key | key in u.store.cache && key.currency != UAH ensures key in u.origins && Explained(u, key) {
      if key !in TodayRows(t.store.today, e.bulk) { assert Explained(t, key); }
    }
  }

  lemma OthersKeepProvenance(t: Traced, e: Event)
    requires Provenance(t) && !e.Lookup? && !e.TodaySync?
    ensures Provenance(TracedStep(t, e))
  {
    var u := TracedStep(t, e);
    forall key | key in u.store.cache && key.currency != UAH ensures key in u.origins && Explained(u, key) {
      assert Explained(t, key);
    }
  }

  lemma StepKeepsProvenance(t: Traced, e: Event)
    requires Provenance(t)
    ensures Provenance(TracedStep(t, e))
  {
    match e
    case Lookup(_, _) => LookupKeepsProvenance(t, e);
    case TodaySync(_) => TodaySyncKeepsProvenance(t, e);
    case _ => OthersKeepProvenance(t, e);
  }

  lemma {:induction false} RunKeepsProvenance(t: Traced, es: seq<Event>)
    requires Provenance(t)
    ensures Provenance(TracedRun(t, es))
    ensures TracedRun(t, es).store == Run(t.store, es)
    decreases |es|
  {
    if es != [] {
      StepKeepsProvenance(t, es[0]);
      RunKeepsProvenance(TracedStep(t, es[0]), es[1..]);
    }
  }

  // From a coherent start, a cached rate that is not its row's rate was last written by the
  // fallback, and was then the newest strictly earlier rate of a table that lacked the row.
  lemma OnlyFallbackDisagrees(s: Store, es: seq<Event>, key: Key)
    requires Coherent(s)
    requires key.currency != UAH && key in Run(s, es).cache && !Agrees(Run(s, es), key)
    ensures var t := TracedRun(Traced(s, map k | k in s.cache :: FromRow), es);
            && t.store == Run(s, es)
            && key in t.origins && t.origins[key].FromFallback?
            && key !in t.origins[key].table
            && NewestStrictlyEarlier(t.origins[key].table, key, Run(s, es).cache[key].rate)
  {
    RunKeepsProvenance(Traced(s, map k | k in s.cache :: FromRow), es);
  }

  /***** When the cache stays coherent *****/

  predicate ReachesFallback(s: Store, e: Event) {
    e.Lookup? && BranchOf(s, e.key, e.answer) == Fallback
  }

  // A step from a coherent store loses coherence exactly when it is a lookup that ends in the fallback.
  lemma StepCoherentIff(s: Store, e: Event)
    requires Coherent(s)
    ensures Coherent(Step(s, e)) <==> !ReachesFallback(s, e)
  {
    var s' := Step(s, e);
    if ReachesFallback(s, e) {
      assert !Agrees(s', e.key) && e.key in s'.cache;
    } else {
      forall key | key in s'.cache && key.currency != UAH ensures Agrees(s', key) {
        if key in s.cache { assert Agrees(s, key); }
      }
    }
  }

  predicate NoFallback(s: Store, es: seq<Event>)
    decreases |es|
  {
    es == [] || (!ReachesFallback(s, es[0]) && NoFallback(Step(s, es[0]), es[1..]))
  }

  ghost predicate AlwaysCoherent(s: Store, es: seq<Event>)
    decreases |es|
  {
    Coherent(s) && (es == [] || AlwaysCoherent(Step(s, es[0]), es[1..]))
  }

  lemma {:induction false} RunCoherentIff(s: Store, es: seq<Event>)
    requires Coherent(s)
    ensures AlwaysCoherent(s, es) <==> NoFallback(s, es)
    decreases |es|
  {
    if es != [] {
      StepCoherentIff(s, es[0]);
      if !ReachesFallback(s, es[0]) { RunCoherentIff(Step(s, es[0]), es[1..]); }
    }
  }

  /***** Against the same service without a cache *****/

  datatype Plain = Plain(db: map<Key, Rate>, today: int, requests: seq<Request>)

  function Bare(s: Store): Plain { Plain(s.db, s.today, s.requests) }

  // DB, then NBU with the answer kept in the DB, then the nearest earlier rate.
  function PlainGetRate(p: Plain, key: Key, answer: Option<Rate>): (Plain, Option<Rate>) {
    var asked := p.(requests := p.requests + [Single(key)]);
    if key.currency == UAH then (p, Some(UAH_RATE))
    else if key in p.db then (p, Some(p.db[key]))
    else if answer.Some? then (asked.(db := p.db[key := answer.value]), answer)
    else (asked, RateOnOrBefore(p.db, key))
  }

  function PlainStep(p: Plain, e: Event): Plain {
    match e
    case Lookup(key, answer) => PlainGetRate(p, key, answer).0
    case TodaySync(bulk) => p.(requests := p.requests + [Bulk(p.today)], db := p.db + TodayRows(p.today, bulk))
    case HistoricalSync(dateFrom, dateTo, nbu) =>
      p.(db := Filled(p.db, RangeKeys(dateFrom, dateTo), nbu),
         requests := p.requests + Missing(p.db, Visits(dateFrom, dateTo)))
    case Expire(_) => p
    case Midnight => p.(today := p.today + 1)
  }

  function PlainRun(p: Plain, es: seq<Event>): Plain
    decreases |es|
  {
    if es == [] then p else PlainRun(PlainStep(p, es[0]), es[1..])
  }

  function PlainAnswers(p: Plain, es: seq<Event>): seq<Option<Rate>>
    decreases |es|
  {
    if es == [] then []
    else
      (if es[0].Lookup? then [PlainGetRate(p, es[0].key, es[0].answer).1] else [])
      + PlainAnswers(PlainStep(p, es[0]), es[1..])
  }

  lemma StepSimulates(s: Store, e: Event)
    requires Coherent(s)
    ensures Bare(Step(s, e)) == PlainStep(Bare(s), e)
    ensures e.Lookup? ==> GetRate(s, e.key, e.answer).1 == PlainGetRate(Bare(s), e.key, e.answer).1
  {
    match e
    case Lookup(key, answer) => assert key in s.cache && key.currency != UAH ==> Agrees(s, key);
    case _ =>
  }

  // While no lookup reaches the fallback, the cache cannot be observed: the same answers, the same
  // table and the same requests to NBU, whatever expires in between.
  lemma {:induction false} CacheTransparent(s: Store, es: seq<Event>)
    requires Coherent(s) && NoFallback(s, es)
    ensures Answers(s, es) == PlainAnswers(Bare(s), es)
    ensures Bare(Run(s, es)) == PlainRun(Bare(s), es)
    decreases |es|
  {
    if es != [] {
      StepSimulates(s, es[0]);
      StepCoherentIff(s, es[0]);
      CacheTransparent(Step(s, es[0]), es[1..]);
    }
  }

  // The next lookup is answered as without a cache, for every key and every answer NBU might give,
  // exactly when the cache is coherent.
  lemma TransparentIff(s: Store)
    ensures (forall key, answer :: GetRate(s, key, answer).1 == PlainGetRate(Bare(s), key, answer).1)
            <==> Coherent(s)
  {
    if Coherent(s) {
      forall key, answer ensures GetRate(s, key, answer).1 == PlainGetRate(Bare(s), key, answer).1 {
        StepSimulates(s, Lookup(key, answer));
      }
    } else {
      var key :| key in s.cache && key.currency != UAH && !Agrees(s, key);
      var other: Rate := s.cache[key].rate + 1;
      assert GetRate(s, key, Some(other)).1 != PlainGetRate(Bare(s), key, Some(other)).1;
    }
  }

  /***** A fallback rate for a past date is never corrected *****/

  // A present entry changes only when today's sync rewrites it or when its lifetime ends.
  lemma EntryKept(s: Store, e: Event, key: Key)
    requires key in s.cache && key.currency != UAH
    requires !(e.TodaySync? && key in TodayRows(s.today, e.bulk))
    requires !(e == Expire(key) && s.cache[key].ttl.Some?)
    ensures key in Step(s, e).cache && Step(s, e).cache[key] == s.cache[key]
  {}

  lemma {:induction false} PastEntryPinned(s: Store, es: seq<Event>, key: Key)
    requires key in s.cache && key.currency != UAH && s.cache[key].ttl.None? && key.day < s.today
    ensures key in Run(s, es).cache && Run(s, es).cache[key] == s.cache[key]
    decreases |es|
  {
    if es != [] {
      EntryKept(s, es[0], key);
      PastEntryPinned(Step(s, es[0]), es[1..], key);
    }
  }

  function Midnights(n: nat): seq<Event> { seq(n, _ => Midnight) }

  // n midnights and then one more step.
  lemma {:induction false} AfterMidnights(s: Store, n: nat, e: Event)
    ensures Run(s, Midnights(n) + [e]) == Step(s.(today := s.today + n), e)
    decreases n
  {
    var es := Midnights(n) + [e];
    if n == 0 {
      assert es == [e] && es[1..] == [];
    } else {
      assert es[0] == Midnight && es[1..] == Midnights(n - 1) + [e];
      AfterMidnights(s.(today := s.today + 1), n - 1, e);
    }
  }

  lemma DroppedByExpiry(s: Store, key: Key)
    requires key in s.cache && s.cache[key].ttl.Some?
    ensures key !in Run(s, [Expire(key)]).cache
  {
    assert Run(s, [Expire(key)]) == Run(Step(s, Expire(key)), []);
  }

  // A sync of today on the key's own day overwrites its entry.
  lemma OverwrittenBySync(s: Store, key: Key, rate: Rate)
    requires key.currency != UAH && key.day == s.today
    ensures var s' := Step(s, TodaySync(map[key.currency := rate])); key in s'.cache && s'.cache[key].rate == rate
  {
    assert key in TodayRows(key.day, map[key.currency := rate]);
  }

  // An entry that is neither of a past date nor without lifetime is dropped or overwritten by some run.
  lemma UnpinnedIsLost(s: Store, key: Key) returns (es: seq<Event>)
    requires key in s.cache && key.currency != UAH && !(s.cache[key].ttl.None? && key.day < s.today)
    ensures !(key in Run(s, es).cache && Run(s, es).cache[key] == s.cache[key])
  {
    if s.cache[key].ttl.Some? {
      es := [Expire(key)];
      DroppedByExpiry(s, key);
    } else {
      var n, other: Rate := key.day - s.today, s.cache[key].rate + 1;
      es := Midnights(n) + [TodaySync(map[key.currency := other])];
      AfterMidnights(s, n, TodaySync(map[key.currency := other]));
      OverwrittenBySync(s.(today := s.today + n), key, other);
    }
  }

  // An entry survives every run exactly when it has no lifetime and its date is past.
  lemma PinnedIff(s: Store, key: Key)
    requires key in s.cache && key.currency != UAH
    ensures (forall es :: key in Run(s, es).cache && Run(s, es).cache[key] == s.cache[key])
       <==> s.cache[key].ttl.None? && key.day < s.today
  {
    if s.cache[key].ttl.None? && key.day < s.today {
      forall es ensures key in Run(s, es).cache && Run(s, es).cache[key] == s.cache[key] {
        PastEntryPinned(s, es, key);
      }
    } else {
      var es := UnpinnedIsLost(s, key);
    }
  }

  // Once a lookup of a past date has fallen back, every later lookup of that date gives the same
  // rate, whatever happens in between and whatever NBU would say.
  lemma OutageIsPermanent(s: Store, key: Key, es: seq<Event>, answer: Option<Rate>)
    requires BranchOf(s, key, None) == Fallback && key.day < s.today
    ensures GetRate(Run(GetRate(s, key, None).0, es), key, answer).1 == RateOnOrBefore(s.db, key)
  {
    PastEntryPinned(GetRate(s, key, None).0, es, key);
  }

  // In particular a historical sync that brings in the true rate of that date does not help.
  lemma BackfillIsIgnored(s: Store, key: Key, nbu: Nbu, answer: Option<Rate>)
    requires BranchOf(s, key, None) == Fallback && key.day < s.today && key.currency in SYNC_CURRENCIES
    requires nbu(key).Some? && nbu(key) != RateOnOrBefore(s.db, key)
    ensures var after := Run(GetRate(s, key, None).0, [HistoricalSync(key.day, key.day, nbu)]);
            && key in after.db && Some(after.db[key]) == nbu(key)
            && GetRate(after, key, answer).1 != nbu(key)
  {
    var fell := GetRate(s, key, None).0;
    var sync := HistoricalSync(key.day, key.day, nbu);
    OutageIsPermanent(s, key, [sync], answer);
    assert Run(fell, [sync]) == Run(Step(fell, sync), []);
    assert key in RangeKeys(key.day, key.day);
  }

  // The rate the fallback caches has a lifetime only for today's date, and only if one is configured.
  lemma FallbackLifetimeIff(s: Store, key: Key)
    requires BranchOf(s, key, None) == Fallback
    ensures GetRate(s, key, None).0.cache[key].ttl.Some? <==> key.day == s.today && s.ttlSeconds != 0
  {}

  // In that case the outage ends with the entry: the next lookup asks NBU again, and its answer is
  // returned, stored and cached.
  lemma TodayOutageHeals(s: Store, key: Key, rate: Rate)
    requires BranchOf(s, key, None) == Fallback && key.day == s.today && s.ttlSeconds != 0
    ensures var after := Run(GetRate(s, key, None).0, [Expire(key)]);
            var (healed, answer) := GetRate(after, key, Some(rate));
            && answer == Some(rate) && key in healed.db && healed.db[key] == rate && Agrees(healed, key)
            && healed.requests == s.requests + [Single(key), Single(key)]
  {
    var fell := GetRate(s, key, None).0;
    assert Run(fell, [Expire(key)]) == Run(Step(fell, Expire(key)), []);
  }

  // Syncing today's rates twice with the same answer changes neither the table nor the cache again.
  lemma TodaySyncIdempotent(s: Store, bulk: map<Currency, Rate>)
    ensures var once := SyncToday(s, bulk);
            SyncToday(once, bulk).db == once.db && SyncToday(once, bulk).cache == once.cache
  {}

  // "The cache always equals the table" is false: one lookup during an outage is enough.
  lemma CacheCanDisagree(today: int, rate: Rate)
    ensures var s := Store(map[Key(USD, today - 2) := rate], map[], today, 3600, []);
            Coherent(s) && !Coherent(Run(s, [Lookup(Key(USD, today - 1), None)]))
  {
    var s := Store(map[Key(USD, today - 2) := rate], map[], today, 3600, []);
    var e := Lookup(Key(USD, today - 1), None);
    assert Key(USD, today - 2) in s.db;
    StepCoherentIff(s, e);
    assert Run(s, [e]) == Run(Step(s, e), []);
  }
}
