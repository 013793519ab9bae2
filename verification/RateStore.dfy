/** What the exchange-rate service does to its table and its cache, as functions of their contents.
    The methods of CurrencyService are proved against these functions. */
module RateStore {
  import opened Wrappers
  import opened Money
  import opened Collections

  datatype Key = Key(currency: Currency, day: int)

  // What NBU answers for a key within one call: None stands for every failure the service catches.
  type Nbu = Key -> Option<Rate>

  // The currencies both syncs visit, in this order.
  const SYNC_CURRENCIES: seq<Currency> := [USD, EUR, GBP]

  datatype Entry = Entry(rate: Rate, ttl: Option<nat>)

  // A request sent to NBU: one rate, or today's rates in bulk.
  datatype Request = Single(key: Key) | Bulk(day: int)

  datatype Store = Store(
    db: map<Key, Rate>,      // table exchange_rates, unique by currency and date
    cache: map<Key, Entry>,  // Redis
    today: int,
    ttlSeconds: nat,         // redis_ttl_exchange_rate
    requests: seq<Request>   // everything asked of NBU so far
  )

  /***** The table's queries *****/

  // The dates up to the key's date on which its currency has a row.
  function DaysUpTo(db: map<Key, Rate>, key: Key): set<int> {
    set k | k in db && k.currency == key.currency && k.day <= key.day :: k.day
  }

  // ExchangeRateRepo.get_rate_on_or_before: ORDER BY date DESC LIMIT 1.
  function RateOnOrBefore(db: map<Key, Rate>, key: Key): (r: Option<Rate>)
    ensures r.Some? ==> exists d :: NewestRow(db, key, d, r.value)
    ensures r.None? ==> forall k | k in db && k.currency == key.currency :: key.day < k.day
  {
    var days := DaysUpTo(db, key);
    if days == {} then
      assert forall k | k in db && k.currency == key.currency && k.day <= key.day :: k.day in days;
      None
    else
      LargestExists(days);
      var d :| d in days && forall x | x in days :: x <= d;
      assert NewestRow(db, key, d, db[Key(key.currency, d)]) by {
        assert forall k | k in db && k.currency == key.currency && k.day <= key.day :: k.day in days;
      }
      Some(db[Key(key.currency, d)])
  }

  // Day d holds the newest row of the key's currency that is not after the key's date.
  ghost predicate NewestRow(db: map<Key, Rate>, key: Key, d: int, rate: Rate) {
    && Key(key.currency, d) in db && db[Key(key.currency, d)] == rate && d <= key.day
    && forall k | k in db && k.currency == key.currency && k.day <= key.day :: k.day <= d
  }

  // ExchangeRateRepo.upsert: afterwards the key's own rate is its newest one, every other key before
  // it and every other currency is answered as before, and the key has one row.
  lemma UpsertQueried(db: map<Key, Rate>, key: Key, rate: Rate, other: Key)
    ensures RateOnOrBefore(db[key := rate], key) == Some(rate)
    ensures other.currency != key.currency || other.day < key.day
            ==> RateOnOrBefore(db[key := rate], other) == RateOnOrBefore(db, other)
    ensures |db[key := rate]| == |db| + if key in db then 0 else 1
  {
    var after := db[key := rate];
    assert NewestRow(after, key, key.day, rate);
    NewestDetermines(after, key, key.day, rate);
    if other.currency != key.currency || other.day < key.day {
      var before := RateOnOrBefore(db, other);
      if before.Some? {
        var d :| NewestRow(db, other, d, before.value);
        assert NewestRow(after, other, d, before.value);
        NewestDetermines(after, other, d, before.value);
      } else {
        assert forall k | k in after && k.currency == other.currency :: other.day < k.day;
        NoneDetermines(after, other);
      }
    }
  }

  lemma NewestDetermines(db: map<Key, Rate>, key: Key, d: int, rate: Rate)
    requires NewestRow(db, key, d, rate)
    ensures RateOnOrBefore(db, key) == Some(rate)
  {
    var r := RateOnOrBefore(db, key);
    assert Key(key.currency, d) in db;
    var e :| NewestRow(db, key, e, r.value);
    assert d <= e && e <= d;
  }

  lemma NoneDetermines(db: map<Key, Rate>, key: Key)
    requires forall k | k in db && k.currency == key.currency :: key.day < k.day
    ensures RateOnOrBefore(db, key).None?
  {
    assert forall d, rate :: !NewestRow(db, key, d, rate);
  }

  /***** get_rate *****/

  // A configured lifetime of 0 means none.
  function TodayTtl(s: Store): Option<nat> {
    if s.ttlSeconds != 0 then Some(s.ttlSeconds) else None
  }

  // CurrencyService._cache: a lifetime for today's rate only.
  function Cached(s: Store, key: Key, rate: Rate): Store {
    s.(cache := s.cache[key := Entry(rate, if key.day == s.today then TodayTtl(s) else None)])
  }

  datatype Branch = Base | Hit | Exact | Fetched | Fallback | Unavailable

  // The branch of get_rate a lookup takes when NBU would give this answer.
  function BranchOf(s: Store, key: Key, answer: Option<Rate>): Branch {
    if key.currency == UAH then Base
    else if key in s.cache then Hit
    else if key in s.db then Exact
    else if answer.Some? then Fetched
    else if RateOnOrBefore(s.db, key).Some? then Fallback
    else Unavailable
  }

  // The store after the lookup, and its answer; None stands for the ValueError.
  function GetRate(s: Store, key: Key, answer: Option<Rate>): (Store, Option<Rate>) {
    var asked := s.(requests := s.requests + [Single(key)]);
    match BranchOf(s, key, answer)
    case Base => (s, Some(UAH_RATE))
    case Hit => (s, Some(s.cache[key].rate))
    case Exact => (Cached(s, key, s.db[key]), Some(s.db[key]))
    case Fetched => (Cached(asked.(db := s.db[key := answer.value]), key, answer.value), answer)
    case Fallback =>
      var rate := RateOnOrBefore(s.db, key).value;
      (Cached(asked, key, rate), Some(rate))
    case Unavailable => (asked, None)
  }

  // Every rate a lookup finds beyond the cache is cached, from whichever branch: with the configured
  // lifetime if it is today's, and for ever otherwise. No other entry changes.
  lemma LookupCaches(s: Store, key: Key, answer: Option<Rate>, other: Key)
    ensures var (s', rate) := GetRate(s, key, answer);
            && (key.currency != UAH && key !in s.cache && rate.Some? ==>
                  && key in s'.cache && s'.cache[key].rate == rate.value
                  && s'.cache[key].ttl
                     == if key.day == s.today && s.ttlSeconds > 0 then Some(s.ttlSeconds) else None)
            && (other != key || key.currency == UAH || key in s.cache || rate.None? ==>
                  (other in s'.cache <==> other in s.cache)
                  && (other in s.cache ==> s'.cache[other] == s.cache[other]))
  {}

  /***** sync_today_rates *****/

  // The rows the bulk answer gives for a day.
  function TodayRows(today: int, bulk: map<Currency, Rate>): map<Key, Rate> {
    RowsFor(SYNC_CURRENCIES, today, bulk)
  }

  function RowsFor(currencies: seq<Currency>, today: int, bulk: map<Currency, Rate>): map<Key, Rate> {
    map c | c in currencies && c in bulk :: Key(c, today) := bulk[c]
  }

  function Entries(rows: map<Key, Rate>, ttl: Option<nat>): map<Key, Entry> {
    map k | k in rows :: Entry(rows[k], ttl)
  }

  function SyncToday(s: Store, bulk: map<Currency, Rate>): Store {
    var rows := TodayRows(s.today, bulk);
    s.(requests := s.requests + [Bulk(s.today)],
       db := s.db + rows,
       cache := s.cache + Entries(rows, TodayTtl(s)))
  }

  // A sync of today writes the rows and entries of today for those of the three currencies that NBU gave,
  // the entries with the configured lifetime, and nothing else.
  lemma SyncTodayIs(s: Store, bulk: map<Currency, Rate>, key: Key)
    ensures var s' := SyncToday(s, bulk);
            && s'.today == s.today && s'.requests == s.requests + [Bulk(s.today)]
            && if key.day == s.today && key.currency != UAH && key.currency in bulk
               then && key in s'.db && s'.db[key] == bulk[key.currency]
                    && key in s'.cache && s'.cache[key].rate == bulk[key.currency]
                    && s'.cache[key].ttl == if s.ttlSeconds > 0 then Some(s.ttlSeconds) else None
               else && (key in s'.db <==> key in s.db) && (key in s.db ==> s'.db[key] == s.db[key])
                    && (key in s'.cache <==> key in s.cache) && (key in s.cache ==> s'.cache[key] == s.cache[key])
  {
    assert key.currency != UAH ==> key.currency in [USD, EUR, GBP];
  }

  /***** sync_historical_rates *****/

  function RangeKeys(dateFrom: int, dateTo: int): set<Key> {
    set c, d | c in SYNC_CURRENCIES && dateFrom <= d <= dateTo :: Key(c, d)
  }

  // The table with every missing key of the set taken from NBU, where NBU has it.
  function Filled(db: map<Key, Rate>, keys: set<Key>, nbu: Nbu): map<Key, Rate> {
    (map k | k in keys && nbu(k).Some? :: nbu(k).value) + db
  }

  // The requests for the keys that are missing, in the given order.
  function Missing(db: map<Key, Rate>, keys: seq<Key>): seq<Request> {
    if keys == [] then []
    else (if keys[0] in db then [] else [Single(keys[0])]) + Missing(db, keys[1..])
  }

  // The keys in the order the two loops visit them: day by day, then by currency.
  function Visits(dateFrom: int, dateTo: int): seq<Key>
    decreases dateTo - dateFrom
  {
    if dateTo < dateFrom then []
    else Visits(dateFrom, dateTo - 1) + [Key(USD, dateTo), Key(EUR, dateTo), Key(GBP, dateTo)]
  }

  function SyncHistorical(s: Store, dateFrom: int, dateTo: int, nbu: Nbu): Store {
    s.(db := Filled(s.db, RangeKeys(dateFrom, dateTo), nbu),
       requests := s.requests + Missing(s.db, Visits(dateFrom, dateTo)))
  }

  // A historical sync asks NBU for exactly the days and currencies of its range that have no row.
  lemma {:induction false} AskedIff(db: map<Key, Rate>, dateFrom: int, dateTo: int, key: Key)
    ensures Single(key) in Missing(db, Visits(dateFrom, dateTo))
       <==> key !in db && key.currency != UAH && dateFrom <= key.day <= dateTo
  {
    MissingHas(db, Visits(dateFrom, dateTo), key);
    VisitsAre(dateFrom, dateTo);
    assert key in Visits(dateFrom, dateTo) <==> key in RangeKeys(dateFrom, dateTo);
    assert key.currency in SYNC_CURRENCIES <==> key.currency != UAH;
  }

  lemma {:induction false} MissingHas(db: map<Key, Rate>, keys: seq<Key>, key: Key)
    ensures Single(key) in Missing(db, keys) <==> key in keys && key !in db
  {
    if keys != [] {
      assert keys == [keys[0]] + keys[1..];
      MissingHas(db, keys[1..], key);
    }
  }

  // Existing rows are untouched and new rows lie in the key set with NBU's value for them.
  lemma FilledExtends(db: map<Key, Rate>, keys: set<Key>, nbu: Nbu)
    ensures forall k | k in db :: k in Filled(db, keys, nbu) && Filled(db, keys, nbu)[k] == db[k]
    ensures forall k | k in Filled(db, keys, nbu) && k !in db :: k in keys && nbu(k) == Some(Filled(db, keys, nbu)[k])
    ensures forall k | k in keys && k !in db && nbu(k).Some? :: k in Filled(db, keys, nbu)
  {}

  // Filling one set after another is filling their union.
  lemma FilledUnion(db: map<Key, Rate>, k1: set<Key>, k2: set<Key>, nbu: Nbu)
    ensures Filled(Filled(db, k1, nbu), k2, nbu) == Filled(db, k1 + k2, nbu)
  {}

  // A series of calls of sync_historical_rates while NBU's answers do not change.
  function SyncRanges(db: map<Key, Rate>, ranges: seq<(int, int)>, nbu: Nbu): map<Key, Rate>
    decreases |ranges|
  {
    if ranges == [] then db
    else SyncRanges(Filled(db, RangeKeys(ranges[0].0, ranges[0].1), nbu), ranges[1..], nbu)
  }

  function AllKeys(ranges: seq<(int, int)>): set<Key> {
    if ranges == [] then {} else RangeKeys(ranges[0].0, ranges[0].1) + AllKeys(ranges[1..])
  }

  lemma {:induction false} SyncRangesFillsUnion(db: map<Key, Rate>, ranges: seq<(int, int)>, nbu: Nbu)
    ensures SyncRanges(db, ranges, nbu) == Filled(db, AllKeys(ranges), nbu)
    decreases |ranges|
  {
    if ranges != [] {
      var first := RangeKeys(ranges[0].0, ranges[0].1);
      SyncRangesFillsUnion(Filled(db, first, nbu), ranges[1..], nbu);
      FilledUnion(db, first, AllKeys(ranges[1..]), nbu);
    }
  }

  lemma {:induction false} AllKeysIff(ranges: seq<(int, int)>, k: Key)
    ensures k in AllKeys(ranges) <==>
            k.currency in SYNC_CURRENCIES && exists i :: 0 <= i < |ranges| && ranges[i].0 <= k.day <= ranges[i].1
  {
    if ranges != [] {
      AllKeysIff(ranges[1..], k);
      assert k in RangeKeys(ranges[0].0, ranges[0].1)
        <==> k.currency in SYNC_CURRENCIES && ranges[0].0 <= k.day <= ranges[0].1;
      assert forall i | 0 <= i < |ranges[1..]| :: ranges[1..][i] == ranges[i + 1];
      assert forall i | 0 < i < |ranges| :: ranges[i] == ranges[1..][i - 1];
    }
  }

  ghost predicate Covers(ranges: seq<(int, int)>, day: int) {
    exists i :: 0 <= i < |ranges| && ranges[i].0 <= day <= ranges[i].1
  }

  // Any two series of syncs that cover the same days give the same table: the order of the ranges,
  // their overlaps and where they are split make no difference.
  lemma SyncOrderIrrelevant(db: map<Key, Rate>, r1: seq<(int, int)>, r2: seq<(int, int)>, nbu: Nbu)
    requires forall day :: Covers(r1, day) <==> Covers(r2, day)
    ensures SyncRanges(db, r1, nbu) == SyncRanges(db, r2, nbu)
  {
    forall k ensures k in AllKeys(r1) <==> k in AllKeys(r2) {
      AllKeysIff(r1, k);
      AllKeysIff(r2, k);
      assert Covers(r1, k.day) <==> Covers(r2, k.day);
    }
    assert AllKeys(r1) == AllKeys(r2);
    SyncRangesFillsUnion(db, r1, nbu);
    SyncRangesFillsUnion(db, r2, nbu);
  }

  // Repeating a sync after any syncs that cover its range writes nothing.
  lemma RepeatWritesNothing(db: map<Key, Rate>, done: seq<(int, int)>, dateFrom: int, dateTo: int, nbu: Nbu)
    requires forall day | dateFrom <= day <= dateTo :: Covers(done, day)
    ensures var synced := SyncRanges(db, done, nbu);
            Filled(synced, RangeKeys(dateFrom, dateTo), nbu) == synced
  {
    SyncRangesFillsUnion(db, done, nbu);
    FilledUnion(db, AllKeys(done), RangeKeys(dateFrom, dateTo), nbu);
    forall k | k in RangeKeys(dateFrom, dateTo) ensures k in AllKeys(done) {
      AllKeysIff(done, k);
      assert Covers(done, k.day);
    }
    assert AllKeys(done) + RangeKeys(dateFrom, dateTo) == AllKeys(done);
  }

  /***** The two syncs, turn by turn *****/

  // Body of the loop of sync_today_rates.
  function TodayTurn(s: Store, c: Currency, bulk: map<Currency, Rate>): Store {
    if c in bulk then Cached(s.(db := s.db[Key(c, s.today) := bulk[c]]), Key(c, s.today), bulk[c]) else s
  }

  function TodayTurns(s: Store, i: nat, bulk: map<Currency, Rate>): Store
    requires i <= |SYNC_CURRENCIES|
    ensures TodayTurns(s, i, bulk).today == s.today
  {
    if i == 0 then s else TodayTurn(TodayTurns(s, i - 1, bulk), SYNC_CURRENCIES[i - 1], bulk)
  }

  function TodayCount(i: nat, bulk: map<Currency, Rate>): nat
    requires i <= |SYNC_CURRENCIES|
  {
    if i == 0 then 0 else TodayCount(i - 1, bulk) + if SYNC_CURRENCIES[i - 1] in bulk then 1 else 0
  }

  lemma RowsForNext(currencies: seq<Currency>, c: Currency, today: int, bulk: map<Currency, Rate>)
    requires c !in currencies
    ensures var rows := RowsFor(currencies, today, bulk);
            && Key(c, today) !in rows
            && RowsFor(currencies + [c], today, bulk) == if c in bulk then rows[Key(c, today) := bulk[c]] else rows
  {}

  lemma EntriesNext(rows: map<Key, Rate>, key: Key, rate: Rate, ttl: Option<nat>)
    ensures Entries(rows[key := rate], ttl) == Entries(rows, ttl)[key := Entry(rate, ttl)]
  {}

  lemma PlusUpdate<K, V>(m: map<K, V>, u: map<K, V>, k: K, v: V)
    ensures (m + u)[k := v] == m + u[k := v]
  {}

  // The store after today's rows have been upserted and cached.
  function WithRows(s: Store, rows: map<Key, Rate>): Store {
    s.(db := s.db + rows, cache := s.cache + Entries(rows, TodayTtl(s)))
  }

  lemma {:induction false} TodayTurnsSofar(s: Store, i: nat, bulk: map<Currency, Rate>)
    requires i <= |SYNC_CURRENCIES|
    ensures TodayTurns(s, i, bulk) == WithRows(s, RowsFor(SYNC_CURRENCIES[..i], s.today, bulk))
  {
    if i == 0 {
      NoRows(s, bulk);
    } else {
      var before, c := SYNC_CURRENCIES[..i - 1], SYNC_CURRENCIES[i - 1];
      TodayTurnsSofar(s, i - 1, bulk);
      RowsForNext(before, c, s.today, bulk);
      WithRowsNext(s, RowsFor(before, s.today, bulk), c, bulk);
      assert SYNC_CURRENCIES[..i] == before + [c];
    }
  }

  lemma {:induction false} TodayCountSofar(today: int, i: nat, bulk: map<Currency, Rate>)
    requires i <= |SYNC_CURRENCIES|
    ensures TodayCount(i, bulk) == |RowsFor(SYNC_CURRENCIES[..i], today, bulk)|
  {
    if i == 0 {
      assert RowsFor([], today, bulk) == map[];
    } else {
      TodayCountSofar(today, i - 1, bulk);
      RowsForNext(SYNC_CURRENCIES[..i - 1], SYNC_CURRENCIES[i - 1], today, bulk);
      assert SYNC_CURRENCIES[..i] == SYNC_CURRENCIES[..i - 1] + [SYNC_CURRENCIES[i - 1]];
    }
  }

  lemma NoRows(s: Store, bulk: map<Currency, Rate>)
    ensures RowsFor([], s.today, bulk) == map[] && WithRows(s, map[]) == s
  {
    assert Entries(map[], TodayTtl(s)) == map[];
  }

  lemma WithRowsNext(s: Store, rows: map<Key, Rate>, c: Currency, bulk: map<Currency, Rate>)
    ensures TodayTurn(WithRows(s, rows), c, bulk)
         == WithRows(s, if c in bulk then rows[Key(c, s.today) := bulk[c]] else rows)
  {
    if c in bulk {
      EntriesNext(rows, Key(c, s.today), bulk[c], TodayTtl(s));
      PlusUpdate(s.db, rows, Key(c, s.today), bulk[c]);
      PlusUpdate(s.cache, Entries(rows, TodayTtl(s)), Key(c, s.today), Entry(bulk[c], TodayTtl(s)));
    }
  }

  lemma TodayTurnsSync(s: Store, bulk: map<Currency, Rate>)
    ensures TodayTurns(s.(requests := s.requests + [Bulk(s.today)]), |SYNC_CURRENCIES|, bulk) == SyncToday(s, bulk)
    ensures TodayCount(|SYNC_CURRENCIES|, bulk) == |TodayRows(s.today, bulk)|
  {
    TodayTurnsSofar(s.(requests := s.requests + [Bulk(s.today)]), |SYNC_CURRENCIES|, bulk);
    TodayCountSofar(s.today, |SYNC_CURRENCIES|, bulk);
    assert SYNC_CURRENCIES[..|SYNC_CURRENCIES|] == SYNC_CURRENCIES;
  }

  // What sync_historical_rates has done so far.
  datatype Progress = Progress(db: map<Key, Rate>, requests: seq<Request>, written: nat)

  // Body of its inner loop.
  function Turn(p: Progress, key: Key, nbu: Nbu): Progress {
    if key in p.db then p
    else
      var asked := p.requests + [Single(key)];
      if nbu(key).Some? then Progress(p.db[key := nbu(key).value], asked, p.written + 1)
      else p.(requests := asked)
  }

  function Turns(p: Progress, keys: seq<Key>, nbu: Nbu): Progress {
    if keys == [] then p else Turn(Turns(p, keys[..|keys| - 1], nbu), keys[|keys| - 1], nbu)
  }

  function KeySet(keys: seq<Key>): set<Key> { set k | k in keys }

  lemma {:induction false} MissingAppend(db: map<Key, Rate>, keys: seq<Key>, key: Key)
    ensures Missing(db, keys + [key]) == Missing(db, keys) + if key in db then [] else [Single(key)]
  {
    if keys == [] {
      assert [] + [key] == [key];
    } else {
      MissingAppend(db, keys[1..], key);
      assert (keys + [key])[1..] == keys[1..] + [key];
    }
  }

  lemma FilledOne(db: map<Key, Rate>, done: set<Key>, key: Key, nbu: Nbu)
    requires key !in done
    ensures key in Filled(db, done, nbu) <==> key in db
    ensures Filled(db, done + {key}, nbu)
         == if key in db || nbu(key).None? then Filled(db, done, nbu)
            else Filled(db, done, nbu)[key := nbu(key).value]
  {}

  ghost predicate HasVisited(p: Progress, db: map<Key, Rate>, requests: seq<Request>, keys: seq<Key>, nbu: Nbu) {
    && p.db == Filled(db, KeySet(keys), nbu)
    && p.requests == requests + Missing(db, keys)
    && |p.db| == |db| + p.written
  }

  lemma TurnCounts(p: Progress, key: Key, nbu: Nbu)
    ensures |Turn(p, key, nbu).db| - Turn(p, key, nbu).written == |p.db| - p.written
  {}

  lemma TurnFills(p: Progress, db: map<Key, Rate>, keys: seq<Key>, key: Key, nbu: Nbu)
    requires p.db == Filled(db, KeySet(keys), nbu) && key !in keys
    ensures Turn(p, key, nbu).db == Filled(db, KeySet(keys + [key]), nbu)
    ensures key in p.db <==> key in db
  {
    assert KeySet(keys + [key]) == KeySet(keys) + {key};
    FilledOne(db, KeySet(keys), key, nbu);
  }

  lemma TurnAsks(p: Progress, db: map<Key, Rate>, requests: seq<Request>, keys: seq<Key>, key: Key, nbu: Nbu)
    requires p.requests == requests + Missing(db, keys) && (key in p.db <==> key in db)
    ensures Turn(p, key, nbu).requests == requests + Missing(db, keys + [key])
  {
    MissingAppend(db, keys, key);
  }

  lemma LastTurnVisits(p: Progress, db: map<Key, Rate>, requests: seq<Request>, keys: seq<Key>, nbu: Nbu)
    requires keys != [] && Distinct(keys) && HasVisited(p, db, requests, keys[..|keys| - 1], nbu)
    ensures HasVisited(Turn(p, keys[|keys| - 1], nbu), db, requests, keys, nbu)
  {
    var before, key := keys[..|keys| - 1], keys[|keys| - 1];
    assert keys == before + [key] && key !in before;
    TurnFills(p, db, before, key, nbu);
    TurnAsks(p, db, requests, before, key, nbu);
    TurnCounts(p, key, nbu);
  }

  lemma NothingVisited(db: map<Key, Rate>, requests: seq<Request>, nbu: Nbu)
    ensures HasVisited(Progress(db, requests, 0), db, requests, [], nbu)
  {
    assert Filled(db, {}, nbu) == db;
    assert requests + [] == requests;
  }

  // Visiting distinct keys one by one fills them, asks for the missing ones in order and counts the new rows.
  lemma {:induction false} TurnsVisit(db: map<Key, Rate>, requests: seq<Request>, keys: seq<Key>, nbu: Nbu)
    requires Distinct(keys)
    ensures HasVisited(Turns(Progress(db, requests, 0), keys, nbu), db, requests, keys, nbu)
  {
    if keys == [] {
      NothingVisited(db, requests, nbu);
    } else {
      var before := keys[..|keys| - 1];
      TurnsVisit(db, requests, before, nbu);
      LastTurnVisits(Turns(Progress(db, requests, 0), before, nbu), db, requests, keys, nbu);
    }
  }

  lemma {:induction false} VisitsAre(dateFrom: int, dateTo: int)
    ensures KeySet(Visits(dateFrom, dateTo)) == RangeKeys(dateFrom, dateTo)
    ensures Distinct(Visits(dateFrom, dateTo))
    decreases dateTo - dateFrom
  {
    if dateFrom <= dateTo {
      VisitsAre(dateFrom, dateTo - 1);
      var before := Visits(dateFrom, dateTo - 1);
      assert forall i | 0 <= i < |before| :: before[i] in KeySet(before);
      var day := {Key(USD, dateTo), Key(EUR, dateTo), Key(GBP, dateTo)};
      assert KeySet(Visits(dateFrom, dateTo)) == KeySet(before) + day;
      assert RangeKeys(dateFrom, dateTo) == RangeKeys(dateFrom, dateTo - 1) + day;
    }
  }

  // The first i keys of one day.
  function DayVisits(day: int, i: nat): seq<Key>
    requires i <= |SYNC_CURRENCIES|
  {
    [Key(USD, day), Key(EUR, day), Key(GBP, day)][..i]
  }

  lemma NextTurn(p: Progress, visited: seq<Key>, day: int, i: nat, nbu: Nbu)
    requires i < |SYNC_CURRENCIES|
    ensures Turns(p, visited + DayVisits(day, i + 1), nbu)
         == Turn(Turns(p, visited + DayVisits(day, i), nbu), Key(SYNC_CURRENCIES[i], day), nbu)
  {
    var keys := visited + DayVisits(day, i + 1);
    assert keys[..|keys| - 1] == visited + DayVisits(day, i);
  }
}
