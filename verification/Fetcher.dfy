/** Price collection: one fetch takes the prices of all active shops inside one transaction, and
    skips a product whose price was taken within the last hour. */
module Fetcher {
  import opened Wrappers
  import opened Tables

  // One hour in microseconds, the resolution of the clock.
  const DEDUP_WINDOW := 3_600_000_000

  const ADAPTERS: set<string> := {"dummyjson", "fakestore"}

  // The adapter or the lookup of the shop's links raises, or the adapter gives products and the
  // clock shows the given instant when the dedup boundary is computed.
  datatype Outcome = Fails | Fetched(products: seq<ShopProduct>, clock: int)

  /***** One shop *****/

  // ShopRepo.list_product_shops
  function LinksOfShop(links: seq<Link>, shop: int): seq<Link> {
    if links == [] then []
    else (if links[0].shop == shop then [links[0]] else []) + LinksOfShop(links[1..], shop)
  }

  // A dict comprehension: the last link with an external id wins.
  function ByExternalId(links: seq<Link>): map<string, Link> {
    if links == [] then map[]
    else
      var last := links[|links| - 1];
      ByExternalId(links[..|links| - 1])[last.externalId := last]
  }

  // PriceRepo.product_shop_ids_priced_since
  function PricedSince(history: seq<PriceRow>, since: int): set<int> {
    set r | r in history && since <= r.at :: r.ps
  }

  datatype Tally = Tally(history: seq<PriceRow>, count: nat, skipped: nat, deduped: nat)

  // Body of the loop over the fetched products.
  function Turn(t: Tally, p: ShopProduct, byId: map<string, Link>, recent: set<int>, t0: int): Tally {
    if p.externalId !in byId then t.(skipped := t.skipped + 1)
    else if byId[p.externalId].id in recent then t.(deduped := t.deduped + 1)
    else t.(history := t.history + [NewRow(t.history, byId[p.externalId].id, p.price, t0)], count := t.count + 1)
  }

  function Turns(t: Tally, products: seq<ShopProduct>, byId: map<string, Link>, recent: set<int>, t0: int): Tally {
    if products == [] then t
    else
      var n := |products| - 1;
      Turn(Turns(t, products[..n], byId, recent, t0), products[n], byId, recent, t0)
  }

  predicate Raises(shop: Shop, outcome: Outcome) {
    shop.adapterKey.None? || shop.adapterKey.value !in ADAPTERS || outcome.Fails?
  }

  // What a shop that answers adds to the history.
  function ShopTally(history: seq<PriceRow>, links: seq<Link>, shop: Shop, outcome: Outcome, t0: int): Tally
    requires !Raises(shop, outcome)
  {
    Turns(Tally(history, 0, 0, 0), outcome.products, ByExternalId(LinksOfShop(links, shop.id)),
          PricedSince(history, outcome.clock - DEDUP_WINDOW), t0)
  }

  // A shop that raises writes nothing and counts 0.
  function FetchShop(history: seq<PriceRow>, links: seq<Link>, shop: Shop, outcome: Outcome, t0: int): Tally {
    if Raises(shop, outcome) then Tally(history, 0, 0, 0) else ShopTally(history, links, shop, outcome, t0)
  }

  /***** All shops *****/

  function Active(shops: seq<Shop>): seq<Shop> {
    if shops == [] then [] else (if shops[0].active then [shops[0]] else []) + Active(shops[1..])
  }

  datatype Summary = Summary(history: seq<PriceRow>, results: map<Option<string>, nat>)

  function FetchShops(s: Summary, links: seq<Link>, shops: seq<Shop>, outcomes: int -> Outcome, t0: int): Summary
    decreases |shops|
  {
    if shops == [] then s
    else
      var t := FetchShop(s.history, links, shops[0], outcomes(shops[0].id), t0);
      FetchShops(Summary(t.history, s.results[shops[0].adapterKey := t.count]), links, shops[1..], outcomes, t0)
  }

  function FetchAll(history: seq<PriceRow>, links: seq<Link>, shops: seq<Shop>, outcomes: int -> Outcome,
                    t0: int): Summary {
    FetchShops(Summary(history, map[]), links, Active(shops), outcomes, t0)
  }

  class PriceFetcher {
    const shops: seq<Shop>
    const links: seq<Link>
    var history: seq<PriceRow>

    constructor (shops: seq<Shop>, links: seq<Link>)
      ensures this.shops == shops && this.links == links && history == []
    {
      this.shops, this.links, history := shops, links, [];
    }

    method AddPrice(ps: int, price: int, t0: int)
      modifies this
      ensures history == old(history) + [NewRow(old(history), ps, price, t0)]
    {
      history := history + [PriceRow(|history|, ps, price, t0)];
    }

    // None stands for an exception of the adapter or the lookup.
    method FetchOne(shop: Shop, outcome: Outcome, t0: int) returns (written: Option<nat>)
      modifies this
      ensures written.None? <==> Raises(shop, outcome)
      ensures history == FetchShop(old(history), links, shop, outcome, t0).history
      ensures written.Some? ==> written.value == FetchShop(old(history), links, shop, outcome, t0).count
    {
      if shop.adapterKey.None? || shop.adapterKey.value !in ADAPTERS { return None; }
      if outcome.Fails? { return None; }
      var fetched := outcome.products;
      var byId := ByExternalId(LinksOfShop(links, shop.id));
      var recent := PricedSince(history, outcome.clock - DEDUP_WINDOW);
      var count, skipped, deduped := 0, 0, 0;
      for i := 0 to |fetched|
        invariant Tally(history, count, skipped, deduped)
               == Turns(Tally(old(history), 0, 0, 0), fetched[..i], byId, recent, t0)
      {
        assert fetched[..i + 1][..i] == fetched[..i];
        if fetched[i].externalId !in byId {
          skipped := skipped + 1;
          continue;
        }
        var ps := byId[fetched[i].externalId];
        if ps.id in recent {
          deduped := deduped + 1;
          continue;
        }
        AddPrice(ps.id, fetched[i].price, t0);
        count := count + 1;
      }
      assert fetched[..|fetched|] == fetched;
      return Some(count);
    }

    method FetchAllShops(outcomes: int -> Outcome, t0: int) returns (results: map<Option<string>, nat>)
      modifies this
      ensures Summary(history, results) == FetchAll(old(history), links, shops, outcomes, t0)
    {
      ghost var goal := FetchAll(history, links, shops, outcomes, t0);
      var active := Active(shops);
      results := map[];
      for i := 0 to |active|
        invariant FetchShops(Summary(history, results), links, active[i..], outcomes, t0) == goal
      {
        var shop := active[i];
        assert active[i..][1..] == active[i + 1..];
        var written := FetchOne(shop, outcomes(shop.id), t0);
        if written.Some? {
          results := results[shop.adapterKey := written.value];
        } else {
          results := results[shop.adapterKey := 0];
        }
      }
    }
  }

  /***** Conservation *****/

  // Every fetched product is written, skipped or deduplicated, and the old rows stay where they were.
  lemma {:induction false} TurnsConserve(t: Tally, products: seq<ShopProduct>, byId: map<string, Link>,
                                         recent: set<int>, t0: int)
    ensures var u := Turns(t, products, byId, recent, t0);
            && u.count + u.skipped + u.deduped == t.count + t.skipped + t.deduped + |products|
            && |u.history| - u.count == |t.history| - t.count
            && t.history <= u.history
  {
    if products != [] { TurnsConserve(t, products[..|products| - 1], byId, recent, t0); }
  }

  // An adapter is registered under the shop's key, and it and the lookup of the links answer.
  ghost predicate Served(shop: Shop, outcome: Outcome) {
    (shop.adapterKey == Some("dummyjson") || shop.adapterKey == Some("fakestore")) && outcome.Fetched?
  }

  lemma ShopConserves(history: seq<PriceRow>, links: seq<Link>, shop: Shop, outcome: Outcome, t0: int)
    ensures var t := FetchShop(history, links, shop, outcome, t0);
            && history <= t.history && |t.history| == |history| + t.count
            && (!Served(shop, outcome) ==> t.count == 0 && Raises(shop, outcome))
            && (Served(shop, outcome) ==> |outcome.products| == t.count + t.skipped + t.deduped
                                          && !Raises(shop, outcome))
  {
    if !Raises(shop, outcome) {
      TurnsConserve(Tally(history, 0, 0, 0), outcome.products, ByExternalId(LinksOfShop(links, shop.id)),
                    PricedSince(history, outcome.clock - DEDUP_WINDOW), t0);
    }
  }

  // The sum of a dict's values.
  ghost function Total(m: map<Option<string>, nat>): nat
    decreases |m|
  {
    if m == map[] then 0 else Held(m); var k := Pick(m); m[k] + Total(m - {k})
  }

  lemma Held(m: map<Option<string>, nat>)
    requires m != map[]
    ensures exists k :: k in m
  {
    assert (forall k :: k !in m) ==> m == map[];
  }

  ghost function Pick(m: map<Option<string>, nat>): Option<string>
    requires exists k :: k in m
    ensures Pick(m) in m
  {
    var k :| k in m; k
  }

  lemma {:induction false} TotalSplit(m: map<Option<string>, nat>, k: Option<string>)
    requires k in m
    ensures Total(m) == m[k] + Total(m - {k})
    decreases |m|
  {
    var p := Pick(m);
    if p != k {
      TotalSplit(m - {p}, k);
      TotalSplit(m - {k}, p);
      assert m - {p} - {k} == m - {k} - {p};
    }
  }

  lemma TotalSet(m: map<Option<string>, nat>, k: Option<string>, v: nat)
    ensures Total(m[k := v]) == v + Total(m - {k})
    ensures k !in m ==> Total(m[k := v]) == v + Total(m)
    ensures k in m && m[k] == v ==> Total(m[k := v]) == Total(m)
  {
    TotalSplit(m[k := v], k);
    assert m[k := v] - {k} == m - {k};
    if k !in m { assert m - {k} == m; } else if m[k] == v { assert m[k := v] == m; }
  }

  // adapter_key is unique where it is not NULL; a shop without one always raises.
  ghost predicate FreshKeys(results: map<Option<string>, nat>, shops: seq<Shop>) {
    && (forall s | s in shops && s.adapterKey.Some? :: s.adapterKey !in results)
    && (forall i, j | 0 <= i < j < |shops| && shops[i].adapterKey.Some? :: shops[i].adapterKey != shops[j].adapterKey)
    && (None in results ==> results[None] == 0)
  }

  lemma FreshKeysRest(results: map<Option<string>, nat>, shops: seq<Shop>, count: nat)
    requires shops != [] && FreshKeys(results, shops)
    requires shops[0].adapterKey.None? ==> count == 0
    ensures FreshKeys(results[shops[0].adapterKey := count], shops[1..])
  {
    assert shops == [shops[0]] + shops[1..];
  }

  // The rows a fetch adds are the sum of its result values, and no old row moves.
  lemma {:induction false} FetchConserves(s: Summary, links: seq<Link>, shops: seq<Shop>, outcomes: int -> Outcome,
                                          t0: int)
    requires FreshKeys(s.results, shops)
    ensures var f := FetchShops(s, links, shops, outcomes, t0);
            && s.history <= f.history
            && |f.history| - |s.history| == Total(f.results) - Total(s.results)
    decreases |shops|
  {
    if shops != [] {
      var shop := shops[0];
      var t := FetchShop(s.history, links, shop, outcomes(shop.id), t0);
      ShopConserves(s.history, links, shop, outcomes(shop.id), t0);
      TotalSet(s.results, shop.adapterKey, t.count);
      assert shop in shops;
      FreshKeysRest(s.results, shops, t.count);
      FetchConserves(Summary(t.history, s.results[shop.adapterKey := t.count]), links, shops[1..], outcomes, t0);
    }
  }

  /***** Isolation of the shops *****/

  lemma {:induction false} OfShop(links: seq<Link>, shop: int, l: Link)
    ensures l in LinksOfShop(links, shop) <==> l in links && l.shop == shop
  {
    if links != [] {
      assert links == [links[0]] + links[1..];
      OfShop(links[1..], shop, l);
    }
  }

  ghost predicate UnderOwnId(byId: map<string, Link>, links: seq<Link>) {
    forall e | e in byId :: byId[e] in links && byId[e].externalId == e
  }

  lemma {:induction false} Dict(links: seq<Link>)
    ensures UnderOwnId(ByExternalId(links), links)
  {
    if links != [] {
      assert links == links[..|links| - 1] + [links[|links| - 1]];
      Dict(links[..|links| - 1]);
    }
  }

  // Links of the shop, each under its external id, with distinct ids.
  ghost predicate DictOf(byId: map<string, Link>, links: seq<Link>, shop: int) {
    && (forall e | e in byId :: byId[e] in links && byId[e].shop == shop)
    && (forall e1, e2 | e1 in byId && e2 in byId && e1 != e2 :: byId[e1].id != byId[e2].id)
  }

  lemma ShopDict(links: seq<Link>, shop: int)
    requires UniqueLinks(links)
    ensures DictOf(ByExternalId(LinksOfShop(links, shop)), links, shop)
  {
    var own := LinksOfShop(links, shop);
    var byId := ByExternalId(own);
    Dict(own);
    forall e | e in byId ensures byId[e] in links && byId[e].shop == shop { OfShop(links, shop, byId[e]); }
    assert forall e1, e2 | e1 in byId && e2 in byId && e1 != e2 :: byId[e1] != byId[e2];
  }

  // The rows agree but for their numbers.
  ghost predicate SameRows(a: seq<PriceRow>, b: seq<PriceRow>) {
    |a| == |b| && forall k | 0 <= k < |a| :: a[k].(id := b[k].id) == b[k]
  }

  // What a loop writes depends on the histories it starts from only by the recent product_shops.
  lemma {:induction false} TurnsLocal(h1: seq<PriceRow>, h2: seq<PriceRow>, products: seq<ShopProduct>,
                                      byId: map<string, Link>, r1: set<int>, r2: set<int>, t0: int)
    requires forall e | e in byId :: byId[e].id in r1 <==> byId[e].id in r2
    ensures var u1 := Turns(Tally(h1, 0, 0, 0), products, byId, r1, t0);
            var u2 := Turns(Tally(h2, 0, 0, 0), products, byId, r2, t0);
            && u1.count == u2.count && h1 <= u1.history && h2 <= u2.history
            && SameRows(u1.history[|h1|..], u2.history[|h2|..])
  {
    if products != [] {
      var n := |products| - 1;
      TurnsLocal(h1, h2, products[..n], byId, r1, r2, t0);
      var v1 := Turns(Tally(h1, 0, 0, 0), products[..n], byId, r1, t0);
      var v2 := Turns(Tally(h2, 0, 0, 0), products[..n], byId, r2, t0);
      var u1, u2 := Turn(v1, products[n], byId, r1, t0), Turn(v2, products[n], byId, r2, t0);
      if u1.count > v1.count {
        assert u1.history[|h1|..] == v1.history[|h1|..] + [u1.history[|v1.history|]];
        assert u2.history[|h2|..] == v2.history[|h2|..] + [u2.history[|v2.history|]];
      }
    }
  }

  // Two histories in which the shop's own product_shops were priced at the same times.
  ghost predicate SameFor(h1: seq<PriceRow>, h2: seq<PriceRow>, links: seq<Link>, shop: int) {
    forall since, l | l in links && l.shop == shop :: l.id in PricedSince(h1, since) <==> l.id in PricedSince(h2, since)
  }

  // A shop's fetch depends on the history only by the rows of its own product_shops.
  lemma FetchLocal(h1: seq<PriceRow>, h2: seq<PriceRow>, links: seq<Link>, shop: Shop, outcome: Outcome, t0: int)
    requires UniqueLinks(links) && SameFor(h1, h2, links, shop.id)
    ensures var u1, u2 := FetchShop(h1, links, shop, outcome, t0), FetchShop(h2, links, shop, outcome, t0);
            && u1.count == u2.count && h1 <= u1.history && h2 <= u2.history
            && SameRows(u1.history[|h1|..], u2.history[|h2|..])
  {
    if !Raises(shop, outcome) {
      ShopDict(links, shop.id);
      var byId, since := ByExternalId(LinksOfShop(links, shop.id)), outcome.clock - DEDUP_WINDOW;
      forall e | e in byId ensures byId[e].id in PricedSince(h1, since) <==> byId[e].id in PricedSince(h2, since) {
        assert byId[e] in links && byId[e].shop == shop.id;
      }
      TurnsLocal(h1, h2, outcome.products, byId, PricedSince(h1, since), PricedSince(h2, since), t0);
    }
  }

  /***** What the new rows of a shop are *****/

  ghost predicate DistinctIds(products: seq<ShopProduct>) {
    forall i, j | 0 <= i < j < |products| :: products[i].externalId != products[j].externalId
  }

  // Row k was written for one of the products.
  ghost predicate WrittenFor(row: PriceRow, products: seq<ShopProduct>, byId: map<string, Link>) {
    exists i | 0 <= i < |products| :: Quotes(row, products[i], byId)
  }

  // The row is for the product's link and carries its price.
  ghost predicate Quotes(row: PriceRow, p: ShopProduct, byId: map<string, Link>) {
    p.externalId in byId && byId[p.externalId].id == row.ps && p.price == row.price
  }

  lemma {:induction false} TurnsWrite(h: seq<PriceRow>, products: seq<ShopProduct>, byId: map<string, Link>,
                                      recent: set<int>, t0: int)
    ensures var u := Turns(Tally(h, 0, 0, 0), products, byId, recent, t0);
            && h <= u.history
            && forall k | |h| <= k < |u.history| ::
                 u.history[k].at == t0 && u.history[k].ps !in recent && WrittenFor(u.history[k], products, byId)
  {
    if products != [] {
      var before := products[..|products| - 1];
      TurnsWrite(h, before, byId, recent, t0);
      var v := Turns(Tally(h, 0, 0, 0), before, byId, recent, t0);
      var u := Turns(Tally(h, 0, 0, 0), products, byId, recent, t0);
      forall k | |h| <= k < |u.history| ensures WrittenFor(u.history[k], products, byId) {
        if k < |v.history| {
          assert WrittenFor(v.history[k], before, byId);
          var i :| 0 <= i < |before| && Quotes(v.history[k], before[i], byId);
          assert products[i] == before[i];
        } else {
          assert Quotes(u.history[k], products[|products| - 1], byId);
        }
      }
    }
  }

  // One of the rows from n on is for the product.
  ghost predicate Written(rows: seq<PriceRow>, n: nat, p: ShopProduct, byId: map<string, Link>) {
    exists k | n <= k < |rows| :: Quotes(rows[k], p, byId)
  }

  // Conversely, every product with a link that was not priced recently is written.
  lemma {:induction false} TurnsComplete(h: seq<PriceRow>, products: seq<ShopProduct>, byId: map<string, Link>,
                                         recent: set<int>, t0: int, i: nat)
    requires i < |products| && products[i].externalId in byId && byId[products[i].externalId].id !in recent
    ensures Written(Turns(Tally(h, 0, 0, 0), products, byId, recent, t0).history, |h|, products[i], byId)
  {
    var n := |products| - 1;
    var v := Turns(Tally(h, 0, 0, 0), products[..n], byId, recent, t0).history;
    var u := Turns(Tally(h, 0, 0, 0), products, byId, recent, t0).history;
    TurnsWrite(h, products[..n], byId, recent, t0);
    assert v <= u;
    if i < n {
      TurnsComplete(h, products[..n], byId, recent, t0, i);
      var k :| |h| <= k < |v| && Quotes(v[k], products[i], byId);
      assert u[k] == v[k];
    } else {
      assert Quotes(u[|v|], products[i], byId);
    }
  }

  lemma {:induction false} ByExternalIdHas(links: seq<Link>, e: string)
    ensures e in ByExternalId(links) <==> exists l | l in links :: l.externalId == e
  {
    if links != [] {
      assert links == links[..|links| - 1] + [links[|links| - 1]];
      ByExternalIdHas(links[..|links| - 1], e);
    }
  }

  // Position i holds the last link with the external id.
  ghost predicate LastWith(links: seq<Link>, e: string, i: nat) {
    i < |links| && links[i].externalId == e && forall j | i < j < |links| :: links[j].externalId != e
  }

  lemma {:induction false} ByExternalIdIs(links: seq<Link>, e: string) returns (i: nat)
    requires e in ByExternalId(links)
    ensures LastWith(links, e, i) && ByExternalId(links)[e] == links[i]
  {
    var n := |links| - 1;
    if links[n].externalId == e {
      i := n;
    } else {
      i := ByExternalIdIs(links[..n], e);
    }
  }

  // The shop's product_shop for an external id: the last of the shop's links with it.
  ghost predicate LinkFor(links: seq<Link>, shop: int, e: string, l: Link) {
    exists i: nat :: LastWith(LinksOfShop(links, shop), e, i) && LinksOfShop(links, shop)[i] == l
  }

  lemma LinkForIff(links: seq<Link>, shop: int, e: string, l: Link)
    ensures LinkFor(links, shop, e, l)
       <==> e in ByExternalId(LinksOfShop(links, shop)) && ByExternalId(LinksOfShop(links, shop))[e] == l
  {
    var own := LinksOfShop(links, shop);
    ByExternalIdHas(own, e);
    if i: nat :| LastWith(own, e, i) && own[i] == l {
      assert own[i] in own;
      var k := ByExternalIdIs(own, e);
      assert i == k;
    }
    if e in ByExternalId(own) && ByExternalId(own)[e] == l { var k := ByExternalIdIs(own, e); }
  }

  // A shop has a product_shop for an external id exactly if one of its links has it.
  lemma LinkForExists(links: seq<Link>, shop: int, e: string)
    ensures (exists l :: LinkFor(links, shop, e, l)) <==> exists l | l in links :: l.shop == shop && l.externalId == e
    ensures forall l | LinkFor(links, shop, e, l) :: l in links && l.shop == shop && l.externalId == e
  {
    var own := LinksOfShop(links, shop);
    ByExternalIdHas(own, e);
    forall l ensures l in own <==> l in links && l.shop == shop { OfShop(links, shop, l); }
    if e in ByExternalId(own) {
      var i := ByExternalIdIs(own, e);
      assert LinkFor(links, shop, e, own[i]);
    }
    forall l | LinkFor(links, shop, e, l) ensures l in own && l.externalId == e {}
  }

  // The product_shop has a price of the last hour before the instant at which the boundary is computed.
  ghost predicate PricedRecently(history: seq<PriceRow>, ps: int, clock: int) {
    exists r | r in history :: r.ps == ps && clock - 60 * 60 * 1_000_000 <= r.at
  }

  // A product is to be written under the product_shop.
  ghost predicate Due(history: seq<PriceRow>, links: seq<Link>, shop: int, p: ShopProduct, clock: int, l: Link) {
    LinkFor(links, shop, p.externalId, l) && !PricedRecently(history, l.id, clock)
  }

  lemma DueIff(history: seq<PriceRow>, links: seq<Link>, shop: int, p: ShopProduct, clock: int, l: Link)
    ensures var byId := ByExternalId(LinksOfShop(links, shop));
            (Due(history, links, shop, p, clock, l)
             <==> && p.externalId in byId && byId[p.externalId] == l
                  && l.id !in PricedSince(history, clock - DEDUP_WINDOW))
  {
    LinkForIff(links, shop, p.externalId, l);
  }

  // The row is the one the database makes of the product's price.
  ghost predicate RowFor(rows: seq<PriceRow>, k: nat, p: ShopProduct, l: Link, t0: int) {
    k < |rows| && rows[k].ps == l.id && rows[k].price == p.price && rows[k].at == t0
  }

  // Row k is that of one of the products due.
  ghost predicate RowOfDue(history: seq<PriceRow>, links: seq<Link>, shop: int, outcome: Outcome, t0: int,
                           rows: seq<PriceRow>, k: nat)
    requires outcome.Fetched?
  {
    exists p, l | p in outcome.products ::
      Due(history, links, shop, p, outcome.clock, l) && RowFor(rows, k, p, l, t0)
  }

  // A shop's fetch writes a product exactly when the shop has a product_shop for it without a price of
  // the last hour, with its price and the time of the transaction, and nothing else.
  lemma ShopWrites(history: seq<PriceRow>, links: seq<Link>, shop: Shop, outcome: Outcome, t0: int)
    requires Served(shop, outcome)
    ensures var u := FetchShop(history, links, shop, outcome, t0).history;
            && (forall k: nat | |history| <= k < |u| :: RowOfDue(history, links, shop.id, outcome, t0, u, k))
            && forall p, l | p in outcome.products && Due(history, links, shop.id, p, outcome.clock, l) ::
                 exists k: nat | |history| <= k :: RowFor(u, k, p, l, t0)
  {
    var byId, recent := ByExternalId(LinksOfShop(links, shop.id)), PricedSince(history, outcome.clock - DEDUP_WINDOW);
    var u := FetchShop(history, links, shop, outcome, t0).history;
    TurnsWrite(history, outcome.products, byId, recent, t0);
    forall k: nat | |history| <= k < |u| ensures RowOfDue(history, links, shop.id, outcome, t0, u, k) {
      assert WrittenFor(u[k], outcome.products, byId);
      var i :| 0 <= i < |outcome.products| && Quotes(u[k], outcome.products[i], byId);
      var p := outcome.products[i];
      DueIff(history, links, shop.id, p, outcome.clock, byId[p.externalId]);
      assert p in outcome.products && RowFor(u, k, p, byId[p.externalId], t0);
    }
    forall p, l | p in outcome.products && Due(history, links, shop.id, p, outcome.clock, l)
      ensures exists k: nat | |history| <= k :: RowFor(u, k, p, l, t0)
    {
      DueIff(history, links, shop.id, p, outcome.clock, l);
      var i :| 0 <= i < |outcome.products| && outcome.products[i] == p;
      TurnsComplete(history, outcome.products, byId, recent, t0, i);
      var k :| |history| <= k < |u| && Quotes(u[k], p, byId);
      assert RowFor(u, k, p, l, t0);
    }
  }

  lemma {:induction false} TurnsDistinct(h: seq<PriceRow>, products: seq<ShopProduct>, byId: map<string, Link>,
                                         recent: set<int>, t0: int)
    requires DistinctIds(products)
    requires forall e1, e2 | e1 in byId && e2 in byId && e1 != e2 :: byId[e1].id != byId[e2].id
    ensures var u := Turns(Tally(h, 0, 0, 0), products, byId, recent, t0);
            forall k1, k2 | |h| <= k1 < k2 < |u.history| :: u.history[k1].ps != u.history[k2].ps
  {
    if products != [] {
      var n := |products| - 1;
      TurnsDistinct(h, products[..n], byId, recent, t0);
      TurnsWrite(h, products[..n], byId, recent, t0);
    }
  }

  // Another shop's fetch leaves the shop's own product_shops alone.
  lemma OthersUntouched(h: seq<PriceRow>, links: seq<Link>, other: Shop, outcome: Outcome, t0: int, shop: int)
    requires UniqueLinks(links) && other.id != shop
    ensures SameFor(h, FetchShop(h, links, other, outcome, t0).history, links, shop)
  {
    var u := FetchShop(h, links, other, outcome, t0).history;
    if !Raises(other, outcome) {
      ShopDict(links, other.id);
      var byId := ByExternalId(LinksOfShop(links, other.id));
      TurnsWrite(h, outcome.products, byId, PricedSince(h, outcome.clock - DEDUP_WINDOW), t0);
      forall k, l | |h| <= k < |u| && l in links && l.shop == shop ensures u[k].ps != l.id {
        assert WrittenFor(u[k], outcome.products, byId);
        var i :| 0 <= i < |outcome.products| && Quotes(u[k], outcome.products[i], byId);
        assert byId[outcome.products[i].externalId] != l;
      }
      assert u == h + u[|h|..];
    }
  }

  lemma SameForTransitive(h1: seq<PriceRow>, h2: seq<PriceRow>, h3: seq<PriceRow>, links: seq<Link>, shop: int)
    requires SameFor(h1, h2, links, shop) && SameFor(h2, h3, links, shop)
    ensures SameFor(h1, h3, links, shop)
  {}

  // The rows, but for the ids the database gives them, stand in the history from position n on.
  ghost predicate RowsAt(history: seq<PriceRow>, n: nat, rows: seq<PriceRow>) {
    n + |rows| <= |history| && SameRows(history[n..n + |rows|], rows)
  }

  ghost predicate HoldsRows(history: seq<PriceRow>, start: nat, rows: seq<PriceRow>) {
    exists n: nat | start <= n :: RowsAt(history, n, rows)
  }

  lemma HoldsRowsAt(history: seq<PriceRow>, more: seq<PriceRow>, start: nat, n: nat, written: seq<PriceRow>)
    requires start <= n <= |history| && history <= more && SameRows(history[n..], written)
    ensures HoldsRows(more, start, written)
  {
    assert more[n..n + |written|] == history[n..];
    assert RowsAt(more, n, written);
  }

  // The rows a shop writes when it is fetched alone.
  function AloneRows(h: seq<PriceRow>, links: seq<Link>, shop: Shop, outcome: Outcome, t0: int): seq<PriceRow> {
    var u := FetchShop(h, links, shop, outcome, t0).history;
    if |h| <= |u| then u[|h|..] else []
  }

  // In a fetch of all shops each shop writes the rows it would write if it were fetched alone from the
  // initial history: whether another shop fails, and what it writes, changes nothing for it.
  lemma {:induction false} ShopsIsolated(s: Summary, links: seq<Link>, shops: seq<Shop>, outcomes: int -> Outcome,
                                         t0: int, i: nat, h: seq<PriceRow>)
    requires UniqueLinks(links) && UniqueShops(shops) && FreshKeys(s.results, shops) && i < |shops|
    requires SameFor(h, s.history, links, shops[i].id) && |h| <= |s.history|
    ensures var f := FetchShops(s, links, shops, outcomes, t0);
            && shops[i].adapterKey in f.results
            && f.results[shops[i].adapterKey] == FetchShop(h, links, shops[i], outcomes(shops[i].id), t0).count
            && HoldsRows(f.history, |h|, AloneRows(h, links, shops[i], outcomes(shops[i].id), t0))
    decreases |shops|
  {
    var shop := shops[0];
    var t := FetchShop(s.history, links, shop, outcomes(shop.id), t0);
    var next := Summary(t.history, s.results[shop.adapterKey := t.count]);
    FreshKeysRest(s.results, shops, t.count);
    if i == 0 {
      FetchLocal(s.history, h, links, shop, outcomes(shop.id), t0);
      ResultKept(next, links, shops[1..], outcomes, t0, shop.adapterKey);
      FetchConserves(next, links, shops[1..], outcomes, t0);
      HoldsRowsAt(t.history, FetchShops(s, links, shops, outcomes, t0).history, |h|, |s.history|,
                  AloneRows(h, links, shop, outcomes(shop.id), t0));
    } else {
      OthersUntouched(s.history, links, shop, outcomes(shop.id), t0, shops[i].id);
      SameForTransitive(h, s.history, t.history, links, shops[i].id);
      ShopConserves(s.history, links, shop, outcomes(shop.id), t0);
      ShopsIsolated(next, links, shops[1..], outcomes, t0, i - 1, h);
    }
  }

  // A result stays unless its key comes again, and only the key None can: with 0.
  lemma {:induction false} ResultKept(s: Summary, links: seq<Link>, shops: seq<Shop>, outcomes: int -> Outcome, t0: int,
                                      key: Option<string>)
    requires FreshKeys(s.results, shops) && key in s.results
    ensures var f := FetchShops(s, links, shops, outcomes, t0);
            key in f.results && f.results[key] == s.results[key]
    decreases |shops|
  {
    if shops != [] {
      var shop := shops[0];
      var t := FetchShop(s.history, links, shop, outcomes(shop.id), t0);
      FreshKeysRest(s.results, shops, t.count);
      assert shop in shops;
      ResultKept(Summary(t.history, s.results[shop.adapterKey := t.count]), links, shops[1..], outcomes, t0, key);
    }
  }

  /***** The whole fetch *****/

  // Primary key, and adapter_key unique where it is not NULL.
  ghost predicate KeyedShops(shops: seq<Shop>) {
    && UniqueShops(shops)
    && forall i, j | 0 <= i < j < |shops| && shops[i].adapterKey.Some? :: shops[i].adapterKey != shops[j].adapterKey
  }

  lemma {:induction false} InActive(shops: seq<Shop>, s: Shop)
    ensures s in Active(shops) <==> s in shops && s.active
  {
    if shops != [] {
      assert shops == [shops[0]] + shops[1..];
      InActive(shops[1..], s);
    }
  }

  ghost predicate Apart(a: Shop, b: Shop) {
    a.id != b.id && (a.adapterKey.Some? ==> a.adapterKey != b.adapterKey)
  }

  lemma {:induction false} FetchedKeys(s: Summary, links: seq<Link>, shops: seq<Shop>, outcomes: int -> Outcome,
                                       t0: int, key: Option<string>)
    ensures key in FetchShops(s, links, shops, outcomes, t0).results
       <==> key in s.results || exists x | x in shops :: x.adapterKey == key
    decreases |shops|
  {
    if shops != [] {
      assert shops == [shops[0]] + shops[1..];
      var t := FetchShop(s.history, links, shops[0], outcomes(shops[0].id), t0);
      FetchedKeys(Summary(t.history, s.results[shops[0].adapterKey := t.count]), links, shops[1..], outcomes, t0, key);
    }
  }

  // The results are those of the active shops: each has one, and no other shop does.
  lemma ResultsIff(history: seq<PriceRow>, links: seq<Link>, shops: seq<Shop>, outcomes: int -> Outcome, t0: int,
                   key: Option<string>)
    ensures key in FetchAll(history, links, shops, outcomes, t0).results
       <==> exists s | s in shops :: s.active && s.adapterKey == key
  {
    FetchedKeys(Summary(history, map[]), links, Active(shops), outcomes, t0, key);
    forall s ensures s in Active(shops) <==> s in shops && s.active { InActive(shops, s); }
  }

  lemma KeyedCons(s: Shop, rest: seq<Shop>)
    requires KeyedShops(rest) && forall x | x in rest :: Apart(s, x)
    ensures KeyedShops([s] + rest)
  {
    assert forall i | 0 <= i < |rest| :: rest[i] in rest;
  }

  lemma {:induction false} ActiveKeyed(shops: seq<Shop>)
    requires KeyedShops(shops)
    ensures KeyedShops(Active(shops))
  {
    if shops != [] {
      ActiveKeyed(shops[1..]);
      var rest := Active(shops[1..]);
      forall x | x in rest ensures Apart(shops[0], x) {
        InActive(shops[1..], x);
        var j :| 1 <= j < |shops| && shops[j] == x;
      }
      KeyedCons(shops[0], rest);
      assert [] + rest == rest;
    }
  }

  // The rows one fetch adds are the sum of the values it returns.
  lemma FetchAllConserves(history: seq<PriceRow>, links: seq<Link>, shops: seq<Shop>, outcomes: int -> Outcome, t0: int)
    requires KeyedShops(shops)
    ensures var f := FetchAll(history, links, shops, outcomes, t0);
            history <= f.history && |f.history| == |history| + Total(f.results)
  {
    ActiveKeyed(shops);
    FetchConserves(Summary(history, map[]), links, Active(shops), outcomes, t0);
  }

  // Every active shop writes the rows it would write if it were fetched alone, none if it raises, and
  // its result is their number.
  lemma FetchAllIsolates(history: seq<PriceRow>, links: seq<Link>, shops: seq<Shop>, outcomes: int -> Outcome,
                         t0: int, shop: Shop)
    requires KeyedShops(shops) && UniqueLinks(links) && shop in shops && shop.active
    ensures var f := FetchAll(history, links, shops, outcomes, t0);
            && shop.adapterKey in f.results
            && f.results[shop.adapterKey] == FetchShop(history, links, shop, outcomes(shop.id), t0).count
            && HoldsRows(f.history, |history|, AloneRows(history, links, shop, outcomes(shop.id), t0))
  {
    ActiveKeyed(shops);
    InActive(shops, shop);
    var i :| 0 <= i < |Active(shops)| && Active(shops)[i] == shop;
    ShopsIsolated(Summary(history, map[]), links, Active(shops), outcomes, t0, i, history);
  }

  /***** Spacing of prices over whole runs *****/

  // The history together with the instant at which each row's dedup boundary was computed.
  datatype Trace = Trace(history: seq<PriceRow>, clocks: seq<int>)

  // One scheduled fetch; shops, links and the adapters' answers may differ from run to run.
  datatype Run = Run(links: seq<Link>, shops: seq<Shop>, outcomes: int -> Outcome, t0: int)

  function TraceShop(t: Trace, links: seq<Link>, shop: Shop, outcome: Outcome, t0: int): Trace {
    var u := FetchShop(t.history, links, shop, outcome, t0);
    if Raises(shop, outcome) then t else Trace(u.history, t.clocks + seq(u.count, _ => outcome.clock))
  }

  function TraceShops(t: Trace, links: seq<Link>, shops: seq<Shop>, outcomes: int -> Outcome, t0: int): Trace
    decreases |shops|
  {
    if shops == [] then t
    else TraceShops(TraceShop(t, links, shops[0], outcomes(shops[0].id), t0), links, shops[1..], outcomes, t0)
  }

  function TraceRuns(t: Trace, runs: seq<Run>): Trace
    decreases |runs|
  {
    if runs == [] then t
    else TraceRuns(TraceShops(t, runs[0].links, Active(runs[0].shops), runs[0].outcomes, runs[0].t0), runs[1..])
  }

  function HistoryOf(h: seq<PriceRow>, runs: seq<Run>): seq<PriceRow>
    decreases |runs|
  {
    if runs == [] then h
    else HistoryOf(FetchAll(h, runs[0].links, runs[0].shops, runs[0].outcomes, runs[0].t0).history, runs[1..])
  }

  // Two rows of one product_shop are more than an hour apart, less the time that passed between the
  // start of the later row's transaction and the computation of its dedup boundary.
  ghost predicate Spaced(t: Trace) {
    && |t.history| == |t.clocks|
    && forall i, j | 0 <= i < j < |t.history| && t.history[i].ps == t.history[j].ps ::
         t.history[j].at - t.history[i].at > 60 * 60 * 1_000_000 - (t.clocks[j] - t.history[j].at)
  }

  ghost predicate Listed(outcome: Outcome) { outcome.Fetched? ==> DistinctIds(outcome.products) }

  lemma ShopKeepsSpacing(t: Trace, links: seq<Link>, shop: Shop, outcome: Outcome, t0: int)
    requires Spaced(t) && UniqueLinks(links) && Listed(outcome)
    ensures Spaced(TraceShop(t, links, shop, outcome, t0))
    ensures TraceShop(t, links, shop, outcome, t0).history == FetchShop(t.history, links, shop, outcome, t0).history
  {
    if !Raises(shop, outcome) {
      var h, u := t.history, TraceShop(t, links, shop, outcome, t0);
      var byId, recent := ByExternalId(LinksOfShop(links, shop.id)), PricedSince(h, outcome.clock - DEDUP_WINDOW);
      ShopConserves(h, links, shop, outcome, t0);
      ShopDict(links, shop.id);
      TurnsWrite(h, outcome.products, byId, recent, t0);
      TurnsDistinct(h, outcome.products, byId, recent, t0);
      forall i, j | 0 <= i < j < |u.history| && u.history[i].ps == u.history[j].ps
        ensures u.history[j].at - u.history[i].at > DEDUP_WINDOW - (u.clocks[j] - u.history[j].at)
      {
        if |h| <= j {
          assert i < |h| && u.history[i] == h[i] && h[i] in h && h[i].ps !in recent;
        }
      }
    }
  }

  lemma {:induction false} ShopsKeepSpacing(t: Trace, links: seq<Link>, shops: seq<Shop>, outcomes: int -> Outcome,
                                            t0: int, results: map<Option<string>, nat>)
    requires Spaced(t) && UniqueLinks(links) && forall s: Shop :: Listed(outcomes(s.id))
    ensures Spaced(TraceShops(t, links, shops, outcomes, t0))
    ensures TraceShops(t, links, shops, outcomes, t0).history
         == FetchShops(Summary(t.history, results), links, shops, outcomes, t0).history
    decreases |shops|
  {
    if shops != [] {
      var shop := shops[0];
      ShopKeepsSpacing(t, links, shop, outcomes(shop.id), t0);
      var u := FetchShop(t.history, links, shop, outcomes(shop.id), t0);
      ShopsKeepSpacing(TraceShop(t, links, shop, outcomes(shop.id), t0), links, shops[1..], outcomes, t0,
                       results[shop.adapterKey := u.count]);
    }
  }

  ghost predicate ValidRun(r: Run) {
    UniqueLinks(r.links) && forall s: Shop :: Listed(r.outcomes(s.id))
  }

  // Over any sequence of committed fetches from an empty history, prices of one product_shop are
  // spaced; the trace is the real history.
  lemma {:induction false} RunsKeepSpacing(t: Trace, runs: seq<Run>)
    requires Spaced(t) && forall i | 0 <= i < |runs| :: ValidRun(runs[i])
    ensures Spaced(TraceRuns(t, runs)) && TraceRuns(t, runs).history == HistoryOf(t.history, runs)
    decreases |runs|
  {
    if runs != [] {
      var r := runs[0];
      assert ValidRun(r);
      ShopsKeepSpacing(t, r.links, Active(r.shops), r.outcomes, r.t0, map[]);
      assert forall i | 0 <= i < |runs[1..]| :: runs[1..][i] == runs[i + 1];
      RunsKeepSpacing(TraceShops(t, r.links, Active(r.shops), r.outcomes, r.t0), runs[1..]);
    }
  }

  // Every new row is more than an hour after every old row of its product_shop.
  ghost predicate HourApart(h: seq<PriceRow>, u: seq<PriceRow>) {
    forall i, j | 0 <= i < |h| <= j < |u| && i < |u| && u[i].ps == u[j].ps ::
      u[j].at - u[i].at > 60 * 60 * 1_000_000
  }

  ghost predicate AlwaysHourApart(t0: int, clock: int) {
    forall h: seq<PriceRow>, links, shop, products: seq<ShopProduct> | UniqueLinks(links) ::
      HourApart(h, FetchShop(h, links, shop, Fetched(products, clock), t0).history)
  }

  lemma Witness(t0: int, clock: int)
    ensures var h := [PriceRow(0, 7, 5, clock - DEDUP_WINDOW - 1)];
            var shop := Shop(1, "DummyJSON", Some("dummyjson"), true);
            FetchShop(h, [Link(7, 1, 1, "x")], shop, Fetched([ShopProduct("x", "t", 5)], clock), t0).history
            == h + [PriceRow(1, 7, 5, t0)]
  {
    var h := [PriceRow(0, 7, 5, clock - DEDUP_WINDOW - 1)];
    var links := [Link(7, 1, 1, "x")];
    assert LinksOfShop(links, 1) == links;
    assert links[..0] == [];
    assert ByExternalId(links) == map["x" := links[0]];
    var products := [ShopProduct("x", "t", 5)];
    assert products[..0] == [];
    var start, recent := Tally(h, 0, 0, 0), PricedSince(h, clock - DEDUP_WINDOW);
    assert Turns(start, products, ByExternalId(links), recent, t0)
        == Turn(start, products[0], ByExternalId(links), recent, t0);
  }

  // The promised hour is kept by every fetch of a shop exactly when the dedup boundary is computed
  // no later than the instant that stamps the rows.
  lemma HourApartIff(t0: int, clock: int)
    ensures AlwaysHourApart(t0, clock) <==> clock <= t0
  {
    if clock <= t0 {
      forall h: seq<PriceRow>, links, shop, products: seq<ShopProduct> | UniqueLinks(links)
        ensures HourApart(h, FetchShop(h, links, shop, Fetched(products, clock), t0).history)
      {
        if !Raises(shop, Fetched(products, clock)) {
          var recent := PricedSince(h, clock - DEDUP_WINDOW);
          TurnsWrite(h, products, ByExternalId(LinksOfShop(links, shop.id)), recent, t0);
          assert forall i | 0 <= i < |h| && h[i].ps !in recent :: h[i] in h && h[i].at < clock - DEDUP_WINDOW;
        }
      }
    }
    if AlwaysHourApart(t0, clock) {
      Witness(t0, clock);
      var h := [PriceRow(0, 7, 5, clock - DEDUP_WINDOW - 1)];
      var shop := Shop(1, "DummyJSON", Some("dummyjson"), true);
      var links := [Link(7, 1, 1, "x")];
      assert UniqueLinks(links);
      assert HourApart(h, FetchShop(h, links, shop, Fetched([ShopProduct("x", "t", 5)], clock), t0).history);
      var u := h + [PriceRow(1, 7, 5, t0)];
      assert HourApart(h, u) && u[1].at - u[0].at > DEDUP_WINDOW;
    }
  }
}
