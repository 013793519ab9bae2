/** The startup seed: demo user, shops and products, each committed on its own, run again on every
    start, with adapters that may fail and a process that may die before any commit. */
module Seeding {
  import opened Wrappers
  import opened Tables
  import opened Matcher

  const DEMO_USER_ID := 1
  const DUMMYJSON_KEY := "dummyjson"
  const FAKESTORE_KEY := "fakestore"

  datatype Db = Db(users: seq<int>, shops: seq<Shop>, products: seq<int>, links: seq<Link>)

  const NO_ROWS := Db([], [], [], [])

  function Plus(a: Db, b: Db): Db {
    Db(a.users + b.users, a.shops + b.shops, a.products + b.products, a.links + b.links)
  }

  // One start of the application: what the two adapters give (None: they raise), the first of the
  // fresh product ids, and the number of commits the process lives to make.
  datatype Startup = Startup(dummy: Option<seq<ShopProduct>>, fake: Option<seq<ShopProduct>>, firstId: int,
                             commits: nat)

  /***** Rows the steps add *****/

  const DEMO_USER := Db([DEMO_USER_ID], [], [], [])

  const BOTH_SHOPS := Db([], [Shop(1, "DummyJSON", Some(DUMMYJSON_KEY), true),
                              Shop(2, "FakeStore", Some(FAKESTORE_KEY), true)], [], [])

  // {s.adapter_key: s.id for s in shops}[key]; None stands for the KeyError.
  function ShopId(shops: seq<Shop>, key: string): Option<int> {
    if shops == [] then None
    else
      var last := shops[|shops| - 1];
      if last.adapterKey == Some(key) then Some(last.id) else ShopId(shops[..|shops| - 1], key)
  }

  function ProductRows(n: nat, dummy: seq<ShopProduct>, firstId: int, shop: int): Db
    requires n <= |dummy|
  {
    if n == 0 then NO_ROWS
    else Plus(ProductRows(n - 1, dummy, firstId, shop),
              Db([], [], [firstId + n - 1], [Link(n - 1, firstId + n - 1, shop, dummy[n - 1].externalId)]))
  }

  // The link of each matched FakeStore product to the product of its position.
  function MatchRows(n: nat, picks: seq<nat>, fake: seq<ShopProduct>, firstId: int, shop: int, firstLink: nat): Db
    requires n <= |picks| && n <= |fake|
  {
    if n == 0 then NO_ROWS
    else Plus(MatchRows(n - 1, picks, fake, firstId, shop, firstLink),
              Db([], [], [], [Link(firstLink + n - 1, firstId + picks[n - 1], shop, fake[n - 1].externalId)]))
  }

  function SeedRows(dummy: seq<ShopProduct>, fake: seq<ShopProduct>, picks: seq<nat>, firstId: int, dummyShop: int,
                    fakeShop: int): Db
    requires |picks| <= |fake|
  {
    Plus(ProductRows(|dummy|, dummy, firstId, dummyShop),
         MatchRows(|picks|, picks, fake, firstId, fakeShop, |dummy|))
  }

  /***** What one start makes of the database *****/

  function AfterUser(db: Db): Db {
    if DEMO_USER_ID in db.users then db else Plus(db, DEMO_USER)
  }

  function AfterShops(db: Db): Db {
    if db.shops != [] then db else Plus(db, BOTH_SHOPS)
  }

  function AfterProducts(db: Db, st: Startup, picks: seq<nat>): Db
    requires st.fake.Some? ==> |picks| <= |st.fake.value|
  {
    if db.products != [] || ShopId(db.shops, DUMMYJSON_KEY).None? || ShopId(db.shops, FAKESTORE_KEY).None?
       || st.dummy.None? || st.fake.None?
    then db
    else Plus(db, SeedRows(st.dummy.value, st.fake.value, picks, st.firstId,
                           ShopId(db.shops, DUMMYJSON_KEY).value, ShopId(db.shops, FAKESTORE_KEY).value))
  }

  function Needs(b: bool): nat { if b then 1 else 0 }

  // Every commit that the process does not live to make is lost, with everything after it.
  function AfterStartup(db: Db, st: Startup, picks: seq<nat>): Db
    requires st.fake.Some? ==> |picks| <= |st.fake.value|
  {
    var c1 := Needs(DEMO_USER_ID !in db.users);
    var c2 := c1 + Needs(db.shops == []);
    if st.commits < c1 then db
    else if st.commits < c2 then AfterUser(db)
    else if st.commits < c2 + 1 then AfterShops(AfterUser(db))
    else AfterProducts(AfterShops(AfterUser(db)), st, picks)
  }

  // The match is the greedy one of the fetched lists, empty if a list is missing.
  ghost predicate MatchOf(st: Startup, picks: seq<nat>) {
    if st.dummy.Some? && st.fake.Some?
    then Greedy(picks, st.dummy.value, st.fake.value) && |picks| == Min(|st.dummy.value|, |st.fake.value|)
    else picks == []
  }

  ghost predicate Starts(db: Db, st: Startup, db': Db) {
    exists picks :: MatchOf(st, picks) && db' == AfterStartup(db, st, picks)
  }

  class Seeder {
    var db: Db          // committed rows
    var pending: Db     // rows added to the session and not yet committed
    var commits: nat    // commits the process still lives to make

    constructor (db: Db)
      ensures this.db == db && pending == NO_ROWS
    {
      this.db, pending, commits := db, NO_ROWS, 0;
    }

    // False when the process dies first.
    method Commit() returns (alive: bool)
      modifies this
      ensures alive <==> old(commits) > 0
      ensures alive ==> db == Plus(old(db), old(pending)) && pending == NO_ROWS && commits == old(commits) - 1
      ensures !alive ==> db == old(db)
    {
      if commits == 0 { return false; }
      db, pending, commits := Plus(db, pending), NO_ROWS, commits - 1;
      return true;
    }

    method Add(rows: Db)
      modifies this`pending
      ensures pending == Plus(old(pending), rows)
    {
      pending := Plus(pending, rows);
    }

    method SeedDemoUser() returns (alive: bool)
      requires pending == NO_ROWS
      modifies this
      ensures alive <==> old(commits) >= Needs(DEMO_USER_ID !in old(db).users)
      ensures alive ==> db == AfterUser(old(db)) && pending == NO_ROWS
                        && commits == old(commits) - Needs(DEMO_USER_ID !in old(db).users)
      ensures !alive ==> db == old(db)
    {
      if DEMO_USER_ID in db.users { return true; }
      Add(DEMO_USER);
      assert pending == DEMO_USER;
      alive := Commit();
    }

    method SeedShops() returns (alive: bool)
      requires pending == NO_ROWS
      modifies this
      ensures alive <==> old(commits) >= 1
      ensures alive ==> db == Plus(old(db), BOTH_SHOPS) && pending == NO_ROWS && commits == old(commits) - 1
      ensures !alive ==> db == old(db)
    {
      Add(BOTH_SHOPS);
      assert pending == BOTH_SHOPS;
      alive := Commit();
    }

    method AddProducts(dummy: seq<ShopProduct>, firstId: int, shop: int)
      requires pending == NO_ROWS
      modifies this`pending
      ensures pending == ProductRows(|dummy|, dummy, firstId, shop)
    {
      for i := 0 to |dummy|
        invariant pending == ProductRows(i, dummy, firstId, shop)
      {
        Add(Db([], [], [firstId + i], [Link(i, firstId + i, shop, dummy[i].externalId)]));
      }
    }

    method AddMatches(mapping: map<nat, ShopProduct>, order: seq<nat>, fake: seq<ShopProduct>, firstId: int, shop: int,
                      firstLink: nat)
      requires Maps(mapping, order, fake)
      modifies this`pending
      ensures pending == Plus(old(pending), MatchRows(|order|, order, fake, firstId, shop, firstLink))
    {
      PlusNothing(pending);
      for j := 0 to |order|
        invariant pending == Plus(old(pending), MatchRows(j, order, fake, firstId, shop, firstLink))
      {
        var rows := Db([], [], [], [Link(firstLink + j, firstId + order[j], shop, mapping[order[j]].externalId)]);
        PlusAssociative(old(pending), MatchRows(j, order, fake, firstId, shop, firstLink), rows);
        Add(rows);
      }
    }

    // failed tells that an exception left the method; both fetches come before the first row is added.
    method SeedProducts(st: Startup, ghost picks: seq<nat>) returns (failed: bool, alive: bool)
      requires pending == NO_ROWS && db.products == [] && MatchOf(st, picks)
      modifies this
      ensures failed ==> alive && pending == NO_ROWS && AfterProducts(old(db), st, picks) == db == old(db)
      ensures !failed ==> (alive <==> old(commits) >= 1)
      ensures !failed && alive ==> db == AfterProducts(old(db), st, picks) && pending == NO_ROWS
      ensures failed ==> commits == old(commits)
      ensures !alive ==> db == old(db)
    {
      var dummyShop, fakeShop := ShopId(db.shops, DUMMYJSON_KEY), ShopId(db.shops, FAKESTORE_KEY);
      if dummyShop.None? || fakeShop.None? { return true, true; }
      if st.dummy.None? { return true, true; }
      if st.fake.None? { return true, true; }
      AddProducts(st.dummy.value, st.firstId, dummyShop.value);
      var mapping, order := MapByNearestPrice(st.dummy.value, st.fake.value);
      SameMatch(st, order, picks);
      AddMatches(mapping, order, st.fake.value, st.firstId, fakeShop.value, |st.dummy.value|);
      alive := Commit();
      failed := false;
    }

    // run_seed_if_needed. Whether today's rates can be synced only decides on the last commit.
    method RunSeed(st: Startup, ratesSynced: bool)
      requires pending == NO_ROWS
      modifies this
      ensures Starts(old(db), st, db)
      ensures pending == NO_ROWS
    {
      commits := st.commits;
      ghost var picks: seq<nat> := [];
      if st.dummy.Some? && st.fake.Some? {
        ghost var m;
        m, picks := MapByNearestPrice(st.dummy.value, st.fake.value);
      }
      Steps(st, ratesSynced, picks);
      pending := NO_ROWS;  // the session is closed, or the process is gone
    }

    method Steps(st: Startup, ratesSynced: bool, ghost picks: seq<nat>)
      requires pending == NO_ROWS && commits == st.commits && MatchOf(st, picks)
      modifies this
      ensures db == AfterStartup(old(db), st, picks)
    {
      var alive := SeedDemoUser();
      if !alive { return; }
      if db.shops == [] {
        alive := SeedShops();
        if !alive { return; }
      }
      if db.products == [] {
        var failed;
        failed, alive := SeedProducts(st, picks);
        if !alive { return; }
      }
      if ratesSynced {
        PlusNothing(db);
        alive := Commit();
      }
    }
  }

  lemma PlusAssociative(a: Db, b: Db, c: Db)
    ensures Plus(Plus(a, b), c) == Plus(a, Plus(b, c))
  {}

  lemma PlusNothing(a: Db)
    ensures Plus(a, NO_ROWS) == a
  {}

  lemma SameMatch(st: Startup, p1: seq<nat>, p2: seq<nat>)
    requires MatchOf(st, p1) && MatchOf(st, p2)
    ensures p1 == p2
  {
    if st.dummy.Some? && st.fake.Some? {
      GreedyUnique(p1, p2, st.dummy.value, st.fake.value, |p1|);
      assert p1[..|p1|] == p1 && p2[..|p1|] == p2;
    }
  }
}

/** What holds over any series of starts. */
module SeedRuns {
  import opened Wrappers
  import opened Collections
  import Fetcher
  import opened Tables
  import opened Matcher
  import opened Seeding

  const DUMMYJSON_ID := 1
  const FAKESTORE_ID := 2

  function LinkCount(links: seq<Link>, product: int, shop: int): nat {
    if links == [] then 0
    else (if links[0].product == product && links[0].shop == shop then 1 else 0) + LinkCount(links[1..], product, shop)
  }

  lemma {:induction false} LinkCountConcat(a: seq<Link>, b: seq<Link>, product: int, shop: int)
    ensures LinkCount(a + b, product, shop) == LinkCount(a, product, shop) + LinkCount(b, product, shop)
  {
    if a == [] {
      assert a + b == b;
    } else {
      assert (a + b)[1..] == a[1..] + b;
      LinkCountConcat(a[1..], b, product, shop);
    }
  }

  // At most one demo user; no shops or both; every product has exactly one DummyJSON link and at
  // most one FakeStore link, and no other product is linked.
  ghost predicate Consistent(db: Db) {
    && multiset(db.users)[DEMO_USER_ID] <= 1
    && (db.shops == [] || db.shops == BOTH_SHOPS.shops)
    && (db.shops == [] ==> db.products == [])
    && Distinct(db.products)
    && forall p :: LinkedRight(db, p)
  }

  ghost predicate LinkedRight(db: Db, p: int) {
    && LinkCount(db.links, p, DUMMYJSON_ID) == (if p in db.products then 1 else 0)
    && LinkCount(db.links, p, FAKESTORE_ID) <= (if p in db.products then 1 else 0)
  }

  // The products are numbered in a row from the first id on.
  ghost predicate NumberedFrom(products: seq<int>, firstId: int) {
    forall i | 0 <= i < |products| :: products[i] == firstId + i
  }

  lemma {:induction false} ProductRowsAre(n: nat, dummy: seq<ShopProduct>, firstId: int)
    requires n <= |dummy|
    ensures var rows := ProductRows(n, dummy, firstId, DUMMYJSON_ID);
            && rows.users == [] && rows.shops == []
            && |rows.products| == n && NumberedFrom(rows.products, firstId)
            && forall p :: LinkCount(rows.links, p, DUMMYJSON_ID) == (if firstId <= p < firstId + n then 1 else 0)
                           && LinkCount(rows.links, p, FAKESTORE_ID) == 0
  {
    if n > 0 {
      ProductRowsAre(n - 1, dummy, firstId);
      var before := ProductRows(n - 1, dummy, firstId, DUMMYJSON_ID).links;
      var link := Link(n - 1, firstId + n - 1, DUMMYJSON_ID, dummy[n - 1].externalId);
      forall p
        ensures LinkCount(before + [link], p, DUMMYJSON_ID) == (if firstId <= p < firstId + n then 1 else 0)
        ensures LinkCount(before + [link], p, FAKESTORE_ID) == 0
      {
        LinkCountConcat(before, [link], p, DUMMYJSON_ID);
        LinkCountConcat(before, [link], p, FAKESTORE_ID);
      }
    }
  }

  lemma {:induction false} MatchRowsAre(n: nat, picks: seq<nat>, fake: seq<ShopProduct>, firstId: int, firstLink: nat)
    requires n <= |picks| && n <= |fake| && Distinct(picks)
    ensures var rows := MatchRows(n, picks, fake, firstId, FAKESTORE_ID, firstLink);
            && rows.users == [] && rows.shops == [] && rows.products == []
            && forall p :: LinkCount(rows.links, p, FAKESTORE_ID) == (if p - firstId in picks[..n] then 1 else 0)
                           && LinkCount(rows.links, p, DUMMYJSON_ID) == 0
  {
    if n > 0 {
      MatchRowsAre(n - 1, picks, fake, firstId, firstLink);
      var before := MatchRows(n - 1, picks, fake, firstId, FAKESTORE_ID, firstLink).links;
      var link := Link(firstLink + n - 1, firstId + picks[n - 1], FAKESTORE_ID, fake[n - 1].externalId);
      assert picks[..n] == picks[..n - 1] + [picks[n - 1]] && picks[n - 1] !in picks[..n - 1];
      forall p
        ensures LinkCount(before + [link], p, FAKESTORE_ID) == (if p - firstId in picks[..n] then 1 else 0)
        ensures LinkCount(before + [link], p, DUMMYJSON_ID) == 0
      {
        LinkCountConcat(before, [link], p, DUMMYJSON_ID);
        LinkCountConcat(before, [link], p, FAKESTORE_ID);
      }
    }
  }

  lemma ShopIds()
    ensures ShopId(BOTH_SHOPS.shops, DUMMYJSON_KEY) == Some(DUMMYJSON_ID)
    ensures ShopId(BOTH_SHOPS.shops, FAKESTORE_KEY) == Some(FAKESTORE_ID)
  {
    assert BOTH_SHOPS.shops[..1] == [BOTH_SHOPS.shops[0]];
  }

  lemma UserStep(db: Db)
    requires Consistent(db)
    ensures Consistent(AfterUser(db))
  {
    var db' := AfterUser(db);
    assert db'.links == db.links && db'.products == db.products && db'.shops == db.shops;
    forall p ensures LinkedRight(db', p) { assert LinkedRight(db, p); }
  }

  lemma ShopsStep(db: Db)
    requires Consistent(db)
    ensures Consistent(AfterShops(db)) && AfterShops(db).shops == BOTH_SHOPS.shops
  {
    var db' := AfterShops(db);
    assert db'.links == db.links && db'.products == db.products && db'.users == db.users;
    forall p ensures LinkedRight(db', p) { assert LinkedRight(db, p); }
  }

  // The rows of one seeding of an empty product table.
  lemma SeedRowsAre(dummy: seq<ShopProduct>, fake: seq<ShopProduct>, picks: seq<nat>, firstId: int, p: int)
    requires Greedy(picks, dummy, fake)
    ensures var rows := SeedRows(dummy, fake, picks, firstId, DUMMYJSON_ID, FAKESTORE_ID);
            && rows.users == [] && rows.shops == []
            && |rows.products| == |dummy| && NumberedFrom(rows.products, firstId)
            && LinkCount(rows.links, p, DUMMYJSON_ID) == (if firstId <= p < firstId + |dummy| then 1 else 0)
            && LinkCount(rows.links, p, FAKESTORE_ID) <= (if firstId <= p < firstId + |dummy| then 1 else 0)
  {
    var products := ProductRows(|dummy|, dummy, firstId, DUMMYJSON_ID);
    var matches := MatchRows(|picks|, picks, fake, firstId, FAKESTORE_ID, |dummy|);
    ProductRowsAre(|dummy|, dummy, firstId);
    MatchRowsAre(|picks|, picks, fake, firstId, |dummy|);
    LinkCountConcat(products.links, matches.links, p, DUMMYJSON_ID);
    LinkCountConcat(products.links, matches.links, p, FAKESTORE_ID);
    assert picks[..|picks|] == picks;
  }

  lemma NumberedHas(products: seq<int>, firstId: int, p: int)
    requires NumberedFrom(products, firstId)
    ensures p in products <==> firstId <= p < firstId + |products|
  {
    assert firstId <= p < firstId + |products| ==> products[p - firstId] == p;
  }

  lemma LinkedPlus(db: Db, rows: Db, firstId: int, p: int)
    requires db.products == [] && LinkedRight(db, p) && NumberedFrom(rows.products, firstId)
    requires LinkCount(rows.links, p, DUMMYJSON_ID) == if firstId <= p < firstId + |rows.products| then 1 else 0
    requires LinkCount(rows.links, p, FAKESTORE_ID) <= if firstId <= p < firstId + |rows.products| then 1 else 0
    ensures LinkedRight(Plus(db, rows), p)
  {
    LinkCountConcat(db.links, rows.links, p, DUMMYJSON_ID);
    LinkCountConcat(db.links, rows.links, p, FAKESTORE_ID);
    assert [] + rows.products == rows.products;
    NumberedHas(rows.products, firstId, p);
  }

  lemma ConsistentPlus(db: Db, rows: Db, firstId: int)
    requires Consistent(db) && db.shops == BOTH_SHOPS.shops && db.products == []
    requires rows.users == [] && rows.shops == [] && NumberedFrom(rows.products, firstId)
    requires forall p :: LinkedRight(Plus(db, rows), p)
    ensures Consistent(Plus(db, rows)) && Plus(db, rows).products == rows.products
  {
    var db' := Plus(db, rows);
    assert db'.products == rows.products && db'.users == db.users && db'.shops == db.shops;
  }

  lemma ProductsStep(db: Db, st: Startup, picks: seq<nat>)
    requires Consistent(db) && db.shops == BOTH_SHOPS.shops && MatchOf(st, picks)
    ensures Consistent(AfterProducts(db, st, picks))
    ensures db.products == [] && st.dummy.Some? && st.fake.Some? ==>
              |AfterProducts(db, st, picks).products| == |st.dummy.value|
  {
    if db.products == [] && st.dummy.Some? && st.fake.Some? {
      var dummy, fake := st.dummy.value, st.fake.value;
      var rows := SeedRows(dummy, fake, picks, st.firstId, DUMMYJSON_ID, FAKESTORE_ID);
      ShopIds();
      assert AfterProducts(db, st, picks) == Plus(db, rows);
      SeedRowsAre(dummy, fake, picks, st.firstId, 0);
      forall p ensures LinkedRight(Plus(db, rows), p) { LinkedAfter(db, dummy, fake, picks, st.firstId, p); }
      ConsistentPlus(db, rows, st.firstId);
    }
  }

  lemma LinkedAfter(db: Db, dummy: seq<ShopProduct>, fake: seq<ShopProduct>, picks: seq<nat>, firstId: int, p: int)
    requires Greedy(picks, dummy, fake) && db.products == [] && LinkedRight(db, p)
    ensures LinkedRight(Plus(db, SeedRows(dummy, fake, picks, firstId, DUMMYJSON_ID, FAKESTORE_ID)), p)
  {
    SeedRowsAre(dummy, fake, picks, firstId, p);
    LinkedPlus(db, SeedRows(dummy, fake, picks, firstId, DUMMYJSON_ID, FAKESTORE_ID), firstId, p);
  }

  lemma {:induction false} ProductLinkAt(n: nat, dummy: seq<ShopProduct>, firstId: int, shop: int, i: nat)
    requires i < n <= |dummy|
    ensures var links := ProductRows(n, dummy, firstId, shop).links;
            |links| == n && links[i] == Link(i, firstId + i, shop, dummy[i].externalId)
  {
    if i < n - 1 {
      ProductLinkAt(n - 1, dummy, firstId, shop, i);
    } else {
      ProductLinkCount(n - 1, dummy, firstId, shop);
    }
  }

  lemma {:induction false} ProductLinkCount(n: nat, dummy: seq<ShopProduct>, firstId: int, shop: int)
    requires n <= |dummy|
    ensures |ProductRows(n, dummy, firstId, shop).links| == n
  {
    if n > 0 { ProductLinkCount(n - 1, dummy, firstId, shop); }
  }

  lemma {:induction false} MatchLinkIn(n: nat, picks: seq<nat>, fake: seq<ShopProduct>, firstId: int, shop: int,
                                       firstLink: nat, j: nat)
    requires j < n <= |picks| && n <= |fake|
    ensures Link(firstLink + j, firstId + picks[j], shop, fake[j].externalId)
            in MatchRows(n, picks, fake, firstId, shop, firstLink).links
  {
    if j < n - 1 { MatchLinkIn(n - 1, picks, fake, firstId, shop, firstLink, j); }
  }

  ghost predicate Linked(db: Db, product: int, shop: int, externalId: string) {
    exists l | l in db.links :: l.product == product && l.shop == shop && l.externalId == externalId
  }

  // The rows of a seeding link every product to its DummyJSON entry.
  lemma SeededProductLinked(dummy: seq<ShopProduct>, fake: seq<ShopProduct>, picks: seq<nat>, firstId: int, i: nat)
    requires |picks| <= |fake| && i < |dummy|
    ensures var rows := SeedRows(dummy, fake, picks, firstId, DUMMYJSON_ID, FAKESTORE_ID);
            Linked(rows, firstId + i, DUMMYJSON_ID, dummy[i].externalId)
  {
    ProductLinkAt(|dummy|, dummy, firstId, DUMMYJSON_ID, i);
    var links := ProductRows(|dummy|, dummy, firstId, DUMMYJSON_ID).links;
    assert links[i] in links;
  }

  // They link the product of each matched position to the FakeStore entry matched with it.
  lemma SeededMatchLinked(dummy: seq<ShopProduct>, fake: seq<ShopProduct>, picks: seq<nat>, firstId: int, j: nat)
    requires j < |picks| <= |fake|
    ensures var rows := SeedRows(dummy, fake, picks, firstId, DUMMYJSON_ID, FAKESTORE_ID);
            Linked(rows, firstId + picks[j], FAKESTORE_ID, fake[j].externalId)
  {
    MatchLinkIn(|picks|, picks, fake, firstId, FAKESTORE_ID, |dummy|, j);
  }

  // What a start with a given match leaves behind.
  lemma StartEndsAt(db: Db, st: Startup, picks: seq<nat>)
    requires MatchOf(st, picks)
    ensures var db', u := AfterStartup(db, st, picks), AfterUser(db);
            db' == db || db' == u || db' == AfterShops(u) || db' == AfterProducts(AfterShops(u), st, picks)
  {}

  // A step that was already done is not done again.
  ghost predicate Untouched(db: Db, db': Db) {
    && (DEMO_USER_ID in db.users ==> db'.users == db.users)
    && (db.shops != [] ==> db'.shops == db.shops)
    && (db.products != [] ==> db'.products == db.products && db'.links == db.links)
  }

  lemma StepsUntouched(db: Db, st: Startup, picks: seq<nat>)
    requires MatchOf(st, picks)
    ensures Untouched(db, AfterUser(db)) && Untouched(db, AfterShops(AfterUser(db)))
    ensures Untouched(db, AfterProducts(AfterShops(AfterUser(db)), st, picks))
  {
    var u := AfterShops(AfterUser(db));
    assert AfterUser(db).shops == db.shops && AfterUser(db).products == db.products && AfterUser(db).links == db.links;
    assert u.products == db.products && u.links == db.links;
    if db.products == [] && AfterProducts(u, st, picks) != u {
      ProductRowsTables(|st.dummy.value|, st.dummy.value, st.firstId, ShopId(u.shops, DUMMYJSON_KEY).value);
      MatchRowsTables(|picks|, picks, st.fake.value, st.firstId, ShopId(u.shops, FAKESTORE_KEY).value,
                      |st.dummy.value|);
    }
  }

  lemma {:induction false} ProductRowsTables(n: nat, dummy: seq<ShopProduct>, firstId: int, shop: int)
    requires n <= |dummy|
    ensures ProductRows(n, dummy, firstId, shop).users == [] && ProductRows(n, dummy, firstId, shop).shops == []
  {
    if n > 0 { ProductRowsTables(n - 1, dummy, firstId, shop); }
  }

  lemma {:induction false} MatchRowsTables(n: nat, picks: seq<nat>, fake: seq<ShopProduct>, firstId: int, shop: int,
                                           firstLink: nat)
    requires n <= |picks| && n <= |fake|
    ensures MatchRows(n, picks, fake, firstId, shop, firstLink).users == []
    ensures MatchRows(n, picks, fake, firstId, shop, firstLink).shops == []
  {
    if n > 0 { MatchRowsTables(n - 1, picks, fake, firstId, shop, firstLink); }
  }

  // One start, with any failure and any crash, keeps the database consistent and never changes a
  // step that was already done.
  lemma StartKeeps(db: Db, st: Startup, db': Db)
    requires Consistent(db) && Starts(db, st, db')
    ensures Consistent(db') && Untouched(db, db')
  {
    var picks :| MatchOf(st, picks) && db' == AfterStartup(db, st, picks);
    UserStep(db);
    ShopsStep(AfterUser(db));
    ProductsStep(AfterShops(AfterUser(db)), st, picks);
    StepsUntouched(db, st, picks);
    StartEndsAt(db, st, picks);
  }

  // A start whose fetches succeed and that lives long enough completes the seed, whatever crashed before.
  lemma StartCompletes(db: Db, st: Startup, db': Db)
    requires Consistent(db) && Starts(db, st, db')
    requires st.dummy.Some? && st.dummy.value != [] && st.fake.Some? && st.commits >= 3
    ensures DEMO_USER_ID in db'.users && db'.shops == BOTH_SHOPS.shops && db'.products != []
  {
    var picks :| MatchOf(st, picks) && db' == AfterStartup(db, st, picks);
    UserStep(db);
    ShopsStep(AfterUser(db));
    ProductsStep(AfterShops(AfterUser(db)), st, picks);
    assert db' == AfterProducts(AfterShops(AfterUser(db)), st, picks);
  }

  // Every seeded shop is active and has an adapter, so price collection fetches it.
  lemma SeededShopsFetched(s: Shop, outcome: Fetcher.Outcome)
    requires s in BOTH_SHOPS.shops
    ensures s in Fetcher.Active(BOTH_SHOPS.shops) && (Fetcher.Raises(s, outcome) <==> outcome.Fails?)
  {
    Fetcher.InActive(BOTH_SHOPS.shops, s);
  }

  // The id that the shops' dict gives for a key is that of the last shop with the key.
  lemma {:induction false} ShopIdIs(shops: seq<Shop>, key: string)
    ensures ShopId(shops, key).None? <==> forall s | s in shops :: s.adapterKey != Some(key)
    ensures ShopId(shops, key).Some? ==>
              exists i | 0 <= i < |shops| :: shops[i].adapterKey == Some(key) && shops[i].id == ShopId(shops, key).value
                                             && forall j | i < j < |shops| :: shops[j].adapterKey != Some(key)
  {
    if shops != [] {
      var n := |shops| - 1;
      assert shops == shops[..n] + [shops[n]];
      ShopIdIs(shops[..n], key);
      if shops[n].adapterKey != Some(key) && ShopId(shops, key).Some? {
        var i :| 0 <= i < n && shops[..n][i].adapterKey == Some(key) && shops[..n][i].id == ShopId(shops, key).value
                 && forall j | i < j < n :: shops[..n][j].adapterKey != Some(key);
        assert shops[i].adapterKey == Some(key) && shops[i].id == ShopId(shops, key).value;
        assert forall j | i < j < n :: shops[j] == shops[..n][j];
      }
    }
  }

  // How far a start gets: the user takes the first commit it needs, the shops the next, and the products the
  // one after, if both fetches work.
  lemma StartGetsTo(db: Db, st: Startup, db': Db)
    requires Consistent(db) && Starts(db, st, db')
    ensures DEMO_USER_ID in db'.users <==> DEMO_USER_ID in db.users || st.commits >= 1
    ensures db'.shops == BOTH_SHOPS.shops
       <==> db.shops == BOTH_SHOPS.shops || st.commits >= (if DEMO_USER_ID in db.users then 1 else 2)
    ensures db.products == [] && db'.products != [] ==>
              && st.dummy.Some? && st.fake.Some? && st.dummy.value != []
              && st.commits >= (if DEMO_USER_ID in db.users then 1 else 2) + (if db.shops == [] then 1 else 0)
  {
    var picks :| MatchOf(st, picks) && db' == AfterStartup(db, st, picks);
    UserStep(db);
    ShopsStep(AfterUser(db));
    NothingToSeed(AfterShops(AfterUser(db)), st, picks);
    FirstSteps(db);
  }

  // The first two steps bring the user and the shops and leave the products alone.
  lemma FirstSteps(db: Db)
    ensures DEMO_USER_ID in AfterUser(db).users && AfterUser(db).shops == db.shops
    ensures AfterUser(db).products == db.products && AfterShops(AfterUser(db)).products == db.products
    ensures AfterShops(AfterUser(db)).users == AfterUser(db).users
  {
    assert AfterShops(AfterUser(db)).users == AfterUser(db).users;
  }

  lemma NothingToSeed(db: Db, st: Startup, picks: seq<nat>)
    requires Consistent(db) && db.shops == BOTH_SHOPS.shops && MatchOf(st, picks)
    ensures AfterProducts(db, st, picks).users == db.users && AfterProducts(db, st, picks).shops == db.shops
    ensures db.products == [] && AfterProducts(db, st, picks).products != [] ==>
              st.dummy.Some? && st.fake.Some? && st.dummy.value != []
  {
    if db.products == [] && st.dummy.Some? && st.fake.Some? {
      ShopIds();
      SeedRowsAre(st.dummy.value, st.fake.value, picks, st.firstId, 0);
    }
  }

  // A start whose fetches fail keeps the user and the shops it has committed, and adds no product or link.
  lemma FailedFetchKeepsRest(db: Db, st: Startup, db': Db)
    requires Consistent(db) && Starts(db, st, db') && (st.dummy.None? || st.fake.None?)
    ensures db'.products == db.products && db'.links == db.links
    ensures st.commits >= 2 ==> DEMO_USER_ID in db'.users && db'.shops == BOTH_SHOPS.shops
  {
    StartGetsTo(db, st, db');
    var picks :| MatchOf(st, picks) && db' == AfterStartup(db, st, picks);
    assert AfterShops(AfterUser(db)).products == db.products && AfterShops(AfterUser(db)).links == db.links;
    assert AfterUser(db).products == db.products && AfterUser(db).links == db.links;
  }

  // The databases before and after each start of a series.
  ghost predicate History(dbs: seq<Db>, starts: seq<Startup>) {
    && |dbs| == |starts| + 1
    && forall i | 0 <= i < |starts| :: Starts(dbs[i], starts[i], dbs[i + 1])
  }

  lemma {:induction false} RunsConsistent(dbs: seq<Db>, starts: seq<Startup>, n: nat)
    requires History(dbs, starts) && Consistent(dbs[0]) && n < |dbs|
    ensures Consistent(dbs[n])
  {
    if n > 0 {
      RunsConsistent(dbs, starts, n - 1);
      assert Starts(dbs[n - 1], starts[n - 1], dbs[n]);
      StartKeeps(dbs[n - 1], starts[n - 1], dbs[n]);
    }
  }

  // Once there are products, no later start changes products or links.
  lemma {:induction false} ProductsFinal(dbs: seq<Db>, starts: seq<Startup>, i: nat, n: nat)
    requires History(dbs, starts) && Consistent(dbs[0]) && i <= n < |dbs| && dbs[i].products != []
    ensures dbs[n].products == dbs[i].products && dbs[n].links == dbs[i].links
  {
    if i < n {
      ProductsFinal(dbs, starts, i, n - 1);
      assert Untouched(dbs[n - 1], dbs[n]) by {
        RunsConsistent(dbs, starts, n - 1);
        assert Starts(dbs[n - 1], starts[n - 1], dbs[n]);
        StartKeeps(dbs[n - 1], starts[n - 1], dbs[n]);
      }
    }
  }
}
