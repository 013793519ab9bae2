/** Price alerts: the query that finds fired ones, the check that mails and deactivates them, and
    what holds over whole runs of prices, new and deleted alerts, checks and failing mail. */
module Alerts {
  import opened Wrappers
  import opened Money
  import RateStore
  import opened Conversions
  import opened CurrencyServices
  import opened Tables
  import opened Cards

  datatype User = User(id: int, email: string)

  datatype Alert = Alert(id: int, user: int, product: int, threshold: Option<int>, currency: Currency,
                         active: bool, triggeredAt: Option<int>)

  datatype Triggered = Triggered(id: int, email: string, title: string, threshold: int,
                                 currency: Currency, minPrice: int)

  datatype Catalog = Catalog(users: seq<User>, products: seq<Product>, links: seq<Link>, history: seq<PriceRow>)

  /***** list_triggered *****/

  // The grouped subquery: the smallest latest price over the product's shops, if any has one.
  function MinPrice(c: Catalog, product: int): Option<int> {
    MinOf(Prices(OuterJoin(LinksOf(c.links, product), LatestPrices(c.history, None))))
  }

  predicate Qualifies(c: Catalog, a: Alert) {
    && a.active && a.threshold.Some?
    && MinPrice(c, a.product).Some? && MinPrice(c, a.product).value <= a.threshold.value
  }

  function JoinProducts(a: Alert, u: User, minPrice: int, products: seq<Product>): seq<Triggered>
    requires a.threshold.Some?
  {
    if products == [] then []
    else
      (if products[0].id == a.product
       then [Triggered(a.id, u.email, products[0].title, a.threshold.value, a.currency, minPrice)] else [])
      + JoinProducts(a, u, minPrice, products[1..])
  }

  function JoinUsers(a: Alert, minPrice: int, users: seq<User>, products: seq<Product>): seq<Triggered>
    requires a.threshold.Some?
  {
    if users == [] then []
    else
      (if users[0].id == a.user then JoinProducts(a, users[0], minPrice, products) else [])
      + JoinUsers(a, minPrice, users[1..], products)
  }

  // price_alerts JOIN users JOIN products JOIN min_price WHERE is_active AND min_price <= threshold
  function ListTriggered(c: Catalog, alerts: seq<Alert>): seq<Triggered> {
    if alerts == [] then []
    else
      (if Qualifies(c, alerts[0])
       then JoinUsers(alerts[0], MinPrice(c, alerts[0].product).value, c.users, c.products) else [])
      + ListTriggered(c, alerts[1..])
  }

  // Primary keys, and the foreign keys from an alert to its user and product.
  ghost predicate Keyed(c: Catalog) {
    && UniqueProducts(c.products) && UniqueRows(c.history)
    && forall i, j | 0 <= i < j < |c.users| :: c.users[i].id != c.users[j].id
  }

  ghost predicate Owned(c: Catalog, a: Alert) {
    && (exists u | u in c.users :: u.id == a.user)
    && (exists p | p in c.products :: p.id == a.product)
  }

  lemma {:induction false} JoinProductsOnce(a: Alert, u: User, minPrice: int, products: seq<Product>)
    requires a.threshold.Some? && UniqueProducts(products)
    ensures (forall p | p in products :: p.id != a.product) ==> JoinProducts(a, u, minPrice, products) == []
    ensures forall p | p in products && p.id == a.product ::
              JoinProducts(a, u, minPrice, products)
              == [Triggered(a.id, u.email, p.title, a.threshold.value, a.currency, minPrice)]
  {
    if products != [] {
      assert products == [products[0]] + products[1..];
      JoinProductsOnce(a, u, minPrice, products[1..]);
      if products[0].id == a.product { assert forall p | p in products[1..] :: p.id != a.product; }
    }
  }

  lemma {:induction false} JoinUsersOnce(a: Alert, minPrice: int, users: seq<User>, products: seq<Product>)
    requires a.threshold.Some? && UniqueProducts(products)
    requires forall i, j | 0 <= i < j < |users| :: users[i].id != users[j].id
    ensures (forall u | u in users :: u.id != a.user) ==> JoinUsers(a, minPrice, users, products) == []
    ensures forall u, p | u in users && u.id == a.user && p in products && p.id == a.product ::
              JoinUsers(a, minPrice, users, products)
              == [Triggered(a.id, u.email, p.title, a.threshold.value, a.currency, minPrice)]
  {
    if users != [] {
      assert users == [users[0]] + users[1..];
      JoinUsersOnce(a, minPrice, users[1..], products);
      JoinProductsOnce(a, users[0], minPrice, products);
      if users[0].id == a.user { assert forall u | u in users[1..] :: u.id != a.user; }
    }
  }

  function Qualifying(c: Catalog, alerts: seq<Alert>): seq<int> {
    if alerts == [] then []
    else (if Qualifies(c, alerts[0]) then [alerts[0].id] else []) + Qualifying(c, alerts[1..])
  }

  function Ids(rows: seq<Triggered>): seq<int> {
    if rows == [] then [] else [rows[0].id] + Ids(rows[1..])
  }

  // The joins neither drop nor repeat an alert: the query's rows are the qualifying active alerts.
  lemma {:induction false} TriggeredOnce(c: Catalog, alerts: seq<Alert>)
    requires Keyed(c) && forall a | a in alerts :: Owned(c, a)
    ensures Ids(ListTriggered(c, alerts)) == Qualifying(c, alerts)
  {
    if alerts != [] {
      var a, rest := alerts[0], alerts[1..];
      assert alerts == [a] + rest;
      assert a in alerts && forall x | x in rest :: x in alerts;
      TriggeredOnce(c, rest);
      if Qualifies(c, a) {
        var u :| u in c.users && u.id == a.user;
        var p :| p in c.products && p.id == a.product;
        JoinUsersOnce(a, MinPrice(c, a.product).value, c.users, c.products);
        var row := Triggered(a.id, u.email, p.title, a.threshold.value, a.currency, MinPrice(c, a.product).value);
        assert ListTriggered(c, alerts) == [row] + ListTriggered(c, rest);
        assert ([row] + ListTriggered(c, rest))[1..] == ListTriggered(c, rest);
      } else {
        assert ListTriggered(c, alerts) == ListTriggered(c, rest);
        assert Qualifying(c, alerts) == Qualifying(c, rest);
      }
    }
  }

  // Every row carries the mail address of the alert's owner and the title of its product.
  lemma {:induction false} TriggeredRows(c: Catalog, alerts: seq<Alert>, row: Triggered)
    requires Keyed(c) && (forall a | a in alerts :: Owned(c, a)) && row in ListTriggered(c, alerts)
    ensures exists a, u, p | a in alerts && u in c.users && p in c.products :: RowOf(c, row, a, u, p)
  {
    var a, rest := alerts[0], alerts[1..];
    assert alerts == [a] + rest;
    assert a in alerts && forall x | x in rest :: x in alerts;
    if row in ListTriggered(c, rest) {
      TriggeredRows(c, rest, row);
    } else {
      var u :| u in c.users && u.id == a.user;
      var p :| p in c.products && p.id == a.product;
      JoinUsersOnce(a, MinPrice(c, a.product).value, c.users, c.products);
      assert RowOf(c, row, a, u, p);
    }
  }

  ghost predicate RowOf(c: Catalog, row: Triggered, a: Alert, u: User, p: Product) {
    && Qualifies(c, a) && u.id == a.user && p.id == a.product
    && row == Triggered(a.id, u.email, p.title, a.threshold.value, a.currency, MinPrice(c, a.product).value)
  }

  // r is the newest price of one of the product's shops.
  ghost predicate NewestOf(c: Catalog, product: int, r: PriceRow) {
    && r in c.history && (exists l | l in c.links :: l.product == product && l.id == r.ps)
    && forall x | x in c.history :: !Precedes(x, r)
  }

  // It lies in the period as well.
  ghost predicate NewestIn(c: Catalog, product: int, since: Option<int>, r: PriceRow) {
    NewestOf(c, product, r) && (since.None? || since.value <= r.at)
  }

  ghost predicate HasPrice(c: Catalog, product: int, since: Option<int>, v: int) {
    exists r :: NewestIn(c, product, since, r) && r.price == v
  }

  // The prices that the product's shops are joined with: their newest ones that lie in the period.
  lemma InShopPrices(c: Catalog, product: int, since: Option<int>, v: int)
    ensures v in Prices(OuterJoin(LinksOf(c.links, product), LatestPrices(c.history, since)))
       <==> HasPrice(c, product, since, v)
  {
    var latest, links := LatestPrices(c.history, since), LinksOf(c.links, product);
    InOuterJoin(links, latest, v);
    forall l ensures l in links <==> l in c.links && l.product == product { InLinksOf(c.links, product, l); }
    forall r ensures r in latest <==> && r in c.history && (since.None? || since.value <= r.at)
                                      && forall x | x in c.history :: !Precedes(x, r) {
      LatestIsNewest(c.history, since, r);
    }
    if l, r :| l in links && r in latest && r.ps == l.id && r.price == v {
      assert NewestIn(c, product, since, r);
    }
    if r :| NewestIn(c, product, since, r) && r.price == v {
      var l :| l in c.links && l.product == product && l.id == r.ps;
      assert l in links && r in latest;
    }
  }

  // The minimum the query compares is the least of the newest prices of the product's shops, of
  // whatever age, and is missing exactly when no shop has ever had a price.
  lemma MinPriceIff(c: Catalog, product: int, m: int)
    ensures MinPrice(c, product) == Some(m)
       <==> HasPrice(c, product, None, m) && forall v | HasPrice(c, product, None, v) :: m <= v
    ensures MinPrice(c, product).None? <==> forall v :: !HasPrice(c, product, None, v)
  {
    var prices := Prices(OuterJoin(LinksOf(c.links, product), LatestPrices(c.history, None)));
    forall v ensures v in prices <==> HasPrice(c, product, None, v) { InShopPrices(c, product, None, v); }
    if prices != [] {
      MinMaxAre(prices);
      assert prices[0] in prices;
    }
  }

  /***** check_alerts *****/

  // UPDATE price_alerts SET is_active = false, triggered_at = now WHERE id = ...
  function Deactivated(alerts: seq<Alert>, id: int, now: int): seq<Alert> {
    if alerts == [] then []
    else
      [if alerts[0].id == id then alerts[0].(active := false, triggeredAt := Some(now)) else alerts[0]]
      + Deactivated(alerts[1..], id, now)
  }

  datatype Progress = Progress(alerts: seq<Alert>, mailed: seq<int>, sent: nat)

  // Body of the loop: a mail that fails leaves its alert as it is.
  function Turn(p: Progress, id: int, send: int -> bool, now: int): Progress {
    if send(id) then Progress(Deactivated(p.alerts, id, now), p.mailed + [id], p.sent + 1) else p
  }

  function Turns(p: Progress, ids: seq<int>, send: int -> bool, now: int): Progress
    decreases |ids|
  {
    if ids == [] then p else Turns(Turn(p, ids[0], send, now), ids[1..], send, now)
  }

  // The alerts a check mails, in order.
  function Delivered(ids: seq<int>, send: int -> bool): seq<int> {
    if ids == [] then [] else (if send(ids[0]) then [ids[0]] else []) + Delivered(ids[1..], send)
  }

  function Fire(a: Alert, now: int): Alert { a.(active := false, triggeredAt := Some(now)) }

  lemma {:induction false} DeactivatedAt(alerts: seq<Alert>, id: int, now: int)
    ensures |Deactivated(alerts, id, now)| == |alerts|
    ensures forall i | 0 <= i < |alerts| ::
              Deactivated(alerts, id, now)[i] == if alerts[i].id == id then Fire(alerts[i], now) else alerts[i]
  {
    if alerts != [] { DeactivatedAt(alerts[1..], id, now); }
  }

  lemma {:induction false} InDelivered(ids: seq<int>, send: int -> bool, id: int)
    ensures id in Delivered(ids, send) <==> id in ids && send(id)
  {
    if ids != [] {
      assert ids == [ids[0]] + ids[1..];
      InDelivered(ids[1..], send, id);
    }
  }

  // The loop deactivates exactly the alerts whose mail went out, logs them and counts them.
  lemma {:induction false} TurnsAre(p: Progress, ids: seq<int>, send: int -> bool, now: int)
    ensures var q := Turns(p, ids, send, now);
            && q.mailed == p.mailed + Delivered(ids, send) && q.sent == p.sent + |Delivered(ids, send)|
            && |q.alerts| == |p.alerts|
            && forall i | 0 <= i < |p.alerts| ::
                 q.alerts[i] == if p.alerts[i].id in Delivered(ids, send) then Fire(p.alerts[i], now) else p.alerts[i]
    decreases |ids|
  {
    if ids != [] {
      var next := Turn(p, ids[0], send, now);
      DeactivatedAt(p.alerts, ids[0], now);
      TurnsAre(next, ids[1..], send, now);
      assert p.mailed + Delivered(ids, send) == next.mailed + Delivered(ids[1..], send);
    } else {
      assert p.mailed + Delivered(ids, send) == p.mailed;
    }
  }

  /***** The whole state, and what each operation makes of it *****/

  datatype Db = Db(
    catalog: Catalog,
    alerts: seq<Alert>,
    mailed: seq<int>,  // ids of the alerts whose mail went out, over the whole run
    created: set<int>  // every alert id ever given out
  )

  function AddPrice(db: Db, ps: int, price: int, at: int): Db {
    var rows := db.catalog.history;
    db.(catalog := db.catalog.(history := rows + [NewRow(rows, ps, price, at)]))
  }

  predicate KnownUser(users: seq<User>, id: int) { exists u | u in users :: u.id == id }

  // The row of create_alert; thresholdUsd is None when a rate is not available. The id is fresh, the
  // product must exist, and the user by foreign key: otherwise no row is added.
  predicate CanCreate(db: Db, id: int, user: int, product: int, thresholdUsd: Option<int>) {
    && Has(db.catalog.products, product) && thresholdUsd.Some?
    && KnownUser(db.catalog.users, user) && id !in db.created
  }

  function Create(db: Db, id: int, user: int, product: int, thresholdUsd: Option<int>, currency: Currency): Db {
    if CanCreate(db, id, user, product, thresholdUsd)
    then db.(alerts := db.alerts + [Alert(id, user, product, thresholdUsd, currency, true, None)],
             created := db.created + {id})
    else db
  }

  // create_alert with a threshold typed in the currency: the product is looked up first, then the
  // threshold is converted, and the row is added last.
  function CreateTyped(s: RateStore.Store, db: Db, id: int, user: int, product: int, t: int, currency: Currency,
                       nbu: RateStore.Nbu)
    : (RateStore.Store, Db)
  {
    if !Has(db.catalog.products, product) then (s, db)
    else
      var (s', thresholdUsd) := ToUsdOn(s, t, currency, nbu);
      (s', Create(db, id, user, product, thresholdUsd, currency))
  }

  // An alert is added exactly for a known product and user and a fresh id with both rates available, and an
  // unknown product ends the call before any rate is looked up.
  lemma CreatedIff(s: RateStore.Store, db: Db, id: int, user: int, product: int, t: int, currency: Currency,
                   nbu: RateStore.Nbu)
    ensures |CreateTyped(s, db, id, user, product, t, currency, nbu).1.alerts| > |db.alerts|
       <==> && (exists p | p in db.catalog.products :: p.id == product)
            && (exists u | u in db.catalog.users :: u.id == user)
            && id !in db.created && ToUsdOn(s, t, currency, nbu).1.Some?
    ensures (forall p | p in db.catalog.products :: p.id != product) ==>
              CreateTyped(s, db, id, user, product, t, currency, nbu) == (s, db)
  {}

  // DELETE FROM price_alerts WHERE id = ... AND user_id = ...
  function Without(alerts: seq<Alert>, id: int, user: int): seq<Alert> {
    if alerts == [] then []
    else (if alerts[0].id == id && alerts[0].user == user then [] else [alerts[0]]) + Without(alerts[1..], id, user)
  }

  function Delete(db: Db, id: int, user: int): Db { db.(alerts := Without(db.alerts, id, user)) }

  function CheckProgress(db: Db, send: int -> bool, now: int): Progress {
    Turns(Progress(db.alerts, db.mailed, 0), Ids(ListTriggered(db.catalog, db.alerts)), send, now)
  }

  function Check(db: Db, send: int -> bool, now: int): Db {
    var p := CheckProgress(db, send, now);
    db.(alerts := p.alerts, mailed := p.mailed)
  }

  class AlertService {
    var catalog: Catalog
    var alerts: seq<Alert>
    var mailed: seq<int>
    var created: set<int>

    function State(): Db
      reads this
    {
      Db(catalog, alerts, mailed, created)
    }

    constructor (catalog: Catalog)
      ensures State() == Db(catalog, [], [], {})
    {
      this.catalog := catalog;
      alerts, mailed, created := [], [], {};
    }

    method CreateAlert(service: CurrencyService, id: int, user: int, product: int, threshold: int,
                       currency: Currency, nbu: RateStore.Nbu)
      returns (ok: bool)
      modifies this`alerts, this`created, service`db, service`cache, service`requests
      ensures (service.State(), State())
           == CreateTyped(old(service.State()), old(State()), id, user, product, threshold, currency, nbu)
      ensures ok <==> |alerts| == |old(alerts)| + 1
      ensures ok <==> CanCreate(old(State()), id, user, product,
                                ToUsdOn(old(service.State()), threshold, currency, nbu).1)
    {
      if !Has(catalog.products, product) { return false; }
      var thresholdUsd := service.ToUsd(threshold, currency, nbu);
      if thresholdUsd.None? { return false; }
      if !KnownUser(catalog.users, user) || id in created { return false; }
      alerts := alerts + [Alert(id, user, product, thresholdUsd, currency, true, None)];
      created := created + {id};
      return true;
    }

    method DeleteAlert(user: int, id: int) returns (ok: bool)
      modifies this`alerts
      ensures State() == Delete(old(State()), id, user)
      ensures ok <==> |alerts| < |old(alerts)|
    {
      var kept := Without(alerts, id, user);
      ok := |kept| != |alerts|;
      WithoutIs(alerts, id, user);
      alerts := kept;
    }

    // AlertRepo.deactivate
    method Deactivate(id: int, now: int)
      modifies this`alerts
      ensures alerts == Deactivated(old(alerts), id, now)
    {
      alerts := Deactivated(alerts, id, now);
    }

    // send tells whether send_email returns for an alert or raises.
    method CheckAlerts(send: int -> bool, now: int) returns (sent: nat)
      modifies this`alerts, this`mailed
      ensures State() == Check(old(State()), send, now)
      ensures sent == CheckProgress(old(State()), send, now).sent
    {
      ghost var goal := CheckProgress(State(), send, now);
      var triggered := ListTriggered(catalog, alerts);
      sent := 0;
      for i := 0 to |triggered|
        invariant Turns(Progress(alerts, mailed, sent), Ids(triggered[i..]), send, now) == goal
      {
        var row := triggered[i];
        NextTurn(Progress(alerts, mailed, sent), triggered, i, send, now);
        if !send(row.id) { continue; }
        mailed := mailed + [row.id];
        Deactivate(row.id, now);
        sent := sent + 1;
      }
    }
  }

  lemma NextTurn(p: Progress, rows: seq<Triggered>, i: nat, send: int -> bool, now: int)
    requires i < |rows|
    ensures Turns(p, Ids(rows[i..]), send, now)
         == Turns(Turn(p, rows[i].id, send, now), Ids(rows[i + 1..]), send, now)
  {
    assert rows[i..][1..] == rows[i + 1..];
    assert Ids(rows[i..])[1..] == Ids(rows[i + 1..]);
  }

  lemma {:induction false} WithoutIs(alerts: seq<Alert>, id: int, user: int)
    ensures |Without(alerts, id, user)| <= |alerts|
    ensures forall a :: a in Without(alerts, id, user) <==> a in alerts && !(a.id == id && a.user == user)
  {
    if alerts != [] {
      assert alerts == [alerts[0]] + alerts[1..];
      WithoutIs(alerts[1..], id, user);
    }
  }
}

module AlertRuns {
  import opened Wrappers
  import opened Collections
  import opened Money
  import opened Alerts
  import RateStore
  import opened Conversions

  datatype Event =
    | NewPrice(ps: int, price: int, at: int)
    | NewAlert(id: int, user: int, product: int, thresholdUsd: Option<int>, currency: Currency)
    | RemoveAlert(id: int, user: int)
    | CheckRun(send: int -> bool, now: int)

  function Step(db: Db, e: Event): Db {
    match e
    case NewPrice(ps, price, at) => AddPrice(db, ps, price, at)
    case NewAlert(id, user, product, thresholdUsd, currency) => Create(db, id, user, product, thresholdUsd, currency)
    case RemoveAlert(id, user) => Delete(db, id, user)
    case CheckRun(send, now) => Check(db, send, now)
  }

  function Run(db: Db, es: seq<Event>): Db
    decreases |es|
  {
    if es == [] then db else Run(Step(db, es[0]), es[1..])
  }

  ghost predicate UniqueAlerts(alerts: seq<Alert>) {
    forall i, j | 0 <= i < j < |alerts| :: alerts[i].id != alerts[j].id
  }

  // An alert is inactive iff it carries the time it fired iff its mail went out.
  ghost predicate Consistent(db: Db, a: Alert) {
    && Owned(db.catalog, a) && a.id in db.created
    && (a.active <==> a.triggeredAt.None?)
    && (a.active <==> a.id !in db.mailed)
  }

  ghost predicate Valid(db: Db) {
    && Keyed(db.catalog) && UniqueAlerts(db.alerts)
    && (forall i | 0 <= i < |db.catalog.history| :: db.catalog.history[i].id == i)
    && (forall a | a in db.alerts :: Consistent(db, a))
    && Distinct(db.mailed) && forall id | id in db.mailed :: id in db.created
  }

  /***** One check *****/

  lemma {:induction false} QualifyingAre(c: Catalog, alerts: seq<Alert>)
    requires UniqueAlerts(alerts)
    ensures Distinct(Qualifying(c, alerts))
    ensures forall id :: id in Qualifying(c, alerts) <==> exists a | a in alerts :: a.id == id && Qualifies(c, a)
  {
    if alerts != [] {
      assert alerts == [alerts[0]] + alerts[1..];
      QualifyingAre(c, alerts[1..]);
      assert alerts[0] in alerts;
      assert forall a | a in alerts[1..] :: a.id != alerts[0].id;
      assert alerts[0].id !in Qualifying(c, alerts[1..]);
    }
  }

  lemma {:induction false} DeliveredDistinct(ids: seq<int>, send: int -> bool)
    requires Distinct(ids)
    ensures Distinct(Delivered(ids, send))
  {
    if ids != [] {
      DeliveredDistinct(ids[1..], send);
      InDelivered(ids[1..], send, ids[0]);
    }
  }

  // The alerts this check mails.
  function Fired(db: Db, send: int -> bool): seq<int> {
    Delivered(Qualifying(db.catalog, db.alerts), send)
  }

  lemma FiredIff(db: Db, send: int -> bool, i: nat)
    requires UniqueAlerts(db.alerts) && i < |db.alerts|
    ensures db.alerts[i].id in Fired(db, send) <==> Qualifies(db.catalog, db.alerts[i]) && send(db.alerts[i].id)
  {
    QualifyingAre(db.catalog, db.alerts);
    InDelivered(Qualifying(db.catalog, db.alerts), send, db.alerts[i].id);
  }

  lemma FiredIsNew(db: Db, send: int -> bool)
    requires Valid(db)
    ensures Distinct(Fired(db, send))
    ensures forall id | id in Fired(db, send) :: id !in db.mailed && id in db.created
  {
    var ids := Qualifying(db.catalog, db.alerts);
    QualifyingAre(db.catalog, db.alerts);
    DeliveredDistinct(ids, send);
    forall id | id in Fired(db, send) ensures id !in db.mailed && id in db.created {
      InDelivered(ids, send, id);
      var a :| a in db.alerts && a.id == id && Qualifies(db.catalog, a);
      assert Consistent(db, a);
    }
  }

  lemma DistinctConcat(a: seq<int>, b: seq<int>)
    requires Distinct(a) && Distinct(b) && forall x | x in b :: x !in a
    ensures Distinct(a + b)
  {
    assert forall i | 0 <= i < |b| :: b[i] in b;
  }

  lemma CheckMails(db: Db, send: int -> bool, now: int)
    requires Valid(db)
    ensures Check(db, send, now).mailed == db.mailed + Fired(db, send) && Distinct(Check(db, send, now).mailed)
    ensures CheckProgress(db, send, now).sent == |Fired(db, send)|
  {
    TriggeredOnce(db.catalog, db.alerts);
    TurnsAre(Progress(db.alerts, db.mailed, 0), Qualifying(db.catalog, db.alerts), send, now);
    FiredIsNew(db, send);
    DistinctConcat(db.mailed, Fired(db, send));
  }

  lemma CheckKeepsRows(db: Db, send: int -> bool, now: int)
    ensures |Check(db, send, now).alerts| == |db.alerts|
  {
    TurnsAre(Progress(db.alerts, db.mailed, 0), Ids(ListTriggered(db.catalog, db.alerts)), send, now);
  }

  lemma CheckWrites(db: Db, send: int -> bool, now: int, i: nat)
    requires Valid(db) && i < |db.alerts|
    ensures var db', a := Check(db, send, now), db.alerts[i];
            && |db'.alerts| == |db.alerts|
            && db'.alerts[i] == if Qualifies(db.catalog, a) && send(a.id) then Fire(a, now) else a
  {
    TriggeredOnce(db.catalog, db.alerts);
    TurnsAre(Progress(db.alerts, db.mailed, 0), Qualifying(db.catalog, db.alerts), send, now);
    FiredIff(db, send, i);
  }

  // A check mails exactly the qualifying alerts whose mail does not fail, each once, none of them
  // mailed before; it deactivates and stamps exactly those and leaves every other row as it was; and
  // it returns their number.
  lemma CheckIs(db: Db, send: int -> bool, now: int)
    requires Valid(db)
    ensures var db', fired := Check(db, send, now), Fired(db, send);
            && db'.mailed == db.mailed + fired && Distinct(db'.mailed)
            && CheckProgress(db, send, now).sent == |fired|
            && |db'.alerts| == |db.alerts|
            && forall i | 0 <= i < |db.alerts| :: var a := db.alerts[i];
                 && (a.id in fired <==> Qualifies(db.catalog, a) && send(a.id))
                 && db'.alerts[i] == if Qualifies(db.catalog, a) && send(a.id) then Fire(a, now) else a
  {
    CheckMails(db, send, now);
    CheckKeepsRows(db, send, now);
    forall i | 0 <= i < |db.alerts|
      ensures db.alerts[i].id in Fired(db, send) <==> Qualifies(db.catalog, db.alerts[i]) && send(db.alerts[i].id)
      ensures var a := db.alerts[i];
              Check(db, send, now).alerts[i]
              == if Qualifies(db.catalog, a) && send(a.id) then Fire(a, now) else a
    {
      FiredIff(db, send, i);
      CheckWrites(db, send, now, i);
    }
  }

  function ActiveCount(alerts: seq<Alert>): nat {
    if alerts == [] then 0 else (if alerts[0].active then 1 else 0) + ActiveCount(alerts[1..])
  }

  lemma {:induction false} CountFired(c: Catalog, before: seq<Alert>, after: seq<Alert>, send: int -> bool, now: int)
    requires |after| == |before|
    requires forall i | 0 <= i < |before| ::
               after[i] == if Qualifies(c, before[i]) && send(before[i].id) then Fire(before[i], now) else before[i]
    ensures ActiveCount(before) == ActiveCount(after) + |Delivered(Qualifying(c, before), send)|
  {
    if before != [] {
      CountFired(c, before[1..], after[1..], send, now);
      if Qualifies(c, before[0]) {
        assert ([before[0].id] + Qualifying(c, before[1..]))[1..] == Qualifying(c, before[1..]);
      } else {
        assert [] + Qualifying(c, before[1..]) == Qualifying(c, before[1..]);
      }
    }
  }

  // The number a check returns is the number of alerts it made inactive.
  lemma SentIsDeactivated(db: Db, send: int -> bool, now: int)
    requires Valid(db)
    ensures ActiveCount(db.alerts) == ActiveCount(Check(db, send, now).alerts) + CheckProgress(db, send, now).sent
  {
    CheckIs(db, send, now);
    CountFired(db.catalog, db.alerts, Check(db, send, now).alerts, send, now);
  }

  /***** Every run *****/

  lemma {:induction false} WithoutUnique(alerts: seq<Alert>, id: int, user: int)
    requires UniqueAlerts(alerts)
    ensures UniqueAlerts(Without(alerts, id, user))
  {
    if alerts != [] {
      WithoutUnique(alerts[1..], id, user);
      WithoutIs(alerts[1..], id, user);
      assert forall a | a in Without(alerts[1..], id, user) :: a.id != alerts[0].id;
    }
  }

  lemma CheckKeepsValid(db: Db, send: int -> bool, now: int)
    requires Valid(db)
    ensures Valid(Check(db, send, now))
  {
    CheckIs(db, send, now);
    var db', fired := Check(db, send, now), Fired(db, send);
    forall id | id in fired ensures id in db.created {
      InDelivered(Qualifying(db.catalog, db.alerts), send, id);
      QualifyingAre(db.catalog, db.alerts);
      var a :| a in db.alerts && a.id == id && Qualifies(db.catalog, a);
      assert Consistent(db, a);
    }
    forall i | 0 <= i < |db'.alerts| ensures Consistent(db', db'.alerts[i]) {
      assert Consistent(db, db.alerts[i]);
    }
  }

  lemma StepKeepsValid(db: Db, e: Event)
    requires Valid(db)
    ensures Valid(Step(db, e))
  {
    match e
    case NewPrice(ps, price, at) =>
      forall a | a in db.alerts ensures Consistent(Step(db, e), a) { assert Consistent(db, a); }
    case NewAlert(id, user, product, thresholdUsd, currency) =>
      forall a | a in Step(db, e).alerts ensures Consistent(Step(db, e), a) {
        assert a in db.alerts ==> Consistent(db, a);
      }
      assert forall i | 0 <= i < |db.alerts| :: db.alerts[i] in db.alerts && Consistent(db, db.alerts[i]);
    case RemoveAlert(id, user) =>
      WithoutUnique(db.alerts, id, user);
      WithoutIs(db.alerts, id, user);
    case CheckRun(send, now) => CheckKeepsValid(db, send, now);
  }

  lemma {:induction false} RunKeepsValid(db: Db, es: seq<Event>)
    requires Valid(db)
    ensures Valid(Run(db, es))
    decreases |es|
  {
    if es != [] {
      StepKeepsValid(db, es[0]);
      RunKeepsValid(Step(db, es[0]), es[1..]);
    }
  }

  // A run goes on with what the methods of the service make of the state it reached.
  lemma RunGoesOn(s: RateStore.Store, db: Db, es: seq<Event>, id: int, user: int, product: int, t: int,
                  currency: Currency, nbu: RateStore.Nbu, send: int -> bool, now: int)
    ensures var create := NewAlert(id, user, product, ToUsdOn(s, t, currency, nbu).1, currency);
            Run(db, es + [create]) == CreateTyped(s, Run(db, es), id, user, product, t, currency, nbu).1
    ensures Run(db, es + [RemoveAlert(id, user)]) == Delete(Run(db, es), id, user)
    ensures Run(db, es + [CheckRun(send, now)]) == Check(Run(db, es), send, now)
  {
    var create := NewAlert(id, user, product, ToUsdOn(s, t, currency, nbu).1, currency);
    RunAppends(db, es, create);
    RunAppends(db, es, RemoveAlert(id, user));
    RunAppends(db, es, CheckRun(send, now));
  }

  lemma {:induction false} RunAppends(db: Db, es: seq<Event>, e: Event)
    ensures Run(db, es + [e]) == Step(Run(db, es), e)
    decreases |es|
  {
    if es == [] {
      assert [e][1..] == [];
    } else {
      assert (es + [e])[1..] == es[1..] + [e];
      RunAppends(Step(db, es[0]), es[1..], e);
    }
  }

  // From a database without alerts, over any run: no alert is ever mailed twice, and each alert is
  // inactive iff it carries its firing time iff it was mailed.
  lemma MailedAtMostOnce(c: Catalog, es: seq<Event>)
    requires Keyed(c) && forall i | 0 <= i < |c.history| :: c.history[i].id == i
    ensures var db := Run(Db(c, [], [], {}), es);
            && Distinct(db.mailed)
            && forall a | a in db.alerts :: (!a.active <==> a.triggeredAt.Some?) && (!a.active <==> a.id in db.mailed)
  {
    var db0 := Db(c, [], [], {});
    RunKeepsValid(db0, es);
    var db := Run(db0, es);
    forall a | a in db.alerts ensures (!a.active <==> a.triggeredAt.Some?) && (!a.active <==> a.id in db.mailed) {
      assert Consistent(db, a);
    }
  }

  ghost predicate Settled(db: Db) {
    forall a | a in db.alerts :: !Qualifies(db.catalog, a)
  }

  ghost predicate NothingNew(es: seq<Event>) {
    forall i | 0 <= i < |es| :: es[i].RemoveAlert? || es[i].CheckRun?
  }

  lemma {:induction false} NoneQualifies(c: Catalog, alerts: seq<Alert>)
    requires forall a | a in alerts :: !Qualifies(c, a)
    ensures Qualifying(c, alerts) == []
  {
    if alerts != [] {
      assert alerts == [alerts[0]] + alerts[1..];
      assert alerts[0] in alerts && forall a | a in alerts[1..] :: a in alerts;
      NoneQualifies(c, alerts[1..]);
    }
  }

  lemma SettledSendsNothing(db: Db, send: int -> bool, now: int)
    requires Valid(db) && Settled(db)
    ensures CheckProgress(db, send, now).sent == 0 && Check(db, send, now) == db
  {
    CheckIs(db, send, now);
    NoneQualifies(db.catalog, db.alerts);
    assert Check(db, send, now).alerts == db.alerts;
  }

  lemma {:induction false} SettledStays(db: Db, es: seq<Event>)
    requires Valid(db) && Settled(db) && NothingNew(es)
    ensures Valid(Run(db, es)) && Settled(Run(db, es))
    decreases |es|
  {
    if es != [] {
      StepKeepsValid(db, es[0]);
      match es[0] {
        case RemoveAlert(id, user) => WithoutIs(db.alerts, id, user);
        case CheckRun(send, now) => SettledSendsNothing(db, send, now);
      }
      assert forall i | 0 <= i < |es[1..]| :: es[1..][i] == es[i + 1];
      SettledStays(Step(db, es[0]), es[1..]);
    }
  }

  // After a check in which no mail failed, and while no price and no alert is added, every further
  // check sends nothing.
  lemma QuietAfterSuccess(db: Db, send: int -> bool, now: int, es: seq<Event>, later: int -> bool, laterNow: int)
    requires Valid(db) && NothingNew(es)
    requires forall a | a in db.alerts && Qualifies(db.catalog, a) :: send(a.id)
    ensures CheckProgress(Run(Check(db, send, now), es), later, laterNow).sent == 0
  {
    CheckIs(db, send, now);
    CheckKeepsValid(db, send, now);
    SettledStays(Check(db, send, now), es);
    SettledSendsNothing(Run(Check(db, send, now), es), later, laterNow);
  }

  /***** The decision in the tables' own terms *****/

  // The alert is active, and some newest price of its product's shops is at most its threshold.
  ghost predicate Reached(c: Catalog, a: Alert) {
    && a.active && a.threshold.Some?
    && exists r :: NewestOf(c, a.product, r) && r.price <= a.threshold.value
  }

  lemma QualifiesIff(c: Catalog, a: Alert)
    ensures Qualifies(c, a) <==> Reached(c, a)
  {
    var least := MinPrice(c, a.product);
    MinPriceIff(c, a.product, if least.Some? then least.value else 0);
    if least.Some? {
      assert HasPrice(c, a.product, None, least.value);
      assert exists r :: NewestOf(c, a.product, r) && r.price == least.value;
    }
    forall r | NewestOf(c, a.product, r) ensures HasPrice(c, a.product, None, r.price) {
      assert NewestIn(c, a.product, None, r);
    }
  }

  // The query returns an alert exactly when some newest price reaches its threshold.
  lemma TriggeredIff(c: Catalog, alerts: seq<Alert>, a: Alert)
    requires Keyed(c) && UniqueAlerts(alerts) && (forall x | x in alerts :: Owned(c, x)) && a in alerts
    ensures (exists row | row in ListTriggered(c, alerts) :: row.id == a.id) <==> Reached(c, a)
  {
    TriggeredOnce(c, alerts);
    QualifyingAre(c, alerts);
    QualifiesIff(c, a);
    IdsHas(ListTriggered(c, alerts), a.id);
    assert forall x | x in alerts && x.id == a.id :: x == a;
  }

  lemma {:induction false} IdsHas(rows: seq<Triggered>, id: int)
    ensures id in Ids(rows) <==> exists row | row in rows :: row.id == id
  {
    if rows != [] {
      assert rows == [rows[0]] + rows[1..];
      IdsHas(rows[1..], id);
    }
  }

  // A check mails an alert for the first time exactly when its mail does not fail and some newest price
  // reaches its threshold. The alert is then inactive and stamped, and otherwise it is as it was.
  lemma MailedIff(db: Db, send: int -> bool, now: int, i: nat)
    requires Valid(db) && i < |db.alerts|
    ensures var db', a := Check(db, send, now), db.alerts[i];
            && (a.id in db'.mailed && a.id !in db.mailed <==> Reached(db.catalog, a) && send(a.id))
            && |db'.alerts| == |db.alerts|
            && db'.alerts[i] == if Reached(db.catalog, a) && send(a.id)
                                then Alert(a.id, a.user, a.product, a.threshold, a.currency, false, Some(now)) else a
  {
    var a := db.alerts[i];
    CheckIs(db, send, now);
    QualifiesIff(db.catalog, a);
    FiredIsNew(db, send);
  }

  // Once a shop has a newer price, an alert on its product is reached exactly if that price is at most the
  // threshold or the newest price of another of the product's shops is: the shop's older prices are out.
  lemma NewPriceReaches(db: Db, ps: int, price: int, at: int, a: Alert)
    requires Valid(db) && a.active && a.threshold.Some?
    requires exists l | l in db.catalog.links :: l.product == a.product && l.id == ps
    requires forall x | x in db.catalog.history && x.ps == ps :: x.at < at
    ensures Reached(Step(db, NewPrice(ps, price, at)).catalog, a)
       <==> price <= a.threshold.value
            || exists r :: NewestOf(db.catalog, a.product, r) && r.ps != ps && r.price <= a.threshold.value
  {
    var c, c' := db.catalog, Step(db, NewPrice(ps, price, at)).catalog;
    var row := c'.history[|c.history|];
    assert c'.history == c.history + [row];
    forall r ensures NewestOf(c', a.product, r) <==> r == row || (NewestOf(c, a.product, r) && r.ps != ps) {
      assert row in c'.history && forall x | x in c.history :: x in c'.history;
      assert forall x | x in c'.history :: x in c.history || x == row;
    }
  }
}
