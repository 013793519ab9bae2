/** The alert's decision against the product's card. The alert compares the least newest price of any age,
    the card shows the least newest price of today, in the currency at the rates of the day. */
module AlertDisplay {
  import opened Wrappers
  import opened Money
  import opened RateStore
  import opened Conversions
  import opened PageRates
  import opened HeldRates
  import opened Tables
  import opened Cards
  import opened ProductPages
  import opened Alerts
  import RateRuns
  import AlertRuns

  /***** The two minima *****/

  function CardOn(c: Catalog, product: int, since: int): Option<Card> {
    GetDetail(c.products, c.links, c.history, product, since)
  }

  // The minimum of the product's card, in USD.
  function CardMin(c: Catalog, product: int, since: int): Option<int> {
    if CardOn(c, product, since).Some? then CardOn(c, product, since).value.priceMin else None
  }

  // The card's minimum is the least newest price that is of today: a shop whose newest price is older
  // drops out of the card, but not out of the alert.
  lemma CardMinIff(c: Catalog, product: int, since: int, m: int)
    requires UniqueProducts(c.products)
    ensures CardMin(c, product, since) == Some(m) <==> && Has(c.products, product)
                                                       && HasPrice(c, product, Some(since), m)
                                                       && forall v | HasPrice(c, product, Some(since), v) :: m <= v
    ensures CardMin(c, product, since).None?
       <==> !Has(c.products, product) || forall v :: !HasPrice(c, product, Some(since), v)
  {
    var latest := LatestPrices(c.history, Some(since));
    var rows := OuterJoin(LinksOf(c.links, product), latest);
    DetailRowsOnce(c.products, c.links, latest, product);
    forall v ensures v in Prices(rows) <==> HasPrice(c, product, Some(since), v) {
      InShopPrices(c, product, Some(since), v);
    }
    if Prices(rows) != [] {
      MinMaxAre(Prices(rows));
      assert Prices(rows)[0] in Prices(rows);
    }
  }

  // Some newest price of today is at most u.
  ghost predicate ReachedSince(c: Catalog, product: int, since: int, u: int) {
    exists p :: NewestIn(c, product, Some(since), p) && p.price <= u
  }

  // The card shows a minimum of at most u exactly when some newest price of today is at most u.
  lemma CardShowsIff(c: Catalog, product: int, since: int, u: int)
    requires UniqueProducts(c.products) && Has(c.products, product)
    ensures var shown := CardMin(c, product, since);
            shown.Some? && shown.value <= u <==> ReachedSince(c, product, since, u)
  {
    var shown := CardMin(c, product, since);
    if shown.Some? {
      CardMinIff(c, product, since, shown.value);
    } else {
      CardMinIff(c, product, since, 0);
    }
    if r :| NewestIn(c, product, Some(since), r) && r.price <= u {
      assert HasPrice(c, product, Some(since), r.price);
    }
  }

  // What the card shows is never below what the alert compares.
  lemma CardNotBelowAlert(c: Catalog, product: int, since: int)
    requires UniqueProducts(c.products) && CardMin(c, product, since).Some?
    ensures MinPrice(c, product).Some? && MinPrice(c, product).value <= CardMin(c, product, since).value
  {
    var m := CardMin(c, product, since).value;
    CardMinIff(c, product, since, m);
    var r :| NewestIn(c, product, Some(since), r) && r.price == m;
    assert HasPrice(c, product, None, m);
    MinPriceIff(c, product, 0);
    MinPriceIff(c, product, MinPrice(c, product).value);
  }

  // They are the same minimum exactly when a newest price of today attains the alert's, or there is none
  // at all.
  lemma SameMinimumIff(c: Catalog, product: int, since: int)
    requires UniqueProducts(c.products) && Has(c.products, product)
    ensures CardMin(c, product, since) == MinPrice(c, product)
       <==> MinPrice(c, product).None? || HasPrice(c, product, Some(since), MinPrice(c, product).value)
  {
    var shown, least := CardMin(c, product, since), MinPrice(c, product);
    CardMinIff(c, product, since, if shown.Some? then shown.value else 0);
    MinPriceIff(c, product, if least.Some? then least.value else 0);
    if shown.Some? { CardNotBelowAlert(c, product, since); }
    if least.Some? && HasPrice(c, product, Some(since), least.value) {
      assert shown.value <= least.value;
    }
  }

  /***** The decision against the card *****/

  // The minimum that the card displays at the rates.
  function DisplayedMin(c: Catalog, product: int, since: int, currency: Currency, r: Rates): Option<int> {
    ShownOpt(CardMin(c, product, since), currency, r.usd, r.other)
  }

  predicate DisplaysAtMost(c: Catalog, product: int, since: int, currency: Currency, r: Rates, t: int) {
    DisplayedMin(c, product, since, currency, r).Some? && DisplayedMin(c, product, since, currency, r).value <= t
  }

  // A card displays a minimum of at most t exactly when some newest price of today is displayed at most t.
  lemma DisplaysIff(c: Catalog, product: int, since: int, currency: Currency, r: Rates, t: int)
    requires UniqueProducts(c.products) && Has(c.products, product)
    ensures DisplaysAtMost(c, product, since, currency, r, t)
       <==> exists p :: NewestIn(c, product, Some(since), p) && Shown(p.price, currency, r.usd, r.other) <= t
  {
    var least := CardMin(c, product, since);
    CardMinIff(c, product, since, if least.Some? then least.value else 0);
    if p :| NewestIn(c, product, Some(since), p) && Shown(p.price, currency, r.usd, r.other) <= t {
      assert HasPrice(c, product, Some(since), p.price);
      ShownMonotone(least.value, p.price, currency, r.usd, r.other);
    }
  }

  // For an alert whose threshold was typed as t at the same rates: a displayed minimum strictly below t
  // means that the alert qualifies. If some newest price of today reaches the stored threshold, the alert
  // qualifies, and the card displays at most t if a unit of the currency is worth at least a dollar.
  lemma DecisionMeetsCard(c: Catalog, a: Alert, t: int, since: int, r: Rates)
    requires UniqueProducts(c.products) && Has(c.products, a.product) && RatesFor(a.currency, r.usd, r.other)
    requires a.active && a.threshold == Some(ToUsd(t, a.currency, r.usd, r.other))
    ensures var shown := DisplayedMin(c, a.product, since, a.currency, r);
            && (shown.Some? && shown.value < t ==> Qualifies(c, a))
            && (ReachedSince(c, a.product, since, a.threshold.value)
                ==> Qualifies(c, a) && (r.usd <= r.other ==> DisplaysAtMost(c, a.product, since, a.currency, r, t)))
  {
    var least := CardMin(c, a.product, since);
    CardShowsIff(c, a.product, since, a.threshold.value);
    if least.Some? {
      CardNotBelowAlert(c, a.product, since);
      DisplayDecision(least.value, t, a.currency, r.usd, r.other);
    }
  }

  // A user, and a product with one shop and one price, taken at the given instant.
  function OnePrice(m: int, at: int): Catalog {
    Catalog([User(1, "u")], [Product(7, "p")], [Link(1, 7, 1, "a")], [PriceRow(0, 1, m, at)])
  }

  lemma OnePriceNewest(m: int, at: int)
    ensures forall r :: NewestOf(OnePrice(m, at), 7, r) <==> r == PriceRow(0, 1, m, at)
    ensures CardMin(OnePrice(m, at), 7, at) == Some(m)
  {
    var c := OnePrice(m, at);
    assert c.products[0] in c.products && c.links[0] in c.links && c.history[0] in c.history;
    assert NewestIn(c, 7, Some(at), c.history[0]);
    assert HasPrice(c, 7, Some(at), m);
    CardMinIff(c, 7, at, m);
  }

  // With a newest price of today that reaches the stored threshold, the cards of fired alerts display at
  // most the typed threshold, for all products and thresholds, exactly when a unit of the currency is
  // worth at least a dollar.
  lemma FiredCardIff(currency: Currency, r: Rates, since: int)
    requires RatesFor(currency, r.usd, r.other)
    ensures (forall c: Catalog, product, t | 0 < t && UniqueProducts(c.products) && Has(c.products, product)
               && ReachedSince(c, product, since, ToUsd(t, currency, r.usd, r.other)) ::
               DisplaysAtMost(c, product, since, currency, r, t))
       <==> r.usd <= r.other
  {
    FiredShowsAtMostThresholdIff(currency, r.usd, r.other);
    if r.usd <= r.other {
      forall c: Catalog, product, t | 0 < t && UniqueProducts(c.products) && Has(c.products, product)
                             && ReachedSince(c, product, since, ToUsd(t, currency, r.usd, r.other))
        ensures DisplaysAtMost(c, product, since, currency, r, t)
      {
        var stored := ToUsd(t, currency, r.usd, r.other);
        DecisionMeetsCard(c, Alert(0, 0, product, Some(stored), currency, true, None), t, since, r);
      }
    } else {
      var t, m :| 0 < t && Fires(m, t, currency, r.usd, r.other) && t < Shown(m, currency, r.usd, r.other);
      var c := OnePrice(m, since);
      OnePriceNewest(m, since);
      assert c.products[0] in c.products && NewestIn(c, 7, Some(since), c.history[0]);
      assert ReachedSince(c, 7, since, ToUsd(t, currency, r.usd, r.other));
      assert !DisplaysAtMost(c, 7, since, currency, r, t);
    }
  }

  /***** From the typed threshold to the card *****/

  // Nobody but a check changes an alert, and it only ends it.
  ghost predicate SameAlert(a: Alert, b: Alert) {
    b == a.(active := b.active, triggeredAt := b.triggeredAt)
  }

  ghost predicate OnlyAlert(db: Db, a: Alert) {
    a.id in db.created && forall b | b in db.alerts && b.id == a.id :: SameAlert(a, b)
  }

  lemma StepKeepsAlert(db: Db, e: AlertRuns.Event, a: Alert)
    requires AlertRuns.Valid(db) && OnlyAlert(db, a)
    ensures OnlyAlert(AlertRuns.Step(db, e), a)
  {
    match e
    case RemoveAlert(id, user) => WithoutIs(db.alerts, id, user);
    case CheckRun(send, now) =>
      var db' := AlertRuns.Step(db, e);
      forall b | b in db'.alerts && b.id == a.id ensures SameAlert(a, b) {
        var i :| 0 <= i < |db'.alerts| && db'.alerts[i] == b;
        AlertRuns.CheckIs(db, send, now);
        assert db.alerts[i] in db.alerts;
      }
    case _ =>
  }

  lemma {:induction false} RunKeepsAlert(db: Db, es: seq<AlertRuns.Event>, a: Alert)
    requires AlertRuns.Valid(db) && OnlyAlert(db, a)
    ensures AlertRuns.Valid(AlertRuns.Run(db, es)) && OnlyAlert(AlertRuns.Run(db, es), a)
    decreases |es|
  {
    if es != [] {
      AlertRuns.StepKeepsValid(db, es[0]);
      StepKeepsAlert(db, es[0], a);
      RunKeepsAlert(AlertRuns.Step(db, es[0]), es[1..], a);
    }
  }

  lemma {:induction false} RunKeepsProducts(db: Db, es: seq<AlertRuns.Event>)
    ensures AlertRuns.Run(db, es).catalog.products == db.catalog.products
    decreases |es|
  {
    if es != [] { RunKeepsProducts(AlertRuns.Step(db, es[0]), es[1..]); }
  }

  // The rates that stored the threshold are those of the card: until then nothing but lookups and
  // historical syncs happens, or the rates are held and neither midnight nor a sync to others intervenes.
  ghost predicate SameRates(s: Store, c: Currency, es: seq<RateRuns.Event>, w: World) {
    || (Quiet(es) && QuietWorld(w, 2))
    || (Holds(s, c, s.today, RatesNow(s, c)) && Calm(es, c, RatesNow(s, c))
        && Calm(w.before(0), c, RatesNow(s, c)) && Calm(w.before(1), c, RatesNow(s, c)))
  }

  lemma RatesFit(s: Store, c: Currency)
    ensures RatesFor(c, RatesNow(s, c).usd, RatesNow(s, c).other)
  {}

  // A threshold that was stored was converted at the rates that are in force afterwards.
  lemma StoredAtRatesNow(s: Store, t: int, c: Currency, nbu: Nbu)
    requires ToUsdOn(s, t, c, nbu).1.Some?
    ensures var (s', stored) := ToUsdOn(s, t, c, nbu);
            var r := RatesNow(s', c);
            && s'.today == s.today && InForce(s', c, s.today, r)
            && stored == Some(ToUsd(t, c, r.usd, r.other))
  {
    if c != USD { ToUsdFixesRates(s, t, c, nbu); }
  }

  // A card opened while those rates are still the same is displayed at them.
  lemma CardAtSameRates(s: Store, c: Currency, es: seq<RateRuns.Event>, w: World, card: Card)
    requires InForce(s, c, s.today, RatesNow(s, c)) && SameRates(s, c, es, w)
    ensures DetailPage(RateRuns.Run(s, es), Some(card), c, w).1 == Ok(ShownCard(card, c, RatesNow(s, c)))
  {
    if Quiet(es) && QuietWorld(w, 2) { QuietCard(s, c, es, w, card); } else { HeldCard(s, c, es, w, card); }
  }

  lemma CardAtHeld(s: Store, c: Currency, w: World, card: Card, r: Rates)
    requires Holds(s, c, s.today, r) && Calm(w.before(0), c, r) && Calm(w.before(1), c, r)
    ensures DetailPage(s, Some(card), c, w).1 == Ok(ShownCard(card, c, r))
  {
    HeldPage(s, CardAsks(card), 0, 2, c, w, r);
  }

  lemma HeldCard(s: Store, c: Currency, es: seq<RateRuns.Event>, w: World, card: Card)
    requires Holds(s, c, s.today, RatesNow(s, c)) && Calm(es, c, RatesNow(s, c))
    requires Calm(w.before(0), c, RatesNow(s, c)) && Calm(w.before(1), c, RatesNow(s, c))
    ensures DetailPage(RateRuns.Run(s, es), Some(card), c, w).1 == Ok(ShownCard(card, c, RatesNow(s, c)))
  {
    SteadyKeepsHolds(s, es, c, s.today, RatesNow(s, c));
    StaysToday(s, es);
    CardAtHeld(RateRuns.Run(s, es), c, w, card, RatesNow(s, c));
  }

  lemma QuietCard(s: Store, c: Currency, es: seq<RateRuns.Event>, w: World, card: Card)
    requires InForce(s, c, s.today, RatesNow(s, c)) && Quiet(es) && QuietWorld(w, 2)
    ensures DetailPage(RateRuns.Run(s, es), Some(card), c, w).1 == Ok(ShownCard(card, c, RatesNow(s, c)))
  {
    var t := RateRuns.Run(s, es);
    QuietKeepsToday(s, es);
    if c != USD {
      QuietKeepsRates(s, es, Key(USD, s.today));
      QuietKeepsRates(s, es, Key(c, s.today));
      QuietPageKeepsRates(t, CardAsks(card), 2, c, w);
    }
    DetailIs(t, card, c, w);
  }

  lemma CreatedAlert(db: Db, a: Alert, later: seq<AlertRuns.Event>)
    requires AlertRuns.Valid(db) && CanCreate(db, a.id, a.user, a.product, a.threshold)
    requires a.active && a.triggeredAt.None?
    ensures var end := AlertRuns.Run(Create(db, a.id, a.user, a.product, a.threshold, a.currency), later);
            AlertRuns.Valid(end) && OnlyAlert(end, a) && Has(end.catalog.products, a.product)
  {
    var db' := Create(db, a.id, a.user, a.product, a.threshold, a.currency);
    AlertRuns.StepKeepsValid(db, AlertRuns.NewAlert(a.id, a.user, a.product, a.threshold, a.currency));
    forall b | b in db'.alerts && b.id == a.id ensures b == a {
      assert b in db.alerts ==> AlertRuns.Consistent(db, b);
    }
    RunKeepsAlert(db', later, a);
    RunKeepsProducts(db', later);
  }

  // A qualifying alert that is still there has been mailed after the next check.
  lemma QualifyingIsMailed(db: Db, a: Alert, b: Alert, send: int -> bool, now: int)
    requires AlertRuns.Valid(db) && OnlyAlert(db, a) && b in db.alerts && b.id == a.id
    requires a.active && Qualifies(db.catalog, a) && send(a.id)
    ensures a.id in Check(db, send, now).mailed
  {
    AlertRuns.CheckIs(db, send, now);
    assert AlertRuns.Consistent(db, b);
    var i :| 0 <= i < |db.alerts| && db.alerts[i] == b;
    if b.active {
      assert Qualifies(db.catalog, b);
      assert a.id in AlertRuns.Fired(db, send);
    }
  }

  // From the typed threshold to the card. The alert was created at the rates of its day; prices, checks
  // and other alerts come and go; later that day the product's card is opened at the same rates. Then
  // a displayed minimum strictly below the typed threshold means that the next check mails the alert,
  // unless it was mailed before or its mail fails. And if some newest price of today reaches the stored
  // threshold the check mails it too, and the card displays at most the typed threshold if a unit of the
  // currency is worth at least a dollar.
  lemma TypedThresholdMeetsCard(s: Store, db: Db, id: int, user: int, product: int, t: int, c: Currency, nbu: Nbu,
                                later: seq<AlertRuns.Event>, es: seq<RateRuns.Event>, w: World,
                                send: int -> bool, now: int)
    requires AlertRuns.Valid(db) && CanCreate(db, id, user, product, ToUsdOn(s, t, c, nbu).1)
    requires var (s', db') := CreateTyped(s, db, id, user, product, t, c, nbu); SameRates(s', c, es, w)
    ensures var (s', db') := CreateTyped(s, db, id, user, product, t, c, nbu);
            var end, stored, r := AlertRuns.Run(db', later), ToUsdOn(s, t, c, nbu).1.value, RatesNow(s', c);
            var card := CardOn(end.catalog, product, DayStart(s.today));
            var page := DetailPage(RateRuns.Run(s', es), card, c, w).1;
            var alive := exists b | b in end.alerts :: b.id == id;
            var reached := ReachedSince(end.catalog, product, DayStart(s.today), stored);
            && (page == if card.Some? then Ok(ShownCard(card.value, c, r)) else NotFound)
            && (alive && page.Ok? && page.value.priceMin.Some? && page.value.priceMin.value < t && send(id)
                ==> id in Check(end, send, now).mailed)
            && (alive && reached && send(id) ==> id in Check(end, send, now).mailed)
            && (reached && r.usd <= r.other ==> page.Ok? && page.value.priceMin.Some? && page.value.priceMin.value <= t)
  {
    var (s', db') := CreateTyped(s, db, id, user, product, t, c, nbu);
    var r := RatesNow(s', c);
    var a := Alert(id, user, product, ToUsdOn(s, t, c, nbu).1, c, true, None);
    var end := AlertRuns.Run(db', later);
    StoredAtRatesNow(s, t, c, nbu);
    RatesFit(s', c);
    CreatedAlert(db, a, later);
    var card := CardOn(end.catalog, product, DayStart(s.today));
    if card.Some? { CardAtSameRates(s', c, es, w, card.value); }
    DecisionMeetsCard(end.catalog, a, t, DayStart(s.today), r);
    if b :| b in end.alerts && b.id == id && (Qualifies(end.catalog, a) && send(id)) {
      QualifyingIsMailed(end, a, b, send, now);
    }
  }

  /***** Fired alerts whose card shows a higher minimum, or none *****/

  const TEN_DOLLARS := Alert(1, 1, 7, Some(10_0000), USD, true, None)

  function OneAlert(c: Catalog): Db { Db(c, [TEN_DOLLARS], [], {1}) }

  lemma OneAlertValid(c: Catalog)
    requires Keyed(c) && Owned(c, TEN_DOLLARS) && forall i | 0 <= i < |c.history| :: c.history[i].id == i
    ensures AlertRuns.Valid(OneAlert(c)) && OnlyAlert(OneAlert(c), TEN_DOLLARS)
  {
    forall a | a in OneAlert(c).alerts ensures a == TEN_DOLLARS && AlertRuns.Consistent(OneAlert(c), a) {}
  }

  lemma OneAlertIsMailed(c: Catalog, send: int -> bool, now: int)
    requires AlertRuns.Valid(OneAlert(c)) && OnlyAlert(OneAlert(c), TEN_DOLLARS)
    requires Qualifies(c, TEN_DOLLARS) && send(1)
    ensures 1 in Check(OneAlert(c), send, now).mailed
  {
    assert TEN_DOLLARS in OneAlert(c).alerts;
    QualifyingIsMailed(OneAlert(c), TEN_DOLLARS, TEN_DOLLARS, send, now);
  }

  // One shop's newest price is 5 dollars and of yesterday, the other's is 20 dollars and of today.
  const TWO_SHOPS := Catalog([User(1, "u")], [Product(7, "p")], [Link(1, 7, 1, "a"), Link(2, 7, 2, "b")],
                             [PriceRow(0, 1, 5_0000, DayStart(4)), PriceRow(1, 2, 20_0000, DayStart(5))])

  lemma TwoShopsNewest(r: PriceRow)
    ensures NewestOf(TWO_SHOPS, 7, r) <==> r == TWO_SHOPS.history[0] || r == TWO_SHOPS.history[1]
  {
    assert TWO_SHOPS.links[0] in TWO_SHOPS.links && TWO_SHOPS.links[1] in TWO_SHOPS.links;
  }

  lemma TwoShopsCompared()
    ensures MinPrice(TWO_SHOPS, 7) == Some(5_0000)
  {
    forall r ensures NewestIn(TWO_SHOPS, 7, None, r) <==> r == TWO_SHOPS.history[0] || r == TWO_SHOPS.history[1] {
      TwoShopsNewest(r);
    }
    assert HasPrice(TWO_SHOPS, 7, None, 5_0000);
    MinPriceIff(TWO_SHOPS, 7, 5_0000);
  }

  lemma TwoShopsShown()
    ensures CardMin(TWO_SHOPS, 7, DayStart(5)) == Some(20_0000)
  {
    forall r ensures NewestIn(TWO_SHOPS, 7, Some(DayStart(5)), r) <==> r == TWO_SHOPS.history[1] {
      TwoShopsNewest(r);
    }
    assert TWO_SHOPS.products[0] in TWO_SHOPS.products;
    assert HasPrice(TWO_SHOPS, 7, Some(DayStart(5)), 20_0000);
    CardMinIff(TWO_SHOPS, 7, DayStart(5), 20_0000);
  }

  // That a fired alert's card displays at most the threshold is false even in USD: the check mails the
  // alert at 10 dollars, and the card shows 20.
  lemma StalePriceFires(send: int -> bool, now: int)
    requires send(1)
    ensures AlertRuns.Valid(OneAlert(TWO_SHOPS)) && 1 in Check(OneAlert(TWO_SHOPS), send, now).mailed
    ensures CardMin(TWO_SHOPS, 7, DayStart(5)) == Some(20_0000)
  {
    assert TWO_SHOPS.users[0] in TWO_SHOPS.users && TWO_SHOPS.products[0] in TWO_SHOPS.products;
    OneAlertValid(TWO_SHOPS);
    TwoShopsCompared();
    OneAlertIsMailed(TWO_SHOPS, send, now);
    TwoShopsShown();
  }

  // Without a price of today the card shows no minimum at all, and the check still mails the alert.
  lemma UnpricedCardFires(send: int -> bool, now: int)
    requires send(1)
    ensures var c := OnePrice(5_0000, DayStart(4));
            && AlertRuns.Valid(OneAlert(c)) && 1 in Check(OneAlert(c), send, now).mailed
            && CardMin(c, 7, DayStart(5)).None?
  {
    var c := OnePrice(5_0000, DayStart(4));
    assert c.users[0] in c.users && c.products[0] in c.products;
    OneAlertValid(c);
    OnePriceNewest(5_0000, DayStart(4));
    assert HasPrice(c, 7, None, 5_0000) by { assert NewestIn(c, 7, None, c.history[0]); }
    MinPriceIff(c, 7, 5_0000);
    OneAlertIsMailed(c, send, now);
    CardMinIff(c, 7, DayStart(5), 0);
  }
}
