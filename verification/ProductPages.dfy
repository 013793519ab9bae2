/** A product's card and its list of current prices, queried and converted. */
module ProductPages {
  import opened Wrappers
  import opened Money
  import opened RateStore
  import opened CurrencyServices
  import opened PageRates
  import opened HeldRates
  import opened Tables
  import opened Cards

  // The response, the NotFoundError, or convert's ValueError.
  datatype Result<T> = Ok(value: T) | NotFound | NoRate

  function PriceAsk(price: Option<int>): Option<Ask> {
    if price.None? then None else Some(Ask(price.value, 1, None))
  }

  /***** PriceService.get_current_prices *****/

  datatype ShopPrice = ShopPrice(shopName: string, price: int, lastUpdated: int)

  function CurrentAsks(rows: seq<Current>): Asks {
    seq(|rows|, i requires 0 <= i < |rows| => PriceAsk(Some(rows[i].price)))
  }

  function ShopPrices(rows: seq<Current>, shown: seq<Option<int>>): seq<ShopPrice>
    requires Fits(shown, CurrentAsks(rows), |rows|)
  {
    seq(|rows|, i requires 0 <= i < |rows| =>
      assert CurrentAsks(rows)[i].Some?;
      ShopPrice(rows[i].shopName, shown[i].value, rows[i].at))
  }

  // The list at one pair of rates.
  function ShopPricesAt(rows: seq<Current>, c: Currency, r: Rates): seq<ShopPrice> {
    seq(|rows|, i requires 0 <= i < |rows| =>
      ShopPrice(rows[i].shopName, Shown(rows[i].price, c, r.usd, r.other), rows[i].at))
  }

  // The store after the request, and its response: products are looked up only if there is no row.
  function CurrentPricesPage(s: Store, rows: seq<Current>, known: bool, c: Currency, w: World)
    : (Store, Result<seq<ShopPrice>>)
  {
    if rows == [] && !known then (s, NotFound)
    else
      var (t, shown) := ConvertAll(s, CurrentAsks(rows), c, w);
      (t, if shown.Some? then Ok(ShopPrices(rows, shown.value)) else NoRate)
  }

  lemma ShopPricesShown(rows: seq<Current>, shown: seq<Option<int>>, c: Currency, r: Rates)
    requires Fits(shown, CurrentAsks(rows), |rows|) && ShownAt(shown, CurrentAsks(rows), c, r)
    ensures ShopPrices(rows, shown) == ShopPricesAt(rows, c, r)
  {
    forall i | 0 <= i < |rows| ensures shown[i] == Some(Shown(rows[i].price, c, r.usd, r.other)) {
      assert CurrentAsks(rows)[i].Some?;
    }
  }

  lemma CurrentPricesAre(s: Store, rows: seq<Current>, c: Currency, w: World)
    ensures var (t, shown) := ConvertAll(s, CurrentAsks(rows), c, w);
            var r := RatesNow(t, c);
            && (shown.None? <==> rows != [] && !InForce(t, c, t.today, r))
            && (shown.Some? && QuietWorld(w, |rows|) ==>
                  ShopPrices(rows, shown.value) == ShopPricesAt(rows, c, r))
  {
    var asks := CurrentAsks(rows);
    FailsIff(s, asks, |asks|, c, w);
    assert rows != [] ==> asks[0].Some?;
    var (t, shown) := ConvertAll(s, asks, c, w);
    if shown.Some? && QuietWorld(w, |rows|) {
      QuietPageToday(s, asks, c, w);
      ShopPricesShown(rows, shown.value, c, RatesNow(t, c));
    }
  }

  lemma NextShopPrice(rows: seq<Current>, i: nat, shown: seq<Option<int>>, price: Option<int>)
    requires i < |rows| && Fits(shown, CurrentAsks(rows[..i]), i) && price.Some?
    ensures Fits(shown + [price], CurrentAsks(rows[..i + 1]), i + 1)
    ensures ShopPrices(rows[..i + 1], shown + [price])
         == ShopPrices(rows[..i], shown) + [ShopPrice(rows[i].shopName, price.value, rows[i].at)]
  {
    forall j | 0 <= j < i ensures shown[j].Some? {
      assert CurrentAsks(rows[..i])[j].Some?;
    }
  }

  // The loop over the rows; None when a rate is missing.
  method ConvertCurrent(service: CurrencyService, rows: seq<Current>, c: Currency, w: World)
    returns (items: Option<seq<ShopPrice>>)
    modifies service
    ensures var (t, shown) := ConvertAll(old(service.State()), CurrentAsks(rows), c, w);
            && service.State() == t && (items.Some? <==> shown.Some?)
            && (items.Some? ==> items.value == ShopPrices(rows, shown.value))
  {
    ghost var start, asks := service.State(), CurrentAsks(rows);
    ghost var shown: seq<Option<int>> := [];
    var done: seq<ShopPrice> := [];
    for i := 0 to |rows|
      invariant Reached(service.State(), start, asks, i, c, w, shown)
      invariant Fits(shown, CurrentAsks(rows[..i]), i) && done == ShopPrices(rows[..i], shown)
    {
      var price := ConvertAsk(service, PriceAsk(Some(rows[i].price)), c, w, i, start, asks, shown);
      if price.None? { return None; }
      NextShopPrice(rows, i, shown, price.value);
      shown := shown + [price.value];
      done := done + [ShopPrice(rows[i].shopName, price.value.value, rows[i].at)];
    }
    assert rows[..|rows|] == rows;
    return Some(done);
  }

  // The answer is missing a rate exactly if there is a price and a rate of today is not in force in the
  // end. While no entry expires, no midnight passes and today's rates are not synced, every price is
  // shown at the rates in force in the end.
  method GetCurrentPrices(service: CurrencyService, products: seq<Product>, links: seq<Link>, shops: seq<Shop>,
                          history: seq<PriceRow>, product: int, c: Currency, w: World)
    returns (result: Result<seq<ShopPrice>>)
    modifies service
    ensures var rows := Cards.GetCurrentPrices(links, shops, history, product, DayStart(old(service.today)));
            var s, r := service.State(), RatesNow(service.State(), c);
            && (s, result) == CurrentPricesPage(old(service.State()), rows, Has(products, product), c, w)
            && (rows == [] ==> s == old(service.State())
                               && result == if exists p | p in products :: p.id == product then Ok([]) else NotFound)
            && (rows != [] ==> !result.NotFound?)
            && (result.NoRate? <==> rows != [] && !InForce(s, c, s.today, r))
            && (result.Ok? && QuietWorld(w, |rows|) ==> result.value == ShopPricesAt(rows, c, r))
  {
    var rows := Cards.GetCurrentPrices(links, shops, history, product, DayStart(service.today));
    if rows == [] && !Has(products, product) { return NotFound; }
    CurrentPricesAre(service.State(), rows, c, w);
    var items := ConvertCurrent(service, rows, c, w);
    if items.None? { return NoRate; }
    return Ok(items.value);
  }

  // A known product without a price of today has an empty list, and an unknown one is not found; neither
  // touches the store.
  lemma NotFoundIff(s: Store, products: seq<Product>, rows: seq<Current>, product: int, c: Currency, w: World)
    ensures var (s', result) := CurrentPricesPage(s, rows, Has(products, product), c, w);
            && (result.NotFound? <==> rows == [] && forall p | p in products :: p.id != product)
            && (rows == [] && !result.NotFound? ==> result == Ok([]))
            && (rows == [] ==> s' == s)
  {
    if rows == [] {
      assert ConvertAll(s, CurrentAsks(rows), c, w) == (s, Some([]));
      assert ShopPrices(rows, []) == [];
    }
  }

  // The list is shown at one pair of rates if its first conversion leaves its rates held.
  lemma ListAtOnePair(s: Store, rows: seq<Current>, c: Currency, w: World)
    requires rows != []
    requires var (t, first) := ConvertFirst(s, CurrentAsks(rows), 1, c, w);
             first.Some? && Holds(t, c, t.today, RatesNow(t, c)) && CalmFrom(w, 1, |rows|, c, RatesNow(t, c))
    ensures var r := RatesNow(ConvertFirst(s, CurrentAsks(rows), 1, c, w).0, c);
            CurrentPricesPage(s, rows, true, c, w).1 == Ok(ShopPricesAt(rows, c, r))
  {
    assert CurrentAsks(rows)[0].Some?;
    OnePairOfRates(s, CurrentAsks(rows), c, w, 0);
    ShopPricesShown(rows, ConvertAll(s, CurrentAsks(rows), c, w).1.value, c,
                    RatesNow(ConvertFirst(s, CurrentAsks(rows), 1, c, w).0, c));
  }

  /***** PriceService.get_product_detail *****/

  function CardAsks(card: Card): Asks { [PriceAsk(card.priceMin), PriceAsk(card.priceMax)] }

  function DetailPage(s: Store, card: Option<Card>, c: Currency, w: World): (Store, Result<Card>) {
    if card.None? then (s, NotFound)
    else
      var (t, shown) := ConvertAll(s, CardAsks(card.value), c, w);
      (t, if shown.Some? then Ok(Card(shown.value[0], shown.value[1], card.value.shopsCount)) else NoRate)
  }

  // The card at one pair of rates.
  function ShownCard(card: Card, c: Currency, r: Rates): Card {
    Card(ShownOpt(card.priceMin, c, r.usd, r.other), ShownOpt(card.priceMax, c, r.usd, r.other), card.shopsCount)
  }

  lemma DetailIs(s: Store, card: Card, c: Currency, w: World)
    ensures var (t, shown) := DetailPage(s, Some(card), c, w);
            && (shown.NoRate? <==> && (card.priceMin.Some? || card.priceMax.Some?)
                                   && !InForce(t, c, t.today, RatesNow(t, c)))
            && (shown.Ok? && QuietWorld(w, 2) ==> shown.value == ShownCard(card, c, RatesNow(t, c)))
  {
    var asks := CardAsks(card);
    FailsIff(s, asks, 2, c, w);
    assert Priced(asks, 2) <==> card.priceMin.Some? || card.priceMax.Some? by {
      assert asks[0] == PriceAsk(card.priceMin) && asks[1] == PriceAsk(card.priceMax);
    }
    if ConvertAll(s, asks, c, w).1.Some? && QuietWorld(w, 2) { QuietPageToday(s, asks, c, w); }
  }

  // Both ends of the range in order.
  method ConvertCard(service: CurrencyService, card: Card, c: Currency, w: World) returns (result: Result<Card>)
    modifies service
    ensures (service.State(), result) == DetailPage(old(service.State()), Some(card), c, w)
  {
    ghost var start, asks := service.State(), CardAsks(card);
    var low := ConvertAsk(service, PriceAsk(card.priceMin), c, w, 0, start, asks, []);
    if low.None? { return NoRate; }
    assert [] + [low.value] == [low.value];
    var high := ConvertAsk(service, PriceAsk(card.priceMax), c, w, 1, start, asks, [low.value]);
    if high.None? { return NoRate; }
    assert [low.value] + [high.value] == [low.value, high.value];
    return Ok(Card(low.value, high.value, card.shopsCount));
  }

  method GetProductDetail(service: CurrencyService, products: seq<Product>, links: seq<Link>, history: seq<PriceRow>,
                          product: int, c: Currency, w: World)
    returns (result: Result<Card>)
    modifies service
    ensures var card := GetDetail(products, links, history, product, DayStart(old(service.today)));
            var s, r := service.State(), RatesNow(service.State(), c);
            && (s, result) == DetailPage(old(service.State()), card, c, w)
            && (result.NotFound? <==> card.None?)
            && (result.NoRate? <==> && card.Some? && (card.value.priceMin.Some? || card.value.priceMax.Some?)
                                    && !InForce(s, c, s.today, r))
            && (result.Ok? && QuietWorld(w, 2) ==> result.value == ShownCard(card.value, c, r))
  {
    var row := GetDetail(products, links, history, product, DayStart(service.today));
    if row.None? { return NotFound; }
    DetailIs(service.State(), row.value, c, w);
    result := ConvertCard(service, row.value, c, w);
  }

  // A card is shown at one pair of rates if its first conversion leaves its rates held.
  lemma CardAtOnePair(s: Store, card: Card, c: Currency, w: World, i: nat)
    requires FirstAt(CardAsks(card), i)
    requires var (t, first) := ConvertFirst(s, CardAsks(card), i + 1, c, w);
             first.Some? && Holds(t, c, t.today, RatesNow(t, c)) && CalmFrom(w, i + 1, 2, c, RatesNow(t, c))
    ensures var r := RatesNow(ConvertFirst(s, CardAsks(card), i + 1, c, w).0, c);
            DetailPage(s, Some(card), c, w).1 == Ok(ShownCard(card, c, r))
  {
    OnePairOfRates(s, CardAsks(card), c, w, i);
  }

  // A range converted at one pair of rates is in order.
  lemma RangeInOrder(prices: seq<int>, c: Currency, r: Rates)
    requires prices != []
    ensures MinOf(prices).Some? && MaxOf(prices).Some?
    ensures Shown(MinOf(prices).value, c, r.usd, r.other) <= Shown(MaxOf(prices).value, c, r.usd, r.other)
  {
    MinMaxAre(prices);
    ShownMonotone(MinOf(prices).value, MaxOf(prices).value, c, r.usd, r.other);
  }
}
