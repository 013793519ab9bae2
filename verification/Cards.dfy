/** A product's card and its list of current prices: two queries over the same tables that must agree. */
module Cards {
  import opened Wrappers
  import opened Collections
  import opened Money
  import opened Tables

  /***** The smallest and the largest of a column, NULL when there is no value *****/

  function MinOf(values: seq<int>): Option<int> {
    if values == [] then None
    else
      var rest := MinOf(values[1..]);
      if rest.Some? && rest.value < values[0] then rest else Some(values[0])
  }

  function MaxOf(values: seq<int>): Option<int> {
    if values == [] then None
    else
      var rest := MaxOf(values[1..]);
      if rest.Some? && values[0] < rest.value then rest else Some(values[0])
  }

  ghost predicate IsMin(values: seq<int>, m: int) { m in values && forall v | v in values :: m <= v }

  ghost predicate IsMax(values: seq<int>, m: int) { m in values && forall v | v in values :: v <= m }

  lemma {:induction false} MinMaxAre(values: seq<int>)
    requires values != []
    ensures MinOf(values).Some? && IsMin(values, MinOf(values).value)
    ensures MaxOf(values).Some? && IsMax(values, MaxOf(values).value)
  {
    var rest := values[1..];
    assert values == [values[0]] + rest;
    assert forall v :: v in values <==> v == values[0] || v in rest;
    if rest != [] { MinMaxAre(rest); }
  }

  // Min and max depend on the values only, not on their order.
  lemma MinMaxOfSame(a: seq<int>, b: seq<int>)
    requires multiset(a) == multiset(b)
    ensures MinOf(a) == MinOf(b) && MaxOf(a) == MaxOf(b)
  {
    assert forall v :: v in a <==> v in multiset(a);
    assert forall v :: v in b <==> v in multiset(b);
    assert |a| == |multiset(a)| && |b| == |multiset(b)|;
    if a != [] {
      MinMaxAre(a);
      MinMaxAre(b);
    }
  }

  /***** ProductRepo.get_detail *****/

  datatype Joined = Joined(link: Link, price: Option<int>)

  datatype Card = Card(priceMin: Option<int>, priceMax: Option<int>, shopsCount: nat)

  function LinksOf(links: seq<Link>, product: int): seq<Link> {
    if links == [] then []
    else (if links[0].product == product then [links[0]] else []) + LinksOf(links[1..], product)
  }

  function Matches(latest: seq<PriceRow>, link: Link): seq<Joined> {
    if latest == [] then []
    else (if latest[0].ps == link.id then [Joined(link, Some(latest[0].price))] else []) + Matches(latest[1..], link)
  }

  // ProductShop LEFT OUTER JOIN latest
  function OuterJoin(links: seq<Link>, latest: seq<PriceRow>): seq<Joined> {
    if links == [] then []
    else
      OuterHead(links[0], latest) + OuterJoin(links[1..], latest)
  }

  function OuterHead(link: Link, latest: seq<PriceRow>): seq<Joined> {
    var m := Matches(latest, link);
    if m == [] then [Joined(link, None)] else m
  }

  // Product JOIN ProductShop OUTER JOIN latest WHERE Product.id == product
  function DetailRows(products: seq<Product>, links: seq<Link>, latest: seq<PriceRow>, product: int): seq<Joined> {
    if products == [] then []
    else
      (if products[0].id == product then OuterJoin(LinksOf(links, product), latest) else [])
      + DetailRows(products[1..], links, latest, product)
  }

  function Prices(rows: seq<Joined>): seq<int> {
    if rows == [] then []
    else (if rows[0].price.Some? then [rows[0].price.value] else []) + Prices(rows[1..])
  }

  // The aggregates of one group.
  function CardOf(rows: seq<Joined>): Card {
    Card(MinOf(Prices(rows)), MaxOf(Prices(rows)), |rows|)
  }

  // One group, or no row at all: a product without shops has no card.
  function GetDetail(products: seq<Product>, links: seq<Link>, history: seq<PriceRow>, product: int,
                     today: int): Option<Card> {
    var rows := DetailRows(products, links, LatestPrices(history, Some(today)), product);
    if rows == [] then None else Some(CardOf(rows))
  }

  lemma {:induction false} MatchesFew(latest: seq<PriceRow>, link: Link)
    requires Functional(latest)
    ensures |Matches(latest, link)| <= 1
    ensures (forall r | r in latest :: r.ps != link.id) ==> Matches(latest, link) == []
    ensures forall j | j in Matches(latest, link) :: j.link == link
  {
    if latest != [] {
      assert latest == [latest[0]] + latest[1..];
      MatchesFew(latest[1..], link);
    }
  }

  lemma HeadOnce(link: Link, latest: seq<PriceRow>)
    requires Functional(latest)
    ensures |OuterHead(link, latest)| == 1 && OuterHead(link, latest)[0].link == link
  {
    MatchesFew(latest, link);
    var m := Matches(latest, link);
    if m != [] { assert m[0] in m; }
  }

  // The outer join keeps every link exactly once and in order.
  lemma {:induction false} OuterJoinOnce(links: seq<Link>, latest: seq<PriceRow>)
    requires Functional(latest)
    ensures |OuterJoin(links, latest)| == |links|
    ensures forall i | 0 <= i < |links| :: OuterJoin(links, latest)[i].link == links[i]
  {
    if links != [] {
      OuterJoinOnce(links[1..], latest);
      HeadOnce(links[0], latest);
      var head, rest := OuterHead(links[0], latest), OuterJoin(links[1..], latest);
      assert head + rest == [head[0]] + rest;
    }
  }

  lemma {:induction false} InMatches(latest: seq<PriceRow>, link: Link, v: int)
    ensures v in Prices(Matches(latest, link)) <==> exists r | r in latest :: r.ps == link.id && r.price == v
  {
    if latest != [] {
      assert latest == [latest[0]] + latest[1..];
      InMatches(latest[1..], link, v);
      PricesConcat(if latest[0].ps == link.id then [Joined(link, Some(latest[0].price))] else [],
                   Matches(latest[1..], link));
    }
  }

  // A price occurs in the join exactly when it is the latest price of one of the links.
  lemma {:induction false} InOuterJoin(links: seq<Link>, latest: seq<PriceRow>, v: int)
    ensures v in Prices(OuterJoin(links, latest))
       <==> exists l, r | l in links && r in latest :: r.ps == l.id && r.price == v
  {
    if links != [] {
      assert links == [links[0]] + links[1..];
      InOuterJoin(links[1..], latest, v);
      InMatches(latest, links[0], v);
      PricesConcat(OuterHead(links[0], latest), OuterJoin(links[1..], latest));
    }
  }

  lemma {:induction false} InLinksOf(links: seq<Link>, product: int, l: Link)
    ensures l in LinksOf(links, product) <==> l in links && l.product == product
  {
    if links != [] {
      assert links == [links[0]] + links[1..];
      InLinksOf(links[1..], product, l);
    }
  }

  predicate Has(products: seq<Product>, product: int) {
    exists p | p in products :: p.id == product
  }

  lemma {:induction false} DetailRowsOnce(products: seq<Product>, links: seq<Link>, latest: seq<PriceRow>, product: int)
    requires UniqueProducts(products)
    ensures DetailRows(products, links, latest, product)
         == if Has(products, product) then OuterJoin(LinksOf(links, product), latest) else []
  {
    if products != [] {
      assert products == [products[0]] + products[1..];
      DetailRowsOnce(products[1..], links, latest, product);
      if products[0].id == product { assert products[0] in products; }
    }
  }

  // shops_count is the number of the product's shops, for any price history; a card exists exactly
  // for a known product with a shop.
  lemma ShopsCountExact(products: seq<Product>, links: seq<Link>, history: seq<PriceRow>, product: int, today: int)
    requires UniqueProducts(products) && UniqueRows(history)
    ensures var card := GetDetail(products, links, history, product, today);
            && (card.Some? <==> Has(products, product) && LinksOf(links, product) != [])
            && (card.Some? ==> card.value.shopsCount == |LinksOf(links, product)|)
  {
    var latest := LatestPrices(history, Some(today));
    LatestFunctional(history, Some(today));
    DetailRowsOnce(products, links, latest, product);
    OuterJoinOnce(LinksOf(links, product), latest);
  }

  /***** list_watchlist_with_prices and list_watchlist_details *****/

  datatype Watch = Watch(user: int, product: int)  // user_products, keyed by both columns

  // A row of the join with the product it is grouped by.
  datatype Grouped = Grouped(product: int, row: Joined)

  // A row of the result.
  datatype WatchRow = WatchRow(id: int, card: Card)

  function Tagged(product: int, rows: seq<Joined>): seq<Grouped> {
    if rows == [] then [] else [Grouped(product, rows[0])] + Tagged(product, rows[1..])
  }

  // The rows once for every matching row of user_products.
  function ForWatches(watches: seq<Watch>, w: Watch, rows: seq<Grouped>): seq<Grouped> {
    if watches == [] then [] else (if watches[0] == w then rows else []) + ForWatches(watches[1..], w, rows)
  }

  // Product JOIN UserProduct JOIN ProductShop OUTER JOIN latest WHERE user_id == user
  function WatchJoin(products: seq<Product>, watches: seq<Watch>, links: seq<Link>, latest: seq<PriceRow>,
                     user: int): seq<Grouped> {
    if products == [] then []
    else
      var id := products[0].id;
      ForWatches(watches, Watch(user, id), Tagged(id, OuterJoin(LinksOf(links, id), latest)))
      + WatchJoin(products[1..], watches, links, latest, user)
  }

  function GroupOf(rows: seq<Grouped>, product: int): seq<Joined> {
    if rows == [] then [] else (if rows[0].product == product then [rows[0].row] else []) + GroupOf(rows[1..], product)
  }

  ghost predicate DistinctRows(rows: seq<WatchRow>) { forall i, j | 0 <= i < j < |rows| :: rows[i].id != rows[j].id }

  // GROUP BY product: one row for every group, in any order.
  ghost predicate IsGrouped(rows: seq<WatchRow>, joined: seq<Grouped>) {
    && DistinctRows(rows)
    && (forall r | r in rows :: GroupOf(joined, r.id) != [] && r.card == CardOf(GroupOf(joined, r.id)))
    && (forall id | GroupOf(joined, id) != [] :: exists r | r in rows :: r.id == id)
  }

  // The rows of the query for a user.
  ghost predicate ListWatchlist(rows: seq<WatchRow>, products: seq<Product>, watches: seq<Watch>, links: seq<Link>,
                                history: seq<PriceRow>, user: int, today: int) {
    IsGrouped(rows, WatchJoin(products, watches, links, LatestPrices(history, Some(today)), user))
  }

  lemma {:induction false} GroupOfConcat(a: seq<Grouped>, b: seq<Grouped>, product: int)
    ensures GroupOf(a + b, product) == GroupOf(a, product) + GroupOf(b, product)
  {
    if a == [] {
      assert a + b == b;
    } else {
      GroupOfConcat(a[1..], b, product);
      assert (a + b)[1..] == a[1..] + b && (a + b)[0] == a[0];
    }
  }

  lemma GroupOfCons(g: Grouped, joined: seq<Grouped>, product: int)
    ensures GroupOf([g] + joined, product)
         == if g.product == product then [g.row] + GroupOf(joined, product) else GroupOf(joined, product)
  {
    assert ([g] + joined)[1..] == joined;
    assert [] + GroupOf(joined, product) == GroupOf(joined, product);
  }

  // The row of the first group takes the place of an earlier row of its id, if there is one.
  function WithRow(rows: seq<WatchRow>, row: WatchRow): seq<WatchRow> {
    if rows == [] then [row]
    else if rows[0].id == row.id then [row] + rows[1..]
    else [rows[0]] + WithRow(rows[1..], row)
  }

  lemma {:induction false} WithRowIs(rows: seq<WatchRow>, row: WatchRow)
    requires DistinctRows(rows)
    ensures DistinctRows(WithRow(rows, row))
    ensures forall r :: r in WithRow(rows, row) <==> r == row || (r in rows && r.id != row.id)
  {
    if rows != [] {
      assert rows == [rows[0]] + rows[1..];
      assert forall r | r in rows[1..] :: r.id != rows[0].id;
      WithRowIs(rows[1..], row);
    }
  }

  lemma RowOfGroup(before: seq<WatchRow>, g: Grouped, joined: seq<Grouped>, r: WatchRow)
    requires IsGrouped(before, joined) && r in before && r.id != g.product
    ensures GroupOf([g] + joined, r.id) != [] && r.card == CardOf(GroupOf([g] + joined, r.id))
  {
    GroupOfCons(g, joined, r.id);
  }

  lemma GroupHasRow(before: seq<WatchRow>, g: Grouped, joined: seq<Grouped>, id: int)
    requires IsGrouped(before, joined) && id != g.product && GroupOf([g] + joined, id) != []
    ensures exists r | r in before :: r.id == id
  {
    GroupOfCons(g, joined, id);
  }

  lemma GroupedCons(before: seq<WatchRow>, g: Grouped, joined: seq<Grouped>)
    requires IsGrouped(before, joined)
    ensures IsGrouped(WithRow(before, WatchRow(g.product, CardOf(GroupOf([g] + joined, g.product)))), [g] + joined)
  {
    var all := [g] + joined;
    var row := WatchRow(g.product, CardOf(GroupOf(all, g.product)));
    WithRowIs(before, row);
    GroupOfCons(g, joined, g.product);
    forall r | r in before && r.id != g.product
      ensures GroupOf(all, r.id) != [] && r.card == CardOf(GroupOf(all, r.id))
    {
      RowOfGroup(before, g, joined, r);
    }
    forall id | GroupOf(all, id) != [] ensures exists r | r in WithRow(before, row) :: r.id == id {
      if id == g.product {
        assert row in WithRow(before, row);
      } else {
        GroupHasRow(before, g, joined, id);
        var r :| r in before && r.id == id;
        assert r in WithRow(before, row);
      }
    }
  }

  // The query has an answer for every join.
  lemma {:induction false} GroupedExists(joined: seq<Grouped>) returns (rows: seq<WatchRow>)
    ensures IsGrouped(rows, joined)
  {
    if joined == [] {
      rows := [];
    } else {
      var before := GroupedExists(joined[1..]);
      assert joined == [joined[0]] + joined[1..];
      GroupedCons(before, joined[0], joined[1..]);
      rows := WithRow(before, WatchRow(joined[0].product, CardOf(GroupOf(joined, joined[0].product))));
    }
  }

  lemma {:induction false} GroupOfTagged(id: int, rows: seq<Joined>, product: int)
    ensures GroupOf(Tagged(id, rows), product) == if id == product then rows else []
  {
    if rows != [] {
      GroupOfTagged(id, rows[1..], product);
      assert ([Grouped(id, rows[0])] + Tagged(id, rows[1..]))[1..] == Tagged(id, rows[1..]);
    }
  }

  lemma {:induction false} ForWatchesOnce(watches: seq<Watch>, w: Watch, rows: seq<Grouped>)
    requires Distinct(watches)
    ensures ForWatches(watches, w, rows) == if w in watches then rows else []
  {
    if watches != [] {
      assert watches == [watches[0]] + watches[1..];
      ForWatchesOnce(watches[1..], w, rows);
    }
  }

  // A watched product's group is the group of its own card, and no other product has one.
  lemma {:induction false} WatchGroup(products: seq<Product>, watches: seq<Watch>, links: seq<Link>,
                                      latest: seq<PriceRow>, user: int, product: int)
    requires Distinct(watches)
    ensures GroupOf(WatchJoin(products, watches, links, latest, user), product)
         == if Watch(user, product) in watches then DetailRows(products, links, latest, product) else []
  {
    if products != [] {
      var id := products[0].id;
      var own := Tagged(id, OuterJoin(LinksOf(links, id), latest));
      WatchGroup(products[1..], watches, links, latest, user, product);
      ForWatchesOnce(watches, Watch(user, id), own);
      GroupOfTagged(id, OuterJoin(LinksOf(links, id), latest), product);
      GroupOfConcat(ForWatches(watches, Watch(user, id), own), WatchJoin(products[1..], watches, links, latest, user),
                    product);
    }
  }

  // The watchlist has one row for each watched product that has a shop and no other row, and the row
  // shows the range and the number of shops of the product's own card.
  lemma WatchlistMatchesDetail(rows: seq<WatchRow>, products: seq<Product>, watches: seq<Watch>, links: seq<Link>,
                               history: seq<PriceRow>, user: int, product: int, today: int)
    requires UniqueProducts(products) && UniqueRows(history) && Distinct(watches)
    requires ListWatchlist(rows, products, watches, links, history, user, today)
    ensures forall i, j | 0 <= i < j < |rows| :: rows[i].id != rows[j].id
    ensures (exists r | r in rows :: r.id == product)
       <==> Watch(user, product) in watches && Has(products, product) && LinksOf(links, product) != []
    ensures forall r | r in rows && r.id == product ::
              GetDetail(products, links, history, product, today) == Some(r.card)
  {
    var latest := LatestPrices(history, Some(today));
    WatchGroup(products, watches, links, latest, user, product);
    ShopsCountExact(products, links, history, product, today);
    assert GroupOf(WatchJoin(products, watches, links, latest, user), product) != []
           ==> exists r | r in rows :: r.id == product;
  }

  /***** PriceRepo.get_current_prices *****/

  datatype Current = Current(shopName: string, price: int, at: int)

  function JoinShops(row: PriceRow, link: Link, shops: seq<Shop>): seq<Current> {
    if shops == [] then []
    else (if shops[0].id == link.shop then [Current(shops[0].name, row.price, row.at)] else [])
         + JoinShops(row, link, shops[1..])
  }

  function JoinLinks(row: PriceRow, links: seq<Link>, shops: seq<Shop>, product: int): seq<Current> {
    if links == [] then []
    else (if links[0].id == row.ps && links[0].product == product then JoinShops(row, links[0], shops) else [])
         + JoinLinks(row, links[1..], shops, product)
  }

  // latest JOIN ProductShop JOIN Shop WHERE product_id == product
  function CurrentRows(latest: seq<PriceRow>, links: seq<Link>, shops: seq<Shop>, product: int): seq<Current> {
    if latest == [] then []
    else JoinLinks(latest[0], links, shops, product) + CurrentRows(latest[1..], links, shops, product)
  }

  function GetCurrentPrices(links: seq<Link>, shops: seq<Shop>, history: seq<PriceRow>, product: int,
                            today: int): seq<Current> {
    CurrentRows(LatestPrices(history, Some(today)), links, shops, product)
  }

  lemma {:induction false} InJoinShops(row: PriceRow, link: Link, shops: seq<Shop>, x: Current)
    ensures x in JoinShops(row, link, shops)
       <==> exists s | s in shops :: s.id == link.shop && x == Current(s.name, row.price, row.at)
  {
    if shops != [] {
      assert shops == [shops[0]] + shops[1..];
      InJoinShops(row, link, shops[1..], x);
    }
  }

  // The row of the query for a price row, its link and the link's shop.
  ghost predicate Joins(x: Current, r: PriceRow, links: seq<Link>, shops: seq<Shop>, product: int) {
    exists l, s | l in links && s in shops ::
      l.id == r.ps && l.product == product && s.id == l.shop && x == Current(s.name, r.price, r.at)
  }

  lemma {:induction false} InJoinLinks(row: PriceRow, links: seq<Link>, shops: seq<Shop>, product: int, x: Current)
    ensures x in JoinLinks(row, links, shops, product) <==> Joins(x, row, links, shops, product)
  {
    if links != [] {
      assert links == [links[0]] + links[1..];
      InJoinLinks(row, links[1..], shops, product, x);
      InJoinShops(row, links[0], shops, x);
    }
  }

  // A row is in the list of current prices exactly when it is the latest price of one of the
  // product's shops, with that shop's name and the time of the price.
  lemma {:induction false} InCurrentRows(latest: seq<PriceRow>, links: seq<Link>, shops: seq<Shop>, product: int,
                                         x: Current)
    ensures x in CurrentRows(latest, links, shops, product)
       <==> exists r | r in latest :: Joins(x, r, links, shops, product)
  {
    if latest != [] {
      assert latest == [latest[0]] + latest[1..];
      InCurrentRows(latest[1..], links, shops, product, x);
      InJoinLinks(latest[0], links, shops, product, x);
    }
  }

  function ListPrices(rows: seq<Current>): seq<int> {
    if rows == [] then [] else [rows[0].price] + ListPrices(rows[1..])
  }

  // Foreign key: every link's shop exists.
  ghost predicate ShopsExist(links: seq<Link>, shops: seq<Shop>) {
    forall l | l in links :: exists s | s in shops :: s.id == l.shop
  }

  // The price of a row once for every link of the product that it belongs to.
  function Copies(row: PriceRow, links: seq<Link>): seq<int> {
    if links == [] then []
    else (if links[0].id == row.ps then [row.price] else []) + Copies(row, links[1..])
  }

  lemma {:induction false} ListPricesConcat(a: seq<Current>, b: seq<Current>)
    ensures ListPrices(a + b) == ListPrices(a) + ListPrices(b)
  {
    if a == [] {
      assert a + b == b;
    } else {
      ListPricesConcat(a[1..], b);
      assert (a + b)[1..] == a[1..] + b && (a + b)[0] == a[0];
    }
  }

  lemma {:induction false} PricesConcat(a: seq<Joined>, b: seq<Joined>)
    ensures Prices(a + b) == Prices(a) + Prices(b)
  {
    if a == [] {
      assert a + b == b;
    } else {
      PricesConcat(a[1..], b);
      assert (a + b)[1..] == a[1..] + b && (a + b)[0] == a[0];
      var head := if a[0].price.Some? then [a[0].price.value] else [];
      assert Prices(a + b) == head + (Prices(a[1..]) + Prices(b));
      assert Prices(a) == head + Prices(a[1..]);
    }
  }

  lemma {:induction false} JoinShopsOnce(row: PriceRow, link: Link, shops: seq<Shop>)
    requires UniqueShops(shops)
    ensures (exists s | s in shops :: s.id == link.shop) ==> ListPrices(JoinShops(row, link, shops)) == [row.price]
    ensures (forall s | s in shops :: s.id != link.shop) ==> JoinShops(row, link, shops) == []
  {
    if shops != [] {
      assert shops == [shops[0]] + shops[1..];
      JoinShopsOnce(row, link, shops[1..]);
      if shops[0].id == link.shop {
        assert JoinShops(row, link, shops) == [Current(shops[0].name, row.price, row.at)];
      }
    }
  }

  lemma {:induction false} JoinLinksCopies(row: PriceRow, links: seq<Link>, shops: seq<Shop>, product: int)
    requires UniqueShops(shops) && ShopsExist(links, shops)
    ensures ListPrices(JoinLinks(row, links, shops, product)) == Copies(row, LinksOf(links, product))
  {
    if links != [] {
      var l, rest := links[0], links[1..];
      assert links == [l] + rest;
      assert l in links && forall x | x in rest :: x in links;
      JoinLinksCopies(row, rest, shops, product);
      JoinShopsOnce(row, l, shops);
      var head := if l.id == row.ps && l.product == product then JoinShops(row, l, shops) else [];
      ListPricesConcat(head, JoinLinks(row, rest, shops, product));
      assert JoinLinks(row, links, shops, product) == head + JoinLinks(row, rest, shops, product);
      CopiesCons(row, l, LinksOf(rest, product));
    }
  }

  lemma CopiesCons(row: PriceRow, l: Link, links: seq<Link>)
    ensures Copies(row, [l] + links) == (if l.id == row.ps then [row.price] else []) + Copies(row, links)
    ensures Copies(row, [] + links) == [] + Copies(row, links)
  {
    assert ([l] + links)[1..] == links;
    assert [] + links == links;
  }

  // One more latest row adds its price once for every link it belongs to.
  lemma {:induction false} OuterJoinCons(links: seq<Link>, row: PriceRow, latest: seq<PriceRow>)
    ensures multiset(Prices(OuterJoin(links, [row] + latest)))
         == multiset(Prices(OuterJoin(links, latest))) + multiset(Copies(row, links))
  {
    if links != [] {
      var l, rest := links[0], links[1..];
      OuterJoinCons(rest, row, latest);
      PricesConcat(OuterHead(l, latest), OuterJoin(rest, latest));
      PricesConcat(OuterHead(l, [row] + latest), OuterJoin(rest, [row] + latest));
      OuterHeadCons(l, row, latest);
    }
  }

  lemma OuterHeadCons(l: Link, row: PriceRow, latest: seq<PriceRow>)
    ensures Prices(OuterHead(l, [row] + latest))
         == (if row.ps == l.id then [row.price] else []) + Prices(OuterHead(l, latest))
  {
    var m := Matches(latest, l);
    assert ([row] + latest)[1..] == latest;
    if row.ps == l.id {
      var j := Joined(l, Some(row.price));
      assert Matches([row] + latest, l) == [j] + m;
      assert ([j] + m)[1..] == m;
      assert Prices([Joined(l, None)]) == [];
    } else {
      assert Matches([row] + latest, l) == m;
    }
  }

  lemma {:induction false} NoPrices(links: seq<Link>)
    ensures Prices(OuterJoin(links, [])) == []
  {
    if links != [] {
      NoPrices(links[1..]);
      PricesConcat([Joined(links[0], None)], OuterJoin(links[1..], []));
    }
  }

  // The list of current prices and the card's outer join hold the same prices, each as often.
  lemma {:induction false} SamePrices(latest: seq<PriceRow>, links: seq<Link>, shops: seq<Shop>, product: int)
    requires UniqueShops(shops) && ShopsExist(links, shops)
    ensures multiset(ListPrices(CurrentRows(latest, links, shops, product)))
         == multiset(Prices(OuterJoin(LinksOf(links, product), latest)))
  {
    if latest == [] {
      NoPrices(LinksOf(links, product));
    } else {
      SamePrices(latest[1..], links, shops, product);
      JoinLinksCopies(latest[0], links, shops, product);
      ListPricesConcat(JoinLinks(latest[0], links, shops, product), CurrentRows(latest[1..], links, shops, product));
      OuterJoinCons(LinksOf(links, product), latest[0], latest[1..]);
      assert latest == [latest[0]] + latest[1..];
    }
  }

  /***** Both, as the service shows them *****/

  function ShownAll(prices: seq<int>, c: Currency, rateUsd: Rate, rateOther: Rate): seq<int> {
    if prices == [] then []
    else [Shown(prices[0], c, rateUsd, rateOther)] + ShownAll(prices[1..], c, rateUsd, rateOther)
  }

  // PriceService._convert_opt
  function ShownOpt(price: Option<int>, c: Currency, rateUsd: Rate, rateOther: Rate): Option<int> {
    if price.None? then None else Some(Shown(price.value, c, rateUsd, rateOther))
  }

  // Conversion commutes with min and max.
  lemma {:induction false} ShownMinMax(prices: seq<int>, c: Currency, rateUsd: Rate, rateOther: Rate)
    ensures MinOf(ShownAll(prices, c, rateUsd, rateOther)) == ShownOpt(MinOf(prices), c, rateUsd, rateOther)
    ensures MaxOf(ShownAll(prices, c, rateUsd, rateOther)) == ShownOpt(MaxOf(prices), c, rateUsd, rateOther)
  {
    if prices != [] {
      var rest := prices[1..];
      ShownMinMax(rest, c, rateUsd, rateOther);
      assert ShownAll(prices, c, rateUsd, rateOther)[1..] == ShownAll(rest, c, rateUsd, rateOther);
      if rest != [] {
        OrderKept(MinOf(rest).value, prices[0], c, rateUsd, rateOther);
        OrderKept(prices[0], MaxOf(rest).value, c, rateUsd, rateOther);
      }
    }
  }

  lemma OrderKept(p: int, q: int, c: Currency, rateUsd: Rate, rateOther: Rate)
    ensures p <= q ==> Shown(p, c, rateUsd, rateOther) <= Shown(q, c, rateUsd, rateOther)
    ensures q <= p ==> Shown(q, c, rateUsd, rateOther) <= Shown(p, c, rateUsd, rateOther)
  {
    if p <= q { ShownMonotone(p, q, c, rateUsd, rateOther); }
    if q <= p { ShownMonotone(q, p, c, rateUsd, rateOther); }
  }

  // The card's displayed range is the range of the displayed list, and is absent exactly when the
  // list is empty, at any rates.
  lemma CardMatchesList(products: seq<Product>, links: seq<Link>, shops: seq<Shop>, history: seq<PriceRow>,
                        product: int, today: int, c: Currency, rateUsd: Rate, rateOther: Rate)
    requires UniqueProducts(products) && UniqueShops(shops) && ShopsExist(links, shops)
    requires GetDetail(products, links, history, product, today).Some?
    ensures var card := GetDetail(products, links, history, product, today).value;
            var rows := GetCurrentPrices(links, shops, history, product, today);
            var list := ShownAll(ListPrices(rows), c, rateUsd, rateOther);
            && ShownOpt(card.priceMin, c, rateUsd, rateOther) == MinOf(list)
            && ShownOpt(card.priceMax, c, rateUsd, rateOther) == MaxOf(list)
            && (card.priceMin.None? <==> rows == []) && (card.priceMax.None? <==> rows == [])
  {
    var latest := LatestPrices(history, Some(today));
    DetailRowsOnce(products, links, latest, product);
    SamePrices(latest, links, shops, product);
    var list := ListPrices(GetCurrentPrices(links, shops, history, product, today));
    MinMaxOfSame(list, Prices(OuterJoin(LinksOf(links, product), latest)));
    ShownMinMax(list, c, rateUsd, rateOther);
  }
}
