/** The watchlist page: sorting by one of four options, and cutting the sorted list into pages. */
module Listing {
  import opened Wrappers
  import opened Collections
  import opened Money
  import opened RateStore
  import opened CurrencyServices
  import opened PageRates
  import opened HeldRates
  import opened Tables
  import opened Cards
  import opened ProductPages

  datatype Trend = Up | Down | Same

  datatype SortOption = PriceAsc | PriceDesc | TrendAsc | TrendDesc

  datatype Item = Item(id: int, priceMin: Option<int>, priceMax: Option<int>, trend: Trend)

  /***** _sort_items *****/

  // (x is None, x or 0)
  function PriceKey(price: Option<int>): (int, int) {
    if price.None? then (1, 0) else (0, price.value)
  }

  function Key(x: Item, sort: SortOption): (int, int) {
    match sort
    case PriceAsc => PriceKey(x.priceMin)
    case PriceDesc => PriceKey(x.priceMax)
    case TrendAsc => (0, match x.trend case Down => 0 case Same => 1 case Up => 2)
    case TrendDesc => (0, match x.trend case Up => 0 case Same => 1 case Down => 2)
  }

  predicate LessKey(a: (int, int), b: (int, int)) {
    a.0 < b.0 || (a.0 == b.0 && a.1 < b.1)
  }

  // x must stand before y: reverse=True for the descending price.
  predicate Less(x: Item, y: Item, sort: SortOption) {
    if sort == PriceDesc then LessKey(Key(y, sort), Key(x, sort)) else LessKey(Key(x, sort), Key(y, sort))
  }

  function Insert(x: Item, items: seq<Item>, sort: SortOption): seq<Item> {
    if items == [] || !Less(items[0], x, sort) then [x] + items else [items[0]] + Insert(x, items[1..], sort)
  }

  // sorted(items, key=...), with reverse for PriceDesc.
  function SortItems(items: seq<Item>, sort: SortOption): seq<Item> {
    if items == [] then [] else Insert(items[0], SortItems(items[1..], sort), sort)
  }

  predicate Ordered(items: seq<Item>, sort: SortOption) {
    forall i, j | 0 <= i < j < |items| :: !Less(items[j], items[i], sort)
  }

  // The items with a key, in the order of the list.
  function WithKey(items: seq<Item>, key: (int, int), sort: SortOption): seq<Item> {
    if items == [] then []
    else (if Key(items[0], sort) == key then [items[0]] else []) + WithKey(items[1..], key, sort)
  }

  // A stable sort: in order, and items with equal keys keep their order.
  ghost predicate StableSortOf(sorted: seq<Item>, items: seq<Item>, sort: SortOption) {
    Ordered(sorted, sort) && forall key :: WithKey(sorted, key, sort) == WithKey(items, key, sort)
  }

  lemma {:induction false} InInsert(x: Item, items: seq<Item>, sort: SortOption)
    ensures forall y :: y in Insert(x, items, sort) <==> y == x || y in items
    ensures multiset(Insert(x, items, sort)) == multiset{x} + multiset(items)
  {
    if items != [] {
      assert items == [items[0]] + items[1..];
      if Less(items[0], x, sort) { InInsert(x, items[1..], sort); }
    }
  }

  lemma {:induction false} InsertOrdered(x: Item, items: seq<Item>, sort: SortOption)
    requires Ordered(items, sort)
    ensures Ordered(Insert(x, items, sort), sort)
  {
    if items != [] && Less(items[0], x, sort) {
      InsertOrdered(x, items[1..], sort);
      InInsert(x, items[1..], sort);
      var more := Insert(x, items[1..], sort);
      assert forall i | 0 <= i < |more| :: more[i] in more;
      assert forall y | y in items[1..] :: !Less(y, items[0], sort);
    }
  }

  lemma WithKeyCons(x: Item, items: seq<Item>, key: (int, int), sort: SortOption)
    ensures WithKey([x] + items, key, sort) == (if Key(x, sort) == key then [x] else []) + WithKey(items, key, sort)
  {
    assert ([x] + items)[1..] == items;
  }

  lemma {:induction false} InsertStable(x: Item, items: seq<Item>, key: (int, int), sort: SortOption)
    ensures WithKey(Insert(x, items, sort), key, sort)
            == (if Key(x, sort) == key then [x] else []) + WithKey(items, key, sort)
  {
    if items == [] || !Less(items[0], x, sort) {
      WithKeyCons(x, items, key, sort);
    } else {
      InsertStable(x, items[1..], key, sort);
      WithKeyCons(items[0], Insert(x, items[1..], sort), key, sort);
      assert Key(items[0], sort) != Key(x, sort);
    }
  }

  lemma {:induction false} SortIsStable(items: seq<Item>, sort: SortOption)
    ensures StableSortOf(SortItems(items, sort), items, sort)
    ensures multiset(SortItems(items, sort)) == multiset(items)
  {
    if items != [] {
      SortIsStable(items[1..], sort);
      assert items == [items[0]] + items[1..];
      InInsert(items[0], SortItems(items[1..], sort), sort);
      InsertOrdered(items[0], SortItems(items[1..], sort), sort);
      forall key ensures WithKey(SortItems(items, sort), key, sort) == WithKey(items, key, sort) {
        InsertStable(items[0], SortItems(items[1..], sort), key, sort);
      }
    }
  }

  lemma {:induction false} HasKey(items: seq<Item>, key: (int, int), sort: SortOption)
    ensures WithKey(items, key, sort) != [] <==> exists x | x in items :: Key(x, sort) == key
  {
    if items != [] {
      assert items == [items[0]] + items[1..];
      HasKey(items[1..], key, sort);
    }
  }

  lemma SameTail(s: seq<Item>, t: seq<Item>, head: seq<Item>)
    requires head + s == head + t
    ensures s == t
  {
    assert (head + s)[|head|..] == s && (head + t)[|head|..] == t;
  }

  lemma HeadHasKey(items: seq<Item>, sort: SortOption)
    requires items != []
    ensures exists key :: WithKey(items, key, sort) != []
  {
    assert WithKey(items, Key(items[0], sort), sort) != [];
  }

  lemma NoKeys(items: seq<Item>, sort: SortOption)
    requires forall key :: WithKey(items, key, sort) == []
    ensures items == []
  {
    if items != [] {
      HeadHasKey(items, sort);
      assert false;
    }
  }

  ghost predicate SameByKey(a: seq<Item>, b: seq<Item>, sort: SortOption) {
    forall key :: WithKey(a, key, sort) == WithKey(b, key, sort)
  }

  // The first item's key is one of the other list's, and no key of an ordered list comes before its first.
  lemma HeadFound(a: seq<Item>, b: seq<Item>, sort: SortOption)
    requires a != [] && SameByKey(a, b, sort) && Ordered(b, sort)
    ensures b != [] && !Less(a[0], b[0], sort)
  {
    var key := Key(a[0], sort);
    assert WithKey(a, key, sort) == WithKey(b, key, sort);
    HasKey(b, key, sort);
    var i :| 0 <= i < |b| && Key(b[i], sort) == key;
  }

  lemma SameHead(a: seq<Item>, b: seq<Item>, sort: SortOption)
    requires a != [] && SameByKey(a, b, sort) && Ordered(a, sort) && Ordered(b, sort)
    ensures b != [] && a[0] == b[0]
  {
    HeadFound(a, b, sort);
    HeadFound(b, a, sort);
    var key := Key(a[0], sort);
    assert Key(b[0], sort) == key;
    assert WithKey(a, key, sort) == WithKey(b, key, sort);
    assert WithKey(a, key, sort)[0] == a[0] && WithKey(b, key, sort)[0] == b[0];
  }

  lemma SameRest(a: seq<Item>, b: seq<Item>, sort: SortOption)
    requires a != [] && b != [] && a[0] == b[0] && SameByKey(a, b, sort)
    ensures SameByKey(a[1..], b[1..], sort)
  {
    forall key ensures WithKey(a[1..], key, sort) == WithKey(b[1..], key, sort) {
      assert WithKey(a, key, sort) == WithKey(b, key, sort);
      WithKeyCons(a[0], a[1..], key, sort);
      WithKeyCons(b[0], b[1..], key, sort);
      assert a == [a[0]] + a[1..] && b == [b[0]] + b[1..];
      SameTail(WithKey(a[1..], key, sort), WithKey(b[1..], key, sort), if Key(a[0], sort) == key then [a[0]] else []);
    }
  }

  // There is only one stable sort of a list, so every implementation of sorted gives SortItems.
  lemma {:induction false} StableSortUnique(a: seq<Item>, b: seq<Item>, sort: SortOption)
    requires SameByKey(a, b, sort) && Ordered(a, sort) && Ordered(b, sort)
    ensures a == b
  {
    if a == [] {
      NoKeys(b, sort);
    } else {
      SameHead(a, b, sort);
      SameRest(a, b, sort);
      StableSortUnique(a[1..], b[1..], sort);
      assert a == [a[0]] + a[1..] && b == [b[0]] + b[1..];
    }
  }

  lemma SortedIsSortItems(sorted: seq<Item>, items: seq<Item>, sort: SortOption)
    requires StableSortOf(sorted, items, sort)
    ensures sorted == SortItems(items, sort)
  {
    SortIsStable(items, sort);
    forall key ensures WithKey(sorted, key, sort) == WithKey(SortItems(items, sort), key, sort) {
      assert WithKey(sorted, key, sort) == WithKey(items, key, sort);
    }
    StableSortUnique(sorted, SortItems(items, sort), sort);
  }

  // Items without a price come last in ascending order and, as coded, first in descending order.
  lemma UnpricedPlacement(items: seq<Item>, i: nat, j: nat)
    requires i < j < |items|
    ensures var asc := SortItems(items, PriceAsc);
            |asc| == |items| && (asc[i].priceMin.None? ==> asc[j].priceMin.None?)
    ensures var desc := SortItems(items, PriceDesc);
            |desc| == |items| && (desc[j].priceMax.None? ==> desc[i].priceMax.None?)
  {
    SortIsStable(items, PriceAsc);
    SortIsStable(items, PriceDesc);
    assert |SortItems(items, PriceAsc)| == |multiset(items)| == |SortItems(items, PriceDesc)|;
  }

  // The items with a price, or with none, at the lower or the upper end, and those with a trend.
  function WithMin(items: seq<Item>, price: Option<int>): seq<Item> {
    if items == [] then []
    else (if items[0].priceMin == price then [items[0]] else []) + WithMin(items[1..], price)
  }

  function WithMax(items: seq<Item>, price: Option<int>): seq<Item> {
    if items == [] then []
    else (if items[0].priceMax == price then [items[0]] else []) + WithMax(items[1..], price)
  }

  function WithTrend(items: seq<Item>, trend: Trend): seq<Item> {
    if items == [] then []
    else (if items[0].trend == trend then [items[0]] else []) + WithTrend(items[1..], trend)
  }

  lemma {:induction false} WithMinIs(items: seq<Item>, price: Option<int>)
    ensures WithMin(items, price) == WithKey(items, PriceKey(price), PriceAsc)
  {
    if items != [] { WithMinIs(items[1..], price); }
  }

  lemma {:induction false} WithMaxIs(items: seq<Item>, price: Option<int>)
    ensures WithMax(items, price) == WithKey(items, PriceKey(price), PriceDesc)
  {
    if items != [] { WithMaxIs(items[1..], price); }
  }

  lemma {:induction false} WithTrendIs(items: seq<Item>, trend: Trend, sort: SortOption)
    requires sort == TrendAsc || sort == TrendDesc
    ensures WithTrend(items, trend) == WithKey(items, Key(Item(0, None, None, trend), sort), sort)
  {
    if items != [] { WithTrendIs(items[1..], trend, sort); }
  }

  // Items with equal prices, without a price, or with equal trends stand in the order of the list.
  lemma EqualsKeepOrder(items: seq<Item>, price: Option<int>, trend: Trend)
    ensures WithMin(SortItems(items, PriceAsc), price) == WithMin(items, price)
    ensures WithMax(SortItems(items, PriceDesc), price) == WithMax(items, price)
    ensures WithTrend(SortItems(items, TrendAsc), trend) == WithTrend(items, trend)
    ensures WithTrend(SortItems(items, TrendDesc), trend) == WithTrend(items, trend)
  {
    SortIsStable(items, PriceAsc);
    WithMinIs(items, price);
    WithMinIs(SortItems(items, PriceAsc), price);
    SortIsStable(items, PriceDesc);
    WithMaxIs(items, price);
    WithMaxIs(SortItems(items, PriceDesc), price);
    TrendsKeepOrder(items, trend, TrendAsc);
    TrendsKeepOrder(items, trend, TrendDesc);
  }

  lemma TrendsKeepOrder(items: seq<Item>, trend: Trend, sort: SortOption)
    requires sort == TrendAsc || sort == TrendDesc
    ensures WithTrend(SortItems(items, sort), trend) == WithTrend(items, trend)
  {
    SortIsStable(items, sort);
    WithTrendIs(items, trend, sort);
    WithTrendIs(SortItems(items, sort), trend, sort);
  }

  function TrendRank(t: Trend): int { match t case Down => -1 case Same => 0 case Up => 1 }

  // What the four options mean for two items in the result: prices ascend by their lower end and
  // descend by their upper end, trends ascend from down to up and descend from up to down.
  lemma SortOrder(items: seq<Item>, sort: SortOption, i: nat, j: nat)
    requires i < j < |items|
    ensures var s := SortItems(items, sort);
            && |s| == |items|
            && (sort == PriceAsc && s[i].priceMin.Some? && s[j].priceMin.Some?
                ==> s[i].priceMin.value <= s[j].priceMin.value)
            && (sort == PriceDesc && s[i].priceMax.Some? && s[j].priceMax.Some?
                ==> s[i].priceMax.value >= s[j].priceMax.value)
            && (sort == TrendAsc ==> TrendRank(s[i].trend) <= TrendRank(s[j].trend))
            && (sort == TrendDesc ==> TrendRank(s[i].trend) >= TrendRank(s[j].trend))
  {
    SortIsStable(items, sort);
    SortLength(items, sort);
    assert !Less(SortItems(items, sort)[j], SortItems(items, sort)[i], sort);
  }

  lemma SortLength(items: seq<Item>, sort: SortOption)
    ensures |SortItems(items, sort)| == |items|
  {
    SortIsStable(items, sort);
    assert |SortItems(items, sort)| == |multiset(SortItems(items, sort))|;
  }

  /***** Paging *****/

  function Clamp(i: int, n: nat): nat { if i < 0 then 0 else if i > n then n else i }

  // items[offset : offset + page_size]; slices clamp.
  function Slice(items: seq<Item>, offset: int, pageSize: int): seq<Item>
    requires 1 <= pageSize
  {
    items[Clamp(offset, |items|)..Clamp(offset + pageSize, |items|)]
  }

  function Page(items: seq<Item>, page: int, pageSize: int): seq<Item>
    requires 1 <= page && 1 <= pageSize
  {
    Slice(items, (page - 1) * pageSize, pageSize)
  }

  lemma SliceAdjoins(items: seq<Item>, offset: int, pageSize: int)
    requires 1 <= pageSize && 0 <= offset
    ensures items[..Clamp(offset, |items|)] + Slice(items, offset, pageSize)
         == items[..Clamp(offset + pageSize, |items|)]
  {}

  function FirstPages(items: seq<Item>, n: nat, pageSize: int): seq<Item>
    requires 1 <= pageSize
  {
    if n == 0 then [] else FirstPages(items, n - 1, pageSize) + Page(items, n, pageSize)
  }

  // The first n pages are the first n * pageSize items: nothing is lost, repeated or reordered.
  lemma {:induction false} PagesArePrefix(items: seq<Item>, n: nat, pageSize: int)
    requires 1 <= pageSize
    ensures 0 <= n * pageSize && FirstPages(items, n, pageSize) == items[..Clamp(n * pageSize, |items|)]
  {
    if n > 0 {
      PagesArePrefix(items, n - 1, pageSize);
      Next(n - 1, pageSize);
      SliceAdjoins(items, (n - 1) * pageSize, pageSize);
    }
  }

  lemma Next(n: nat, size: int)
    ensures (n + 1) * size == n * size + size
  {}

  // All pages together are the list, and every page after the last item is empty.
  lemma PagesAreAll(items: seq<Item>, n: nat, pageSize: int)
    requires 1 <= pageSize && |items| <= n * pageSize
    ensures FirstPages(items, n, pageSize) == items
    ensures Page(items, n + 1, pageSize) == []
  {
    PagesArePrefix(items, n, pageSize);
  }

  /***** get_products_list *****/

  datatype ListResponse = ListResponse(items: seq<Item>, total: nat)

  // The lower and the upper end of every row's range.
  function Ends(rows: seq<WatchRow>): seq<Option<int>> {
    seq(2 * |rows|, k requires 0 <= k < 2 * |rows| =>
      if k % 2 == 0 then rows[k / 2].card.priceMin else rows[k / 2].card.priceMax)
  }

  function EndAsks(rows: seq<WatchRow>): Asks {
    seq(2 * |rows|, k requires 0 <= k < 2 * |rows| => PriceAsk(Ends(rows)[k]))
  }

  // The list items before sorting, with the given ends; trend gives the trend of a product.
  function Items(rows: seq<WatchRow>, trend: int -> Trend, shown: seq<Option<int>>): seq<Item>
    requires |shown| == 2 * |rows|
  {
    seq(|rows|, i requires 0 <= i < |rows| => Item(rows[i].id, shown[2 * i], shown[2 * i + 1], trend(rows[i].id)))
  }

  // The item of a card at one pair of rates.
  function ItemOf(id: int, card: Card, trend: int -> Trend, c: Currency, r: Rates): Item {
    Item(id, ShownCard(card, c, r).priceMin, ShownCard(card, c, r).priceMax, trend(id))
  }

  function ListPage(s: Store, rows: seq<WatchRow>, trend: int -> Trend, c: Currency, w: World, page: int,
                    pageSize: int, sort: SortOption): (Store, Option<ListResponse>)
    requires 1 <= page && 1 <= pageSize
  {
    var (t, shown) := ConvertAll(s, EndAsks(rows), c, w);
    if shown.None? then (t, None)
    else
      var sorted := SortItems(Items(rows, trend, shown.value), sort);
      (t, Some(ListResponse(Page(sorted, page, pageSize), |rows|)))
  }

  ghost predicate Unpriced(rows: seq<WatchRow>) {
    forall r | r in rows :: r.card.priceMin.None? && r.card.priceMax.None?
  }

  // The items at one pair of rates.
  function ItemsAt(rows: seq<WatchRow>, trend: int -> Trend, c: Currency, r: Rates): seq<Item> {
    seq(|rows|, i requires 0 <= i < |rows| => ItemOf(rows[i].id, rows[i].card, trend, c, r))
  }

  lemma EndsAt(rows: seq<WatchRow>, i: nat)
    requires i < |rows|
    ensures EndAsks(rows)[2 * i] == PriceAsk(rows[i].card.priceMin)
    ensures EndAsks(rows)[2 * i + 1] == PriceAsk(rows[i].card.priceMax)
  {
    assert (2 * i) / 2 == i && (2 * i + 1) / 2 == i && (2 * i) % 2 == 0 && (2 * i + 1) % 2 == 1;
  }

  lemma ShownItem(rows: seq<WatchRow>, trend: int -> Trend, shown: seq<Option<int>>, c: Currency, r: Rates, i: nat)
    requires |shown| == 2 * |rows| && ShownAt(shown, EndAsks(rows), c, r) && i < |rows|
    ensures shown[2 * i] == ShownCard(rows[i].card, c, r).priceMin
    ensures shown[2 * i + 1] == ShownCard(rows[i].card, c, r).priceMax
  {
    EndsAt(rows, i);
  }

  lemma ShownItems(rows: seq<WatchRow>, trend: int -> Trend, shown: seq<Option<int>>, c: Currency, r: Rates)
    requires |shown| == 2 * |rows| && ShownAt(shown, EndAsks(rows), c, r)
    ensures Items(rows, trend, shown) == ItemsAt(rows, trend, c, r)
  {
    forall i | 0 <= i < |rows| ensures Items(rows, trend, shown)[i] == ItemsAt(rows, trend, c, r)[i] {
      ShownItem(rows, trend, shown, c, r, i);
    }
  }

  lemma PricedIff(rows: seq<WatchRow>)
    ensures Priced(EndAsks(rows), 2 * |rows|) <==> !Unpriced(rows)
  {
    if k :| 0 <= k < 2 * |rows| && EndAsks(rows)[k].Some? {
      assert rows[k / 2] in rows;
    }
    if r :| r in rows && !(r.card.priceMin.None? && r.card.priceMax.None?) {
      var i :| 0 <= i < |rows| && rows[i] == r;
      var k := if r.card.priceMin.Some? then 2 * i else 2 * i + 1;
      assert k / 2 == i && EndAsks(rows)[k].Some?;
    }
  }

  lemma ListIs(s: Store, rows: seq<WatchRow>, trend: int -> Trend, c: Currency, w: World)
    ensures var (t, shown) := ConvertAll(s, EndAsks(rows), c, w);
            && (shown.None? <==> !Unpriced(rows) && !InForce(t, c, t.today, RatesNow(t, c)))
            && (shown.Some? && QuietWorld(w, 2 * |rows|) ==>
                  Items(rows, trend, shown.value) == ItemsAt(rows, trend, c, RatesNow(t, c)))
  {
    var (t, shown) := ConvertAll(s, EndAsks(rows), c, w);
    FailsIff(s, EndAsks(rows), 2 * |rows|, c, w);
    PricedIff(rows);
    if shown.Some? && QuietWorld(w, 2 * |rows|) {
      QuietPageToday(s, EndAsks(rows), c, w);
      ShownItems(rows, trend, shown.value, c, RatesNow(t, c));
    }
  }

  lemma NextItem(rows: seq<WatchRow>, i: nat, trend: int -> Trend, shown: seq<Option<int>>, item: Item)
    requires i < |rows| && |shown| == 2 * i
    requires item == Item(rows[i].id, item.priceMin, item.priceMax, trend(rows[i].id))
    ensures Items(rows[..i + 1], trend, shown + [item.priceMin] + [item.priceMax])
         == Items(rows[..i], trend, shown) + [item]
  {}

  // PriceService._convert_opt for both ends of a row's range.
  method ConvertRow(service: CurrencyService, row: WatchRow, trend: int -> Trend, c: Currency, w: World, i: nat,
                    ghost start: Store, ghost asks: Asks, ghost shown: seq<Option<int>>)
    returns (item: Option<Item>)
    requires 2 * i + 1 < |asks|
    requires asks[2 * i] == PriceAsk(row.card.priceMin) && asks[2 * i + 1] == PriceAsk(row.card.priceMax)
    requires Reached(service.State(), start, asks, 2 * i, c, w, shown)
    modifies service
    ensures item.Some? ==>
              && item.value == Item(row.id, item.value.priceMin, item.value.priceMax, trend(row.id))
              && Reached(service.State(), start, asks, 2 * i + 2, c, w,
                         shown + [item.value.priceMin] + [item.value.priceMax])
    ensures item.None? ==> (service.State(), None) == ConvertAll(start, asks, c, w)
  {
    var low := ConvertAsk(service, PriceAsk(row.card.priceMin), c, w, 2 * i, start, asks, shown);
    if low.None? { return None; }
    var high := ConvertAsk(service, PriceAsk(row.card.priceMax), c, w, 2 * i + 1, start, asks, shown + [low.value]);
    if high.None? { return None; }
    return Some(Item(row.id, low.value, high.value, trend(row.id)));
  }

  // The loop over the rows of the watchlist query; None when a rate is missing.
  method ConvertRows(service: CurrencyService, rows: seq<WatchRow>, trend: int -> Trend, c: Currency, w: World)
    returns (items: Option<seq<Item>>)
    modifies service
    ensures var (t, shown) := ConvertAll(old(service.State()), EndAsks(rows), c, w);
            && service.State() == t && (items.Some? <==> shown.Some?)
            && (items.Some? ==> items.value == Items(rows, trend, shown.value))
  {
    ghost var start, asks := service.State(), EndAsks(rows);
    ghost var shown: seq<Option<int>> := [];
    var done: seq<Item> := [];
    for i := 0 to |rows|
      invariant Reached(service.State(), start, asks, 2 * i, c, w, shown)
      invariant |shown| == 2 * i && done == Items(rows[..i], trend, shown)
    {
      EndsAt(rows, i);
      var item := ConvertRow(service, rows[i], trend, c, w, i, start, asks, shown);
      if item.None? { return None; }
      NextItem(rows, i, trend, shown, item.value);
      shown := shown + [item.value.priceMin] + [item.value.priceMax];
      done := done + [item.value];
    }
    assert rows[..|rows|] == rows;
    items := Some(done);
  }

  // None exactly when there is a price and a rate of today is not in force in the end. Otherwise the page
  // of the stable sort of all rows and their number; while no entry expires, no midnight passes and
  // today's rates are not synced, at the rates in force in the end.
  method GetProductsList(service: CurrencyService, rows: seq<WatchRow>, trend: int -> Trend, c: Currency, w: World,
                         page: int, pageSize: int, sort: SortOption,
                         ghost products: seq<Product>, ghost watches: seq<Watch>, ghost links: seq<Link>,
                         ghost history: seq<PriceRow>, ghost user: int)
    returns (response: Option<ListResponse>)
    requires 1 <= page && 1 <= pageSize
    requires ListWatchlist(rows, products, watches, links, history, user, DayStart(service.today))
    modifies service
    ensures (service.State(), response) == ListPage(old(service.State()), rows, trend, c, w, page, pageSize, sort)
    ensures var s, r := service.State(), RatesNow(service.State(), c);
            && (response.None? <==> !Unpriced(rows) && !InForce(s, c, s.today, r))
            && (response.Some? && QuietWorld(w, 2 * |rows|) ==>
                  response.value
                  == ListResponse(Page(SortItems(ItemsAt(rows, trend, c, r), sort), page, pageSize), |rows|))
  {
    ListIs(service.State(), rows, trend, c, w);
    var converted := ConvertRows(service, rows, trend, c, w);
    if converted.None? { return None; }
    var items := SortItems(converted.value, sort);
    SortLength(converted.value, sort);
    var total := |items|;
    var offset := (page - 1) * pageSize;
    response := Some(ListResponse(Slice(items, offset, pageSize), total));
  }

  // The items show the product once if it is watched and has a card, with the range of that card, and
  // otherwise not at all.
  ghost predicate ShowsCard(items: seq<Item>, product: int, watched: bool, card: Option<Card>, trend: int -> Trend,
                            c: Currency, r: Rates) {
    && (forall k, l | 0 <= k < l < |items| :: items[k].id != items[l].id)
    && ((exists x | x in items :: x.id == product) <==> watched && card.Some?)
    && forall x | x in items && x.id == product :: card.Some? && x == ItemOf(product, card.value, trend, c, r)
  }

  lemma ItemsOfRows(rows: seq<WatchRow>, trend: int -> Trend, c: Currency, r: Rates, product: int)
    ensures var items := ItemsAt(rows, trend, c, r);
            && ((exists x | x in items :: x.id == product) <==> exists row | row in rows :: row.id == product)
            && forall x | x in items && x.id == product ::
                 exists row | row in rows :: row.id == product && x == ItemOf(product, row.card, trend, c, r)
  {
    var items := ItemsAt(rows, trend, c, r);
    forall x | x in items && x.id == product
      ensures exists row | row in rows :: row.id == product && x == ItemOf(product, row.card, trend, c, r)
    {
      var k :| 0 <= k < |items| && items[k] == x;
      assert rows[k] in rows;
    }
    if row :| row in rows && row.id == product {
      var k :| 0 <= k < |rows| && rows[k] == row;
      assert items[k] in items;
    }
  }

  lemma ItemsShowCards(rows: seq<WatchRow>, trend: int -> Trend, c: Currency, r: Rates, products: seq<Product>,
                       watches: seq<Watch>, links: seq<Link>, history: seq<PriceRow>, user: int, product: int,
                       today: int)
    requires UniqueProducts(products) && UniqueRows(history) && Distinct(watches)
    requires ListWatchlist(rows, products, watches, links, history, user, today)
    ensures ShowsCard(ItemsAt(rows, trend, c, r), product, Watch(user, product) in watches,
                      GetDetail(products, links, history, product, today), trend, c, r)
  {
    var items := ItemsAt(rows, trend, c, r);
    WatchlistMatchesDetail(rows, products, watches, links, history, user, product, today);
    ShopsCountExact(products, links, history, product, today);
    ItemsOfRows(rows, trend, c, r, product);
    assert forall k | 0 <= k < |rows| :: items[k].id == rows[k].id;
  }

  // If its first conversion leaves its rates held, the list shows each watched product with a shop once,
  // with the range of the product's own card, all at that one pair of rates.
  lemma ListMatchesCards(s: Store, rows: seq<WatchRow>, trend: int -> Trend, c: Currency, w: World, i: nat,
                         products: seq<Product>, watches: seq<Watch>, links: seq<Link>, history: seq<PriceRow>,
                         user: int, product: int, today: int)
    requires UniqueProducts(products) && UniqueRows(history) && Distinct(watches)
    requires ListWatchlist(rows, products, watches, links, history, user, today)
    requires FirstAt(EndAsks(rows), i)
    requires var (t, first) := ConvertFirst(s, EndAsks(rows), i + 1, c, w);
             && first.Some? && Holds(t, c, t.today, RatesNow(t, c))
             && CalmFrom(w, i + 1, 2 * |rows|, c, RatesNow(t, c))
    ensures ConvertAll(s, EndAsks(rows), c, w).1.Some?
    ensures ShowsCard(Items(rows, trend, ConvertAll(s, EndAsks(rows), c, w).1.value), product,
                      Watch(user, product) in watches, GetDetail(products, links, history, product, today), trend, c,
                      RatesNow(ConvertFirst(s, EndAsks(rows), i + 1, c, w).0, c))
  {
    var asks, r := EndAsks(rows), RatesNow(ConvertFirst(s, EndAsks(rows), i + 1, c, w).0, c);
    OnePairOfRates(s, asks, c, w, i);
    ShownItems(rows, trend, ConvertAll(s, asks, c, w).1.value, c, r);
    ItemsShowCards(rows, trend, c, r, products, watches, links, history, user, product, today);
  }
}
