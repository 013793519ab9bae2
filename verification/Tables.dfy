/** The tables behind prices and the queries over them. A table is the sequence of its rows; a query
    result is the sequence of its rows, so a join that repeats a row repeats it here as well. */
module Tables {
  import opened Wrappers

  datatype PriceRow = PriceRow(id: int, ps: int, price: int, at: int)               // price_history
  datatype Link = Link(id: int, product: int, shop: int, externalId: string)        // product_shops
  datatype Shop = Shop(id: int, name: string, adapterKey: Option<string>, active: bool)
  datatype Product = Product(id: int, title: string)

  // What a shop's adapter reports for one of its products.
  datatype ShopProduct = ShopProduct(externalId: string, title: string, price: int)

  // Microseconds of a day; an instant counts microseconds, and days are those of UTC.
  const DAY := 86_400_000_000

  // The first instant of a day. utc_today_start is that of today.
  function DayStart(day: int): int { day * DAY }

  // The last instant of a day.
  function DayEnd(day: int): int { DayStart(day + 1) - 1 }

  lemma InstantOfDay(at: int, dateFrom: int, dateTo: int)
    ensures DayStart(dateFrom) <= at <= DayEnd(dateTo)
       <==> dateFrom <= at / (24 * 60 * 60 * 1_000_000) <= dateTo
  {}

  // The row the database makes of add_price: the identity column numbers it, and now() stamps it with the
  // start of the transaction.
  function NewRow(history: seq<PriceRow>, ps: int, price: int, at: int): PriceRow {
    PriceRow(|history|, ps, price, at)
  }

  /***** Primary keys *****/

  predicate UniqueRows(rows: seq<PriceRow>) {
    forall i, j | 0 <= i < j < |rows| :: rows[i].id != rows[j].id
  }

  predicate UniqueLinks(links: seq<Link>) {
    forall i, j | 0 <= i < j < |links| :: links[i].id != links[j].id
  }

  predicate UniqueShops(shops: seq<Shop>) {
    forall i, j | 0 <= i < j < |shops| :: shops[i].id != shops[j].id
  }

  predicate UniqueProducts(products: seq<Product>) {
    forall i, j | 0 <= i < j < |products| :: products[i].id != products[j].id
  }

  /***** latest_price_subq *****/

  function Windowed(rows: seq<PriceRow>, since: Option<int>): seq<PriceRow> {
    if rows == [] then []
    else (if since.None? || since.value <= rows[0].at then [rows[0]] else []) + Windowed(rows[1..], since)
  }

  // The window's order within a partition: newest first. SQL leaves equal instants open; here the
  // row with the smaller id is first.
  predicate Precedes(a: PriceRow, b: PriceRow) {
    a.ps == b.ps && (a.at > b.at || (a.at == b.at && a.id < b.id))
  }

  // row_number() OVER (PARTITION BY ps ORDER BY at DESC) of row r among the rows.
  function RowNumber(rows: seq<PriceRow>, r: PriceRow): nat {
    if rows == [] then 1 else (if Precedes(rows[0], r) then 1 else 0) + RowNumber(rows[1..], r)
  }

  function Numbered1(rows: seq<PriceRow>, all: seq<PriceRow>): seq<PriceRow> {
    if rows == [] then []
    else (if RowNumber(all, rows[0]) == 1 then [rows[0]] else []) + Numbered1(rows[1..], all)
  }

  function LatestPrices(history: seq<PriceRow>, since: Option<int>): seq<PriceRow> {
    var window := Windowed(history, since);
    Numbered1(window, window)
  }

  lemma {:induction false} FirstIff(rows: seq<PriceRow>, r: PriceRow)
    ensures RowNumber(rows, r) >= 1
    ensures RowNumber(rows, r) == 1 <==> forall x | x in rows :: !Precedes(x, r)
  {
    if rows != [] {
      FirstIff(rows[1..], r);
      assert rows == [rows[0]] + rows[1..];
    }
  }

  lemma {:induction false} InWindow(rows: seq<PriceRow>, since: Option<int>, r: PriceRow)
    ensures r in Windowed(rows, since) <==> r in rows && (since.None? || since.value <= r.at)
  {
    if rows != [] {
      InWindow(rows[1..], since, r);
      assert rows == [rows[0]] + rows[1..];
    }
  }

  lemma {:induction false} InNumbered1(rows: seq<PriceRow>, all: seq<PriceRow>, r: PriceRow)
    ensures r in Numbered1(rows, all) <==> r in rows && forall x | x in all :: !Precedes(x, r)
  {
    if rows != [] {
      InNumbered1(rows[1..], all, r);
      FirstIff(all, rows[0]);
      assert rows == [rows[0]] + rows[1..];
    }
  }

  // A row is in the latest-price relation iff it is in the window and no row of its product_shop
  // in the window is newer (or equally new with a smaller id).
  lemma InLatest(history: seq<PriceRow>, since: Option<int>, r: PriceRow)
    ensures r in LatestPrices(history, since)
       <==> && r in history && (since.None? || since.value <= r.at)
            && forall x | x in history && (since.None? || since.value <= x.at) :: !Precedes(x, r)
  {
    var window := Windowed(history, since);
    InNumbered1(window, window, r);
    forall x ensures x in window <==> x in history && (since.None? || since.value <= x.at) {
      InWindow(history, since, x);
    }
  }

  predicate Functional(latest: seq<PriceRow>) {
    forall i, j | 0 <= i < j < |latest| :: latest[i].ps != latest[j].ps
  }

  lemma {:induction false} WindowedUnique(rows: seq<PriceRow>, since: Option<int>)
    requires UniqueRows(rows)
    ensures UniqueRows(Windowed(rows, since))
  {
    if rows != [] {
      WindowedUnique(rows[1..], since);
      forall x | x in Windowed(rows[1..], since) ensures x.id != rows[0].id {
        InWindow(rows[1..], since, x);
      }
    }
  }

  lemma {:induction false} Numbered1Functional(rows: seq<PriceRow>, all: seq<PriceRow>)
    requires UniqueRows(rows) && forall r | r in rows :: r in all
    ensures Functional(Numbered1(rows, all))
  {
    if rows != [] {
      assert rows == [rows[0]] + rows[1..];
      assert forall r | r in rows[1..] :: r in rows;
      Numbered1Functional(rows[1..], all);
      FirstIff(all, rows[0]);
      forall x | x in Numbered1(rows[1..], all) && RowNumber(all, rows[0]) == 1 ensures x.ps != rows[0].ps {
        InNumbered1(rows[1..], all, x);
        assert !Precedes(x, rows[0]) && !Precedes(rows[0], x);
      }
    }
  }

  // Whatever the history, no product_shop has two latest prices.
  lemma LatestFunctional(history: seq<PriceRow>, since: Option<int>)
    requires UniqueRows(history)
    ensures Functional(LatestPrices(history, since))
  {
    WindowedUnique(history, since);
    Numbered1Functional(Windowed(history, since), Windowed(history, since));
  }

  lemma {:induction false} NewestExists(rows: seq<PriceRow>, r: PriceRow) returns (m: PriceRow)
    requires r in rows
    ensures m in rows && m.ps == r.ps && m.at >= r.at && forall x | x in rows :: !Precedes(x, m)
  {
    assert rows == [rows[0]] + rows[1..];
    if r in rows[1..] {
      m := NewestExists(rows[1..], r);
      if Precedes(rows[0], m) { m := rows[0]; }
    } else if x :| x in rows[1..] && Precedes(x, r) {
      m := NewestExists(rows[1..], x);
    } else {
      m := r;
    }
  }

  // A product_shop with a row in the window has a latest price, at least as new as that row.
  lemma LatestTotal(history: seq<PriceRow>, since: Option<int>, r: PriceRow) returns (m: PriceRow)
    requires r in history && (since.None? || since.value <= r.at)
    ensures m in LatestPrices(history, since) && m.ps == r.ps && m.at >= r.at
  {
    var window := Windowed(history, since);
    InWindow(history, since, r);
    m := NewestExists(window, r);
    InNumbered1(window, window, m);
  }

  lemma {:induction false} FilterCommutes(rows: seq<PriceRow>, since: Option<int>, all: seq<PriceRow>,
                                          window: seq<PriceRow>)
    requires forall x :: x in window <==> x in all && (since.None? || since.value <= x.at)
    ensures Numbered1(Windowed(rows, since), window) == Windowed(Numbered1(rows, all), since)
  {
    if rows != [] {
      FilterCommutes(rows[1..], since, all, window);
      FirstIff(all, rows[0]);
      FirstIff(window, rows[0]);
      assert since.None? || since.value <= rows[0].at
        ==> (RowNumber(all, rows[0]) == 1 <==> RowNumber(window, rows[0]) == 1);
      assert [] + Windowed(rows[1..], since) == Windowed(rows[1..], since);
      assert [] + Numbered1(rows[1..], all) == Numbered1(rows[1..], all);
      assert [] + Numbered1(Windowed(rows[1..], since), window) == Numbered1(Windowed(rows[1..], since), window);
      NumberedCons(rows[0], Windowed(rows[1..], since), window);
      WindowedCons(rows[0], Numbered1(rows[1..], all), since);
    }
  }

  lemma NumberedCons(r: PriceRow, rows: seq<PriceRow>, all: seq<PriceRow>)
    ensures Numbered1([r] + rows, all) == (if RowNumber(all, r) == 1 then [r] else []) + Numbered1(rows, all)
  {
    assert ([r] + rows)[1..] == rows;
  }

  lemma WindowedCons(r: PriceRow, rows: seq<PriceRow>, since: Option<int>)
    ensures Windowed([r] + rows, since)
         == (if since.None? || since.value <= r.at then [r] else []) + Windowed(rows, since)
  {
    assert ([r] + rows)[1..] == rows;
  }

  lemma {:induction false} NoWindow(rows: seq<PriceRow>)
    ensures Windowed(rows, None) == rows
  {
    if rows != [] { NoWindow(rows[1..]); }
  }

  // Restricting the history to a period and taking the latest is the same as taking the latest of
  // all and keeping those of the period: a shop whose latest price is older simply drops out.
  lemma SinceLaw(history: seq<PriceRow>, since: int)
    ensures LatestPrices(history, Some(since)) == Windowed(LatestPrices(history, None), Some(since))
  {
    forall x ensures x in Windowed(history, Some(since)) <==> x in history && since <= x.at {
      InWindow(history, Some(since), x);
    }
    NoWindow(history);
    FilterCommutes(history, Some(since), history, Windowed(history, Some(since)));
  }

  // So the latest prices of a period are the newest rows of all that lie in it.
  lemma LatestIsNewest(history: seq<PriceRow>, since: Option<int>, r: PriceRow)
    ensures r in LatestPrices(history, since)
       <==> && r in history && (since.None? || since.value <= r.at)
            && forall x | x in history :: !Precedes(x, r)
  {
    InLatest(history, None, r);
    if since.Some? {
      SinceLaw(history, since.value);
      InWindow(LatestPrices(history, None), since, r);
    }
  }
}
