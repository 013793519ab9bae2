/** The price history of a product: daily averages per shop from the database, converted, and shown
    once per shop and once averaged over the shops. */
module History {
  import opened Wrappers
  import opened Money
  import opened RateStore
  import opened CurrencyServices
  import opened PageRates
  import opened HeldRates
  import opened Tables
  import opened Cards

  /***** PriceRepo.get_history *****/

  // One group: the average of a shop's prices of a day is sum/count, kept exact.
  datatype DailyRow = DailyRow(shop: string, day: int, sum: int, count: Divisor)

  function InPeriod(history: seq<PriceRow>, dtFrom: int, dtTo: int): seq<PriceRow> {
    if history == [] then []
    else (if dtFrom <= history[0].at <= dtTo then [history[0]] else []) + InPeriod(history[1..], dtFrom, dtTo)
  }

  lemma {:induction false} InPeriodIff(history: seq<PriceRow>, dtFrom: int, dtTo: int, r: PriceRow)
    ensures r in InPeriod(history, dtFrom, dtTo) <==> r in history && dtFrom <= r.at <= dtTo
  {
    if history != [] {
      assert history == [history[0]] + history[1..];
      InPeriodIff(history[1..], dtFrom, dtTo, r);
    }
  }

  function Group(rows: seq<Current>, shop: string, day: int): seq<int> {
    if rows == [] then []
    else
      (if rows[0].shopName == shop && rows[0].at / DAY == day then [rows[0].price] else [])
      + Group(rows[1..], shop, day)
  }

  // GROUP BY name, date ORDER BY name, date; how names compare is the database's business.
  ghost predicate IsHistory(rows: seq<DailyRow>, joined: seq<Current>) {
    && DaysIncrease(rows)
    && (forall r | r in rows :: var g := Group(joined, r.shop, r.day); g != [] && r.sum == Sum(g) && r.count == |g|)
    && (forall shop, day | Group(joined, shop, day) != [] :: exists r | r in rows :: r.shop == shop && r.day == day)
  }

  // Where a new row of the shop and the day belongs: before the first of the shop's later days.
  lemma {:induction false} PlaceFor(rows: seq<DailyRow>, shop: string, day: int) returns (k: nat)
    requires DaysIncrease(rows) && forall r | r in rows :: !(r.shop == shop && r.day == day)
    ensures k <= |rows|
    ensures forall i | 0 <= i < k && rows[i].shop == shop :: rows[i].day < day
    ensures forall i | k <= i < |rows| && rows[i].shop == shop :: day < rows[i].day
  {
    if rows == [] {
      k := 0;
    } else {
      var n := |rows| - 1;
      assert forall r | r in rows[..n] :: r in rows;
      k := PlaceFor(rows[..n], shop, day);
      assert rows[n] in rows && forall i | 0 <= i < n :: rows[..n][i] == rows[i];
      if rows[n].shop == shop && rows[n].day < day {
        k := n + 1;
      }
    }
  }

  lemma InsertKeepsIncrease(rows: seq<DailyRow>, k: nat, row: DailyRow)
    requires DaysIncrease(rows) && k <= |rows|
    requires forall i | 0 <= i < k && rows[i].shop == row.shop :: rows[i].day < row.day
    requires forall i | k <= i < |rows| && rows[i].shop == row.shop :: row.day < rows[i].day
    ensures DaysIncrease(rows[..k] + [row] + rows[k..])
  {}

  lemma UpdatedRows(rows: seq<DailyRow>, i: nat, row: DailyRow)
    requires DaysIncrease(rows) && i < |rows| && rows[i].shop == row.shop && rows[i].day == row.day
    ensures DaysIncrease(rows[i := row])
    ensures forall r :: r in rows[i := row] <==> r == row || (r in rows && !(r.shop == row.shop && r.day == row.day))
  {
    var after := rows[i := row];
    forall r ensures r in after <==> r == row || (r in rows && !(r.shop == row.shop && r.day == row.day)) {
      assert after[i] == row;
      if j :| 0 <= j < |rows| && rows[j] == r && !(r.shop == row.shop && r.day == row.day) { assert after[j] == r; }
      if j :| 0 <= j < |rows| && after[j] == r && j != i { assert rows[j] == r; }
    }
  }

  // The query has an answer for every join.
  lemma {:induction false} HistoryExists(joined: seq<Current>) returns (rows: seq<DailyRow>)
    ensures IsHistory(rows, joined)
  {
    if joined == [] {
      rows := [];
    } else {
      var shop, day := joined[0].shopName, joined[0].at / DAY;
      var before := HistoryExists(joined[1..]);
      var g := Group(joined, shop, day);
      var row := DailyRow(shop, day, Sum(g), |g|);
      if i :| 0 <= i < |before| && before[i].shop == shop && before[i].day == day {
        rows := before[i := row];
        UpdatedRows(before, i, row);
      } else {
        var k := PlaceFor(before, shop, day);
        InsertKeepsIncrease(before, k, row);
        rows := before[..k] + [row] + before[k..];
      }
      HistoryExtends(before, rows, row, joined);
    }
  }

  lemma HistoryExtends(before: seq<DailyRow>, rows: seq<DailyRow>, row: DailyRow, joined: seq<Current>)
    requires joined != [] && IsHistory(before, joined[1..]) && DaysIncrease(rows)
    requires row.shop == joined[0].shopName && row.day == joined[0].at / DAY
    requires row.sum == Sum(Group(joined, row.shop, row.day)) && row.count == |Group(joined, row.shop, row.day)|
    requires forall r :: r in rows <==> r == row || (r in before && !(r.shop == row.shop && r.day == row.day))
    ensures IsHistory(rows, joined)
  {
    forall shop, day | !(shop == row.shop && day == row.day)
      ensures Group(joined, shop, day) == Group(joined[1..], shop, day)
    {}
    forall shop, day | Group(joined, shop, day) != []
      ensures exists r | r in rows :: r.shop == shop && r.day == day
    {
      if !(shop == row.shop && day == row.day) {
        var r :| r in before && r.shop == shop && r.day == day;
        assert r in rows;
      }
    }
  }

  // The rows of the query for a product and a period of instants.
  ghost predicate GetHistory(rows: seq<DailyRow>, history: seq<PriceRow>, links: seq<Link>, shops: seq<Shop>,
                             product: int, dtFrom: int, dtTo: int) {
    IsHistory(rows, CurrentRows(InPeriod(history, dtFrom, dtTo), links, shops, product))
  }

  // A shop of that name recorded a price of the product on the day.
  ghost predicate Recorded(history: seq<PriceRow>, links: seq<Link>, shops: seq<Shop>, product: int, shop: string,
                           day: int) {
    exists r, l, s | r in history && l in links && s in shops ::
      && r.at / (24 * 60 * 60 * 1_000_000) == day
      && l.id == r.ps && l.product == product && s.id == l.shop && s.name == shop
  }

  lemma {:induction false} GroupHas(rows: seq<Current>, shop: string, day: int)
    ensures Group(rows, shop, day) != [] <==> exists x | x in rows :: x.shopName == shop && x.at / DAY == day
  {
    if rows != [] {
      assert rows == [rows[0]] + rows[1..];
      GroupHas(rows[1..], shop, day);
    }
  }

  // What a group holds: the prices of the rows of the shop and the day, each as often as it occurs.
  lemma {:induction false} GroupConcat(a: seq<Current>, b: seq<Current>, shop: string, day: int)
    ensures Group(a + b, shop, day) == Group(a, shop, day) + Group(b, shop, day)
    ensures forall x: Current :: Group([x], shop, day)
              == if x.shopName == shop && x.at / (24 * 60 * 60 * 1_000_000) == day then [x.price] else []
  {
    assert forall x: Current :: [x][1..] == [];
    if a == [] {
      assert a + b == b;
    } else {
      GroupConcat(a[1..], b, shop, day);
      assert (a + b)[1..] == a[1..] + b && (a + b)[0] == a[0];
    }
  }

  // The instants between the first of one day and the last of another are those of the days between.
  // So the history has a row for a shop and a day exactly when a price of the product was recorded there
  // on that day and the day is in the period, both ends included.
  lemma HistoryRowIff(rows: seq<DailyRow>, history: seq<PriceRow>, links: seq<Link>, shops: seq<Shop>,
                      product: int, dateFrom: int, dateTo: int, shop: string, day: int)
    requires GetHistory(rows, history, links, shops, product, DayStart(dateFrom), DayEnd(dateTo))
    ensures (exists r | r in rows :: r.shop == shop && r.day == day)
       <==> Recorded(history, links, shops, product, shop, day) && dateFrom <= day <= dateTo
  {
    var period := InPeriod(history, DayStart(dateFrom), DayEnd(dateTo));
    var joined := CurrentRows(period, links, shops, product);
    GroupHas(joined, shop, day);
    if x :| x in joined && x.shopName == shop && x.at / DAY == day {
      InCurrentRows(period, links, shops, product, x);
      var r :| r in period && Joins(x, r, links, shops, product);
      InPeriodIff(history, DayStart(dateFrom), DayEnd(dateTo), r);
      InstantOfDay(r.at, dateFrom, dateTo);
    }
    if Recorded(history, links, shops, product, shop, day) && dateFrom <= day <= dateTo {
      var r, l, s :| r in history && l in links && s in shops && r.at / (24 * 60 * 60 * 1_000_000) == day
                     && l.id == r.ps && l.product == product && s.id == l.shop && s.name == shop;
      InstantOfDay(r.at, dateFrom, dateTo);
      InPeriodIff(history, DayStart(dateFrom), DayEnd(dateTo), r);
      var x := Current(s.name, r.price, r.at);
      assert Joins(x, r, links, shops, product);
      InCurrentRows(period, links, shops, product, x);
    }
  }

  /***** PriceService.get_price_history *****/

  datatype Point = Point(date: int, price: int)
  datatype Series = Series(shop: string, data: seq<Point>)
  datatype DayPrices = DayPrices(date: int, prices: seq<int>)
  datatype Response = Response(series: seq<Series>, average: seq<Point>)

  // series_map[shop].append(p), the dict being its items in insertion order.
  function AddPoint(series: seq<Series>, shop: string, p: Point): seq<Series> {
    if series == [] then [Series(shop, [p])]
    else if series[0].shop == shop then [Series(shop, series[0].data + [p])] + series[1..]
    else [series[0]] + AddPoint(series[1..], shop, p)
  }

  // daily_all[date].append(price)
  function AddPrice(days: seq<DayPrices>, date: int, price: int): seq<DayPrices> {
    if days == [] then [DayPrices(date, [price])]
    else if days[0].date == date then [DayPrices(date, days[0].prices + [price])] + days[1..]
    else [days[0]] + AddPrice(days[1..], date, price)
  }

  function Insert(d: DayPrices, days: seq<DayPrices>): seq<DayPrices> {
    if days == [] || d.date <= days[0].date then [d] + days else [days[0]] + Insert(d, days[1..])
  }

  // sorted(daily_all.items()): the dates are distinct.
  function Sorted(days: seq<DayPrices>): seq<DayPrices> {
    if days == [] then [] else Insert(days[0], Sorted(days[1..]))
  }

  ghost predicate Nonempty(days: seq<DayPrices>) { forall d | d in days :: d.prices != [] }

  function Averages(days: seq<DayPrices>): seq<Point>
    requires forall d | d in days :: d.prices != []
  {
    if days == [] then []
    else [Point(days[0].date, Round(Sum(days[0].prices), |days[0].prices|))] + Averages(days[1..])
  }

  ghost function SeriesOf(rows: seq<DailyRow>, values: seq<int>): seq<Series>
    requires |values| == |rows|
  {
    if rows == [] then []
    else
      var r := rows[|rows| - 1];
      AddPoint(SeriesOf(rows[..|rows| - 1], values[..|rows| - 1]), r.shop, Point(r.day, values[|rows| - 1]))
  }

  ghost function DaysOf(rows: seq<DailyRow>, values: seq<int>): (days: seq<DayPrices>)
    requires |values| == |rows|
    ensures Nonempty(days)
  {
    if rows == [] then []
    else
      var r := rows[|rows| - 1];
      AddPriceNonempty(DaysOf(rows[..|rows| - 1], values[..|rows| - 1]), r.day, values[|rows| - 1]);
      AddPrice(DaysOf(rows[..|rows| - 1], values[..|rows| - 1]), r.day, values[|rows| - 1])
  }

  lemma {:induction false} AddPriceNonempty(days: seq<DayPrices>, date: int, price: int)
    requires Nonempty(days)
    ensures Nonempty(AddPrice(days, date, price))
  {
    if days != [] {
      assert days == [days[0]] + days[1..];
      assert days[0] in days && forall d | d in days[1..] :: d in days;
      AddPriceNonempty(days[1..], date, price);
    }
  }

  lemma {:induction false} SortedSame(days: seq<DayPrices>)
    ensures multiset(Sorted(days)) == multiset(days)
  {
    if days != [] {
      SortedSame(days[1..]);
      InsertSame(days[0], Sorted(days[1..]));
      assert days == [days[0]] + days[1..];
    }
  }

  lemma {:induction false} InsertSame(d: DayPrices, days: seq<DayPrices>)
    ensures multiset(Insert(d, days)) == multiset{d} + multiset(days)
  {
    if days != [] && d.date > days[0].date {
      InsertSame(d, days[1..]);
      assert days == [days[0]] + days[1..];
    }
  }

  lemma SortedNonempty(days: seq<DayPrices>)
    requires Nonempty(days)
    ensures Nonempty(Sorted(days))
  {
    SortedSame(days);
    assert forall d :: d in Sorted(days) ==> d in multiset(Sorted(days));
  }

  // One convert for each row, for the row's day.
  function DailyAsk(r: DailyRow): Option<Ask> { Some(Ask(r.sum, r.count, Some(r.day))) }

  function DailyAsks(rows: seq<DailyRow>): Asks {
    seq(|rows|, i requires 0 <= i < |rows| => DailyAsk(rows[i]))
  }

  function Values(rows: seq<DailyRow>, shown: seq<Option<int>>): (values: seq<int>)
    requires Fits(shown, DailyAsks(rows), |rows|)
    ensures |values| == |rows| && forall i | 0 <= i < |rows| :: shown[i] == Some(values[i])
  {
    seq(|rows|, i requires 0 <= i < |rows| => assert DailyAsks(rows)[i].Some?; shown[i].value)
  }

  lemma NextSeries(rows: seq<DailyRow>, values: seq<int>, v: int)
    requires |values| < |rows|
    ensures var i, r := |values|, rows[|values|];
            SeriesOf(rows[..i + 1], values + [v]) == AddPoint(SeriesOf(rows[..i], values), r.shop, Point(r.day, v))
  {
    var rs, vs := rows[..|values| + 1], values + [v];
    assert rs[..|rs| - 1] == rows[..|values|] && vs[..|rs| - 1] == values;
  }

  lemma NextDay(rows: seq<DailyRow>, values: seq<int>, v: int)
    requires |values| < |rows|
    ensures DaysOf(rows[..|values| + 1], values + [v])
         == AddPrice(DaysOf(rows[..|values|], values), rows[|values|].day, v)
  {
    var rs, vs := rows[..|values| + 1], values + [v];
    assert rs[..|rs| - 1] == rows[..|values|] && vs[..|rs| - 1] == values;
  }

  // sorted(daily_all.items()), then one rounded mean for every day.
  method DailyAverages(dailyAll: seq<DayPrices>) returns (average: seq<Point>)
    requires Nonempty(dailyAll)
    ensures Nonempty(Sorted(dailyAll)) && average == Averages(Sorted(dailyAll))
  {
    SortedNonempty(dailyAll);
    var sorted := Sorted(dailyAll);
    average := [];
    for i := 0 to |sorted|
      invariant average + Averages(sorted[i..]) == Averages(sorted)
    {
      assert sorted[i..][1..] == sorted[i + 1..];
      average := average + [Point(sorted[i].date, Round(Sum(sorted[i].prices), |sorted[i].prices|))];
    }
  }

  // The response to the values of the rows.
  ghost predicate Presents(response: Response, rows: seq<DailyRow>, values: seq<int>)
    requires |values| == |rows|
  {
    && response.series == SeriesOf(rows, values)
    && Nonempty(Sorted(DaysOf(rows, values)))
    && response.average == Averages(Sorted(DaysOf(rows, values)))
  }

  // The two dicts that the loop over the rows fills.
  datatype Collected = Collected(series: seq<Series>, daily: seq<DayPrices>)

  ghost function Collect(rows: seq<DailyRow>, values: seq<int>): Collected
    requires |values| == |rows|
  {
    Collected(SeriesOf(rows, values), DaysOf(rows, values))
  }

  function Somes(values: seq<int>): seq<Option<int>> {
    seq(|values|, i requires 0 <= i < |values| => Some(values[i]))
  }

  lemma ValuesAre(rows: seq<DailyRow>, values: seq<int>)
    requires |values| == |rows|
    ensures Fits(Somes(values), DailyAsks(rows), |rows|) && Values(rows, Somes(values)) == values
    ensures rows[..|rows|] == rows
  {}

  method ConvertRows(service: CurrencyService, rows: seq<DailyRow>, c: Currency, w: World)
    returns (collected: Option<Collected>)
    modifies service
    ensures var (t, shown) := ConvertAll(old(service.State()), DailyAsks(rows), c, w);
            && service.State() == t && (collected.Some? <==> shown.Some?)
            && (collected.Some? ==> collected.value == Collect(rows, Values(rows, shown.value)))
  {
    ghost var start, asks := service.State(), DailyAsks(rows);
    ghost var values: seq<int> := [];
    var seriesMap: seq<Series> := [];
    var dailyAll: seq<DayPrices> := [];
    assert Somes([]) == [];
    for i := 0 to |rows|
      invariant |values| == i && Reached(service.State(), start, asks, i, c, w, Somes(values))
      invariant Collected(seriesMap, dailyAll) == Collect(rows[..i], values)
    {
      var price := ConvertAsk(service, DailyAsk(rows[i]), c, w, i, start, asks, Somes(values));
      if price.None? { return None; }
      NextSeries(rows, values, price.value.value);
      NextDay(rows, values, price.value.value);
      assert Somes(values) + [price.value] == Somes(values + [price.value.value]);
      values := values + [price.value.value];
      seriesMap := AddPoint(seriesMap, rows[i].shop, Point(rows[i].day, price.value.value));
      dailyAll := AddPrice(dailyAll, rows[i].day, price.value.value);
    }
    ValuesAre(rows, values);
    return Some(Collected(seriesMap, dailyAll));
  }

  // None when a rate is missing: convert's exception leaves the method.
  method GetPriceHistory(service: CurrencyService, rows: seq<DailyRow>, c: Currency, w: World,
                         ghost history: seq<PriceRow>, ghost links: seq<Link>, ghost shops: seq<Shop>,
                         ghost product: int, ghost dateFrom: int, ghost dateTo: int)
    returns (response: Option<Response>)
    requires GetHistory(rows, history, links, shops, product, DayStart(dateFrom), DayEnd(dateTo))
    modifies service
    ensures var (t, shown) := ConvertAll(old(service.State()), DailyAsks(rows), c, w);
            && service.State() == t && (response.Some? <==> shown.Some?)
            && (response.Some? ==> Presents(response.value, rows, Values(rows, shown.value)))
  {
    var collected := ConvertRows(service, rows, c, w);
    if collected.None? { return None; }
    var average := DailyAverages(collected.value.daily);
    return Some(Response(collected.value.series, average));
  }

  // While no entry expires and today's rates are not synced, the history fails exactly when a rate it
  // needs is not in force in the end, and every row is shown at the rates then in force for its day.
  lemma QuietHistory(s: Store, rows: seq<DailyRow>, c: Currency, w: World)
    requires QuietWorld(w, |rows|)
    ensures var (t, shown) := ConvertAll(s, DailyAsks(rows), c, w);
            && (shown.Some? <==> forall i | 0 <= i < |rows| :: Quote(t, DailyAsk(rows[i]).value, c).Some?)
            && (shown.Some? ==> forall i | 0 <= i < |rows| ::
                  Some(Values(rows, shown.value)[i]) == Quote(t, DailyAsk(rows[i]).value, c))
  {
    QuietPage(s, DailyAsks(rows), |rows|, c, w);
    var (t, shown) := ConvertAll(s, DailyAsks(rows), c, w);
    assert forall i | 0 <= i < |rows| :: DailyAsks(rows)[i] == DailyAsk(rows[i]);
  }

  // Whatever expires meanwhile, all shops of a day are shown at one pair of rates if the conversion of
  // the day's first row leaves its rates held.
  lemma ShopsOfDayAtOnePair(s: Store, rows: seq<DailyRow>, c: Currency, w: World, i: nat, j: nat)
    requires i < j < |rows| && rows[i].day == rows[j].day && ConvertAll(s, DailyAsks(rows), c, w).1.Some?
    requires var r := RatesAfter(s, DailyAsks(rows), c, w, i, rows[i].day);
             && Holds(ConvertFirst(s, DailyAsks(rows), i + 1, c, w).0, c, rows[i].day, r)
             && forall k | i < k <= j :: Steady(w.before(k), c, r)
    ensures var r := RatesAfter(s, DailyAsks(rows), c, w, i, rows[i].day);
            var values := Values(rows, ConvertAll(s, DailyAsks(rows), c, w).1.value);
            && values[i] == Convert(rows[i].sum, rows[i].count, c, r.usd, r.other)
            && values[j] == Convert(rows[j].sum, rows[j].count, c, r.usd, r.other)
  {
    assert DailyAsks(rows)[i] == DailyAsk(rows[i]) && DailyAsks(rows)[j] == DailyAsk(rows[j]);
    DaySharesRates(s, DailyAsks(rows), c, w, rows[i].day, i, j);
  }

  /***** The two views hold the same points *****/

  function SeriesPoints(series: seq<Series>): seq<Point> {
    if series == [] then [] else series[0].data + SeriesPoints(series[1..])
  }

  function PointsOn(date: int, prices: seq<int>): seq<Point> {
    if prices == [] then [] else [Point(date, prices[0])] + PointsOn(date, prices[1..])
  }

  function DayPoints(days: seq<DayPrices>): seq<Point> {
    if days == [] then [] else PointsOn(days[0].date, days[0].prices) + DayPoints(days[1..])
  }

  function RowPoints(rows: seq<DailyRow>, values: seq<int>): seq<Point>
    requires |values| == |rows|
  {
    if rows == [] then []
    else RowPoints(rows[..|rows| - 1], values[..|rows| - 1]) + [Point(rows[|rows| - 1].day, values[|rows| - 1])]
  }

  lemma {:induction false} AddPointKeeps(series: seq<Series>, shop: string, p: Point)
    ensures multiset(SeriesPoints(AddPoint(series, shop, p))) == multiset(SeriesPoints(series)) + multiset{p}
  {
    if series != [] {
      if series[0].shop == shop {
        assert AddPoint(series, shop, p)[1..] == series[1..];
      } else {
        AddPointKeeps(series[1..], shop, p);
        assert AddPoint(series, shop, p)[1..] == AddPoint(series[1..], shop, p);
      }
    }
  }

  lemma {:induction false} PointsOnAppend(date: int, prices: seq<int>, price: int)
    ensures PointsOn(date, prices + [price]) == PointsOn(date, prices) + [Point(date, price)]
  {
    if prices == [] {
      assert [] + [price] == [price];
    } else {
      PointsOnAppend(date, prices[1..], price);
      assert (prices + [price])[1..] == prices[1..] + [price];
    }
  }

  lemma {:induction false} AddPriceKeeps(days: seq<DayPrices>, date: int, price: int)
    ensures multiset(DayPoints(AddPrice(days, date, price))) == multiset(DayPoints(days)) + multiset{Point(date, price)}
  {
    PointsOnAppend(date, [], price);
    assert [] + [price] == [price];
    if days != [] {
      if days[0].date == date {
        PointsOnAppend(date, days[0].prices, price);
        assert AddPrice(days, date, price)[1..] == days[1..];
      } else {
        AddPriceKeeps(days[1..], date, price);
        assert AddPrice(days, date, price)[1..] == AddPrice(days[1..], date, price);
      }
    }
  }

  // The series and the groups the averages are taken over are two arrangements of one multiset of
  // points: one converted point for every row of the query.
  lemma {:induction false} SamePoints(rows: seq<DailyRow>, values: seq<int>)
    requires |values| == |rows|
    ensures multiset(SeriesPoints(SeriesOf(rows, values))) == multiset(RowPoints(rows, values))
         == multiset(DayPoints(DaysOf(rows, values)))
  {
    if rows != [] {
      var n := |rows| - 1;
      SamePoints(rows[..n], values[..n]);
      AddPointKeeps(SeriesOf(rows[..n], values[..n]), rows[n].shop, Point(rows[n].day, values[n]));
      AddPriceKeeps(DaysOf(rows[..n], values[..n]), rows[n].day, values[n]);
    }
  }

  /***** Series *****/

  // The points of a shop's rows, in the order of the rows.
  function ShopPoints(rows: seq<DailyRow>, values: seq<int>, shop: string): seq<Point>
    requires |values| == |rows|
  {
    if rows == [] then []
    else
      var r := rows[|rows| - 1];
      ShopPoints(rows[..|rows| - 1], values[..|rows| - 1], shop)
      + if r.shop == shop then [Point(r.day, values[|rows| - 1])] else []
  }

  // The data of the shop's series, empty if it has none.
  function DataOf(series: seq<Series>, shop: string): seq<Point> {
    if series == [] then []
    else if series[0].shop == shop then series[0].data
    else DataOf(series[1..], shop)
  }

  lemma {:induction false} AddPointData(series: seq<Series>, shop: string, p: Point, other: string)
    ensures DataOf(AddPoint(series, shop, p), other) == DataOf(series, other) + if other == shop then [p] else []
  {
    if series != [] {
      if series[0].shop == shop {
        assert AddPoint(series, shop, p)[1..] == series[1..];
      } else {
        AddPointData(series[1..], shop, p, other);
        assert AddPoint(series, shop, p)[1..] == AddPoint(series[1..], shop, p);
      }
    }
  }

  lemma {:induction false} SeriesData(rows: seq<DailyRow>, values: seq<int>, shop: string)
    requires |values| == |rows|
    ensures DataOf(SeriesOf(rows, values), shop) == ShopPoints(rows, values, shop)
  {
    if rows != [] {
      var n := |rows| - 1;
      SeriesData(rows[..n], values[..n], shop);
      AddPointData(SeriesOf(rows[..n], values[..n]), rows[n].shop, Point(rows[n].day, values[n]), shop);
    }
  }

  ghost predicate Increasing(points: seq<Point>) {
    forall i, j | 0 <= i < j < |points| :: points[i].date < points[j].date
  }

  ghost predicate Dated(rows: seq<DailyRow>, shop: string, day: int) {
    exists i | 0 <= i < |rows| :: rows[i].shop == shop && rows[i].day == day
  }

  lemma {:induction false} ShopPointsDated(rows: seq<DailyRow>, values: seq<int>, shop: string, p: Point)
    requires |values| == |rows| && p in ShopPoints(rows, values, shop)
    ensures Dated(rows, shop, p.date)
  {
    var n := |rows| - 1;
    if p in ShopPoints(rows[..n], values[..n], shop) {
      ShopPointsDated(rows[..n], values[..n], shop, p);
      var i :| 0 <= i < |rows[..n]| && rows[..n][i].shop == shop && rows[..n][i].day == p.date;
      assert rows[i] == rows[..n][i];
    } else {
      assert rows[n].shop == shop && rows[n].day == p.date;
    }
  }

  ghost predicate DaysIncrease(rows: seq<DailyRow>) {
    forall i, j | 0 <= i < j < |rows| && rows[i].shop == rows[j].shop :: rows[i].day < rows[j].day
  }

  lemma {:induction false} ShopPointsOrdered(rows: seq<DailyRow>, values: seq<int>, shop: string)
    requires |values| == |rows| && DaysIncrease(rows)
    ensures Increasing(ShopPoints(rows, values, shop))
  {
    if rows != [] {
      var n := |rows| - 1;
      assert DaysIncrease(rows[..n]);
      ShopPointsOrdered(rows[..n], values[..n], shop);
      if rows[n].shop == shop {
        var before := ShopPoints(rows[..n], values[..n], shop);
        forall k | 0 <= k < |before| ensures before[k].date < rows[n].day {
          ShopPointsDated(rows[..n], values[..n], shop, before[k]);
          var i :| 0 <= i < |rows[..n]| && rows[..n][i].shop == shop && rows[..n][i].day == before[k].date;
          assert rows[i] == rows[..n][i];
        }
      }
    }
  }

  ghost predicate DistinctShops(series: seq<Series>) {
    forall i, j | 0 <= i < j < |series| :: series[i].shop != series[j].shop
  }

  ghost predicate HasShop(series: seq<Series>, shop: string) { exists s | s in series :: s.shop == shop }

  lemma DistinctShopsCons(s: Series, rest: seq<Series>)
    requires DistinctShops(rest) && !HasShop(rest, s.shop)
    ensures DistinctShops([s] + rest)
  {
    assert forall i | 0 <= i < |rest| :: rest[i] in rest;
  }

  lemma {:induction false} AddPointHas(series: seq<Series>, shop: string, p: Point, other: string)
    ensures HasShop(AddPoint(series, shop, p), other) <==> HasShop(series, other) || other == shop
  {
    if series != [] {
      assert series == [series[0]] + series[1..];
      if series[0].shop != shop { AddPointHas(series[1..], shop, p, other); }
    }
  }

  lemma {:induction false} AddPointShops(series: seq<Series>, shop: string, p: Point)
    requires DistinctShops(series)
    ensures DistinctShops(AddPoint(series, shop, p))
  {
    if series != [] {
      var rest := series[1..];
      assert series == [series[0]] + rest && !HasShop(rest, series[0].shop);
      if series[0].shop == shop {
        DistinctShopsCons(Series(shop, series[0].data + [p]), rest);
      } else {
        AddPointShops(rest, shop, p);
        AddPointHas(rest, shop, p, series[0].shop);
        DistinctShopsCons(series[0], AddPoint(rest, shop, p));
      }
    }
  }

  lemma {:induction false} SeriesShops(rows: seq<DailyRow>, values: seq<int>)
    requires |values| == |rows|
    ensures DistinctShops(SeriesOf(rows, values))
  {
    if rows != [] {
      var n := |rows| - 1;
      SeriesShops(rows[..n], values[..n]);
      AddPointShops(SeriesOf(rows[..n], values[..n]), rows[n].shop, Point(rows[n].day, values[n]));
    }
  }

  lemma {:induction false} DataFound(series: seq<Series>, s: Series)
    requires DistinctShops(series) && s in series
    ensures DataOf(series, s.shop) == s.data
  {
    assert series == [series[0]] + series[1..];
    if s != series[0] { DataFound(series[1..], s); }
  }

  lemma {:induction false} SeriesHas(rows: seq<DailyRow>, values: seq<int>, shop: string)
    requires |values| == |rows|
    ensures HasShop(SeriesOf(rows, values), shop) <==> exists r | r in rows :: r.shop == shop
  {
    if rows != [] {
      var n := |rows| - 1;
      SeriesHas(rows[..n], values[..n], shop);
      AddPointHas(SeriesOf(rows[..n], values[..n]), rows[n].shop, Point(rows[n].day, values[n]), shop);
      assert rows == rows[..n] + [rows[n]];
    }
  }

  // A converted row of the shop.
  ghost predicate PointOf(rows: seq<DailyRow>, values: seq<int>, shop: string, p: Point)
    requires |values| == |rows|
  {
    exists i | 0 <= i < |rows| :: rows[i].shop == shop && p == Point(rows[i].day, values[i])
  }

  lemma {:induction false} ShopPointsAre(rows: seq<DailyRow>, values: seq<int>, shop: string, p: Point)
    requires |values| == |rows|
    ensures p in ShopPoints(rows, values, shop) <==> PointOf(rows, values, shop, p)
  {
    if rows != [] {
      var n := |rows| - 1;
      ShopPointsAre(rows[..n], values[..n], shop, p);
      assert forall i | 0 <= i < n :: rows[..n][i] == rows[i] && values[..n][i] == values[i];
    }
  }

  // A shop with a row has one series, and no other shop has one; it holds the points of exactly that
  // shop's rows, in date order.
  lemma SeriesIs(rows: seq<DailyRow>, joined: seq<Current>, values: seq<int>, shop: string)
    requires IsHistory(rows, joined) && |values| == |rows|
    ensures DistinctShops(SeriesOf(rows, values))
    ensures HasShop(SeriesOf(rows, values), shop) <==> exists r | r in rows :: r.shop == shop
    ensures forall s | s in SeriesOf(rows, values) && s.shop == shop ::
              && s.data == ShopPoints(rows, values, shop) && Increasing(s.data)
              && forall p :: p in s.data <==> PointOf(rows, values, shop, p)
  {
    SeriesShops(rows, values);
    SeriesHas(rows, values, shop);
    SeriesData(rows, values, shop);
    ShopPointsOrdered(rows, values, shop);
    forall s | s in SeriesOf(rows, values) && s.shop == shop ensures s.data == ShopPoints(rows, values, shop) {
      DataFound(SeriesOf(rows, values), s);
    }
    forall p ensures p in ShopPoints(rows, values, shop) <==> PointOf(rows, values, shop, p) {
      ShopPointsAre(rows, values, shop, p);
    }
  }

  /***** Averages *****/

  // The prices of all shops on a day, in the order of the rows.
  function RowPrices(rows: seq<DailyRow>, values: seq<int>, day: int): seq<int>
    requires |values| == |rows|
  {
    if rows == [] then []
    else
      var r := rows[|rows| - 1];
      RowPrices(rows[..|rows| - 1], values[..|rows| - 1], day) + if r.day == day then [values[|rows| - 1]] else []
  }

  lemma {:induction false} RowPricesIff(rows: seq<DailyRow>, values: seq<int>, day: int)
    requires |values| == |rows|
    ensures RowPrices(rows, values, day) != [] <==> exists i | 0 <= i < |rows| :: rows[i].day == day
  {
    if rows != [] {
      var n := |rows| - 1;
      RowPricesIff(rows[..n], values[..n], day);
      assert forall i | 0 <= i < n :: rows[..n][i] == rows[i];
    }
  }

  ghost predicate DistinctDates(days: seq<DayPrices>) {
    forall i, j | 0 <= i < j < |days| :: days[i].date != days[j].date
  }

  function PricesOn(days: seq<DayPrices>, date: int): seq<int> {
    if days == [] then []
    else if days[0].date == date then days[0].prices
    else PricesOn(days[1..], date)
  }

  lemma {:induction false} AddPricePrices(days: seq<DayPrices>, date: int, price: int, other: int)
    ensures PricesOn(AddPrice(days, date, price), other)
         == PricesOn(days, other) + if other == date then [price] else []
  {
    if days != [] {
      if days[0].date == date {
        assert AddPrice(days, date, price)[1..] == days[1..];
      } else {
        AddPricePrices(days[1..], date, price, other);
        assert AddPrice(days, date, price)[1..] == AddPrice(days[1..], date, price);
      }
    }
  }

  ghost predicate HasDay(days: seq<DayPrices>, date: int) { exists d | d in days :: d.date == date }

  lemma DistinctDatesCons(d: DayPrices, rest: seq<DayPrices>)
    requires DistinctDates(rest) && !HasDay(rest, d.date)
    ensures DistinctDates([d] + rest)
  {
    assert forall i | 0 <= i < |rest| :: rest[i] in rest;
  }

  lemma {:induction false} AddPriceHas(days: seq<DayPrices>, date: int, price: int, other: int)
    ensures HasDay(AddPrice(days, date, price), other) <==> HasDay(days, other) || other == date
  {
    if days != [] {
      assert days == [days[0]] + days[1..];
      if days[0].date != date { AddPriceHas(days[1..], date, price, other); }
    }
  }

  lemma {:induction false} AddPriceDates(days: seq<DayPrices>, date: int, price: int)
    requires DistinctDates(days)
    ensures DistinctDates(AddPrice(days, date, price))
  {
    if days != [] {
      var rest := days[1..];
      assert days == [days[0]] + rest && !HasDay(rest, days[0].date);
      if days[0].date == date {
        DistinctDatesCons(DayPrices(date, days[0].prices + [price]), rest);
      } else {
        AddPriceDates(rest, date, price);
        AddPriceHas(rest, date, price, days[0].date);
        DistinctDatesCons(days[0], AddPrice(rest, date, price));
      }
    }
  }

  lemma {:induction false} DaysAre(rows: seq<DailyRow>, values: seq<int>, day: int)
    requires |values| == |rows|
    ensures DistinctDates(DaysOf(rows, values))
    ensures PricesOn(DaysOf(rows, values), day) == RowPrices(rows, values, day)
  {
    if rows != [] {
      var n := |rows| - 1;
      DaysAre(rows[..n], values[..n], day);
      AddPriceDates(DaysOf(rows[..n], values[..n]), rows[n].day, values[n]);
      AddPricePrices(DaysOf(rows[..n], values[..n]), rows[n].day, values[n], day);
    }
  }

  // With distinct dates and no empty group, the groups are what PricesOn finds.
  lemma {:induction false} GroupsAre(days: seq<DayPrices>, date: int)
    requires DistinctDates(days) && Nonempty(days)
    ensures forall d | d in days && d.date == date :: PricesOn(days, date) == d.prices
    ensures PricesOn(days, date) != [] <==> exists d | d in days :: d.date == date
  {
    if days != [] {
      assert days == [days[0]] + days[1..];
      assert days[0] in days && forall d | d in days[1..] :: d in days && d.date != days[0].date;
      GroupsAre(days[1..], date);
    }
  }

  ghost predicate Ordered(days: seq<DayPrices>) {
    forall i, j | 0 <= i < j < |days| :: days[i].date < days[j].date
  }

  lemma {:induction false} InInsert(d: DayPrices, days: seq<DayPrices>)
    ensures forall e :: e in Insert(d, days) <==> e == d || e in days
  {
    if days != [] {
      assert days == [days[0]] + days[1..];
      if d.date > days[0].date { InInsert(d, days[1..]); }
    }
  }

  lemma OrderedCons(d: DayPrices, rest: seq<DayPrices>)
    requires Ordered(rest) && forall e | e in rest :: d.date < e.date
    ensures Ordered([d] + rest)
  {
    assert forall i | 0 <= i < |rest| :: rest[i] in rest;
  }

  lemma {:induction false} InsertOrdered(d: DayPrices, days: seq<DayPrices>)
    requires Ordered(days) && !HasDay(days, d.date)
    ensures Ordered(Insert(d, days))
  {
    if days != [] {
      var first, rest := days[0], days[1..];
      assert days == [first] + rest && first in days && forall e | e in rest :: e in days;
      assert Ordered(rest) && forall e | e in rest :: first.date < e.date;
      if d.date > first.date {
        InsertOrdered(d, rest);
        InInsert(d, rest);
        OrderedCons(first, Insert(d, rest));
      } else {
        OrderedCons(d, days);
      }
    }
  }

  lemma {:induction false} InSorted(days: seq<DayPrices>, d: DayPrices)
    ensures d in Sorted(days) <==> d in days
  {
    SortedSame(days);
    assert d in Sorted(days) <==> d in multiset(Sorted(days));
    assert d in days <==> d in multiset(days);
  }

  lemma {:induction false} SortedOrdered(days: seq<DayPrices>)
    requires DistinctDates(days)
    ensures Ordered(Sorted(days))
  {
    if days != [] {
      assert days == [days[0]] + days[1..];
      SortedOrdered(days[1..]);
      forall e | e in Sorted(days[1..]) ensures e.date != days[0].date { InSorted(days[1..], e); }
      InsertOrdered(days[0], Sorted(days[1..]));
    }
  }

  lemma {:induction false} AveragesAt(days: seq<DayPrices>)
    requires Nonempty(days)
    ensures |Averages(days)| == |days|
    ensures forall i | 0 <= i < |days| :: days[i].prices != []
              && Averages(days)[i] == Point(days[i].date, Round(Sum(days[i].prices), |days[i].prices|))
  {
    if days != [] {
      assert days == [days[0]] + days[1..];
      assert days[0] in days && forall d | d in days[1..] :: d in days;
      AveragesAt(days[1..]);
    }
  }

  ghost predicate OnDay(rows: seq<DailyRow>, day: int) { exists i | 0 <= i < |rows| :: rows[i].day == day }

  ghost predicate HasDate(points: seq<Point>, day: int) { exists p | p in points :: p.date == day }

  // The average's dates strictly increase and are exactly the days that occur in some row.
  lemma AverageDates(rows: seq<DailyRow>, values: seq<int>, day: int)
    requires |values| == |rows| && Nonempty(Sorted(DaysOf(rows, values)))
    ensures var average := Averages(Sorted(DaysOf(rows, values)));
            Increasing(average) && (OnDay(rows, day) <==> HasDate(average, day))
  {
    var days := DaysOf(rows, values);
    var sorted := Sorted(days);
    DaysAre(rows, values, day);
    SortedOrdered(days);
    AveragesAt(sorted);
    GroupsAre(days, day);
    RowPricesIff(rows, values, day);
    forall d ensures d in sorted <==> d in days { InSorted(days, d); }
    SameDates(sorted, day);
  }

  lemma SameDates(days: seq<DayPrices>, day: int)
    requires Nonempty(days)
    ensures HasDate(Averages(days), day) <==> exists d | d in days :: d.date == day
  {
    AveragesAt(days);
    if d :| d in days && d.date == day {
      var k :| 0 <= k < |days| && days[k] == d;
      assert Averages(days)[k] in Averages(days);
    }
    if p :| p in Averages(days) && p.date == day {
      var k :| 0 <= k < |days| && Averages(days)[k] == p;
      assert days[k] in days;
    }
  }

  // The dates of the averages are the dates that occur in some series.
  lemma DatesInSeries(rows: seq<DailyRow>, values: seq<int>, day: int)
    requires |values| == |rows| && Nonempty(Sorted(DaysOf(rows, values)))
    ensures HasDate(SeriesPoints(SeriesOf(rows, values)), day) <==> HasDate(Averages(Sorted(DaysOf(rows, values))), day)
  {
    var points := SeriesPoints(SeriesOf(rows, values));
    SamePoints(rows, values);
    assert forall p :: p in points <==> p in multiset(RowPoints(rows, values));
    RowPointDates(rows, values, day);
    AverageDates(rows, values, day);
  }

  lemma {:induction false} RowPointDates(rows: seq<DailyRow>, values: seq<int>, day: int)
    requires |values| == |rows|
    ensures HasDate(RowPoints(rows, values), day) <==> OnDay(rows, day)
  {
    if rows != [] {
      var n := |rows| - 1;
      RowPointDates(rows[..n], values[..n], day);
      assert forall i | 0 <= i < n :: rows[..n][i] == rows[i];
      var last := Point(rows[n].day, values[n]);
      assert forall p :: p in RowPoints(rows, values) <==> p in RowPoints(rows[..n], values[..n]) || p == last;
    }
  }

  // Every average is the rounded mean of its day's points over all shops, between the smallest and
  // the largest of them, and so equal to the only one on a day with one shop.
  lemma AverageValues(rows: seq<DailyRow>, values: seq<int>, p: Point)
    requires |values| == |rows| && Nonempty(Sorted(DaysOf(rows, values)))
    requires p in Averages(Sorted(DaysOf(rows, values)))
    ensures AverageOf(p, RowPrices(rows, values, p.date))
  {
    var days := DaysOf(rows, values);
    var sorted := Sorted(days);
    AveragesAt(sorted);
    var k :| 0 <= k < |sorted| && Averages(sorted)[k] == p;
    DaysAre(rows, values, p.date);
    InSorted(days, sorted[k]);
    GroupsAre(days, p.date);
    var prices := sorted[k].prices;
    MinMaxAre(prices);
    AverageBetween(prices, MinOf(prices).value, MaxOf(prices).value);
    RoundIsNearestEven(Sum(prices), |prices|);
  }

  ghost predicate AverageOf(p: Point, prices: seq<int>) {
    && prices != []
    && p.price == Round(Sum(prices), |prices|) && IsNearestEven(Sum(prices), |prices|, p.price)
    && MinOf(prices).Some? && MaxOf(prices).Some?
    && MinOf(prices).value <= p.price <= MaxOf(prices).value
  }

  // A converted point lies between the conversions of the smallest and the largest price the shop
  // recorded that day.
  lemma PointBetweenPrices(rows: seq<DailyRow>, joined: seq<Current>, r: DailyRow, c: Currency, rateUsd: Rate,
                           rateTarget: Rate)
    requires IsHistory(rows, joined) && r in rows
    ensures var g := Group(joined, r.shop, r.day);
            && r.count > 0 && MinOf(g).Some? && MaxOf(g).Some?
            && Shown(MinOf(g).value, c, rateUsd, rateTarget)
               <= Convert(r.sum, r.count, c, rateUsd, rateTarget)
               <= Shown(MaxOf(g).value, c, rateUsd, rateTarget)
  {
    var g := Group(joined, r.shop, r.day);
    MinMaxAre(g);
    SumBetween(g, MinOf(g).value, MaxOf(g).value);
    ConvertMonotone(MinOf(g).value, 1, r.sum, r.count, c, rateUsd, rateTarget);
    ConvertMonotone(r.sum, r.count, MaxOf(g).value, 1, c, rateUsd, rateTarget);
  }
}
