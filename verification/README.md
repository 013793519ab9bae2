# Price tracker: verification model

A Dafny model of the stateful core of the price tracker and proofs about it. `dafny verify
dfyconfig.toml` checks the whole project.

- `Money.dfy`: fixed-point amounts, rounding half to even, conversion, the threshold round trip and
  the alert decision against the displayed price.
- `RateStore.dfy`, `CurrencyService.dfy`, `RateRuns.dfy`: the exchange-rate table with the cache in
  front of it, the service as a class proved against functions of its state, and its runs of lookups,
  syncs, expiring entries and midnights.
- `PageRates.dfy`, `HeldRates.dfy`: the conversions of one page, with other requests, syncs, expiring
  entries and midnights between them, and when they share one pair of rates.
- `Matcher.dfy`, `Seeding.dfy`: the seed's price matcher and the startup seed with failing adapters
  and crashes.
- `Tables.dfy`, `Cards.dfy`, `ProductPages.dfy`, `History.dfy`, `Listing.dfy`: the price queries and
  the pages made of them. A query is a function on sequences of rows, with every join written as a
  loop over rows, so that a join that repeats a row repeats it in the model. One join is not: that of
  alerts with the minimum of their product, a subquery grouped by product, is a lookup.
- `Alerts.dfy`: the alert life cycle. `AlertDisplay.dfy`: the alert against the card that the user sees,
  from the typed threshold on. `Fetcher.dfy`: price collection. `Partitions.dfy`: the monthly
  partitions. `Retry.dfy`: the HTTP retry loop.

Amounts are integers in units of 0.0001, rates positive integers in units of 0.00000001 hryvnia.
Instants are microseconds, days are integers. NBU, the shop adapters, mail delivery and the clock are
parameters: a function or a value that says what they answer, or that they fail. Steps are sequential
and committed one after the other; a Redis write is never undone by a rollback. An exception that
leaves an operation is `None` or a flag in its result.

Assumptions that the model makes explicit: rates are positive and fit the rate column; thresholds
have at most four decimals; a quotient is kept exact and rounded once, where the program computes
intermediate decimals with 28 digits; averages that reach conversion are exact; shops' adapter keys,
primary keys and foreign keys hold as declared in the schema; rows of one product_shop with equal
timestamps are ordered by id, where SQL leaves the order open; the database session and the process's
dates are in UTC; the service's day changes between conversions but not within one, and a page's queries
are made on the day its first conversion begins to wait; page numbers and page sizes are at least 1, as
the routes require.

## What turned out false of the code

- "A cached rate equals its row" fails for entries the fallback branch wrote, and only for those
  (`OnlyFallbackDisagrees`, `StepCoherentIff`, `CacheCanDisagree`). For a past date such an entry has
  no lifetime, and neither a later answer of NBU nor a historical sync ever corrects what lookups of
  that date return (`OutageIsPermanent`, `BackfillIsIgnored`). The architecture document says that
  historical rates are cached indefinitely, and the code that they do not change; the cached fallback is
  not that rate.
- A threshold typed in a currency worth less than a dollar, such as the hryvnia, does not always survive
  conversion to USD and back, and the price it is compared with can be displayed above it when the alert
  fires (`HryvniaExample`). For all thresholds the round trip is exact, and the compared price is
  displayed at most at the threshold, exactly when the currency's rate is at least the dollar's
  (`RoundTripExactIff`, `FiredShowsAtMostThresholdIff`).
- The product's card need not display that price. The alert compares the newest prices of any age, the
  card shows those of today, so even in USD the card of an alert that the check mails can show a minimum
  above the threshold (`StalePriceFires`) or none (`UnpricedCardFires`). The two minima are the same exactly under
  `SameMinimumIff`; a card displays at most the threshold exactly when a newest price of today does
  (`DisplaysIff`); and if such a price reaches the stored threshold, exactly the rates above decide
  (`FiredCardIff`). The other direction needs no condition: a card's displayed minimum strictly below
  the typed threshold means that the alert fires, at all rates, as long as they are those the threshold
  was stored at (`DecisionMeetsCard`, `TypedThresholdMeetsCard`).
- "One page is converted at one pair of rates" fails when an entry with a lifetime expires, or midnight
  passes, between two conversions (`ExpiryShowsTwoRates`, `MidnightShowsTwoRates`). A conversion uses
  given rates for every answer of NBU exactly when both are cached, or not cached and in the table
  (`UsesIff`), and also after any expiry exactly when both are held (`UsesAfterDropsIff`): a cached rate
  has no lifetime or is its row's rate (`HeldIff`). A page whose first conversion leaves its rates held keeps
  them (`OnePairOfRates`), and it does unless it found an entry that was not, or fell back for today
  (`LookupHeldIff`, `CoherentPage`).
- "No second price within one hour" holds for every fetch exactly when the dedup boundary is not
  computed later than the instant that stamps the rows (`HourApartIff`); in general the distance is
  one hour less that delay (`RunsKeepSpacing`).
- By gap alone another match can be as good as the greedy one for every product
  (`GapAloneAllowsSwap`), and exactly in two cases: a product is tied with a position that nobody
  picked, or products in a ring each accept the next one's position (`GapAloneIff`). Without a tie at a
  position that was still free at a product's turn there is none (`RivalNeedsTie`), and with ties broken
  by position there never is (`GreedyIsLexMin`).
- The docstring of the retry helper says that responses of 3xx, and of 4xx other than 429, are returned;
  the code passes them to `raise_for_status` first, which raises unless the status is 2xx
  (`ReturnedIff`, `NotFoundIsRaised`).

## Model

| member | source | states |
|---|---|---|
| Money.RoundIff | app/services/currency_service.py:20-21 | the rounding is to the nearest integer with ties to even, and that property determines it |
| Money.ConvertIsNearest | app/services/currency_service.py:54-64 | every conversion, to dollars, hryvnias or another currency, is the nearest amount to the exact quotient of its rates, ties to even |
| Money.ToUsdIsNearest | app/services/alert_service.py:96-101 | a threshold in dollars is kept, and any other is the nearest amount to the exact quotient, ties to even |
| Money.RoundMonotone | app/services/currency_service.py:54-64 | rounding two fractions never reverses their order |
| Money.ConvertMonotone | app/services/currency_service.py:42-64 | conversion to any currency keeps the order of exact amounts |
| Money.RoundTripError | app/services/alert_service.py:90-101 | a threshold converted to USD and back is off by at most half a unit times (1 + rate_usd/rate_currency) |
| Money.RoundTripExact | app/services/alert_service.py:90-101 | the round trip is exact when the currency's rate is at least the dollar's |
| Money.RoundTripExactIff | app/services/alert_service.py:90-101 | the round trip is exact for all positive thresholds if and only if the currency's rate is at least the dollar's |
| Money.BelowThresholdFires | app/db/repositories/alert_repo.py:69-72 | at any rates, if the conversion of the compared minimum is strictly below the typed threshold the comparison in USD fires |
| Money.FiredShowsAtMostThreshold | app/db/repositories/alert_repo.py:69-72 | if the comparison fires, the conversion of the compared minimum is at most the typed threshold when the currency's rate is at least the dollar's |
| Money.FiredIsNearThreshold | app/services/alert_service.py:90-101 | at any rates, the conversion of a compared minimum that fires exceeds the typed threshold by at most the round trip's error |
| Money.FiredShowsAtMostThresholdIff | app/services/alert_service.py:90-101 | the conversions of compared minima that fire are at most the typed threshold, for all prices and thresholds, if and only if the currency's rate is at least the dollar's |
| Money.HryvniaExample | app/services/alert_service.py:90-101 | a threshold of 5000 hryvnias and a compared minimum that fires it and converts to 5000.0021 hryvnias |
| Money.AverageBetween | app/services/price_service.py:221-227 | the rounded mean of converted prices lies between the smallest and the largest of them |
| RateStore.RateOnOrBefore | app/db/repositories/exchange_rate_repo.py:23-35 | gives the newest row of the currency not after the date, and None exactly when there is none |
| RateStore.LookupCaches | app/services/currency_service.py:184-190 | every rate found beyond the cache is cached, from whichever branch, with the configured lifetime exactly for today's date, and no other entry changes |
| RateStore.SyncTodayIs | app/services/currency_service.py:117-127 | today's sync changes rows and entries exactly for the three currencies that NBU gave, at today's date, with the configured lifetime |
| RateStore.AskedIff | app/services/currency_service.py:139-143 | a historical sync asks NBU for a currency and a day exactly if they are in its range and have no row |
| RateStore.FilledExtends | app/services/currency_service.py:132-151 | a historical sync changes no existing row and adds only missing keys of its range, with NBU's rates |
| RateStore.SyncRangesFillsUnion | app/services/currency_service.py:132-151 | any series of historical syncs with unchanged NBU answers is one sync of the union of the ranges |
| RateStore.SyncOrderIrrelevant | app/services/currency_service.py:132-151 | two series of syncs that cover the same days give the same table, whatever their order, overlaps and splits |
| RateStore.RepeatWritesNothing | app/services/currency_service.py:133-136 | a sync of days that were covered before writes nothing |
| CurrencyServices.CurrencyService.Cache | app/services/currency_service.py:184-190 | the entry has a lifetime for today's date only |
| RateStore.UpsertQueried | app/db/repositories/exchange_rate_repo.py:23-59 | after an upsert the key has one row and its rate is the newest for its date, and queries for earlier dates and other currencies answer as before |
| CurrencyServices.CurrencyService.GetRate | app/services/currency_service.py:66-104 | cache, then exact row, then NBU with the answer stored, then the nearest earlier row; the new state and the answer in each case |
| CurrencyServices.CurrencyService.Convert | app/services/currency_service.py:42-64 | the dollar's rate, then the target's, then one rounding; a missing rate ends it with the state reached |
| CurrencyServices.CurrencyService.ToUsd | app/services/alert_service.py:90-101 | the threshold in USD from today's two rates |
| CurrencyServices.CurrencyService.SyncTodayRates | app/services/currency_service.py:112-130 | upserts and caches the supported currencies NBU answered, and counts them |
| CurrencyServices.CurrencyService.SyncHistoricalRates | app/services/currency_service.py:132-151 | terminates, fills the missing keys of the range, asks NBU for exactly those in date order, leaves the cache alone and returns the number of rows added |
| RateRuns.RunKeepsProvenance | app/services/currency_service.py:75-102 | over every run each cached rate is its row's rate or the rate the fallback found when it cached it |
| RateRuns.OnlyFallbackDisagrees | app/services/currency_service.py:94-102 | a cached rate that differs from its row was last written by the fallback, and was then the newest strictly earlier rate of a table without the row |
| RateRuns.StepCoherentIff | app/services/currency_service.py:66-104 | a step from a coherent state keeps the cache coherent if and only if it is not a lookup that ends in the fallback |
| RateRuns.RunCoherentIff | app/services/currency_service.py:66-151 | a run is coherent at every moment if and only if no lookup reaches the fallback |
| RateRuns.CacheTransparent | app/services/currency_service.py:66-104 | while no lookup reaches the fallback, answers, table and NBU requests are those of the service without a cache |
| RateRuns.TransparentIff | app/services/currency_service.py:75-92 | the next lookup is answered as without a cache, for every key and NBU answer, if and only if the cache is coherent |
| RateRuns.PastEntryPinned | app/services/currency_service.py:184-190 | an entry of a past date without lifetime survives every run unchanged |
| RateRuns.PinnedIff | app/services/currency_service.py:184-190 | an entry survives every run unchanged if and only if it has no lifetime and its date is past |
| RateRuns.OutageIsPermanent | app/services/currency_service.py:94-102 | after one fallback for a past date every later lookup of it returns the same rate, whatever happens in between |
| RateRuns.BackfillIsIgnored | app/services/currency_service.py:132-147 | a historical sync that stores the true rate does not change that answer |
| RateRuns.FallbackLifetimeIff | app/services/currency_service.py:184-190 | a fallback rate can expire if and only if it is today's and a lifetime is configured |
| RateRuns.TodayOutageHeals | app/services/currency_service.py:87-92 | after a fallback for today the first lookup after expiry asks NBU again and returns, stores and caches its rate |
| RateRuns.TodaySyncIdempotent | app/services/currency_service.py:112-128 | repeating today's sync with the same answer changes neither table nor cache |
| RateRuns.CacheCanDisagree | app/services/currency_service.py:94-102 | one lookup during an outage makes a coherent cache disagree with the table |
| Conversions.ConvertIsLookups | app/services/currency_service.py:57-64 | a conversion changes the state as at most two lookups, so the properties of runs hold for it |
| Conversions.ToUsdIsLookups | app/services/alert_service.py:98-101 | storing a threshold changes the state as at most two lookups |
| Conversions.LookupFixesRate | app/services/currency_service.py:77-104 | a lookup leaves exactly its answer in force for its key and changes no other rate in force |
| Conversions.QuietKeepsRates | app/services/currency_service.py:77-79 | rates in force stay in force through lookups and historical syncs |
| Conversions.ToUsdFixesRates | app/services/alert_service.py:98-101 | storing a threshold leaves the two rates it used in force |
| Conversions.ConvertFixesRates | app/services/currency_service.py:57-64 | a conversion leaves the two rates it used in force |
| Conversions.ConvertNearest | app/services/currency_service.py:54-64 | a conversion that answers gives the nearest amount at the two rates it leaves in force for its day |
| Conversions.ToUsdNearest | app/services/alert_service.py:96-101 | a stored threshold is the nearest amount at the two rates of today that it leaves in force |
| Conversions.ToUsdAnswersIff | app/services/alert_service.py:96-101 | a threshold is stored exactly when it is in dollars or both rates of today can be had |
| CurrencyServices.CurrencyService.Elapse | app/services/currency_service.py:66-190 | the methods of the class, in any order and number, make the runs that the theorems speak of |
| PageRates.ConvertQuotes | app/services/currency_service.py:57-64 | a conversion answers with the rates it leaves in force for its day, and fails only if one of them is missing |
| PageRates.QuietPage | app/services/price_service.py:173-183 | while nothing but lookups and historical syncs comes between them, the conversions of a page fail exactly when a rate is not in force in the end, and are otherwise all at the rates then in force |
| PageRates.FailsIff | app/services/price_service.py:233-238 | whatever comes between them, the conversions for today fail exactly when there is a price and a rate of today is not in force in the end |
| HeldRates.HeldIff | app/services/currency_service.py:184-190 | a cached rate is safe from expiry if and only if its entry has no lifetime or it is its row's rate |
| HeldRates.LookupHeldIff | app/services/currency_service.py:77-104 | a lookup leaves its rate safe from expiry exactly unless it found an entry that was not, or cached a fallback rate with a lifetime |
| HeldRates.StepHeldIff | app/services/currency_service.py:66-151 | a rate that is safe from expiry stays so through every step but a sync of today that brings another one |
| HeldRates.UsesIff | app/services/currency_service.py:57-104 | the next conversion uses given rates for every answer of NBU if and only if each is cached, or not cached and in the table |
| HeldRates.UsesAfterDropsIff | app/services/currency_service.py:184-190 | it does so after any expiry if and only if both rates are safe from expiry |
| HeldRates.OnePairOfRates | app/services/price_service.py:173-183 | a page whose first conversion leaves its rates safe from expiry is converted at that one pair, whatever expires, is looked up and is answered by NBU in between |
| HeldRates.CoherentPage | app/services/price_service.py:173-183 | a page that begins with a cache that agrees with the table is converted at one pair of rates unless its first conversion fails or falls back |
| HeldRates.DaySharesRates | app/services/price_service.py:206-214 | two conversions for one day are at one pair of rates if the first leaves its rates safe from expiry, even with midnight between them |
| HeldRates.ExpiryShowsTwoRates | app/services/currency_service.py:87-102 | a page of two prices that shows a dollar at 40 and at 50 hryvnias because a fallback entry expired between them |
| HeldRates.MidnightShowsTwoRates | app/services/currency_service.py:57 | the same because midnight passed between them |
| Matcher.Nearest | app/tasks/seed.py:63-68 | the inner loop finds the unused position with the least gap, the first of equals, and None exactly when all are used |
| Matcher.MapByNearestPrice | app/tasks/seed.py:48-73 | maps distinct positions to exactly the first min(n, m) FakeStore products, each the closest left when its turn comes |
| Matcher.PickIsNearest | app/tasks/seed.py:63-68 | no position free at the product's turn has a nearer price, above or below, and of equally near ones the first is picked |
| Matcher.GreedyIsLexMin | app/tasks/seed.py:52-57 | the match is the lexicographic minimum by (gap, position) over all injective assignments of those products |
| Matcher.SomeoneWorse | app/tasks/seed.py:52-57 | in every different assignment some product is strictly worse off |
| Matcher.GreedyUnique | app/tasks/seed.py:58-73 | the greedy match is unique |
| Matcher.GapAloneIff | app/tasks/seed.py:58-73 | another assignment has no larger gap for any product if and only if a product is tied with a position nobody picked or products in a ring each accept the next one's position |
| Matcher.RivalNeedsTie | app/tasks/seed.py:63-68 | such an assignment needs a product tied with a position that was still free at its turn |
| Matcher.GapAloneAllowsSwap | app/tasks/seed.py:66-68 | by gap alone two positions with equal prices can be swapped without loss |
| Tables.FirstIff | app/db/repositories/price_repo.py:27-30 | a row has row number 1 exactly when no row of its product_shop is newer |
| Tables.InLatest | app/db/repositories/price_repo.py:21-48 | the latest-price relation holds exactly the newest row in the period of each product_shop |
| Tables.LatestFunctional | app/db/repositories/price_repo.py:40-48 | no product_shop has two latest prices, for any history |
| Tables.LatestTotal | app/db/repositories/price_repo.py:21-48 | every product_shop with a row in the period has one |
| Tables.SinceLaw | app/db/repositories/price_repo.py:37-38 | filtering by the period before the window equals taking the latest and then filtering |
| Cards.ShopsCountExact | app/db/repositories/product_repo.py:96-117 | shops_count is the number of the product's shops for any history; a card exists exactly for a known product with a shop |
| Cards.WatchlistMatchesDetail | app/db/repositories/product_repo.py:16-64 | the watchlist has exactly one row for each watched product with a shop and no other, with the range and shop count of the product's own card |
| Cards.GroupedExists | app/db/repositories/product_repo.py:22-37 | the grouped query has a result for every join |
| Cards.InCurrentRows | app/db/repositories/price_repo.py:59-70 | a row is listed exactly when it is the latest price of one of the product's shops, with that shop's name and the price's time |
| Cards.SamePrices | app/db/repositories/price_repo.py:54-70 | the inner-join list and the card's outer join hold the same prices, each as often |
| Cards.ShownMinMax | app/services/price_service.py:126-142 | conversion commutes with min and max |
| Cards.CardMatchesList | app/services/price_service.py:126-183 | the card's displayed range is the min and max of the displayed list, absent exactly when the list is empty |
| ProductPages.GetCurrentPrices | app/services/price_service.py:165-183 | not found exactly for an unknown product without rows; otherwise the state and items after converting the queried rows in order, failing exactly when there is a row and a rate of today is not in force in the end; without expiry all prices are at the rates in force in the end |
| ProductPages.NotFoundIff | app/services/price_service.py:168-170 | an unknown product without rows is not found, and a known one has an empty list; neither looks up a rate |
| ProductPages.ListAtOnePair | app/services/price_service.py:172-183 | the list is at the pair of rates of its first conversion if that leaves them safe from expiry |
| ProductPages.GetProductDetail | app/services/price_service.py:126-142 | not found exactly when there is no card; otherwise the state and card after converting both ends in order, failing exactly when there is a range and a rate of today is not in force in the end; without expiry both ends are at the rates in force in the end |
| ProductPages.CardAtOnePair | app/services/price_service.py:138-139 | both ends are at the pair of rates of the first conversion if that leaves them safe from expiry |
| ProductPages.RangeInOrder | app/services/price_service.py:138-139 | a range converted at one pair of rates is displayed in order |
| History.HistoryRowIff | app/services/price_service.py:194-201 | the query has a row for a shop name and a day exactly when such a price was recorded on that day and the day is between date_from and date_to, both included |
| History.GroupConcat | app/db/repositories/price_repo.py:77-91 | a group holds the price of every row of its shop and day, as often as it occurs |
| History.HistoryExists | app/db/repositories/price_repo.py:77-91 | the grouped query has a result for every join |
| History.GetPriceHistory | app/services/price_service.py:187-229 | the state after converting the queried rows in order, each for its day; fails exactly when a conversion does, and otherwise gives the series and averages of the converted rows |
| History.QuietHistory | app/services/price_service.py:206-210 | while no entry expires it fails exactly when a rate of some row's day is not in force in the end, and every row is at the rates then in force for its day |
| History.ShopsOfDayAtOnePair | app/services/price_service.py:206-214 | all shops of a day are at one pair of rates if the day's first conversion leaves its rates safe from expiry |
| History.SamePoints | app/services/price_service.py:206-214 | series points and per-day groups are the same multiset, one converted point for each row |
| History.SeriesIs | app/services/price_service.py:216-219 | a shop has a series exactly if it has a row, and only one, which holds exactly the day and converted price of each of its rows, in strictly increasing date order |
| History.AverageDates | app/services/price_service.py:221-227 | average dates strictly increase and are exactly the days of the rows |
| History.DatesInSeries | app/services/price_service.py:216-227 | average dates are exactly the dates that occur in some series |
| History.AverageValues | app/services/price_service.py:221-227 | each average is the rounded mean of its day's points and lies between the smallest and the largest of them |
| History.PointBetweenPrices | app/db/repositories/price_repo.py:72-92 | a converted daily point lies between the conversions of the least and the greatest price recorded that day |
| Alerts.TriggeredOnce | app/db/repositories/alert_repo.py:40-74 | the query returns each qualifying active alert exactly once |
| Alerts.TriggeredRows | app/db/repositories/alert_repo.py:57-68 | every row carries the owner's mail address, the product's title and the alert's own threshold |
| Alerts.MinPriceIff | app/db/repositories/alert_repo.py:47-56 | the compared minimum is the least of the newest prices of the product's shops, and missing exactly when none ever had a price |
| Alerts.TurnsAre | app/services/alert_service.py:70-88 | the loop deactivates, logs and counts exactly the alerts whose mail went out |
| Alerts.AlertService.CreateAlert | app/services/alert_service.py:33-56 | looks up the product, then converts the threshold through the currency service, then adds an active alert; both states afterwards, and success exactly when a row is added |
| Alerts.CreatedIff | app/services/alert_service.py:36-50 | an alert is added exactly for a known product and user with both rates available, and an unknown product ends the call before any rate is looked up |
| Alerts.AlertService.DeleteAlert | app/services/alert_service.py:58-62 | removes the user's alert and reports whether a row was removed |
| Alerts.DeactivatedAt | app/db/repositories/alert_repo.py:76-82 | the row with the id becomes inactive and stamped, and every other row stays as it is |
| Alerts.AlertService.CheckAlerts | app/services/alert_service.py:64-88 | the state after the check and the number it returns |
| AlertRuns.TriggeredIff | app/db/repositories/alert_repo.py:47-73 | the query returns an alert exactly if it is active and some newest price of its product's shops is at most its threshold |
| AlertRuns.MailedIff | app/services/alert_service.py:64-88 | a check mails an alert for the first time exactly if its mail does not fail, it is active and some newest price is at most its threshold; it is then inactive and stamped, and otherwise unchanged |
| AlertRuns.NewPriceReaches | app/db/repositories/alert_repo.py:40-73 | once a shop has a newer price, an active alert on its product is reached exactly if that price or the newest price of another of its shops is at most the threshold |
| AlertRuns.CheckIs | app/services/alert_service.py:64-88 | a check mails exactly the qualifying alerts whose mail does not fail, once each and never again, changes only those rows and returns their number |
| AlertRuns.SentIsDeactivated | app/services/alert_service.py:67-68 | the returned number is the number of alerts that became inactive |
| AlertRuns.RunGoesOn | app/services/alert_service.py:35-88 | a run goes on with what the methods make of the state it reached, so the theorems about runs speak of any calls of them |
| AlertRuns.RunKeepsValid | app/services/alert_service.py:33-88 | the invariant of the alert tables holds over every run |
| AlertRuns.MailedAtMostOnce | app/services/alert_service.py:64-88 | over every run no alert is mailed twice, and an alert is inactive iff stamped iff mailed |
| AlertRuns.QuietAfterSuccess | app/services/alert_service.py:64-88 | after a check in which no mail failed, and until a price or an alert is added, every check sends nothing |
| AlertDisplay.CardMinIff | app/db/repositories/product_repo.py:96-117 | the card's minimum is the least newest price that is of today, and missing exactly when there is none |
| AlertDisplay.CardShowsIff | app/db/repositories/product_repo.py:101-113 | the card shows a minimum of at most a given amount if and only if some newest price of today is at most that |
| AlertDisplay.CardNotBelowAlert | app/db/repositories/alert_repo.py:47-56 | the card's minimum is never below the minimum the alert compares |
| AlertDisplay.SameMinimumIff | app/db/repositories/price_repo.py:37-38 | the two minima are the same if and only if a newest price of today attains the alert's, or there is none at all |
| AlertDisplay.DisplaysIff | app/services/price_service.py:126-142 | a card displays at most a given amount if and only if some newest price of today is displayed at most at it |
| AlertDisplay.DecisionMeetsCard | app/db/repositories/alert_repo.py:69-72 | a card's displayed minimum strictly below the typed threshold means that the alert qualifies; a newest price of today that reaches the stored threshold means so too, and that the card displays at most the threshold when the currency is worth at least a dollar |
| AlertDisplay.FiredCardIff | app/db/repositories/alert_repo.py:69-72 | with such a price the cards of fired alerts display at most the typed threshold, for all products and thresholds, if and only if the currency is worth at least a dollar |
| AlertDisplay.StalePriceFires | app/db/repositories/alert_repo.py:47 | an alert at 10 dollars in a valid database that the check mails while its card shows a minimum of 20 dollars |
| AlertDisplay.UnpricedCardFires | app/db/repositories/alert_repo.py:47 | an alert in a valid database that the check mails while its card shows no minimum |
| AlertDisplay.TypedThresholdMeetsCard | app/services/alert_service.py:33-88 | from typing a threshold, through any prices, checks and lookups, to opening the card at the same rates: a displayed minimum strictly below the threshold is mailed by the next check unless the mail fails, and a newest price of today at the stored threshold is mailed too and displayed at most at the typed one when the currency is worth at least a dollar |
| Fetcher.PriceFetcher.FetchOne | app/services/price_fetcher.py:42-91 | the history and the count after one shop; None exactly when the adapter or the lookup raises |
| Fetcher.PriceFetcher.FetchAllShops | app/services/price_fetcher.py:20-40 | the history and the results after all active shops |
| Fetcher.ShopConserves | app/services/price_fetcher.py:46-91 | a shop whose key has an adapter, and which answers, has fetched = written + skipped + deduplicated; any other writes nothing; old rows stay |
| Fetcher.LinkForExists | app/services/price_fetcher.py:52-53 | the shop has a product_shop for an external id exactly if one of its links has it |
| Fetcher.ShopWrites | app/services/price_fetcher.py:52-75 | a product is written exactly when the shop has a product_shop for it, the last of its links with that external id, without a price of the last hour; with its price and the transaction's time |
| Fetcher.FetchAllConserves | app/services/price_fetcher.py:29-40 | the rows added by a fetch are the sum of its result values |
| Fetcher.ResultsIff | app/services/price_fetcher.py:26-37 | the results have a key exactly if it is an active shop's |
| Fetcher.FetchLocal | app/services/price_fetcher.py:52-75 | what a shop writes depends on the history only by the rows of its own product_shops |
| Fetcher.FetchAllIsolates | app/services/price_fetcher.py:30-37 | each active shop writes the rows it would write if it were fetched alone, none if it raises, and its result is their number |
| Fetcher.RunsKeepSpacing | app/services/price_fetcher.py:59-77 | over every series of fetches, two prices of one product_shop are more than an hour apart less the delay between transaction start and dedup boundary |
| Fetcher.HourApartIff | app/db/models/price_history.py:32-34 | the full hour is guaranteed if and only if the boundary is computed no later than the transaction's start |
| Partitions.PriceHistory.constructor | alembic/versions/11f8cd6cb440_initial.py:105-116 | the migration's two partitions are those of June and July 2026 |
| Partitions.PriceHistory.CreatePartition | app/tasks/prices.py:44-73 | the branches give the two month starts after today, and the partition is created under its name if missing |
| Partitions.NameDeterminesMonth | app/tasks/prices.py:58 | a partition's name determines its month |
| Partitions.NameSpells | app/tasks/prices.py:58 | a partition's name spells the year and, in two digits, the month |
| Partitions.RunsMonths | app/tasks/prices.py:44-73 | after any runs the partitions are those of June and July 2026 and of each month after a month with a run |
| Partitions.PartitionsDisjoint | app/tasks/prices.py:64-70 | no instant lies in two partitions |
| Partitions.CoveredIff | app/tasks/prices.py:44-73 | an instant has a partition if and only if it lies in June or July 2026 or the task ran in the month before it |
| Partitions.NoGaps | app/tasks/celery_app.py:34-38 | with a run in every month from July 2026 on, every instant from June 2026 to the end of the present month has a partition |
| Seeding.Seeder.SeedDemoUser | app/tasks/seed.py:134-148 | adds the demo user only if missing |
| Seeding.Seeder.SeedShops | app/tasks/seed.py:30-45 | commits both shops together |
| Seeding.Seeder.SeedProducts | app/tasks/seed.py:76-131 | a failed fetch leaves no pending row; otherwise all products and links are committed together |
| Seeding.Seeder.RunSeed | app/tasks/seed.py:151-190 | what one start leaves behind, for any fetch failures and any number of commits it lives to make |
| SeedRuns.SeededProductLinked | app/tasks/seed.py:101-117 | every seeded product is linked to its own DummyJSON entry |
| SeedRuns.SeededMatchLinked | app/tasks/seed.py:119-125 | the product of a matched position is linked to the FakeStore entry matched with it |
| SeedRuns.SeededShopsFetched | app/tasks/seed.py:33-36 | every seeded shop is active and has an adapter, so price collection fetches it |
| SeedRuns.ShopIdIs | app/tasks/seed.py:167 | the shops' dict gives the id of the last shop with the key, and nothing exactly if there is none |
| SeedRuns.StartKeeps | app/tasks/seed.py:151-179 | a start keeps at most one demo user, none or both shops, one DummyJSON and at most one FakeStore link for each product, and redoes no finished step |
| SeedRuns.StartCompletes | app/tasks/seed.py:152-157 | a start with working fetches and enough commits completes the seed, whatever crashed before |
| SeedRuns.StartGetsTo | app/tasks/seed.py:159-178 | which of user, shops and products a start leaves, by the commits it lives to make and what was there before |
| SeedRuns.FailedFetchKeepsRest | app/tasks/seed.py:175-178 | a start whose fetches fail keeps the user and the shops and adds no product or link |
| SeedRuns.RunsConsistent | app/tasks/seed.py:151-179 | the database is consistent after every start of any series |
| SeedRuns.ProductsFinal | app/tasks/seed.py:170-180 | once there are products no later start changes products or links |
| Listing.SortIsStable | app/services/price_service.py:241-256 | the result is an ordered permutation in which items with equal keys keep their order |
| Listing.EqualsKeepOrder | app/services/price_service.py:244-255 | items with equal prices, without a price, or with equal trends keep the order of the list |
| Listing.SortOrder | app/services/price_service.py:244-255 | what each of the four options means for any two items of the result |
| Listing.SortedIsSortItems | app/services/price_service.py:241-256 | a list has only one stable sort, so any implementation of sorted gives this one |
| Listing.UnpricedPlacement | app/services/price_service.py:244-249 | unpriced items are last in ascending and first in descending order |
| Listing.PagesArePrefix | app/services/price_service.py:88-95 | the first n pages are the first n * page_size items |
| Listing.PagesAreAll | app/services/price_service.py:88-95 | all pages together are the sorted list, and the page after them is empty |
| Listing.GetProductsList | app/services/price_service.py:57-95 | the state after converting both ends of the queried rows in order, failing exactly when there is a price and a rate of today is not in force in the end; otherwise the page of the stable sort of all rows and their number, without expiry at the rates in force in the end |
| Listing.ListMatchesCards | app/services/price_service.py:65-84 | the list shows each watched product with a shop once, with the range of the product's own card at one pair of rates, if the first conversion leaves its rates safe from expiry |
| Retry.GetWithRetry | app/core/http_retry.py:18-59 | the number of calls, the outcome that decides how it ends, and the time slept, for every sequence of outcomes |
| Retry.EndsAtFirst | app/core/http_retry.py:34-46 | the call ends at the first outcome that is neither a transport error nor a 429 nor a 5xx, as soon as it comes |
| Retry.EndsExhausted | app/core/http_retry.py:53-59 | if there is none, every attempt is made, and the last one's transport error or status is raised |
| Retry.ReturnedIff | app/core/http_retry.py:44-58 | the response that decides is returned if and only if it is 2xx, and any other is raised |
| Retry.NotFoundIsRaised | app/core/http_retry.py:27-29 | a 404 that follows any number of retried outcomes ends the call there and is raised, where the docstring has it returned |
| Retry.DelaysSum | app/core/http_retry.py:53-54 | the waits after n attempts sum to base * (2^n - 1) |

## Left out

- Concurrent workers, and rollbacks after a Redis write or a sent mail: every property over runs is for sequential committed steps.
- `get_today_rates`, `list_by_user`, watchlist changes: single lookups and set updates.
- `_determine_trend` and the two averages over products: a three-way comparison of two means; the trend of a product is a parameter.
- `get_catalog`: titles are not a total order and the total counts products the join drops, so its pages do not partition anything.
- `get_watchlist_details`: the rows of the list page, converted in the same loop without sorting.
- HTTP clients, JSON parsing, SMTP, Redis and SQLAlchemy: oracles and maps; flush and refresh are not separate steps.
- Thresholds with more than four decimals, and what the database rounds when it stores them.
- The 28-digit intermediate results of decimal division, and SQL's own precision of AVG.
- Conversions of one page: other steps come between two conversions, not between the two lookups of one.
- Alerts.AlertService.CreateAlert: an exception rolls back the rate rows its lookups stored; the model keeps them.
- Matcher.Nearest: the inner loop of the matcher is a method of its own.
- Seeding.Seeder.RunSeed: database errors other than a dying process, and the rates themselves, are not modelled.
- Fetcher.PriceFetcher.FetchAllShops: a database error during flush, which would end the whole transaction, is not modelled.
- Alerts.TriggeredOnce: the order of the rows is that of the alert table; SQL leaves it open, and only the order of the mails depends on it.
