/** The conversions of one page. A page awaits convert for each of its prices in turn, and between two of
    them anything may happen to the service: other requests look rates up, syncs run, Redis drops
    entries that have a lifetime, midnight passes. */
module PageRates {
  import opened Wrappers
  import opened Money
  import opened RateStore
  import opened RateRuns
  import opened Conversions
  import opened CurrencyServices

  // One convert for num/den units of USD. Without a day it is for today, which is read at each call.
  datatype Ask = Ask(num: int, den: Divisor, day: Option<int>)

  // The amounts of a page, where an absent one is not converted.
  type Asks = seq<Option<Ask>>

  // What happens before each conversion, and what NBU answers during it.
  datatype World = World(before: nat -> seq<Event>, nbu: nat -> Nbu)

  function DayOf(s: Store, a: Ask): int { if a.day.Some? then a.day.value else s.today }

  // PriceService._convert_opt. The outer None is convert's exception.
  function ConvertOpt(s: Store, a: Option<Ask>, c: Currency, es: seq<Event>, nbu: Nbu): (Store, Option<Option<int>>) {
    if a.None? then (s, Some(None))
    else
      var t := Run(s, es);
      var (u, amount) := ConvertOn(t, a.value.num, a.value.den, c, DayOf(t, a.value), nbu);
      (u, if amount.Some? then Some(amount) else None)
  }

  // Amounts shown for the first n.
  predicate Fits(shown: seq<Option<int>>, asks: Asks, n: nat) {
    |shown| == n <= |asks| && forall i | 0 <= i < n :: shown[i].Some? <==> asks[i].Some?
  }

  // What a page has shown, or None after an exception, and then one more amount.
  function Extend(s: Store, sofar: Option<seq<Option<int>>>, a: Option<Ask>, c: Currency, es: seq<Event>, nbu: Nbu)
    : (Store, Option<seq<Option<int>>>)
  {
    if sofar.None? then (s, None)
    else
      var (t, amount) := ConvertOpt(s, a, c, es, nbu);
      (t, if amount.Some? then Some(sofar.value + [amount.value]) else None)
  }

  // The first n amounts of a page in order; the first exception ends it.
  function ConvertFirst(s: Store, asks: Asks, n: nat, c: Currency, w: World): (r: (Store, Option<seq<Option<int>>>))
    requires n <= |asks|
    ensures r.1.Some? ==> Fits(r.1.value, asks, n)
  {
    if n == 0 then (s, Some([]))
    else
      var (t, sofar) := ConvertFirst(s, asks, n - 1, c, w);
      Extend(t, sofar, asks[n - 1], c, w.before(n - 1), w.nbu(n - 1))
  }

  function ConvertAll(s: Store, asks: Asks, c: Currency, w: World): (Store, Option<seq<Option<int>>>) {
    ConvertFirst(s, asks, |asks|, c, w)
  }

  lemma {:induction false} PageFails(s: Store, asks: Asks, n: nat, m: nat, c: Currency, w: World)
    requires n <= m <= |asks| && ConvertFirst(s, asks, n, c, w).1.None?
    ensures ConvertFirst(s, asks, m, c, w) == ConvertFirst(s, asks, n, c, w)
  {
    if n < m { PageFails(s, asks, n, m - 1, c, w); }
  }

  // A page that succeeds has shown its first amounts on the way.
  lemma {:induction false} PrefixShown(s: Store, asks: Asks, n: nat, m: nat, c: Currency, w: World)
    requires n <= m <= |asks| && ConvertFirst(s, asks, m, c, w).1.Some?
    ensures ConvertFirst(s, asks, n, c, w).1 == Some(ConvertFirst(s, asks, m, c, w).1.value[..n])
  {
    var shown := ConvertFirst(s, asks, m, c, w).1.value;
    if n < m {
      PrefixShown(s, asks, n, m - 1, c, w);
      assert shown[..m - 1][..n] == shown[..n];
      assert shown[..m - 1] == ConvertFirst(s, asks, m - 1, c, w).1.value;
    } else {
      assert shown[..n] == shown;
    }
  }

  lemma AmountShown(s: Store, asks: Asks, i: nat, c: Currency, w: World)
    requires i < |asks| && ConvertAll(s, asks, c, w).1.Some?
    ensures ConvertFirst(s, asks, i + 1, c, w).1.Some?
    ensures ConvertFirst(s, asks, i + 1, c, w).1.value[i] == ConvertAll(s, asks, c, w).1.value[i]
  {
    PrefixShown(s, asks, i + 1, |asks|, c, w);
  }

  // A page that began at the given store has shown its first n amounts.
  ghost predicate Reached(s: Store, start: Store, asks: Asks, n: nat, c: Currency, w: World, shown: seq<Option<int>>) {
    n <= |asks| && (s, Some(shown)) == ConvertFirst(start, asks, n, c, w)
  }

  // Its next amount.
  method ConvertAsk(service: CurrencyService, a: Option<Ask>, c: Currency, w: World, n: nat,
                    ghost start: Store, ghost asks: Asks, ghost shown: seq<Option<int>>)
    returns (amount: Option<Option<int>>)
    requires n < |asks| && asks[n] == a
    requires Reached(service.State(), start, asks, n, c, w, shown)
    modifies service
    ensures amount.Some? ==> Reached(service.State(), start, asks, n + 1, c, w, shown + [amount.value])
    ensures amount.Some? ==> (amount.value.Some? <==> a.Some?)
    ensures amount.None? ==> (service.State(), None) == ConvertAll(start, asks, c, w)
  {
    if a.None? { return Some(None); }
    service.Elapse(w.before(n));
    var x := service.Convert(a.value.num, a.value.den, c, a.value.day, w.nbu(n));
    if x.Some? { return Some(x); }
    PageFails(start, asks, n + 1, |asks|, c, w);
    return None;
  }

  /***** While no entry expires *****/

  // The amount at the rates in force for its day.
  function Quote(s: Store, a: Ask, c: Currency): Option<int> {
    if c == USD then Some(Convert(a.num, a.den, USD, UAH_RATE, UAH_RATE))
    else
      var rateUsd, rateTarget := RateInForce(s, Key(USD, DayOf(s, a))), RateInForce(s, Key(c, DayOf(s, a)));
      if rateUsd.Some? && rateTarget.Some?
      then Some(Convert(a.num, a.den, c, rateUsd.value, rateTarget.value)) else None
  }

  function QuoteOpt(s: Store, a: Option<Ask>, c: Currency): Option<int> {
    if a.None? then None else Quote(s, a.value, c)
  }

  // The amounts shown are those of the rates in force for each.
  ghost predicate QuotedAt(s: Store, asks: Asks, c: Currency, shown: seq<Option<int>>) {
    && |shown| <= |asks|
    && forall i | 0 <= i < |shown| :: shown[i] == QuoteOpt(s, asks[i], c) && (shown[i].Some? <==> asks[i].Some?)
  }

  // A rate that one of the first n amounts needs is not in force.
  ghost predicate Unquoted(s: Store, asks: Asks, n: nat, c: Currency)
    requires n <= |asks|
  {
    exists i | 0 <= i < n :: asks[i].Some? && QuoteOpt(s, asks[i], c).None?
  }

  ghost predicate QuietWorld(w: World, n: nat) {
    forall i: nat | i < n :: Quiet(w.before(i))
  }

  // A conversion answers what the rates it leaves in force say.
  lemma ConvertQuotes(s: Store, a: Ask, c: Currency, nbu: Nbu)
    ensures var (s', amount) := ConvertOn(s, a.num, a.den, c, DayOf(s, a), nbu);
            amount == Quote(s', a, c) && s'.today == s.today
  {
    if c != USD {
      if ConvertOn(s, a.num, a.den, c, DayOf(s, a), nbu).1.Some? {
        ConvertFixesRates(s, a.num, a.den, c, DayOf(s, a), nbu);
      } else {
        ConvertFails(s, a.num, a.den, c, DayOf(s, a), nbu);
      }
    }
  }

  lemma ConvertKeepsQuote(s: Store, a: Ask, c: Currency, nbu: Nbu, other: Ask)
    requires Quote(s, other, c).Some?
    ensures Quote(ConvertOn(s, a.num, a.den, c, DayOf(s, a), nbu).0, other, c) == Quote(s, other, c)
  {
    ConvertQuotes(s, a, c, nbu);
    if c != USD {
      ConvertKeepsRates(s, a.num, a.den, c, DayOf(s, a), nbu, Key(USD, DayOf(s, other)));
      ConvertKeepsRates(s, a.num, a.den, c, DayOf(s, a), nbu, Key(c, DayOf(s, other)));
    }
  }

  lemma {:induction false} QuietKeepsToday(s: Store, es: seq<Event>)
    requires Quiet(es)
    ensures Run(s, es).today == s.today
    decreases |es|
  {
    if es != [] {
      assert es[0] in es && forall e | e in es[1..] :: e in es;
      QuietKeepsToday(Step(s, es[0]), es[1..]);
    }
  }

  lemma QuietKeepsQuote(s: Store, es: seq<Event>, a: Ask, c: Currency)
    requires Quiet(es) && Quote(s, a, c).Some?
    ensures Quote(Run(s, es), a, c) == Quote(s, a, c)
  {
    QuietKeepsToday(s, es);
    if c != USD {
      QuietKeepsRates(s, es, Key(USD, DayOf(s, a)));
      QuietKeepsRates(s, es, Key(c, DayOf(s, a)));
    }
  }

  lemma NextQuoted(s: Store, asks: Asks, c: Currency, shown: seq<Option<int>>, es: seq<Event>, nbu: Nbu)
    requires |shown| < |asks| && QuotedAt(s, asks, c, shown) && Quiet(es)
    ensures var (u, more) := Extend(s, Some(shown), asks[|shown|], c, es, nbu);
            && (more.Some? ==> |more.value| == |shown| + 1 && QuotedAt(u, asks, c, more.value))
            && (more.None? ==> Unquoted(u, asks, |shown| + 1, c))
  {
    var n := |shown|;
    if asks[n].Some? {
      var a, t := asks[n].value, Run(s, es);
      var u := ConvertOn(t, a.num, a.den, c, DayOf(t, a), nbu).0;
      ConvertQuotes(t, a, c, nbu);
      forall i | 0 <= i < n ensures shown[i] == QuoteOpt(u, asks[i], c) {
        if asks[i].Some? {
          QuietKeepsQuote(s, es, asks[i].value, c);
          ConvertKeepsQuote(t, a, c, nbu, asks[i].value);
        }
      }
      assert Quote(u, a, c).None? ==> QuoteOpt(u, asks[n], c).None?;
    }
  }

  lemma QuotedIsComplete(s: Store, asks: Asks, c: Currency, shown: seq<Option<int>>)
    requires QuotedAt(s, asks, c, shown)
    ensures !Unquoted(s, asks, |shown|, c)
  {
    assert forall i | 0 <= i < |shown| :: shown[i] == QuoteOpt(s, asks[i], c) && (shown[i].Some? <==> asks[i].Some?);
  }

  lemma UnquotedAlso(s: Store, asks: Asks, n: nat, c: Currency)
    requires n < |asks| && Unquoted(s, asks, n, c)
    ensures Unquoted(s, asks, n + 1, c)
  {}

  // The first n amounts have failed exactly if one of them needs a rate that is not in force, and are
  // otherwise shown at the rates in force.
  ghost predicate Settled(s: Store, shown: Option<seq<Option<int>>>, asks: Asks, n: nat, c: Currency)
    requires n <= |asks|
  {
    && (shown.None? <==> Unquoted(s, asks, n, c))
    && (shown.Some? ==> |shown.value| == n && QuotedAt(s, asks, c, shown.value))
  }

  lemma QuietExtends(s: Store, sofar: Option<seq<Option<int>>>, asks: Asks, n: nat, c: Currency, es: seq<Event>,
                     nbu: Nbu)
    requires n < |asks| && Settled(s, sofar, asks, n, c) && Quiet(es)
    ensures var (u, more) := Extend(s, sofar, asks[n], c, es, nbu); Settled(u, more, asks, n + 1, c)
  {
    if sofar.None? {
      UnquotedAlso(s, asks, n, c);
    } else {
      NextQuoted(s, asks, c, sofar.value, es, nbu);
      var (u, more) := Extend(s, sofar, asks[n], c, es, nbu);
      if more.Some? { QuotedIsComplete(u, asks, c, more.value); }
    }
  }

  // While nothing but lookups and historical syncs happens, a page fails exactly when a rate it needs is
  // not in force in the end, and otherwise shows every amount at the rates then in force for its day.
  lemma {:induction false} QuietPage(s: Store, asks: Asks, n: nat, c: Currency, w: World)
    requires n <= |asks| && QuietWorld(w, n)
    ensures var (s', shown) := ConvertFirst(s, asks, n, c, w); Settled(s', shown, asks, n, c)
  {
    if n > 0 {
      QuietPage(s, asks, n - 1, c, w);
      var (t, sofar) := ConvertFirst(s, asks, n - 1, c, w);
      QuietExtends(t, sofar, asks, n - 1, c, w.before(n - 1), w.nbu(n - 1));
    }
  }

  /***** Amounts for today *****/

  // Every amount is for today.
  ghost predicate ForToday(asks: Asks) {
    forall i | 0 <= i < |asks| && asks[i].Some? :: asks[i].value.day.None?
  }

  // There is an amount to convert among the first n.
  ghost predicate Priced(asks: Asks, n: nat)
    requires n <= |asks|
  {
    exists i | 0 <= i < n :: asks[i].Some?
  }

  // A pair of rates for a day. The dollar needs none.
  datatype Rates = Rates(usd: Rate, other: Rate)

  ghost predicate InForce(s: Store, c: Currency, day: int, r: Rates) {
    c == USD || (RateInForce(s, Key(USD, day)) == Some(r.usd) && RateInForce(s, Key(c, day)) == Some(r.other))
  }

  // The rates in force for a day, if there are any; for the dollar any will do.
  function RatesOn(s: Store, c: Currency, day: int): Rates {
    var rateUsd, rateOther := RateInForce(s, Key(USD, day)), RateInForce(s, Key(c, day));
    if rateUsd.Some? && rateOther.Some? then Rates(rateUsd.value, rateOther.value) else Rates(UAH_RATE, UAH_RATE)
  }

  function RatesNow(s: Store, c: Currency): Rates { RatesOn(s, c, s.today) }

  function ShownAsk(a: Ask, c: Currency, r: Rates): int { Convert(a.num, a.den, c, r.usd, r.other) }

  // The amounts shown are those of one pair of rates.
  ghost predicate ShownAt(shown: seq<Option<int>>, asks: Asks, c: Currency, r: Rates) {
    && |shown| <= |asks|
    && forall i | 0 <= i < |shown| ::
         shown[i] == if asks[i].None? then None else Some(ShownAsk(asks[i].value, c, r))
  }

  lemma QuoteToday(s: Store, a: Ask, c: Currency)
    requires a.day.None?
    ensures Quote(s, a, c)
         == if InForce(s, c, s.today, RatesNow(s, c)) then Some(ShownAsk(a, c, RatesNow(s, c))) else None
  {}

  // A page fails exactly when it has an amount to convert and a rate of today is not in force in the end.
  lemma {:induction false} FailsIff(s: Store, asks: Asks, n: nat, c: Currency, w: World)
    requires n <= |asks| && ForToday(asks)
    ensures var (s', shown) := ConvertFirst(s, asks, n, c, w);
            shown.None? <==> Priced(asks, n) && !InForce(s', c, s'.today, RatesNow(s', c))
  {
    if n > 0 {
      FailsIff(s, asks, n - 1, c, w);
      var (t, sofar) := ConvertFirst(s, asks, n - 1, c, w);
      if asks[n - 1].Some? && sofar.Some? {
        var a, t' := asks[n - 1].value, Run(t, w.before(n - 1));
        ConvertQuotes(t', a, c, w.nbu(n - 1));
        QuoteToday(ConvertOpt(t, asks[n - 1], c, w.before(n - 1), w.nbu(n - 1)).0, a, c);
      }
    }
  }

  // If both rates are in force from the beginning, they are in force in the end, and the page succeeds.
  lemma {:induction false} QuietPageKeepsRates(s: Store, asks: Asks, n: nat, c: Currency, w: World)
    requires n <= |asks| && c != USD && ForToday(asks) && QuietWorld(w, n)
    requires InForce(s, c, s.today, RatesNow(s, c))
    ensures var (s', shown) := ConvertFirst(s, asks, n, c, w);
            shown.Some? && s'.today == s.today && InForce(s', c, s.today, RatesNow(s, c))
  {
    if n > 0 {
      QuietPageKeepsRates(s, asks, n - 1, c, w);
      if asks[n - 1].Some? {
        var t := ConvertFirst(s, asks, n - 1, c, w).0;
        var a, es := asks[n - 1].value, w.before(n - 1);
        QuietKeepsToday(t, es);
        QuietKeepsRates(t, es, Key(USD, s.today));
        QuietKeepsRates(t, es, Key(c, s.today));
        ConvertUsesRatesInForce(Run(t, es), a.num, a.den, c, s.today, w.nbu(n - 1));
      }
    }
  }

  // While nothing but lookups and historical syncs happens, a page is shown at the rates of today that
  // are in force in the end.
  lemma QuietPageToday(s: Store, asks: Asks, c: Currency, w: World)
    requires ForToday(asks) && QuietWorld(w, |asks|) && ConvertAll(s, asks, c, w).1.Some?
    ensures var (s', shown) := ConvertAll(s, asks, c, w); ShownAt(shown.value, asks, c, RatesNow(s', c))
  {
    QuietPage(s, asks, |asks|, c, w);
    var (s', shown) := ConvertAll(s, asks, c, w);
    forall i | 0 <= i < |asks| && asks[i].Some?
      ensures shown.value[i] == Some(ShownAsk(asks[i].value, c, RatesNow(s', c)))
    {
      QuoteToday(s', asks[i].value, c);
    }
  }
}
