/** The seed's 1:1 match of FakeStore products with DummyJSON products by nearest price. */
module Matcher {
  import opened Wrappers
  import opened Collections
  import opened Tables

  // A choice for one FakeStore product: the price gap, ties broken by the DummyJSON position.
  function Gap(dummy: seq<ShopProduct>, fake: ShopProduct, i: nat): nat
    requires i < |dummy|
  {
    var d := dummy[i].price - fake.price;
    if d < 0 then -d else d
  }

  predicate Closer(dummy: seq<ShopProduct>, fake: ShopProduct, i: nat, j: nat)
    requires i < |dummy| && j < |dummy|
  {
    var gi, gj := Gap(dummy, fake, i), Gap(dummy, fake, j);
    gi < gj || (gi == gj && i < j)
  }

  // Distinct DummyJSON positions for the first |a| FakeStore products.
  ghost predicate Assignment(a: seq<nat>, dummy: seq<ShopProduct>, fake: seq<ShopProduct>) {
    && |a| <= |fake|
    && (forall j | 0 <= j < |a| :: a[j] < |dummy|)
    && Distinct(a)
  }

  // i is the closest unused position for the product.
  ghost predicate IsChoice(dummy: seq<ShopProduct>, used: set<nat>, fake: ShopProduct, i: nat) {
    && i < |dummy| && i !in used
    && forall k: nat | k < |dummy| && k !in used && k != i :: Closer(dummy, fake, i, k)
  }

  function Used(picks: seq<nat>): set<nat> { set i | i in picks }

  // Every product in turn took the closest position left.
  ghost predicate Greedy(picks: seq<nat>, dummy: seq<ShopProduct>, fake: seq<ShopProduct>) {
    && Assignment(picks, dummy, fake)
    && forall j | 0 <= j < |picks| :: IsChoice(dummy, Used(picks[..j]), fake[j], picks[j])
  }

  // The mapping that sends the position picked for each product to the product.
  ghost predicate Maps(mapping: map<nat, ShopProduct>, picks: seq<nat>, fake: seq<ShopProduct>) {
    && |picks| <= |fake|
    && mapping.Keys == Used(picks)
    && forall j | 0 <= j < |picks| :: picks[j] in mapping && mapping[picks[j]] == fake[j]
  }

  function Min(a: nat, b: nat): (m: nat)
    ensures m <= a && m <= b && (m == a || m == b)
  {
    if a <= b then a else b
  }

  lemma {:induction false} UsedSize(picks: seq<nat>)
    requires Distinct(picks)
    ensures |Used(picks)| == |picks|
  {
    if picks != [] {
      var n := |picks| - 1;
      UsedSize(picks[..n]);
      assert picks == picks[..n] + [picks[n]];
      assert Used(picks) == Used(picks[..n]) + {picks[n]} && picks[n] !in Used(picks[..n]);
    }
  }

  function Positions(n: nat): (all: set<nat>)
    ensures forall i: nat :: i in all <==> i < n
    ensures |all| == n
  {
    if n == 0 then {} else Positions(n - 1) + {n - 1}
  }

  // When no position is left, every one of them has been picked.
  lemma Exhausted(picks: seq<nat>, dummy: seq<ShopProduct>, fake: seq<ShopProduct>)
    requires Assignment(picks, dummy, fake)
    ensures |picks| <= |dummy|
    ensures (forall i: nat | i < |dummy| :: i in Used(picks)) ==> |picks| == |dummy|
  {
    UsedSize(picks);
    var all := Positions(|dummy|);
    assert Used(picks) <= all;
    Subset(Used(picks), all);
    if forall i: nat | i < |dummy| :: i in Used(picks) { assert Used(picks) == all; }
  }

  lemma {:induction false} Subset(a: set<nat>, b: set<nat>)
    requires a <= b
    ensures |a| <= |b|
  {
    assert b == a + (b - a);
  }

  lemma GreedyExtends(picks: seq<nat>, mapping: map<nat, ShopProduct>, pick: nat,
                      dummy: seq<ShopProduct>, fake: seq<ShopProduct>)
    requires |picks| < |fake| && Greedy(picks, dummy, fake) && Maps(mapping, picks, fake)
    requires IsChoice(dummy, Used(picks), fake[|picks|], pick)
    ensures Greedy(picks + [pick], dummy, fake) && Maps(mapping[pick := fake[|picks|]], picks + [pick], fake)
    ensures Used(picks + [pick]) == Used(picks) + {pick} && |picks| < |dummy|
  {
    UsedAppend(picks, pick);
    assert Assignment(picks + [pick], dummy, fake);
    ChoicesExtend(picks, pick, dummy, fake);
    Exhausted(picks + [pick], dummy, fake);
  }

  lemma UsedAppend(picks: seq<nat>, pick: nat)
    ensures Used(picks + [pick]) == Used(picks) + {pick}
    ensures forall j | 0 <= j < |picks| :: picks[j] in Used(picks)
  {}

  lemma ChoicesExtend(picks: seq<nat>, pick: nat, dummy: seq<ShopProduct>, fake: seq<ShopProduct>)
    requires |picks| < |fake| && Greedy(picks, dummy, fake)
    requires IsChoice(dummy, Used(picks), fake[|picks|], pick)
    ensures forall j | 0 <= j <= |picks| :: IsChoice(dummy, Used((picks + [pick])[..j]), fake[j], (picks + [pick])[j])
  {
    forall j | 0 <= j <= |picks| ensures IsChoice(dummy, Used((picks + [pick])[..j]), fake[j], (picks + [pick])[j]) {
      assert (picks + [pick])[..j] == picks[..j];
      if j == |picks| { assert picks[..j] == picks; }
    }
  }

  // The inner loop, over the DummyJSON products.
  method Nearest(dummy: seq<ShopProduct>, used: set<nat>, fake: ShopProduct) returns (bestIdx: Option<nat>)
    ensures bestIdx.Some? ==> IsChoice(dummy, used, fake, bestIdx.value)
    ensures bestIdx.None? ==> forall k: nat | k < |dummy| :: k in used
  {
    bestIdx := None;
    var bestGap := 0;
    for i := 0 to |dummy|
      invariant bestIdx.None? ==> forall k: nat | k < i :: k in used
      invariant bestIdx.Some? ==>
                  && bestIdx.value < i && bestIdx.value !in used
                  && bestGap == Gap(dummy, fake, bestIdx.value)
                  && forall k: nat | k < i && k !in used && k != bestIdx.value :: Closer(dummy, fake, bestIdx.value, k)
    {
      if i in used { continue; }
      var gap := Gap(dummy, fake, i);
      if bestIdx.None? || gap < bestGap {
        bestIdx, bestGap := Some(i), gap;
      }
    }
  }

  // The dict and its keys in insertion order, which is the order of the FakeStore products.
  method MapByNearestPrice(dummy: seq<ShopProduct>, fake: seq<ShopProduct>)
    returns (mapping: map<nat, ShopProduct>, picks: seq<nat>)
    ensures Greedy(picks, dummy, fake) && Maps(mapping, picks, fake)
    ensures |picks| == Min(|dummy|, |fake|)
  {
    mapping := map[];
    var used: set<nat> := {};
    picks := [];
    for f := 0 to |fake|
      invariant |picks| == f && f <= |dummy|
      invariant used == Used(picks)
      invariant Greedy(picks, dummy, fake) && Maps(mapping, picks, fake)
    {
      var bestIdx := Nearest(dummy, used, fake[f]);
      if bestIdx.None? {
        Exhausted(picks, dummy, fake);
        break;
      }
      GreedyExtends(picks, mapping, bestIdx.value, dummy, fake);
      used := used + {bestIdx.value};
      mapping := mapping[bestIdx.value := fake[f]];
      picks := picks + [bestIdx.value];
    }
  }

  // In prices: no position that is free at the product's turn has a price nearer to the product's, on
  // whichever side of it, and of equally near ones the first is picked.
  lemma PickIsNearest(picks: seq<nat>, dummy: seq<ShopProduct>, fake: seq<ShopProduct>, j: nat, k: nat)
    requires Greedy(picks, dummy, fake) && j < |picks| && k < |dummy| && k !in Used(picks[..j])
    ensures var x, y := dummy[picks[j]].price - fake[j].price, dummy[k].price - fake[j].price;
            && (x <= y || x <= -y) && (-x <= y || -x <= -y)
            && (x == y || x == -y ==> picks[j] <= k)
  {
    assert IsChoice(dummy, Used(picks[..j]), fake[j], picks[j]);
    assert k != picks[j] ==> Closer(dummy, fake[j], picks[j], k);
  }

  // Product j strictly prefers its position in a to its position in b.
  predicate Prefers(dummy: seq<ShopProduct>, fake: seq<ShopProduct>, a: seq<nat>, b: seq<nat>, j: nat)
    requires j < |a| && j < |b| && j < |fake| && a[j] < |dummy| && b[j] < |dummy|
  {
    Closer(dummy, fake[j], a[j], b[j])
  }

  // Lexicographic order of assignments by the products' (gap, position) pairs.
  ghost predicate Before(dummy: seq<ShopProduct>, fake: seq<ShopProduct>, a: seq<nat>, b: seq<nat>)
    requires Assignment(a, dummy, fake) && Assignment(b, dummy, fake) && |a| == |b|
  {
    exists j | 0 <= j < |a| :: a[..j] == b[..j] && Prefers(dummy, fake, a, b, j)
  }

  lemma {:induction false} FirstDifference(a: seq<nat>, b: seq<nat>) returns (j: nat)
    requires |a| == |b| && a != b
    ensures j < |a| && a[..j] == b[..j] && a[j] != b[j]
  {
    if a[0] != b[0] {
      j := 0;
    } else {
      assert a == [a[0]] + a[1..] && b == [b[0]] + b[1..];
      var k := FirstDifference(a[1..], b[1..]);
      j := k + 1;
      assert a[..j] == [a[0]] + a[1..][..k] && b[..j] == [b[0]] + b[1..][..k];
    }
  }

  // The greedy match is the unique lexicographic minimum over all assignments of the same products.
  lemma GreedyIsLexMin(picks: seq<nat>, other: seq<nat>, dummy: seq<ShopProduct>, fake: seq<ShopProduct>)
    requires Greedy(picks, dummy, fake) && Assignment(other, dummy, fake) && |other| == |picks|
    ensures other == picks || Before(dummy, fake, picks, other)
  {
    if other != picks {
      var j := FirstDifference(picks, other);
      assert forall i | 0 <= i < j :: other[..j][i] == other[i] != other[j];
      assert other[j] !in Used(picks[..j]);
    }
  }

  // Hence in every different assignment some product is strictly worse off.
  lemma SomeoneWorse(picks: seq<nat>, other: seq<nat>, dummy: seq<ShopProduct>, fake: seq<ShopProduct>)
    requires Greedy(picks, dummy, fake) && Assignment(other, dummy, fake) && |other| == |picks| && other != picks
    ensures exists j | 0 <= j < |picks| :: Prefers(dummy, fake, picks, other, j)
  {
    GreedyIsLexMin(picks, other, dummy, fake);
  }

  /***** By gap alone *****/

  // By gap alone, without the positions, the second assignment is as good as the first for every product.
  ghost predicate NowhereWorse(a: seq<nat>, b: seq<nat>, dummy: seq<ShopProduct>, fake: seq<ShopProduct>)
    requires Assignment(a, dummy, fake) && Assignment(b, dummy, fake) && |a| == |b|
  {
    forall j | 0 <= j < |a| :: Gap(dummy, fake[j], b[j]) <= Gap(dummy, fake[j], a[j])
  }

  ghost predicate Rival(other: seq<nat>, picks: seq<nat>, dummy: seq<ShopProduct>, fake: seq<ShopProduct>)
    requires Assignment(picks, dummy, fake)
  {
    && Assignment(other, dummy, fake) && |other| == |picks| && other != picks
    && NowhereWorse(picks, other, dummy, fake)
  }

  // Position k is as close to product j as its own.
  predicate Accepts(picks: seq<nat>, dummy: seq<ShopProduct>, fake: seq<ShopProduct>, j: nat, k: nat)
    requires j < |picks| && j < |fake| && picks[j] < |dummy|
  {
    k < |dummy| && Gap(dummy, fake[j], k) <= Gap(dummy, fake[j], picks[j])
  }

  // A position that nobody picked is at the same gap as the pick.
  ghost predicate FreeTie(picks: seq<nat>, dummy: seq<ShopProduct>, fake: seq<ShopProduct>, j: nat, k: nat)
    requires Assignment(picks, dummy, fake)
  {
    && j < |picks| && k < |dummy| && k !in Used(picks)
    && Gap(dummy, fake[j], k) == Gap(dummy, fake[j], picks[j])
  }

  function Next(ring: seq<nat>, i: nat): nat
    requires i < |ring|
  {
    if i + 1 < |ring| then ring[i + 1] else ring[0]
  }

  // Products each of which accepts the position of the next one, and the last that of the first.
  ghost predicate Ring(ring: seq<nat>, picks: seq<nat>, dummy: seq<ShopProduct>, fake: seq<ShopProduct>)
    requires Assignment(picks, dummy, fake)
  {
    && |ring| >= 2 && Distinct(ring) && (forall i | 0 <= i < |ring| :: ring[i] < |picks|)
    && forall i | 0 <= i < |ring| ::
         Next(ring, i) < |picks| && Accepts(picks, dummy, fake, ring[i], picks[Next(ring, i)])
  }

  // The product whose position product j takes when the ring turns.
  ghost function Turned(ring: seq<nat>, j: nat): nat {
    if i: nat :| i < |ring| && ring[i] == j then Next(ring, i) else j
  }

  lemma TurnedIs(ring: seq<nat>, i: nat)
    requires Distinct(ring) && i < |ring|
    ensures Turned(ring, ring[i]) == Next(ring, i)
  {
    var k: nat :| k < |ring| && ring[k] == ring[i];
  }

  lemma NextDistinct(ring: seq<nat>, i: nat, l: nat)
    requires Distinct(ring) && i < |ring| && l < |ring| && i != l
    ensures Next(ring, i) != Next(ring, l)
  {}

  lemma TurnedDistinct(ring: seq<nat>, a: nat, b: nat)
    requires Distinct(ring) && a != b
    ensures Turned(ring, a) != Turned(ring, b)
  {
    TurnedWithin(ring, a);
    TurnedWithin(ring, b);
    if i: nat, l: nat :| i < |ring| && l < |ring| && ring[i] == a && ring[l] == b {
      TurnedIs(ring, i);
      TurnedIs(ring, l);
      NextDistinct(ring, i, l);
    }
  }

  lemma TurnedWithin(ring: seq<nat>, a: nat)
    requires Distinct(ring)
    ensures if a in ring then Turned(ring, a) in ring else Turned(ring, a) == a
  {
    if i: nat :| i < |ring| && ring[i] == a { TurnedIs(ring, i); }
  }

  // A ring of products can be turned: nobody's gap grows.
  lemma RingTurns(ring: seq<nat>, picks: seq<nat>, dummy: seq<ShopProduct>, fake: seq<ShopProduct>)
    returns (other: seq<nat>)
    requires Assignment(picks, dummy, fake) && Ring(ring, picks, dummy, fake)
    ensures Rival(other, picks, dummy, fake)
  {
    forall j: nat | j < |picks|
      ensures Turned(ring, j) < |picks| && Accepts(picks, dummy, fake, j, picks[Turned(ring, j)])
    {
      if i: nat :| i < |ring| && ring[i] == j { TurnedIs(ring, i); }
    }
    other := seq(|picks|, j requires 0 <= j < |picks| => picks[Turned(ring, j)]);
    forall i, l | 0 <= i < l < |other| ensures other[i] != other[l] {
      TurnedDistinct(ring, i, l);
    }
    TurnedIs(ring, 0);
    assert other[ring[0]] != picks[ring[0]];
  }

  // A tied position that nobody picked can be taken instead.
  lemma FreeTieMoves(picks: seq<nat>, dummy: seq<ShopProduct>, fake: seq<ShopProduct>, j: nat, k: nat)
    requires Assignment(picks, dummy, fake) && FreeTie(picks, dummy, fake, j, k)
    ensures Rival(picks[j := k], picks, dummy, fake)
  {
    assert forall i | 0 <= i < |picks| :: picks[i] in Used(picks);
    assert picks[j := k][j] != picks[j];
  }

  // In the greedy match a position that nobody picked is at best tied.
  lemma RivalTakesFree(other: seq<nat>, picks: seq<nat>, dummy: seq<ShopProduct>, fake: seq<ShopProduct>, j: nat)
    requires Greedy(picks, dummy, fake) && Rival(other, picks, dummy, fake)
    requires j < |picks| && other[j] !in Used(picks)
    ensures FreeTie(picks, dummy, fake, j, other[j])
  {
    assert IsChoice(dummy, Used(picks[..j]), fake[j], picks[j]);
    assert picks[j] in Used(picks) && other[j] !in Used(picks[..j]);
    assert Closer(dummy, fake[j], picks[j], other[j]);
    assert Gap(dummy, fake[j], other[j]) <= Gap(dummy, fake[j], picks[j]);
  }

  // Products in a row, each of which moves to the position of the next one.
  ghost predicate Chain(p: seq<nat>, other: seq<nat>, picks: seq<nat>) {
    && |other| == |picks| && p != [] && Distinct(p)
    && (forall i | 0 <= i < |p| :: p[i] < |picks| && other[p[i]] != picks[p[i]])
    && forall i | 0 < i < |p| :: other[p[i - 1]] == picks[p[i]]
  }

  lemma ChainShort(p: seq<nat>, other: seq<nat>, picks: seq<nat>)
    requires Chain(p, other, picks)
    ensures |p| <= |picks|
  {
    UsedSize(p);
    assert Used(p) <= Positions(|picks|);
    Subset(Used(p), Positions(|picks|));
  }

  // The product whose position the last of a chain takes begins the chain, or it goes on.
  lemma ChainNext(p: seq<nat>, other: seq<nat>, picks: seq<nat>, l: nat)
    requires Chain(p, other, picks) && l < |picks| && picks[l] == other[p[|p| - 1]]
    requires Distinct(other)
    ensures l == p[0] || Chain(p + [l], other, picks)
  {
    var last := p[|p| - 1];
    forall i | 0 < i < |p| ensures p[i] != l {
      assert other[p[i - 1]] == picks[p[i]] && p[i - 1] != last;
    }
    assert l != last && other[l] != other[last];
  }

  lemma ChainIsRing(p: seq<nat>, other: seq<nat>, picks: seq<nat>, dummy: seq<ShopProduct>, fake: seq<ShopProduct>)
    requires Assignment(picks, dummy, fake) && Rival(other, picks, dummy, fake) && Chain(p, other, picks)
    requires picks[p[0]] == other[p[|p| - 1]]
    ensures Ring(p, picks, dummy, fake)
  {
    forall i | 0 <= i < |p| ensures Accepts(picks, dummy, fake, p[i], picks[Next(p, i)]) {
      assert other[p[i]] == picks[Next(p, i)];
      assert Gap(dummy, fake[p[i]], other[p[i]]) <= Gap(dummy, fake[p[i]], picks[p[i]]);
    }
  }

  // If the rival takes picked positions only, following its moves closes a ring.
  lemma {:induction false} ChainCloses(p: seq<nat>, other: seq<nat>, picks: seq<nat>, dummy: seq<ShopProduct>,
                                       fake: seq<ShopProduct>)
    returns (ring: seq<nat>)
    requires Assignment(picks, dummy, fake) && Rival(other, picks, dummy, fake) && Chain(p, other, picks)
    requires forall j | 0 <= j < |picks| :: other[j] in Used(picks)
    ensures Ring(ring, picks, dummy, fake)
    decreases |picks| - |p|
  {
    var last := p[|p| - 1];
    assert other[last] in Used(picks);
    var l: nat :| l < |picks| && picks[l] == other[last];
    ChainNext(p, other, picks, l);
    if l == p[0] {
      ring := p;
      ChainIsRing(p, other, picks, dummy, fake);
    } else {
      ChainShort(p + [l], other, picks);
      ring := ChainCloses(p + [l], other, picks, dummy, fake);
    }
  }

  lemma RivalRing(other: seq<nat>, picks: seq<nat>, dummy: seq<ShopProduct>, fake: seq<ShopProduct>)
    returns (ring: seq<nat>)
    requires Assignment(picks, dummy, fake) && Rival(other, picks, dummy, fake)
    requires forall j | 0 <= j < |picks| :: other[j] in Used(picks)
    ensures Ring(ring, picks, dummy, fake)
  {
    var j := FirstDifference(picks, other);
    ring := ChainCloses([j], other, picks, dummy, fake);
  }

  ghost predicate HasFreeTie(picks: seq<nat>, dummy: seq<ShopProduct>, fake: seq<ShopProduct>)
    requires Assignment(picks, dummy, fake)
  {
    exists j: nat, k: nat :: FreeTie(picks, dummy, fake, j, k)
  }

  lemma RivalMoves(other: seq<nat>, picks: seq<nat>, dummy: seq<ShopProduct>, fake: seq<ShopProduct>)
    requires Greedy(picks, dummy, fake) && Rival(other, picks, dummy, fake)
    ensures HasFreeTie(picks, dummy, fake) || exists ring :: Ring(ring, picks, dummy, fake)
  {
    if j: nat :| j < |picks| && other[j] !in Used(picks) {
      RivalTakesFree(other, picks, dummy, fake, j);
    } else {
      var ring := RivalRing(other, picks, dummy, fake);
    }
  }

  // By gap alone another assignment is as good as the greedy one for every product exactly when a product
  // is tied with a position that nobody picked, or products in a ring each accept the next one's position.
  lemma GapAloneIff(picks: seq<nat>, dummy: seq<ShopProduct>, fake: seq<ShopProduct>)
    requires Greedy(picks, dummy, fake)
    ensures (exists other :: Rival(other, picks, dummy, fake))
       <==> HasFreeTie(picks, dummy, fake) || exists ring :: Ring(ring, picks, dummy, fake)
  {
    if other :| Rival(other, picks, dummy, fake) { RivalMoves(other, picks, dummy, fake); }
    if j: nat, k: nat :| FreeTie(picks, dummy, fake, j, k) { FreeTieMoves(picks, dummy, fake, j, k); }
    if ring :| Ring(ring, picks, dummy, fake) { var other := RingTurns(ring, picks, dummy, fake); }
  }

  // Either way a product is tied with a position that was still free at its turn: without such a tie the
  // gaps alone decide.
  lemma RivalNeedsTie(other: seq<nat>, picks: seq<nat>, dummy: seq<ShopProduct>, fake: seq<ShopProduct>)
    returns (j: nat, k: nat)
    requires Greedy(picks, dummy, fake) && Rival(other, picks, dummy, fake)
    ensures j < |picks| && k < |dummy| && k !in Used(picks[..j + 1])
    ensures Gap(dummy, fake[j], k) == Gap(dummy, fake[j], picks[j])
  {
    j := FirstDifference(picks, other);
    k := other[j];
    assert forall i | 0 <= i < j :: other[..j][i] == other[i] != other[j];
    assert k !in Used(picks[..j]) && picks[..j + 1] == picks[..j] + [picks[j]];
    assert IsChoice(dummy, Used(picks[..j]), fake[j], picks[j]);
    assert Gap(dummy, fake[j], other[j]) <= Gap(dummy, fake[j], picks[j]);
  }

  // The greedy match is determined by its inputs, so MapByNearestPrice computes a function.
  lemma {:induction false} GreedyUnique(p1: seq<nat>, p2: seq<nat>, dummy: seq<ShopProduct>, fake: seq<ShopProduct>,
                                        n: nat)
    requires Greedy(p1, dummy, fake) && Greedy(p2, dummy, fake) && n <= |p1| && n <= |p2|
    ensures p1[..n] == p2[..n]
  {
    if n > 0 {
      GreedyUnique(p1, p2, dummy, fake, n - 1);
      assert IsChoice(dummy, Used(p1[..n - 1]), fake[n - 1], p1[n - 1]);
      assert p1[..n] == p1[..n - 1] + [p1[n - 1]] && p2[..n] == p2[..n - 1] + [p2[n - 1]];
    }
  }

  // By gap alone the claim is false: two DummyJSON products at the same price can be swapped.
  lemma GapAloneAllowsSwap(p: int, q: int)
    ensures var dummy := [ShopProduct("1", "a", p), ShopProduct("2", "b", p)];
            var fake := [ShopProduct("3", "c", q), ShopProduct("4", "d", q)];
            && Greedy([0, 1], dummy, fake) && Assignment([1, 0], dummy, fake)
            && forall j | 0 <= j < 2 :: Gap(dummy, fake[j], [0, 1][j]) == Gap(dummy, fake[j], [1, 0][j])
  {
    var dummy := [ShopProduct("1", "a", p), ShopProduct("2", "b", p)];
    var fake := [ShopProduct("3", "c", q), ShopProduct("4", "d", q)];
    assert Used([0, 1][..0]) == {};
    assert [0, 1][..1] == [0];
    assert Used([0]) == {0};
    assert IsChoice(dummy, {}, fake[0], 0);
    assert IsChoice(dummy, {0}, fake[1], 1);
  }
}
