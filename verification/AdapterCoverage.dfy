/** What the greedy choice of adapters achieves: who is assigned what, and in how many rounds. */
module AdapterCoverage {
  import opened Wrappers
  import opened Sides
  import opened Text
  import opened Truncating
  import opened AdapterMap

  // ---------------------------------------------------------------- every exchange, from its own list

  predicate FromOwnList(t: Table, m: map<string, AdapterConfig>) {
    forall k :: k in m ==> k in t && m[k] in t[k]
  }

  lemma {:induction false} TakenFromOwnList(t: Table, exchanges: seq<string>, best: string)
    requires AllKnown(t, exchanges)
    ensures FromOwnList(t, Taken(t, exchanges, best))
    ensures forall k :: k in Taken(t, exchanges, best) ==> Name(Taken(t, exchanges, best)[k]) == best
  {
    if exchanges != [] {
      TakenFromOwnList(t, exchanges[..|exchanges| - 1], best);
    }
  }

  lemma {:induction false} TakenOrLeft(t: Table, exchanges: seq<string>, best: string, i: nat)
    requires AllKnown(t, exchanges) && i < |exchanges|
    ensures Lower(exchanges[i]) in Taken(t, exchanges, best) || exchanges[i] in Left(t, exchanges, best)
  {
    if i < |exchanges| - 1 {
      TakenOrLeft(t, exchanges[..|exchanges| - 1], best, i);
    }
  }

  ghost predicate Named(exchanges: seq<string>, k: string) {
    exists i :: 0 <= i < |exchanges| && Lower(exchanges[i]) == k
  }

  lemma NamedAmong(some: seq<string>, exchanges: seq<string>, k: string)
    requires Named(some, k) && forall x :: x in some ==> x in exchanges
    ensures Named(exchanges, k)
  {
    var j :| 0 <= j < |some| && Lower(some[j]) == k;
    assert some[j] in exchanges;
  }

  lemma {:induction false} LeftAmong(t: Table, exchanges: seq<string>, best: string)
    requires AllKnown(t, exchanges)
    ensures forall x :: x in Left(t, exchanges, best) ==> x in exchanges
  {
    if exchanges != [] {
      LeftAmong(t, exchanges[..|exchanges| - 1], best);
    }
  }

  lemma {:induction false} TakenNamed(t: Table, exchanges: seq<string>, best: string, k: string)
    requires AllKnown(t, exchanges) && k in Taken(t, exchanges, best)
    ensures Named(exchanges, k)
  {
    var last := |exchanges| - 1;
    if k == Lower(exchanges[last]) {
      assert Named(exchanges, k);
    } else {
      TakenNamed(t, exchanges[..last], best, k);
      NamedAmong(exchanges[..last], exchanges, k);
    }
  }

  /** The result names each exchange and nothing else, and each gets an entry of its own list. */
  ghost predicate Assigns(t: Table, exchanges: seq<string>, m: map<string, AdapterConfig>) {
    && FromOwnList(t, m)
    && (forall i :: 0 <= i < |exchanges| ==> Lower(exchanges[i]) in m)
    && (forall k :: k in m ==> Named(exchanges, k))
  }

  lemma RoundAssigns(t: Table, exchanges: seq<string>, best: string, rest: map<string, AdapterConfig>)
    requires AllKnown(t, exchanges) && Assigns(t, Left(t, exchanges, best), rest)
    ensures Assigns(t, exchanges, Taken(t, exchanges, best) + rest)
  {
    var taken, left := Taken(t, exchanges, best), Left(t, exchanges, best);
    TakenFromOwnList(t, exchanges, best);
    LeftAmong(t, exchanges, best);
    forall i | 0 <= i < |exchanges| ensures Lower(exchanges[i]) in taken + rest {
      TakenOrLeft(t, exchanges, best, i);
    }
    forall k | k in taken + rest ensures Named(exchanges, k) {
      if k in rest {
        NamedAmong(left, exchanges, k);
      } else {
        TakenNamed(t, exchanges, best, k);
      }
    }
  }

  /** Selling finds an adapter for every exchange exactly when every exchange is known with at least one. */
  lemma {:induction false} AssignedTheorem(ts: Tables, exchanges: seq<string>)
    ensures OptimalMap(ts, exchanges, SELL).Success? <==> AllKnown(ts.sell, exchanges)
    ensures var r := OptimalMap(ts, exchanges, SELL); r.Success? ==> Assigns(ts.sell, exchanges, r.value)
    decreases |exchanges|
  {
    UnknownFails(ts.sell, exchanges);
    if exchanges != [] && AllKnown(ts.sell, exchanges) {
      var best := Best(ts.sell, exchanges);
      SellStep(ts, exchanges);
      AssignedTheorem(ts, Left(ts.sell, exchanges, best));
      RoundAssigns(ts.sell, exchanges, best, OptimalMap(ts, Left(ts.sell, exchanges, best), SELL).value);
    }
  }

  // ---------------------------------------------------------------- buying: one adapter or none

  lemma {:induction false} ServedAtMost(t: Table, exchanges: seq<string>, adapter: string)
    requires AllKnown(t, exchanges)
    ensures Served(t, exchanges, adapter) <= |exchanges|
  {
    if exchanges != [] {
      ServedAtMost(t, exchanges[..|exchanges| - 1], adapter);
    }
  }

  /** A purchase of known exchanges succeeds exactly when one adapter serves them all. */
  lemma KnownPurchase(ts: Tables, exchanges: seq<string>)
    requires exchanges != [] && AllKnown(ts.buy, exchanges) && AllDistinct(ts.buy, exchanges)
    ensures OptimalMap(ts, exchanges, BUY).Success? <==> exists a :: Served(ts.buy, exchanges, a) == |exchanges|
    ensures var r := OptimalMap(ts, exchanges, BUY);
            r.Success? ==>
              && Assigns(ts.buy, exchanges, r.value)
              && (forall k :: k in r.value ==> Name(r.value[k]) == Best(ts.buy, exchanges))
  {
    var t, best := ts.buy, Best(ts.buy, exchanges);
    UnknownFails(t, exchanges);
    ServedAndLeft(t, exchanges, best);
    TakenFromOwnList(t, exchanges, best);
    if a :| Served(t, exchanges, a) == |exchanges| {
      BestIsBest(t, exchanges, a);
      MentionsServed(t, exchanges, a);
      MentionsServed(t, exchanges, best);
      ServedAtMost(t, exchanges, best);
    }
    if Left(t, exchanges, best) == [] {
      RoundAssigns(t, exchanges, best, map[]);
    }
  }

  /**
   A purchase succeeds exactly when every exchange is known with an adapter and one adapter serves them all,
   and then it uses just one; nothing to purchase succeeds with nothing.
   */
  lemma BuyTheorem(ts: Tables, exchanges: seq<string>)
    requires AllKnown(ts.buy, exchanges) ==> AllDistinct(ts.buy, exchanges)
    ensures OptimalMap(ts, exchanges, BUY).Success? <==>
              AllKnown(ts.buy, exchanges) && exists a :: Served(ts.buy, exchanges, a) == |exchanges|
    ensures var r := OptimalMap(ts, exchanges, BUY);
            r.Success? ==>
              && Assigns(ts.buy, exchanges, r.value)
              && (forall k, l :: k in r.value && l in r.value ==> Name(r.value[k]) == Name(r.value[l]))
  {
    UnknownFails(ts.buy, exchanges);
    if exchanges == [] {
      assert AllKnown(ts.buy, exchanges);
      assert Served(ts.buy, exchanges, "") == |exchanges|;
    } else if AllKnown(ts.buy, exchanges) {
      KnownPurchase(ts, exchanges);
    }
  }

  // ---------------------------------------------------------------- how fast the rounds shrink

  /** Some adapter of the set serves the exchange. */
  ghost predicate Reached(t: Table, exchange: string, cover: set<string>) {
    Offers(t, exchange).Success? && exists a :: a in cover && Serves(Offers(t, exchange).value, a)
  }

  ghost predicate Covers(t: Table, exchanges: seq<string>, cover: set<string>) {
    forall i :: 0 <= i < |exchanges| ==> Reached(t, exchanges[i], cover)
  }

  ghost function CountReached(t: Table, exchanges: seq<string>, cover: set<string>): nat {
    if exchanges == [] then 0
    else
      CountReached(t, exchanges[..|exchanges| - 1], cover)
      + if Reached(t, exchanges[|exchanges| - 1], cover) then 1 else 0
  }

  lemma {:induction false} CoversAll(t: Table, exchanges: seq<string>, cover: set<string>)
    requires Covers(t, exchanges, cover)
    ensures CountReached(t, exchanges, cover) == |exchanges|
  {
    if exchanges != [] {
      CoversAll(t, exchanges[..|exchanges| - 1], cover);
    }
  }

  /** Leaving one adapter out of the set loses at most the exchanges it serves. */
  lemma {:induction false} WithoutOne(t: Table, exchanges: seq<string>, cover: set<string>, a: string)
    requires AllKnown(t, exchanges)
    ensures CountReached(t, exchanges, cover) <= CountReached(t, exchanges, cover - {a}) + Served(t, exchanges, a)
  {
    if exchanges != [] {
      WithoutOne(t, exchanges[..|exchanges| - 1], cover, a);
      var x := exchanges[|exchanges| - 1];
      if Reached(t, x, cover) && !Serves(Offers(t, x).value, a) {
        var b :| b in cover && Serves(Offers(t, x).value, b);
        assert b in cover - {a};
      }
    }
  }

  lemma {:induction false} Pigeonhole(t: Table, exchanges: seq<string>, cover: set<string>, most: nat)
    requires AllKnown(t, exchanges)
    requires forall a :: a in cover ==> Served(t, exchanges, a) <= most
    ensures CountReached(t, exchanges, cover) <= |cover| * most
    decreases |cover|
  {
    if cover == {} {
      NoneReached(t, exchanges);
    } else {
      var a :| a in cover;
      Pigeonhole(t, exchanges, cover - {a}, most);
      WithoutOne(t, exchanges, cover, a);
      assert |cover| * most == (|cover| - 1) * most + most;
    }
  }

  lemma {:induction false} NoneReached(t: Table, exchanges: seq<string>)
    ensures CountReached(t, exchanges, {}) == 0
  {
    if exchanges != [] {
      NoneReached(t, exchanges[..|exchanges| - 1]);
    }
  }

  /** One round takes at least the k-th part of the exchanges, when k adapters would do for all of them. */
  lemma RoundTheorem(t: Table, exchanges: seq<string>, cover: set<string>)
    requires AllKnown(t, exchanges) && exchanges != [] && AllDistinct(t, exchanges) && Covers(t, exchanges, cover)
    ensures |Left(t, exchanges, Best(t, exchanges))| * |cover| <= |exchanges| * (|cover| - 1)
  {
    var best := Best(t, exchanges);
    var most := Served(t, exchanges, best);
    forall a | a in cover ensures Served(t, exchanges, a) <= most {
      BestIsBest(t, exchanges, a);
      MentionsServed(t, exchanges, a);
      MentionsServed(t, exchanges, best);
    }
    CoversAll(t, exchanges, cover);
    Pigeonhole(t, exchanges, cover, most);
    ServedAndLeft(t, exchanges, best);
    RoundShare(|exchanges|, most, |cover|);
  }

  lemma RoundShare(n: nat, most: nat, k: nat)
    requires n <= k * most
    ensures (n - most) * k <= n * (k - 1)
  {
    assert (n - most) * k == n * k - k * most;
    assert n * (k - 1) == n * k - n;
  }

  /** The exchanges still without an adapter after a number of rounds. */
  function LeftAfter(t: Table, exchanges: seq<string>, rounds: nat): (left: seq<string>)
    requires AllKnown(t, exchanges)
    ensures AllKnown(t, left)
    decreases rounds
  {
    if rounds == 0 || exchanges == [] then exchanges
    else LeftAfter(t, Left(t, exchanges, Best(t, exchanges)), rounds - 1)
  }

  function Pow(k: nat, r: nat): nat {
    if r == 0 then 1 else k * Pow(k, r - 1)
  }

  lemma StillCovered(t: Table, exchanges: seq<string>, best: string, cover: set<string>)
    requires AllKnown(t, exchanges) && AllDistinct(t, exchanges) && Covers(t, exchanges, cover)
    ensures AllDistinct(t, Left(t, exchanges, best)) && Covers(t, Left(t, exchanges, best), cover)
  {
    LeftAmong(t, exchanges, best);
    var left := Left(t, exchanges, best);
    forall i | 0 <= i < |left| ensures Distinct(Offers(t, left[i]).value) && Reached(t, left[i], cover) {
      assert left[i] in exchanges;
      var j :| 0 <= j < |exchanges| && exchanges[j] == left[i];
    }
  }

  lemma GreedyStep(t: Table, exchanges: seq<string>, cover: set<string>, r: nat, left: nat)
    requires AllKnown(t, exchanges) && AllDistinct(t, exchanges) && Covers(t, exchanges, cover) && cover != {}
    requires exchanges != [] && left * Pow(|cover|, r) <= |Left(t, exchanges, Best(t, exchanges))| * Pow(|cover| - 1, r)
    ensures left * Pow(|cover|, r + 1) <= |exchanges| * Pow(|cover| - 1, r + 1)
  {
    RoundTheorem(t, exchanges, cover);
    PowerStep(left, |cover|, r, |Left(t, exchanges, Best(t, exchanges))|, |exchanges|);
  }

  /** When k adapters could serve all n exchanges, left * k^r <= n * (k - 1)^r after r rounds. */
  lemma {:induction false} GreedyTheorem(t: Table, exchanges: seq<string>, cover: set<string>, rounds: nat)
    requires AllKnown(t, exchanges) && AllDistinct(t, exchanges) && Covers(t, exchanges, cover) && cover != {}
    ensures |LeftAfter(t, exchanges, rounds)| * Pow(|cover|, rounds) <= |exchanges| * Pow(|cover| - 1, rounds)
    decreases rounds
  {
    if exchanges == [] {
    } else if rounds > 0 {
      var best, r := Best(t, exchanges), rounds - 1;
      var next := Left(t, exchanges, best);
      StillCovered(t, exchanges, best, cover);
      GreedyTheorem(t, next, cover, r);
      GreedyStep(t, exchanges, cover, r, |LeftAfter(t, next, r)|);
    }
  }

  lemma PowerStep(left: nat, k: nat, r: nat, next: nat, n: nat)
    requires k > 0 && left * Pow(k, r) <= next * Pow(k - 1, r) && next * k <= n * (k - 1)
    ensures left * Pow(k, r + 1) <= n * Pow(k - 1, r + 1)
  {
    Multiply(left, k, Pow(k, r), next, Pow(k - 1, r), n);
  }

  lemma Multiply(left: nat, k: nat, p: nat, next: nat, p': nat, n: nat)
    requires k > 0 && left * p <= next * p' && next * k <= n * (k - 1)
    ensures left * (k * p) <= n * ((k - 1) * p')
  {
    MulMono(left * p, next * p', k);
    MulMono(next * k, n * (k - 1), p');
    assert left * (k * p) == left * p * k;
    assert next * p' * k == next * k * p';
    assert n * ((k - 1) * p') == n * (k - 1) * p';
  }

  // ---------------------------------------------------------------- how many adapters end up in use

  ghost function Used(m: map<string, AdapterConfig>): set<string> {
    set k | k in m :: Name(m[k])
  }

  /** Once r rounds leave nothing, at most r adapters are in use. */
  lemma {:induction false} UsedTheorem(ts: Tables, exchanges: seq<string>, rounds: nat)
    requires AllKnown(ts.sell, exchanges) && LeftAfter(ts.sell, exchanges, rounds) == []
    ensures OptimalMap(ts, exchanges, SELL).Success? && |Used(OptimalMap(ts, exchanges, SELL).value)| <= rounds
    decreases rounds
  {
    if exchanges == [] {
      assert Used(map[]) == {};
    } else {
      var best := Best(ts.sell, exchanges);
      var left := Left(ts.sell, exchanges, best);
      SellStep(ts, exchanges);
      var r := rounds - 1;
      UsedTheorem(ts, left, r);
      TakenFromOwnList(ts.sell, exchanges, best);
      UsedUnion(Taken(ts.sell, exchanges, best), OptimalMap(ts, left, SELL).value, best);
    }
  }

  lemma UsedUnion(taken: map<string, AdapterConfig>, rest: map<string, AdapterConfig>, best: string)
    requires forall k :: k in taken ==> Name(taken[k]) == best
    ensures |Used(taken + rest)| <= |Used(rest)| + 1
  {
    SubsetSize(Used(taken + rest), Used(rest) + {best});
  }

  lemma SubsetSize<T>(a: set<T>, b: set<T>)
    requires a <= b
    ensures |a| <= |b|
  {
    assert b == a + (b - a);
  }

  /** One adapter that serves every exchange is enough: the choice then uses a single one. */
  lemma SingleAdapter(ts: Tables, exchanges: seq<string>, adapter: string)
    requires AllKnown(ts.sell, exchanges) && AllDistinct(ts.sell, exchanges) && Covers(ts.sell, exchanges, {adapter})
    ensures OptimalMap(ts, exchanges, SELL).Success? && |Used(OptimalMap(ts, exchanges, SELL).value)| <= 1
  {
    GreedyTheorem(ts.sell, exchanges, {adapter}, 1);
    assert Pow(0, 1) == 0 && Pow(1, 1) == 1;
    UsedTheorem(ts, exchanges, 1);
  }
}
