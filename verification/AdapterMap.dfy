/**
 Choosing one adapter contract for every exchange of a route: the adapter that serves the most exchanges
 takes them all, and the same choice is repeated for the exchanges left over.
 */
module AdapterMap {
  import opened Wrappers
  import opened Sides
  import opened Text

  datatype AdapterConfig = AdapterConfig(adapter: string, index: nat)

  /** The adapters of each exchange, by its name in lower case. */
  type Table = map<string, seq<AdapterConfig>>

  datatype Tables = Tables(sell: Table, buy: Table)

  datatype MapError = UnknownExchange | NoAdapter | NotAllCovered

  // ---------------------------------------------------------------- points

  /** How often each adapter is offered, the adapters in order of first mention. */
  datatype Points = Points(keys: seq<string>, counts: map<string, nat>)

  function Name(c: AdapterConfig): string {
    Lower(c.adapter)
  }

  function AddPoint(p: Points, adapter: string): Points {
    if adapter in p.counts then p.(counts := p.counts[adapter := p.counts[adapter] + 1])
    else Points(p.keys + [adapter], p.counts[adapter := 1])
  }

  function AddOffers(p: Points, offers: seq<AdapterConfig>): Points {
    if offers == [] then p
    else AddPoint(AddOffers(p, offers[..|offers| - 1]), Name(offers[|offers| - 1]))
  }

  function Offers(t: Table, exchange: string): Result<seq<AdapterConfig>, MapError> {
    if Lower(exchange) !in t then Failure(UnknownExchange)
    else if t[Lower(exchange)] == [] then Failure(NoAdapter)
    else Success(t[Lower(exchange)])
  }

  function AllPoints(t: Table, exchanges: seq<string>): Result<Points, MapError> {
    if exchanges == [] then Success(Points([], map[]))
    else
      var p :- AllPoints(t, exchanges[..|exchanges| - 1]);
      var offers :- Offers(t, exchanges[|exchanges| - 1]);
      Success(AddOffers(p, offers))
  }

  predicate Indexed(p: Points) {
    && (forall k :: k in p.keys ==> k in p.counts && p.counts[k] > 0)
    && (forall k :: k in p.counts ==> k in p.keys)
  }

  /** The last of the adapters with the most points, as the reduction from the left finds it. */
  function BestOf(p: Points, n: nat): (best: string)
    requires Indexed(p) && 0 < n <= |p.keys|
    ensures best in p.keys[..n] && best in p.counts
    ensures forall i :: 0 <= i < n ==> p.counts[p.keys[i]] <= p.counts[best]
  {
    if n == 1 then p.keys[0]
    else
      var a, b := BestOf(p, n - 1), p.keys[n - 1];
      assert b in p.keys;
      if p.counts[a] > p.counts[b] then a else b
  }

  method BestAdapter(p: Points) returns (best: string)
    requires Indexed(p) && p.keys != []
    ensures best == BestOf(p, |p.keys|)
  {
    best := p.keys[0];
    for i := 1 to |p.keys|
      invariant best == BestOf(p, i)
    {
      var key := p.keys[i];
      assert key in p.keys;
      if p.counts[best] <= p.counts[key] {
        best := key;
      }
    }
  }

  // ---------------------------------------------------------------- one round

  ghost predicate Serves(offers: seq<AdapterConfig>, adapter: string) {
    exists j :: 0 <= j < |offers| && Name(offers[j]) == adapter
  }

  /** The first offer of an adapter by its lower-case name. */
  function Find(offers: seq<AdapterConfig>, adapter: string): (r: Option<AdapterConfig>)
    ensures r.Some? ==> r.value in offers && Name(r.value) == adapter
    ensures r.Some? <==> Serves(offers, adapter)
  {
    if offers == [] then None
    else if Name(offers[0]) == adapter then Some(offers[0])
    else
      var r := Find(offers[1..], adapter);
      assert Serves(offers, adapter) ==> Serves(offers[1..], adapter) by {
        if Serves(offers, adapter) {
          var j :| 0 <= j < |offers| && Name(offers[j]) == adapter;
          assert Name(offers[1..][j - 1]) == adapter;
        }
      }
      assert Serves(offers[1..], adapter) ==> Serves(offers, adapter) by {
        if Serves(offers[1..], adapter) {
          var j :| 0 <= j < |offers[1..]| && Name(offers[1..][j]) == adapter;
          assert Name(offers[j + 1]) == adapter;
        }
      }
      r
  }

  predicate AllKnown(t: Table, exchanges: seq<string>) {
    forall i :: 0 <= i < |exchanges| ==> Offers(t, exchanges[i]).Success?
  }

  function Taken(t: Table, exchanges: seq<string>, best: string): map<string, AdapterConfig>
    requires AllKnown(t, exchanges)
  {
    if exchanges == [] then map[]
    else
      var last := exchanges[|exchanges| - 1];
      var taken := Taken(t, exchanges[..|exchanges| - 1], best);
      match Find(Offers(t, last).value, best)
      case Some(config) => taken[Lower(last) := config]
      case None => taken
  }

  function Left(t: Table, exchanges: seq<string>, best: string): (left: seq<string>)
    requires AllKnown(t, exchanges)
    ensures AllKnown(t, left)
  {
    if exchanges == [] then []
    else
      var last := exchanges[|exchanges| - 1];
      var left := Left(t, exchanges[..|exchanges| - 1], best);
      if Find(Offers(t, last).value, best).Some? then left else left + [last]
  }

  /** The number of exchanges an adapter could take. */
  function Served(t: Table, exchanges: seq<string>, adapter: string): nat
    requires AllKnown(t, exchanges)
  {
    if exchanges == [] then 0
    else
      Served(t, exchanges[..|exchanges| - 1], adapter)
      + if Find(Offers(t, exchanges[|exchanges| - 1]).value, adapter).Some? then 1 else 0
  }

  lemma {:induction false} ServedAndLeft(t: Table, exchanges: seq<string>, adapter: string)
    requires AllKnown(t, exchanges)
    ensures |Left(t, exchanges, adapter)| == |exchanges| - Served(t, exchanges, adapter)
  {
    if exchanges != [] {
      ServedAndLeft(t, exchanges[..|exchanges| - 1], adapter);
    }
  }

  // ---------------------------------------------------------------- what the points count

  function Value(p: Points, adapter: string): nat {
    if adapter in p.counts then p.counts[adapter] else 0
  }

  function MentionsIn(offers: seq<AdapterConfig>, adapter: string): nat {
    if offers == [] then 0
    else MentionsIn(offers[..|offers| - 1], adapter) + if Name(offers[|offers| - 1]) == adapter then 1 else 0
  }

  function Mentions(t: Table, exchanges: seq<string>, adapter: string): nat
    requires AllKnown(t, exchanges)
  {
    if exchanges == [] then 0
    else
      Mentions(t, exchanges[..|exchanges| - 1], adapter)
      + MentionsIn(Offers(t, exchanges[|exchanges| - 1]).value, adapter)
  }

  lemma {:induction false} OffersCounted(p: Points, offers: seq<AdapterConfig>, adapter: string)
    requires Indexed(p)
    ensures Indexed(AddOffers(p, offers))
    ensures Value(AddOffers(p, offers), adapter) == Value(p, adapter) + MentionsIn(offers, adapter)
  {
    if offers != [] {
      OffersCounted(p, offers[..|offers| - 1], adapter);
    }
  }

  /** The points of an adapter count its mentions. */
  lemma {:induction false} PointsTheorem(t: Table, exchanges: seq<string>, adapter: string)
    requires AllKnown(t, exchanges)
    ensures AllPoints(t, exchanges).Success? && Indexed(AllPoints(t, exchanges).value)
    ensures Value(AllPoints(t, exchanges).value, adapter) == Mentions(t, exchanges, adapter)
  {
    if exchanges != [] {
      PointsTheorem(t, exchanges[..|exchanges| - 1], adapter);
      OffersCounted(AllPoints(t, exchanges[..|exchanges| - 1]).value, Offers(t, exchanges[|exchanges| - 1]).value, adapter);
    }
  }

  lemma {:induction false} UnknownFails(t: Table, exchanges: seq<string>)
    ensures AllPoints(t, exchanges).Success? <==> AllKnown(t, exchanges)
  {
    if exchanges != [] {
      var last := |exchanges| - 1;
      UnknownFails(t, exchanges[..last]);
      assert AllKnown(t, exchanges) <==> AllKnown(t, exchanges[..last]) && Offers(t, exchanges[last]).Success?;
    }
  }

  lemma {:induction false} MentionedServes(offers: seq<AdapterConfig>, adapter: string)
    ensures MentionsIn(offers, adapter) > 0 <==> Find(offers, adapter).Some?
    ensures Distinct(offers) ==> MentionsIn(offers, adapter) <= 1
  {
    if offers != [] {
      var last := |offers| - 1;
      MentionedServes(offers[..last], adapter);
      assert Serves(offers, adapter) <==> Serves(offers[..last], adapter) || Name(offers[last]) == adapter by {
        ServesLast(offers, adapter);
      }
    }
  }

  lemma ServesLast(offers: seq<AdapterConfig>, adapter: string)
    requires offers != []
    ensures Serves(offers, adapter) <==> Serves(offers[..|offers| - 1], adapter) || Name(offers[|offers| - 1]) == adapter
  {
    var last := |offers| - 1;
    if Serves(offers, adapter) {
      var j :| 0 <= j < |offers| && Name(offers[j]) == adapter;
      assert j < last ==> Name(offers[..last][j]) == adapter;
    }
    if Serves(offers[..last], adapter) {
      var j :| 0 <= j < last && Name(offers[..last][j]) == adapter;
      assert Name(offers[j]) == adapter;
    }
  }

  /** No exchange lists an adapter twice. */
  predicate Distinct(offers: seq<AdapterConfig>) {
    forall i, j :: 0 <= i < j < |offers| ==> Name(offers[i]) != Name(offers[j])
  }

  predicate AllDistinct(t: Table, exchanges: seq<string>)
    requires AllKnown(t, exchanges)
  {
    forall i :: 0 <= i < |exchanges| ==> Distinct(Offers(t, exchanges[i]).value)
  }

  /** Mentions and served exchanges are the same count while no exchange lists an adapter twice. */
  lemma {:induction false} MentionsServed(t: Table, exchanges: seq<string>, adapter: string)
    requires AllKnown(t, exchanges)
    ensures Mentions(t, exchanges, adapter) >= Served(t, exchanges, adapter)
    ensures Mentions(t, exchanges, adapter) > 0 ==> Served(t, exchanges, adapter) > 0
    ensures AllDistinct(t, exchanges) ==> Mentions(t, exchanges, adapter) == Served(t, exchanges, adapter)
  {
    if exchanges != [] {
      MentionsServed(t, exchanges[..|exchanges| - 1], adapter);
      MentionedServes(Offers(t, exchanges[|exchanges| - 1]).value, adapter);
    }
  }

  /** The best adapter of a list: it is mentioned, and no adapter is mentioned more often. */
  function Best(t: Table, exchanges: seq<string>): (best: string)
    requires AllKnown(t, exchanges) && exchanges != []
    ensures Served(t, exchanges, best) > 0
  {
    PointsTheorem(t, exchanges, "");
    FirstMentioned(t, exchanges);
    var p := AllPoints(t, exchanges).value;
    var best := BestOf(p, |p.keys|);
    PointsTheorem(t, exchanges, best);
    MentionsServed(t, exchanges, best);
    best
  }

  lemma FirstMentioned(t: Table, exchanges: seq<string>)
    requires AllKnown(t, exchanges) && exchanges != []
    ensures AllPoints(t, exchanges).Success? && AllPoints(t, exchanges).value.keys != []
  {
    var last := |exchanges| - 1;
    var offers := Offers(t, exchanges[last]).value;
    var adapter := Name(offers[|offers| - 1]);
    PointsTheorem(t, exchanges, adapter);
    assert MentionsIn(offers, adapter) > 0;
    assert adapter in AllPoints(t, exchanges).value.counts;
  }

  lemma BestIsBest(t: Table, exchanges: seq<string>, adapter: string)
    requires AllKnown(t, exchanges) && exchanges != []
    ensures Mentions(t, exchanges, adapter) <= Mentions(t, exchanges, Best(t, exchanges))
  {
    PointsTheorem(t, exchanges, adapter);
    PointsTheorem(t, exchanges, Best(t, exchanges));
    var p := AllPoints(t, exchanges).value;
    if adapter in p.counts {
      var i :| 0 <= i < |p.keys| && p.keys[i] == adapter;
    }
  }

  // ---------------------------------------------------------------- all rounds

  /** The choice for every exchange, or the reason there is none. */
  function OptimalMap(ts: Tables, exchanges: seq<string>, side: SwapSide): Result<map<string, AdapterConfig>, MapError>
    decreases |exchanges|
  {
    if exchanges == [] then Success(map[])
    else
      var t := if side.SELL? then ts.sell else ts.buy;
      UnknownFails(t, exchanges);
      var p :- AllPoints(t, exchanges);
      var best := Best(t, exchanges);
      var left := Left(t, exchanges, best);
      ServedAndLeft(t, exchanges, best);
      if side.BUY? && left != [] then Failure(NotAllCovered)
      else
        var rest :- OptimalMap(ts, left, SELL);
        Success(Taken(t, exchanges, best) + rest)
  }

  /** Selling: the first round, then the choice for what it leaves. */
  lemma SellStep(ts: Tables, exchanges: seq<string>)
    requires AllKnown(ts.sell, exchanges) && exchanges != []
    ensures var best := Best(ts.sell, exchanges);
            var left := Left(ts.sell, exchanges, best);
            && |left| < |exchanges|
            && (OptimalMap(ts, left, SELL).Success? ==>
                  OptimalMap(ts, exchanges, SELL)
                    == Success(Taken(ts.sell, exchanges, best) + OptimalMap(ts, left, SELL).value))
  {
    UnknownFails(ts.sell, exchanges);
    ServedAndLeft(ts.sell, exchanges, Best(ts.sell, exchanges));
  }

  method CollectPoints(t: Table, exchanges: seq<string>) returns (r: Result<Points, MapError>)
    ensures r == AllPoints(t, exchanges)
  {
    var p := Points([], map[]);
    for i := 0 to |exchanges|
      invariant AllPoints(t, exchanges[..i]) == Success(p)
    {
      assert exchanges[..i + 1][..i] == exchanges[..i];
      var offers := Offers(t, exchanges[i]);
      if offers.Failure? {
        FailureStays(t, exchanges, i + 1);
        return Failure(offers.error);
      }
      ghost var before := p;
      for j := 0 to |offers.value|
        invariant p == AddOffers(before, offers.value[..j])
      {
        assert offers.value[..j + 1][..j] == offers.value[..j];
        p := AddPoint(p, Name(offers.value[j]));
      }
      assert offers.value[..|offers.value|] == offers.value;
    }
    assert exchanges[..|exchanges|] == exchanges;
    r := Success(p);
  }

  /** The first exchange that fails decides the error. */
  lemma {:induction false} FailureStays(t: Table, exchanges: seq<string>, n: nat)
    requires n <= |exchanges| && AllPoints(t, exchanges[..n]).Failure?
    ensures AllPoints(t, exchanges) == AllPoints(t, exchanges[..n])
    decreases |exchanges|
  {
    if n == |exchanges| {
      assert exchanges[..n] == exchanges;
    } else {
      var last := |exchanges| - 1;
      assert exchanges[..last][..n] == exchanges[..n];
      FailureStays(t, exchanges[..last], n);
    }
  }

  /** One round: the exchanges the best adapter takes, and those it leaves. */
  method Assign(t: Table, exchanges: seq<string>, best: string)
    returns (optimal: map<string, AdapterConfig>, left: seq<string>)
    requires AllKnown(t, exchanges)
    ensures optimal == Taken(t, exchanges, best) && left == Left(t, exchanges, best)
  {
    optimal, left := map[], [];
    for i := 0 to |exchanges|
      invariant AllKnown(t, exchanges[..i])
      invariant optimal == Taken(t, exchanges[..i], best) && left == Left(t, exchanges[..i], best)
    {
      assert exchanges[..i + 1][..i] == exchanges[..i];
      var config := Find(Offers(t, exchanges[i]).value, best);
      if config.Some? {
        optimal := optimal[Lower(exchanges[i]) := config.value];
      } else {
        left := left + [exchanges[i]];
      }
    }
    assert exchanges[..|exchanges|] == exchanges;
  }

  /**
   The whole choice. A purchase has no second round: the first exchange its best adapter does not serve is
   an error, so exactly an exchange left over is.
   */
  method GetOptimalExchangeAdapterMap(ts: Tables, exchanges: seq<string>, side: SwapSide)
    returns (r: Result<map<string, AdapterConfig>, MapError>)
    ensures r == OptimalMap(ts, exchanges, side)
    decreases |exchanges|
  {
    if exchanges == [] {
      return Success(map[]);
    }
    var t := if side.SELL? then ts.sell else ts.buy;
    var points := CollectPoints(t, exchanges);
    if points.Failure? {
      return Failure(points.error);
    }
    UnknownFails(t, exchanges);
    FirstMentioned(t, exchanges);
    PointsTheorem(t, exchanges, "");
    var best := BestAdapter(points.value);
    assert best == Best(t, exchanges);
    var optimal, left := Assign(t, exchanges, best);
    if side.BUY? && left != [] {
      return Failure(NotAllCovered);
    }
    ServedAndLeft(t, exchanges, best);
    var rest := GetOptimalExchangeAdapterMap(ts, left, SELL);
    if rest.Failure? {
      return Failure(rest.error);
    }
    r := Success(optimal + rest.value);
  }

  // ---------------------------------------------------------------- ties

  /** Of adapters with equally many points the last mentioned is taken: those after it have fewer. */
  lemma {:induction false} LastOfTheBest(p: Points, n: nat, b: nat, i: nat)
    requires Indexed(p) && b < i < n <= |p.keys| && p.keys[b] == BestOf(p, n)
    requires forall s, t :: 0 <= s < t < |p.keys| ==> p.keys[s] != p.keys[t]
    ensures p.keys[i] in p.counts && p.counts[p.keys[i]] < p.counts[p.keys[b]]
  {
    var m := n - 1;
    assert p.keys[m] in p.keys && p.keys[i] in p.keys;
    assert p.keys[b] != p.keys[m];
    if i < m {
      LastOfTheBest(p, m, b, i);
    }
  }

  /** Of several entries for one adapter in an exchange's list the first is taken. */
  lemma {:induction false} FirstFound(offers: seq<AdapterConfig>, adapter: string)
    ensures var r := Find(offers, adapter);
            r.Some? ==> exists j :: 0 <= j < |offers| && offers[j] == r.value
                                    && (forall k :: 0 <= k < j ==> Name(offers[k]) != adapter)
  {
    if offers != [] && Name(offers[0]) != adapter {
      FirstFound(offers[1..], adapter);
      var r := Find(offers[1..], adapter);
      if r.Some? {
        var j :| 0 <= j < |offers[1..]| && offers[1..][j] == r.value
                 && (forall k :: 0 <= k < j ==> Name(offers[1..][k]) != adapter);
        assert offers[j + 1] == r.value;
        forall k | 0 <= k < j + 1 ensures Name(offers[k]) != adapter {
          assert k > 0 ==> offers[k] == offers[1..][k - 1];
        }
      }
    }
  }
}
