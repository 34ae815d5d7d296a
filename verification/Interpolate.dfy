/**
 Interpolating a price curve at new volumes. One cursor moves over the old volumes for all new ones; when
 the new volumes ascend it stops where a fresh search would.
 */
module Interpolate {
  import opened Truncating
  import opened Wrappers
  import opened Sides

  datatype PriceError = DivisionByZero

  const MAX_UINT256: int := 0x1_0000000000000000_0000000000000000_0000000000000000_0000000000000000 - 1

  /** The old curve: a price for each volume. */
  datatype Curve = Curve(volumes: seq<int>, prices: seq<int>)

  predicate WellFormed(c: Curve) {
    |c.volumes| == |c.prices|
  }

  /** A knot is valid when no earlier price is above its own. */
  predicate IsPrefixMaximum(prices: seq<int>, j: nat)
    requires j < |prices|
  {
    forall t :: 0 <= t < j ==> prices[t] <= prices[j]
  }

  method ValidKnots(prices: seq<int>) returns (isValid: seq<bool>)
    ensures |isValid| == if prices == [] then 1 else |prices|
    ensures forall j :: 0 <= j < |prices| ==> (isValid[j] <==> IsPrefixMaximum(prices, j))
  {
    isValid := [true];
    if prices != [] {
      var maxPrice := prices[0];
      for j := 1 to |prices|
        invariant |isValid| == j
        invariant forall t :: 0 <= t < j ==> prices[t] <= maxPrice
        invariant maxPrice in prices[..j]
        invariant forall t :: 0 <= t < j ==> (isValid[t] <==> IsPrefixMaximum(prices, t))
      {
        var p := prices[j];
        if p >= maxPrice {
          assert IsPrefixMaximum(prices, j);
          maxPrice := p;
          isValid := isValid + [true];
        } else {
          var t :| 0 <= t < j && prices[t] == maxPrice;
          assert !IsPrefixMaximum(prices, j);
          isValid := isValid + [false];
        }
      }
    }
  }

  // ---------------------------------------------------------------- one volume

  /** The first knot from i on that is not below the volume. */
  function Search(volumes: seq<int>, i: nat, v: int): (j: nat)
    requires i <= |volumes|
    ensures i <= j <= |volumes|
    ensures forall t :: i <= t < j ==> volumes[t] < v
    ensures j < |volumes| ==> v <= volumes[j]
    decreases |volumes| - i
  {
    if i < |volumes| && v > volumes[i] then Search(volumes, i + 1, v) else i
  }

  /** The price of a volume once the cursor stands at knot i. */
  function PriceAt(c: Curve, side: SwapSide, i: nat, v: int): Result<int, PriceError>
    requires WellFormed(c)
  {
    var n := |c.prices|;
    if i >= n then
      Success(if n == 0 || !IsPrefixMaximum(c.prices, n - 1) then 0
              else if side.SELL? then c.prices[n - 1]
              else MAX_UINT256)
    else if !IsPrefixMaximum(c.prices, i) then Success(0)
    else if c.volumes[i] == v then Success(c.prices[i])
    else if i > 0 && !IsPrefixMaximum(c.prices, i - 1) then Success(0)
    else
      var lastOldVolume := if i > 0 then c.volumes[i - 1] else 0;
      var lastOldPrice := if i > 0 then c.prices[i - 1] else 0;
      if c.volumes[i] == lastOldVolume then Failure(DivisionByZero)
      else Success(lastOldPrice + Quot((c.prices[i] - lastOldPrice) * (v - lastOldVolume), c.volumes[i] - lastOldVolume))
  }

  /** The price of one volume with a search of its own. */
  function Fresh(c: Curve, side: SwapSide, v: int): Result<int, PriceError>
    requires WellFormed(c)
  {
    if v == 0 then Success(0) else PriceAt(c, side, Search(c.volumes, 0, v), v)
  }

  /** The prices are those of the volumes, each with a search of its own. */
  predicate AllFresh(c: Curve, side: SwapSide, vs: seq<int>, ps: seq<int>)
    requires WellFormed(c)
  {
    |ps| == |vs| && forall k :: 0 <= k < |vs| ==> Fresh(c, side, vs[k]) == Success(ps[k])
  }

  // ---------------------------------------------------------------- the moving cursor

  /** All volumes in turn, the cursor starting at knot i and never moving back. */
  function Sweep(c: Curve, side: SwapSide, i: nat, vs: seq<int>): Result<seq<int>, PriceError>
    requires WellFormed(c) && i <= |c.volumes|
    decreases |vs|
  {
    if vs == [] then Success([])
    else if vs[0] == 0 then Prepend([0], Sweep(c, side, i, vs[1..]))
    else
      var j := Search(c.volumes, i, vs[0]);
      var p :- PriceAt(c, side, j, vs[0]);
      Prepend([p], Sweep(c, side, j, vs[1..]))
  }

  function Prepend(done: seq<int>, rest: Result<seq<int>, PriceError>): Result<seq<int>, PriceError> {
    match rest
    case Success(later) => Success(done + later)
    case Failure(_) => rest
  }

  method PriceOf(c: Curve, side: SwapSide, isValid: seq<bool>, i: nat, v: int) returns (r: Result<int, PriceError>)
    requires WellFormed(c) && i <= |c.volumes| <= |isValid|
    requires forall j :: 0 <= j < |c.prices| ==> (isValid[j] <==> IsPrefixMaximum(c.prices, j))
    ensures r == PriceAt(c, side, i, v)
  {
    var n := |c.prices|;
    if i >= n {
      return Success(if n == 0 || !isValid[n - 1] then 0 else if side.SELL? then c.prices[n - 1] else MAX_UINT256);
    }
    if !isValid[i] {
      return Success(0);
    }
    if c.volumes[i] == v {
      return Success(c.prices[i]);
    }
    if i > 0 && !isValid[i - 1] {
      return Success(0);
    }
    var lastOldVolume := if i > 0 then c.volumes[i - 1] else 0;
    var lastOldPrice := if i > 0 then c.prices[i - 1] else 0;
    if c.volumes[i] == lastOldVolume {
      return Failure(DivisionByZero);
    }
    r := Success(lastOldPrice + Quot((c.prices[i] - lastOldPrice) * (v - lastOldVolume), c.volumes[i] - lastOldVolume));
  }

  method InterpolateAll(c: Curve, newVolume: seq<int>, side: SwapSide) returns (r: Result<seq<int>, PriceError>)
    requires WellFormed(c)
    ensures r == Sweep(c, side, 0, newVolume)
    ensures AscendingFromZero(newVolume) ==>
              r.Success? && AllFresh(c, side, newVolume, r.value)
  {
    if AscendingFromZero(newVolume) {
      CursorTheorem(c, side, newVolume);
    }
    var isValid := ValidKnots(c.prices);
    var i: nat, outs := 0, [];
    PrependNothing(Sweep(c, side, 0, newVolume));
    assert newVolume[0..] == newVolume;
    for k := 0 to |newVolume|
      invariant i <= |c.volumes|
      invariant Sweep(c, side, 0, newVolume) == Prepend(outs, Sweep(c, side, i, newVolume[k..]))
    {
      var v := newVolume[k];
      assert newVolume[k..][1..] == newVolume[k + 1..];
      if v == 0 {
        PrependOnce(outs, 0, Sweep(c, side, i, newVolume[k + 1..]));
        outs := outs + [0];
      } else {
        ghost var start := i;
        while i < |c.volumes| && v > c.volumes[i]
          invariant start <= i <= |c.volumes|
          invariant Search(c.volumes, start, v) == Search(c.volumes, i, v)
        {
          i := i + 1;
        }
        var p := PriceOf(c, side, isValid, i, v);
        if p.Failure? {
          return Failure(p.error);
        }
        PrependOnce(outs, p.value, Sweep(c, side, i, newVolume[k + 1..]));
        outs := outs + [p.value];
      }
    }
    assert newVolume[|newVolume|..] == [] && outs + [] == outs;
    r := Success(outs);
  }

  lemma PrependNothing(rest: Result<seq<int>, PriceError>)
    ensures Prepend([], rest) == rest
  {
    if rest.Success? {
      assert [] + rest.value == rest.value;
    }
  }

  lemma PrependOnce(done: seq<int>, p: int, rest: Result<seq<int>, PriceError>)
    ensures Prepend(done, Prepend([p], rest)) == Prepend(done + [p], rest)
  {
    if rest.Success? {
      assert done + ([p] + rest.value) == done + [p] + rest.value;
    }
  }

  // ---------------------------------------------------------------- one cursor is as good as many searches

  predicate AscendingFromZero(vs: seq<int>) {
    && (forall k :: 0 <= k < |vs| ==> vs[k] >= 0)
    && (forall k, l :: 0 <= k < l < |vs| ==> vs[k] <= vs[l])
  }

  /** Knots already passed need not be searched again. */
  lemma {:induction false} SearchFrom(volumes: seq<int>, i: nat, k: nat, v: int)
    requires i <= k <= |volumes| && forall t :: i <= t < k ==> volumes[t] < v
    ensures Search(volumes, i, v) == Search(volumes, k, v)
    decreases k - i
  {
    if i < k {
      SearchFrom(volumes, i + 1, k, v);
    }
  }

  /** A fresh search never meets two equal volumes: interpolation cannot divide by zero. */
  lemma FreshSucceeds(c: Curve, side: SwapSide, v: nat)
    requires WellFormed(c)
    ensures Fresh(c, side, v).Success?
  {
  }

  lemma {:induction false} CursorFrom(c: Curve, side: SwapSide, i: nat, vs: seq<int>)
    requires WellFormed(c) && i <= |c.volumes| && AscendingFromZero(vs)
    requires forall t, k :: 0 <= t < i && 0 <= k < |vs| ==> vs[k] == 0 || c.volumes[t] < vs[k]
    ensures Sweep(c, side, i, vs).Success? && AllFresh(c, side, vs, Sweep(c, side, i, vs).value)
    decreases |vs|
  {
    if vs == [] {
    } else {
      var v, rest := vs[0], vs[1..];
      assert forall k :: 0 <= k < |rest| ==> rest[k] == vs[k + 1] && v <= rest[k];
      FreshSucceeds(c, side, v);
      if v != 0 {
        SearchFrom(c.volumes, 0, i, v);
      }
      var j := if v == 0 then i else Search(c.volumes, i, v);
      CursorFrom(c, side, j, rest);
      OneMoreFresh(c, side, vs, Fresh(c, side, v).value, Sweep(c, side, j, rest).value);
    }
  }

  lemma OneMoreFresh(c: Curve, side: SwapSide, vs: seq<int>, p: int, ps: seq<int>)
    requires WellFormed(c) && vs != [] && Fresh(c, side, vs[0]) == Success(p) && AllFresh(c, side, vs[1..], ps)
    ensures AllFresh(c, side, vs, [p] + ps)
  {
    forall k | 0 <= k < |vs| ensures Fresh(c, side, vs[k]) == Success(([p] + ps)[k]) {
      assert k > 0 ==> vs[k] == vs[1..][k - 1];
    }
  }

  /** The moving cursor gives every volume the price a search of its own would give, and never fails. */
  lemma CursorTheorem(c: Curve, side: SwapSide, vs: seq<int>)
    requires WellFormed(c) && AscendingFromZero(vs)
    ensures Sweep(c, side, 0, vs).Success? && AllFresh(c, side, vs, Sweep(c, side, 0, vs).value)
  {
    CursorFrom(c, side, 0, vs);
  }

  // ---------------------------------------------------------------- shape of the curve

  predicate Rising(prices: seq<int>) {
    && (forall j :: 0 <= j < |prices| ==> 0 <= prices[j])
    && (forall j, k :: 0 <= j < k < |prices| ==> prices[j] <= prices[k])
  }

  function PriceBefore(c: Curve, i: nat): int
    requires WellFormed(c) && i <= |c.prices|
  {
    if i > 0 then c.prices[i - 1] else 0
  }

  lemma Share(rise: nat, part: nat, whole: nat)
    requires part <= whole && whole > 0
    ensures 0 <= Quot(rise * part, whole) <= rise
  {
    MulMono(0, rise, part);
    MulMono(part, whole, rise);
    FloorAtLeast(rise * part, whole, 0);
    FloorBelow(rise * part, whole, rise + 1);
  }

  lemma ShareMono(rise: nat, part: nat, part': nat, whole: nat)
    requires part <= part' && whole > 0
    ensures Quot(rise * part, whole) <= Quot(rise * part', whole)
  {
    MulMono(part, part', rise);
    QuotMono(rise * part, rise * part', whole);
  }

  /** Every price lies between the prices of the knots around its volume. */
  lemma Bracketed(c: Curve, v: nat)
    requires WellFormed(c) && Rising(c.prices) && v > 0
    ensures var i, p := Search(c.volumes, 0, v), Fresh(c, SELL, v);
            && p.Success? && PriceBefore(c, i) <= p.value
            && (if i < |c.prices| then p.value <= c.prices[i] else p.value == PriceBefore(c, i))
  {
    var i := Search(c.volumes, 0, v);
    if i < |c.prices| && c.volumes[i] != v {
      var lastOldVolume := if i > 0 then c.volumes[i - 1] else 0;
      Share(c.prices[i] - PriceBefore(c, i), v - lastOldVolume, c.volumes[i] - lastOldVolume);
    }
  }

  lemma SameSegment(c: Curve, v: nat, w: nat)
    requires WellFormed(c) && Rising(c.prices) && 0 < v <= w && Search(c.volumes, 0, v) == Search(c.volumes, 0, w)
    ensures Fresh(c, SELL, v).Success? && Fresh(c, SELL, w).Success?
    ensures Fresh(c, SELL, v).value <= Fresh(c, SELL, w).value
  {
    Bracketed(c, v);
    Bracketed(c, w);
    var i := Search(c.volumes, 0, v);
    if i < |c.prices| && c.volumes[i] != w {
      var lastOldVolume := if i > 0 then c.volumes[i - 1] else 0;
      ShareMono(c.prices[i] - PriceBefore(c, i), v - lastOldVolume, w - lastOldVolume, c.volumes[i] - lastOldVolume);
    }
  }

  /** Selling more never earns less. */
  lemma MonotoneTheorem(c: Curve, v: nat, w: nat)
    requires WellFormed(c) && Rising(c.prices) && v <= w
    ensures Fresh(c, SELL, v).Success? && Fresh(c, SELL, w).Success?
    ensures 0 <= Fresh(c, SELL, v).value <= Fresh(c, SELL, w).value
  {
    if v > 0 {
      Bracketed(c, v);
      Bracketed(c, w);
      var i, j := Search(c.volumes, 0, v), Search(c.volumes, 0, w);
      if i == j {
        SameSegment(c, v, w);
      }
    } else if w > 0 {
      Bracketed(c, w);
    }
  }

  /** At a knot of strictly ascending positive volumes the price is the knot's own, on both sides. */
  lemma KnotTheorem(c: Curve, side: SwapSide, j: nat)
    requires WellFormed(c) && j < |c.volumes| && c.volumes[j] > 0
    requires forall s, t :: 0 <= s < t < |c.volumes| ==> c.volumes[s] < c.volumes[t]
    ensures Fresh(c, side, c.volumes[j]) == Success(if IsPrefixMaximum(c.prices, j) then c.prices[j] else 0)
  {
    var i := Search(c.volumes, 0, c.volumes[j]);
    assert i >= j;
    assert i <= j;
  }

  // ---------------------------------------------------------------- the law of the curve

  /** p lies on the line from (v0, p0) to (v1, p1) at v, to less than one unit of the price. */
  predicate OnLine(p: int, v: int, p0: int, v0: int, p1: int, v1: int) {
    -(v1 - v0) < (p - p0) * (v1 - v0) - (p1 - p0) * (v - v0) < v1 - v0
  }

  lemma QuotWithin(a: int, d: int)
    requires d > 0
    ensures -d < Quot(a, d) * d - a < d
  {
    FloorBracket(if a >= 0 then a else -a, d);
  }

  /**
   Selling or buying, a volume between two valid knots is priced on the line between them, the first one
   starting from nothing. Beyond the curve selling keeps the last price and buying has none to give: it
   asks for the largest number there is. An invalid knot on either side prices at zero.
   */
  lemma LineTheorem(c: Curve, side: SwapSide, v: nat)
    requires WellFormed(c) && v > 0
    ensures Fresh(c, side, v).Success?
    ensures var p, i, n := Fresh(c, side, v).value, Search(c.volumes, 0, v), |c.prices|;
            if i == n then
              p == (if n == 0 || !IsPrefixMaximum(c.prices, n - 1) then 0
                    else if side == SELL then c.prices[n - 1]
                    else 0xffffffffffffffffffffffffffffffffffffffffffffffffffffffffffffffff)
            else if !IsPrefixMaximum(c.prices, i) then p == 0
            else if c.volumes[i] == v then p == c.prices[i]
            else if i == 0 then OnLine(p, v, 0, 0, c.prices[0], c.volumes[0])
            else if !IsPrefixMaximum(c.prices, i - 1) then p == 0
            else OnLine(p, v, c.prices[i - 1], c.volumes[i - 1], c.prices[i], c.volumes[i])
  {
    FreshSucceeds(c, side, v);
    var i := Search(c.volumes, 0, v);
    if i < |c.prices| && IsPrefixMaximum(c.prices, i) && c.volumes[i] != v
       && (i == 0 || IsPrefixMaximum(c.prices, i - 1)) {
      var v0 := if i > 0 then c.volumes[i - 1] else 0;
      OnTheLine(PriceBefore(c, i), v0, c.prices[i], c.volumes[i], v);
    }
  }

  lemma OnTheLine(p0: int, v0: int, p1: int, v1: int, v: int)
    requires v0 < v1
    ensures OnLine(p0 + Quot((p1 - p0) * (v - v0), v1 - v0), v, p0, v0, p1, v1)
  {
    QuotWithin((p1 - p0) * (v - v0), v1 - v0);
  }
}
