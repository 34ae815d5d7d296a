/**
 Turning a distribution into basis points that add up to exactly 10000: every share is rounded, and the
 entries with the most rounding error are moved by one in the other direction.
 */
module BasisPoints {
  import opened Rounding
  import opened Wrappers

  const BPS: int := 10000

  /** An empty list has no entry to correct; entries of a list without a total are not numbers. */
  datatype DistError = NoEntry | NotANumber

  function RealSum(s: seq<real>): real {
    if s == [] then 0.0 else RealSum(s[..|s| - 1]) + s[|s| - 1]
  }

  function Sum(s: seq<int>): int {
    if s == [] then 0 else Sum(s[..|s| - 1]) + s[|s| - 1]
  }

  /** The exact share of an entry, in basis points. */
  function Share(n: real, total: real): real
    requires total != 0.0
  {
    n * BPS as real / total
  }

  function Shares(dist: seq<real>, total: real): (r: seq<real>)
    requires total != 0.0
    ensures |r| == |dist|
  {
    seq(|dist|, i requires 0 <= i < |dist| => Share(dist[i], total))
  }

  function RoundAll(shares: seq<real>): (r: seq<int>)
    ensures |r| == |shares|
  {
    seq(|shares|, i requires 0 <= i < |shares| => RoundHalfUp(shares[i]))
  }

  /** Rounding errors, with the sign the sort uses: the entries to correct come first. */
  function Keys(rounded: seq<int>, shares: seq<real>, up: bool): (r: seq<real>)
    requires |rounded| == |shares|
    ensures |r| == |shares|
  {
    seq(|shares|, i requires 0 <= i < |shares| =>
          if up then rounded[i] as real - shares[i] else shares[i] - rounded[i] as real)
  }

  // ---------------------------------------------------------------- the stable sort

  predicate IsOrder(order: seq<nat>, n: nat) {
    && |order| == n
    && (forall t :: 0 <= t < |order| ==> order[t] < n)
    && (forall s, t :: 0 <= s < t < |order| ==> order[s] != order[t])
  }

  /** Smaller keys first; of equal keys, the earlier entry first. */
  predicate SortedBy(keys: seq<real>, order: seq<nat>)
    requires forall t :: 0 <= t < |order| ==> order[t] < |keys|
  {
    forall s, t :: 0 <= s < t < |order| ==> Before(keys, order[s], order[t])
  }

  predicate Before(keys: seq<real>, a: nat, b: nat)
    requires a < |keys| && b < |keys|
  {
    keys[a] < keys[b] || (keys[a] == keys[b] && a < b)
  }

  method StableOrder(keys: seq<real>) returns (order: seq<nat>)
    ensures IsOrder(order, |keys|) && SortedBy(keys, order)
  {
    order := [];
    for i := 0 to |keys|
      invariant IsOrder(order, i) && SortedBy(keys, order)
    {
      var p: nat := i;
      while p > 0 && keys[order[p - 1]] > keys[i]
        invariant p <= i
        invariant forall t :: p <= t < i ==> keys[order[t]] > keys[i]
      {
        p := p - 1;
      }
      InsertKeeps(keys, order, i, p);
      order := order[..p] + [i] + order[p..];
    }
  }

  /** Putting the next entry after everything that is not greater keeps the order stable. */
  lemma InsertKeeps(keys: seq<real>, order: seq<nat>, i: nat, p: nat)
    requires i < |keys| && IsOrder(order, i) && SortedBy(keys, order) && p <= i
    requires forall t :: p <= t < i ==> keys[order[t]] > keys[i]
    requires p > 0 ==> keys[order[p - 1]] <= keys[i]
    ensures var longer := order[..p] + [i] + order[p..]; IsOrder(longer, i + 1) && SortedBy(keys, longer)
  {
    var longer := order[..p] + [i] + order[p..];
    forall t | 0 <= t <= i ensures longer[t] == if t < p then order[t] else if t == p then i else order[t - 1] {
    }
    forall t | 0 <= t < p ensures Before(keys, order[t], i) {
      assert t < p - 1 ==> Before(keys, order[t], order[p - 1]);
    }
    forall s, t | 0 <= s < t <= i ensures longer[s] != longer[t] && Before(keys, longer[s], longer[t]) {
      InsertedPair(keys, order, i, p, s, t);
    }
  }

  lemma InsertedPair(keys: seq<real>, order: seq<nat>, i: nat, p: nat, s: nat, t: nat)
    requires i < |keys| && IsOrder(order, i) && SortedBy(keys, order) && p <= i && s < t <= i
    requires forall t :: p <= t < i ==> keys[order[t]] > keys[i]
    requires forall t :: 0 <= t < p ==> Before(keys, order[t], i)
    ensures var a, b := if s < p then order[s] else if s == p then i else order[s - 1],
                        if t < p then order[t] else if t == p then i else order[t - 1];
            a != b && Before(keys, a, b)
  {
  }

  // ---------------------------------------------------------------- why the correction reaches far enough

  lemma {:induction false} SharesAddUp(dist: seq<real>, total: real)
    requires total != 0.0
    ensures RealSum(Shares(dist, total)) == Share(RealSum(dist), total)
  {
    if dist == [] {
    } else {
      var last := |dist| - 1;
      SharesAddUp(dist[..last], total);
      assert Shares(dist, total)[..last] == Shares(dist[..last], total);
      ShareAdds(RealSum(dist[..last]), dist[last], total);
    }
  }

  lemma ShareAdds(a: real, b: real, total: real)
    requires total != 0.0
    ensures Share(a + b, total) == Share(a, total) + Share(b, total)
  {
  }

  lemma WholeShare(total: real)
    requires total != 0.0
    ensures Share(total, total) == BPS as real
  {
  }

  /** The signed errors add up to the signed excess of the rounded entries. */
  lemma {:induction false} KeysAddUp(rounded: seq<int>, shares: seq<real>, up: bool)
    requires |rounded| == |shares|
    ensures RealSum(Keys(rounded, shares, up))
         == if up then Sum(rounded) as real - RealSum(shares) else RealSum(shares) - Sum(rounded) as real
  {
    if shares == [] {
    } else {
      var last := |shares| - 1;
      KeysAddUp(rounded[..last], shares[..last], up);
      assert Keys(rounded, shares, up)[..last] == Keys(rounded[..last], shares[..last], up);
    }
  }

  /** Keys of at least -1/2 that are non-negative outside a set cannot add up to less than half its size. */
  lemma {:induction false} SumAtLeast(keys: seq<real>, low: set<nat>)
    requires forall i :: 0 <= i < |keys| ==> keys[i] >= -0.5 && (i in low || keys[i] >= 0.0)
    ensures 2.0 * RealSum(keys) >= -(|low| as real)
    decreases |keys|
  {
    if keys == [] {
    } else {
      var last := |keys| - 1;
      assert forall i :: 0 <= i < last ==> keys[..last][i] == keys[i];
      if last in low {
        SumAtLeast(keys[..last], low - {last});
      } else {
        SumAtLeast(keys[..last], low);
      }
    }
  }

  /** A non-negative key at position t of the order leaves only the t keys before it to pull the total down. */
  lemma LateSum(keys: seq<real>, order: seq<nat>, t: nat)
    requires IsOrder(order, |keys|) && SortedBy(keys, order) && t < |keys|
    requires forall i :: 0 <= i < |keys| ==> keys[i] >= -0.5
    requires keys[order[t]] >= 0.0
    ensures 2.0 * RealSum(keys) >= -(t as real)
  {
    DistinctCount(order, t);
    var low := set s | 0 <= s < t :: order[s];
    forall i | 0 <= i < |keys| ensures i in low || keys[i] >= 0.0 {
      var s := Position(order, |keys|, i);
      assert s < t || s == t || keys[order[t]] <= keys[order[s]];
    }
    SumAtLeast(keys, low);
  }

  /** The entries to correct exist, and each errs in the direction that the correction takes back. */
  lemma CorrectionReaches(keys: seq<real>, order: seq<nat>, k: nat)
    requires IsOrder(order, |keys|) && SortedBy(keys, order)
    requires forall i :: 0 <= i < |keys| ==> keys[i] >= -0.5
    requires RealSum(keys) == -(k as real)
    ensures k <= |keys|
    ensures forall t :: 0 <= t < k ==> keys[order[t]] < 0.0
  {
    var all := Below(|keys|);
    SumAtLeast(keys, all);
    forall t | 0 <= t < k ensures keys[order[t]] < 0.0 {
      if keys[order[t]] >= 0.0 {
        LateSum(keys, order, t);
      }
    }
  }

  /** A list of n different indices below n names every one of them. */
  lemma Position(order: seq<nat>, n: nat, i: nat) returns (t: nat)
    requires IsOrder(order, n) && i < n
    ensures t < n && order[t] == i
  {
    var named := set s | 0 <= s < n :: order[s];
    DistinctCount(order, n);
    var all := Below(n);
    assert named <= all;
    Saturated(named, all);
    assert i in named;
    t :| 0 <= t < n && order[t] == i;
  }

  lemma {:induction false} Below(n: nat) returns (all: set<nat>)
    ensures forall i: nat :: i in all <==> i < n
    ensures |all| == n
  {
    all := {};
    if n > 0 {
      var before := Below(n - 1);
      all := before + {n - 1};
    }
  }

  lemma {:induction false} DistinctCount(order: seq<nat>, n: nat)
    requires n <= |order|
    requires forall s, t :: 0 <= s < t < |order| ==> order[s] != order[t]
    ensures |set t | 0 <= t < n :: order[t]| == n
  {
    if n > 0 {
      DistinctCount(order, n - 1);
      var before := set t | 0 <= t < n - 1 :: order[t];
      assert (set t | 0 <= t < n :: order[t]) == before + {order[n - 1]};
    }
  }

  lemma Saturated(part: set<nat>, all: set<nat>)
    requires part <= all && |part| == |all|
    ensures part == all
  {
    assert all == part + (all - part);
    assert |all| == |part| + |all - part|;
    assert all - part == {};
  }

  // ---------------------------------------------------------------- the correction

  lemma {:induction false} SumUpdate(s: seq<int>, i: nat, v: int)
    requires i < |s|
    ensures Sum(s[i := v]) == Sum(s) - s[i] + v
  {
    var last := |s| - 1;
    if i == last {
      assert s[i := v][..last] == s[..last];
    } else {
      assert s[i := v][..last] == s[..last][i := v];
      SumUpdate(s[..last], i, v);
    }
  }

  /** The entries named by the first t indices are moved by one, and no others. */
  ghost predicate Moved(before: seq<int>, after: seq<int>, order: seq<nat>, t: nat, step: int)
    requires IsOrder(order, |before|) && t <= |order|
  {
    && |after| == |before|
    && (forall s :: 0 <= s < t ==> after[order[s]] == before[order[s]] + step)
    && (forall s :: t <= s < |order| ==> after[order[s]] == before[order[s]])
    && Sum(after) == Sum(before) + t * step
  }

  lemma MoveOne(before: seq<int>, now: seq<int>, order: seq<nat>, t: nat, step: int)
    requires IsOrder(order, |before|) && t < |order| && Moved(before, now, order, t, step)
    ensures Moved(before, now[order[t] := now[order[t]] + step], order, t + 1, step)
  {
    SumUpdate(now, order[t], now[order[t]] + step);
  }

  method Correct(rounded: array<int>, order: seq<nat>, k: nat, step: int)
    requires IsOrder(order, rounded.Length) && k <= |order|
    modifies rounded
    ensures Moved(old(rounded[..]), rounded[..], order, k, step)
  {
    for t := 0 to k
      invariant Moved(old(rounded[..]), rounded[..], order, t, step)
    {
      ghost var now := rounded[..];
      MoveOne(old(rounded[..]), now, order, t, step);
      rounded[order[t]] := rounded[order[t]] + step;
      assert rounded[..] == now[order[t] := now[order[t]] + step];
    }
  }

  /** Basis points of a distribution: exact in total, and off by less than one in every entry. */
  ghost predicate Distributed(dist: seq<real>, total: real, bps: seq<int>)
    requires total != 0.0
  {
    && |bps| == |dist|
    && Sum(bps) == BPS
    && (forall i :: 0 <= i < |dist| ==> -1.0 < bps[i] as real - Share(dist[i], total) < 1.0)
  }

  lemma MovedByError(share: real, rounded: int, moved: int, up: bool, corrected: bool)
    requires rounded == RoundHalfUp(share)
    requires moved == rounded + if !corrected then 0 else if up then 1 else -1
    requires corrected ==> (if up then rounded as real - share else share - rounded as real) < 0.0
    ensures -1.0 < moved as real - share < 1.0
  {
  }

  lemma MovedIsDistributed(dist: seq<real>, total: real, rounded: seq<int>, order: seq<nat>, k: nat, up: bool, bps: seq<int>)
    requires total != 0.0 && rounded == RoundAll(Shares(dist, total)) && IsOrder(order, |dist|) && k <= |order|
    requires Moved(rounded, bps, order, k, if up then 1 else -1)
    requires Sum(rounded) + k * (if up then 1 else -1) == BPS
    requires forall t :: 0 <= t < k ==> Keys(rounded, Shares(dist, total), up)[order[t]] < 0.0
    ensures Distributed(dist, total, bps)
  {
    var shares := Shares(dist, total);
    forall i | 0 <= i < |dist| ensures -1.0 < bps[i] as real - Share(dist[i], total) < 1.0 {
      var t := Position(order, |dist|, i);
      MovedByError(shares[i], rounded[i], bps[i], up, t < k);
    }
  }

  /** The whole conversion. It fails only without a total, and never looks past the list of errors. */
  method ConvertToBasisPoints(dist: seq<real>) returns (r: Result<seq<int>, DistError>)
    ensures r.Success? <==> RealSum(dist) != 0.0
    ensures r.Failure? ==> r.error == if dist == [] then NoEntry else NotANumber
    ensures r.Success? ==> Distributed(dist, RealSum(dist), r.value)
  {
    if dist == [] {
      return Failure(NoEntry);
    }
    var sumDist := RealSum(dist);
    if sumDist == 0.0 {
      return Failure(NotANumber);
    }
    var basisPoints := Shares(dist, sumDist);
    var rounded := RoundAll(basisPoints);
    var sumRounded := Sum(rounded);
    if sumRounded == BPS {
      return Success(rounded);
    }
    var up := sumRounded < BPS;
    var keys := Keys(rounded, basisPoints, up);
    var order := StableOrder(keys);
    var k: nat := if up then BPS - sumRounded else sumRounded - BPS;
    SharesAddUp(dist, sumDist);
    WholeShare(sumDist);
    KeysAddUp(rounded, basisPoints, up);
    CorrectionReaches(keys, order, k);
    var corrected := new int[|rounded|](i requires 0 <= i < |rounded| => rounded[i]);
    assert corrected[..] == rounded;
    Correct(corrected, order, k, if up then 1 else -1);
    MovedIsDistributed(dist, sumDist, rounded, order, k, up, corrected[..]);
    r := Success(corrected[..]);
  }

  /** For a distribution without negative entries no entry goes below zero, and an empty entry stays at zero. */
  lemma NeverNegative(dist: seq<real>, bps: seq<int>, i: nat)
    requires RealSum(dist) > 0.0 && Distributed(dist, RealSum(dist), bps)
    requires i < |dist| && dist[i] >= 0.0
    ensures bps[i] >= 0
    ensures dist[i] == 0.0 ==> bps[i] == 0
  {
    ShareSign(dist[i], RealSum(dist));
  }

  lemma ShareSign(n: real, total: real)
    requires total > 0.0 && n >= 0.0
    ensures Share(n, total) >= 0.0 && (n == 0.0 ==> Share(n, total) == 0.0)
  {
  }
}
