/**
 Compiling pool swaps into one Balancer V2 batch swap: the path through each pool's nesting becomes a
 run of swaps that refer to one flat asset list by index, and only one swap of a run carries an amount.
 */
module BalancerV2Batch {
  import opened Wrappers
  import opened Sides
  import opened Text
  import opened Sequences
  import opened BalancerV2Pools

  const ETHER_ADDRESS := "0xeeeeeeeeeeeeeeeeeeeeeeeeeeeeeeeeeeeeeeee"
  const NULL_ADDRESS := "0x0000000000000000000000000000000000000000"
  const MAX_INT: int := 57896044618658097711785492504343953926634992332820282019728792003956564819967

  datatype SwapKind = SwapExactIn | SwapExactOut

  datatype PoolSwap = PoolSwap(poolId: string, amount: nat)

  datatype BatchSwap = BatchSwap(poolId: string, assetInIndex: nat, assetOutIndex: nat, amount: nat)

  datatype BatchParam = BatchParam(kind: SwapKind, swaps: seq<BatchSwap>, assets: seq<string>, limits: seq<int>)

  /** The pools by id, each completed with its main tokens. */
  ghost predicate AllCompleted(poolIdMap: PoolsMap, pools: PoolsMap, rank: map<string, nat>) {
    forall id :: id in poolIdMap ==> Completed(pools, poolIdMap[id], rank)
  }

  function WrapEth(weth: string, token: string): string {
    if Lower(token) == ETHER_ADDRESS then weth else token
  }

  /** The request: the tokens as given, with ETH still unwrapped. */
  datatype Request = Request(srcToken: string, destToken: string, weth: string) {
    predicate HasEth() {
      Lower(srcToken) == ETHER_ADDRESS || Lower(destToken) == ETHER_ADDRESS
    }

    function Src(): string {
      WrapEth(weth, srcToken)
    }

    function Dest(): string {
      WrapEth(weth, destToken)
    }

    /** The batch swap writes ETH as the null address. */
    function Asset(token: string): string {
      if HasEth() && Lower(token) == Lower(weth) then NULL_ADDRESS else token
    }
  }

  /** One pool swap, unfolded: its hops from source to destination token, and its amount. */
  datatype Group = Group(hops: seq<Hop>, amount: nat)

  function GroupOf(q: Request, swap: PoolSwap, poolIdMap: PoolsMap, pools: PoolsMap, side: SwapSide,
                   ghost rank: map<string, nat>): Result<Group, PathError>
    requires AllCompleted(poolIdMap, pools, rank)
  {
    if swap.poolId !in poolIdMap then Failure(UnknownPool)
    else
      var path :- PathForTokenInOut(q.Src(), q.Dest(), poolIdMap[swap.poolId], pools, side, rank);
      Success(Group(if side == BUY then Reverse(path) else path, swap.amount))
  }

  /** All pool swaps, each unfolded; the first that cannot be decides the error. */
  function GroupsOf(q: Request, swaps: seq<PoolSwap>, poolIdMap: PoolsMap, pools: PoolsMap, side: SwapSide,
                    ghost rank: map<string, nat>): (r: Result<seq<Group>, PathError>)
    requires AllCompleted(poolIdMap, pools, rank)
    ensures r.Success? ==> |r.value| == |swaps|
  {
    if swaps == [] then Success([])
    else
      var n := |swaps| - 1;
      var groups :- GroupsOf(q, swaps[..n], poolIdMap, pools, side, rank);
      var g :- GroupOf(q, swaps[n], poolIdMap, pools, side, rank);
      Success(groups + [g])
  }

  lemma {:induction false} FirstFailureDecides(q: Request, swaps: seq<PoolSwap>, poolIdMap: PoolsMap, pools: PoolsMap, side: SwapSide,
                                               rank: map<string, nat>, n: nat)
    requires AllCompleted(poolIdMap, pools, rank) && n <= |swaps|
    requires GroupsOf(q, swaps[..n], poolIdMap, pools, side, rank).Failure?
    ensures GroupsOf(q, swaps, poolIdMap, pools, side, rank) == GroupsOf(q, swaps[..n], poolIdMap, pools, side, rank)
    decreases |swaps|
  {
    if n == |swaps| {
      assert swaps[..n] == swaps;
    } else {
      var last := |swaps| - 1;
      assert swaps[..last][..n] == swaps[..n];
      FirstFailureDecides(q, swaps[..last], poolIdMap, pools, side, rank, n);
    }
  }

  // ---------------------------------------------------------------- the flat form

  predicate CarriesAmount(side: SwapSide, i: nat, n: nat) {
    (side == SELL && i == 0) || (side == BUY && i == n - 1)
  }

  function GroupSwaps(g: Group, offset: nat, side: SwapSide): seq<BatchSwap> {
    seq(|g.hops|, i requires 0 <= i < |g.hops| =>
      BatchSwap(g.hops[i].pool.id, offset + i, offset + i + 1, if CarriesAmount(side, i, |g.hops|) then g.amount else 0))
  }

  function GroupAssets(q: Request, g: Group): seq<string> {
    [q.Asset(q.Src())] + seq(|g.hops|, i requires 0 <= i < |g.hops| => q.Asset(g.hops[i].tokenOut.address))
  }

  function Assets(q: Request, groups: seq<Group>): seq<string> {
    if groups == [] then []
    else
      var n := |groups| - 1;
      Assets(q, groups[..n]) + GroupAssets(q, groups[n])
  }

  function Offset(groups: seq<Group>): nat {
    if groups == [] then 0
    else
      var n := |groups| - 1;
      Offset(groups[..n]) + |groups[n].hops| + 1
  }

  function Swaps(groups: seq<Group>, side: SwapSide): seq<BatchSwap> {
    if groups == [] then []
    else
      var n := |groups| - 1;
      Swaps(groups[..n], side) + GroupSwaps(groups[n], Offset(groups[..n]), side)
  }

  function Limits(n: nat): seq<int> {
    seq(n, _ => MAX_INT)
  }

  lemma MoreLimits(m: nat, n: nat)
    ensures Limits(m) + Limits(n) == Limits(m + n)
  {
  }

  function Compile(q: Request, groups: seq<Group>, side: SwapSide): BatchParam {
    var assets := Assets(q, groups);
    BatchParam(if side == SELL then SwapExactIn else SwapExactOut,
               if side == SELL then Swaps(groups, side) else Reverse(Swaps(groups, side)),
               assets, Limits(|assets|))
  }

  /** The four accumulators after some groups. */
  ghost predicate Collected(q: Request, groups: seq<Group>, side: SwapSide, offset: nat, swaps: seq<BatchSwap>,
                            assets: seq<string>, limits: seq<int>) {
    offset == Offset(groups) && swaps == Swaps(groups, side) && assets == Assets(q, groups) && limits == Limits(|assets|)
  }

  lemma Snoc(q: Request, groups: seq<Group>, g: Group, side: SwapSide)
    ensures Offset(groups + [g]) == Offset(groups) + |g.hops| + 1
    ensures Swaps(groups + [g], side) == Swaps(groups, side) + GroupSwaps(g, Offset(groups), side)
    ensures Assets(q, groups + [g]) == Assets(q, groups) + GroupAssets(q, g)
  {
    assert (groups + [g])[..|groups|] == groups;
  }

  lemma CollectedOneMore(q: Request, groups: seq<Group>, g: Group, side: SwapSide, offset: nat, swaps: seq<BatchSwap>,
                         assets: seq<string>, limits: seq<int>)
    requires Collected(q, groups, side, offset, swaps, assets, limits)
    ensures Collected(q, groups + [g], side, offset + |g.hops| + 1, swaps + GroupSwaps(g, offset, side),
                      assets + GroupAssets(q, g), limits + Limits(|GroupAssets(q, g)|))
  {
    Snoc(q, groups, g, side);
    MoreLimits(|assets|, |GroupAssets(q, g)|);
  }

  lemma OneMoreGroup(q: Request, swaps: seq<PoolSwap>, n: nat, poolIdMap: PoolsMap, pools: PoolsMap, side: SwapSide,
                     rank: map<string, nat>, groups: seq<Group>)
    requires AllCompleted(poolIdMap, pools, rank) && n < |swaps|
    requires GroupsOf(q, swaps[..n], poolIdMap, pools, side, rank) == Success(groups)
    ensures var g := GroupOf(q, swaps[n], poolIdMap, pools, side, rank);
            GroupsOf(q, swaps[..n + 1], poolIdMap, pools, side, rank)
              == if g.Failure? then Failure(g.error) else Success(groups + [g.value])
  {
    assert swaps[..n + 1][..n] == swaps[..n];
  }

  /** Fails as the first pool swap that cannot be unfolded does, and otherwise compiles them all. */
  method GetBalancerParam(q: Request, data: seq<PoolSwap>, poolIdMap: PoolsMap, pools: PoolsMap, side: SwapSide,
                          ghost rank: map<string, nat>) returns (r: Result<BatchParam, PathError>)
    requires AllCompleted(poolIdMap, pools, rank)
    ensures r == match GroupsOf(q, data, poolIdMap, pools, side, rank)
                 case Failure(e) => Failure(e)
                 case Success(groups) => Success(Compile(q, groups, side))
  {
    var swapOffset: nat := 0;
    var swaps: seq<BatchSwap> := [];
    var assets: seq<string> := [];
    var limits: seq<int> := [];
    ghost var groups: seq<Group> := [];
    for k := 0 to |data|
      invariant GroupsOf(q, data[..k], poolIdMap, pools, side, rank) == Success(groups)
      invariant Collected(q, groups, side, swapOffset, swaps, assets, limits)
    {
      OneMoreGroup(q, data, k, poolIdMap, pools, side, rank, groups);
      var path := PathOf(q, data[k], poolIdMap, pools, side, rank);
      if path.Failure? {
        FirstFailureDecides(q, data, poolIdMap, pools, side, rank, k + 1);
        return Failure(path.error);
      }
      var newSwaps, newAssets := CompilePath(q, path.value, data[k].amount, swapOffset, side);
      ghost var g := Group(path.value, data[k].amount);
      CollectedOneMore(q, groups, g, side, swapOffset, swaps, assets, limits);
      groups := groups + [g];
      swapOffset := swapOffset + |path.value| + 1;
      var newLimits := Limits(|newAssets|);
      swaps := swaps + newSwaps;
      assets := assets + newAssets;
      limits := limits + newLimits;
    }
    assert data[..|data|] == data;
    r := Success(BatchParam(if side == SELL then SwapExactIn else SwapExactOut,
                            if side == SELL then swaps else Reverse(swaps), assets, limits));
  }

  method PathOf(q: Request, swapData: PoolSwap, poolIdMap: PoolsMap, pools: PoolsMap, side: SwapSide, ghost rank: map<string, nat>)
    returns (r: Result<seq<Hop>, PathError>)
    requires AllCompleted(poolIdMap, pools, rank)
    ensures var g := GroupOf(q, swapData, poolIdMap, pools, side, rank);
            if g.Failure? then r == Failure(g.error) else r == Success(g.value.hops) && g.value.amount == swapData.amount
  {
    if swapData.poolId !in poolIdMap {
      return Failure(UnknownPool);
    }
    r := PathForTokenInOut(q.Src(), q.Dest(), poolIdMap[swapData.poolId], pools, side, rank);
    if r.Success? && side == BUY {
      r := Success(Reverse(r.value));
    }
  }

  method CompilePath(q: Request, path: seq<Hop>, amount: nat, swapOffset: nat, side: SwapSide)
    returns (swaps: seq<BatchSwap>, assets: seq<string>)
    ensures swaps == GroupSwaps(Group(path, amount), swapOffset, side) && assets == GroupAssets(q, Group(path, amount))
  {
    swaps := seq(|path|, index requires 0 <= index < |path| =>
      BatchSwap(path[index].pool.id, swapOffset + index, swapOffset + index + 1,
                if (side == SELL && index == 0) || (side == BUY && index == |path| - 1) then amount else 0));
    assets := [q.Asset(q.Src())] + seq(|path|, i requires 0 <= i < |path| => q.Asset(path[i].tokenOut.address));
  }
}
