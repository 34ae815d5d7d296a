/**
 What a compiled batch swap means. A swap that carries an amount starts from it; a swap whose amount
 is zero continues from what the swap before it calculated, and must be given in that swap's token.
 The compiled list computes exactly what swapping along each path hop by hop computes.
 */
module BalancerV2Execution {
  import opened Wrappers
  import opened Sides
  import opened Text
  import opened Sequences
  import opened BalancerV2Pools
  import opened BalancerV2Batch

  /** What a pool calculates for a given amount: the amount out when selling, the amount in when buying. */
  type Quote = (string, SwapKind, string, string, nat) -> nat

  datatype Previous = Previous(token: string, amount: nat)

  datatype BatchError = IndexOutOfRange | NoPreviousSwap | TokenMismatch

  datatype Trace = Trace(amounts: seq<nat>, last: Option<Previous>)

  /** The amount a swap is given, in its given token. */
  function Given(s: BatchSwap, token: string, previous: Option<Previous>): Result<nat, BatchError> {
    if s.amount != 0 then Success(s.amount)
    else if previous.None? then Failure(NoPreviousSwap)
    else if previous.value.token != token then Failure(TokenMismatch)
    else Success(previous.value.amount)
  }

  function ExecuteOne(kind: SwapKind, s: BatchSwap, assets: seq<string>, quote: Quote, previous: Option<Previous>)
    : Result<Previous, BatchError>
  {
    if s.assetInIndex >= |assets| || s.assetOutIndex >= |assets| then Failure(IndexOutOfRange)
    else
      var tokenIn, tokenOut := assets[s.assetInIndex], assets[s.assetOutIndex];
      var amount :- Given(s, if kind == SwapExactIn then tokenIn else tokenOut, previous);
      Success(Previous(if kind == SwapExactIn then tokenOut else tokenIn, quote(s.poolId, kind, tokenIn, tokenOut, amount)))
  }

  function Execute(kind: SwapKind, swaps: seq<BatchSwap>, assets: seq<string>, quote: Quote, previous: Option<Previous>)
    : Result<Trace, BatchError>
    decreases |swaps|
  {
    if swaps == [] then Success(Trace([], previous))
    else
      var one :- ExecuteOne(kind, swaps[0], assets, quote, previous);
      var rest :- Execute(kind, swaps[1..], assets, quote, Some(one));
      Success(Trace([one.amount] + rest.amounts, rest.last))
  }

  // ---------------------------------------------------------------- swapping along a path

  /** Selling: forwards from token i of the path, each hop quoting what the one before paid out. */
  function SellAlong(hops: seq<Hop>, tokens: seq<string>, quote: Quote, i: nat, amount: nat): seq<nat>
    requires |tokens| == |hops| + 1 && i <= |hops|
    decreases |hops| - i
  {
    if i == |hops| then []
    else
      var out := quote(hops[i].pool.id, SwapExactIn, tokens[i], tokens[i + 1], amount);
      [out] + SellAlong(hops, tokens, quote, i + 1, out)
  }

  /** Buying: backwards from token i of the path, each hop quoting what the one after must be paid. */
  function BuyAlong(hops: seq<Hop>, tokens: seq<string>, quote: Quote, i: nat, amount: nat): seq<nat>
    requires |tokens| == |hops| + 1 && i <= |hops|
    decreases i
  {
    if i == 0 then []
    else
      var in_ := quote(hops[i - 1].pool.id, SwapExactOut, tokens[i - 1], tokens[i], amount);
      [in_] + BuyAlong(hops, tokens, quote, i - 1, in_)
  }

  function Along(q: Request, g: Group, side: SwapSide, quote: Quote): seq<nat> {
    if side == SELL then SellAlong(g.hops, GroupAssets(q, g), quote, 0, g.amount)
    else BuyAlong(g.hops, GroupAssets(q, g), quote, |g.hops|, g.amount)
  }

  /** All paths, in the order the batch takes them: buying goes through the paths backwards too. */
  function AllAlong(q: Request, groups: seq<Group>, side: SwapSide, quote: Quote): seq<nat> {
    if groups == [] then []
    else
      var n := |groups| - 1;
      if side == SELL then AllAlong(q, groups[..n], side, quote) + Along(q, groups[n], side, quote)
      else Along(q, groups[n], side, quote) + AllAlong(q, groups[..n], side, quote)
  }

  // ---------------------------------------------------------------- one path

  function Kind(side: SwapSide): SwapKind {
    if side == SELL then SwapExactIn else SwapExactOut
  }

  function Ordered(swaps: seq<BatchSwap>, side: SwapSide): seq<BatchSwap> {
    if side == SELL then swaps else Reverse(swaps)
  }

  /** The asset list holds a path's tokens from `offset` on. */
  ghost predicate Holds(assets: seq<string>, offset: nat, tokens: seq<string>) {
    offset + |tokens| <= |assets| && assets[offset..offset + |tokens|] == tokens
  }

  /** The i-th swap of a path that is sold, given in the path's i-th token. */
  lemma SellOne(q: Request, g: Group, offset: nat, assets: seq<string>, quote: Quote, i: nat, amount: nat, previous: Option<Previous>)
    requires i < |g.hops| && Holds(assets, offset, GroupAssets(q, g))
    requires if i == 0 then amount == g.amount != 0 else previous == Some(Previous(GroupAssets(q, g)[i], amount))
    ensures var tokens := GroupAssets(q, g);
            ExecuteOne(SwapExactIn, GroupSwaps(g, offset, SELL)[i], assets, quote, previous)
              == Success(Previous(tokens[i + 1], quote(g.hops[i].pool.id, SwapExactIn, tokens[i], tokens[i + 1], amount)))
  {
    var tokens := GroupAssets(q, g);
    HeldAt(assets, offset, tokens, i);
    HeldAt(assets, offset, tokens, i + 1);
  }

  /** The same for a path that is bought: its i-th swap, given in the token it ends in. */
  lemma BuyOne(q: Request, g: Group, offset: nat, assets: seq<string>, quote: Quote, i: nat, amount: nat,
               previous: Option<Previous>)
    requires i < |g.hops| && Holds(assets, offset, GroupAssets(q, g))
    requires if i == |g.hops| - 1 then amount == g.amount != 0 else previous == Some(Previous(GroupAssets(q, g)[i + 1], amount))
    ensures var tokens := GroupAssets(q, g);
            ExecuteOne(SwapExactOut, GroupSwaps(g, offset, BUY)[i], assets, quote, previous)
              == Success(Previous(tokens[i], quote(g.hops[i].pool.id, SwapExactOut, tokens[i], tokens[i + 1], amount)))
  {
    var tokens := GroupAssets(q, g);
    HeldAt(assets, offset, tokens, i);
    HeldAt(assets, offset, tokens, i + 1);
  }

  lemma HeldAt(assets: seq<string>, offset: nat, tokens: seq<string>, i: nat)
    requires Holds(assets, offset, tokens) && i < |tokens|
    ensures offset + i < |assets| && assets[offset + i] == tokens[i]
  {
  }

  lemma ExecuteFirst(kind: SwapKind, swaps: seq<BatchSwap>, assets: seq<string>, quote: Quote, previous: Option<Previous>,
                     one: Previous, rest: Trace)
    requires swaps != [] && ExecuteOne(kind, swaps[0], assets, quote, previous) == Success(one)
    requires Execute(kind, swaps[1..], assets, quote, Some(one)) == Success(rest)
    ensures Execute(kind, swaps, assets, quote, previous) == Success(Trace([one.amount] + rest.amounts, rest.last))
  {
  }

  lemma {:induction false} SellFrom(q: Request, g: Group, offset: nat, assets: seq<string>, quote: Quote, i: nat,
                                    amount: nat, previous: Option<Previous>)
    requires i <= |g.hops| && Holds(assets, offset, GroupAssets(q, g))
    requires if i == 0 then amount == g.amount != 0 else previous == Some(Previous(GroupAssets(q, g)[i], amount))
    ensures var r := Execute(SwapExactIn, GroupSwaps(g, offset, SELL)[i..], assets, quote, previous);
            && r.Success?
            && r.value.amounts == SellAlong(g.hops, GroupAssets(q, g), quote, i, amount)
            && (|g.hops| > 0 ==> r.value.last.Some? && r.value.last.value.token == GroupAssets(q, g)[|g.hops|])
    decreases |g.hops| - i
  {
    var swaps, tokens := GroupSwaps(g, offset, SELL), GroupAssets(q, g);
    if i < |g.hops| {
      assert swaps[i..][0] == swaps[i] && swaps[i..][1..] == swaps[i + 1..];
      SellOne(q, g, offset, assets, quote, i, amount, previous);
      var out := quote(g.hops[i].pool.id, SwapExactIn, tokens[i], tokens[i + 1], amount);
      SellFrom(q, g, offset, assets, quote, i + 1, out, Some(Previous(tokens[i + 1], out)));
    }
  }

  /** The result of buying backwards from token i of the path. */
  ghost predicate Bought(q: Request, g: Group, quote: Quote, i: nat, amount: nat, r: Result<Trace, BatchError>)
    requires i <= |g.hops|
  {
    && r.Success?
    && r.value.amounts == BuyAlong(g.hops, GroupAssets(q, g), quote, i, amount)
    && (i > 0 ==> r.value.last.Some? && r.value.last.value.token == GroupAssets(q, g)[0])
  }

  lemma BoughtOneMore(q: Request, g: Group, quote: Quote, i: nat, amount: nat, one: Previous, rest: Trace)
    requires 0 < i <= |g.hops|
    requires var tokens := GroupAssets(q, g);
             one == Previous(tokens[i - 1], quote(g.hops[i - 1].pool.id, SwapExactOut, tokens[i - 1], tokens[i], amount))
    requires Bought(q, g, quote, i - 1, one.amount, Success(rest)) && (i == 1 ==> rest.last == Some(one))
    ensures Bought(q, g, quote, i, amount, Success(Trace([one.amount] + rest.amounts, rest.last)))
  {
  }

  lemma {:induction false} BuyFrom(q: Request, g: Group, offset: nat, assets: seq<string>, quote: Quote, i: nat,
                                   amount: nat, previous: Option<Previous>)
    requires i <= |g.hops| && Holds(assets, offset, GroupAssets(q, g))
    requires if i == |g.hops| then amount == g.amount != 0 else previous == Some(Previous(GroupAssets(q, g)[i], amount))
    ensures var r := Execute(SwapExactOut, Reverse(GroupSwaps(g, offset, BUY)[..i]), assets, quote, previous);
            Bought(q, g, quote, i, amount, r) && (i == 0 ==> r.value.last == previous)
    decreases i
  {
    var swaps, tokens := GroupSwaps(g, offset, BUY), GroupAssets(q, g);
    if i > 0 {
      var j := i - 1;
      ReverseHead(swaps, i);
      BuyOne(q, g, offset, assets, quote, j, amount, previous);
      var one := Previous(tokens[j], quote(g.hops[j].pool.id, SwapExactOut, tokens[j], tokens[i], amount));
      BuyFrom(q, g, offset, assets, quote, j, one.amount, Some(one));
      var rest := Execute(SwapExactOut, Reverse(swaps[..j]), assets, quote, Some(one)).value;
      ExecuteFirst(SwapExactOut, Reverse(swaps[..i]), assets, quote, previous, one, rest);
      BoughtOneMore(q, g, quote, i, amount, one, rest);
    }
  }

  /** The token a path's last swap calculates: its end when selling, its start when buying. */
  function EndToken(q: Request, g: Group, side: SwapSide): string {
    if side == SELL then GroupAssets(q, g)[|g.hops|] else GroupAssets(q, g)[0]
  }

  /** The token a path's first swap is given in. */
  function StartToken(q: Request, g: Group, side: SwapSide): string {
    if side == SELL then GroupAssets(q, g)[0] else GroupAssets(q, g)[|g.hops|]
  }

  lemma OneSale(q: Request, g: Group, offset: nat, assets: seq<string>, quote: Quote, previous: Option<Previous>)
    requires g.hops != [] && g.amount != 0 && Holds(assets, offset, GroupAssets(q, g))
    ensures var r := Execute(SwapExactIn, GroupSwaps(g, offset, SELL), assets, quote, previous);
            && r.Success?
            && r.value.amounts == Along(q, g, SELL, quote)
            && r.value.last.Some? && r.value.last.value.token == EndToken(q, g, SELL)
  {
    assert GroupSwaps(g, offset, SELL)[0..] == GroupSwaps(g, offset, SELL);
    SellFrom(q, g, offset, assets, quote, 0, g.amount, previous);
  }

  lemma OnePurchase(q: Request, g: Group, offset: nat, assets: seq<string>, quote: Quote, previous: Option<Previous>)
    requires g.hops != [] && g.amount != 0 && Holds(assets, offset, GroupAssets(q, g))
    ensures var r := Execute(SwapExactOut, Reverse(GroupSwaps(g, offset, BUY)), assets, quote, previous);
            && r.Success?
            && r.value.amounts == Along(q, g, BUY, quote)
            && r.value.last.Some? && r.value.last.value.token == EndToken(q, g, BUY)
  {
    assert GroupSwaps(g, offset, BUY)[..|g.hops|] == GroupSwaps(g, offset, BUY);
    BuyFrom(q, g, offset, assets, quote, |g.hops|, g.amount, previous);
  }

  /** A path with an amount computes, whatever came before it, what swapping along it computes. */
  lemma OnePath(q: Request, g: Group, offset: nat, assets: seq<string>, side: SwapSide, quote: Quote, previous: Option<Previous>)
    requires g.hops != [] && g.amount != 0 && Holds(assets, offset, GroupAssets(q, g))
    ensures var r := Execute(Kind(side), Ordered(GroupSwaps(g, offset, side), side), assets, quote, previous);
            && r.Success?
            && r.value.amounts == Along(q, g, side, quote)
            && r.value.last.Some? && r.value.last.value.token == EndToken(q, g, side)
  {
    if side == SELL {
      OneSale(q, g, offset, assets, quote, previous);
    } else {
      OnePurchase(q, g, offset, assets, quote, previous);
    }
  }

  /** A path without an amount cannot start unless the swap before it ended on its first token. */
  lemma EmptyPathFails(q: Request, g: Group, offset: nat, assets: seq<string>, side: SwapSide, quote: Quote, previous: Option<Previous>)
    requires g.hops != [] && g.amount == 0 && Holds(assets, offset, GroupAssets(q, g))
    requires previous.Some? ==> previous.value.token != StartToken(q, g, side)
    ensures Execute(Kind(side), Ordered(GroupSwaps(g, offset, side), side), assets, quote, previous).Failure?
  {
    var swaps := GroupSwaps(g, offset, side);
    assert Ordered(swaps, side)[0] == if side == SELL then swaps[0] else swaps[|g.hops| - 1];
    HeldAt(assets, offset, GroupAssets(q, g), 0);
    HeldAt(assets, offset, GroupAssets(q, g), |g.hops|);
    assert ExecuteOne(Kind(side), Ordered(swaps, side)[0], assets, quote, previous).Failure?;
  }

  // ---------------------------------------------------------------- all paths

  lemma {:induction false} ExecuteConcat(kind: SwapKind, s: seq<BatchSwap>, t: seq<BatchSwap>, assets: seq<string>,
                                         quote: Quote, previous: Option<Previous>)
    ensures var first := Execute(kind, s, assets, quote, previous);
            var both := Execute(kind, s + t, assets, quote, previous);
            if first.Failure? then both.Failure?
            else
              var second := Execute(kind, t, assets, quote, first.value.last);
              if second.Failure? then both.Failure?
              else both == Success(Trace(first.value.amounts + second.value.amounts, second.value.last))
    decreases |s|
  {
    if s == [] {
      assert s + t == t;
      var second := Execute(kind, t, assets, quote, previous);
      if second.Success? {
        assert [] + second.value.amounts == second.value.amounts;
      }
    } else {
      var one := ExecuteOne(kind, s[0], assets, quote, previous);
      TailOfConcat(s, t);
      if one.Success? {
        ExecuteConcat(kind, s[1..], t, assets, quote, Some(one.value));
        var first := Execute(kind, s[1..], assets, quote, Some(one.value));
        if first.Success? {
          var second := Execute(kind, t, assets, quote, first.value.last);
          if second.Success? {
            ConcatAssociative([one.value.amount], first.value.amounts, second.value.amounts);
          }
        }
      }
    }
  }

  /** Two lists of swaps that both execute do so one after the other. */
  lemma ExecuteBoth(kind: SwapKind, s: seq<BatchSwap>, t: seq<BatchSwap>, assets: seq<string>, quote: Quote,
                    previous: Option<Previous>, first: Trace, second: Trace)
    requires Execute(kind, s, assets, quote, previous) == Success(first)
    requires Execute(kind, t, assets, quote, first.last) == Success(second)
    ensures Execute(kind, s + t, assets, quote, previous) == Success(Trace(first.amounts + second.amounts, second.last))
  {
    ExecuteConcat(kind, s, t, assets, quote, previous);
  }

  lemma {:induction false} OffsetIsLength(q: Request, groups: seq<Group>)
    ensures Offset(groups) == |Assets(q, groups)|
  {
    if groups != [] {
      OffsetIsLength(q, groups[..|groups| - 1]);
    }
  }

  /** The last path's tokens stand in the asset list where its swaps look for them. */
  lemma LastHolds(q: Request, groups: seq<Group>, assets: seq<string>)
    requires groups != [] && Assets(q, groups) <= assets
    ensures var n := |groups| - 1;
            Assets(q, groups[..n]) <= assets && Holds(assets, Offset(groups[..n]), GroupAssets(q, groups[n]))
  {
    var n := |groups| - 1;
    OffsetIsLength(q, groups[..n]);
    SecondPart(Assets(q, groups[..n]), GroupAssets(q, groups[n]), assets);
  }

  ghost predicate NonEmpty(groups: seq<Group>) {
    forall i :: 0 <= i < |groups| ==> groups[i].hops != []
  }

  predicate AllAmounts(groups: seq<Group>) {
    forall i :: 0 <= i < |groups| ==> groups[i].amount != 0
  }

  lemma LastGroup(groups: seq<Group>, side: SwapSide)
    requires groups != []
    ensures var n := |groups| - 1;
            var last := Ordered(GroupSwaps(groups[n], Offset(groups[..n]), side), side);
            var before := Ordered(Swaps(groups[..n], side), side);
            Ordered(Swaps(groups, side), side) == if side == SELL then before + last else last + before
  {
    var n := |groups| - 1;
    ReverseConcat(Swaps(groups[..n], side), GroupSwaps(groups[n], Offset(groups[..n]), side));
  }

  lemma {:induction false} AllSales(q: Request, groups: seq<Group>, assets: seq<string>, quote: Quote, previous: Option<Previous>)
    requires NonEmpty(groups) && AllAmounts(groups) && Assets(q, groups) <= assets
    ensures var r := Execute(SwapExactIn, Swaps(groups, SELL), assets, quote, previous);
            && r.Success?
            && r.value.amounts == AllAlong(q, groups, SELL, quote)
            && (if groups == [] then r.value.last == previous
                else r.value.last.Some? && r.value.last.value.token == EndToken(q, groups[|groups| - 1], SELL))
    decreases |groups|
  {
    if groups != [] {
      var n := |groups| - 1;
      var before, g := groups[..n], groups[n];
      var swaps, last := Swaps(before, SELL), GroupSwaps(g, Offset(before), SELL);
      LastHolds(q, groups, assets);
      AllSales(q, before, assets, quote, previous);
      var r := Execute(SwapExactIn, swaps, assets, quote, previous).value;
      OneSale(q, g, Offset(before), assets, quote, r.last);
      ExecuteBoth(SwapExactIn, swaps, last, assets, quote, previous, r, Execute(SwapExactIn, last, assets, quote, r.last).value);
    }
  }

  lemma {:induction false} AllPurchases(q: Request, groups: seq<Group>, assets: seq<string>, quote: Quote, previous: Option<Previous>)
    requires NonEmpty(groups) && AllAmounts(groups) && Assets(q, groups) <= assets
    ensures var r := Execute(SwapExactOut, Reverse(Swaps(groups, BUY)), assets, quote, previous);
            && r.Success?
            && r.value.amounts == AllAlong(q, groups, BUY, quote)
            && (if groups == [] then r.value.last == previous
                else r.value.last.Some? && r.value.last.value.token == EndToken(q, groups[0], BUY))
    decreases |groups|
  {
    if groups != [] {
      var n := |groups| - 1;
      var before, g := groups[..n], groups[n];
      var swaps, last := Reverse(Swaps(before, BUY)), Reverse(GroupSwaps(g, Offset(before), BUY));
      ReverseConcat(Swaps(before, BUY), GroupSwaps(g, Offset(before), BUY));
      LastHolds(q, groups, assets);
      OnePurchase(q, g, Offset(before), assets, quote, previous);
      var r := Execute(SwapExactOut, last, assets, quote, previous).value;
      AllPurchases(q, before, assets, quote, r.last);
      ExecuteBoth(SwapExactOut, last, swaps, assets, quote, previous, r, Execute(SwapExactOut, swaps, assets, quote, r.last).value);
    }
  }

  /** Paths that all have an amount compute, one after the other, what swapping along each computes. */
  lemma AllPaths(q: Request, groups: seq<Group>, assets: seq<string>, side: SwapSide, quote: Quote, previous: Option<Previous>)
    requires NonEmpty(groups) && AllAmounts(groups) && Assets(q, groups) <= assets
    ensures var r := Execute(Kind(side), Ordered(Swaps(groups, side), side), assets, quote, previous);
            && r.Success?
            && r.value.amounts == AllAlong(q, groups, side, quote)
            && (if groups == [] then r.value.last == previous
                else r.value.last.Some? && r.value.last.value.token == EndToken(q, groups[if side == SELL then |groups| - 1 else 0], side))
  {
    if side == SELL {
      AllSales(q, groups, assets, quote, previous);
    } else {
      AllPurchases(q, groups, assets, quote, previous);
    }
  }

  /** No path ends on the asset all of them start from. */
  ghost predicate EndsApart(q: Request, groups: seq<Group>) {
    forall i :: 0 <= i < |groups| ==> GroupAssets(q, groups[i])[|groups[i].hops|] != q.Asset(q.Src())
  }

  /** What holds of all paths, said of the last one and of those before it. */
  lemma SplitLast(q: Request, groups: seq<Group>)
    requires groups != [] && NonEmpty(groups) && EndsApart(q, groups)
    ensures var n := |groups| - 1;
            && NonEmpty(groups[..n]) && EndsApart(q, groups[..n]) && groups[n].hops != []
            && StartToken(q, groups[n], SELL) == q.Asset(q.Src()) != StartToken(q, groups[n], BUY)
            && (AllAmounts(groups) <==> AllAmounts(groups[..n]) && groups[n].amount != 0)
            && (n > 0 ==> EndToken(q, groups[..n][n - 1], SELL) != q.Asset(q.Src()))
  {
  }

  lemma {:induction false} SomeSaleFails(q: Request, groups: seq<Group>, assets: seq<string>, quote: Quote)
    requires NonEmpty(groups) && !AllAmounts(groups) && EndsApart(q, groups) && Assets(q, groups) <= assets
    ensures Execute(SwapExactIn, Swaps(groups, SELL), assets, quote, None).Failure?
    decreases |groups|
  {
    var n := |groups| - 1;
    var before, offset := groups[..n], Offset(groups[..n]);
    var swaps, last := Swaps(before, SELL), GroupSwaps(groups[n], offset, SELL);
    SplitLast(q, groups);
    LastHolds(q, groups, assets);
    ExecuteConcat(SwapExactIn, swaps, last, assets, quote, None);
    if AllAmounts(before) {
      AllPaths(q, before, assets, SELL, quote, None);
      EmptyPathFails(q, groups[n], offset, assets, SELL, quote, Execute(SwapExactIn, swaps, assets, quote, None).value.last);
    } else {
      SomeSaleFails(q, before, assets, quote);
    }
  }

  lemma {:induction false} SomePurchaseFails(q: Request, groups: seq<Group>, assets: seq<string>, quote: Quote, previous: Option<Previous>)
    requires NonEmpty(groups) && !AllAmounts(groups) && EndsApart(q, groups) && Assets(q, groups) <= assets
    requires previous.Some? ==> previous.value.token == q.Asset(q.Src())
    ensures Execute(SwapExactOut, Reverse(Swaps(groups, BUY)), assets, quote, previous).Failure?
    decreases |groups|
  {
    var n := |groups| - 1;
    var before, offset := groups[..n], Offset(groups[..n]);
    var swaps, last := Reverse(Swaps(before, BUY)), Reverse(GroupSwaps(groups[n], offset, BUY));
    SplitLast(q, groups);
    LastGroup(groups, BUY);
    LastHolds(q, groups, assets);
    ExecuteConcat(SwapExactOut, last, swaps, assets, quote, previous);
    if groups[n].amount == 0 {
      EmptyPathFails(q, groups[n], offset, assets, BUY, quote, previous);
    } else {
      OnePath(q, groups[n], offset, assets, BUY, quote, previous);
      SomePurchaseFails(q, before, assets, quote, Execute(SwapExactOut, last, assets, quote, previous).value.last);
    }
  }

  /**
   Executing the compiled batch gives, path by path, the amounts of swapping along each path hop by
   hop, provided every pool swap has an amount; and when no path returns to its own starting asset,
   that is the only way it can succeed.
   */
  lemma ExecutionTheorem(q: Request, groups: seq<Group>, side: SwapSide, quote: Quote)
    requires NonEmpty(groups)
    ensures var b := Compile(q, groups, side);
            var r := Execute(b.kind, b.swaps, b.assets, quote, None);
            && (AllAmounts(groups) ==> r.Success? && r.value.amounts == AllAlong(q, groups, side, quote))
            && (EndsApart(q, groups) ==> (r.Success? <==> AllAmounts(groups)))
  {
    if AllAmounts(groups) {
      AllPaths(q, groups, Assets(q, groups), side, quote, None);
    } else if EndsApart(q, groups) {
      if side == SELL {
        SomeSaleFails(q, groups, Assets(q, groups), quote);
      } else {
        SomePurchaseFails(q, groups, Assets(q, groups), quote, None);
      }
    }
  }

  // ---------------------------------------------------------------- indexes and tokens

  /** Within a group, each swap hands its asset on to the next. */
  predicate HandsOn(side: SwapSide, first: BatchSwap, next: BatchSwap) {
    if side == SELL then next.assetInIndex == first.assetOutIndex else next.assetOutIndex == first.assetInIndex
  }

  lemma OrderedAt(g: Group, offset: nat, side: SwapSide, i: nat)
    requires i < |g.hops|
    ensures var n := |g.hops|;
            var k := if side == SELL then i else n - 1 - i;
            && |Ordered(GroupSwaps(g, offset, side), side)| == n
            && Ordered(GroupSwaps(g, offset, side), side)[i]
                 == BatchSwap(g.hops[k].pool.id, offset + k, offset + k + 1, if i == 0 then g.amount else 0)
  {
    var swaps, n := GroupSwaps(g, offset, side), |g.hops|;
    if side == SELL {
      assert Ordered(swaps, side)[i] == swaps[i];
    } else {
      var k := n - 1 - i;
      assert Ordered(swaps, side)[i] == swaps[k];
      assert CarriesAmount(side, k, n) <==> i == 0;
    }
  }

  /**
   In the order the batch runs it, a path's first swap is the only one with the amount, and every
   other swap shares with the one before it the asset that connects them.
   */
  lemma OrderTheorem(g: Group, offset: nat, side: SwapSide)
    requires g.hops != []
    ensures var f := Ordered(GroupSwaps(g, offset, side), side);
            && |f| == |g.hops|
            && f[0].amount == g.amount
            && (forall i :: 0 < i < |f| ==> f[i].amount == 0)
            && (forall i :: 0 < i < |f| ==> HandsOn(side, f[i - 1], f[i]))
            && (forall i :: 0 <= i < |f| ==> f[i].assetOutIndex == f[i].assetInIndex + 1)
  {
    var f := Ordered(GroupSwaps(g, offset, side), side);
    OrderedAt(g, offset, side, 0);
    forall i | 0 <= i < |f|
      ensures f[i].assetOutIndex == f[i].assetInIndex + 1
      ensures i > 0 ==> f[i].amount == 0 && HandsOn(side, f[i - 1], f[i])
    {
      OrderedAt(g, offset, side, i);
      if i > 0 {
        OrderedAt(g, offset, side, i - 1);
      }
    }
  }

  lemma {:induction false} ConnectsAt(a: string, hops: seq<Hop>, b: string, i: nat)
    requires Connects(a, hops, b) && i < |hops|
    ensures WithinPool(hops[i]) && hops[i].tokenIn.address == if i == 0 then a else hops[i - 1].tokenOut.address
    decreases i
  {
    if i > 0 {
      ConnectsAt(hops[0].tokenOut.address, hops[1..], b, i - 1);
    }
  }

  /** Reversing for BUY where the path is found and again where it is compiled cancels out. */
  lemma SameGroup(q: Request, swap: PoolSwap, poolIdMap: PoolsMap, pools: PoolsMap, side: SwapSide, rank: map<string, nat>)
    requires AllCompleted(poolIdMap, pools, rank)
    ensures GroupOf(q, swap, poolIdMap, pools, side, rank) == GroupOf(q, swap, poolIdMap, pools, SELL, rank)
  {
    if swap.poolId in poolIdMap {
      var sell := PathForTokenInOut(q.Src(), q.Dest(), poolIdMap[swap.poolId], pools, SELL, rank);
      if sell.Success? {
        ReverseTwice(sell.value);
      }
    }
  }

  /** The address of a requested token, in any case: WETH for ETH. */
  predicate Means(q: Request, requested: string, address: string) {
    Lower(address) == Lower(if Lower(requested) == ETHER_ADDRESS then q.weth else requested)
  }

  /** From source to destination, connected, and each hop within its pool. */
  ghost predicate Routes(q: Request, g: Group) {
    && g.hops != []
    && Means(q, q.srcToken, g.hops[0].tokenIn.address)
    && Means(q, q.destToken, g.hops[|g.hops| - 1].tokenOut.address)
    && Connects(g.hops[0].tokenIn.address, g.hops, g.hops[|g.hops| - 1].tokenOut.address)
  }

  lemma GroupRoutes(q: Request, swap: PoolSwap, poolIdMap: PoolsMap, pools: PoolsMap, rank: map<string, nat>)
    requires AllCompleted(poolIdMap, pools, rank) && GroupOf(q, swap, poolIdMap, pools, SELL, rank).Success?
    ensures Routes(q, GroupOf(q, swap, poolIdMap, pools, SELL, rank).value)
  {
    PathTheorem(q.Src(), q.Dest(), poolIdMap[swap.poolId], pools, rank);
  }

  /** One of the two requested tokens is ETH, in any case. */
  predicate AsksForEth(q: Request) {
    Lower(q.srcToken) == ETHER_ADDRESS || Lower(q.destToken) == ETHER_ADDRESS
  }

  /** The asset names the token: WETH becomes the null address when ETH is asked for, and nothing else changes. */
  predicate Names(q: Request, asset: string, token: string) {
    if AsksForEth(q) && Lower(token) == Lower(q.weth) then asset == NULL_ADDRESS else asset == token
  }

  lemma AssetNames(q: Request, token: string)
    ensures Names(q, q.Asset(token), token)
  {
  }

  /** The assets of a route name the tokens of its hops, in order. */
  lemma RouteAssets(q: Request, g: Group)
    requires Routes(q, g)
    ensures forall i :: 0 <= i < |g.hops| ==>
              && WithinPool(g.hops[i])
              && GroupAssets(q, g)[i + 1] == q.Asset(g.hops[i].tokenOut.address)
              && (i > 0 ==> GroupAssets(q, g)[i] == q.Asset(g.hops[i].tokenIn.address))
  {
    forall i | 0 <= i < |g.hops|
      ensures WithinPool(g.hops[i]) && (i > 0 ==> g.hops[i].tokenIn.address == g.hops[i - 1].tokenOut.address)
    {
      ConnectsAt(g.hops[0].tokenIn.address, g.hops, g.hops[|g.hops| - 1].tokenOut.address, i);
    }
  }

  /** Each hop swaps assets of its own pool, and the group's assets name its two tokens. */
  ghost predicate HopsNamed(q: Request, g: Group) {
    forall i :: 0 <= i < |g.hops| ==>
      && WithinPool(g.hops[i])
      && Names(q, GroupAssets(q, g)[i + 1], g.hops[i].tokenOut.address)
      && (i > 0 ==> Names(q, GroupAssets(q, g)[i], g.hops[i].tokenIn.address))
  }

  lemma RouteNamed(q: Request, g: Group)
    requires Routes(q, g)
    ensures HopsNamed(q, g)
  {
    RouteAssets(q, g);
    forall i | 0 <= i < |g.hops|
      ensures Names(q, q.Asset(g.hops[i].tokenOut.address), g.hops[i].tokenOut.address)
      ensures Names(q, q.Asset(g.hops[i].tokenIn.address), g.hops[i].tokenIn.address)
    {
      AssetNames(q, g.hops[i].tokenOut.address);
      AssetNames(q, g.hops[i].tokenIn.address);
    }
  }

  /**
   The group of a pool swap, for either side: its hops run from the source token to the destination
   token, each swaps assets of its own pool, and the asset list names each hop's tokens in order.
   */
  lemma GroupTheorem(q: Request, swap: PoolSwap, poolIdMap: PoolsMap, pools: PoolsMap, side: SwapSide, rank: map<string, nat>)
    requires AllCompleted(poolIdMap, pools, rank) && GroupOf(q, swap, poolIdMap, pools, side, rank).Success?
    ensures var g := GroupOf(q, swap, poolIdMap, pools, side, rank).value;
            g.amount == swap.amount && Routes(q, g) && HopsNamed(q, g)
  {
    SameGroup(q, swap, poolIdMap, pools, side, rank);
    GroupRoutes(q, swap, poolIdMap, pools, rank);
    RouteNamed(q, GroupOf(q, swap, poolIdMap, pools, side, rank).value);
  }

  // ---------------------------------------------------------------- the flat lists

  /** The number of swaps of the first n groups. */
  function SwapsBefore(groups: seq<Group>, n: nat): nat
    requires n <= |groups|
  {
    if n == 0 then 0 else SwapsBefore(groups, n - 1) + |groups[n - 1].hops|
  }

  lemma {:induction false} SwapsBeforePrefix(groups: seq<Group>, m: nat, n: nat)
    requires n <= m <= |groups|
    ensures SwapsBefore(groups[..m], n) == SwapsBefore(groups, n)
  {
    if n > 0 {
      SwapsBeforePrefix(groups, m, n - 1);
    }
  }

  lemma {:induction false} SwapsLength(groups: seq<Group>, side: SwapSide)
    ensures |Swaps(groups, side)| == SwapsBefore(groups, |groups|)
  {
    if groups != [] {
      var m := |groups| - 1;
      SwapsLength(groups[..m], side);
      SwapsBeforePrefix(groups, m, m);
    }
  }

  lemma InFront(s: seq<BatchSwap>, t: seq<BatchSwap>, i: nat)
    requires i < |s|
    ensures i < |s + t| && (s + t)[i] == s[i]
  {
  }

  lemma Behind(s: seq<BatchSwap>, t: seq<BatchSwap>, i: nat)
    requires i < |t|
    ensures |s| + i < |s + t| && (s + t)[|s| + i] == t[i]
  {
  }

  lemma LastSwap(groups: seq<Group>, side: SwapSide, i: nat)
    requires groups != [] && i < |groups[|groups| - 1].hops|
    ensures var m := |groups| - 1;
            && SwapsBefore(groups, m) + i < |Swaps(groups, side)|
            && Swaps(groups, side)[SwapsBefore(groups, m) + i] == GroupSwaps(groups[m], Offset(groups[..m]), side)[i]
  {
    var m := |groups| - 1;
    SwapsLength(groups[..m], side);
    SwapsBeforePrefix(groups, m, m);
    Behind(Swaps(groups[..m], side), GroupSwaps(groups[m], Offset(groups[..m]), side), i);
  }

  lemma EarlierSwap(groups: seq<Group>, side: SwapSide, at: nat)
    requires groups != [] && at < |Swaps(groups[..|groups| - 1], side)|
    ensures at < |Swaps(groups, side)| && Swaps(groups, side)[at] == Swaps(groups[..|groups| - 1], side)[at]
  {
    var m := |groups| - 1;
    InFront(Swaps(groups[..m], side), GroupSwaps(groups[m], Offset(groups[..m]), side), at);
  }

  /** Hop i of group n stands at its place in the flat list of swaps, before any reversal. */
  lemma {:induction false} SwapAt(groups: seq<Group>, side: SwapSide, n: nat, i: nat)
    requires n < |groups| && i < |groups[n].hops|
    ensures SwapsBefore(groups, n) + i < |Swaps(groups, side)|
    ensures Swaps(groups, side)[SwapsBefore(groups, n) + i] == GroupSwaps(groups[n], Offset(groups[..n]), side)[i]
    decreases |groups|
  {
    var m := |groups| - 1;
    if n == m {
      LastSwap(groups, side, i);
    } else {
      SwapsBeforePrefix(groups, m, n);
      assert groups[..m][..n] == groups[..n];
      SwapAt(groups[..m], side, n, i);
      EarlierSwap(groups, side, SwapsBefore(groups, n) + i);
    }
  }

  /** Every group's tokens stand in the asset list from its offset on. */
  lemma {:induction false} EveryGroupHolds(q: Request, groups: seq<Group>, assets: seq<string>, n: nat)
    requires n < |groups| && Assets(q, groups) <= assets
    ensures Holds(assets, Offset(groups[..n]), GroupAssets(q, groups[n]))
    decreases |groups|
  {
    var m := |groups| - 1;
    LastHolds(q, groups, assets);
    if n < m {
      assert groups[..m][..n] == groups[..n];
      EveryGroupHolds(q, groups[..m], assets, n);
    }
  }

  /** Where the swap at a position of the flat list runs: a purchase runs the list backwards. */
  function Place(side: SwapSide, at: nat, n: nat): nat
    requires at < n
  {
    if side == SELL then at else n - 1 - at
  }

  lemma OrderedPlace(swaps: seq<BatchSwap>, side: SwapSide, at: nat)
    requires at < |swaps|
    ensures |Ordered(swaps, side)| == |swaps| && Ordered(swaps, side)[Place(side, at, |swaps|)] == swaps[at]
  {
  }

  /** The compiled swap of hop i of group n. */
  function CompiledSwap(b: BatchParam, groups: seq<Group>, side: SwapSide, n: nat, i: nat): BatchSwap
    requires n < |groups| && SwapsBefore(groups, n) + i < |b.swaps|
  {
    b.swaps[Place(side, SwapsBefore(groups, n) + i, |b.swaps|)]
  }

  ghost predicate RunsAs(b: BatchParam, groups: seq<Group>, side: SwapSide, n: nat, i: nat, s: BatchSwap) {
    && n < |groups| && |b.swaps| == SwapsBefore(groups, |groups|) && SwapsBefore(groups, n) + i < |b.swaps|
    && CompiledSwap(b, groups, side, n, i) == s
  }

  lemma OrderedRuns(b: BatchParam, swaps: seq<BatchSwap>, groups: seq<Group>, side: SwapSide, n: nat, i: nat)
    requires n < |groups| && b.swaps == Ordered(swaps, side)
    requires |swaps| == SwapsBefore(groups, |groups|) && SwapsBefore(groups, n) + i < |swaps|
    ensures RunsAs(b, groups, side, n, i, swaps[SwapsBefore(groups, n) + i])
  {
    OrderedPlace(swaps, side, SwapsBefore(groups, n) + i);
  }

  lemma CompiledAt(q: Request, groups: seq<Group>, side: SwapSide, n: nat, i: nat)
    requires n < |groups| && i < |groups[n].hops|
    ensures RunsAs(Compile(q, groups, side), groups, side, n, i, GroupSwaps(groups[n], Offset(groups[..n]), side)[i])
  {
    SwapsLength(groups, side);
    SwapAt(groups, side, n, i);
    OrderedRuns(Compile(q, groups, side), Swaps(groups, side), groups, side, n, i);
  }

  /** The two assets of hop i of group n. */
  lemma AssetsAt(q: Request, groups: seq<Group>, n: nat, i: nat)
    requires n < |groups| && i < |groups[n].hops|
    ensures var assets, offset := Assets(q, groups), Offset(groups[..n]);
            && offset + i + 1 < |assets|
            && assets[offset + i] == GroupAssets(q, groups[n])[i]
            && assets[offset + i + 1] == GroupAssets(q, groups[n])[i + 1]
  {
    var assets, tokens, offset := Assets(q, groups), GroupAssets(q, groups[n]), Offset(groups[..n]);
    EveryGroupHolds(q, groups, assets, n);
    HeldAt(assets, offset, tokens, i);
    HeldAt(assets, offset, tokens, i + 1);
  }

  /** The asset a hop is paid in names its token; for the first hop it names the request's source, up to case the same. */
  ghost predicate PaidIn(q: Request, hop: Hop, i: nat, asset: string) {
    if i > 0 then Names(q, asset, hop.tokenIn.address)
    else exists source :: Names(q, asset, source) && Lower(source) == Lower(hop.tokenIn.address) && Means(q, q.srcToken, source)
  }

  lemma RoutePaidIn(q: Request, g: Group, i: nat)
    requires Routes(q, g) && i < |g.hops|
    ensures WithinPool(g.hops[i]) && PaidIn(q, g.hops[i], i, GroupAssets(q, g)[i])
    ensures Names(q, GroupAssets(q, g)[i + 1], g.hops[i].tokenOut.address)
  {
    RouteAssets(q, g);
    AssetNames(q, g.hops[i].tokenOut.address);
    if i == 0 {
      AssetNames(q, q.Src());
    } else {
      AssetNames(q, g.hops[i].tokenIn.address);
    }
  }

  /** Hop i of group n stands in the batch, its two assets from the group's offset on. */
  ghost predicate Stands(q: Request, b: BatchParam, groups: seq<Group>, offset: nat, side: SwapSide, n: nat, i: nat) {
    && n < |groups| && i < |groups[n].hops| && |b.limits| == |b.assets|
    && RunsAs(b, groups, side, n, i, GroupSwaps(groups[n], offset, side)[i])
    && offset + i + 1 < |b.assets|
    && b.assets[offset + i] == GroupAssets(q, groups[n])[i]
    && b.assets[offset + i + 1] == GroupAssets(q, groups[n])[i + 1]
  }

  lemma EveryHopStands(q: Request, groups: seq<Group>, side: SwapSide, n: nat, i: nat)
    requires n < |groups| && i < |groups[n].hops|
    ensures Stands(q, Compile(q, groups, side), groups, Offset(groups[..n]), side, n, i)
  {
    CompiledAt(q, groups, side, n, i);
    AssetsAt(q, groups, n, i);
  }

  /** The swap does the hop: in its pool, between its two tokens, each named by its index. */
  ghost predicate SwapsHop(q: Request, assets: seq<string>, s: BatchSwap, hop: Hop, i: nat) {
    && s.poolId == hop.pool.id && WithinPool(hop)
    && s.assetInIndex < |assets| && s.assetOutIndex < |assets|
    && PaidIn(q, hop, i, assets[s.assetInIndex])
    && Names(q, assets[s.assetOutIndex], hop.tokenOut.address)
  }

  lemma GroupSwapsHop(q: Request, assets: seq<string>, g: Group, offset: nat, side: SwapSide, i: nat)
    requires Routes(q, g) && i < |g.hops| && offset + i + 1 < |assets|
    requires assets[offset + i] == GroupAssets(q, g)[i] && assets[offset + i + 1] == GroupAssets(q, g)[i + 1]
    ensures SwapsHop(q, assets, GroupSwaps(g, offset, side)[i], g.hops[i], i)
  {
    RoutePaidIn(q, g, i);
  }

  /** In a batch with all its limits, hop i of group n has its swap, between its own two assets. */
  ghost predicate Does(q: Request, b: BatchParam, groups: seq<Group>, side: SwapSide, n: nat, i: nat)
    requires n < |groups| && i < |groups[n].hops|
  {
    && |b.limits| == |b.assets|
    && |b.swaps| == SwapsBefore(groups, |groups|) && SwapsBefore(groups, n) + i < |b.swaps|
    && SwapsHop(q, b.assets, CompiledSwap(b, groups, side, n, i), groups[n].hops[i], i)
  }

  lemma StandingDoes(q: Request, b: BatchParam, groups: seq<Group>, offset: nat, side: SwapSide, n: nat, i: nat)
    requires Stands(q, b, groups, offset, side, n, i) && Routes(q, groups[n])
    ensures Does(q, b, groups, side, n, i)
  {
    GroupSwapsHop(q, b.assets, groups[n], offset, side, i);
  }

  /**
   The indexes in the flat batch: for every hop of every routed group, its swap is there with the hop's
   pool, and the assets at its two indexes are the hop's two tokens, renamed, the first one up to case.
   */
  lemma FlatTheorem(q: Request, groups: seq<Group>, side: SwapSide, n: nat, i: nat)
    requires n < |groups| && Routes(q, groups[n]) && i < |groups[n].hops|
    ensures Does(q, Compile(q, groups, side), groups, side, n, i)
  {
    EveryHopStands(q, groups, side, n, i);
    StandingDoes(q, Compile(q, groups, side), groups, Offset(groups[..n]), side, n, i);
  }

  // ---------------------------------------------------------------- what the assets are called

  /** The tokens of all paths, under their own addresses: for each path the source, then what every hop pays out. */
  function Tokens(q: Request, groups: seq<Group>): seq<string> {
    if groups == [] then []
    else
      var n := |groups| - 1;
      Tokens(q, groups[..n]) + PathTokens(q, groups[n])
  }

  function PathTokens(q: Request, g: Group): seq<string> {
    [if Lower(q.srcToken) == ETHER_ADDRESS then q.weth else q.srcToken]
    + seq(|g.hops|, i requires 0 <= i < |g.hops| => g.hops[i].tokenOut.address)
  }

  ghost predicate AllNamed(q: Request, assets: seq<string>, tokens: seq<string>) {
    |assets| == |tokens| && forall k :: 0 <= k < |assets| ==> Names(q, assets[k], tokens[k])
  }

  lemma AllNamedConcat(q: Request, a: seq<string>, t: seq<string>, b: seq<string>, u: seq<string>)
    requires AllNamed(q, a, t) && AllNamed(q, b, u)
    ensures AllNamed(q, a + b, t + u)
  {
  }

  lemma PathNamed(q: Request, g: Group)
    ensures AllNamed(q, GroupAssets(q, g), PathTokens(q, g))
  {
    AssetNames(q, q.Src());
    forall i | 0 <= i < |g.hops| ensures Names(q, q.Asset(g.hops[i].tokenOut.address), g.hops[i].tokenOut.address) {
      AssetNames(q, g.hops[i].tokenOut.address);
    }
  }

  lemma {:induction false} TokensNamed(q: Request, groups: seq<Group>)
    ensures AllNamed(q, Assets(q, groups), Tokens(q, groups))
    decreases |groups|
  {
    if groups != [] {
      var n := |groups| - 1;
      TokensNamed(q, groups[..n]);
      PathNamed(q, groups[n]);
      AllNamedConcat(q, Assets(q, groups[..n]), Tokens(q, groups[..n]), GroupAssets(q, groups[n]), PathTokens(q, groups[n]));
    }
  }

  /** The largest signed number of 256 bits. */
  const LARGEST_SIGNED: int := 0x7fffffffffffffffffffffffffffffffffffffffffffffffffffffffffffffff

  /**
   The asset list of the batch. Without ETH in the request every asset is literally the wrapped source or
   what a hop pays out; with ETH no asset is WETH, the null address stands exactly where WETH was or a token
   is that address itself, and every other asset is its token. Every asset has the highest limit there is.
   */
  lemma AssetsTheorem(q: Request, groups: seq<Group>, side: SwapSide)
    ensures var b, tokens := Compile(q, groups, side), Tokens(q, groups);
            && |b.assets| == |tokens| && |b.limits| == |b.assets|
            && (forall k :: 0 <= k < |b.limits| ==> b.limits[k] == LARGEST_SIGNED)
            && (!AsksForEth(q) ==> b.assets == tokens)
            && (AsksForEth(q) ==> forall k :: 0 <= k < |b.assets| ==>
                 && (b.assets[k] == NULL_ADDRESS <==> Lower(tokens[k]) == Lower(q.weth) || tokens[k] == NULL_ADDRESS)
                 && (Lower(tokens[k]) != Lower(q.weth) ==> b.assets[k] == tokens[k])
                 && (Lower(q.weth) != Lower(NULL_ADDRESS) ==> Lower(b.assets[k]) != Lower(q.weth)))
  {
    TokensNamed(q, groups);
    var b, tokens := Compile(q, groups, side), Tokens(q, groups);
    if AsksForEth(q) {
      forall k | 0 <= k < |b.assets|
        ensures b.assets[k] == NULL_ADDRESS <==> Lower(tokens[k]) == Lower(q.weth) || tokens[k] == NULL_ADDRESS
        ensures Lower(tokens[k]) != Lower(q.weth) ==> b.assets[k] == tokens[k]
        ensures Lower(q.weth) != Lower(NULL_ADDRESS) ==> Lower(b.assets[k]) != Lower(q.weth)
      {
        assert Names(q, b.assets[k], tokens[k]);
      }
    } else {
      forall k | 0 <= k < |b.assets| ensures b.assets[k] == tokens[k] {
        assert Names(q, b.assets[k], tokens[k]);
      }
    }
  }

  // ---------------------------------------------------------------- from the request to the result

  /** The two tokens of the request are different, and neither is the null address that stands for ETH. */
  predicate Apart(q: Request) {
    && Lower(q.Src()) != Lower(q.Dest())
    && Lower(q.Src()) != Lower(NULL_ADDRESS) && Lower(q.Dest()) != Lower(NULL_ADDRESS)
  }

  lemma GroupEndsApart(q: Request, g: Group)
    requires Apart(q) && Routes(q, g)
    ensures GroupAssets(q, g)[|g.hops|] != q.Asset(q.Src())
  {
    var last := g.hops[|g.hops| - 1].tokenOut.address;
    AssetsApart(q, last);
    assert GroupAssets(q, g)[|g.hops|] == q.Asset(last);
  }

  lemma AssetsApart(q: Request, token: string)
    requires Apart(q) && Lower(token) == Lower(q.Dest())
    ensures q.Asset(token) != q.Asset(q.Src())
  {
  }

  ghost predicate Serves(q: Request, swap: PoolSwap, g: Group) {
    Routes(q, g) && g.amount == swap.amount
  }

  ghost predicate AllServe(q: Request, swaps: seq<PoolSwap>, groups: seq<Group>) {
    |groups| == |swaps| && forall i :: 0 <= i < |groups| ==> Serves(q, swaps[i], groups[i])
  }

  lemma ServeOneMore(q: Request, swaps: seq<PoolSwap>, n: nat, groups: seq<Group>, g: Group)
    requires n < |swaps| && AllServe(q, swaps[..n], groups) && Serves(q, swaps[n], g)
    ensures AllServe(q, swaps[..n + 1], groups + [g])
  {
    assert forall i :: 0 <= i < n ==> swaps[..n][i] == swaps[..n + 1][i];
  }

  lemma {:induction false} GroupsServe(q: Request, swaps: seq<PoolSwap>, poolIdMap: PoolsMap, pools: PoolsMap, side: SwapSide,
                                       rank: map<string, nat>, n: nat)
    requires AllCompleted(poolIdMap, pools, rank) && n <= |swaps|
    requires GroupsOf(q, swaps[..n], poolIdMap, pools, side, rank).Success?
    ensures AllServe(q, swaps[..n], GroupsOf(q, swaps[..n], poolIdMap, pools, side, rank).value)
    decreases n
  {
    if n > 0 {
      var m := n - 1;
      assert swaps[..n][..m] == swaps[..m];
      GroupsServe(q, swaps, poolIdMap, pools, side, rank, m);
      GroupTheorem(q, swaps[m], poolIdMap, pools, side, rank);
      ServeOneMore(q, swaps, m, GroupsOf(q, swaps[..m], poolIdMap, pools, side, rank).value,
                   GroupOf(q, swaps[m], poolIdMap, pools, side, rank).value);
    }
  }

  /**
   The whole compilation: a request whose pool swaps can all be unfolded executes, hop by hop along every
   path, exactly when every pool swap has an amount.
   */
  lemma CompilerTheorem(q: Request, swaps: seq<PoolSwap>, poolIdMap: PoolsMap, pools: PoolsMap, side: SwapSide,
                        rank: map<string, nat>, quote: Quote)
    requires AllCompleted(poolIdMap, pools, rank) && GroupsOf(q, swaps, poolIdMap, pools, side, rank).Success? && Apart(q)
    ensures var groups := GroupsOf(q, swaps, poolIdMap, pools, side, rank).value;
            var b := Compile(q, groups, side);
            var r := Execute(b.kind, b.swaps, b.assets, quote, None);
            && (r.Success? <==> forall i :: 0 <= i < |swaps| ==> swaps[i].amount != 0)
            && (r.Success? ==> r.value.amounts == AllAlong(q, groups, side, quote))
  {
    var groups := GroupsOf(q, swaps, poolIdMap, pools, side, rank).value;
    assert swaps[..|swaps|] == swaps;
    GroupsServe(q, swaps, poolIdMap, pools, side, rank, |swaps|);
    forall i | 0 <= i < |groups| ensures groups[i].hops != [] && GroupAssets(q, groups[i])[|groups[i].hops|] != q.Asset(q.Src()) {
      assert Serves(q, swaps[i], groups[i]);
      GroupEndsApart(q, groups[i]);
    }
    ExecutionTheorem(q, groups, side, quote);
    assert forall i :: 0 <= i < |swaps| ==> Serves(q, swaps[i], groups[i]) && groups[i].amount == swaps[i].amount;
  }
}
