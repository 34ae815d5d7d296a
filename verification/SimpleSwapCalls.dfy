/**
 The calls of a simple swap: how much each exchange may take, what has to be wrapped before and unwrapped
 after, and all calls in one list with the wrapping first and the unwrapping last.
 */
module SimpleSwapCalls {
  import opened Wrappers
  import opened Sides
  import opened Truncating

  datatype CallError = DivisionByZero | WrapSrcNotFirst | WrapDestNotLast

  datatype Exchange = Exchange(srcAmount: nat, destAmount: nat, needWrapNative: bool, isZerox: bool)

  datatype Swap = Swap(srcIsEth: bool, destIsEth: bool, exchanges: seq<Exchange>)

  datatype Route = Route(side: SwapSide, srcAmount: nat, minMaxAmount: nat, swaps: seq<Swap>)

  /** What the builder of an exchange is asked for, and how much of it is wrapped or unwrapped. */
  datatype Order = Order(srcAmount: int, destAmount: int, wethDeposit: int, wethWithdraw: int)

  // ---------------------------------------------------------------- one order

  /** A purchase spreads the most it may spend over the exchanges of its first hop, in proportion. */
  function SourceAmount(r: Route, swapIndex: nat, e: Exchange): Result<int, CallError> {
    if swapIndex > 0 || r.side.SELL? || e.isZerox then Success(e.srcAmount)
    else if r.srcAmount == 0 then Failure(DivisionByZero)
    else Success(Quot(e.srcAmount * r.minMaxAmount, r.srcAmount))
  }

  function OrderOf(r: Route, swapIndex: nat, s: Swap, e: Exchange): Result<Order, CallError> {
    var src :- SourceAmount(r, swapIndex, e);
    var dest := if r.side.SELL? then 1 else e.destAmount;
    var wrapSrc, wrapDest := e.needWrapNative && s.srcIsEth, e.needWrapNative && s.destIsEth;
    if wrapSrc && swapIndex != 0 then Failure(WrapSrcNotFirst)
    else if wrapDest && swapIndex != |r.swaps| - 1 then Failure(WrapDestNotLast)
    else Success(Order(src, dest, if wrapSrc then src else 0, if wrapDest then dest else 0))
  }

  function SwapOrders(r: Route, swapIndex: nat, s: Swap, n: nat): Result<seq<Order>, CallError>
    requires n <= |s.exchanges|
  {
    if n == 0 then Success([])
    else
      var orders :- SwapOrders(r, swapIndex, s, n - 1);
      var order :- OrderOf(r, swapIndex, s, s.exchanges[n - 1]);
      Success(orders + [order])
  }

  /** The orders of the first m hops, hop by hop. */
  function RouteOrders(r: Route, m: nat): Result<seq<Order>, CallError>
    requires m <= |r.swaps|
  {
    if m == 0 then Success([])
    else
      var orders :- RouteOrders(r, m - 1);
      var more :- SwapOrders(r, m - 1, r.swaps[m - 1], |r.swaps[m - 1].exchanges|);
      Success(orders + more)
  }

  // ---------------------------------------------------------------- how much a purchase spends

  function SrcTotal(orders: seq<Order>): int {
    if orders == [] then 0 else SrcTotal(orders[..|orders| - 1]) + orders[|orders| - 1].srcAmount
  }

  function DepositTotal(orders: seq<Order>): int {
    if orders == [] then 0 else DepositTotal(orders[..|orders| - 1]) + orders[|orders| - 1].wethDeposit
  }

  function ExchangeTotal(exchanges: seq<Exchange>, n: nat): nat
    requires n <= |exchanges|
  {
    if n == 0 then 0 else ExchangeTotal(exchanges, n - 1) + exchanges[n - 1].srcAmount
  }

  /** One scaled amount, times the route's total, lies less than that total below the exact product. */
  lemma ScaledShare(amount: nat, minMax: nat, total: nat)
    requires total > 0
    ensures var q := Quot(amount * minMax, total);
            0 <= q && q * total <= amount * minMax < q * total + total
  {
    MulMono(0, amount, minMax);
    FloorBracket(amount * minMax, total);
    FloorAtLeast(amount * minMax, total, 0);
  }

  /** The exact share of the first n exchanges, times the route's total: an exception keeps its own amount. */
  function ExactShare(r: Route, s: Swap, n: nat): int
    requires n <= |s.exchanges|
  {
    if n == 0 then 0
    else
      var e := s.exchanges[n - 1];
      ExactShare(r, s, n - 1) + e.srcAmount * (if e.isZerox then r.srcAmount else r.minMaxAmount)
  }

  lemma {:induction false} NoExceptions(r: Route, s: Swap, n: nat)
    requires n <= |s.exchanges| && forall i :: 0 <= i < |s.exchanges| ==> !s.exchanges[i].isZerox
    ensures ExactShare(r, s, n) == ExchangeTotal(s.exchanges, n) * r.minMaxAmount
  {
    if n > 0 {
      NoExceptions(r, s, n - 1);
      var done, amount := ExchangeTotal(s.exchanges, n - 1), s.exchanges[n - 1].srcAmount;
      assert (done + amount) * r.minMaxAmount == done * r.minMaxAmount + amount * r.minMaxAmount;
    }
  }

  /** A sum of n shares, scaled, against the exact one: never above it, and less than n units below. */
  ghost predicate Spends(sum: int, exact: int, n: nat, total: nat) {
    sum * total <= exact && (if n == 0 then exact == sum * total else exact < sum * total + n * total)
  }

  /** The amounts of the first n exchanges of a purchase's first hop together, and what they wrap. */
  lemma {:induction false} SharesBelow(r: Route, s: Swap, n: nat)
    requires r.side.BUY? && n <= |s.exchanges| && r.srcAmount > 0 && SwapOrders(r, 0, s, n).Success?
    ensures Spends(SrcTotal(SwapOrders(r, 0, s, n).value), ExactShare(r, s, n), n, r.srcAmount)
    ensures 0 <= DepositTotal(SwapOrders(r, 0, s, n).value) <= SrcTotal(SwapOrders(r, 0, s, n).value)
  {
    if n > 0 {
      SharesBelow(r, s, n - 1);
      var orders, e := SwapOrders(r, 0, s, n - 1).value, s.exchanges[n - 1];
      var order := OrderOf(r, 0, s, e).value;
      assert (orders + [order])[..|orders|] == orders;
      ScaledShare(e.srcAmount, r.minMaxAmount, r.srcAmount);
      AddShare(SrcTotal(orders), order.srcAmount, ExactShare(r, s, n - 1),
               e.srcAmount * (if e.isZerox then r.srcAmount else r.minMaxAmount), n, r.srcAmount);
    }
  }

  lemma AddShare(sum: int, q: int, exact: int, more: int, n: nat, total: nat)
    requires n > 0 && Spends(sum, exact, n - 1, total) && q * total <= more < q * total + total
    ensures Spends(sum + q, exact + more, n, total)
  {
    assert (sum + q) * total == sum * total + q * total;
    assert n * total == (n - 1) * total + total;
  }

  lemma {:induction false} DepositConcat(s: seq<Order>, t: seq<Order>)
    ensures DepositTotal(s + t) == DepositTotal(s) + DepositTotal(t)
    decreases |t|
  {
    if t == [] {
      assert s + t == s;
    } else {
      DepositConcat(s, t[..|t| - 1]);
      assert (s + t)[..|s + t| - 1] == s + t[..|t| - 1];
    }
  }

  /** Only the first hop may wrap. */
  lemma {:induction false} LaterHopsWrapNothing(r: Route, swapIndex: nat, s: Swap, n: nat)
    requires swapIndex > 0 && n <= |s.exchanges| && SwapOrders(r, swapIndex, s, n).Success?
    ensures DepositTotal(SwapOrders(r, swapIndex, s, n).value) == 0
  {
    if n > 0 {
      LaterHopsWrapNothing(r, swapIndex, s, n - 1);
      var orders := SwapOrders(r, swapIndex, s, n - 1).value;
      var order := OrderOf(r, swapIndex, s, s.exchanges[n - 1]).value;
      assert (orders + [order])[..|orders|] == orders;
    }
  }

  lemma {:induction false} RouteDeposits(r: Route, m: nat)
    requires 0 < m <= |r.swaps| && RouteOrders(r, m).Success?
    ensures var first := SwapOrders(r, 0, r.swaps[0], |r.swaps[0].exchanges|);
            first.Success? && DepositTotal(RouteOrders(r, m).value) == DepositTotal(first.value)
  {
    var n := m - 1;
    var s := r.swaps[n];
    var last := SwapOrders(r, n, s, |s.exchanges|).value;
    DepositConcat(RouteOrders(r, n).value, last);
    if n > 0 {
      RouteDeposits(r, n);
      LaterHopsWrapNothing(r, n, s, |s.exchanges|);
    }
  }

  /**
   A purchase along any number of hops: its first hop spends its exact share, less than one unit an
   exchange short, and all that is wrapped is part of that. Where the first hop's exchanges add up to the
   route's amount and none keeps its unscaled amount, the share is the most the purchase may spend.
   */
  lemma SpendingTheorem(r: Route)
    requires r.side.BUY? && r.srcAmount > 0 && r.swaps != [] && RouteOrders(r, |r.swaps|).Success?
    ensures SwapOrders(r, 0, r.swaps[0], |r.swaps[0].exchanges|).Success?
    ensures var s := r.swaps[0];
            var n := |s.exchanges|;
            var spent, wrapped := SrcTotal(SwapOrders(r, 0, s, n).value), DepositTotal(RouteOrders(r, |r.swaps|).value);
            && Spends(spent, ExactShare(r, s, n), n, r.srcAmount) && 0 <= wrapped <= spent
            && (n > 0 && ExchangeTotal(s.exchanges, n) == r.srcAmount
                && (forall i :: 0 <= i < n ==> !s.exchanges[i].isZerox) ==>
                  r.minMaxAmount - n < spent <= r.minMaxAmount)
  {
    var s := r.swaps[0];
    var n := |s.exchanges|;
    RouteDeposits(r, |r.swaps|);
    SharesBelow(r, s, n);
    if n > 0 && ExchangeTotal(s.exchanges, n) == r.srcAmount && forall i :: 0 <= i < n ==> !s.exchanges[i].isZerox {
      NoExceptions(r, s, n);
      Divide(SrcTotal(SwapOrders(r, 0, s, n).value), r.minMaxAmount, r.srcAmount, n);
    }
  }

  /** A route of one hop always has its orders. */
  lemma DirectSucceeds(r: Route)
    requires |r.swaps| == 1 && r.srcAmount > 0
    ensures RouteOrders(r, 1).Success?
  {
    OneHopSucceeds(r, r.swaps[0], |r.swaps[0].exchanges|);
    assert RouteOrders(r, 0) == Success([]);
  }

  lemma {:induction false} OneHopSucceeds(r: Route, s: Swap, n: nat)
    requires |r.swaps| == 1 && n <= |s.exchanges| && r.srcAmount > 0
    ensures SwapOrders(r, 0, s, n).Success?
  {
    if n > 0 {
      OneHopSucceeds(r, s, n - 1);
    }
  }

  lemma Divide(sum: int, minMax: nat, total: nat, n: nat)
    requires total > 0 && sum * total <= total * minMax < sum * total + n * total
    ensures minMax - n < sum <= minMax
  {
    CancelRight(sum, minMax, total);
    if minMax - n >= sum {
      MulMono(sum + n, minMax, total);
    }
  }

  // ---------------------------------------------------------------- all calls in one list

  datatype SimpleParam = SimpleParam(callees: seq<string>, values: seq<nat>, calldata: seq<string>, networkFee: int)

  datatype WrapCall = WrapCall(callee: string, value: nat, calldata: string)

  predicate Aligned(p: SimpleParam) {
    |p.callees| == |p.values| == |p.calldata|
  }

  function Join(p: SimpleParam, q: SimpleParam): SimpleParam {
    SimpleParam(p.callees + q.callees, p.values + q.values, p.calldata + q.calldata, p.networkFee + q.networkFee)
  }

  function JoinAll(params: seq<SimpleParam>): SimpleParam {
    if params == [] then SimpleParam([], [], [], 0)
    else Join(JoinAll(params[..|params| - 1]), params[|params| - 1])
  }

  function Single(w: Option<WrapCall>): SimpleParam {
    match w
    case None => SimpleParam([], [], [], 0)
    case Some(c) => SimpleParam([c.callee], [c.value], [c.calldata], 0)
  }

  /** Collects the calls of all exchanges and puts the wrapping first and the unwrapping last. */
  method FlattenCalls(params: seq<SimpleParam>, deposit: Option<WrapCall>, withdraw: Option<WrapCall>)
    returns (flat: SimpleParam)
    ensures flat == Join(Join(Single(deposit), JoinAll(params)), Single(withdraw))
  {
    flat := SimpleParam([], [], [], 0);
    for i := 0 to |params|
      invariant flat == JoinAll(params[..i])
    {
      assert params[..i + 1][..i] == params[..i];
      flat := Join(flat, params[i]);
    }
    assert params[..|params|] == params;
    if deposit.Some? {
      flat := flat.(callees := [deposit.value.callee] + flat.callees, values := [deposit.value.value] + flat.values,
                    calldata := [deposit.value.calldata] + flat.calldata);
    }
    DepositFirst(deposit, JoinAll(params));
    WithdrawLast(flat, withdraw);
    if withdraw.Some? {
      flat := flat.(callees := flat.callees + [withdraw.value.callee], values := flat.values + [withdraw.value.value],
                    calldata := flat.calldata + [withdraw.value.calldata]);
    }
  }

  lemma DepositFirst(w: Option<WrapCall>, p: SimpleParam)
    ensures w.None? ==> Join(Single(w), p) == p
    ensures w.Some? ==> Join(Single(w), p) == p.(callees := [w.value.callee] + p.callees, values := [w.value.value] + p.values,
                                                 calldata := [w.value.calldata] + p.calldata)
  {
  }

  lemma WithdrawLast(p: SimpleParam, w: Option<WrapCall>)
    ensures w.None? ==> Join(p, Single(w)) == p
    ensures w.Some? ==> Join(p, Single(w)) == p.(callees := p.callees + [w.value.callee], values := p.values + [w.value.value],
                                                 calldata := p.calldata + [w.value.calldata])
  {
  }

  /** Position k of the three lists always belongs to the same call, so callee, value and data stay together. */
  lemma {:induction false} AlignedTheorem(params: seq<SimpleParam>, deposit: Option<WrapCall>, withdraw: Option<WrapCall>, j: nat, k: nat)
    requires forall i :: 0 <= i < |params| ==> Aligned(params[i])
    requires j < |params| && Aligned(params[j]) && k < |params[j].callees|
    ensures var flat, at := Join(Join(Single(deposit), JoinAll(params)), Single(withdraw)),
                            |Single(deposit).callees| + CallsBefore(params, j) + k;
            && Aligned(flat) && at < |flat.callees|
            && flat.callees[at] == params[j].callees[k]
            && flat.values[at] == params[j].values[k]
            && flat.calldata[at] == params[j].calldata[k]
  {
    JoinPosition(params, j, k);
  }

  function CallsBefore(params: seq<SimpleParam>, j: nat): nat
    requires j <= |params|
  {
    if j == 0 then 0 else CallsBefore(params, j - 1) + |params[j - 1].callees|
  }

  lemma {:induction false} JoinAligned(params: seq<SimpleParam>)
    requires forall i :: 0 <= i < |params| ==> Aligned(params[i])
    ensures Aligned(JoinAll(params)) && |JoinAll(params).callees| == CallsBefore(params, |params|)
  {
    if params != [] {
      var last := |params| - 1;
      JoinAligned(params[..last]);
      CallsBeforePrefix(params, last, last);
    }
  }

  lemma {:induction false} CallsBeforePrefix(params: seq<SimpleParam>, n: nat, j: nat)
    requires j <= n <= |params|
    ensures CallsBefore(params[..n], j) == CallsBefore(params, j)
  {
    if j > 0 {
      CallsBeforePrefix(params, n, j - 1);
    }
  }

  lemma {:induction false} JoinPosition(params: seq<SimpleParam>, j: nat, k: nat)
    requires forall i :: 0 <= i < |params| ==> Aligned(params[i])
    requires j < |params| && Aligned(params[j]) && k < |params[j].callees|
    ensures var flat, at := JoinAll(params), CallsBefore(params, j) + k;
            && Aligned(flat) && at < |flat.callees|
            && flat.callees[at] == params[j].callees[k]
            && flat.values[at] == params[j].values[k]
            && flat.calldata[at] == params[j].calldata[k]
  {
    var last := |params| - 1;
    JoinAligned(params[..last]);
    CallsBeforePrefix(params, last, last);
    if j < last {
      JoinPosition(params[..last], j, k);
      CallsBeforePrefix(params, last, j);
    }
  }

  // ---------------------------------------------------------------- what every builder is asked for

  /** The number of exchanges of the first m hops. */
  function OrdersBefore(r: Route, m: nat): nat
    requires m <= |r.swaps|
  {
    if m == 0 then 0 else OrdersBefore(r, m - 1) + |r.swaps[m - 1].exchanges|
  }

  /**
   The order of one exchange. A sale, a later hop and an exception take the exchange's own amount, a purchase
   its share of the most that may be spent, rounded down. A sale asks for at least one unit, a purchase for
   the exchange's own amount. What is wrapped or unwrapped is all of it, and only where the builder wants
   wrapped tokens and the hop has the native one.
   */
  ghost predicate Asks(r: Route, m: nat, s: Swap, e: Exchange, o: Order) {
    && (if r.side == SELL || m > 0 || e.isZerox then o.srcAmount == e.srcAmount
        else o.srcAmount * r.srcAmount <= e.srcAmount * r.minMaxAmount < o.srcAmount * r.srcAmount + r.srcAmount)
    && o.destAmount == (if r.side == SELL then 1 else e.destAmount)
    && o.wethDeposit == (if e.needWrapNative && s.srcIsEth then o.srcAmount else 0)
    && o.wethWithdraw == (if e.needWrapNative && s.destIsEth then o.destAmount else 0)
  }

  lemma OrderAsks(r: Route, m: nat, s: Swap, e: Exchange)
    requires OrderOf(r, m, s, e).Success?
    ensures Asks(r, m, s, e, OrderOf(r, m, s, e).value)
  {
    if !(r.side == SELL || m > 0 || e.isZerox) {
      ScaledShare(e.srcAmount, r.minMaxAmount, r.srcAmount);
    }
  }

  lemma {:induction false} SwapAsks(r: Route, m: nat, s: Swap, n: nat)
    requires n <= |s.exchanges| && SwapOrders(r, m, s, n).Success?
    ensures |SwapOrders(r, m, s, n).value| == n
    ensures forall i :: 0 <= i < n ==> Asks(r, m, s, s.exchanges[i], SwapOrders(r, m, s, n).value[i])
  {
    if n > 0 {
      SwapAsks(r, m, s, n - 1);
      OrderAsks(r, m, s, s.exchanges[n - 1]);
    }
  }

  /** The orders of a route, hop by hop and exchange by exchange: each asks for what its exchange should. */
  lemma {:induction false} OrdersTheorem(r: Route, n: nat, m: nat, i: nat)
    requires n <= |r.swaps| && RouteOrders(r, n).Success? && m < n && i < |r.swaps[m].exchanges|
    ensures |RouteOrders(r, n).value| == OrdersBefore(r, n) && OrdersBefore(r, m) + i < OrdersBefore(r, n)
    ensures Asks(r, m, r.swaps[m], r.swaps[m].exchanges[i], RouteOrders(r, n).value[OrdersBefore(r, m) + i])
  {
    var last := n - 1;
    OrdersCounted(r, last);
    SwapAsks(r, last, r.swaps[last], |r.swaps[last].exchanges|);
    if m < last {
      OrdersTheorem(r, last, m, i);
    }
  }

  lemma {:induction false} OrdersCounted(r: Route, n: nat)
    requires n <= |r.swaps| && RouteOrders(r, n).Success?
    ensures |RouteOrders(r, n).value| == OrdersBefore(r, n)
  {
    if n > 0 {
      OrdersCounted(r, n - 1);
      SwapAsks(r, n - 1, r.swaps[n - 1], |r.swaps[n - 1].exchanges|);
    }
  }

  /** An exchange that cannot be asked: native tokens wrapped in the middle of a route, or a share of nothing. */
  predicate Misplaced(r: Route, m: nat, s: Swap, e: Exchange) {
    || (e.needWrapNative && s.srcIsEth && m > 0)
    || (e.needWrapNative && s.destIsEth && m + 1 != |r.swaps|)
    || (r.side == BUY && m == 0 && !e.isZerox && r.srcAmount == 0)
  }

  lemma {:induction false} SwapFails(r: Route, m: nat, s: Swap, n: nat)
    requires n <= |s.exchanges|
    ensures SwapOrders(r, m, s, n).Failure? <==> exists i :: 0 <= i < n && Misplaced(r, m, s, s.exchanges[i])
  {
    if n > 0 {
      SwapFails(r, m, s, n - 1);
    }
  }

  ghost predicate HopMisplaced(r: Route, m: nat)
    requires m < |r.swaps|
  {
    exists i :: 0 <= i < |r.swaps[m].exchanges| && Misplaced(r, m, r.swaps[m], r.swaps[m].exchanges[i])
  }

  /** A route fails exactly when one of its exchanges cannot be asked. */
  lemma {:induction false} FailureTheorem(r: Route, n: nat)
    requires n <= |r.swaps|
    ensures RouteOrders(r, n).Failure? <==> exists m :: 0 <= m < n && HopMisplaced(r, m)
  {
    if n > 0 {
      FailureTheorem(r, n - 1);
      SwapFails(r, n - 1, r.swaps[n - 1], |r.swaps[n - 1].exchanges|);
      assert HopMisplaced(r, n - 1) <==> SwapOrders(r, n - 1, r.swaps[n - 1], |r.swaps[n - 1].exchanges|).Failure?;
    }
  }
}
