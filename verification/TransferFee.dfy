/**
 Fees a token takes on every transfer. Selling takes the fee off once per transfer; buying grosses the
 amount up as often. Despite the floor divisions the two are adjoint.
 */
module TransferFee {
  import opened Truncating
  import opened Wrappers
  import opened Sides

  datatype FeeError = DivisionByZero

  const BPS_MAX_VALUE: nat := 10000

  /** What one transfer does to an amount. */
  function OneTransfer(side: SwapSide, fee: nat, amount: int): int
    requires side.BUY? ==> fee != BPS_MAX_VALUE
  {
    match side
    case SELL => amount - Quot(amount * fee, BPS_MAX_VALUE)
    case BUY => Quot(amount * BPS_MAX_VALUE, BPS_MAX_VALUE - fee)
  }

  function Transfers(side: SwapSide, fee: nat, count: nat, amount: int): int
    requires side.BUY? ==> fee != BPS_MAX_VALUE
  {
    if count == 0 then amount else OneTransfer(side, fee, Transfers(side, fee, count - 1, amount))
  }

  /**
   Applies the fee of every transfer to every amount; nothing to charge leaves the amounts alone, and that
   shortcut is indistinguishable from charging. Grossing up by the whole of an amount divides by zero.
   */
  method ApplyTransferFee(amounts: seq<int>, side: SwapSide, tokenTransferFee: nat, tokenTransfersCount: nat)
    returns (r: Result<seq<int>, FeeError>)
    ensures r.Failure? <==> side.BUY? && tokenTransferFee == BPS_MAX_VALUE && tokenTransfersCount > 0 && amounts != []
    ensures r.Success? ==>
              && |r.value| == |amounts|
              && (side.BUY? && tokenTransferFee == BPS_MAX_VALUE ==> r.value == amounts)
              && (side.SELL? || tokenTransferFee != BPS_MAX_VALUE ==>
                    forall i :: 0 <= i < |amounts| ==>
                      r.value[i] == Transfers(side, tokenTransferFee, tokenTransfersCount, amounts[i]))
  {
    if tokenTransferFee == 0 || tokenTransfersCount == 0 {
      forall i | 0 <= i < |amounts|
        ensures side.SELL? || tokenTransferFee != BPS_MAX_VALUE ==>
                  amounts[i] == Transfers(side, tokenTransferFee, tokenTransfersCount, amounts[i])
      {
        if tokenTransferFee == 0 {
          NoFee(side, tokenTransfersCount, amounts[i]);
        }
      }
      return Success(amounts);
    }
    if side.BUY? && tokenTransferFee == BPS_MAX_VALUE && amounts != [] {
      return Failure(DivisionByZero);
    }
    var charged := [];
    for k := 0 to |amounts|
      invariant |charged| == k
      invariant forall i :: 0 <= i < k ==> charged[i] == Transfers(side, tokenTransferFee, tokenTransfersCount, amounts[i])
    {
      var resultAmount := amounts[k];
      for i := 0 to tokenTransfersCount
        invariant resultAmount == Transfers(side, tokenTransferFee, i, amounts[k])
      {
        if side.SELL? {
          resultAmount := resultAmount - Quot(resultAmount * tokenTransferFee, BPS_MAX_VALUE);
        } else {
          resultAmount := Quot(resultAmount * BPS_MAX_VALUE, BPS_MAX_VALUE - tokenTransferFee);
        }
      }
      charged := charged + [resultAmount];
    }
    r := Success(charged);
  }

  lemma {:induction false} NoFee(side: SwapSide, count: nat, amount: int)
    ensures Transfers(side, 0, count, amount) == amount
  {
    if count > 0 {
      NoFee(side, count - 1, amount);
      assert amount * 0 == 0;
      WholeQuotient(amount);
    }
  }

  lemma WholeQuotient(amount: int)
    ensures Quot(amount * BPS_MAX_VALUE, BPS_MAX_VALUE) == amount
  {
  }

  // ---------------------------------------------------------------- one transfer, there and back

  /** An amount survives selling within r exactly when it is at most r grossed up. */
  lemma OneAdjoint(fee: nat, x: nat, r: nat)
    requires fee < BPS_MAX_VALUE
    ensures OneTransfer(SELL, fee, x) >= 0 && OneTransfer(BUY, fee, r) >= 0
    ensures OneTransfer(SELL, fee, x) <= r <==> x <= OneTransfer(BUY, fee, r)
  {
    MulMono(0, x, fee);
    MulMono(fee, BPS_MAX_VALUE, x);
    FloorBelow(x * fee, BPS_MAX_VALUE, x + 1);
    FloorAtLeast(r * BPS_MAX_VALUE, BPS_MAX_VALUE - fee, 0);
    if x - x * fee / BPS_MAX_VALUE <= r {
      FloorBracket(x * fee, BPS_MAX_VALUE);
      FloorAtLeast(r * BPS_MAX_VALUE, BPS_MAX_VALUE - fee, x);
    } else {
      FloorAtLeastConverse(x * fee, BPS_MAX_VALUE, x - r);
      FloorBelow(r * BPS_MAX_VALUE, BPS_MAX_VALUE - fee, x);
    }
  }

  lemma FloorAtLeastConverse(a: int, b: int, k: int)
    requires b > 0 && a / b < k
    ensures a < k * b
  {
    if k * b <= a {
      FloorAtLeast(a, b, k);
    }
  }

  /** Selling the grossed-up amount of one transfer leaves exactly the amount asked for. */
  lemma OneExact(fee: nat, r: nat)
    requires fee < BPS_MAX_VALUE
    ensures OneTransfer(SELL, fee, OneTransfer(BUY, fee, r)) == r
  {
    OneAdjoint(fee, 0, r);
    var x := OneTransfer(BUY, fee, r);
    OneAdjoint(fee, x, r);
    FloorBracket(r * BPS_MAX_VALUE, BPS_MAX_VALUE - fee);
    MulMono(0, x, fee);
    assert (x - r + 1) * BPS_MAX_VALUE > x * fee;
    FloorBelow(x * fee, BPS_MAX_VALUE, x - r + 1);
  }

  // ---------------------------------------------------------------- any number of transfers

  lemma {:induction false} TransfersNonNegative(side: SwapSide, fee: nat, count: nat, x: nat)
    requires fee < BPS_MAX_VALUE
    ensures Transfers(side, fee, count, x) >= 0
  {
    if count > 0 {
      TransfersNonNegative(side, fee, count - 1, x);
      OneAdjoint(fee, Transfers(side, fee, count - 1, x), Transfers(side, fee, count - 1, x));
    }
  }

  /** The first transfer can be split off instead of the last. */
  lemma {:induction false} FirstTransfer(side: SwapSide, fee: nat, count: nat, x: int)
    requires side.BUY? ==> fee != BPS_MAX_VALUE
    requires count > 0
    ensures Transfers(side, fee, count, x) == Transfers(side, fee, count - 1, OneTransfer(side, fee, x))
  {
    if count > 1 {
      FirstTransfer(side, fee, count - 1, x);
    }
  }

  /**
   The two directions are adjoint for any number of transfers: an amount survives selling within r exactly
   when it is at most r grossed up. So the grossed-up amount is the largest that does.
   */
  lemma {:induction false} AdjointTheorem(fee: nat, count: nat, x: nat, r: nat)
    requires fee < BPS_MAX_VALUE
    ensures Transfers(SELL, fee, count, x) <= r <==> x <= Transfers(BUY, fee, count, r)
  {
    if count > 0 {
      TransfersNonNegative(SELL, fee, count - 1, x);
      OneAdjoint(fee, Transfers(SELL, fee, count - 1, x), r);
      AdjointTheorem(fee, count - 1, x, OneTransfer(BUY, fee, r));
      FirstTransfer(BUY, fee, count, r);
    }
  }

  /** Grossing up and then taking the fees returns exactly the amount asked for. */
  lemma {:induction false} ExactTheorem(fee: nat, count: nat, r: nat)
    requires fee < BPS_MAX_VALUE
    ensures Transfers(SELL, fee, count, Transfers(BUY, fee, count, r)) == r
  {
    if count > 0 {
      TransfersNonNegative(BUY, fee, count - 1, r);
      var grossed := Transfers(BUY, fee, count - 1, r);
      OneExact(fee, grossed);
      FirstTransfer(SELL, fee, count, OneTransfer(BUY, fee, grossed));
      ExactTheorem(fee, count - 1, r);
    }
  }

  /** What one transfer takes: the fee's share of the amount, rounded down; and the amount that leaves r, rounded down. */
  lemma OneTransferTheorem(fee: nat, x: nat)
    requires fee < 10000
    ensures var taken := x - OneTransfer(SELL, fee, x); taken * 10000 <= x * fee < taken * 10000 + 10000
    ensures var grossed := OneTransfer(BUY, fee, x);
            grossed * (10000 - fee) <= x * 10000 < grossed * (10000 - fee) + (10000 - fee)
  {
    MulMono(0, x, fee);
    FloorBracket(x * fee, 10000);
    FloorBracket(x * 10000, 10000 - fee);
  }
}
