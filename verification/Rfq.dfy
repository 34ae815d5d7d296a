/**
 Filling an order book for a list of amounts: one cursor moves through the book for all of them, and gives
 what filling each amount from the first order would give. Quantities and prices are exact decimals.
 */
module Rfq {
  import opened RealErrors
  import opened Rounding
  import opened Wrappers

  /** A price and the amount offered at it. */
  datatype Order = Order(price: real, size: real)

  function RoundedAll(filled: seq<real>, outMultiplier: real): (r: seq<int>)
    ensures |r| == |filled|
  {
    seq(|filled|, i requires 0 <= i < |filled| => Rounded(Times(filled[i], outMultiplier)))
  }


  // ---------------------------------------------------------------- what a fill is worth

  predicate LawfulBook(book: seq<Order>) {
    forall j :: 0 <= j < |book| ==> book[j].size >= 0.0
  }

  predicate LawfulPrices(book: seq<Order>) {
    forall j :: 0 <= j < |book| ==> book[j].price >= 0.0
  }

  predicate Ascending(amounts: seq<real>) {
    && (forall i :: 0 <= i < |amounts| ==> amounts[i] >= 0.0)
    && (forall i, j :: 0 <= i < j < |amounts| ==> amounts[i] <= amounts[j])
  }

  /** The amount offered by the first n orders together. */
  function Depth(book: seq<Order>, n: nat): real
    requires n <= |book|
  {
    if n == 0 then 0.0 else Depth(book, n - 1) + book[n - 1].size
  }

  function Clamp(x: real, limit: real): real {
    if x < 0.0 then 0.0 else if x > limit then limit else x
  }

  /** What the first n orders give for an amount: each takes what lies between its own depth marks. */
  function Filled(book: seq<Order>, n: nat, amount: real): real
    requires n <= |book|
  {
    if n == 0 then 0.0
    else Filled(book, n - 1, amount) + Times(Clamp(amount - Depth(book, n - 1), book[n - 1].size), book[n - 1].price)
  }

  /** The value of an amount, zero when the book is too shallow for it. */
  function Value(book: seq<Order>, amount: real): real {
    if amount <= Depth(book, |book|) then Filled(book, |book|, amount) else 0.0
  }

  function Values(book: seq<Order>, amounts: seq<real>): (r: seq<real>)
    ensures |r| == |amounts|
  {
    seq(|amounts|, i requires 0 <= i < |amounts| => Value(book, amounts[i]))
  }

  /** Filling one amount alone, order by order from the k-th. */
  function FillFrom(book: seq<Order>, k: nat, left: real): Option<real>
    requires k <= |book|
    decreases |book| - k
  {
    if k == |book| then (if left == 0.0 then Some(0.0) else None)
    else if left > book[k].size then
      match FillFrom(book, k + 1, left - book[k].size)
      case None => None
      case Some(rest) => Some(Times(book[k].size, book[k].price) + rest)
    else Some(Times(left, book[k].price))
  }

  lemma {:induction false} DepthGrows(book: seq<Order>, m: nat, n: nat)
    requires LawfulBook(book) && m <= n <= |book|
    ensures 0.0 <= Depth(book, m) <= Depth(book, n)
  {
    if m < n {
      DepthGrows(book, m, n - 1);
    } else if n > 0 {
      DepthGrows(book, n - 1, n - 1);
    }
  }

  /** Orders past the amount add nothing. */
  lemma {:induction false} RestUntouched(book: seq<Order>, k: nat, n: nat, amount: real)
    requires LawfulBook(book) && k <= n <= |book| && amount <= Depth(book, k)
    ensures Filled(book, n, amount) == Filled(book, k, amount)
  {
    if k < n {
      RestUntouched(book, k, n - 1, amount);
      DepthGrows(book, k, n - 1);
    }
  }

  /** Orders passed by the amount give everything they have, whatever the amount. */
  lemma {:induction false} PassedInFull(book: seq<Order>, k: nat, amount: real, amount': real)
    requires LawfulBook(book) && k <= |book| && amount >= Depth(book, k) && amount' >= Depth(book, k)
    ensures Filled(book, k, amount) == Filled(book, k, amount')
  {
    if k > 0 {
      DepthGrows(book, k - 1, k);
      PassedInFull(book, k - 1, amount, amount');
    }
  }

  /** The fill of an amount that ends inside order k. */
  lemma EndsInside(book: seq<Order>, k: nat, amount: real)
    requires LawfulBook(book) && k < |book| && Depth(book, k) <= amount <= Depth(book, k + 1)
    ensures Value(book, amount) == Filled(book, k, Depth(book, k)) + Times(amount - Depth(book, k), book[k].price)
  {
    DepthGrows(book, k + 1, |book|);
    RestUntouched(book, k + 1, |book|, amount);
    PassedInFull(book, k, amount, Depth(book, k));
  }

  /** Passing order k in full. */
  lemma PassOrder(book: seq<Order>, k: nat)
    requires LawfulBook(book) && k < |book|
    ensures Filled(book, k + 1, Depth(book, k + 1)) == Filled(book, k, Depth(book, k)) + Times(book[k].size, book[k].price)
  {
    DepthGrows(book, k, k + 1);
    PassedInFull(book, k, Depth(book, k + 1), Depth(book, k));
  }

  lemma ZeroValue(book: seq<Order>)
    requires LawfulBook(book)
    ensures Value(book, 0.0) == 0.0
  {
    RestUntouched(book, 0, |book|, 0.0);
  }

  /** Walking from order k with what is left of the amount finds the same value, or finds it unfillable. */
  lemma {:induction false} WalkFinds(book: seq<Order>, k: nat, amount: real)
    requires LawfulBook(book) && k <= |book| && amount >= Depth(book, k)
    ensures FillFrom(book, k, amount - Depth(book, k))
         == if amount <= Depth(book, |book|) then Some(Value(book, amount) - Filled(book, k, Depth(book, k))) else None
    decreases |book| - k
  {
    if k == |book| {
    } else if amount - Depth(book, k) > book[k].size {
      PassOrder(book, k);
      WalkFinds(book, k + 1, amount);
      assert amount - Depth(book, k) - book[k].size == amount - Depth(book, k + 1);
    } else {
      DepthGrows(book, k + 1, |book|);
      EndsInside(book, k, amount);
      assert Value(book, amount) - Filled(book, k, Depth(book, k)) == Times(amount - Depth(book, k), book[k].price);
    }
  }

  /** Filling one amount from scratch succeeds exactly within the book's depth, and gives its value. */
  lemma ScratchTheorem(book: seq<Order>, amount: real)
    requires LawfulBook(book) && amount >= 0.0
    ensures FillFrom(book, 0, amount) == if amount <= Depth(book, |book|) then Some(Value(book, amount)) else None
  {
    WalkFinds(book, 0, amount);
    assert amount - Depth(book, 0) == amount;
  }

  // ---------------------------------------------------------------- more in, more out

  lemma {:induction false} FilledGrows(book: seq<Order>, n: nat, a: real, b: real)
    requires LawfulBook(book) && LawfulPrices(book) && n <= |book| && a <= b
    ensures Filled(book, n, a) <= Filled(book, n, b)
  {
    if n > 0 {
      FilledGrows(book, n - 1, a, b);
      ClampGrows(a - Depth(book, n - 1), b - Depth(book, n - 1), book[n - 1].size, book[n - 1].price);
    }
  }

  lemma ClampGrows(x: real, y: real, limit: real, price: real)
    requires x <= y && limit >= 0.0 && price >= 0.0
    ensures Times(Clamp(x, limit), price) <= Times(Clamp(y, limit), price)
  {
    TimesMono(Clamp(x, limit), Clamp(y, limit), price);
  }

  /** A bigger amount never gives less while the book can fill it, also after scaling and rounding. */
  lemma MonotoneTheorem(book: seq<Order>, a: real, b: real, outMultiplier: real)
    requires LawfulBook(book) && LawfulPrices(book) && a <= b <= Depth(book, |book|) && outMultiplier >= 0.0
    ensures Value(book, a) <= Value(book, b)
    ensures Rounded(Times(Value(book, a), outMultiplier)) <= Rounded(Times(Value(book, b), outMultiplier))
  {
    FilledGrows(book, |book|, a, b);
    TimesMono(Value(book, a), Value(book, b), outMultiplier);
    RoundedMono(Times(Value(book, a), outMultiplier), Times(Value(book, b), outMultiplier));
  }

  // ---------------------------------------------------------------- the shared cursor

  /** The cursor stands at order k, with everything before it passed in full. */
  ghost predicate CursorAt(book: seq<Order>, k: nat, src: real, dest: real) {
    k <= |book| && src == Depth(book, k) && dest == Filled(book, k, Depth(book, k))
  }

  /** The inner loop: moves the cursor until the amount ends inside an order or the book ends. */
  method Advance(book: seq<Order>, k: nat, src: real, dest: real, amount: real)
    returns (k': nat, src': real, dest': real, left: real, filled: real)
    requires k <= |book|
    ensures k' <= |book|
    ensures LawfulBook(book) && CursorAt(book, k, src, dest) && src <= amount ==>
              && CursorAt(book, k', src', dest') && src' <= amount
              && (left == 0.0 <==> amount <= Depth(book, |book|))
              && (left == 0.0 ==> filled == Value(book, amount))
  {
    ghost var lawful := LawfulBook(book) && CursorAt(book, k, src, dest) && src <= amount;
    k', src', dest' := k, src, dest;
    left, filled := amount - src, dest;
    while k' < |book|
      invariant k' <= |book|
      invariant lawful ==> CursorAt(book, k', src', dest') && src' <= amount && left == amount - src' && filled == dest'
    {
      var order := book[k'];
      if left > order.size {
        if lawful {
          PassOrder(book, k');
        }
        left := left - order.size;
        filled := filled + Times(order.size, order.price);
        src' := src' + order.size;
        dest' := dest' + Times(order.size, order.price);
        k' := k' + 1;
      } else {
        if lawful {
          EndsInside(book, k', amount);
          DepthGrows(book, k' + 1, |book|);
        }
        filled := filled + Times(left, order.price);
        left := 0.0;
        return;
      }
    }
  }

  /**
   The outputs for a list of amounts. When sizes are non-negative and amounts ascend, every output is the
   rounded value of its own amount, whatever the amounts before it.
   */
  method CalcOutsFromAmounts(amounts: seq<real>, outMultiplier: real, book: seq<Order>) returns (outs: seq<int>)
    ensures |outs| == |amounts|
    ensures LawfulBook(book) && Ascending(amounts) ==> outs == RoundedAll(Values(book, amounts), outMultiplier)
  {
    ghost var lawful := LawfulBook(book) && Ascending(amounts);
    var lastOrderIndex: nat, lastTotalSrcAmount, lastTotalDestAmount := 0, 0.0, 0.0;
    var outputs := new real[|amounts|](_ => 0.0);
    for i := 0 to |amounts|
      invariant lastOrderIndex <= |book|
      invariant lawful ==> CursorAt(book, lastOrderIndex, lastTotalSrcAmount, lastTotalDestAmount)
      invariant lawful && i < |amounts| ==> lastTotalSrcAmount <= amounts[i]
      invariant lawful ==> forall j :: 0 <= j < i ==> outputs[j] == Value(book, amounts[j])
      invariant forall j :: i <= j < |amounts| ==> outputs[j] == 0.0
    {
      if amounts[i] == 0.0 {
        if lawful {
          ZeroValue(book);
        }
        outputs[i] := 0.0;
      } else {
        var left, filled;
        lastOrderIndex, lastTotalSrcAmount, lastTotalDestAmount, left, filled :=
          Advance(book, lastOrderIndex, lastTotalSrcAmount, lastTotalDestAmount, amounts[i]);
        if left == 0.0 {
          outputs[i] := filled;
        } else {
          break;
        }
      }
    }
    if lawful {
      assert outputs[..] == Values(book, amounts);
    }
    outs := RoundedAll(outputs[..], outMultiplier);
  }

  /** Zeroes start exactly at the first amount beyond the total depth: before it, every amount is filled. */
  lemma UnfilledTheorem(book: seq<Order>, amounts: seq<real>, outMultiplier: real, i: nat)
    requires LawfulBook(book) && Ascending(amounts) && i < |amounts|
    ensures var outs := RoundedAll(Values(book, amounts), outMultiplier);
            if FillFrom(book, 0, amounts[i]).None? then forall j :: i <= j < |amounts| ==> outs[j] == 0
            else forall j :: 0 <= j <= i ==> FillFrom(book, 0, amounts[j]) == Some(Values(book, amounts)[j])
  {
    var outs := RoundedAll(Values(book, amounts), outMultiplier);
    ScratchTheorem(book, amounts[i]);
    if FillFrom(book, 0, amounts[i]).None? {
      forall j | i <= j < |amounts| ensures outs[j] == 0 {
        assert amounts[i] <= amounts[j];
        assert outs[j] == Rounded(Times(Value(book, amounts[j]), outMultiplier));
      }
    } else {
      forall j | 0 <= j <= i ensures FillFrom(book, 0, amounts[j]) == Some(Values(book, amounts)[j]) {
        assert amounts[j] <= amounts[i];
        ScratchTheorem(book, amounts[j]);
      }
    }
  }

  /** Filled outputs never fall along the list. */
  lemma FilledOutputsGrow(book: seq<Order>, amounts: seq<real>, outMultiplier: real, i: nat, j: nat)
    requires LawfulBook(book) && LawfulPrices(book) && Ascending(amounts) && outMultiplier >= 0.0
    requires i <= j < |amounts| && amounts[j] <= Depth(book, |book|)
    ensures RoundedAll(Values(book, amounts), outMultiplier)[i] <= RoundedAll(Values(book, amounts), outMultiplier)[j]
  {
    assert amounts[i] <= amounts[j];
    MonotoneTheorem(book, amounts[i], amounts[j], outMultiplier);
  }

  /** Every output is what filling its amount alone is worth, times the multiplier, to the nearest unit; zero if that fails. */
  lemma OutputsTheorem(book: seq<Order>, amounts: seq<real>, outMultiplier: real, i: nat)
    requires LawfulBook(book) && Ascending(amounts) && i < |amounts|
    ensures var out, fill := RoundedAll(Values(book, amounts), outMultiplier)[i], FillFrom(book, 0, amounts[i]);
            if fill.Some? then -0.5 <= out as real - fill.value * outMultiplier <= 0.5 else out == 0
  {
    ScratchTheorem(book, amounts[i]);
    RoundedTheorem(Times(Value(book, amounts[i]), outMultiplier));
  }
}
