/**
 Packing the calls of a simple swap into one string with the positions where they start. Positions count
 bytes, two characters each; a call of odd length puts the next one on a half.
 */
module CalldataPacking {

  const PREFIX := "0x"

  /** What is left of a call without its first two characters. */
  function Body(call: string): string {
    if |call| < 2 then "" else call[2..]
  }

  /** The characters of the first n calls together. */
  function Before(calls: seq<string>, n: nat): nat
    requires n <= |calls|
  {
    if n == 0 then 0 else Before(calls, n - 1) + |Body(calls[n - 1])|
  }

  lemma {:induction false} BeforeGrows(calls: seq<string>, m: nat, n: nat)
    requires m <= n <= |calls|
    ensures Before(calls, m) <= Before(calls, n)
  {
    if m < n {
      BeforeGrows(calls, m, n - 1);
    }
  }

  /** The character a position in bytes stands for, after the prefix. */
  function CharAt(start: real): int {
    |PREFIX| + (start * 2.0).Floor
  }

  predicate Sliceable(data: string, startIndexes: seq<real>, i: nat) {
    && i + 1 < |startIndexes|
    && 0 <= CharAt(startIndexes[i]) <= CharAt(startIndexes[i + 1]) <= |data|
  }

  /** What a receiver cuts out between two consecutive positions. */
  function Slice(data: string, startIndexes: seq<real>, i: nat): string
    requires Sliceable(data, startIndexes, i)
  {
    data[CharAt(startIndexes[i])..CharAt(startIndexes[i + 1])]
  }

  ghost predicate StartsAt(calls: seq<string>, start: real, i: nat)
    requires i <= |calls|
  {
    start * 2.0 == Before(calls, i) as real
  }

  ghost predicate Positioned(calls: seq<string>, startIndexes: seq<real>, n: nat)
    requires n <= |calls|
  {
    |startIndexes| == n + 1 && forall i: nat :: i <= n ==> StartsAt(calls, startIndexes[i], i)
  }

  lemma PositionedOneMore(calls: seq<string>, startIndexes: seq<real>, n: nat)
    requires n < |calls| && Positioned(calls, startIndexes, n)
    ensures Positioned(calls, startIndexes + [startIndexes[n] + |Body(calls[n])| as real / 2.0], n + 1)
  {
    assert StartsAt(calls, startIndexes[n], n);
    assert StartsAt(calls, startIndexes[n] + |Body(calls[n])| as real / 2.0, n + 1);
  }

  /** The call stands in the data between the characters of the calls before it and those after it. */
  ghost predicate HoldsCall(calls: seq<string>, data: string, i: nat)
    requires i < |calls|
  {
    var from, to := |PREFIX| + Before(calls, i), |PREFIX| + Before(calls, i + 1);
    to <= |data| && data[from..to] == Body(calls[i])
  }

  ghost predicate Holds(calls: seq<string>, data: string, n: nat)
    requires n <= |calls|
  {
    |data| == |PREFIX| + Before(calls, n) && forall i: nat :: i < n ==> HoldsCall(calls, data, i)
  }

  lemma HoldsOneMore(calls: seq<string>, data: string, n: nat)
    requires n < |calls| && Holds(calls, data, n)
    ensures Holds(calls, data + Body(calls[n]), n + 1)
  {
    var longer := data + Body(calls[n]);
    forall i: nat | i < n + 1 ensures HoldsCall(calls, longer, i) {
      if i < n {
        assert HoldsCall(calls, data, i);
        StillThere(data, Body(calls[n]), |PREFIX| + Before(calls, i), |PREFIX| + Before(calls, i + 1));
      }
    }
  }

  lemma StillThere(data: string, more: string, from: nat, to: nat)
    requires from <= to <= |data|
    ensures (data + more)[from..to] == data[from..to]
  {
  }

  /** Every call can be cut out again, the positions never go back, and the last one is the end. */
  ghost predicate Unpacks(calls: seq<string>, data: string, startIndexes: seq<real>) {
    && |startIndexes| == |calls| + 1
    && startIndexes[0] == 0.0 && CharAt(startIndexes[|calls|]) == |data|
    && (forall i, j :: 0 <= i < j < |startIndexes| ==> startIndexes[i] <= startIndexes[j])
    && (forall i: nat :: i < |calls| ==>
          Sliceable(data, startIndexes, i) && Slice(data, startIndexes, i) == Body(calls[i]))
  }

  method BuildPartialContractSimpleData(calls: seq<string>) returns (exchangeData: string, startIndexes: seq<real>)
    ensures Unpacks(calls, exchangeData, startIndexes)
  {
    exchangeData := PREFIX;
    startIndexes := [0.0];
    for i := 0 to |calls|
      invariant Positioned(calls, startIndexes, i)
      invariant Holds(calls, exchangeData, i)
    {
      var tempCalldata := Body(calls[i]);
      PositionedOneMore(calls, startIndexes, i);
      HoldsOneMore(calls, exchangeData, i);
      startIndexes := startIndexes + [startIndexes[i] + |tempCalldata| as real / 2.0];
      exchangeData := exchangeData + tempCalldata;
    }
    PackedUnpacks(calls, exchangeData, startIndexes);
  }

  lemma PackedUnpacks(calls: seq<string>, data: string, startIndexes: seq<real>)
    requires Positioned(calls, startIndexes, |calls|) && Holds(calls, data, |calls|)
    ensures Unpacks(calls, data, startIndexes)
  {
    forall i: nat | i < |startIndexes| ensures CharAt(startIndexes[i]) == |PREFIX| + Before(calls, i) {
      assert StartsAt(calls, startIndexes[i], i);
    }
    forall i: nat, j: nat | i < j < |startIndexes| ensures startIndexes[i] <= startIndexes[j] {
      BeforeGrows(calls, i, j);
      assert StartsAt(calls, startIndexes[i], i) && StartsAt(calls, startIndexes[j], j);
    }
    forall i: nat | i < |calls|
      ensures Sliceable(data, startIndexes, i) && Slice(data, startIndexes, i) == Body(calls[i])
    {
      BeforeGrows(calls, i, i + 1);
      assert HoldsCall(calls, data, i);
    }
  }

  /** Two lists of calls with the usual prefix that pack to the same data and positions are the same list. */
  lemma PackingInjective(calls: seq<string>, calls': seq<string>, data: string, startIndexes: seq<real>)
    requires Unpacks(calls, data, startIndexes) && Unpacks(calls', data, startIndexes)
    requires forall c :: c in calls || c in calls' ==> PREFIX <= c
    ensures calls == calls'
  {
    forall i: nat | i < |calls| ensures calls[i] == calls'[i] {
      assert Slice(data, startIndexes, i) == Body(calls[i]) && Slice(data, startIndexes, i) == Body(calls'[i]);
      assert calls[i] in calls && calls'[i] in calls';
      assert calls[i] == PREFIX + Body(calls[i]) && calls'[i] == PREFIX + Body(calls'[i]);
    }
  }

  /** Calls of whole bytes start at whole positions. */
  lemma {:induction false} WholePositions(calls: seq<string>, n: nat)
    requires n <= |calls| && forall i :: 0 <= i < |calls| ==> |calls[i]| % 2 == 0
    ensures Before(calls, n) % 2 == 0
  {
    if n > 0 {
      WholePositions(calls, n - 1);
    }
  }
}
