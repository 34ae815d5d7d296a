/**
 The stateful event subscriber: the current state of a pool, a short history of it by block number,
 and a flag saying that what is stored may no longer be valid. Every method is proved to do to the
 fields what SubscriberSpec says; what follows for whole runs is proved in SubscriberRuns.
 */
module StatefulEventSubscriber {
  import opened Wrappers
  import opened SubscriberSpec
  import opened NumericKeys

  class Subscriber<S, P> {
    const process: Processor<S, P>
    const generate: nat -> S

    var state: Option<S>
    var stateBlockNumber: nat
    var stateHistory: map<nat, S>
    var invalid: bool

    ghost var recorded: map<nat, S>
    ghost var high: nat

    constructor (process: Processor<S, P>, generate: nat -> S)
      ensures this.process == process && this.generate == generate
      ensures View() == Sub(None, 0, map[], false, map[], 0)
    {
      this.process := process;
      this.generate := generate;
      state := None;
      stateBlockNumber := 0;
      stateHistory := map[];
      invalid := false;
      recorded := map[];
      high := 0;
    }

    ghost function View(): Sub<S>
      reads this
    {
      Sub(state, stateBlockNumber, stateHistory, invalid, recorded, high)
    }

    /** Block numbers are non-zero and the history is never newer than the current state. */
    ghost predicate Valid()
      reads this
    {
      0 !in stateHistory
    }

    method SetCurrent(newState: Option<S>, blockNumber: nat)
      modifies this`state, this`stateBlockNumber
      ensures state == newState && stateBlockNumber == blockNumber
    {
      state := newState;
      stateBlockNumber := blockNumber;
    }

    method SetState(newState: S, blockNumber: nat)
      requires Valid()
      modifies this
      ensures Valid() && View() == SubscriberSpec.SetState(old(View()), newState, blockNumber)
    {
      if blockNumber == 0 {
        return;
      }
      ghost var next := SubscriberSpec.SetState(View(), newState, blockNumber);
      stateHistory := stateHistory[blockNumber := newState];
      recorded := recorded[blockNumber := newState];
      if state.None? || blockNumber >= stateBlockNumber {
        SetCurrent(Some(newState), blockNumber);
        invalid := false;
        high := if blockNumber > high then blockNumber else high;
      }
      assert state == next.state && stateBlockNumber == next.stateBlock && recorded == next.recorded && high == next.high;
      PruneHistory(stateBlockNumber - MAX_BLOCKS_HISTORY);
      assert stateHistory == next.history;
    }

    method PruneHistory(minBlockNumberToKeep: int)
      requires Valid()
      modifies this`stateHistory
      ensures stateHistory == Prune(old(stateHistory), minBlockNumberToKeep)
    {
      var keys: seq<nat> := AscendingKeys(stateHistory.Keys);
      var lastBlockNumber := 0;  // zero stands for undefined: no key is zero
      ghost var h := stateHistory;
      var i := 0;
      while i < |keys|
        invariant 0 <= i <= |keys|
        invariant lastBlockNumber == if i == 0 then 0 else keys[i - 1]
        invariant forall j :: 0 <= j < i ==> keys[j] < minBlockNumberToKeep
        invariant stateHistory == if i == 0 then h else OnlyFrom(h, keys[i - 1])
      {
        var bn := keys[i];
        assert bn in keys && (i > 0 ==> keys[i - 1] in keys);
        if bn <= minBlockNumberToKeep {
          if lastBlockNumber != 0 {
            stateHistory := stateHistory - {lastBlockNumber};
          }
          NextKey(h, keys, i);
          assert stateHistory == OnlyFrom(h, bn);
        }
        if bn >= minBlockNumberToKeep {
          PruneAtKey(h, keys, if bn == minBlockNumberToKeep then i + 1 else i, minBlockNumberToKeep);
          return;
        }
        lastBlockNumber := bn;
        i := i + 1;
      }
      PruneAtKey(h, keys, i, minBlockNumberToKeep);
    }

    static lemma NextKey(h: map<nat, S>, keys: seq<nat>, i: nat)
      requires Ascending(keys) && (forall k :: k in keys <==> k in h) && i < |keys|
      ensures i == 0 ==> OnlyFrom(h, keys[0]) == h
      ensures i > 0 ==> OnlyFrom(h, keys[i]) == OnlyFrom(h, keys[i - 1]) - {keys[i - 1]}
    {
    }

    /** With the first n keys at or below the oldest block to keep, the n-th is where pruning cuts. */
    static lemma PruneAtKey(h: map<nat, S>, keys: seq<nat>, n: nat, oldest: int)
      requires Ascending(keys) && (forall k :: k in keys <==> k in h) && n <= |keys|
      requires forall j :: 0 <= j < n ==> keys[j] <= oldest
      requires n < |keys| ==> keys[n] > oldest
      ensures Prune(h, oldest) == if n == 0 then h else OnlyFrom(h, keys[n - 1])
    {
      forall k | k in h && k <= oldest ensures n > 0 && k <= keys[n - 1] {
        var j :| 0 <= j < |keys| && keys[j] == k;
      }
      if n > 0 {
        assert keys[n - 1] in keys;
      }
    }

    method Restart(blockNumber: nat)
      requires Valid()
      modifies this
      ensures Valid() && View() == SubscriberSpec.Restart(old(View()), blockNumber)
    {
      DeleteBefore(blockNumber);
      recorded := OnlyFrom(recorded, blockNumber);
      if state.Some? && stateBlockNumber < blockNumber {
        SetCurrent(None, blockNumber);
      }
    }

    method DeleteBefore(blockNumber: nat)
      modifies this`stateHistory
      ensures stateHistory == OnlyFrom(old(stateHistory), blockNumber)
    {
      var keys: seq<nat> := AscendingKeys(stateHistory.Keys);
      ghost var h := stateHistory;
      FirstKey(h, keys);
      var i := 0;
      while i < |keys|
        invariant 0 <= i <= |keys|
        invariant forall j :: 0 <= j < i ==> keys[j] < blockNumber
        invariant stateHistory == if i < |keys| then OnlyFrom(h, keys[i]) else map[]
      {
        var bn := keys[i];
        assert bn in keys;
        if bn >= blockNumber {
          CutBetween(h, keys, i, blockNumber);
          return;
        }
        stateHistory := stateHistory - {bn};
        i := i + 1;
        CutAfter(h, keys, i);
      }
      CutBetween(h, keys, i, blockNumber);
    }

    static lemma FirstKey(h: map<nat, S>, keys: seq<nat>)
      requires Ascending(keys) && (forall k :: k in keys <==> k in h)
      ensures h == if |keys| > 0 then OnlyFrom(h, keys[0]) else map[]
    {
    }

    static lemma CutAfter(h: map<nat, S>, keys: seq<nat>, i: nat)
      requires Ascending(keys) && (forall k :: k in keys <==> k in h) && 1 <= i <= |keys|
      ensures OnlyFrom(h, keys[i - 1]) - {keys[i - 1]} == if i < |keys| then OnlyFrom(h, keys[i]) else map[]
    {
      forall k | k in h && keys[i - 1] < k ensures i < |keys| && keys[i] <= k {
        var j :| 0 <= j < |keys| && keys[j] == k;
      }
    }

    static lemma CutBetween(h: map<nat, S>, keys: seq<nat>, i: nat, b: nat)
      requires Ascending(keys) && (forall k :: k in keys <==> k in h) && i <= |keys|
      requires forall j :: 0 <= j < i ==> keys[j] < b
      requires i < |keys| ==> keys[i] >= b
      ensures OnlyFrom(h, b) == if i < |keys| then OnlyFrom(h, keys[i]) else map[]
    {
      forall k | k in h && b <= k ensures i < |keys| && keys[i] <= k {
        var j :| 0 <= j < |keys| && keys[j] == k;
      }
    }

    method Invalidate()
      modifies this`invalid
      ensures View() == SubscriberSpec.Invalidate(old(View()))
    {
      invalid := true;
    }

    method Rollback(blockNumber: nat)
      requires Valid()
      modifies this
      ensures Valid() && View() == SubscriberSpec.Rollback(old(View()), blockNumber)
    {
      if invalid {
        var lastBn := DeleteAfter(blockNumber);
        recorded := OnlyUpTo(recorded, blockNumber);
        if lastBn != 0 {
          SetCurrent(Some(stateHistory[lastBn]), lastBn);
        } else {
          SetCurrent(None, blockNumber);
        }
      } else {
        DeleteOthersAfter(blockNumber);
        recorded := UpToOr(recorded, blockNumber, stateBlockNumber);
      }
    }

    method DeleteAfter(blockNumber: nat) returns (lastBn: nat)
      requires 0 !in stateHistory
      modifies this`stateHistory
      ensures stateHistory == OnlyUpTo(old(stateHistory), blockNumber)
      ensures LatestKey(stateHistory, blockNumber) == if lastBn == 0 then None else Some(lastBn)
    {
      var keys: seq<nat> := AscendingKeys(stateHistory.Keys);
      ghost var h := stateHistory;
      lastBn := 0;  // zero stands for undefined: no key is zero
      var i := 0;
      NothingDeleted(h, keys, blockNumber);
      while i < |keys|
        invariant 0 <= i <= |keys|
        invariant Deleting(h, keys, i, blockNumber, stateHistory, lastBn)
      {
        DeleteStep(h, keys, i, blockNumber, stateHistory, lastBn);
        var bn := keys[i];
        if bn > blockNumber {
          stateHistory := stateHistory - {bn};
        } else {
          lastBn := bn;
        }
        i := i + 1;
      }
      AllDeleted(h, keys, blockNumber, stateHistory, lastBn);
    }

    /** The history and the last key kept after looking at the first i keys. */
    static ghost predicate Deleting(h: map<nat, S>, keys: seq<nat>, i: nat, b: nat, now: map<nat, S>, lastBn: nat)
      requires i <= |keys|
    {
      lastBn == LastAtMost(keys, i, b) && now == Undeleted(h, keys, i, b)
    }

    static lemma DeleteStep(h: map<nat, S>, keys: seq<nat>, i: nat, b: nat, now: map<nat, S>, lastBn: nat)
      requires Ascending(keys) && i < |keys| && Deleting(h, keys, i, b, now, lastBn)
      ensures keys[i] > b ==> Deleting(h, keys, i + 1, b, now - {keys[i]}, lastBn)
      ensures keys[i] <= b ==> Deleting(h, keys, i + 1, b, now, keys[i])
    {
      NextDeleted(h, keys, i, b);
    }

    static lemma AllDeleted(h: map<nat, S>, keys: seq<nat>, b: nat, now: map<nat, S>, lastBn: nat)
      requires Ascending(keys) && (forall k :: k in keys <==> k in h) && 0 !in h
      requires Deleting(h, keys, |keys|, b, now, lastBn)
      ensures now == OnlyUpTo(h, b) && LatestKey(now, b) == if lastBn == 0 then None else Some(lastBn)
    {
      NothingDeleted(h, keys, b);
      LastIsLatest(h, keys, b);
    }

    /** The last of the first i keys that is at most b, or zero. */
    static ghost function LastAtMost(keys: seq<nat>, i: nat, b: nat): nat
      requires i <= |keys|
    {
      if i == 0 then 0 else if keys[i - 1] <= b then keys[i - 1] else LastAtMost(keys, i - 1, b)
    }

    static lemma {:induction false} LastAtMostIs(keys: seq<nat>, i: nat, b: nat)
      requires Ascending(keys) && i <= |keys| && 0 !in keys
      ensures var l := LastAtMost(keys, i, b); l != 0 ==> l in keys && l <= b
      ensures forall j :: 0 <= j < i && keys[j] <= b ==> 0 < keys[j] <= LastAtMost(keys, i, b)
    {
      if i > 0 {
        LastAtMostIs(keys, i - 1, b);
        assert keys[i - 1] in keys;
      }
    }

    static lemma LastIsLatest(h: map<nat, S>, keys: seq<nat>, b: nat)
      requires Ascending(keys) && (forall k :: k in keys <==> k in h) && 0 !in h
      ensures var l := LastAtMost(keys, |keys|, b);
              LatestKey(OnlyUpTo(h, b), b) == if l == 0 then None else Some(l)
    {
      var l := LastAtMost(keys, |keys|, b);
      LastAtMostIs(keys, |keys|, b);
      if l != 0 {
        LatestIs(OnlyUpTo(h, b), l, b);
      }
    }

    /** What is left of h when the keys after b among the first i have been deleted. */
    static ghost function Undeleted(h: map<nat, S>, keys: seq<nat>, i: nat, b: nat): map<nat, S>
      requires i <= |keys|
    {
      map k | k in h && (k <= b || k in keys[i..]) :: h[k]
    }

    static lemma NothingDeleted(h: map<nat, S>, keys: seq<nat>, b: nat)
      requires forall k :: k in keys <==> k in h
      ensures Undeleted(h, keys, 0, b) == h
      ensures Undeleted(h, keys, |keys|, b) == OnlyUpTo(h, b)
    {
      assert keys[0..] == keys;
    }

    static lemma NextDeleted(h: map<nat, S>, keys: seq<nat>, i: nat, b: nat)
      requires Ascending(keys) && i < |keys|
      ensures Undeleted(h, keys, i + 1, b)
           == if keys[i] > b then Undeleted(h, keys, i, b) - {keys[i]} else Undeleted(h, keys, i, b)
    {
      assert keys[i..] == [keys[i]] + keys[i + 1..];
      assert keys[i] !in keys[i + 1..];
    }

    method DeleteOthersAfter(blockNumber: nat)
      modifies this`stateHistory
      ensures stateHistory == UpToOr(old(stateHistory), blockNumber, stateBlockNumber)
    {
      var keys: seq<nat> := AscendingKeys(stateHistory.Keys);
      ghost var h := stateHistory;
      var i := 0;
      while i < |keys|
        invariant 0 <= i <= |keys|
        invariant forall k :: k in stateHistory <==> k in h && (k <= blockNumber || k == stateBlockNumber || k in keys[i..])
        invariant forall k :: k in stateHistory ==> stateHistory[k] == h[k]
      {
        var bn := keys[i];
        assert keys[i..] == [bn] + keys[i + 1..];
        assert bn !in keys[i + 1..];
        if bn > blockNumber && bn != stateBlockNumber {
          stateHistory := stateHistory - {bn};
        }
        i := i + 1;
      }
    }

    /** A state no older than asked for, unless the flag is set; tracking waives the age. */
    method GetState(minBlockNumber: nat, isTracking: bool) returns (r: Option<S>)
      ensures r == HandedOut(View(), minBlockNumber, isTracking)
    {
      if state.None? || invalid {
        return None;
      }
      if isTracking || stateBlockNumber >= minBlockNumber {
        return state;
      }
      return None;
    }

    method ProcessBlockLogs(before: S, logs: seq<Log<P>>) returns (nextState: Option<S>)
      ensures nextState == BlockLogs(process, before, logs)
    {
      nextState := None;
      var i := 0;
      while i < |logs|
        invariant 0 <= i <= |logs|
        invariant BlockLogsFrom(process, before, nextState, logs[i..]) == BlockLogs(process, before, logs)
      {
        var retState := process(if nextState.Some? then nextState.value else before, logs[i]);
        assert logs[i..][1..] == logs[i + 1..];
        if retState.Some? {
          nextState := retState;
        }
        i := i + 1;
      }
    }

    /** The last recorded state before the given block. */
    method StateBefore(blockNumber: nat) returns (r: Option<S>)
      ensures var before := LatestKey(stateHistory, blockNumber - 1);
              r == if before.None? then None else Some(stateHistory[before.value])
    {
      var keys: seq<nat> := AscendingKeys(stateHistory.Keys);
      r := None;
      var i := 0;
      while i < |keys|
        invariant 0 <= i <= |keys|
        invariant forall j :: 0 <= j < i ==> keys[j] < blockNumber && keys[j] in stateHistory
        invariant r == if i == 0 then None else Some(stateHistory[keys[i - 1]])
      {
        var bn := keys[i];
        assert bn in keys;
        if bn >= blockNumber {
          break;
        }
        r := Some(stateHistory[bn]);
        i := i + 1;
      }
      LatestIsLast(stateHistory, keys, i, blockNumber);
    }

    static lemma LatestIsLast(h: map<nat, S>, keys: seq<nat>, n: nat, b: nat)
      requires Ascending(keys) && (forall k :: k in keys <==> k in h) && n <= |keys|
      requires forall j :: 0 <= j < n ==> keys[j] < b
      requires n < |keys| ==> keys[n] >= b
      ensures LatestKey(h, b - 1) == if n == 0 then None else Some(keys[n - 1])
    {
      forall k | k in h && k < b ensures n > 0 && k <= keys[n - 1] {
        var j :| 0 <= j < |keys| && keys[j] == k;
      }
      if n > 0 {
        assert keys[n - 1] in keys;
        assert IsLatest(h, keys[n - 1], b - 1);
      }
    }

    method Update(logs: seq<Log<P>>)
      requires Valid()
      modifies this
      ensures Valid() && View() == SubscriberSpec.Update(process, generate, old(View()), logs)
    {
      var index := 0;
      while index < |logs|
        invariant 0 <= index <= |logs| && Valid()
        invariant UpdateGroups(process, generate, View(), logs[index..])
               == UpdateGroups(process, generate, old(View()), logs)
      {
        var blockNumber := logs[index].blockNumber;
        var indexBlockEnd := index + 1;
        while indexBlockEnd < |logs| && logs[indexBlockEnd].blockNumber == blockNumber
          invariant index < indexBlockEnd <= |logs|
          invariant forall i :: index <= i < indexBlockEnd ==> logs[i].blockNumber == blockNumber
        {
          indexBlockEnd := indexBlockEnd + 1;
        }
        OneGroup(process, generate, View(), logs, index, indexBlockEnd);
        UpdateBlock(logs[index..indexBlockEnd]);
        index := indexBlockEnd;
      }
      invalid := false;
    }

    /** The part of update that handles one block's logs. */
    method UpdateBlock(logs: seq<Log<P>>)
      requires Valid() && logs != []
      modifies this
      ensures Valid() && View() == PlayGroup(process, generate, old(View()), logs)
    {
      var blockNumber := logs[0].blockNumber;
      if state.None? {
        SetState(generate(blockNumber), blockNumber);
      }
      var stateBeforeLog := StateBefore(blockNumber);
      if stateBeforeLog.Some? {
        var nextState := ProcessBlockLogs(stateBeforeLog.value, logs);
        if nextState.Some? {
          SetState(nextState.value, blockNumber);
        }
      }
    }

    static lemma OneGroup(process: Processor<S, P>, generate: nat -> S, s: Sub<S>, logs: seq<Log<P>>, i: nat, j: nat)
      requires i < j <= |logs|
      requires forall k :: i <= k < j ==> logs[k].blockNumber == logs[i].blockNumber
      requires j < |logs| ==> logs[j].blockNumber != logs[i].blockNumber
      ensures UpdateGroups(process, generate, s, logs[i..])
           == UpdateGroups(process, generate, PlayGroup(process, generate, s, logs[i..j]), logs[j..])
    {
      var rest := logs[i..];
      GroupIs(rest, j - i);
      assert rest[..j - i] == logs[i..j] && rest[j - i..] == logs[j..];
    }
  }
}
