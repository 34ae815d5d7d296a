/**
 What the operations of a stateful event subscriber do to its fields, as functions on values.

 `recorded` and `high` are history variables: everything setState has written and no rollback or
 restart has withdrawn, and the highest block the current state has been at. The source has neither.
 A rollback withdraws what is newer than its target, a restart what is older than its block.
 */
module SubscriberSpec {
  import opened Wrappers

  const MAX_BLOCKS_HISTORY: int := 7

  datatype Log<+P> = Log(blockNumber: nat, payload: P)

  datatype Sub<S> = Sub(state: Option<S>, stateBlock: nat, history: map<nat, S>, invalid: bool,
                        recorded: map<nat, S>, high: nat)

  /** Transforming a state by one log; None when the log does not affect it. */
  type Processor<!S, !P> = (S, Log<P>) -> Option<S>

  // ---------------------------------------------------------------- block logs

  function BlockLogsFrom<S, P>(process: Processor<S, P>, state: S, next: Option<S>, logs: seq<Log<P>>): Option<S>
    decreases |logs|
  {
    if logs == [] then next
    else
      var ret := process(if next.Some? then next.value else state, logs[0]);
      BlockLogsFrom(process, state, if ret.Some? then ret else next, logs[1..])
  }

  /** The state after one block's logs, or None when none of them affects it. */
  function BlockLogs<S, P>(process: Processor<S, P>, state: S, logs: seq<Log<P>>): Option<S> {
    BlockLogsFrom(process, state, None, logs)
  }

  // ---------------------------------------------------------------- history

  /** k is the last block of h at or before b. */
  ghost predicate IsLatest<S>(h: map<nat, S>, k: nat, b: int) {
    k in h && k <= b && forall j :: j in h && j <= b ==> j <= k
  }

  function OnlyUpTo<S>(h: map<nat, S>, b: int): map<nat, S> {
    map k | k in h && k <= b :: h[k]
  }

  function UpToOr<S>(h: map<nat, S>, b: int, except: nat): map<nat, S> {
    map k | k in h && (k <= b || k == except) :: h[k]
  }

  function OnlyFrom<S>(h: map<nat, S>, b: int): map<nat, S> {
    map k | k in h && b <= k :: h[k]
  }

  /** Dropping every block older than the last one at or before `oldest`. */
  ghost function Prune<S>(h: map<nat, S>, oldest: int): map<nat, S> {
    map k | k in h && (forall j :: j in h && j <= oldest ==> j <= k) :: h[k]
  }

  // ---------------------------------------------------------------- operations

  ghost function SetState<S>(s: Sub<S>, state: S, blockNumber: nat): Sub<S> {
    if blockNumber == 0 then s
    else
      var h := s.history[blockNumber := state];
      var r := s.recorded[blockNumber := state];
      if s.state.None? || blockNumber >= s.stateBlock then
        Sub(Some(state), blockNumber, Prune(h, blockNumber - MAX_BLOCKS_HISTORY), false, r,
            if blockNumber > s.high then blockNumber else s.high)
      else s.(history := Prune(h, s.stateBlock - MAX_BLOCKS_HISTORY), recorded := r)
  }

  ghost function Restart<S>(s: Sub<S>, blockNumber: nat): Sub<S> {
    var s' := s.(history := OnlyFrom(s.history, blockNumber), recorded := OnlyFrom(s.recorded, blockNumber));
    if s.state.Some? && s.stateBlock < blockNumber then s'.(state := None, stateBlock := blockNumber) else s'
  }

  ghost function Invalidate<S>(s: Sub<S>): Sub<S> {
    s.(invalid := true)
  }

  ghost function LatestKey<S>(h: map<nat, S>, b: int): (r: Option<nat>)
    ensures r.Some? ==> IsLatest(h, r.value, b)
    ensures r.None? ==> forall j :: j in h ==> j > b
  {
    if exists k :: IsLatest(h, k, b) then var k :| IsLatest(h, k, b); Some(k)
    else
      assert forall j :: j in h ==> j > b by {
        if j :| j in h && j <= b {
          LatestExists(h, b);
        }
      }
      None
  }

  /** The blocks that pruning keeps exact. */
  ghost predicate InWindow<S>(s: Sub<S>, b: int) {
    b >= s.high - MAX_BLOCKS_HISTORY
  }

  ghost function Rollback<S>(s: Sub<S>, blockNumber: nat): Sub<S> {
    if s.invalid then
      var h, r := OnlyUpTo(s.history, blockNumber), OnlyUpTo(s.recorded, blockNumber);
      var last := LatestKey(h, blockNumber);
      if last.Some? then s.(state := Some(h[last.value]), stateBlock := last.value, history := h, recorded := r)
      else s.(state := None, stateBlock := blockNumber, history := h, recorded := r)
    else
      s.(history := UpToOr(s.history, blockNumber, s.stateBlock), recorded := UpToOr(s.recorded, blockNumber, s.stateBlock))
  }

  /** What getState hands out: nothing while the flag is set, and nothing too old unless tracking. */
  ghost function HandedOut<S>(s: Sub<S>, minBlockNumber: nat, isTracking: bool): Option<S> {
    if s.invalid || (!isTracking && s.stateBlock < minBlockNumber) then None else s.state
  }

  /** The number of leading logs that belong to the first log's block. */
  function GroupLength<P>(logs: seq<Log<P>>): (n: nat)
    requires logs != []
    ensures 1 <= n <= |logs|
    ensures forall i :: 0 <= i < n ==> logs[i].blockNumber == logs[0].blockNumber
    ensures n < |logs| ==> logs[n].blockNumber != logs[0].blockNumber
  {
    GroupFrom(logs, 1)
  }

  function GroupFrom<P>(logs: seq<Log<P>>, n: nat): (m: nat)
    requires 1 <= n <= |logs|
    requires forall i :: 0 <= i < n ==> logs[i].blockNumber == logs[0].blockNumber
    ensures n <= m <= |logs|
    ensures forall i :: 0 <= i < m ==> logs[i].blockNumber == logs[0].blockNumber
    ensures m < |logs| ==> logs[m].blockNumber != logs[0].blockNumber
    decreases |logs| - n
  {
    if n < |logs| && logs[n].blockNumber == logs[0].blockNumber then GroupFrom(logs, n + 1) else n
  }

  /** Playing one block's logs onto the last state before the block, if there is one. */
  ghost function PlayOnto<S, P>(process: Processor<S, P>, s0: Sub<S>, group: seq<Log<P>>): Sub<S>
    requires group != []
  {
    var b := group[0].blockNumber;
    var before := LatestKey(s0.history, b - 1);
    if before.None? then s0
    else
      var next := BlockLogs(process, s0.history[before.value], group);
      if next.None? then s0 else SetState(s0, next.value, b)
  }

  /** One block's worth of logs: generate a state if there is none, then play them. */
  ghost function PlayGroup<S, P>(process: Processor<S, P>, generate: nat -> S, s: Sub<S>, group: seq<Log<P>>): Sub<S>
    requires group != []
  {
    var b := group[0].blockNumber;
    PlayOnto(process, if s.state.None? then SetState(s, generate(b), b) else s, group)
  }

  ghost function UpdateGroups<S, P>(process: Processor<S, P>, generate: nat -> S, s: Sub<S>, logs: seq<Log<P>>): Sub<S>
    decreases |logs|
  {
    if logs == [] then s
    else
      var n := GroupLength(logs);
      UpdateGroups(process, generate, PlayGroup(process, generate, s, logs[..n]), logs[n..])
  }

  ghost function Update<S, P>(process: Processor<S, P>, generate: nat -> S, s: Sub<S>, logs: seq<Log<P>>): Sub<S> {
    UpdateGroups(process, generate, s, logs).(invalid := false)
  }

  // ---------------------------------------------------------------- latest blocks

  lemma {:induction false} LatestExists<S>(h: map<nat, S>, b: int)
    requires exists j :: j in h && j <= b
    ensures exists k :: IsLatest(h, k, b)
  {
    var j :| j in h && j <= b;
    LatestAbove(h, b, j);
  }

  lemma {:induction false} LatestAbove<S>(h: map<nat, S>, b: int, j: nat)
    requires j in h && j <= b
    ensures exists k :: IsLatest(h, k, b)
    decreases b - j
  {
    if i :| i in h && j < i <= b {
      LatestAbove(h, b, i);
    } else {
      assert IsLatest(h, j, b);
    }
  }

  /** Pruning at `oldest` changes no latest block at or after it, and elsewhere only removes. */
  lemma PruneLatest<S>(h: map<nat, S>, oldest: int, k: nat, b: int)
    ensures IsLatest(Prune(h, oldest), k, b) ==> IsLatest(h, k, b)
    ensures b >= oldest && IsLatest(h, k, b) ==> IsLatest(Prune(h, oldest), k, b)
  {
    var p := Prune(h, oldest);
    if IsLatest(p, k, b) {
      forall j | j in h && j <= b ensures j <= k {
        if j !in p {
          var i :| i in h && i <= oldest && i > j;
        }
      }
    }
  }

  lemma LatestIs<S>(h: map<nat, S>, k: nat, b: int)
    requires IsLatest(h, k, b)
    ensures LatestKey(h, b) == Some(k)
  {
  }

  lemma GroupIs<P>(logs: seq<Log<P>>, n: nat)
    requires 1 <= n <= |logs|
    requires forall i :: 0 <= i < n ==> logs[i].blockNumber == logs[0].blockNumber
    requires n < |logs| ==> logs[n].blockNumber != logs[0].blockNumber
    ensures GroupLength(logs) == n
  {
  }
}
