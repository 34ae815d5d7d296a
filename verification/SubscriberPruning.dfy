/**
 When pruning is invisible. Over every run whose rollbacks stay within MAX_BLOCKS_HISTORY blocks of the
 highest state, the pruned history answers "what was the last state at or before n" exactly as an unpruned
 one would, for every n in that window. A deeper rollback can lose states that nothing withdrew; over runs
 that record no state older than everything kept, whether it does is decided by whether the pruned history
 still has an entry to fall back to.
 */
module SubscriberPruning {
  import opened Wrappers
  import opened SubscriberSpec
  import opened SubscriberRuns

  ghost predicate SameLatest<S>(r: map<nat, S>, h: map<nat, S>, from: int) {
    forall k: nat, n: int {:trigger IsLatest(h, k, n)} {:trigger IsLatest(r, k, n)} ::
      n >= from ==> (IsLatest(r, k, n) <==> IsLatest(h, k, n))
  }

  ghost predicate Tracked<S(!new)>(s: Sub<S>) {
    && Coherent(s)
    && (s.state.Some? ==> s.stateBlock <= s.high)
    && 0 !in s.recorded
    && (forall k :: k in s.history ==> k in s.recorded && s.recorded[k] == s.history[k])
    && SameLatest(s.recorded, s.history, s.high - MAX_BLOCKS_HISTORY)
  }

  // ---------------------------------------------------------------- setState

  lemma LatestOfInsert<S>(h: map<nat, S>, b: nat, v: S, k: nat, n: int)
    ensures IsLatest(h[b := v], k, n) <==>
            if k == b then b <= n && (forall j :: j in h && j <= n ==> j <= b)
            else IsLatest(h, k, n) && (b <= n ==> b < k)
  {
    var h' := h[b := v];
    if IsLatest(h', k, n) {
      forall j | j in h && j <= n ensures j <= k {
        assert j in h';
      }
      assert b in h';
    }
  }

  lemma NothingAbove<S>(h: map<nat, S>, b: nat, n: int)
    ensures (forall j :: j in h && j <= n ==> j <= b) <==> forall k: nat :: IsLatest(h, k, n) ==> k <= b
  {
    if (forall k: nat :: IsLatest(h, k, n) ==> k <= b) && exists j :: j in h && j <= n {
      LatestExists(h, n);
    }
  }

  lemma InsertSameLatest<S>(r: map<nat, S>, h: map<nat, S>, b: nat, v: S, from: int)
    requires SameLatest(r, h, from)
    ensures SameLatest(r[b := v], h[b := v], from)
  {
    var r', h' := r[b := v], h[b := v];
    forall k: nat, n: int | n >= from ensures IsLatest(r', k, n) <==> IsLatest(h', k, n) {
      LatestOfInsert(r, b, v, k, n);
      LatestOfInsert(h, b, v, k, n);
      NothingAbove(r, b, n);
      NothingAbove(h, b, n);
    }
  }

  lemma PruneSameLatest<S>(r: map<nat, S>, h: map<nat, S>, oldest: int, from: int)
    requires SameLatest(r, h, from) && oldest <= from
    ensures SameLatest(r, Prune(h, oldest), from)
  {
    forall k: nat, n: int | n >= from ensures IsLatest(r, k, n) <==> IsLatest(Prune(h, oldest), k, n) {
      PruneLatest(h, oldest, k, n);
    }
  }

  lemma SetStateTracked<S(!new)>(s: Sub<S>, state: S, b: nat)
    requires Tracked(s)
    ensures Tracked(SetState(s, state, b))
  {
    SetStateCoherent(s, state, b);
    if b != 0 {
      var s' := SetState(s, state, b);
      var from := s'.high - MAX_BLOCKS_HISTORY;
      InsertSameLatest(s.recorded, s.history, b, state, from);
      SetStateHistory(s, state, b);
      PruneSameLatest(s'.recorded, s.history[b := state], s'.stateBlock - MAX_BLOCKS_HISTORY, from);
    }
  }

  // ---------------------------------------------------------------- update

  lemma PlayGroupTracked<S(!new), P>(process: Processor<S, P>, generate: nat -> S, s: Sub<S>, group: seq<Log<P>>)
    requires Tracked(s) && group != []
    ensures Tracked(PlayGroup(process, generate, s, group))
  {
    var b: int := group[0].blockNumber;
    if s.state.None? {
      SetStateTracked(s, generate(b), b);
    }
    PlayOntoTracked(process, if s.state.None? then SetState(s, generate(b), b) else s, group);
  }

  lemma PlayOntoTracked<S(!new), P>(process: Processor<S, P>, s0: Sub<S>, group: seq<Log<P>>)
    requires Tracked(s0) && group != []
    ensures Tracked(PlayOnto(process, s0, group))
  {
    var b: int := group[0].blockNumber;
    var before := LatestKey(s0.history, b - 1);
    if before.Some? {
      var next := BlockLogs(process, s0.history[before.value], group);
      if next.Some? {
        SetStateTracked(s0, next.value, b);
      }
    }
  }

  lemma {:induction false} UpdateTracked<S(!new), P>(process: Processor<S, P>, generate: nat -> S, s: Sub<S>, logs: seq<Log<P>>)
    requires Tracked(s)
    ensures Tracked(UpdateGroups(process, generate, s, logs))
    decreases |logs|
  {
    if logs != [] {
      var n := GroupLength(logs);
      PlayGroupTracked(process, generate, s, logs[..n]);
      UpdateTracked(process, generate, PlayGroup(process, generate, s, logs[..n]), logs[n..]);
    }
  }

  // ---------------------------------------------------------------- rollback and restart

  lemma LatestOfCut<S>(h: map<nat, S>, n: nat, k: nat, m: int)
    ensures IsLatest(OnlyUpTo(h, n), k, m) <==> IsLatest(h, k, if m < n then m else n)
  {
    if IsLatest(OnlyUpTo(h, n), k, m) {
      forall j | j in h && j <= m && j <= n ensures j <= k {
        assert j in OnlyUpTo(h, n);
      }
    }
  }

  lemma CutSameLatest<S>(r: map<nat, S>, h: map<nat, S>, n: nat, from: int)
    requires SameLatest(r, h, from) && n >= from
    ensures SameLatest(OnlyUpTo(r, n), OnlyUpTo(h, n), from)
  {
    forall k: nat, m: int | m >= from ensures IsLatest(OnlyUpTo(r, n), k, m) <==> IsLatest(OnlyUpTo(h, n), k, m) {
      LatestOfCut(r, n, k, m);
      LatestOfCut(h, n, k, m);
    }
  }

  /** Keeping one more block, above the cut, is inserting it into what the cut leaves. */
  lemma ExceptIsInsert<S>(h: map<nat, S>, n: nat, except: nat)
    ensures UpToOr(h, n, except) == if except in h then OnlyUpTo(h, n)[except := h[except]] else OnlyUpTo(h, n)
  {
  }

  lemma NothingRecorded<S>(r: map<nat, S>, from: int)
    requires SameLatest(r, map[], from)
    ensures r == map[]
  {
    if r != map[] {
      var k :| k in r;
      LatestExists(r, if k < from then from else k);
      assert false;
    }
  }

  lemma RollbackTracked<S(!new)>(s: Sub<S>, n: nat)
    requires Tracked(s) && InWindow(s, n)
    ensures Tracked(Rollback(s, n))
  {
    var from := s.high - MAX_BLOCKS_HISTORY;
    RollbackCoherent(s, n);
    CutSameLatest(s.recorded, s.history, n, from);
    if !s.invalid {
      ExceptIsInsert(s.recorded, n, s.stateBlock);
      ExceptIsInsert(s.history, n, s.stateBlock);
      if s.state.Some? {
        InsertSameLatest(OnlyUpTo(s.recorded, n), OnlyUpTo(s.history, n), s.stateBlock, s.state.value, from);
      } else {
        NothingRecorded(s.recorded, from);
      }
    }
  }

  lemma RestartTracked<S(!new)>(s: Sub<S>, b: nat)
    requires Tracked(s)
    ensures Tracked(Restart(s, b))
  {
    RestartCoherent(s, b);
    var from := s.high - MAX_BLOCKS_HISTORY;
    forall k: nat, n: int | n >= from
      ensures IsLatest(OnlyFrom(s.recorded, b), k, n) <==> IsLatest(OnlyFrom(s.history, b), k, n)
    {
      LatestOfRest(s.recorded, b, k, n);
      LatestOfRest(s.history, b, k, n);
    }
  }

  lemma LatestOfRest<S>(h: map<nat, S>, b: nat, k: nat, n: int)
    ensures IsLatest(OnlyFrom(h, b), k, n) <==> b <= k && IsLatest(h, k, n)
  {
    if IsLatest(OnlyFrom(h, b), k, n) {
      forall j | j in h && j <= n ensures j <= k {
        assert j < b || j in OnlyFrom(h, b);
      }
    }
  }

  // ---------------------------------------------------------------- whole runs

  datatype Operation<!S, !P> =
    | SettingState(state: S, blockNumber: nat)
    | Updating(process: Processor<S, P>, generate: nat -> S, logs: seq<Log<P>>)
    | RollingBack(to: nat)
    | Invalidating
    | Restarting(from: nat)

  ghost function Perform<S, P>(s: Sub<S>, op: Operation<S, P>): Sub<S> {
    match op
    case SettingState(state, b) => SetState(s, state, b)
    case Updating(process, generate, logs) => Update(process, generate, s, logs)
    case RollingBack(n) => Rollback(s, n)
    case Invalidating => Invalidate(s)
    case Restarting(b) => Restart(s, b)
  }

  ghost function PerformAll<S, P>(s: Sub<S>, ops: seq<Operation<S, P>>): Sub<S>
    decreases |ops|
  {
    if ops == [] then s else PerformAll(Perform(s, ops[0]), ops[1..])
  }

  ghost function Empty<S>(): Sub<S> {
    Sub(None, 0, map[], false, map[], 0)
  }

  /** Every rollback of the run goes to a block in the window of its moment. */
  ghost predicate StaysInWindow<S, P>(s: Sub<S>, ops: seq<Operation<S, P>>)
    decreases |ops|
  {
    ops == []
    || ((ops[0].RollingBack? ==> InWindow(s, ops[0].to)) && StaysInWindow(Perform(s, ops[0]), ops[1..]))
  }

  lemma PerformTracked<S(!new), P>(s: Sub<S>, op: Operation<S, P>)
    requires Tracked(s) && (op.RollingBack? ==> InWindow(s, op.to))
    ensures Tracked(Perform(s, op))
  {
    match op
    case SettingState(state, b) => SetStateTracked(s, state, b);
    case Updating(process, generate, logs) => UpdateTracked(process, generate, s, logs);
    case RollingBack(n) => RollbackTracked(s, n);
    case Invalidating =>
    case Restarting(b) => RestartTracked(s, b);
  }

  lemma {:induction false} RunTracked<S(!new), P>(s: Sub<S>, ops: seq<Operation<S, P>>)
    requires Tracked(s) && StaysInWindow(s, ops)
    ensures Tracked(PerformAll(s, ops))
    decreases |ops|
  {
    if ops != [] {
      PerformTracked(s, ops[0]);
      RunTracked(Perform(s, ops[0]), ops[1..]);
    }
  }

  /** The pruned history gives at n what was really recorded last, and nothing exactly when nothing was. */
  ghost predicate ExactAt<S>(s: Sub<S>, n: nat) {
    var k := LatestKey(s.recorded, n);
    LatestKey(s.history, n) == k && (k.Some? ==> s.history[k.value] == s.recorded[k.value])
  }

  /** What a rollback of an invalid subscriber ought to leave: the last state recorded at or before n. */
  ghost predicate Recovers<S>(s: Sub<S>, n: nat) {
    var last := LatestKey(s.recorded, n);
    var s' := Rollback(s, n);
    && s'.state == (if last.Some? then Some(s.recorded[last.value]) else None)
    && (last.Some? ==> s'.stateBlock == last.value)
  }

  /** While no rollback leaves the window, the pruned and the full history agree on every block in it. */
  lemma PruningTheorem<S(!new), P>(ops: seq<Operation<S, P>>, n: nat)
    requires StaysInWindow(Empty<S>(), ops) && InWindow(PerformAll(Empty<S>(), ops), n)
    ensures ExactAt(PerformAll(Empty<S>(), ops), n)
  {
    RunTracked(Empty<S>(), ops);
    SameLatestKey(PerformAll(Empty<S>(), ops), n);
  }

  lemma SameLatestKey<S(!new)>(s: Sub<S>, n: nat)
    requires Tracked(s) && InWindow(s, n)
    ensures LatestKey(s.history, n) == LatestKey(s.recorded, n)
  {
    var r := LatestKey(s.recorded, n);
    if r.Some? {
      LatestIs(s.history, r.value, n);
    } else {
      assert forall k :: k in s.history ==> k in s.recorded;
    }
  }

  /** With the flag set, a rollback recovers the last recorded state exactly where the histories agree. */
  lemma RecoversWhereExact<S(!new)>(s: Sub<S>, n: nat)
    requires Coherent(s) && s.invalid && forall k :: k in s.history ==> k in s.recorded && s.recorded[k] == s.history[k]
    ensures Recovers(s, n) <==> ExactAt(s, n)
  {
    var kept, last := LatestKey(s.history, n), LatestKey(s.recorded, n);
    if kept.Some? {
      LatestIs(OnlyUpTo(s.history, n), kept.value, n);
    } else {
      assert OnlyUpTo(s.history, n) == map[];
    }
  }

  /**
   While the flag is set and no rollback has left the window, rolling back to a block in it recovers the
   last state recorded at or before it, and loses the current state only if none was.
   */
  lemma RollbackTheorem<S(!new), P>(ops: seq<Operation<S, P>>, n: nat)
    requires StaysInWindow(Empty<S>(), ops)
    requires var s := PerformAll(Empty<S>(), ops); s.invalid && InWindow(s, n)
    ensures Recovers(PerformAll(Empty<S>(), ops), n)
  {
    RunTracked(Empty<S>(), ops);
    PruningTheorem(ops, n);
    RecoversWhereExact(PerformAll(Empty<S>(), ops), n);
  }

  // ---------------------------------------------------------------- rollbacks of any depth

  /** The pruned history has an entry to fall back to at or before n, unless nothing was recorded there. */
  ghost predicate Grounded<S>(s: Sub<S>, n: nat) {
    (exists k :: k in s.history && k <= n) || forall j :: j in s.recorded ==> n < j
  }

  /** The state is not older than everything kept. */
  ghost predicate Placed<S>(s: Sub<S>, b: nat) {
    b == 0 || s.history == map[] || exists k :: k in s.history && k <= b
  }

  /** Every rollback of the run is grounded at its moment, and every state set from outside is placed. */
  ghost predicate Careful<S, P>(s: Sub<S>, ops: seq<Operation<S, P>>)
    decreases |ops|
  {
    ops == []
    || (&& (ops[0].RollingBack? ==> Grounded(s, ops[0].to))
        && (ops[0].SettingState? ==> Placed(s, ops[0].blockNumber))
        && Careful(Perform(s, ops[0]), ops[1..]))
  }

  /** Whatever pruning has dropped is older than everything kept, and it never drops everything. */
  ghost predicate Suffixed<S(!new)>(s: Sub<S>) {
    && Coherent(s)
    && (forall k :: k in s.history ==> k in s.recorded && s.recorded[k] == s.history[k])
    && (forall j, k :: j in s.recorded && j !in s.history && k in s.history ==> j < k)
    && (s.state.Some? ==> s.stateBlock <= s.high)
    && KeptInWindow(s)
  }

  /** Anything recorded has an entry at or before it, or at least at or before the window. */
  ghost predicate KeptInWindow<S>(s: Sub<S>) {
    forall j :: j in s.recorded ==> KeptNear(s, j)
  }

  ghost predicate KeptNear<S>(s: Sub<S>, j: nat) {
    exists k :: k in s.history && (k <= j || k <= s.high - MAX_BLOCKS_HISTORY)
  }

  lemma PruneKeeps<S>(h: map<nat, S>, oldest: int, k: nat) returns (kept: nat)
    requires k in h
    ensures kept in Prune(h, oldest) && (kept == k || (k < kept <= oldest))
    ensures k !in Prune(h, oldest) ==> forall i :: i in Prune(h, oldest) ==> k < i
  {
    if exists i :: i in h && i <= oldest && k < i {
      LatestExists(h, oldest);
      kept :| IsLatest(h, kept, oldest);
    } else {
      kept := k;
    }
  }

  lemma SetStateSuffixed<S(!new)>(s: Sub<S>, state: S, b: nat)
    requires Suffixed(s) && Placed(s, b)
    ensures Suffixed(SetState(s, state, b))
  {
    SetStateCoherent(s, state, b);
    if b != 0 {
      var s' := SetState(s, state, b);
      var h := s.history[b := state];
      var oldest := s'.stateBlock - MAX_BLOCKS_HISTORY;
      SetStateHistory(s, state, b);
      forall j, k | j in s'.recorded && j !in s'.history && k in s'.history ensures j < k {
        if j in h {
          var _ := PruneKeeps(h, oldest, j);
        } else {
          PlacedAbove(s, b, j, k);
        }
      }
      forall j | j in s'.recorded ensures KeptNear(s', j) {
        var i := NearEntry(s, b, j);
        var kept := PruneKeeps(h, oldest, i);
        assert kept in s'.history;
      }
    }
  }

  /** An entry dropped before is older than a new one that is placed. */
  lemma PlacedAbove<S(!new)>(s: Sub<S>, b: nat, j: nat, k: nat)
    requires Suffixed(s) && Placed(s, b) && b != 0 && j in s.recorded && j !in s.history && (k in s.history || k == b)
    ensures j < k
  {
    assert KeptNear(s, j);
    if k == b && k !in s.history {
      var i :| i in s.history && i <= b;
    }
  }

  lemma NearEntry<S(!new)>(s: Sub<S>, b: nat, j: nat) returns (i: nat)
    requires Suffixed(s) && (j in s.recorded || j == b)
    ensures (i in s.history || i == b) && (i <= j || i <= s.high - MAX_BLOCKS_HISTORY)
  {
    if j == b {
      i := b;
    } else {
      assert KeptNear(s, j);
      i :| i in s.history && (i <= j || i <= s.high - MAX_BLOCKS_HISTORY);
    }
  }

  lemma PlacedAfter<S>(s: Sub<S>, k: nat, b: nat)
    requires k in s.history && k <= b
    ensures Placed(s, b)
  {
  }

  /** Playing a group onto the last state before it does nothing or sets one placed state. */
  lemma PlayOntoPlaced<S, P>(process: Processor<S, P>, s0: Sub<S>, group: seq<Log<P>>) returns (next: Option<S>)
    requires group != []
    ensures next.Some? ==> Placed(s0, group[0].blockNumber)
    ensures PlayOnto(process, s0, group) == if next.Some? then SetState(s0, next.value, group[0].blockNumber) else s0
  {
    var b: int := group[0].blockNumber;
    var before := LatestKey(s0.history, b - 1);
    next := None;
    if before.Some? {
      next := BlockLogs(process, s0.history[before.value], group);
      PlacedAfter(s0, before.value, b);
    }
  }

  lemma PlayOntoSuffixed<S(!new), P>(process: Processor<S, P>, s0: Sub<S>, group: seq<Log<P>>)
    requires Suffixed(s0) && group != []
    ensures Suffixed(PlayOnto(process, s0, group))
  {
    var next := PlayOntoPlaced(process, s0, group);
    if next.Some? {
      SetStateSuffixed(s0, next.value, group[0].blockNumber);
    }
  }

  lemma PlayGroupSuffixed<S(!new), P>(process: Processor<S, P>, generate: nat -> S, s: Sub<S>, group: seq<Log<P>>)
    requires Suffixed(s) && group != []
    ensures Suffixed(PlayGroup(process, generate, s, group))
  {
    var b: int := group[0].blockNumber;
    if s.state.None? {
      SetStateSuffixed(s, generate(b), b);
    }
    PlayOntoSuffixed(process, if s.state.None? then SetState(s, generate(b), b) else s, group);
  }

  lemma {:induction false} UpdateSuffixed<S(!new), P>(process: Processor<S, P>, generate: nat -> S, s: Sub<S>, logs: seq<Log<P>>)
    requires Suffixed(s)
    ensures Suffixed(UpdateGroups(process, generate, s, logs))
    decreases |logs|
  {
    if logs != [] {
      var n := GroupLength(logs);
      PlayGroupSuffixed(process, generate, s, logs[..n]);
      UpdateSuffixed(process, generate, PlayGroup(process, generate, s, logs[..n]), logs[n..]);
    }
  }

  lemma RollbackSuffixed<S(!new)>(s: Sub<S>, n: nat)
    requires Suffixed(s) && Grounded(s, n)
    ensures Suffixed(Rollback(s, n))
  {
    RollbackCoherent(s, n);
    var s' := Rollback(s, n);
    forall j | j in s'.recorded ensures KeptNear(s', j) {
      RollbackNear(s, n, j);
    }
  }

  lemma RollbackNear<S(!new)>(s: Sub<S>, n: nat, j: nat)
    requires Suffixed(s) && Grounded(s, n) && j in Rollback(s, n).recorded
    ensures KeptNear(Rollback(s, n), j)
  {
    var s' := Rollback(s, n);
    assert KeptNear(s, j);
    var k :| k in s.history && (k <= j || k <= s.high - MAX_BLOCKS_HISTORY);
    if k !in s'.history && j !in s'.history {
      var g :| g in s.history && g <= n;
      assert g in s'.history && n < k;
    }
  }

  lemma RestartSuffixed<S(!new)>(s: Sub<S>, b: nat)
    requires Suffixed(s)
    ensures Suffixed(Restart(s, b))
  {
    RestartCoherent(s, b);
    var s' := Restart(s, b);
    forall j | j in s'.recorded ensures KeptNear(s', j) {
      assert KeptNear(s, j);
      if j !in s'.history {
        var k :| k in s.history && (k <= j || k <= s.high - MAX_BLOCKS_HISTORY);
        assert j < k;
        assert k in s'.history;
      }
    }
  }

  lemma {:induction false} RunSuffixed<S(!new), P>(s: Sub<S>, ops: seq<Operation<S, P>>)
    requires Suffixed(s) && Careful(s, ops)
    ensures Suffixed(PerformAll(s, ops))
    decreases |ops|
  {
    if ops != [] {
      match ops[0] {
        case SettingState(state, b) => SetStateSuffixed(s, state, b);
        case Updating(process, generate, logs) => UpdateSuffixed(process, generate, s, logs);
        case RollingBack(n) => RollbackSuffixed(s, n);
        case Invalidating =>
        case Restarting(b) => RestartSuffixed(s, b);
      }
      RunSuffixed(Perform(s, ops[0]), ops[1..]);
    }
  }

  lemma ExactWhereGrounded<S(!new)>(s: Sub<S>, n: nat)
    requires Suffixed(s)
    ensures ExactAt(s, n) <==> Grounded(s, n)
    ensures InWindow(s, n) ==> Grounded(s, n)
  {
    var kept := LatestKey(s.history, n);
    if kept.Some? {
      forall j | j in s.recorded && j <= n ensures j <= kept.value {
        assert j in s.history || j < kept.value;
      }
      LatestIs(s.recorded, kept.value, n);
    } else if Grounded(s, n) {
      assert LatestKey(s.recorded, n).None?;
    }
    if InWindow(s, n) && exists j :: j in s.recorded && j <= n {
      var j :| j in s.recorded && j <= n;
      assert KeptNear(s, j);
    }
  }

  /**
   After any careful run, and for a block of any age: pruning is invisible there, and an invalid
   subscriber rolled back there recovers the last recorded state, if and only if the rollback is grounded.
   In the window it always is.
   */
  lemma GroundedTheorem<S(!new), P>(ops: seq<Operation<S, P>>, n: nat)
    requires Careful(Empty<S>(), ops)
    ensures var s := PerformAll(Empty<S>(), ops);
            && (ExactAt(s, n) <==> Grounded(s, n))
            && (s.invalid ==> (Recovers(s, n) <==> Grounded(s, n)))
            && (InWindow(s, n) ==> Grounded(s, n))
  {
    RunSuffixed(Empty<S>(), ops);
    var s := PerformAll(Empty<S>(), ops);
    ExactWhereGrounded(s, n);
    if s.invalid {
      RecoversWhereExact(s, n);
    }
  }

  // ---------------------------------------------------------------- a rollback too deep

  /** States recorded at four blocks, the flag raised, and a rollback below everything that pruning has kept. */
  ghost function TooDeep(): seq<Operation<int, int>> {
    [SettingState(1, 100), SettingState(2, 111), SettingState(3, 119), SettingState(4, 120), Invalidating, RollingBack(105)]
  }

  /** Setting a newer state when the last entry at or before the oldest block to keep is known. */
  lemma SetNewer(s: Sub<int>, state: int, b: nat, first: nat)
    requires b > s.high >= s.stateBlock
    requires forall j :: j in s.history ==> j < b && (j <= b - MAX_BLOCKS_HISTORY ==> j <= first)
    requires first in s.history[b := state]
    requires first <= b - MAX_BLOCKS_HISTORY || forall j :: j in s.history ==> first <= j
    ensures SetState(s, state, b)
         == Sub(Some(state), b, OnlyFrom(s.history[b := state], first), false, s.recorded[b := state], b)
  {
    var h, oldest := s.history[b := state], b - MAX_BLOCKS_HISTORY;
    forall k | k in h ensures k in Prune(h, oldest) <==> first <= k {
      if first <= oldest {
        assert first in h;
      }
    }
    assert Prune(h, oldest) == OnlyFrom(h, first);
  }

  /** The subscriber after the first steps of the run. */
  ghost function After(step: nat): Sub<int>
    requires step <= 4
  {
    if step == 0 then Empty<int>()
    else if step == 1 then Sub(Some(1), 100, map[100 := 1], false, map[100 := 1], 100)
    else if step == 2 then Sub(Some(2), 111, map[100 := 1, 111 := 2], false, map[100 := 1, 111 := 2], 111)
    else if step == 3 then Sub(Some(3), 119, map[111 := 2, 119 := 3], false, map[100 := 1, 111 := 2, 119 := 3], 119)
    else Sub(Some(4), 120, map[111 := 2, 119 := 3, 120 := 4], false, map[100 := 1, 111 := 2, 119 := 3, 120 := 4], 120)
  }

  lemma SetStep(step: nat, state: int, b: nat, first: nat)
    requires step < 4 && After(step + 1).state == Some(state) && After(step + 1).stateBlock == b
    requires first == if step < 2 then 100 else 111
    ensures SetState(After(step), state, b) == After(step + 1)
  {
    SetNewer(After(step), state, b, first);
    assert OnlyFrom(After(step).history[b := state], first) == After(step + 1).history;
  }

  lemma DeepStep(s: Sub<int>)
    requires s == After(4).(invalid := true)
    ensures Rollback(s, 105) == Sub<int>.Sub(None, 105, map[], true, map[100 := 1], 120)
  {
    assert OnlyUpTo(s.history, 105) == map[];
    assert OnlyUpTo(s.recorded, 105) == map[100 := 1];
  }

  /** What the run leaves: the state at block 100 was recorded and never withdrawn, and is gone. */
  lemma TooDeepLeaves()
    ensures PerformAll(Empty<int>(), TooDeep()) == Sub<int>.Sub(None, 105, map[], true, map[100 := 1], 120)
  {
    SetStep(0, 1, 100, 100);
    SetStep(1, 2, 111, 100);
    SetStep(2, 3, 119, 111);
    SetStep(3, 4, 120, 111);
    var s5 := After(4).(invalid := true);
    DeepStep(s5);
    SixSteps(Empty<int>(), TooDeep(), After(1), After(2), After(3), After(4), s5, Rollback(s5, 105));
  }

  lemma SixSteps(s: Sub<int>, ops: seq<Operation<int, int>>, s1: Sub<int>, s2: Sub<int>, s3: Sub<int>, s4: Sub<int>, s5: Sub<int>,
                 s6: Sub<int>)
    requires |ops| == 6 && Perform(s, ops[0]) == s1 && Perform(s1, ops[1]) == s2 && Perform(s2, ops[2]) == s3
    requires Perform(s3, ops[3]) == s4 && Perform(s4, ops[4]) == s5 && Perform(s5, ops[5]) == s6
    ensures PerformAll(s, ops) == s6
  {
    assert PerformAll(s, ops) == PerformAll(s1, ops[1..]);
    assert ops[1..][1..] == ops[2..] && PerformAll(s1, ops[1..]) == PerformAll(s2, ops[2..]);
    assert ops[2..][1..] == ops[3..] && PerformAll(s2, ops[2..]) == PerformAll(s3, ops[3..]);
    assert ops[3..][1..] == ops[4..] && PerformAll(s3, ops[3..]) == PerformAll(s4, ops[4..]);
    assert ops[4..][1..] == ops[5..] && PerformAll(s4, ops[4..]) == PerformAll(s5, ops[5..]);
    assert ops[5..][1..] == [] && PerformAll(s5, ops[5..]) == s6;
  }

  /**
   A second rollback then fails inside the window: block 115 is within seven blocks of the highest state,
   block 100 was recorded before it, and the state ends as none.
   */
  lemma DeepRollbackLosesState()
    ensures var s := PerformAll(Empty<int>(), TooDeep());
            && s.invalid && InWindow(s, 115) && 100 in s.recorded
            && Rollback(s, 115).state.None? && !Recovers(s, 115)
            && !Grounded(s, 115)
  {
    TooDeepLeaves();
    var s := PerformAll(Empty<int>(), TooDeep());
    LatestIs(s.recorded, 100, 115);
    assert OnlyUpTo(s.history, 115) == map[];
  }
}
