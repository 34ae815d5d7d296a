/**
 What a stateful event subscriber promises over whole runs: whatever the block manager delivers,
 reorganises, rolls back or skips, a stored state is the replay of the canonical chain to its block,
 and pruning the history is never noticed within MAX_BLOCKS_HISTORY blocks of the highest state.
 */
module SubscriberRuns {
  import opened Wrappers
  import opened SubscriberSpec

  // ---------------------------------------------------------------- the chain

  /** The chain seen by the subscriber: its logs block by block, played onto a genesis state. */
  datatype World<!S, !P> = World(process: Processor<S, P>, genesis: S, chain: nat -> seq<Log<P>>)

  ghost predicate ValidWorld<S(!new), P(!new)>(w: World<S, P>) {
    forall b: nat, i | 0 <= i < |w.chain(b)| :: w.chain(b)[i].blockNumber == b
  }

  ghost function PlayAll<S, P>(process: Processor<S, P>, state: S, logs: seq<Log<P>>): S
    decreases |logs|
  {
    if logs == [] then state
    else PlayAll(process, Or(process(state, logs[0]), state), logs[1..])
  }

  /** The state at block b, by definition: every log up to b, once, in order. */
  ghost function Replay<S, P>(w: World<S, P>, b: nat): S {
    PlayAll(w.process, if b == 0 then w.genesis else Replay(w, b - 1), w.chain(b))
  }

  ghost function Replays<S, P>(w: World<S, P>): nat -> S {
    (b: nat) => Replay(w, b)
  }

  /** The logs of the blocks after d up to and including e, as update receives them. */
  ghost function Logs<S, P>(w: World<S, P>, d: nat, e: nat): seq<Log<P>>
    requires d <= e
    decreases e - d
  {
    if d == e then [] else w.chain(d + 1) + Logs(w, d + 1, e)
  }

  lemma {:induction false} BlockLogsPlayAll<S, P>(process: Processor<S, P>, state: S, next: Option<S>, logs: seq<Log<P>>)
    ensures Or(BlockLogsFrom(process, state, next, logs), state) == PlayAll(process, Or(next, state), logs)
    decreases |logs|
  {
    if logs != [] {
      var ret := process(Or(next, state), logs[0]);
      BlockLogsPlayAll(process, state, if ret.Some? then ret else next, logs[1..]);
    }
  }

  lemma BlockReplay<S, P>(w: World<S, P>, b: nat)
    requires b > 0
    ensures Or(BlockLogs(w.process, Replay(w, b - 1), w.chain(b)), Replay(w, b - 1)) == Replay(w, b)
  {
    BlockLogsPlayAll(w.process, Replay(w, b - 1), None, w.chain(b));
  }

  // ---------------------------------------------------------------- one consistent state

  /** The bookkeeping between the current state and the history. */
  ghost predicate Coherent<S(!new)>(s: Sub<S>) {
    && 0 !in s.history
    && (s.state.None? <==> s.history == map[])
    && (forall k :: k in s.history ==> k <= s.stateBlock)
    && (s.state.Some? ==> s.stateBlock in s.history && s.history[s.stateBlock] == s.state.value)
  }

  /** Every entry is the state at its block, and up to block d the entries have missed nothing since. */
  ghost predicate Faithful<S(!new)>(at: nat -> S, h: map<nat, S>, d: nat) {
    && (forall k :: k in h ==> h[k] == at(k))
    && (forall k: nat, b: nat {:trigger IsLatest(h, k, b)} :: IsLatest(h, k, b) && b <= d ==> at(k) == at(b))
  }

  ghost predicate Consistent<S(!new)>(at: nat -> S, s: Sub<S>, d: nat) {
    Coherent(s) && Faithful(at, s.history, d)
  }

  ghost predicate CurrentUnlessInvalid<S(!new)>(at: nat -> S, s: Sub<S>) {
    !s.invalid && s.state.Some? ==> s.state.value == at(s.stateBlock)
  }

  /**
   Between a chain reorganisation with common ancestor `fork` and the rollback it calls for, what
   lies after the fork may be stale, unless a state set since then has cleared the invalid flag.
   */
  ghost predicate ConsistentUpTo<S(!new)>(at: nat -> S, s: Sub<S>, d: nat, fork: nat) {
    && Coherent(s)
    && Faithful(at, OnlyUpTo(s.history, fork), if d < fork then d else fork)
    && CurrentUnlessInvalid(at, s)
  }

  /** A state may be set at or after the delivered blocks, or where an older one is on record. */
  ghost predicate Gapless<S(!new)>(h: map<nat, S>, b: nat, d: nat) {
    b >= d || exists k :: k in h && k <= b
  }

  // ---------------------------------------------------------------- setState

  lemma InsertLatest<S>(h: map<nat, S>, b: nat, v: S, k: nat, e: int)
    requires IsLatest(h[b := v], k, e)
    ensures k != b ==> IsLatest(h, k, e)
    ensures k == b ==> forall j :: IsLatest(h, j, b) ==> IsLatest(h, j, e)
  {
    forall j | j in h && j <= e ensures j <= k {
      assert j in h[b := v];
    }
  }

  lemma InsertFaithful<S(!new)>(at: nat -> S, h: map<nat, S>, b: nat, d: nat)
    requires Faithful(at, h, d) && Gapless(h, b, d)
    ensures Faithful(at, h[b := at(b)], d)
  {
    var h' := h[b := at(b)];
    forall k: nat, e: nat | IsLatest(h', k, e) && e <= d ensures at(k) == at(e) {
      InsertLatest(h, b, at(b), k, e);
      if k == b && e != b {
        LatestExists(h, b);
        var j :| IsLatest(h, j, b);
      }
    }
  }

  lemma PruneFaithful<S(!new)>(at: nat -> S, h: map<nat, S>, oldest: int, d: nat)
    requires Faithful(at, h, d)
    ensures Faithful(at, Prune(h, oldest), d)
  {
    forall k: nat, e: nat | IsLatest(Prune(h, oldest), k, e) && e <= d ensures at(k) == at(e) {
      PruneLatest(h, oldest, k, e);
    }
  }

  lemma SetStateCoherent<S(!new)>(s: Sub<S>, state: S, b: nat)
    requires Coherent(s)
    ensures Coherent(SetState(s, state, b))
  {
    var s' := SetState(s, state, b);
    assert b != 0 ==> s'.stateBlock in s'.history;
  }

  lemma SetStateHistory<S>(s: Sub<S>, state: S, b: nat)
    requires b != 0
    ensures var s' := SetState(s, state, b);
            s'.history == Prune(s.history[b := state], s'.stateBlock - MAX_BLOCKS_HISTORY)
  {
  }

  lemma SetStatePrunes<S>(s: Sub<S>, state: S, b: nat) returns (oldest: int)
    requires b != 0
    ensures SetState(s, state, b).history == Prune(s.history[b := state], oldest)
  {
    oldest := SetState(s, state, b).stateBlock - MAX_BLOCKS_HISTORY;
  }

  lemma SetStateFaithful<S(!new)>(at: nat -> S, s: Sub<S>, b: nat, d: nat)
    requires Faithful(at, s.history, d) && (b == 0 || Gapless(s.history, b, d))
    ensures Faithful(at, SetState(s, at(b), b).history, d)
  {
    if b != 0 {
      InsertFaithful(at, s.history, b, d);
      var oldest := SetStatePrunes(s, at(b), b);
      PruneFaithful(at, s.history[b := at(b)], oldest, d);
    }
  }

  /** Recording the state at a block keeps everything consistent, unless it would open a gap. */
  lemma SetStateConsistent<S(!new)>(at: nat -> S, s: Sub<S>, b: nat, d: nat)
    requires Consistent(at, s, d) && (b == 0 || Gapless(s.history, b, d))
    ensures Consistent(at, SetState(s, at(b), b), d)
  {
    SetStateCoherent(s, at(b), b);
    SetStateFaithful(at, s, b, d);
  }

  // ---------------------------------------------------------------- update

  /** Recording block b's state also accounts for block b's logs. */
  lemma SetStateAdvances<S(!new)>(at: nat -> S, s: Sub<S>, b: nat)
    requires b > 0 && Consistent(at, s, b - 1)
    ensures Consistent(at, SetState(s, at(b), b), b)
  {
    SetStateConsistent(at, s, b, b - 1);
    SetStateHistory(s, at(b), b);
    var s' := SetState(s, at(b), b);
    forall k: nat | IsLatest(s'.history, k, b) ensures k == b {
      PruneLatest(s.history[b := at(b)], s'.stateBlock - MAX_BLOCKS_HISTORY, k, b);
      assert b in s.history[b := at(b)];
    }
  }

  /** A block that changes nothing is accounted for by doing nothing. */
  lemma QuietBlock<S(!new)>(at: nat -> S, s: Sub<S>, b: nat)
    requires b > 0 && Consistent(at, s, b - 1)
    requires LatestKey(s.history, b - 1).Some? ==> at(b) == at(b - 1)
    ensures Consistent(at, s, b)
  {
    forall k: nat | IsLatest(s.history, k, b) ensures at(k) == at(b) {
      if k != b {
        assert IsLatest(s.history, k, b - 1);
        assert LatestKey(s.history, b - 1).Some?;
      }
    }
  }

  lemma FreshBlock<S(!new)>(at: nat -> S, s: Sub<S>, b: nat)
    requires b > 0 && Consistent(at, s, b - 1) && s.state.None?
    ensures Consistent(at, SetState(s, at(b), b), b)
    ensures LatestKey(SetState(s, at(b), b).history, b - 1).None?
  {
    SetStateAdvances(at, s, b);
    SetStateHistory(s, at(b), b);
  }

  /** Playing block b onto the state at b - 1 leaves everything as it is, or records the state at b. */
  lemma PlayedIs<S(!new), P(!new)>(w: World<S, P>, s: Sub<S>, b: nat, k: nat)
    requires ValidWorld(w) && b > 0 && w.chain(b) != [] && k in s.history && s.history[k] == Replay(w, b - 1)
    requires LatestKey(s.history, b - 1) == Some(k)
    ensures var p := PlayOnto(w.process, s, w.chain(b));
            (p == s && Replay(w, b) == Replay(w, b - 1)) || p == SetState(s, Replay(w, b), b)
  {
    assert w.chain(b)[0].blockNumber == b;
    BlockReplay(w, b);
  }

  /** A block's logs played onto the last state before it. */
  lemma PlayedConsistent<S(!new), P(!new)>(w: World<S, P>, s: Sub<S>, b: nat)
    requires ValidWorld(w) && b > 0 && w.chain(b) != [] && Consistent(Replays(w), s, b - 1)
    ensures Consistent(Replays(w), PlayOnto(w.process, s, w.chain(b)), b)
  {
    var at, j := Replays(w), b - 1;
    assert w.chain(b)[0].blockNumber == b;
    var before := LatestKey(s.history, j);
    if before.None? {
      QuietBlock(at, s, b);
    } else {
      assert s.history[before.value] == at(before.value) == at(j);
      PlayedIs(w, s, b, before.value);
      if Replay(w, b) == Replay(w, j) {
        QuietBlock(at, s, b);
      }
      SetStateAdvances(at, s, b);
    }
  }

  /** One delivered block: its logs are played exactly once, and not at all onto a fresh state. */
  lemma GroupConsistent<S(!new), P(!new)>(w: World<S, P>, s: Sub<S>, b: nat)
    requires ValidWorld(w) && b > 0 && w.chain(b) != [] && Consistent(Replays(w), s, b - 1)
    ensures Consistent(Replays(w), PlayGroup(w.process, Replays(w), s, w.chain(b)), b)
  {
    assert w.chain(b)[0].blockNumber == b;
    if s.state.None? {
      FreshBlock(Replays(w), s, b);
    } else {
      PlayedConsistent(w, s, b);
    }
  }

  lemma {:induction false} LogsInRange<S(!new), P(!new)>(w: World<S, P>, d: nat, e: nat)
    requires ValidWorld(w) && d <= e
    ensures forall i :: 0 <= i < |Logs(w, d, e)| ==> d < Logs(w, d, e)[i].blockNumber <= e
    decreases e - d
  {
    if d < e {
      LogsInRange(w, d + 1, e);
    }
  }

  lemma FirstGroup<S(!new), P(!new)>(w: World<S, P>, s: Sub<S>, d: nat, e: nat)
    requires ValidWorld(w) && d < e && w.chain(d + 1) != []
    ensures UpdateGroups(w.process, Replays(w), s, Logs(w, d, e))
         == UpdateGroups(w.process, Replays(w), PlayGroup(w.process, Replays(w), s, w.chain(d + 1)), Logs(w, d + 1, e))
  {
    var logs, first, rest := Logs(w, d, e), w.chain(d + 1), Logs(w, d + 1, e);
    LogsInRange(w, d + 1, e);
    assert logs == first + rest;
    forall i | 0 <= i < |logs| ensures logs[i].blockNumber == d + 1 <==> i < |first| {
      assert i >= |first| ==> logs[i] == rest[i - |first|];
    }
    assert logs[0].blockNumber == d + 1;
    GroupIs(logs, |first|);
    assert logs[..|first|] == first && logs[|first|..] == rest;
  }

  /** The same delivery, block by block. */
  ghost function PlayBlocks<S(!new), P(!new)>(w: World<S, P>, s: Sub<S>, d: nat, e: nat): Sub<S>
    requires d <= e
    decreases e - d
  {
    if d == e then s else PlayBlocks(w, PlayBlock(w, s, d + 1), d + 1, e)
  }

  ghost function PlayBlock<S(!new), P(!new)>(w: World<S, P>, s: Sub<S>, b: nat): Sub<S> {
    if w.chain(b) == [] then s else PlayGroup(w.process, Replays(w), s, w.chain(b))
  }

  lemma {:induction false} GroupsAreBlocks<S(!new), P(!new)>(w: World<S, P>, s: Sub<S>, d: nat, e: nat)
    requires ValidWorld(w) && d <= e
    ensures UpdateGroups(w.process, Replays(w), s, Logs(w, d, e)) == PlayBlocks(w, s, d, e)
    decreases e - d
  {
    if d < e {
      GroupsAreBlocks(w, PlayBlock(w, s, d + 1), d + 1, e);
      if w.chain(d + 1) == [] {
        assert Logs(w, d, e) == Logs(w, d + 1, e);
      } else {
        FirstGroup(w, s, d, e);
      }
    }
  }

  lemma BlockConsistent<S(!new), P(!new)>(w: World<S, P>, s: Sub<S>, b: nat)
    requires ValidWorld(w) && b > 0 && Consistent(Replays(w), s, b - 1)
    ensures Consistent(Replays(w), PlayBlock(w, s, b), b)
  {
    if w.chain(b) == [] {
      QuietBlock(Replays(w), s, b);
    } else {
      GroupConsistent(w, s, b);
    }
  }

  lemma {:induction false} BlocksConsistent<S(!new), P(!new)>(w: World<S, P>, s: Sub<S>, d: nat, e: nat)
    requires ValidWorld(w) && d <= e && Consistent(Replays(w), s, d)
    ensures Consistent(Replays(w), PlayBlocks(w, s, d, e), e)
    decreases e - d
  {
    if d < e {
      var b := d + 1;
      var played := PlayBlock(w, s, b);
      BlockConsistent(w, s, b);
      BlocksConsistent(w, played, b, e);
    }
  }

  /** Delivering the chain's logs from d to e takes a state consistent to d to one consistent to e. */
  lemma DeliverConsistent<S(!new), P(!new)>(w: World<S, P>, s: Sub<S>, d: nat, e: nat)
    requires ValidWorld(w) && d <= e && Consistent(Replays(w), s, d)
    ensures Consistent(Replays(w), Update(w.process, Replays(w), s, Logs(w, d, e)), e)
  {
    GroupsAreBlocks(w, s, d, e);
    BlocksConsistent(w, s, d, e);
  }

  // ---------------------------------------------------------------- reorganisation, rollback, restart

  function Min(a: nat, b: nat): nat {
    if a < b then a else b
  }

  function Max(a: nat, b: nat): nat {
    if a < b then b else a
  }

  ghost predicate SameUpTo<S(!new), P(!new)>(w: World<S, P>, w': World<S, P>, f: nat) {
    w.process == w'.process && w.genesis == w'.genesis && forall b: nat :: b <= f ==> w.chain(b) == w'.chain(b)
  }

  lemma {:induction false} SameReplay<S(!new), P(!new)>(w: World<S, P>, w': World<S, P>, f: nat, b: nat)
    requires SameUpTo(w, w', f) && b <= f
    ensures Replay(w, b) == Replay(w', b)
    decreases b
  {
    assert w.chain(b) == w'.chain(b);
    if b > 0 {
      SameReplay(w, w', f, b - 1);
    }
  }

  /** A consistent state is consistent up to any fork; one with a fork, up to any earlier fork. */
  lemma EarlierFork<S(!new)>(at: nat -> S, s: Sub<S>, d: nat, fork: nat, f: nat)
    requires f <= fork && Coherent(s) && Faithful(at, OnlyUpTo(s.history, fork), Min(d, fork))
    ensures Faithful(at, OnlyUpTo(s.history, f), Min(d, f))
  {
    forall k: nat, e: nat | IsLatest(OnlyUpTo(s.history, f), k, e) && e <= Min(d, f) ensures at(k) == at(e) {
      LatestWithin(s.history, f, fork, k, e);
    }
  }

  /** At or before f, cutting the history at f or anywhere later makes no difference. */
  lemma LatestWithin<S>(h: map<nat, S>, f: nat, fork: nat, k: nat, e: int)
    requires f <= fork && e <= f
    ensures IsLatest(OnlyUpTo(h, f), k, e) <==> IsLatest(OnlyUpTo(h, fork), k, e)
    ensures IsLatest(OnlyUpTo(h, f), k, e) <==> IsLatest(h, k, e)
  {
    if IsLatest(OnlyUpTo(h, f), k, e) {
      forall j | j in h && j <= e ensures j <= k {
        assert j in OnlyUpTo(h, f);
      }
    }
    if IsLatest(OnlyUpTo(h, fork), k, e) {
      forall j | j in h && j <= e ensures j <= k {
        assert j in OnlyUpTo(h, fork);
      }
    }
  }

  lemma ForkOfConsistent<S(!new)>(at: nat -> S, s: Sub<S>, d: nat, f: nat)
    requires Consistent(at, s, d)
    ensures ConsistentUpTo(at, s, d, f)
  {
    forall k: nat, e: nat | IsLatest(OnlyUpTo(s.history, f), k, e) && e <= Min(d, f) ensures at(k) == at(e) {
      LatestWithin(s.history, f, f, k, e);
    }
  }

  /** The chain changes after block f and the flag is raised: what is stored up to f still holds. */
  lemma ReorganiseConsistent<S(!new)>(at: nat -> S, at': nat -> S, s: Sub<S>, d: nat, fork: nat, f: nat)
    requires ConsistentUpTo(at, s, d, fork) && f <= fork
    requires forall b: nat :: b <= f ==> at(b) == at'(b)
    ensures ConsistentUpTo(at', Invalidate(s), d, f)
  {
    EarlierFork(at, s, d, fork, f);
  }

  lemma InsertUpTo<S(!new)>(at: nat -> S, h: map<nat, S>, b: nat, d: nat, fork: nat)
    requires Faithful(at, OnlyUpTo(h, fork), d) && Gapless(OnlyUpTo(h, fork), b, d)
    ensures Faithful(at, OnlyUpTo(h[b := at(b)], fork), d)
  {
    var kept := OnlyUpTo(h, fork);
    InsertFaithful(at, kept, b, d);
    assert OnlyUpTo(h[b := at(b)], fork) == if b <= fork then kept[b := at(b)] else kept;
  }

  lemma PruneUpTo<S(!new)>(at: nat -> S, h: map<nat, S>, oldest: int, d: nat, fork: nat)
    requires d <= fork && Faithful(at, OnlyUpTo(h, fork), d)
    ensures Faithful(at, OnlyUpTo(Prune(h, oldest), fork), d)
  {
    var p := Prune(h, oldest);
    forall k: nat, e: nat | IsLatest(OnlyUpTo(p, fork), k, e) && e <= d ensures at(k) == at(e) {
      LatestWithin(p, fork, fork, k, e);
      PruneLatest(h, oldest, k, e);
      LatestWithin(h, fork, fork, k, e);
    }
    forall k | k in OnlyUpTo(p, fork) ensures p[k] == at(k) {
      assert k in OnlyUpTo(h, fork);
    }
  }

  lemma SetStateFaithfulUpTo<S(!new)>(at: nat -> S, s: Sub<S>, b: nat, d: nat, fork: nat)
    requires d <= fork && Faithful(at, OnlyUpTo(s.history, fork), d)
    requires b == 0 || Gapless(OnlyUpTo(s.history, fork), b, d)
    ensures Faithful(at, OnlyUpTo(SetState(s, at(b), b).history, fork), d)
  {
    if b != 0 {
      InsertUpTo(at, s.history, b, d, fork);
      var oldest := SetStatePrunes(s, at(b), b);
      PruneUpTo(at, s.history[b := at(b)], oldest, d, fork);
    }
  }

  lemma SetStateCurrent<S(!new)>(at: nat -> S, s: Sub<S>, b: nat)
    requires CurrentUnlessInvalid(at, s)
    ensures CurrentUnlessInvalid(at, SetState(s, at(b), b))
  {
  }

  lemma SetStateWhileForked<S(!new)>(at: nat -> S, s: Sub<S>, b: nat, d: nat, fork: nat)
    requires ConsistentUpTo(at, s, d, fork)
    requires b == 0 || Gapless(OnlyUpTo(s.history, fork), b, Min(d, fork))
    ensures ConsistentUpTo(at, SetState(s, at(b), b), d, fork)
  {
    SetStateCoherent(s, at(b), b);
    SetStateFaithfulUpTo(at, s, b, Min(d, fork), fork);
    SetStateCurrent(at, s, b);
  }

  lemma RollbackCoherent<S(!new)>(s: Sub<S>, n: nat)
    requires Coherent(s)
    ensures Coherent(Rollback(s, n))
  {
    var s' := Rollback(s, n);
    if s.invalid {
      var last := LatestKey(OnlyUpTo(s.history, n), n);
      assert s'.history == OnlyUpTo(s.history, n);
      if last.Some? {
        assert last.value in s'.history;
      }
    } else if s.state.Some? {
      assert s.stateBlock in s'.history;
    }
  }

  /** Rolling back to a block at or before the fork restores consistency on the new chain. */
  lemma RollbackConsistent<S(!new)>(at: nat -> S, s: Sub<S>, d: nat, fork: nat, n: nat)
    requires ConsistentUpTo(at, s, d, fork) && n <= fork
    ensures Consistent(at, Rollback(s, n), Min(d, n))
  {
    RollbackCoherent(s, n);
    var h' := Rollback(s, n).history;
    forall k: nat, e: nat | IsLatest(h', k, e) && e <= Min(d, n) ensures at(k) == at(e) {
      assert IsLatest(OnlyUpTo(s.history, fork), k, e) by {
        forall j | j in s.history && j <= e ensures j <= k {
          assert j in h';
        }
      }
    }
    forall k | k in h' ensures h'[k] == at(k) {
      assert k <= n ==> k in OnlyUpTo(s.history, fork);
    }
  }

  lemma RestartCoherent<S(!new)>(s: Sub<S>, b: nat)
    requires Coherent(s)
    ensures Coherent(Restart(s, b))
  {
    var s' := Restart(s, b);
    if s.state.Some? && b <= s.stateBlock {
      assert s.stateBlock in s'.history;
    }
  }

  /** Skipping every event up to block b: the older states go, and b counts as delivered. */
  lemma RestartConsistent<S(!new)>(at: nat -> S, s: Sub<S>, d: nat, b: nat)
    requires Consistent(at, s, d)
    ensures Consistent(at, Restart(s, b), Max(d, b))
  {
    RestartCoherent(s, b);
    var h' := Restart(s, b).history;
    forall k: nat, e: nat | IsLatest(h', k, e) && e <= Max(d, b) ensures at(k) == at(e) {
      if k != e {
        assert IsLatest(s.history, k, e) by {
          forall j | j in s.history && j <= e ensures j <= k {
            assert j < b || j in h';
          }
        }
      }
    }
  }

  // ---------------------------------------------------------------- whole runs

  /** The subscriber, the chain it follows, the last block delivered to it, and a fork not yet rolled back. */
  datatype System<!S, !P> = System(sub: Sub<S>, world: World<S, P>, delivered: nat, fork: Option<nat>)

  datatype Event<!S, !P> =
    | StateSet(blockNumber: nat)
    | Delivered(upTo: nat)
    | Reorganised(newWorld: World<S, P>, ancestor: nat)
    | RolledBack(to: nat)
    | Invalidated
    | Restarted(from: nat)

  /** What the block manager, and whoever sets states from outside, may do next. */
  ghost predicate Enabled<S(!new), P(!new)>(y: System<S, P>, e: Event<S, P>) {
    match e
    case StateSet(b) =>
      var known := if y.fork.None? then y.sub.history else OnlyUpTo(y.sub.history, y.fork.value);
      b == 0 || Gapless(known, b, if y.fork.None? then y.delivered else Min(y.delivered, y.fork.value))
    case Delivered(upTo) => y.fork.None? && upTo >= y.delivered
    case Reorganised(w, f) => ValidWorld(w) && SameUpTo(y.world, w, f)
    case RolledBack(n) => y.fork.Some? ==> n <= y.fork.value
    case Invalidated => true
    case Restarted(_) => y.fork.None?
  }

  ghost function Apply<S(!new), P(!new)>(y: System<S, P>, e: Event<S, P>): System<S, P>
    requires Enabled(y, e)
  {
    match e
    case StateSet(b) => y.(sub := SetState(y.sub, Replay(y.world, b), b))
    case Delivered(upTo) =>
      y.(sub := Update(y.world.process, Replays(y.world), y.sub, Logs(y.world, y.delivered, upTo)), delivered := upTo)
    case Reorganised(w, f) =>
      y.(sub := Invalidate(y.sub), world := w, fork := Some(if y.fork.None? then f else Min(f, y.fork.value)))
    case RolledBack(n) => y.(sub := Rollback(y.sub, n), delivered := Min(y.delivered, n), fork := None)
    case Invalidated => y.(sub := Invalidate(y.sub))
    case Restarted(b) => y.(sub := Restart(y.sub, b), delivered := Max(y.delivered, b))
  }

  ghost predicate Sound<S(!new), P(!new)>(y: System<S, P>) {
    && ValidWorld(y.world)
    && (y.fork.None? ==> Consistent(Replays(y.world), y.sub, y.delivered))
    && (y.fork.Some? ==> ConsistentUpTo(Replays(y.world), y.sub, y.delivered, y.fork.value))
  }

  lemma SameReplays<S(!new), P(!new)>(w: World<S, P>, w': World<S, P>, f: nat)
    requires SameUpTo(w, w', f)
    ensures forall b: nat :: b <= f ==> Replays(w)(b) == Replays(w')(b)
  {
    forall b: nat | b <= f ensures Replay(w, b) == Replay(w', b) {
      SameReplay(w, w', f, b);
    }
  }

  lemma StepSound<S(!new), P(!new)>(y: System<S, P>, e: Event<S, P>)
    requires Sound(y) && Enabled(y, e)
    ensures Sound(Apply(y, e))
  {
    var at := Replays(y.world);
    match e
    case StateSet(b) =>
      if y.fork.None? {
        SetStateConsistent(at, y.sub, b, y.delivered);
      } else {
        SetStateWhileForked(at, y.sub, b, y.delivered, y.fork.value);
      }
    case Delivered(upTo) =>
      DeliverConsistent(y.world, y.sub, y.delivered, upTo);
    case Reorganised(w, f) =>
      var fork := if y.fork.None? then f else y.fork.value;
      if y.fork.None? {
        ForkOfConsistent(at, y.sub, y.delivered, f);
      }
      SameReplays(y.world, w, f);
      ReorganiseConsistent(at, Replays(w), y.sub, y.delivered, fork, Min(f, fork));
    case RolledBack(n) =>
      if y.fork.None? {
        ForkOfConsistent(at, y.sub, y.delivered, n);
      }
      RollbackConsistent(at, y.sub, y.delivered, if y.fork.None? then n else y.fork.value, n);
    case Invalidated =>
    case Restarted(b) =>
      RestartConsistent(at, y.sub, y.delivered, b);
  }

  ghost predicate Run<S(!new), P(!new)>(y: System<S, P>, events: seq<Event<S, P>>, z: System<S, P>)
    decreases |events|
  {
    if events == [] then y == z
    else Enabled(y, events[0]) && Run(Apply(y, events[0]), events[1..], z)
  }

  ghost function Start<S, P>(w: World<S, P>, delivered: nat): System<S, P> {
    System(Sub(None, 0, map[], false, map[], 0), w, delivered, None)
  }

  lemma {:induction false} RunSound<S(!new), P(!new)>(y: System<S, P>, events: seq<Event<S, P>>, z: System<S, P>)
    requires Sound(y) && Run(y, events, z)
    ensures Sound(z)
    decreases |events|
  {
    if events != [] {
      StepSound(y, events[0]);
      RunSound(Apply(y, events[0]), events[1..], z);
    }
  }

  /**
   After any run from an empty subscriber, outside an unfinished reorganisation: every stored entry
   and the current state are replays of the canonical chain, and a current state not newer than the
   last delivered block is the state at that block.
   */
  lemma ReplayTheorem<S(!new), P(!new)>(w: World<S, P>, d: nat, events: seq<Event<S, P>>, z: System<S, P>)
    requires ValidWorld(w) && Run(Start(w, d), events, z) && z.fork.None?
    ensures z.sub.state.None? <==> z.sub.history == map[]
    ensures forall k :: k in z.sub.history ==> z.sub.history[k] == Replay(z.world, k)
    ensures z.sub.state.Some? ==> z.sub.state.value == Replay(z.world, z.sub.stateBlock)
    ensures z.sub.state.Some? && z.sub.stateBlock <= z.delivered ==> z.sub.state.value == Replay(z.world, z.delivered)
    ensures forall k: nat, b: nat {:trigger IsLatest(z.sub.history, k, b)} ::
              IsLatest(z.sub.history, k, b) && b <= z.delivered ==> z.sub.history[k] == Replay(z.world, b)
  {
    RunSound(Start(w, d), events, z);
    if z.sub.state.Some? && z.sub.stateBlock <= z.delivered {
      assert IsLatest(z.sub.history, z.sub.stateBlock, z.delivered);
    }
  }

  /**
   After any run, also while a reorganisation has not been rolled back yet: a state that is handed out is
   the replay of the chain as it now is, at the block it claims.
   */
  lemma HandedOutTheorem<S(!new), P(!new)>(w: World<S, P>, d: nat, events: seq<Event<S, P>>, z: System<S, P>,
                                           minBlockNumber: nat, isTracking: bool)
    requires ValidWorld(w) && Run(Start(w, d), events, z)
    ensures var r := HandedOut(z.sub, minBlockNumber, isTracking);
            r.Some? ==> r.value == Replay(z.world, z.sub.stateBlock) && (isTracking || minBlockNumber <= z.sub.stateBlock)
  {
    RunSound(Start(w, d), events, z);
  }

  // ---------------------------------------------------------------- what is handed out, and when

  lemma PlayOntoKeeps<S, P>(process: Processor<S, P>, s0: Sub<S>, group: seq<Log<P>>)
    requires group != [] && s0.state.Some?
    ensures var s' := PlayOnto(process, s0, group); s'.state.Some? && s0.stateBlock <= s'.stateBlock
  {
  }

  lemma {:induction false} GroupsKeep<S, P>(process: Processor<S, P>, generate: nat -> S, s: Sub<S>, logs: seq<Log<P>>)
    requires s.state.Some?
    ensures var s' := UpdateGroups(process, generate, s, logs); s'.state.Some? && s.stateBlock <= s'.stateBlock
    decreases |logs|
  {
    if logs != [] {
      var n := GroupLength(logs);
      PlayOntoKeeps(process, s, logs[..n]);
      GroupsKeep(process, generate, PlayGroup(process, generate, s, logs[..n]), logs[n..]);
    }
  }

  /**
   An update always ends with the flag cleared. With no logs that is all it does; a state stays a state and
   never goes back, and where there was none the first block's logs bring one.
   */
  lemma UpdateTheorem<S, P>(process: Processor<S, P>, generate: nat -> S, s: Sub<S>, logs: seq<Log<P>>)
    ensures var s' := Update(process, generate, s, logs);
            && !s'.invalid
            && (logs == [] ==> s'.state == s.state && s'.stateBlock == s.stateBlock && s'.history == s.history)
            && (s.state.Some? ==> s'.state.Some? && s.stateBlock <= s'.stateBlock)
            && (logs != [] && logs[0].blockNumber > 0 ==> s'.state.Some?)
  {
    if s.state.Some? {
      GroupsKeep(process, generate, s, logs);
    } else if logs != [] && logs[0].blockNumber > 0 {
      var n, b := GroupLength(logs), logs[0].blockNumber;
      var s0 := SetState(s, generate(b), b);
      PlayOntoKeeps(process, s0, logs[..n]);
      GroupsKeep(process, generate, PlayOnto(process, s0, logs[..n]), logs[n..]);
    }
  }

  /**
   Whatever has happened before, also an invalidation: once blocks have been delivered, a subscriber that had
   a state hands one out, the replay of the chain to its block, exactly to whoever is tracking or asks for
   nothing newer. It never goes back, and unless it is from the future it is the state at the last block.
   */
  lemma DeliveredTheorem<S(!new), P(!new)>(w: World<S, P>, d: nat, events: seq<Event<S, P>>, y: System<S, P>, upTo: nat,
                                           minBlockNumber: nat, isTracking: bool)
    requires ValidWorld(w) && Run(Start(w, d), events, y) && Enabled(y, Delivered(upTo)) && y.sub.state.Some?
    ensures var z := Apply(y, Delivered(upTo));
            var r := HandedOut(z.sub, minBlockNumber, isTracking);
            && y.sub.stateBlock <= z.sub.stateBlock
            && (r.Some? <==> isTracking || minBlockNumber <= z.sub.stateBlock)
            && (r.Some? ==> r.value == Replay(z.world, z.sub.stateBlock))
            && (r.Some? && z.sub.stateBlock <= upTo ==> r.value == Replay(z.world, upTo))
  {
    RunSound(Start(w, d), events, y);
    StepSound(y, Delivered(upTo));
    UpdateTheorem(y.world.process, Replays(y.world), y.sub, Logs(y.world, y.delivered, upTo));
    var z := Apply(y, Delivered(upTo));
    if z.sub.stateBlock <= upTo {
      assert IsLatest(z.sub.history, z.sub.stateBlock, upTo);
    }
  }

  /**
   Setting the state at a block not older than the current one hands it out at once, also to clear the flag,
   and at an older block changes nothing of what is handed out; after an invalidation or a reorganisation
   nothing is.
   */
  lemma FlagTheorem<S(!new), P(!new)>(y: System<S, P>, e: Event<S, P>, minBlockNumber: nat, isTracking: bool)
    requires Enabled(y, e)
    ensures var r := HandedOut(Apply(y, e).sub, minBlockNumber, isTracking);
            && (e.Invalidated? || e.Reorganised? ==> r.None?)
            && (e.StateSet? && e.blockNumber > 0 && (y.sub.state.None? || y.sub.stateBlock <= e.blockNumber) ==>
                 r == if isTracking || minBlockNumber <= e.blockNumber then Some(Replay(y.world, e.blockNumber)) else None)
            && (e.StateSet? && y.sub.state.Some? && e.blockNumber < y.sub.stateBlock ==>
                 r == HandedOut(y.sub, minBlockNumber, isTracking))
  {
  }

  // ---------------------------------------------------------------- what stays on record

  /**
   A rollback keeps exactly the entries up to its target, and without the flag the current one too. With the
   flag the state is the last entry kept, or none if nothing is; without it state and block stay.
   */
  lemma RollbackKeeps<S(!new)>(s: Sub<S>, n: nat)
    requires Coherent(s)
    ensures var s' := Rollback(s, n);
            && (forall k :: k in s'.history <==> k in s.history && (k <= n || (!s.invalid && k == s.stateBlock)))
            && (forall k :: k in s'.history ==> s'.history[k] == s.history[k])
            && (!s.invalid ==> s'.state == s.state && s'.stateBlock == s.stateBlock)
            && (s.invalid ==> (s'.state.Some? <==> exists k :: k in s.history && k <= n))
            && (s.invalid && s'.state.Some? ==> IsLatest(s.history, s'.stateBlock, n) && s'.state == Some(s.history[s'.stateBlock]))
            && s'.invalid == s.invalid
  {
    RollbackCoherent(s, n);
    if s.invalid {
      var h := OnlyUpTo(s.history, n);
      assert forall k :: k in s.history && k <= n ==> k in h;
    }
  }

  /** A restart keeps exactly the entries from its block on, and the current state if it is one of them. */
  lemma RestartKeeps<S(!new)>(s: Sub<S>, b: nat)
    requires Coherent(s)
    ensures var s' := Restart(s, b);
            && (forall k :: k in s'.history <==> k in s.history && b <= k)
            && (forall k :: k in s'.history ==> s'.history[k] == s.history[k])
            && (s'.state.Some? <==> s.state.Some? && b <= s.stateBlock)
            && (s'.state.Some? ==> s'.state == s.state && s'.stateBlock == s.stateBlock)
            && s'.invalid == s.invalid
  {
    RestartCoherent(s, b);
  }

  /** The history stays short: whenever a state is set, all entries but the oldest lie within seven blocks of the current one. */
  lemma HistoryStaysShort<S(!new)>(s: Sub<S>, state: S, b: nat)
    requires Coherent(s) && b > 0
    ensures var s' := SetState(s, state, b);
            forall j, k :: j in s'.history && k in s'.history && j < k ==> s'.stateBlock - 7 < k
  {
    SetStateHistory(s, state, b);
  }
}
