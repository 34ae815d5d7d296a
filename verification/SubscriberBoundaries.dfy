/**
 Where deliveries may be cut, what a freshly generated state does with its own block's logs, and
 exactly when setting a state out of order leaves a gap.
 */
module SubscriberBoundaries {
  import opened Wrappers
  import opened Sequences
  import opened SubscriberSpec
  import opened SubscriberRuns

  // ---------------------------------------------------------------- splitting a delivery

  /** Apart from the invalid flag, which update never reads. */
  ghost predicate SameStates<S>(s: Sub<S>, t: Sub<S>) {
    s.(invalid := false) == t.(invalid := false)
  }

  lemma PlayGroupIgnoresFlag<S, P>(process: Processor<S, P>, generate: nat -> S, s: Sub<S>, t: Sub<S>, group: seq<Log<P>>)
    requires SameStates(s, t) && group != []
    ensures SameStates(PlayGroup(process, generate, s, group), PlayGroup(process, generate, t, group))
  {
  }

  lemma {:induction false} GroupsIgnoreFlag<S, P>(process: Processor<S, P>, generate: nat -> S, s: Sub<S>, t: Sub<S>, logs: seq<Log<P>>)
    requires SameStates(s, t)
    ensures SameStates(UpdateGroups(process, generate, s, logs), UpdateGroups(process, generate, t, logs))
    decreases |logs|
  {
    if logs != [] {
      var n := GroupLength(logs);
      PlayGroupIgnoresFlag(process, generate, s, t, logs[..n]);
      GroupsIgnoreFlag(process, generate, PlayGroup(process, generate, s, logs[..n]),
                       PlayGroup(process, generate, t, logs[..n]), logs[n..]);
    }
  }

  /** No block has logs on both sides of the cut. */
  predicate CutBetweenBlocks<P>(first: seq<Log<P>>, second: seq<Log<P>>) {
    first != [] && second != [] ==> first[|first| - 1].blockNumber != second[0].blockNumber
  }

  lemma {:induction false} GroupsSplit<S, P>(process: Processor<S, P>, generate: nat -> S, s: Sub<S>, first: seq<Log<P>>, second: seq<Log<P>>)
    requires CutBetweenBlocks(first, second)
    ensures UpdateGroups(process, generate, UpdateGroups(process, generate, s, first), second)
         == UpdateGroups(process, generate, s, first + second)
    decreases |first|
  {
    if first == [] {
      assert first + second == second;
    } else {
      var n := GroupLength(first);
      var all := first + second;
      GroupIs(all, n);
      CutConcat(first, second, n);
      GroupsSplit(process, generate, PlayGroup(process, generate, s, first[..n]), first[n..], second);
    }
  }

  /** Two updates cut between blocks do exactly what one update with all the logs does. */
  lemma SplitTheorem<S, P>(process: Processor<S, P>, generate: nat -> S, s: Sub<S>, first: seq<Log<P>>, second: seq<Log<P>>)
    requires CutBetweenBlocks(first, second)
    ensures Update(process, generate, Update(process, generate, s, first), second) == Update(process, generate, s, first + second)
  {
    GroupsSplit(process, generate, s, first, second);
    GroupsIgnoreFlag(process, generate, Update(process, generate, s, first), UpdateGroups(process, generate, s, first), second);
  }

  // ---------------------------------------------------------------- a fresh state

  /** With no state, a block's logs only name the block to generate at: none of them is played. */
  lemma FreshStateIgnoresLogs<S(!new), P>(process: Processor<S, P>, generate: nat -> S, s: Sub<S>, group: seq<Log<P>>)
    requires Coherent(s) && s.state.None? && group != [] && group[0].blockNumber != 0
    ensures var b := group[0].blockNumber;
            var s' := PlayGroup(process, generate, s, group);
            s'.state == Some(generate(b)) && s'.stateBlock == b && s'.history == map[b := generate(b)]
  {
    var b := group[0].blockNumber;
    SetStateHistory(s, generate(b), b);
    var s' := SetState(s, generate(b), b);
    assert s'.history == map[b := generate(b)];
    assert LatestKey(s'.history, b - 1).None?;
  }

  // ---------------------------------------------------------------- states set out of order

  /** The state does not change from block b until the next recorded block or the last delivered one. */
  ghost predicate QuietGap<S(!new)>(at: nat -> S, h: map<nat, S>, b: nat, d: nat) {
    forall e: nat {:trigger at(e)} :: b <= e <= d && (forall j :: j in h ==> e < j) ==> at(e) == at(b)
  }

  /** A state older than everything recorded is pruned at once when older entries are not kept. */
  ghost predicate PrunedAtOnce<S>(s: Sub<S>) {
    exists j :: j in s.history && j <= s.stateBlock - MAX_BLOCKS_HISTORY
  }

  /**
   Setting the state of a delivered block older than everything recorded keeps the history faithful
   if and only if it is pruned at once or nothing changes before the next recorded block.
   */
  lemma GapTheorem<S(!new)>(at: nat -> S, s: Sub<S>, b: nat, d: nat)
    requires Consistent(at, s, d) && b > 0 && !Gapless(s.history, b, d)
    ensures Consistent(at, SetState(s, at(b), b), d) <==> PrunedAtOnce(s) || QuietGap(at, s.history, b, d)
  {
    var h, h1 := s.history, s.history[b := at(b)];
    var s' := SetState(s, at(b), b);
    var h' := s'.history;
    SetStateHistory(s, at(b), b);
    SetStateCoherent(s, at(b), b);
    if PrunedAtOnce(s) {
      OlderIsPruned(s, at(b), b);
      PruneFaithful(at, h, s.stateBlock - MAX_BLOCKS_HISTORY, d);
    } else {
      KeptWhole(s, at(b), b);
      KeptFaithful(at, h, b, d);
    }
  }

  /** No log between block b and the next recorded block, or the last delivered one, affects any state. */
  ghost predicate SilentGap<S(!new), P(!new)>(w: World<S, P>, h: map<nat, S>, b: nat, d: nat) {
    forall e: nat, i: nat, state: S {:trigger w.process(state, w.chain(e)[i])} ::
      b < e <= d && (forall j :: j in h ==> e < j) && i < |w.chain(e)| ==> w.process(state, w.chain(e)[i]).None?
  }

  lemma {:induction false} SilentLogs<S(!new), P>(process: Processor<S, P>, state: S, logs: seq<Log<P>>)
    requires forall i: nat, s: S {:trigger process(s, logs[i])} :: i < |logs| ==> process(s, logs[i]).None?
    ensures PlayAll(process, state, logs) == state
    decreases |logs|
  {
    if logs != [] {
      assert process(state, logs[0]).None?;
      forall i: nat, s: S | i < |logs[1..]| ensures process(s, logs[1..][i]).None? {
        assert logs[1..][i] == logs[i + 1];
      }
      SilentLogs(process, state, logs[1..]);
    }
  }

  lemma {:induction false} SilentReplay<S(!new), P(!new)>(w: World<S, P>, h: map<nat, S>, b: nat, d: nat, e: nat)
    requires SilentGap(w, h, b, d) && b <= e <= d && forall j :: j in h ==> e < j
    ensures Replay(w, e) == Replay(w, b)
    decreases e
  {
    if b < e {
      SilentReplay(w, h, b, d, e - 1);
      SilentLogs(w.process, Replay(w, e - 1), w.chain(e));
    }
  }

  /** A late state is harmless when no log that any state reacts to lies in the gap after it. */
  lemma SilentGapIsHarmless<S(!new), P(!new)>(w: World<S, P>, s: Sub<S>, b: nat, d: nat)
    requires Consistent(Replays(w), s, d) && b > 0 && !Gapless(s.history, b, d) && SilentGap(w, s.history, b, d)
    ensures Consistent(Replays(w), SetState(s, Replay(w, b), b), d)
  {
    var at := Replays(w);
    forall e: nat | b <= e <= d && (forall j :: j in s.history ==> e < j) ensures at(e) == at(b) {
      SilentReplay(w, s.history, b, d, e);
    }
    assert at(b) == Replay(w, b);
    GapTheorem(at, s, b, d);
  }

  /** An older entry that stays on record is faithful exactly when nothing changes in the gap after it. */
  lemma KeptFaithful<S(!new)>(at: nat -> S, h: map<nat, S>, b: nat, d: nat)
    requires Faithful(at, h, d) && forall j :: j in h ==> b < j
    ensures Faithful(at, h[b := at(b)], d) <==> QuietGap(at, h, b, d)
  {
    var h1 := h[b := at(b)];
    if QuietGap(at, h, b, d) {
      forall k: nat, e: nat | IsLatest(h1, k, e) && e <= d ensures at(k) == at(e) {
        InsertLatest(h, b, at(b), k, e);
        if k == b {
          forall j | j in h ensures e < j {
            assert j in h1;
          }
        }
      }
    }
    if Faithful(at, h1, d) {
      forall e: nat | b <= e <= d && (forall j :: j in h ==> e < j) ensures at(e) == at(b) {
        assert IsLatest(h1, b, e);
      }
    }
  }

  lemma OlderIsPruned<S(!new)>(s: Sub<S>, state: S, b: nat)
    requires Coherent(s) && b > 0 && PrunedAtOnce(s) && forall j :: j in s.history ==> b < j
    ensures SetState(s, state, b).history == Prune(s.history, s.stateBlock - MAX_BLOCKS_HISTORY)
  {
    var h, h1 := s.history, s.history[b := state];
    var oldest := s.stateBlock - MAX_BLOCKS_HISTORY;
    SetStateHistory(s, state, b);
    OlderIsCut(h, b, state, oldest);
  }

  lemma OlderIsCut<S>(h: map<nat, S>, b: nat, state: S, oldest: int)
    requires (exists i :: i in h && i <= oldest) && forall j :: j in h ==> b < j
    ensures Prune(h[b := state], oldest) == Prune(h, oldest)
  {
    var h1 := h[b := state];
    var i :| i in h && i <= oldest;
    assert i in h1;
    forall k | k in h1 ensures k in Prune(h1, oldest) <==> k in Prune(h, oldest) {
      if k in Prune(h, oldest) {
        assert forall j :: j in h1 && j <= oldest ==> j <= k;
      }
      if k in Prune(h1, oldest) {
        forall j | j in h && j <= oldest ensures j <= k {
          assert j in h1;
        }
      }
    }
  }

  lemma KeptWhole<S(!new)>(s: Sub<S>, state: S, b: nat)
    requires Coherent(s) && b > 0 && !PrunedAtOnce(s) && forall j :: j in s.history ==> b < j
    ensures SetState(s, state, b).history == s.history[b := state]
  {
    SetStateHistory(s, state, b);
  }

  /** A chain with one log a block, each of which counts. */
  ghost function Counting(): World<int, int> {
    World((s: int, l: Log<int>) => Some(s + 1), 0, (b: nat) => [Log(b, 0)])
  }

  lemma {:induction false} CountingReplay(b: nat)
    ensures ValidWorld(Counting()) && Replay(Counting(), b) == b + 1
  {
    var w := Counting();
    if b > 0 {
      CountingReplay(b - 1);
    }
    assert w.chain(b)[1..] == [];
    assert PlayAll(w.process, b, w.chain(b)) == PlayAll(w.process, b + 1, []);
  }

  /** On that chain every late state leaves a gap: for each d, any older block will do. */
  lemma LateStateLeavesGap(b: nat, d: nat)
    requires 0 < b < d
    ensures Consistent(Replays(Counting()), Start(Counting(), d).sub, d)
    ensures !Consistent(Replays(Counting()), SetState(Start(Counting(), d).sub, Replay(Counting(), b), b), d)
  {
    var at, s := Replays(Counting()), Start(Counting(), d).sub;
    CountingReplay(b);
    CountingReplay(d);
    GapTheorem(at, s, b, d);
    assert at(d) != at(b);
  }
}
