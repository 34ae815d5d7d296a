/**
 An event subscriber composed of parts, each of which owns a piece of the state through a lens, hears
 the logs of its own addresses, and generates its piece from the outputs of its own calls.
 */
module ComposedSubscriber {
  import opened Wrappers
  import opened Text
  import opened Sequences

  datatype AddressedLog<+P> = AddressedLog(address: string, payload: P)

  /** A part: where it listens, its lens into the whole state, and its own processing and generation. */
  datatype Part<!State, !Sub, !P> = Part(
    addresses: seq<string>,
    get: State -> Sub,
    set_: (Sub, State) -> State,
    process: (Sub, AddressedLog<P>) -> Option<Sub>,
    calls: seq<string>,
    generate: seq<string> -> Sub)

  // ---------------------------------------------------------------- dispatch, as functions

  /** How often a part lists an address, regardless of case. */
  function Count(addresses: seq<string>, k: string): nat {
    if addresses == [] then 0
    else
      var n := |addresses| - 1;
      Count(addresses[..n], k) + if Lower(addresses[n]) == k then 1 else 0
  }

  function Repeated(i: nat, n: nat): seq<nat> {
    seq(n, _ => i)
  }

  /** The positions of the parts that hear address k: each as often as it lists the address. */
  function Subscribers<State, Sub, P>(parts: seq<Part<State, Sub, P>>, k: string): seq<nat> {
    if parts == [] then []
    else
      var n := |parts| - 1;
      Subscribers(parts[..n], k) + Repeated(n, Count(parts[n].addresses, k))
  }

  /** One part's turn at a log. */
  function Turn<State, Sub, P>(p: Part<State, Sub, P>, state: State, log: AddressedLog<P>): Option<State> {
    var result := p.process(p.get(state), log);
    if result.Some? then Some(p.set_(result.value, state)) else None
  }

  /** The turns of the listed parts, in order; None until one of them changes its piece. */
  function Turns<State, Sub, P>(parts: seq<Part<State, Sub, P>>, ids: seq<nat>, state: State, next: Option<State>,
                                log: AddressedLog<P>): Option<State>
    requires forall i :: 0 <= i < |ids| ==> ids[i] < |parts|
    decreases |ids|
  {
    if ids == [] then next
    else
      var r := Turn(parts[ids[0]], Or(next, state), log);
      Turns(parts, ids[1..], state, if r.Some? then r else next, log)
  }

  lemma {:induction false} SubscribersInRange<State, Sub, P>(parts: seq<Part<State, Sub, P>>, k: string)
    ensures forall i :: 0 <= i < |Subscribers(parts, k)| ==> Subscribers(parts, k)[i] < |parts|
    decreases |parts|
  {
    if parts != [] {
      SubscribersInRange(parts[..|parts| - 1], k);
    }
  }

  /** A log nobody subscribed to is reported and changes nothing. */
  function ProcessLog<State, Sub, P>(parts: seq<Part<State, Sub, P>>, state: State, log: AddressedLog<P>): Option<State> {
    SubscribersInRange(parts, Lower(log.address));
    Turns(parts, Subscribers(parts, Lower(log.address)), state, None, log)
  }

  // ---------------------------------------------------------------- generation, as functions

  function AllCalls<State, Sub, P>(parts: seq<Part<State, Sub, P>>): seq<string> {
    if parts == [] then []
    else
      var n := |parts| - 1;
      AllCalls(parts[..n]) + parts[n].calls
  }

  /** Where part i's calls begin in the batch; the next part's beginning is their end. */
  function Start<State, Sub, P>(parts: seq<Part<State, Sub, P>>, i: nat): nat
    requires i <= |parts|
  {
    |AllCalls(parts[..i])|
  }

  function CallAll(call: string -> string, calls: seq<string>): seq<string> {
    seq(|calls|, i requires 0 <= i < |calls| => call(calls[i]))
  }

  /** Setting the pieces of the first n parts, in order, on the blank state. */
  function SetPieces<State, Sub, P>(parts: seq<Part<State, Sub, P>>, pieces: seq<Sub>, n: nat, blank: State): State
    requires n <= |parts| && |pieces| == |parts|
  {
    if n == 0 then blank else parts[n - 1].set_(pieces[n - 1], SetPieces(parts, pieces, n - 1, blank))
  }

  /** Each part's piece, generated from the outputs of its own calls and of nothing else. */
  function Pieces<State, Sub, P>(parts: seq<Part<State, Sub, P>>, call: string -> string): seq<Sub> {
    seq(|parts|, i requires 0 <= i < |parts| => parts[i].generate(CallAll(call, parts[i].calls)))
  }

  class Composed<State, Sub, P> {
    const parts: seq<Part<State, Sub, P>>
    const blankState: State
    var addressesSubscribed: seq<string>
    var addressSubscribers: map<string, seq<nat>>
    var multiCallInputs: seq<string>
    var multiCallSlices: seq<(nat, nat)>

    /** The index built by the constructor: who hears what, and whose calls are where. */
    ghost predicate Valid()
      reads this
    {
      && Indexed(parts, addressSubscribers)
      && multiCallInputs == AllCalls(parts)
      && |multiCallSlices| == |parts|
      && forall i :: 0 <= i < |parts| ==> multiCallSlices[i] == (Start(parts, i), Start(parts, i + 1))
    }

    constructor (parts: seq<Part<State, Sub, P>>, blankState: State)
      ensures Valid() && this.parts == parts && this.blankState == blankState
      ensures forall a :: a in addressesSubscribed ==> Lower(a) in addressSubscribers
      ensures forall k :: k in addressSubscribers ==> exists a :: a in addressesSubscribed && Lower(a) == k
      ensures forall i, j :: 0 <= i < j < |addressesSubscribed| ==> Lower(addressesSubscribed[i]) != Lower(addressesSubscribed[j])
    {
      this.parts := parts;
      this.blankState := blankState;
      addressesSubscribed := [];
      addressSubscribers := map[];
      multiCallInputs := [];
      multiCallSlices := [];
      new;
      var n := 0;
      while n < |parts|
        invariant 0 <= n <= |parts| && this.parts == parts
        invariant Indexed(parts[..n], addressSubscribers)
        invariant Listed(addressesSubscribed, addressSubscribers)
        invariant multiCallInputs == [] && multiCallSlices == []
      {
        IndexPart(n);
        assert parts[..n + 1][..n] == parts[..n];
        n := n + 1;
      }
      assert parts[..n] == parts;
      SliceCalls();
    }

    /** The inner loop over one part's addresses. */
    method IndexPart(n: nat)
      requires n < |parts| && Indexed(parts[..n], addressSubscribers) && Listed(addressesSubscribed, addressSubscribers)
      modifies this`addressesSubscribed, this`addressSubscribers
      ensures Indexed(parts[..n + 1], addressSubscribers) && Listed(addressesSubscribed, addressSubscribers)
    {
      var addresses := parts[n].addresses;
      var j := 0;
      while j < |addresses|
        invariant 0 <= j <= |addresses|
        invariant PartlyIndexed(parts, n, addresses[..j], addressSubscribers)
        invariant Listed(addressesSubscribed, addressSubscribers)
      {
        var a := addresses[j];
        ghost var before, listed := addressSubscribers, addressesSubscribed;
        Subscribe(n, a);
        Pushed(parts, n, addresses[..j], a, before);
        PushListed(listed, before, a, Pushing(before, Lower(a), n));
        OneMore(addresses, j);
        j := j + 1;
      }
      assert addresses[..j] == addresses;
      assert parts[..n + 1][..n] == parts[..n];
    }

    method Subscribe(n: nat, a: string)
      modifies this`addressesSubscribed, this`addressSubscribers
      ensures addressSubscribers == old(addressSubscribers)[Lower(a) := Pushing(old(addressSubscribers), Lower(a), n)]
      ensures addressesSubscribed == if Lower(a) in old(addressSubscribers) then old(addressesSubscribed)
                                     else old(addressesSubscribed) + [a]
    {
      var k := Lower(a);
      if k !in addressSubscribers {
        addressSubscribers := addressSubscribers[k := []];
        addressesSubscribed := addressesSubscribed + [a];
      }
      addressSubscribers := addressSubscribers[k := addressSubscribers[k] + [n]];
    }

    method SliceCalls()
      requires multiCallSlices == []
      modifies this`multiCallInputs, this`multiCallSlices
      ensures multiCallInputs == AllCalls(parts) && |multiCallSlices| == |parts|
      ensures forall i :: 0 <= i < |parts| ==> multiCallSlices[i] == (Start(parts, i), Start(parts, i + 1))
    {
      var i := 0;
      var n := 0;
      multiCallInputs := [];
      while n < |parts|
        invariant 0 <= n <= |parts| && |multiCallSlices| == n
        invariant multiCallInputs == AllCalls(parts[..n]) && i == Start(parts, n)
        invariant forall j :: 0 <= j < n ==> multiCallSlices[j] == (Start(parts, j), Start(parts, j + 1))
      {
        var arr := parts[n].calls;
        assert parts[..n + 1][..n] == parts[..n];
        multiCallSlices := multiCallSlices + [(i, i + |arr|)];
        i := i + |arr|;
        multiCallInputs := multiCallInputs + arr;
        n := n + 1;
      }
      assert parts[..n] == parts;
    }

    method ProcessOne(state: State, log: AddressedLog<P>) returns (newState: Option<State>)
      requires Valid()
      ensures newState == ProcessLog(parts, state, log)
    {
      var k := Lower(log.address);
      if k !in addressSubscribers {
        return None;
      }
      SubscribersInRange(parts, k);
      var ps := addressSubscribers[k];
      newState := None;
      var i := 0;
      while i < |ps|
        invariant 0 <= i <= |ps|
        invariant Turns(parts, ps[i..], state, newState, log) == Turns(parts, ps, state, None, log)
      {
        var p := parts[ps[i]];
        assert ps[i..][1..] == ps[i + 1..];
        var result := p.process(p.get(Or(newState, state)), log);
        if result.Some? {
          newState := Some(p.set_(result.value, Or(newState, state)));
        }
        i := i + 1;
      }
    }

    /** The state of every part, from the slice of the answers that belongs to it. */
    method GenerateParts(returnData: seq<string>, call: string -> string) returns (stateParts: seq<Sub>)
      requires Valid() && returnData == CallAll(call, multiCallInputs)
      ensures stateParts == Pieces(parts, call)
    {
      stateParts := [];
      for i := 0 to |parts|
        invariant stateParts == Pieces(parts, call)[..i]
      {
        var slice := multiCallSlices[i];
        SliceIsOwn(parts, i, call);
        OneMore(Pieces(parts, call), i);
        stateParts := stateParts + [parts[i].generate(returnData[slice.0..slice.1])];
      }
    }

    method GenerateState(call: string -> string) returns (state: State)
      requires Valid()
      ensures state == SetPieces(parts, Pieces(parts, call), |parts|, blankState)
    {
      var returnData: seq<string> := [];
      if |multiCallInputs| > 0 {
        returnData := CallAll(call, multiCallInputs);
      }
      var stateParts := GenerateParts(returnData, call);
      var i := 0;
      state := blankState;
      while i < |parts|
        invariant 0 <= i <= |parts|
        invariant state == SetPieces(parts, Pieces(parts, call), i, blankState)
      {
        state := parts[i].set_(stateParts[i], state);
        i := i + 1;
      }
    }
  }

  ghost predicate Indexed<State, Sub, P>(parts: seq<Part<State, Sub, P>>, index: map<string, seq<nat>>) {
    forall k :: Subscribers(parts, k) == if k in index then index[k] else []
  }

  /** The index when only some addresses of part n have been seen. */
  ghost predicate PartlyIndexed<State, Sub, P>(parts: seq<Part<State, Sub, P>>, n: nat, seen: seq<string>, index: map<string, seq<nat>>)
    requires n < |parts|
  {
    forall k :: Subscribers(parts[..n], k) + Repeated(n, Count(seen, k)) == if k in index then index[k] else []
  }

  /** One address is subscribed to for every entry of the index. */
  ghost predicate Listed(addresses: seq<string>, index: map<string, seq<nat>>) {
    && (forall i, j :: 0 <= i < j < |addresses| ==> Lower(addresses[i]) != Lower(addresses[j]))
    && (forall a :: a in addresses ==> Lower(a) in index)
    && (forall k :: k in index ==> exists a :: a in addresses && Lower(a) == k)
  }

  /** The entry of an address once one more part has been pushed onto it. */
  function Pushing(index: map<string, seq<nat>>, k: string, n: nat): seq<nat> {
    (if k in index then index[k] else []) + [n]
  }

  lemma Pushed<State, Sub, P>(parts: seq<Part<State, Sub, P>>, n: nat, seen: seq<string>, a: string, index: map<string, seq<nat>>)
    requires n < |parts| && PartlyIndexed(parts, n, seen, index)
    ensures var k := Lower(a);
            PartlyIndexed(parts, n, seen + [a], index[k := Pushing(index, k, n)])
  {
    assert (seen + [a])[..|seen|] == seen;
    forall k ensures Subscribers(parts[..n], k) + Repeated(n, Count(seen + [a], k))
                  == Subscribers(parts[..n], k) + Repeated(n, Count(seen, k)) + (if k == Lower(a) then [n] else [])
    {
    }
  }

  lemma PushListed(addresses: seq<string>, index: map<string, seq<nat>>, a: string, ids: seq<nat>)
    requires Listed(addresses, index)
    ensures Listed(if Lower(a) in index then addresses else addresses + [a], index[Lower(a) := ids])
  {
    var more := if Lower(a) in index then addresses else addresses + [a];
    var index' := index[Lower(a) := ids];
    forall k | k in index' ensures exists b :: b in more && Lower(b) == k {
      if k in index {
        var b :| b in addresses && Lower(b) == k;
        assert b in more;
      } else {
        assert a in more;
      }
    }
  }

  lemma {:induction false} CallsPrefix<State, Sub, P>(parts: seq<Part<State, Sub, P>>, i: nat)
    requires i <= |parts|
    ensures AllCalls(parts[..i]) <= AllCalls(parts)
    decreases |parts|
  {
    var n := |parts| - 1;
    if i == |parts| {
      assert parts[..i] == parts;
    } else {
      assert parts[..n][..i] == parts[..i];
      CallsPrefix(parts[..n], i);
    }
  }

  /** The slices partition the batch: part i's slice of the outputs is the outputs of its own calls. */
  lemma SliceIsOwn<State, Sub, P>(parts: seq<Part<State, Sub, P>>, i: nat, call: string -> string)
    requires i < |parts|
    ensures 0 <= Start(parts, i) <= Start(parts, i + 1) <= |AllCalls(parts)|
    ensures CallAll(call, AllCalls(parts))[Start(parts, i)..Start(parts, i + 1)] == CallAll(call, parts[i].calls)
  {
    CallsPrefix(parts, i + 1);
    assert parts[..i + 1][..i] == parts[..i];
    MiddleSlice(call, AllCalls(parts[..i]), parts[i].calls, AllCalls(parts));
  }

  lemma MiddleSlice(call: string -> string, before: seq<string>, own: seq<string>, all: seq<string>)
    requires before + own <= all
    ensures CallAll(call, all)[|before|..|before| + |own|] == CallAll(call, own)
  {
    assert all[..|before + own|] == before + own;
    forall j | 0 <= j < |own| ensures all[|before| + j] == own[j] {
      assert (before + own)[|before| + j] == own[j];
    }
  }

  // ---------------------------------------------------------------- lenses

  /** A lens: reading what was written, writing what was read, and the last write counts. */
  ghost predicate Lawful<State(!new), Sub(!new), P(!new)>(p: Part<State, Sub, P>) {
    && (forall s, x :: p.get(p.set_(x, s)) == x)
    && (forall s :: p.set_(p.get(s), s) == s)
    && (forall s, x, y :: p.set_(x, p.set_(y, s)) == p.set_(x, s))
  }

  /** Writing through q is not seen through p. */
  ghost predicate Apart<State(!new), Sub(!new), P(!new)>(p: Part<State, Sub, P>, q: Part<State, Sub, P>) {
    forall s, x :: p.get(q.set_(x, s)) == p.get(s)
  }

  ghost predicate Composable<State(!new), Sub(!new), P(!new)>(parts: seq<Part<State, Sub, P>>) {
    && (forall i :: 0 <= i < |parts| ==> Lawful(parts[i]))
    && (forall i, j :: 0 <= i < |parts| && 0 <= j < |parts| && i != j ==> Apart(parts[i], parts[j]))
  }

  // ---------------------------------------------------------------- each part on its own

  /** A part processing a log n times over on its own piece. */
  function Alone<State, Sub, P>(p: Part<State, Sub, P>, piece: Sub, log: AddressedLog<P>, n: nat): Sub {
    if n == 0 then piece
    else
      var before := Alone(p, piece, log, n - 1);
      Or(p.process(before, log), before)
  }

  function Occurrences(ids: seq<nat>, i: nat): nat {
    if ids == [] then 0 else (if ids[0] == i then 1 else 0) + Occurrences(ids[1..], i)
  }

  lemma {:induction false} AloneAgain<State, Sub, P>(p: Part<State, Sub, P>, piece: Sub, log: AddressedLog<P>, n: nat)
    ensures Alone(p, Or(p.process(piece, log), piece), log, n) == Alone(p, piece, log, n + 1)
  {
    if n > 0 {
      AloneAgain(p, piece, log, n - 1);
    } else {
      assert Alone(p, piece, log, 0) == piece;
    }
  }

  lemma TurnSeen<State(!new), Sub(!new), P(!new)>(parts: seq<Part<State, Sub, P>>, state: State, log: AddressedLog<P>, j: nat, i: nat)
    requires Composable(parts) && i < |parts| && j < |parts|
    ensures var s' := Or(Turn(parts[j], state, log), state);
            parts[i].get(s') == if i == j then Or(parts[i].process(parts[i].get(state), log), parts[i].get(state))
                                else parts[i].get(state)
  {
    if i != j {
      assert Apart(parts[i], parts[j]);
    }
    assert Lawful(parts[j]);
  }

  lemma {:induction false} TurnsSeen<State(!new), Sub(!new), P(!new)>(parts: seq<Part<State, Sub, P>>, ids: seq<nat>, state: State,
                                                   next: Option<State>, log: AddressedLog<P>, i: nat)
    requires Composable(parts) && i < |parts|
    requires forall k :: 0 <= k < |ids| ==> ids[k] < |parts|
    ensures parts[i].get(Or(Turns(parts, ids, state, next, log), state))
         == Alone(parts[i], parts[i].get(Or(next, state)), log, Occurrences(ids, i))
    decreases |ids|
  {
    if ids != [] {
      var before := Or(next, state);
      var r := Turn(parts[ids[0]], before, log);
      var next' := if r.Some? then r else next;
      TurnSeen(parts, before, log, ids[0], i);
      assert Or(next', state) == Or(r, before);
      TurnsSeen(parts, ids[1..], state, next', log, i);
      if ids[0] == i {
        AloneAgain(parts[i], parts[i].get(before), log, Occurrences(ids[1..], i));
      }
    }
  }

  lemma {:induction false} OccurrencesConcat(s: seq<nat>, t: seq<nat>, i: nat)
    ensures Occurrences(s + t, i) == Occurrences(s, i) + Occurrences(t, i)
    decreases |s|
  {
    if s == [] {
      assert s + t == t;
    } else {
      assert (s + t)[1..] == s[1..] + t;
      OccurrencesConcat(s[1..], t, i);
    }
  }

  lemma {:induction false} OccurrencesRepeated(j: nat, n: nat, i: nat)
    ensures Occurrences(Repeated(j, n), i) == if i == j then n else 0
    decreases n
  {
    if n > 0 {
      assert Repeated(j, n)[1..] == Repeated(j, n - 1);
      OccurrencesRepeated(j, n - 1, i);
    }
  }

  lemma {:induction false} SubscribedAsListed<State, Sub, P>(parts: seq<Part<State, Sub, P>>, k: string, i: nat)
    ensures Occurrences(Subscribers(parts, k), i) == if i < |parts| then Count(parts[i].addresses, k) else 0
    decreases |parts|
  {
    if parts != [] {
      var n := |parts| - 1;
      SubscribedAsListed(parts[..n], k, i);
      OccurrencesConcat(Subscribers(parts[..n], k), Repeated(n, Count(parts[n].addresses, k)), i);
      OccurrencesRepeated(n, Count(parts[n].addresses, k), i);
    }
  }

  // ---------------------------------------------------------------- sequences of logs

  function RunComposed<State, Sub, P>(parts: seq<Part<State, Sub, P>>, state: State, logs: seq<AddressedLog<P>>): State
    decreases |logs|
  {
    if logs == [] then state else RunComposed(parts, Or(ProcessLog(parts, state, logs[0]), state), logs[1..])
  }

  /** A part folded over the logs, each as often as the part lists its address. */
  function RunAlone<State, Sub, P>(p: Part<State, Sub, P>, piece: Sub, logs: seq<AddressedLog<P>>): Sub
    decreases |logs|
  {
    if logs == [] then piece
    else RunAlone(p, Alone(p, piece, logs[0], Count(p.addresses, Lower(logs[0].address))), logs[1..])
  }

  /** After any logs, what a part's lens sees is that part run alone over the logs of its addresses. */
  lemma {:induction false} SimulationTheorem<State(!new), Sub(!new), P(!new)>(parts: seq<Part<State, Sub, P>>, state: State,
                                                                                     logs: seq<AddressedLog<P>>, i: nat)
    requires Composable(parts) && i < |parts|
    ensures parts[i].get(RunComposed(parts, state, logs)) == RunAlone(parts[i], parts[i].get(state), logs)
    decreases |logs|
  {
    if logs != [] {
      var k := Lower(logs[0].address);
      SubscribersInRange(parts, k);
      TurnsSeen(parts, Subscribers(parts, k), state, None, logs[0], i);
      SubscribedAsListed(parts, k, i);
      SimulationTheorem(parts, Or(ProcessLog(parts, state, logs[0]), state), logs[1..], i);
    }
  }

  predicate Hears(addresses: seq<string>, k: string) {
    exists a :: a in addresses && Lower(a) == k
  }

  /** The logs of a part's own addresses, and only those. */
  function Own<P>(addresses: seq<string>, logs: seq<AddressedLog<P>>): seq<AddressedLog<P>> {
    if logs == [] then []
    else (if Hears(addresses, Lower(logs[0].address)) then [logs[0]] else []) + Own(addresses, logs[1..])
  }

  function FoldLogs<State, Sub, P>(p: Part<State, Sub, P>, piece: Sub, logs: seq<AddressedLog<P>>): Sub
    decreases |logs|
  {
    if logs == [] then piece else FoldLogs(p, Or(p.process(piece, logs[0]), piece), logs[1..])
  }

  /** No address is listed twice, in whatever case. */
  ghost predicate ListedOnce(addresses: seq<string>) {
    forall i, j :: 0 <= i < j < |addresses| ==> Lower(addresses[i]) != Lower(addresses[j])
  }

  lemma {:induction false} CountIs(addresses: seq<string>, k: string)
    ensures Count(addresses, k) > 0 <==> Hears(addresses, k)
    ensures ListedOnce(addresses) ==> Count(addresses, k) <= 1
    decreases |addresses|
  {
    if addresses != [] {
      var n := |addresses| - 1;
      CountIs(addresses[..n], k);
      assert addresses == addresses[..n] + [addresses[n]];
    }
  }

  lemma {:induction false} DuplicateCounts(addresses: seq<string>)
    requires !ListedOnce(addresses)
    ensures exists k :: Count(addresses, k) >= 2
    decreases |addresses|
  {
    var i, j :| 0 <= i < j < |addresses| && Lower(addresses[i]) == Lower(addresses[j]);
    var n := |addresses| - 1;
    if j < n {
      DuplicateCounts(addresses[..n]);
      var k :| Count(addresses[..n], k) >= 2;
      assert Count(addresses, k) >= 2;
    } else {
      var k := Lower(addresses[n]);
      CountIs(addresses[..n], k);
      assert addresses[..n][i] in addresses[..n];
      assert Count(addresses, k) >= 2;
    }
  }

  /** A part that lists each address once is folded once over each of its own logs. */
  lemma {:induction false} RunsOnce<State, Sub, P>(p: Part<State, Sub, P>, piece: Sub, logs: seq<AddressedLog<P>>)
    requires ListedOnce(p.addresses)
    ensures RunAlone(p, piece, logs) == FoldLogs(p, piece, Own(p.addresses, logs))
    decreases |logs|
  {
    if logs != [] {
      var k := Lower(logs[0].address);
      CountIs(p.addresses, k);
      var c := Count(p.addresses, k);
      assert c > 0 ==> Alone(p, piece, logs[0], 1) == Or(p.process(Alone(p, piece, logs[0], 0), logs[0]), piece);
      RunsOnce(p, Alone(p, piece, logs[0], c), logs[1..]);
      if Hears(p.addresses, k) {
        assert Own(p.addresses, logs)[1..] == Own(p.addresses, logs[1..]);
        assert c == 1;
      } else {
        assert Own(p.addresses, logs) == Own(p.addresses, logs[1..]);
        assert c == 0;
      }
    }
  }

  /** A part that counts the logs it hears; its piece is the whole state. */
  function Counter(addresses: seq<string>): Part<int, int, int> {
    Part(addresses, (s: int) => s, (x: int, s: int) => x, (x: int, l: AddressedLog<int>) => Some(x + 1), [], (o: seq<string>) => 0)
  }

  lemma {:induction false} CounterAlone(addresses: seq<string>, piece: int, log: AddressedLog<int>, n: nat)
    ensures Alone(Counter(addresses), piece, log, n) == piece + n
  {
    if n > 0 {
      CounterAlone(addresses, piece, log, n - 1);
    }
  }

  lemma {:induction false} LowerKey(addresses: seq<string>, k: string)
    requires Count(addresses, k) > 0
    ensures Lower(k) == k
    decreases |addresses|
  {
    CountIs(addresses, k);
    var a :| a in addresses && Lower(a) == k;
    LowerIdempotent(a);
  }

  /**
   Composition plays every part exactly once over its own logs, for whatever the part does with them,
   if and only if the part lists no address twice: a part that does hears some log more than once.
   */
  lemma OnceTheorem(addresses: seq<string>)
    ensures ListedOnce(addresses) <==>
            forall piece: int, logs: seq<AddressedLog<int>> ::
              RunAlone(Counter(addresses), piece, logs) == FoldLogs(Counter(addresses), piece, Own(addresses, logs))
  {
    var p := Counter(addresses);
    if ListedOnce(addresses) {
      forall piece: int, logs: seq<AddressedLog<int>> ensures RunAlone(p, piece, logs) == FoldLogs(p, piece, Own(addresses, logs)) {
        RunsOnce(p, piece, logs);
      }
    } else {
      DuplicateCounts(addresses);
      var k :| Count(addresses, k) >= 2;
      LowerKey(addresses, k);
      var log := AddressedLog(k, 0);
      var logs := [log];
      CountIs(addresses, k);
      CounterAlone(addresses, 0, log, Count(addresses, k));
      assert logs[1..] == [];
      assert RunAlone(p, 0, logs) == Alone(p, 0, log, Count(addresses, k));
      assert Own(addresses, logs) == [log];
      assert FoldLogs(p, 0, [log]) == FoldLogs(p, 1, []) == 1;
      assert RunAlone(p, 0, logs) != FoldLogs(p, 0, Own(addresses, logs));
    }
  }

  // ---------------------------------------------------------------- generation

  lemma {:induction false} PieceKept<State(!new), Sub(!new), P(!new)>(parts: seq<Part<State, Sub, P>>, pieces: seq<Sub>,
                                                                                 n: nat, blank: State, i: nat)
    requires Composable(parts) && |pieces| == |parts| && i < n <= |parts|
    ensures parts[i].get(SetPieces(parts, pieces, n, blank)) == pieces[i]
    decreases n
  {
    assert Lawful(parts[n - 1]);
    if i < n - 1 {
      PieceKept(parts, pieces, n - 1, blank, i);
      assert Apart(parts[i], parts[n - 1]);
    }
  }

  /** In a generated state every part sees what it generates from the outputs of its own calls. */
  lemma GenerationTheorem<State(!new), Sub(!new), P(!new)>(parts: seq<Part<State, Sub, P>>, call: string -> string, blank: State, i: nat)
    requires Composable(parts) && i < |parts|
    ensures parts[i].get(SetPieces(parts, Pieces(parts, call), |parts|, blank)) == parts[i].generate(CallAll(call, parts[i].calls))
  {
    PieceKept(parts, Pieces(parts, call), |parts|, blank, i);
  }
}
