/**
 The tagged serializer: bigints and BigNumbers become strings with a prefix on the way to JSON, and
 strings with a prefix become bigints and BigNumbers on the way back.

 The recursion goes through lodash's forEach, which iterates an object with a numeric `length` as if it
 were an array: only its index keys are visited. What the two operations are given is itself never checked
 against the tags; only the entries of containers are.
 */
module Serializer {
  import opened Wrappers

  const PREFIX_BIG_INT := "bi@"
  const PREFIX_BIG_NUMBER := "bn@"
  const MAX_ARRAY_LENGTH: nat := 9007199254740991

  /** A JavaScript value: JSON's own, the two big kinds, and containers with their entries in order. */
  datatype Value<N> =
    | Null
    | Bool(b: bool)
    | Num(r: real)
    | Str(s: string)
    | BigInt(n: int)
    | BigNum(d: N)
    | Node(isArray: bool, entries: seq<Entry<N>>)

  datatype Entry<N> = Entry(key: string, value: Value<N>)

  /** How the two big kinds are written and read; reading a number never fails, it yields NaN. */
  datatype Notation<!N> = Notation(showInt: int -> string, readInt: string -> Option<int>,
                                   showNum: N -> string, readNum: string -> N)

  ghost predicate Lawful<N(!new)>(t: Notation<N>) {
    && (forall n :: t.readInt(t.showInt(n)) == Some(n))
    && (forall d :: t.readNum(t.showNum(d)) == d)
  }

  // ---------------------------------------------------------------- which entries are visited

  function Digit(d: nat): char
    requires d < 10
  {
    '0' + d as char
  }

  function Decimal(n: nat): string {
    if n < 10 then [Digit(n)] else Decimal(n / 10) + [Digit(n % 10)]
  }

  /** The length that makes an object array-like, if it has one. */
  ghost predicate HasLength<N>(entries: seq<Entry<N>>, n: nat) {
    n <= MAX_ARRAY_LENGTH && Entry("length", Num(n as real)) in entries
  }

  /** forEach visits all entries, or only those with an index below the length. */
  ghost predicate Visited<N>(isArray: bool, entries: seq<Entry<N>>, key: string) {
    isArray || forall n: nat :: HasLength(entries, n) ==> exists i: nat :: i < n && Decimal(i) == key
  }

  // ---------------------------------------------------------------- the entries of a container

  /** What an entry becomes: its tagged form, or a container with its own entries tagged. */
  ghost function ToTagged<N>(t: Notation<N>, v: Value<N>): Value<N> {
    match v
    case BigInt(n) => Str(PREFIX_BIG_INT + t.showInt(n))
    case BigNum(d) => Str(PREFIX_BIG_NUMBER + t.showNum(d))
    case Node(isArray, entries) =>
      Node(isArray, seq(|entries|, i requires 0 <= i < |entries| =>
        Entry(entries[i].key,
              if Visited(isArray, entries, entries[i].key) then ToTagged(t, entries[i].value) else entries[i].value)))
    case _ => v
  }

  /** JSON.stringify followed by JSON.parse: a bigint throws, and a BigNumber writes itself as text. */
  ghost function ThroughJson<N>(t: Notation<N>, v: Value<N>): Option<Value<N>> {
    match v
    case BigInt(_) => None
    case BigNum(d) => Some(Str(t.showNum(d)))
    case Node(isArray, entries) =>
      if forall i :: 0 <= i < |entries| ==> ThroughJson(t, entries[i].value).Some? then
        Some(Node(isArray, seq(|entries|, i requires 0 <= i < |entries| =>
          Entry(entries[i].key, ThroughJson(t, entries[i].value).value))))
      else None
    case _ => Some(v)
  }

  predicate HasPrefix(s: string, prefix: string) {
    |prefix| <= |s| && s[..|prefix|] == prefix
  }

  /** Reading the tags back; a tagged bigint that cannot be read throws. */
  ghost function FromTagged<N>(t: Notation<N>, v: Value<N>): Option<Value<N>> {
    match v
    case Str(s) =>
      if HasPrefix(s, PREFIX_BIG_INT) then
        var n := t.readInt(s[3..]);
        if n.Some? then Some(BigInt(n.value)) else None
      else if HasPrefix(s, PREFIX_BIG_NUMBER) then Some(BigNum(t.readNum(s[3..])))
      else Some(v)
    case Node(isArray, entries) =>
      if forall i :: 0 <= i < |entries| && Visited(isArray, entries, entries[i].key) ==> FromTagged(t, entries[i].value).Some? then
        Some(Node(isArray, seq(|entries|, i requires 0 <= i < |entries| =>
          Entry(entries[i].key,
                if Visited(isArray, entries, entries[i].key) then FromTagged(t, entries[i].value).value else entries[i].value))))
      else None
    case _ => Some(v)
  }

  ghost function SendEntry<N>(t: Notation<N>, v: Value<N>): Option<Value<N>> {
    ThroughJson(t, ToTagged(t, v))
  }

  ghost predicate EntryReturns<N>(t: Notation<N>, v: Value<N>) {
    SendEntry(t, v).Some? && FromTagged(t, SendEntry(t, v).value) == Some(v)
  }

  // ---------------------------------------------------------------- serializing and parsing

  /**
   Writing a value: a container's entries are tagged first. Of the other values forEach visits nothing,
   except the characters of a string, and writing one of those back throws.
   */
  ghost function Serialize<N>(t: Notation<N>, v: Value<N>): Option<Value<N>> {
    if v.Node? then ThroughJson(t, ToTagged(t, v))
    else if v.Str? && v.s != "" then None
    else ThroughJson(t, v)
  }

  /** Reading it back, with the same treatment of what is not a container. */
  ghost function Parse<N>(t: Notation<N>, v: Value<N>): Option<Value<N>> {
    if v.Node? then FromTagged(t, v)
    else if v.Str? && v.s != "" then None
    else Some(v)
  }

  ghost predicate RoundTrips<N>(t: Notation<N>, v: Value<N>) {
    Serialize(t, v).Some? && Parse(t, Serialize(t, v).value) == Some(v)
  }

  // ---------------------------------------------------------------- what survives

  /** Nothing but what JSON itself can hold. */
  ghost predicate Plain<N>(v: Value<N>) {
    match v
    case BigInt(_) => false
    case BigNum(_) => false
    case Node(_, entries) => forall i :: 0 <= i < |entries| ==> Plain(entries[i].value)
    case _ => true
  }

  /** No visited string looks tagged, and no entry that is not visited holds a big number. */
  ghost predicate Clean<N>(v: Value<N>) {
    match v
    case Str(s) => !HasPrefix(s, PREFIX_BIG_INT) && !HasPrefix(s, PREFIX_BIG_NUMBER)
    case Node(isArray, entries) =>
      forall i :: 0 <= i < |entries| ==>
        if Visited(isArray, entries, entries[i].key) then Clean(entries[i].value) else Plain(entries[i].value)
    case _ => true
  }

  lemma {:induction false} PlainThroughJson<N>(t: Notation<N>, v: Value<N>)
    ensures ThroughJson(t, v) == Some(v) <==> Plain(v)
  {
    if v.Node? {
      var es := v.entries;
      forall i | 0 <= i < |es| ensures ThroughJson(t, es[i].value) == Some(es[i].value) <==> Plain(es[i].value) {
        PlainThroughJson(t, es[i].value);
      }
      var r := ThroughJson(t, v);
      if Plain(v) {
        assert r.value.entries == es;
      }
      if r == Some(v) {
        forall i | 0 <= i < |es| ensures Plain(es[i].value) {
          assert r.value.entries[i] == es[i];
        }
      }
    }
  }

  /** Entries are only ever replaced where they stand. */
  ghost predicate SameKeys<N>(es: seq<Entry<N>>, fs: seq<Entry<N>>) {
    |es| == |fs| && forall i :: 0 <= i < |es| ==> fs[i].key == es[i].key
  }

  /** Tagging and JSON change no number, so they do not change what is visited. */
  lemma SameLength<N>(es: seq<Entry<N>>, fs: seq<Entry<N>>, n: nat)
    requires SameKeys(es, fs) && forall i :: 0 <= i < |es| ==> (fs[i].value.Num? || es[i].value.Num? ==> fs[i] == es[i])
    ensures HasLength(es, n) <==> HasLength(fs, n)
  {
    var e := Entry("length", Num(n as real));
    if e in es {
      var i :| 0 <= i < |es| && es[i] == e;
      assert fs[i] == e;
    }
    if e in fs {
      var i :| 0 <= i < |fs| && fs[i] == e;
      assert es[i] == e;
    }
  }

  /** What one entry becomes on the way to JSON. */
  ghost function Sent<N>(t: Notation<N>, isArray: bool, es: seq<Entry<N>>, i: nat): Option<Value<N>>
    requires i < |es|
  {
    ThroughJson(t, if Visited(isArray, es, es[i].key) then ToTagged(t, es[i].value) else es[i].value)
  }

  lemma NumbersStay<N>(t: Notation<N>, v: Value<N>)
    ensures v.Num? ==> ToTagged(t, v) == v && ThroughJson(t, v) == Some(v)
    ensures ToTagged(t, v).Num? ==> v.Num?
    ensures ThroughJson(t, v).Some? && ThroughJson(t, v).value.Num? ==> v.Num?
  {
  }

  lemma SentNode<N>(t: Notation<N>, isArray: bool, es: seq<Entry<N>>)
    ensures SendEntry(t, Node(isArray, es)).Some? <==> forall i :: 0 <= i < |es| ==> Sent(t, isArray, es, i).Some?
    ensures SendEntry(t, Node(isArray, es)).Some? ==>
              var r := SendEntry(t, Node(isArray, es)).value;
              && r.Node? && r.isArray == isArray && SameKeys(es, r.entries)
              && (forall i :: 0 <= i < |es| ==> Some(r.entries[i].value) == Sent(t, isArray, es, i))
              && (forall k :: Visited(isArray, es, k) <==> Visited(isArray, r.entries, k))
  {
    var tagged := ToTagged(t, Node(isArray, es));
    assert forall i :: 0 <= i < |es| ==> ThroughJson(t, tagged.entries[i].value) == Sent(t, isArray, es, i);
    if SendEntry(t, Node(isArray, es)).Some? {
      var fs := SendEntry(t, Node(isArray, es)).value.entries;
      forall i | 0 <= i < |es| ensures fs[i].value.Num? || es[i].value.Num? ==> fs[i] == es[i] {
        assert Some(fs[i].value) == ThroughJson(t, tagged.entries[i].value);
        NumbersStay(t, es[i].value);
        NumbersStay(t, tagged.entries[i].value);
      }
      forall n: nat ensures HasLength(es, n) <==> HasLength(fs, n) {
        SameLength(es, fs, n);
      }
    }
  }

  lemma ReceivedNode<N>(t: Notation<N>, isArray: bool, es: seq<Entry<N>>, fs: seq<Entry<N>>)
    requires SameKeys(es, fs) && forall k :: Visited(isArray, es, k) <==> Visited(isArray, fs, k)
    ensures FromTagged(t, Node(isArray, fs)) == Some(Node(isArray, es)) <==>
            forall i :: 0 <= i < |es| ==>
              if Visited(isArray, es, es[i].key) then FromTagged(t, fs[i].value) == Some(es[i].value) else fs[i] == es[i]
  {
    var r := FromTagged(t, Node(isArray, fs));
    if r == Some(Node(isArray, es)) {
      forall i | 0 <= i < |es|
        ensures if Visited(isArray, es, es[i].key) then FromTagged(t, fs[i].value) == Some(es[i].value) else fs[i] == es[i]
      {
        assert r.value.entries[i] == es[i];
      }
    }
    if forall i :: 0 <= i < |es| ==>
        if Visited(isArray, es, es[i].key) then FromTagged(t, fs[i].value) == Some(es[i].value) else fs[i] == es[i] {
      assert r.value.entries == es;
    }
  }

  /** An entry of any nesting returns if and only if it is clean. */
  lemma {:induction false} EntryTheorem<N(!new)>(t: Notation<N>, v: Value<N>)
    requires Lawful(t)
    ensures EntryReturns(t, v) <==> Clean(v)
  {
    match v
    case BigInt(n) =>
      assert (PREFIX_BIG_INT + t.showInt(n))[3..] == t.showInt(n);
    case BigNum(d) =>
      var s := PREFIX_BIG_NUMBER + t.showNum(d);
      assert s[3..] == t.showNum(d) && s[..3] == PREFIX_BIG_NUMBER && s[1] == 'n';
      assert !HasPrefix(s, PREFIX_BIG_INT) by {
        assert PREFIX_BIG_INT[1] == 'i';
        assert s[..3][1] == 'n';
      }
    case Node(isArray, es) =>
      NodeReturns(t, isArray, es);
      forall i | 0 <= i < |es|
        ensures EntryReturns(t, es[i].value) <==> Clean(es[i].value)
        ensures ThroughJson(t, es[i].value) == Some(es[i].value) <==> Plain(es[i].value)
      {
        EntryTheorem(t, es[i].value);
        PlainThroughJson(t, es[i].value);
      }
    case _ =>
  }

  /** A container returns exactly when each visited entry does and each other entry is plain JSON. */
  lemma NodeReturns<N>(t: Notation<N>, isArray: bool, es: seq<Entry<N>>)
    ensures EntryReturns(t, Node(isArray, es)) <==>
            forall i :: 0 <= i < |es| ==>
              if Visited(isArray, es, es[i].key) then EntryReturns(t, es[i].value)
              else ThroughJson(t, es[i].value) == Some(es[i].value)
  {
    SentNode(t, isArray, es);
    var r := SendEntry(t, Node(isArray, es));
    if r.Some? {
      ReceivedNode(t, isArray, es, r.value.entries);
      forall i | 0 <= i < |es|
        ensures (if Visited(isArray, es, es[i].key) then FromTagged(t, r.value.entries[i].value) == Some(es[i].value)
                 else r.value.entries[i] == es[i])
            <==> (if Visited(isArray, es, es[i].key) then EntryReturns(t, es[i].value)
                 else ThroughJson(t, es[i].value) == Some(es[i].value))
      {
        assert Some(r.value.entries[i].value) == Sent(t, isArray, es, i);
      }
    } else {
      var i :| 0 <= i < |es| && Sent(t, isArray, es, i).None?;
    }
  }

  /** Everything that survives: clean containers, and of the other values those JSON holds, but no text. */
  ghost predicate Survives<N>(v: Value<N>) {
    match v
    case Null => true
    case Bool(_) => true
    case Num(_) => true
    case Str(s) => s == ""
    case BigInt(_) => false
    case BigNum(_) => false
    case Node(_, _) => Clean(v)
  }

  /** Parsing what was serialized gives the value back if and only if it is one of these. */
  lemma RoundTripTheorem<N(!new)>(t: Notation<N>, v: Value<N>)
    requires Lawful(t)
    ensures RoundTrips(t, v) <==> Survives(v)
  {
    if v.Node? {
      EntryTheorem(t, v);
      SentNode(t, v.isArray, v.entries);
    }
  }

  /** No string anywhere looks tagged, and no object has a numeric length. */
  ghost predicate Ordinary<N>(v: Value<N>) {
    match v
    case Str(s) => !HasPrefix(s, PREFIX_BIG_INT) && !HasPrefix(s, PREFIX_BIG_NUMBER)
    case Node(isArray, entries) =>
      && (isArray || forall n: nat :: !HasLength(entries, n))
      && forall i :: 0 <= i < |entries| ==> Ordinary(entries[i].value)
    case _ => true
  }

  lemma {:induction false} OrdinaryIsClean<N>(v: Value<N>)
    requires Ordinary(v)
    ensures Clean(v)
  {
    if v.Node? {
      forall i | 0 <= i < |v.entries| ensures Clean(v.entries[i].value) {
        OrdinaryIsClean(v.entries[i].value);
      }
    }
  }

  /** Ordinary objects and arrays of any nesting, with big numbers anywhere in them, survive. */
  lemma OrdinarySurvives<N(!new)>(t: Notation<N>, v: Value<N>)
    requires Lawful(t) && v.Node? && Ordinary(v)
    ensures RoundTrips(t, v)
  {
    OrdinaryIsClean(v);
    RoundTripTheorem(t, v);
  }

  /** An object with length zero and one bigint: the bigint is never tagged, and JSON rejects it. */
  lemma LengthHidesBigInt<N(!new)>(t: Notation<N>, n: int)
    requires Lawful(t)
    ensures Serialize(t, Node(false, [Entry("length", Num(0.0)), Entry("x", BigInt(n))])).None?
  {
    var es: seq<Entry<N>> := [Entry("length", Num(0.0)), Entry("x", BigInt(n))];
    assert es[0] in es && HasLength(es, 0);
    assert !Visited(false, es, "x");
    assert es[1].key == "x" && Sent(t, false, es, 1).None?;
    SentNode(t, false, es);
  }

  /** A bigint that is not inside a container is never tagged either; inside one it returns. */
  lemma BareBigIntThrows<N(!new)>(t: Notation<N>, n: int)
    requires Lawful(t)
    ensures Serialize(t, BigInt(n)).None?
    ensures RoundTrips(t, Node(true, [Entry("0", BigInt(n))]))
  {
    var v: Value<N> := Node(true, [Entry("0", BigInt(n))]);
    assert Clean(v);
    RoundTripTheorem(t, v);
  }

  // ---------------------------------------------------------------- what is written

  /** What is written is JSON: whatever comes out holds none of the two big kinds. */
  lemma {:induction false} WrittenIsJson<N>(t: Notation<N>, v: Value<N>)
    ensures ThroughJson(t, v).Some? ==> Plain(ThroughJson(t, v).value)
  {
    if v.Node? {
      forall i | 0 <= i < |v.entries| ensures ThroughJson(t, v.entries[i].value).Some? ==> Plain(ThroughJson(t, v.entries[i].value).value) {
        WrittenIsJson(t, v.entries[i].value);
      }
    }
  }

  /**
   What a container is written as: JSON with the same keys in the same order, each visited bigint as "bi@"
   and its digits, each visited BigNumber as "bn@" and its text, and everything JSON has of its own as it is.
   */
  lemma WrittenTheorem<N(!new)>(t: Notation<N>, isArray: bool, entries: seq<Entry<N>>, i: nat)
    requires i < |entries| && Serialize(t, Node(isArray, entries)).Some?
    ensures var w := Serialize(t, Node(isArray, entries)).value;
            && Plain(w) && w.Node? && w.isArray == isArray && |w.entries| == |entries|
            && w.entries[i].key == entries[i].key
            && (Visited(isArray, entries, entries[i].key) ==>
                 match entries[i].value
                 case BigInt(n) => w.entries[i].value == Str("bi@" + t.showInt(n))
                 case BigNum(d) => w.entries[i].value == Str("bn@" + t.showNum(d))
                 case Node(_, _) => w.entries[i].value.Node?
                 case _ => w.entries[i].value == entries[i].value)
  {
    WrittenIsJson(t, ToTagged(t, Node(isArray, entries)));
    SentNode(t, isArray, entries);
    var w := Serialize(t, Node(isArray, entries)).value;
    assert Some(w.entries[i].value) == Sent(t, isArray, entries, i);
  }
}
