/** Reversing sequences, and what reversal does to concatenations. */
module Sequences {

  function Reverse<T>(s: seq<T>): (r: seq<T>)
    ensures |r| == |s|
    ensures forall i :: 0 <= i < |s| ==> r[i] == s[|s| - 1 - i]
  {
    seq(|s|, i requires 0 <= i < |s| => s[|s| - 1 - i])
  }

  lemma ReverseConcat<T>(s: seq<T>, t: seq<T>)
    ensures Reverse(s + t) == Reverse(t) + Reverse(s)
  {
    var l, r := Reverse(s + t), Reverse(t) + Reverse(s);
    forall i | 0 <= i < |l| ensures l[i] == r[i] {
      if i >= |t| {
        assert r[i] == Reverse(s)[i - |t|];
      }
    }
  }

  lemma ReverseTwice<T>(s: seq<T>)
    ensures Reverse(Reverse(s)) == s
  {
  }

  lemma OneMore<T>(s: seq<T>, n: nat)
    requires n < |s|
    ensures s[..n + 1] == s[..n] + [s[n]]
  {
  }

  lemma ReverseHead<T>(s: seq<T>, n: nat)
    requires 0 < n <= |s|
    ensures Reverse(s[..n])[0] == s[n - 1] && Reverse(s[..n])[1..] == Reverse(s[..n - 1])
  {
  }

  lemma CutConcat<T>(s: seq<T>, t: seq<T>, n: nat)
    requires n <= |s|
    ensures (s + t)[..n] == s[..n] && (s + t)[n..] == s[n..] + t
  {
  }

  lemma TailOfConcat<T>(s: seq<T>, t: seq<T>)
    requires s != []
    ensures (s + t)[0] == s[0] && (s + t)[1..] == s[1..] + t
  {
  }

  lemma ConcatAssociative<T>(s: seq<T>, t: seq<T>, u: seq<T>)
    ensures s + (t + u) == s + t + u
  {
  }

  /** A concatenation that starts a longer list: its second part stands right after its first. */
  lemma SecondPart<T>(s: seq<T>, t: seq<T>, all: seq<T>)
    requires s + t <= all
    ensures s <= all && |s| + |t| <= |all| && all[|s|..|s| + |t|] == t
  {
    assert all[..|s + t|] == s + t;
    assert all[|s|..|s| + |t|] == all[..|s + t|][|s|..|s| + |t|];
  }
}
