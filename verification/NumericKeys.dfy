/** Visiting the numeric keys of an object, which the language runtime does in ascending order. */
module NumericKeys {

  ghost predicate Ascending(keys: seq<nat>) {
    forall i, j :: 0 <= i < j < |keys| ==> keys[i] < keys[j]
  }

  ghost predicate IsLeast(least: nat, s: set<nat>) {
    least in s && forall k :: k in s ==> least <= k
  }

  lemma {:induction false} LeastExists(s: set<nat>)
    requires s != {}
    ensures exists least :: IsLeast(least, s)
  {
    var k :| k in s;
    var rest := s - {k};
    if rest == {} {
      assert s == {k};
      assert IsLeast(k, s);
    } else {
      LeastExists(rest);
      var least :| IsLeast(least, rest);
      assert s == rest + {k};
      assert IsLeast(if k < least then k else least, s);
    }
  }

  method AscendingKeys(s: set<nat>) returns (keys: seq<nat>)
    ensures Ascending(keys)
    ensures forall k :: k in keys <==> k in s
  {
    keys := [];
    var left := s;
    while left != {}
      invariant left <= s
      invariant forall k :: k in s <==> k in keys || k in left
      invariant Ascending(keys)
      invariant forall i, k :: 0 <= i < |keys| && k in left ==> keys[i] < k
      decreases left
    {
      LeastExists(left);
      var least :| least in left && forall k :: k in left ==> least <= k;
      keys := keys + [least];
      left := left - {least};
    }
  }
}
