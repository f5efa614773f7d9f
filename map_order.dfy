/** The order in which a std::map keyed by program index visits its entries:
    ascending key order, each key once. */
module MapOrder {
  import opened Bytes

  /** The smallest program index in a non-empty set of them. */
  ghost function MinKey(ks: set<byte>): (m: byte)
    requires ks != {}
    ensures m in ks && forall q :: q in ks ==> m <= q
    decreases |ks|
  {
    var x :| x in ks;
    assert forall q :: q in ks ==> q == x || q in ks - {x};
    if ks - {x} == {} then x
    else
      var m := MinKey(ks - {x});
      if x <= m then x else m
  }

  /** Iteration order: the smallest key first, then the remaining keys in the same order. */
  ghost function SortedKeys(ks: set<byte>): seq<byte>
    decreases |ks|
  {
    if ks == {} then [] else [MinKey(ks)] + SortedKeys(ks - {MinKey(ks)})
  }

  ghost predicate Ascending(s: seq<byte>)
  {
    forall i, j :: 0 <= i < j < |s| ==> s[i] < s[j]
  }

  /** ks lists exactly the keys, ascending. */
  ghost predicate InOrder(ks: seq<byte>, keys: set<byte>)
  {
    Ascending(ks) && (forall p :: p in keys <==> p in ks)
  }

  /** Iteration visits the smallest remaining key next. */
  lemma {:induction false} SortedKeysFirst(visited: seq<byte>, ks: set<byte>)
    requires ks != {}
    ensures visited + SortedKeys(ks) == (visited + [MinKey(ks)]) + SortedKeys(ks - {MinKey(ks)})
  {
  }

  /** Every key is visited, nothing else is, and as often as there are keys. */
  lemma {:induction false} SortedKeysMembers(ks: set<byte>)
    ensures forall p :: p in SortedKeys(ks) <==> p in ks
    ensures |SortedKeys(ks)| == |ks|
    decreases |ks|
  {
    if ks != {} {
      var m := MinKey(ks);
      SortedKeysMembers(ks - {m});
      assert SortedKeys(ks) == [m] + SortedKeys(ks - {m});
    }
  }

  /** A key below every element of an ascending sequence can be put in front of it. */
  lemma {:induction false} ConsAscending(m: byte, rest: seq<byte>)
    requires Ascending(rest)
    requires forall i :: 0 <= i < |rest| ==> m < rest[i]
    ensures Ascending([m] + rest)
  {
    var r := [m] + rest;
    forall i, j | 0 <= i < j < |r| ensures r[i] < r[j] {
      assert r[j] == rest[j - 1];
      if i > 0 {
        assert r[i] == rest[i - 1];
      }
    }
  }

  /** Every visited key lies above a bound that all the keys lie above. */
  lemma {:induction false} KeysAbove(ks: set<byte>, lo: byte)
    requires forall q :: q in ks ==> lo < q
    ensures forall i :: 0 <= i < |SortedKeys(ks)| ==> lo < SortedKeys(ks)[i]
    decreases |ks|
  {
    if ks != {} {
      var m := MinKey(ks);
      KeysAbove(ks - {m}, lo);
      assert SortedKeys(ks) == [m] + SortedKeys(ks - {m});
    }
  }

  lemma {:induction false} SortedKeysAscending(ks: set<byte>)
    ensures Ascending(SortedKeys(ks))
    decreases |ks|
  {
    if ks != {} {
      var m := MinKey(ks);
      SortedKeysAscending(ks - {m});
      KeysAbove(ks - {m}, m);
      ConsAscending(m, SortedKeys(ks - {m}));
    }
  }

  /** The iteration order lists every key exactly once, ascending. */
  lemma {:induction false} SortedKeysSpec(ks: set<byte>)
    ensures InOrder(SortedKeys(ks), ks)
    ensures |SortedKeys(ks)| == |ks|
  {
    SortedKeysMembers(ks);
    SortedKeysAscending(ks);
  }
}
