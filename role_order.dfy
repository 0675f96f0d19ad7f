/**
 * The order in which the store's Walk visits a map keyed by uint64 ids:
 * ascending id order. `IdsAscending` lists the keys smallest first and
 * `InIdOrder` the values in that order.
 */
module RoleOrder {
  import opened VotingTypes

  predicate StrictlyIncreasing(ks: seq<uint64>) {
    forall i, j :: 0 <= i < j < |ks| ==> ks[i] < ks[j]
  }

  /** The smallest element of a non-empty set of ids. */
  ghost function MinId(s: set<uint64>): (k: uint64)
    requires s != {}
    ensures k in s && forall j :: j in s ==> k <= j
    decreases s
  {
    var x :| x in s;
    if s == {x} then
      assert forall j :: j in s ==> j == x;
      x
    else
      var y := MinId(s - {x});
      assert forall j :: j in s ==> j == x || j in s - {x};
      if x < y then x else y
  }

  /** The ids of `s`, smallest first. */
  ghost function IdsAscending(s: set<uint64>): seq<uint64>
    decreases s
  {
    if s == {} then [] else [MinId(s)] + IdsAscending(s - {MinId(s)})
  }

  /** The ascending listing holds exactly the ids of the set. */
  lemma {:induction false} IdsAscendingMembers(s: set<uint64>)
    ensures forall i :: 0 <= i < |IdsAscending(s)| ==> IdsAscending(s)[i] in s
    ensures forall k :: k in s ==> k in IdsAscending(s)
    decreases s
  {
    if s != {} {
      var k := MinId(s);
      var rest := IdsAscending(s - {k});
      IdsAscendingMembers(s - {k});
      var ks := IdsAscending(s);
      assert ks == [k] + rest;
      forall i | 0 <= i < |ks| ensures ks[i] in s {
        if i > 0 { assert ks[i] == rest[i - 1]; }
      }
      forall j | j in s ensures j in ks {
        if j != k { assert j in rest; }
      }
    }
  }

  /** Putting an id below every element in front of a strictly increasing list keeps it strictly increasing. */
  lemma ConsIncreasing(k: uint64, rest: seq<uint64>)
    requires StrictlyIncreasing(rest)
    requires forall i :: 0 <= i < |rest| ==> k < rest[i]
    ensures StrictlyIncreasing([k] + rest)
  {
    var ks := [k] + rest;
    forall i, j | 0 <= i < j < |ks| ensures ks[i] < ks[j] {
      if i > 0 { assert ks[i] == rest[i - 1]; }
      assert ks[j] == rest[j - 1];
    }
  }

  /** The ascending listing is strictly increasing. */
  lemma {:induction false} IdsAscendingIsSorted(s: set<uint64>)
    ensures StrictlyIncreasing(IdsAscending(s))
    decreases s
  {
    if s != {} {
      var k := MinId(s);
      var rest := IdsAscending(s - {k});
      IdsAscendingIsSorted(s - {k});
      IdsAscendingMembers(s - {k});
      forall i | 0 <= i < |rest| ensures k < rest[i] {
        assert rest[i] in s - {k};
      }
      ConsIncreasing(k, rest);
    }
  }

  /** The values a map holds at the ids `ks`, in that order. */
  function ValuesAt<V>(m: map<uint64, V>, ks: seq<uint64>): (vs: seq<V>)
    requires forall i :: 0 <= i < |ks| ==> ks[i] in m
    ensures |vs| == |ks| && forall i :: 0 <= i < |ks| ==> vs[i] == m[ks[i]]
  {
    seq(|ks|, i requires 0 <= i < |ks| => m[ks[i]])
  }

  /** The stored values in ascending id order: the order Walk visits them. */
  ghost function InIdOrder<V>(m: map<uint64, V>): seq<V> {
    IdsAscendingMembers(m.Keys);
    ValuesAt(m, IdsAscending(m.Keys))
  }

  /** Listing a set in ascending order starts with its smallest element. */
  lemma IdsAscendingUnfold(s: set<uint64>, k: uint64)
    requires k in s && forall j :: j in s ==> k <= j
    ensures IdsAscending(s) == [k] + IdsAscending(s - {k})
  {
    assert MinId(s) == k;
  }

  /**
   * One step of a walk: when `done` lists the ids already visited and `rest`
   * the ids still to visit, visiting the smallest remaining id keeps the split.
   */
  lemma WalkStep(all: set<uint64>, done: seq<uint64>, rest: set<uint64>, k: uint64)
    requires rest <= all && forall i :: 0 <= i < |done| ==> done[i] in all
    requires done + IdsAscending(rest) == IdsAscending(all)
    requires k in rest && forall j :: j in rest ==> k <= j
    ensures forall i :: 0 <= i < |done| + 1 ==> (done + [k])[i] in all
    ensures (done + [k]) + IdsAscending(rest - {k}) == IdsAscending(all)
  {
    IdsAscendingUnfold(rest, k);
    assert done + IdsAscending(rest) == (done + [k]) + IdsAscending(rest - {k});
  }

  /** Reading the values at one more id appends that id's value. */
  lemma ValuesAtSnoc<V>(m: map<uint64, V>, ks: seq<uint64>, k: uint64)
    requires forall i :: 0 <= i < |ks| ==> ks[i] in m
    requires k in m
    ensures ValuesAt(m, ks + [k]) == ValuesAt(m, ks) + [m[k]]
  {
  }

  /** The first element of a strictly increasing listing of `s` is its minimum. */
  lemma HeadIsMin(ks: seq<uint64>, s: set<uint64>)
    requires ks != [] && StrictlyIncreasing(ks)
    requires forall k :: k in ks <==> k in s
    ensures s != {} && MinId(s) == ks[0]
  {
    assert ks[0] in ks;
    var k := MinId(s);
    assert k in ks;
    var i :| 0 <= i < |ks| && ks[i] == k;
    assert k <= ks[0];
  }

  /** Dropping the head of a strictly increasing listing of `s` lists `s` without its minimum. */
  lemma TailLists(ks: seq<uint64>, s: set<uint64>)
    requires ks != [] && StrictlyIncreasing(ks)
    requires forall k :: k in ks <==> k in s
    ensures StrictlyIncreasing(ks[1..])
    ensures forall j :: j in ks[1..] <==> j in s - {ks[0]}
  {
    var tail := ks[1..];
    forall j ensures j in tail <==> j in s - {ks[0]} {
      if j in tail {
        var i :| 0 <= i < |tail| && tail[i] == j;
        assert ks[0] < ks[i + 1];
      }
      if j in s - {ks[0]} {
        assert j in ks;
        var i :| 0 <= i < |ks| && ks[i] == j;
        assert tail[i - 1] == j;
      }
    }
  }

  /** A strictly increasing list is the ascending listing of its own elements. */
  lemma {:induction false} SortedListIsIdsAscending(ks: seq<uint64>, s: set<uint64>)
    requires StrictlyIncreasing(ks)
    requires forall k :: k in ks <==> k in s
    ensures IdsAscending(s) == ks
    decreases |ks|
  {
    if ks == [] {
      assert forall j :: j !in s;
    } else {
      HeadIsMin(ks, s);
      TailLists(ks, s);
      SortedListIsIdsAscending(ks[1..], s - {ks[0]});
      assert IdsAscending(s) == [ks[0]] + IdsAscending(s - {ks[0]});
      assert ks == [ks[0]] + ks[1..];
    }
  }

  /** The values visited in id order are exactly the stored values. */
  lemma InIdOrderMembers<V>(m: map<uint64, V>, v: V)
    ensures v in InIdOrder(m) <==> exists k :: k in m && m[k] == v
  {
    var ks := IdsAscending(m.Keys);
    var vs := InIdOrder(m);
    IdsAscendingMembers(m.Keys);
    if v in vs {
      var i :| 0 <= i < |vs| && vs[i] == v;
      assert ks[i] in m && m[ks[i]] == v;
    }
    if exists k :: k in m && m[k] == v {
      var k :| k in m && m[k] == v;
      assert k in ks;
      var i :| 0 <= i < |ks| && ks[i] == k;
      assert vs[i] == v;
    }
  }
}
