/** The bucket list that the Monte Carlo player reuses for its move lists
    (palace_server/src/ai/monty/multivec.rs). Buckets are never dropped:
    `reset` empties them and rewinds `index`, so the buckets below `index`
    are the live ones and those at or above it are stale leftovers. */
module MultiVec {

  datatype MultiVec<T> = MultiVec(index: nat, inner: seq<seq<T>>)

  /** `index` never runs past the buckets that exist. */
  predicate Wf<T>(v: MultiVec<T>) {
    v.index <= |v.inner|
  }

  /** Every stale bucket is empty: what `new` and `reset` establish and
      `add_items` keeps. */
  predicate Clean<T>(v: MultiVec<T>) {
    Wf(v) && forall i :: v.index <= i < |v.inner| ==> v.inner[i] == []
  }

  /** `get_valid_inner`: the live buckets. */
  function GetValidInner<T>(v: MultiVec<T>): (live: seq<seq<T>>)
    requires Wf(v)
    ensures |live| == v.index
    ensures forall i :: 0 <= i < v.index ==> live[i] == v.inner[i]
  {
    v.inner[..v.index]
  }

  /** Is `items` one of `buckets`? */
  function Occurs<T(==)>(buckets: seq<seq<T>>, items: seq<T>): (found: bool)
    ensures found <==> exists i :: 0 <= i < |buckets| && buckets[i] == items
  {
    if |buckets| == 0 then false
    else if buckets[0] == items then true
    else
      var found := Occurs(buckets[1..], items);
      assert found ==> exists i :: 0 <= i < |buckets| && buckets[i] == items by {
        if found {
          var i :| 0 <= i < |buckets[1..]| && buckets[1..][i] == items;
          assert buckets[i + 1] == items;
        }
      }
      assert (exists i :: 0 <= i < |buckets| && buckets[i] == items) ==> found by {
        if exists i :: 0 <= i < |buckets| && buckets[i] == items {
          var i :| 0 <= i < |buckets| && buckets[i] == items;
          assert i > 0 && buckets[1..][i - 1] == items;
        }
      }
      found
  }

  /** `new`: no buckets at all, so unlike a reset list (`StaleBucketMatches`)
      it contains no move, not even the empty one. */
  function New<T(==,!new)>(): (v: MultiVec<T>)
    ensures Clean(v) && GetValidInner(v) == []
    ensures forall items :: !ContainsItems(v, items)
  {
    MultiVec(0, [])
  }

  /** `reset`: every bucket is kept but emptied, and none is live. */
  function Reset<T>(v: MultiVec<T>): (r: MultiVec<T>)
    ensures Clean(r) && GetValidInner(r) == []
    ensures |r.inner| == |v.inner|
  {
    MultiVec(0, seq(|v.inner|, _ => []))
  }

  /** `add_items`: `items` is appended to the bucket at `index`, which is
      created first when every bucket is live, and that bucket becomes live. */
  function AddItems<T>(v: MultiVec<T>, items: seq<T>): (r: MultiVec<T>)
    requires Wf(v)
    ensures Wf(r) && r.index == v.index + 1
    ensures GetValidInner(r)[..v.index] == GetValidInner(v)
    ensures |r.inner| == if v.index < |v.inner| then |v.inner| else |v.inner| + 1
    ensures Clean(v) ==> Clean(r) && GetValidInner(r) == GetValidInner(v) + [items]
  {
    var inner := if v.index == |v.inner| then v.inner + [[]] else v.inner;
    var r := MultiVec(v.index + 1, inner[v.index := inner[v.index] + items]);
    assert Clean(v) ==> GetValidInner(r) == GetValidInner(v) + [items] by {
      if Clean(v) {
        assert inner[v.index] == [];
        assert r.inner[v.index] == items;
        forall i | 0 <= i < v.index
          ensures r.inner[i] == v.inner[i]
        {
          assert inner[i] == v.inner[i];
        }
        assert r.inner[..r.index] == v.inner[..v.index] + [items];
      }
    }
    r
  }

  /** Adds each of `moves` in turn. */
  function AddAll<T>(v: MultiVec<T>, moves: seq<seq<T>>): (r: MultiVec<T>)
    requires Wf(v)
    ensures Wf(r) && r.index == v.index + |moves|
    ensures |r.inner| == if r.index <= |v.inner| then |v.inner| else r.index
    decreases |moves|
  {
    if |moves| == 0 then v else AddAll(AddItems(v, moves[0]), moves[1..])
  }

  /** `contains_items`: the scan looks at every bucket, stale ones included. */
  function ContainsItems<T(==)>(v: MultiVec<T>, items: seq<T>): (found: bool)
    ensures found <==> exists i :: 0 <= i < |v.inner| && v.inner[i] == items
  {
    Occurs(v.inner, items)
  }

  /** On a clean bucket list the moves added after the last reset are
      exactly the live buckets, in order. */
  lemma {:induction false} AddAllLive<T>(v: MultiVec<T>, moves: seq<seq<T>>)
    requires Clean(v)
    ensures Clean(AddAll(v, moves))
    ensures GetValidInner(AddAll(v, moves)) == GetValidInner(v) + moves
    decreases |moves|
  {
    if |moves| > 0 {
      var v1 := AddItems(v, moves[0]);
      AddAllLive(v1, moves[1..]);
      assert GetValidInner(v) + [moves[0]] + moves[1..] == GetValidInner(v) + moves;
    }
  }

  /** What `reset` followed by adding `moves` leaves behind: the live buckets
      are `moves`, and `contains_items` answers for them or, where a stale
      bucket survives, for the empty move as well. */
  lemma ResetThenAdd<T>(v: MultiVec<T>, moves: seq<seq<T>>, items: seq<T>)
    ensures var r := AddAll(Reset(v), moves);
      && GetValidInner(r) == moves
      && (ContainsItems(r, items) <==>
            items in moves || (items == [] && |moves| < |v.inner|))
  {
    var r := AddAll(Reset(v), moves);
    AddAllLive(Reset(v), moves);
    assert GetValidInner(r) == moves;
    assert r.index < |r.inner| <==> |moves| < |v.inner|;
    ContainsLive(r, items);
  }

  /** On a clean bucket list `contains_items` finds the live buckets and,
      through any stale bucket, the empty move. */
  lemma ContainsLive<T>(v: MultiVec<T>, items: seq<T>)
    requires Clean(v)
    ensures ContainsItems(v, items) <==>
      items in GetValidInner(v) || (items == [] && v.index < |v.inner|)
  {
    var live := GetValidInner(v);
    if items in live {
      var i :| 0 <= i < |live| && live[i] == items;
      assert v.inner[i] == items;
    }
    if items == [] && v.index < |v.inner| {
      assert v.inner[v.index] == items;
    }
    if ContainsItems(v, items) {
      var i :| 0 <= i < |v.inner| && v.inner[i] == items;
      if i < v.index {
        assert live[i] == items;
      }
    }
  }

  /** A stale bucket answers `contains_items`: after a reset of a list that
      held a move, the empty move is reported present though nothing is live. */
  lemma StaleBucketMatches<T>(v: MultiVec<T>)
    requires |v.inner| > 0
    ensures GetValidInner(Reset(v)) == []
    ensures ContainsItems(Reset(v), [])
  {
    assert Reset(v).inner[0] == [];
  }
}
