/**
 * `PriorityCollection<T>`: values stored under dense integer ids, each with a
 * priority that only grows, and retrieval or removal of the entry whose
 * (priority, id) key is greatest.
 */
module PriorityCollections {
  import opened OrderedIndex

  /** The ledger value that marks an id whose object has been popped. */
  const Popped: int := -1

  /** The keys the index must hold for a ledger: one per live id, under its priority. */
  function LiveKeys(prio: seq<int>): set<Key> {
    set i | 0 <= i < |prio| && prio[i] >= 0 :: Key(prio[i], i)
  }

  /** A key of a ledger's index names a live id under that id's own priority. */
  lemma LiveKeyOf(prio: seq<int>, k: Key)
    requires k in LiveKeys(prio)
    ensures 0 <= k.id < |prio| && prio[k.id] >= 0 && k.priority == prio[k.id]
  {
  }

  /** Every live id has its key among the live keys. */
  lemma LiveIdsIndexed(prio: seq<int>)
    ensures forall i :: 0 <= i < |prio| && prio[i] >= 0 ==> Key(prio[i], i) in LiveKeys(prio)
  {
  }

  /** An id has a key among the live keys exactly when it is live. */
  lemma LiveKeysOfId(prio: seq<int>, id: int)
    requires 0 <= id
    ensures (exists p :: Key(p, id) in LiveKeys(prio)) <==> id < |prio| && prio[id] >= 0
  {
  }

  /** Appending a fresh id with priority 0 adds exactly the key (0, id). */
  lemma LiveKeysAppend(prio: seq<int>)
    ensures LiveKeys(prio + [0]) == LiveKeys(prio) + {Key(0, |prio|)}
  {
    var p := prio + [0];
    forall k | k in LiveKeys(p) ensures k in LiveKeys(prio) + {Key(0, |prio|)} {
      LiveKeyOf(p, k);
      if k.id < |prio| {
        assert p[k.id] == prio[k.id];
      }
    }
    forall k | k in LiveKeys(prio) ensures k in LiveKeys(p) {
      LiveKeyOf(prio, k);
      assert p[k.id] == prio[k.id];
    }
    assert p[|prio|] == 0;
  }

  /**
   * Changing one ledger entry to `v` swaps that id's key for (v, id), or only
   * drops it when `v` is the popped marker; every other key stays.
   */
  lemma LiveKeysUpdate(prio: seq<int>, id: int, v: int)
    requires 0 <= id < |prio|
    ensures LiveKeys(prio[id := v])
         == LiveKeys(prio) - {Key(prio[id], id)} + (if v >= 0 then {Key(v, id)} else {})
  {
    var p := prio[id := v];
    forall k | k in LiveKeys(p)
      ensures k in LiveKeys(prio) - {Key(prio[id], id)} + (if v >= 0 then {Key(v, id)} else {})
    {
      LiveKeyOf(p, k);
      if k.id != id {
        assert Key(prio[k.id], k.id) in LiveKeys(prio);
      }
    }
    forall k | k in LiveKeys(prio) - {Key(prio[id], id)} ensures k in LiveKeys(p) {
      LiveKeyOf(prio, k);
      assert Key(p[k.id], k.id) in LiveKeys(p);
    }
    if v >= 0 {
      assert Key(p[id], id) in LiveKeys(p);
    }
  }

  /**
   * `id` is live and its key (priority, id) is greater than the key of every
   * other live id.
   */
  ghost predicate IsTop(prio: seq<int>, id: int) {
    0 <= id < |prio| && prio[id] >= 0 &&
    forall j :: 0 <= j < |prio| && prio[j] >= 0 && j != id ==> Less(Key(prio[j], j), Key(prio[id], id))
  }

  /** At most one id is on top, so the maximum is well defined. */
  lemma TopUnique(prio: seq<int>, a: int, b: int)
    requires IsTop(prio, a) && IsTop(prio, b)
    ensures a == b
  {
  }

  class PriorityCollection<T> {
    /** The value slots, indexed by id; a popped slot stays in place. */
    var objects: seq<T>
    /** The priority ledger, indexed by id; `Popped` once the id has been popped. */
    var prio: seq<int>
    /** The keys of the ordered index, ascending. */
    var index: seq<Key>

    /** The class invariant: the index holds exactly the live ids, each under its priority. */
    ghost predicate Valid()
      reads this
    {
      |prio| == |objects| &&
      (forall i :: 0 <= i < |prio| ==> prio[i] >= Popped) &&
      Sorted(index) &&
      Elems(index) == LiveKeys(prio)
    }

    constructor ()
      ensures Valid()
      ensures objects == [] && prio == [] && index == []
    {
      objects, prio, index := [], [], [];
    }

    /** `IsValid(id)`: the id has been handed out and not popped. */
    function IsValid(id: int): (b: bool)
      reads this
      requires Valid() && 0 <= id
      ensures b <==> exists p :: Key(p, id) in Elems(index)
    {
      LiveKeysOfId(prio, id);
      id < |objects| && prio[id] >= 0
    }

    /** `Get(id)`: the value stored under a live id. */
    function Get(id: int): T
      reads this
      requires Valid() && 0 <= id && IsValid(id)
    {
      objects[id]
    }

    /** The id of the index's greatest key: the live id on top. */
    function TopId(): (id: int)
      reads this
      requires Valid() && index != []
      ensures IsTop(prio, id)
      ensures Key(prio[id], id) == index[|index| - 1]
    {
      var m := Greatest(index);
      LiveKeyOf(prio, m);
      assert forall j :: 0 <= j < |prio| && prio[j] >= 0 ==> Key(prio[j], j) in Elems(index);
      m.id
    }

    /**
     * `GetMax()`: the value and the priority of the live id whose
     * (priority, id) key is the greatest.
     */
    function GetMax(): (r: (T, int))
      reads this
      requires Valid() && index != []
      ensures exists id :: IsTop(prio, id) && r.0 == objects[id] && r.1 == prio[id]
    {
      var id := TopId();
      (objects[id], prio[id])
    }

    /** The live id on top is the one `GetMax` and `PopMax` select. */
    lemma TopIsSelected(id: int)
      requires Valid() && IsTop(prio, id)
      ensures index != [] && TopId() == id
    {
      assert Key(prio[id], id) in LiveKeys(prio);
      TopUnique(prio, TopId(), id);
    }

    /** The index is empty exactly when no id is live. */
    lemma EmptyIndex()
      requires Valid()
      ensures index == [] <==> forall i :: 0 <= i < |prio| ==> prio[i] == Popped
    {
      LiveIdsIndexed(prio);
      if index != [] {
        assert index[0] in Elems(index);
        LiveKeyOf(prio, index[0]);
      }
    }

    /**
     * `Add(object)`: the next id, priority 0, key (0, id) in the index; every
     * earlier slot, priority and key is kept.
     */
    method Add(x: T) returns (id: int)
      requires Valid()
      modifies this
      ensures Valid()
      ensures |old(prio)| <= |prio| && forall j :: 0 <= j < |old(prio)| && old(prio)[j] == Popped ==> prio[j] == Popped
      ensures id == |old(objects)|
      ensures objects == old(objects) + [x]
      ensures prio == old(prio) + [0]
      ensures Elems(index) == Elems(old(index)) + {Key(0, id)}
      ensures IsValid(id) && Get(id) == x
    {
      LiveKeysAppend(prio);
      objects := objects + [x];
      prio := prio + [0];
      id := |objects| - 1;
      index := Insert(index, Key(prio[id], id));
    }

    /**
     * The range `Add`: one single `Add` per element, in order, the ids written
     * out in the same order.
     */
    method AddRange(xs: seq<T>) returns (ids: seq<int>)
      requires Valid()
      modifies this
      ensures Valid()
      ensures |old(prio)| <= |prio| && forall j :: 0 <= j < |old(prio)| && old(prio)[j] == Popped ==> prio[j] == Popped
      ensures |ids| == |xs|
      ensures forall j :: 0 <= j < |xs| ==> ids[j] == |old(objects)| + j
      ensures objects == old(objects) + xs
      ensures prio == old(prio) + seq(|xs|, _ => 0)
      ensures forall k :: k in Elems(index) <==>
                k in Elems(old(index)) || (k.priority == 0 && |old(objects)| <= k.id < |old(objects)| + |xs|)
    {
      ids := [];
      var i := 0;
      while i < |xs|
        invariant 0 <= i <= |xs|
        invariant Valid()
        invariant objects == old(objects) + xs[..i]
        invariant prio == old(prio) + seq(i, _ => 0)
        invariant |ids| == i
        invariant forall j :: 0 <= j < i ==> ids[j] == |old(objects)| + j
        invariant forall k :: k in Elems(index) <==>
                    k in Elems(old(index)) || (k.priority == 0 && |old(objects)| <= k.id < |old(objects)| + i)
      {
        var id := Add(xs[i]);
        ids := ids + [id];
        assert xs[..i + 1] == xs[..i] + [xs[i]];
        i := i + 1;
      }
      assert xs[..i] == xs;
    }

    /**
     * `Promote(id)`: the id's priority grows by exactly one and its key moves
     * from (p, id) to (p + 1, id); nothing else changes.
     */
    method Promote(id: int)
      requires Valid() && 0 <= id < |prio| && prio[id] >= 0
      modifies this
      ensures Valid()
      ensures |old(prio)| <= |prio| && forall j :: 0 <= j < |old(prio)| && old(prio)[j] == Popped ==> prio[j] == Popped
      ensures prio == old(prio)[id := old(prio[id]) + 1]
      ensures objects == old(objects)
      ensures Elems(index) == Elems(old(index)) - {Key(old(prio[id]), id)} + {Key(old(prio[id]) + 1, id)}
    {
      var p := prio[id];
      LiveKeysUpdate(prio, id, p + 1);
      index := Erase(index, Key(p, id));
      prio := prio[id := p + 1];
      index := Insert(index, Key(prio[id], id));
    }

    /**
     * `PopMax()`: what `GetMax()` returns, after which the id is marked popped
     * and only its key leaves the index.
     */
    method PopMax() returns (x: T, p: int)
      requires Valid() && index != []
      modifies this
      ensures Valid()
      ensures |old(prio)| <= |prio| && forall j :: 0 <= j < |old(prio)| && old(prio)[j] == Popped ==> prio[j] == Popped
      ensures (x, p) == old(GetMax())
      ensures prio == old(prio)[old(TopId()) := Popped]
      ensures objects == old(objects)
      ensures Elems(index) == Elems(old(index)) - {Key(p, old(TopId()))}
      ensures !IsValid(old(TopId()))
    {
      var k := index[|index| - 1];
      assert k in Elems(index);
      LiveKeyOf(prio, k);
      var id := k.id;
      x, p := objects[id], k.priority;
      LiveKeysUpdate(prio, id, Popped);
      prio := prio[id := Popped];
      index := Erase(index, k);
    }
  }
}
