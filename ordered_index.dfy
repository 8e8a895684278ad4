/**
 * The ordered index of a priority collection: a `std::map` keyed by the pair
 * (priority, id) in ascending lexicographic order. The balanced tree behind the
 * map is modelled by the sequence of its keys in ascending order, so that the
 * map's greatest key (`--end()`) is the last element of that sequence, and
 * `operator[]` on a new key and `erase` by key are the sorted insertion and
 * removal below.
 */
module OrderedIndex {

  /** A key of the index: the priority first, the identity as the tie-breaker. */
  datatype Key = Key(priority: int, id: int)

  /** The strict lexicographic order of `std::pair<int, int>`. */
  predicate Less(a: Key, b: Key) {
    a.priority < b.priority || (a.priority == b.priority && a.id < b.id)
  }

  /** The keys of a map, listed in its iteration order: strictly ascending. */
  predicate Sorted(s: seq<Key>) {
    forall i, j :: 0 <= i < j < |s| ==> Less(s[i], s[j])
  }

  /** The key set of the map. */
  function Elems(s: seq<Key>): set<Key> {
    set k | k in s
  }

  /**
   * `map[k] = v` for the key part of the map: the key set gains `k`, and a
   * key that is already present leaves the map's keys as they were.
   */
  function Insert(s: seq<Key>, k: Key): (r: seq<Key>)
    requires Sorted(s)
    ensures Sorted(r)
    ensures forall x :: x in r <==> x in s || x == k
    ensures Elems(r) == Elems(s) + {k}
    ensures k in s ==> r == s
  {
    if s == [] then [k]
    else if Less(s[0], k) then
      var tail := Insert(s[1..], k);
      HeadBelowTail(s);
      Cons(s[0], tail);
      [s[0]] + tail
    else if s[0] == k then s
    else [k] + s
  }

  /** `map.erase(k)`: the key set loses `k`, and nothing else changes. */
  function Erase(s: seq<Key>, k: Key): (r: seq<Key>)
    requires Sorted(s)
    ensures Sorted(r)
    ensures forall x :: x in r <==> x in s && x != k
    ensures Elems(r) == Elems(s) - {k}
  {
    if s == [] then []
    else if s[0] == k then s[1..]
    else
      var tail := Erase(s[1..], k);
      HeadBelowTail(s);
      Cons(s[0], tail);
      [s[0]] + tail
  }

  /** In an ascending sequence the first key is below all the others. */
  lemma HeadBelowTail(s: seq<Key>)
    requires Sorted(s) && s != []
    ensures forall x :: x in s[1..] ==> Less(s[0], x)
  {
  }

  /** A key below every key of an ascending sequence may be put in front of it. */
  lemma Cons(a: Key, t: seq<Key>)
    requires Sorted(t)
    requires forall x :: x in t ==> Less(a, x)
    ensures Sorted([a] + t)
  {
  }

  /** `(--map.end())->first`: the key that is greater than every other key. */
  function Greatest(s: seq<Key>): (m: Key)
    requires Sorted(s) && s != []
    ensures m in s
    ensures forall k :: k in s && k != m ==> Less(k, m)
  {
    s[|s| - 1]
  }
}
