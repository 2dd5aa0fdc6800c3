/** JavaScript arrays as main.js uses them: writing past the end leaves holes. An array
    is its `length` and the indices that actually hold an element. */
module Sparse {

  datatype SparseArray<T> = SparseArray(length: nat, slots: map<nat, T>)

  function Empty<T>(): SparseArray<T>
  {
    SparseArray(0, map[])
  }

  /** `a[i] = v`: index i now holds v, the other indices keep their elements, and the
      length grows to i + 1 when i was at or past the end. */
  function Assign<T>(a: SparseArray<T>, i: nat, v: T): (r: SparseArray<T>)
  {
    SparseArray(if i < a.length then a.length else i + 1, a.slots[i := v])
  }

  /** What `a[i] = v` does: index i then holds v, every other index keeps its element
      or its hole, and the length becomes the least one that covers both the old length
      and index i. */
  lemma AssignWrites<T>(a: SparseArray<T>, i: nat, v: T)
    ensures var r := Assign(a, i, v);
      i in r.slots && r.slots[i] == v &&
      r.slots.Keys == a.slots.Keys + {i} &&
      (forall j :: j in a.slots && j != i ==> r.slots[j] == a.slots[j]) &&
      i < r.length && a.length <= r.length && (r.length == a.length || r.length == i + 1)
  {
  }

  /** The array after `lineObjects[lineObjects.length + 1] = v` for each v of `vs` in
      turn, starting from the empty array. */
  function Appended<T>(vs: seq<T>): SparseArray<T>
  {
    if vs == [] then Empty()
    else
      var a := Appended(vs[..|vs| - 1]);
      Assign(a, a.length + 1, vs[|vs| - 1])
  }

  /** The odd indices below n. */
  ghost function OddIndicesBelow(n: nat): set<nat>
  {
    set i: nat | i < n && i % 2 == 1
  }

  lemma OddIndicesStep(m: nat)
    ensures OddIndicesBelow(2 * m + 2) == OddIndicesBelow(2 * m) + {2 * m + 1}
  {
    assert (2 * m + 1) % 2 == 1;
  }

  /** `a` has length 2n for the n values of `vs`, its occupied indices are exactly
      1, 3, ..., 2n - 1, and index 2k + 1 holds the k-th value. */
  ghost predicate OddLayout<T>(a: SparseArray<T>, vs: seq<T>)
  {
    a.length == 2 * |vs| &&
    a.slots.Keys == OddIndicesBelow(2 * |vs|) &&
    forall k :: 0 <= k < |vs| ==> 2 * k + 1 in a.slots && a.slots[2 * k + 1] == vs[k]
  }

  /** Writing past the end of an array so laid out extends the layout by one value. */
  lemma PushKeepsLayout<T>(a: SparseArray<T>, vs: seq<T>, v: T)
    requires OddLayout(a, vs)
    ensures OddLayout(Assign(a, a.length + 1, v), vs + [v])
  {
    OddIndicesStep(|vs|);
  }

  /** After n writes past the end, starting from the empty array, the array has length
      2n, its occupied indices are exactly 1, 3, ..., 2n - 1, and index 2k + 1 holds
      the k-th value written. */
  lemma {:induction false} AppendedLayout<T>(vs: seq<T>)
    ensures OddLayout(Appended(vs), vs)
  {
    if vs != [] {
      var init := vs[..|vs| - 1];
      AppendedLayout(init);
      PushKeepsLayout(Appended(init), init, vs[|vs| - 1]);
      assert init + [vs[|vs| - 1]] == vs;
    }
  }

  /** The layout determines the array: it is the one the writes produce. */
  lemma OddLayoutUnique<T>(a: SparseArray<T>, vs: seq<T>)
    requires OddLayout(a, vs)
    ensures a == Appended(vs)
  {
    var b := Appended(vs);
    AppendedLayout(vs);
    forall i | i in a.slots
      ensures a.slots[i] == b.slots[i]
    {
      assert i in OddIndicesBelow(2 * |vs|);
      assert i == 2 * (i / 2) + 1;
    }
    assert a.slots == b.slots;
  }

  /** The elements such an array holds are the values written, so `includes` finds
      exactly those. */
  lemma OddLayoutElements<T>(a: SparseArray<T>, vs: seq<T>)
    requires OddLayout(a, vs)
    ensures forall x :: x in a.slots.Values <==> x in vs
  {
    forall x
      ensures x in a.slots.Values <==> x in vs
    {
      if x in vs {
        var k :| 0 <= k < |vs| && vs[k] == x;
        assert a.slots[2 * k + 1] == x;
      }
      if x in a.slots.Values {
        var i :| i in a.slots && a.slots[i] == x;
        assert i in OddIndicesBelow(2 * |vs|);
        assert i == 2 * (i / 2) + 1;
      }
    }
  }
}
