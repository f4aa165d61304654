/** A fixed-capacity sparse set: a map from small integer ids to values kept
    densely packed in two lists that move in lockstep. */
module SparseSets {

  /** `k_Empty`: the largest 64-bit `size_t`, the mark of an id with no dense slot. */
  const Empty: nat := 0xFFFF_FFFF_FFFF_FFFF

  /** No id occurs twice in `s`. */
  ghost predicate Distinct(s: seq<nat>) {
    forall i, j :: 0 <= i < j < |s| ==> s[i] != s[j]
  }

  /** Swap-with-last removal of position `k`: the last element is moved into
      slot `k` and the list loses its last slot. */
  function SwapRemove<X>(s: seq<X>, k: nat): seq<X>
    requires k < |s|
  {
    s[k := s[|s| - 1]][..|s| - 1]
  }

  /** Swap-removal keeps every position but `k` and the last, and moves the
      former last element into slot `k`. */
  lemma SwapRemoveAt<X>(s: seq<X>, k: nat)
    requires k < |s|
    ensures |SwapRemove(s, k)| == |s| - 1
    ensures forall j :: 0 <= j < |s| - 1 && j != k ==> SwapRemove(s, k)[j] == s[j]
    ensures k < |s| - 1 ==> SwapRemove(s, k)[k] == s[|s| - 1]
  {
  }

  /** Swap-removal takes away exactly one occurrence of `s[k]` and keeps
      every other element. */
  lemma {:induction false} SwapRemoveMultiset<X>(s: seq<X>, k: nat)
    requires k < |s|
    ensures multiset(SwapRemove(s, k)) + multiset{s[k]} == multiset(s)
  {
    var n := |s|;
    var t := s[k := s[n - 1]];
    assert t == SwapRemove(s, k) + [s[n - 1]];
    assert s == s[..n - 1] + [s[n - 1]];
  }

  /** Swap-removal from a list without duplicates leaves one without
      duplicates, from which the removed element is gone. */
  lemma SwapRemoveDistinct(s: seq<nat>, k: nat)
    requires k < |s| && Distinct(s)
    ensures Distinct(SwapRemove(s, k))
    ensures s[k] !in SwapRemove(s, k)
  {
    SwapRemoveAt(s, k);
    var r := SwapRemove(s, k);
    forall i, j | 0 <= i < j < |r| ensures r[i] != r[j] {
      var i' := if i == k then |s| - 1 else i;
      var j' := if j == k then |s| - 1 else j;
      assert r[i] == s[i'] && r[j] == s[j'] && i' != j';
    }
    forall j | 0 <= j < |r| ensures r[j] != s[k] {
      var j' := if j == k then |s| - 1 else j;
      assert r[j] == s[j'] && j' != k;
    }
  }

  /** Pigeonhole: ids without duplicates, all below `n`, are at most `n` many.
      This is why the dense lists never outgrow the capacity. */
  lemma {:induction false} DistinctBelowBound(s: seq<nat>, n: nat)
    requires Distinct(s)
    requires forall k :: 0 <= k < |s| ==> s[k] < n
    ensures |s| <= n
    decreases n
  {
    if |s| == 0 {
    } else if j :| 0 <= j < |s| && s[j] == n - 1 {
      var t := s[..j] + s[j + 1..];
      assert forall a :: 0 <= a < |t| ==> t[a] == if a < j then s[a] else s[a + 1];
      forall a | 0 <= a < |t| ensures t[a] < n - 1 {
        var a' := if a < j then a else a + 1;
        assert t[a] == s[a'] && a' != j;
      }
      forall a, b | 0 <= a < b < |t| ensures t[a] != t[b] {
        var a' := if a < j then a else a + 1;
        var b' := if b < j then b else b + 1;
        assert t[a] == s[a'] && t[b] == s[b'] && a' < b';
      }
      DistinctBelowBound(t, n - 1);
    } else {
      assert s[0] < n;
      DistinctBelowBound(s, n - 1);
    }
  }

  /** The representation invariant on plain values: `sp` has one slot per
      id, `sp[id] == k` exactly when `d[k] == id`, `d` has no duplicates
      and holds only ids below the capacity `cap`. */
  ghost predicate Rep(sp: seq<nat>, d: seq<nat>, cap: nat) {
    |sp| == cap && cap <= Empty && |d| <= cap && Distinct(d) &&
    (forall k :: 0 <= k < |d| ==> d[k] < cap && sp[d[k]] == k) &&
    (forall i :: 0 <= i < cap && sp[i] != Empty ==> sp[i] < |d| && d[sp[i]] == i)
  }

  /** The map from every id with a dense slot to the value stored there. */
  ghost function Abstract<T>(sp: seq<nat>, d: seq<nat>, data: seq<T>): map<nat, T>
    requires Rep(sp, d, |sp|) && |data| == |d|
  {
    map i | 0 <= i < |sp| && sp[i] != Empty :: data[sp[i]]
  }

  /** Under the invariant, the dense lists and the map describe the same pairs. */
  lemma AbstractIsDense<T>(sp: seq<nat>, d: seq<nat>, data: seq<T>)
    requires Rep(sp, d, |sp|) && |data| == |d|
    ensures forall k :: 0 <= k < |d| ==> d[k] in Abstract(sp, d, data) && Abstract(sp, d, data)[d[k]] == data[k]
    ensures forall i :: i in Abstract(sp, d, data) <==> i in d
  {
    forall i | i in d ensures i in Abstract(sp, d, data) {
      var k :| 0 <= k < |d| && d[k] == i;
      assert sp[i] == k;
    }
  }

  /** Appending an absent id keeps the invariant and adds exactly that pair. */
  lemma RepInsert<T>(sp: seq<nat>, d: seq<nat>, data: seq<T>, index: nat, item: T)
    requires Rep(sp, d, |sp|) && |data| == |d|
    requires index < |sp| && sp[index] == Empty
    ensures Rep(sp[index := |d|], d + [index], |sp|)
    ensures Abstract(sp[index := |d|], d + [index], data + [item]) == Abstract(sp, d, data)[index := item]
  {
    assert index !in d;
    var d' := d + [index];
    assert Distinct(d');
    DistinctBelowBound(d', |sp|);
  }

  /** The sparse slots after swap-removing a present `index`: the former
      last id points to the freed position and `index` becomes `Empty`. */
  function PoppedSparse(sp: seq<nat>, d: seq<nat>, index: nat): seq<nat>
    requires Rep(sp, d, |sp|) && index < |sp| && sp[index] != Empty
  {
    sp[d[|d| - 1] := sp[index]][index := Empty]
  }

  /** Swap-with-last removal of a present id, with the moved id's sparse
      pointer redirected, keeps the invariant. */
  lemma RepPop(sp: seq<nat>, d: seq<nat>, index: nat)
    requires Rep(sp, d, |sp|)
    requires index < |sp| && sp[index] != Empty
    ensures Rep(PoppedSparse(sp, d, index), SwapRemove(d, sp[index]), |sp|)
  {
    var k, last := sp[index], |d| - 1;
    var sp' := PoppedSparse(sp, d, index);
    var d' := SwapRemove(d, k);
    SwapRemoveAt(d, k);
    SwapRemoveDistinct(d, k);
    forall j | 0 <= j < |d'| ensures d'[j] < |sp| && sp'[d'[j]] == j {
      if j == k {
        assert d'[j] == d[last];
      } else {
        assert d'[j] == d[j] && d[j] != index && d[j] != d[last];
      }
    }
    forall i | 0 <= i < |sp| && sp'[i] != Empty ensures sp'[i] < |d'| && d'[sp'[i]] == i {
      if i != d[last] {
        assert sp'[i] == sp[i] && sp[i] != k && sp[i] != last;
      }
    }
  }

  /** Swap-with-last removal of a present id removes exactly that id from the
      map and keeps every other id's value. */
  lemma AbstractPop<T>(sp: seq<nat>, d: seq<nat>, data: seq<T>, index: nat)
    requires Rep(sp, d, |sp|) && |data| == |d|
    requires index < |sp| && sp[index] != Empty
    ensures Rep(PoppedSparse(sp, d, index), SwapRemove(d, sp[index]), |sp|)
    ensures Abstract(PoppedSparse(sp, d, index), SwapRemove(d, sp[index]), SwapRemove(data, sp[index]))
         == Abstract(sp, d, data) - {index}
  {
    var k, last := sp[index], |d| - 1;
    RepPop(sp, d, index);
    SwapRemoveAt(data, k);
    var sp' := PoppedSparse(sp, d, index);
    var m, m' := Abstract(sp, d, data), Abstract(sp', SwapRemove(d, k), SwapRemove(data, k));
    forall i | i in m' ensures i in m && i != index && m'[i] == m[i] {
      if i != d[last] {
        assert sp'[i] == sp[i] && sp[i] != k && sp[i] != last;
      }
    }
    assert m'.Keys == m.Keys - {index};
  }

  /** `SparseSet<T, CAPACITY>`: `sparse` maps an id to its position in the
      dense lists or to `Empty`; `dense[k]` is the id stored at position `k`
      and `data[k]` its value. */
  class SparseSet<T> {
    const capacity: nat
    const sparse: array<nat>
    var dense: seq<nat>
    var data: seq<T>

    /** The invariant `Rep` on the current fields, with lists of equal length. */
    ghost predicate Valid()
      reads this, sparse
    {
      sparse.Length == capacity && |dense| == |data| && Rep(sparse[..], dense, capacity)
    }

    /** The abstract value: the map from every present id to its value. */
    ghost function Contents(): map<nat, T>
      reads this, sparse
      requires Valid()
    {
      Abstract(sparse[..], dense, data)
    }

    /** The dense lists and the abstract map describe the same pairs. */
    lemma DenseIsContents()
      requires Valid()
      ensures forall k :: 0 <= k < |dense| ==> dense[k] in Contents() && Contents()[dense[k]] == data[k]
      ensures forall i :: i in Contents() <==> i in dense
    {
      AbstractIsDense(sparse[..], dense, data);
    }

    /** Every slot of `sparse` starts out `Empty`; both lists start out empty. */
    constructor (capacity: nat)
      requires capacity <= Empty
      ensures Valid() && fresh(sparse)
      ensures this.capacity == capacity && dense == [] && data == []
      ensures Contents() == map[]
    {
      this.capacity := capacity;
      sparse := new nat[capacity](_ => Empty);
      dense := [];
      data := [];
    }

    /** `contains`: whether `index` has a dense slot. */
    function Contains(index: nat): (b: bool)
      reads this, sparse
      requires Valid() && index < capacity
      ensures b <==> index in Contents()
      ensures b <==> index in dense
    {
      DenseIsContents();
      sparse[index] != Empty
    }

    /** `at`: the value stored for a present `index`. */
    function At(index: nat): (v: T)
      reads this, sparse
      requires Valid() && index < capacity && Contains(index)
      ensures index in Contents() && v == Contents()[index]
      ensures v in data
    {
      data[sparse[index]]
    }

    /** `empty`. */
    function IsEmpty(): (b: bool)
      reads this, sparse
      requires Valid()
      ensures b <==> Contents() == map[]
      ensures b <==> |data| == 0
    {
      DenseIsContents();
      assert |data| > 0 ==> dense[0] in Contents();
      |data| == 0
    }

    /** `insert` of a copy of `item` at an id that is in range and absent. */
    method Insert(index: nat, item: T)
      requires Valid() && index < capacity && !Contains(index)
      modifies this, sparse
      ensures Valid()
      ensures Contents() == old(Contents())[index := item]
      ensures dense == old(dense) + [index] && data == old(data) + [item]
      ensures |data| == old(|data|) + 1
    {
      RepInsert(sparse[..], dense, data, index, item);
      data := data + [item];
      dense := dense + [index];
      sparse[index] := |data| - 1;
    }

    /** `emplace`: construction in place from forwarded arguments is modelled
        by passing the constructed value; the effect is that of `Insert`. */
    method Emplace(index: nat, item: T)
      requires Valid() && index < capacity && !Contains(index)
      modifies this, sparse
      ensures Valid()
      ensures Contents() == old(Contents())[index := item]
      ensures dense == old(dense) + [index] && data == old(data) + [item]
      ensures |data| == old(|data|) + 1
    {
      Insert(index, item);
    }

    /** `pop` of a present id by swap-with-last removal: the last pair moves
        into the freed position, its sparse pointer is redirected, both lists
        shrink by one and the id's slot becomes `Empty`. */
    method Pop(index: nat)
      requires Valid() && index < capacity && Contains(index)
      modifies this, sparse
      ensures Valid()
      ensures Contents() == old(Contents()) - {index}
      ensures !Contains(index)
      ensures dense == SwapRemove(old(dense), old(sparse[index]))
      ensures data == SwapRemove(old(data), old(sparse[index]))
      ensures |dense| == old(|dense|) - 1 && |data| == old(|data|) - 1
      ensures forall i :: 0 <= i < capacity && i != index && i != old(dense)[old(|dense|) - 1] ==> sparse[i] == old(sparse[i])
    {
      ghost var sp0, d0, data0 := sparse[..], dense, data;
      AbstractPop(sp0, d0, data0, index);
      var denseIndex := sparse[index];
      if denseIndex == |data| - 1 {
        sparse[index] := Empty;
        dense := dense[..|dense| - 1];
        data := data[..|data| - 1];
        assert d0[denseIndex] == index;
        assert sparse[..] == PoppedSparse(sp0, d0, index);
        assert dense == SwapRemove(d0, denseIndex) && data == SwapRemove(data0, denseIndex);
        return;
      }
      var lastDenseIndex := |data| - 1;
      var lastSparseIndex := dense[lastDenseIndex];
      data := data[denseIndex := data[lastDenseIndex]][lastDenseIndex := data[denseIndex]];
      dense := dense[denseIndex := lastSparseIndex];
      sparse[lastSparseIndex] := denseIndex;
      data := data[..|data| - 1];
      dense := dense[..|dense| - 1];
      sparse[index] := Empty;
      assert sparse[..] == PoppedSparse(sp0, d0, index);
      assert dense == SwapRemove(d0, denseIndex) && data == SwapRemove(data0, denseIndex);
    }

    /** `popIfContains`: `pop` when the id is present, otherwise nothing. */
    method PopIfContains(index: nat) returns (popped: bool)
      requires Valid() && index < capacity
      modifies this, sparse
      ensures Valid()
      ensures popped == (index in old(Contents()))
      ensures Contents() == old(Contents()) - {index}
      ensures !popped ==> dense == old(dense) && data == old(data) && sparse[..] == old(sparse[..])
      ensures popped ==> (dense == SwapRemove(old(dense), old(sparse[index])) &&
                          data == SwapRemove(old(data), old(sparse[index])))
      ensures popped ==> forall i :: 0 <= i < capacity && i != index && i != old(dense)[old(|dense|) - 1] ==> sparse[i] == old(sparse[i])
    {
      if !Contains(index) {
        return false;
      }
      Pop(index);
      return true;
    }

    /** Assignment through the reference `operator[]` returns: the value of a
        present id is replaced in place; no id moves. */
    method SetAt(index: nat, item: T)
      requires Valid() && index < capacity && Contains(index)
      modifies this
      ensures Valid()
      ensures Contents() == old(Contents())[index := item]
      ensures dense == old(dense) && |data| == old(|data|)
    {
      ghost var oldContents := Contents();
      data := data[sparse[index] := item];
      assert Contents() == oldContents[index := item];
    }

    /** `clear`: every sparse slot is reset to `Empty`, then both lists are emptied. */
    method Clear()
      requires Valid()
      modifies this, sparse
      ensures Valid()
      ensures Contents() == map[] && IsEmpty()
      ensures forall i :: 0 <= i < capacity ==> !Contains(i)
      ensures dense == [] && data == []
    {
      for i := 0 to sparse.Length
        invariant forall j :: 0 <= j < i ==> sparse[j] == Empty
      {
        sparse[i] := Empty;
      }
      dense := [];
      data := [];
    }

    /** `begin`: an iterator at dense position 0. */
    method Begin() returns (it: Iterator<T>)
      ensures fresh(it) && it.owner == this && it.index == 0
    {
      it := new Iterator(this, 0);
    }

    /** `end`: an iterator one past the last dense position. */
    method End() returns (it: Iterator<T>)
      ensures fresh(it) && it.owner == this && it.index == |data|
    {
      it := new Iterator(this, |data|);
    }
  }

  /** `SparseSet::Iterator`: a position in the dense lists of its owner. */
  class Iterator<T> {
    const owner: SparseSet<T>
    var index: nat

    constructor (owner: SparseSet<T>, index: nat)
      ensures this.owner == owner && this.index == index
    {
      this.owner := owner;
      this.index := index;
    }

    /** `operator*`: the pair `(dense[k], data[k])`, whose value is the one
        `at` gives for that id. */
    function Deref(): (r: (nat, T))
      reads this, owner, owner.sparse
      requires owner.Valid() && index < |owner.data|
      ensures r.0 < owner.capacity && owner.Contains(r.0) && owner.At(r.0) == r.1
      ensures r.0 in owner.Contents() && owner.Contents()[r.0] == r.1
      ensures r == (owner.dense[index], owner.data[index])
    {
      owner.DenseIsContents();
      (owner.dense[index], owner.data[index])
    }

    /** `operator++`. */
    method Increment()
      modifies this
      ensures index == old(index) + 1
    {
      index := index + 1;
    }

    /** `operator==`: same position in the same set; `operator!=` is its
        negation. */
    predicate Equals(o: Iterator<T>): (b: bool)
      reads this, o
      ensures b <==> index == o.index && owner == o.owner
    {
      index == o.index && owner == o.owner
    }
  }

  /** A range-for loop from `begin()` to `end()`, as the callers of the set
      write it: it visits exactly `|data|` positions, each yielding the pair
      stored there, and every present id exactly once. */
  method Entries<T>(s: SparseSet<T>) returns (ps: seq<(nat, T)>)
    requires s.Valid()
    ensures |ps| == |s.data|
    ensures forall k :: 0 <= k < |ps| ==> ps[k] == (s.dense[k], s.data[k])
    ensures forall k :: 0 <= k < |ps| ==> ps[k].0 in s.Contents() && s.Contents()[ps[k].0] == ps[k].1
    ensures forall i :: i in s.Contents() <==> exists k :: 0 <= k < |ps| && ps[k].0 == i
  {
    var it := s.Begin();
    var e := s.End();
    ps := [];
    while !it.Equals(e)
      invariant it.owner == s && e.owner == s && it != e
      invariant e.index == |s.data| && it.index <= |s.data|
      invariant |ps| == it.index
      invariant forall k :: 0 <= k < |ps| ==> ps[k] == (s.dense[k], s.data[k])
      decreases |s.data| - it.index
    {
      ps := ps + [it.Deref()];
      it.Increment();
    }
    s.DenseIsContents();
    forall i | i in s.Contents() ensures exists k :: 0 <= k < |ps| && ps[k].0 == i {
      var k :| 0 <= k < |s.dense| && s.dense[k] == i;
      assert ps[k].0 == i;
    }
  }
}
