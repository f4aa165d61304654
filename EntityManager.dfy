/** The entity registry: a LIFO freelist of unused ids, an existence set, and
    one sparse-set store per component type (Transform, Velocity, Collider). */
module Entities {
  import opened SparseSets

  /** `k_MaxEntities`: ids are below this bound, and each store has this capacity. */
  const MaxEntities: nat := 2000

  /** The ids `hi - 1, hi - 2, ..., lo`, in that order. */
  function Down(hi: nat, lo: nat): seq<nat>
  {
    if hi <= lo then [] else seq(hi - lo, (k: int) requires 0 <= k < hi - lo => (hi - 1 - k) as nat)
  }

  /** Pushing `lo` onto the back of `Down(hi, lo + 1)` gives `Down(hi, lo)`:
      one step of the constructor's descending loop. */
  lemma DownPush(hi: nat, lo: nat)
    requires lo < hi
    ensures Down(hi, lo) == Down(hi, lo + 1) + [lo]
  {
  }

  /** Position `k` of `Down(hi, lo)` holds `hi - 1 - k`. */
  lemma DownAt(hi: nat, lo: nat)
    requires lo <= hi
    ensures |Down(hi, lo)| == hi - lo
    ensures forall k :: 0 <= k < hi - lo ==> Down(hi, lo)[k] == hi - 1 - k
  {
  }

  /** A list whose position `k` holds `hi - 1 - k`, for `hi - lo` positions,
      is `Down(hi, lo)`. */
  lemma DownByIndex(s: seq<nat>, hi: nat, lo: nat)
    requires lo <= hi && |s| == hi - lo
    requires forall k :: 0 <= k < |s| ==> s[k] == hi - 1 - k
    ensures s == Down(hi, lo)
  {
    DownAt(hi, lo);
  }

  /** The freelist the constructor builds holds every id below `n` exactly
      once, in strictly descending order, so its back element is 0. */
  lemma SeededFreelist(n: nat)
    ensures |Down(n, 0)| == n && Distinct(Down(n, 0))
    ensures forall id: nat :: id in Down(n, 0) <==> id < n
    ensures forall i, j :: 0 <= i < j < n ==> Down(n, 0)[i] > Down(n, 0)[j]
    ensures n > 0 ==> Down(n, 0)[n - 1] == 0
  {
    DownAt(n, 0);
    var s := Down(n, 0);
    forall id: nat | id < n ensures id in s {
      assert s[n - 1 - id] == id;
    }
  }

  /** The ids that `k` successive `make` calls hand out from freelist `fl`:
      each takes the back element and shortens the list by one. */
  function MakeRun(fl: seq<nat>, k: nat): seq<nat>
    requires k <= |fl|
  {
    if k == 0 then [] else [fl[|fl| - 1]] + MakeRun(fl[..|fl| - 1], k - 1)
  }

  /** From the freelist `Down(hi, lo)`, successive `make` calls return
      `lo, lo + 1, lo + 2, ...`; on a fresh manager (`lo == 0`) they return
      `0, 1, 2, ...`. */
  lemma {:induction false} MakeRunAscends(hi: nat, lo: nat, k: nat)
    requires lo <= hi && k <= hi - lo
    ensures |Down(hi, lo)| == hi - lo
    ensures |MakeRun(Down(hi, lo), k)| == k
    ensures forall j :: 0 <= j < k ==> MakeRun(Down(hi, lo), k)[j] == lo + j
    decreases k
  {
    DownAt(hi, lo);
    if k > 0 {
      var fl := Down(hi, lo);
      DownPush(hi, lo);
      assert fl[..|fl| - 1] == Down(hi, lo + 1);
      assert fl[|fl| - 1] == lo;
      MakeRunAscends(hi, lo + 1, k - 1);
    }
  }

  /** The `j`-th id that `k` successive `make` calls hand out is the one `j`
      places from the back of the freelist. */
  lemma {:induction false} MakeRunAt(fl: seq<nat>, k: nat)
    requires k <= |fl|
    ensures |MakeRun(fl, k)| == k
    ensures forall j :: 0 <= j < k ==> MakeRun(fl, k)[j] == fl[|fl| - 1 - j]
    decreases k
  {
    if k > 0 {
      var rest := fl[..|fl| - 1];
      MakeRunAt(rest, k - 1);
      var r := MakeRun(fl, k);
      assert r == [fl[|fl| - 1]] + MakeRun(rest, k - 1);
      forall j | 0 < j < k
        ensures r[j] == fl[|fl| - 1 - j]
      {
        assert r[j] == MakeRun(rest, k - 1)[j - 1];
        assert rest[|rest| - 1 - (j - 1)] == fl[|fl| - 1 - j];
      }
    }
  }

  /** One more `make` call appends the id `k` places from the back of the
      freelist. */
  lemma MakeRunSnoc(fl: seq<nat>, k: nat)
    requires k < |fl|
    ensures MakeRun(fl, k + 1) == MakeRun(fl, k) + [fl[|fl| - 1 - k]]
  {
    MakeRunAt(fl, k);
    MakeRunAt(fl, k + 1);
  }

  /** `EntityManager`, with the three component types as type parameters. */
  class EntityManager<Tr, Ve, Co> {
    var freelist: seq<nat>
    var entities: set<nat>
    const transforms: SparseSet<Tr>
    const velocities: SparseSet<Ve>
    const colliders: SparseSet<Co>

    /** The objects the manager owns. */
    ghost function Repr(): set<object>
      reads this
    {
      {this, transforms, velocities, colliders, transforms.sparse, velocities.sparse, colliders.sparse}
    }

    /** Each store is a valid set of capacity `MaxEntities`, the stores share
        no object, and every id on the freelist or in the existence set is
        below `MaxEntities`. */
    ghost predicate Valid()
      reads Repr()
    {
      transforms.Valid() && velocities.Valid() && colliders.Valid() &&
      transforms.capacity == MaxEntities && velocities.capacity == MaxEntities && colliders.capacity == MaxEntities &&
      transforms as object != velocities as object && transforms as object != colliders as object &&
      velocities as object != colliders as object &&
      transforms.sparse != velocities.sparse && transforms.sparse != colliders.sparse &&
      velocities.sparse != colliders.sparse &&
      (forall k :: 0 <= k < |freelist| ==> freelist[k] < MaxEntities) &&
      (forall id :: id in entities ==> id < MaxEntities)
    }

    /** The freelist is seeded by pushing `MaxEntities - 1` down to 0. */
    constructor ()
      ensures Valid() && fresh(Repr())
      ensures freelist == Down(MaxEntities, 0) && entities == {}
      ensures transforms.IsEmpty() && velocities.IsEmpty() && colliders.IsEmpty()
    {
      transforms := new SparseSet(MaxEntities);
      velocities := new SparseSet(MaxEntities);
      colliders := new SparseSet(MaxEntities);
      freelist := [];
      entities := {};
      new;
      var id: int := MaxEntities - 1;
      while id >= 0
        modifies this
        invariant -1 <= id < MaxEntities
        invariant |freelist| == MaxEntities - 1 - id && entities == {}
        invariant forall k :: 0 <= k < |freelist| ==> freelist[k] == MaxEntities - 1 - k
      {
        freelist := freelist + [id];
        id := id - 1;
      }
      DownByIndex(freelist, MaxEntities, 0);
    }

    /** `make`: the back id of the freelist is taken off it and marked as
        existing. The freelist must not be empty. */
    method Make() returns (id: nat)
      requires Valid() && |freelist| > 0
      modifies this
      ensures Valid()
      ensures id == old(freelist)[old(|freelist|) - 1] && id < MaxEntities
      ensures freelist == old(freelist)[..old(|freelist|) - 1]
      ensures entities == old(entities) + {id}
      ensures transforms.Contents() == old(transforms.Contents())
      ensures velocities.Contents() == old(velocities.Contents())
      ensures colliders.Contents() == old(colliders.Contents())
    {
      id := freelist[|freelist| - 1];
      freelist := freelist[..|freelist| - 1];
      entities := entities + {id};
    }

    /** `add<Transform>`: stores a value in the Transform store only. */
    method AddTransform(id: nat, item: Tr)
      requires Valid() && id < MaxEntities && !HasTransform(id)
      modifies transforms, transforms.sparse
      ensures Valid()
      ensures transforms.Contents() == old(transforms.Contents())[id := item]
      ensures transforms.dense == old(transforms.dense) + [id] && transforms.data == old(transforms.data) + [item]
      ensures HasTransform(id) && GetTransform(id) == item
      ensures velocities.Contents() == old(velocities.Contents())
      ensures colliders.Contents() == old(colliders.Contents())
    {
      transforms.Emplace(id, item);
    }

    /** `add<Velocity>`: stores a value in the Velocity store only. */
    method AddVelocity(id: nat, item: Ve)
      requires Valid() && id < MaxEntities && !HasVelocity(id)
      modifies velocities, velocities.sparse
      ensures Valid()
      ensures velocities.Contents() == old(velocities.Contents())[id := item]
      ensures velocities.dense == old(velocities.dense) + [id] && velocities.data == old(velocities.data) + [item]
      ensures HasVelocity(id) && GetVelocity(id) == item
      ensures transforms.Contents() == old(transforms.Contents())
      ensures colliders.Contents() == old(colliders.Contents())
    {
      velocities.Emplace(id, item);
    }

    /** `add<Collider>`: stores a value in the Collider store only. */
    method AddCollider(id: nat, item: Co)
      requires Valid() && id < MaxEntities && !HasCollider(id)
      modifies colliders, colliders.sparse
      ensures Valid()
      ensures colliders.Contents() == old(colliders.Contents())[id := item]
      ensures colliders.dense == old(colliders.dense) + [id] && colliders.data == old(colliders.data) + [item]
      ensures HasCollider(id) && GetCollider(id) == item
      ensures transforms.Contents() == old(transforms.Contents())
      ensures velocities.Contents() == old(velocities.Contents())
    {
      colliders.Emplace(id, item);
    }

    /** `has<Transform>`. */
    function HasTransform(id: nat): (b: bool)
      reads Repr()
      requires Valid() && id < MaxEntities
      ensures b <==> id in transforms.Contents()
    {
      transforms.Contains(id)
    }

    /** `has<Velocity>`. */
    function HasVelocity(id: nat): (b: bool)
      reads Repr()
      requires Valid() && id < MaxEntities
      ensures b <==> id in velocities.Contents()
    {
      velocities.Contains(id)
    }

    /** `has<Collider>`. */
    function HasCollider(id: nat): (b: bool)
      reads Repr()
      requires Valid() && id < MaxEntities
      ensures b <==> id in colliders.Contents()
    {
      colliders.Contains(id)
    }

    /** `get<Transform>`: the value held for `id`, which must have one. */
    function GetTransform(id: nat): (v: Tr)
      reads Repr()
      requires Valid() && id < MaxEntities && HasTransform(id)
      ensures id in transforms.Contents() && v == transforms.Contents()[id]
    {
      transforms.At(id)
    }

    /** `get<Velocity>`: the value held for `id`, which must have one. */
    function GetVelocity(id: nat): (v: Ve)
      reads Repr()
      requires Valid() && id < MaxEntities && HasVelocity(id)
      ensures id in velocities.Contents() && v == velocities.Contents()[id]
    {
      velocities.At(id)
    }

    /** `get<Collider>`: the value held for `id`, which must have one. */
    function GetCollider(id: nat): (v: Co)
      reads Repr()
      requires Valid() && id < MaxEntities && HasCollider(id)
      ensures id in colliders.Contents() && v == colliders.Contents()[id]
    {
      colliders.At(id)
    }

    /** `getSet<Transform>`: the store that `has<Transform>` consults. */
    function TransformSet(): (s: SparseSet<Tr>)
      reads Repr()
      requires Valid()
      ensures s == transforms && s.Valid() && s.capacity == MaxEntities
      ensures forall id :: 0 <= id < MaxEntities ==> (s.Contains(id) <==> HasTransform(id))
    {
      transforms
    }

    /** `getSet<Velocity>`: the store that `has<Velocity>` consults. */
    function VelocitySet(): (s: SparseSet<Ve>)
      reads Repr()
      requires Valid()
      ensures s == velocities && s.Valid() && s.capacity == MaxEntities
      ensures forall id :: 0 <= id < MaxEntities ==> (s.Contains(id) <==> HasVelocity(id))
    {
      velocities
    }

    /** `getSet<Collider>`: the store that `has<Collider>` consults. */
    function ColliderSet(): (s: SparseSet<Co>)
      reads Repr()
      requires Valid()
      ensures s == colliders && s.Valid() && s.capacity == MaxEntities
      ensures forall id :: 0 <= id < MaxEntities ==> (s.Contains(id) <==> HasCollider(id))
    {
      colliders
    }

    /** `remove`: for an existing id, erases it from every store and pushes
        it onto the freelist; an id not in the existence set changes nothing.
        As written, the id stays in the existence set. */
    method Remove(id: nat)
      requires Valid()
      modifies Repr()
      ensures Valid()
      ensures entities == old(entities)
      ensures id !in old(entities) ==> unchanged(Repr())
      ensures id in old(entities) ==>
        freelist == old(freelist) + [id] &&
        transforms.Contents() == old(transforms.Contents()) - {id} &&
        velocities.Contents() == old(velocities.Contents()) - {id} &&
        colliders.Contents() == old(colliders.Contents()) - {id}
      ensures id in old(entities) ==> !HasTransform(id) && !HasVelocity(id) && !HasCollider(id)
      ensures id in old(entities) && id in old(transforms.Contents()) ==>
        transforms.dense == SwapRemove(old(transforms.dense), old(transforms.sparse[id])) &&
        transforms.data == SwapRemove(old(transforms.data), old(transforms.sparse[id]))
      ensures id !in old(transforms.Contents()) ==> transforms.dense == old(transforms.dense) && transforms.data == old(transforms.data)
      ensures id in old(entities) && id in old(velocities.Contents()) ==>
        velocities.dense == SwapRemove(old(velocities.dense), old(velocities.sparse[id])) &&
        velocities.data == SwapRemove(old(velocities.data), old(velocities.sparse[id]))
      ensures id !in old(velocities.Contents()) ==> velocities.dense == old(velocities.dense) && velocities.data == old(velocities.data)
      ensures id in old(entities) && id in old(colliders.Contents()) ==>
        colliders.dense == SwapRemove(old(colliders.dense), old(colliders.sparse[id])) &&
        colliders.data == SwapRemove(old(colliders.data), old(colliders.sparse[id]))
      ensures id !in old(colliders.Contents()) ==> colliders.dense == old(colliders.dense) && colliders.data == old(colliders.data)
    {
      if id !in entities {
        return;
      }
      var _ := transforms.PopIfContains(id);
      var _ := velocities.PopIfContains(id);
      var _ := colliders.PopIfContains(id);
      freelist := freelist + [id];
    }

    /** `contains`: membership in the existence set, for an id in range. */
    function Contains(id: nat): (b: bool)
      reads this
      requires id < MaxEntities
      ensures b <==> id in entities
    {
      id in entities
    }
  }
}
