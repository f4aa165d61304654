/** Client runs of the store and the registry, proved from their contracts alone. */
module Scenarios {
  import opened SparseSets
  import opened Entities

  /** A store of capacity 10 gets values at ids 3, 7 and 1; erasing 7 keeps
      the other two ids and their values. */
  method EraseKeepsOthers() returns (has7: bool, has3: bool, has1: bool, at3: int, at1: int)
    ensures !has7 && has3 && has1 && at3 == 30 && at1 == 10
  {
    var s := new SparseSet<int>(10);
    s.Emplace(3, 30);
    s.Emplace(7, 70);
    s.Emplace(1, 10);
    s.Pop(7);
    has7, has3, has1 := s.Contains(7), s.Contains(3), s.Contains(1);
    at3, at1 := s.At(3), s.At(1);
  }

  /** `popIfContains` on an absent id reports false and empties nothing;
      `clear` then empties the store. */
  method PopAbsentThenClear() returns (popped: bool, sizeBefore: nat, emptyAfter: bool)
    ensures !popped && sizeBefore == 1 && emptyAfter
  {
    var s := new SparseSet<int>(4);
    s.Insert(2, 5);
    popped := s.PopIfContains(0);
    sizeBefore := |s.data|;
    s.Clear();
    emptyAfter := s.IsEmpty();
  }

  /** On a fresh manager, `make` hands out 0, 1 and 2 in turn. */
  method FreshIdsAscend() returns (a: nat, b: nat, c: nat)
    ensures a == 0 && b == 1 && c == 2
  {
    var m := new EntityManager<int, int, int>();
    SeededFreelist(MaxEntities);
    a := m.Make();
    b := m.Make();
    c := m.Make();
  }

  /** `k` successive `make` calls return `MakeRun` of the freelist they
      start from, and shorten it by `k`. */
  method MakeMany<Tr, Ve, Co>(m: EntityManager<Tr, Ve, Co>, k: nat) returns (ids: seq<nat>)
    requires m.Valid() && k <= |m.freelist|
    modifies m
    ensures m.Valid()
    ensures ids == MakeRun(old(m.freelist), k)
    ensures m.freelist == old(m.freelist)[..old(|m.freelist|) - k]
  {
    ghost var fl := m.freelist;
    ids := [];
    while |ids| < k
      invariant m.Valid() && |ids| <= k
      invariant m.freelist == fl[..|fl| - |ids|]
      invariant ids == MakeRun(fl, |ids|)
    {
      var id := m.Make();
      MakeRunSnoc(fl, |ids|);
      ids := ids + [id];
    }
  }

  /** On a fresh manager, any number `k` of `make` calls up to the capacity
      hands out `0, 1, ..., k - 1`. */
  method FreshIdsAscendAll(k: nat) returns (ids: seq<nat>)
    requires k <= MaxEntities
    ensures |ids| == k && forall j :: 0 <= j < k ==> ids[j] == j
  {
    var m := new EntityManager<int, int, int>();
    SeededFreelist(MaxEntities);
    ids := MakeMany(m, k);
    MakeRunAscends(MaxEntities, 0, k);
  }

  /** Removing an entity strips its components and recycles its id for the
      next `make`, while `contains` keeps answering true for it. */
  method RemoveRecyclesId() returns (id: nat, next: nat, stillContained: bool, hasT: bool, otherT: bool)
    ensures next == id && stillContained && !hasT && otherT
  {
    var m := new EntityManager<int, int, int>();
    SeededFreelist(MaxEntities);
    id := m.Make();
    var other := m.Make();
    m.AddTransform(id, 1);
    m.AddTransform(other, 2);
    m.Remove(id);
    stillContained := m.Contains(id);
    hasT, otherT := m.HasTransform(id), m.HasTransform(other);
    next := m.Make();
  }

  /** Removing the same entity twice puts its id on the freelist twice, so
      two later `make` calls hand out the same id. */
  method RemoveTwiceReusesTwice() returns (first: nat, second: nat)
    ensures first == 0 && second == 0
  {
    var m := new EntityManager<int, int, int>();
    SeededFreelist(MaxEntities);
    var id := m.Make();
    m.Remove(id);
    m.Remove(id);
    first := m.Make();
    second := m.Make();
  }
}
