/** The entity pool of Source/Core/ECS/EntityManager.cpp: a FIFO queue of free entity ids and a
    sparse set mapping each active entity to its component signature. */
module EntityManagers {

  import opened Types
  import opened SparseSets

  /** The `std::runtime_error`s the manager throws. */
  datatype Fault = OutOfEntities | AllEntitiesReturned | EntityOutOfRange

  /** A call that either returns a value or throws. */
  datatype Result<T> = Value(value: T) | Thrown(fault: Fault)

  /** The active ids among `elements`, in order, whose signature includes every bit of `filter`. */
  function Matching(elements: seq<DenseElement<Signature>>, filter: Signature): (ids: seq<Entity>)
    ensures |ids| <= |elements|
    ensures forall e :: e in ids <==>
              exists i :: 0 <= i < |elements| && elements[i].sparseID == e && Satisfies(elements[i].val, filter)
  {
    if elements == [] then []
    else
      var n := |elements| - 1;
      var rest := Matching(elements[..n], filter);
      assert forall i :: 0 <= i < n ==> elements[..n][i] == elements[i];
      if Satisfies(elements[n].val, filter) then rest + [elements[n].sparseID] else rest
  }

  /** Appending one element extends the match list by that element when it satisfies the filter. */
  lemma MatchingSnoc(elements: seq<DenseElement<Signature>>, last: DenseElement<Signature>, filter: Signature)
    ensures Matching(elements + [last], filter) ==
            Matching(elements, filter) + (if Satisfies(last.val, filter) then [last.sparseID] else [])
  {
    assert (elements + [last])[..|elements|] == elements;
  }

  /** The free-queue accounting: the queue holds distinct in-range ids, and an in-range id is queued
      exactly when it is not active. */
  ghost predicate FreeComplement(free: seq<Entity>, active: set<Entity>, maxEntities: nat)
  {
    && (forall i, j :: 0 <= i < j < |free| ==> free[i] != free[j])
    && (forall i :: 0 <= i < |free| ==> free[i] < maxEntities)
    && (forall e :: 0 <= e < maxEntities ==> (e in free <==> e !in active))
  }

  /** Popping the front of the queue hands out an inactive in-range id, and activating it keeps the
      accounting. */
  lemma PopKeepsComplement(free: seq<Entity>, active: set<Entity>, maxEntities: nat)
    requires FreeComplement(free, active, maxEntities) && free != []
    ensures free[0] < maxEntities && free[0] !in active
    ensures FreeComplement(free[1..], active + {free[0]}, maxEntities)
  {
    assert free == [free[0]] + free[1..];
    forall e | 0 <= e < maxEntities ensures e in free[1..] <==> e !in active + {free[0]} {
      if e in free[1..] {
        var k :| 0 <= k < |free[1..]| && free[1..][k] == e;
        assert free[k + 1] == e;
      }
    }
  }

  /** Queueing an active id at the back and deactivating it keeps the accounting. */
  lemma PushKeepsComplement(free: seq<Entity>, active: set<Entity>, maxEntities: nat, entity: Entity)
    requires FreeComplement(free, active, maxEntities) && entity in active && entity < maxEntities
    ensures FreeComplement(free + [entity], active - {entity}, maxEntities)
  {
    forall e | 0 <= e < maxEntities ensures e in free + [entity] <==> e !in active - {entity} {
      assert e in free + [entity] <==> e == entity || e in free;
    }
  }

  /** `filterEntities`: the ids of `elements[begin..end)` whose signature satisfies `filter`, in
      array order; an empty range (`begin >= end`) yields nothing. */
  method FilterEntities(elements: array<DenseElement<Signature>>, begin: nat, end: nat, filter: Signature)
    returns (entities: seq<Entity>)
    requires end <= elements.Length
    ensures begin <= end ==> entities == Matching(elements[begin..end], filter)
    ensures begin > end ==> entities == []
  {
    entities := [];
    if end <= begin {
      return;
    }
    var i := begin;
    while i < end
      invariant begin <= i <= end
      invariant entities == Matching(elements[begin..i], filter)
    {
      assert elements[begin..i + 1] == elements[begin..i] + [elements[i]];
      MatchingSnoc(elements[begin..i], elements[i], filter);
      if elements[i].val & filter == filter {
        entities := entities + [elements[i].sparseID];
      }
      i := i + 1;
    }
  }

  class EntityManager {
    const maxEntities: nat
    var numEntities: nat
    /** The `std::queue` of free ids: the front is `freeEntities[0]`. */
    var freeEntities: seq<Entity>
    const activeEntities: SparseSet<Signature>

    /** What every operation keeps, whatever the caller does: the active set is a well-formed sparse
        set over the id range, and allocation and release each move one unit between the count of
        live entities and the free queue. */
    ghost predicate Valid()
      reads this, activeEntities, activeEntities.sparse, activeEntities.dense
    {
      && activeEntities.Valid()
      && activeEntities.maxElements == maxEntities
      && activeEntities.zero == 0
      && numEntities + |freeEntities| == maxEntities
    }

    /** The active entities and their signatures. */
    ghost function Active(): map<Entity, Signature>
      reads activeEntities, activeEntities.sparse, activeEntities.dense
      requires activeEntities.Valid()
    {
      activeEntities.Contents()
    }

    /** The accounting that holds when only active entities are freed: the free queue holds distinct
        in-range ids, an in-range id is free exactly when it is not active, and the live count is the
        size of the active set. */
    ghost predicate WellUsed()
      reads this, activeEntities, activeEntities.sparse, activeEntities.dense
      requires Valid()
    {
      && FreeComplement(freeEntities, Active().Keys, maxEntities)
      && numEntities == activeEntities.numElements
    }

    /** Seeds the free queue with every id in ascending order; nothing is active. */
    constructor (maxEntities: nat)
      ensures Valid() && WellUsed()
      ensures this.maxEntities == maxEntities && numEntities == 0
      ensures freeEntities == seq(maxEntities, e => e)
      ensures Active() == map[]
      ensures fresh(activeEntities) && fresh(activeEntities.sparse) && fresh(activeEntities.dense)
    {
      this.maxEntities := maxEntities;
      numEntities := 0;
      activeEntities := new SparseSet<Signature>(maxEntities, 0);
      var free: seq<Entity> := [];
      var entity := 0;
      while entity < maxEntities
        invariant entity <= maxEntities
        invariant |free| == entity
        invariant forall i :: 0 <= i < entity ==> free[i] == i
      {
        free := free + [entity];
        entity := entity + 1;
      }
      freeEntities := free;
      new;
      forall e | 0 <= e < maxEntities ensures e in freeEntities {
        assert freeEntities[e] == e;
      }
    }

    method GetNumEntities() returns (n: nat)
      requires Valid()
      ensures n == numEntities
      ensures WellUsed() ==> n == |Active()|
    {
      if WellUsed() {
        activeEntities.ContentsCount();
      }
      n := numEntities;
    }

    /** Pops the front of the free queue and activates it with the empty signature; throws when the
        queue is empty. */
    method AllocEntity() returns (r: Result<Entity>)
      requires Valid()
      modifies this, activeEntities, activeEntities.sparse, activeEntities.dense
      ensures Valid()
      ensures old(freeEntities) == [] ==>
                r == Thrown(OutOfEntities) && freeEntities == [] && numEntities == old(numEntities)
                && Active() == old(Active())
      ensures old(freeEntities) != [] ==>
                && r == Value(old(freeEntities)[0])
                && freeEntities == old(freeEntities)[1..]
                && numEntities == old(numEntities) + 1
                && Active() == (if r.value < maxEntities && r.value !in old(Active())
                                then old(Active())[r.value := 0] else old(Active()))
      ensures activeEntities.sparse == old(activeEntities.sparse) && activeEntities.dense == old(activeEntities.dense)
      ensures old(WellUsed()) ==> WellUsed()
      ensures old(WellUsed()) && r.Value? ==> r.value !in old(Active()) && Active() == old(Active())[r.value := 0]
    {
      if freeEntities == [] {
        return Thrown(OutOfEntities);
      }
      if WellUsed() {
        PopKeepsComplement(freeEntities, Active().Keys, maxEntities);
      }
      var entity := freeEntities[0];
      freeEntities := freeEntities[1..];
      numEntities := numEntities + 1;
      var _ := activeEntities.Add(entity, 0);
      r := Value(entity);
      assert old(WellUsed()) ==> Active().Keys == old(Active()).Keys + {entity};
    }

    /** Returns an entity to the back of the free queue and drops it from the active set; throws when
        no entity is live. The id is queued whether or not it was active. */
    method FreeEntity(entity: Entity) returns (r: Result<()>)
      requires Valid()
      modifies this, activeEntities, activeEntities.sparse, activeEntities.dense
      ensures Valid()
      ensures old(numEntities) == 0 ==>
                r == Thrown(AllEntitiesReturned) && freeEntities == old(freeEntities) && numEntities == 0
                && Active() == old(Active())
      ensures old(numEntities) > 0 ==>
                && r == Value(())
                && numEntities == old(numEntities) - 1
                && freeEntities == old(freeEntities) + [entity]
                && Active() == if entity in old(Active()) then old(Active()) - {entity} else old(Active())
      ensures activeEntities.sparse == old(activeEntities.sparse) && activeEntities.dense == old(activeEntities.dense)
      ensures old(WellUsed()) && entity in old(Active()) ==> WellUsed()
    {
      if numEntities == 0 {
        return Thrown(AllEntitiesReturned);
      }
      ghost var active := Active();
      ghost var accounted := WellUsed() && entity in active;
      if accounted {
        PushKeepsComplement(freeEntities, active.Keys, maxEntities, entity);
      }
      numEntities := numEntities - 1;
      freeEntities := freeEntities + [entity];
      var deleted := activeEntities.Del(entity);
      r := Value(());
      if deleted && accounted {
        assert Active().Keys == active.Keys - {entity};
      }
    }

    /** `getEntities`: the active entities whose signature satisfies `filter`, in dense order; the
        thread budget is not used. */
    method GetEntities(filter: Signature, threadMax: nat) returns (entities: seq<Entity>)
      requires Valid()
      ensures entities == Matching(activeEntities.Dense(), filter)
      ensures forall e :: e in entities <==> e in Active() && Satisfies(Active()[e], filter)
    {
      entities := FilterEntities(activeEntities.dense, 0, activeEntities.numElements, filter);
      assert activeEntities.dense[0..activeEntities.numElements] == activeEntities.Dense();
      activeEntities.DenseHoldsContents();
      forall e | e in Active() && Satisfies(Active()[e], filter) ensures e in entities {
        var i := activeEntities.sparse[e];
        assert activeEntities.Dense()[i].sparseID == e;
      }
    }

    /** The signature of an entity: the empty signature for an inactive one; throws only when the id
        exceeds the capacity (an id equal to it is let through). */
    method GetEntitySignature(entity: Entity) returns (r: Result<Signature>)
      requires Valid()
      ensures r.Thrown? <==> entity > maxEntities
      ensures r.Thrown? ==> r.fault == EntityOutOfRange
      ensures r.Value? ==> r.value == if entity in Active() then Active()[entity] else 0
    {
      if entity > maxEntities {
        return Thrown(EntityOutOfRange);
      }
      var sig := activeEntities.Get(entity);
      r := Value(sig);
    }

    /** Overwrites the signature of an active entity; an inactive in-range id is left alone, an id above
        the capacity throws. */
    method SetEntitySignature(entity: Entity, signature: Signature) returns (r: Result<()>)
      requires Valid()
      modifies activeEntities.dense
      ensures Valid()
      ensures r.Thrown? <==> entity > maxEntities
      ensures r.Thrown? ==> r.fault == EntityOutOfRange
      ensures Active() == if r.Value? && entity in old(Active()) then old(Active())[entity := signature]
                          else old(Active())
      ensures activeEntities.numElements == old(activeEntities.numElements)
    {
      if entity > maxEntities {
        return Thrown(EntityOutOfRange);
      }
      r := Value(());
      var present := activeEntities.Contains(entity);
      if !present {
        return;
      }
      var _ := activeEntities.Set(entity, signature);
    }
  }

  /** Tests.cpp:285-297: an allocated entity whose signature is set reads that signature back. */
  method AllocSetGet(manager: EntityManager, signature: Signature) returns (entity: Result<Entity>, read: Result<Signature>)
    requires manager.Valid() && manager.WellUsed() && manager.freeEntities != []
    modifies manager, manager.activeEntities, manager.activeEntities.sparse, manager.activeEntities.dense
    ensures manager.Valid() && manager.WellUsed()
    ensures entity.Value? && read == Value(signature)
  {
    entity := manager.AllocEntity();
    var _ := manager.SetEntitySignature(entity.value, signature);
    read := manager.GetEntitySignature(entity.value);
  }

  /** `freeEntity(1)` as written on `EntityManager(2)` once `allocEntity()` has returned 0 and its
      signature has been set to 1: the count drops to 0, and the unguarded `del` of the inactive id 1
      repoints entity 0 to the null slot, so entity 0 leaves the active set while still allocated and
      its signature is moved into the slot that absent ids read. */
  lemma FreeInactiveAsWritten()
    ensures var before: Snapshot<Signature> := Snapshot([0, 2], [DenseElement(0, 1), DenseElement(0, 0), DenseElement(0, 0)], 1);
            var r := DelAsWritten(before, 1);
            && r.Some? && r.value.0 && r.value.1.numElements == 0
            && r.value.1.sparse == [2, 2]
            && r.value.1.dense[2] == DenseElement(0, 1)
  {
  }
}
