/** The component registry of Source/Core/ECS/ComponentManager.hpp: a FIFO pool of component-type
    ids, a map from type key to type id, one component storage per registered type (held in a
    sparse set indexed by type id), the `operate` visitors over a storage, and the two converters
    between type-id lists and signatures. */
module ComponentManagers {

  import opened Types
  import opened Wrappers
  import opened SparseSets

  // ---------------------------------------------------------------------------------------------
  // Signatures and type-id lists

  /** The one-bit signature `1 << t` of a `std::bitset<32>`: shifting past the width leaves no bit. */
  function Flag(t: nat): (flag: Signature)
    ensures t >= COMPONENT_COUNT ==> flag == 0
  {
    if t < COMPONENT_COUNT then (1 as Signature) << t else 0
  }

  /** Bit `b` of `signature` is set: the one-bit mask meets it. */
  predicate HasBit(signature: Signature, b: nat)
  {
    Flag(b) & signature != 0
  }

  /** Distinct bit positions below the width are distinct flags. */
  lemma FlagBits(t: nat, b: nat)
    requires b < COMPONENT_COUNT
    ensures HasBit(Flag(t), b) <==> t == b
  {
    if t < COMPONENT_COUNT && t != b {
      assert Flag(b) & Flag(t) == 0;
    }
  }

  /** Shifting a flag one place moves it to the next bit. */
  lemma FlagNext(t: nat)
    requires t + 1 < COMPONENT_COUNT
    ensures Flag(t) << 1 == Flag(t + 1)
  {
  }

  /** A mask meets a union exactly when it meets one side. */
  lemma UnionMask(x: Signature, y: Signature, mask: Signature)
    ensures mask & (x | y) != 0 <==> mask & x != 0 || mask & y != 0
  {
  }

  /** The signature `componentTypesToSignature` accumulates: the union of the flags of `types`. */
  function TypesSignature(types: seq<ComponentType>): (signature: Signature)
    ensures forall i :: 0 <= i < |types| ==> signature & Flag(types[i]) == Flag(types[i])
  {
    if types == [] then 0 else TypesSignature(types[..|types| - 1]) | Flag(types[|types| - 1])
  }

  /** A bit below the width is set in the accumulated signature exactly when its id is listed; ids
      at or past the width leave no trace. */
  lemma {:induction false} TypesSignatureBits(types: seq<ComponentType>, b: nat)
    requires b < COMPONENT_COUNT
    ensures HasBit(TypesSignature(types), b) <==> b in types
  {
    if types != [] {
      var n := |types| - 1;
      TypesSignatureBits(types[..n], b);
      UnionMask(TypesSignature(types[..n]), Flag(types[n]), Flag(b));
      FlagBits(types[n], b);
      assert types == types[..n] + [types[n]];
    }
  }

  /** Listing one more id adds its flag to the signature. */
  lemma TypesSignatureAppend(types: seq<ComponentType>, i: nat)
    requires i < |types|
    ensures TypesSignature(types[..i + 1]) == TypesSignature(types[..i]) | Flag(types[i])
  {
    assert types[..i + 1][..i] == types[..i];
  }

  /** `componentTypesToSignature`: one flag per listed type id, or-ed into the signature. */
  method ComponentTypesToSignature(types: seq<ComponentType>) returns (signature: Signature)
    ensures signature == TypesSignature(types)
    ensures forall b :: 0 <= b < COMPONENT_COUNT ==> (HasBit(signature, b) <==> b in types)
  {
    signature := 0;
    var i := 0;
    while i < |types|
      invariant i <= |types|
      invariant signature == TypesSignature(types[..i])
    {
      var flag := Flag(types[i]);
      signature := signature | flag;
      TypesSignatureAppend(types, i);
      i := i + 1;
    }
    assert types[..i] == types;
    forall b | 0 <= b < COMPONENT_COUNT ensures HasBit(signature, b) <==> b in types {
      TypesSignatureBits(types, b);
    }
  }

  /** The set bits of `signature` below `n`, in ascending order. */
  function SetBitsBelow(signature: Signature, n: nat): (types: seq<ComponentType>)
    requires n <= COMPONENT_COUNT
    ensures forall i :: 0 <= i < |types| ==> types[i] < n
    ensures forall i, j :: 0 <= i < j < |types| ==> types[i] < types[j]
  {
    if n == 0 then []
    else
      var rest := SetBitsBelow(signature, n - 1);
      if HasBit(signature, n - 1) then rest + [n - 1] else rest
  }

  /** A position below `n` is listed exactly when its bit is set. */
  lemma {:induction false} SetBitsBelowMembers(signature: Signature, n: nat, b: nat)
    requires b < n <= COMPONENT_COUNT
    ensures b in SetBitsBelow(signature, n) <==> HasBit(signature, b)
  {
    if b < n - 1 {
      SetBitsBelowMembers(signature, n - 1, b);
    }
  }

  /** One more position lists that position exactly when its bit is set. */
  lemma SetBitsStep(signature: Signature, i: nat)
    requires i < COMPONENT_COUNT
    ensures SetBitsBelow(signature, i + 1)
      == SetBitsBelow(signature, i) + (if HasBit(signature, i) then [i] else [])
  {
  }

  /** `signatureToComponentTypes`: walks a one-bit mask over all 32 positions and lists each set bit. */
  method SignatureToComponentTypes(signature: Signature) returns (componentTypes: seq<ComponentType>)
    ensures componentTypes == SetBitsBelow(signature, COMPONENT_COUNT)
  {
    componentTypes := [];
    var mask: Signature := 1;
    var i := 0;
    while i < COMPONENT_COUNT
      invariant i <= COMPONENT_COUNT
      invariant i < COMPONENT_COUNT ==> mask == Flag(i)
      invariant componentTypes == SetBitsBelow(signature, i)
    {
      SetBitsStep(signature, i);
      if i + 1 < COMPONENT_COUNT {
        FlagNext(i);
      }
      if mask & signature != 0 {
        componentTypes := componentTypes + [i];
      }
      mask := mask << 1;
      i := i + 1;
    }
  }

  /** Two strictly ascending lists with the same members are the same list. */
  lemma {:induction false} AscendingUnique(xs: seq<ComponentType>, ys: seq<ComponentType>)
    requires forall i, j :: 0 <= i < j < |xs| ==> xs[i] < xs[j]
    requires forall i, j :: 0 <= i < j < |ys| ==> ys[i] < ys[j]
    requires forall x :: x in xs <==> x in ys
    ensures xs == ys
  {
    if xs != [] {
      assert xs[0] in ys;
    }
    if ys != [] {
      assert ys[0] in xs;
    }
    if xs != [] {
      var n, m := |xs| - 1, |ys| - 1;
      assert xs[n] == ys[m] by {
        assert ys[m] in xs && xs[n] in ys;
      }
      forall x ensures x in xs[..n] <==> x in ys[..m] {
        assert x in xs[..n] <==> x in xs && x != xs[n];
        assert x in ys[..m] <==> x in ys && x != ys[m];
      }
      AscendingUnique(xs[..n], ys[..m]);
      assert xs == xs[..n] + [xs[n]] && ys == ys[..m] + [ys[m]];
    }
  }

  /** Tests.cpp:450-457: a strictly ascending list of ids below 32 survives the round trip through a
      signature. */
  lemma SignatureRoundTrip(types: seq<ComponentType>)
    requires forall i :: 0 <= i < |types| ==> types[i] < COMPONENT_COUNT
    requires forall i, j :: 0 <= i < j < |types| ==> types[i] < types[j]
    ensures SetBitsBelow(TypesSignature(types), COMPONENT_COUNT) == types
  {
    var back := SetBitsBelow(TypesSignature(types), COMPONENT_COUNT);
    forall x: ComponentType ensures x in back <==> x in types {
      if x < COMPONENT_COUNT {
        TypesSignatureBits(types, x);
        SetBitsBelowMembers(TypesSignature(types), COMPONENT_COUNT, x);
      }
    }
    AscendingUnique(back, types);
  }

  // ---------------------------------------------------------------------------------------------
  // Visiting one storage

  /** What a visit leaves in a slot holding `v` for `id`: the update when `keep` admits the pair,
      the old value otherwise. */
  function Updated<V>(id: nat, v: V, update: (nat, V) -> V, keep: (nat, V) -> bool): V
  {
    if keep(id, v) then update(id, v) else v
  }

  /** The dense slots after a visit: same owners, in the same order, each value updated. */
  function Visit<V>(elements: seq<DenseElement<V>>, update: (nat, V) -> V, keep: (nat, V) -> bool)
    : (visited: seq<DenseElement<V>>)
    ensures |visited| == |elements|
    ensures forall i :: 0 <= i < |visited| ==> visited[i].sparseID == elements[i].sparseID
    ensures forall i :: 0 <= i < |visited| ==>
              visited[i].val == Updated(elements[i].sparseID, elements[i].val, update, keep)
  {
    if elements == [] then []
    else
      var last := elements[|elements| - 1];
      Visit(elements[..|elements| - 1], update, keep)
        + [DenseElement(last.sparseID, Updated(last.sparseID, last.val, update, keep))]
  }

  /** Rewriting the values of the live slots in place, owners untouched, updates the encoded map
      entry by entry and keeps its ids. */
  lemma ContentsAfterVisit<V>(sp: seq<nat>, de: seq<DenseElement<V>>, de': seq<DenseElement<V>>, n: nat,
                              update: (nat, V) -> V, keep: (nat, V) -> bool)
    requires |de| == |de'| == |sp| + 1 && n <= |sp|
    requires forall j :: 0 <= j < |sp| && sp[j] != |sp| ==> sp[j] < n && de[sp[j]].sparseID == j
    requires forall i :: 0 <= i < n ==>
               de'[i] == DenseElement(de[i].sparseID, Updated(de[i].sparseID, de[i].val, update, keep))
    requires forall i :: n <= i < |de| ==> de'[i] == de[i]
    ensures ContentsOf(sp, de').Keys == ContentsOf(sp, de).Keys
    ensures forall id :: id in ContentsOf(sp, de) ==>
              ContentsOf(sp, de')[id] == Updated(id, ContentsOf(sp, de)[id], update, keep)
  {
    forall id | id in ContentsOf(sp, de)
      ensures ContentsOf(sp, de')[id] == Updated(id, ContentsOf(sp, de)[id], update, keep)
    {
      assert sp[id] != |sp|;
    }
  }

  /** `after` is `before` with every entry passed through a visit. */
  ghost predicate VisitedMap<V>(before: map<nat, V>, after: map<nat, V>, update: (nat, V) -> V, keep: (nat, V) -> bool)
  {
    && after.Keys == before.Keys
    && forall id :: id in before ==> after[id] == Updated(id, before[id], update, keep)
  }

  /** The loop every `operate` overload runs over one storage: each live slot, in dense order, whose
      owner and value pass `keep` gets its value replaced by `update`. */
  method VisitStorage<V(0)>(s: SparseSet<V>, update: (nat, V) -> V, keep: (nat, V) -> bool)
    requires s.Valid()
    modifies s.dense
    ensures s.Valid()
    ensures s.Dense() == Visit(old(s.Dense()), update, keep)
    ensures VisitedMap(old(s.Contents()), s.Contents(), update, keep)
  {
    ghost var sp: seq<nat>, de: seq<DenseElement<V>> := s.sparse[..], s.dense[..];
    var i := 0;
    while i < s.numElements
      invariant i <= s.numElements
      invariant forall j :: 0 <= j < i ==>
                  s.dense[j] == DenseElement(de[j].sparseID, Updated(de[j].sparseID, de[j].val, update, keep))
      invariant forall j :: i <= j < s.dense.Length ==> s.dense[j] == de[j]
    {
      var element := s.dense[i];
      if keep(element.sparseID, element.val) {
        s.dense[i] := DenseElement(element.sparseID, update(element.sparseID, element.val));
      }
      i := i + 1;
    }
    assert s.Valid() by {
      forall j | 0 <= j < s.numElements
        ensures s.dense[j].sparseID < s.maxElements && s.sparse[s.dense[j].sparseID] == j
      {
        assert s.dense[j].sparseID == de[j].sparseID;
      }
    }
    assert s.Contents() == ContentsOf(sp, s.dense[..]);
    ContentsAfterVisit(sp, de, s.dense[..], s.numElements, update, keep);
  }

  /** `set->get(entity)` for each entity in turn: the stored value of a present entity and the
      default `T()` for any other. */
  method GetEach<V(0)>(s: SparseSet<V>, entities: seq<Entity>) returns (seen: seq<V>)
    requires s.Valid()
    ensures |seen| == |entities|
    ensures forall i :: 0 <= i < |entities| ==>
              seen[i] == if entities[i] in s.Contents() then s.Contents()[entities[i]] else s.zero
  {
    seen := [];
    var i := 0;
    while i < |entities|
      invariant i <= |entities| && |seen| == i
      invariant forall j :: 0 <= j < i ==>
                  seen[j] == if entities[j] in s.Contents() then s.Contents()[entities[j]] else s.zero
    {
      var v := s.Get(entities[i]);
      seen := seen + [v];
      i := i + 1;
    }
  }

  /** The same walk over dense order with each element copied first: the updated copies, while the
      storage keeps its own values. */
  method CopyVisit<V(0)>(s: SparseSet<V>, update: (nat, V) -> V, keep: (nat, V) -> bool)
    returns (copies: seq<DenseElement<V>>)
    requires s.Valid()
    ensures copies == Visit(s.Dense(), update, keep)
  {
    copies := [];
    var i := 0;
    while i < s.numElements
      invariant i <= s.numElements
      invariant copies == Visit(s.Dense()[..i], update, keep)
    {
      var element := s.dense[i];
      if keep(element.sparseID, element.val) {
        element := DenseElement(element.sparseID, update(element.sparseID, element.val));
      }
      assert s.Dense()[..i + 1] == s.Dense()[..i] + [s.dense[i]];
      copies := copies + [element];
      i := i + 1;
    }
    assert s.Dense()[..s.numElements] == s.Dense();
  }

  /** The copy walk is not the in-place one: one live slot, an update that adds one and a filter
      that admits everything give an updated copy, while the storage keeps the old value. */
  lemma CopyVisitLosesUpdate()
    ensures var before := [DenseElement(0, 5)];
            var copies := Visit(before, (id: nat, v: int) => v + 1, (id: nat, v: int) => true);
            copies == [DenseElement(0, 6)] && copies != before
  {
  }

  // ---------------------------------------------------------------------------------------------
  // The registry

  /** `typeid(T).name()`: the key a component kind is registered under. */
  type TypeKey = string

  /** Every id the queue holds appears once. */
  predicate Distinct(ids: seq<ComponentType>)
  {
    forall i, j :: 0 <= i < j < |ids| ==> ids[i] != ids[j]
  }

  /** The ids the constructor queues: `0 .. count-1`, each truncated to `uint8_t`. */
  function QueuedIds(count: nat): (ids: seq<ComponentType>)
    ensures |ids| == count
    ensures forall i :: 0 <= i < count ==> ids[i] == i % 256
  {
    seq(count, i requires 0 <= i < count => i % 256)
  }

  /** Below 256 the truncation is the identity, so the queued ids are all different. */
  lemma QueuedIdsDistinct(count: nat)
    requires count <= 256
    ensures Distinct(QueuedIds(count))
  {
  }

  /** From 257 kinds on, the truncated ids repeat: the 257th queued id is the first again. */
  lemma QueuedIdsRepeat(count: nat)
    requires count > 256
    ensures !Distinct(QueuedIds(count))
  {
    assert QueuedIds(count)[0] == QueuedIds(count)[256];
  }

  /** `new SparseSet<T>(maxEntities)` stored under `t` by `componentData.add`: the new storage is
      fresh, valid and empty, and it is held exactly when `t` was a free slot of `componentData`.
      Being new, neither it nor its arrays is among the objects `held` or `componentData`'s arrays. */
  method AddStorage<V(0)>(componentData: SparseSet<SparseSet?<V>>, t: nat, capacity: nat, zero: V, ghost held: set<object>)
    returns (ok: bool, data: SparseSet<V>)
    requires componentData.Valid()
    modifies componentData, componentData.sparse, componentData.dense
    ensures data !in held && data.sparse !in held && data.dense !in held
    ensures data.sparse != componentData.sparse && data.dense as object != componentData.dense as object
    ensures componentData.Valid()
    ensures componentData.sparse == old(componentData.sparse) && componentData.dense == old(componentData.dense)
    ensures fresh(data) && fresh(data.sparse) && fresh(data.dense)
    ensures data.Valid() && data.Contents() == map[] && data.maxElements == capacity && data.zero == zero
    ensures ok <==> t < componentData.maxElements && t !in old(componentData.Contents())
    ensures ok ==> componentData.Contents() == old(componentData.Contents())[t := data]
    ensures !ok ==> componentData.Contents() == old(componentData.Contents())
  {
    data := new SparseSet<V>(capacity, zero);
    assert data !in held && data.sparse !in held && data.dense !in held;
    ok := componentData.Add(t, data);
  }

  /** `componentData.del(id)`: whatever was stored under `t` is gone and nothing else changes. */
  method DropStorage<V(0)>(componentData: SparseSet<SparseSet?<V>>, t: nat)
    requires componentData.Valid()
    modifies componentData, componentData.sparse, componentData.dense
    ensures componentData.Valid()
    ensures componentData.sparse == old(componentData.sparse) && componentData.dense == old(componentData.dense)
    ensures componentData.Contents() == old(componentData.Contents()) - {t}
  {
    var ok := componentData.Del(t);
  }

  /** A one-to-one registry over the ids in `used`: each key maps to a used id of its own, and the
      queue holds unused ids, each once. */
  ghost predicate Registry(typeMap: map<TypeKey, ComponentType>, free: seq<ComponentType>, used: set<nat>)
  {
    && (forall k :: k in typeMap ==> typeMap[k] in used)
    && (forall k, l :: k in typeMap && l in typeMap && k != l ==> typeMap[k] != typeMap[l])
    && Distinct(free)
    && (forall i :: 0 <= i < |free| ==> free[i] !in used)
  }

  /** Binding a new key to the head of the queue, and using that id, keeps the registry one-to-one. */
  lemma RegisterKeepsRegistry(typeMap: map<TypeKey, ComponentType>, free: seq<ComponentType>, used: set<nat>, key: TypeKey)
    requires Registry(typeMap, free, used) && key !in typeMap && free != []
    ensures free[0] !in used
    ensures Registry(typeMap[key := free[0]], free[1..], used + {free[0]})
  {
    var typeMap', free' := typeMap[key := free[0]], free[1..];
    forall i | 0 <= i < |free'| ensures free'[i] !in used + {free[0]} {
      assert free'[i] == free[i + 1];
    }
  }

  /** Dropping a key together with its id keeps the registry one-to-one. */
  lemma UnregisterKeepsRegistry(typeMap: map<TypeKey, ComponentType>, free: seq<ComponentType>, used: set<nat>, key: TypeKey)
    requires key in typeMap
    ensures Registry(typeMap, free, used) ==> Registry(typeMap - {key}, free, used - {typeMap[key]})
  {
  }

  /** `ComponentManager`, over one value type `V` for every kind. Each registered kind owns a
      `SparseSet<V>` of capacity `maxEntities` of its own, held in `componentData` under its id.
      An id with no storage reads as `null` here. */
  class ComponentManager<V(0)> {
    var freeComponentTypes: seq<ComponentType>
    var typeMap: map<TypeKey, ComponentType>
    const componentData: SparseSet<SparseSet?<V>>
    const maxEntities: nat
    /** The default-constructed `V()` each storage hands out for an absent entity. */
    const zero: V
    /** The storages `componentData` holds, by id. */
    ghost var storages: map<nat, SparseSet?<V>>
    /** The storage objects this manager has created. */
    ghost var Repr: set<object>
    /** The id each held storage is held under. */
    ghost var KindOf: map<SparseSet<V>, nat>
    /** The storage each storage array belongs to. */
    ghost var Holder: map<object, SparseSet<V>>

    /** A storage's arrays are not `componentData`'s, so writing one leaves the other alone. */
    ghost predicate Apart(s: SparseSet<V>)
      reads s`sparse, s`dense, componentData`sparse, componentData`dense
    {
      s.sparse != componentData.sparse && s.dense as object != componentData.dense as object
    }

    /** Both arrays of `s` belong to `s`, so no other storage uses them. */
    ghost predicate Holds(s: SparseSet<V>)
      reads this`Holder, s`sparse, s`dense
    {
      && s.sparse in Holder && Holder[s.sparse] == s
      && s.dense in Holder && Holder[s.dense] == s
    }

    /** No storage is one of `componentData`'s parts, each held storage is held under one id
        only, and each storage's arrays are its own, so no two storages share an array and none
        shares one with `componentData`. */
    ghost predicate Owned()
      reads this`storages, this`Repr, this`KindOf, this`Holder, componentData`sparse, componentData`dense, Repr
    {
      && componentData !in Repr && componentData.sparse !in Repr && componentData.dense !in Repr
      && (forall t :: t in storages ==> storages[t] != null && storages[t] in Repr && storages[t] in KindOf && KindOf[storages[t]] == t)
      && (forall s: SparseSet<V> :: s in Repr ==> s.maxElements == maxEntities && s.zero == zero && Apart(s) && Holds(s))
    }

    /** `componentData` holds exactly the storages, every queued id is one of its slots, and the
        storages are owned as `Owned` says. */
    ghost predicate Valid()
      reads this`storages, this`Repr, this`KindOf, this`Holder, this`freeComponentTypes
      reads componentData, componentData.sparse, componentData.dense, Repr
    {
      && componentData.Valid()
      && componentData.zero == null
      && componentData.Contents() == storages
      && (forall i :: 0 <= i < |freeComponentTypes| ==> freeComponentTypes[i] < componentData.maxElements)
      && Owned()
    }

    /** The registry is one-to-one: each registered key has an id of its own, and so, under
        `Valid`, a storage of its own; every queued id is unused and queued once. The constructor sets it up when there are at most 256 kinds. */
    ghost predicate Consistent()
      reads this
    {
      Registry(typeMap, freeComponentTypes, storages.Keys)
    }

    constructor (maxEntities: nat, maxComponents: nat, zero: V)
      ensures Valid() && fresh(componentData) && fresh(componentData.sparse) && fresh(componentData.dense)
      ensures this.maxEntities == maxEntities && this.zero == zero
      ensures componentData.maxElements == maxComponents
      ensures typeMap == map[] && storages == map[] && Repr == {}
      ensures freeComponentTypes == QueuedIds(maxComponents)
      ensures Consistent() <==> maxComponents <= 256
    {
      this.maxEntities := maxEntities;
      this.zero := zero;
      componentData := new SparseSet<SparseSet?<V>>(maxComponents, null);
      typeMap := map[];
      storages := map[];
      Repr := {};
      KindOf, Holder := map[], map[];
      var queue: seq<ComponentType> := [];
      var i := 0;
      while i < maxComponents
        invariant i <= maxComponents
        invariant queue == QueuedIds(i)
      {
        queue := queue + [i % 256];
        i := i + 1;
      }
      freeComponentTypes := queue;
      new;
      if maxComponents <= 256 {
        QueuedIdsDistinct(maxComponents);
      } else {
        QueuedIdsRepeat(maxComponents);
      }
    }

    /** The storage a key leads to: none for an unregistered key or a missing storage. */
    ghost function StorageOf(key: TypeKey): (s: SparseSet?<V>)
      reads this
      ensures s != null ==> key in typeMap && typeMap[key] in storages
    {
      if key in typeMap && typeMap[key] in storages then storages[typeMap[key]] else null
    }

    /** The one array an `operate` on `key` may write: the dense array of that key's storage. */
    ghost function Target(key: TypeKey): set<object>
      reads this, Repr
    {
      var s := StorageOf(key);
      if s != null && s in Repr then {s.dense} else {}
    }

    /** Every storage has its own `new SparseSet<T>` (ComponentManager.hpp:51): the storages of
        two kinds with different ids share no object, so writing one leaves the other alone. */
    lemma KindsApart(key1: TypeKey, key2: TypeKey)
      requires Valid() && Consistent() && key1 != key2
      requires StorageOf(key1) != null && StorageOf(key2) != null
      ensures StorageOf(key1).Repr() !! StorageOf(key2).Repr()
    {
      var s1, s2 := StorageOf(key1), StorageOf(key2);
      assert KindOf[s1] != KindOf[s2];
      assert Holds(s1) && Holds(s2);
    }

    /** No storage shares an object with the table of storages, so registering or unregistering a
        kind leaves every storage alone. */
    lemma KindApartFromTable(key: TypeKey)
      requires Valid() && StorageOf(key) != null
      ensures StorageOf(key).Repr() !! componentData.Repr()
    {
      assert Apart(StorageOf(key));
    }

    /** `registerComponentType<T>`: a new key takes the id at the head of the queue and a fresh,
        empty storage of entity capacity; a known key changes nothing. The source reads the head of
        an empty queue when every id is taken, so callers must leave one. */
    method Register(key: TypeKey)
      requires Valid()
      requires key in typeMap || freeComponentTypes != []
      modifies this`freeComponentTypes, this`typeMap, this`storages, this`Repr, this`KindOf, this`Holder
      modifies componentData, componentData.sparse, componentData.dense
      ensures Valid()
      ensures key in old(typeMap) ==>
                typeMap == old(typeMap) && freeComponentTypes == old(freeComponentTypes) && storages == old(storages)
      ensures key !in old(typeMap) ==>
                && typeMap == old(typeMap)[key := old(freeComponentTypes[0])]
                && freeComponentTypes == old(freeComponentTypes[1..])
      ensures key !in old(typeMap) ==>
                var t, s := old(freeComponentTypes[0]), StorageOf(key);
                if t in old(storages) then storages == old(storages)
                else && storages == old(storages)[t := s]
                     && s != null && fresh(s) && fresh(s.sparse) && fresh(s.dense)
                     && s.Valid() && s.Contents() == map[] && s.maxElements == maxEntities
      ensures old(Consistent()) ==> Consistent() && StorageOf(key) != null
      ensures componentData.sparse == old(componentData.sparse) && componentData.dense == old(componentData.dense)
    {
      if key in typeMap {
        return;
      }
      RegisterNew(key);
    }

    /** `registerComponentType<T>` past its early return: the head of the queue is bound to the new
        key, and a fresh, empty storage is held under it unless that slot is taken. */
    method RegisterNew(key: TypeKey)
      requires Valid() && key !in typeMap && freeComponentTypes != []
      modifies this`freeComponentTypes, this`typeMap, this`storages, this`Repr, this`KindOf, this`Holder
      modifies componentData, componentData.sparse, componentData.dense
      ensures Valid()
      ensures typeMap == old(typeMap)[key := old(freeComponentTypes[0])]
      ensures freeComponentTypes == old(freeComponentTypes[1..])
      ensures var t, s := old(freeComponentTypes[0]), StorageOf(key);
              if t in old(storages) then storages == old(storages)
              else && storages == old(storages)[t := s]
                   && s != null && fresh(s) && fresh(s.sparse) && fresh(s.dense)
                   && s.Valid() && s.Contents() == map[] && s.maxElements == maxEntities
      ensures old(Consistent()) ==> Consistent() && StorageOf(key) != null
      ensures componentData.sparse == old(componentData.sparse) && componentData.dense == old(componentData.dense)
    {
      if Consistent() {
        RegisterKeepsRegistry(typeMap, freeComponentTypes, storages.Keys, key);
      }
      var componentType := Bind(key);
      var ok, data := Install(componentType);
      if ok {
        assert StorageOf(key) == data;
      }
    }

    /** The pop half of `registerComponentType<T>`: the head of the queue leaves it and is bound
        to `key`. */
    method Bind(key: TypeKey) returns (t: ComponentType)
      requires Valid() && freeComponentTypes != []
      modifies this`freeComponentTypes, this`typeMap
      ensures Valid()
      ensures t == old(freeComponentTypes[0]) && t < componentData.maxElements
      ensures freeComponentTypes == old(freeComponentTypes[1..])
      ensures typeMap == old(typeMap)[key := t]
    {
      t := freeComponentTypes[0];
      freeComponentTypes, typeMap := freeComponentTypes[1..], typeMap[key := t];
    }

    /** `componentData.add(id, new SparseSet<T>(maxEntities))`: a fresh, empty storage of entity
        capacity, held under `t` exactly when that slot was free. */
    method Install(t: ComponentType) returns (ok: bool, data: SparseSet<V>)
      requires Valid()
      modifies this`storages, this`Repr, this`KindOf, this`Holder, componentData, componentData.sparse, componentData.dense
      ensures Valid()
      ensures fresh(data) && fresh(data.sparse) && fresh(data.dense)
      ensures data.Valid() && data.Contents() == map[] && data.maxElements == maxEntities
      ensures ok <==> t < componentData.maxElements && t !in old(storages)
      ensures storages == if ok then old(storages)[t := data] else old(storages)
      ensures componentData.sparse == old(componentData.sparse) && componentData.dense == old(componentData.dense)
    {
      ok, data := AddStorage(componentData, t, maxEntities, zero, Repr + Holder.Keys);
      Adopt(t, data, ok);
    }

    /** The bookkeeping of a storage just created: it joins `Repr` with its arrays, and it is held
        under `t` when `hold` says so. */
    ghost method Adopt(t: nat, data: SparseSet<V>, hold: bool)
      requires Owned()
      requires data !in Repr && data.sparse !in Holder && data.dense !in Holder
      requires data.maxElements == maxEntities && data.zero == zero && Apart(data)
      modifies this`storages, this`Repr, this`KindOf, this`Holder
      ensures Owned()
      ensures storages == if hold then old(storages)[t := data] else old(storages)
    {
      if hold {
        storages, KindOf := storages[t := data], KindOf[data := t];
      }
      Repr, Holder := Repr + {data}, Holder[data.sparse := data][data.dense := data];
    }

    /** `getComponentType<T>`: the id bound to `key`, if any. */
    method GetComponentType(key: TypeKey) returns (r: Option<ComponentType>)
      ensures r.Some? <==> key in typeMap
      ensures r.Some? ==> r.value == typeMap[key]
      ensures Consistent() && r.Some? ==> r.value in storages
    {
      if key !in typeMap {
        return None;
      }
      return Some(typeMap[key]);
    }

    /** `getComponents<T>`: the storage of `key`, or null. In a consistent registry it is null
        exactly for an unregistered key. */
    method GetComponents(key: TypeKey) returns (s: SparseSet?<V>)
      requires Valid()
      ensures s == StorageOf(key)
      ensures Consistent() ==> (s != null <==> key in typeMap)
      ensures s != null ==> s.maxElements == maxEntities && s.zero == zero
    {
      var t := GetComponentType(key);
      if t == None {
        return null;
      }
      s := componentData.Get(t.value);
    }

    /** The visit shared by the four writing `operate` overloads; the storage must be a
        well-formed sparse set. */
    method Operate(key: TypeKey, update: (nat, V) -> V, keep: (nat, V) -> bool)
      requires Valid()
      requires StorageOf(key) != null ==> StorageOf(key).Valid()
      modifies Target(key)
      ensures Valid()
      ensures StorageOf(key) != null ==>
                && StorageOf(key).Valid()
                && StorageOf(key).Dense() == Visit(old(StorageOf(key).Dense()), update, keep)
                && VisitedMap(old(StorageOf(key).Contents()), StorageOf(key).Contents(), update, keep)
    {
      var s := GetComponents(key);
      if s == null {
        return;
      }
      VisitStorage(s, update, keep);
    }

    /** `operate<T>(entities, func)`: `func` is handed `set->get(entity)` for each listed entity in
        turn, which is a copy, so the storage is never written. The copies it sees are returned: the
        stored value of a present entity and the default `T()` for any other. */
    method OperateEntities(key: TypeKey, entities: seq<Entity>) returns (seen: seq<V>)
      requires Valid()
      requires StorageOf(key) != null ==> StorageOf(key).Valid()
      ensures StorageOf(key) == null ==> seen == []
      ensures StorageOf(key) != null ==>
                && |seen| == |entities|
                && forall i :: 0 <= i < |entities| ==>
                     seen[i] == if entities[i] in StorageOf(key).Contents() then StorageOf(key).Contents()[entities[i]] else zero
    {
      var s := GetComponents(key);
      seen := [];
      if s != null {
        seen := GetEach(s, entities);
      }
    }

    /** `operate<T>(func)`: every stored value, in dense order, is replaced by `func` of it. */
    method OperateAll(key: TypeKey, func: V -> V)
      requires Valid()
      requires StorageOf(key) != null ==> StorageOf(key).Valid()
      modifies Target(key)
      ensures Valid()
      ensures StorageOf(key) != null ==>
                var s, before := StorageOf(key), old(StorageOf(key).Dense());
                && s.Valid() && |s.Dense()| == |before|
                && (forall i :: 0 <= i < |before| ==> s.Dense()[i] == DenseElement(before[i].sparseID, func(before[i].val)))
                && s.Contents().Keys == old(s.Contents()).Keys
                && (forall id :: id in old(s.Contents()) ==> s.Contents()[id] == func(old(s.Contents())[id]))
    {
      var update, keep := (id: nat, v: V) => func(v), (id: nat, v: V) => true;
      ghost var s := StorageOf(key);
      ghost var before := if s != null then s.Contents() else map[];
      Operate(key, update, keep);
      if s != null {
        forall id | id in before ensures s.Contents()[id] == func(before[id]) {
          assert s.Contents()[id] == Updated(id, before[id], update, keep);
        }
      }
    }

    /** `operate<T>(func, filter)`: every stored value that passes `filter` is replaced by `func`
        of it; the others stay. */
    method OperateFiltered(key: TypeKey, func: V -> V, filter: V -> bool)
      requires Valid()
      requires StorageOf(key) != null ==> StorageOf(key).Valid()
      modifies Target(key)
      ensures Valid()
      ensures StorageOf(key) != null ==>
                var s, before := StorageOf(key), old(StorageOf(key).Dense());
                && s.Valid() && |s.Dense()| == |before|
                && (forall i :: 0 <= i < |before| ==>
                      s.Dense()[i] == DenseElement(before[i].sparseID, if filter(before[i].val) then func(before[i].val) else before[i].val))
                && s.Contents().Keys == old(s.Contents()).Keys
                && (forall id :: id in old(s.Contents()) ==>
                      s.Contents()[id] == if filter(old(s.Contents())[id]) then func(old(s.Contents())[id]) else old(s.Contents())[id])
    {
      var update, keep := (id: nat, v: V) => func(v), (id: nat, v: V) => filter(v);
      ghost var s := StorageOf(key);
      ghost var before := if s != null then s.Contents() else map[];
      Operate(key, update, keep);
      if s != null {
        forall id | id in before
          ensures s.Contents()[id] == if filter(before[id]) then func(before[id]) else before[id]
        {
          assert s.Contents()[id] == Updated(id, before[id], update, keep);
        }
      }
    }

    /** `operate<T>(func)` with the entity: every stored value is replaced by `func` of its entity
        and itself. */
    method OperateWithEntity(key: TypeKey, func: (Entity, V) -> V)
      requires Valid()
      requires StorageOf(key) != null ==> StorageOf(key).Valid()
      modifies Target(key)
      ensures Valid()
      ensures StorageOf(key) != null ==>
                var s, before := StorageOf(key), old(StorageOf(key).Dense());
                && s.Valid() && |s.Dense()| == |before|
                && (forall i :: 0 <= i < |before| ==>
                      s.Dense()[i] == DenseElement(before[i].sparseID, func(before[i].sparseID, before[i].val)))
                && s.Contents().Keys == old(s.Contents()).Keys
                && (forall id :: id in old(s.Contents()) ==> s.Contents()[id] == func(id, old(s.Contents())[id]))
    {
      var keep := (id: nat, v: V) => true;
      ghost var s := StorageOf(key);
      ghost var before := if s != null then s.Contents() else map[];
      Operate(key, func, keep);
      if s != null {
        forall id | id in before ensures s.Contents()[id] == func(id, before[id]) {
          assert s.Contents()[id] == Updated(id, before[id], func, keep);
        }
      }
    }

    /** `operate<T>(func, filter)` with the entity, as evidently intended: every stored value whose
        entity and value pass `filter` is replaced by `func` of them; the others stay. */
    method OperateWithEntityFiltered(key: TypeKey, func: (Entity, V) -> V, filter: (Entity, V) -> bool)
      requires Valid()
      requires StorageOf(key) != null ==> StorageOf(key).Valid()
      modifies Target(key)
      ensures Valid()
      ensures StorageOf(key) != null ==>
                && StorageOf(key).Valid()
                && StorageOf(key).Dense() == Visit(old(StorageOf(key).Dense()), func, filter)
                && VisitedMap(old(StorageOf(key).Contents()), StorageOf(key).Contents(), func, filter)
    {
      Operate(key, func, filter);
    }

    /** `operate<T>(func, filter)` with the entity, as written: each dense element is copied
        (`auto element`, not `auto&`), so `func` updates the copy and the storage keeps its values.
        The updated copies are returned; nothing is written. */
    method OperateWithEntityFilteredAsWritten(key: TypeKey, func: (Entity, V) -> V, filter: (Entity, V) -> bool)
      returns (copies: seq<DenseElement<V>>)
      requires Valid()
      requires StorageOf(key) != null ==> StorageOf(key).Valid()
      ensures StorageOf(key) == null ==> copies == []
      ensures StorageOf(key) != null ==> copies == Visit(StorageOf(key).Dense(), func, filter)
    {
      var s := GetComponents(key);
      copies := [];
      if s != null {
        copies := CopyVisit(s, func, filter);
      }
    }

    /** `unregisterComponents<T>`: a registered key loses its binding and its id loses its storage;
        the id does not go back to the queue. An unknown key changes nothing. */
    method Unregister(key: TypeKey)
      requires Valid()
      modifies this`typeMap, this`storages, componentData, componentData.sparse, componentData.dense
      ensures Valid()
      ensures freeComponentTypes == old(freeComponentTypes)
      ensures key !in old(typeMap) ==> typeMap == old(typeMap) && storages == old(storages)
      ensures key in old(typeMap) ==>
                typeMap == old(typeMap) - {key} && storages == old(storages) - {old(typeMap[key])}
      ensures old(Consistent()) ==> Consistent()
      ensures componentData.sparse == old(componentData.sparse) && componentData.dense == old(componentData.dense)
    {
      var t := GetComponentType(key);
      if t.Some? {
        UnregisterKeepsRegistry(typeMap, freeComponentTypes, storages.Keys, key);
        Uninstall(key, t.value);
      }
    }

    /** `componentData.del(id)` and `typeMap.erase(name)`: the storage under `t`, if any, is no
        longer held, and `key` is no longer bound. */
    method Uninstall(key: TypeKey, t: ComponentType)
      requires Valid()
      modifies this`typeMap, this`storages, componentData, componentData.sparse, componentData.dense
      ensures Valid()
      ensures storages == old(storages) - {t} && typeMap == old(typeMap) - {key}
      ensures componentData.sparse == old(componentData.sparse) && componentData.dense == old(componentData.dense)
    {
      DropStorage(componentData, t);
      Forget(t);
      typeMap := typeMap - {key};
    }

    /** The bookkeeping of a storage no longer held: `t` leaves `storages`. */
    ghost method Forget(t: nat)
      requires Owned()
      modifies this`storages
      ensures Owned() && storages == old(storages) - {t}
    {
      storages := storages - {t};
    }
  }

  // ---------------------------------------------------------------------------------------------
  // Scenarios

  /** A manager of capacity 1 with one kind, "Health", whose storage is still empty. */
  method HealthRegistered() returns (manager: ComponentManager<int>, s: SparseSet<int>)
    ensures fresh(manager) && fresh(s) && fresh(s.sparse) && fresh(s.dense)
    ensures manager.Valid() && s == manager.StorageOf("Health")
    ensures s.Valid() && s.Dense() == [] && s.maxElements == 1
  {
    manager := new ComponentManager<int>(1, 1, 0);
    manager.Register("Health");
    s := manager.GetComponents("Health");
    s.ContentsCount();
  }

  /** The same manager once entity 0 has health 5. */
  method OneStored() returns (manager: ComponentManager<int>, s: SparseSet<int>)
    ensures fresh(manager) && fresh(s) && fresh(s.sparse) && fresh(s.dense)
    ensures manager.Valid() && s == manager.StorageOf("Health")
    ensures s.Valid() && s.Dense() == [DenseElement(0, 5)] && s.Contents() == map[0 := 5]
  {
    manager, s := HealthRegistered();
    StoreFive(manager, s);
  }

  /** Entity 0 gets health 5 in the empty "Health" storage; the manager stays valid. */
  method StoreFive(manager: ComponentManager<int>, s: SparseSet<int>)
    requires manager.Valid() && s == manager.StorageOf("Health")
    requires s.Valid() && s.Dense() == [] && s.maxElements == 1
    modifies s, s.sparse, s.dense
    ensures manager.Valid() && s.sparse == old(s.sparse) && s.dense == old(s.dense)
    ensures s.Valid() && s.Dense() == [DenseElement(0, 5)] && s.Contents() == map[0 := 5]
  {
    AddNew(s, 0, 5);
    s.SingleContents(0, 5);
  }

  /** ComponentManager.hpp:115-128 on that storage, with `func` adding one and a filter admitting
      everything: as written only the copy becomes 6 and the storage keeps 5; as intended the
      storage itself becomes 6. */
  method CopyScenario() returns (copies: seq<DenseElement<int>>, kept: int, updated: int)
    ensures copies == [DenseElement(0, 6)] && kept == 5 && updated == 6
  {
    var manager, s := OneStored();
    copies, kept := CopiedOnly(manager, s);
    updated := UpdatedInPlace(manager, s);
  }

  /** The loop as written on the storage holding 5: the copy handed back is 6, the storage keeps 5. */
  method CopiedOnly(manager: ComponentManager<int>, s: SparseSet<int>) returns (copies: seq<DenseElement<int>>, kept: int)
    requires manager.Valid() && s == manager.StorageOf("Health")
    requires s.Valid() && s.Dense() == [DenseElement(0, 5)] && s.Contents() == map[0 := 5]
    ensures copies == [DenseElement(0, 6)] && kept == 5
  {
    copies := manager.OperateWithEntityFilteredAsWritten("Health", (e: Entity, v: int) => v + 1, (e: Entity, v: int) => true);
    kept := s.Get(0);
  }

  /** The corrected loop on the storage holding 5: the storage itself becomes 6. */
  method UpdatedInPlace(manager: ComponentManager<int>, s: SparseSet<int>) returns (updated: int)
    requires manager.Valid() && s == manager.StorageOf("Health")
    requires s.Valid() && s.Dense() == [DenseElement(0, 5)] && s.Contents() == map[0 := 5]
    modifies s.dense
    ensures updated == 6
  {
    manager.OperateWithEntityFiltered("Health", (e: Entity, v: int) => v + 1, (e: Entity, v: int) => true);
    updated := s.Get(0);
  }

  /** Tests.cpp:333-341: registering a kind leaves the storage `s` of a kind already registered,
      and both its arrays, untouched. */
  method RegisterKeepsKind<V(0)>(manager: ComponentManager<V>, key: TypeKey, other: TypeKey, s: SparseSet<V>)
    requires manager.Valid() && (key in manager.typeMap || manager.freeComponentTypes != [])
    requires s == manager.StorageOf(other) && s.Valid()
    modifies manager, manager.componentData, manager.componentData.sparse, manager.componentData.dense
    ensures manager.Valid() && unchanged(s, s.sparse, s.dense)
  {
    manager.KindApartFromTable(other);
    manager.Register(key);
  }

  /** Tests.cpp:425-432: adding to the storage of one kind leaves the storage of another as it was. */
  method AddKeepsKind<V(0)>(manager: ComponentManager<V>, key: TypeKey, other: TypeKey, entity: Entity, value: V)
    returns (ok: bool)
    requires manager.Valid() && manager.Consistent() && key != other
    requires manager.StorageOf(key) != null && manager.StorageOf(key).Valid()
    requires manager.StorageOf(other) != null && manager.StorageOf(other).Valid()
    modifies manager.StorageOf(key).Repr()
    ensures manager.StorageOf(key).Valid()
    ensures ok ==> manager.StorageOf(key).Contents() == old(manager.StorageOf(key).Contents())[entity := value]
    ensures manager.StorageOf(other).Valid()
    ensures manager.StorageOf(other).Contents() == old(manager.StorageOf(other).Contents())
  {
    manager.KindsApart(key, other);
    var components := manager.GetComponents(key);
    ok := components.Add(entity, value);
  }

  /** Tests.cpp:434-447: operating on the values of one kind leaves the storage of another kind,
      which `func` may read, as it was. */
  method OperateKeepsKind<V(0)>(manager: ComponentManager<V>, key: TypeKey, other: TypeKey, func: V -> V)
    requires manager.Valid() && manager.Consistent() && key != other
    requires manager.StorageOf(key) != null ==> manager.StorageOf(key).Valid()
    requires manager.StorageOf(other) != null && manager.StorageOf(other).Valid()
    modifies manager.Target(key)
    ensures manager.StorageOf(other).Valid()
    ensures manager.StorageOf(other).Contents() == old(manager.StorageOf(other).Contents())
  {
    if manager.StorageOf(key) != null {
      manager.KindsApart(key, other);
    }
    manager.OperateAll(key, func);
  }
}
