/** The packed container of Source/Core/DataStorage/SparseSet.hpp: a fixed-capacity map from
    small integer ids to values, kept as a sparse index array and a gap-free dense array. */
module SparseSets {

  import opened Wrappers

  /** A dense-array slot: the id that owns it and its value. */
  datatype DenseElement<T> = DenseElement(sparseID: nat, val: T)

  /** Swap-with-tail removal of slot `k`: the last element moves into slot `k`, the sequence shrinks by one. */
  function SwapRemove<E>(s: seq<E>, k: nat): (r: seq<E>)
    requires k < |s|
    ensures |r| == |s| - 1
    ensures k < |r| ==> r[k] == s[|s| - 1]
    ensures forall i :: 0 <= i < |r| && i != k ==> r[i] == s[i]
  {
    s[k := s[|s| - 1]][..|s| - 1]
  }

  /** Swap-with-tail removal drops exactly the removed element: nothing else is lost or duplicated. */
  lemma {:induction false} SwapRemovePermutes<E>(s: seq<E>, k: nat)
    requires k < |s|
    ensures multiset(SwapRemove(s, k)) == multiset(s) - multiset{s[k]}
  {
    var n := |s| - 1;
    var r := SwapRemove(s, k);
    if k == n {
      assert s == r + [s[k]];
    } else {
      assert r == s[..k] + [s[n]] + s[k + 1..n];
      assert s == s[..k] + [s[k]] + s[k + 1..n] + [s[n]];
      calc {
        multiset(s);
        multiset(s[..k]) + multiset{s[k]} + multiset(s[k + 1..n]) + multiset{s[n]};
        multiset(r) + multiset{s[k]};
      }
    }
  }

  /** The ids owned by the dense slots, in dense order. */
  function Owners<T>(elements: seq<DenseElement<T>>): (ids: seq<nat>)
    ensures |ids| == |elements|
    ensures forall i :: 0 <= i < |ids| ==> ids[i] == elements[i].sparseID
  {
    seq(|elements|, i requires 0 <= i < |elements| => elements[i].sparseID)
  }

  /** The ids a sequence mentions. */
  function Elements(s: seq<nat>): set<nat>
  {
    set x | x in s
  }

  /** A sequence without repetitions has as many distinct elements as it has positions. */
  lemma {:induction false} DistinctCount(s: seq<nat>)
    requires forall i, j :: 0 <= i < j < |s| ==> s[i] != s[j]
    ensures |Elements(s)| == |s|
  {
    if s != [] {
      var tail := s[1..];
      forall i, j | 0 <= i < j < |tail| ensures tail[i] != tail[j] {
        assert tail[i] == s[i + 1] && tail[j] == s[j + 1];
      }
      DistinctCount(tail);
      var rest := Elements(tail);
      assert s[0] !in rest by {
        forall j | 0 <= j < |tail| ensures tail[j] != s[0] {
          assert tail[j] == s[j + 1];
        }
      }
      assert Elements(s) == rest + {s[0]} by {
        assert s == [s[0]] + tail;
      }
    }
  }

  /** A subset as large as its superset is the whole superset. */
  lemma SubsetSameCount(a: set<nat>, b: set<nat>)
    requires a <= b && |a| == |b|
    ensures a == b
  {
    assert b == a + (b - a);
    assert |b - a| == 0;
  }

  /** The ids below `n`. */
  function Below(n: nat): (r: set<nat>)
    ensures |r| == n
    ensures forall i: nat :: i in r <==> i < n
  {
    if n == 0 then {}
    else
      var r := Below(n - 1);
      assert r * {n - 1} == {};
      r + {n - 1}
  }

  /** The id-to-value map a sparse index and a dense array encode: an id is present when its sparse
      entry is below the sentinel, which equals the index length. */
  ghost function ContentsOf<T>(sparse: seq<nat>, dense: seq<DenseElement<T>>): map<nat, T>
  {
    map id | 0 <= id < |sparse| && sparse[id] < |sparse| && sparse[id] < |dense| :: dense[sparse[id]].val
  }

  /** What appending does to the encoded map: pointing an absent `id` at the free slot `n` and
      filling that slot adds exactly `id`. */
  lemma ContentsAfterAdd<T>(sp: seq<nat>, de: seq<DenseElement<T>>, id: nat, n: nat, value: T)
    requires |de| == |sp| + 1 && id < |sp| && n < |sp| && sp[id] == |sp|
    requires forall j :: 0 <= j < |sp| && sp[j] < |sp| ==> sp[j] != n
    ensures ContentsOf(sp[id := n], de[n := DenseElement(id, value)]) == ContentsOf(sp, de)[id := value]
  {
  }

  /** The swap-with-tail update keeps the sparse and dense sequences pointing back at each other,
      with one live slot fewer. */
  lemma LinkedAfterDel<T>(sp: seq<nat>, de: seq<DenseElement<T>>, n: nat, id: nat, t: nat, k: nat)
    requires |de| == |sp| + 1 && 0 < n <= |sp| && id < |sp| && t < |sp|
    requires sp[id] == k && k < n && t == de[n - 1].sparseID && sp[t] == n - 1
    requires forall j :: 0 <= j < |sp| && sp[j] != |sp| ==> sp[j] < n && de[sp[j]].sparseID == j
    requires forall i :: 0 <= i < n ==> de[i].sparseID < |sp| && sp[de[i].sparseID] == i
    ensures var sp', de' := sp[t := k][id := |sp|], de[k := de[n - 1]];
            && (forall j :: 0 <= j < |sp| && sp'[j] != |sp| ==> sp'[j] < n - 1 && de'[sp'[j]].sparseID == j)
            && (forall i :: 0 <= i < n - 1 ==> de'[i].sparseID < |sp| && sp'[de'[i].sparseID] == i)
  {
    var sp', de' := sp[t := k][id := |sp|], de[k := de[n - 1]];
    assert t != id ==> k < n - 1;
    forall j | 0 <= j < |sp| && sp'[j] != |sp| ensures sp'[j] < n - 1 && de'[sp'[j]].sparseID == j {
      if j != t {
        assert sp[j] != n - 1 && sp[j] != k;
      }
    }
    forall i | 0 <= i < n - 1 ensures de'[i].sparseID < |sp| && sp'[de'[i].sparseID] == i {
      if i != k {
        assert sp[de[i].sparseID] == i;
      }
    }
  }

  /** What the swap-with-tail update does to the encoded map: with `id` in slot `k` and the tail owner
      `t` in slot `last`, repointing `t` to `k`, nulling `id` and copying the tail into `k` drops
      exactly `id`. */
  lemma ContentsAfterDel<T>(sp: seq<nat>, de: seq<DenseElement<T>>, id: nat, t: nat, k: nat, last: nat)
    requires |de| == |sp| + 1 && id < |sp| && t < |sp| && k < |sp| && last < |sp|
    requires sp[id] == k && sp[t] == last
    requires forall j :: 0 <= j < |sp| && j != id && sp[j] < |sp| ==> sp[j] != k
    requires forall j :: 0 <= j < |sp| && j != t && sp[j] < |sp| ==> sp[j] != last
    ensures ContentsOf(sp[t := k][id := |sp|], de[k := de[last]]) == ContentsOf(sp, de) - {id}
  {
  }

  /** `SparseSet<T>`. `zero` stands for the default-constructed `T()`: every fresh dense slot holds
      it here, including the spare slot absent ids read through. */
  class SparseSet<T(0)> {
    const maxElements: nat
    /** The sentinel a sparse entry holds for an absent id; always equal to the capacity. */
    const nullElement: nat
    const zero: T
    var numElements: nat
    var sparse: array<nat>
    /** One slot longer than the capacity: absent ids read through `dense[nullElement]`. */
    var dense: array<DenseElement<T>>

    ghost function Repr(): set<object>
      reads this
    {
      {this, sparse, dense}
    }

    /** Sparse and dense arrays point back at each other for every present id; the spare slot
        `dense[nullElement]` keeps its default content. */
    ghost predicate Valid()
      reads this, sparse, dense
    {
      && nullElement == maxElements
      && sparse.Length == maxElements
      && dense.Length == maxElements + 1
      && numElements <= maxElements
      && dense[maxElements] == DenseElement(0, zero)
      && (forall id :: 0 <= id < maxElements && sparse[id] != nullElement ==>
            sparse[id] < numElements && dense[sparse[id]].sparseID == id)
      && (forall i :: 0 <= i < numElements ==>
            dense[i].sparseID < maxElements && sparse[dense[i].sparseID] == i)
    }

    /** The abstract value: each present id and the value stored for it. */
    ghost function Contents(): map<nat, T>
      reads this, sparse, dense
      requires Valid()
    {
      ContentsOf(sparse[..], dense[..])
    }

    /** The live part of the dense array, in dense (iteration) order. */
    ghost function Dense(): seq<DenseElement<T>>
      reads this, dense
      requires numElements <= dense.Length
    {
      dense[..numElements]
    }

    /** The live dense slots and the abstract map describe the same pairs: every live slot belongs to a
        present id and holds its value, and every present id owns the slot its sparse entry names. */
    lemma DenseHoldsContents()
      requires Valid()
      ensures forall i :: 0 <= i < |Dense()| ==>
                Dense()[i].sparseID in Contents() && Contents()[Dense()[i].sparseID] == Dense()[i].val
      ensures forall id :: id in Contents() ==>
                sparse[id] < |Dense()| && Dense()[sparse[id]] == DenseElement(id, Contents()[id])
    {
    }

    /** A set whose live dense order is the single pair `(id, v)` holds exactly `id`, with `v`. */
    lemma SingleContents(id: nat, v: T)
      requires Valid() && Dense() == [DenseElement(id, v)]
      ensures Contents() == map[id := v]
    {
      DenseHoldsContents();
      assert Dense()[0] == DenseElement(id, v);
      forall k | k in Contents() ensures k == id {
        assert Dense()[sparse[k]].sparseID == k;
      }
      assert Contents().Keys == {id};
    }

    /** The number of present ids is the number of live dense slots. */
    lemma ContentsCount()
      requires Valid()
      ensures |Contents()| == numElements
    {
      var owners := Owners(Dense());
      forall i, j | 0 <= i < j < |owners| ensures owners[i] != owners[j] {
        assert sparse[owners[i]] == i && sparse[owners[j]] == j;
      }
      DistinctCount(owners);
      assert Contents().Keys == Elements(owners) by {
        forall id | id in Contents().Keys ensures id in owners {
          assert owners[sparse[id]] == id;
        }
      }
    }

    /** A full set holds every id below its capacity (pigeonhole over the distinct owners). */
    lemma FullHoldsAll()
      requires Valid() && numElements == maxElements
      ensures forall id :: 0 <= id < maxElements ==> sparse[id] != nullElement
    {
      ContentsCount();
      SubsetSameCount(Contents().Keys, Below(maxElements));
      forall id | 0 <= id < maxElements ensures sparse[id] != nullElement {
        assert id in Contents().Keys;
      }
    }

    /** `std::fill_n` over a freshly allocated sparse array: every id starts absent. */
    static method NullIndex(n: nat, nullElement: nat) returns (a: array<nat>)
      ensures fresh(a) && a.Length == n
      ensures forall i :: 0 <= i < n ==> a[i] == nullElement
    {
      a := new nat[n];
      var i := 0;
      while i < n
        invariant 0 <= i <= n
        invariant forall j :: 0 <= j < i ==> a[j] == nullElement
      {
        a[i] := nullElement;
        i := i + 1;
      }
    }

    constructor (maxElements: nat, zero: T)
      ensures Valid() && fresh(sparse) && fresh(dense)
      ensures this.maxElements == maxElements && this.zero == zero
      ensures Contents() == map[] && Dense() == []
    {
      this.maxElements := maxElements;
      this.nullElement := maxElements;
      this.zero := zero;
      numElements := 0;
      var index := NullIndex(maxElements, maxElements);
      sparse := index;
      dense := new DenseElement<T>[maxElements + 1](_ => DenseElement(0, zero));
    }

    method Size() returns (n: nat)
      requires Valid()
      ensures n == |Contents()| == |Dense()|
    {
      ContentsCount();
      n := numElements;
    }

    method Capacity() returns (n: nat)
      requires Valid()
      ensures n == maxElements
      ensures forall id :: id in Contents() ==> id < n
    {
      n := maxElements;
    }

    /** Appends `(id, value)` to the dense tail; refuses an out-of-range or present id. */
    method Add(id: nat, value: T) returns (ok: bool)
      requires Valid()
      modifies this, sparse, dense
      ensures Valid() && sparse == old(sparse) && dense == old(dense)
      ensures ok <==> id < maxElements && id !in old(Contents())
      ensures ok ==> sparse[id] == old(numElements) && numElements == old(numElements) + 1
      ensures ok ==> Contents() == old(Contents())[id := value]
      ensures ok ==> Dense() == old(Dense()) + [DenseElement(id, value)]
      ensures !ok ==> Contents() == old(Contents()) && Dense() == old(Dense())
    {
      if id >= maxElements || sparse[id] != nullElement {
        return false;
      }
      if numElements == maxElements {
        FullHoldsAll();
      }
      sparse[id] := numElements;
      dense[numElements] := DenseElement(id, value);
      numElements := numElements + 1;
      ok := true;
      assert Contents() == old(Contents())[id := value] by {
        assert sparse[..] == old(sparse[..])[id := old(numElements)];
        assert dense[..] == old(dense[..])[old(numElements) := DenseElement(id, value)];
        ContentsAfterAdd(old(sparse[..]), old(dense[..]), id, old(numElements), value);
      }
    }

    /** Swap-with-tail removal: the former tail element moves into the freed slot and its owner's
        sparse entry is repointed. An absent or out-of-range id is refused (see README, Findings). */
    method Del(id: nat) returns (ok: bool)
      requires Valid()
      modifies this, sparse, dense
      ensures Valid() && sparse == old(sparse) && dense == old(dense)
      ensures ok <==> id in old(Contents())
      ensures ok ==> id < maxElements && numElements == old(numElements) - 1
      ensures ok ==> Contents() == old(Contents()) - {id}
      ensures ok ==> old(sparse[id]) < |old(Dense())| && old(Dense())[old(sparse[id])].sparseID == id
      ensures ok ==> Dense() == SwapRemove(old(Dense()), old(sparse[id]))
      ensures !ok ==> Contents() == old(Contents()) && Dense() == old(Dense())
    {
      if id >= maxElements || sparse[id] == nullElement {
        return false;
      }
      ghost var sp: seq<nat>, de: seq<DenseElement<T>> := sparse[..], dense[..];
      ghost var k := sparse[id];
      ghost var n := numElements;
      var endDense := dense[numElements - 1];
      ghost var t := endDense.sparseID;
      sparse[endDense.sparseID] := sparse[id];
      dense[sparse[id]] := endDense;
      sparse[id] := nullElement;
      numElements := numElements - 1;
      ok := true;
      assert Valid() by {
        assert sparse[..] == sp[t := k][id := nullElement];
        assert dense[..] == de[k := de[n - 1]];
        LinkedAfterDel(sp, de, n, id, t, k);
        forall j | 0 <= j < maxElements && sparse[j] != nullElement
          ensures sparse[j] < numElements && dense[sparse[j]].sparseID == j
        {
          assert sparse[j] == sparse[..][j];
        }
        forall i | 0 <= i < numElements
          ensures dense[i].sparseID < maxElements && sparse[dense[i].sparseID] == i
        {
          assert dense[i] == dense[..][i];
        }
      }
      assert Dense() == SwapRemove(old(Dense()), k) by {
        assert old(Dense()) == de[..n];
      }
      assert Contents() == old(Contents()) - {id} by {
        assert sparse[..] == sp[t := k][id := nullElement];
        assert dense[..] == de[k := de[n - 1]];
        ContentsAfterDel(sp, de, id, t, k, n - 1);
      }
    }

    /** Overwrites the value of a present id in its own dense slot; refuses an absent or out-of-range id. */
    method Set(id: nat, value: T) returns (ok: bool)
      requires Valid()
      modifies dense
      ensures Valid()
      ensures ok <==> id in old(Contents())
      ensures ok ==> Contents() == old(Contents())[id := value]
      ensures ok ==> id < maxElements && old(sparse[id]) < |old(Dense())| && old(Dense())[old(sparse[id])].sparseID == id
      ensures ok ==> Dense() == old(Dense())[old(sparse[id]) := DenseElement(id, value)]
      ensures !ok ==> Contents() == old(Contents()) && Dense() == old(Dense())
    {
      if id >= maxElements || sparse[id] == nullElement {
        return false;
      }
      dense[sparse[id]] := DenseElement(id, value);
      ok := true;
      assert Contents() == old(Contents())[id := value] by {
        forall j | j in old(Contents()) && j != id ensures Contents()[j] == old(Contents())[j] {
          assert sparse[j] != sparse[id];
        }
      }
    }

    /** The stored value of a present id; `T()` for any other id, with no error signal. */
    method Get(id: nat) returns (v: T)
      requires Valid()
      ensures id in Contents() ==> v == Contents()[id]
      ensures id !in Contents() ==> v == zero
    {
      if id >= maxElements {
        return zero;
      }
      v := dense[sparse[id]].val;
    }

    method Contains(id: nat) returns (b: bool)
      requires Valid()
      ensures b <==> id in Contents()
    {
      if id >= maxElements {
        return false;
      }
      b := sparse[id] != nullElement;
    }

    method IsEmpty() returns (b: bool)
      requires Valid()
      ensures b <==> Contents() == map[]
    {
      ContentsCount();
      b := numElements == 0;
    }

    /** Drops every entry and replaces both arrays by freshly initialised ones. */
    method Clear()
      requires Valid()
      modifies this
      ensures Valid() && fresh(sparse) && fresh(dense)
      ensures Contents() == map[] && Dense() == []
      ensures forall id :: 0 <= id < maxElements ==> sparse[id] == nullElement
    {
      numElements := 0;
      sparse := NullIndex(maxElements, nullElement);
      dense := new DenseElement<T>[maxElements + 1](_ => DenseElement(0, zero));
    }
  }

  /** `add` of an id the dense order does not hold yet, stated on the dense order alone. */
  method AddNew<T(0)>(s: SparseSet<T>, id: nat, value: T)
    requires s.Valid() && id < s.maxElements
    requires forall i :: 0 <= i < |s.Dense()| ==> s.Dense()[i].sparseID != id
    modifies s, s.sparse, s.dense
    ensures s.Valid() && s.sparse == old(s.sparse) && s.dense == old(s.dense)
    ensures s.Dense() == old(s.Dense()) + [DenseElement(id, value)]
  {
    s.DenseHoldsContents();
    var ok := s.Add(id, value);
  }

  /** `del` of the id held in dense slot `k`, stated on the dense order alone. */
  method DelAt<T(0)>(s: SparseSet<T>, id: nat, ghost k: nat) returns (ok: bool)
    requires s.Valid() && k < |s.Dense()| && s.Dense()[k].sparseID == id
    modifies s, s.sparse, s.dense
    ensures s.Valid() && s.sparse == old(s.sparse) && s.dense == old(s.dense)
    ensures ok && id !in s.Contents()
    ensures s.Dense() == SwapRemove(old(s.Dense()), k)
  {
    ok := s.Del(id);
  }

  /** Tests.cpp:79-106, over any six values: after adding ids 0 to 5, `del(1)`, `del(3)` and
      `del(5)` leave the dense order of ids 0, 4, 2 ("Boop", "Am", "Sheep" in the test); a deleted id
      reads as the default, and after three more deletions the set is empty. Every deletion
      succeeds. */
  method DeleteScenario<T(0)>(zero: T, v0: T, v1: T, v2: T, v3: T, v4: T, v5: T)
    returns (deleted: seq<bool>, order: seq<T>, three: T, four: T, empty: bool)
    ensures deleted == [true, true, true, true, true, true]
    ensures order == [v0, v4, v2]
    ensures three == zero && four == v4 && empty
  {
    var s := SixAdded(zero, v0, v1, v2, v3, v4, v5);
    var first := FirstDeletions(s, v0, v1, v2, v3, v4, v5);
    three := s.Get(3);
    order := [s.dense[0].val, s.dense[1].val, s.dense[2].val];
    var last;
    last, four, empty := LastDeletions(s, v0, v2, v4);
    deleted := first + last;
  }

  /** `del(1)`, `del(3)`, `del(5)` of the scenario above: each deleted id is replaced by the tail of
      the dense order. */
  method FirstDeletions<T(0)>(s: SparseSet<T>, v0: T, v1: T, v2: T, v3: T, v4: T, v5: T) returns (deleted: seq<bool>)
    requires s.Valid()
    requires s.Dense() == [DenseElement(0, v0), DenseElement(1, v1), DenseElement(2, v2),
                           DenseElement(3, v3), DenseElement(4, v4), DenseElement(5, v5)]
    modifies s, s.sparse, s.dense
    ensures s.Valid() && s.sparse == old(s.sparse) && s.dense == old(s.dense)
    ensures deleted == [true, true, true] && 3 !in s.Contents()
    ensures s.Dense() == [DenseElement(0, v0), DenseElement(4, v4), DenseElement(2, v2)]
  {
    var e0, e2, e4, e5 := DenseElement(0, v0), DenseElement(2, v2), DenseElement(4, v4), DenseElement(5, v5);
    var d1 := DelAt(s, 1, 1);
    assert s.Dense() == [e0, e5, e2, DenseElement(3, v3), e4];
    var d3 := DelAt(s, 3, 3);
    assert s.Dense() == [e0, e5, e2, e4];
    var d5 := DelAt(s, 5, 1);
    assert s.Dense() == [e0, e4, e2];
    deleted := [d1, d3, d5];
  }

  /** `del(2)`, `del(0)`, `get(4)`, `del(4)` and `is_empty()` of the scenario above. */
  method LastDeletions<T(0)>(s: SparseSet<T>, v0: T, v2: T, v4: T) returns (deleted: seq<bool>, four: T, empty: bool)
    requires s.Valid()
    requires s.Dense() == [DenseElement(0, v0), DenseElement(4, v4), DenseElement(2, v2)]
    modifies s, s.sparse, s.dense
    ensures deleted == [true, true, true] && four == v4 && empty
  {
    var d2 := DelAt(s, 2, 2);
    assert s.Dense() == [DenseElement(0, v0), DenseElement(4, v4)];
    var d0 := DelAt(s, 0, 0);
    assert s.Dense() == [DenseElement(4, v4)];
    s.DenseHoldsContents();
    four := s.Get(4);
    var d4 := DelAt(s, 4, 0);
    s.ContentsCount();
    empty := s.IsEmpty();
    deleted := [d2, d0, d4];
  }

  /** The six additions of the scenario above, into a set of capacity 10. */
  method SixAdded<T(0)>(zero: T, v0: T, v1: T, v2: T, v3: T, v4: T, v5: T) returns (s: SparseSet<T>)
    ensures fresh(s) && fresh(s.sparse) && fresh(s.dense) && s.Valid() && s.zero == zero
    ensures s.Dense() == [DenseElement(0, v0), DenseElement(1, v1), DenseElement(2, v2),
                          DenseElement(3, v3), DenseElement(4, v4), DenseElement(5, v5)]
  {
    s := new SparseSet<T>(10, zero);
    AddNew(s, 0, v0);
    AddNew(s, 1, v1);
    assert s.Dense() == [DenseElement(0, v0), DenseElement(1, v1)];
    AddNew(s, 2, v2);
    ThreeMore(s, v0, v1, v2, v3, v4, v5);
  }

  /** Ids 3, 4 and 5 added behind ids 0, 1 and 2. */
  method ThreeMore<T(0)>(s: SparseSet<T>, v0: T, v1: T, v2: T, v3: T, v4: T, v5: T)
    requires s.Valid() && s.maxElements == 10
    requires s.Dense() == [DenseElement(0, v0), DenseElement(1, v1), DenseElement(2, v2)]
    modifies s, s.sparse, s.dense
    ensures s.Valid() && s.sparse == old(s.sparse) && s.dense == old(s.dense)
    ensures s.Dense() == [DenseElement(0, v0), DenseElement(1, v1), DenseElement(2, v2),
                          DenseElement(3, v3), DenseElement(4, v4), DenseElement(5, v5)]
  {
    AddNew(s, 3, v3);
    AddNew(s, 4, v4);
    assert s.Dense() == [DenseElement(0, v0), DenseElement(1, v1), DenseElement(2, v2), DenseElement(3, v3), DenseElement(4, v4)];
    AddNew(s, 5, v5);
  }

  /** A value copy of a sparse set's state, used to run `del` exactly as the source writes it. */
  datatype Snapshot<T> = Snapshot(sparse: seq<nat>, dense: seq<DenseElement<T>>, numElements: nat)

  /** `del` as written (SparseSet.hpp:61-73): only `id == nullElement` is refused, the tail index
      `numElements - 1` is 32-bit unsigned arithmetic, and there is no presence check. `None` stands
      for an array access out of bounds. */
  function DelAsWritten<T>(s: Snapshot<T>, id: nat): (r: Option<(bool, Snapshot<T>)>)
    ensures r.Some? && r.value.0 ==> id < |s.sparse| == |r.value.1.sparse| && r.value.1.sparse[id] == |s.sparse|
  {
    var nullElement := |s.sparse|;
    var last := (s.numElements + 0xFFFF_FFFF) % 0x1_0000_0000;
    if id == nullElement then Some((false, s))
    else if id >= |s.sparse| || last >= |s.dense| || s.dense[last].sparseID >= |s.sparse| then None
    else
      var endDense := s.dense[last];
      var sparse1 := s.sparse[endDense.sparseID := s.sparse[id]];
      if sparse1[id] >= |s.dense| then None
      else
        var dense1 := s.dense[sparse1[id] := endDense];
        Some((true, Snapshot(sparse1[id := nullElement], dense1, last)))
  }

  /** Deleting an absent id from {0: "a"} (capacity 2) reports success, makes id 0 absent although it
      was never deleted, and leaves "a" in the slot absent ids read through; on an empty set the tail
      index wraps to 2^32 - 1 and the read is out of bounds. */
  lemma DelAsWrittenCounterexample()
    ensures var before := Snapshot([0, 2], [DenseElement(0, "a"), DenseElement(0, ""), DenseElement(0, "")], 1);
            var r := DelAsWritten(before, 1);
            && r.Some? && r.value.0
            && r.value.1.sparse[0] == 2
            && r.value.1.dense[2].val == "a"
    ensures var empty: Snapshot<string> := Snapshot([2, 2], [DenseElement(0, ""), DenseElement(0, ""), DenseElement(0, "")], 0);
            DelAsWritten(empty, 0).None?
  {
  }
}
