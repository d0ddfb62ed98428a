/**
 The Nautilus corpus queue: stored items, items set aside until the next round, and an
 index from coverage bits to the ids of the stored items that cover them.
 */
module Queues {
  import opened Grammars
  import opened Bitmaps
  import opened OptionCounts
  import opened Trees
  import opened Recursions

  /** The stages of an item: being minimized, deterministic mutation, random mutation. */
  datatype ItemState = InitState(start: nat) | DetState(cycle: nat, start: nat) | RandomState

  /** A corpus item. Its id and coverage never change; its tree and state do. */
  class QueueItem {
    const id: nat
    const freshBits: set<nat>
    const allBits: seq<Byte>
    var tree: Tree
    var state: ItemState
    var recursions: Option<seq<RecursionInfo>>

    constructor (id: nat, tree: Tree, freshBits: set<nat>, allBits: seq<Byte>)
      ensures this.id == id && this.freshBits == freshBits && this.allBits == allBits
      ensures this.tree == tree && state == InitState(0) && recursions == None
    {
      this.id, this.tree, this.freshBits, this.allBits := id, tree, freshBits, allBits;
      state, recursions := InitState(0), None;
    }
  }

  type Index = map<nat, seq<nat>>

  predicate Sets(bits: seq<Byte>, b: nat) {
    b < |bits| && bits[b] != 0
  }

  /** The bits set in `bits` that no stored item covers. */
  function FreshBits(bits: seq<Byte>, index: Index): set<nat> {
    set b: nat | 0 <= b < |bits| && bits[b] != 0 && b !in index
  }

  /** The index after an item with these bits is stored. */
  function Indexed(index: Index, bits: seq<Byte>, id: nat): Index {
    map b: nat | b in index.Keys + (set k: nat | 0 <= k < |bits| && bits[k] != 0) ::
      (if b in index then index[b] else []) + (if Sets(bits, b) then [id] else [])
  }

  /** `ids` without `id`. */
  function Without(ids: seq<nat>, id: nat): seq<nat> {
    if ids == [] then []
    else Without(ids[..|ids| - 1], id) + (if ids[|ids| - 1] == id then [] else [ids[|ids| - 1]])
  }

  /** The index after an item is taken out; bits nobody covers any more disappear. */
  function Unindexed(index: Index, id: nat): Index {
    map b | b in index && Without(index[b], id) != [] :: Without(index[b], id)
  }

  /** The queue's containers, as one value. */
  datatype QueueState = QueueState(inputs: seq<QueueItem>, processed: seq<QueueItem>, index: Index, currentId: nat)

  function NextId(id: nat): nat {
    if id == SIZE_MAX then 0 else id + 1
  }

  /** Storing a new item, if it covers a bit that no stored item covers. */
  function AddSpec(q: QueueState, item: QueueItem): QueueState {
    if FreshBits(item.allBits, q.index) == {} then q
    else QueueState(q.inputs + [item], q.processed, Indexed(q.index, item.allBits, item.id), NextId(q.currentId))
  }

  function PopSpec(q: QueueState): QueueState
    requires q.inputs != []
  {
    var last := |q.inputs| - 1;
    QueueState(q.inputs[..last], q.processed, Unindexed(q.index, q.inputs[last].id), q.currentId)
  }

  /** Setting a popped item aside for the next round, unless the others cover all its bits. */
  function FinishedSpec(q: QueueState, item: QueueItem): QueueState {
    if FreshBits(item.allBits, q.index) == {} then q
    else QueueState(q.inputs, q.processed + [item], Indexed(q.index, item.allBits, item.id), q.currentId)
  }

  function NewRoundSpec(q: QueueState): QueueState {
    QueueState(q.inputs + q.processed, [], q.index, q.currentId)
  }

  class Queue {
    var inputs: seq<QueueItem>
    var processed: seq<QueueItem>
    var bitToInputs: Index
    var currentId: nat

    constructor ()
      ensures State() == QueueState([], [], map[], 0)
    {
      inputs, processed, bitToInputs, currentId := [], [], map[], 0;
    }

    function State(): QueueState
      reads this
    {
      QueueState(inputs, processed, bitToInputs, currentId)
    }

    predicate IsEmpty()
      reads this
    {
      |inputs| == 0
    }

    /** The first loop of `Add` and `Finished`: does the index know every bit that is set? */
    method AllKnown(bits: seq<Byte>) returns (allZero: bool)
      ensures allZero <==> FreshBits(bits, bitToInputs) == {}
    {
      var i := 0;
      while i < |bits|
        invariant 0 <= i <= |bits|
        invariant forall b :: 0 <= b < i ==> bits[b] == 0 || b in bitToInputs
      {
        if bits[i] != 0 && i !in bitToInputs {
          assert i in FreshBits(bits, bitToInputs);
          return false;
        }
        i := i + 1;
      }
      return true;
    }

    /** The second loop of `Add` and `Finished`: enters the id under every bit that is set. */
    method IndexBits(bits: seq<Byte>, id: nat) returns (freshBits: set<nat>)
      modifies this`bitToInputs
      ensures bitToInputs == Indexed(old(bitToInputs), bits, id)
      ensures freshBits == FreshBits(bits, old(bitToInputs))
    {
      ghost var index := bitToInputs;
      freshBits := {};
      hide Indexed, FreshBits;
      IndexedNone(index, bits[..0], id);
      var i := 0;
      while i < |bits|
        invariant 0 <= i <= |bits|
        invariant bitToInputs == Indexed(index, bits[..i], id)
        invariant freshBits == FreshBits(bits[..i], index)
      {
        var next := i + 1;
        IndexedNext(index, bits, i, next, id);
        if bits[i] != 0 {
          if i !in bitToInputs {
            freshBits := freshBits + {i};
            bitToInputs := bitToInputs[i := []];
          }
          bitToInputs := bitToInputs[i := bitToInputs[i] + [id]];
        }
        i := next;
      }
      assert bits[..i] == bits;
    }

    /**
     Stores a new item under the queue's current id if it covers a bit that no stored item
     covers. `item` is what was stored, if anything was.
     */
    method Add(tree: Tree, allBits: seq<Byte>) returns (ghost item: QueueItem?)
      modifies this
      ensures item == null <==> FreshBits(allBits, old(bitToInputs)) == {}
      ensures item == null ==> State() == old(State())
      ensures item != null ==>
        && fresh(item) && item.id == old(currentId) && item.allBits == allBits
        && item.freshBits == FreshBits(allBits, old(bitToInputs))
        && item.tree == tree && item.state == InitState(0) && item.recursions == None
        && State() == AddSpec(old(State()), item)
    {
      var allZero := AllKnown(allBits);
      if allZero {
        return null;
      }
      var freshBits := IndexBits(allBits, currentId);
      var newItem := new QueueItem(currentId, tree, freshBits, allBits);
      inputs := inputs + [newItem];
      if currentId == SIZE_MAX {
        currentId := 0;
      } else {
        currentId := currentId + 1;
      }
      return newItem;
    }

    /** Takes the last item out and forgets what only it covered. */
    method Pop() returns (item: QueueItem)
      requires !IsEmpty()
      modifies this
      ensures item == old(inputs)[|old(inputs)| - 1]
      ensures State() == PopSpec(old(State()))
    {
      item := inputs[|inputs| - 1];
      inputs := inputs[..|inputs| - 1];
      var id := item.id;
      ghost var index := bitToInputs;
      var todo := bitToInputs.Keys;
      while todo != {}
        invariant todo <= index.Keys && todo <= bitToInputs.Keys
        invariant inputs == old(inputs)[..|old(inputs)| - 1] && unchanged(`processed) && unchanged(`currentId)
        invariant forall b :: b in todo ==> bitToInputs[b] == index[b]
        invariant forall b :: b in bitToInputs && b !in todo ==>
          b in index && Without(index[b], id) != [] && bitToInputs[b] == Without(index[b], id)
        invariant forall b :: b in index && b !in todo && Without(index[b], id) != [] ==> b in bitToInputs
        decreases todo
      {
        var b :| b in todo;
        var v := RemoveId(bitToInputs[b], id);
        if v == [] {
          bitToInputs := bitToInputs - {b};
        } else {
          bitToInputs := bitToInputs[b := v];
        }
        todo := todo - {b};
      }
      assert bitToInputs == Unindexed(index, id);
    }

    /** The `remove_if` of `Pop`. */
    static method RemoveId(ids: seq<nat>, id: nat) returns (r: seq<nat>)
      ensures r == Without(ids, id)
    {
      r := [];
      var i := 0;
      while i < |ids|
        invariant 0 <= i <= |ids| && r == Without(ids[..i], id)
      {
        assert ids[..i + 1][..i] == ids[..i];
        if ids[i] != id {
          r := r + [ids[i]];
        }
        i := i + 1;
      }
      assert ids[..i] == ids;
    }

    /** Keeps a processed item for the next round, or drops it if the others cover all its bits. */
    method Finished(item: QueueItem)
      modifies this
      ensures inputs == old(inputs)
      ensures State() == FinishedSpec(old(State()), item)
    {
      var allZero := AllKnown(item.allBits);
      if allZero {
        return;
      }
      var freshBits := IndexBits(item.allBits, item.id);
      processed := processed + [item];
    }

    method NewRound()
      modifies this
      ensures State() == NewRoundSpec(old(State()))
    {
      inputs := inputs + processed;
      processed := [];
    }
  }

  lemma IndexedNone(index: Index, bits: seq<Byte>, id: nat)
    requires bits == []
    ensures Indexed(index, bits, id) == index && FreshBits(bits, index) == {}
  {
    forall b | b in index ensures Indexed(index, bits, id)[b] == index[b] {
      assert index[b] + [] == index[b];
    }
  }

  lemma IndexedNext(index: Index, bits: seq<Byte>, i: nat, next: nat, id: nat)
    requires i < |bits| && next == i + 1
    ensures i in Indexed(index, bits[..i], id) <==> i in index
    ensures i in index ==> Indexed(index, bits[..i], id)[i] == index[i]
    ensures Indexed(index, bits[..next], id) ==
      if bits[i] != 0 then Indexed(index, bits[..i], id)[i := (if i in index then index[i] else []) + [id]]
      else Indexed(index, bits[..i], id)
    ensures FreshBits(bits[..next], index) ==
      FreshBits(bits[..i], index) + if bits[i] != 0 && i !in index then {i} else {}
  {
    var a, b := Indexed(index, bits[..i], id), Indexed(index, bits[..next], id);
    assert i in index ==> index[i] + [] == index[i];
  }

  // -------------------------------------------------------- the index, recomputed

  predicate Covers(item: QueueItem, b: nat) {
    Sets(item.allBits, b)
  }

  /** The ids of the items that cover bit `b`. */
  ghost function Coverers(items: seq<QueueItem>, b: nat): multiset<nat> {
    if items == [] then multiset{}
    else Coverers(items[..|items| - 1], b) + if Covers(items[|items| - 1], b) then multiset{items[|items| - 1].id} else multiset{}
  }

  /** The index agrees with the one recomputed from the items: same keys, same ids under each. */
  ghost predicate Agrees(items: seq<QueueItem>, index: Index) {
    && (forall b :: b in index <==> Coverers(items, b) != multiset{})
    && (forall b :: b in index ==> multiset(index[b]) == Coverers(items, b))
  }

  /** The items have different ids. */
  ghost predicate Distinct(items: seq<QueueItem>) {
    forall j, k :: 0 <= j < k < |items| ==> items[j].id != items[k].id
  }

  lemma {:induction false} CoverersAppend(a: seq<QueueItem>, c: seq<QueueItem>, b: nat)
    ensures Coverers(a + c, b) == Coverers(a, b) + Coverers(c, b)
  {
    if c == [] {
      assert a + c == a;
    } else {
      assert (a + c)[..|a + c| - 1] == a + c[..|c| - 1];
      CoverersAppend(a, c[..|c| - 1], b);
    }
  }

  lemma {:induction false} CoverersIds(items: seq<QueueItem>, b: nat, id: nat)
    requires id in Coverers(items, b)
    ensures exists k :: 0 <= k < |items| && items[k].id == id && Covers(items[k], b)
  {
    if items != [] {
      var last := |items| - 1;
      if !(Covers(items[last], b) && items[last].id == id) {
        CoverersIds(items[..last], b, id);
      }
    }
  }

  lemma {:induction false} CoverersHas(items: seq<QueueItem>, b: nat, k: nat)
    requires k < |items| && Covers(items[k], b)
    ensures items[k].id in Coverers(items, b)
  {
    if k < |items| - 1 { CoverersHas(items[..|items| - 1], b, k); }
  }

  lemma {:induction false} WithoutMultiset(ids: seq<nat>, id: nat)
    ensures multiset(Without(ids, id)) == multiset(ids)[id := 0]
  {
    if ids != [] {
      var last := |ids| - 1;
      WithoutMultiset(ids[..last], id);
      assert ids == ids[..last] + [ids[last]];
    }
  }

  /** Removing an id keeps the order of the others. */
  lemma {:induction false} WithoutAppend(a: seq<nat>, b: seq<nat>, id: nat)
    ensures Without(a + b, id) == Without(a, id) + Without(b, id)
  {
    if b == [] {
      assert a + b == a;
    } else {
      assert (a + b)[..|a + b| - 1] == a + b[..|b| - 1];
      WithoutAppend(a, b[..|b| - 1], id);
    }
  }

  /** Storing an item keeps the index in agreement. */
  lemma IndexedAgrees(a: seq<QueueItem>, c: seq<QueueItem>, index: Index, item: QueueItem)
    requires Agrees(a + c, index)
    ensures Agrees(a + [item] + c, Indexed(index, item.allBits, item.id))
  {
    hide *;
    forall b: nat ensures AgreesAt(a + [item] + c, Indexed(index, item.allBits, item.id), b) {
      CoverersInsert(a, c, item, b);
      IndexedAt(index, item.allBits, item.id, b);
      AgreesOne(a + c, index, b);
      AgreesStep(a + c, a + [item] + c, index, item, b);
    }
    AgreesAll(a + [item] + c, Indexed(index, item.allBits, item.id));
  }

  /** `Agrees` for one bit. */
  ghost predicate AgreesAt(items: seq<QueueItem>, index: Index, b: nat) {
    if b in index then Coverers(items, b) != multiset{} && multiset(index[b]) == Coverers(items, b)
    else Coverers(items, b) == multiset{}
  }

  lemma AgreesOne(items: seq<QueueItem>, index: Index, b: nat)
    requires Agrees(items, index)
    ensures AgreesAt(items, index, b)
  {
  }

  lemma AgreesAll(items: seq<QueueItem>, index: Index)
    requires forall b: nat :: AgreesAt(items, index, b)
    ensures Agrees(items, index)
  {
    hide Coverers;
    forall b: nat ensures b in index <==> Coverers(items, b) != multiset{} {
      assert AgreesAt(items, index, b);
    }
    forall b | b in index ensures multiset(index[b]) == Coverers(items, b) {
      assert AgreesAt(items, index, b);
    }
  }

  lemma AgreesStep(items: seq<QueueItem>, items': seq<QueueItem>, index: Index, item: QueueItem, b: nat)
    requires AgreesAt(items, index, b)
    requires Coverers(items', b) == Coverers(items, b) + if Covers(item, b) then multiset{item.id} else multiset{}
    ensures AgreesAt(items', Indexed(index, item.allBits, item.id), b)
  {
    IndexedAt(index, item.allBits, item.id, b);
    hide Indexed, Coverers;
    var was := if b in index then index[b] else [];
    if Covers(item, b) {
      assert multiset(was + [item.id]) == multiset(was) + multiset{item.id};
      assert item.id in Coverers(items', b);
    } else {
      assert was + [] == was;
    }
  }

  lemma CoverersInsert(a: seq<QueueItem>, c: seq<QueueItem>, item: QueueItem, b: nat)
    ensures Coverers(a + [item] + c, b) == Coverers(a + c, b) + if Covers(item, b) then multiset{item.id} else multiset{}
  {
    CoverersAppend(a + [item], c, b);
    CoverersAppend(a, [item], b);
    CoverersAppend(a, c, b);
  }

  lemma IndexedAt(index: Index, bits: seq<Byte>, id: nat, b: nat)
    ensures b in Indexed(index, bits, id) <==> b in index || Sets(bits, b)
    ensures b in Indexed(index, bits, id) ==>
      Indexed(index, bits, id)[b] == (if b in index then index[b] else []) + (if Sets(bits, b) then [id] else [])
  {
  }

  lemma DistinctFrom(a: seq<QueueItem>, item: QueueItem, c: seq<QueueItem>)
    requires Distinct(a + [item] + c)
    ensures forall k :: 0 <= k < |a + c| ==> (a + c)[k].id != item.id
  {
    var all := a + [item] + c;
    forall k | 0 <= k < |a + c| ensures (a + c)[k].id != item.id {
      assert all[|a|] == item;
      if k < |a| { assert all[k] == (a + c)[k]; } else { assert all[k + 1] == (a + c)[k]; }
    }
  }
}
