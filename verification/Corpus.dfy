/**
 Whole runs of the corpus: the queue together with the items that were popped and are still
 being processed. The index stays the one recomputed from the stored items, and no bit that
 an item covers is ever lost.
 */
module Corpora {
  import opened Bitmaps
  import OptionCounts
  import opened Queues

  datatype Corpus = Corpus(queue: QueueState, flight: seq<QueueItem>)

  /** What the fuzzer does to the corpus. `Store` carries the item `Add` makes if it stores one. */
  datatype Step = Store(item: QueueItem) | Take | Finish(k: nat) | Restart

  function Stored(c: Corpus): seq<QueueItem> {
    c.queue.inputs + c.queue.processed
  }

  function Live(c: Corpus): seq<QueueItem> {
    Stored(c) + c.flight
  }

  predicate IdFree(items: seq<QueueItem>, id: nat) {
    forall x :: x in items ==> x.id != id
  }

  /** A step the caller may take. A new item is stored under the current id. */
  predicate Offered(c: Corpus, step: Step) {
    match step
    case Store(item) => item.id == c.queue.currentId
    case Take => c.queue.inputs != []
    case Finish(k) => k < |c.flight|
    case Restart => true
  }

  /** The same, where no live item uses the current id when a new item is stored. */
  predicate Allowed(c: Corpus, step: Step) {
    Offered(c, step) && (step.Store? ==> IdFree(Live(c), c.queue.currentId))
  }

  function Next(c: Corpus, step: Step): Corpus
    requires Offered(c, step)
  {
    match step
    case Store(item) => Corpus(AddSpec(c.queue, item), c.flight)
    case Take => Corpus(PopSpec(c.queue), c.flight + [c.queue.inputs[|c.queue.inputs| - 1]])
    case Finish(k) => Corpus(FinishedSpec(c.queue, c.flight[k]), c.flight[..k] + c.flight[k + 1..])
    case Restart => Corpus(NewRoundSpec(c.queue), c.flight)
  }

  ghost predicate Covered(items: seq<QueueItem>, b: nat) {
    exists x :: x in items && Covers(x, b)
  }

  ghost predicate Inv(c: Corpus) {
    Agrees(Stored(c), c.queue.index) && Distinct(Live(c))
  }

  // -------------------------------------------------------------- different ids

  lemma DistinctInsert(a: seq<QueueItem>, item: QueueItem, c: seq<QueueItem>)
    requires Distinct(a + c) && IdFree(a + c, item.id)
    ensures Distinct(a + [item] + c)
  {
    var less, all := a + c, a + [item] + c;
    forall j, k | 0 <= j < k < |all| ensures all[j].id != all[k].id {
      var j' := if j < |a| then j else j - 1;
      var k' := if k < |a| then k else k - 1;
      assert j != |a| ==> all[j] == less[j'];
      assert k != |a| ==> all[k] == less[k'];
      assert all[|a|] == item;
    }
  }

  lemma DistinctRemove(a: seq<QueueItem>, item: QueueItem, c: seq<QueueItem>)
    requires Distinct(a + [item] + c)
    ensures Distinct(a + c) && IdFree(a + c, item.id)
  {
    var less, all := a + c, a + [item] + c;
    forall j, k | 0 <= j < k < |less| ensures less[j].id != less[k].id {
      var j' := if j < |a| then j else j + 1;
      var k' := if k < |a| then k else k + 1;
      assert all[j'] == less[j] && all[k'] == less[k];
    }
    DistinctFrom(a, item, c);
    forall x | x in less ensures x.id != item.id {
      var k :| 0 <= k < |less| && less[k] == x;
    }
  }

  /** An item changes place. */
  lemma DistinctMove(all: seq<QueueItem>, a: seq<QueueItem>, item: QueueItem, c: seq<QueueItem>,
                     all': seq<QueueItem>, a': seq<QueueItem>, c': seq<QueueItem>)
    requires all == a + [item] + c && all' == a' + [item] + c' && a + c == a' + c'
    requires Distinct(all)
    ensures Distinct(all')
  {
    hide Distinct;
    DistinctRemove(a, item, c);
    DistinctInsert(a', item, c');
  }

  // ------------------------------------------------------------------ coverage

  lemma CoveredIffIndexed(items: seq<QueueItem>, index: Index, b: nat)
    requires Agrees(items, index)
    ensures b in index <==> Covered(items, b)
  {
    hide *;
    AgreesOne(items, index, b);
    CoverersMeaning(items, b);
    AgreesKey(items, index, b);
  }

  lemma AgreesKey(items: seq<QueueItem>, index: Index, b: nat)
    requires AgreesAt(items, index, b)
    ensures b in index <==> Coverers(items, b) != multiset{}
  {
  }

  lemma CoverersMeaning(items: seq<QueueItem>, b: nat)
    ensures Covered(items, b) <==> Coverers(items, b) != multiset{}
  {
    if Covered(items, b) {
      var x :| x in items && Covers(x, b);
      var k :| 0 <= k < |items| && items[k] == x;
      CoverersHas(items, b, k);
    }
    if Coverers(items, b) != multiset{} {
      var id :| id in Coverers(items, b);
      CoverersIds(items, b, id);
    }
  }

  /**
   The test `Add` and `Finished` make: an item is dropped exactly if the stored items cover
   every bit it covers.
   */
  lemma DroppedIffRedundant(c: Corpus, item: QueueItem)
    requires Inv(c)
    ensures FreshBits(item.allBits, c.queue.index) == {} <==>
      forall b :: Covers(item, b) ==> Covered(Stored(c), b)
  {
    var index, unseen := c.queue.index, FreshBits(item.allBits, c.queue.index);
    hide Agrees, Covered;
    forall b ensures b in unseen <==> Covers(item, b) && !Covered(Stored(c), b) {
      CoveredIffIndexed(Stored(c), index, b);
    }
  }

  // ------------------------------------------------------------------ one step

  lemma StoreKeeps(c: Corpus, item: QueueItem, c': Corpus)
    requires Inv(c) && Allowed(c, Store(item)) && c' == Next(c, Store(item))
    ensures Inv(c')
  {
    var q := c.queue;
    hide Agrees, Distinct, FreshBits, Indexed, IdFree;
    if FreshBits(item.allBits, q.index) != {} {
      IndexedAgrees(q.inputs, q.processed, q.index, item);
      assert q.inputs + (q.processed + c.flight) == Live(c);
      DistinctInsert(q.inputs, item, q.processed + c.flight);
      assert q.inputs + [item] + (q.processed + c.flight) == Live(c');
    }
  }

  lemma TakeKeeps(c: Corpus, c': Corpus)
    requires Inv(c) && Allowed(c, Take) && c' == Next(c, Take)
    ensures Inv(c')
  {
    var q := c.queue;
    var rest, item := q.inputs[..|q.inputs| - 1], q.inputs[|q.inputs| - 1];
    hide Agrees, Distinct, Unindexed, IdFree;
    assert Stored(c) == rest + [item] + q.processed;
    assert Live(c) == rest + [item] + (q.processed + c.flight);
    assert Live(c') == (rest + q.processed + c.flight) + [item] + [];
    assert rest + (q.processed + c.flight) == (rest + q.processed + c.flight) + [];
    DistinctMove(Live(c), rest, item, q.processed + c.flight, Live(c'), rest + q.processed + c.flight, []);
    DistinctPrefix(rest + [item] + q.processed, c.flight);
    DistinctRemove(rest, item, q.processed);
    OwnIdFree(rest + q.processed, item.id);
    PopNeedsOwnId(rest, q.processed, q.index, item);
  }

  lemma OwnIdFree(items: seq<QueueItem>, id: nat)
    requires IdFree(items, id)
    ensures OwnId(items, id)
  {
  }

  lemma DistinctPrefix(a: seq<QueueItem>, c: seq<QueueItem>)
    requires Distinct(a + c)
    ensures Distinct(a)
  {
    forall j, k | 0 <= j < k < |a| ensures a[j].id != a[k].id {
      assert (a + c)[j] == a[j] && (a + c)[k] == a[k];
    }
  }

  lemma DropKeeps(c: Corpus, k: nat, c': Corpus)
    requires Inv(c) && k < |c.flight| && c' == Corpus(c.queue, c.flight[..k] + c.flight[k + 1..])
    ensures Inv(c')
  {
    var front, item, back := c.flight[..k], c.flight[k], c.flight[k + 1..];
    hide Agrees, Distinct, IdFree;
    assert Live(c) == (Stored(c) + front) + [item] + back by {
      assert c.flight == front + [item] + back;
    }
    DistinctRemove(Stored(c) + front, item, back);
    assert Live(c') == Stored(c) + front + back;
  }

  lemma KeepKeeps(c: Corpus, k: nat, c': Corpus)
    requires Inv(c) && k < |c.flight|
    requires
      var q, item := c.queue, c.flight[k];
      && c'.queue == QueueState(q.inputs, q.processed + [item], Indexed(q.index, item.allBits, item.id), q.currentId)
      && c'.flight == c.flight[..k] + c.flight[k + 1..]
    ensures Inv(c')
  {
    var front, item, back := c.flight[..k], c.flight[k], c.flight[k + 1..];
    hide Agrees, Distinct, Indexed;
    assert Live(c) == (Stored(c) + front) + [item] + back by {
      assert c.flight == front + [item] + back;
    }
    assert Live(c') == Stored(c) + [item] + (front + back);
    assert (Stored(c) + front) + back == Stored(c) + (front + back);
    DistinctMove(Live(c), Stored(c) + front, item, back, Live(c'), Stored(c), front + back);
    StoredAtEnd(Stored(c), c.queue.index, item, Stored(c'), c'.queue.index);
  }

  lemma StoredAtEnd(items: seq<QueueItem>, index: Index, item: QueueItem, items': seq<QueueItem>, index': Index)
    requires Agrees(items, index) && items' == items + [item] && index' == Indexed(index, item.allBits, item.id)
    ensures Agrees(items', index')
  {
    hide *;
    assert items == items + [];
    assert items' == items + [item] + [];
    IndexedAgrees(items, [], index, item);
  }

  lemma FinishKeeps(c: Corpus, k: nat, c': Corpus)
    requires Inv(c) && Allowed(c, Finish(k)) && c' == Next(c, Finish(k))
    ensures Inv(c')
  {
    hide Inv, FreshBits, Indexed;
    if FreshBits(c.flight[k].allBits, c.queue.index) == {} {
      DropKeeps(c, k, c');
    } else {
      KeepKeeps(c, k, c');
    }
  }

  lemma RestartKeeps(c: Corpus, c': Corpus)
    requires Inv(c) && c' == Next(c, Restart)
    ensures Inv(c')
  {
    hide Agrees, Distinct;
    assert Stored(c') == Stored(c);
  }

  /** Every step keeps the index in agreement with the stored items and the ids different. */
  lemma StepKeeps(c: Corpus, step: Step)
    requires Inv(c) && Allowed(c, step)
    ensures Inv(Next(c, step))
  {
    hide Inv, Next;
    match step
    case Store(item) => StoreKeeps(c, item, Next(c, step));
    case Take => TakeKeeps(c, Next(c, step));
    case Finish(k) => FinishKeeps(c, k, Next(c, step));
    case Restart => RestartKeeps(c, Next(c, step));
  }

  // -------------------------------------------- coverage, whatever the ids are

  /** The index promises nothing the items do not keep: every id under a bit is one that covers it. */
  ghost predicate Backed(items: seq<QueueItem>, index: Index) {
    forall b: nat :: BackedAt(items, index, b)
  }

  ghost predicate BackedAt(items: seq<QueueItem>, index: Index, b: nat) {
    b in index ==> index[b] != [] && multiset(index[b]) <= Coverers(items, b)
  }

  lemma BackedCovered(items: seq<QueueItem>, index: Index, b: nat)
    requires BackedAt(items, index, b) && b in index
    ensures Covered(items, b)
  {
    assert index[b][0] in multiset(index[b]);
    assert Coverers(items, b) != multiset{};
    CoverersMeaning(items, b);
  }

  lemma BackedMore(items: seq<QueueItem>, items': seq<QueueItem>, index: Index, item: QueueItem, b: nat)
    requires BackedAt(items, index, b)
    requires Coverers(items', b) == Coverers(items, b) + if Covers(item, b) then multiset{item.id} else multiset{}
    ensures BackedAt(items', Indexed(index, item.allBits, item.id), b)
  {
    IndexedAt(index, item.allBits, item.id, b);
    hide Indexed, Coverers;
    var was := if b in index then index[b] else [];
    if Covers(item, b) {
      assert multiset(was + [item.id]) == multiset(was) + multiset{item.id};
    } else {
      assert was + [] == was;
    }
  }

  lemma BackedLess(items: seq<QueueItem>, items': seq<QueueItem>, index: Index, item: QueueItem, b: nat)
    requires BackedAt(items, index, b)
    requires Coverers(items, b) == Coverers(items', b) + if Covers(item, b) then multiset{item.id} else multiset{}
    ensures BackedAt(items', Unindexed(index, item.id), b)
  {
    hide Coverers, Covers;
    if b in index {
      WithoutMultiset(index[b], item.id);
    }
  }

  /** Every step keeps the index backed, also one that reuses an id. */
  lemma StepBacks(c: Corpus, step: Step)
    requires Backed(Stored(c), c.queue.index) && Offered(c, step)
    ensures Backed(Stored(Next(c, step)), Next(c, step).queue.index)
  {
    hide BackedAt, FreshBits, Indexed, Unindexed, Covers, Coverers;
    var q, c' := c.queue, Next(c, step);
    match step {
      case Store(item) =>
        if c'.queue != q {
          forall b: nat ensures BackedAt(Stored(c'), c'.queue.index, b) {
            CoverersInsert(q.inputs, q.processed, item, b);
            BackedMore(Stored(c), Stored(c'), q.index, item, b);
          }
        }
      case Take =>
        var rest, item := q.inputs[..|q.inputs| - 1], q.inputs[|q.inputs| - 1];
        assert Stored(c) == rest + [item] + q.processed;
        forall b: nat ensures BackedAt(Stored(c'), c'.queue.index, b) {
          CoverersInsert(rest, q.processed, item, b);
          BackedLess(Stored(c), Stored(c'), q.index, item, b);
        }
      case Finish(k) =>
        var item := c.flight[k];
        if c'.queue != q {
          assert Stored(c) == Stored(c) + [];
          assert Stored(c') == Stored(c) + [item] + [];
          forall b: nat ensures BackedAt(Stored(c'), c'.queue.index, b) {
            CoverersInsert(Stored(c), [], item, b);
            BackedMore(Stored(c), Stored(c'), q.index, item, b);
          }
        }
      case Restart =>
        assert Stored(c') == Stored(c);
    }
  }

  /** An item is only dropped if the stored items cover all its bits. */
  lemma DroppedIsCovered(c: Corpus, item: QueueItem, b: nat)
    requires Backed(Stored(c), c.queue.index) && FreshBits(item.allBits, c.queue.index) == {} && Covers(item, b)
    ensures Covered(Stored(c), b)
  {
    assert BackedAt(Stored(c), c.queue.index, b);
    FreshOrKnown(c.queue.index, item, b);
    BackedCovered(Stored(c), c.queue.index, b);
  }

  lemma FreshOrKnown(index: Index, item: QueueItem, b: nat)
    requires Covers(item, b)
    ensures b in index || b in FreshBits(item.allBits, index)
  {
  }

  /** No step loses a covered bit. */
  lemma StepCovers(c: Corpus, step: Step, b: nat)
    requires Backed(Stored(c), c.queue.index) && Offered(c, step) && Covered(Live(c), b)
    ensures Covered(Live(Next(c, step)), b)
  {
    hide Backed, FreshBits, Indexed, Unindexed, Covers;
    var c' := Next(c, step);
    var x :| x in Live(c) && Covers(x, b);
    match step {
      case Store(item) =>
        assert x in Live(c');
      case Take =>
        var inputs := c.queue.inputs;
        assert inputs == inputs[..|inputs| - 1] + [inputs[|inputs| - 1]];
        assert x in Live(c');
      case Restart =>
        assert x in Live(c');
      case Finish(k) =>
        var item := c.flight[k];
        assert c.flight == c.flight[..k] + [item] + c.flight[k + 1..];
        if x == item && FreshBits(item.allBits, c.queue.index) == {} {
          DroppedIsCovered(c, item, b);
          var y :| y in Stored(c) && Covers(y, b);
          assert y in Live(c');
        } else {
          assert x in Live(c');
        }
    }
  }

  // ---------------------------------------------------------------- whole runs

  predicate RunOffered(c: Corpus, steps: seq<Step>)
    decreases |steps|
  {
    steps == [] || (Offered(c, steps[0]) && RunOffered(Next(c, steps[0]), steps[1..]))
  }

  /** A run in which every new item is stored under an unused id. */
  predicate RunAllowed(c: Corpus, steps: seq<Step>): (ok: bool)
    ensures ok ==> RunOffered(c, steps)
    decreases |steps|
  {
    steps == [] || (Allowed(c, steps[0]) && RunAllowed(Next(c, steps[0]), steps[1..]))
  }

  function RunOf(c: Corpus, steps: seq<Step>): Corpus
    requires RunOffered(c, steps)
    decreases |steps|
  {
    if steps == [] then c else RunOf(Next(c, steps[0]), steps[1..])
  }

  const EMPTY := Corpus(QueueState([], [], map[], 0), [])

  /**
   Coverage is never lost: over any run from the empty queue, also one in which ids wrap, a bit
   once covered by a stored or popped item stays covered.
   */
  lemma CoverageSafety(before: seq<Step>, after: seq<Step>)
    requires RunOffered(EMPTY, before) && RunOffered(RunOf(EMPTY, before), after)
    ensures var c, c' := RunOf(EMPTY, before), RunOf(RunOf(EMPTY, before), after);
      forall b :: Covered(Live(c), b) ==> Covered(Live(c'), b)
  {
    RunCovers(EMPTY, before);
    RunCovers(RunOf(EMPTY, before), after);
  }

  lemma {:induction false} RunCovers(c: Corpus, steps: seq<Step>)
    requires Backed(Stored(c), c.queue.index) && RunOffered(c, steps)
    ensures Backed(Stored(RunOf(c, steps)), RunOf(c, steps).queue.index)
    ensures forall b :: Covered(Live(c), b) ==> Covered(Live(RunOf(c, steps)), b)
    decreases |steps|
  {
    hide Backed, Next, Offered, Covered, Live, Stored;
    if steps != [] {
      StepBacks(c, steps[0]);
      RunCovers(Next(c, steps[0]), steps[1..]);
      forall b | Covered(Live(c), b) ensures Covered(Live(Next(c, steps[0])), b) {
        StepCovers(c, steps[0], b);
      }
    }
  }

  /**
   The index stays right: over any run from the empty queue in which ids are unused it is the
   one recomputed from the stored items, and all ids differ.
   */
  lemma IndexSafety(steps: seq<Step>)
    requires RunAllowed(EMPTY, steps)
    ensures Inv(RunOf(EMPTY, steps))
  {
    RunKeeps(EMPTY, steps);
  }

  lemma {:induction false} RunKeeps(c: Corpus, steps: seq<Step>)
    requires Inv(c) && RunAllowed(c, steps)
    ensures Inv(RunOf(c, steps))
    decreases |steps|
  {
    hide Inv, Next, Offered, IdFree;
    if steps != [] {
      StepKeeps(c, steps[0]);
      RunKeeps(Next(c, steps[0]), steps[1..]);
    }
  }

  // ------------------------------------------------------------- ids that wrap

  predicate IdsBelow(c: Corpus) {
    forall x :: x in Live(c) ==> x.id < c.queue.currentId
  }

  /** Until the counter wraps, the current id is never one that a live item uses. */
  lemma IdsStayFree(c: Corpus, step: Step)
    requires IdsBelow(c) && c.queue.currentId < OptionCounts.SIZE_MAX && Offered(c, step)
    ensures Allowed(c, step)
    ensures IdsBelow(Next(c, step)) && Next(c, step).queue.currentId <= c.queue.currentId + 1
  {
    hide FreshBits, Indexed, Unindexed;
  }

  /** So every run of fewer than 2^64 steps finds its ids free, and `IndexSafety` covers it. */
  lemma {:induction false} ShortRunsAllowed(c: Corpus, steps: seq<Step>)
    requires RunOffered(c, steps) && IdsBelow(c) && c.queue.currentId + |steps| <= OptionCounts.SIZE_MAX
    ensures RunAllowed(c, steps)
    decreases |steps|
  {
    hide IdsBelow, Next, Allowed;
    if steps != [] {
      IdsStayFree(c, steps[0]);
      ShortRunsAllowed(Next(c, steps[0]), steps[1..]);
    }
  }

  /** No other item with the id covers a bit. */
  ghost predicate OwnId(items: seq<QueueItem>, id: nat) {
    forall x, b: nat :: x in items && Covers(x, b) ==> x.id != id
  }

  /**
   Why ids must be unused: popping an item keeps the index in agreement exactly if no other
   stored item with the same id covers a bit. Items with the same id can only come from a
   counter that wrapped.
   */
  lemma PopNeedsOwnId(a: seq<QueueItem>, c: seq<QueueItem>, index: Index, item: QueueItem)
    requires Agrees(a + [item] + c, index)
    ensures Agrees(a + c, Unindexed(index, item.id)) <==> OwnId(a + c, item.id)
  {
    hide *;
    if Agrees(a + c, Unindexed(index, item.id)) {
      PopSharedId(a + c, index, item.id);
    }
    if OwnId(a + c, item.id) {
      PopOwnId(a, c, index, item);
    }
  }

  lemma PopSharedId(items: seq<QueueItem>, index: Index, id: nat)
    requires Agrees(items, Unindexed(index, id))
    ensures OwnId(items, id)
  {
    hide Agrees, Unindexed, Covers, Coverers;
    forall x, b: nat | x in items && Covers(x, b) ensures x.id != id {
      var k :| 0 <= k < |items| && items[k] == x;
      CoverersHas(items, b, k);
      AgreesOne(items, Unindexed(index, id), b);
      UnindexedLacks(items, index, id, b);
    }
  }

  lemma PopOwnId(a: seq<QueueItem>, c: seq<QueueItem>, index: Index, item: QueueItem)
    requires Agrees(a + [item] + c, index) && OwnId(a + c, item.id)
    ensures Agrees(a + c, Unindexed(index, item.id))
  {
    hide *;
    forall b: nat ensures AgreesAt(a + c, Unindexed(index, item.id), b) {
      OwnIdAbsent(a + c, item.id, b);
      CoverersInsert(a, c, item, b);
      AgreesOne(a + [item] + c, index, b);
      UnindexedAt(a + [item] + c, a + c, index, item, b);
    }
    AgreesAll(a + c, Unindexed(index, item.id));
  }

  lemma OwnIdAbsent(items: seq<QueueItem>, id: nat, b: nat)
    requires OwnId(items, id)
    ensures id !in Coverers(items, b)
  {
    if id in Coverers(items, b) {
      CoverersIds(items, b, id);
    }
  }

  lemma UnindexedLacks(items: seq<QueueItem>, index: Index, id: nat, b: nat)
    requires AgreesAt(items, Unindexed(index, id), b)
    ensures id !in Coverers(items, b)
  {
    if b in index {
      WithoutMultiset(index[b], id);
    }
  }

  lemma UnindexedAt(all: seq<QueueItem>, rest: seq<QueueItem>, index: Index, item: QueueItem, b: nat)
    requires AgreesAt(all, index, b)
    requires Coverers(all, b) == Coverers(rest, b) + if Covers(item, b) then multiset{item.id} else multiset{}
    requires item.id !in Coverers(rest, b)
    ensures AgreesAt(rest, Unindexed(index, item.id), b)
  {
    hide Coverers, Covers;
    if b in index {
      var w := Without(index[b], item.id);
      WithoutMultiset(index[b], item.id);
      assert w != [] ==> w[0] in multiset(w);
      assert multiset(w) == Coverers(rest, b);
    }
  }

  /** The states of `WrapExample`: a counter about to wrap, two items stored, the last one popped. */
  function AboutToWrap(first: QueueItem): Corpus {
    Corpus(QueueState([first], [], map[0 := [0]], OptionCounts.SIZE_MAX), [])
  }

  function Wrapped(first: QueueItem, last: QueueItem): Corpus {
    Corpus(QueueState([first, last], [], map[0 := [0], 1 := [OptionCounts.SIZE_MAX]], 0), [])
  }

  function Reused(first: QueueItem, last: QueueItem, again: QueueItem): Corpus {
    Corpus(QueueState([first, last, again], [], map[0 := [0], 1 := [OptionCounts.SIZE_MAX], 2 := [0]], 1), [])
  }

  function Forgotten(first: QueueItem, last: QueueItem, again: QueueItem): Corpus {
    Corpus(QueueState([first, last], [], map[1 := [OptionCounts.SIZE_MAX]], 1), [again])
  }

  lemma StoresLast(first: QueueItem, last: QueueItem)
    requires last.id == OptionCounts.SIZE_MAX && last.allBits == [0, 1]
    ensures Offered(AboutToWrap(first), Store(last)) && Next(AboutToWrap(first), Store(last)) == Wrapped(first, last)
  {
    assert 1 in FreshBits(last.allBits, AboutToWrap(first).queue.index);
    IndexedIs(map[0 := [0]], [0, 1], OptionCounts.SIZE_MAX, Wrapped(first, last).queue.index);
  }

  lemma StoresAgain(first: QueueItem, last: QueueItem, again: QueueItem)
    requires again.id == 0 && again.allBits == [0, 0, 1]
    ensures Offered(Wrapped(first, last), Store(again))
    ensures Next(Wrapped(first, last), Store(again)) == Reused(first, last, again)
  {
    var index := Wrapped(first, last).queue.index;
    assert 2 in FreshBits(again.allBits, index);
    IndexedIs(index, [0, 0, 1], 0, Reused(first, last, again).queue.index);
  }

  lemma TakesAgain(first: QueueItem, last: QueueItem, again: QueueItem)
    requires again.id == 0
    ensures Offered(Reused(first, last, again), Take)
    ensures Next(Reused(first, last, again), Take) == Forgotten(first, last, again)
  {
    WithoutOne(0, 0);
    WithoutOne(OptionCounts.SIZE_MAX, 0);
    hide Without;
    UnindexedIs(Reused(first, last, again).queue.index, 0, Forgotten(first, last, again).queue.index);
  }

  lemma WithoutOne(x: nat, id: nat)
    ensures Without([x], id) == if x == id then [] else [x]
  {
    assert [x][..0] == [];
    assert Without([], id) == [];
  }

  lemma UnindexedIs(index: Index, id: nat, index': Index)
    requires forall b: nat :: b in index' <==> b in index && Without(index[b], id) != []
    requires forall b :: b in index' ==> index'[b] == Without(index[b], id)
    ensures Unindexed(index, id) == index'
  {
    hide Without;
  }

  lemma IndexedIs(index: Index, bits: seq<Byte>, id: nat, index': Index)
    requires forall b: nat :: b in index' <==> b in index || Sets(bits, b)
    requires forall b :: b in index' ==>
      index'[b] == (if b in index then index[b] else []) + if Sets(bits, b) then [id] else []
    ensures Indexed(index, bits, id) == index'
  {
  }

  /**
   A run in which ids wrap onto one that is in use: two items are stored and the second, which
   gets id 0 like the first one, is popped. The index forgets bit 0 although its item is stored.
   */
  lemma WrapExample(first: QueueItem, last: QueueItem, again: QueueItem)
    requires first.id == 0 && first.allBits == [1]
    requires last.id == OptionCounts.SIZE_MAX && last.allBits == [0, 1]
    requires again.id == 0 && again.allBits == [0, 0, 1]
    ensures Inv(AboutToWrap(first))
    ensures
      var steps := [Store(last), Store(again), Take];
      && RunOffered(AboutToWrap(first), steps)
      && var c := RunOf(AboutToWrap(first), steps);
      && first in Stored(c) && Covers(first, 0) && 0 !in c.queue.index
      && !Agrees(Stored(c), c.queue.index)
  {
    WrapStarts(first);
    StoresLast(first, last);
    StoresAgain(first, last, again);
    TakesAgain(first, last, again);
    var steps, c := [Store(last), Store(again), Take], Forgotten(first, last, again);
    WrapRun(steps, first, last, again);
    assert Stored(c)[0] == first && Covers(first, 0);
    hide Agrees, Coverers;
    if Agrees(Stored(c), c.queue.index) {
      CoveredIffIndexed(Stored(c), c.queue.index, 0);
    }
  }

  lemma WrapRun(steps: seq<Step>, first: QueueItem, last: QueueItem, again: QueueItem)
    requires steps == [Store(last), Store(again), Take]
    requires Offered(AboutToWrap(first), Store(last)) && Next(AboutToWrap(first), Store(last)) == Wrapped(first, last)
    requires Offered(Wrapped(first, last), Store(again))
    requires Next(Wrapped(first, last), Store(again)) == Reused(first, last, again)
    requires Offered(Reused(first, last, again), Take)
    requires Next(Reused(first, last, again), Take) == Forgotten(first, last, again)
    ensures RunOffered(AboutToWrap(first), steps) && RunOf(AboutToWrap(first), steps) == Forgotten(first, last, again)
  {
    hide Offered, Next, AboutToWrap, Wrapped, Reused, Forgotten;
    var rest := steps[1..];
    assert rest == [Store(again), Take] && rest[1..] == [Take] && rest[1..][1..] == [];
    var end := Forgotten(first, last, again);
    assert RunOffered(end, rest[1..][1..]) && RunOf(end, rest[1..][1..]) == end;
    assert RunOffered(Reused(first, last, again), rest[1..]) && RunOf(Reused(first, last, again), rest[1..]) == end;
    assert RunOffered(Wrapped(first, last), rest) && RunOf(Wrapped(first, last), rest) == end;
  }

  lemma WrapStarts(first: QueueItem)
    requires first.id == 0 && first.allBits == [1]
    ensures Inv(AboutToWrap(first))
  {
    var c := AboutToWrap(first);
    assert Stored(c) == [first] && Live(c) == [first];
    forall b: nat ensures Coverers([first], b) == if b == 0 then multiset{0} else multiset{} {
      assert [first][..0] == [];
    }
    assert multiset([0 as nat]) == multiset{0};
  }
}
