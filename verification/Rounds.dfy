/**
 The rounds of the corpus: between two restarts every input is taken once, and what is finished
 waits for the next round. The laws are stated on the containers themselves.
 */
module Rounds {
  import opened Queues
  import opened Corpora

  /** A run within one round. */
  predicate NoRestart(steps: seq<Step>) {
    forall s :: s in steps ==> !s.Restart?
  }

  /** What a step takes out of the inputs. */
  function TakenBy(c: Corpus, step: Step): seq<QueueItem>
    requires Offered(c, step)
  {
    if step.Take? then [c.queue.inputs[|c.queue.inputs| - 1]] else []
  }

  /** What a step stores: a new item that covers a bit no stored item covers. */
  function StoredBy(c: Corpus, step: Step): seq<QueueItem> {
    if step.Store? && FreshBits(step.item.allBits, c.queue.index) != {} then [step.item] else []
  }

  /** What a step keeps for the next round: a finished item that covers a bit no stored item covers. */
  function KeptBy(c: Corpus, step: Step): seq<QueueItem>
    requires Offered(c, step)
  {
    if step.Finish? && FreshBits(c.flight[step.k].allBits, c.queue.index) != {} then [c.flight[step.k]] else []
  }

  /** The items a run takes, in order. */
  function Taken(c: Corpus, steps: seq<Step>): seq<QueueItem>
    requires RunOffered(c, steps)
    decreases |steps|
  {
    if steps == [] then [] else TakenBy(c, steps[0]) + Taken(Next(c, steps[0]), steps[1..])
  }

  /** The items a run stores, in order. */
  function NewlyStored(c: Corpus, steps: seq<Step>): seq<QueueItem>
    requires RunOffered(c, steps)
    decreases |steps|
  {
    if steps == [] then [] else StoredBy(c, steps[0]) + NewlyStored(Next(c, steps[0]), steps[1..])
  }

  /** The finished items a run keeps, in order. */
  function Kept(c: Corpus, steps: seq<Step>): seq<QueueItem>
    requires RunOffered(c, steps)
    decreases |steps|
  {
    if steps == [] then [] else KeptBy(c, steps[0]) + Kept(Next(c, steps[0]), steps[1..])
  }

  lemma StepMoves(c: Corpus, step: Step, c': Corpus)
    requires Offered(c, step) && !step.Restart? && c' == Next(c, step)
    ensures multiset(c'.queue.inputs) + multiset(TakenBy(c, step)) == multiset(c.queue.inputs) + multiset(StoredBy(c, step))
    ensures c'.queue.processed == c.queue.processed + KeptBy(c, step)
  {
    hide FreshBits, Indexed, Unindexed;
    var inputs := c.queue.inputs;
    if step.Take? {
      assert inputs == inputs[..|inputs| - 1] + [inputs[|inputs| - 1]];
    }
  }

  /**
   Within a round nothing comes back: what is in the inputs at the end or was taken is what was
   in them at the start or was stored. What is finished only joins the processed items, in order.
   */
  lemma {:induction false} RoundMoves(c: Corpus, steps: seq<Step>)
    requires RunOffered(c, steps) && NoRestart(steps)
    ensures multiset(RunOf(c, steps).queue.inputs) + multiset(Taken(c, steps)) ==
      multiset(c.queue.inputs) + multiset(NewlyStored(c, steps))
    ensures RunOf(c, steps).queue.processed == c.queue.processed + Kept(c, steps)
    decreases |steps|
  {
    hide Next, Offered, TakenBy, StoredBy, KeptBy;
    if steps != [] {
      var step, rest, c' := steps[0], steps[1..], Next(c, steps[0]);
      StepMoves(c, step, c');
      RoundMoves(c', rest);
      Regroup(c.queue.inputs, c'.queue.inputs, RunOf(c', rest).queue.inputs,
              TakenBy(c, step), Taken(c', rest), StoredBy(c, step), NewlyStored(c', rest));
    }
  }

  lemma Regroup(a: seq<QueueItem>, b: seq<QueueItem>, d: seq<QueueItem>,
                t1: seq<QueueItem>, t2: seq<QueueItem>, n1: seq<QueueItem>, n2: seq<QueueItem>)
    requires multiset(b) + multiset(t1) == multiset(a) + multiset(n1)
    requires multiset(d) + multiset(t2) == multiset(b) + multiset(n2)
    ensures multiset(d) + multiset(t1 + t2) == multiset(a) + multiset(n1 + n2)
  {
    var mt1, mt2, mn1, mn2 := multiset(t1), multiset(t2), multiset(n1), multiset(n2);
    calc {
      multiset(d) + multiset(t1 + t2);
      (multiset(d) + mt2) + mt1;
      (multiset(b) + mn2) + mt1;
      (multiset(b) + mt1) + mn2;
      (multiset(a) + mn1) + mn2;
      multiset(a) + multiset(n1 + n2);
    }
  }

  /** A round ends: it takes as many items as there were inputs, were stored, and are not left. */
  lemma RoundLength(c: Corpus, steps: seq<Step>)
    requires RunOffered(c, steps) && NoRestart(steps)
    ensures |Taken(c, steps)| + |RunOf(c, steps).queue.inputs| == |c.queue.inputs| + |NewlyStored(c, steps)|
  {
    RoundMoves(c, steps);
    var d, t, a, n := RunOf(c, steps).queue.inputs, Taken(c, steps), c.queue.inputs, NewlyStored(c, steps);
    assert |multiset(d) + multiset(t)| == |d| + |t|;
    assert |multiset(a) + multiset(n)| == |a| + |n|;
  }

  /** The inputs hold only items that were inputs at the start or were stored. */
  lemma InputsFrom(c: Corpus, steps: seq<Step>, x: QueueItem)
    requires RunOffered(c, steps) && NoRestart(steps)
    requires x in RunOf(c, steps).queue.inputs || x in Taken(c, steps)
    ensures x in c.queue.inputs || x in NewlyStored(c, steps)
  {
    RoundMoves(c, steps);
    var d, t, a, n := RunOf(c, steps).queue.inputs, Taken(c, steps), c.queue.inputs, NewlyStored(c, steps);
    assert x in multiset(d) + multiset(t);
    assert x in multiset(a) + multiset(n);
  }

  /** An item that is being processed is not taken again in this round, finished or not, unless it is stored anew. */
  lemma NotTakenAgain(c: Corpus, steps: seq<Step>, x: QueueItem)
    requires Inv(c) && x in c.flight && RunOffered(c, steps) && NoRestart(steps) && x !in NewlyStored(c, steps)
    ensures x !in Taken(c, steps) && x !in RunOf(c, steps).queue.inputs
  {
    FlightNoInput(c, x);
    hide Inv, RunOffered, NoRestart, RunOf, Taken, NewlyStored;
    if x in Taken(c, steps) || x in RunOf(c, steps).queue.inputs {
      InputsFrom(c, steps, x);
    }
  }

  lemma FlightNoInput(c: Corpus, x: QueueItem)
    requires Distinct(Live(c)) && x in c.flight
    ensures x !in c.queue.inputs
  {
    var k :| 0 <= k < |c.flight| && c.flight[k] == x;
    var live, n := Live(c), |Stored(c)|;
    assert live[n + k] == x;
    forall j | 0 <= j < |c.queue.inputs| ensures c.queue.inputs[j] != x {
      assert live[j] == c.queue.inputs[j];
    }
  }

  /** The next round starts with every stored item as an input, and with nothing processed. */
  lemma NextRoundHasAll(c: Corpus)
    ensures var c' := Next(c, Restart);
      && multiset(c'.queue.inputs) == multiset(c.queue.inputs) + multiset(c.queue.processed)
      && c'.queue.processed == [] && c'.flight == c.flight
      && forall x :: x in Stored(c) <==> x in c'.queue.inputs
  {
  }

  /** Only inputs are taken, the last one first, however the items are finished in between. */
  lemma {:induction false} LastFirst(c: Corpus, steps: seq<Step>, j: nat)
    requires RunOffered(c, steps) && NoRestart(steps) && NewlyStored(c, steps) == [] && j < |Taken(c, steps)|
    ensures j < |c.queue.inputs| && Taken(c, steps)[j] == c.queue.inputs[|c.queue.inputs| - 1 - j]
    decreases |steps|
  {
    hide *;
    RunStep(c, steps);
    var step, rest, c' := steps[0], steps[1..], Next(c, steps[0]);
    var n := |TakenBy(c, step)|;
    InputsLeft(c, step, c');
    if j >= n {
      LastFirst(c', rest, j - n);
    }
  }

  lemma RunStep(c: Corpus, steps: seq<Step>)
    requires RunOffered(c, steps) && NoRestart(steps) && NewlyStored(c, steps) == [] && Taken(c, steps) != []
    ensures steps != [] && Offered(c, steps[0]) && !steps[0].Restart? && StoredBy(c, steps[0]) == []
    ensures var c' := Next(c, steps[0]);
      && RunOffered(c', steps[1..]) && NoRestart(steps[1..]) && NewlyStored(c', steps[1..]) == []
      && Taken(c, steps) == TakenBy(c, steps[0]) + Taken(c', steps[1..])
  {
    hide Next, Offered, TakenBy, StoredBy;
  }

  lemma InputsLeft(c: Corpus, step: Step, c': Corpus)
    requires Offered(c, step) && !step.Restart? && StoredBy(c, step) == [] && c' == Next(c, step)
    ensures |TakenBy(c, step)| <= 1 && |c'.queue.inputs| == |c.queue.inputs| - |TakenBy(c, step)|
    ensures c'.queue.inputs == c.queue.inputs[..|c'.queue.inputs|]
    ensures TakenBy(c, step) != [] ==> TakenBy(c, step)[0] == c.queue.inputs[|c.queue.inputs| - 1]
  {
    hide FreshBits, Indexed, Unindexed;
  }

  /** What a round takes first: the item that was finished last, if any was kept. */
  lemma FirstOfRound(c: Corpus)
    requires Stored(c) != []
    ensures Offered(Next(c, Restart), Take)
    ensures TakenBy(Next(c, Restart), Take) ==
      if c.queue.processed != [] then [c.queue.processed[|c.queue.processed| - 1]]
      else [c.queue.inputs[|c.queue.inputs| - 1]]
  {
  }

  /**
   A round over all stored items: if nothing new is stored, a run that takes them all takes the
   items finished in the last round, the latest first, and then the inputs left over from it.
   */
  lemma WholeRound(c: Corpus, steps: seq<Step>)
    requires RunOffered(Next(c, Restart), steps) && NoRestart(steps)
    requires NewlyStored(Next(c, Restart), steps) == []
    ensures |Taken(Next(c, Restart), steps)| <= |Stored(c)|
    ensures forall j :: 0 <= j < |Taken(Next(c, Restart), steps)| ==>
      Taken(Next(c, Restart), steps)[j] == Stored(c)[|Stored(c)| - 1 - j]
  {
    var c' := Next(c, Restart);
    RoundLength(c', steps);
    assert c'.queue.inputs == Stored(c);
    hide Next, RunOffered, NoRestart, NewlyStored, Taken;
    forall j | 0 <= j < |Taken(c', steps)| ensures Taken(c', steps)[j] == Stored(c)[|Stored(c)| - 1 - j] {
      LastFirst(c', steps, j);
    }
  }
}
