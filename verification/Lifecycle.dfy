/**
 The life of a corpus item: it is minimized, then every rule of every node is tried a fixed
 number of times, then it is mutated at random for good.
 */
module Lifecycles {
  import opened Grammars
  import opened Positions
  import opened Trees
  import opened MinimalSizes
  import opened Contexts
  import opened Recursions
  import opened Minimizing
  import opened Mutators
  import opened Pumping
  import opened ChunkStores
  import opened Stages
  import opened Queues
  import opened Arithmetic

  /** How many nodes one minimization step looks at. */
  const MIN_STRIDE := 200

  /** What a processing step depends on: the stage of the item and the size of its tree. */
  datatype Life = Life(state: ItemState, size: nat)

  /** One processing step of an item, with `n` the number of deterministic mutations. */
  predicate Advances(n: nat, a: Life, b: Life) {
    match a.state
    case InitState(start) =>
      && b.size <= a.size
      && (b.state == DetState(0, 0) || (start < a.size && b.state == InitState(start + MIN_STRIDE)))
    case DetState(cycle, start) =>
      && b.size == a.size
      && b.state == if start < a.size then DetState(cycle, start + 1)
                    else if cycle == n then RandomState
                    else DetState(cycle + 1, 0)
    case RandomState => b == a
  }

  /** The recursions of an item are those of its tree. */
  ghost predicate RecursionsOf(g: Grammar, f: Forest, recursions: Option<seq<RecursionInfo>>) {
    && (recursions == None <==> NoRepeats(g, f))
    && (recursions.Some? ==>
          && recursions.value != []
          && (forall info :: info in recursions.value ==> exists nt :: InfoFor(g, f, nt, info))
          && (forall n :: Repeats(g, f, n) ==> Listed(recursions.value, n)))
  }

  /** A stored item; once it has been minimized, its recursions are known. */
  ghost predicate ItemValid(g: Grammar, item: QueueItem)
    reads item, item.tree
  {
    && item.tree.Valid(g)
    && (!item.state.InitState? ==> RecursionsOf(g, item.tree.Shape(g), item.recursions))
    && (item.state.DetState? ==> item.state.start <= |item.tree.rules|)
  }

  function LifeOf(item: QueueItem): Life
    reads item, item.tree
  {
    Life(item.state, |item.tree.rules|)
  }

  class NautilusState {
    const mutator: Mutator
    const ctx: Context
    const cks: ChunkStore
    const numberOfDeterministicMutations: nat

    constructor (mutator: Mutator, ctx: Context, cks: ChunkStore, n: nat)
      ensures this.mutator == mutator && this.ctx == ctx && this.cks == cks && numberOfDeterministicMutations == n
    {
      this.mutator, this.ctx, this.cks, this.numberOfDeterministicMutations := mutator, ctx, cks, n;
    }

    ghost predicate Valid()
      reads this, ctx, cks
    {
      ctx.Ready() && cks.Valid(ctx.rules)
    }

    /**
     One minimization step, described by `pass`. The tree stays as it was or becomes a smaller one
     that a tester accepted. When both passes reach the end, all its small subtrees are in the
     chunk store and its recursions are known.
     */
    method Minimize(input: QueueItem, startIndex: nat, endIndex: nat, testerMin: Tester, testerMinRec: Tester)
      returns (done: bool, ghost pass: MinPass)
      requires Valid() && input.tree.Valid(ctx.rules) && input.tree != mutator.scratchpad
      modifies input`recursions, input.tree, mutator.scratchpad, cks
      ensures Valid() && input.tree.Valid(ctx.rules)
      ensures input.tree.Root(ctx.rules) == old(input.tree.Root(ctx.rules))
      ensures MinimizedBy(ctx.rules, ctx.ntsToMinSize, testerMin, testerMinRec, old(input.tree.rules),
                          startIndex, endIndex, pass, done, input.tree.rules)
      ensures input.tree.rules == old(input.tree.rules) ||
        (|input.tree.rules| < |old(input.tree.rules)| &&
          (Accepted(testerMin, pass.asked, input.tree.rules) || Accepted(testerMinRec, pass.pulled.asked, input.tree.rules)))
      ensures startIndex >= |old(input.tree.rules)| ==> done
      ensures AcceptsAll(testerMin) && startIndex == 0 && done ==>
        IsSmallest(ctx.rules, |input.tree.rules|, input.tree.Root(ctx.rules))
      ensures AcceptsAll(testerMinRec) && old(CleanBelow(ctx.rules, input.tree.Shape(ctx.rules), startIndex)) ==>
        if done then input.recursions == None else CleanBelow(ctx.rules, input.tree.Shape(ctx.rules), endIndex)
      ensures done ==>
        && RecursionsOf(ctx.rules, input.tree.Shape(ctx.rules), input.recursions)
        && TreeAdded(ctx.rules, ArraysOf(input.tree), old(cks.seenOutputs), cks.seenOutputs, old(cks.trees), cks.trees)
      ensures !done ==> unchanged(cks) && input.recursions == old(input.recursions)
    {
      hide *;
      StateFacts(this);
      ghost var g, rules0 := ctx.rules, input.tree.rules;
      ShapeIs(g, input.tree);
      var minSimple, minRec;
      ghost var asked, reached, pulled, reachedRec;
      minSimple, asked, reached := mutator.MinimizeTree(ctx, input.tree, startIndex, endIndex, testerMin);
      FromTheRoot(ctx, input.tree);
      ghost var middle := input.tree.rules;
      minRec, pulled, reachedRec := mutator.MinimizeRec(ctx.rules, input.tree, startIndex, endIndex, testerMinRec);
      pass := MinPass(asked, reached, middle, pulled, reachedRec);
      PassIs(g, ctx.ntsToMinSize, testerMin, testerMinRec, rules0, startIndex, endIndex,
             pass, minSimple, minRec, input.tree.rules);
      PassFacts(g, ctx.ntsToMinSize, testerMin, testerMinRec, rules0, startIndex, endIndex,
                pass, minSimple && minRec, input.tree);
      if minSimple && minRec {
        cks.AddTree(ctx.rules, input.tree);
        TreeIsStored(ctx.rules, input.tree);
        AddedIs(ctx.rules, input.tree, old(cks.seenOutputs), cks.seenOutputs, old(cks.trees), cks.trees);
        input.recursions := CalcRecursions(ctx.rules, input.tree);
        RecursionsKnown(ctx.rules, input.tree.Shape(ctx.rules), input.recursions);
        StateBack(this);
        return true, pass;
      }
      StateBack(this);
      return false, pass;
    }

    /** The routine for items that are still being minimized. */
    method InitializeState(inp: QueueItem, testerMin: Tester, testerMinRec: Tester)
      returns (ghost pass: MinPass)
      requires Valid() && ItemValid(ctx.rules, inp) && inp.tree != mutator.scratchpad
      requires inp.state.InitState?
      modifies inp`state, inp`recursions, inp.tree, mutator.scratchpad, cks
      ensures Valid() && ItemValid(ctx.rules, inp)
      ensures inp.tree.Root(ctx.rules) == old(inp.tree.Root(ctx.rules))
      ensures Advances(numberOfDeterministicMutations, old(LifeOf(inp)), LifeOf(inp))
      ensures MinimizedBy(ctx.rules, ctx.ntsToMinSize, testerMin, testerMinRec, old(inp.tree.rules),
                          old(inp.state.start), old(inp.state.start) + MIN_STRIDE, pass, !inp.state.InitState?, inp.tree.rules)
      ensures inp.tree.rules == old(inp.tree.rules) ||
        Accepted(testerMin, pass.asked, inp.tree.rules) || Accepted(testerMinRec, pass.pulled.asked, inp.tree.rules)
      ensures AcceptsAll(testerMinRec) && old(CleanBelow(ctx.rules, inp.tree.Shape(ctx.rules), inp.state.start)) ==>
        if inp.state.InitState? then CleanBelow(ctx.rules, inp.tree.Shape(ctx.rules), inp.state.start)
        else inp.recursions == None
      ensures if inp.state.InitState? then unchanged(cks)
              else TreeAdded(ctx.rules, ArraysOf(inp.tree), old(cks.seenOutputs), cks.seenOutputs, old(cks.trees), cks.trees)
    {
      hide Valid, RecursionsOf, TreeAdded, ArraysOf, Accepted, AcceptsAll, MinimizedBy, CleanBelow;
      hide inp.tree.Valid, inp.tree.Root, inp.tree.Shape;
      var startIndex := inp.state.start;
      var endIndex := startIndex + MIN_STRIDE;
      var done;
      done, pass := Minimize(inp, startIndex, endIndex, testerMin, testerMinRec);
      if done {
        inp.state := DetState(0, 0);
      } else {
        inp.state := InitState(endIndex);
      }
    }

    /**
     The deterministic routine: tries the other rules of one node. `sent` lists the mutations
     in the order they were run.
     */
    method MutRules(inp: QueueItem) returns (sent: seq<TreeMutation>)
      requires AllFit(ctx)
      requires Valid() && ItemValid(ctx.rules, inp) && inp.tree != mutator.scratchpad
      requires inp.state.DetState?
      modifies inp`state, mutator.scratchpad
      ensures Valid() && ItemValid(ctx.rules, inp)
      ensures inp.tree.rules == old(inp.tree.rules)
      ensures Advances(numberOfDeterministicMutations, old(LifeOf(inp)), LifeOf(inp))
      ensures SentFor(BudgetOf(ctx), inp.tree.Shape(ctx.rules), NodeAlternatives(ctx, inp.tree.rules, old(inp.state.start)), sent)
    {
      hide SentFor, Alternatives, RecursionsOf, Valid, AllFit;
      hide inp.tree.Valid, inp.tree.Shape, ctx.Ready, cks.Valid;
      StateFacts(this);
      var cycle, startIndex := inp.state.cycle, inp.state.start;
      var endIndex := startIndex + 1;
      var done;
      done, sent := mutator.MutRules(ctx, inp.tree, startIndex, endIndex);
      StateBack(this);
      if done {
        if cycle == numberOfDeterministicMutations {
          inp.state := RandomState;
        } else {
          inp.state := DetState(cycle + 1, 0);
        }
      } else {
        inp.state := DetState(cycle, endIndex);
      }
    }

    /** The recursive havoc: pumps random recursions of an item that has been minimized. */
    method MutHavocRec(inp: QueueItem) returns (sent: seq<TreeMutation>)
      requires ItemValid(ctx.rules, inp) && !inp.state.InitState?
      ensures inp.tree.Valid(ctx.rules) && PumpTries(SubjectOf(ctx.rules, inp.tree), sent)
    {
      hide IsPumped, NoRepeats, Repeats;
      sent := [];
      if inp.recursions.Some? {
        for i := 0 to HAVOC_REC_TRIES
          invariant |sent| == i
          invariant forall m :: m in sent ==> IsPumped(SubjectOf(ctx.rules, inp.tree), m)
        {
          var m := PumpOnce(inp);
          sent := sent + [m];
        }
      }
    }

    method PumpOnce(inp: QueueItem) returns (m: TreeMutation)
      requires ItemValid(ctx.rules, inp) && !inp.state.InitState? && inp.recursions.Some?
      ensures IsPumped(SubjectOf(ctx.rules, inp.tree), m)
    {
      hide NoRepeats, Repeats, InfoFor, Pumped;
      var repl, outer, inner, num := MutRandomRecursion(ctx.rules, inp.tree, inp.recursions.value);
      assert Pumped(ctx.rules, inp.tree.Shape(ctx.rules), inp.tree.Root(ctx.rules), outer, inner, num, repl.value);
      return repl.value;
    }

    /** The splicing routine: 100 tries, each of which sends a splice if the node drawn has an alternative. */
    method MutSplice(inp: QueueItem) returns (sent: seq<TreeMutation>, ghost tries: seq<Try>)
      requires Valid() && ItemValid(ctx.rules, inp)
      ensures inp.tree.Valid(ctx.rules) && SpliceTries(SubjectOf(ctx.rules, inp.tree), cks, tries)
      ensures sent == Sent(tries)
    {
      hide SpliceTry, ItemValid, Valid, Sent;
      TreeOfItem(ctx.rules, inp);
      ghost var x := SubjectOf(ctx.rules, inp.tree);
      sent, tries := [], [];
      NothingSent();
      for i := 0 to MUTATION_TRIES
        invariant |tries| == i && sent == Sent(tries)
        invariant forall t :: t in tries ==> SpliceTry(x, cks, t)
      {
        var m;
        ghost var n;
        m, n := SpliceOnce(inp, x);
        SentNext(tries, Try(n, m));
        tries := tries + [Try(n, m)];
        if m.Some? { sent := sent + [m.value]; }
      }
    }

    method SpliceOnce(inp: QueueItem, ghost x: Subject) returns (m: Option<TreeMutation>, ghost n: nat)
      requires Valid() && inp.tree.Valid(ctx.rules) && x == SubjectOf(ctx.rules, inp.tree)
      ensures SpliceTry(x, cks, Try(n, m))
    {
      hide Chunked, IsDerivation, cks.Alternative, cks.NoAlternative;
      hide ctx.Ready, cks.Valid, inp.tree.Valid, inp.tree.Shape, inp.tree.Root;
      ghost var c;
      m, n, c := ChunkStores.MutSplice(ctx.rules, inp.tree, cks);
    }

    /**
     The havoc routine: 100 tries, each of which sends a mutation if the node drawn has other
     rules. `ok` is false if generation throws, because the minimum of such a node's nonterminal
     exceeds the context's maximum length.
     */
    method MutHavoc(inp: QueueItem) returns (ok: bool, sent: seq<TreeMutation>, ghost tries: seq<Try>)
      requires Valid() && ItemValid(ctx.rules, inp) && inp.tree != mutator.scratchpad
      modifies mutator.scratchpad
      ensures inp.tree.Valid(ctx.rules)
      ensures HavocTries(BudgetOf(ctx), ctx.ntsToRules, SubjectOf(ctx.rules, inp.tree), ok, tries)
      ensures sent == Sent(tries)
    {
      hide HavocTry, Throws, ItemValid, Valid, Sent, BudgetOf;
      TreeOfItem(ctx.rules, inp);
      ghost var x := SubjectOf(ctx.rules, inp.tree);
      ok, sent, tries := true, [], [];
      NothingSent();
      var i := 0;
      while i < MUTATION_TRIES && ok
        invariant Valid() && inp.tree.Valid(ctx.rules) && x == SubjectOf(ctx.rules, inp.tree)
        invariant 0 <= i <= MUTATION_TRIES && sent == Sent(tries)
        invariant if ok then |tries| == i
                  else |tries| < MUTATION_TRIES && exists n :: Throws(BudgetOf(ctx), ctx.ntsToRules, x.rules, n)
        invariant forall t :: t in tries ==> HavocTry(BudgetOf(ctx), ctx.ntsToRules, x, t)
      {
        var m;
        ghost var n;
        ok, m, n := HavocOnce(inp, x);
        if ok {
          SentNext(tries, Try(n, m));
          tries := tries + [Try(n, m)];
          if m.Some? { sent := sent + [m.value]; }
        }
        i := i + 1;
      }
    }

    method HavocOnce(inp: QueueItem, ghost x: Subject) returns (ok: bool, m: Option<TreeMutation>, ghost n: nat)
      requires Valid() && inp.tree.Valid(ctx.rules) && inp.tree != mutator.scratchpad && x == SubjectOf(ctx.rules, inp.tree)
      modifies mutator.scratchpad
      ensures Valid()
      ensures if ok then HavocTry(BudgetOf(ctx), ctx.ntsToRules, x, Try(n, m))
              else m == None && Throws(BudgetOf(ctx), ctx.ntsToRules, x.rules, n)
    {
      hide Substitutes, DerivesTree;
      hide ctx.Ready, cks.Valid, inp.tree.Valid, inp.tree.Shape, mutator.scratchpad.Valid, mutator.scratchpad.Shape;
      ok, n, m := mutator.MutRandom(ctx, inp.tree);
      if m.Some? {
        ghost var sub := SubAt(mutator.scratchpad.Shape(ctx.rules), 0);
        assert WithinNonterm(BudgetOf(ctx), ctx.rules[inp.tree.rules[n]].nonterm, sub);
      }
    }

    /** Rule mutations of one node, then splicing, havoc and recursive havoc. */
    method ApplyDetMuts(inp: QueueItem) returns (ok: bool, sent: seq<TreeMutation>)
      requires AllFit(ctx)
      requires Valid() && ItemValid(ctx.rules, inp) && inp.tree != mutator.scratchpad
      requires inp.state.DetState?
      modifies inp`state, mutator.scratchpad
      ensures Valid() && ItemValid(ctx.rules, inp)
      ensures inp.tree.rules == old(inp.tree.rules)
      ensures Advances(numberOfDeterministicMutations, old(LifeOf(inp)), LifeOf(inp))
      ensures inp.tree.Valid(ctx.rules)
      ensures DetSent(ctx, cks, SubjectOf(ctx.rules, inp.tree), old(inp.state.start), ok, sent)
      ensures AllDerive(ctx.rules, sent)
      ensures !ok ==> NoRoom(ctx)
    {
      hide Valid, ItemValid, SentFor, AllDerive, NoRoom, AllFit, RandomSent, NodeAlternatives, BudgetOf;
      ghost var start := inp.state.start;
      var first := MutRules(inp);
      TreeOfItem(ctx.rules, inp);
      var rest;
      ok, rest := ApplyRandMuts(inp);
      sent := first + rest;
      DetDerives(ctx, cks, SubjectOf(ctx.rules, inp.tree), start, ok, sent);
    }

    /** Splicing, havoc and recursive havoc. */
    method ApplyRandMuts(inp: QueueItem) returns (ok: bool, sent: seq<TreeMutation>)
      requires Valid() && ItemValid(ctx.rules, inp) && inp.tree != mutator.scratchpad
      requires !inp.state.InitState?
      modifies mutator.scratchpad
      ensures Valid() && ItemValid(ctx.rules, inp)
      ensures inp.tree.Valid(ctx.rules)
      ensures RandomSent(ctx, cks, SubjectOf(ctx.rules, inp.tree), ok, sent)
      ensures AllDerive(ctx.rules, sent)
      ensures !ok ==> NoRoom(ctx)
    {
      hide AllDerive, NoRoom, SpliceTries, HavocTries, PumpTries, RecursionsOf, NoRepeats, Sent, BudgetOf, Throws;
      hide ctx.Ready, cks.Valid, inp.tree.Valid, inp.tree.Shape, inp.tree.Root;
      ghost var x := SubjectOf(ctx.rules, inp.tree);
      ghost var splices, havocs;
      var spliced, havoc;
      spliced, splices := MutSplice(inp);
      ok, havoc, havocs := MutHavoc(inp);
      var pumped := [];
      if ok {
        pumped := MutHavocRec(inp);
      }
      sent := spliced + havoc + pumped;
      WorkIs(ctx, cks, x, ok, RandomWork(splices, havocs, pumped), sent);
      RandomDerives(ctx, cks, x, ok, sent);
    }

    /**
     One processing step of an item that was taken from the queue: what its stage calls for,
     after which the queue gets it back. `ok` is false if generation throws.
     */
    method ProcessInput(queue: Queue, inp: QueueItem, testerMin: Tester, testerMinRec: Tester)
      returns (ok: bool, sent: seq<TreeMutation>, ghost pass: MinPass)
      requires Valid() && ItemValid(ctx.rules, inp) && inp.tree != mutator.scratchpad
      requires inp.state.DetState? ==> AllFit(ctx)
      modifies inp`state, inp`recursions, inp.tree, mutator.scratchpad, cks, queue
      ensures Valid() && ItemValid(ctx.rules, inp)
      ensures Advances(numberOfDeterministicMutations, old(LifeOf(inp)), LifeOf(inp))
      ensures old(inp.state).InitState? ==>
        && ok && sent == []
        && MinimizedBy(ctx.rules, ctx.ntsToMinSize, testerMin, testerMinRec, old(inp.tree.rules),
                       old(inp.state).start, old(inp.state).start + MIN_STRIDE, pass, !inp.state.InitState?, inp.tree.rules)
      ensures old(inp.state).InitState? && !inp.state.InitState? ==>
        TreeAdded(ctx.rules, ArraysOf(inp.tree), old(cks.seenOutputs), cks.seenOutputs, old(cks.trees), cks.trees)
      ensures !old(inp.state).InitState? || inp.state.InitState? ==> unchanged(cks)
      ensures !old(inp.state).InitState? ==> inp.tree.rules == old(inp.tree.rules) && inp.tree.Valid(ctx.rules)
      ensures old(inp.state).DetState? ==>
        DetSent(ctx, cks, SubjectOf(ctx.rules, inp.tree), old(inp.state.start), ok, sent)
      ensures old(inp.state).RandomState? ==> RandomSent(ctx, cks, SubjectOf(ctx.rules, inp.tree), ok, sent)
      ensures AllDerive(ctx.rules, sent)
      ensures queue.State() == if ok then FinishedSpec(old(queue.State()), inp) else old(queue.State())
      ensures !ok ==> NoRoom(ctx)
    {
      hide Valid, ItemValid, AllFit, NoRoom, DetSent, RandomSent, AllDerive, MinimizedBy, Accepted, AcceptsAll, CleanBelow;
      hide TreeAdded, ArraysOf, inp.tree.Valid, inp.tree.Shape, inp.tree.Root;
      ok, sent, pass := true, [], MinPass([], 0, [], Pulled([], []), 0);
      NoneDerive(ctx.rules);
      if inp.state.InitState? {
        pass := InitializeState(inp, testerMin, testerMinRec);
      } else if inp.state.DetState? {
        ok, sent := ApplyDetMuts(inp);
      } else {
        ok, sent := ApplyRandMuts(inp);
      }
      if ok {
        queue.Finished(inp);
      }
    }
  }

  lemma AddedIs(g: Grammar, tree: Tree, seen0: set<string>, seen: set<string>, trees0: seq<Arrays>, trees: seq<Arrays>)
    requires Stored(g, ArraysOf(tree)) && |tree.rules| == |tree.sizes|
    requires seen == seen0 + SmallTexts(g, ArraysOf(tree), |tree.rules|)
    requires trees == if seen == seen0 then trees0 else trees0 + [ArraysOf(tree)]
    ensures TreeAdded(g, ArraysOf(tree), seen0, seen, trees0, trees)
  {
  }

  lemma NoneDerive(g: Grammar)
    ensures AllDerive(g, [])
  {
  }

  lemma NothingSent()
    ensures Sent([]) == []
  {
  }

  lemma WorkIs(ctx: Context, cks: ChunkStore, x: Subject, ok: bool, w: RandomWork, sent: seq<TreeMutation>)
    requires SpliceTries(x, cks, w.splices) && HavocTries(BudgetOf(ctx), ctx.ntsToRules, x, ok, w.havocs)
    requires if ok then PumpTries(x, w.pumped) else w.pumped == []
    requires sent == Sent(w.splices) + Sent(w.havocs) + w.pumped
    ensures RandomSent(ctx, cks, x, ok, sent)
    ensures !ok ==> NoRoom(ctx)
  {
    hide SpliceTries, PumpTries, Sent, Throws, NoRoom;
    assert RandomWorkOn(ctx, cks, x, ok, w) && sent == AllSent(w);
    if !ok {
      var n :| Throws(BudgetOf(ctx), ctx.ntsToRules, x.rules, n);
      ThrowsNoRoom(ctx, x.rules, n);
    }
  }

  lemma TreeOfItem(g: Grammar, item: QueueItem)
    requires ItemValid(g, item)
    ensures item.tree.Valid(g)
  {
  }

  /** A pass of both minimizations, put together. */
  lemma PassIs(g: Grammar, m: Sizing, testerMin: Tester, testerMinRec: Tester, rules0: seq<RuleId>, start: nat, end: nat,
               pass: MinPass, minSimple: bool, minRec: bool, rules: seq<RuleId>)
    requires MinimizedTo(g, m, testerMin, pass.asked, rules0, start, pass.reached, pass.middle)
    requires ReducedTo(g, testerMinRec, pass.pulled, pass.middle, start, if start < end then end else |pass.middle|,
                       pass.reachedRec, rules)
    requires if minSimple then |pass.middle| <= pass.reached else pass.reached == end
    requires if minRec then |rules| <= pass.reachedRec else pass.reachedRec == end
    requires minSimple <==> end <= start || |pass.middle| < end
    requires start < end ==> (minRec <==> |rules| < end)
    ensures MinimizedBy(g, m, testerMin, testerMinRec, rules0, start, end, pass, minSimple && minRec, rules)
  {
    hide AsksInOrder, TriedFrom, NothingNew, AsksPulls, ResumedBy, HandledFrom, Replayed, Accepted, CleanBelow;
  }

  lemma PassFacts(g: Grammar, m: Sizing, testerMin: Tester, testerMinRec: Tester, rules0: seq<RuleId>, start: nat, end: nat,
                  pass: MinPass, done: bool, tree: Tree)
    requires tree.Valid(g) && MinimizedBy(g, m, testerMin, testerMinRec, rules0, start, end, pass, done, tree.rules)
    ensures |tree.rules| <= |pass.middle|
    ensures tree.rules == rules0 || (|tree.rules| < |rules0| &&
      (Accepted(testerMin, pass.asked, tree.rules) || Accepted(testerMinRec, pass.pulled.asked, tree.rules)))
    ensures AcceptsAll(testerMinRec) && IsDerivation(g, rules0) && CleanBelow(g, TreeOf(g, rules0), start) ==>
      if done then NoRepeats(g, tree.Shape(g)) else CleanBelow(g, tree.Shape(g), end)
  {
    hide MinimizedBy, Accepted, AcceptsAll, CleanBelow, NoRepeats, tree.Valid;
    ShapeIs(g, tree);
    PassAccepted(g, m, testerMin, testerMinRec, rules0, start, end, pass, done, tree.rules);
    if AcceptsAll(testerMinRec) && IsDerivation(g, rules0) && CleanBelow(g, TreeOf(g, rules0), start) {
      PassClean(g, m, testerMin, testerMinRec, rules0, start, end, pass, done, tree.rules);
    }
  }

  /** No derivation of `nt` has fewer than `n` nodes. */
  ghost predicate IsSmallest(g: Grammar, n: nat, nt: NTermId) {
    forall t :: DerivesTree(g, t, nt) ==> n <= CountTree(t)
  }

  /** What a minimization from the root on has achieved, and what the next one starts from. */
  lemma FromTheRoot(ctx: Context, tree: Tree)
    requires ctx.Ready() && tree.Valid(ctx.rules)
    ensures MinimalFrom(ctx.rules, ctx.ntsToMinSize, tree.Shape(ctx.rules), 0, |tree.rules|) ==>
      forall n: nat :: n <= |tree.rules| ==> IsSmallest(ctx.rules, n, tree.Root(ctx.rules))
    ensures CleanBelow(ctx.rules, tree.Shape(ctx.rules), 0)
  {
    NotEmpty(ctx.rules, tree);
    hide ctx.Ready, tree.Valid, tree.Shape, tree.Root, MinimalFrom, DerivesTree;
    if MinimalFrom(ctx.rules, ctx.ntsToMinSize, tree.Shape(ctx.rules), 0, |tree.rules|) {
      WholeMinimal(ctx, tree, |tree.rules|);
    }
  }

  lemma StateFacts(s: NautilusState)
    requires s.Valid()
    ensures s.ctx.Ready() && s.cks.Valid(s.ctx.rules)
  {
  }

  lemma StateBack(s: NautilusState)
    requires s.ctx.Ready() && s.cks.Valid(s.ctx.rules)
    ensures s.Valid()
  {
  }

  lemma RecursionsKnown(g: Grammar, f: Forest, recursions: Option<seq<RecursionInfo>>)
    requires recursions == None <==> NoRepeats(g, f)
    requires recursions.Some? ==> recursions.value != [] && forall info :: info in recursions.value ==>
      exists nt :: InfoFor(g, f, nt, info)
    requires recursions.Some? ==> forall n :: Repeats(g, f, n) ==> Listed(recursions.value, n)
    ensures RecursionsOf(g, f, recursions)
  {
    hide NoRepeats, Repeats, Listed, InfoFor;
  }

  // -------------------------------------------------------------- whole lives

  /** The successive lives of one item, one processing step apart. */
  ghost predicate LifeRun(n: nat, run: seq<Life>) {
    && run != []
    && forall k :: 0 < k < |run| ==> Advances(n, run[k - 1], run[k])
  }

  function Stage(state: ItemState): nat {
    match state
    case InitState(_) => 0
    case DetState(_, _) => 1
    case RandomState => 2
  }

  /** An item never goes back a stage, its tree never grows, and it is final once minimized. */
  lemma {:induction false} NeverBack(n: nat, run: seq<Life>, j: nat, k: nat)
    requires LifeRun(n, run) && j <= k < |run|
    ensures Stage(run[j].state) <= Stage(run[k].state)
    ensures run[k].size <= run[j].size
    ensures Stage(run[j].state) > 0 ==> run[k].size == run[j].size
    decreases k
  {
    if j < k {
      NeverBack(n, run, j, k - 1);
      assert Advances(n, run[k - 1], run[k]);
    }
  }

  lemma {:induction false} InitCursor(n: nat, run: seq<Life>, k: nat)
    requires LifeRun(n, run) && k < |run| && run[0].state == InitState(0) && run[k].state.InitState?
    ensures run[k].state.start == MIN_STRIDE * k
    ensures k > 0 ==> MIN_STRIDE * (k - 1) < run[0].size
  {
    if k > 0 {
      assert Advances(n, run[k - 1], run[k]);
      NeverBack(n, run, k - 1, k);
      NeverBack(n, run, 0, k - 1);
      InitCursor(n, run, k - 1);
    }
  }

  /** Minimization ends: once the start index has passed the tree's size, at the latest. */
  lemma InitEnds(n: nat, run: seq<Life>, k: nat)
    requires LifeRun(n, run) && 0 < k < |run| && run[0].state == InitState(0)
    requires MIN_STRIDE * (k - 1) >= run[0].size
    ensures !run[k].state.InitState?
  {
    if run[k].state.InitState? {
      InitCursor(n, run, k);
    }
  }

  /** Processing steps after which a deterministic phase with this tree size stands at (cycle, start). */
  function DetSteps(size: nat, cycle: nat, start: nat): (steps: nat)
    ensures start <= steps && (cycle > 0 ==> size < steps)
  {
    cycle * (size + 1) + start
  }

  lemma DetStepsNext(size: nat, cycle: nat)
    ensures DetSteps(size, cycle + 1, 0) == DetSteps(size, cycle, size) + 1
  {
  }

  /** The deterministic phase visits every node of every cycle, in order, and then one step past the end. */
  lemma {:induction false} DetVisits(n: nat, run: seq<Life>, j: nat, cycle: nat, start: nat)
    requires LifeRun(n, run) && j < |run| && run[j].state == DetState(0, 0)
    requires cycle <= n && start <= run[j].size && j + DetSteps(run[j].size, cycle, start) < |run|
    ensures run[j + DetSteps(run[j].size, cycle, start)] == Life(DetState(cycle, start), run[j].size)
    decreases cycle, start
  {
    var size := run[j].size;
    var k := j + DetSteps(size, cycle, start);
    if start > 0 {
      DetVisits(n, run, j, cycle, start - 1);
      assert Advances(n, run[k - 1], run[k]);
    } else if cycle > 0 {
      DetStepsNext(size, cycle - 1);
      DetVisits(n, run, j, cycle - 1, size);
      assert Advances(n, run[k - 1], run[k]);
    }
  }

  lemma StillDet(n: nat, run: seq<Life>, j: nat, k: nat)
    requires LifeRun(n, run) && j <= k < |run| && run[j].state == DetState(0, 0)
    requires k - j < (n + 1) * (run[j].size + 1)
    ensures run[k].state.DetState?
  {
    hide DetSteps, LifeRun, Advances;
    var size := run[j].size;
    var cycle, start := (k - j) / (size + 1), (k - j) % (size + 1);
    CycleInRange(n, size, k - j, cycle);
    DetVisits(n, run, j, cycle, start);
  }

  lemma PastDet(n: nat, run: seq<Life>, j: nat, k: nat)
    requires LifeRun(n, run) && j <= k < |run| && run[j].state == DetState(0, 0)
    requires k - j >= DetSteps(run[j].size, n + 1, 0)
    ensures run[k].state == RandomState
  {
    hide DetSteps;
    var size := run[j].size;
    var steps := DetSteps(size, n + 1, 0);
    DetStepsNext(size, n);
    DetVisits(n, run, j, n, size);
    assert Advances(n, run[j + steps - 1], run[j + steps]);
    NeverBack(n, run, j + steps, k);
  }

  /** The deterministic phase takes exactly (n + 1) * (size + 1) processing steps. */
  lemma DetPhaseLength(n: nat, run: seq<Life>, j: nat, k: nat)
    requires LifeRun(n, run) && j <= k < |run| && run[j].state == DetState(0, 0)
    ensures run[k].state.DetState? <==> k - j < (n + 1) * (run[j].size + 1)
    ensures run[k].state == RandomState <==> k - j >= (n + 1) * (run[j].size + 1)
  {
    hide LifeRun;
    if k - j < (n + 1) * (run[j].size + 1) {
      StillDet(n, run, j, k);
    } else {
      PastDet(n, run, j, k);
    }
  }

  lemma CycleInRange(n: nat, size: nat, i: nat, cycle: nat)
    requires i < (n + 1) * (size + 1) && cycle == i / (size + 1)
    ensures cycle <= n && i == DetSteps(size, cycle, i % (size + 1))
  {
    MulMono(n + 1, if cycle > n then cycle else n + 1, size + 1, size + 1);
  }

  /** So every item that is processed often enough is mutated at random in the end. */
  lemma EveryItemEndsRandom(n: nat, run: seq<Life>, k: nat)
    requires LifeRun(n, run) && run[0].state == InitState(0) && k < |run|
    requires k >= run[0].size / MIN_STRIDE + 2 + (n + 1) * (run[0].size + 1)
    ensures run[k].state == RandomState
  {
    var i := run[0].size / MIN_STRIDE + 2;
    LeavesInit(n, run, i);
    var j := FirstDet(n, run, i);
    NeverBack(n, run, 0, j);
    MulMono(n + 1, n + 1, run[j].size + 1, run[0].size + 1);
    DetPhaseLength(n, run, j, k);
  }

  lemma LeavesInit(n: nat, run: seq<Life>, i: nat)
    requires LifeRun(n, run) && run[0].state == InitState(0) && i < |run| && i == run[0].size / MIN_STRIDE + 2
    ensures !run[i].state.InitState?
  {
    InitEnds(n, run, i);
  }

  /** The first step at which the item is no longer being minimized starts the deterministic phase. */
  lemma {:induction false} FirstDet(n: nat, run: seq<Life>, i: nat) returns (j: nat)
    requires LifeRun(n, run) && run[0].state == InitState(0) && i < |run| && !run[i].state.InitState?
    ensures j <= i && run[j].state == DetState(0, 0)
  {
    assert Advances(n, run[i - 1], run[i]);
    if run[i - 1].state.InitState? {
      return i;
    }
    j := FirstDet(n, run, i - 1);
  }

  // ------------------------------------------------- what one cycle has tried

  function Flatten(sents: seq<seq<TreeMutation>>): seq<TreeMutation> {
    if sents == [] then [] else Flatten(sents[..|sents| - 1]) + sents[|sents| - 1]
  }

  lemma {:induction false} CycleSoFar(budget: Budget, f: Forest, index: map<NTermId, seq<RuleId>>, rules: seq<RuleId>,
                                      sents: seq<seq<TreeMutation>>)
    requires |sents| <= |rules| && forall r :: r in rules ==> r < |budget.g| && budget.g[r].nonterm in index
    requires forall k :: 0 <= k < |sents| ==> SentFor(budget, f, Alternatives(budget.g, index, rules, k, k + 1), sents[k])
    ensures SentFor(budget, f, Alternatives(budget.g, index, rules, 0, |sents|), Flatten(sents))
  {
    hide SentFor;
    if sents == [] {
      SentNone(budget, f, index, rules, 0, 0);
    } else {
      var i := |sents| - 1;
      CycleSoFar(budget, f, index, rules, sents[..i]);
      assert rules[i] in rules;
      OneNode(budget.g, index, rules, i);
      SentMore(budget, f, index, rules, 0, i, Flatten(sents[..i]), sents[i]);
    }
  }

  lemma OneNode(g: Grammar, index: map<NTermId, seq<RuleId>>, rules: seq<RuleId>, i: nat)
    requires i < |rules| && rules[i] < |g| && g[rules[i]].nonterm in index
    ensures Alternatives(g, index, rules, i, i + 1) == OtherRules(index[g[rules[i]].nonterm], rules[i], i)
  {
    assert Alternatives(g, index, rules, i, i) == [];
  }

  /** No alternative is listed twice. */
  ghost predicate Once(alts: seq<(nat, RuleId)>) {
    forall j, k :: 0 <= j < k < |alts| ==> alts[j] != alts[k]
  }

  lemma OnceAppend(a: seq<(nat, RuleId)>, b: seq<(nat, RuleId)>)
    requires Once(a) && Once(b) && forall p :: p in a ==> p !in b
    ensures Once(a + b)
  {
    forall j, k | 0 <= j < k < |a + b| ensures (a + b)[j] != (a + b)[k] {
      if j < |a| <= k {
        assert a[j] in a && b[k - |a|] in b;
      }
    }
  }

  lemma {:induction false} OtherRulesOnce(rs: seq<RuleId>, oldRule: RuleId, n: nat)
    requires forall j, k :: 0 <= j < k < |rs| ==> rs[j] != rs[k]
    ensures Once(OtherRules(rs, oldRule, n))
  {
    if rs != [] {
      var last := |rs| - 1;
      OtherRulesOnce(rs[..last], oldRule, n);
      OtherRulesExact(rs[..last], oldRule, n, (n, rs[last]));
      if rs[last] != oldRule {
        OnceAppend(OtherRules(rs[..last], oldRule, n), [(n, rs[last])]);
      }
    }
  }

  lemma IndexKnows(g: Grammar, index: map<NTermId, seq<RuleId>>, r: RuleId)
    requires IndexOf(g, index) && r < |g|
    ensures g[r].nonterm in index
  {
  }

  lemma AlternativesSplit(g: Grammar, index: map<NTermId, seq<RuleId>>, rules: seq<RuleId>, hi: nat, last: nat,
                          r: RuleId, a: seq<(nat, RuleId)>, b: seq<(nat, RuleId)>)
    requires hi == last + 1 <= |rules| && r == rules[last] && r < |g| && g[r].nonterm in index
    requires a == Alternatives(g, index, rules, 0, last) && b == OtherRules(index[g[r].nonterm], r, last)
    ensures Alternatives(g, index, rules, 0, hi) == a + b
  {
  }

  lemma ListOnce(g: Grammar, index: map<NTermId, seq<RuleId>>, nt: NTermId)
    requires IndexOf(g, index) && nt in index
    ensures forall j, k :: 0 <= j < k < |index[nt]| ==> index[nt][j] != index[nt][k]
  {
    assert Lists(g, nt, index[nt]);
  }

  /** Each alternative of the nodes in range is tried once. */
  lemma {:induction false} AlternativesOnce(g: Grammar, index: map<NTermId, seq<RuleId>>, rules: seq<RuleId>, hi: nat)
    requires IndexOf(g, index) && hi <= |rules| && forall k :: 0 <= k < |rules| ==> rules[k] < |g|
    ensures Once(Alternatives(g, index, rules, 0, hi))
    decreases hi
  {
    hide *;
    if hi == 0 {
      AlternativesNone(g, index, rules, 0, hi);
      NothingOnce();
    } else {
      var last := hi - 1;
      var r := rules[last];
      IndexKnows(g, index, r);
      var a, b := Alternatives(g, index, rules, 0, last), OtherRules(index[g[r].nonterm], r, last);
      AlternativesSplit(g, index, rules, hi, last, r, a, b);
      AlternativesOnce(g, index, rules, last);
      ListOnce(g, index, g[r].nonterm);
      OtherRulesOnce(index[g[r].nonterm], r, last);
      forall p | p in a ensures p !in b {
        AlternativesExact(g, index, rules, 0, last, p);
        OtherRulesExact(index[g[r].nonterm], r, last, p);
      }
      OnceAppend(a, b);
    }
  }

  lemma NothingOnce()
    ensures Once([])
  {
  }

  /** `sents` is what the steps of one deterministic cycle sent, node by node and then past the end. */
  ghost predicate CycleSent(budget: Budget, f: Forest, index: map<NTermId, seq<RuleId>>, rules: seq<RuleId>,
                            sents: seq<seq<TreeMutation>>) {
    && |sents| == |rules| + 1
    && (forall k :: 0 <= k < |rules| ==> SentFor(budget, f, Alternatives(budget.g, index, rules, k, k + 1), sents[k]))
    && SentFor(budget, f, Alternatives(budget.g, index, rules, |rules|, |rules|), sents[|rules|])
  }

  /**
   One deterministic cycle sends exactly one mutation for each node and each other rule of
   its nonterminal, and nothing else.
   */
  lemma CycleTriesAll(budget: Budget, index: map<NTermId, seq<RuleId>>, f: Forest, rules: seq<RuleId>,
                      sents: seq<seq<TreeMutation>>)
    requires IndexOf(budget.g, index) && forall k :: 0 <= k < |rules| ==> rules[k] < |budget.g|
    requires CycleSent(budget, f, index, rules, sents)
    ensures
      var alts := Alternatives(budget.g, index, rules, 0, |rules|);
      && SentFor(budget, f, alts, Flatten(sents))
      && Once(alts)
      && forall n: nat, r: RuleId :: (n, r) in alts <==>
           n < |rules| && r < |budget.g| && budget.g[r].nonterm == budget.g[rules[n]].nonterm && r != rules[n]
  {
    var last := |rules|;
    CycleSoFar(budget, f, index, rules, sents[..last]);
    assert Alternatives(budget.g, index, rules, last, last) == [];
    assert sents[last] == [];
    assert Flatten(sents) == Flatten(sents[..last]) + [];
    AlternativesOnce(budget.g, index, rules, last);
    forall n: nat, r: RuleId
      ensures (n, r) in Alternatives(budget.g, index, rules, 0, last) <==>
        n < last && r < |budget.g| && budget.g[r].nonterm == budget.g[rules[n]].nonterm && r != rules[n]
    {
      AlternativesExact(budget.g, index, rules, 0, last, (n, r));
    }
  }
}
