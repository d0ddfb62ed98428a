/**
 The mutator: replacing subtrees of a tree and asking a tester about the result. A tester
 runs the target program, so its answers are arbitrary and may change from call to call.
 */
module Mutators {
  import opened Grammars
  import opened Positions
  import opened Splicing
  import opened Trees
  import opened MinimalSizes
  import opened Contexts
  import opened Generating
  import opened Recursions
  import opened Minimizing

  /** Asks the tester about the splice and converts it if it is accepted. */
  method TestAndConvert(g: Grammar, treeA: Tree, nA: nat, treeB: Tree, nB: nat, tester: Tester, calls: nat)
    returns (t: Option<Tree>, ghost repl: TreeMutation)
    requires treeA.Valid(g) && treeB.Valid(g) && nA < |treeA.rules| && nB < |treeB.rules|
    requires NtAt(g, treeA.Shape(g), nA) == NtAt(g, treeB.Shape(g), nB)
    ensures Substitutes(g, treeA.Shape(g), nA, SubAt(treeB.Shape(g), nB), repl)
    ensures t.Some? <==> tester(calls, repl)
    ensures t.Some? ==> fresh(t.value) && t.value.Valid(g) && t.value.rules == repl.Whole()
    ensures t.Some? ==> t.value.Root(g) == treeA.Root(g) && t.value.Shape(g) == Replace(treeA.Shape(g), nA, SubAt(treeB.Shape(g), nB))
    ensures t.Some? ==> |t.value.rules| == |treeA.rules| - CountTree(SubAt(treeA.Shape(g), nA)) + CountTree(SubAt(treeB.Shape(g), nB))
  {
    NodeFacts(g, treeA, nA);
    NodeFacts(g, treeB, nB);
    SpliceRefines(g, treeA, nA, treeB, nB);
    SubAtBlock(treeB.Shape(g), nB);
    var mutation := treeA.MutateReplaceFromTree(nA, treeB, nB);
    repl := mutation;
    if tester(calls, mutation) {
      var ok, tree, left := ToTree(mutation, g);
      return Some(tree), repl;
    }
    return None, repl;
  }

  /**
   What both minimizations do with the answer: keep the mutated tree if it was accepted.
   `f` and `sub` name the tree before and the subtree to be put in.
   */
  method TestAndReplace(g: Grammar, tree: Tree, n: nat, other: Tree, m: nat, tester: Tester, calls: nat,
                        ghost f: Forest, ghost sub: Derivation) returns (accepted: bool, ghost repl: TreeMutation)
    requires tree.Valid(g) && other.Valid(g) && n < |tree.rules| && m < |other.rules|
    requires NtAt(g, tree.Shape(g), n) == NtAt(g, other.Shape(g), m)
    requires f == tree.Shape(g) && m < Count(other.Shape(g)) && sub == SubAt(other.Shape(g), m)
    modifies tree
    ensures tree.Valid(g) && tree.Root(g) == old(tree.Root(g))
    ensures Substitutes(g, f, n, sub, repl) && accepted == tester(calls, repl)
    ensures tree.rules == if accepted then repl.Whole() else old(tree.rules)
    ensures !accepted ==> unchanged(tree)
    ensures n < Count(f) && n < Count(Replace(f, n, sub))
    ensures tree.Shape(g) == if accepted then Replace(f, n, sub) else f
    ensures accepted ==> |tree.rules| + CountTree(SubAt(f, n)) == |old(tree.rules)| + CountTree(sub)
    ensures n < |tree.rules|
  {
    hide *;
    NodeNt(g, tree, n);
    NodeNt(g, other, m);
    ReplaceUndo(f, n, sub);
    var t;
    t, repl := TestAndConvert(g, tree, n, other, m, tester, calls);
    if t == None {
      return false, repl;
    }
    tree.MoveFrom(t.value);
    CopyValid(g, t.value, tree);
    ShapeIs(g, tree);
    return true, repl;
  }

  lemma ShapeIs(g: Grammar, tree: Tree)
    requires tree.Valid(g)
    ensures IsDerivation(g, tree.rules) && tree.Shape(g) == TreeOf(g, tree.rules)
    ensures Count(tree.Shape(g)) == |tree.rules|
  {
    TreeShape(g, tree.rules);
  }

  lemma NodeNt(g: Grammar, tree: Tree, i: nat)
    requires tree.Valid(g) && i < |tree.rules|
    ensures i < |tree.sizes| && tree.rules[i] < |g| && i < Count(tree.Shape(g))
    ensures NtAt(g, tree.Shape(g), i) == Some(g[tree.rules[i]].nonterm)
    ensures tree.sizes[i] == CountTree(SubAt(tree.Shape(g), i))
  {
    NodeFacts(g, tree, i);
  }

  class Mutator {
    /** Where replacement subtrees are generated; never the tree being mutated. */
    const scratchpad: Tree

    constructor (scratchpad: Tree)
      ensures this.scratchpad == scratchpad
    {
      this.scratchpad := scratchpad;
    }

    /**
     Replaces, node by node from `startIndex`, each subtree that is not of minimum size by a
     random smallest one, as long as the tester accepts. Ends for every tester. `asked` lists
     the mutations the tester was asked about, in order; every node before `reached` has had its turn.
     */
    method MinimizeTree(ctx: Context, tree: Tree, startIndex: nat, endIndex: nat, tester: Tester)
      returns (done: bool, ghost asked: seq<TreeMutation>, ghost reached: nat)
      requires ctx.Ready() && tree.Valid(ctx.rules) && tree != scratchpad
      modifies tree, scratchpad
      ensures tree.Valid(ctx.rules) && tree.Root(ctx.rules) == old(tree.Root(ctx.rules))
      ensures startIndex >= |old(tree.rules)| ==> tree.rules == old(tree.rules)
      ensures done <==> endIndex <= startIndex || |tree.rules| < endIndex
      ensures if done then |tree.rules| <= reached else reached == endIndex
      ensures MinimizedTo(ctx.rules, ctx.ntsToMinSize, tester, asked, old(tree.rules), startIndex, reached, tree.rules)
      ensures AcceptsAll(tester) ==>
        MinimalFrom(ctx.rules, ctx.ntsToMinSize, tree.Shape(ctx.rules), startIndex, if done then |tree.rules| else endIndex)
    {
      hide *;
      ghost var g, m, rules0, root := ctx.rules, ctx.ntsToMinSize, tree.rules, tree.Root(ctx.rules);
      ShapeIs(g, tree);
      MinimizedNone(g, m, tester, rules0, startIndex);
      asked := [];
      var i, calls := startIndex, 0;
      while i < |tree.rules|
        invariant ctx.Ready() && tree.Valid(g) && tree.Root(g) == root
        invariant calls == |asked| && |tree.rules| <= |rules0|
        invariant startIndex >= |rules0| ==> i == startIndex && tree.rules == rules0
        invariant startIndex <= i && (i > startIndex ==> i <= |tree.rules|)
        invariant startIndex < endIndex ==> i < endIndex
        invariant MinimizedTo(g, m, tester, asked, rules0, startIndex, i, tree.rules)
        decreases |tree.rules| - i
      {
        ghost var f, rules := tree.Shape(g), tree.rules;
        ghost var sub, repl;
        ReadyFacts(ctx, tree);
        ShapeIs(g, tree);
        calls, sub, repl := MinimizeNode(ctx, tree, f, i, tester, calls);
        var next := i + 1;
        MinimizedTurn(g, m, ctx.rulesToMinSize, tester, asked, rules0, startIndex, i, next, rules,
                      f, root, sub, repl, tree.rules);
        if !MinimalAt(g, m, f, i) { asked := asked + [repl]; }
        i := next;
        if i == endIndex {
          MinimizedMeans(g, m, tester, asked, rules0, startIndex, i, tree);
          return false, asked, i;
        }
      }
      MinimizedMeans(g, m, tester, asked, rules0, startIndex, i, tree);
      return true, asked, i;
    }

    /** Fills the scratchpad with a smallest tree of `nt`. */
    method GenerateSmallest(ctx: Context, nt: NTermId) returns (ghost sub: Derivation)
      requires ctx.Ready() && nt in ctx.ntsToMinSize
      modifies scratchpad
      ensures scratchpad.Valid(ctx.rules) && |scratchpad.rules| > 0 && 0 < Count(scratchpad.Shape(ctx.rules))
      ensures NtAt(ctx.rules, scratchpad.Shape(ctx.rules), 0) == Some(nt)
      ensures sub == SubAt(scratchpad.Shape(ctx.rules), 0) && DerivesTree(ctx.rules, sub, nt)
      ensures CountTree(sub) == ctx.ntsToMinSize[nt]
    {
      hide *;
      var ok := GenerateFromNT(ctx, scratchpad, nt, ctx.ntsToMinSize[nt]);
      SmallestRoot(ctx.rules, scratchpad, nt);
      sub := SubAt(scratchpad.Shape(ctx.rules), 0);
    }

    /** One turn of the loop of `MinimizeTree`, in which the tester is asked its `calls`-th question at most. */
    method MinimizeNode(ctx: Context, tree: Tree, ghost f: Forest, i: nat, tester: Tester, calls: nat)
      returns (calls': nat, ghost sub: Derivation, ghost repl: TreeMutation)
      requires ctx.Ready() && tree.Valid(ctx.rules) && tree != scratchpad && i < |tree.rules|
      requires f == tree.Shape(ctx.rules)
      modifies tree, scratchpad
      ensures tree.Valid(ctx.rules) && tree.Root(ctx.rules) == old(tree.Root(ctx.rules))
      ensures i < |tree.rules| <= |old(tree.rules)| && i < Count(f)
      ensures MinimalAt(ctx.rules, ctx.ntsToMinSize, f, i) ==> unchanged(tree) && calls' == calls
      ensures !MinimalAt(ctx.rules, ctx.ntsToMinSize, f, i) ==>
        && IsSmallestFor(ctx.rules, ctx.ntsToMinSize, f, i, sub)
        && Substitutes(ctx.rules, f, i, sub, repl)
        && calls' == calls + 1
        && tree.rules == if tester(calls, repl) then repl.Whole() else old(tree.rules)
    {
      hide *;
      var g := ctx.rules;
      ghost var m, byRule, root := ctx.ntsToMinSize, ctx.rulesToMinSize, tree.Root(g);
      ReadyFacts(ctx, tree);
      NodeNt(g, tree, i);
      var nt := g[tree.rules[i]].nonterm;
      NodeMin(g, m, byRule, f, root, i, nt);
      MinimalMeans(g, m, f, i, nt);
      calls' := calls;
      if tree.sizes[i] > ctx.ntsToMinSize[nt] {
        sub := GenerateSmallest(ctx, nt);
        var accepted;
        accepted, repl := TestAndReplace(g, tree, i, scratchpad, 0, tester, calls, f, sub);
        calls' := calls + 1;
      } else {
        sub, repl := SubAt(f, i), TreeMutation([], [], []);
      }
    }

    // --------------------------------------------------------- recursive minimization

    /**
     Replaces an ancestor by a descendant of the same nonterminal wherever the tester accepts,
     and goes back to the ancestor's place when it has. Ends for every tester, because every
     step back follows a strict shrinking of the tree. `pulled` lists the questions put to the
     tester, in order; every node before `reached` has been handled.
     */
    method MinimizeRec(g: Grammar, tree: Tree, startIndex: nat, endIndex: nat, tester: Tester)
      returns (done: bool, ghost pulled: Pulled, ghost reached: nat)
      requires tree.Valid(g)
      modifies tree
      ensures tree.Valid(g) && tree.Root(g) == old(tree.Root(g))
      ensures startIndex >= |old(tree.rules)| ==> done && tree.rules == old(tree.rules)
      ensures startIndex < endIndex ==> (done <==> |tree.rules| < endIndex)
      ensures if done then |tree.rules| <= reached else reached == endIndex
      ensures ReducedTo(g, tester, pulled, old(tree.rules), startIndex,
                        if startIndex < endIndex then endIndex else |old(tree.rules)|, reached, tree.rules)
      ensures AcceptsAll(tester) && old(CleanBelow(g, tree.Shape(g), startIndex)) ==>
        if done then NoRepeats(g, tree.Shape(g)) else CleanBelow(g, tree.Shape(g), endIndex)
    {
      hide *;
      ghost var rules0, root := tree.rules, tree.Root(g);
      ghost var hi := if startIndex < endIndex then endIndex else |rules0|;
      ShapeIs(g, tree);
      ReducedNone(g, tester, rules0, startIndex, hi);
      pulled := Pulled([], []);
      var i: nat, calls := startIndex, 0;
      while i < |tree.rules|
        invariant tree.Valid(g) && tree.Root(g) == root
        invariant calls == |pulled.asked| && |tree.rules| <= |rules0|
        invariant startIndex >= |rules0| ==> i == startIndex && tree.rules == rules0
        invariant startIndex < endIndex ==> i < endIndex
        invariant ReducedTo(g, tester, pulled, rules0, startIndex, hi, i, tree.rules)
        decreases |tree.rules|, |tree.rules| - i
      {
        ghost var f, rules := tree.Shape(g), tree.rules;
        ghost var p, repl;
        var next;
        ValidFacts(g, tree);
        ShapeIs(g, tree);
        next, calls, p, repl := MinimizeRecNode(g, tree, f, i, tester, calls);
        next := next + 1;
        ReducedTurn(g, tester, pulled, rules0, startIndex, hi, i, next, rules, f, root, p, repl, tree.rules);
        AddAsked(pulled, repl, i);
        if Repeats(g, f, i) { pulled := Add(pulled, repl, i); }
        i := next;
        if i == endIndex {
          ReducedMeans(g, tester, pulled, rules0, startIndex, hi, i, tree);
          return false, pulled, i;
        }
      }
      ReducedMeans(g, tester, pulled, rules0, startIndex, hi, i, tree);
      CleanAll(g, tree, i);
      return true, pulled, i;
    }

    /** One turn of the loop of `MinimizeRec`; `next` is where the cursor stands before the increment. */
    method MinimizeRecNode(g: Grammar, tree: Tree, ghost f: Forest, i: nat, tester: Tester, calls: nat)
      returns (next: nat, calls': nat, ghost p: nat, ghost repl: TreeMutation)
      requires tree.Valid(g) && i < |tree.rules| && f == tree.Shape(g)
      modifies tree
      ensures tree.Valid(g) && tree.Root(g) == old(tree.Root(g))
      ensures i < Count(f)
      ensures !Repeats(g, f, i) ==> unchanged(tree) && calls' == calls && next == i
      ensures Repeats(g, f, i) ==>
        && p < i && NearestSame(g, f, p, i)
        && Substitutes(g, f, p, SubAt(f, i), repl)
        && calls' == calls + 1
        && tree.rules == (if tester(calls, repl) then repl.Whole() else old(tree.rules))
        && next == if tester(calls, repl) then p else i
      ensures next <= i && next < |tree.rules| && (next < i ==> |tree.rules| < |old(tree.rules)|)
    {
      hide *;
      next, calls', p, repl := i, calls, 0, TreeMutation([], [], []);
      NodeNt(g, tree, i);
      var parent := FindParentWithNT(g, tree, i);
      if parent.Some? {
        ghost var sub := SubAt(f, i);
        NearestFacts(g, f, parent.value, i);
        ShapeIs(g, tree);
        p := parent.value;
        var accepted;
        accepted, repl := TestAndReplace(g, tree, parent.value, tree, i, tester, calls, f, sub);
        calls' := calls + 1;
        if accepted {
          next := parent.value;
        }
      }
    }

    // -------------------------------------------------------------- random mutations

    /**
     Sends to the tester, for each node from `startIndex` on and each other rule of its
     nonterminal, the tree with that node's subtree replaced by a random tree of that rule.
     `sent` lists the mutations in the order the tester saw them. The caller guarantees that
     every rule's minimum fits the context's maximum length.
     */
    method MutRules(ctx: Context, tree: Tree, startIndex: nat, endIndex: nat)
      returns (done: bool, sent: seq<TreeMutation>)
      requires ctx.Ready() && tree.Valid(ctx.rules) && tree != scratchpad && AllFit(ctx)
      requires startIndex <= |tree.rules|
      modifies scratchpad
      ensures done <==> |tree.rules| < endIndex
      ensures SentFor(BudgetOf(ctx), tree.Shape(ctx.rules),
                      Alternatives(ctx.rules, ctx.ntsToRules, tree.rules, startIndex, if done then |tree.rules| else endIndex),
                      sent)
    {
      hide *;
      BudgetGrammar(ctx);
      sent := [];
      SentNone(BudgetOf(ctx), tree.Shape(ctx.rules), ctx.ntsToRules, tree.rules, startIndex, endIndex);
      var i := startIndex;
      while i < endIndex
        invariant ctx.Ready() && tree.Valid(ctx.rules) && AllFit(ctx)
        invariant startIndex <= i <= |tree.rules| && (i == startIndex || i <= endIndex)
        invariant SentFor(BudgetOf(ctx), tree.Shape(ctx.rules),
                          Alternatives(ctx.rules, ctx.ntsToRules, tree.rules, startIndex, i), sent)
      {
        if i == |tree.rules| {
          return true, sent;
        }
        var more := MutRulesNode(ctx, tree, i);
        SentMore(BudgetOf(ctx), tree.Shape(ctx.rules), ctx.ntsToRules, tree.rules, startIndex, i, sent, more);
        sent := sent + more;
        i := i + 1;
      }
      if endIndex < i {
        SentNone(BudgetOf(ctx), tree.Shape(ctx.rules), ctx.ntsToRules, tree.rules, startIndex, endIndex);
      }
      return false, sent;
    }

    /** The inner loop of `MutRules`: all other rules of node `i`. */
    method MutRulesNode(ctx: Context, tree: Tree, i: nat) returns (sent: seq<TreeMutation>)
      requires ctx.Ready() && tree.Valid(ctx.rules) && tree != scratchpad && AllFit(ctx)
      requires i < |tree.rules|
      modifies scratchpad
      ensures tree.rules[i] < |ctx.rules| && ctx.rules[tree.rules[i]].nonterm in ctx.ntsToRules
      ensures SentFor(BudgetOf(ctx), tree.Shape(ctx.rules),
                      OtherRules(ctx.ntsToRules[ctx.rules[tree.rules[i]].nonterm], tree.rules[i], i), sent)
    {
      hide *;
      BudgetGrammar(ctx);
      NodeRules(ctx, tree, i);
      var oldRule := tree.rules[i];
      var ruleIds := ctx.ntsToRules[ctx.rules[oldRule].nonterm];
      ghost var f := tree.Shape(ctx.rules);
      sent := [];
      SentStart(BudgetOf(ctx), f, ruleIds, oldRule, i);
      var k := 0;
      while k < |ruleIds|
        invariant 0 <= k <= |ruleIds|
        invariant ctx.Ready() && tree.Valid(ctx.rules) && AllFit(ctx) && f == tree.Shape(ctx.rules)
        invariant SentFor(BudgetOf(ctx), f, OtherRules(ruleIds[..k], oldRule, i), sent)
      {
        OtherRulesNext(ruleIds, k, oldRule, i);
        if oldRule != ruleIds[k] {
          assert ruleIds[k] in ruleIds;
          var repl := MutateByRule(ctx, tree, f, i, ruleIds[k]);
          SentOne(BudgetOf(ctx), f, OtherRules(ruleIds[..k], oldRule, i), sent, i, ruleIds[k], repl);
          sent := sent + [repl];
        }
        k := k + 1;
      }
      assert ruleIds[..k] == ruleIds;
    }

    /** One mutation of `MutRules`. */
    method MutateByRule(ctx: Context, tree: Tree, ghost f: Forest, n: nat, r: RuleId) returns (repl: TreeMutation)
      requires ctx.Ready() && tree.Valid(ctx.rules) && tree != scratchpad && AllFit(ctx) && f == tree.Shape(ctx.rules)
      requires n < |tree.rules| && r < |ctx.rules| && NtAt(ctx.rules, f, n) == Some(ctx.rules[r].nonterm)
      modifies scratchpad
      ensures RuleMutation(BudgetOf(ctx), f, n, r, repl)
    {
      hide *;
      BudgetGrammar(ctx);
      FitsRule(ctx, r);
      GenerateFromRule(ctx, scratchpad, r, ctx.maxLen);
      IsWithinRule(ctx, r, |scratchpad.rules|);
      RootIs(ctx.rules, scratchpad);
      SmallestRoot(ctx.rules, scratchpad, ctx.rules[r].nonterm);
      repl := Splice(ctx.rules, tree, n, scratchpad, 0);
      IsRuleMutation(BudgetOf(ctx), f, n, SubAt(scratchpad.Shape(ctx.rules), 0), repl);
    }

    /**
     Replaces a random node's subtree by a random one of the same nonterminal, if that
     nonterminal has other rules. `ok` is false when generation throws because the
     nonterminal's minimum exceeds the context's maximum length.
     */
    method MutRandom(ctx: Context, tree: Tree) returns (ok: bool, ghost n: nat, sent: Option<TreeMutation>)
      requires ctx.Ready() && tree.Valid(ctx.rules) && tree != scratchpad
      modifies scratchpad
      ensures n < |tree.rules| && tree.rules[n] < |ctx.rules| && ctx.rules[tree.rules[n]].nonterm in ctx.ntsToRules
      ensures var nt := ctx.rules[tree.rules[n]].nonterm;
        && (sent.Some? <==> ok && |ctx.ntsToRules[nt]| > 1)
        && (ok <==> |ctx.ntsToRules[nt]| <= 1 || (nt in ctx.ntsToMinSize && ctx.ntsToMinSize[nt] <= ctx.maxLen))
      ensures sent.Some? ==> scratchpad.Valid(ctx.rules) && 0 < Count(scratchpad.Shape(ctx.rules))
      ensures sent.Some? ==>
        var nt, sub := ctx.rules[tree.rules[n]].nonterm, SubAt(scratchpad.Shape(ctx.rules), 0);
        && Substitutes(ctx.rules, tree.Shape(ctx.rules), n, sub, sent.value)
        && DerivesTree(ctx.rules, sub, nt) && nt in ctx.ntsToMinSize
        && ctx.ntsToMinSize[nt] <= CountTree(sub) <= ctx.maxLen
    {
      hide *;
      ShapeIs(ctx.rules, tree);
      NotEmpty(ctx.rules, tree);
      var node := Random(0, |tree.rules| - 1);
      n := node;
      NodeRules(ctx, tree, node);
      NodeNt(ctx.rules, tree, node);
      var nterm := ctx.rules[tree.rules[node]].nonterm;
      if |ctx.ntsToRules[nterm]| > 1 {
        ok := GenerateFromNT(ctx, scratchpad, nterm, ctx.maxLen);
        if !ok {
          return ok, n, None;
        }
        SmallestRoot(ctx.rules, scratchpad, nterm);
        var repl := Splice(ctx.rules, tree, node, scratchpad, 0);
        return true, n, Some(repl);
      }
      return true, n, None;
    }
  }

  /** The splice of a subtree into another tree, as all the random mutations build it. */
  method Splice(g: Grammar, tree: Tree, n: nat, other: Tree, m: nat) returns (repl: TreeMutation)
    requires tree.Valid(g) && other.Valid(g) && n < |tree.rules| && m < |other.rules|
    requires NtAt(g, tree.Shape(g), n) == NtAt(g, other.Shape(g), m)
    ensures m < Count(other.Shape(g)) && Substitutes(g, tree.Shape(g), n, SubAt(other.Shape(g), m), repl)
    ensures SubAt(other.Shape(g), m).rule == other.rules[m]
    ensures IsDerivation(g, repl.Whole()) && RootNT(g, repl.Whole()) == tree.Root(g)
  {
    NodeFacts(g, tree, n);
    NodeFacts(g, other, m);
    SpliceRefines(g, tree, n, other, m);
    SubAtBlock(other.Shape(g), m);
    repl := tree.MutateReplaceFromTree(n, other, m);
  }

  /** Every rule can be generated within the context's maximum length. */
  ghost predicate AllFit(ctx: Context)
    reads ctx
  {
    forall r: RuleId :: r < |ctx.rules| ==> Affordable(ctx, r, ctx.maxLen)
  }

  lemma FitsRule(ctx: Context, r: RuleId)
    requires AllFit(ctx) && r < |ctx.rules|
    ensures Affordable(ctx, r, ctx.maxLen)
  {
  }

  /** What bounds a generated tree: the grammar, its nonterminals' minima and the maximum length. */
  datatype Budget = Budget(g: Grammar, least: Sizing, most: nat)

  function BudgetOf(ctx: Context): Budget
    reads ctx
  {
    Budget(ctx.rules, ctx.ntsToMinSize, ctx.maxLen)
  }

  /** `n` nodes are enough for rule `r`, and no more than the budget allows below its root. */
  ghost predicate WithinRule(budget: Budget, r: RuleId, n: nat) {
    && r < |budget.g| && Known(Nonterms(budget.g, r), budget.least)
    && Sum(Nonterms(budget.g, r), budget.least) < n <= budget.most + 1
  }

  /** `m` is `f` with the subtree at `n` replaced by some tree of rule `r` within the budget. */
  ghost predicate RuleMutation(budget: Budget, f: Forest, n: nat, r: RuleId, m: TreeMutation) {
    exists sub: Derivation ::
      sub.rule == r && Substitutes(budget.g, f, n, sub, m) && WithinRule(budget, r, CountTree(sub))
  }

  lemma IsRuleMutation(budget: Budget, f: Forest, n: nat, sub: Derivation, m: TreeMutation)
    requires Substitutes(budget.g, f, n, sub, m) && WithinRule(budget, sub.rule, CountTree(sub))
    ensures RuleMutation(budget, f, n, sub.rule, m)
  {
  }

  lemma BudgetGrammar(ctx: Context)
    ensures BudgetOf(ctx).g == ctx.rules
  {
  }

  lemma IsWithinRule(ctx: Context, r: RuleId, n: nat)
    requires Affordable(ctx, r, ctx.maxLen)
    requires Sum(Nonterms(ctx.rules, r), ctx.ntsToMinSize) < n <= ctx.maxLen + 1
    ensures WithinRule(BudgetOf(ctx), r, n)
  {
  }

  lemma RootIs(g: Grammar, tree: Tree)
    requires tree.Valid(g)
    ensures tree.rules != [] && tree.rules[0] < |g| && tree.Root(g) == g[tree.rules[0]].nonterm
  {
  }

  /** The rules of `rs` other than `oldRule`, as alternatives for node `n`. */
  function OtherRules(rs: seq<RuleId>, oldRule: RuleId, n: nat): seq<(nat, RuleId)> {
    if rs == [] then []
    else OtherRules(rs[..|rs| - 1], oldRule, n) +
         if rs[|rs| - 1] == oldRule then [] else [(n, rs[|rs| - 1])]
  }

  /** All alternatives for the nodes `lo..hi`. */
  function Alternatives(g: Grammar, index: map<NTermId, seq<RuleId>>, rules: seq<RuleId>, lo: nat, hi: nat): seq<(nat, RuleId)>
    decreases hi
  {
    if hi <= lo || hi > |rules| then []
    else Alternatives(g, index, rules, lo, hi - 1) +
         var r := rules[hi - 1];
         if r < |g| && g[r].nonterm in index then OtherRules(index[g[r].nonterm], r, hi - 1) else []
  }

  lemma {:induction false} OtherRulesExact(rs: seq<RuleId>, oldRule: RuleId, n: nat, p: (nat, RuleId))
    ensures p in OtherRules(rs, oldRule, n) <==> p.0 == n && p.1 in rs && p.1 != oldRule
  {
    if rs != [] {
      assert rs == rs[..|rs| - 1] + [rs[|rs| - 1]];
      OtherRulesExact(rs[..|rs| - 1], oldRule, n, p);
    }
  }

  /** The alternatives are exactly the other rules of the nodes in range. */
  lemma {:induction false} AlternativesExact(g: Grammar, index: map<NTermId, seq<RuleId>>, rules: seq<RuleId>,
                                             lo: nat, hi: nat, p: (nat, RuleId))
    requires IndexOf(g, index) && hi <= |rules| && forall k :: 0 <= k < |rules| ==> rules[k] < |g|
    ensures p in Alternatives(g, index, rules, lo, hi) <==>
      lo <= p.0 < hi && p.1 < |g| && g[p.1].nonterm == g[rules[p.0]].nonterm && p.1 != rules[p.0]
    decreases hi
  {
    hide *;
    if lo < hi {
      var r := rules[hi - 1];
      AlternativesLast(g, index, rules, lo, hi, p);
      AlternativesExact(g, index, rules, lo, hi - 1, p);
      OtherRulesExact(index[g[r].nonterm], r, hi - 1, p);
      ListExact(g, index, g[r].nonterm, p.1);
    } else {
      AlternativesNone(g, index, rules, lo, hi);
    }
  }

  lemma AlternativesLast(g: Grammar, index: map<NTermId, seq<RuleId>>, rules: seq<RuleId>, lo: nat, hi: nat, p: (nat, RuleId))
    requires IndexOf(g, index) && lo < hi <= |rules| && rules[hi - 1] < |g|
    ensures g[rules[hi - 1]].nonterm in index
    ensures p in Alternatives(g, index, rules, lo, hi) <==>
      p in Alternatives(g, index, rules, lo, hi - 1) ||
      p in OtherRules(index[g[rules[hi - 1]].nonterm], rules[hi - 1], hi - 1)
  {
  }

  lemma AlternativesNone(g: Grammar, index: map<NTermId, seq<RuleId>>, rules: seq<RuleId>, lo: nat, hi: nat)
    requires hi <= lo
    ensures Alternatives(g, index, rules, lo, hi) == []
  {
  }

  lemma ListExact(g: Grammar, index: map<NTermId, seq<RuleId>>, nt: NTermId, r: RuleId)
    requires IndexOf(g, index) && nt in index
    ensures r in index[nt] <==> r < |g| && g[r].nonterm == nt
  {
    assert Lists(g, nt, index[nt]);
  }

  /** The mutations sent are one for each alternative, in order. */
  ghost predicate SentFor(budget: Budget, f: Forest, alts: seq<(nat, RuleId)>, sent: seq<TreeMutation>) {
    && |sent| == |alts|
    && forall k :: 0 <= k < |sent| ==> RuleMutation(budget, f, alts[k].0, alts[k].1, sent[k])
  }

  lemma SentNone(budget: Budget, f: Forest, index: map<NTermId, seq<RuleId>>, rules: seq<RuleId>, lo: nat, hi: nat)
    ensures SentFor(budget, f, Alternatives(budget.g, index, rules, lo, lo), [])
    ensures hi <= lo ==> SentFor(budget, f, Alternatives(budget.g, index, rules, lo, hi), [])
  {
  }

  lemma SentMore(budget: Budget, f: Forest, index: map<NTermId, seq<RuleId>>, rules: seq<RuleId>, lo: nat, i: nat,
                 sent: seq<TreeMutation>, more: seq<TreeMutation>)
    requires lo <= i < |rules| && rules[i] < |budget.g| && budget.g[rules[i]].nonterm in index
    requires SentFor(budget, f, Alternatives(budget.g, index, rules, lo, i), sent)
    requires SentFor(budget, f, OtherRules(index[budget.g[rules[i]].nonterm], rules[i], i), more)
    ensures SentFor(budget, f, Alternatives(budget.g, index, rules, lo, i + 1), sent + more)
  {
    var a, b := Alternatives(budget.g, index, rules, lo, i), OtherRules(index[budget.g[rules[i]].nonterm], rules[i], i);
    assert Alternatives(budget.g, index, rules, lo, i + 1) == a + b;
    SentBoth(budget, f, a, b, sent, more);
  }

  lemma SentBoth(budget: Budget, f: Forest, a: seq<(nat, RuleId)>, b: seq<(nat, RuleId)>,
                 sent: seq<TreeMutation>, more: seq<TreeMutation>)
    requires SentFor(budget, f, a, sent) && SentFor(budget, f, b, more)
    ensures SentFor(budget, f, a + b, sent + more)
  {
    hide RuleMutation;
    forall k | |sent| <= k < |sent + more|
      ensures RuleMutation(budget, f, (a + b)[k].0, (a + b)[k].1, (sent + more)[k])
    {
      assert (sent + more)[k] == more[k - |sent|] && (a + b)[k] == b[k - |sent|];
    }
  }

  lemma SentStart(budget: Budget, f: Forest, ruleIds: seq<RuleId>, oldRule: RuleId, i: nat)
    ensures SentFor(budget, f, OtherRules(ruleIds[..0], oldRule, i), [])
  {
  }

  lemma OtherRulesNext(rs: seq<RuleId>, k: nat, oldRule: RuleId, n: nat)
    requires k < |rs|
    ensures OtherRules(rs[..k + 1], oldRule, n) ==
      OtherRules(rs[..k], oldRule, n) + if rs[k] == oldRule then [] else [(n, rs[k])]
    ensures rs[k] == oldRule ==> OtherRules(rs[..k + 1], oldRule, n) == OtherRules(rs[..k], oldRule, n)
  {
    assert rs[..k + 1][..k] == rs[..k];
  }

  lemma SentOne(budget: Budget, f: Forest, alts: seq<(nat, RuleId)>, sent: seq<TreeMutation>, n: nat, r: RuleId, m: TreeMutation)
    requires SentFor(budget, f, alts, sent) && RuleMutation(budget, f, n, r, m)
    ensures SentFor(budget, f, alts + [(n, r)], sent + [m])
  {
  }

  /** The rules of a node's nonterminal all define that nonterminal. */
  lemma NodeRules(ctx: Context, tree: Tree, i: nat)
    requires ctx.Ready() && tree.Valid(ctx.rules) && i < |tree.rules|
    ensures tree.rules[i] < |ctx.rules| && ctx.rules[tree.rules[i]].nonterm in ctx.ntsToRules
    ensures NtAt(ctx.rules, tree.Shape(ctx.rules), i) == Some(ctx.rules[tree.rules[i]].nonterm)
    ensures forall r :: r in ctx.ntsToRules[ctx.rules[tree.rules[i]].nonterm] ==>
      r < |ctx.rules| && ctx.rules[r].nonterm == ctx.rules[tree.rules[i]].nonterm
  {
    NodeFacts(ctx.rules, tree, i);
    var nt := ctx.rules[tree.rules[i]].nonterm;
    ctx.ListFacts(nt);
  }

  lemma NotEmpty(g: Grammar, tree: Tree)
    requires tree.Valid(g)
    ensures |tree.rules| > 0
  {
  }

  lemma CleanAll(g: Grammar, tree: Tree, i: nat)
    requires tree.Valid(g) && i >= |tree.rules|
    ensures CleanBelow(g, tree.Shape(g), i) ==> NoRepeats(g, tree.Shape(g))
  {
    ShapeIs(g, tree);
    hide CleanBelow, NoRepeats;
    if CleanBelow(g, tree.Shape(g), i) { CleanPast(g, tree.rules, i, i); }
  }

  /** A tree whose root is minimal is a smallest derivation of its nonterminal. */
  lemma WholeMinimal(ctx: Context, tree: Tree, k: nat)
    requires ctx.Ready() && tree.Valid(ctx.rules) && k > 0
    requires MinimalFrom(ctx.rules, ctx.ntsToMinSize, tree.Shape(ctx.rules), 0, k)
    ensures forall t :: DerivesTree(ctx.rules, t, tree.Root(ctx.rules)) ==> |tree.rules| <= CountTree(t)
  {
    var g, f, nt := ctx.rules, tree.Shape(ctx.rules), tree.Root(ctx.rules);
    TreeShape(g, tree.rules);
    NodeNt(g, tree, 0);
    assert MinimalAt(g, ctx.ntsToMinSize, f, 0);
    forall t | DerivesTree(g, t, nt) ensures |tree.rules| <= CountTree(t) {
      MinKnown(g, ctx.ntsToMinSize, ctx.rulesToMinSize, nt, t);
    }
  }

  /** One turn of the loop extends the history. */
  lemma MinimizedTurn(g: Grammar, m: Sizing, byRule: map<RuleId, nat>, tester: Tester, asked: seq<TreeMutation>,
                      rules0: seq<RuleId>, lo: nat, i: nat, next: nat, rules: seq<RuleId>, f: Forest, root: NTermId,
                      sub: Derivation, repl: TreeMutation, rules': seq<RuleId>)
    requires MinimizedTo(g, m, tester, asked, rules0, lo, i, rules) && lo <= i && next == i + 1
    requires Exact(g, m, byRule) && f == TreeOf(g, rules) && Derives(g, f, [root]) && Pre(f) == rules && i < Count(f)
    requires MinimalAt(g, m, f, i) ==> rules' == rules
    requires !MinimalAt(g, m, f, i) ==>
      && IsSmallestFor(g, m, f, i, sub) && Substitutes(g, f, i, sub, repl)
      && rules' == if tester(|asked|, repl) then repl.Whole() else rules
    ensures MinimizedTo(g, m, tester, if MinimalAt(g, m, f, i) then asked else asked + [repl], rules0, lo, next, rules')
  {
    hide *;
    if MinimalAt(g, m, f, i) {
      MinimizedSkip(g, m, tester, asked, rules0, lo, i, rules);
    } else {
      MinimizedAsk(g, m, byRule, tester, asked, rules0, lo, i, rules, f, root, sub, repl, rules');
    }
  }

  lemma MinimizedMeans(g: Grammar, m: Sizing, tester: Tester, asked: seq<TreeMutation>, rules0: seq<RuleId>,
                       lo: nat, i: nat, tree: Tree)
    requires tree.Valid(g) && MinimizedTo(g, m, tester, asked, rules0, lo, i, tree.rules)
    ensures AcceptsAll(tester) ==> MinimalFrom(g, m, tree.Shape(g), lo, i)
    ensures AcceptsAll(tester) && |tree.rules| <= i ==> MinimalFrom(g, m, tree.Shape(g), lo, |tree.rules|)
  {
    ShapeIs(g, tree);
    hide MinimalAt, Replayed, AsksInOrder, NothingNew, SameOrSmaller, TriedFrom, Refused;
    TriedMeans(g, m, tree.Shape(g), tester, asked, lo, i);
  }

  lemma ReducedTurn(g: Grammar, tester: Tester, s: Pulled, rules0: seq<RuleId>, lo: nat, hi: nat, i: nat, next: nat,
                    rules: seq<RuleId>, f: Forest, root: NTermId, p: nat, repl: TreeMutation, rules': seq<RuleId>)
    requires ReducedTo(g, tester, s, rules0, lo, hi, i, rules) && i < hi
    requires f == TreeOf(g, rules) && Derives(g, f, [root]) && Pre(f) == rules && i < Count(f)
    requires !Repeats(g, f, i) ==> rules' == rules && next == i + 1
    requires Repeats(g, f, i) ==>
      && NearestSame(g, f, p, i) && Substitutes(g, f, p, SubAt(f, i), repl)
      && rules' == (if tester(|s.asked|, repl) then repl.Whole() else rules)
      && next == 1 + if tester(|s.asked|, repl) then p else i
    ensures ReducedTo(g, tester, if Repeats(g, f, i) then Add(s, repl, i) else s, rules0, lo, hi, next, rules')
  {
    hide *;
    if Repeats(g, f, i) {
      ReducedAsk(g, tester, s, rules0, lo, hi, i, rules, f, root, p, repl, rules', next);
    } else {
      ReducedSkip(g, tester, s, rules0, lo, hi, i, rules);
    }
  }

  lemma ReducedMeans(g: Grammar, tester: Tester, s: Pulled, rules0: seq<RuleId>, lo: nat, hi: nat, i: nat, tree: Tree)
    requires tree.Valid(g) && ReducedTo(g, tester, s, rules0, lo, hi, i, tree.rules)
    ensures AcceptsAll(tester) && IsDerivation(g, rules0) && CleanBelow(g, TreeOf(g, rules0), lo) ==>
      CleanBelow(g, tree.Shape(g), i)
  {
    ShapeIs(g, tree);
    hide CleanBelow, HandledFrom, Replayed, AsksPulls, SameOrSmaller, ResumedBy;
    if CleanBelow(g, TreeOf(g, rules0), lo) {
      HandledMeans(g, tree.Shape(g), tester, s, i);
    }
  }

  lemma ValidFacts(g: Grammar, tree: Tree)
    requires tree.Valid(g)
    ensures Derives(g, tree.Shape(g), [tree.Root(g)]) && Pre(tree.Shape(g)) == tree.rules
  {
    TreeShape(g, tree.rules);
  }

  lemma ReadyFacts(ctx: Context, tree: Tree)
    requires ctx.Ready() && tree.Valid(ctx.rules)
    ensures Exact(ctx.rules, ctx.ntsToMinSize, ctx.rulesToMinSize)
    ensures Derives(ctx.rules, tree.Shape(ctx.rules), [tree.Root(ctx.rules)]) && Pre(tree.Shape(ctx.rules)) == tree.rules
  {
    TreeShape(ctx.rules, tree.rules);
  }

  /** The nonterminal of a node has a minimum, and the node's subtree is no smaller. */
  lemma NodeMin(g: Grammar, m: Sizing, byRule: map<RuleId, nat>, f: Forest, root: NTermId, i: nat, nt: NTermId)
    requires Exact(g, m, byRule) && Derives(g, f, [root]) && i < Count(f) && NtAt(g, f, i) == Some(nt)
    ensures nt in m && m[nt] <= CountTree(SubAt(f, i))
  {
    SubAtDerives(g, f, [root], i);
    MinKnown(g, m, byRule, nt, SubAt(f, i));
  }

  /** The generated tree, seen as the subtree at its own root. */
  lemma SmallestRoot(g: Grammar, t: Tree, nt: NTermId)
    requires t.Valid(g) && t.Root(g) == nt
    ensures |t.rules| > 0 && 0 < Count(t.Shape(g)) && NtAt(g, t.Shape(g), 0) == Some(nt)
    ensures DerivesTree(g, SubAt(t.Shape(g), 0), nt) && CountTree(SubAt(t.Shape(g), 0)) == |t.rules|
  {
    TreeShape(g, t.rules);
    NodeFacts(g, t, 0);
  }
}
