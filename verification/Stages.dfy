/**
 What the stages of an item send to be run: the rule mutations of one node, then splices, random
 mutations and pumped recursions.
 */
module Stages {
  import opened Grammars
  import opened Trees
  import opened Contexts
  import opened Recursions
  import opened Minimizing
  import opened Mutators
  import opened Pumping
  import opened ChunkStores

  /** How many recursions one recursive havoc pumps. */
  const HAVOC_REC_TRIES := 20

  /** How many splices one splicing step, and how many random mutations one havoc step, tries. */
  const MUTATION_TRIES := 100

  /** The tree that is mutated. */
  datatype Subject = Subject(g: Grammar, f: Forest, root: NTermId, rules: seq<RuleId>)

  ghost function SubjectOf(g: Grammar, tree: Tree): Subject
    requires tree.Valid(g)
    reads tree
  {
    Subject(g, tree.Shape(g), tree.Root(g), tree.rules)
  }

  /** One try of a random mutation: the node it drew, and what it sent. */
  datatype Try = Try(node: nat, sent: Option<TreeMutation>)

  /** What the tries sent, in order. */
  function Sent(tries: seq<Try>): seq<TreeMutation> {
    if tries == [] then []
    else
      var last := |tries| - 1;
      Sent(tries[..last]) + if tries[last].sent.Some? then [tries[last].sent.value] else []
  }

  lemma SentNext(tries: seq<Try>, t: Try)
    ensures Sent(tries + [t]) == if t.sent.Some? then Sent(tries) + [t.sent.value] else Sent(tries)
  {
    assert (tries + [t])[..|tries|] == tries;
  }

  lemma {:induction false} SentBy(tries: seq<Try>, m: TreeMutation)
    requires m in Sent(tries)
    ensures exists t :: t in tries && t.sent == Some(m)
  {
    var last := |tries| - 1;
    if m in Sent(tries[..last]) {
      SentBy(tries[..last], m);
    } else {
      assert tries[last] in tries;
    }
  }

  /** Tries that all send something send as many mutations as there are tries. */
  lemma {:induction false} SentAll(tries: seq<Try>)
    requires forall t :: t in tries ==> t.sent.Some?
    ensures |Sent(tries)| == |tries|
  {
    if tries != [] {
      assert tries[|tries| - 1] in tries;
      SentAll(tries[..|tries| - 1]);
    }
  }

  /** A splice sends a stored chunk in the place of the node drawn, exactly if there is one with another rule. */
  ghost predicate SpliceTry(x: Subject, cks: ChunkStore, t: Try)
    reads cks
  {
    && t.node < |x.rules| && x.rules[t.node] < |x.g|
    && (t.sent == None <==> cks.NoAlternative(x.g, x.rules[t.node]))
    && (t.sent.Some? ==>
          && (exists c :: cks.Alternative(x.g, x.rules[t.node], c) && Chunked(x.g, x.f, t.node, cks.trees, c, t.sent.value))
          && IsDerivation(x.g, t.sent.value.Whole()) && RootNT(x.g, t.sent.value.Whole()) == x.root)
  }

  /** The subtree put in by a random mutation: a derivation of `nt` within the budget. */
  ghost predicate WithinNonterm(budget: Budget, nt: NTermId, sub: Derivation) {
    && DerivesTree(budget.g, sub, nt)
    && nt in budget.least && budget.least[nt] <= CountTree(sub) <= budget.most
  }

  /** A random mutation sends another subtree for the node drawn, exactly if its nonterminal has several rules. */
  ghost predicate HavocTry(budget: Budget, index: map<NTermId, seq<RuleId>>, x: Subject, t: Try) {
    && t.node < |x.rules| && x.rules[t.node] < |budget.g|
    && var nt := budget.g[x.rules[t.node]].nonterm;
    && nt in index
    && (t.sent.Some? <==> |index[nt]| > 1)
    && (t.sent.Some? ==> exists sub :: WithinNonterm(budget, nt, sub) && Substitutes(budget.g, x.f, t.node, sub, t.sent.value))
  }

  /** A random mutation of node `n` throws: it has other rules, and the minimum does not fit. */
  ghost predicate Throws(budget: Budget, index: map<NTermId, seq<RuleId>>, rules: seq<RuleId>, n: nat) {
    && n < |rules| && rules[n] < |budget.g|
    && var nt := budget.g[rules[n]].nonterm;
    && nt in index && |index[nt]| > 1
    && !(nt in budget.least && budget.least[nt] <= budget.most)
  }

  ghost predicate SpliceTries(x: Subject, cks: ChunkStore, tries: seq<Try>)
    reads cks
  {
    |tries| == MUTATION_TRIES && forall t :: t in tries ==> SpliceTry(x, cks, t)
  }

  /** All tries are made, unless one throws. */
  ghost predicate HavocTries(budget: Budget, index: map<NTermId, seq<RuleId>>, x: Subject, ok: bool, tries: seq<Try>) {
    && (forall t :: t in tries ==> HavocTry(budget, index, x, t))
    && if ok then |tries| == MUTATION_TRIES else |tries| < MUTATION_TRIES && exists n :: Throws(budget, index, x.rules, n)
  }

  /** `m` is the tree with one of its recursions nested some number of times. */
  ghost predicate IsPumped(x: Subject, m: TreeMutation) {
    exists outer, inner, num :: Pumped(x.g, x.f, x.root, outer, inner, num, m)
  }

  ghost predicate PumpTries(x: Subject, pumped: seq<TreeMutation>) {
    && |pumped| == (if NoRepeats(x.g, x.f) then 0 else HAVOC_REC_TRIES)
    && forall m :: m in pumped ==> IsPumped(x, m)
  }

  /** What the random routines do with an item. */
  datatype RandomWork = RandomWork(splices: seq<Try>, havocs: seq<Try>, pumped: seq<TreeMutation>)

  function AllSent(w: RandomWork): seq<TreeMutation> {
    Sent(w.splices) + Sent(w.havocs) + w.pumped
  }

  ghost predicate RandomWorkOn(ctx: Context, cks: ChunkStore, x: Subject, ok: bool, w: RandomWork)
    reads ctx, cks
  {
    && SpliceTries(x, cks, w.splices)
    && HavocTries(BudgetOf(ctx), ctx.ntsToRules, x, ok, w.havocs)
    && if ok then PumpTries(x, w.pumped) else w.pumped == []
  }

  /** `sent` is what the random routines send: splices, random mutations, pumped recursions. */
  ghost predicate RandomSent(ctx: Context, cks: ChunkStore, x: Subject, ok: bool, sent: seq<TreeMutation>)
    reads ctx, cks
  {
    exists w :: RandomWorkOn(ctx, cks, x, ok, w) && sent == AllSent(w)
  }

  /** The alternatives of node `k`; past the last node there are none. */
  function NodeAlternatives(ctx: Context, rules: seq<RuleId>, k: nat): seq<(nat, RuleId)>
    reads ctx
  {
    Alternatives(ctx.rules, ctx.ntsToRules, rules, k, if k < |rules| then k + 1 else |rules|)
  }

  /** `sent` is what the deterministic routines send at node `k`: its alternatives, then what the random ones do. */
  ghost predicate DetSent(ctx: Context, cks: ChunkStore, x: Subject, k: nat, ok: bool, sent: seq<TreeMutation>)
    reads ctx, cks
  {
    exists first, rest ::
      && sent == first + rest
      && SentFor(BudgetOf(ctx), x.f, NodeAlternatives(ctx, x.rules, k), first)
      && RandomSent(ctx, cks, x, ok, rest)
  }

  /** Some nonterminal's minimum exceeds the context's maximum length. */
  ghost predicate NoRoom(ctx: Context)
    reads ctx
  {
    exists nt :: nt in ctx.ntsToRules && !(nt in ctx.ntsToMinSize && ctx.ntsToMinSize[nt] <= ctx.maxLen)
  }

  lemma ThrowsNoRoom(ctx: Context, rules: seq<RuleId>, n: nat)
    requires Throws(BudgetOf(ctx), ctx.ntsToRules, rules, n)
    ensures NoRoom(ctx)
  {
  }

  // ------------------------------------------------------- what is sent is a derivation

  /** All mutations are derivations. */
  ghost predicate AllDerive(g: Grammar, sent: seq<TreeMutation>) {
    forall m :: m in sent ==> IsDerivation(g, m.Whole())
  }

  lemma AllDeriveAppend(g: Grammar, a: seq<TreeMutation>, b: seq<TreeMutation>)
    requires AllDerive(g, a) && AllDerive(g, b)
    ensures AllDerive(g, a + b)
  {
  }

  lemma RulesDerive(budget: Budget, f: Forest, alts: seq<(nat, RuleId)>, sent: seq<TreeMutation>)
    requires SentFor(budget, f, alts, sent)
    ensures AllDerive(budget.g, sent)
  {
    forall m | m in sent ensures IsDerivation(budget.g, m.Whole()) {
      var k :| 0 <= k < |sent| && sent[k] == m;
      assert RuleMutation(budget, f, alts[k].0, alts[k].1, m);
    }
  }

  lemma SplicesDerive(x: Subject, cks: ChunkStore, tries: seq<Try>)
    requires SpliceTries(x, cks, tries)
    ensures AllDerive(x.g, Sent(tries))
  {
    hide IsDerivation;
    forall m | m in Sent(tries) ensures IsDerivation(x.g, m.Whole()) {
      SentBy(tries, m);
      var t :| t in tries && t.sent == Some(m);
      assert SpliceTry(x, cks, t);
    }
  }

  lemma HavocsDerive(budget: Budget, index: map<NTermId, seq<RuleId>>, x: Subject, ok: bool, tries: seq<Try>)
    requires HavocTries(budget, index, x, ok, tries)
    ensures AllDerive(budget.g, Sent(tries))
  {
    hide IsDerivation;
    forall m | m in Sent(tries) ensures IsDerivation(budget.g, m.Whole()) {
      SentBy(tries, m);
      var t :| t in tries && t.sent == Some(m);
      assert HavocTry(budget, index, x, t);
    }
  }

  lemma PumpsDerive(x: Subject, pumped: seq<TreeMutation>)
    requires forall m :: m in pumped ==> IsPumped(x, m)
    ensures AllDerive(x.g, pumped)
  {
    hide IsDerivation;
    forall m | m in pumped ensures IsDerivation(x.g, m.Whole()) {
      var outer, inner, num :| Pumped(x.g, x.f, x.root, outer, inner, num, m);
    }
  }

  lemma WorkParts(ctx: Context, cks: ChunkStore, x: Subject, ok: bool, w: RandomWork)
    requires RandomWorkOn(ctx, cks, x, ok, w)
    ensures SpliceTries(x, cks, w.splices) && HavocTries(BudgetOf(ctx), ctx.ntsToRules, x, ok, w.havocs)
    ensures forall m :: m in w.pumped ==> IsPumped(x, m)
    ensures ok ==> |w.havocs| == MUTATION_TRIES && PumpTries(x, w.pumped)
  {
    hide SpliceTries;
  }

  /** Everything the random routines send is a derivation. */
  lemma RandomDerives(ctx: Context, cks: ChunkStore, x: Subject, ok: bool, sent: seq<TreeMutation>)
    requires RandomSent(ctx, cks, x, ok, sent) && x.g == ctx.rules
    ensures AllDerive(x.g, sent)
  {
    hide *;
    var w := WorkOf(ctx, cks, x, ok, sent);
    WorkParts(ctx, cks, x, ok, w);
    BudgetGrammar(ctx);
    SplicesDerive(x, cks, w.splices);
    HavocsDerive(BudgetOf(ctx), ctx.ntsToRules, x, ok, w.havocs);
    PumpsDerive(x, w.pumped);
    AllDeriveAppend(x.g, Sent(w.splices), Sent(w.havocs));
    AllDeriveAppend(x.g, Sent(w.splices) + Sent(w.havocs), w.pumped);
  }

  lemma WorkOf(ctx: Context, cks: ChunkStore, x: Subject, ok: bool, sent: seq<TreeMutation>) returns (w: RandomWork)
    requires RandomSent(ctx, cks, x, ok, sent)
    ensures RandomWorkOn(ctx, cks, x, ok, w) && sent == Sent(w.splices) + Sent(w.havocs) + w.pumped
  {
    hide RandomWorkOn, Sent;
    w :| RandomWorkOn(ctx, cks, x, ok, w) && sent == AllSent(w);
  }

  lemma DetDerives(ctx: Context, cks: ChunkStore, x: Subject, k: nat, ok: bool, sent: seq<TreeMutation>)
    requires DetSent(ctx, cks, x, k, ok, sent) && x.g == ctx.rules
    ensures AllDerive(x.g, sent)
  {
    hide RandomSent, SentFor, NodeAlternatives, AllDerive;
    var first, rest :| sent == first + rest
      && SentFor(BudgetOf(ctx), x.f, NodeAlternatives(ctx, x.rules, k), first)
      && RandomSent(ctx, cks, x, ok, rest);
    RulesDerive(BudgetOf(ctx), x.f, NodeAlternatives(ctx, x.rules, k), first);
    RandomDerives(ctx, cks, x, ok, rest);
    AllDeriveAppend(x.g, first, rest);
  }

  // ----------------------------------------------------------------- how much is sent

  /** Every node's nonterminal has several rules. */
  ghost predicate AllVaried(g: Grammar, index: map<NTermId, seq<RuleId>>, rules: seq<RuleId>) {
    forall r :: r in rules ==> r < |g| && g[r].nonterm in index && |index[g[r].nonterm]| > 1
  }

  /**
   If every nonterminal of the tree has several rules, each of the 100 random mutations sends
   something, and a tree that repeats a nonterminal is pumped 20 times on top of them.
   */
  lemma RandomSendsAll(ctx: Context, cks: ChunkStore, x: Subject, sent: seq<TreeMutation>)
    requires RandomSent(ctx, cks, x, true, sent) && AllVaried(ctx.rules, ctx.ntsToRules, x.rules)
    ensures |sent| >= MUTATION_TRIES + if NoRepeats(x.g, x.f) then 0 else HAVOC_REC_TRIES
  {
    hide RandomSent, RandomWorkOn, SpliceTries, HavocTry, Sent, NoRepeats, IsPumped;
    var w := WorkOf(ctx, cks, x, true, sent);
    WorkParts(ctx, cks, x, true, w);
    forall t | t in w.havocs ensures t.sent.Some? {
      VariedSends(BudgetOf(ctx), ctx.ntsToRules, x, t);
    }
    SentAll(w.havocs);
  }

  lemma VariedSends(budget: Budget, index: map<NTermId, seq<RuleId>>, x: Subject, t: Try)
    requires HavocTry(budget, index, x, t) && AllVaried(budget.g, index, x.rules)
    ensures t.sent.Some?
  {
    assert x.rules[t.node] in x.rules;
  }

  /** Nothing throws if the minimum of every nonterminal with several rules fits. */
  lemma EverythingFits(ctx: Context, cks: ChunkStore, x: Subject, ok: bool, sent: seq<TreeMutation>)
    requires RandomSent(ctx, cks, x, ok, sent)
    requires forall n :: !Throws(BudgetOf(ctx), ctx.ntsToRules, x.rules, n)
    ensures ok
  {
    hide RandomSent, RandomWorkOn, SpliceTries, HavocTry, Throws;
    var w := WorkOf(ctx, cks, x, ok, sent);
    WorkParts(ctx, cks, x, ok, w);
  }
}
