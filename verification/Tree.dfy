/**
 The flat derivation tree of the Nautilus grammar engine: a pre-order rule array with two
 parallel index arrays, and the three-part mutation built from slices of such arrays.
 */
module Trees {
  import opened Grammars
  import opened Sequences
  import opened Positions
  import opened Splicing
  import opened Scanning
  import opened Accumulating

  /** A mutated tree, held as the slices it is made of. */
  datatype TreeMutation = TreeMutation(prefix: seq<RuleId>, repl: seq<RuleId>, postfix: seq<RuleId>) {
    /** The rule at `n`, looked up part by part; `None` stands for the out-of-bound exception. */
    function GetAt(n: nat): (r: Option<RuleId>)
      ensures r == if n < Size() then Some(Whole()[n]) else None
    {
      var end0 := |prefix|;
      var end1 := end0 + |repl|;
      var end2 := end1 + |postfix|;
      if n < end0 then Some(prefix[n])
      else if n < end1 then Some(repl[n - end0])
      else if n < end2 then Some(postfix[n - end1])
      else None
    }

    function Size(): nat {
      |prefix| + |repl| + |postfix|
    }

    /** The rule array `ToTree` builds. */
    function Whole(): (rules: seq<RuleId>)
      ensures |rules| == Size()
    {
      prefix + repl + postfix
    }
  }

  /** The three arrays of a tree, as a value: what copying a tree copies. */
  datatype Arrays = Arrays(rules: seq<RuleId>, sizes: seq<nat>, paren: seq<nat>)

  function ArraysOf(tree: Tree): Arrays
    reads tree
  {
    Arrays(tree.rules, tree.sizes, tree.paren)
  }

  /** The three arrays describe one derivation tree of `g`. */
  ghost predicate ValidFlat(g: Grammar, rules: seq<RuleId>, sizes: seq<nat>, paren: seq<nat>) {
    && IsDerivation(g, rules)
    && sizes == Sizes(TreeOf(g, rules))
    && paren == Parents(TreeOf(g, rules), 0, 0)
  }

  class Tree {
    var rules: seq<RuleId>
    var sizes: seq<nat>
    var paren: seq<nat>

    ghost predicate Valid(g: Grammar)
      reads this
    {
      ValidFlat(g, rules, sizes, paren)
    }

    /** The derivation tree behind the arrays. */
    ghost function Shape(g: Grammar): Forest
      requires Valid(g)
      reads this
    {
      TreeOf(g, rules)
    }

    /** The nonterminal the tree derives. */
    ghost function Root(g: Grammar): NTermId
      requires Valid(g)
      reads this
    {
      RootNT(g, rules)
    }

    /** The part of the constructor that sizes the arrays. */
    constructor (rules: seq<RuleId>)
      ensures this.rules == rules
      ensures sizes == seq(|rules|, i => 0) && paren == seq(|rules|, i => 0)
    {
      this.rules := rules;
      sizes := seq(|rules|, i => 0);
      paren := seq(|rules|, i => 0);
    }

    /** The constructor that takes all three arrays as they are. */
    constructor FromParts(rules: seq<RuleId>, sizes: seq<nat>, paren: seq<nat>)
      ensures this.rules == rules && this.sizes == sizes && this.paren == paren
    {
      this.rules, this.sizes, this.paren := rules, sizes, paren;
    }

    /**
     Finds the parents with an explicit stack. `ok` is false for "Not a valid tree" and for
     an unknown rule id. `left` is what remains on the stack, which the code does not test:
     the nonterminals the rules leave underived.
     */
    method CalcParents(g: Grammar) returns (ok: bool, ghost left: seq<NTermId>)
      requires |paren| == |rules|
      modifies this`paren
      ensures |paren| == |rules|
      ensures rules == [] ==> ok && left == []
      ensures rules != [] ==> (ok <==> ScanAll(g, rules).Some?)
      ensures rules != [] && ok ==> left == Untag(ScanAll(g, rules).value.left) && |left| + |rules| == 1 + Arity(g, rules)
      ensures rules != [] && ok ==> (IsDerivation(g, rules) <==> |rules| == 1 + Arity(g, rules))
      ensures rules != [] && !ok ==> forall more :: !IsDerivation(g, rules + more)
      ensures rules != [] && ok ==> Ordered(paren)
      ensures rules != [] && ok ==> forall more :: IsDerivation(g, rules + more) <==> Completes(g, left, more)
      ensures rules != [] ==> (IsDerivation(g, rules) <==> ok && left == [])
      ensures IsDerivation(g, rules) ==> paren == Parents(TreeOf(g, rules), 0, 0)
    {
      if rules == [] {
        return true, [];
      }
      ghost var whole := ScanAll(g, rules);
      ScanFacts(g, rules);
      if rules[0] >= |g| {
        return false, [];
      }
      var stack := [Pending(g[rules[0]].nonterm, 0)];
      assert FromBack(stack) == stack by { FromBackPush([], stack[0]); }
      var i := 0;
      while i < |rules|
        invariant 0 <= i <= |rules| && |paren| == |rules|
        invariant Scan(g, rules[i..], FromBack(stack), paren[..i]) == whole
      {
        if rules[i] >= |g| {
          return false, [];
        }
        var nonterm := g[rules[i]].nonterm;
        if |stack| == 0 {
          return false, [];
        }
        var top := stack[|stack| - 1];
        stack := stack[..|stack| - 1];
        if top.nt != nonterm {
          return false, [];
        }
        paren := paren[i := top.parent];
        stack := PushReversed(stack, Nonterms(g, rules[i]), i);
        assert rules[i..][1..] == rules[i + 1..];
        assert paren[..i + 1] == paren[..i] + [top.parent];
        i := i + 1;
      }
      assert rules[i..] == [] && paren[..i] == paren;
      return true, Untag(FromBack(stack));
    }

    /** The inner loop of `CalcParents`: the nonterminals go on the stack last first. */
    static method PushReversed(stack: seq<Pending>, nonterms: seq<NTermId>, node: nat) returns (r: seq<Pending>)
      ensures FromBack(r) == Tag(nonterms, node) + FromBack(stack)
    {
      r := stack;
      var j := |nonterms|;
      while j > 0
        invariant 0 <= j <= |nonterms|
        invariant FromBack(r) == Tag(nonterms[j..], node) + FromBack(stack)
      {
        j := j - 1;
        FromBackPush(r, Pending(nonterms[j], node));
        assert nonterms[j..][1..] == nonterms[j + 1..];
        r := r + [Pending(nonterms[j], node)];
      }
      assert nonterms[0..] == nonterms;
    }

    /** Turns parents into subtree sizes by one backward pass. */
    method CalcSizes()
      requires rules != [] && |sizes| == |rules| && |paren| == |rules| && InRange(paren)
      modifies this`sizes
      ensures |sizes| == |rules|
      ensures forall f: Forest :: f.Cons? && f.tail == Nil && paren == Parents(f, 0, 0) ==> sizes == Sizes(f)
    {
      sizes := seq(|sizes|, i => 1);
      ghost var ones := sizes;
      var i := |rules| - 1;
      while i > 0
        invariant 0 <= i < |rules| && |sizes| == |rules|
        invariant Accumulate(sizes, paren, i + 1, 1) == Accumulate(ones, paren, |ones|, 1)
      {
        sizes := sizes[paren[i] := sizes[paren[i]] + sizes[i]];
        i := i - 1;
      }
      forall f: Forest | f.Cons? && f.tail == Nil && paren == Parents(f, 0, 0)
        ensures sizes == Sizes(f)
      {
        AccumulateTree(f, ones, paren);
      }
    }

    /** A rule array is a complete tree exactly when both passes succeed with nothing left. */
    method CalcSubTreeSizesAndParents(g: Grammar) returns (ok: bool, ghost left: seq<NTermId>)
      requires rules != [] && |sizes| == |rules| && |paren| == |rules|
      modifies this`paren, this`sizes
      ensures ok <==> ScanAll(g, rules).Some?
      ensures ok && left == [] <==> IsDerivation(g, rules)
      ensures ok ==> (IsDerivation(g, rules) <==> |rules| == 1 + Arity(g, rules))
      ensures ok && left == [] ==> Valid(g)
      ensures !ok ==> forall more :: !IsDerivation(g, rules + more)
      ensures ok ==> forall more :: IsDerivation(g, rules + more) <==> Completes(g, left, more)
    {
      ok, left := CalcParents(g);
      if ok {
        CalcSizes();
        if left == [] { TreeShape(g, rules); }
      }
    }

    function GetParent(n: nat): (p: Option<nat>)
      requires n < |paren|
      reads this
    {
      if n != 0 then Some(paren[n]) else None
    }

    function Slice(from: nat, to: nat): seq<RuleId>
      requires from <= to <= |rules|
      reads this
    {
      rules[from..to]
    }

    /** This tree with the subtree at `n` replaced by the subtree of `other` at `otherNode`. */
    function MutateReplaceFromTree(n: nat, other: Tree, otherNode: nat): TreeMutation
      requires n < |sizes| && n + sizes[n] <= |rules|
      requires otherNode < |other.sizes| && otherNode + other.sizes[otherNode] <= |other.rules|
      reads this, other
    {
      var oldSize := sizes[n];
      var newSize := other.sizes[otherNode];
      TreeMutation(Slice(0, n), other.Slice(otherNode, otherNode + newSize), Slice(n + oldSize, |rules|))
    }

    /** The move assignment. */
    method MoveFrom(other: Tree)
      modifies this
      ensures rules == old(other.rules) && sizes == old(other.sizes) && paren == old(other.paren)
    {
      rules, sizes, paren := other.rules, other.sizes, other.paren;
    }

    method Truncate()
      modifies this
      ensures rules == [] && sizes == [] && paren == []
    {
      rules, sizes, paren := [], [], [];
    }
  }

  /** A copy of a valid tree is valid and has the same shape. */
  lemma CopyValid(g: Grammar, t: Tree, copy: Tree)
    requires t.Valid(g) && copy.rules == t.rules && copy.sizes == t.sizes && copy.paren == t.paren
    ensures copy.Valid(g) && copy.Shape(g) == t.Shape(g) && copy.Root(g) == t.Root(g)
  {
  }

  lemma TreeShape(g: Grammar, rules: seq<RuleId>)
    requires IsDerivation(g, rules)
    ensures var f := TreeOf(g, rules); f.Cons? && f.tail == Nil && Count(f) == |rules|
  {
    var f, nts := TreeOf(g, rules), [RootNT(g, rules)];
    DerivesLength(g, f, nts);
    DerivesLength(g, f.tail, nts[1..]);
  }

  /** In a valid tree every node id has a rule, a size that fits and a subtree that derives it. */
  lemma NodeFacts(g: Grammar, t: Tree, n: nat)
    requires t.Valid(g) && n < |t.rules|
    ensures n < |t.sizes| == |t.paren| == |t.rules| == Count(t.Shape(g))
    ensures t.rules[n] < |g| && SubAt(t.Shape(g), n).rule == t.rules[n]
    ensures t.sizes[n] == CountTree(SubAt(t.Shape(g), n)) && n + t.sizes[n] <= |t.rules|
    ensures DerivesTree(g, SubAt(t.Shape(g), n), g[t.rules[n]].nonterm)
  {
    var f := t.Shape(g);
    SubAtFits(f, n);
    SizesAt(f, n);
    SubAtRule(f, n);
    SubAtDerives(g, f, [RootNT(g, t.rules)], n);
  }

  /**
   Splicing refines substitution: replacing a subtree by one of the same nonterminal is the
   pre-order of the substituted derivation tree, with the size arithmetic that entails.
   */
  lemma SpliceRefines(g: Grammar, t: Tree, n: nat, other: Tree, m: nat)
    requires t.Valid(g) && other.Valid(g) && n < |t.rules| && m < |other.rules|
    requires t.rules[n] < |g| && other.rules[m] < |g|
    requires g[t.rules[n]].nonterm == g[other.rules[m]].nonterm
    ensures n < |t.sizes| && n + t.sizes[n] <= |t.rules|
    ensures m < |other.sizes| && m + other.sizes[m] <= |other.rules|
    ensures var whole := t.MutateReplaceFromTree(n, other, m).Whole();
      && IsDerivation(g, whole)
      && TreeOf(g, whole) == Replace(t.Shape(g), n, SubAt(other.Shape(g), m))
      && RootNT(g, whole) == RootNT(g, t.rules)
      && |whole| == |t.rules| - t.sizes[n] + other.sizes[m]
  {
    hide *;
    NodeFacts(g, t, n);
    NodeFacts(g, other, m);
    RootDerives(g, t);
    RootDerives(g, other);
    var f, sub, nt := t.Shape(g), SubAt(other.Shape(g), m), t.Root(g);
    SubAtBlock(other.Shape(g), m);
    ReplacePre(f, n, sub);
    ReplaceDerives(g, f, [nt], n, sub);
    TreeOfUnique(g, Replace(f, n, sub), nt);
    SpliceParts(t, n, other, m);
  }

  lemma RootDerives(g: Grammar, tree: Tree)
    requires tree.Valid(g)
    ensures Derives(g, tree.Shape(g), [tree.Root(g)]) && Pre(tree.Shape(g)) == tree.rules
    ensures tree.rules != [] && tree.rules[0] < |g| && tree.Root(g) == RootNT(g, tree.rules)
  {
  }

  lemma SpliceParts(t: Tree, n: nat, other: Tree, m: nat)
    requires n < |t.sizes| && n + t.sizes[n] <= |t.rules|
    requires m < |other.sizes| && m + other.sizes[m] <= |other.rules|
    ensures t.MutateReplaceFromTree(n, other, m).Whole() ==
      t.rules[..n] + other.rules[m..m + other.sizes[m]] + t.rules[n + t.sizes[n]..]
  {
  }

  lemma ScanFacts(g: Grammar, rules: seq<RuleId>)
    requires rules != []
    ensures var s := ScanAll(g, rules);
      && (s == None ==> forall more :: !IsDerivation(g, rules + more))
      && (s.Some? ==> |s.value.paren| == |rules| && Ordered(s.value.paren))
      && (s.Some? ==> forall more :: IsDerivation(g, rules + more) <==> Completes(g, Untag(s.value.left), more))
      && (IsDerivation(g, rules) <==> s.Some? && s.value.left == [])
      && (IsDerivation(g, rules) ==> s.value.paren == Parents(TreeOf(g, rules), 0, 0))
      && (s.Some? ==> |s.value.left| + |rules| == 1 + Arity(g, rules))
      && (s.Some? ==> (IsDerivation(g, rules) <==> |rules| == 1 + Arity(g, rules)))
  {
    forall more ensures IsDerivation(g, rules + more) <==>
      ScanAll(g, rules).Some? && Completes(g, Untag(ScanAll(g, rules).value.left), more)
    {
      ScanExact(g, rules, more);
    }
    ScanComplete(g, rules);
    if IsDerivation(g, rules) { ScanTree(g, rules); }
    if ScanAll(g, rules).Some? {
      AcceptedComplete(g, rules);
      ScanParents(g, rules, [Pending(g[rules[0]].nonterm, 0)], []);
    }
  }

  /**
   Builds the mutated tree; `ok` is false when re-parsing it throws. An incomplete tree is
   accepted too: `left` is what it lacks, and counting its children tells.
   */
  method ToTree(m: TreeMutation, g: Grammar) returns (ok: bool, t: Tree, ghost left: seq<NTermId>)
    ensures fresh(t) && t.rules == m.Whole()
    ensures ok <==> m.Whole() == [] || ScanAll(g, m.Whole()).Some?
    ensures IsDerivation(g, m.Whole()) ==> ok && left == [] && t.Valid(g)
    ensures !ok ==> forall more :: !IsDerivation(g, m.Whole() + more)
    ensures ok && m.Whole() != [] ==> forall more :: IsDerivation(g, m.Whole() + more) <==> Completes(g, left, more)
    ensures ok && m.Whole() != [] ==> (IsDerivation(g, m.Whole()) <==> |m.Whole()| == 1 + Arity(g, m.Whole()))
  {
    t := new Tree(m.prefix + m.repl + m.postfix);
    if |t.rules| > 0 {
      ok, left := t.CalcSubTreeSizesAndParents(g);
    } else {
      ok, left := true, [];
    }
  }
}
