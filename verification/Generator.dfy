/**
 Random generation of derivation trees within a length budget: `Rule::Generate` and the
 entry points of `Tree` and `Context` that use it.
 */
module Generating {
  import opened Grammars
  import opened MinimalSizes
  import opened Contexts
  import opened Trees

  lemma {:induction false} AppendPre(f: Forest, t: Derivation)
    ensures Pre(Append(f, Single(t))) == Pre(f) + [t.rule] + Pre(t.kids)
    ensures Count(Append(f, Single(t))) == Count(f) + CountTree(t)
  {
    if f.Nil? {
      assert [t.rule] + Pre(t.kids) + [] == [] + [t.rule] + Pre(t.kids);
    } else {
      AppendPre(f.tail, t);
      AssocLast([f.head.rule] + Pre(f.head.kids), Pre(f.tail), [t.rule], Pre(t.kids));
    }
  }

  lemma {:induction false} AppendSizes(f: Forest, t: Derivation)
    ensures Sizes(Append(f, Single(t))) == Sizes(f) + [CountTree(t)] + Sizes(t.kids)
  {
    if f.Nil? {
      assert [CountTree(t)] + Sizes(t.kids) + [] == [] + [CountTree(t)] + Sizes(t.kids);
    } else {
      AppendSizes(f.tail, t);
      AssocLast([CountTree(f.head)] + Sizes(f.head.kids), Sizes(f.tail), [CountTree(t)], Sizes(t.kids));
    }
  }

  lemma {:induction false} AppendParents(f: Forest, t: Derivation, base: nat, end: nat, p: nat)
    requires end == base + Count(f)
    ensures Parents(Append(f, Single(t)), base, p) == Parents(f, base, p) + [p] + Parents(t.kids, end + 1, end)
  {
    var sub := Parents(t.kids, end + 1, end);
    if f.Nil? {
      assert [p] + sub + [] == [] + [p] + sub;
    } else {
      var mid := base + CountTree(f.head);
      ParentsCons(f, base, mid, p);
      ParentsCons(Append(f, Single(t)), base, mid, p);
      hide Parents;
      AppendParents(f.tail, t, mid, end, p);
      AssocLast([p] + Parents(f.head.kids, base + 1, base), Parents(f.tail, mid, p), [p], sub);
    }
  }

  lemma ParentsCons(f: Forest, base: nat, mid: nat, p: nat)
    requires f.Cons? && mid == base + CountTree(f.head)
    ensures Parents(f, base, p) == [p] + Parents(f.head.kids, base + 1, base) + Parents(f.tail, mid, p)
  {
  }

  lemma AssocLast<T>(a: seq<T>, b: seq<T>, c: seq<T>, d: seq<T>)
    ensures a + (b + c + d) == a + b + c + d
  {
  }

  /** A placeholder, filled in at its offset. */
  lemma Filled<T>(a: seq<T>, zero: T, b: seq<T>, x: T)
    ensures (a + [zero] + b)[|a| := x] == a + [x] + b
  {
  }

  /** `now` is `was` extended by the nodes of `kids` below the last node of `was`. */
  ghost predicate Grown(was: Arrays, kids: Forest, now: Arrays)
    requires was.rules != []
  {
    && |was.rules| == |was.sizes| == |was.paren|
    && now.rules == was.rules + Pre(kids)
    && now.sizes == was.sizes + Sizes(kids)
    && now.paren == was.paren + Parents(kids, |was.rules|, |was.rules| - 1)
  }

  /** `next` is `now` extended by the tree `t` whose parent is node `p`. */
  ghost predicate Planted(now: Arrays, t: Derivation, p: nat, next: Arrays) {
    var base := |now.rules|;
    && base == |now.sizes| == |now.paren|
    && next.rules == now.rules + [t.rule] + Pre(t.kids)
    && next.sizes == now.sizes + [CountTree(t)] + Sizes(t.kids)
    && next.paren == now.paren + [p] + Parents(t.kids, base + 1, base)
  }

  /** Placeholders for the root, the subtree below them, then the two fixes. */
  lemma PlantChild(now: Arrays, r: RuleId, sub: Forest, p: nat, next: Arrays)
    requires |now.rules| == |now.sizes| == |now.paren|
    requires Grown(Arrays(now.rules + [r], now.sizes + [0], now.paren + [0]), sub, next)
    ensures var offset := |now.rules|;
      && offset < |next.sizes| && offset < |next.paren|
      && Planted(now, Node(r, sub), p,
                 Arrays(next.rules, next.sizes[offset := 1 + Count(sub)], next.paren[offset := p]))
  {
    hide Sizes, Parents, Pre;
    var base := |now.rules|;
    Filled(now.sizes, 0, Sizes(sub), 1 + Count(sub));
    Filled(now.paren, 0, Parents(sub, base + 1, base), p);
  }

  /** One more tree below the same node. */
  lemma GrownNext(was: Arrays, kids: Forest, now: Arrays, t: Derivation, next: Arrays)
    requires was.rules != [] && Grown(was, kids, now) && Planted(now, t, |was.rules| - 1, next)
    ensures Grown(was, Append(kids, Single(t)), next)
  {
    var base := |was.rules|;
    hide Sizes, Parents, Pre;
    AppendPre(kids, t);
    AppendSizes(kids, t);
    AppendParents(kids, t, base, base + Count(kids), base - 1);
    AssocLast(was.rules, Pre(kids), [t.rule], Pre(t.kids));
    AssocLast(was.sizes, Sizes(kids), [CountTree(t)], Sizes(t.kids));
    AssocLast(was.paren, Parents(kids, base, base - 1), [base - 1], Parents(t.kids, base + Count(kids) + 1, base + Count(kids)));
  }

  /** The forest so far derives the nonterminals so far. */
  lemma DerivesNext(g: Grammar, kids: Forest, nts: seq<NTermId>, i: nat, t: Derivation)
    requires i < |nts| && Derives(g, kids, nts[..i]) && DerivesTree(g, t, nts[i])
    ensures Derives(g, Append(kids, Single(t)), nts[..i + 1])
  {
    assert [nts[i]][1..] == [];
    AppendDerives(g, kids, Single(t), nts[..i], [nts[i]]);
    assert nts[..i] + [nts[i]] == nts[..i + 1];
  }

  /** The next child's share of the budget, taken off the sum of the minima. */
  lemma SumNext(nts: seq<NTermId>, i: nat, m: Sizing)
    requires Known(nts, m) && i < |nts|
    ensures nts[i] in m && Known(nts[i..], m) && Known(nts[i + 1..], m)
    ensures Sum(nts[i..], m) == m[nts[i]] + Sum(nts[i + 1..], m)
  {
    assert nts[i..][1..] == nts[i + 1..];
  }

  /** The sum of the minima of the rule's nonterminals, as the first loop computes it. */
  method MinimalNeededLen(ctx: Context, nts: seq<NTermId>) returns (len: nat)
    requires Known(nts, ctx.ntsToMinSize)
    ensures len == Sum(nts, ctx.ntsToMinSize)
  {
    len := 0;
    var i := 0;
    while i < |nts|
      invariant 0 <= i <= |nts|
      invariant Known(nts[i..], ctx.ntsToMinSize)
      invariant len + Sum(nts[i..], ctx.ntsToMinSize) == Sum(nts, ctx.ntsToMinSize)
    {
      SumNext(nts, i, ctx.ntsToMinSize);
      len := len + ctx.ntsToMinSize[nts[i]];
      i := i + 1;
    }
  }

  /** A derivation of `nt` is no smaller than the minimum found for `nt`. */
  lemma AtLeastMin(g: Grammar, m: Sizing, byRule: map<RuleId, nat>, nt: NTermId, t: Derivation)
    requires Exact(g, m, byRule) && nt in m && DerivesTree(g, t, nt)
    ensures m[nt] <= CountTree(t)
  {
    assert IsMinSize(g, nt, m[nt]);
  }

  /** The budget of rule `r` holds the minima of its nonterminals. */
  ghost predicate Affordable(ctx: Context, r: RuleId, len: nat)
    reads ctx
  {
    && ctx.Ready()
    && r < |ctx.rules|
    && Known(Nonterms(ctx.rules, r), ctx.ntsToMinSize)
    && Sum(Nonterms(ctx.rules, r), ctx.ntsToMinSize) <= len
  }

  /**
   The books of `Generate` after `i` children: what has been generated, what it cost, and
   what is left once the minima of the children to come are set aside.
   */
  ghost predicate Spent(g: Grammar, m: Sizing, nts: seq<NTermId>, was: Arrays, len: nat,
                        i: nat, kids: Forest, now: Arrays, total: nat, remaining: nat)
  {
    && was.rules != [] && Grown(was, kids, now)
    && i <= |nts| && Known(nts[i..], m)
    && Derives(g, kids, nts[..i])
    && total == 1 + Count(kids)
    && total + remaining + Sum(nts[i..], m) == 1 + len
    && (Known(nts, m) ==> total + Sum(nts[i..], m) > Sum(nts, m))
  }

  lemma SpentBegins(g: Grammar, m: Sizing, nts: seq<NTermId>, was: Arrays, len: nat)
    requires was.rules != [] && |was.rules| == |was.sizes| == |was.paren|
    requires Known(nts, m) && Sum(nts, m) <= len
    ensures Spent(g, m, nts, was, len, 0, Nil, was, 1, len - Sum(nts, m))
  {
    assert nts[0..] == nts;
  }

  lemma SpentRoom(g: Grammar, m: Sizing, nts: seq<NTermId>, was: Arrays, len: nat,
                  i: nat, kids: Forest, now: Arrays, total: nat, remaining: nat)
    requires Spent(g, m, nts, was, len, i, kids, now, total, remaining) && i < |nts|
    ensures nts[i] in m && remaining + m[nts[i]] <= len
    ensures |now.rules| == |now.sizes| == |now.paren|
  {
    SumNext(nts[i..], 0, m);
  }

  lemma SpentChild(g: Grammar, m: Sizing, nts: seq<NTermId>, was: Arrays, len: nat,
                   i: nat, kids: Forest, now: Arrays, total: nat, remaining: nat, t: Derivation, next: Arrays,
                   total': nat, remaining': nat)
    requires Spent(g, m, nts, was, len, i, kids, now, total, remaining) && i < |nts|
    requires DerivesTree(g, t, nts[i]) && Planted(now, t, |was.rules| - 1, next)
    requires nts[i] in m && m[nts[i]] <= CountTree(t) <= remaining + m[nts[i]]
    requires total' == total + CountTree(t) && remaining' == remaining + m[nts[i]] - CountTree(t)
    ensures Spent(g, m, nts, was, len, i + 1, Append(kids, Single(t)), next, total', remaining')
  {
    GrownNext(was, kids, now, t, next);
    DerivesNext(g, kids, nts, i, t);
    AppendPre(kids, t);
    assert nts[i..][1..] == nts[i + 1..];
    SumNext(nts[i..], 0, m);
    hide Grown, Planted, Derives, DerivesTree, Count;
  }

  lemma SpentAll(g: Grammar, m: Sizing, nts: seq<NTermId>, was: Arrays, len: nat,
                 kids: Forest, now: Arrays, total: nat, remaining: nat)
    requires Spent(g, m, nts, was, len, |nts|, kids, now, total, remaining) && Known(nts, m)
    ensures Derives(g, kids, nts) && total == 1 + Count(kids) && Grown(was, kids, now)
    ensures Sum(nts, m) < total <= 1 + len
  {
    assert nts[..|nts|] == nts;
  }

  /**
   Generates one subtree for each nonterminal of rule `r` below the last node of `tree`,
   spending at most `len` nodes. What is appended to the three arrays is exactly what the
   generated forest calls for.
   */
  method Generate(ctx: Context, tree: Tree, r: RuleId, len: nat) returns (total: nat, ghost kids: Forest)
    requires Affordable(ctx, r, len)
    requires 0 < |tree.rules| == |tree.sizes| == |tree.paren|
    modifies tree
    ensures Derives(ctx.rules, kids, Nonterms(ctx.rules, r))
    ensures total == 1 + Count(kids)
    ensures Sum(Nonterms(ctx.rules, r), ctx.ntsToMinSize) < total <= 1 + len
    ensures Grown(old(ArraysOf(tree)), kids, ArraysOf(tree))
    decreases len, 1
  {
    AffordableFacts(ctx, r, len);
    hide *;
    ghost var g, m, was := ctx.rules, ctx.ntsToMinSize, ArraysOf(tree);
    ArraysParts(tree);
    var nonterms := Nonterms(ctx.rules, r);
    var minimal := MinimalNeededLen(ctx, nonterms);
    var remaining: nat := len - minimal;
    total := 1;
    var paren := |tree.rules| - 1;
    kids := Nil;
    SpentBegins(g, m, nonterms, was, len);
    var i := 0;
    while i < |nonterms|
      invariant i <= |nonterms| && ctx.Ready() && ctx.rules == g && ctx.ntsToMinSize == m
      invariant Spent(g, m, nonterms, was, len, i, kids, ArraysOf(tree), total, remaining)
    {
      ghost var now := ArraysOf(tree);
      SpentRoom(g, m, nonterms, was, len, i, kids, now, total, remaining);
      // the nonterminals still to come always include this one
      var curChildMaxLen := ctx.GetRandomLen(|nonterms| - i, remaining);
      curChildMaxLen := curChildMaxLen + ctx.ntsToMinSize[nonterms[i]];
      var consumed, t := GenerateChild(ctx, tree, nonterms[i], curChildMaxLen, paren);
      ghost var totalBefore, remainingBefore := total, remaining;
      remaining := remaining + ctx.ntsToMinSize[nonterms[i]];
      remaining := remaining - consumed;
      total := total + consumed;
      SpentChild(g, m, nonterms, was, len, i, kids, now, totalBefore, remainingBefore, t, ArraysOf(tree), total, remaining);
      kids := Append(kids, Single(t));
      i := i + 1;
    }
    SpentAll(g, m, nonterms, was, len, kids, ArraysOf(tree), total, remaining);
  }

  lemma ArraysParts(tree: Tree)
    ensures ArraysOf(tree) == Arrays(tree.rules, tree.sizes, tree.paren)
  {
  }

  lemma AffordableFacts(ctx: Context, r: RuleId, len: nat)
    requires Affordable(ctx, r, len)
    ensures ctx.Ready() && r < |ctx.rules| && Known(Nonterms(ctx.rules, r), ctx.ntsToMinSize)
    ensures Sum(Nonterms(ctx.rules, r), ctx.ntsToMinSize) <= len
  {
  }

  /** The body of the loop of `Generate`: one random subtree of `nt` below node `paren`. */
  method GenerateChild(ctx: Context, tree: Tree, nt: NTermId, curChildMaxLen: nat, paren: nat)
    returns (consumed: nat, ghost t: Derivation)
    requires ctx.Ready() && nt in ctx.ntsToMinSize && ctx.ntsToMinSize[nt] <= curChildMaxLen
    requires |tree.rules| == |tree.sizes| == |tree.paren|
    modifies tree
    ensures DerivesTree(ctx.rules, t, nt) && consumed == CountTree(t)
    ensures ctx.ntsToMinSize[nt] <= consumed <= curChildMaxLen
    ensures Planted(old(ArraysOf(tree)), t, paren, ArraysOf(tree))
    decreases curChildMaxLen, 0
  {
    hide Grown, Planted, Derives, Exact, IndexOf, Sizes, Parents, Pre;
    ghost var now := ArraysOf(tree);
    var rid := ctx.GetRandomRuleForNT(nt, curChildMaxLen);
    var offset := |tree.rules|;
    tree.rules := tree.rules + [rid.value];
    tree.sizes := tree.sizes + [0];
    tree.paren := tree.paren + [0];
    SettledFits(ctx.rules, ctx.ntsToMinSize, ctx.rulesToMinSize, rid.value);
    ghost var sub: Forest;
    consumed, sub := Generate(ctx, tree, rid.value, curChildMaxLen - 1);
    PlantChild(now, rid.value, sub, paren, ArraysOf(tree));
    tree.sizes := tree.sizes[offset := consumed];
    tree.paren := tree.paren[offset := paren];
    t := Node(rid.value, sub);
    AtLeastMin(ctx.rules, ctx.ntsToMinSize, ctx.rulesToMinSize, nt, t);
  }

  /** A root whose kids are grown below it, with its size filled in, is a valid tree. */
  lemma RootValid(g: Grammar, r: RuleId, kids: Forest, now: Arrays)
    requires r < |g| && Derives(g, kids, Nonterms(g, r))
    requires Grown(Arrays([r], [0], [0]), kids, now)
    ensures |now.sizes| == |now.rules| == 1 + Count(kids)
    ensures ValidFlat(g, now.rules, now.sizes[0 := |now.rules|], now.paren)
    ensures now.rules[0] == r && TreeOf(g, now.rules) == Single(Node(r, kids))
  {
    var t := Node(r, kids);
    SingleDerives(g, t, g[r].nonterm);
    TreeOfUnique(g, Single(t), g[r].nonterm);
    RootArrays(t, now.rules, now.sizes, now.paren);
  }

  lemma RootArrays(t: Derivation, rules: seq<RuleId>, sizes: seq<nat>, paren: seq<nat>)
    requires rules == [t.rule] + Pre(t.kids)
    requires sizes == [0] + Sizes(t.kids)
    requires paren == [0] + Parents(t.kids, 1, 0)
    ensures rules == Pre(Single(t)) && sizes[0 := |rules|] == Sizes(Single(t)) && paren == Parents(Single(t), 0, 0)
  {
    assert Pre(Single(t)) == [t.rule] + Pre(t.kids) + [];
    assert Sizes(Single(t)) == [CountTree(t)] + Sizes(t.kids) + [];
    assert Parents(Single(t), 0, 0) == [0] + Parents(t.kids, 1, 0) + [];
  }

  /** A random tree whose root applies rule `r`, of at most `maxLen + 1` nodes. */
  method GenerateFromRule(ctx: Context, tree: Tree, r: RuleId, maxLen: nat)
    requires Affordable(ctx, r, maxLen)
    modifies tree
    ensures tree.Valid(ctx.rules) && tree.rules[0] == r
    ensures Sum(Nonterms(ctx.rules, r), ctx.ntsToMinSize) < |tree.rules| <= maxLen + 1
  {
    AffordableFacts(ctx, r, maxLen);
    hide Grown, Affordable, Context.Ready, Sum, Known, Derives;
    tree.Truncate();
    tree.rules := tree.rules + [r];
    tree.sizes := tree.sizes + [0];
    tree.paren := tree.paren + [0];
    assert ArraysOf(tree) == Arrays([r], [0], [0]);
    var total, kids := Generate(ctx, tree, r, maxLen);
    RootValid(ctx.rules, r, kids, ArraysOf(tree));
    tree.sizes := tree.sizes[0 := |tree.rules|];
  }

  /**
   A random derivation of `start` within `len` nodes. `ok` is false for the "no way to
   derive" exception, which is raised exactly when the minimum of `start` exceeds `len`;
   the tree is then untouched.
   */
  method GenerateFromNT(ctx: Context, tree: Tree, start: NTermId, len: nat) returns (ok: bool)
    requires ctx.Ready()
    modifies tree
    ensures ok <==> start in ctx.ntsToMinSize && ctx.ntsToMinSize[start] <= len
    ensures ok ==> tree.Valid(ctx.rules) && tree.Root(ctx.rules) == start
    ensures ok ==> ctx.ntsToMinSize[start] <= |tree.rules| <= len
    ensures !ok ==> unchanged(tree)
  {
    var rid := ctx.GetRandomRuleForNT(start, len);
    if rid == None {
      return false;
    }
    SettledFits(ctx.rules, ctx.ntsToMinSize, ctx.rulesToMinSize, rid.value);
    hide Exact, IndexOf, Sum;
    GenerateFromRule(ctx, tree, rid.value, len - 1);
    return true;
  }

  /** A fresh tree for a rule. */
  method GenerateTreeFromRule(ctx: Context, r: RuleId, len: nat) returns (tree: Tree)
    requires Affordable(ctx, r, len)
    ensures fresh(tree) && tree.Valid(ctx.rules) && tree.rules[0] == r
    ensures Sum(Nonterms(ctx.rules, r), ctx.ntsToMinSize) < |tree.rules| <= len + 1
  {
    tree := new Tree([]);
    GenerateFromRule(ctx, tree, r, len);
  }

  /** A fresh tree for a nonterminal; `None` when its minimum does not fit. */
  method GenerateTreeFromNT(ctx: Context, nt: NTermId, maxLen: nat) returns (tree: Option<Tree>)
    requires ctx.Ready()
    ensures tree.Some? <==> nt in ctx.ntsToMinSize && ctx.ntsToMinSize[nt] <= maxLen
    ensures tree.Some? ==> fresh(tree.value) && tree.value.Valid(ctx.rules)
    ensures tree.Some? ==> tree.value.Root(ctx.rules) == nt
    ensures tree.Some? ==> ctx.ntsToMinSize[nt] <= |tree.value.rules| <= maxLen
  {
    var rid := ctx.GetRandomRuleForNT(nt, maxLen);
    if rid == None {
      return None;
    }
    SettledFits(ctx.rules, ctx.ntsToMinSize, ctx.rulesToMinSize, rid.value);
    hide Exact, IndexOf, Sum;
    var t := GenerateTreeFromRule(ctx, rid.value, maxLen - 1);
    return Some(t);
  }
}
