/**
 Pumping a recursion: `Mutator::MutRandomRecursion` copies the rules around an inner subtree
 a number of times, which nests the context between the two nodes of a recursion.
 */
module Pumping {
  import opened Grammars
  import opened Positions
  import opened Splicing
  import opened Trees
  import opened Contexts
  import opened Arithmetic
  import opened Recursions
  import opened Minimizing
  import opened Mutators

  /** `s` written `k` times. */
  function Repeated<T>(s: seq<T>, k: nat): (r: seq<T>)
    ensures |r| == k * |s|
  {
    if k == 0 then [] else Repeated(s, k - 1) + s
  }

  lemma {:induction false} RepeatedFront<T>(s: seq<T>, k: nat)
    ensures s + Repeated(s, k) == Repeated(s, k + 1)
  {
    if k == 0 {
      assert s + [] == [] + s;
    } else {
      RepeatedFront(s, k - 1);
      assert s + (Repeated(s, k - 1) + s) == (s + Repeated(s, k - 1)) + s;
    }
  }

  /** The context of position `i` in `t`, nested `k` times around the subtree at `i`. */
  function Pump(t: Derivation, i: nat, k: nat): Derivation
    requires i < CountTree(t)
  {
    if k == 0 then SubAt(Single(t), i) else InContext(t, i, Pump(t, i, k - 1))
  }

  /** `t` with the subtree at `i` replaced by `x`. */
  function InContext(t: Derivation, i: nat, x: Derivation): Derivation
    requires i < CountTree(t)
  {
    Replace(Single(t), i, x).head
  }

  lemma InContextSingle(t: Derivation, i: nat, x: Derivation)
    requires i < CountTree(t)
    ensures Replace(Single(t), i, x) == Single(InContext(t, i, x))
  {
  }

  /** Replacing inside a subtree is replacing the subtree. */
  lemma {:induction false} ReplaceNested(f: Forest, p: nat, i: nat, x: Derivation)
    requires p < Count(f) && i < CountTree(SubAt(f, p))
    ensures p + i < Count(f)
    ensures Replace(f, p + i, x) == Replace(f, p, InContext(SubAt(f, p), i, x))
  {
    SubAtFits(f, p);
    if p == 0 {
    } else if p < CountTree(f.head) {
      SubAtFits(f.head.kids, p - 1);
      ReplaceNested(f.head.kids, p - 1, i, x);
    } else {
      ReplaceNested(f.tail, p - CountTree(f.head), i, x);
    }
  }

  /** Each nesting keeps the derivation valid. */
  lemma {:induction false} PumpDerives(g: Grammar, t: Derivation, i: nat, k: nat, nt: NTermId)
    requires DerivesTree(g, t, nt) && i < CountTree(t)
    requires SubAt(Single(t), i).rule < |g| && g[SubAt(Single(t), i).rule].nonterm == nt
    ensures DerivesTree(g, Pump(t, i, k), nt)
  {
    SingleDerives(g, t, nt);
    if k == 0 {
      SubAtDerives(g, Single(t), [nt], i);
    } else {
      PumpDerives(g, t, i, k - 1, nt);
      ReplaceDerives(g, Single(t), [nt], i, Pump(t, i, k - 1));
      InContextSingle(t, i, Pump(t, i, k - 1));
    }
  }

  /** The flat form of a pumped recursion: the prefix and the postfix, `k` times each. */
  lemma {:induction false} PumpPre(t: Derivation, i: nat, k: nat)
    requires i < CountTree(t)
    ensures PreTree(Pump(t, i, k)) ==
      Repeated(Before(Single(t), i), k) + PreTree(SubAt(Single(t), i)) + Repeated(After(Single(t), i), k)
  {
    var f := Single(t);
    var a, x, z := Before(f, i), PreTree(SubAt(f, i)), After(f, i);
    if k == 0 {
      assert [] + x + [] == x;
    } else {
      var p := Pump(t, i, k - 1);
      PumpPre(t, i, k - 1);
      ReplaceSplit(f, i, p);
      InContextSingle(t, i, p);
      SinglePre(Pump(t, i, k));
      RepeatedFront(a, k - 1);
      PumpRegroup(a, Repeated(a, k - 1), x, Repeated(z, k - 1), z);
    }
  }

  lemma SinglePre(t: Derivation)
    ensures Pre(Single(t)) == PreTree(t)
  {
    assert [t.rule] + Pre(t.kids) + [] == [t.rule] + Pre(t.kids);
  }

  lemma PumpRegroup<T>(a: seq<T>, an: seq<T>, x: seq<T>, zs: seq<T>, z: seq<T>)
    ensures a + (an + x + zs) + z == (a + an) + x + (zs + z)
  {
  }

  // ---------------------------------------------------------------- copying in rounds

  lemma ModUnique(i: nat, len: nat, q: nat, r: nat)
    requires i == q * len + r && r < len
    ensures i % len == r
  {
    var d := q - i / len;
    assert d * len == i % len - r by {
      assert i == (i / len) * len + i % len;
      assert d * len == q * len - (i / len) * len;
    }
  }

  lemma NextRound(q: nat, len: nat)
    ensures (q + 1) * len == q * len + len
  {
  }

  lemma MulLess(a: nat, b: nat, len: nat)
    ensures a < b ==> a * len + len <= b * len
  {
    if a < b {
      NextRound(a, len);
      MulMono(a + 1, b, len, len);
    }
  }

  lemma LastRound(q: nat, r: nat, len: nat, times: nat)
    requires r < len && q * len + r == times * len
    ensures q == times && r == 0
  {
    MulLess(q, times, len);
    MulLess(times, q, len);
  }

  /** The copying loops: `times` rounds over the `len` nodes from node `from`. */
  method CopyRounds(tree: Tree, from: nat, len: nat, times: nat, rules0: seq<RuleId>, sizes0: seq<nat>)
    returns (rules: seq<RuleId>, sizes: seq<nat>)
    requires from + len <= |tree.rules| == |tree.sizes| && |rules0| == |sizes0|
    ensures rules == rules0 + Repeated(tree.rules[from..from + len], times)
    ensures |sizes| == |rules| && sizes0 <= sizes
    ensures sizes0 == [] && |rules| > 0 ==> sizes[0] == tree.sizes[from]
  {
    rules, sizes := rules0, sizes0;
    var total := times * len;
    ghost var block, q, r := tree.rules[from..from + len], 0, 0;
    RoundsBegin(rules0, block);
    hide InRound, Repeated;
    var i := 0;
    while i < total
      invariant i <= total && InRound(i, len, q, r)
      invariant rules == rules0 + Repeated(block, q) + block[..if r < len then r else 0]
      invariant |sizes| == |rules| && sizes0 <= sizes
      invariant i == 0 ==> rules == rules0
      invariant sizes0 == [] && |rules| > 0 ==> sizes[0] == tree.sizes[from]
    {
      RoundAt(i, len, q, r, times, total);
      var at := from + i % len;
      rules := rules + [tree.rules[at]];
      sizes := sizes + [tree.sizes[at]];
      RoundStep(rules0, block, q, r);
      if r + 1 == len { q, r := q + 1, 0; } else { r := r + 1; }
      i := i + 1;
    }
    RoundsDone(rules0, block, i, q, r, times);
  }

  /** Step `i` is the `r`-th of round `q`, with `len` steps to a round. */
  ghost predicate InRound(i: nat, len: nat, q: nat, r: nat) {
    i == q * len + r && (r < len || len == 0 == r)
  }

  lemma RoundsBegin(rules0: seq<RuleId>, block: seq<RuleId>)
    ensures InRound(0, |block|, 0, 0) && rules0 + Repeated(block, 0) + block[..0] == rules0
  {
  }

  lemma RoundAt(i: nat, len: nat, q: nat, r: nat, times: nat, total: nat)
    requires InRound(i, len, q, r) && i < total && total == times * len
    ensures r < len && i % len == r
    ensures if r + 1 == len then InRound(i + 1, len, q + 1, 0) else InRound(i + 1, len, q, r + 1)
  {
    ZeroTimes(times, len);
    ModUnique(i, len, q, r);
    NextRound(q, len);
  }

  lemma RoundStep(rules0: seq<RuleId>, block: seq<RuleId>, q: nat, r: nat)
    requires r < |block|
    ensures rules0 + Repeated(block, q) + block[..r] + [block[r]] ==
      if r + 1 == |block| then rules0 + Repeated(block, q + 1) + block[..0] else rules0 + Repeated(block, q) + block[..r + 1]
  {
    assert block[..r] + [block[r]] == block[..r + 1];
    if r + 1 == |block| {
      assert block[..r + 1] == block;
      assert rules0 + Repeated(block, q) + block == rules0 + (Repeated(block, q) + block);
      assert block[..0] == [];
    }
  }

  lemma RoundsDone(rules0: seq<RuleId>, block: seq<RuleId>, i: nat, q: nat, r: nat, times: nat)
    requires InRound(i, |block|, q, r) && i == times * |block|
    ensures rules0 + Repeated(block, q) + block[..if r < |block| then r else 0] == rules0 + Repeated(block, times)
  {
    if |block| == 0 {
      NothingRepeated(block, q);
      NothingRepeated(block, times);
    } else {
      LastRound(q, r, |block|, times);
    }
  }

  lemma {:induction false} NothingRepeated<T>(s: seq<T>, k: nat)
    requires s == []
    ensures Repeated(s, k) == []
  {
    if k > 0 { NothingRepeated(s, k - 1); }
  }

  // ---------------------------------------------------------------------- the mutation

  /** Node `rec1` lies in the block of `rec0`, and both blocks lie in the tree. */
  predicate NestedBlocks(rules: seq<RuleId>, sizes: seq<nat>, rec0: nat, rec1: nat) {
    && |sizes| == |rules|
    && rec0 < rec1 < |rules|
    && 0 < sizes[rec1]
    && rec1 + sizes[rec1] <= rec0 + sizes[rec0] <= |rules|
  }

  lemma SplitTotal(num: nat, pre: nat, post: nat)
    ensures num * pre + num * post == num * (pre + post)
  {
  }

  lemma OneLess(num: nat, total: nat)
    ensures num >= 1 ==> total + (num - 1) * total == num * total
  {
  }

  /** The length of the new rules is what the root's entry becomes. */
  lemma PumpedSize<T>(a: seq<T>, x: seq<T>, z: seq<T>, num: nat, total: nat)
    requires total == |a| + |z|
    ensures |Repeated(a, num) + x + Repeated(z, num)| == if num == 0 then |x| else |x| + total + (num - 1) * total
  {
    SplitTotal(num, |a|, |z|);
    OneLess(num, total);
  }

  lemma RoundIndex(i: nat, pre: nat, num: nat)
    requires pre > 0 && i < num * pre
    ensures i / pre < num
  {
    assert (i / pre) * pre <= i;
    MulLess(i / pre, num, pre);
    if num <= i / pre { MulMono(num, i / pre, pre, pre); }
  }

  /**
   The new rules and sizes: the rules before the inner node `num` times, the inner subtree,
   the rules after it `num` times. The adjustment of the sizes is a threshold test, and only
   the entry of the root, which `MutateReplaceFromTree` reads, is claimed to be right.
   */
  method BuildRecursion(tree: Tree, rec0: nat, rec1: nat, num: nat) returns (rulesNew: seq<RuleId>, sizesNew: seq<nat>)
    requires NestedBlocks(tree.rules, tree.sizes, rec0, rec1)
    ensures rulesNew ==
      Repeated(tree.rules[rec0..rec1], num) + tree.rules[rec1..rec1 + tree.sizes[rec1]]
      + Repeated(tree.rules[rec1 + tree.sizes[rec1]..rec0 + tree.sizes[rec0]], num)
    ensures |sizesNew| == |rulesNew| > 0 && sizesNew[0] == |rulesNew|
  {
    var pre := rec1 - rec0;
    var total := tree.sizes[rec0] - tree.sizes[rec1];
    var post := total - pre;
    var postfix := tree.sizes[rec1];
    hide Repeated;
    ZeroTimes(num, pre);
    rulesNew, sizesNew := CopyRounds(tree, rec0, pre, num, [], []);
    rulesNew, sizesNew := CopyInner(tree, rec1, postfix, rulesNew, sizesNew);
    sizesNew := AdjustSizes(sizesNew, pre, total, num);
    var more, sizesMore := CopyRounds(tree, rec1 + postfix, post, num, rulesNew, sizesNew);
    assert [] + Repeated(tree.rules[rec0..rec1], num) == Repeated(tree.rules[rec0..rec1], num);
    PumpedSize(tree.rules[rec0..rec1], tree.rules[rec1..rec1 + postfix],
               tree.rules[rec1 + postfix..rec0 + tree.sizes[rec0]], num, total);
    return more, sizesMore;
  }

  lemma ZeroTimes(num: nat, pre: nat)
    ensures num == 0 || pre == 0 ==> num * pre == 0
    ensures num > 0 && pre > 0 ==> num * pre > 0
  {
  }

  /** The middle loop: the inner subtree, once. */
  method CopyInner(tree: Tree, from: nat, len: nat, rules0: seq<RuleId>, sizes0: seq<nat>)
    returns (rules: seq<RuleId>, sizes: seq<nat>)
    requires from + len <= |tree.rules| == |tree.sizes| && |rules0| == |sizes0|
    ensures rules == rules0 + tree.rules[from..from + len]
    ensures |sizes| == |rules| && sizes0 <= sizes
    ensures sizes0 == [] && len > 0 ==> sizes[0] == tree.sizes[from]
  {
    rules, sizes := rules0, sizes0;
    var i := 0;
    while i < len
      invariant 0 <= i <= len
      invariant rules == rules0 + tree.rules[from..from + i]
      invariant |sizes| == |rules| && sizes0 <= sizes
      invariant sizes0 == [] && i > 0 ==> sizes[0] == tree.sizes[from]
    {
      rules := rules + [tree.rules[from + i]];
      sizes := sizes + [tree.sizes[from + i]];
      i := i + 1;
    }
  }

  /** The adjustment loop. */
  method AdjustSizes(sizes: seq<nat>, pre: nat, total: nat, num: nat) returns (r: seq<nat>)
    requires pre > 0 && num * pre <= |sizes| && sizes != []
    ensures |r| == |sizes|
    ensures num == 0 ==> r == sizes
    ensures num > 0 && sizes[0] >= pre ==> r[0] == sizes[0] + (num - 1) * total
  {
    r := sizes;
    ZeroTimes(num, pre);
    var i := 0;
    while i < num * pre
      invariant 0 <= i <= num * pre && |r| == |sizes|
      invariant i == 0 ==> r == sizes
      invariant i > 0 && sizes[0] >= pre ==> r[0] == sizes[0] + (num - 1) * total
    {
      RoundIndex(i, pre, num);
      if r[i] >= pre {
        var rounds: nat := num - i / pre - 1;
        r := r[i := r[i] + rounds * total];
      }
      i := i + 1;
    }
  }

  /** The blocks of an ancestor and a descendant. */
  lemma NestedFacts(g: Grammar, tree: Tree, outer: nat, inner: nat)
    requires tree.Valid(g) && NearestSame(g, tree.Shape(g), outer, inner)
    ensures NestedBlocks(tree.rules, tree.sizes, outer, inner)
    ensures outer < inner < Count(tree.Shape(g)) == |tree.rules|
    ensures tree.sizes[outer] == CountTree(SubAt(tree.Shape(g), outer))
    ensures tree.sizes[inner] == CountTree(SubAt(tree.Shape(g), inner))
    ensures inner - outer < CountTree(SubAt(tree.Shape(g), outer))
  {
    var f := tree.Shape(g);
    TreeShape(g, tree.rules);
    NodeFacts(g, tree, outer);
    NodeFacts(g, tree, inner);
    InsideNested(f, outer, inner);
  }

  /** The inner subtree, seen from the outer one. */
  lemma InnerOfSingle(f: Forest, outer: nat, i: nat, inner: nat)
    requires outer < inner < Count(f) && Inside(f, outer, inner) && inner == outer + i
    ensures i < Count(Single(SubAt(f, outer))) == CountTree(SubAt(f, outer))
    ensures SubAt(Single(SubAt(f, outer)), i) == SubAt(f, inner)
  {
    SubAtCompose(f, outer, i - 1);
  }

  /** The inner subtree, and what surrounds it, as blocks of the rule array. */
  lemma ContextBlocks(f: Forest, outer: nat, inner: nat)
    requires outer < inner < Count(f) && Inside(f, outer, inner)
    ensures var t, i := SubAt(f, outer), inner - outer;
      var s0, s1 := CountTree(t), CountTree(SubAt(f, inner));
      && inner + s1 <= outer + s0 <= Count(f)
      && SubAt(Single(t), i) == SubAt(f, inner)
      && Before(Single(t), i) == Pre(f)[outer..inner]
      && PreTree(SubAt(Single(t), i)) == Pre(f)[inner..inner + s1]
      && After(Single(t), i) == Pre(f)[inner + s1..outer + s0]
  {
    hide *;
    var t, i := SubAt(f, outer), inner - outer;
    var s0, s1 := CountTree(t), CountTree(SubAt(f, inner));
    SubAtBlock(f, outer);
    SubAtBlock(f, inner);
    InsideNested(f, outer, inner);
    InnerOfSingle(f, outer, i, inner);
    SinglePre(t);
    SubAtBlock(Single(t), i);
    var block := Pre(f)[outer..outer + s0];
    assert block[..i] == Pre(f)[outer..inner];
    assert block[i + s1..] == Pre(f)[inner + s1..outer + s0];
  }

  /** Splicing the new rules in at the inner node nests the context `num + 1` times. */
  lemma PumpSplice(g: Grammar, f: Forest, root: NTermId, outer: nat, inner: nat, num: nat, m: TreeMutation)
    requires Derives(g, f, [root]) && NearestSame(g, f, outer, inner)
    requires inner + CountTree(SubAt(f, inner)) <= outer + CountTree(SubAt(f, outer)) <= Count(f)
    requires m.prefix == Pre(f)[..inner] && m.postfix == Pre(f)[inner + CountTree(SubAt(f, inner))..]
    requires m.repl ==
      Repeated(Pre(f)[outer..inner], num) + Pre(f)[inner..inner + CountTree(SubAt(f, inner))]
      + Repeated(Pre(f)[inner + CountTree(SubAt(f, inner))..outer + CountTree(SubAt(f, outer))], num)
    ensures inner - outer < CountTree(SubAt(f, outer))
    ensures Substitutes(g, f, inner, Pump(SubAt(f, outer), inner - outer, num), m)
    ensures IsDerivation(g, m.Whole())
    ensures TreeOf(g, m.Whole()) == Replace(f, outer, Pump(SubAt(f, outer), inner - outer, num + 1))
    ensures RootNT(g, m.Whole()) == root
  {
    hide *;
    NearestFacts(g, f, outer, inner);
    PumpFacts(g, f, root, outer, inner);
    var t, i, nt := SubAt(f, outer), inner - outer, NtAt(g, f, inner).value;
    ContextBlocks(f, outer, inner);
    PumpPre(t, i, num);
    PumpDerives(g, t, i, num, nt);
    var x := Pump(t, i, num);
    ReplacePre(f, inner, x);
    ReplaceDerives(g, f, [root], inner, x);
    TreeOfUnique(g, Replace(f, inner, x), root);
    ReplaceNested(f, outer, i, x);
    PumpNext(t, i, num);
    WholeIs(m);
    MakeSubstitutes(g, f, inner, x, m);
  }

  lemma PumpFacts(g: Grammar, f: Forest, root: NTermId, outer: nat, inner: nat)
    requires Derives(g, f, [root]) && NearestSame(g, f, outer, inner)
    ensures Inside(f, outer, inner) && inner - outer < CountTree(SubAt(f, outer))
    ensures NtAt(g, f, inner).Some? && SubAt(f, inner).rule < |g| && g[SubAt(f, inner).rule].nonterm == NtAt(g, f, inner).value
    ensures DerivesTree(g, SubAt(f, outer), NtAt(g, f, inner).value)
  {
    SubAtDerives(g, f, [root], outer);
  }

  lemma PumpNext(t: Derivation, i: nat, k: nat)
    requires i < CountTree(t)
    ensures Pump(t, i, k + 1) == InContext(t, i, Pump(t, i, k))
  {
  }

  lemma WholeIs(m: TreeMutation)
    ensures m.Whole() == m.prefix + m.repl + m.postfix
  {
  }

  lemma MakeSubstitutes(g: Grammar, f: Forest, n: nat, sub: Derivation, m: TreeMutation)
    requires n < Count(f) && |m.prefix| == n && m.repl == PreTree(sub)
    requires IsDerivation(g, m.Whole()) && TreeOf(g, m.Whole()) == Replace(f, n, sub)
    ensures Substitutes(g, f, n, sub, m)
  {
  }

  /** `2 << k`. */
  function ShiftTwo(k: nat): nat {
    if k == 0 then 2 else 2 * ShiftTwo(k - 1)
  }

  lemma {:induction false} ShiftBound(k: nat, n: nat)
    requires k <= n
    ensures 2 <= ShiftTwo(k) <= ShiftTwo(n)
    decreases n
  {
    if k < n {
      ShiftBound(k, n - 1);
    } else if k > 0 {
      ShiftBound(k - 1, k - 1);
    }
  }

  /**
   Pumps a random recursion of the tree. `outer` and `inner` are its two nodes and `num` the
   number of copies; `num` may be zero, when the recursion alone exceeds the length drawn.
   */
  method MutRandomRecursion(g: Grammar, tree: Tree, recursions: seq<RecursionInfo>)
    returns (sent: Option<TreeMutation>, ghost outer: nat, ghost inner: nat, ghost num: nat)
    requires tree.Valid(g)
    requires forall info :: info in recursions ==> exists nt :: InfoFor(g, tree.Shape(g), nt, info)
    ensures sent == None <==> recursions == []
    ensures sent.Some? ==> Pumped(g, tree.Shape(g), tree.Root(g), outer, inner, num, sent.value)
  {
    outer, inner, num := 0, 0, 0;
    if |recursions| == 0 {
      return None, outer, inner, num;
    }
    var chosen := Random(0, |recursions| - 1);
    assert recursions[chosen] in recursions;
    ghost var nt :| InfoFor(g, tree.Shape(g), nt, recursions[chosen]);
    hide *;
    var repl;
    repl, outer, inner, num := PumpInfo(g, tree, tree.Shape(g), nt, recursions[chosen]);
    return Some(repl), outer, inner, num;
  }

  /** `num` is a number of copies that may be drawn for a recursion of `total` nodes. */
  ghost predicate Drawn(num: nat, total: nat)
    requires total > 0
  {
    exists s: nat :: 1 <= s <= 10 && num == ShiftTwo(s) / total
  }

  /** `m` is `f` with the recursion from `outer` to `inner` nested `num` more times. */
  ghost predicate Pumped(g: Grammar, f: Forest, root: NTermId, outer: nat, inner: nat, num: nat, m: TreeMutation) {
    && outer < inner < Count(f) && inner - outer < CountTree(SubAt(f, outer))
    && NearestSame(g, f, outer, inner)
    && Substitutes(g, f, inner, Pump(SubAt(f, outer), inner - outer, num), m)
    && TreeOf(g, m.Whole()) == Replace(f, outer, Pump(SubAt(f, outer), inner - outer, num + 1))
    && RootNT(g, m.Whole()) == root
    && CountTree(SubAt(f, inner)) < CountTree(SubAt(f, outer))
    && Drawn(num, CountTree(SubAt(f, outer)) - CountTree(SubAt(f, inner)))
  }

  /** The choice of a pair and of the number of copies. */
  method PumpInfo(g: Grammar, tree: Tree, ghost f: Forest, ghost nt: NTermId, info: RecursionInfo)
    returns (repl: TreeMutation, ghost outer: nat, ghost inner: nat, ghost num: nat)
    requires tree.Valid(g) && f == tree.Shape(g) && InfoFor(g, f, nt, info)
    ensures Pumped(g, f, tree.Root(g), outer, inner, num, repl)
  {
    hide *;
    InfoNodes(g, f, nt, info);
    var offset := Random(0, |info.nodeByOffset| - 1);
    var rec0, rec1 := GetRecursionPairByOffset(g, f, nt, info, offset);
    NestedFacts(g, tree, rec0, rec1);
    NestedSizes(tree.rules, tree.sizes, rec0, rec1);
    var copies := DrawCopies(tree.sizes[rec0] - tree.sizes[rec1]);
    outer, inner, num := rec0, rec1, copies;
    repl := PumpRecursion(g, tree, f, rec0, rec1, copies);
    MakePumped(g, f, tree.Root(g), rec0, rec1, copies, repl);
  }

  lemma MakePumped(g: Grammar, f: Forest, root: NTermId, outer: nat, inner: nat, num: nat, m: TreeMutation)
    requires outer < inner < Count(f) && inner - outer < CountTree(SubAt(f, outer))
    requires NearestSame(g, f, outer, inner) && IsDerivation(g, m.Whole())
    requires Substitutes(g, f, inner, Pump(SubAt(f, outer), inner - outer, num), m)
    requires TreeOf(g, m.Whole()) == Replace(f, outer, Pump(SubAt(f, outer), inner - outer, num + 1))
    requires RootNT(g, m.Whole()) == root
    requires CountTree(SubAt(f, inner)) < CountTree(SubAt(f, outer))
    requires Drawn(num, CountTree(SubAt(f, outer)) - CountTree(SubAt(f, inner)))
    ensures Pumped(g, f, root, outer, inner, num, m)
  {
  }

  /** How many copies of a recursion of `total` nodes fit the length drawn. */
  method DrawCopies(total: nat) returns (num: nat)
    requires total > 0
    ensures Drawn(num, total)
  {
    var shift := Random(1, 10);
    var maxLen := ShiftTwo(shift);
    num := maxLen / total;
  }

  /** The copies never add more than 2048 nodes. */
  lemma DrawnBound(num: nat, total: nat)
    requires total > 0 && Drawn(num, total)
    ensures num * total <= 2048
  {
    var s: nat :| 1 <= s <= 10 && num == ShiftTwo(s) / total;
    DivBound(ShiftTwo(s), total);
    ShiftLimit(s);
  }

  lemma {:induction false} ShiftIsPower(k: nat)
    ensures ShiftTwo(k) == 2 * Power(k)
  {
    if k > 0 { ShiftIsPower(k - 1); }
  }

  /**
   The documentation promises 2^s copies for a draw of s. That holds exactly for recursions of
   two nodes. There are no copies at all exactly if the recursion exceeds the length drawn.
   */
  lemma CopiesAsDocumented(s: nat, total: nat)
    requires total > 0
    ensures ShiftTwo(s) / total == Power(s) <==> total == 2
    ensures ShiftTwo(s) / total == 0 <==> total > ShiftTwo(s)
  {
    var q := Power(s);
    ShiftIsPower(s);
    DivIs(2 * q, total, q);
    DivIs(2 * q, total, 0);
    if total >= 3 {
      MulMono(q, q, 3, total);
    }
  }

  /** Replacing a subtree by itself changes nothing. */
  lemma {:induction false} ReplaceSame(f: Forest, i: nat)
    requires i < Count(f)
    ensures Replace(f, i, SubAt(f, i)) == f
  {
    if i == 0 {
    } else if i < CountTree(f.head) {
      ReplaceSame(f.head.kids, i - 1);
    } else {
      ReplaceSame(f.tail, i - CountTree(f.head));
    }
  }

  /** Nesting the context once around the inner subtree is the outer subtree. */
  lemma PumpOnceSame(t: Derivation, i: nat)
    requires i < CountTree(t)
    ensures Pump(t, i, 1) == t
  {
    ReplaceSame(Single(t), i);
    assert Pump(t, i, 1) == InContext(t, i, Pump(t, i, 0));
  }

  lemma PumpCount(t: Derivation, i: nat, k: nat)
    requires i < CountTree(t)
    ensures CountTree(SubAt(Single(t), i)) <= CountTree(t)
    ensures CountTree(Pump(t, i, k)) == CountTree(SubAt(Single(t), i)) + k * (CountTree(t) - CountTree(SubAt(Single(t), i)))
  {
    PumpPre(t, i, k);
    SubAtSplit(Single(t), i);
    var a, z := |Before(Single(t), i)|, |After(Single(t), i)|;
    SplitTotal(k, a, z);
  }

  /**
   What `num` copies add: that many times the recursion's nodes. So the mutation is the
   original tree exactly if no copy was made.
   */
  lemma PumpedAdds(g: Grammar, f: Forest, root: NTermId, outer: nat, inner: nat, num: nat, m: TreeMutation)
    requires Pumped(g, f, root, outer, inner, num, m)
    ensures |m.Whole()| == Count(f) + num * (CountTree(SubAt(f, outer)) - CountTree(SubAt(f, inner)))
    ensures TreeOf(g, m.Whole()) == f <==> num == 0
  {
    hide *;
    PumpedFacts(g, f, root, outer, inner, num, m);
    var i, total := inner - outer, CountTree(SubAt(f, outer)) - CountTree(SubAt(f, inner));
    PumpedSizes(f, outer, i, inner, num + 1);
    TreeShape(g, m.Whole());
    OneMore(num, total);
    if num == 0 { NothingPumped(f, outer, i); }
  }

  lemma PumpedSizes(f: Forest, outer: nat, i: nat, inner: nat, k: nat)
    requires outer < inner < Count(f) && Inside(f, outer, inner) && inner == outer + i
    ensures CountTree(SubAt(f, inner)) <= CountTree(SubAt(f, outer)) <= Count(f) && i < CountTree(SubAt(f, outer))
    ensures Count(Replace(f, outer, Pump(SubAt(f, outer), i, k))) ==
      Count(f) - CountTree(SubAt(f, outer)) + CountTree(SubAt(f, inner))
        + k * (CountTree(SubAt(f, outer)) - CountTree(SubAt(f, inner)))
  {
    hide *;
    InnerOfSingle(f, outer, i, inner);
    PumpCount(SubAt(f, outer), i, k);
    ReplaceCount(f, outer, Pump(SubAt(f, outer), i, k));
  }

  lemma NothingPumped(f: Forest, outer: nat, i: nat)
    requires outer < Count(f) && i < CountTree(SubAt(f, outer))
    ensures Replace(f, outer, Pump(SubAt(f, outer), i, 1)) == f
  {
    hide *;
    PumpOnceSame(SubAt(f, outer), i);
    ReplaceSame(f, outer);
  }

  lemma OneMore(num: nat, total: nat)
    ensures (num + 1) * total == num * total + total
    ensures num > 0 && total > 0 ==> num * total > 0
  {
  }

  lemma PumpedFacts(g: Grammar, f: Forest, root: NTermId, outer: nat, inner: nat, num: nat, m: TreeMutation)
    requires Pumped(g, f, root, outer, inner, num, m)
    ensures outer < inner < Count(f) && inner - outer < CountTree(SubAt(f, outer)) && Inside(f, outer, inner)
    ensures IsDerivation(g, m.Whole())
    ensures TreeOf(g, m.Whole()) == Replace(f, outer, Pump(SubAt(f, outer), inner - outer, num + 1))
    ensures CountTree(SubAt(f, inner)) < CountTree(SubAt(f, outer))
  {
  }

  /** Builds the pumped tree and splices it in at the inner node. */
  method PumpRecursion(g: Grammar, tree: Tree, ghost f: Forest, rec0: nat, rec1: nat, num: nat) returns (repl: TreeMutation)
    requires tree.Valid(g) && f == tree.Shape(g) && NearestSame(g, f, rec0, rec1)
    ensures rec0 < rec1 < Count(f) && rec1 - rec0 < CountTree(SubAt(f, rec0))
    ensures Substitutes(g, f, rec1, Pump(SubAt(f, rec0), rec1 - rec0, num), repl)
    ensures IsDerivation(g, repl.Whole()) && RootNT(g, repl.Whole()) == tree.Root(g)
    ensures TreeOf(g, repl.Whole()) == Replace(f, rec0, Pump(SubAt(f, rec0), rec1 - rec0, num + 1))
  {
    hide *;
    NestedFacts(g, tree, rec0, rec1);
    NestedSizes(tree.rules, tree.sizes, rec0, rec1);
    ShapeIs(g, tree);
    RootDerives(g, tree);
    var rulesNew, sizesNew := BuildRecursion(tree, rec0, rec1, num);
    var recursionTree := new Tree.FromParts(rulesNew, sizesNew, []);
    repl := tree.MutateReplaceFromTree(rec1, recursionTree, 0);
    SpliceWhole(tree, rec1, recursionTree, repl);
    PumpSplice(g, f, tree.Root(g), rec0, rec1, num, repl);
  }

  lemma NestedSizes(rules: seq<RuleId>, sizes: seq<nat>, rec0: nat, rec1: nat)
    requires NestedBlocks(rules, sizes, rec0, rec1)
    ensures |sizes| == |rules| && rec0 < rec1 < |rules| && 0 < sizes[rec1] < sizes[rec0]
    ensures rec1 + sizes[rec1] <= rec0 + sizes[rec0] <= |rules|
  {
  }

  lemma ShiftLimit(k: nat)
    requires k <= 10
    ensures ShiftTwo(k) <= 2048
  {
    ShiftBound(k, 10);
    assert ShiftTwo(2) == 8;
    assert ShiftTwo(4) == 32;
    assert ShiftTwo(6) == 128;
    assert ShiftTwo(8) == 512;
  }

  lemma SpliceWhole(tree: Tree, n: nat, other: Tree, m: TreeMutation)
    requires n < |tree.sizes| && n + tree.sizes[n] <= |tree.rules|
    requires |other.sizes| > 0 && other.sizes[0] == |other.rules|
    requires m == tree.MutateReplaceFromTree(n, other, 0)
    ensures m.prefix == tree.rules[..n] && m.repl == other.rules && m.postfix == tree.rules[n + tree.sizes[n]..]
  {
  }

  // ------------------------------------------------ a tree that is not repeated

  /** `S -> S A A A A | s` and `A -> a`. */
  const WIDE: Grammar := [
    Rule(0, [NTerm(0), NTerm(1), NTerm(1), NTerm(1), NTerm(1)]), Rule(0, [Term("s")]), Rule(1, [Term("a")])]

  /** `k` trees of `A`. */
  function Leaves(k: nat): Forest {
    if k == 0 then Nil else Cons(Node(2, Nil), Leaves(k - 1))
  }

  /** The tree of `s a a a a`: the recursion from node 0 to node 1 has five nodes. */
  function WideTree(): Forest {
    Single(Node(0, Cons(Node(1, Nil), Leaves(4))))
  }

  lemma {:induction false} LeavesDerive(k: nat)
    ensures Derives(WIDE, Leaves(k), seq(k, _ => 1)) && Count(Leaves(k)) == k && Pre(Leaves(k)) == seq(k, _ => 2)
  {
    if k > 0 {
      LeavesDerive(k - 1);
      assert seq(k, _ => 1)[1..] == seq(k - 1, _ => 1);
      assert NontermsOf([Term("a")]) == [];
      assert Pre(Leaves(k)) == [2] + [] + Pre(Leaves(k - 1));
    }
  }

  lemma WideDerives()
    ensures Derives(WIDE, WideTree(), [0])
    ensures Pre(WideTree()) == [0, 1, 2, 2, 2, 2] && Count(WideTree()) == 6
    ensures SubAt(WideTree(), 0) == WideTree().head && CountTree(WideTree().head) == 6
    ensures SubAt(WideTree(), 1) == Node(1, Nil) && CountTree(Node(1, Nil)) == 1
  {
    LeavesDerive(4);
    var kids := Cons(Node(1, Nil), Leaves(4));
    assert Nonterms(WIDE, 0) == [0, 1, 1, 1, 1] by {
      var c := WIDE[0].children;
      assert c[1..] == [NTerm(1), NTerm(1), NTerm(1), NTerm(1)];
      assert c[2..] == [NTerm(1), NTerm(1), NTerm(1)] && c[1..][1..] == c[2..];
      assert c[3..] == [NTerm(1), NTerm(1)] && c[2..][1..] == c[3..];
      assert c[4..] == [NTerm(1)] && c[3..][1..] == c[4..];
      assert c[5..] == [] && c[4..][1..] == c[5..];
      assert NontermsOf(c[5..]) == [];
      assert NontermsOf(c[4..]) == [1];
      assert NontermsOf(c[3..]) == [1, 1];
      assert NontermsOf(c[2..]) == [1, 1, 1];
      assert NontermsOf(c[1..]) == [1, 1, 1, 1];
    }
    assert Nonterms(WIDE, 1) == [];
    assert [0, 1, 1, 1, 1][1..] == seq(4, _ => 1);
    assert Derives(WIDE, kids, [0, 1, 1, 1, 1]);
    assert Pre(kids) == [1] + [] + Pre(Leaves(4));
    assert Count(kids) == 5;
  }

  /**
   The documented 2^s copies are not made: for this recursion and a draw of one, the number of
   copies is zero instead of two, and the mutation sent is the original tree.
   */
  lemma NoCopiesExample() returns (m: TreeMutation)
    ensures Pumped(WIDE, WideTree(), 0, 0, 1, 0, m)
    ensures ShiftTwo(1) / (CountTree(SubAt(WideTree(), 0)) - CountTree(SubAt(WideTree(), 1))) == 0 != Power(1)
    ensures m.Whole() == Pre(WideTree())
  {
    hide *;
    WideDerives();
    WideNearest();
    ZeroDrawn();
    m := NothingCopied(WIDE, WideTree(), 0, 0, 1);
  }

  /** When a draw allows no copy, what is sent may be the original tree, written in three parts. */
  lemma NothingCopied(g: Grammar, f: Forest, root: NTermId, outer: nat, inner: nat) returns (m: TreeMutation)
    requires Derives(g, f, [root]) && NearestSame(g, f, outer, inner) && inner < Count(f)
    requires inner + CountTree(SubAt(f, inner)) <= outer + CountTree(SubAt(f, outer)) <= Count(f)
    requires outer < inner && CountTree(SubAt(f, inner)) < CountTree(SubAt(f, outer))
    requires Drawn(0, CountTree(SubAt(f, outer)) - CountTree(SubAt(f, inner)))
    ensures Pumped(g, f, root, outer, inner, 0, m) && m.Whole() == Pre(f)
  {
    hide *;
    var end := inner + CountTree(SubAt(f, inner));
    m := ThreeParts(Pre(f), outer, inner, end, outer + CountTree(SubAt(f, outer)));
    PumpSplice(g, f, root, outer, inner, 0, m);
    MakePumped(g, f, root, outer, inner, 0, m);
  }

  lemma ThreeParts(rules: seq<RuleId>, outer: nat, inner: nat, end: nat, last: nat) returns (m: TreeMutation)
    requires outer <= inner <= end <= last <= |rules|
    ensures m.prefix == rules[..inner] && m.postfix == rules[end..] && m.Whole() == rules
    ensures m.repl == Repeated(rules[outer..inner], 0) + rules[inner..end] + Repeated(rules[end..last], 0)
  {
    m := TreeMutation(rules[..inner], rules[inner..end], rules[end..]);
    assert [] + rules[inner..end] + [] == rules[inner..end];
    assert rules[..inner] + rules[inner..end] + rules[end..] == rules;
  }

  lemma ZeroDrawn()
    ensures ShiftTwo(1) / 5 == 0 != Power(1) && Drawn(0, 5)
  {
    assert ShiftTwo(1) == 4;
  }

  lemma WideNearest()
    ensures NearestSame(WIDE, WideTree(), 0, 1)
  {
    WideDerives();
    assert AncestorOf(WIDE, WideTree(), 0, 0, 1);
  }
}
