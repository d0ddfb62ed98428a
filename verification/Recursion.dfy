/**
 Recursions: nodes that have a proper ancestor of the same nonterminal. The one-pass stack
 scan of `RecursionInfo::FindParents`, and the upward walk of `Mutator::FindParentWithNT`,
 against the derivation tree.
 */
module Recursions {
  import opened Grammars
  import opened Positions
  import opened Sequences
  import opened Trees

  /** The nonterminal at a node; `None` for an id outside the tree. */
  function NtAt(g: Grammar, f: Forest, n: nat): Option<NTermId> {
    if n < Count(f) && SubAt(f, n).rule < |g| then Some(g[SubAt(f, n).rule].nonterm) else None
  }

  /** `p` is a proper ancestor of `n` and derives `nt`. */
  ghost predicate AncestorOf(g: Grammar, f: Forest, nt: NTermId, p: nat, n: nat) {
    p < n < Count(f) && Inside(f, p, n) && NtAt(g, f, p) == Some(nt)
  }

  /** `p` is the nearest proper ancestor of `n` that derives `nt`. */
  ghost predicate NearestOf(g: Grammar, f: Forest, nt: NTermId, p: nat, n: nat) {
    && AncestorOf(g, f, nt, p, n)
    && forall a :: p < a ==> !AncestorOf(g, f, nt, a, n)
  }

  /** `p` is the nearest proper ancestor of `n` with the same nonterminal. */
  ghost predicate NearestSame(g: Grammar, f: Forest, p: nat, n: nat) {
    NtAt(g, f, n).Some? && NearestOf(g, f, NtAt(g, f, n).value, p, n)
  }

  /** Node `n` repeats the nonterminal of one of its proper ancestors. */
  ghost predicate Repeats(g: Grammar, f: Forest, n: nat) {
    NtAt(g, f, n).Some? && exists p :: AncestorOf(g, f, NtAt(g, f, n).value, p, n)
  }

  /** No node of nonterminal `nt` repeats it. */
  ghost predicate NoneRepeats(g: Grammar, f: Forest, nt: NTermId) {
    forall n :: NtAt(g, f, n) == Some(nt) ==> !Repeats(g, f, n)
  }

  /** No nonterminal occurs twice on a path from the root. */
  ghost predicate NoRepeats(g: Grammar, f: Forest) {
    forall n :: !Repeats(g, f, n)
  }

  /** The number of proper ancestors. */
  function Depth(f: Forest, n: nat): nat
    requires n < Count(f)
  {
    if n == 0 then 0
    else if n < CountTree(f.head) then 1 + Depth(f.head.kids, n - 1)
    else Depth(f.tail, n - CountTree(f.head))
  }

  // ---------------------------------------------------------------- the upward walk

  /** One step up keeps every ancestor of `n` accounted for. */
  lemma StepUp(f: Forest, n: nat, cur: nat, q: nat)
    requires 0 < cur <= n < Count(f) && (cur == n || Inside(f, cur, n)) && Nearest(f, q, cur)
    ensures Inside(f, q, n)
    ensures forall a: nat :: q < a < cur ==> !Inside(f, a, n)
  {
    InsideNested(f, q, cur);
    forall a: nat | q < a < cur ensures !Inside(f, a, n) {
      assert !Inside(f, a, cur);
    }
  }

  /** The nearest proper ancestor of `node` with its nonterminal, found by climbing `_paren`. */
  method FindParentWithNT(g: Grammar, tree: Tree, node: nat) returns (r: Option<nat>)
    requires tree.Valid(g) && node < |tree.rules|
    ensures r.Some? ==> NearestSame(g, tree.Shape(g), r.value, node)
    ensures r == None ==> !Repeats(g, tree.Shape(g), node)
  {
    ghost var f := tree.Shape(g);
    NodeFacts(g, tree, node);
    TreeShape(g, tree.rules);
    var nt := g[tree.rules[node]].nonterm;
    var cur := node;
    var parent := tree.GetParent(cur);
    while parent.Some?
      invariant cur <= node && (cur == node || Inside(f, cur, node))
      invariant parent == if cur != 0 then Some(tree.paren[cur]) else None
      invariant forall a :: cur <= a ==> !AncestorOf(g, f, nt, a, node)
      decreases cur
    {
      var q := parent.value;
      TreeParents(f, cur);
      StepUp(f, node, cur, q);
      NodeFacts(g, tree, q);
      if g[tree.rules[q]].nonterm == nt {
        return Some(q);
      }
      cur := q;
      parent := tree.GetParent(cur);
    }
    return None;
  }

  // ------------------------------------------------------------------ the stack scan

  /** A repeating node, its nearest ancestor of the same nonterminal, and its depth. */
  datatype Found = Found(node: nat, parent: nat, depth: nat)

  /** What is pushed for a node still to come: the nearest `nt` ancestor and the depth. */
  datatype Below = Below(anc: Option<nat>, depth: nat)

  /** `k` copies, as a rule with `k` nonterminals pushes them. */
  function Copies(k: nat, b: Below): (r: seq<Below>)
    ensures |r| == k
  {
    if k == 0 then [] else [b] + Copies(k - 1, b)
  }

  /** The repeating nodes of `f`, whose first node is `base`, below `b`. */
  function Finds(g: Grammar, f: Forest, nt: NTermId, base: nat, b: Below): seq<Found> {
    match f
    case Nil => []
    case Cons(t, tail) =>
      Here(g, t.rule, nt, base, b)
      + Finds(g, t.kids, nt, base + 1, Under(g, t.rule, nt, base, b))
      + Finds(g, tail, nt, base + CountTree(t), b)
  }

  /** The entry of one node, if it repeats. */
  function Here(g: Grammar, r: RuleId, nt: NTermId, node: nat, b: Below): seq<Found> {
    if r < |g| && g[r].nonterm == nt && b.anc.Some? then [Found(node, b.anc.value, b.depth)] else []
  }

  /** What a node passes to its children. */
  function Under(g: Grammar, r: RuleId, nt: NTermId, node: nat, b: Below): Below {
    Below(if r < |g| && g[r].nonterm == nt then Some(node) else b.anc, b.depth + 1)
  }

  /** The loop of `FindParents` from node `node` on; `None` when the stack runs dry. */
  function FindScan(g: Grammar, rules: seq<RuleId>, nt: NTermId, node: nat, stack: seq<Below>, found: seq<Found>): Option<seq<Found>> {
    if rules == [] then Some(found)
    else if stack == [] || rules[0] >= |g| then None
    else
      var r, b := rules[0], stack[0];
      FindScan(g, rules[1..], nt, node + 1,
               Copies(|Nonterms(g, r)|, Under(g, r, nt, node, b)) + stack[1..],
               found + Here(g, r, nt, node, b))
  }

  lemma FindStep(g: Grammar, r: RuleId, rest: seq<RuleId>, nt: NTermId, node: nat, b: Below, stack: seq<Below>, found: seq<Found>)
    requires r < |g|
    ensures FindScan(g, [r] + rest, nt, node, [b] + stack, found)
         == FindScan(g, rest, nt, node + 1, Copies(|Nonterms(g, r)|, Under(g, r, nt, node, b)) + stack,
                     found + Here(g, r, nt, node, b))
  {
    assert ([r] + rest)[1..] == rest;
    assert ([b] + stack)[1..] == stack;
  }

  lemma FindUnfold(g: Grammar, f: Forest, nts: seq<NTermId>, nt: NTermId, node: nat, b: Below,
                   rest: seq<RuleId>, stack: seq<Below>, found: seq<Found>)
    requires f.Cons? && Derives(g, f, nts)
    ensures f.head.rule < |g| && Derives(g, f.head.kids, Nonterms(g, f.head.rule)) && Derives(g, f.tail, nts[1..])
    ensures Pre(f) + rest == [f.head.rule] + (Pre(f.head.kids) + (Pre(f.tail) + rest))
    ensures Copies(|nts|, b) + stack == [b] + (Copies(|nts[1..]|, b) + stack)
    ensures node + Count(f) == node + 1 + Count(f.head.kids) + Count(f.tail)
    ensures var here, kids, after := Here(g, f.head.rule, nt, node, b),
                                     Finds(g, f.head.kids, nt, node + 1, Under(g, f.head.rule, nt, node, b)),
                                     Finds(g, f.tail, nt, node + 1 + Count(f.head.kids), b);
      found + Finds(g, f, nt, node, b) == found + here + kids + after
  {
    hide Finds, Here, Under;
    FindsUnfold(g, f, nt, node, b);
    Regroup([f.head.rule], Pre(f.head.kids), Pre(f.tail), rest);
    Regroup(found, Here(g, f.head.rule, nt, node, b),
            Finds(g, f.head.kids, nt, node + 1, Under(g, f.head.rule, nt, node, b)),
            Finds(g, f.tail, nt, node + 1 + Count(f.head.kids), b));
    CopiesFirst(nts, b, stack);
  }

  lemma FindsUnfold(g: Grammar, f: Forest, nt: NTermId, node: nat, b: Below)
    requires f.Cons?
    ensures Finds(g, f, nt, node, b) ==
      Here(g, f.head.rule, nt, node, b)
      + Finds(g, f.head.kids, nt, node + 1, Under(g, f.head.rule, nt, node, b))
      + Finds(g, f.tail, nt, node + 1 + Count(f.head.kids), b)
  {
    assert node + CountTree(f.head) == node + 1 + Count(f.head.kids);
  }

  lemma CopiesFirst(nts: seq<NTermId>, b: Below, stack: seq<Below>)
    requires nts != []
    ensures Copies(|nts|, b) + stack == [b] + (Copies(|nts[1..]|, b) + stack)
  {
    assert Copies(|nts|, b) == [b] + Copies(|nts[1..]|, b);
  }

  /** The scan finds exactly what the tree calls for. */
  lemma {:induction false} FindForest(g: Grammar, f: Forest, nts: seq<NTermId>, nt: NTermId, node: nat, b: Below,
                                      rest: seq<RuleId>, stack: seq<Below>, found: seq<Found>)
    requires Derives(g, f, nts)
    ensures FindScan(g, Pre(f) + rest, nt, node, Copies(|nts|, b) + stack, found)
         == FindScan(g, rest, nt, node + Count(f), stack, found + Finds(g, f, nt, node, b))
  {
    hide *;
    if f.Nil? {
      FindNothing(g, nts, nt, node, b, rest, stack, found);
    } else {
      FindUnfold(g, f, nts, nt, node, b, rest, stack, found);
      var t, tail := f.head, f.tail;
      var under, mid := Under(g, t.rule, nt, node, b), node + 1 + Count(t.kids);
      var found1 := found + Here(g, t.rule, nt, node, b);
      var found2 := found1 + Finds(g, t.kids, nt, node + 1, under);
      var stack1 := Copies(|nts[1..]|, b) + stack;
      FindStep(g, t.rule, Pre(t.kids) + (Pre(tail) + rest), nt, node, b, stack1, found);
      FindForest(g, t.kids, Nonterms(g, t.rule), nt, node + 1, under, Pre(tail) + rest, stack1, found1);
      FindForest(g, tail, nts[1..], nt, mid, b, rest, stack, found2);
      calc {
        FindScan(g, Pre(f) + rest, nt, node, Copies(|nts|, b) + stack, found);
        FindScan(g, [t.rule] + (Pre(t.kids) + (Pre(tail) + rest)), nt, node, [b] + stack1, found);
        FindScan(g, Pre(t.kids) + (Pre(tail) + rest), nt, node + 1, Copies(|Nonterms(g, t.rule)|, under) + stack1, found1);
        FindScan(g, Pre(tail) + rest, nt, mid, stack1, found2);
        FindScan(g, rest, nt, mid + Count(tail), stack, found2 + Finds(g, tail, nt, mid, b));
        FindScan(g, rest, nt, node + Count(f), stack, found + Finds(g, f, nt, node, b));
      }
    }
  }

  lemma FindNothing(g: Grammar, nts: seq<NTermId>, nt: NTermId, node: nat, b: Below,
                    rest: seq<RuleId>, stack: seq<Below>, found: seq<Found>)
    requires Derives(g, Nil, nts)
    ensures FindScan(g, Pre(Nil) + rest, nt, node, Copies(|nts|, b) + stack, found)
         == FindScan(g, rest, nt, node + Count(Nil), stack, found + Finds(g, Nil, nt, node, b))
  {
    assert Pre(Nil) + rest == rest && Copies(0, b) + stack == stack && found + [] == found;
  }

  // ------------------------------------------------------- what the scan has found

  /** The nearest `nt` ancestor of node `n` of `f`, where `anc` is the one above `f`. */
  function AncIn(g: Grammar, f: Forest, nt: NTermId, base: nat, anc: Option<nat>, n: nat): Option<nat>
    requires n < Count(f)
  {
    if n == 0 then anc
    else if n < CountTree(f.head) then
      AncIn(g, f.head.kids, nt, base + 1, if NtAt(g, f, 0) == Some(nt) then Some(base) else anc, n - 1)
    else AncIn(g, f.tail, nt, base + CountTree(f.head), anc, n - CountTree(f.head))
  }

  lemma AncestorHead(g: Grammar, f: Forest, nt: NTermId, a: nat, n: nat)
    requires f.Cons? && 0 < n < CountTree(f.head)
    ensures AncestorOf(g, f, nt, a, n) ==
      if a == 0 then NtAt(g, f, 0) == Some(nt) else AncestorOf(g, f.head.kids, nt, a - 1, n - 1)
  {
    if a < n {
      InsideHead(f, a, n);
    }
  }

  lemma AncestorTail(g: Grammar, f: Forest, nt: NTermId, a: nat, n: nat)
    requires f.Cons? && CountTree(f.head) <= n < Count(f)
    ensures AncestorOf(g, f, nt, a, n) ==
      (CountTree(f.head) <= a && AncestorOf(g, f.tail, nt, a - CountTree(f.head), n - CountTree(f.head)))
  {
    if a < n {
      InsideTail(f, a, n);
    }
  }

  ghost predicate NoneOf(g: Grammar, f: Forest, nt: NTermId, n: nat) {
    forall a :: !AncestorOf(g, f, nt, a, n)
  }

  /** `r` is the nearest `nt` ancestor of `n` in `f`, or `anc` if there is none. */
  ghost predicate IsNearestIn(g: Grammar, f: Forest, nt: NTermId, base: nat, anc: Option<nat>, n: nat, r: Option<nat>) {
    || (r == anc && NoneOf(g, f, nt, n))
    || (r.Some? && base <= r.value && NearestOf(g, f, nt, r.value - base, n))
  }

  lemma {:induction false} AncInNearest(g: Grammar, f: Forest, nt: NTermId, base: nat, anc: Option<nat>, n: nat)
    requires n < Count(f)
    ensures IsNearestIn(g, f, nt, base, anc, n, AncIn(g, f, nt, base, anc, n))
  {
    if n == 0 {
    } else if n < CountTree(f.head) {
      var kids, m, inner, anc1 := f.head.kids, n - 1, base + 1, if NtAt(g, f, 0) == Some(nt) then Some(base) else anc;
      var r := AncIn(g, kids, nt, inner, anc1, m);
      AncInNearest(g, kids, nt, inner, anc1, m);
      NearestInHead(g, f, nt, base, inner, anc, anc1, m, n, r);
    } else {
      var c := CountTree(f.head);
      var m, mid := n - c, base + c;
      var r := AncIn(g, f.tail, nt, mid, anc, m);
      AncInNearest(g, f.tail, nt, mid, anc, m);
      NearestInTail(g, f, nt, base, mid, anc, m, n, r);
    }
  }

  lemma NearestInHead(g: Grammar, f: Forest, nt: NTermId, base: nat, inner: nat, anc: Option<nat>, anc1: Option<nat>,
                      m: nat, n: nat, r: Option<nat>)
    requires f.Cons? && m < Count(f.head.kids) && n == m + 1 && inner == base + 1
    requires anc1 == if NtAt(g, f, 0) == Some(nt) then Some(base) else anc
    requires IsNearestIn(g, f.head.kids, nt, inner, anc1, m, r)
    ensures IsNearestIn(g, f, nt, base, anc, n, r)
  {
    hide AncestorOf, NtAt;
    forall a: nat { AncestorHead(g, f, nt, a, n); }
    if r == anc1 && NoneOf(g, f.head.kids, nt, m) {
      if NtAt(g, f, 0) == Some(nt) {
        assert NearestOf(g, f, nt, 0, n);
      } else {
        assert NoneOf(g, f, nt, n);
      }
    } else {
      var p := r.value - base;
      assert NearestOf(g, f, nt, p, n);
    }
  }

  lemma NearestInTail(g: Grammar, f: Forest, nt: NTermId, base: nat, mid: nat, anc: Option<nat>, m: nat, n: nat, r: Option<nat>)
    requires f.Cons? && m < Count(f.tail) && n == m + CountTree(f.head) && mid == base + CountTree(f.head)
    requires IsNearestIn(g, f.tail, nt, mid, anc, m, r)
    ensures IsNearestIn(g, f, nt, base, anc, n, r)
  {
    hide AncestorOf, NtAt;
    forall a: nat { AncestorTail(g, f, nt, a, n); }
    if r == anc && NoneOf(g, f.tail, nt, m) {
      assert NoneOf(g, f, nt, n);
    } else {
      var p := r.value - base;
      assert NearestOf(g, f, nt, p, n);
    }
  }

  /** Entry `e` describes a node of `f` that repeats `nt`. */
  ghost predicate Describes(g: Grammar, f: Forest, nt: NTermId, base: nat, b: Below, e: Found) {
    && base <= e.node < base + Count(f)
    && NtAt(g, f, e.node - base) == Some(nt)
    && AncIn(g, f, nt, base, b.anc, e.node - base) == Some(e.parent)
    && e.depth == b.depth + Depth(f, e.node - base)
  }

  lemma DescribesHead(g: Grammar, f: Forest, nt: NTermId, base: nat, b: Below, e: Found)
    requires f.Cons? && Describes(g, f.head.kids, nt, base + 1, Under(g, f.head.rule, nt, base, b), e)
    ensures Describes(g, f, nt, base, b, e)
  {
  }

  lemma DescribesTail(g: Grammar, f: Forest, nt: NTermId, base: nat, b: Below, e: Found)
    requires f.Cons? && Describes(g, f.tail, nt, base + CountTree(f.head), b, e)
    ensures Describes(g, f, nt, base, b, e)
  {
  }

  lemma {:induction false} FindsSound(g: Grammar, f: Forest, nt: NTermId, base: nat, b: Below)
    ensures forall e :: e in Finds(g, f, nt, base, b) ==> Describes(g, f, nt, base, b, e)
    ensures forall j, k :: 0 <= j < k < |Finds(g, f, nt, base, b)| ==>
      Finds(g, f, nt, base, b)[j].node < Finds(g, f, nt, base, b)[k].node
  {
    if f.Cons? {
      var t, tail := f.head, f.tail;
      var here, kids, after := Here(g, t.rule, nt, base, b),
                               Finds(g, t.kids, nt, base + 1, Under(g, t.rule, nt, base, b)),
                               Finds(g, tail, nt, base + CountTree(t), b);
      FindsSound(g, t.kids, nt, base + 1, Under(g, t.rule, nt, base, b));
      FindsSound(g, tail, nt, base + CountTree(t), b);
      forall e | e in here ensures e.node == base && Describes(g, f, nt, base, b, e) {
      }
      forall e | e in kids ensures base < e.node < base + CountTree(t) && Describes(g, f, nt, base, b, e) {
        DescribesHead(g, f, nt, base, b, e);
      }
      forall e | e in after ensures base + CountTree(t) <= e.node && Describes(g, f, nt, base, b, e) {
        DescribesTail(g, f, nt, base, b, e);
      }
      assert Finds(g, f, nt, base, b) == here + kids + after;
      hide *;
      forall e | e in here + kids + after ensures Describes(g, f, nt, base, b, e) {
        assert e in here || e in kids || e in after;
      }
      SortedParts(here, kids, after, base, base + CountTree(t));
    }
  }

  lemma SortedParts(a: seq<Found>, b: seq<Found>, c: seq<Found>, base: nat, mid: nat)
    requires |a| <= 1 && base < mid
    requires forall e :: e in a ==> e.node == base
    requires forall e :: e in b ==> base < e.node < mid
    requires forall e :: e in c ==> mid <= e.node
    requires forall j, k :: 0 <= j < k < |b| ==> b[j].node < b[k].node
    requires forall j, k :: 0 <= j < k < |c| ==> c[j].node < c[k].node
    ensures forall j, k :: 0 <= j < k < |a + b + c| ==> (a + b + c)[j].node < (a + b + c)[k].node
  {
    forall j | 0 <= j < |b| ensures base < b[j].node < mid {
      assert b[j] in b;
    }
    forall j | 0 <= j < |c| ensures mid <= c[j].node {
      assert c[j] in c;
    }
    forall j | 0 <= j < |a| ensures a[j].node == base {
      assert a[j] in a;
    }
  }

  /** Whatever describes a repeating node is found. */
  lemma {:induction false} FindsComplete(g: Grammar, f: Forest, nt: NTermId, base: nat, b: Below, e: Found)
    requires Describes(g, f, nt, base, b, e)
    ensures e in Finds(g, f, nt, base, b)
    decreases f
  {
    var inner, mid := base + 1, base + CountTree(f.head);
    FindsParts(g, f, nt, base, b);
    DescribesParts(g, f, nt, base, inner, mid, b, e);
    hide *;
    if e.node == base {
    } else if e.node < mid {
      FindsComplete(g, f.head.kids, nt, inner, Under(g, f.head.rule, nt, base, b), e);
    } else {
      FindsComplete(g, f.tail, nt, mid, b, e);
    }
  }

  lemma DescribesParts(g: Grammar, f: Forest, nt: NTermId, base: nat, inner: nat, mid: nat, b: Below, e: Found)
    requires f.Cons? && Describes(g, f, nt, base, b, e) && inner == base + 1 && mid == base + CountTree(f.head)
    ensures base <= e.node
    ensures e.node == base ==> e in Here(g, f.head.rule, nt, base, b)
    ensures base < e.node < mid ==> Describes(g, f.head.kids, nt, inner, Under(g, f.head.rule, nt, base, b), e)
    ensures mid <= e.node ==> Describes(g, f.tail, nt, mid, b, e)
  {
    if e.node == base {
      assert Here(g, f.head.rule, nt, base, b)[0] == e;
    }
  }

  lemma FindsParts(g: Grammar, f: Forest, nt: NTermId, base: nat, b: Below)
    requires f.Cons?
    ensures forall e :: e in Finds(g, f, nt, base, b) <==>
      || e in Here(g, f.head.rule, nt, base, b)
      || e in Finds(g, f.head.kids, nt, base + 1, Under(g, f.head.rule, nt, base, b))
      || e in Finds(g, f.tail, nt, base + CountTree(f.head), b)
  {
  }

  /** The recursions of one nonterminal (without the sampler over the depths). */
  datatype RecursionInfo = RecursionInfo(
    recursiveParents: map<nat, nat>, nodeByOffset: seq<nat>, depthByOffset: seq<nat>)

  /** The three containers after the entries `found`, in order. */
  function Collected(found: seq<Found>): RecursionInfo {
    if found == [] then RecursionInfo(map[], [], [])
    else
      var e, was := found[|found| - 1], Collected(found[..|found| - 1]);
      RecursionInfo(was.recursiveParents[e.node := e.parent], was.nodeByOffset + [e.node], was.depthByOffset + [e.depth])
  }

  lemma {:induction false} CollectedAt(found: seq<Found>)
    requires forall j, k :: 0 <= j < k < |found| ==> found[j].node < found[k].node
    ensures var info := Collected(found);
      && |info.nodeByOffset| == |info.depthByOffset| == |found|
      && (forall k :: 0 <= k < |found| ==>
            && info.nodeByOffset[k] == found[k].node && info.depthByOffset[k] == found[k].depth
            && found[k].node in info.recursiveParents && info.recursiveParents[found[k].node] == found[k].parent)
      && (forall n :: n in info.recursiveParents ==> n in info.nodeByOffset)
  {
    if found != [] {
      CollectedAt(found[..|found| - 1]);
    }
  }

  /** What a recursion info of `nt` promises about the tree. */
  ghost predicate InfoFor(g: Grammar, f: Forest, nt: NTermId, info: RecursionInfo) {
    && 0 < |info.nodeByOffset| == |info.depthByOffset|
    && (forall j, k :: 0 <= j < k < |info.nodeByOffset| ==> info.nodeByOffset[j] < info.nodeByOffset[k])
    && (forall n :: n in info.nodeByOffset <==> NtAt(g, f, n) == Some(nt) && Repeats(g, f, n))
    && (forall n :: n in info.recursiveParents <==> n in info.nodeByOffset)
    && (forall n :: n in info.recursiveParents ==> NearestSame(g, f, info.recursiveParents[n], n))
    && (forall k :: 0 <= k < |info.nodeByOffset| ==>
          info.nodeByOffset[k] < Count(f) && info.depthByOffset[k] == Depth(f, info.nodeByOffset[k]))
  }

  /** Nodes of `nt` repeat exactly when the walk from the root finds an `nt` ancestor. */
  lemma RepeatsAnc(g: Grammar, f: Forest, nt: NTermId, n: nat)
    requires n < Count(f) && NtAt(g, f, n) == Some(nt)
    ensures Repeats(g, f, n) <==> AncIn(g, f, nt, 0, None, n).Some?
    ensures AncIn(g, f, nt, 0, None, n).Some? ==> NearestSame(g, f, AncIn(g, f, nt, 0, None, n).value, n)
  {
    AncInNearest(g, f, nt, 0, None, n);
    var r := AncIn(g, f, nt, 0, None, n);
    if r.Some? { assert AncestorOf(g, f, nt, r.value, n); }
  }

  lemma FoundInfo(g: Grammar, f: Forest, nt: NTermId)
    ensures var found := Finds(g, f, nt, 0, Below(None, 0));
      && (found == [] ==> NoneRepeats(g, f, nt))
      && (found != [] ==> InfoFor(g, f, nt, Collected(found)))
  {
    var b := Below(None, 0);
    var found := Finds(g, f, nt, 0, b);
    FindsSound(g, f, nt, 0, b);
    forall n | NtAt(g, f, n) == Some(nt) && Repeats(g, f, n)
      ensures exists k :: 0 <= k < |found| && found[k].node == n
    {
      RepeatsAnc(g, f, nt, n);
      FindsComplete(g, f, nt, 0, b, Found(n, AncIn(g, f, nt, 0, None, n).value, Depth(f, n)));
    }
    if found != [] {
      CollectedAt(found);
      var info := Collected(found);
      forall k | 0 <= k < |found|
        ensures NtAt(g, f, found[k].node) == Some(nt) && Repeats(g, f, found[k].node)
        ensures NearestSame(g, f, found[k].parent, found[k].node) && found[k].depth == Depth(f, found[k].node)
      {
        assert found[k] in found && Describes(g, f, nt, 0, b, found[k]);
        RepeatsAnc(g, f, nt, found[k].node);
      }
      InfoFromFound(g, f, nt, found, info);
    }
  }

  lemma InfoFromFound(g: Grammar, f: Forest, nt: NTermId, found: seq<Found>, info: RecursionInfo)
    requires found != [] && forall j, k :: 0 <= j < k < |found| ==> found[j].node < found[k].node
    requires |info.nodeByOffset| == |info.depthByOffset| == |found|
    requires forall k :: 0 <= k < |found| ==>
      && info.nodeByOffset[k] == found[k].node && info.depthByOffset[k] == found[k].depth
      && found[k].node in info.recursiveParents && info.recursiveParents[found[k].node] == found[k].parent
    requires forall n :: n in info.recursiveParents ==> n in info.nodeByOffset
    requires forall n :: NtAt(g, f, n) == Some(nt) && Repeats(g, f, n) ==> exists k :: 0 <= k < |found| && found[k].node == n
    requires forall k :: 0 <= k < |found| ==>
      && found[k].node < Count(f) && NtAt(g, f, found[k].node) == Some(nt) && Repeats(g, f, found[k].node)
      && NearestSame(g, f, found[k].parent, found[k].node) && found[k].depth == Depth(f, found[k].node)
    ensures InfoFor(g, f, nt, info)
  {
    hide NtAt, Repeats, NearestSame, Depth, Count;
    forall n | n in info.nodeByOffset
      ensures NtAt(g, f, n) == Some(nt) && Repeats(g, f, n) && n in info.recursiveParents
      ensures NearestSame(g, f, info.recursiveParents[n], n)
    {
      var k :| 0 <= k < |found| && info.nodeByOffset[k] == n;
      assert found[k].node == n;
    }
    forall n | NtAt(g, f, n) == Some(nt) && Repeats(g, f, n) ensures n in info.nodeByOffset {
      var k :| 0 <= k < |found| && found[k].node == n;
      assert info.nodeByOffset[k] == n;
    }
  }

  lemma CopiesNext(j: nat, next: nat, b: Below, rest: seq<Below>)
    requires next == j + 1
    ensures [b] + (Copies(j, b) + rest) == Copies(next, b) + rest
  {
    assert Copies(next, b) == [b] + Copies(j, b);
  }

  /** Pushing the same entry once for each child. */
  method PushCopies(stack: seq<Below>, k: nat, b: Below) returns (r: seq<Below>)
    ensures FromBack(r) == Copies(k, b) + FromBack(stack)
  {
    r := stack;
    var j := 0;
    while j < k
      invariant 0 <= j <= k
      invariant FromBack(r) == Copies(j, b) + FromBack(stack)
    {
      FromBackPush(r, b);
      var next := j + 1;
      CopiesNext(j, next, b, FromBack(stack));
      r := r + [b];
      j := next;
    }
  }

  /**
   The recursions of `nt`, in one pass with a stack of (nearest `nt` ancestor, depth); `None`
   when no node of `nt` repeats.
   */
  method FindParents(g: Grammar, tree: Tree, nt: NTermId) returns (res: Option<RecursionInfo>)
    requires tree.Valid(g)
    ensures res == None ==> NoneRepeats(g, tree.Shape(g), nt)
    ensures res.Some? ==> InfoFor(g, tree.Shape(g), nt, res.value)
  {
    var rules := tree.rules;
    ghost var all := Finds(g, tree.Shape(g), nt, 0, Below(None, 0));
    FoundInfo(g, tree.Shape(g), nt);
    ScanWhole(g, rules, nt);
    hide *;
    var stack := [Below(None, 0)];
    FromBackOne(Below(None, 0));
    res := None;
    ghost var found: seq<Found> := [];
    var i := 0;
    while i < |rules|
      invariant 0 <= i <= |rules|
      invariant FindScan(g, rules[i..], nt, i, FromBack(stack), found) == Some(all)
      invariant res == if found == [] then None else Some(Collected(found))
    {
      stack, res, found := FindTurn(g, rules, nt, i, stack, res, found, all);
      i := i + 1;
    }
    ScanDone(g, rules[i..], nt, i, FromBack(stack), found);
  }

  /** One turn of the loop of `FindParents`. */
  method FindTurn(g: Grammar, rules: seq<RuleId>, nt: NTermId, i: nat, stack: seq<Below>,
                  res: Option<RecursionInfo>, ghost found: seq<Found>, ghost all: seq<Found>)
    returns (stack': seq<Below>, res': Option<RecursionInfo>, ghost found': seq<Found>)
    requires i < |rules| && FindScan(g, rules[i..], nt, i, FromBack(stack), found) == Some(all)
    requires res == if found == [] then None else Some(Collected(found))
    ensures FindScan(g, rules[i + 1..], nt, i + 1, FromBack(stack'), found') == Some(all)
    ensures res' == if found' == [] then None else Some(Collected(found'))
  {
    hide *;
    FindTop(g, rules, nt, i, stack, found, all);
    var top := stack[|stack| - 1];
    stack' := stack[..|stack| - 1];
    var anc := top.anc;
    res', found' := res, found;
    if g[rules[i]].nonterm == nt {
      if anc.Some? {
        res' := Recorded(res, i, anc.value, top.depth);
        CollectedNext(found, Found(i, anc.value, top.depth));
        found' := found + [Found(i, anc.value, top.depth)];
      }
      anc := Some(i);
    }
    stack' := PushCopies(stack', |Nonterms(g, rules[i])|, Below(anc, top.depth + 1));
    FindNext(g, rules, nt, i, i + 1, stack, found, anc, stack', found', all);
  }

  lemma ScanWhole(g: Grammar, rules: seq<RuleId>, nt: NTermId)
    requires IsDerivation(g, rules)
    ensures rules[0..] == rules && Collected([]) == RecursionInfo(map[], [], [])
    ensures FindScan(g, rules, nt, 0, [Below(None, 0)], [])
         == Some(Finds(g, TreeOf(g, rules), nt, 0, Below(None, 0)))
  {
    var f, b := TreeOf(g, rules), Below(None, 0);
    FindForest(g, f, [RootNT(g, rules)], nt, 0, b, [], [], []);
    assert Pre(f) + [] == rules && Copies(1, b) == [b] && [b] + [] == [b];
    assert [] + Finds(g, f, nt, 0, b) == Finds(g, f, nt, 0, b);
  }

  lemma FromBackOne(b: Below)
    ensures FromBack([b]) == [b]
  {
  }

  lemma ScanDone(g: Grammar, rules: seq<RuleId>, nt: NTermId, node: nat, stack: seq<Below>, found: seq<Found>)
    requires rules == []
    ensures FindScan(g, rules, nt, node, stack, found) == Some(found)
  {
  }

  /** Enters a node; the first one creates the record. */
  function Recorded(res: Option<RecursionInfo>, i: nat, anc: nat, depth: nat): Option<RecursionInfo> {
    var info := if res.Some? then res.value else RecursionInfo(map[], [], []);
    Some(RecursionInfo(info.recursiveParents[i := anc], info.nodeByOffset + [i], info.depthByOffset + [depth]))
  }

  lemma CollectedNext(found: seq<Found>, e: Found)
    ensures Recorded(if found == [] then None else Some(Collected(found)), e.node, e.parent, e.depth) ==
      Some(Collected(found + [e]))
    ensures found + [e] != []
  {
    assert (found + [e])[..|found|] == found;
    assert found == [] ==> Collected(found) == RecursionInfo(map[], [], []);
  }

  /** While rules are left, the stack is not empty. */
  lemma FindTop(g: Grammar, rules: seq<RuleId>, nt: NTermId, i: nat, stack: seq<Below>, found: seq<Found>, all: seq<Found>)
    requires i < |rules| && FindScan(g, rules[i..], nt, i, FromBack(stack), found) == Some(all)
    ensures stack != [] && rules[i] < |g|
  {
  }

  /** One turn of the loop leaves the rest of the scan as it was. */
  lemma FindNext(g: Grammar, rules: seq<RuleId>, nt: NTermId, i: nat, next: nat, stack: seq<Below>, found: seq<Found>,
                 anc: Option<nat>, stack': seq<Below>, found': seq<Found>, all: seq<Found>)
    requires i < |rules| && next == i + 1 && FindScan(g, rules[i..], nt, i, FromBack(stack), found) == Some(all)
    requires stack != [] && rules[i] < |g|
    requires var top := stack[|stack| - 1];
      && anc == (if g[rules[i]].nonterm == nt then Some(i) else top.anc)
      && found' == (if g[rules[i]].nonterm == nt && top.anc.Some? then found + [Found(i, top.anc.value, top.depth)] else found)
      && FromBack(stack') == Copies(|Nonterms(g, rules[i])|, Below(anc, top.depth + 1)) + FromBack(stack[..|stack| - 1])
    ensures FindScan(g, rules[next..], nt, next, FromBack(stack'), found') == Some(all)
  {
    assert rules[i..][1..] == rules[next..];
    assert found + [] == found;
    assert FromBack(stack)[1..] == FromBack(stack[..|stack| - 1]);
  }

  /**
   The pair at `offset`. Whatever the recorded depth, the loop looks up the same key each
   time, so the pair is a node and its nearest ancestor of the same nonterminal.
   */
  method GetRecursionPairByOffset(g: Grammar, ghost f: Forest, ghost nt: NTermId, info: RecursionInfo, offset: nat)
    returns (outer: nat, inner: nat)
    requires InfoFor(g, f, nt, info) && offset < |info.nodeByOffset|
    ensures inner == info.nodeByOffset[offset]
    ensures NearestSame(g, f, outer, inner) && NtAt(g, f, outer) == NtAt(g, f, inner) == Some(nt)
  {
    inner := info.nodeByOffset[offset];
    outer := inner;
    DepthPositive(g, f, inner);
    var i := 0;
    while i < info.depthByOffset[offset]
      invariant outer == if i == 0 then inner else info.recursiveParents[inner]
    {
      outer := info.recursiveParents[inner];
      i := i + 1;
    }
  }

  /** A node with a proper ancestor is not at depth zero. */
  lemma {:induction false} DepthAncestor(f: Forest, a: nat, n: nat)
    requires a < n < Count(f) && Inside(f, a, n)
    ensures Depth(f, n) > 0
  {
    if CountTree(f.head) <= n {
      InsideTail(f, a, n);
      DepthAncestor(f.tail, a - CountTree(f.head), n - CountTree(f.head));
    }
  }

  lemma DepthPositive(g: Grammar, f: Forest, n: nat)
    requires Repeats(g, f, n)
    ensures Depth(f, n) > 0
  {
    var a :| AncestorOf(g, f, NtAt(g, f, n).value, a, n);
    DepthAncestor(f, a, n);
  }

  /** `n` is one step below its parent `q`, or at depth zero below the outer parent `p`. */
  ghost predicate OneBelow(f: Forest, base: nat, p: nat, n: nat, q: nat)
    requires n < Count(f)
  {
    if q == p then Depth(f, n) == 0
    else base <= q && q - base < n && Depth(f, n) == 1 + Depth(f, q - base)
  }

  lemma OneBelowHead(f: Forest, base: nat, inner: nat, p: nat, m: nat, n: nat, q: nat)
    requires f.Cons? && m < Count(f.head.kids) && n == m + 1 && p < base && inner == base + 1
    requires OneBelow(f.head.kids, inner, base, m, q)
    ensures n < Count(f) && OneBelow(f, base, p, n, q)
  {
    DepthHead(f, m, n);
    if q != base {
      DepthHead(f, q - inner, q - base);
    }
  }

  lemma DepthHead(f: Forest, m: nat, n: nat)
    requires f.Cons? && m < Count(f.head.kids) && n == m + 1
    ensures n < Count(f) && Depth(f, n) == 1 + Depth(f.head.kids, m)
  {
  }

  lemma OneBelowTail(f: Forest, base: nat, mid: nat, p: nat, m: nat, n: nat, q: nat)
    requires f.Cons? && m < Count(f.tail) && n == m + CountTree(f.head) && p < base && mid == base + CountTree(f.head)
    requires OneBelow(f.tail, mid, p, m, q)
    ensures n < Count(f) && OneBelow(f, base, p, n, q)
  {
    DepthTail(f, m, n);
    if q != p {
      DepthTail(f, q - mid, q - base);
    }
  }

  lemma DepthTail(f: Forest, m: nat, n: nat)
    requires f.Cons? && m < Count(f.tail) && n == m + CountTree(f.head)
    ensures n < Count(f) && Depth(f, n) == Depth(f.tail, m)
  {
  }

  /** The depth is the number of steps up: one more than the parent's, zero at the root. */
  lemma {:induction false} DepthOfParent(f: Forest, base: nat, p: nat, n: nat)
    requires p < base && n < Count(f)
    ensures OneBelow(f, base, p, n, Parents(f, base, p)[n])
  {
    ParentsAt(f, base, p, n);
    hide Parents, Depth;
    var q := Parents(f, base, p)[n];
    if n == 0 {
      DepthFirst(f);
    } else if n < CountTree(f.head) {
      hide OneBelow;
      var inner, m := base + 1, n - 1;
      DepthOfParent(f.head.kids, inner, base, m);
      OneBelowHead(f, base, inner, p, m, n, q);
    } else {
      hide OneBelow;
      var mid, m := base + CountTree(f.head), n - CountTree(f.head);
      DepthOfParent(f.tail, mid, p, m);
      OneBelowTail(f, base, mid, p, m, n, q);
    }
  }

  lemma DepthFirst(f: Forest)
    requires f.Cons?
    ensures 0 < Count(f) && Depth(f, 0) == 0
  {
  }

  /** Some info lists node `n`. */
  ghost predicate Listed(infos: seq<RecursionInfo>, n: nat) {
    exists k :: 0 <= k < |infos| && n in infos[k].nodeByOffset
  }

  /** All recursions of the tree: one info for each nonterminal that repeats, in order of first use. */
  method CalcRecursions(g: Grammar, tree: Tree) returns (ret: Option<seq<RecursionInfo>>)
    requires tree.Valid(g)
    ensures ret == None <==> NoRepeats(g, tree.Shape(g))
    ensures ret.Some? ==> ret.value != [] && forall info :: info in ret.value ==>
      exists nt :: InfoFor(g, tree.Shape(g), nt, info)
    ensures ret.Some? ==> forall n :: Repeats(g, tree.Shape(g), n) ==> Listed(ret.value, n)
    ensures ret.Some? ==> forall j, k :: 0 <= j < k < |ret.value| ==>
      forall n :: n in ret.value[j].nodeByOffset ==> n !in ret.value[k].nodeByOffset
  {
    ghost var f := tree.Shape(g);
    TreeShape(g, tree.rules);
    hide Repeats, NoRepeats, NearestSame, Depth;
    var infos: seq<RecursionInfo> := [];
    ghost var nts: seq<NTermId> := [];
    var done: set<NTermId> := {};
    var i := 0;
    while i < |tree.rules|
      invariant 0 <= i <= |tree.rules|
      invariant InfosOf(g, f, nts, infos) && forall k :: 0 <= k < |nts| ==> nts[k] in done
      invariant forall n :: 0 <= n < i ==> NtAt(g, f, n).Some? && NtAt(g, f, n).value in done
      invariant forall nt, n :: nt in done && NtAt(g, f, n) == Some(nt) && Repeats(g, f, n) ==> Listed(infos, n)
    {
      NodeFacts(g, tree, i);
      var nterm := g[tree.rules[i]].nonterm;
      if nterm !in done {
        var ri := FindParents(g, tree, nterm);
        ghost var before := infos;
        if ri.Some? {
          infos := infos + [ri.value];
          nts := nts + [nterm];
        }
        InfosNext(g, f, done, before, nterm, ri, infos);
        done := done + {nterm};
      }
      i := i + 1;
    }
    InfosAll(g, f, nts, infos, done);
    forall j: nat, k: nat, n: nat | j < k < |infos| && n in infos[j].nodeByOffset ensures n !in infos[k].nodeByOffset {
      InfosDisjoint(g, f, nts, infos, j, k, n);
    }
    if infos == [] {
      return None;
    }
    return Some(infos);
  }

  lemma InfosNext(g: Grammar, f: Forest, done: set<NTermId>, before: seq<RecursionInfo>, nterm: NTermId,
                  ri: Option<RecursionInfo>, infos: seq<RecursionInfo>)
    requires infos == if ri.Some? then before + [ri.value] else before
    requires ri == None ==> NoneRepeats(g, f, nterm)
    requires ri.Some? ==> InfoFor(g, f, nterm, ri.value)
    requires forall nt, n :: nt in done && NtAt(g, f, n) == Some(nt) && Repeats(g, f, n) ==> Listed(before, n)
    ensures forall nt, n :: nt in done + {nterm} && NtAt(g, f, n) == Some(nt) && Repeats(g, f, n) ==> Listed(infos, n)
  {
    hide Repeats, NtAt;
    forall nt, n | nt in done + {nterm} && NtAt(g, f, n) == Some(nt) && Repeats(g, f, n)
      ensures Listed(infos, n)
    {
      if nt in done {
        var k :| 0 <= k < |before| && n in before[k].nodeByOffset;
        assert infos[k] == before[k];
      } else {
        assert n in infos[|before|].nodeByOffset;
      }
    }
  }

  lemma InfoNodes(g: Grammar, f: Forest, nt: NTermId, info: RecursionInfo)
    requires InfoFor(g, f, nt, info)
    ensures info.nodeByOffset != []
    ensures forall n :: n in info.nodeByOffset ==> NtAt(g, f, n) == Some(nt) && Repeats(g, f, n)
  {
  }

  /** The infos are those of the nonterminals `nts`, each once. */
  ghost predicate InfosOf(g: Grammar, f: Forest, nts: seq<NTermId>, infos: seq<RecursionInfo>) {
    && |nts| == |infos|
    && (forall k :: 0 <= k < |nts| ==> InfoFor(g, f, nts[k], infos[k]))
    && (forall j, k :: 0 <= j < k < |nts| ==> nts[j] != nts[k])
  }

  lemma InfosDisjoint(g: Grammar, f: Forest, nts: seq<NTermId>, infos: seq<RecursionInfo>, j: nat, k: nat, n: nat)
    requires InfosOf(g, f, nts, infos) && j < k < |infos| && n in infos[j].nodeByOffset
    ensures n !in infos[k].nodeByOffset
  {
    InfoNodes(g, f, nts[j], infos[j]);
    InfoNodes(g, f, nts[k], infos[k]);
  }

  lemma InfosAll(g: Grammar, f: Forest, nts: seq<NTermId>, infos: seq<RecursionInfo>, done: set<NTermId>)
    requires InfosOf(g, f, nts, infos)
    requires forall n :: 0 <= n < Count(f) ==> NtAt(g, f, n).Some? && NtAt(g, f, n).value in done
    requires forall nt, n :: nt in done && NtAt(g, f, n) == Some(nt) && Repeats(g, f, n) ==> Listed(infos, n)
    ensures infos == [] <==> NoRepeats(g, f)
    ensures forall n :: Repeats(g, f, n) ==> Listed(infos, n)
    ensures forall info :: info in infos ==> exists nt :: InfoFor(g, f, nt, info)
  {
    hide Repeats, InfoFor, NtAt;
    forall n | Repeats(g, f, n) ensures Listed(infos, n) {
      RepeatsInRange(g, f, n);
      assert NtAt(g, f, n) == Some(NtAt(g, f, n).value);
    }
    if infos != [] {
      InfoNodes(g, f, nts[0], infos[0]);
      assert infos[0].nodeByOffset[0] in infos[0].nodeByOffset;
    }
  }

  lemma RepeatsInRange(g: Grammar, f: Forest, n: nat)
    requires Repeats(g, f, n)
    ensures n < Count(f) && NtAt(g, f, n).Some?
  {
  }
}
