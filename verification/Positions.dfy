/**
 Node ids as pre-order positions: the subtree at a position, the block of the rule
 array it occupies, its ancestors, and what `_sizes` and `_paren` mean.
 */
module Positions {
  import opened Grammars
  import opened Sequences

  /** The subtree whose root is the node with pre-order position `i`. */
  function SubAt(f: Forest, i: nat): Derivation
    requires i < Count(f)
  {
    if i == 0 then f.head
    else if i < CountTree(f.head) then SubAt(f.head.kids, i - 1)
    else SubAt(f.tail, i - CountTree(f.head))
  }

  /** `f` with the subtree at position `i` replaced by `t`. */
  function Replace(f: Forest, i: nat, t: Derivation): Forest
    requires i < Count(f)
  {
    if i == 0 then Cons(t, f.tail)
    else if i < CountTree(f.head) then
      Cons(Node(f.head.rule, Replace(f.head.kids, i - 1, t)), f.tail)
    else Cons(f.head, Replace(f.tail, i - CountTree(f.head), t))
  }

  /** Node `n` is a proper descendant of node `p`: it lies in the block of `p`'s subtree. */
  ghost predicate Inside(f: Forest, p: nat, n: nat)
    requires p < Count(f)
  {
    p < n < p + CountTree(SubAt(f, p))
  }

  /** The rules before the subtree at `i`. */
  function Before(f: Forest, i: nat): (rules: seq<RuleId>)
    requires i < Count(f)
    ensures |rules| == i
  {
    if i == 0 then []
    else if i < CountTree(f.head) then [f.head.rule] + Before(f.head.kids, i - 1)
    else PreTree(f.head) + Before(f.tail, i - CountTree(f.head))
  }

  /** The rules after the subtree at `i`. */
  function After(f: Forest, i: nat): seq<RuleId>
    requires i < Count(f)
  {
    if i == 0 then Pre(f.tail)
    else if i < CountTree(f.head) then After(f.head.kids, i - 1) + Pre(f.tail)
    else After(f.tail, i - CountTree(f.head))
  }

  lemma {:induction false} SubAtFits(f: Forest, i: nat)
    requires i < Count(f)
    ensures i + CountTree(SubAt(f, i)) <= Count(f)
  {
    if i == 0 {
    } else if i < CountTree(f.head) {
      SubAtFits(f.head.kids, i - 1);
    } else {
      SubAtFits(f.tail, i - CountTree(f.head));
    }
  }

  lemma {:induction false} SubAtSplit(f: Forest, i: nat)
    requires i < Count(f)
    ensures Pre(f) == Before(f, i) + PreTree(SubAt(f, i)) + After(f, i)
  {
    var t, tail := f.head, f.tail;
    if i == 0 {
    } else if i < CountTree(t) {
      SubAtSplit(t.kids, i - 1);
      Assoc([t.rule], Before(t.kids, i - 1), PreTree(SubAt(t.kids, i - 1)), After(t.kids, i - 1), Pre(tail));
    } else {
      var k := i - CountTree(t);
      SubAtSplit(tail, k);
      AssocLeft(PreTree(t), Before(tail, k), PreTree(SubAt(tail, k)), After(tail, k));
    }
  }

  /** Every subtree occupies the block of the rule array that its size names. */
  lemma SubAtBlock(f: Forest, i: nat)
    requires i < Count(f)
    ensures i + CountTree(SubAt(f, i)) <= Count(f)
    ensures Pre(f)[..i] == Before(f, i)
    ensures Pre(f)[i..i + CountTree(SubAt(f, i))] == PreTree(SubAt(f, i))
    ensures Pre(f)[i + CountTree(SubAt(f, i))..] == After(f, i)
  {
    SubAtFits(f, i);
    SubAtSplit(f, i);
  }

  /** What `_sizes` means: the size of the subtree at each node. */
  lemma {:induction false} SizesAt(f: Forest, i: nat)
    requires i < Count(f)
    ensures Sizes(f)[i] == CountTree(SubAt(f, i))
  {
    if i == 0 {
    } else if i < CountTree(f.head) {
      SizesAt(f.head.kids, i - 1);
    } else {
      SizesAt(f.tail, i - CountTree(f.head));
    }
  }

  lemma SubAtRule(f: Forest, i: nat)
    requires i < Count(f)
    ensures Pre(f)[i] == SubAt(f, i).rule
  {
    SubAtBlock(f, i);
    assert Pre(f)[i] == Pre(f)[i..i + CountTree(SubAt(f, i))][0];
  }

  /** A subtree of a derivation tree is a derivation tree. */
  lemma {:induction false} SubAtDerives(g: Grammar, f: Forest, nts: seq<NTermId>, i: nat)
    requires Derives(g, f, nts) && i < Count(f)
    ensures SubAt(f, i).rule < |g|
    ensures DerivesTree(g, SubAt(f, i), g[SubAt(f, i).rule].nonterm)
  {
    if i == 0 {
    } else if i < CountTree(f.head) {
      SubAtDerives(g, f.head.kids, Nonterms(g, f.head.rule), i - 1);
    } else {
      SubAtDerives(g, f.tail, nts[1..], i - CountTree(f.head));
    }
  }

  /** Positions inside a subtree are positions of the whole, shifted. */
  lemma {:induction false} SubAtCompose(f: Forest, p: nat, k: nat)
    requires p < Count(f) && k < Count(SubAt(f, p).kids)
    ensures p + 1 + k < Count(f)
    ensures SubAt(f, p + 1 + k) == SubAt(SubAt(f, p).kids, k)
  {
    SubAtFits(f, p);
    if p == 0 {
    } else if p < CountTree(f.head) {
      SubAtFits(f.head.kids, p - 1);
      SubAtCompose(f.head.kids, p - 1, k);
    } else {
      SubAtCompose(f.tail, p - CountTree(f.head), k);
    }
  }

  /** Subtree blocks are nested or disjoint. */
  lemma InsideNested(f: Forest, p: nat, n: nat)
    requires p < Count(f) && Inside(f, p, n)
    ensures n < Count(f)
    ensures n + CountTree(SubAt(f, n)) <= p + CountTree(SubAt(f, p))
  {
    SubAtFits(f, p);
    SubAtCompose(f, p, n - p - 1);
    SubAtFits(SubAt(f, p).kids, n - p - 1);
  }

  lemma InsideHead(f: Forest, a: nat, n: nat)
    requires f.Cons? && 0 < n < CountTree(f.head) && a < n
    ensures Inside(f, a, n) == if a == 0 then true else Inside(f.head.kids, a - 1, n - 1)
  {
  }

  lemma InsideTail(f: Forest, a: nat, n: nat)
    requires f.Cons? && CountTree(f.head) <= n < Count(f) && a < n
    ensures Inside(f, a, n) ==
      if a < CountTree(f.head) then false else Inside(f.tail, a - CountTree(f.head), n - CountTree(f.head))
  {
    if 0 < a < CountTree(f.head) {
      SubAtFits(f.head.kids, a - 1);
    }
  }

  /** `p` is the nearest proper ancestor of `n`. */
  ghost predicate Nearest(f: Forest, p: nat, n: nat)
    requires n < Count(f)
  {
    && p < n
    && Inside(f, p, n)
    && forall a: nat :: p < a < n ==> !Inside(f, a, n)
  }

  /** `n` is the root of one of the trees of `f`. */
  ghost predicate Outermost(f: Forest, n: nat)
    requires n < Count(f)
  {
    forall a: nat :: a < n ==> !Inside(f, a, n)
  }

  lemma NearestFirst(f: Forest, n: nat)
    requires f.Cons? && 0 < n < CountTree(f.head) && Outermost(f.head.kids, n - 1)
    ensures Nearest(f, 0, n)
  {
    forall a: nat | 0 < a < n ensures !Inside(f, a, n) {
      InsideHead(f, a, n);
    }
  }

  lemma NearestHead(f: Forest, q: nat, m: nat, p: nat, n: nat)
    requires f.Cons? && m < Count(f.head.kids) && p == q + 1 && n == m + 1 && Nearest(f.head.kids, q, m)
    ensures n < Count(f) && Nearest(f, p, n)
  {
    forall a: nat | p <= a < n ensures Inside(f, a, n) == Inside(f.head.kids, a - 1, m) {
      InsideHead(f, a, n);
    }
  }

  lemma NearestTail(f: Forest, q: nat, m: nat, p: nat, n: nat)
    requires f.Cons? && m < Count(f.tail) && Nearest(f.tail, q, m)
    requires p == q + CountTree(f.head) && n == m + CountTree(f.head)
    ensures n < Count(f) && Nearest(f, p, n)
  {
    hide Inside, SubAt;
    InsideTail(f, p, n);
    forall a: nat | p < a < n ensures !Inside(f, a, n) {
      InsideTail(f, a, n);
      var a' := a - CountTree(f.head);
      assert !Inside(f.tail, a', m);
    }
  }

  lemma OutermostTail(f: Forest, m: nat, n: nat)
    requires f.Cons? && m < Count(f.tail) && n == m + CountTree(f.head) && Outermost(f.tail, m)
    ensures n < Count(f) && Outermost(f, n)
  {
    hide Inside, SubAt;
    forall a: nat | a < n ensures !Inside(f, a, n) {
      InsideTail(f, a, n);
      if a >= CountTree(f.head) {
        var a' := a - CountTree(f.head);
        assert !Inside(f.tail, a', m);
      }
    }
  }

  lemma ParentsAt(f: Forest, base: nat, p: nat, n: nat)
    requires n < Count(f)
    ensures Parents(f, base, p)[n] ==
      if n == 0 then p
      else if n < CountTree(f.head) then Parents(f.head.kids, base + 1, base)[n - 1]
      else Parents(f.tail, base + CountTree(f.head), p)[n - CountTree(f.head)]
  {
  }

  /** `q` is what `_paren` should hold for node `n`. */
  ghost predicate IsParent(f: Forest, base: nat, p: nat, n: nat, q: nat)
    requires n < Count(f)
  {
    if q == p then Outermost(f, n) else base <= q && Nearest(f, q - base, n)
  }

  lemma IsParentFirst(f: Forest, base: nat, p: nat)
    requires f.Cons?
    ensures 0 < Count(f) && IsParent(f, base, p, 0, p)
  {
  }

  lemma IsParentHead(f: Forest, base: nat, inner: nat, p: nat, m: nat, n: nat, q: nat)
    requires f.Cons? && m < Count(f.head.kids) && n == m + 1 && p < base && inner == base + 1
    requires IsParent(f.head.kids, inner, base, m, q)
    ensures n < Count(f) && IsParent(f, base, p, n, q)
  {
    hide Inside, SubAt, Nearest, Outermost;
    if q == base { NearestFirst(f, n); } else { NearestHead(f, q - inner, m, q - base, n); }
  }

  lemma IsParentTail(f: Forest, base: nat, mid: nat, p: nat, m: nat, n: nat, q: nat)
    requires f.Cons? && m < Count(f.tail) && n == m + CountTree(f.head) && p < base && mid == base + CountTree(f.head)
    requires IsParent(f.tail, mid, p, m, q)
    ensures n < Count(f) && IsParent(f, base, p, n, q)
  {
    hide Inside, SubAt, Nearest, Outermost;
    if q == p { OutermostTail(f, m, n); } else { NearestTail(f, q - mid, m, q - base, n); }
  }

  /**
   What `_paren` means: the parent of a node is the nearest node whose subtree contains
   it. A root of the forest, which no node contains, gets the outer parent `p`.
   */
  lemma {:induction false} ParentsNearest(f: Forest, base: nat, p: nat, n: nat)
    requires p < base && n < Count(f)
    ensures IsParent(f, base, p, n, Parents(f, base, p)[n])
  {
    ParentsAt(f, base, p, n);
    hide Parents, Inside, SubAt, IsParent;
    var q := Parents(f, base, p)[n];
    if n == 0 {
      IsParentFirst(f, base, p);
    } else if n < CountTree(f.head) {
      var inner, m := base + 1, n - 1;
      ParentsNearest(f.head.kids, inner, base, m);
      IsParentHead(f, base, inner, p, m, n, q);
    } else {
      var mid, m := base + CountTree(f.head), n - CountTree(f.head);
      ParentsNearest(f.tail, mid, p, m);
      IsParentTail(f, base, mid, p, m, n, q);
    }
  }

  /** `ParentsNearest` for a whole tree, as `_paren` holds it. */
  lemma TreeParents(f: Forest, n: nat)
    requires f.Cons? && f.tail == Nil && 0 < n < Count(f)
    ensures Nearest(f, Parents(f, 0, 0)[n], n)
  {
    var q := Parents(f, 0, 0)[n];
    assert q == Parents(f.head.kids, 1, 0)[n - 1];
    ParentsNearest(f.head.kids, 1, 0, n - 1);
    if q == 0 { NearestFirst(f, n); } else { NearestHead(f, q - 1, n - 1, q, n); }
  }
}
