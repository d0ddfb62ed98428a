/**
 The reverse accumulation of `Tree::CalcSizes`, as a function: walking the nodes from the
 last to the first and adding each size to its parent's turns an array of ones into the
 array of subtree sizes.
 */
module Accumulating {
  import opened Grammars

  /** Every entry is a node id. */
  predicate InRange(paren: seq<nat>) {
    forall k :: 0 <= k < |paren| ==> paren[k] < |paren|
  }

  /** Processes the nodes `hi - 1` down to `lo`. */
  function Accumulate(sizes: seq<nat>, paren: seq<nat>, hi: nat, lo: nat): (r: seq<nat>)
    requires |sizes| == |paren| && hi <= |sizes| && InRange(paren)
    ensures |r| == |sizes|
    decreases hi
  {
    if hi <= lo then sizes
    else
      var p := paren[hi - 1];
      Accumulate(sizes[p := sizes[p] + sizes[hi - 1]], paren, hi - 1, lo)
  }

  lemma {:induction false} AccumulateSplit(sizes: seq<nat>, paren: seq<nat>, hi: nat, mid: nat, lo: nat)
    requires |sizes| == |paren| && lo <= mid <= hi <= |sizes| && InRange(paren)
    ensures Accumulate(sizes, paren, hi, lo)
         == Accumulate(Accumulate(sizes, paren, hi, mid), paren, mid, lo)
    decreases hi
  {
    if mid < hi {
      var p := paren[hi - 1];
      AccumulateSplit(sizes[p := sizes[p] + sizes[hi - 1]], paren, hi - 1, mid, lo);
    }
  }

  lemma AccumulateOne(sizes: seq<nat>, paren: seq<nat>, i: nat)
    requires |sizes| == |paren| && i < |sizes| && InRange(paren)
    ensures Accumulate(sizes, paren, i + 1, i) == sizes[paren[i] := sizes[paren[i]] + sizes[i]]
  {
  }

  /** `block` sits in `a` from position `base`. */
  ghost predicate Block(a: seq<nat>, base: nat, block: seq<nat>) {
    && base + |block| <= |a|
    && forall k :: base <= k < base + |block| ==> a[k] == block[k - base]
  }

  lemma BlockParts(a: seq<nat>, base: nat, x: nat, kids: seq<nat>, tail: seq<nat>)
    requires Block(a, base, [x] + kids + tail)
    ensures a[base] == x && Block(a, base + 1, kids) && Block(a, base + 1 + |kids|, tail)
  {
    var block := [x] + kids + tail;
    assert a[base] == block[0];
    forall k | base + 1 <= k < base + 1 + |kids| ensures a[k] == kids[k - base - 1] {
      assert a[k] == block[k - base];
    }
    forall k | base + 1 + |kids| <= k < base + |block| ensures a[k] == tail[k - base - 1 - |kids|] {
      assert a[k] == block[k - base];
    }
  }

  /** `b` is `a` with the block from `base` overwritten by `block` and `n` added at `p`. */
  ghost predicate Updated(a: seq<nat>, base: nat, block: seq<nat>, p: nat, n: nat, b: seq<nat>)
    requires p < base && base + |block| <= |a|
  {
    && |b| == |a|
    && b[p] == a[p] + n
    && Block(b, base, block)
    && (forall k :: 0 <= k < base && k != p ==> b[k] == a[k])
    && (forall k :: base + |block| <= k < |a| ==> b[k] == a[k])
  }

  /** One tree's update after its right siblings' update is the whole forest's update. */
  lemma UpdatedCons(base: nat, mid: nat, p: nat, x: nat, kids: seq<nat>, tail: seq<nat>, n: nat,
                    a: seq<nat>, s1: seq<nat>, s2: seq<nat>)
    requires x == 1 + |kids| && mid == base + x
    requires p < base && mid + |tail| <= |a| && a[base] == 1
    requires Updated(a, mid, tail, p, n, s1)
    requires Updated(s1, base + 1, kids, base, |kids|, s2)
    ensures Updated(a, base, [x] + kids + tail, p, x + n, s2[p := s2[p] + s2[base]])
  {
    var b, block := s2[p := s2[p] + s2[base]], [x] + kids + tail;
    forall k | base <= k < base + |block| ensures b[k] == block[k - base] {
      if mid <= k { assert s2[k] == s1[k]; }
    }
  }

  /** The entries `lo..hi` are ones. */
  ghost predicate Ones(sizes: seq<nat>, lo: nat, hi: nat) {
    hi <= |sizes| && forall k :: lo <= k < hi ==> sizes[k] == 1
  }

  lemma AccumulateNone(base: nat, p: nat, sizes: seq<nat>, paren: seq<nat>)
    requires |sizes| == |paren| && p < base <= |sizes| && InRange(paren)
    ensures Accumulate(sizes, paren, base, base) == sizes && Updated(sizes, base, [], p, 0, sizes)
  {
  }

  lemma Unfold(f: Forest, base: nat, p: nat)
    ensures f.Cons? ==>
      && CountTree(f.head) == 1 + Count(f.head.kids)
      && Count(f) == CountTree(f.head) + Count(f.tail)
      && Sizes(f) == [CountTree(f.head)] + Sizes(f.head.kids) + Sizes(f.tail)
      && Parents(f, base, p) == [p] + Parents(f.head.kids, base + 1, base) + Parents(f.tail, base + CountTree(f.head), p)
    ensures f.Nil? ==> Count(f) == 0 && Sizes(f) == [] && Parents(f, base, p) == []
  {
  }

  lemma OnesParts(a: seq<nat>, base: nat, mid: nat, end: nat, p: nat, tail: seq<nat>, n: nat, s1: seq<nat>)
    requires p < base < mid && mid + |tail| == end && Ones(a, base, end)
    ensures Ones(a, mid, end) && a[base] == 1
    ensures Updated(a, mid, tail, p, n, s1) ==> Ones(s1, base + 1, mid)
  {
  }

  /** Accumulating over the nodes of a forest fills in its sizes and credits its parent. */
  lemma {:induction false} AccumulateForest(f: Forest, base: nat, end: nat, p: nat, sizes: seq<nat>, paren: seq<nat>)
    requires |sizes| == |paren| && base + Count(f) == end <= |sizes| && p < base
    requires Block(paren, base, Parents(f, base, p)) && InRange(paren)
    requires Ones(sizes, base, end)
    ensures Updated(sizes, base, Sizes(f), p, Count(f), Accumulate(sizes, paren, end, base))
  {
    Unfold(f, base, p);
    hide *;
    if f.Nil? {
      AccumulateNone(base, p, sizes, paren);
    } else {
      var kids, tail := f.head.kids, f.tail;
      var x := CountTree(f.head);
      var mid := base + x;
      BlockParts(paren, base, p, Parents(kids, base + 1, base), Parents(tail, mid, p));
      var s1 := Accumulate(sizes, paren, end, mid);
      OnesParts(sizes, base, mid, end, p, Sizes(tail), Count(tail), s1);
      AccumulateForest(tail, mid, end, p, sizes, paren);
      AccumulateForest(kids, base + 1, mid, base, s1, paren);
      var s2 := Accumulate(s1, paren, mid, base + 1);
      AccumulateSplit(sizes, paren, end, mid, base);
      AccumulateSplit(s1, paren, mid, base + 1, base);
      AccumulateOne(s2, paren, base);
      UpdatedCons(base, mid, p, x, Sizes(kids), Sizes(tail), Count(tail), sizes, s1, s2);
    }
  }

  /** For a whole tree: `CalcSizes` stops before the root, whose entry collects the rest. */
  lemma AccumulateTree(f: Forest, sizes: seq<nat>, paren: seq<nat>)
    requires f.Cons? && f.tail == Nil && paren == Parents(f, 0, 0) && InRange(paren)
    requires |sizes| == |paren| && Ones(sizes, 0, |sizes|)
    ensures Accumulate(sizes, paren, |sizes|, 1) == Sizes(f)
  {
    hide *;
    var kids := f.head.kids;
    TreeParts(f, kids, sizes, paren);
    AccumulateForest(kids, 1, |sizes|, 0, sizes, paren);
    TreeBlock(sizes, Accumulate(sizes, paren, |sizes|, 1), Sizes(kids), Count(kids));
  }

  lemma TreeParts(f: Forest, kids: Forest, sizes: seq<nat>, paren: seq<nat>)
    requires f.Cons? && f.tail == Nil && kids == f.head.kids && paren == Parents(f, 0, 0)
    requires |sizes| == |paren| && Ones(sizes, 0, |sizes|)
    ensures |sizes| == 1 + Count(kids) && |Sizes(kids)| == Count(kids) && Sizes(f) == [1 + |Sizes(kids)|] + Sizes(kids) + []
    ensures Block(paren, 1, Parents(kids, 1, 0)) && Ones(sizes, 1, |sizes|) && sizes[0] == 1
  {
    hide *;
    Unfold(f, 0, 0);
    Unfold(Nil, CountTree(f.head), 0);
    OnesTail(sizes);
    BlockAll(paren);
    BlockParts(paren, 0, 0, Parents(kids, 1, 0), []);
  }

  lemma OnesTail(sizes: seq<nat>)
    requires sizes != [] && Ones(sizes, 0, |sizes|)
    ensures Ones(sizes, 1, |sizes|) && sizes[0] == 1
  {
  }

  lemma BlockAll(a: seq<nat>)
    ensures Block(a, 0, a)
  {
  }

  lemma TreeBlock(a: seq<nat>, r: seq<nat>, kids: seq<nat>, n: nat)
    requires n == |kids| && |a| == 1 + n && a[0] == 1 && Updated(a, 1, kids, 0, n, r)
    ensures r == [1 + |kids|] + kids + []
  {
    forall k | 0 < k < |r| ensures r[k] == kids[k - 1] {
    }
  }
}
