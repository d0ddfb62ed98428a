/**
 Tree substitution, and what it does to the flat form: the prefix, the replacement and
 the postfix of a `TreeMutation`.
 */
module Splicing {
  import opened Grammars
  import opened Positions
  import opened Sequences

  /** Substitution is the three-part splice. */
  lemma {:induction false} ReplaceSplit(f: Forest, i: nat, t: Derivation)
    requires i < Count(f)
    ensures Pre(Replace(f, i, t)) == Before(f, i) + PreTree(t) + After(f, i)
  {
    var h, tail := f.head, f.tail;
    if i == 0 {
    } else if i < CountTree(h) {
      ReplaceSplit(h.kids, i - 1, t);
      Assoc([h.rule], Before(h.kids, i - 1), PreTree(t), After(h.kids, i - 1), Pre(tail));
    } else {
      var k := i - CountTree(h);
      ReplaceSplit(tail, k, t);
      AssocLeft(PreTree(h), Before(tail, k), PreTree(t), After(tail, k));
    }
  }

  /** The flat form and the size of the substituted tree. */
  lemma ReplacePre(f: Forest, i: nat, t: Derivation)
    requires i < Count(f)
    ensures var gone := CountTree(SubAt(f, i));
      && i + gone <= Count(f)
      && Pre(Replace(f, i, t)) == Pre(f)[..i] + PreTree(t) + Pre(f)[i + gone..]
      && Count(Replace(f, i, t)) == Count(f) - gone + CountTree(t)
  {
    SubAtBlock(f, i);
    ReplaceSplit(f, i, t);
    assert |Pre(Replace(f, i, t))| == Count(Replace(f, i, t));
  }

  /** Substituting a tree of the same nonterminal keeps the derivation valid. */
  lemma {:induction false} ReplaceDerives(g: Grammar, f: Forest, nts: seq<NTermId>, i: nat, t: Derivation)
    requires Derives(g, f, nts) && i < Count(f)
    requires SubAt(f, i).rule < |g| && DerivesTree(g, t, g[SubAt(f, i).rule].nonterm)
    ensures Derives(g, Replace(f, i, t), nts)
  {
    var h := f.head;
    if i == 0 {
    } else if i < CountTree(h) {
      ReplaceDerives(g, h.kids, Nonterms(g, h.rule), i - 1, t);
    } else {
      ReplaceDerives(g, f.tail, nts[1..], i - CountTree(h), t);
    }
  }

  /** The substituted tree is where it was put, and putting the old one back undoes it. */
  lemma {:induction false} ReplaceUndo(f: Forest, i: nat, t: Derivation)
    requires i < Count(f)
    ensures i < Count(Replace(f, i, t))
    ensures SubAt(Replace(f, i, t), i) == t
    ensures Replace(Replace(f, i, t), i, SubAt(f, i)) == f
  {
    if i == 0 {
    } else if i < CountTree(f.head) {
      ReplaceUndo(f.head.kids, i - 1, t);
    } else {
      ReplaceUndo(f.tail, i - CountTree(f.head), t);
    }
  }

  /** Nodes up to the substituted one keep their ancestors. */
  lemma {:induction false} ReplaceInside(f: Forest, i: nat, t: Derivation, a: nat, j: nat)
    requires a < j <= i < Count(f)
    ensures i < Count(Replace(f, i, t))
    ensures Inside(Replace(f, i, t), a, j) == Inside(f, a, j)
  {
    ReplaceUndo(f, i, t);
    var h, f' := f.head, Replace(f, i, t);
    var c := CountTree(h);
    if i < c {
      ReplaceUndo(h.kids, i - 1, t);
      InsideHead(f, a, j);
      InsideHead(f', a, j);
      if a > 0 { ReplaceInside(h.kids, i - 1, t, a - 1, j - 1); }
    } else if c <= j {
      InsideTail(f, a, j);
      InsideTail(f', a, j);
      if c <= a { ReplaceInside(f.tail, i - c, t, a - c, j - c); }
    }
  }

  lemma ReplaceCount(f: Forest, i: nat, t: Derivation)
    requires i < Count(f)
    ensures i + CountTree(SubAt(f, i)) <= Count(f)
    ensures Count(Replace(f, i, t)) == Count(f) - CountTree(SubAt(f, i)) + CountTree(t)
  {
    ReplacePre(f, i, t);
  }

  /** Nodes before the substituted one keep their rule; only its ancestors change size. */
  lemma {:induction false} ReplaceBelow(f: Forest, i: nat, t: Derivation, j: nat)
    requires j < i < Count(f)
    ensures j < Count(Replace(f, i, t))
    ensures SubAt(Replace(f, i, t), j).rule == SubAt(f, j).rule
    ensures CountTree(SubAt(Replace(f, i, t), j)) ==
      CountTree(SubAt(f, j)) + if Inside(f, j, i) then CountTree(t) - CountTree(SubAt(f, i)) else 0
  {
    var c := CountTree(f.head);
    ReplaceUndo(f, i, t);
    if i < c {
      InsideHead(f, j, i);
      ReplaceCount(f.head.kids, i - 1, t);
      if j > 0 { ReplaceBelow(f.head.kids, i - 1, t, j - 1); }
    } else {
      InsideTail(f, j, i);
      if c <= j { ReplaceBelow(f.tail, i - c, t, j - c); }
    }
  }
}
