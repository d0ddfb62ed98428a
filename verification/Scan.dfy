/**
 The stack scan behind `Tree::CalcParents`, as a function: reading rules left to right
 against a stack of the nonterminals still to be derived. The scan succeeds on exactly
 the prefixes of derivations, leaves exactly what is missing, and finds the parents.
 */
module Scanning {
  import opened Grammars
  import opened Sequences

  /** A nonterminal still to be derived, and the node that asked for it. */
  datatype Pending = Pending(nt: NTermId, parent: nat)

  /** What a scan yields: the parents of the nodes read and the stack left over. */
  datatype Scanned = Scanned(paren: seq<nat>, left: seq<Pending>)

  function Tag(nts: seq<NTermId>, p: nat): (stack: seq<Pending>)
    ensures |stack| == |nts|
  {
    if nts == [] then [] else [Pending(nts[0], p)] + Tag(nts[1..], p)
  }

  function Untag(stack: seq<Pending>): (nts: seq<NTermId>)
    ensures |nts| == |stack|
  {
    if stack == [] then [] else [stack[0].nt] + Untag(stack[1..])
  }

  /**
   Reads `rules` with `stack` (its top first) when `paren` holds the parents of the
   nodes read so far; the next node's id is therefore `|paren|`.
   */
  function Scan(g: Grammar, rules: seq<RuleId>, stack: seq<Pending>, paren: seq<nat>): Option<Scanned> {
    if rules == [] then Some(Scanned(paren, stack))
    else if rules[0] >= |g| || stack == [] || stack[0].nt != g[rules[0]].nonterm then None
    else Scan(g, rules[1..], Tag(Nonterms(g, rules[0]), |paren|) + stack[1..], paren + [stack[0].parent])
  }

  lemma {:induction false} UntagAppend(a: seq<Pending>, b: seq<Pending>)
    ensures Untag(a + b) == Untag(a) + Untag(b)
  {
    if a == [] {
      assert a + b == b;
    } else {
      assert (a + b)[1..] == a[1..] + b;
      UntagAppend(a[1..], b);
    }
  }

  lemma {:induction false} UntagTag(nts: seq<NTermId>, p: nat)
    ensures Untag(Tag(nts, p)) == nts
  {
    if nts != [] { UntagTag(nts[1..], p); }
  }

  lemma ScanStep(g: Grammar, r: RuleId, rest: seq<RuleId>, p: nat, stack: seq<Pending>, paren: seq<nat>)
    requires r < |g|
    ensures Scan(g, [r] + rest, [Pending(g[r].nonterm, p)] + stack, paren)
         == Scan(g, rest, Tag(Nonterms(g, r), |paren|) + stack, paren + [p])
  {
    assert ([r] + rest)[1..] == rest;
    assert ([Pending(g[r].nonterm, p)] + stack)[1..] == stack;
  }

  /** Completeness: the pre-order of a forest is consumed, and its parents are found. */
  lemma {:induction false} ScanForest(g: Grammar, f: Forest, nts: seq<NTermId>, p: nat,
                                      rest: seq<RuleId>, stack: seq<Pending>, paren: seq<nat>)
    requires Derives(g, f, nts)
    ensures Scan(g, Pre(f) + rest, Tag(nts, p) + stack, paren)
         == Scan(g, rest, stack, paren + Parents(f, |paren|, p))
  {
    match f
    case Nil =>
      assert Pre(f) + rest == rest && Tag(nts, p) + stack == stack;
      assert paren + Parents(f, |paren|, p) == paren;
    case Cons(t, tail) =>
      var rest1, stack1 := Pre(tail) + rest, Tag(nts[1..], p) + stack;
      var base := |paren|;
      var kids := Parents(t.kids, base + 1, base);
      ScanHead(g, f, nts, p, rest, stack, paren);
      assert |paren + [p]| == base + 1;
      ScanForest(g, t.kids, Nonterms(g, t.rule), base, rest1, stack1, paren + [p]);
      assert |paren + [p] + kids| == base + CountTree(t);
      ScanForest(g, tail, nts[1..], p, rest, stack, paren + [p] + kids);
      Regroup(paren, [p], kids, Parents(tail, base + CountTree(t), p));
  }

  lemma ScanHead(g: Grammar, f: Forest, nts: seq<NTermId>, p: nat,
                 rest: seq<RuleId>, stack: seq<Pending>, paren: seq<nat>)
    requires f.Cons? && nts != [] && DerivesTree(g, f.head, nts[0])
    ensures Scan(g, Pre(f) + rest, Tag(nts, p) + stack, paren)
         == Scan(g, Pre(f.head.kids) + (Pre(f.tail) + rest),
                 Tag(Nonterms(g, f.head.rule), |paren|) + (Tag(nts[1..], p) + stack), paren + [p])
  {
    var rest1, stack1 := Pre(f.head.kids) + (Pre(f.tail) + rest), Tag(nts[1..], p) + stack;
    Regroup([f.head.rule], Pre(f.head.kids), Pre(f.tail), rest);
    assert Tag(nts, p) + stack == [Pending(nts[0], p)] + stack1;
    ScanStep(g, f.head.rule, rest1, p, stack1, paren);
  }

  /** Soundness: whatever derives the leftover stack completes the rules read to a derivation. */
  lemma {:induction false} ScanSound(g: Grammar, rules: seq<RuleId>, stack: seq<Pending>, paren: seq<nat>, h: Forest)
    returns (f: Forest)
    requires var s := Scan(g, rules, stack, paren); s.Some? && Derives(g, h, Untag(s.value.left))
    ensures Derives(g, f, Untag(stack)) && Pre(f) == rules + Pre(h)
  {
    if rules == [] {
      f := h;
      assert rules + Pre(h) == Pre(h);
    } else {
      var ks := Tag(Nonterms(g, rules[0]), |paren|);
      var b := ScanSound(g, rules[1..], ks + stack[1..], paren + [stack[0].parent], h);
      UntagAppend(ks, stack[1..]);
      UntagTag(Nonterms(g, rules[0]), |paren|);
      var kids, tail := SplitDerives(g, b, Nonterms(g, rules[0]), Untag(stack[1..]));
      f := Cons(Node(rules[0], kids), tail);
      assert Untag(stack)[1..] == Untag(stack[1..]);
      GlueHead(rules, Pre(kids), Pre(tail), Pre(h));
    }
  }

  /** Converse: a prefix of a derivation is scanned, and the rest derives the leftover stack. */
  lemma {:induction false} ScanPrefix(g: Grammar, rules: seq<RuleId>, stack: seq<Pending>, paren: seq<nat>,
                                      f: Forest, more: seq<RuleId>)
    returns (h: Forest)
    requires Derives(g, f, Untag(stack)) && Pre(f) == rules + more
    ensures var s := Scan(g, rules, stack, paren); s.Some? && Derives(g, h, Untag(s.value.left))
    ensures Pre(h) == more
  {
    if rules == [] {
      h := f;
      assert rules + more == more;
    } else {
      assert Pre(f)[0] == rules[0] && f.Cons?;
      var t := f.head;
      var ks := Tag(Nonterms(g, t.rule), |paren|);
      AppendDerives(g, t.kids, f.tail, Nonterms(g, t.rule), Untag(stack)[1..]);
      UntagAppend(ks, stack[1..]);
      UntagTag(Nonterms(g, t.rule), |paren|);
      assert Pre(f)[1..] == Pre(t.kids) + Pre(f.tail);
      assert Pre(f)[1..] == rules[1..] + more;
      h := ScanPrefix(g, rules[1..], ks + stack[1..], paren + [stack[0].parent],
                      Append(t.kids, f.tail), more);
    }
  }

  /** The scan of a whole rule array starts with its own root nonterminal on the stack. */
  function ScanAll(g: Grammar, rules: seq<RuleId>): Option<Scanned>
    requires rules != []
  {
    if rules[0] >= |g| then None
    else Scan(g, rules, [Pending(g[rules[0]].nonterm, 0)], [])
  }

  /** `more` is the pre-order of trees for exactly the nonterminals `left`. */
  ghost predicate Completes(g: Grammar, left: seq<NTermId>, more: seq<RuleId>) {
    exists h :: Derives(g, h, left) && Pre(h) == more
  }

  /** The scan decides the prefixes of derivations and says exactly what is missing. */
  lemma ScanExact(g: Grammar, rules: seq<RuleId>, more: seq<RuleId>)
    requires rules != []
    ensures IsDerivation(g, rules + more) <==>
      ScanAll(g, rules).Some? && Completes(g, Untag(ScanAll(g, rules).value.left), more)
  {
    assert (rules + more)[0] == rules[0];
    if rules[0] < |g| {
      var nt := g[rules[0]].nonterm;
      var stack := [Pending(nt, 0)];
      assert Untag(stack) == [nt];
      if IsDerivation(g, rules + more) {
        var h := ScanPrefix(g, rules, stack, [], TreeOf(g, rules + more), more);
      }
      if ScanAll(g, rules).Some? && Completes(g, Untag(ScanAll(g, rules).value.left), more) {
        var h :| Derives(g, h, Untag(ScanAll(g, rules).value.left)) && Pre(h) == more;
        var f := ScanSound(g, rules, stack, [], h);
      }
    }
  }

  /** On a complete derivation the scan finds the parents and leaves nothing. */
  lemma ScanTree(g: Grammar, rules: seq<RuleId>)
    requires IsDerivation(g, rules)
    ensures ScanAll(g, rules) == Some(Scanned(Parents(TreeOf(g, rules), 0, 0), []))
  {
    var f, nt := TreeOf(g, rules), RootNT(g, rules);
    ScanForest(g, f, [nt], 0, [], [], []);
    assert Pre(f) + [] == rules;
    assert Tag([nt], 0) + [] == [Pending(nt, 0)];
    assert [] + Parents(f, 0, 0) == Parents(f, 0, 0);
  }

  /** Nothing missing is the same as being a derivation. */
  lemma ScanComplete(g: Grammar, rules: seq<RuleId>)
    requires rules != []
    ensures IsDerivation(g, rules) <==> ScanAll(g, rules).Some? && ScanAll(g, rules).value.left == []
  {
    assert rules + [] == rules;
    if IsDerivation(g, rules) {
      ScanTree(g, rules);
    } else if ScanAll(g, rules).Some? && ScanAll(g, rules).value.left == [] {
      assert Derives(g, Nil, []) && Pre(Nil) == [];
      assert Completes(g, [], []);
      ScanExact(g, rules, []);
    }
  }

  /** The number of children the rules ask for. */
  function Arity(g: Grammar, rules: seq<RuleId>): nat {
    if rules == [] then 0
    else (if rules[0] < |g| then |Nonterms(g, rules[0])| else 0) + Arity(g, rules[1..])
  }

  /** Each rule read takes one entry off the stack and puts one on for each child. */
  lemma {:induction false} ScanBalance(g: Grammar, rules: seq<RuleId>, stack: seq<Pending>, paren: seq<nat>)
    requires Scan(g, rules, stack, paren).Some?
    ensures |Scan(g, rules, stack, paren).value.left| + |rules| == |stack| + Arity(g, rules)
  {
    if rules != [] {
      ScanBalance(g, rules[1..], Tag(Nonterms(g, rules[0]), |paren|) + stack[1..], paren + [stack[0].parent]);
    }
  }

  /**
   When the scan accepts an array, counting tells whether it is complete: a derivation has one
   node more than its rules ask for children.
   */
  lemma AcceptedComplete(g: Grammar, rules: seq<RuleId>)
    requires rules != [] && ScanAll(g, rules).Some?
    ensures IsDerivation(g, rules) <==> |rules| == 1 + Arity(g, rules)
    ensures |ScanAll(g, rules).value.left| + |rules| == 1 + Arity(g, rules)
  {
    ScanBalance(g, rules, [Pending(g[rules[0]].nonterm, 0)], []);
    ScanComplete(g, rules);
  }

  /** `S -> ( S ) | x` */
  const NESTED: Grammar := [Rule(0, [Term("("), NTerm(0), Term(")")]), Rule(0, [Term("x")])]

  /** An incomplete tree that the scan accepts: the first rule alone, which lacks its `S`. */
  lemma IncompleteExample()
    ensures ScanAll(NESTED, [0]) == Some(Scanned([0], [Pending(0, 0)]))
    ensures !IsDerivation(NESTED, [0]) && IsDerivation(NESTED, [0, 1])
  {
    var c := NESTED[0].children;
    assert c[1..] == [NTerm(0), Term(")")] && c[1..][1..] == [Term(")")] && c[1..][1..][1..] == [];
    assert NontermsOf(c[1..][1..]) == [];
    assert NontermsOf(c[1..]) == [0];
    assert Nonterms(NESTED, 0) == [0];
    var none: seq<RuleId>, stack: seq<Pending>, paren: seq<nat> := [], [], [];
    ScanStep(NESTED, 0, none, 0, stack, paren);
    assert [0] + none == [0] && [Pending(0, 0)] + stack == [Pending(0, 0)] && paren + [0] == [0];
    assert Tag(Nonterms(NESTED, 0), |paren|) + stack == [Pending(0, 0)];
    assert Scan(NESTED, none, [Pending(0, 0)], [0]) == Some(Scanned([0], [Pending(0, 0)]));
    ScanComplete(NESTED, [0]);
    var f := Single(Node(0, Single(Node(1, Nil))));
    assert Nonterms(NESTED, 1) == [];
    assert Derives(NESTED, Single(Node(1, Nil)), [0]);
    assert Derives(NESTED, f, [0]);
    assert Pre(Single(Node(1, Nil))) == [1];
    assert Pre(f) == [0, 1];
  }

  /** Every parent precedes its node; the root is its own. */
  predicate Ordered(paren: seq<nat>) {
    forall k :: 0 <= k < |paren| ==> if k == 0 then paren[k] == 0 else paren[k] < k
  }

  lemma {:induction false} ScanParents(g: Grammar, rules: seq<RuleId>, stack: seq<Pending>, paren: seq<nat>)
    requires Scan(g, rules, stack, paren).Some? && Ordered(paren)
    requires forall k :: 0 <= k < |stack| ==>
      if paren == [] then stack[k].parent == 0 else stack[k].parent < |paren|
    ensures var s := Scan(g, rules, stack, paren).value;
      |s.paren| == |paren| + |rules| && Ordered(s.paren)
  {
    if rules != [] {
      TagParent(Nonterms(g, rules[0]), |paren|);
      ScanParents(g, rules[1..], Tag(Nonterms(g, rules[0]), |paren|) + stack[1..], paren + [stack[0].parent]);
    }
  }

  lemma {:induction false} TagParent(nts: seq<NTermId>, p: nat)
    ensures forall k :: 0 <= k < |nts| ==> Tag(nts, p)[k] == Pending(nts[k], p)
  {
    if nts != [] { TagParent(nts[1..], p); }
  }
}
