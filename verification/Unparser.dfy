/**
 Unparsing: the stack machine that turns a (mutated) flat tree back into text, against
 the recursive yield of the derivation tree.
 */
module Unparsing {
  import opened Grammars
  import opened Positions
  import opened Sequences
  import opened Trees

  // ------------------------------------------------------------------------- yield

  /**
   The text of a right-hand side whose nonterminals are derived by `kids`. (Where `kids`
   does not derive them, the missing parts are empty.)
   */
  function YieldSymbols(g: Grammar, syms: seq<Symbol>, kids: Forest): string
    decreases kids, |syms|
  {
    if syms == [] then ""
    else match syms[0]
      case Term(text) => text + YieldSymbols(g, syms[1..], kids)
      case NTerm(nt) =>
        if kids.Nil? || kids.head.rule >= |g| then ""
        else YieldSymbols(g, g[kids.head.rule].children, kids.head.kids) + YieldSymbols(g, syms[1..], kids.tail)
  }

  /** The text of a derivation tree. */
  function Yield(g: Grammar, t: Derivation): string
    requires t.rule < |g|
  {
    YieldSymbols(g, g[t.rule].children, t.kids)
  }

  // ----------------------------------------------------------------------- machine

  /** Anything the unparser can read rule ids from. */
  datatype TreeLike = Plain(rules: seq<RuleId>) | Mutated(mutation: TreeMutation) {
    /** `None` stands for the out-of-range exception. */
    function GetRuleID(n: nat): Option<RuleId> {
      match this
      case Plain(rules) => if n < |rules| then Some(rules[n]) else None
      case Mutated(m) => m.GetAt(n)
    }

    function Size(): nat {
      match this
      case Plain(rules) => |rules|
      case Mutated(m) => m.Size()
    }
  }

  /** The text written so far and the id of the next node to be read. */
  datatype Unparsed = Unparsed(text: string, next: nat)

  /** The machine from a state (`stack` has its top first); `None` stands for an exception. */
  function Run(g: Grammar, tree: TreeLike, stack: seq<Symbol>, i: nat, text: string): Option<Unparsed>
    decreases tree.Size() - i, |stack|
  {
    if stack == [] then Some(Unparsed(text, i))
    else match stack[0]
      case Term(t) => Run(g, tree, stack[1..], i, text + t)
      case NTerm(_) =>
        match tree.GetRuleID(i)
        case None => None
        case Some(r) =>
          if r < |g| then Run(g, tree, g[r].children + stack[1..], i + 1, text) else None
  }

  /** `rules` are the rules of `tree` from node `i` on. */
  ghost predicate Reads(tree: TreeLike, i: nat, rules: seq<RuleId>) {
    forall k :: i <= k < i + |rules| ==> tree.GetRuleID(k) == Some(rules[k - i])
  }

  lemma ReadsParts(tree: TreeLike, i: nat, r: RuleId, a: seq<RuleId>, b: seq<RuleId>)
    requires Reads(tree, i, [r] + a + b)
    ensures tree.GetRuleID(i) == Some(r) && Reads(tree, i + 1, a) && Reads(tree, i + 1 + |a|, b)
  {
    var all := [r] + a + b;
    assert all[0] == r;
    forall k | i + 1 <= k < i + 1 + |a| ensures tree.GetRuleID(k) == Some(a[k - i - 1]) {
      assert all[k - i] == a[k - i - 1];
    }
    forall k | i + 1 + |a| <= k < i + 1 + |a| + |b| ensures tree.GetRuleID(k) == Some(b[k - i - 1 - |a|]) {
      assert all[k - i] == b[k - i - 1 - |a|];
    }
  }

  lemma RunTerm(g: Grammar, tree: TreeLike, syms: seq<Symbol>, rest: seq<Symbol>, i: nat, text: string)
    requires syms != [] && syms[0].Term?
    ensures Run(g, tree, syms + rest, i, text) == Run(g, tree, syms[1..] + rest, i, text + syms[0].text)
  {
    assert (syms + rest)[1..] == syms[1..] + rest;
  }

  lemma RunNonterm(g: Grammar, tree: TreeLike, syms: seq<Symbol>, rest: seq<Symbol>, i: nat, text: string, r: RuleId)
    requires syms != [] && syms[0].NTerm? && tree.GetRuleID(i) == Some(r) && r < |g|
    ensures Run(g, tree, syms + rest, i, text) == Run(g, tree, g[r].children + (syms[1..] + rest), i + 1, text)
  {
    assert (syms + rest)[1..] == syms[1..] + rest;
  }

  lemma UnfoldNonterm(g: Grammar, syms: seq<Symbol>, kids: Forest)
    requires syms != [] && syms[0].NTerm? && Derives(g, kids, NontermsOf(syms))
    ensures kids.Cons? && kids.head.rule < |g|
    ensures Derives(g, kids.head.kids, NontermsOf(g[kids.head.rule].children))
    ensures Derives(g, kids.tail, NontermsOf(syms[1..]))
    ensures Pre(kids) == [kids.head.rule] + Pre(kids.head.kids) + Pre(kids.tail)
    ensures Count(kids) == 1 + Count(kids.head.kids) + Count(kids.tail)
    ensures YieldSymbols(g, syms, kids) == Yield(g, kids.head) + YieldSymbols(g, syms[1..], kids.tail)
  {
    assert NontermsOf(syms) == [syms[0].nt] + NontermsOf(syms[1..]);
    assert NontermsOf(syms)[1..] == NontermsOf(syms[1..]);
  }

  lemma UnfoldTerm(g: Grammar, syms: seq<Symbol>, kids: Forest)
    requires syms != [] && syms[0].Term?
    ensures NontermsOf(syms) == NontermsOf(syms[1..])
    ensures YieldSymbols(g, syms, kids) == syms[0].text + YieldSymbols(g, syms[1..], kids)
  {
  }

  lemma RunNothing(g: Grammar, tree: TreeLike, kids: Forest, rest: seq<Symbol>, i: nat, text: string)
    requires Derives(g, kids, NontermsOf([]))
    ensures Run(g, tree, [] + rest, i, text)
         == Run(g, tree, rest, i + Count(kids), text + YieldSymbols(g, [], kids))
  {
    assert [] + rest == rest && kids == Nil && text + "" == text;
  }

  /** The machine consumes a right-hand side and the nodes below it, writing their yield. */
  lemma {:induction false} RunYield(g: Grammar, tree: TreeLike, syms: seq<Symbol>, kids: Forest,
                                    rest: seq<Symbol>, i: nat, text: string)
    requires Derives(g, kids, NontermsOf(syms)) && Reads(tree, i, Pre(kids))
    ensures Run(g, tree, syms + rest, i, text)
         == Run(g, tree, rest, i + Count(kids), text + YieldSymbols(g, syms, kids))
    decreases kids, |syms|
  {
    hide *;
    if syms == [] {
      RunNothing(g, tree, kids, rest, i, text);
    } else if syms[0].Term? {
      UnfoldTerm(g, syms, kids);
      RunTerm(g, tree, syms, rest, i, text);
      RunYield(g, tree, syms[1..], kids, rest, i, text + syms[0].text);
      assert text + syms[0].text + YieldSymbols(g, syms[1..], kids) == text + YieldSymbols(g, syms, kids);
    } else {
      UnfoldNonterm(g, syms, kids);
      var t, tail := kids.head, kids.tail;
      var text1 := text + YieldSymbols(g, g[t.rule].children, t.kids);
      ReadsParts(tree, i, t.rule, Pre(t.kids), Pre(tail));
      RunNonterm(g, tree, syms, rest, i, text, t.rule);
      RunYield(g, tree, g[t.rule].children, t.kids, syms[1..] + rest, i + 1, text);
      RunYield(g, tree, syms[1..], tail, rest, i + 1 + Count(t.kids), text1);
      assert Yield(g, t) == YieldSymbols(g, g[t.rule].children, t.kids) by { YieldOf(g, t); }
      assert text1 + YieldSymbols(g, syms[1..], tail) == text + YieldSymbols(g, syms, kids);
    }
  }

  lemma YieldOf(g: Grammar, t: Derivation)
    requires t.rule < |g|
    ensures Yield(g, t) == YieldSymbols(g, g[t.rule].children, t.kids)
  {
  }

  /** Machines over trees with the same rules behave the same. */
  lemma {:induction false} RunAgree(g: Grammar, a: TreeLike, b: TreeLike, stack: seq<Symbol>, i: nat, text: string)
    requires a.Size() == b.Size() && forall n: nat :: a.GetRuleID(n) == b.GetRuleID(n)
    ensures Run(g, a, stack, i, text) == Run(g, b, stack, i, text)
    decreases a.Size() - i, |stack|
  {
    if stack != [] {
      if stack[0].Term? {
        RunAgree(g, a, b, stack[1..], i, text + stack[0].text);
      } else if a.GetRuleID(i).Some? && a.GetRuleID(i).value < |g| {
        RunAgree(g, a, b, g[a.GetRuleID(i).value].children + stack[1..], i + 1, text);
      }
    }
  }

  class Unparser {
    const g: Grammar
    const tree: TreeLike
    var stack: seq<Symbol>
    var w: string
    var i: nat

    /** Starts at node `nid`; the caller has found that node's rule `r`. */
    constructor (g: Grammar, tree: TreeLike, nid: nat, r: RuleId, w: string)
      requires tree.GetRuleID(nid) == Some(r) && r < |g|
      ensures this.g == g && this.tree == tree
      ensures stack == [NTerm(g[r].nonterm)] && this.w == w && i == nid
    {
      this.g, this.tree, this.w, i := g, tree, w, nid;
      stack := [NTerm(g[r].nonterm)];
    }

    /** What the machine will have produced when it stops. */
    ghost function Outcome(): Option<Unparsed>
      reads this
    {
      Run(g, tree, FromBack(stack), i, w)
    }

    /** One step; `more` is false when the stack is empty, `ok` is false for an exception. */
    method UnparseOneStep() returns (more: bool, ok: bool)
      modifies this
      ensures ok ==> Outcome() == old(Outcome())
      ensures !ok ==> old(Outcome()) == None
      ensures ok && more ==> (old(i) < i && old(i) < tree.Size()) || (i == old(i) && |stack| < |old(stack)|)
      ensures ok && !more ==> stack == [] && i == old(i) && w == old(w)
    {
      if |stack| == 0 {
        return false, true;
      }
      var data := stack[|stack| - 1];
      stack := stack[..|stack| - 1];
      match data {
        case Term(text) =>
          w := w + text;
        case NTerm(_) =>
          var r := tree.GetRuleID(i);
          if r == None || r.value >= |g| {
            return false, false;
          }
          i := i + 1;
          NextPlain(g[r.value].children);
      }
      return true, true;
    }

    /** Pushes a right-hand side so that its first symbol ends up on top. */
    method NextPlain(children: seq<Symbol>)
      modifies this`stack
      ensures FromBack(stack) == children + FromBack(old(stack))
    {
      var j := |children|;
      while j > 0
        invariant 0 <= j <= |children|
        invariant FromBack(stack) == children[j..] + FromBack(old(stack))
      {
        j := j - 1;
        FromBackPush(stack, children[j]);
        stack := stack + [children[j]];
      }
      assert children[0..] == children;
    }

    /** Steps until the stack is empty; ends on every tree, valid or not. */
    method Unparse() returns (r: Option<nat>)
      modifies this
      ensures r.Some? <==> old(Outcome()).Some?
      ensures r.Some? ==> old(Outcome()) == Some(Unparsed(w, r.value))
    {
      var more, ok := true, true;
      while more
        invariant ok && Outcome() == old(Outcome())
        invariant !more ==> stack == []
        decreases more, tree.Size() - i, |stack|
      {
        more, ok := UnparseOneStep();
        if !ok {
          return None;
        }
      }
      return Some(i);
    }
  }

  /** What unparsing `tree` from node `n` gives, appended to `data`. */
  function UnparseSpec(g: Grammar, tree: TreeLike, n: nat, data: string): Option<Unparsed> {
    match tree.GetRuleID(n)
    case None => None
    case Some(r) => if r < |g| then Run(g, tree, [NTerm(g[r].nonterm)], n, data) else None
  }

  method UnparseNode(g: Grammar, tree: TreeLike, n: nat, data: string) returns (r: Option<Unparsed>)
    ensures r == UnparseSpec(g, tree, n, data)
  {
    var rule := tree.GetRuleID(n);
    if rule == None || rule.value >= |g| {
      return None;
    }
    var u := new Unparser(g, tree, n, rule.value, data);
    FromBackPush([], u.stack[0]);
    assert FromBack(u.stack) == [NTerm(g[rule.value].nonterm)];
    var next := u.Unparse();
    return if next.Some? then Some(Unparsed(u.w, next.value)) else None;
  }

  /**
   From any node of a derivation, the machine writes exactly that subtree's text and stops
   at the node after the subtree.
   */
  lemma UnparseSubtree(g: Grammar, rules: seq<RuleId>, n: nat, data: string)
    requires IsDerivation(g, rules) && n < |rules|
    ensures var t := SubAt(TreeOf(g, rules), n);
      && t.rule < |g|
      && UnparseSpec(g, Plain(rules), n, data) == Some(Unparsed(data + Yield(g, t), n + CountTree(t)))
  {
    var f := TreeOf(g, rules);
    var t := SubAt(f, n);
    SubAtDerives(g, f, [RootNT(g, rules)], n);
    SubAtBlock(f, n);
    SubAtRule(f, n);
    RunTree(g, Plain(rules), t, n, data);
  }

  lemma RunTree(g: Grammar, tree: TreeLike, t: Derivation, n: nat, data: string)
    requires t.rule < |g| && DerivesTree(g, t, g[t.rule].nonterm) && Reads(tree, n, PreTree(t))
    ensures Run(g, tree, [NTerm(g[t.rule].nonterm)], n, data)
         == Some(Unparsed(data + Yield(g, t), n + CountTree(t)))
  {
    ReadsParts(tree, n, t.rule, Pre(t.kids), []);
    RunNonterm(g, tree, [NTerm(g[t.rule].nonterm)], [], n, data, t.rule);
    RunYield(g, tree, g[t.rule].children, t.kids, [], n + 1, data);
    assert [NTerm(g[t.rule].nonterm)] + [] == [NTerm(g[t.rule].nonterm)];
    assert [NTerm(g[t.rule].nonterm)][1..] + [] == [];
  }

  /** Reading a mutation part by part is reading the tree it becomes. */
  lemma UnparseMutation(g: Grammar, m: TreeMutation, n: nat, data: string)
    ensures UnparseSpec(g, Mutated(m), n, data) == UnparseSpec(g, Plain(m.Whole()), n, data)
  {
    if n < m.Size() && m.Whole()[n] < |g| {
      RunAgree(g, Mutated(m), Plain(m.Whole()), [NTerm(g[m.Whole()[n]].nonterm)], n, data);
    }
  }
}
