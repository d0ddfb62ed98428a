/**
 Context-free grammars and their derivation trees: the specification side of the
 Nautilus grammar engine.

 A derivation tree is a rule together with one subtree for each nonterminal on the
 rule's right-hand side. Everything is stated over forests (lists of trees), so that
 every recursion is a single one: into the kids of the first tree, then into the rest.
 */
module Grammars {

  type NTermId = nat
  type RuleId = nat

  /** One piece of a rule's right-hand side. */
  datatype Symbol = Term(text: string) | NTerm(nt: NTermId)

  /** A plain rule: `nonterm => children`. */
  datatype Rule = Rule(nonterm: NTermId, children: seq<Symbol>)

  /** The rule table; a rule id is a position in it. */
  type Grammar = seq<Rule>

  datatype Option<+T> = None | Some(value: T)

  /** The nonterminals of a right-hand side, in order. */
  function NontermsOf(children: seq<Symbol>): seq<NTermId> {
    if children == [] then []
    else match children[0]
      case Term(_) => NontermsOf(children[1..])
      case NTerm(nt) => [nt] + NontermsOf(children[1..])
  }

  function Nonterms(g: Grammar, r: RuleId): seq<NTermId>
    requires r < |g|
  {
    NontermsOf(g[r].children)
  }

  datatype Derivation = Node(rule: RuleId, kids: Forest)
  datatype Forest = Nil | Cons(head: Derivation, tail: Forest)

  function Single(t: Derivation): Forest {
    Cons(t, Nil)
  }

  /** `f` has one derivation tree for each nonterminal of `nts`, in order. */
  ghost predicate Derives(g: Grammar, f: Forest, nts: seq<NTermId>) {
    match f
    case Nil => nts == []
    case Cons(t, tail) =>
      && nts != []
      && DerivesTree(g, t, nts[0])
      && Derives(g, tail, nts[1..])
  }

  /** `t` is a derivation tree of the nonterminal `nt`. */
  ghost predicate DerivesTree(g: Grammar, t: Derivation, nt: NTermId) {
    && t.rule < |g|
    && g[t.rule].nonterm == nt
    && Derives(g, t.kids, Nonterms(g, t.rule))
  }

  /** Number of nodes. */
  function Count(f: Forest): nat {
    match f
    case Nil => 0
    case Cons(t, tail) => 1 + Count(t.kids) + Count(tail)
  }

  function CountTree(t: Derivation): nat {
    1 + Count(t.kids)
  }

  /** The rules in pre-order: the contents of `_rules`. */
  function Pre(f: Forest): (rules: seq<RuleId>)
    ensures |rules| == Count(f)
  {
    match f
    case Nil => []
    case Cons(t, tail) => [t.rule] + Pre(t.kids) + Pre(tail)
  }

  function PreTree(t: Derivation): (rules: seq<RuleId>)
    ensures |rules| == CountTree(t)
  {
    [t.rule] + Pre(t.kids)
  }

  /** The subtree sizes in pre-order: the contents of `_sizes`. */
  function Sizes(f: Forest): (sizes: seq<nat>)
    ensures |sizes| == Count(f)
  {
    match f
    case Nil => []
    case Cons(t, tail) => [CountTree(t)] + Sizes(t.kids) + Sizes(tail)
  }

  /**
   The parents in pre-order, as node ids, when the first node of `f` has id `base`
   and the trees of `f` hang below node `p`: the contents of `_paren`.
   */
  function Parents(f: Forest, base: nat, p: nat): (paren: seq<nat>)
    ensures |paren| == Count(f)
  {
    match f
    case Nil => []
    case Cons(t, tail) =>
      [p] + Parents(t.kids, base + 1, base) + Parents(tail, base + CountTree(t), p)
  }

  function Append(f: Forest, h: Forest): Forest {
    match f
    case Nil => h
    case Cons(t, tail) => Cons(t, Append(tail, h))
  }

  // ---------------------------------------------------------------- basic facts

  lemma {:induction false} DerivesLength(g: Grammar, f: Forest, nts: seq<NTermId>)
    requires Derives(g, f, nts)
    ensures |nts| <= Count(f)
    ensures f == Nil <==> nts == []
  {
    match f
    case Nil =>
    case Cons(t, tail) => DerivesLength(g, tail, nts[1..]);
  }

  lemma SingleDerives(g: Grammar, t: Derivation, nt: NTermId)
    requires DerivesTree(g, t, nt)
    ensures Derives(g, Single(t), [nt])
  {
    assert [nt][1..] == [];
    assert Derives(g, Nil, [nt][1..]);
  }

  lemma {:induction false} AppendDerives(g: Grammar, f: Forest, h: Forest, xs: seq<NTermId>, ys: seq<NTermId>)
    requires Derives(g, f, xs) && Derives(g, h, ys)
    ensures Derives(g, Append(f, h), xs + ys)
    ensures Pre(Append(f, h)) == Pre(f) + Pre(h)
  {
    match f
    case Nil =>
      assert xs + ys == ys;
    case Cons(t, tail) =>
      AppendDerives(g, tail, h, xs[1..], ys);
      assert (xs + ys)[1..] == xs[1..] + ys;
  }

  /** A forest for `xs + ys` splits into one for `xs` and one for `ys`. */
  lemma {:induction false} SplitDerives(g: Grammar, f: Forest, xs: seq<NTermId>, ys: seq<NTermId>)
    returns (a: Forest, b: Forest)
    requires Derives(g, f, xs + ys)
    ensures Derives(g, a, xs) && Derives(g, b, ys) && Pre(f) == Pre(a) + Pre(b)
  {
    if xs == [] {
      assert xs + ys == ys;
      a, b := Nil, f;
    } else {
      assert (xs + ys)[1..] == xs[1..] + ys;
      var a', b' := SplitDerives(g, f.tail, xs[1..], ys);
      a, b := Cons(f.head, a'), b';
    }
  }

  /** The flat form determines the tree. */
  lemma {:induction false} PreInjective(g: Grammar, f: Forest, h: Forest, nts: seq<NTermId>, rf: seq<RuleId>, rh: seq<RuleId>)
    requires Derives(g, f, nts) && Derives(g, h, nts)
    requires Pre(f) + rf == Pre(h) + rh
    ensures f == h && rf == rh
  {
    match f
    case Nil =>
      assert Pre(f) + rf == rf && Pre(h) + rh == rh;
    case Cons(t, tail) =>
      var u := h.head;
      PreCons(f, rf);
      PreCons(h, rh);
      PreInjective(g, t.kids, u.kids, Nonterms(g, t.rule), Pre(tail) + rf, Pre(h.tail) + rh);
      PreInjective(g, tail, h.tail, nts[1..], rf, rh);
  }

  lemma PreCons(f: Forest, rest: seq<RuleId>)
    requires f.Cons?
    ensures (Pre(f) + rest)[0] == f.head.rule
    ensures (Pre(f) + rest)[1..] == Pre(f.head.kids) + (Pre(f.tail) + rest)
  {
  }

  // ------------------------------------------------------------ flat tree validity

  /** `rules` is the pre-order of a derivation tree. */
  ghost predicate IsDerivation(g: Grammar, rules: seq<RuleId>) {
    && rules != []
    && rules[0] < |g|
    && exists f :: Derives(g, f, [g[rules[0]].nonterm]) && Pre(f) == rules
  }

  /** The derivation tree (as a one-tree forest) that `rules` is the pre-order of. */
  ghost function TreeOf(g: Grammar, rules: seq<RuleId>): (f: Forest)
    requires IsDerivation(g, rules)
    ensures Derives(g, f, [g[rules[0]].nonterm]) && Pre(f) == rules
  {
    var f :| Derives(g, f, [g[rules[0]].nonterm]) && Pre(f) == rules;
    f
  }

  /** The root nonterminal. */
  function RootNT(g: Grammar, rules: seq<RuleId>): NTermId
    requires rules != [] && rules[0] < |g|
  {
    g[rules[0]].nonterm
  }

  /** The tree behind a rule array is unique. */
  lemma TreeOfUnique(g: Grammar, f: Forest, nt: NTermId)
    requires Derives(g, f, [nt])
    ensures IsDerivation(g, Pre(f)) && TreeOf(g, Pre(f)) == f && RootNT(g, Pre(f)) == nt
  {
    assert Pre(f)[0] == f.head.rule;
    PreInjective(g, f, TreeOf(g, Pre(f)), [nt], [], []);
  }
}
