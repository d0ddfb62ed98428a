/**
 How many trees a nonterminal or a rule can derive, as `Context::CalcNumOptions` estimates
 it: the least assignment above the rule counts that no rule's saturating product exceeds.
 */
module OptionCounts {
  import opened Grammars
  import opened Arithmetic

  /** The largest `size_t`, at which products saturate. */
  const SIZE_MAX: nat := 0xFFFF_FFFF_FFFF_FFFF

  type Counts = map<NTermId, nat>

  /** A nonterminal without an entry counts as one option. */
  function CountOf(nt: NTermId, c: Counts): nat {
    if nt in c then c[nt] else 1
  }

  /** The true product, without any width. */
  function Product(nts: seq<NTermId>, c: Counts): nat {
    if nts == [] then 1 else CountOf(nts[0], c) * Product(nts[1..], c)
  }

  /** The product of a concatenation is the product of the parts'. */
  lemma {:induction false} ProductAppend(a: seq<NTermId>, b: seq<NTermId>, c: Counts)
    ensures Product(a + b, c) == Product(a, c) * Product(b, c)
  {
    if a == [] {
      assert a + b == b;
    } else {
      assert (a + b)[1..] == a[1..] + b;
      ProductAppend(a[1..], b, c);
      MulAssoc(CountOf(a[0], c), Product(a[1..], c), Product(b, c));
    }
  }

  lemma ProductOne(nt: NTermId, c: Counts)
    ensures Product([nt], c) == CountOf(nt, c)
  {
    assert [nt][1..] == [];
    assert Product([], c) == 1;
  }

  function Saturated(nts: seq<NTermId>, c: Counts): (n: nat)
    ensures n <= SIZE_MAX
  {
    var p := Product(nts, c);
    if p <= SIZE_MAX then p else SIZE_MAX
  }

  /** Every entry is at least one and fits the width. */
  predicate Positive(c: Counts) {
    forall nt :: nt in c ==> 1 <= c[nt] <= SIZE_MAX
  }

  /** Every rule's nonterminal has an entry. */
  predicate Covers(g: Grammar, c: Counts) {
    forall r :: 0 <= r < |g| ==> g[r].nonterm in c
  }

  ghost predicate AtMost(c: Counts, d: Counts) {
    c.Keys == d.Keys && forall nt :: nt in c ==> c[nt] <= d[nt]
  }

  /** No rule of a nonterminal offers more than the nonterminal has. */
  ghost predicate Closed(g: Grammar, c: Counts)
    requires Covers(g, c)
  {
    forall r: RuleId :: r < |g| ==> Saturated(Nonterms(g, r), c) <= c[g[r].nonterm]
  }

  /** Rule `r` accounts for what nonterminal `nt` has. */
  ghost predicate Reaches(g: Grammar, c: Counts, nt: NTermId, r: RuleId) {
    r < |g| && g[r].nonterm == nt && nt in c && c[nt] <= Saturated(Nonterms(g, r), c)
  }

  /** Every entry is its seed or is accounted for by a rule. */
  ghost predicate Supported(g: Grammar, seed: Counts, c: Counts)
    requires seed.Keys == c.Keys
  {
    forall nt :: nt in c ==> c[nt] == seed[nt] || exists r :: Reaches(g, c, nt, r)
  }

  /** `c` is the least assignment that is at least `seed` and closed. */
  ghost predicate IsLeast(g: Grammar, seed: Counts, c: Counts)
    requires Covers(g, seed)
  {
    && AtMost(seed, c)
    && Closed(g, c)
    && forall d :: AtMost(seed, d) && Covers(g, d) && Closed(g, d) ==> AtMost(c, d)
  }

  lemma {:induction false} ProductPositive(nts: seq<NTermId>, c: Counts)
    requires Positive(c)
    ensures Product(nts, c) >= 1
  {
    if nts != [] {
      ProductPositive(nts[1..], c);
      MulMono(1, CountOf(nts[0], c), 1, Product(nts[1..], c));
    }
  }

  lemma {:induction false} ProductMono(nts: seq<NTermId>, c: Counts, d: Counts)
    requires AtMost(c, d)
    ensures Product(nts, c) <= Product(nts, d)
    ensures Saturated(nts, c) <= Saturated(nts, d)
  {
    if nts != [] {
      ProductMono(nts[1..], c, d);
      MulMono(CountOf(nts[0], c), CountOf(nts[0], d), Product(nts[1..], c), Product(nts[1..], d));
    }
  }

  /** Once a partial product overflows, so does the whole, because no factor is zero. */
  lemma OverflowStays(res: nat, v: nat, rest: seq<NTermId>, c: Counts)
    requires Positive(c) && res * v > SIZE_MAX
    ensures res * (v * Product(rest, c)) > SIZE_MAX
  {
    ProductPositive(rest, c);
    Grows(res * v, Product(rest, c));
    MulAssoc(res, v, Product(rest, c));
  }

  lemma Grows(a: nat, p: nat)
    requires p >= 1
    ensures a <= a * p
  {
  }

  /** Room left to grow, summed over the first `k` rules. */
  function Room(g: Grammar, c: Counts, k: nat): nat
    requires k <= |g|
  {
    if k == 0 then 0
    else
      var n := CountOf(g[k - 1].nonterm, c);
      Room(g, c, k - 1) + if n <= SIZE_MAX then SIZE_MAX - n else 0
  }

  lemma {:induction false} RaiseRoom(g: Grammar, c: Counts, nt: NTermId, v: nat, k: nat)
    requires k <= |g| && nt in c && c[nt] < v <= SIZE_MAX
    ensures Room(g, c[nt := v], k) <= Room(g, c, k)
    ensures forall r: RuleId :: r < k && g[r].nonterm == nt ==> Room(g, c[nt := v], k) < Room(g, c, k)
  {
    if k > 0 { RaiseRoom(g, c, nt, v, k - 1); }
  }

  /** What every state of the iteration satisfies. */
  ghost predicate Growing(g: Grammar, seed: Counts, c: Counts) {
    && Covers(g, seed)
    && Positive(c)
    && AtMost(seed, c)
    && Supported(g, seed, c)
    && forall d :: AtMost(seed, d) && Covers(g, d) && Closed(g, d) ==> AtMost(c, d)
  }

  lemma GrowingBegins(g: Grammar, seed: Counts)
    requires Covers(g, seed) && Positive(seed)
    ensures Growing(g, seed, seed)
  {
  }

  /** Rule `r` has its count, and its nonterminal has no fewer. */
  ghost predicate Counted(g: Grammar, byRule: map<RuleId, nat>, c: Counts, r: RuleId)
    requires r < |g|
  {
    && r in byRule && byRule[r] == Saturated(Nonterms(g, r), c)
    && g[r].nonterm in c && byRule[r] <= c[g[r].nonterm]
  }

  lemma GrowingEnds(g: Grammar, seed: Counts, byRule: map<RuleId, nat>, c: Counts)
    requires Growing(g, seed, c) && forall r: RuleId :: r < |g| ==> Counted(g, byRule, c, r)
    ensures Covers(g, seed) && IsLeast(g, seed, c)
  {
    forall r: RuleId | r < |g| ensures Saturated(Nonterms(g, r), c) <= c[g[r].nonterm] {
      assert Counted(g, byRule, c, r);
    }
  }

  lemma GrowingFacts(g: Grammar, seed: Counts, c: Counts)
    requires Growing(g, seed, c)
    ensures Covers(g, seed) && Covers(g, c) && Positive(c) && c.Keys == seed.Keys
  {
  }

  /** Raising a nonterminal to what one of its rules offers stays below every closed assignment. */
  lemma GrowingRaise(g: Grammar, seed: Counts, c: Counts, r: RuleId)
    requires Growing(g, seed, c) && r < |g| && c[g[r].nonterm] < Saturated(Nonterms(g, r), c)
    ensures Growing(g, seed, c[g[r].nonterm := Saturated(Nonterms(g, r), c)])
  {
    var nt, v := g[r].nonterm, Saturated(Nonterms(g, r), c);
    var c' := c[nt := v];
    assert AtMost(c, c');
    ProductMono(Nonterms(g, r), c, c');
    assert Reaches(g, c', nt, r);
    forall n | n in c' && n != nt && c'[n] != seed[n] ensures exists q :: Reaches(g, c', n, q) {
      var q :| Reaches(g, c, n, q);
      ProductMono(Nonterms(g, q), c, c');
      assert Reaches(g, c', n, q);
    }
    forall d | AtMost(seed, d) && Covers(g, d) && Closed(g, d) ensures AtMost(c', d) {
      ProductMono(Nonterms(g, r), c, d);
    }
  }

  /** The least assignment is a fixpoint: the best of the seed and the rules' products. */
  lemma LeastIsFixpoint(g: Grammar, seed: Counts, c: Counts, nt: NTermId)
    requires Growing(g, seed, c) && Closed(g, c) && nt in c
    ensures c[nt] >= seed[nt]
    ensures forall r: RuleId :: r < |g| && g[r].nonterm == nt ==> Saturated(Nonterms(g, r), c) <= c[nt]
    ensures c[nt] == seed[nt] || exists r: RuleId :: r < |g| && g[r].nonterm == nt && c[nt] == Saturated(Nonterms(g, r), c)
  {
    if c[nt] != seed[nt] {
      var r :| Reaches(g, c, nt, r);
      assert c[nt] == Saturated(Nonterms(g, r), c);
    }
  }

  /** There is only one least assignment, so the order of the rules cannot matter. */
  lemma LeastUnique(g: Grammar, g': Grammar, seed: Counts, c: Counts, c': Counts)
    requires Covers(g, seed) && IsLeast(g, seed, c)
    requires Covers(g', seed) && IsLeast(g', seed, c')
    requires forall rule :: rule in g <==> rule in g'
    ensures c == c'
  {
    ClosedSameRules(g, g', c);
    ClosedSameRules(g', g, c');
    assert AtMost(c, c') && AtMost(c', c);
  }

  lemma ClosedSameRules(g: Grammar, g': Grammar, c: Counts)
    requires Covers(g, c) && Closed(g, c)
    requires forall rule :: rule in g' ==> rule in g
    ensures Covers(g', c) && Closed(g', c)
  {
    forall r: RuleId | r < |g'| ensures g'[r].nonterm in c && Saturated(Nonterms(g', r), c) <= c[g'[r].nonterm] {
      assert g'[r] in g;
      var q: RuleId :| q < |g| && g[q] == g'[r];
      assert Saturated(Nonterms(g, q), c) <= c[g[q].nonterm];
    }
  }
}
