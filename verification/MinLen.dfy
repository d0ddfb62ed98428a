/**
 The smallest derivation trees of a grammar, and the facts that make the iteration of
 `Context::CalcMinLen` find them: every value it holds is the size of some tree, a pass
 that changes nothing is a fixpoint, and a fixpoint is a lower bound.
 */
module MinimalSizes {
  import opened Grammars

  type Sizing = map<NTermId, nat>

  ghost predicate Productive(g: Grammar, nt: NTermId) {
    exists t :: DerivesTree(g, t, nt)
  }

  /** Some rule uses a nonterminal that has no finite derivation. */
  ghost predicate Broken(g: Grammar) {
    exists r: RuleId, nt :: r < |g| && nt in Nonterms(g, r) && !Productive(g, nt)
  }

  ghost predicate Attained(g: Grammar, nt: NTermId, n: nat) {
    exists t :: DerivesTree(g, t, nt) && CountTree(t) == n
  }

  /** `n` is the node count of a smallest derivation tree of `nt`. */
  ghost predicate IsMinSize(g: Grammar, nt: NTermId, n: nat) {
    && Attained(g, nt, n)
    && forall t :: DerivesTree(g, t, nt) ==> n <= CountTree(t)
  }

  /** `n` is the node count of a smallest derivation tree whose root applies rule `r`. */
  ghost predicate IsMinSizeOfRule(g: Grammar, r: RuleId, n: nat)
    requires r < |g|
  {
    && (exists t :: DerivesTree(g, t, g[r].nonterm) && t.rule == r && CountTree(t) == n)
    && forall t :: DerivesTree(g, t, g[r].nonterm) && t.rule == r ==> n <= CountTree(t)
  }

  predicate Known(nts: seq<NTermId>, m: Sizing) {
    forall k :: 0 <= k < |nts| ==> nts[k] in m
  }

  function Sum(nts: seq<NTermId>, m: Sizing): nat
    requires Known(nts, m)
  {
    if nts == [] then 0 else m[nts[0]] + Sum(nts[1..], m)
  }

  /** Every value is the size of some derivation tree. */
  ghost predicate Sound(g: Grammar, m: Sizing) {
    forall nt :: nt in m ==> Attained(g, nt, m[nt])
  }

  /** Rule `r` has its value, and its nonterminal is no larger. */
  ghost predicate Settled(g: Grammar, m: Sizing, byRule: map<RuleId, nat>, r: RuleId)
    requires r < |g|
  {
    && Known(Nonterms(g, r), m)
    && r in byRule && byRule[r] == 1 + Sum(Nonterms(g, r), m)
    && g[r].nonterm in m && m[g[r].nonterm] <= byRule[r]
  }

  lemma {:induction false} SumAttained(g: Grammar, nts: seq<NTermId>, m: Sizing) returns (f: Forest)
    requires Sound(g, m) && Known(nts, m)
    ensures Derives(g, f, nts) && Count(f) == Sum(nts, m)
  {
    if nts == [] {
      f := Nil;
    } else {
      assert nts[0] in m;
      var t :| DerivesTree(g, t, nts[0]) && CountTree(t) == m[nts[0]];
      var tail := SumAttained(g, nts[1..], m);
      f := Cons(t, tail);
    }
  }

  /** The value computed for a rule is the size of a tree. */
  lemma RuleAttained(g: Grammar, r: RuleId, m: Sizing) returns (t: Derivation)
    requires r < |g| && Sound(g, m) && Known(Nonterms(g, r), m)
    ensures DerivesTree(g, t, g[r].nonterm) && t.rule == r && CountTree(t) == 1 + Sum(Nonterms(g, r), m)
    ensures Attained(g, g[r].nonterm, 1 + Sum(Nonterms(g, r), m))
  {
    var kids := SumAttained(g, Nonterms(g, r), m);
    t := Node(r, kids);
  }

  lemma SoundUpdate(g: Grammar, m: Sizing, nt: NTermId, v: nat)
    requires Sound(g, m) && Attained(g, nt, v)
    ensures Sound(g, m[nt := v])
  {
  }

  /** Growing the domain without touching values changes no sum. */
  lemma {:induction false} SumExtends(nts: seq<NTermId>, m: Sizing, m': Sizing)
    requires Known(nts, m) && forall nt :: nt in m ==> nt in m' && m'[nt] == m[nt]
    ensures Known(nts, m') && Sum(nts, m') == Sum(nts, m)
  {
    if nts != [] {
      assert nts[0] in m;
      SumExtends(nts[1..], m, m');
    }
  }

  /** Recording a rule's value settles it, and unsettles nothing unless a value was lowered. */
  lemma EvalSettles(g: Grammar, m: Sizing, byRule: map<RuleId, nat>, rule: RuleId, m': Sizing)
    requires rule < |g| && Known(Nonterms(g, rule), m)
    requires var nt, v := g[rule].nonterm, 1 + Sum(Nonterms(g, rule), m);
      m' == if nt in m then m else m[nt := v]
    requires m'[g[rule].nonterm] <= 1 + Sum(Nonterms(g, rule), m)
    ensures var byRule' := byRule[rule := 1 + Sum(Nonterms(g, rule), m)];
      && Settled(g, m', byRule', rule)
      && (forall r: RuleId :: r < |g| && Settled(g, m, byRule, r) ==> Settled(g, m', byRule', r))
  {
    var byRule' := byRule[rule := 1 + Sum(Nonterms(g, rule), m)];
    SumExtends(Nonterms(g, rule), m, m');
    forall r: RuleId | r < |g| && Settled(g, m, byRule, r) ensures Settled(g, m', byRule', r) {
      SumExtends(Nonterms(g, r), m, m');
    }
  }

  /** A fixpoint bounds the size of every derivation from below. */
  lemma {:induction false} FixpointLower(g: Grammar, m: Sizing, byRule: map<RuleId, nat>, f: Forest, nts: seq<NTermId>)
    requires forall r: RuleId :: r < |g| ==> Settled(g, m, byRule, r)
    requires Derives(g, f, nts)
    ensures Known(nts, m) && Sum(nts, m) <= Count(f)
  {
    match f
    case Nil =>
    case Cons(t, tail) =>
      assert Settled(g, m, byRule, t.rule);
      FixpointLower(g, m, byRule, t.kids, Nonterms(g, t.rule));
      FixpointLower(g, m, byRule, tail, nts[1..]);
      assert forall k :: 0 < k < |nts| ==> nts[k] == nts[1..][k - 1];
  }

  /** What `CalcMinLen` leaves behind when it succeeds. */
  ghost predicate Exact(g: Grammar, m: Sizing, byRule: map<RuleId, nat>) {
    && (forall nt :: nt in m <==> Productive(g, nt))
    && (forall nt :: nt in m ==> IsMinSize(g, nt, m[nt]))
    && (forall r: RuleId :: r < |g| ==> Settled(g, m, byRule, r) && IsMinSizeOfRule(g, r, byRule[r]))
  }

  lemma RuleExact(g: Grammar, m: Sizing, byRule: map<RuleId, nat>, r: RuleId)
    requires Sound(g, m) && forall r: RuleId :: r < |g| ==> Settled(g, m, byRule, r)
    requires r < |g|
    ensures r in byRule && IsMinSizeOfRule(g, r, byRule[r])
  {
    assert Settled(g, m, byRule, r);
    var t := RuleAttained(g, r, m);
    forall u | DerivesTree(g, u, g[r].nonterm) && u.rule == r ensures byRule[r] <= CountTree(u) {
      FixpointLower(g, m, byRule, u.kids, Nonterms(g, r));
    }
  }

  /** Sound values that form a fixpoint are exact, and no rule is broken. */
  lemma FixpointExact(g: Grammar, m: Sizing, byRule: map<RuleId, nat>)
    requires Sound(g, m) && forall r: RuleId :: r < |g| ==> Settled(g, m, byRule, r)
    ensures Exact(g, m, byRule) && !Broken(g)
  {
    forall nt, t | DerivesTree(g, t, nt) ensures nt in m && m[nt] <= CountTree(t) {
      assert Derives(g, Single(t), [nt]);
      FixpointLower(g, m, byRule, Single(t), [nt]);
      assert Sum([nt], m) == m[nt];
    }
    forall nt | nt in m ensures Productive(g, nt) && IsMinSize(g, nt, m[nt]) {
      assert Attained(g, nt, m[nt]);
    }
    forall r: RuleId | r < |g| ensures Settled(g, m, byRule, r) && IsMinSizeOfRule(g, r, byRule[r]) {
      RuleExact(g, m, byRule, r);
    }
    forall r: RuleId, nt | r < |g| && nt in Nonterms(g, r) ensures Productive(g, nt) {
      assert Settled(g, m, byRule, r);
      assert Attained(g, nt, m[nt]);
    }
  }

  /**
   When no unknown rule can be evaluated, only nonterminals with a value have derivations.
   */
  lemma {:induction false} StuckCovers(g: Grammar, m: Sizing, unknown: seq<RuleId>, f: Forest, nts: seq<NTermId>)
    requires forall r: RuleId :: r < |g| ==> if r in unknown then !Known(Nonterms(g, r), m) else g[r].nonterm in m
    requires Derives(g, f, nts)
    ensures Known(nts, m)
  {
    match f
    case Nil =>
    case Cons(t, tail) =>
      StuckCovers(g, m, unknown, t.kids, Nonterms(g, t.rule));
      StuckCovers(g, m, unknown, tail, nts[1..]);
      assert forall k :: 0 < k < |nts| ==> nts[k] == nts[1..][k - 1];
  }

  lemma StuckBroken(g: Grammar, m: Sizing, unknown: seq<RuleId>)
    requires unknown != [] && forall r :: r in unknown ==> r < |g|
    requires forall r: RuleId :: r < |g| ==> if r in unknown then !Known(Nonterms(g, r), m) else g[r].nonterm in m
    ensures Broken(g)
  {
    var r := unknown[0];
    assert r in unknown;
    var k :| 0 <= k < |Nonterms(g, r)| && Nonterms(g, r)[k] !in m;
    var nt := Nonterms(g, r)[k];
    if Productive(g, nt) {
      var t :| DerivesTree(g, t, nt);
      StuckCovers(g, m, unknown, t.kids, Nonterms(g, t.rule));
      assert false;
    }
  }

  // ------------------------------------------------------------------- termination

  /** How many of the first `k` rules define a nonterminal without a value. */
  function Missing(g: Grammar, m: Sizing, k: nat): nat
    requires k <= |g|
  {
    if k == 0 then 0
    else Missing(g, m, k - 1) + if g[k - 1].nonterm in m then 0 else 1
  }

  /** The sum, over the first `k` rules, of the values of the nonterminals they define. */
  function Total(g: Grammar, m: Sizing, k: nat): nat
    requires k <= |g|
  {
    if k == 0 then 0
    else Total(g, m, k - 1) + if g[k - 1].nonterm in m then m[g[k - 1].nonterm] else 0
  }

  /** `m'` is strictly further along than `m`. */
  ghost predicate Progress(g: Grammar, m: Sizing, m': Sizing) {
    || Missing(g, m', |g|) < Missing(g, m, |g|)
    || (Missing(g, m', |g|) == Missing(g, m, |g|) && Total(g, m', |g|) < Total(g, m, |g|))
  }

  lemma {:induction false} LowerTotals(g: Grammar, m: Sizing, nt: NTermId, v: nat, k: nat)
    requires k <= |g| && nt in m && v < m[nt]
    ensures Missing(g, m[nt := v], k) == Missing(g, m, k)
    ensures Total(g, m[nt := v], k) <= Total(g, m, k)
    ensures forall r: RuleId :: r < k && g[r].nonterm == nt ==> Total(g, m[nt := v], k) < Total(g, m, k)
  {
    if k > 0 { LowerTotals(g, m, nt, v, k - 1); }
  }

  lemma {:induction false} NewTotals(g: Grammar, m: Sizing, nt: NTermId, v: nat, k: nat)
    requires k <= |g| && nt !in m
    ensures Missing(g, m[nt := v], k) <= Missing(g, m, k)
    ensures forall r: RuleId :: r < k && g[r].nonterm == nt ==> Missing(g, m[nt := v], k) < Missing(g, m, k)
  {
    if k > 0 { NewTotals(g, m, nt, v, k - 1); }
  }

  // ---------------------------------------------------------------------- one sweep

  datatype Values = Values(m: Sizing, byRule: map<RuleId, nat>, changed: bool)

  /** What evaluating one rule does to the values. */
  function Eval(g: Grammar, rule: RuleId, v: Values): Values
    requires rule < |g| && Known(Nonterms(g, rule), v.m)
  {
    var nt, min := g[rule].nonterm, 1 + Sum(Nonterms(g, rule), v.m);
    var better := nt in v.m && min < v.m[nt];
    Values(if nt !in v.m || better then v.m[nt := min] else v.m,
           v.byRule[rule := min],
           v.changed || better)
  }

  /** What a sweep over `unknown` that leaves `kept` does to the values. */
  ghost predicate Swept(g: Grammar, v0: Values, unknown: seq<RuleId>, v: Values, kept: seq<RuleId>) {
    && Sound(g, v.m)
    && v0.m.Keys <= v.m.Keys
    && (v.m == v0.m || Progress(g, v0.m, v.m))
    && (v0.changed ==> v.changed)
    && (v.changed && !v0.changed ==> Progress(g, v0.m, v.m))
    && |kept| <= |unknown|
    && (forall r :: r in kept ==> r in unknown)
    && (forall r: RuleId :: r < |g| && r in unknown && r !in kept ==> g[r].nonterm in v.m)
    && (|kept| == |unknown| ==> v.m == v0.m && kept == unknown)
    && (|kept| == |unknown| ==> forall r: RuleId :: r < |g| && r in kept ==> !Known(Nonterms(g, r), v.m))
    && (!v.changed ==> forall r: RuleId :: r < |g| && r !in unknown && Settled(g, v0.m, v0.byRule, r) ==>
          Settled(g, v.m, v.byRule, r))
    && (!v.changed ==> forall r: RuleId :: r < |g| && r in unknown && r !in kept ==>
          Settled(g, v.m, v.byRule, r))
  }

  lemma SweptNone(g: Grammar, v: Values)
    requires Sound(g, v.m)
    ensures Swept(g, v, [], v, [])
  {
  }

  lemma EvalProgress(g: Grammar, rule: RuleId, v: Values)
    requires rule < |g| && Known(Nonterms(g, rule), v.m)
    ensures var w := Eval(g, rule, v);
      && (w.m == v.m || Progress(g, v.m, w.m))
      && (w.changed && !v.changed ==> Progress(g, v.m, w.m))
  {
    var nt, min := g[rule].nonterm, 1 + Sum(Nonterms(g, rule), v.m);
    if nt !in v.m {
      NewTotals(g, v.m, nt, min, |g|);
    } else if min < v.m[nt] {
      LowerTotals(g, v.m, nt, min, |g|);
    }
  }

  lemma SweptEval(g: Grammar, v0: Values, unknown: seq<RuleId>, v: Values, kept: seq<RuleId>, rule: RuleId)
    requires Swept(g, v0, unknown, v, kept)
    requires rule < |g| && Known(Nonterms(g, rule), v.m)
    ensures Swept(g, v0, unknown + [rule], Eval(g, rule, v), kept)
  {
    var w := Eval(g, rule, v);
    var nt, min := g[rule].nonterm, 1 + Sum(Nonterms(g, rule), v.m);
    var t := RuleAttained(g, rule, v.m);
    SoundUpdate(g, v.m, nt, min);
    EvalProgress(g, rule, v);
    if !w.changed { EvalSettles(g, v.m, v.byRule, rule, w.m); }
  }

  lemma SweptKeep(g: Grammar, v0: Values, unknown: seq<RuleId>, v: Values, kept: seq<RuleId>, rule: RuleId)
    requires Swept(g, v0, unknown, v, kept)
    requires rule < |g| && !Known(Nonterms(g, rule), v.m)
    ensures Swept(g, v0, unknown + [rule], v, kept + [rule])
  {
  }

  // ----------------------------------------------------------------------- one pass

  /** The state inside a pass that began with `m0`, while `unknown` rules remain. */
  ghost predicate InPass(g: Grammar, m0: Sizing, unknown: seq<RuleId>, v: Values) {
    && (forall r :: r in unknown ==> r < |g|)
    && Sound(g, v.m)
    && (v.m == m0 || Progress(g, m0, v.m))
    && (v.changed ==> Progress(g, m0, v.m))
    && (forall r: RuleId :: r < |g| && r !in unknown ==> g[r].nonterm in v.m)
    && (!v.changed ==> forall r: RuleId :: r < |g| && r !in unknown ==> Settled(g, v.m, v.byRule, r))
  }

  lemma PassBegins(g: Grammar, v: Values, unknown: seq<RuleId>)
    requires Sound(g, v.m) && !v.changed && unknown == seq(|g|, i => i)
    ensures InPass(g, v.m, unknown, v)
  {
    forall r: RuleId | r < |g| ensures r in unknown {
      assert unknown[r] == r;
    }
  }

  lemma PassSweeps(g: Grammar, m0: Sizing, unknown: seq<RuleId>, v: Values, w: Values, kept: seq<RuleId>)
    requires InPass(g, m0, unknown, v) && Swept(g, v, unknown, w, kept)
    ensures InPass(g, m0, kept, w)
    ensures |kept| <= |unknown|
    ensures kept != [] && |kept| == |unknown| ==> Broken(g)
  {
    if kept != [] && |kept| == |unknown| { StuckBroken(g, w.m, kept); }
  }

  lemma PassEnds(g: Grammar, m0: Sizing, v: Values)
    requires InPass(g, m0, [], v)
    ensures Sound(g, v.m)
    ensures v.changed ==> Progress(g, m0, v.m)
    ensures v.m == m0 || Progress(g, m0, v.m)
    ensures !v.changed ==> Exact(g, v.m, v.byRule) && !Broken(g)
  {
    if !v.changed { FixpointExact(g, v.m, v.byRule); }
  }
}
