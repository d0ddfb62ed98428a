/**
 What the two minimizations ask a tester, and what its answers leave behind. A tester runs the
 target program, so its answers are arbitrary and may change from question to question.
 */
module Minimizing {
  import opened Grammars
  import opened Positions
  import opened Splicing
  import opened Trees
  import opened MinimalSizes
  import opened Generating
  import opened Recursions

  /** The answer to the `n`-th question about a mutated tree. */
  type Tester = (nat, TreeMutation) -> bool

  /** A tester that accepts everything. */
  ghost predicate AcceptsAll(tester: Tester) {
    forall n, m :: tester(n, m)
  }

  /** Mutation `m` is the tree `f` with the subtree at `n` replaced by `sub`, a valid derivation. */
  ghost predicate Substitutes(g: Grammar, f: Forest, n: nat, sub: Derivation, m: TreeMutation) {
    && n < Count(f)
    && IsDerivation(g, m.Whole())
    && TreeOf(g, m.Whole()) == Replace(f, n, sub)
    && |m.prefix| == n && m.repl == PreTree(sub)
  }

  // ------------------------------------------------------- questions and answers

  /** What is left of `rules` after the questions: each accepted mutation replaced the tree. */
  ghost function Replayed(tester: Tester, asked: seq<TreeMutation>, rules: seq<RuleId>): seq<RuleId> {
    if asked == [] then rules
    else
      var last := |asked| - 1;
      if tester(last, asked[last]) then asked[last].Whole() else Replayed(tester, asked[..last], rules)
  }

  /** `rules` was asked about and accepted. */
  ghost predicate Accepted(tester: Tester, asked: seq<TreeMutation>, rules: seq<RuleId>) {
    exists k :: 0 <= k < |asked| && tester(k, asked[k]) && asked[k].Whole() == rules
  }

  lemma ReplayedNext(tester: Tester, asked: seq<TreeMutation>, q: TreeMutation, rules: seq<RuleId>)
    ensures Replayed(tester, asked + [q], rules) ==
      if tester(|asked|, q) then q.Whole() else Replayed(tester, asked, rules)
  {
    assert (asked + [q])[..|asked|] == asked;
  }

  lemma AcceptedNext(tester: Tester, asked: seq<TreeMutation>, q: TreeMutation, rules: seq<RuleId>)
    ensures Accepted(tester, asked, rules) ==> Accepted(tester, asked + [q], rules)
    ensures tester(|asked|, q) ==> Accepted(tester, asked + [q], q.Whole())
  {
    var all := asked + [q];
    if k :| 0 <= k < |asked| && tester(k, asked[k]) && asked[k].Whole() == rules {
      assert tester(k, all[k]) && all[k].Whole() == rules;
    }
    assert all[|asked|] == q;
  }

  lemma Asked<T>(all: seq<T>, q: T, k: nat)
    requires k < |all|
    ensures (all + [q])[k] == all[k] && (all + [q])[..k] == all[..k]
  {
  }

  lemma AskedLast<T>(all: seq<T>, q: T)
    ensures (all + [q])[|all|] == q && (all + [q])[..|all|] == all
  {
  }

  /** The tree is the old one, or a smaller one that was accepted. */
  ghost predicate SameOrSmaller(tester: Tester, asked: seq<TreeMutation>, rules0: seq<RuleId>, rules: seq<RuleId>) {
    rules == rules0 || (Accepted(tester, asked, rules) && |rules| < |rules0|)
  }

  lemma SmallerNext(tester: Tester, asked: seq<TreeMutation>, q: TreeMutation, rules0: seq<RuleId>, rules: seq<RuleId>,
                    rules': seq<RuleId>)
    requires SameOrSmaller(tester, asked, rules0, rules)
    requires if tester(|asked|, q) then rules' == q.Whole() && |rules'| < |rules| else rules' == rules
    ensures SameOrSmaller(tester, asked + [q], rules0, rules')
  {
    AcceptedNext(tester, asked, q, rules);
  }

  /** A substitution changes the size by what it puts in and takes out. */
  lemma SubstitutedSize(g: Grammar, f: Forest, n: nat, sub: Derivation, q: TreeMutation)
    requires Substitutes(g, f, n, sub, q)
    ensures n < Count(f) && |q.Whole()| == Count(f) - CountTree(SubAt(f, n)) + CountTree(sub)
  {
    ReplaceCount(f, n, sub);
    TreeShape(g, q.Whole());
  }

  // ------------------------------------------------------------ subtree minimization

  /** The nodes `lo..hi` all have subtrees of minimum size. */
  ghost predicate MinimalFrom(g: Grammar, m: Sizing, f: Forest, lo: nat, hi: nat) {
    forall n :: lo <= n < hi && n < Count(f) ==> MinimalAt(g, m, f, n)
  }

  ghost predicate MinimalAt(g: Grammar, m: Sizing, f: Forest, n: nat)
    requires n < Count(f)
  {
    NtAt(g, f, n).Some? && NtAt(g, f, n).value in m && CountTree(SubAt(f, n)) == m[NtAt(g, f, n).value]
  }

  /** `t` is a smallest derivation of the nonterminal at node `i`. */
  ghost predicate IsSmallestFor(g: Grammar, m: Sizing, f: Forest, i: nat, t: Derivation) {
    var nt := NtAt(g, f, i);
    nt.Some? && DerivesTree(g, t, nt.value) && nt.value in m && CountTree(t) == m[nt.value]
  }

  /** `rules` is the pre-order of a smallest derivation of `nt`. */
  ghost predicate SmallestRules(g: Grammar, m: Sizing, nt: NTermId, rules: seq<RuleId>) {
    nt in m && exists t :: DerivesTree(g, t, nt) && CountTree(t) == m[nt] && rules == PreTree(t)
  }

  /** A smallest derivation of `nt` was offered for node `n`, and refused. */
  ghost predicate Refused(g: Grammar, m: Sizing, tester: Tester, asked: seq<TreeMutation>, nt: NTermId, n: nat) {
    exists k :: 0 <= k < |asked| && !tester(k, asked[k]) && |asked[k].prefix| == n && SmallestRules(g, m, nt, asked[k].repl)
  }

  /** Node `n` has a subtree of minimum size, or a smallest one was offered for it and refused. */
  ghost predicate MinimalOrRefused(g: Grammar, m: Sizing, f: Forest, tester: Tester, asked: seq<TreeMutation>, n: nat)
    requires n < Count(f)
  {
    MinimalAt(g, m, f, n) || (NtAt(g, f, n).Some? && Refused(g, m, tester, asked, NtAt(g, f, n).value, n))
  }

  /** The nodes `lo..hi` all have subtrees of minimum size, but for refusals. */
  ghost predicate TriedFrom(g: Grammar, m: Sizing, f: Forest, tester: Tester, asked: seq<TreeMutation>, lo: nat, hi: nat) {
    forall n :: lo <= n < hi && n < Count(f) ==> MinimalOrRefused(g, m, f, tester, asked, n)
  }

  /** `q` offers a smallest derivation for a node of `rules` whose subtree is larger. */
  ghost predicate AsksSmallest(g: Grammar, m: Sizing, rules: seq<RuleId>, q: TreeMutation) {
    && IsDerivation(g, rules)
    && |q.prefix| < Count(TreeOf(g, rules)) && !MinimalAt(g, m, TreeOf(g, rules), |q.prefix|)
    && exists t :: IsSmallestFor(g, m, TreeOf(g, rules), |q.prefix|, t) && Substitutes(g, TreeOf(g, rules), |q.prefix|, t, q)
  }

  /** Every question offers a smallest derivation, for ever later nodes of the range `lo..hi`. */
  ghost predicate AsksInOrder(g: Grammar, m: Sizing, tester: Tester, asked: seq<TreeMutation>,
                              rules0: seq<RuleId>, lo: nat, hi: nat) {
    && (forall k :: 0 <= k < |asked| ==>
          lo <= |asked[k].prefix| < hi && AsksSmallest(g, m, Replayed(tester, asked[..k], rules0), asked[k]))
    && (forall j, k :: 0 <= j < k < |asked| ==> |asked[j].prefix| < |asked[k].prefix|)
  }

  /** Before node `k` no nonterminal repeats that did not repeat. */
  ghost predicate NothingNew(g: Grammar, f0: Forest, f: Forest, k: nat) {
    forall n: nat :: n < k && Repeats(g, f, n) ==> Repeats(g, f0, n)
  }

  /**
   The subtree minimization of `rules0` has gone through the nodes `lo..i` and has come to
   `rules` by the questions `asked`.
   */
  ghost predicate MinimizedTo(g: Grammar, m: Sizing, tester: Tester, asked: seq<TreeMutation>, rules0: seq<RuleId>,
                              lo: nat, i: nat, rules: seq<RuleId>)
  {
    && IsDerivation(g, rules0) && IsDerivation(g, rules)
    && rules == Replayed(tester, asked, rules0)
    && AsksInOrder(g, m, tester, asked, rules0, lo, i)
    && TriedFrom(g, m, TreeOf(g, rules), tester, asked, lo, i)
    && NothingNew(g, TreeOf(g, rules0), TreeOf(g, rules), lo)
    && SameOrSmaller(tester, asked, rules0, rules)
  }

  lemma MinimizedNone(g: Grammar, m: Sizing, tester: Tester, rules: seq<RuleId>, lo: nat)
    requires IsDerivation(g, rules)
    ensures MinimizedTo(g, m, tester, [], rules, lo, lo, rules)
  {
  }

  /** A node that is minimal already extends the range without a question. */
  lemma MinimizedSkip(g: Grammar, m: Sizing, tester: Tester, asked: seq<TreeMutation>, rules0: seq<RuleId>,
                      lo: nat, i: nat, rules: seq<RuleId>)
    requires MinimizedTo(g, m, tester, asked, rules0, lo, i, rules)
    requires i < Count(TreeOf(g, rules)) && MinimalAt(g, m, TreeOf(g, rules), i)
    ensures MinimizedTo(g, m, tester, asked, rules0, lo, i + 1, rules)
  {
    hide Replayed, NothingNew, SameOrSmaller, AsksSmallest, Refused, MinimalAt;
    var f := TreeOf(g, rules);
    forall n | lo <= n < i + 1 && n < Count(f) ensures MinimalOrRefused(g, m, f, tester, asked, n) {
      if n < i { assert MinimalOrRefused(g, m, f, tester, asked, n); }
    }
  }

  /** A question about node `i`, whatever the answer, extends the range. */
  lemma MinimizedAsk(g: Grammar, m: Sizing, byRule: map<RuleId, nat>, tester: Tester, asked: seq<TreeMutation>,
                     rules0: seq<RuleId>, lo: nat, i: nat, rules: seq<RuleId>, f: Forest, root: NTermId,
                     t: Derivation, q: TreeMutation, rules': seq<RuleId>)
    requires MinimizedTo(g, m, tester, asked, rules0, lo, i, rules) && lo <= i
    requires Exact(g, m, byRule) && f == TreeOf(g, rules) && Derives(g, f, [root]) && Pre(f) == rules
    requires i < Count(f) && !MinimalAt(g, m, f, i) && IsSmallestFor(g, m, f, i, t) && Substitutes(g, f, i, t, q)
    requires rules' == if tester(|asked|, q) then q.Whole() else rules
    ensures MinimizedTo(g, m, tester, asked + [q], rules0, lo, i + 1, rules')
  {
    SmallestIsSmaller(g, m, byRule, f, root, i, t);
    SubstitutedSize(g, f, i, t, q);
    ReplayedNext(tester, asked, q, rules0);
    SubstitutedPrefix(g, f, i, t, q);
    AsksNext(g, m, tester, asked, q, rules0, lo, i, rules, t);
    assert |rules| == Count(f);
    hide Replayed, AsksInOrder, TriedFrom, NothingNew, SameOrSmaller, Substitutes, MinimalAt, IsSmallestFor;
    SmallerNext(tester, asked, q, rules0, rules, rules');
    if tester(|asked|, q) {
      TriedAccepted(g, m, byRule, tester, asked, q, lo, i, f, root, t);
      NothingNewAfter(g, TreeOf(g, rules0), f, i, t, lo);
    } else {
      TriedRefused(g, m, tester, asked, q, lo, i, f, t);
    }
  }

  lemma SubstitutedPrefix(g: Grammar, f: Forest, i: nat, t: Derivation, q: TreeMutation)
    requires Substitutes(g, f, i, t, q)
    ensures |q.prefix| == i && q.repl == PreTree(t) && IsDerivation(g, q.Whole()) && TreeOf(g, q.Whole()) == Replace(f, i, t)
  {
  }

  /** A node that is not minimal has a subtree larger than a smallest one. */
  lemma SmallestIsSmaller(g: Grammar, m: Sizing, byRule: map<RuleId, nat>, f: Forest, root: NTermId, i: nat, t: Derivation)
    requires Exact(g, m, byRule) && Derives(g, f, [root]) && i < Count(f)
    requires !MinimalAt(g, m, f, i) && IsSmallestFor(g, m, f, i, t)
    ensures CountTree(t) < CountTree(SubAt(f, i))
  {
    SubAtDerives(g, f, [root], i);
    AtLeastMin(g, m, byRule, NtAt(g, f, i).value, SubAt(f, i));
  }

  lemma AsksNext(g: Grammar, m: Sizing, tester: Tester, asked: seq<TreeMutation>, q: TreeMutation, rules0: seq<RuleId>,
                 lo: nat, i: nat, rules: seq<RuleId>, t: Derivation)
    requires AsksInOrder(g, m, tester, asked, rules0, lo, i) && lo <= i && |q.prefix| == i
    requires rules == Replayed(tester, asked, rules0) && IsDerivation(g, rules)
    requires i < Count(TreeOf(g, rules)) && !MinimalAt(g, m, TreeOf(g, rules), i)
    requires IsSmallestFor(g, m, TreeOf(g, rules), i, t) && Substitutes(g, TreeOf(g, rules), i, t, q)
    ensures AsksInOrder(g, m, tester, asked + [q], rules0, lo, i + 1)
  {
    var all := asked + [q];
    assert AsksSmallest(g, m, rules, q);
    hide AsksSmallest, Replayed, IsSmallestFor, Substitutes, MinimalAt;
    AskedLast(asked, q);
    forall k | 0 <= k < |all|
      ensures lo <= |all[k].prefix| < i + 1 && AsksSmallest(g, m, Replayed(tester, all[..k], rules0), all[k])
    {
      if k < |asked| { Asked(asked, q, k); }
    }
  }

  lemma RefusedNext(g: Grammar, m: Sizing, tester: Tester, asked: seq<TreeMutation>, q: TreeMutation, nt: NTermId, n: nat)
    ensures Refused(g, m, tester, asked, nt, n) ==> Refused(g, m, tester, asked + [q], nt, n)
    ensures !tester(|asked|, q) && |q.prefix| == n && SmallestRules(g, m, nt, q.repl) ==>
      Refused(g, m, tester, asked + [q], nt, n)
  {
    hide SmallestRules;
    var all := asked + [q];
    AskedLast(asked, q);
    if k :| 0 <= k < |asked| && !tester(k, asked[k]) && |asked[k].prefix| == n && SmallestRules(g, m, nt, asked[k].repl) {
      Asked(asked, q, k);
      assert !tester(k, all[k]) && |all[k].prefix| == n && SmallestRules(g, m, nt, all[k].repl);
    }
  }

  /** After a refusal. */
  lemma TriedRefused(g: Grammar, m: Sizing, tester: Tester, asked: seq<TreeMutation>, q: TreeMutation, lo: nat, i: nat,
                     f: Forest, t: Derivation)
    requires TriedFrom(g, m, f, tester, asked, lo, i) && i < Count(f) && IsSmallestFor(g, m, f, i, t)
    requires !tester(|asked|, q) && |q.prefix| == i && q.repl == PreTree(t)
    ensures TriedFrom(g, m, f, tester, asked + [q], lo, i + 1)
  {
    assert SmallestRules(g, m, NtAt(g, f, i).value, q.repl);
    hide Refused, SmallestRules, MinimalAt;
    forall n | lo <= n < i + 1 && n < Count(f) ensures MinimalOrRefused(g, m, f, tester, asked + [q], n) {
      if NtAt(g, f, n).Some? { RefusedNext(g, m, tester, asked, q, NtAt(g, f, n).value, n); }
      if n < i { assert MinimalOrRefused(g, m, f, tester, asked, n); }
    }
  }

  /** Substituting a smallest tree at `i` makes node `i` minimal and keeps the nodes before it so. */
  lemma MinimalStep(g: Grammar, m: Sizing, byRule: map<RuleId, nat>, f: Forest, root: NTermId, i: nat, t: Derivation, n: nat)
    requires Exact(g, m, byRule) && Derives(g, f, [root]) && i < Count(f) && n <= i
    requires IsSmallestFor(g, m, f, i, t) && CountTree(t) <= CountTree(SubAt(f, i))
    ensures n < Count(Replace(f, i, t)) && NtAt(g, Replace(f, i, t), n) == NtAt(g, f, n)
    ensures n == i || MinimalAt(g, m, f, n) ==> MinimalAt(g, m, Replace(f, i, t), n)
  {
    var f' := Replace(f, i, t);
    ReplaceUndo(f, i, t);
    if n < i {
      ReplaceDerives(g, f, [root], i, t);
      ReplaceBelow(f, i, t, n);
      if MinimalAt(g, m, f, n) {
        SubAtDerives(g, f', [root], n);
        AtLeastMin(g, m, byRule, NtAt(g, f', n).value, SubAt(f', n));
      }
    }
  }

  /** After an acceptance. */
  lemma TriedAccepted(g: Grammar, m: Sizing, byRule: map<RuleId, nat>, tester: Tester, asked: seq<TreeMutation>, q: TreeMutation,
                      lo: nat, i: nat, f: Forest, root: NTermId, t: Derivation)
    requires Exact(g, m, byRule) && Derives(g, f, [root]) && i < Count(f)
    requires TriedFrom(g, m, f, tester, asked, lo, i) && IsSmallestFor(g, m, f, i, t) && CountTree(t) <= CountTree(SubAt(f, i))
    ensures TriedFrom(g, m, Replace(f, i, t), tester, asked + [q], lo, i + 1)
  {
    hide Refused, MinimalAt, IsSmallestFor, Exact, Derives, Replace, Count;
    var f' := Replace(f, i, t);
    forall n | lo <= n < i + 1 && n < Count(f') ensures MinimalOrRefused(g, m, f', tester, asked + [q], n) {
      MinimalStep(g, m, byRule, f, root, i, t, n);
      if NtAt(g, f, n).Some? { RefusedNext(g, m, tester, asked, q, NtAt(g, f, n).value, n); }
      if n < i { assert MinimalOrRefused(g, m, f, tester, asked, n); }
    }
  }

  lemma NothingNewAfter(g: Grammar, f0: Forest, f: Forest, i: nat, t: Derivation, k: nat)
    requires NothingNew(g, f0, f, k) && k <= i < Count(f) && t.rule < |g| && NtAt(g, f, i) == Some(g[t.rule].nonterm)
    ensures NothingNew(g, f0, Replace(f, i, t), k)
  {
    forall n: nat | n < k && Repeats(g, Replace(f, i, t), n) ensures Repeats(g, f0, n) {
      SameBelow(g, f, i, t, n);
    }
  }

  /** What the nodes gone through mean under a tester that accepts everything. */
  lemma TriedMeans(g: Grammar, m: Sizing, f: Forest, tester: Tester, asked: seq<TreeMutation>, lo: nat, hi: nat)
    requires TriedFrom(g, m, f, tester, asked, lo, hi)
    ensures AcceptsAll(tester) ==> MinimalFrom(g, m, f, lo, hi)
  {
    hide MinimalAt;
    forall n | AcceptsAll(tester) && lo <= n < hi && n < Count(f) ensures MinimalAt(g, m, f, n) {
      assert MinimalOrRefused(g, m, f, tester, asked, n);
    }
  }

  lemma MinKnown(g: Grammar, m: Sizing, byRule: map<RuleId, nat>, nt: NTermId, t: Derivation)
    requires Exact(g, m, byRule) && DerivesTree(g, t, nt)
    ensures nt in m && m[nt] <= CountTree(t)
  {
    assert Productive(g, nt);
    AtLeastMin(g, m, byRule, nt, t);
  }

  lemma MinimalMeans(g: Grammar, m: Sizing, f: Forest, i: nat, nt: NTermId)
    requires i < Count(f) && NtAt(g, f, i) == Some(nt) && nt in m && m[nt] <= CountTree(SubAt(f, i))
    ensures MinimalAt(g, m, f, i) <==> CountTree(SubAt(f, i)) <= m[nt]
    ensures forall t :: DerivesTree(g, t, nt) && CountTree(t) == m[nt] ==> IsSmallestFor(g, m, f, i, t)
  {
  }

  // ---------------------------------------------------------- recursive minimization

  /** No node before `k` repeats a nonterminal of its ancestors. */
  ghost predicate CleanBelow(g: Grammar, f: Forest, k: nat) {
    forall n: nat :: n < k ==> !Repeats(g, f, n)
  }

  lemma CleanBefore(g: Grammar, f0: Forest, f: Forest, k: nat)
    requires NothingNew(g, f0, f, k)
    ensures CleanBelow(g, f0, k) ==> CleanBelow(g, f, k)
  {
  }

  lemma NearestFacts(g: Grammar, f: Forest, p: nat, i: nat)
    requires NearestSame(g, f, p, i)
    ensures p < i < Count(f) && NtAt(g, f, p) == NtAt(g, f, i) && Repeats(g, f, i)
    ensures CountTree(SubAt(f, i)) < CountTree(SubAt(f, p))
  {
    InsideNested(f, p, i);
  }

  /** The questions of the recursive minimization: each pulls `nodes[k]` up to `|asked[k].prefix|`. */
  datatype Pulled = Pulled(asked: seq<TreeMutation>, nodes: seq<nat>)

  function Add(s: Pulled, q: TreeMutation, n: nat): Pulled {
    Pulled(s.asked + [q], s.nodes + [n])
  }

  /** Pulling node `n` up to node `p` was refused. */
  ghost predicate PullRefused(tester: Tester, s: Pulled, p: nat, n: nat) {
    exists k :: 0 <= k < |s.asked| && k < |s.nodes| && !tester(k, s.asked[k]) && |s.asked[k].prefix| == p && s.nodes[k] == n
  }

  /** Node `n` does not repeat, or pulling it up to its nearest ancestor of the same nonterminal was refused. */
  ghost predicate Handled(g: Grammar, f: Forest, tester: Tester, s: Pulled, n: nat) {
    forall p :: NearestSame(g, f, p, n) ==> PullRefused(tester, s, p, n)
  }

  ghost predicate HandledFrom(g: Grammar, f: Forest, tester: Tester, s: Pulled, lo: nat, hi: nat) {
    forall n :: lo <= n < hi ==> Handled(g, f, tester, s, n)
  }

  /** `q` pulls node `i` up to its nearest ancestor of the same nonterminal. */
  ghost predicate Pulls(g: Grammar, f: Forest, i: nat, q: TreeMutation) {
    NearestSame(g, f, |q.prefix|, i) && i < Count(f) && Substitutes(g, f, |q.prefix|, SubAt(f, i), q)
  }

  ghost predicate AsksPull(g: Grammar, rules: seq<RuleId>, i: nat, q: TreeMutation) {
    IsDerivation(g, rules) && Pulls(g, TreeOf(g, rules), i, q)
  }

  /** Where the search goes on after question `k`: behind the node, or behind its ancestor if it was accepted. */
  function Resumes(tester: Tester, s: Pulled, k: nat): nat
    requires k < |s.asked| == |s.nodes|
  {
    1 + if tester(k, s.asked[k]) then |s.asked[k].prefix| else s.nodes[k]
  }

  /** Question `k` pulls up a node before `hi` that lies at or behind the place where the search went on. */
  ghost predicate PullAt(g: Grammar, tester: Tester, s: Pulled, rules0: seq<RuleId>, lo: nat, hi: nat, k: nat)
    requires k < |s.asked| == |s.nodes|
  {
    && AsksPull(g, Replayed(tester, s.asked[..k], rules0), s.nodes[k], s.asked[k])
    && (if k == 0 then lo else Resumes(tester, s, k - 1)) <= s.nodes[k] < hi
  }

  ghost predicate AsksPulls(g: Grammar, tester: Tester, s: Pulled, rules0: seq<RuleId>, lo: nat, hi: nat) {
    |s.asked| == |s.nodes| && forall k :: 0 <= k < |s.asked| ==> PullAt(g, tester, s, rules0, lo, hi, k)
  }

  /** The place where the search goes on after all questions lies at or before `i`. */
  ghost predicate ResumedBy(tester: Tester, s: Pulled, lo: nat, i: nat) {
    |s.asked| == |s.nodes| && (if s.asked == [] then lo else Resumes(tester, s, |s.asked| - 1)) <= i
  }

  /**
   The recursive minimization of `rules0` has handled the nodes `lo..i`, all of them before `hi`,
   and has come to `rules` by the questions `s`. If nothing before `lo` repeated at the start,
   nothing before it is left out.
   */
  ghost predicate ReducedTo(g: Grammar, tester: Tester, s: Pulled, rules0: seq<RuleId>,
                            lo: nat, hi: nat, i: nat, rules: seq<RuleId>)
  {
    && IsDerivation(g, rules0) && IsDerivation(g, rules)
    && rules == Replayed(tester, s.asked, rules0)
    && AsksPulls(g, tester, s, rules0, lo, hi) && ResumedBy(tester, s, lo, i)
    && HandledFrom(g, TreeOf(g, rules), tester, s, lo, i)
    && (CleanBelow(g, TreeOf(g, rules0), lo) ==> HandledFrom(g, TreeOf(g, rules), tester, s, 0, i))
    && SameOrSmaller(tester, s.asked, rules0, rules)
  }

  lemma ReducedNone(g: Grammar, tester: Tester, rules: seq<RuleId>, lo: nat, hi: nat)
    requires IsDerivation(g, rules)
    ensures ReducedTo(g, tester, Pulled([], []), rules, lo, hi, lo, rules)
  {
    var f := TreeOf(g, rules);
    hide Repeats, Handled;
    forall n | CleanBelow(g, f, lo) && 0 <= n < lo ensures Handled(g, f, tester, Pulled([], []), n) {
      CleanHandled(g, f, tester, Pulled([], []), n);
    }
  }

  lemma CleanHandled(g: Grammar, f: Forest, tester: Tester, s: Pulled, n: nat)
    requires !Repeats(g, f, n)
    ensures Handled(g, f, tester, s, n)
  {
    hide NearestSame, PullRefused, Repeats;
    forall p ensures !NearestSame(g, f, p, n) {
      if NearestSame(g, f, p, n) { NearestFacts(g, f, p, n); }
    }
  }

  lemma HandledSkip(g: Grammar, f: Forest, tester: Tester, s: Pulled, lo: nat, i: nat)
    requires !Repeats(g, f, i)
    ensures HandledFrom(g, f, tester, s, lo, i) ==> HandledFrom(g, f, tester, s, lo, i + 1)
  {
    CleanHandled(g, f, tester, s, i);
    hide Handled, Repeats;
  }

  lemma ReducedSkip(g: Grammar, tester: Tester, s: Pulled, rules0: seq<RuleId>, lo: nat, hi: nat, i: nat, rules: seq<RuleId>)
    requires ReducedTo(g, tester, s, rules0, lo, hi, i, rules) && !Repeats(g, TreeOf(g, rules), i)
    ensures ReducedTo(g, tester, s, rules0, lo, hi, i + 1, rules)
  {
    HandledSkip(g, TreeOf(g, rules), tester, s, lo, i);
    HandledSkip(g, TreeOf(g, rules), tester, s, 0, i);
    hide HandledFrom, CleanBelow, AsksPulls, Replayed, SameOrSmaller, Repeats;
  }

  /** Adding a question keeps the ones before it. */
  lemma AddKeeps(tester: Tester, s: Pulled, q: TreeMutation, i: nat, k: nat)
    requires |s.asked| == |s.nodes| && k < |s.asked|
    ensures Add(s, q, i).asked[k] == s.asked[k] && Add(s, q, i).nodes[k] == s.nodes[k]
    ensures Add(s, q, i).asked[..k] == s.asked[..k]
    ensures Resumes(tester, Add(s, q, i), k) == Resumes(tester, s, k)
  {
    Asked(s.asked, q, k);
  }

  lemma AddLast(tester: Tester, s: Pulled, q: TreeMutation, i: nat)
    requires |s.asked| == |s.nodes|
    ensures var all := Add(s, q, i);
      && |all.asked| == |all.nodes| == |s.asked| + 1
      && all.asked[|s.asked|] == q && all.nodes[|s.asked|] == i && all.asked[..|s.asked|] == s.asked
      && Resumes(tester, all, |s.asked|) == 1 + if tester(|s.asked|, q) then |q.prefix| else i
  {
    AskedLast(s.asked, q);
  }

  lemma PullRefusedNext(tester: Tester, s: Pulled, q: TreeMutation, i: nat, p: nat, n: nat)
    requires |s.asked| == |s.nodes|
    ensures PullRefused(tester, s, p, n) ==> PullRefused(tester, Add(s, q, i), p, n)
    ensures !tester(|s.asked|, q) && |q.prefix| == p && i == n ==> PullRefused(tester, Add(s, q, i), p, n)
  {
    var all := Add(s, q, i);
    AddLast(tester, s, q, i);
    if k :| 0 <= k < |s.asked| && !tester(k, s.asked[k]) && |s.asked[k].prefix| == p && s.nodes[k] == n {
      AddKeeps(tester, s, q, i, k);
      assert !tester(k, all.asked[k]) && |all.asked[k].prefix| == p && all.nodes[k] == n;
    }
  }

  lemma PullKept(g: Grammar, tester: Tester, s: Pulled, q: TreeMutation, i: nat, rules0: seq<RuleId>, lo: nat, hi: nat, k: nat)
    requires |s.asked| == |s.nodes| && k < |s.asked| && PullAt(g, tester, s, rules0, lo, hi, k)
    ensures |Add(s, q, i).asked| == |Add(s, q, i).nodes| && PullAt(g, tester, Add(s, q, i), rules0, lo, hi, k)
  {
    hide AsksPull, Replayed, Resumes;
    AddKeeps(tester, s, q, i, k);
    if k > 0 { AddKeeps(tester, s, q, i, k - 1); }
  }

  lemma PullLast(g: Grammar, tester: Tester, s: Pulled, q: TreeMutation, i: nat, rules0: seq<RuleId>, rules: seq<RuleId>,
                 lo: nat, hi: nat)
    requires ResumedBy(tester, s, lo, i) && i < hi
    requires rules == Replayed(tester, s.asked, rules0) && AsksPull(g, rules, i, q)
    ensures var all := Add(s, q, i);
      && |all.asked| == |all.nodes| == |s.asked| + 1
      && PullAt(g, tester, all, rules0, lo, hi, |s.asked|)
      && ResumedBy(tester, all, lo, 1 + if tester(|s.asked|, q) then |q.prefix| else i)
  {
    hide AsksPull, Replayed, Resumes;
    AddLast(tester, s, q, i);
    if s.asked != [] { AddKeeps(tester, s, q, i, |s.asked| - 1); }
  }

  lemma PullsNext(g: Grammar, tester: Tester, s: Pulled, q: TreeMutation, rules0: seq<RuleId>, rules: seq<RuleId>,
                  lo: nat, hi: nat, i: nat)
    requires AsksPulls(g, tester, s, rules0, lo, hi) && ResumedBy(tester, s, lo, i) && i < hi
    requires rules == Replayed(tester, s.asked, rules0) && IsDerivation(g, rules) && Pulls(g, TreeOf(g, rules), i, q)
    ensures AsksPulls(g, tester, Add(s, q, i), rules0, lo, hi)
    ensures ResumedBy(tester, Add(s, q, i), lo, 1 + if tester(|s.asked|, q) then |q.prefix| else i)
  {
    assert AsksPull(g, rules, i, q);
    hide PullAt, Replayed, Pulls, Add, ResumedBy, AsksPull;
    PullLast(g, tester, s, q, i, rules0, rules, lo, hi);
    var all := Add(s, q, i);
    forall k | 0 <= k < |all.asked| ensures PullAt(g, tester, all, rules0, lo, hi, k) {
      if k < |s.asked| { PullKept(g, tester, s, q, i, rules0, lo, hi, k); }
    }
  }

  lemma NearestUnique(g: Grammar, f: Forest, p: nat, p': nat, n: nat)
    requires NearestSame(g, f, p, n) && NearestSame(g, f, p', n)
    ensures p == p'
  {
  }

  /** After a refusal. */
  lemma HandledRefused(g: Grammar, f: Forest, tester: Tester, s: Pulled, q: TreeMutation, p: nat, i: nat, lo: nat)
    requires |s.asked| == |s.nodes| && NearestSame(g, f, p, i) && !tester(|s.asked|, q) && |q.prefix| == p
    ensures HandledFrom(g, f, tester, s, lo, i) ==> HandledFrom(g, f, tester, Add(s, q, i), lo, i + 1)
  {
    hide NearestSame, PullRefused, Add;
    forall n | HandledFrom(g, f, tester, s, lo, i) && lo <= n < i + 1 ensures Handled(g, f, tester, Add(s, q, i), n) {
      forall p' | NearestSame(g, f, p', n) ensures PullRefused(tester, Add(s, q, i), p', n) {
        PullRefusedNext(tester, s, q, i, p', n);
        if n == i {
          NearestUnique(g, f, p, p', i);
        } else {
          assert Handled(g, f, tester, s, n);
        }
      }
    }
  }

  /** Up to the substituted node, which keeps its nonterminal, ancestors stay the same. */
  lemma SameAncestors(g: Grammar, f: Forest, p: nat, t: Derivation, nt: NTermId, a: nat, n: nat)
    requires n <= p < Count(f) && t.rule < |g| && NtAt(g, f, p) == Some(g[t.rule].nonterm)
    ensures NtAt(g, Replace(f, p, t), n) == NtAt(g, f, n)
    ensures AncestorOf(g, Replace(f, p, t), nt, a, n) == AncestorOf(g, f, nt, a, n)
  {
    ReplaceUndo(f, p, t);
    if n < p { ReplaceBelow(f, p, t, n); }
    if a < n {
      ReplaceBelow(f, p, t, a);
      ReplaceInside(f, p, t, a, n);
    }
  }

  /** Up to the substituted node nothing repeats anew. */
  lemma SameBelow(g: Grammar, f: Forest, p: nat, t: Derivation, n: nat)
    requires n <= p < Count(f) && t.rule < |g| && NtAt(g, f, p) == Some(g[t.rule].nonterm)
    ensures Repeats(g, Replace(f, p, t), n) ==> Repeats(g, f, n)
  {
    if Repeats(g, Replace(f, p, t), n) {
      var nt := NtAt(g, Replace(f, p, t), n).value;
      var a :| AncestorOf(g, Replace(f, p, t), nt, a, n);
      SameAncestors(g, f, p, t, nt, a, n);
    }
  }

  lemma SameNearest(g: Grammar, f: Forest, p: nat, t: Derivation, a: nat, n: nat)
    requires n <= p < Count(f) && t.rule < |g| && NtAt(g, f, p) == Some(g[t.rule].nonterm)
    requires NearestSame(g, Replace(f, p, t), a, n)
    ensures NtAt(g, Replace(f, p, t), n) == NtAt(g, f, n) && NearestSame(g, f, a, n)
  {
    var nt := NtAt(g, Replace(f, p, t), n).value;
    SameAncestors(g, f, p, t, nt, a, n);
    hide AncestorOf, Replace;
    forall b: nat | a < b ensures !AncestorOf(g, f, nt, b, n) {
      SameAncestors(g, f, p, t, nt, b, n);
    }
  }

  /**
   After an acceptance: pulling the subtree at `i` up to its ancestor `p` leaves nothing to do at
   or before `p`, so going back there misses nothing.
   */
  lemma CleanStep(g: Grammar, f: Forest, tester: Tester, s: Pulled, q: TreeMutation, p: nat, i: nat, lo: nat)
    requires |s.asked| == |s.nodes| && NearestSame(g, f, p, i) && i < Count(f) && SubAt(f, i).rule < |g|
    ensures HandledFrom(g, f, tester, s, lo, i) ==>
      HandledFrom(g, Replace(f, p, SubAt(f, i)), tester, Add(s, q, i), lo, p + 1)
  {
    NearestFacts(g, f, p, i);
    var t := SubAt(f, i);
    hide NearestSame, PullRefused, Replace, Add;
    forall n | HandledFrom(g, f, tester, s, lo, i) && lo <= n < p + 1
      ensures Handled(g, Replace(f, p, t), tester, Add(s, q, i), n)
    {
      assert Handled(g, f, tester, s, n);
      forall a | NearestSame(g, Replace(f, p, t), a, n) ensures PullRefused(tester, Add(s, q, i), a, n) {
        SameNearest(g, f, p, t, a, n);
        PullRefusedNext(tester, s, q, i, a, n);
      }
    }
  }

  /** A question about node `i`: the search goes on behind `i`, or behind the ancestor if it was accepted. */
  lemma ReducedAsk(g: Grammar, tester: Tester, s: Pulled, rules0: seq<RuleId>, lo: nat, hi: nat, i: nat,
                   rules: seq<RuleId>, f: Forest, root: NTermId, p: nat, q: TreeMutation, rules': seq<RuleId>, next: nat)
    requires ReducedTo(g, tester, s, rules0, lo, hi, i, rules) && i < hi
    requires f == TreeOf(g, rules) && Derives(g, f, [root]) && Pre(f) == rules
    requires NearestSame(g, f, p, i) && i < Count(f) && Substitutes(g, f, p, SubAt(f, i), q)
    requires rules' == if tester(|s.asked|, q) then q.Whole() else rules
    requires next == 1 + if tester(|s.asked|, q) then p else i
    ensures ReducedTo(g, tester, Add(s, q, i), rules0, lo, hi, next, rules')
  {
    PullFacts(g, f, root, p, i, q);
    assert |rules| == Count(f);
    hide *;
    ReducedParts(g, tester, s, rules0, lo, hi, i, rules);
    AddAsked(s, q, i);
    ReplayedNext(tester, s.asked, q, rules0);
    PullsNext(g, tester, s, q, rules0, rules, lo, hi, i);
    SmallerNext(tester, s.asked, q, rules0, rules, rules');
    if tester(|s.asked|, q) {
      CleanStep(g, f, tester, s, q, p, i, lo);
      CleanStep(g, f, tester, s, q, p, i, 0);
    } else {
      HandledRefused(g, f, tester, s, q, p, i, lo);
      HandledRefused(g, f, tester, s, q, p, i, 0);
    }
    ReducedBack(g, tester, Add(s, q, i), rules0, lo, hi, next, rules');
  }

  lemma AddAsked(s: Pulled, q: TreeMutation, i: nat)
    ensures Add(s, q, i).asked == s.asked + [q]
  {
  }

  lemma PullFacts(g: Grammar, f: Forest, root: NTermId, p: nat, i: nat, q: TreeMutation)
    requires Derives(g, f, [root]) && NearestSame(g, f, p, i) && i < Count(f) && Substitutes(g, f, p, SubAt(f, i), q)
    ensures |q.prefix| == p && Pulls(g, f, i, q) && SubAt(f, i).rule < |g|
    ensures IsDerivation(g, q.Whole()) && TreeOf(g, q.Whole()) == Replace(f, p, SubAt(f, i))
    ensures |q.Whole()| < Count(f)
  {
    NearestFacts(g, f, p, i);
    SubAtDerives(g, f, [root], i);
    SubstitutedSize(g, f, p, SubAt(f, i), q);
  }

  lemma ReducedParts(g: Grammar, tester: Tester, s: Pulled, rules0: seq<RuleId>, lo: nat, hi: nat, i: nat, rules: seq<RuleId>)
    requires ReducedTo(g, tester, s, rules0, lo, hi, i, rules)
    ensures IsDerivation(g, rules0) && IsDerivation(g, rules) && rules == Replayed(tester, s.asked, rules0)
    ensures |s.asked| == |s.nodes| && AsksPulls(g, tester, s, rules0, lo, hi) && ResumedBy(tester, s, lo, i)
    ensures SameOrSmaller(tester, s.asked, rules0, rules)
    ensures HandledFrom(g, TreeOf(g, rules), tester, s, lo, i)
    ensures CleanBelow(g, TreeOf(g, rules0), lo) ==> HandledFrom(g, TreeOf(g, rules), tester, s, 0, i)
  {
  }

  lemma ReducedBack(g: Grammar, tester: Tester, s: Pulled, rules0: seq<RuleId>, lo: nat, hi: nat, i: nat, rules: seq<RuleId>)
    requires IsDerivation(g, rules0) && IsDerivation(g, rules) && rules == Replayed(tester, s.asked, rules0)
    requires AsksPulls(g, tester, s, rules0, lo, hi) && ResumedBy(tester, s, lo, i)
    requires SameOrSmaller(tester, s.asked, rules0, rules)
    requires HandledFrom(g, TreeOf(g, rules), tester, s, lo, i)
    requires CleanBelow(g, TreeOf(g, rules0), lo) ==> HandledFrom(g, TreeOf(g, rules), tester, s, 0, i)
    ensures ReducedTo(g, tester, s, rules0, lo, hi, i, rules)
  {
  }

  /** What the handled nodes mean under a tester that accepts everything. */
  lemma HandledMeans(g: Grammar, f: Forest, tester: Tester, s: Pulled, hi: nat)
    requires HandledFrom(g, f, tester, s, 0, hi)
    ensures AcceptsAll(tester) ==> CleanBelow(g, f, hi)
  {
    hide Handled, Repeats;
    forall n: nat | AcceptsAll(tester) && n < hi ensures !Repeats(g, f, n) {
      HandledClean(g, f, tester, s, n);
    }
  }

  lemma HandledClean(g: Grammar, f: Forest, tester: Tester, s: Pulled, n: nat)
    requires AcceptsAll(tester) && Handled(g, f, tester, s, n)
    ensures !Repeats(g, f, n)
  {
    hide PullRefused;
    if Repeats(g, f, n) {
      var p := RepeatsNearest(g, f, n);
      NothingRefused(tester, s, p, n);
    }
  }

  lemma NothingRefused(tester: Tester, s: Pulled, p: nat, n: nat)
    requires AcceptsAll(tester)
    ensures !PullRefused(tester, s, p, n)
  {
  }

  lemma RepeatsNearest(g: Grammar, f: Forest, n: nat) returns (p: nat)
    requires Repeats(g, f, n)
    ensures NearestSame(g, f, p, n)
  {
    var nt := NtAt(g, f, n).value;
    RepeatsAnc(g, f, nt, n);
    p := AncIn(g, f, nt, 0, None, n).value;
  }

  // ------------------------------------------------------------------- both in turn

  /** What one pass of both minimizations asked, and how far each of them came. */
  datatype MinPass = MinPass(asked: seq<TreeMutation>, reached: nat, middle: seq<RuleId>, pulled: Pulled, reachedRec: nat)

  /**
   One pass over the nodes `start..end` has led from `rules0` to `rules`: the subtree minimization
   to `pass.middle`, the recursive one from there. It is done if both saw the end of the tree.
   */
  ghost predicate MinimizedBy(g: Grammar, m: Sizing, testerMin: Tester, testerMinRec: Tester, rules0: seq<RuleId>,
                              start: nat, end: nat, pass: MinPass, done: bool, rules: seq<RuleId>)
  {
    && MinimizedTo(g, m, testerMin, pass.asked, rules0, start, pass.reached, pass.middle)
    && ReducedTo(g, testerMinRec, pass.pulled, pass.middle, start, if start < end then end else |pass.middle|,
                 pass.reachedRec, rules)
    && (pass.reached == end || |pass.middle| <= pass.reached)
    && (pass.reachedRec == end || |rules| <= pass.reachedRec)
    && (done ==> |pass.middle| <= pass.reached && |rules| <= pass.reachedRec)
    && (start < end ==> (done <==> |pass.middle| < end))
  }

  /** The tree is the old one or a smaller one that a tester accepted. */
  lemma PassAccepted(g: Grammar, m: Sizing, testerMin: Tester, testerMinRec: Tester, rules0: seq<RuleId>,
                     start: nat, end: nat, pass: MinPass, done: bool, rules: seq<RuleId>)
    requires MinimizedBy(g, m, testerMin, testerMinRec, rules0, start, end, pass, done, rules)
    ensures |rules| <= |pass.middle| <= |rules0|
    ensures rules == rules0 ||
      (|rules| < |rules0| && (Accepted(testerMin, pass.asked, rules) || Accepted(testerMinRec, pass.pulled.asked, rules)))
  {
    hide Accepted, AsksInOrder, TriedFrom, NothingNew, AsksPulls, ResumedBy, HandledFrom, Replayed;
  }

  /** If nothing before `start` repeats, a pass under an accepting tester leaves nothing that repeats before `end`. */
  lemma PassClean(g: Grammar, m: Sizing, testerMin: Tester, testerMinRec: Tester, rules0: seq<RuleId>,
                  start: nat, end: nat, pass: MinPass, done: bool, rules: seq<RuleId>)
    requires MinimizedBy(g, m, testerMin, testerMinRec, rules0, start, end, pass, done, rules)
    requires AcceptsAll(testerMinRec) && IsDerivation(g, rules0) && CleanBelow(g, TreeOf(g, rules0), start)
    ensures IsDerivation(g, rules) && CleanBelow(g, TreeOf(g, rules), end)
    ensures done ==> NoRepeats(g, TreeOf(g, rules))
  {
    hide Accepted, AsksInOrder, TriedFrom, NothingNew, AsksPulls, ResumedBy, HandledFrom, Replayed, CleanBelow, NoRepeats;
    CleanBefore(g, TreeOf(g, rules0), TreeOf(g, pass.middle), start);
    HandledMeans(g, TreeOf(g, rules), testerMinRec, pass.pulled, pass.reachedRec);
    if |rules| <= pass.reachedRec { CleanPast(g, rules, pass.reachedRec, end); }
  }

  /** Once the cursor has passed every node, no nonterminal repeats on any path. */
  lemma CleanPast(g: Grammar, rules: seq<RuleId>, i: nat, k: nat)
    requires IsDerivation(g, rules) && CleanBelow(g, TreeOf(g, rules), i) && |rules| <= i
    ensures NoRepeats(g, TreeOf(g, rules)) && CleanBelow(g, TreeOf(g, rules), k)
  {
    TreeShape(g, rules);
    hide Repeats;
    forall n ensures !Repeats(g, TreeOf(g, rules), n) {
      if Repeats(g, TreeOf(g, rules), n) { RepeatsInRange(g, TreeOf(g, rules), n); }
    }
  }

  /** A pass with its testers, which may answer differently in every pass. */
  datatype Window = Window(testerMin: Tester, testerMinRec: Tester, rules0: seq<RuleId>, start: nat, pass: MinPass,
                           done: bool, rules: seq<RuleId>)

  /** The passes over one item, window by window, until one is done. */
  ghost predicate WindowRun(g: Grammar, m: Sizing, stride: nat, run: seq<Window>) {
    && (forall k :: 0 <= k < |run| ==> InWindow(g, m, stride, run[k]))
    && (forall k :: 0 < k < |run| ==> Follows(stride, run[k - 1], run[k]))
  }

  ghost predicate InWindow(g: Grammar, m: Sizing, stride: nat, w: Window) {
    MinimizedBy(g, m, w.testerMin, w.testerMinRec, w.rules0, w.start, w.start + stride, w.pass, w.done, w.rules)
  }

  predicate Follows(stride: nat, w: Window, w': Window) {
    !w.done && w'.start == w.start + stride && w'.rules0 == w.rules
  }

  /** However many windows it took, an item whose recursive testers accept everything ends without a recursion. */
  lemma {:induction false} WindowsClean(g: Grammar, m: Sizing, stride: nat, run: seq<Window>, k: nat)
    requires WindowRun(g, m, stride, run) && k < |run| && run[0].start == 0
    requires forall j :: 0 <= j <= k ==> AcceptsAll(run[j].testerMinRec)
    ensures IsDerivation(g, run[k].rules) && CleanBelow(g, TreeOf(g, run[k].rules), run[k].start + stride)
    ensures run[k].done ==> NoRepeats(g, TreeOf(g, run[k].rules))
  {
    hide AcceptsAll, NoRepeats, MinimizedBy, IsDerivation;
    var w := run[k];
    assert InWindow(g, m, stride, w);
    WindowStart(g, m, stride, w);
    if k > 0 {
      WindowsClean(g, m, stride, run, k - 1);
      assert Follows(stride, run[k - 1], run[k]);
    }
    PassClean(g, m, w.testerMin, w.testerMinRec, w.rules0, w.start, w.start + stride, w.pass, w.done, w.rules);
  }

  lemma WindowStart(g: Grammar, m: Sizing, stride: nat, w: Window)
    requires InWindow(g, m, stride, w)
    ensures IsDerivation(g, w.rules0)
  {
  }
}
