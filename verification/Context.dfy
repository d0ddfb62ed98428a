/**
 The grammar context: the rule table, the rules of each nonterminal, and the analyses that
 prepare it for generation.
 */
module Contexts {
  import opened Grammars
  import opened Arithmetic
  import opened MinimalSizes
  import opened OptionCounts

  /** `rs` lists exactly the rules that define `nt`, each once. */
  ghost predicate Lists(g: Grammar, nt: NTermId, rs: seq<RuleId>) {
    && (forall k :: 0 <= k < |rs| ==> rs[k] < |g| && g[rs[k]].nonterm == nt)
    && (forall j, k :: 0 <= j < k < |rs| ==> rs[j] != rs[k])
    && (forall r: RuleId :: r < |g| && g[r].nonterm == nt ==> r in rs)
  }

  /** Each nonterminal with rules is mapped to the list of them. */
  ghost predicate IndexOf(g: Grammar, index: map<NTermId, seq<RuleId>>) {
    && (forall r: RuleId :: r < |g| ==> g[r].nonterm in index)
    && (forall nt :: nt in index ==> index[nt] != [] && Lists(g, nt, index[nt]))
  }

  lemma ListsAdd(g: Grammar, nt: NTermId, rs: seq<RuleId>, rule: Rule)
    requires Lists(g, nt, rs)
    ensures Lists(g + [rule], nt, if rule.nonterm == nt then rs + [|g|] else rs)
  {
    var g', rs' := g + [rule], if rule.nonterm == nt then rs + [|g|] else rs;
    forall r: RuleId | r < |g'| && g'[r].nonterm == nt ensures r in rs' {
      if r == |g| {
        assert rs'[|rs|] == r;
      } else {
        assert r in rs;
      }
    }
  }

  lemma IndexAdd(g: Grammar, index: map<NTermId, seq<RuleId>>, rule: Rule)
    requires IndexOf(g, index)
    ensures var nt := rule.nonterm;
      IndexOf(g + [rule], index[nt := (if nt in index then index[nt] else []) + [|g|]])
  {
    var nt := rule.nonterm;
    if nt !in index { ListsNone(g, index, nt); }
    hide Lists;
    ListsAdd(g, nt, if nt in index then index[nt] else [], rule);
    forall n | n in index ensures n != nt ==> Lists(g + [rule], n, index[n]) {
      ListsAdd(g, n, index[n], rule);
    }
  }

  lemma ListsNone(g: Grammar, index: map<NTermId, seq<RuleId>>, nt: NTermId)
    requires IndexOf(g, index) && nt !in index
    ensures Lists(g, nt, [])
  {
  }

  /** Shorter rules come first. */
  ghost predicate SortedBy(rs: seq<RuleId>, weight: map<RuleId, nat>) {
    && (forall k :: 0 <= k < |rs| ==> rs[k] in weight)
    && (forall j, k :: 0 <= j < k < |rs| ==> weight[rs[j]] <= weight[rs[k]])
  }

  class Context {
    var rules: Grammar
    var ntsToRules: map<NTermId, seq<RuleId>>
    var rulesToMinSize: map<RuleId, nat>
    var ntsToMinSize: map<NTermId, nat>
    var rulesToNumOptions: map<RuleId, nat>
    var ntsToNumOptions: map<NTermId, nat>
    var maxLen: nat

    constructor ()
      ensures rules == [] && ntsToRules == map[] && rulesToMinSize == map[] && ntsToMinSize == map[]
      ensures rulesToNumOptions == map[] && ntsToNumOptions == map[] && maxLen == 0
    {
      rules, ntsToRules, maxLen := [], map[], 0;
      rulesToMinSize, ntsToMinSize := map[], map[];
      rulesToNumOptions, ntsToNumOptions := map[], map[];
    }

    /** Registers an already tokenized rule under the next rule id. */
    method AddRule(nonterm: NTermId, children: seq<Symbol>) returns (rid: RuleId)
      requires IndexOf(rules, ntsToRules)
      modifies this`rules, this`ntsToRules
      ensures IndexOf(rules, ntsToRules)
      ensures rid == |old(rules)| && rules == old(rules) + [Rule(nonterm, children)]
      ensures ntsToRules == old(ntsToRules)[nonterm :=
        (if nonterm in old(ntsToRules) then old(ntsToRules)[nonterm] else []) + [rid]]
    {
      IndexAdd(rules, ntsToRules, Rule(nonterm, children));
      rid := |rules|;
      rules := rules + [Rule(nonterm, children)];
      if nonterm !in ntsToRules {
        ntsToRules := ntsToRules[nonterm := []];
      }
      ntsToRules := ntsToRules[nonterm := ntsToRules[nonterm] + [rid]];
      assert ntsToRules == old(ntsToRules)[nonterm :=
        (if nonterm in old(ntsToRules) then old(ntsToRules)[nonterm] else []) + [rid]];
    }

    // ---------------------------------------------------------------- minimum length

    /** `None` when some nonterminal of the rule has no value yet. */
    method CalcMinLenForRule(r: RuleId) returns (res: Option<nat>)
      requires r < |rules|
      ensures res == if Known(Nonterms(rules, r), ntsToMinSize)
                     then Some(1 + Sum(Nonterms(rules, r), ntsToMinSize)) else None
    {
      var nts := Nonterms(rules, r);
      var size := 1;
      var i := 0;
      while i < |nts|
        invariant 0 <= i <= |nts|
        invariant forall k :: 0 <= k < i ==> nts[k] in ntsToMinSize
        invariant Known(nts, ntsToMinSize) ==> size + Sum(nts[i..], ntsToMinSize) == 1 + Sum(nts, ntsToMinSize)
      {
        if nts[i] !in ntsToMinSize {
          return None;
        }
        assert nts[i..][1..] == nts[i + 1..];
        size := size + ntsToMinSize[nts[i]];
        i := i + 1;
      }
      return Some(size);
    }

    /** The values, the rules' values and the flag, as one value. */
    ghost function Values(changed: bool): Values
      reads this
    {
      MinimalSizes.Values(ntsToMinSize, rulesToMinSize, changed)
    }

    /** Evaluates one rule, if the sizes of its nonterminals are known. */
    method EvalRule(rule: RuleId, changed: bool) returns (known: bool, changed': bool)
      requires rule < |rules|
      modifies this`rulesToMinSize, this`ntsToMinSize
      ensures known <==> Known(Nonterms(rules, rule), old(ntsToMinSize))
      ensures Values(changed') == if known then Eval(rules, rule, old(Values(changed))) else old(Values(changed))
    {
      hide Known, Sum;
      changed' := changed;
      var min := CalcMinLenForRule(rule);
      if min.None? {
        return false, changed;
      }
      var nt := rules[rule].nonterm;
      if nt !in ntsToMinSize {
        ntsToMinSize := ntsToMinSize[nt := min.value];
      }
      if ntsToMinSize[nt] > min.value {
        ntsToMinSize := ntsToMinSize[nt := min.value];
        changed' := true;
      }
      rulesToMinSize := rulesToMinSize[rule := min.value];
      return true, changed';
    }

    /**
     The `remove_if` of `CalcMinLen`: evaluates each unknown rule in turn, against values
     that earlier rules of the same sweep may just have improved.
     */
    method Sweep(unknown: seq<RuleId>, changed: bool) returns (kept: seq<RuleId>, changed': bool)
      requires forall r :: r in unknown ==> r < |rules|
      requires Sound(rules, ntsToMinSize)
      modifies this`rulesToMinSize, this`ntsToMinSize
      ensures Swept(rules, old(Values(changed)), unknown, Values(changed'), kept)
    {
      kept, changed' := [], changed;
      SweptNone(rules, Values(changed));
      hide Swept, Sound, Known, Sum, Eval;
      var i := 0;
      while i < |unknown|
        invariant 0 <= i <= |unknown|
        invariant Swept(rules, old(Values(changed)), unknown[..i], Values(changed'), kept)
      {
        var rule, next := unknown[i], i + 1;
        ghost var v := Values(changed');
        assert unknown[..next] == unknown[..i] + [rule];
        assert rule in unknown;
        var known;
        known, changed' := EvalRule(rule, changed');
        if known {
          SweptEval(rules, old(Values(changed)), unknown[..i], v, kept, rule);
        } else {
          SweptKeep(rules, old(Values(changed)), unknown[..i], v, kept, rule);
          kept := kept + [rule];
        }
        i := next;
      }
      assert unknown[..i] == unknown;
    }

    /**
     Sorts each nonterminal's rules by minimum size. `std::sort` only promises some sorted
     permutation.
     */
    method CalcRuleOrder()
      requires forall nt, k :: nt in ntsToRules && 0 <= k < |ntsToRules[nt]| ==> ntsToRules[nt][k] in rulesToMinSize
      modifies this`ntsToRules
      ensures ntsToRules.Keys == old(ntsToRules).Keys
      ensures forall nt :: nt in ntsToRules ==>
        multiset(ntsToRules[nt]) == multiset(old(ntsToRules)[nt]) && SortedBy(ntsToRules[nt], rulesToMinSize)
    {
      var todo := ntsToRules.Keys;
      while todo != {}
        invariant todo <= ntsToRules.Keys == old(ntsToRules).Keys
        invariant forall nt :: nt in todo ==> ntsToRules[nt] == old(ntsToRules)[nt]
        invariant forall nt :: nt in ntsToRules && nt !in todo ==>
          multiset(ntsToRules[nt]) == multiset(old(ntsToRules)[nt]) && SortedBy(ntsToRules[nt], rulesToMinSize)
        decreases todo
      {
        var nt :| nt in todo;
        var sorted := SortRules(ntsToRules[nt], rulesToMinSize);
        ntsToRules := ntsToRules[nt := sorted];
        todo := todo - {nt};
      }
    }

    /**
     Iterates to the minimum sizes. `ok` is false for the "Broken grammar" exception, which
     is raised exactly when some rule uses a nonterminal without a finite derivation.
     */
    method CalcMinLen() returns (ok: bool)
      requires IndexOf(rules, ntsToRules) && Sound(rules, ntsToMinSize)
      modifies this`rulesToMinSize, this`ntsToMinSize, this`ntsToRules
      ensures ok <==> !Broken(rules)
      ensures ok ==> Exact(rules, ntsToMinSize, rulesToMinSize)
      ensures IndexOf(rules, ntsToRules) && ntsToRules.Keys == old(ntsToRules).Keys
      ensures ok ==> forall nt :: nt in ntsToRules ==> SortedBy(ntsToRules[nt], rulesToMinSize)
      ensures !ok ==> Sound(rules, ntsToMinSize) && ntsToRules == old(ntsToRules)
    {
      hide Exact, Broken, IndexOf, Lists, Known, Sum, Settled, Swept, SortedBy;
      var somethingChanged := true;
      while somethingChanged
        invariant Sound(rules, ntsToMinSize) && ntsToRules == old(ntsToRules)
        invariant !somethingChanged ==> Exact(rules, ntsToMinSize, rulesToMinSize) && !Broken(rules)
        decreases Missing(rules, ntsToMinSize, |rules|), Total(rules, ntsToMinSize, |rules|), somethingChanged
      {
        var unknown: seq<RuleId> := seq(|rules|, i => i);
        somethingChanged := false;
        ghost var m0 := ntsToMinSize;
        PassBegins(rules, Values(somethingChanged), unknown);
        while |unknown| > 0
          invariant InPass(rules, m0, unknown, Values(somethingChanged)) && ntsToRules == old(ntsToRules)
          decreases |unknown|
        {
          var lastLen := |unknown|;
          ghost var before, v := unknown, Values(somethingChanged);
          unknown, somethingChanged := Sweep(unknown, somethingChanged);
          PassSweeps(rules, m0, before, v, Values(somethingChanged), unknown);
          if lastLen == |unknown| {
            return false;
          }
        }
        PassEnds(rules, m0, Values(somethingChanged));
      }
      assert forall nt, k :: nt in ntsToRules && 0 <= k < |ntsToRules[nt]| ==> ntsToRules[nt][k] in rulesToMinSize by {
        RulesHaveSizes(rules, ntsToRules, ntsToMinSize, rulesToMinSize);
      }
      ghost var index := ntsToRules;
      CalcRuleOrder();
      IndexPermuted(rules, index, ntsToRules);
      return true;
    }

    // --------------------------------------------------------------- number of options

    /** Multiplies until the product overflows, then saturates and stops. */
    method CalcNumOptionsForRule(r: RuleId) returns (res: nat)
      requires r < |rules| && Positive(ntsToNumOptions)
      ensures res == Saturated(Nonterms(rules, r), ntsToNumOptions)
    {
      var nts := Nonterms(rules, r);
      res := 1;
      var i := 0;
      while i < |nts|
        invariant 0 <= i <= |nts| && res <= SIZE_MAX
        invariant res * Product(nts[i..], ntsToNumOptions) == Product(nts, ntsToNumOptions)
      {
        var v := if nts[i] !in ntsToNumOptions then 1 else ntsToNumOptions[nts[i]];
        assert nts[i..][1..] == nts[i + 1..];
        MulAssoc(res, v, Product(nts[i + 1..], ntsToNumOptions));
        if res * v > SIZE_MAX {
          OverflowStays(res, v, nts[i + 1..], ntsToNumOptions);
          return SIZE_MAX;
        }
        res := res * v;
        i := i + 1;
      }
    }

    /** The first loop of `CalcNumOptions`: old entries stay, others start from the rule count. */
    method SeedNumOptions()
      requires IndexOf(rules, ntsToRules) && |rules| <= SIZE_MAX && Positive(ntsToNumOptions)
      modifies this`ntsToNumOptions
      ensures ntsToNumOptions.Keys == old(ntsToNumOptions).Keys + ntsToRules.Keys
      ensures Positive(ntsToNumOptions)
      ensures forall nt :: nt in ntsToNumOptions ==>
        ntsToNumOptions[nt] == if nt in old(ntsToNumOptions) then old(ntsToNumOptions)[nt] else |ntsToRules[nt]|
    {
      var todo := ntsToRules.Keys;
      while todo != {}
        invariant todo <= ntsToRules.Keys
        invariant ntsToNumOptions.Keys == old(ntsToNumOptions).Keys + (ntsToRules.Keys - todo)
        invariant Positive(ntsToNumOptions)
        invariant forall nt :: nt in ntsToNumOptions ==>
          ntsToNumOptions[nt] == if nt in old(ntsToNumOptions) then old(ntsToNumOptions)[nt] else |ntsToRules[nt]|
        decreases todo
      {
        var nt :| nt in todo;
        ListsBound(rules, nt, ntsToRules[nt]);
        if nt !in ntsToNumOptions {
          ntsToNumOptions := ntsToNumOptions[nt := |ntsToRules[nt]|];
        }
        todo := todo - {nt};
      }
    }

    /** One pass over the rules. (Every rule's nonterminal has an entry by now.) */
    method RaiseNumOptions(ghost seed: Counts) returns (changed: bool)
      requires Growing(rules, seed, ntsToNumOptions)
      modifies this`ntsToNumOptions, this`rulesToNumOptions
      ensures Growing(rules, seed, ntsToNumOptions)
      ensures changed ==> Room(rules, ntsToNumOptions, |rules|) < Room(rules, old(ntsToNumOptions), |rules|)
      ensures !changed ==> ntsToNumOptions == old(ntsToNumOptions)
      ensures !changed ==> forall r: RuleId :: r < |rules| ==> Counted(rules, rulesToNumOptions, ntsToNumOptions, r)
    {
      hide Growing, Saturated, Room;
      changed := false;
      var i := 0;
      while i < |rules|
        invariant 0 <= i <= |rules|
        invariant Growing(rules, seed, ntsToNumOptions)
        invariant changed ==> Room(rules, ntsToNumOptions, |rules|) < Room(rules, old(ntsToNumOptions), |rules|)
        invariant !changed ==> ntsToNumOptions == old(ntsToNumOptions)
        invariant !changed ==> forall r: RuleId :: r < i ==> Counted(rules, rulesToNumOptions, ntsToNumOptions, r)
      {
        GrowingFacts(rules, seed, ntsToNumOptions);
        var num := CalcNumOptionsForRule(i);
        var nt := rules[i].nonterm;
        if ntsToNumOptions[nt] < num {
          GrowingRaise(rules, seed, ntsToNumOptions, i);
          RaiseRoom(rules, ntsToNumOptions, nt, num, |rules|);
          ntsToNumOptions := ntsToNumOptions[nt := num];
          changed := true;
        }
        ghost var byRule := rulesToNumOptions;
        rulesToNumOptions := rulesToNumOptions[i := num];
        if !changed {
          assert Counted(rules, rulesToNumOptions, ntsToNumOptions, i);
          assert forall r: RuleId :: r < i && Counted(rules, byRule, ntsToNumOptions, r) ==>
            Counted(rules, rulesToNumOptions, ntsToNumOptions, r);
        }
        i := i + 1;
      }
    }

    /** Iterates to the least assignment above the seed the first loop leaves. */
    method CalcNumOptions() returns (ghost seed: Counts)
      requires IndexOf(rules, ntsToRules) && |rules| <= SIZE_MAX && Positive(ntsToNumOptions)
      modifies this`ntsToNumOptions, this`rulesToNumOptions
      ensures seed.Keys == old(ntsToNumOptions).Keys + ntsToRules.Keys
      ensures forall nt :: nt in seed ==>
        seed[nt] == if nt in old(ntsToNumOptions) then old(ntsToNumOptions)[nt] else |ntsToRules[nt]|
      ensures Growing(rules, seed, ntsToNumOptions) && IsLeast(rules, seed, ntsToNumOptions)
      ensures forall r: RuleId :: r < |rules| ==> Counted(rules, rulesToNumOptions, ntsToNumOptions, r)
    {
      SeedNumOptions();
      seed := ntsToNumOptions;
      GrowingBegins(rules, seed);
      hide Growing, Saturated, Room, IsLeast;
      var somethingChanged := true;
      while somethingChanged
        invariant Growing(rules, seed, ntsToNumOptions)
        invariant !somethingChanged ==>
          forall r: RuleId :: r < |rules| ==> Counted(rules, rulesToNumOptions, ntsToNumOptions, r)
        decreases Room(rules, ntsToNumOptions, |rules|), somethingChanged
      {
        somethingChanged := RaiseNumOptions(seed);
      }
      GrowingFacts(rules, seed, ntsToNumOptions);
      GrowingEnds(rules, seed, rulesToNumOptions, ntsToNumOptions);
    }

    // ---------------------------------------------------------------------- selection

    /** What `Initialize` establishes and everything below relies on. */
    ghost predicate Ready()
      reads this
    {
      && IndexOf(rules, ntsToRules)
      && Exact(rules, ntsToMinSize, rulesToMinSize)
      && (forall nt :: nt in ntsToRules ==> SortedBy(ntsToRules[nt], rulesToMinSize) && nt in ntsToNumOptions)
      && (forall r: RuleId :: r < |rules| ==> r in rulesToNumOptions)
    }

    /**
     Prepares a context for generation; fails exactly on a broken grammar. The minima are exact
     and the options are the least ones above `seed`.
     */
    method Initialize(maxLen: nat) returns (ok: bool, ghost seed: Counts)
      requires IndexOf(rules, ntsToRules) && Sound(rules, ntsToMinSize)
      requires |rules| <= SIZE_MAX && Positive(ntsToNumOptions)
      modifies this
      ensures rules == old(rules) && (ok <==> !Broken(rules))
      ensures ok ==> Ready() && this.maxLen == maxLen + 2
      ensures ok ==>
        && seed.Keys == old(ntsToNumOptions).Keys + ntsToRules.Keys
        && (forall nt :: nt in seed ==>
              seed[nt] == if nt in old(ntsToNumOptions) then old(ntsToNumOptions)[nt] else |ntsToRules[nt]|)
        && Covers(rules, seed) && IsLeast(rules, seed, ntsToNumOptions)
        && forall r: RuleId :: r < |rules| ==> Counted(rules, rulesToNumOptions, ntsToNumOptions, r)
    {
      hide *;
      ok := CalcMinLen();
      seed := map[];
      if ok {
        seed := CalcNumOptions();
        this.maxLen := maxLen + 2;
        GrowingFacts(rules, seed, ntsToNumOptions);
        BecomesReady(seed);
      }
    }

    lemma BecomesReady(seed: Counts)
      requires IndexOf(rules, ntsToRules) && Exact(rules, ntsToMinSize, rulesToMinSize)
      requires forall nt :: nt in ntsToRules ==> SortedBy(ntsToRules[nt], rulesToMinSize)
      requires Growing(rules, seed, ntsToNumOptions) && ntsToRules.Keys <= seed.Keys
      requires forall r: RuleId :: r < |rules| ==> Counted(rules, rulesToNumOptions, ntsToNumOptions, r)
      ensures Ready()
    {
      GrowingFacts(rules, seed, ntsToNumOptions);
      hide IndexOf, Exact, SortedBy, Growing;
      forall r: RuleId | r < |rules| ensures r in rulesToNumOptions {
        assert Counted(rules, rulesToNumOptions, ntsToNumOptions, r);
      }
    }

    /** The smallest of a few random lengths: between nothing and everything that remains. */
    method GetRandomLen(numberOfChildren: nat, totalRemainingLen: nat) returns (res: nat)
      ensures res <= totalRemainingLen
      ensures numberOfChildren <= 1 ==> res == totalRemainingLen
    {
      res := totalRemainingLen;
      var iters := numberOfChildren as int - 1;
      var i := 0;
      while i < iters
        invariant res <= totalRemainingLen
        invariant i == 0 || i <= iters
        invariant i == 0 ==> res == totalRemainingLen
      {
        var proposal := Random(0, totalRemainingLen + 1);
        if proposal < res {
          res := proposal;
        }
        i := i + 1;
      }
    }

    /**
     The rules of `nt` that fit `maxLen`, stopping at the first that does not; rules with a
     single option are dropped at random unless the percentage admits them all.
     */
    method GetApplicableRules(maxLen: nat, nt: NTermId, pIncludeShortRules: nat) returns (res: seq<RuleId>)
      requires Ready() && nt in ntsToRules
      ensures forall r :: r in res ==> r in ntsToRules[nt] && Fits(r, maxLen)
      ensures forall r :: r in ntsToRules[nt] && Fits(r, maxLen) ==> Varied(r) || pIncludeShortRules < 99 || r in res
      ensures forall r :: r in ntsToRules[nt] && Fits(r, maxLen) && Varied(r) ==> r in res
    {
      hide Ready, IndexOf, Exact, Lists, Settled, SortedBy;
      ListFacts(nt);
      var rs := ntsToRules[nt];
      res := [];
      var i := 0;
      while i < |rs| && rulesToMinSize[rs[i]] <= maxLen
        invariant 0 <= i <= |rs|
        invariant forall r :: r in res ==> r in rs && Fits(r, maxLen)
        invariant forall k :: 0 <= k < i && (Varied(rs[k]) || pIncludeShortRules >= 99) ==> rs[k] in res
      {
        var percent := Random(0, 99);
        if rulesToNumOptions[rs[i]] > 1 || percent <= pIncludeShortRules {
          res := res + [rs[i]];
          assert res[|res| - 1] == rs[i];
        }
        i := i + 1;
      }
      TooLong(rs, i, maxLen);
    }

    /** Rule `r` can derive something within `maxLen` nodes. */
    ghost predicate Fits(r: RuleId, maxLen: nat)
      reads this
    {
      r in rulesToMinSize && rulesToMinSize[r] <= maxLen
    }

    /** Rule `r` has more than one option. */
    ghost predicate Varied(r: RuleId)
      reads this
    {
      r in rulesToNumOptions && rulesToNumOptions[r] > 1
    }

    /** In a sorted list, everything from the first rule that does not fit on does not fit. */
    lemma TooLong(rs: seq<RuleId>, i: nat, maxLen: nat)
      requires SortedBy(rs, rulesToMinSize) && i <= |rs|
      requires i < |rs| ==> rulesToMinSize[rs[i]] > maxLen
      ensures forall k :: i <= k < |rs| ==> !Fits(rs[k], maxLen)
    {
    }

    lemma ListFacts(nt: NTermId)
      requires Ready() && nt in ntsToRules
      ensures SortedBy(ntsToRules[nt], rulesToMinSize)
      ensures forall r :: r in ntsToRules[nt] ==>
        r < |rules| && rules[r].nonterm == nt && r in rulesToMinSize && r in rulesToNumOptions
      ensures forall r: RuleId :: r < |rules| && rules[r].nonterm == nt ==> r in ntsToRules[nt]
    {
      assert Lists(rules, nt, ntsToRules[nt]);
    }

    /**
     Any rule of `nt` that fits `maxLen`. `None` stands for the "no way to derive" exception
     (and for an unknown nonterminal): it is raised exactly when the minimum does not fit.
     */
    method GetRandomRuleForNT(nt: NTermId, maxLen: nat) returns (r: Option<RuleId>)
      requires Ready()
      ensures r.Some? <==> nt in ntsToMinSize && ntsToMinSize[nt] <= maxLen
      ensures r.Some? ==> r.value < |rules| && rules[r.value].nonterm == nt && rulesToMinSize[r.value] <= maxLen
    {
      KnownHaveRules(rules, ntsToRules, ntsToMinSize, rulesToMinSize, nt);
      hide IndexOf, Exact, Lists, Settled, SortedBy;
      if nt !in ntsToNumOptions || nt !in ntsToRules {
        return None;
      }
      SomeFits(nt, maxLen);
      hide Fits, Varied;
      // every percentage the code computes here is zero
      var applicable := GetApplicableRules(maxLen, nt, 0);
      if |applicable| > 0 {
        var rid := Choose(applicable, nt, maxLen);
        return Some(rid);
      }
      applicable := GetApplicableRules(maxLen, nt, 100);
      if |applicable| > 0 {
        var rid := Choose(applicable, nt, maxLen);
        return Some(rid);
      }
      return None;
    }

    /** A random one of the applicable rules. */
    method Choose(applicable: seq<RuleId>, ghost nt: NTermId, ghost maxLen: nat) returns (r: RuleId)
      requires Ready() && nt in ntsToRules && |applicable| > 0
      requires forall q :: q in applicable ==> q in ntsToRules[nt] && Fits(q, maxLen)
      ensures r in applicable && r < |rules| && rules[r].nonterm == nt && r in rulesToMinSize && rulesToMinSize[r] <= maxLen
      ensures nt in ntsToMinSize && ntsToMinSize[nt] <= maxLen
    {
      ListFacts(nt);
      hide IndexOf, Exact, SortedBy;
      var k := Random(0, |applicable| - 1);
      r := applicable[k];
      assert r in applicable && r in ntsToRules[nt];
      SettledFits(rules, ntsToMinSize, rulesToMinSize, r);
    }

    /** If the minimum fits, a rule that attains it does. */
    lemma SomeFits(nt: NTermId, maxLen: nat)
      requires Ready() && nt in ntsToRules && nt in ntsToMinSize
      ensures ntsToMinSize[nt] <= maxLen ==> exists q :: q in ntsToRules[nt] && Fits(q, maxLen)
    {
      var q := SmallestRule(rules, ntsToMinSize, rulesToMinSize, nt);
      ListFacts(nt);
      assert q in ntsToRules[nt];
    }
  }

  /** A uniformly chosen number; only the range matters here. */
  method Random(lower: nat, upper: nat) returns (r: nat)
    requires lower <= upper
    ensures lower <= r <= upper
  {
    r :| lower <= r <= upper;
  }

  lemma SettledFits(g: Grammar, m: Sizing, byRule: map<RuleId, nat>, r: RuleId)
    requires Exact(g, m, byRule) && r < |g|
    ensures r in byRule && byRule[r] == 1 + SumOr(Nonterms(g, r), m)
    ensures Known(Nonterms(g, r), m) && g[r].nonterm in m && m[g[r].nonterm] <= byRule[r]
  {
    assert Settled(g, m, byRule, r);
  }

  function SumOr(nts: seq<NTermId>, m: Sizing): nat {
    if Known(nts, m) then Sum(nts, m) else 0
  }

  /** The nonterminals with a minimum are those with rules. */
  lemma KnownHaveRules(g: Grammar, index: map<NTermId, seq<RuleId>>, m: Sizing, byRule: map<RuleId, nat>, nt: NTermId)
    requires IndexOf(g, index) && Exact(g, m, byRule)
    ensures nt in index <==> nt in m
  {
    if nt in m {
      var t :| DerivesTree(g, t, nt);
    }
    if nt in index {
      assert Lists(g, nt, index[nt]);
      assert Settled(g, m, byRule, index[nt][0]);
    }
  }

  /** Some rule attains its nonterminal's minimum. */
  lemma SmallestRule(g: Grammar, m: Sizing, byRule: map<RuleId, nat>, nt: NTermId) returns (r: RuleId)
    requires Exact(g, m, byRule) && nt in m
    ensures r < |g| && g[r].nonterm == nt && r in byRule && byRule[r] <= m[nt]
  {
    assert IsMinSize(g, nt, m[nt]);
    var t :| DerivesTree(g, t, nt) && CountTree(t) == m[nt];
    r := t.rule;
    assert Settled(g, m, byRule, r) && IsMinSizeOfRule(g, r, byRule[r]);
  }

  lemma ListsBound(g: Grammar, nt: NTermId, rs: seq<RuleId>)
    requires Lists(g, nt, rs)
    ensures |rs| <= |g|
  {
    Distinct(rs, Ids(|g|));
  }

  /** The rule ids below `n`. */
  ghost function Ids(n: nat): (ids: set<RuleId>)
    ensures |ids| == n && forall r: RuleId :: r in ids <==> r < n
  {
    if n == 0 then {} else Ids(n - 1) + {n - 1}
  }

  lemma {:induction false} Distinct(rs: seq<RuleId>, ids: set<RuleId>)
    requires forall k :: 0 <= k < |rs| ==> rs[k] in ids
    requires forall j, k :: 0 <= j < k < |rs| ==> rs[j] != rs[k]
    ensures |rs| <= |ids|
  {
    if rs != [] { Distinct(rs[1..], ids - {rs[0]}); }
  }

  lemma RulesHaveSizes(g: Grammar, index: map<NTermId, seq<RuleId>>, m: Sizing, byRule: map<RuleId, nat>)
    requires IndexOf(g, index) && Exact(g, m, byRule)
    ensures forall nt, k :: nt in index && 0 <= k < |index[nt]| ==> index[nt][k] in byRule
  {
    forall nt, k | nt in index && 0 <= k < |index[nt]| ensures index[nt][k] in byRule {
      assert Lists(g, nt, index[nt]);
      assert Settled(g, m, byRule, index[nt][k]);
    }
  }

  lemma ListsPermuted(g: Grammar, nt: NTermId, a: seq<RuleId>, b: seq<RuleId>)
    requires Lists(g, nt, a) && multiset(a) == multiset(b)
    ensures Lists(g, nt, b)
  {
    forall r | r in b ensures r in a {
      assert r in multiset(b);
    }
    forall r | r in a ensures r in b {
      assert r in multiset(a);
    }
    forall k | 0 <= k < |b| ensures b[k] < |g| && g[b[k]].nonterm == nt {
      assert b[k] in a;
    }
    forall j, k | 0 <= j < k < |b| ensures b[j] != b[k] {
      if b[j] == b[k] {
        Twice(b, j, k);
        OnceEach(a, b[j]);
        assert false;
      }
    }
  }

  lemma Twice(b: seq<RuleId>, j: nat, k: nat)
    requires j < k < |b| && b[j] == b[k]
    ensures multiset(b)[b[j]] >= 2
  {
    assert b == b[..k] + b[k..];
    assert b[j] in b[..k] && b[k] in b[k..];
  }

  lemma {:induction false} OnceEach(a: seq<RuleId>, r: RuleId)
    requires forall j, k :: 0 <= j < k < |a| ==> a[j] != a[k]
    ensures multiset(a)[r] <= 1
  {
    if a != [] {
      assert a == [a[0]] + a[1..];
      OnceEach(a[1..], r);
    }
  }

  lemma IndexPermuted(g: Grammar, index: map<NTermId, seq<RuleId>>, index': map<NTermId, seq<RuleId>>)
    requires IndexOf(g, index) && index'.Keys == index.Keys
    requires forall nt :: nt in index' ==> multiset(index'[nt]) == multiset(index[nt])
    ensures IndexOf(g, index')
  {
    forall nt | nt in index' ensures index'[nt] != [] && Lists(g, nt, index'[nt]) {
      assert nt in index && |multiset(index'[nt])| == |multiset(index[nt])|;
      ListsPermuted(g, nt, index[nt], index'[nt]);
    }
    forall r: RuleId | r < |g| ensures g[r].nonterm in index' {
      assert g[r].nonterm in index;
    }
  }

  /** One sorted permutation of `rs`. */
  method SortRules(rs: seq<RuleId>, weight: map<RuleId, nat>) returns (sorted: seq<RuleId>)
    requires forall k :: 0 <= k < |rs| ==> rs[k] in weight
    ensures multiset(sorted) == multiset(rs) && SortedBy(sorted, weight)
  {
    sorted := [];
    var i := 0;
    while i < |rs|
      invariant 0 <= i <= |rs|
      invariant multiset(sorted) == multiset(rs[..i]) && SortedBy(sorted, weight)
    {
      var j := |sorted|;
      while j > 0 && weight[rs[i]] < weight[sorted[j - 1]]
        invariant 0 <= j <= |sorted|
        invariant forall k :: j <= k < |sorted| ==> weight[rs[i]] < weight[sorted[k]]
      {
        j := j - 1;
      }
      InsertSorted(sorted, j, rs[i], weight);
      assert rs[..i + 1] == rs[..i] + [rs[i]];
      sorted := sorted[..j] + [rs[i]] + sorted[j..];
      i := i + 1;
    }
    assert rs[..i] == rs;
  }

  lemma InsertSorted(s: seq<RuleId>, j: nat, x: RuleId, weight: map<RuleId, nat>)
    requires SortedBy(s, weight) && j <= |s| && x in weight
    requires j == 0 || weight[s[j - 1]] <= weight[x]
    requires forall k :: j <= k < |s| ==> weight[x] < weight[s[k]]
    ensures SortedBy(s[..j] + [x] + s[j..], weight)
    ensures multiset(s[..j] + [x] + s[j..]) == multiset(s) + multiset{x}
  {
    InsertMultiset(s, j, x);
    SortedAppend(s[..j], [x], weight);
    SortedAppend(s[..j] + [x], s[j..], weight);
  }

  lemma SortedAppend(a: seq<RuleId>, b: seq<RuleId>, weight: map<RuleId, nat>)
    requires SortedBy(a, weight) && SortedBy(b, weight)
    requires a != [] && b != [] ==> weight[a[|a| - 1]] <= weight[b[0]]
    ensures SortedBy(a + b, weight)
  {
    var t := a + b;
    forall j, k | 0 <= j < k < |t| ensures weight[t[j]] <= weight[t[k]] {
      if j < |a| <= k {
        assert weight[a[j]] <= weight[a[|a| - 1]];
        assert weight[b[0]] <= weight[b[k - |a|]];
      }
    }
  }

  lemma InsertMultiset<T>(s: seq<T>, j: nat, x: T)
    requires j <= |s|
    ensures multiset(s[..j] + [x] + s[j..]) == multiset(s) + multiset{x}
  {
    assert s == s[..j] + s[j..];
  }
}
