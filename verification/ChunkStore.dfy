/**
 The chunk store: small subtrees of interesting trees, indexed by nonterminal, each text
 stored once; and the splicing mutation that draws on it.
 */
module ChunkStores {
  import opened Grammars
  import opened Positions
  import opened Trees
  import opened Unparsing
  import opened Contexts
  import opened Recursions
  import opened Minimizing
  import opened Mutators

  /** A node of a stored tree. */
  datatype Chunk = Chunk(tree: nat, node: nat)

  /** Larger subtrees are not stored. */
  const MAX_CHUNK_SIZE := 30

  /** The text of the subtree at a node of a stored tree. */
  ghost function TextAt(g: Grammar, rules: seq<RuleId>, n: nat): string
    requires IsDerivation(g, rules) && n < |rules|
  {
    var t := SubAt(TreeOf(g, rules), n);
    if t.rule < |g| then Yield(g, t) else ""
  }

  /** A stored tree describes a derivation. */
  ghost predicate Stored(g: Grammar, t: Arrays) {
    ValidFlat(g, t.rules, t.sizes, t.paren)
  }

  /** Chunk `c` is a small subtree of `nt` in one of the trees. */
  ghost predicate ChunkOf(g: Grammar, trees: seq<Arrays>, nt: NTermId, c: Chunk) {
    && c.tree < |trees| && Stored(g, trees[c.tree])
    && c.node < |trees[c.tree].rules| == |trees[c.tree].sizes|
    && trees[c.tree].rules[c.node] < |g|
    && g[trees[c.tree].rules[c.node]].nonterm == nt
    && trees[c.tree].sizes[c.node] <= MAX_CHUNK_SIZE
  }

  ghost function TextOf(g: Grammar, trees: seq<Arrays>, nt: NTermId, c: Chunk): string
    requires ChunkOf(g, trees, nt, c)
  {
    TextAt(g, trees[c.tree].rules, c.node)
  }

  /** What the store keeps true. */
  ghost predicate Consistent(g: Grammar, trees: seq<Arrays>, index: map<NTermId, seq<Chunk>>, seen: set<string>) {
    && RightlyFiled(g, trees, index, seen)
    && AllFiled(g, trees, index, seen)
    && FiledOnce(g, trees, index)
    && forall nt :: nt in index ==> index[nt] != []
  }

  /** Every chunk is a small subtree of the nonterminal it is filed under, and its text has been seen. */
  ghost predicate RightlyFiled(g: Grammar, trees: seq<Arrays>, index: map<NTermId, seq<Chunk>>, seen: set<string>) {
    forall nt, k :: nt in index && 0 <= k < |index[nt]| ==>
      ChunkOf(g, trees, nt, index[nt][k]) && TextOf(g, trees, nt, index[nt][k]) in seen
  }

  /** Every text seen belongs to a chunk. */
  ghost predicate AllFiled(g: Grammar, trees: seq<Arrays>, index: map<NTermId, seq<Chunk>>, seen: set<string>) {
    forall s :: s in seen ==> exists nt, k :: Files(g, trees, index, nt, k, s)
  }

  /** No two chunks have the same text. */
  ghost predicate FiledOnce(g: Grammar, trees: seq<Arrays>, index: map<NTermId, seq<Chunk>>) {
    forall nt, k, nt', k', s :: Files(g, trees, index, nt, k, s) && Files(g, trees, index, nt', k', s) ==> nt == nt' && k == k'
  }

  /** The `k`-th chunk of `nt` has text `s`. */
  ghost predicate Files(g: Grammar, trees: seq<Arrays>, index: map<NTermId, seq<Chunk>>, nt: NTermId, k: nat, s: string) {
    && nt in index && k < |index[nt]|
    && ChunkOf(g, trees, nt, index[nt][k])
    && TextOf(g, trees, nt, index[nt][k]) == s
  }

  /** Filing one more chunk under a text not seen before. */
  function Filed(index: map<NTermId, seq<Chunk>>, nt: NTermId, c: Chunk): map<NTermId, seq<Chunk>> {
    index[nt := (if nt in index then index[nt] else []) + [c]]
  }

  lemma FileNew(g: Grammar, trees: seq<Arrays>, index: map<NTermId, seq<Chunk>>, seen: set<string>, nt: NTermId, c: Chunk)
    requires Consistent(g, trees, index, seen) && ChunkOf(g, trees, nt, c) && TextOf(g, trees, nt, c) !in seen
    ensures Consistent(g, trees, Filed(index, nt, c), seen + {TextOf(g, trees, nt, c)})
  {
    hide ChunkOf, TextOf, Files, RightlyFiled, AllFiled, FiledOnce;
    FileRight(g, trees, index, seen, nt, c);
    FileAll(g, trees, index, seen, nt, c);
    FileOnce(g, trees, index, seen, nt, c);
  }

  lemma FileAll(g: Grammar, trees: seq<Arrays>, index: map<NTermId, seq<Chunk>>, seen: set<string>, nt: NTermId, c: Chunk)
    requires AllFiled(g, trees, index, seen) && ChunkOf(g, trees, nt, c)
    ensures AllFiled(g, trees, Filed(index, nt, c), seen + {TextOf(g, trees, nt, c)})
  {
    var index', s := Filed(index, nt, c), TextOf(g, trees, nt, c);
    FiledFiles(g, trees, index, nt, c);
    hide ChunkOf, TextOf, Files;
    forall t | t in seen + {s} ensures exists n, k :: Files(g, trees, index', n, k, t) {
      if t == s {
        assert Files(g, trees, index', nt, |index'[nt]| - 1, s);
      } else {
        var n, k: nat :| Files(g, trees, index, n, k, t);
        assert Files(g, trees, index', n, k, t);
      }
    }
  }

  lemma FileOnce(g: Grammar, trees: seq<Arrays>, index: map<NTermId, seq<Chunk>>, seen: set<string>, nt: NTermId, c: Chunk)
    requires Consistent(g, trees, index, seen) && ChunkOf(g, trees, nt, c) && TextOf(g, trees, nt, c) !in seen
    ensures FiledOnce(g, trees, Filed(index, nt, c))
  {
    FiledFiles(g, trees, index, nt, c);
    forall n, k, t | Files(g, trees, index, n, k, t) ensures t in seen {
      FiledSeen(g, trees, index, seen, n, k, t);
    }
    hide ChunkOf, TextOf, Files, RightlyFiled, AllFiled, Filed;
  }

  lemma FileRight(g: Grammar, trees: seq<Arrays>, index: map<NTermId, seq<Chunk>>, seen: set<string>, nt: NTermId, c: Chunk)
    requires RightlyFiled(g, trees, index, seen) && ChunkOf(g, trees, nt, c)
    ensures RightlyFiled(g, trees, Filed(index, nt, c), seen + {TextOf(g, trees, nt, c)})
  {
    var index', s := Filed(index, nt, c), TextOf(g, trees, nt, c);
    hide ChunkOf, TextOf;
    forall n, k | n in index' && 0 <= k < |index'[n]|
      ensures ChunkOf(g, trees, n, index'[n][k]) && TextOf(g, trees, n, index'[n][k]) in seen + {s}
    {
      if n == nt && k == |index'[nt]| - 1 {
        assert index'[n][k] == c;
      } else {
        assert index'[n][k] == index[n][k];
      }
    }
  }

  lemma FiledSeen(g: Grammar, trees: seq<Arrays>, index: map<NTermId, seq<Chunk>>, seen: set<string>, nt: NTermId, k: nat, s: string)
    requires Consistent(g, trees, index, seen) && Files(g, trees, index, nt, k, s)
    ensures s in seen
  {
  }

  /** The chunks after one more was filed. */
  lemma FiledFiles(g: Grammar, trees: seq<Arrays>, index: map<NTermId, seq<Chunk>>, nt: NTermId, c: Chunk)
    requires ChunkOf(g, trees, nt, c)
    ensures var index' := Filed(index, nt, c);
      forall n, k: nat, t :: Files(g, trees, index', n, k, t) <==>
        Files(g, trees, index, n, k, t) || (n == nt && k == |index'[nt]| - 1 && t == TextOf(g, trees, nt, c))
  {
    hide ChunkOf, TextAt;
  }

  /** Storing another tree leaves every chunk where it is. */
  lemma TreesGrow(g: Grammar, trees: seq<Arrays>, t: Arrays, index: map<NTermId, seq<Chunk>>, seen: set<string>)
    requires Consistent(g, trees, index, seen)
    ensures Consistent(g, trees + [t], index, seen)
  {
    var trees' := trees + [t];
    forall nt, k | nt in index && 0 <= k < |index[nt]|
      ensures ChunkOf(g, trees', nt, index[nt][k])
      ensures TextOf(g, trees', nt, index[nt][k]) == TextOf(g, trees, nt, index[nt][k])
    {
      assert ChunkOf(g, trees, nt, index[nt][k]);
    }
    hide ChunkOf, TextOf;
    forall nt, k, s ensures Files(g, trees', index, nt, k, s) <==> Files(g, trees, index, nt, k, s) {
    }
    assert forall s :: s in seen ==> exists nt, k :: Files(g, trees, index, nt, k, s) && Files(g, trees', index, nt, k, s);
  }

  /** The texts of the small subtrees among the first `k` nodes. */
  ghost function SmallTexts(g: Grammar, t: Arrays, k: nat): set<string>
    requires Stored(g, t) && k <= |t.rules| == |t.sizes|
  {
    if k == 0 then {}
    else SmallTexts(g, t, k - 1) + if t.sizes[k - 1] <= MAX_CHUNK_SIZE then {TextAt(g, t.rules, k - 1)} else {}
  }

  lemma {:induction false} SmallTextsExact(g: Grammar, t: Arrays, k: nat, s: string)
    requires Stored(g, t) && k <= |t.rules| == |t.sizes|
    ensures s in SmallTexts(g, t, k) <==> exists n :: 0 <= n < k && t.sizes[n] <= MAX_CHUNK_SIZE && TextAt(g, t.rules, n) == s
  {
    if k > 0 {
      SmallTextsExact(g, t, k - 1, s);
    }
  }

  lemma SmallTextsNext(g: Grammar, t: Arrays, k: nat)
    requires Stored(g, t) && k < |t.rules| == |t.sizes|
    ensures IsDerivation(g, t.rules)
    ensures SmallTexts(g, t, k + 1) ==
      SmallTexts(g, t, k) + if t.sizes[k] <= MAX_CHUNK_SIZE then {TextAt(g, t.rules, k)} else {}
  {
  }

  /** What the unparser writes for a node is the text its chunk is filed under. */
  lemma TextIs(g: Grammar, t: Arrays, all: seq<Arrays>, id: nat, i: nat)
    requires Stored(g, t) && i < |t.rules| == |t.sizes| && t.sizes[i] <= MAX_CHUNK_SIZE
    requires id < |all| && all[id] == t
    ensures IsDerivation(g, t.rules) && t.rules[i] < |g|
    ensures ChunkOf(g, all, g[t.rules[i]].nonterm, Chunk(id, i))
    ensures TextOf(g, all, g[t.rules[i]].nonterm, Chunk(id, i)) == TextAt(g, t.rules, i)
    ensures UnparseSpec(g, Plain(t.rules), i, "").Some?
    ensures UnparseSpec(g, Plain(t.rules), i, "").value.text == TextAt(g, t.rules, i)
  {
    TreeShape(g, t.rules);
    SubAtRule(TreeOf(g, t.rules), i);
    UnparseSubtree(g, t.rules, i, "");
    assert "" + TextAt(g, t.rules, i) == TextAt(g, t.rules, i);
  }

  class ChunkStore {
    var ntsToChunks: map<NTermId, seq<Chunk>>
    var seenOutputs: set<string>
    var trees: seq<Arrays>
    var numberOfChunks: nat

    ghost predicate Valid(g: Grammar)
      reads this
    {
      Consistent(g, trees, ntsToChunks, seenOutputs) && numberOfChunks == |seenOutputs|
    }

    constructor ()
      ensures forall g :: Valid(g)
      ensures trees == [] && ntsToChunks == map[] && seenOutputs == {}
    {
      ntsToChunks, seenOutputs, trees, numberOfChunks := map[], {}, [], 0;
    }

    /**
     Files every small subtree of `tree` whose text is new, and keeps a copy of the tree if
     there was one.
     */
    method AddTree(g: Grammar, tree: Tree)
      requires Valid(g) && tree.Valid(g)
      modifies this
      ensures Valid(g)
      ensures |tree.rules| == |tree.sizes|
      ensures seenOutputs == old(seenOutputs) + SmallTexts(g, ArraysOf(tree), |tree.rules|)
      ensures trees == if seenOutputs == old(seenOutputs) then old(trees) else old(trees) + [ArraysOf(tree)]
      ensures seenOutputs == old(seenOutputs) ==> ntsToChunks == old(ntsToChunks)
      ensures forall nt :: nt in old(ntsToChunks) ==> nt in ntsToChunks && old(ntsToChunks)[nt] <= ntsToChunks[nt]
    {
      hide *;
      ghost var t, trees0, index0, seen0 := ArraysOf(tree), trees, ntsToChunks, seenOutputs;
      ghost var all := trees + [t];
      ValidMeans(g, this);
      TreeIsStored(g, tree);
      AddBegins(g, trees, t, ntsToChunks, seenOutputs);
      var containsNewChunk := FileNodes(g, tree, t, all);
      AddEnds(g, trees0, t, |tree.rules|, index0, seen0, ntsToChunks, seenOutputs);
      GrewMeans(seen0, seenOutputs, containsNewChunk);
      assert ArraysOf(tree) == t;
      if containsNewChunk {
        trees := trees + [ArraysOf(tree)];
        MakeValid(g, this);
        return;
      }
      MakeValid(g, this);
    }

    /** The loop of `AddTree`. */
    method FileNodes(g: Grammar, tree: Tree, ghost t: Arrays, ghost all: seq<Arrays>) returns (containsNewChunk: bool)
      requires t.rules == tree.rules && t.sizes == tree.sizes && Stored(g, t) && all == trees + [t]
      requires Added(g, all, t, 0, ntsToChunks, seenOutputs, ntsToChunks, seenOutputs) && numberOfChunks == |seenOutputs|
      modifies this`ntsToChunks, this`seenOutputs, this`numberOfChunks
      ensures Added(g, all, t, |tree.rules|, old(ntsToChunks), old(seenOutputs), ntsToChunks, seenOutputs)
      ensures numberOfChunks == |seenOutputs|
      ensures Grew(old(seenOutputs), seenOutputs, containsNewChunk)
    {
      ghost var index0, seen0 := ntsToChunks, seenOutputs;
      hide *;
      var id := |trees|;
      containsNewChunk := false;
      GrewNot(seenOutputs);
      var i := 0;
      while i < |tree.rules|
        invariant 0 <= i <= |tree.rules| && numberOfChunks == |seenOutputs|
        invariant Added(g, all, t, i, index0, seen0, ntsToChunks, seenOutputs)
        invariant Grew(seen0, seenOutputs, containsNewChunk)
      {
        ghost var before := seenOutputs;
        var isNew;
        isNew, i := FileNode(g, tree, t, all, id, i, index0, seen0);
        GrewTwice(seen0, before, seenOutputs, containsNewChunk, isNew);
        containsNewChunk := containsNewChunk || isNew;
      }
    }

    /** One turn of the loop of `AddTree`, which goes on at `next`. */
    method FileNode(g: Grammar, tree: Tree, ghost t: Arrays, ghost all: seq<Arrays>, id: nat, i: nat,
                    ghost index0: map<NTermId, seq<Chunk>>, ghost seen0: set<string>)
      returns (isNew: bool, next: nat)
      requires t.rules == tree.rules && t.sizes == tree.sizes && Stored(g, t)
      requires i < |tree.rules| && id < |all| && all[id] == t
      requires Added(g, all, t, i, index0, seen0, ntsToChunks, seenOutputs)
      requires numberOfChunks == |seenOutputs|
      modifies this`ntsToChunks, this`seenOutputs, this`numberOfChunks
      ensures next == i + 1 && Added(g, all, t, next, index0, seen0, ntsToChunks, seenOutputs)
      ensures numberOfChunks == |seenOutputs|
      ensures Grew(old(seenOutputs), seenOutputs, isNew)
    {
      hide *;
      StoredSizes(g, t);
      next := i + 1;
      GrewNot(seenOutputs);
      ghost var index, seen := ntsToChunks, seenOutputs;
      if tree.sizes[i] > MAX_CHUNK_SIZE {
        AddSkip(g, all, t, i, index0, seen0, index, seen);
        return false, next;
      }
      TextIs(g, t, all, id, i);
      var unparsed := UnparseNode(g, Plain(tree.rules), i, "");
      var buffer := unparsed.value.text;
      var nt := g[tree.rules[i]].nonterm;
      if buffer in seenOutputs {
        AddSeen(g, all, t, i, index0, seen0, index, seen);
        return false, next;
      }
      var c := Chunk(id, i);
      AddNew(g, all, t, i, index0, seen0, index, seen, nt, c, buffer);
      FiledIs(index, nt, c);
      GrewByOne(seen, buffer);
      seenOutputs := seenOutputs + {buffer};
      if nt !in ntsToChunks {
        ntsToChunks := ntsToChunks[nt := [c]];
      } else {
        ntsToChunks := ntsToChunks[nt := ntsToChunks[nt] + [c]];
      }
      numberOfChunks := numberOfChunks + 1;
      return true, next;
    }

    /**
     A random chunk of the rule's nonterminal whose root applies another rule, as a copy of
     its tree and a node of it; `None` exactly when there is no such chunk.
     */
    method GetAlternativeTo(g: Grammar, r: RuleId) returns (res: Option<(Arrays, nat)>)
      requires Valid(g) && r < |g|
      ensures res == None <==> NoAlternative(g, r)
      ensures res.Some? ==> exists c :: Alternative(g, r, c) && res.value == (trees[c.tree], c.node)
    {
      var nt := g[r].nonterm;
      if nt !in ntsToChunks {
        return None;
      }
      ChunksOf(g, nt);
      var relevant := OtherChunks(ntsToChunks[nt], r);
      hide Consistent, Stored, ValidFlat, Valid, ChunkOf, RuleOf;
      if |relevant| == 0 {
        return None;
      }
      var k := Random(0, |relevant| - 1);
      assert relevant[k] in relevant;
      assert Alternative(g, r, relevant[k]);
      return Some((trees[relevant[k].tree], relevant[k].node));
    }

    /** The filter of `GetAlternativeTo`: the chunks whose root does not apply `r`. */
    method OtherChunks(chunks: seq<Chunk>, r: RuleId) returns (relevant: seq<Chunk>)
      requires forall c :: c in chunks ==> c.tree < |trees| && c.node < |trees[c.tree].rules|
      ensures forall c :: c in relevant <==> c in chunks && RuleOf(c) != r
    {
      relevant := [];
      var i := 0;
      while i < |chunks|
        invariant 0 <= i <= |chunks|
        invariant forall c :: c in relevant <==> c in chunks[..i] && RuleOf(c) != r
      {
        assert chunks[i] in chunks && chunks[..i + 1] == chunks[..i] + [chunks[i]];
        if trees[chunks[i].tree].rules[chunks[i].node] != r {
          relevant := relevant + [chunks[i]];
        }
        i := i + 1;
      }
      assert chunks[..i] == chunks;
    }

    /** The rule at the root of a chunk. */
    function RuleOf(c: Chunk): RuleId
      reads this
    {
      if c.tree < |trees| && c.node < |trees[c.tree].rules| then trees[c.tree].rules[c.node] else 0
    }

    /** Chunk `c` is filed under the nonterminal of `r` and its root applies another rule. */
    ghost predicate Alternative(g: Grammar, r: RuleId, c: Chunk)
      reads this
      requires r < |g|
    {
      && g[r].nonterm in ntsToChunks && c in ntsToChunks[g[r].nonterm]
      && ChunkOf(g, trees, g[r].nonterm, c) && RuleOf(c) != r
    }

    ghost predicate NoAlternative(g: Grammar, r: RuleId)
      reads this
      requires r < |g|
    {
      forall c :: !Alternative(g, r, c)
    }

    lemma ChunksOf(g: Grammar, nt: NTermId)
      requires Valid(g) && nt in ntsToChunks
      ensures forall c :: c in ntsToChunks[nt] ==>
        ChunkOf(g, trees, nt, c) && c.tree < |trees| && c.node < |trees[c.tree].rules|
    {
    }
  }

  /** The state of `AddTree` after the first `i` nodes of `t`, the last of `all`. */
  ghost predicate Added(g: Grammar, all: seq<Arrays>, t: Arrays, i: nat, index0: map<NTermId, seq<Chunk>>, seen0: set<string>,
                        index: map<NTermId, seq<Chunk>>, seen: set<string>)
  {
    && Stored(g, t) && i <= |t.rules| == |t.sizes|
    && Consistent(g, all, index, seen)
    && seen == seen0 + SmallTexts(g, t, i)
    && (seen == seen0 ==> index == index0)
    && (forall nt :: nt in index0 ==> nt in index && index0[nt] <= index[nt])
  }

  lemma AddBegins(g: Grammar, trees: seq<Arrays>, t: Arrays, index: map<NTermId, seq<Chunk>>, seen: set<string>)
    requires Consistent(g, trees, index, seen) && Stored(g, t)
    ensures Added(g, trees + [t], t, 0, index, seen, index, seen)
  {
    TreesGrow(g, trees, t, index, seen);
    StoredSizes(g, t);
  }

  lemma StoredSizes(g: Grammar, t: Arrays)
    requires Stored(g, t)
    ensures |t.rules| == |t.sizes|
  {
    TreeShape(g, t.rules);
  }

  lemma AddSkip(g: Grammar, all: seq<Arrays>, t: Arrays, i: nat, index0: map<NTermId, seq<Chunk>>, seen0: set<string>,
                index: map<NTermId, seq<Chunk>>, seen: set<string>)
    requires Added(g, all, t, i, index0, seen0, index, seen) && i < |t.rules| && i < |t.sizes| && t.sizes[i] > MAX_CHUNK_SIZE
    ensures Added(g, all, t, i + 1, index0, seen0, index, seen)
  {
    hide Consistent;
  }

  lemma AddSeen(g: Grammar, all: seq<Arrays>, t: Arrays, i: nat, index0: map<NTermId, seq<Chunk>>, seen0: set<string>,
                index: map<NTermId, seq<Chunk>>, seen: set<string>)
    requires Added(g, all, t, i, index0, seen0, index, seen) && i < |t.rules| && i < |t.sizes|
    requires IsDerivation(g, t.rules) && TextAt(g, t.rules, i) in seen
    ensures Added(g, all, t, i + 1, index0, seen0, index, seen)
  {
    hide Consistent;
    SmallTextsNext(g, t, i);
  }

  lemma AddNew(g: Grammar, all: seq<Arrays>, t: Arrays, i: nat, index0: map<NTermId, seq<Chunk>>, seen0: set<string>,
               index: map<NTermId, seq<Chunk>>, seen: set<string>, nt: NTermId, c: Chunk, text: string)
    requires Added(g, all, t, i, index0, seen0, index, seen) && i < |t.rules| && i < |t.sizes| && t.sizes[i] <= MAX_CHUNK_SIZE
    requires ChunkOf(g, all, nt, c) && TextOf(g, all, nt, c) == text
    requires IsDerivation(g, t.rules) && TextAt(g, t.rules, i) == text && text !in seen
    ensures Added(g, all, t, i + 1, index0, seen0, Filed(index, nt, c), seen + {text})
  {
    FileNew(g, all, index, seen, nt, c);
    SmallTextsNext(g, t, i);
    hide Consistent, SmallTexts, TextAt, TextOf, ChunkOf, Stored;
    var index', seen' := Filed(index, nt, c), seen + {text};
    assert seen' == seen0 + SmallTexts(g, t, i + 1);
    assert text in seen' && text !in seen0;
    forall n | n in index0 ensures n in index' && index0[n] <= index'[n] {
    }
  }

  lemma FiledIs(index: map<NTermId, seq<Chunk>>, nt: NTermId, c: Chunk)
    ensures Filed(index, nt, c) == if nt !in index then index[nt := [c]] else index[nt := index[nt] + [c]]
  {
    assert [] + [c] == [c];
  }

  lemma AddEnds(g: Grammar, trees: seq<Arrays>, t: Arrays, i: nat, index0: map<NTermId, seq<Chunk>>, seen0: set<string>,
                index: map<NTermId, seq<Chunk>>, seen: set<string>)
    requires Consistent(g, trees, index0, seen0)
    requires Added(g, trees + [t], t, i, index0, seen0, index, seen) && i >= |t.rules|
    ensures Stored(g, t) && |t.rules| == |t.sizes|
    ensures seen == seen0 ==> Consistent(g, trees, index, seen)
    ensures seen != seen0 ==> Consistent(g, trees + [t], index, seen)
    ensures seen == seen0 + SmallTexts(g, t, |t.rules|)
    ensures seen == seen0 ==> index == index0
    ensures forall nt :: nt in index0 ==> nt in index && index0[nt] <= index[nt]
  {
    hide Consistent;
  }

  /** Nothing seen is forgotten, and `grew` says whether something new was seen. */
  ghost predicate Grew(was: set<string>, now: set<string>, grew: bool) {
    was <= now && (grew <==> now != was)
  }

  lemma GrewNot(was: set<string>)
    ensures Grew(was, was, false)
  {
  }

  lemma GrewByOne(was: set<string>, text: string)
    ensures text !in was ==> Grew(was, was + {text}, true)
  {
  }

  lemma GrewTwice(a: set<string>, b: set<string>, c: set<string>, first: bool, second: bool)
    requires Grew(a, b, first) && Grew(b, c, second)
    ensures Grew(a, c, first || second)
  {
  }

  lemma GrewMeans(was: set<string>, now: set<string>, grew: bool)
    requires Grew(was, now, grew)
    ensures grew <==> now != was
  {
  }

  lemma ValidMeans(g: Grammar, c: ChunkStore)
    requires c.Valid(g)
    ensures Consistent(g, c.trees, c.ntsToChunks, c.seenOutputs) && c.numberOfChunks == |c.seenOutputs|
  {
  }

  lemma TreeIsStored(g: Grammar, tree: Tree)
    requires tree.Valid(g)
    ensures Stored(g, ArraysOf(tree)) && ArraysOf(tree).rules == tree.rules && ArraysOf(tree).sizes == tree.sizes
  {
  }

  lemma MakeValid(g: Grammar, c: ChunkStore)
    requires Consistent(g, c.trees, c.ntsToChunks, c.seenOutputs) && c.numberOfChunks == |c.seenOutputs|
    ensures c.Valid(g)
  {
  }

  /** What `AddTree` does to the seen texts and the stored trees: the small texts join, and the tree if one is new. */
  ghost predicate TreeAdded(g: Grammar, t: Arrays, seen0: set<string>, seen: set<string>,
                            trees0: seq<Arrays>, trees: seq<Arrays>) {
    && Stored(g, t) && |t.rules| == |t.sizes|
    && seen == seen0 + SmallTexts(g, t, |t.rules|)
    && trees == if seen == seen0 then trees0 else trees0 + [t]
  }

  /** `m` is `f` with the subtree at `n` replaced by the chunk `c`. */
  ghost predicate Chunked(g: Grammar, f: Forest, n: nat, trees: seq<Arrays>, c: Chunk, m: TreeMutation) {
    && c.tree < |trees| && Stored(g, trees[c.tree])
    && c.node < Count(TreeOf(g, trees[c.tree].rules))
    && Substitutes(g, f, n, SubAt(TreeOf(g, trees[c.tree].rules), c.node), m)
  }

  lemma AlternativeIs(g: Grammar, cks: ChunkStore, r: RuleId, c: Chunk)
    requires r < |g| && cks.Alternative(g, r, c)
    ensures ChunkOf(g, cks.trees, g[r].nonterm, c) && c.tree < |cks.trees|
  {
  }

  lemma ArraysAre(t: Tree, a: Arrays)
    requires t.rules == a.rules && t.sizes == a.sizes && t.paren == a.paren
    ensures ArraysOf(t) == a
  {
  }

  /** The copy handed out is the stored tree. */
  lemma CopyOfStored(g: Grammar, trees: seq<Arrays>, nt: NTermId, c: Chunk, copy: Tree)
    requires ChunkOf(g, trees, nt, c) && ArraysOf(copy) == trees[c.tree]
    ensures copy.Valid(g) && c.node < |copy.rules| && NtAt(g, copy.Shape(g), c.node) == Some(nt)
    ensures forall f, n, m :: c.node < Count(copy.Shape(g)) && Substitutes(g, f, n, SubAt(copy.Shape(g), c.node), m) ==>
      Chunked(g, f, n, trees, c, m)
  {
    NodeFacts(g, copy, c.node);
  }

  /**
   The splicing mutation: the subtree at a random node is replaced by a stored chunk of the
   same nonterminal with another rule at its root, if the store has one.
   */
  method MutSplice(g: Grammar, tree: Tree, cks: ChunkStore) returns (sent: Option<TreeMutation>, ghost n: nat, ghost c: Chunk)
    requires tree.Valid(g) && cks.Valid(g)
    ensures n < |tree.rules| && tree.rules[n] < |g|
    ensures sent == None <==> cks.NoAlternative(g, tree.rules[n])
    ensures sent.Some? ==> cks.Alternative(g, tree.rules[n], c)
    ensures sent.Some? ==> Chunked(g, tree.Shape(g), n, cks.trees, c, sent.value)
    ensures sent.Some? ==> IsDerivation(g, sent.value.Whole()) && RootNT(g, sent.value.Whole()) == tree.Root(g)
  {
    NotEmpty(g, tree);
    hide *;
    var node := Random(0, |tree.rules| - 1);
    NodeNt(g, tree, node);
    n := node;
    var oldRule := tree.rules[node];
    var r := cks.GetAlternativeTo(g, oldRule);
    if r == None {
      return None, n, Chunk(0, 0);
    }
    c :| cks.Alternative(g, oldRule, c) && r.value == (cks.trees[c.tree], c.node);
    var stored := r.value.0;
    var replTree := new Tree.FromParts(stored.rules, stored.sizes, stored.paren);
    AlternativeIs(g, cks, oldRule, c);
    ArraysAre(replTree, stored);
    CopyOfStored(g, cks.trees, g[oldRule].nonterm, c, replTree);
    var repl := Splice(g, tree, node, replTree, r.value.1);
    return Some(repl), n, c;
  }
}
