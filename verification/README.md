# Verified models of fuzzuf's grammar engine, corpus queue and flow engine

fuzzuf is a framework for composing fuzzers. This project models, in Dafny, the parts of it
whose correctness is not visible from any one function, and proves what they promise.

**The Nautilus grammar engine** (`algorithms/nautilus/grammartec`). A derivation tree of a
context-free grammar is kept as a flat pre-order array of rule ids with two parallel arrays, the
subtree sizes and the parents. Every operation is slicing and index arithmetic on these arrays.
`Grammars` has the specification side: inductive derivation trees, with their validity, pre-order,
node count, sizes and parents. The other modules prove that the flat form refines it:

- `Scanning`, `Accumulating`, `Trees`: the stack scan that finds parents accepts exactly the
  prefixes of derivations and records what the tree defines; the backward pass finds the sizes.
- `Positions`, `Splicing`: subtrees are blocks, and splicing blocks is substituting subtrees.
- `Unparsing`: the explicit-stack unparser writes the recursive yield, also of a mutation read
  through its three parts.
- `MinimalSizes`, `OptionCounts`, `Contexts`: the two grammar analyses end in the exact minimum
  sizes and in the least fixpoint of the saturating option counts, and rule selection uses them
  correctly.
- `Generating`: random generation meets its length budget and never runs out of rules.
- `Recursions`: the one-pass search for repeated nonterminals agrees with walking up the parents.
- `Minimizing`, `Mutators`: both minimizers terminate for every tester, skip nothing, and leave a
  node as it is only if nothing is to be gained there or the tester refused.
- `Mutators`, `Pumping`, `ChunkStores`: every mutation that is sent to a tester is a valid
  derivation of the right shape and within the length budget.

**The Nautilus corpus** (`algorithms/nautilus/fuzzer`). `Queues` models the queue and its index
from coverage bits to items, `Corpora` whole runs of it and `Rounds` the order in which they take
items, `Lifecycles` the stages of an item: minimization, deterministic mutation, random mutation;
and `Stages` what exactly each of them sends to be run.

**HierarFlow** (`include/fuzzuf/hierarflow`). `HierarFlows` models linking nodes into a forest
with the check for cycles after every link, and running it, where routines are shared between nodes
and each run of a node saves, sets and restores its routine's current node.

**AFLFast's table of favoured test cases** (`algorithms/aflfast`) is modelled in `AflFast`.

## How to read the model

- Objects whose methods update their fields are classes with these fields; a vector is a `seq`, an
  unordered container a `map` or `set` whose iteration order is chosen arbitrarily.
- An exception is a result: `ok == false`, `None`, or a method's boolean.
- Random numbers and random choices are arbitrary values in the range the code draws from, so what
  is proved holds for every draw.
- A tester, which runs the target program, is an arbitrary function of the number of the call and
  the mutated tree: its answers may change from call to call. The coverage bits passed along to it
  are part of that function.
- A HierarFlow routine is an arbitrary body: for each of its runs, any number of calls of its
  successors and either verdict. The runs are numbered in the order in which they start.
- Only `PlainRule` exists in the code, so a rule choice is a rule id. Rules are modelled after
  tokenizing, with nonterminals as numbers. Sizes, ids and lengths are unbounded, except in the
  option counts, the id counter of the queue and the AFLFast arithmetic, where the code saturates,
  resets or wraps at 64 bits.
- Many proofs hide definitions (`hide`) that they do not need, to keep verification quick.

`dafny verify dfyconfig.toml` checks everything.

## What was found on the way

- `CalcParents` (tree.cpp:70-101) does not test what is left on its stack, so the array of an
  incomplete tree is accepted. `Scanning.IncompleteExample` is such an array,
  `Scanning.AcceptedComplete` the exact condition: an accepted array is complete if and only if it has
  one node more than its rules ask for children. `Trees.Tree.CalcParents` and `Trees.ToTree` expose what
  is missing as the ghost result `left` and state exactly which arrays supply it.
- `GetRecursionPairByOffset` (recursion_info.cpp:144-146) looks up the same key in every turn of
  its loop. The pair it returns is therefore always a node and its nearest ancestor of the same
  nonterminal, whatever the recorded depth.
- The comment on `MutRandomRecursion` (mutator.cpp:239-240) says that the recursion is repeated 2^n
  times. The code draws a length of 2^(n+1) rules and divides it by the size of the recursion
  (lines 249 and 258). `Pumping.CopiesAsDocumented` proves that 2^n copies are made if and only if the
  recursion has two nodes, and none if and only if it is larger than the length drawn;
  `Pumping.PumpedAdds` that the mutation is the original tree exactly in the latter case; and
  `Pumping.NoCopiesExample` gives a tree for which that happens.
- All four branches that choose a percentage in `GetRandomRuleForNT` (context.cpp:409-417) give zero.
- Popping an item removes its id from the index, so the index stays right exactly if no other stored
  item that covers a bit has the same id. Ids can only coincide after the counter (queue.cpp:93-98)
  has wrapped. `Corpora.PopNeedsOwnId` and `Corpora.ShortRunsAllowed` state both halves, and
  `Corpora.WrapExample` is a run in which it goes wrong. Coverage is not lost even then
  (`Corpora.CoverageSafety`).
- `NextP2` (common.cpp:496-501) does not terminate for values above 2^63; `AflFast.NextP2EndsIff`
  proves that this is the exact bound, and `AflFast.NextP2` requires it.

## Model

| member | source | states |
|---|---|---|
| Grammars.PreInjective | algorithms/nautilus/grammartec/tree.cpp:70-101 | A rule array is the pre-order of at most one derivation forest for given nonterminals: the forest and whatever follows it are determined by the array. |
| Grammars.TreeOfUnique | algorithms/nautilus/grammartec/tree.cpp:70-101 | Re-parsing the pre-order of a derivation of any nonterminal gives back exactly that derivation. |
| Grammars.AppendDerives | algorithms/nautilus/grammartec/rule.cpp:197-250 | Derivations of two lists of nonterminals, put side by side, derive the concatenated list. |
| Grammars.SplitDerives | algorithms/nautilus/grammartec/rule.cpp:197-250 | A derivation of a concatenated list splits into derivations of the two parts, and its pre-order splits with it. |
| Scanning.ScanExact | algorithms/nautilus/grammartec/tree.cpp:70-101 | The stack scan is sound and complete for prefixes: an array extended by `more` is a derivation if and only if the scan of the array succeeds and `more` is the pre-order of trees for exactly the nonterminals left on the stack. |
| Scanning.ScanTree | algorithms/nautilus/grammartec/tree.cpp:70-101 | On a complete derivation the scan finds the parents defined by the tree and leaves an empty stack. |
| Scanning.ScanComplete | algorithms/nautilus/grammartec/tree.cpp:70-101 | An array is a derivation if and only if the scan succeeds with nothing left. |
| Scanning.AcceptedComplete | algorithms/nautilus/grammartec/tree.cpp:70-101 | An array the scan accepts is a derivation if and only if its length is one more than the number of children its rules ask for; the difference is what is left on the stack. |
| Scanning.IncompleteExample | algorithms/nautilus/grammartec/tree.cpp:77-100 | For `S -> ( S ) | x` the array with the first rule alone is accepted although it is no derivation: one `S` is left on the stack. |
| Scanning.ScanParents | algorithms/nautilus/grammartec/tree.cpp:86-93 | Whatever array is scanned, every recorded parent precedes its node, except that the root is its own. |
| Accumulating.AccumulateTree | algorithms/nautilus/grammartec/tree.cpp:108-114 | The backward accumulation over the parents of a tree turns an array of ones into the array of its subtree sizes. |
| Accumulating.AccumulateForest | algorithms/nautilus/grammartec/tree.cpp:112-113 | Accumulating over the block of a forest fills in its sizes, credits its size to the outer parent, and changes nothing else. |
| Positions.SubAtSplit | algorithms/nautilus/grammartec/tree.cpp:183-193 | The pre-order of a forest is what precedes a node, the pre-order of the node's subtree, and what follows it. |
| Positions.SubAtBlock | algorithms/nautilus/grammartec/tree.cpp:123-132 | Every subtree occupies exactly the block of rules from its node id over its size. |
| Positions.SizesAt | algorithms/nautilus/grammartec/tree.cpp:108-114 | Entry n of the sizes is the node count of the subtree at n. |
| Positions.SubAtDerives | algorithms/nautilus/grammartec/tree.cpp:70-101 | The subtree at any node of a derivation derives the nonterminal of its own rule. |
| Positions.InsideNested | algorithms/nautilus/grammartec/tree.cpp:170-172 | Subtree blocks nest: the block of a descendant ends no later than its ancestor's. |
| Positions.ParentsNearest | algorithms/nautilus/grammartec/tree.cpp:86-93 | Entry n of the parents is the nearest node whose block contains n, or the outer parent when no node's does. |
| Positions.TreeParents | algorithms/nautilus/grammartec/tree.cpp:141-148 | In a whole tree the recorded parent of every node but the root is its nearest proper ancestor. |
| Trees.Tree.constructor | algorithms/nautilus/grammartec/tree.cpp:43-47 | Takes the rules and sizes both other arrays to match, filled with zeros. |
| Trees.Tree.FromParts | algorithms/nautilus/grammartec/tree.cpp:211-213 | Takes the three arrays as they are. |
| Trees.Tree.CalcParents | algorithms/nautilus/grammartec/tree.cpp:70-101 | Succeeds with nothing left exactly on derivations, and then records their parents; on failure no continuation of the array is a derivation; on success the continuations that are derivations are exactly those that supply what is left, and comparing the length with the number of children asked for tells whether the array is complete. Success is the scan's. |
| Trees.Tree.PushReversed | algorithms/nautilus/grammartec/tree.cpp:95-99 | Pushing the nonterminals last first puts the first one on top, in front of the old stack. |
| Trees.Tree.CalcSizes | algorithms/nautilus/grammartec/tree.cpp:108-114 | If the parents are those of a tree, the result is that tree's subtree sizes. |
| Trees.Tree.CalcSubTreeSizesAndParents | algorithms/nautilus/grammartec/tree.cpp:59-62 | Both passes succeed with nothing left if and only if the rules are a derivation, and the arrays are then the derivation's sizes and parents. |
| Trees.NodeFacts | algorithms/nautilus/grammartec/tree.cpp:158-172 | In a valid tree every node id has a known rule, its subtree derives that rule's nonterminal, and its recorded size is the subtree's and fits the array. |
| Trees.SpliceRefines | algorithms/nautilus/grammartec/tree.cpp:183-193 | For nodes of equal nonterminals the spliced array is the pre-order of the tree with that subtree replaced, a valid derivation of the same root, of size old total minus old subtree plus new subtree. |
| Trees.ToTree | algorithms/nautilus/grammartec/tree.cpp:395-401 | Re-parsing never throws on a derivation and gives a valid tree with exactly the mutation's rules; it throws only if no continuation is a derivation; when it accepts an incomplete array, `left` is exactly what is missing and counting children tells. |
| Trees.TreeMutation.GetAt | algorithms/nautilus/grammartec/tree.cpp:345-365 | Reads the same rule as the concatenation of the three parts, and fails exactly past its end. |
| Splicing.ReplacePre | algorithms/nautilus/grammartec/tree.cpp:183-193 | Replacing a subtree changes the pre-order in exactly that subtree's block. |
| Splicing.ReplaceDerives | algorithms/nautilus/grammartec/tree.cpp:183-193 | Replacing a subtree by one of the same nonterminal keeps the derivation valid. |
| Splicing.ReplaceUndo | algorithms/nautilus/grammartec/tree.cpp:183-193 | Replacing a subtree and putting the old one back restores the tree. |
| Splicing.ReplaceInside | algorithms/nautilus/grammartec/tree.cpp:183-193 | Ancestors of the replaced node keep containing it and what comes before it. |
| Unparsing.RunYield | algorithms/nautilus/grammartec/tree.cpp:508-604 | Running the machine over the symbols of a right-hand side writes exactly the text their derivations yield, consumes exactly their nodes, and then continues with the rest of the stack. |
| Unparsing.UnparseSubtree | algorithms/nautilus/grammartec/tree.cpp:461-463 | From any node of a derivation the machine writes exactly that subtree's text and returns the node id plus the subtree's size. |
| Unparsing.UnparseMutation | algorithms/nautilus/grammartec/tree.cpp:345-401 | Unparsing a mutation through its three parts is unparsing the tree it becomes, from every node and for invalid trees too. |
| Unparsing.RunAgree | algorithms/nautilus/grammartec/tree.cpp:508-530 | Two tree-like values that read alike make the machine run alike. |
| Unparsing.Unparser.constructor | algorithms/nautilus/grammartec/tree.cpp:496-501 | Starts with the node's nonterminal as the only symbol on the stack. |
| Unparsing.Unparser.UnparseOneStep | algorithms/nautilus/grammartec/tree.cpp:508-530 | One step leaves the outcome of the whole run unchanged, throws only if the run throws, and moves the cursor or shortens the stack. |
| Unparsing.Unparser.NextPlain | algorithms/nautilus/grammartec/tree.cpp:586-604 | Pushes a right-hand side so that its symbols come off the stack in order. |
| Unparsing.Unparser.Unparse | algorithms/nautilus/grammartec/tree.cpp:611-616 | Ends on every tree, valid or not, with the text and the next node the specification of the run gives, and throws exactly when that does. |
| Unparsing.UnparseNode | algorithms/nautilus/grammartec/tree.cpp:461-484 | The object's run is the specification function that the lemmas are about. |
| MinimalSizes.FixpointExact | algorithms/nautilus/grammartec/context.cpp:281-330 | Values that are attained by derivations and settled for every rule are exactly the smallest node counts, each rule's value is 1 plus the sum over its nonterminals and the smallest tree with that rule at its root, and no rule is broken. |
| MinimalSizes.FixpointLower | algorithms/nautilus/grammartec/context.cpp:281-330 | Settled values are lower bounds for every derivation. |
| MinimalSizes.StuckBroken | algorithms/nautilus/grammartec/context.cpp:320-328 | When a sweep evaluates no rule and some rules remain, one of them uses a nonterminal without any finite derivation. |
| MinimalSizes.StuckCovers | algorithms/nautilus/grammartec/context.cpp:320-328 | When a sweep is stuck, every nonterminal that has a derivation already has a value. |
| MinimalSizes.EvalProgress | algorithms/nautilus/grammartec/context.cpp:299-312 | Evaluating a rule either leaves the values as they were or strictly lowers the termination measure, and it sets the flag only if it lowers it. |
| MinimalSizes.PassEnds | algorithms/nautilus/grammartec/context.cpp:284-330 | A pass over all rules that did not set the flag leaves the exact minima and shows that no rule is broken; one that set it made progress. |
| Contexts.Context.CalcMinLenForRule | algorithms/nautilus/grammartec/context.cpp:247-260 | 1 plus the sum of the known values, or nothing if one is missing. |
| Contexts.Context.EvalRule | algorithms/nautilus/grammartec/context.cpp:299-312 | One call of the `remove_if` predicate: evaluates the rule and lowers its nonterminal's value. |
| Contexts.Context.Sweep | algorithms/nautilus/grammartec/context.cpp:292-318 | One `remove_if` over the unknown rules evaluates them in order, each against values that earlier ones of the same sweep may have improved, and keeps those that cannot be evaluated. |
| Contexts.Context.CalcRuleOrder | algorithms/nautilus/grammartec/context.cpp:266-274 | Each nonterminal keeps the same rules, now in order of minimum size. |
| Contexts.Context.CalcMinLen | algorithms/nautilus/grammartec/context.cpp:281-333 | Terminates; throws "Broken grammar" exactly when some rule uses a nonterminal without a finite derivation; otherwise every value is the exact minimum and the rule lists are sorted by it. |
| Contexts.Context.CalcNumOptionsForRule | algorithms/nautilus/grammartec/context.cpp:188-204 | The early exit on overflow computes the minimum of 2^64-1 and the true product. |
| OptionCounts.OverflowStays | algorithms/nautilus/grammartec/context.cpp:196-200 | Once a partial product exceeds 2^64-1 so does the whole product, because all factors are at least 1. |
| OptionCounts.ProductAppend | algorithms/nautilus/grammartec/context.cpp:189-203 | The options of a list of nonterminals are the product of the options of its parts, wherever it is cut. |
| OptionCounts.ProductOne | algorithms/nautilus/grammartec/context.cpp:189-203 | A single nonterminal offers what is recorded for it, and one option if nothing is. |
| OptionCounts.GrowingRaise | algorithms/nautilus/grammartec/context.cpp:229-233 | Raising a nonterminal to what one of its rules offers stays below every assignment that no rule can raise. |
| OptionCounts.GrowingEnds | algorithms/nautilus/grammartec/context.cpp:217-237 | When a pass changes nothing, the assignment is the least one above the seed that no rule can raise. |
| OptionCounts.LeastIsFixpoint | algorithms/nautilus/grammartec/context.cpp:210-238 | In the least assignment each nonterminal holds the larger of its seed and the best saturated product of its rules. |
| OptionCounts.LeastUnique | algorithms/nautilus/grammartec/context.cpp:221-236 | The least assignment is unique, for grammars with the same rules in any order: the order of the pass cannot matter. |
| Contexts.Context.SeedNumOptions | algorithms/nautilus/grammartec/context.cpp:211-215 | Old entries stay, every other nonterminal starts from its number of rules. |
| Contexts.Context.RaiseNumOptions | algorithms/nautilus/grammartec/context.cpp:219-236 | One pass stays below every closed assignment, and a pass that changes something makes progress; one that changes nothing has evaluated every rule. |
| Contexts.Context.CalcNumOptions | algorithms/nautilus/grammartec/context.cpp:210-238 | Terminates, in the least assignment above the seed, with every rule's saturated product recorded. |
| Contexts.Context.AddRule | algorithms/nautilus/grammartec/context.cpp:167-179 | The new rule gets the next id and is listed, once, under its nonterminal only. |
| Contexts.IndexAdd | algorithms/nautilus/grammartec/context.cpp:174-176 | The index of rules by nonterminal stays exact. |
| Contexts.Context.Initialize | algorithms/nautilus/grammartec/context.cpp:55-59 | Fails exactly on a broken grammar; otherwise everything selection and generation rely on holds, every rule has its saturated product, and the nonterminals' options are the least ones above the rule counts, or above what an earlier call left. |
| Contexts.Context.GetRandomLen | algorithms/nautilus/grammartec/context.cpp:354-368 | Never more than what remains, and all of it for a single child. |
| Contexts.Context.GetApplicableRules | algorithms/nautilus/grammartec/context.cpp:379-394 | Only rules of the nonterminal that fit, all of those with several options, and all of them at 100 percent; stopping at the first that does not fit loses none. |
| Contexts.Context.GetRandomRuleForNT | algorithms/nautilus/grammartec/context.cpp:405-436 | Returns a rule of the nonterminal that fits, and throws exactly when the nonterminal's minimum does not fit. |
| Contexts.SortRules | algorithms/nautilus/grammartec/context.cpp:269-272 | A sorted permutation of the rules. |
| Generating.Generate | algorithms/nautilus/grammartec/rule.cpp:197-250 | Appends one subtree per nonterminal of the rule, never exceeding the budget and never reaching the "no way to derive" exception; rules, sizes and parents appended are exactly those the generated forest defines. |
| Generating.GenerateChild | algorithms/nautilus/grammartec/rule.cpp:223-239 | Appends one subtree of the nonterminal, of at least its minimum and at most its budget, with its own size and parent filled in. |
| Generating.SpentChild | algorithms/nautilus/grammartec/rule.cpp:244-246 | The budget invariant over the children: what was spent plus what remains plus the minima still to come is the whole budget. |
| Generating.GenerateFromRule | algorithms/nautilus/grammartec/tree.cpp:284-304 | A valid tree with that rule at the root, of at most max_len + 1 nodes. |
| Generating.GenerateFromNT | algorithms/nautilus/grammartec/tree.cpp:271-274 | Succeeds exactly when the nonterminal's minimum fits the length; the result is a valid derivation of it with node count between the minimum and the length, so exactly the minimum when they agree. |
| Generating.GenerateTreeFromNT | algorithms/nautilus/grammartec/context.cpp:478-480 | The same for a fresh tree. |
| Generating.GenerateTreeFromRule | algorithms/nautilus/grammartec/context.cpp:490-494 | The same for a fresh tree and a given rule. |
| Generating.RootValid | algorithms/nautilus/grammartec/tree.cpp:284-294 | The arrays filled in during generation are the ones that re-parsing the rules would compute. |
| Recursions.FindParentWithNT | algorithms/nautilus/grammartec/mutator.cpp:329-344 | Returns the nearest proper ancestor of the same nonterminal, and nothing exactly when there is none. |
| Recursions.FindForest | algorithms/nautilus/grammartec/recursion_info.cpp:91-118 | The one-pass stack scan over the pre-order of a forest records what the recursive walk of the forest records. |
| Recursions.FindsSound | algorithms/nautilus/grammartec/recursion_info.cpp:96-112 | Every record is a node of the nonterminal with its nearest ancestor of the same nonterminal and its true depth, and records come in increasing order. |
| Recursions.FindsComplete | algorithms/nautilus/grammartec/recursion_info.cpp:96-112 | Every node of the nonterminal that has an ancestor of the same nonterminal is recorded. |
| Recursions.AncInNearest | algorithms/nautilus/grammartec/recursion_info.cpp:96-112 | The ancestor carried on the stack is the nearest one of the nonterminal. |
| Recursions.FindParents | algorithms/nautilus/grammartec/recursion_info.cpp:82-121 | Returns nothing exactly when no node of the nonterminal repeats; otherwise the records list, in increasing order, exactly the repeating nodes, each with the ancestor FindParentWithNT finds and its depth. |
| Recursions.DepthOfParent | algorithms/nautilus/grammartec/recursion_info.cpp:93-117 | The recorded depth is the number of steps to the root along the recorded parents. |
| Recursions.GetRecursionPairByOffset | algorithms/nautilus/grammartec/recursion_info.cpp:138-149 | The pair is a node and its nearest ancestor of the same nonterminal, properly nested, whatever the recorded depth. |
| Recursions.CalcRecursions | algorithms/nautilus/grammartec/tree.cpp:313-333 | Returns nothing exactly when no nonterminal repeats on a root path; otherwise every repeating node is listed in exactly one record. |
| Mutators.TestAndConvert | algorithms/nautilus/grammartec/mutator.cpp:357-371 | For nodes of equal nonterminals: asks the tester once about the substituted tree and converts it, without throwing, exactly if it was accepted; the size is old total minus old subtree plus new subtree. |
| Mutators.Mutator.MinimizeTree | algorithms/nautilus/grammartec/mutator.cpp:52-82 | Terminates for every tester and is done exactly if the tree ends before the end index. For every tester: every question offers a smallest derivation for a larger node of the tree as the earlier answers left it, for ever later nodes of the range; the result is the old tree replayed through the accepted ones; and each node of the range has minimum size or was offered a smallest derivation that the tester refused. The tree stays valid with the same root, unchanged or smaller and accepted, and nothing before the start repeats anew. Under an always accepting tester every node in range attains its minimum. |
| Minimizing.MinimizedAsk | algorithms/nautilus/grammartec/mutator.cpp:60-78 | One question about a node, whatever the answer, extends the range of nodes that are minimal or were refused, and keeps everything else said about the minimization so far. |
| Minimizing.MinimalStep | algorithms/nautilus/grammartec/mutator.cpp:64-74 | Replacing a subtree by a smallest derivation of its nonterminal keeps all earlier nodes' nonterminals and their minimality, and makes this node minimal. |
| Minimizing.SmallestIsSmaller | algorithms/nautilus/grammartec/mutator.cpp:64 | A node that is not minimal has a subtree larger than every smallest derivation, so an acceptance shrinks the tree. |
| Minimizing.TriedMeans | algorithms/nautilus/grammartec/mutator.cpp:52-82 | Under a tester that accepts everything, minimal or refused is minimal. |
| Mutators.WholeMinimal | algorithms/nautilus/grammartec/mutator.cpp:52-82 | A tree minimized from index 0 has the smallest node count of all derivations of its root nonterminal. |
| Mutators.Mutator.MinimizeNode | algorithms/nautilus/grammartec/mutator.cpp:60-74 | One turn of the loop: asks exactly if the subtree is larger than its minimum, offers a smallest derivation of its nonterminal, and takes the mutated tree exactly if it is accepted. |
| Mutators.Mutator.GenerateSmallest | algorithms/nautilus/grammartec/mutator.cpp:67 | The scratch tree becomes a smallest derivation of the nonterminal. |
| Mutators.Mutator.MinimizeRec | algorithms/nautilus/grammartec/mutator.cpp:99-125 | Terminates for every tester although the cursor jumps back. For every tester: every question pulls a node up to its nearest ancestor of the same nonterminal, in the tree as the earlier answers left it, at or behind the place where the search went on; the result is the old tree replayed through the accepted ones; and each node of the range that still repeats was refused at exactly that nearest ancestor. If nothing before the start repeated, this holds from the root on; so under an always accepting tester nothing repeats before the end index, and nothing at all when done. |
| Mutators.Mutator.MinimizeRecNode | algorithms/nautilus/grammartec/mutator.cpp:107-117 | One turn of the loop: a node that repeats is pulled up to its nearest ancestor of the same nonterminal if accepted, and the cursor goes there; any other node is left alone. |
| Minimizing.ReducedAsk | algorithms/nautilus/grammartec/mutator.cpp:107-121 | One question about a node, whatever the answer, keeps everything said about the recursive minimization so far, with the cursor behind the node or behind the ancestor. |
| Minimizing.CleanStep | algorithms/nautilus/grammartec/mutator.cpp:109-116 | Pulling a subtree up to its ancestor leaves all nodes at or before the ancestor handled, so jumping back there misses nothing. |
| Minimizing.SameNearest | algorithms/nautilus/grammartec/mutator.cpp:109-116 | Replacing a subtree by one of the same nonterminal leaves the nearest ancestors of the same nonterminal of all nodes up to it as they were. |
| Minimizing.HandledMeans | algorithms/nautilus/grammartec/mutator.cpp:99-125 | Under a tester that accepts everything, handled nodes do not repeat. |
| Minimizing.PassClean | algorithms/nautilus/fuzzer/state.cpp:409-420 | One pass of both minimizations: if nothing before its start repeats and the recursive tester accepts everything, nothing repeats before its end, and nothing at all if it is done; the subtree minimization does not spoil this. |
| Minimizing.WindowsClean | algorithms/nautilus/fuzzer/mutation_hierarflow_routines.cpp:34-48 | However many windows the minimization of an item takes, with testers that may answer differently in each: if the recursive ones accept everything, the item ends without a recursion. |
| Mutators.Mutator.MutRules | algorithms/nautilus/grammartec/mutator.cpp:141-172 | Finishes exactly when the end index lies past the tree's size; sends, in order, one valid mutation for every node in range and every other rule of its nonterminal, with that rule at the node and a subtree that has more nodes than the minima of the rule's nonterminals and at most one more than the maximum length. |
| Mutators.AlternativesExact | algorithms/nautilus/grammartec/mutator.cpp:150-167 | The alternatives of a range of nodes are exactly the other rules of their nonterminals. |
| Mutators.Mutator.MutRandom | algorithms/nautilus/grammartec/mutator.cpp:215-228 | Sends the tree with a random node replaced by a generated tree of its nonterminal, between its minimum and the maximum length, exactly if the nonterminal has several rules; throws exactly if then its minimum exceeds the context's maximum length. |
| Pumping.PumpPre | algorithms/nautilus/grammartec/mutator.cpp:278-312 | The pre-order of the context nested k times around the inner subtree is the prefix k times, the inner subtree, the postfix k times. |
| Pumping.PumpDerives | algorithms/nautilus/grammartec/mutator.cpp:278-312 | Nesting the context of a same-nonterminal pair any number of times, also zero, keeps the derivation valid. |
| Pumping.CopyRounds | algorithms/nautilus/grammartec/mutator.cpp:279-286 | The modulo loop copies a stretch of rules the given number of times. |
| Pumping.BuildRecursion | algorithms/nautilus/grammartec/mutator.cpp:264-312 | The new rules are the pumped pre-order, and the size of their root entry is their length, including for zero copies. |
| Pumping.PumpSplice | algorithms/nautilus/grammartec/mutator.cpp:314-317 | Splicing the new rules in at the inner node gives the derivation with the context nested once more than it was copied, valid and of the same root. |
| Pumping.MutRandomRecursion | algorithms/nautilus/grammartec/mutator.cpp:242-320 | Sends nothing exactly when there are no recursions; otherwise a pumped tree for a node and its nearest ancestor of the same nonterminal, with 2^(s+1) divided by the recursion's size copies for some s from 1 to 10. |
| Pumping.PumpedAdds | algorithms/nautilus/grammartec/mutator.cpp:278-317 | The mutation sent has as many more nodes as the copies have together, so it is the original tree if and only if no copy was made. |
| Pumping.CopiesAsDocumented | algorithms/nautilus/grammartec/mutator.cpp:239-258 | The documented 2^s copies are made for a draw of s if and only if the recursion has two nodes; there are none if and only if the recursion is larger than the length drawn. |
| Pumping.NothingCopied | algorithms/nautilus/grammartec/mutator.cpp:258-317 | For every recursion larger than some length that can be drawn, the original tree may be sent. |
| Pumping.NoCopiesExample | algorithms/nautilus/grammartec/mutator.cpp:239-258 | For a recursion of five nodes and a draw of one, no copy is made instead of two, and the mutation is the original tree. |
| Pumping.DrawnBound | algorithms/nautilus/grammartec/mutator.cpp:249-258 | The copies drawn never add more than 2048 nodes. |
| ChunkStores.ChunkStore.AddTree | algorithms/nautilus/grammartec/chunkstore.cpp:41-90 | Keeps the store consistent; the texts seen grow by exactly those of the tree's subtrees of at most 30 nodes; the tree is kept exactly if one of them was new. |
| ChunkStores.ChunkStore.FileNode | algorithms/nautilus/grammartec/chunkstore.cpp:46-84 | One turn of the loop files the node under its nonterminal exactly if it is small and its text is new. |
| ChunkStores.SmallTextsExact | algorithms/nautilus/grammartec/chunkstore.cpp:46-56 | The small texts of a tree are exactly the texts of its nodes of size at most 30. |
| ChunkStores.FileNew | algorithms/nautilus/grammartec/chunkstore.cpp:55-64 | Filing a chunk under a new text keeps the store consistent: every chunk lies in a stored tree at a node of the nonterminal it is filed under, and no two chunks have the same text. |
| ChunkStores.TreesGrow | algorithms/nautilus/grammartec/chunkstore.cpp:87-89 | Storing another tree leaves every chunk and its text as they were. |
| ChunkStores.TextIs | algorithms/nautilus/grammartec/chunkstore.cpp:52-53 | The text a chunk is filed under is what the unparser writes for its node. |
| ChunkStores.ChunkStore.GetAlternativeTo | algorithms/nautilus/grammartec/chunkstore.cpp:104-133 | Returns nothing exactly when no chunk of the nonterminal has a different rule; otherwise the tree and node of such a chunk. |
| ChunkStores.MutSplice | algorithms/nautilus/grammartec/mutator.cpp:187-201 | Sends a valid derivation of the same root with a node replaced by a chunk of its nonterminal and another rule, and nothing exactly when there is no such chunk. |
| Queues.QueueItem.constructor | include/fuzzuf/algorithms/nautilus/fuzzer/queue.hpp:48-61 | A new item starts in the minimization stage at index 0, without recursions. |
| Queues.Queue.constructor | include/fuzzuf/algorithms/nautilus/fuzzer/queue.hpp:75 | An empty queue. |
| Queues.Queue.AllKnown | algorithms/nautilus/fuzzer/queue.cpp:38-47 | The first loop decides whether the index knows every bit that is set. |
| Queues.Queue.IndexBits | algorithms/nautilus/fuzzer/queue.cpp:49-59 | The second loop enters the id under every bit that is set and collects the bits that were new. |
| Queues.Queue.Add | algorithms/nautilus/fuzzer/queue.cpp:33-99 | Stores a new item under the current id, exactly if it sets a bit that the index does not know. |
| Queues.Queue.Pop | algorithms/nautilus/fuzzer/queue.cpp:106-134 | Takes the last item out and removes its id everywhere, together with the bits only it covered. |
| Queues.Queue.RemoveId | algorithms/nautilus/fuzzer/queue.cpp:119-124 | Removes every occurrence of the id and keeps the rest in order. |
| Queues.Queue.Finished | algorithms/nautilus/fuzzer/queue.cpp:150-181 | Sets a processed item aside and indexes it, or drops it if the index knows all its bits; the inputs stay as they are. |
| Queues.Queue.NewRound | algorithms/nautilus/fuzzer/queue.cpp:187-192 | Moves the processed items behind the inputs. |
| Queues.IndexedAgrees | algorithms/nautilus/fuzzer/queue.cpp:49-59 | Indexing an item keeps the index equal to the one recomputed from the stored items, with keys only for covered bits. |
| Queues.WithoutAppend | algorithms/nautilus/fuzzer/queue.cpp:118-126 | Removing an id from a list of ids removes it from each part and keeps the order of the others. |
| Corpora.PopNeedsOwnId | algorithms/nautilus/fuzzer/queue.cpp:112-131 | Popping an item keeps the index in agreement if and only if no other stored item with the same id covers a bit. |
| Corpora.DroppedIffRedundant | algorithms/nautilus/fuzzer/queue.cpp:150-166 | `Add` and `Finished` drop an item exactly if the stored items cover every bit it covers. |
| Corpora.StepKeeps | algorithms/nautilus/fuzzer/queue.cpp:33-192 | Each of Add, Pop, Finished and NewRound keeps the index equal to the recomputed one and all ids different, where a new item gets an unused id. |
| Corpora.StepBacks | algorithms/nautilus/fuzzer/queue.cpp:33-192 | Each step, also one that reuses an id, keeps every id under a bit one of a stored item that covers it. |
| Corpora.StepCovers | algorithms/nautilus/fuzzer/queue.cpp:33-192 | No step, whatever the ids, loses a bit covered by a stored or popped item. |
| Corpora.CoverageSafety | algorithms/nautilus/fuzzer/queue.cpp:33-192 | Over every run from the empty queue, also one in which ids wrap onto ids in use, the set of bits covered by stored and popped items never shrinks. |
| Corpora.IndexSafety | algorithms/nautilus/fuzzer/queue.cpp:33-192 | Over every run from the empty queue in which new ids are unused, the index is the recomputed one and all ids differ. |
| Corpora.WrapExample | algorithms/nautilus/fuzzer/queue.cpp:93-134 | A run of three steps from a counter at 2^64-1, in which an id is reused and popped, after which the index lacks a bit that a stored item covers. |
| Corpora.IdsStayFree | algorithms/nautilus/fuzzer/queue.cpp:93-98 | Until the id counter wraps, the current id is above every id in use. |
| Corpora.ShortRunsAllowed | algorithms/nautilus/fuzzer/queue.cpp:93-98 | Every run of fewer than 2^64 steps meets the demand that new ids are unused. |
| Rounds.RoundMoves | algorithms/nautilus/fuzzer/queue.cpp:33-192 | Over every run without NewRound, the inputs at the end and the items taken are together exactly the inputs at the start and the items stored; the items that were finished and kept join the processed ones in order and nothing else. |
| Rounds.RoundLength | algorithms/nautilus/fuzzer/queue.cpp:105-134 | A round ends: the number of items it takes plus the inputs left is the number of inputs at its start plus the items stored. |
| Rounds.NotTakenAgain | algorithms/nautilus/fuzzer/queue.cpp:105-192 | An item that is being processed, finished or not, is not among the inputs and not taken again before the next NewRound, unless it is stored anew. |
| Rounds.LastFirst | algorithms/nautilus/fuzzer/queue.cpp:105-109 | While nothing new is stored, inputs are taken last first, however items are finished in between. |
| Rounds.NextRoundHasAll | algorithms/nautilus/fuzzer/queue.cpp:187-192 | After NewRound the inputs are exactly the stored items, nothing is processed, and popped items are not touched. |
| Rounds.WholeRound | algorithms/nautilus/fuzzer/queue.cpp:187-192 | The round after NewRound takes the items finished in the last round, the latest first, and then the inputs left over, each once. |
| Lifecycles.NautilusState.Minimize | algorithms/nautilus/fuzzer/state.cpp:391-451 | For all testers the step is a pass of the subtree minimization over the window, then of the recursive one over its result, each with what its own contract says, and it is complete if both see the end of the tree. The tree stays as it was or becomes a smaller one that one of the testers accepted; a start past its end completes at once; completed from index 0 under an always accepting tester it has the smallest node count of its nonterminal; if nothing before the window repeated and the recursive tester accepts everything, nothing repeats before its end, and completion leaves no recursion. On completion exactly its small subtrees are added to the chunk store and its recursions are known, otherwise store and recursions are unchanged. |
| Lifecycles.NautilusState.InitializeState | algorithms/nautilus/fuzzer/mutation_hierarflow_routines.cpp:34-48 | Minimizes exactly the window of 200 indices from the item's start index, with everything a pass promises for it, and goes on to the deterministic stage if the pass is complete and to the next window otherwise; it is certainly complete once the start index has passed the tree's size; if nothing before the old start index repeated and the recursive tester accepts everything, nothing before the new one repeats, and a minimized item has no recursion. |
| Lifecycles.NautilusState.MutRules | algorithms/nautilus/fuzzer/mutation_hierarflow_routines.cpp:80-98 | For a context in which every rule's minimum fits: tries exactly the other rules of the current node and moves the item on by one node, cycle or stage; the tree is unchanged. |
| Lifecycles.NautilusState.MutSplice | algorithms/nautilus/fuzzer/mutation_hierarflow_routines.cpp:104-116 | Exactly 100 tries; a try sends a mutation if and only if the store has a chunk of the drawn node's nonterminal with another rule, and it is the tree with that node replaced by such a chunk, a valid derivation of the same root; what is sent is what the tries sent, in order. |
| Lifecycles.NautilusState.MutHavoc | algorithms/nautilus/fuzzer/mutation_hierarflow_routines.cpp:122-133 | Exactly 100 tries unless generation throws; a try sends a mutation if and only if the drawn node's nonterminal has several rules, with a derivation between that nonterminal's minimum and the maximum length; it throws only for a node of the tree with several rules whose minimum exceeds the maximum length. |
| Lifecycles.NautilusState.MutHavocRec | algorithms/nautilus/fuzzer/mutation_hierarflow_routines.cpp:139-157 | For an item past minimization: 20 pumped trees if its tree has a recursion and none otherwise; the recursions recorded at minimization still fit the tree. |
| Lifecycles.NautilusState.ApplyDetMuts | algorithms/nautilus/fuzzer/mutation_hierarflow_routines.cpp:54-61 | Sends the alternatives of the node the item stood at, one mutation each, and then what the random routines send; every mutation is a derivation, and the item moves on by one deterministic step. |
| Lifecycles.NautilusState.ApplyRandMuts | algorithms/nautilus/fuzzer/mutation_hierarflow_routines.cpp:67-74 | Sends the 100 splice tries' mutations, the 100 havoc tries' and, unless one threw, 20 pumped trees or none, in this order; every mutation is a derivation, and the item is unchanged. |
| Lifecycles.NautilusState.ProcessInput | algorithms/nautilus/fuzzer/other_hierarflow_routines.cpp:74-100 | One processing step is one step of the item's life. In the first stage it is one pass of both minimizations over the window and sends nothing; in the deterministic stage it sends the alternatives of the node the item stood at and then what the random routines send; in the random stage exactly the latter. After minimization neither the tree nor the chunk store changes; every mutation sent is a derivation; and unless generation throws the queue gets the item back as `Finished` says. |
| Stages.RandomSendsAll | algorithms/nautilus/fuzzer/mutation_hierarflow_routines.cpp:122-157 | If every nonterminal of the tree has several rules and none throws, the random routines send at least the 100 random mutations, and 20 pumped trees on top if the tree has a recursion. |
| Stages.EverythingFits | algorithms/nautilus/fuzzer/mutation_hierarflow_routines.cpp:122-133 | If the minimum of every nonterminal of the tree with several rules fits, nothing throws. |
| Stages.RandomDerives | algorithms/nautilus/fuzzer/mutation_hierarflow_routines.cpp:104-157 | Everything the random routines send is a derivation. |
| Stages.DetDerives | algorithms/nautilus/fuzzer/mutation_hierarflow_routines.cpp:80-157 | Everything the deterministic routines send is a derivation. |
| Lifecycles.NeverBack | algorithms/nautilus/fuzzer/mutation_hierarflow_routines.cpp:34-98 | Over any run an item never goes back a stage, its tree never grows, and its size is final once minimized. |
| Lifecycles.InitEnds | algorithms/nautilus/fuzzer/mutation_hierarflow_routines.cpp:34-48 | Minimization is over after k steps as soon as 200*(k-1) reaches the tree's original size. |
| Lifecycles.DetVisits | algorithms/nautilus/fuzzer/mutation_hierarflow_routines.cpp:80-98 | The deterministic phase visits every cycle and every node in order, at exactly the step this numbering says. |
| Lifecycles.DetPhaseLength | algorithms/nautilus/fuzzer/mutation_hierarflow_routines.cpp:80-98 | The deterministic phase takes exactly (N+1)*(Size+1) processing steps, N the configured number of deterministic mutations; the item is in the random stage exactly from then on. |
| Lifecycles.EveryItemEndsRandom | algorithms/nautilus/fuzzer/mutation_hierarflow_routines.cpp:34-98 | Every item that is processed often enough ends in the random stage, with an explicit bound from its original size. |
| Lifecycles.CycleTriesAll | algorithms/nautilus/fuzzer/mutation_hierarflow_routines.cpp:80-98 | The steps of one deterministic cycle together send exactly one mutation for each node and each other rule of its nonterminal. |
| HierarFlows.Node.SetParentAndIndex | include/fuzzuf/hierarflow/hierarflow_callee.hpp:66-78 | Sets parent and index, and throws, changing nothing, exactly if there is a parent already. |
| HierarFlows.Node.GuaranteeNoLoop | include/fuzzuf/hierarflow/hierarflow_node_impl.hpp:124-139 | Terminates on every graph, and throws exactly when the walk up from the node never reaches a root. |
| HierarFlows.Node.AddSuccessor | include/fuzzuf/hierarflow/hierarflow_node_impl.hpp:145-151 | Succeeds exactly if the node has no parent and is not at or above this one; for a parentless node it throws exactly when the link closed a cycle; on success the links are a forest, extended by that child. |
| HierarFlows.Node.AddSuccessors | include/fuzzuf/hierarflow/hierarflow_node_impl.hpp:156-169 | Succeeds exactly if the nodes are different, parentless and none is at or above this one; on success the links are a forest, extended by these children in order. |
| HierarFlows.Node.AdoptAll | include/fuzzuf/hierarflow/hierarflow_node_impl.hpp:157-160 | The loop gets through exactly if the nodes are different and parentless, and gives each its parent and index. |
| HierarFlows.LinkOutcome | include/fuzzuf/hierarflow/hierarflow_node_impl.hpp:124-169 | From a forest, the check after a link passes if and only if no new child was at or above its parent, if and only if the new links have no cycle; and the new links are then a forest. |
| HierarFlows.LinkRootedIff | include/fuzzuf/hierarflow/hierarflow_node_impl.hpp:124-139 | The walk from the new parent still ends exactly if no new child was at or above it. |
| HierarFlows.LinkKeepsRooted | include/fuzzuf/hierarflow/hierarflow_node_impl.hpp:115-123 | One walk from the new parent is enough: if it ends, every walk in the graph ends. |
| HierarFlows.RootedAcyclic | include/fuzzuf/hierarflow/hierarflow_node_impl.hpp:115-123 | If every walk up ends at a root, no node is its own ancestor. |
| HierarFlows.CycleNotRooted | include/fuzzuf/hierarflow/hierarflow_node_impl.hpp:128-138 | From a node on a cycle the walk never ends. |
| HierarFlows.OnePlace | include/fuzzuf/hierarflow/hierarflow_callee.hpp:66-78 | In a forest no node is a child twice, nor of two nodes. |
| HierarFlows.NewNodeJoins | include/fuzzuf/hierarflow/hierarflow_node_impl.hpp:82-86 | A new node without links keeps the forest. |
| HierarFlows.Node.Call | include/fuzzuf/hierarflow/hierarflow_node_impl.hpp:95-108 | Terminates; every routine's current node is what it was; the events are those of the specified run and the node handed over to is the parent or the next sibling, as the body decided. |
| HierarFlows.Routine.GoToDefaultNext | include/fuzzuf/hierarflow/hierarflow_routine.hpp:73-80 | The sibling behind the current node, or nothing for a root or a last child. |
| HierarFlows.Routine.Body | include/fuzzuf/hierarflow/hierarflow_routine.hpp:83-108 | Whatever number of times a body calls its successors, its routine's current node is still the node it was called on, and its result is about that node. |
| HierarFlows.Routine.RunAllChildren | include/fuzzuf/hierarflow/hierarflow_routine.hpp:110-125 | Runs the children of the node as specified and restores every routine's current node. |
| HierarFlows.ChildrenInOrder | include/fuzzuf/hierarflow/hierarflow_routine.hpp:110-125 | The children run once each, in order, up to the first whose body returns to the parent; all run if none does. |
| HierarFlows.FollowChild | include/fuzzuf/hierarflow/hierarflow_routine.hpp:73-80 | A child that goes to its default next hands over to the child behind it, and the last one to nobody. |
| HierarFlows.EveryBodySeesItsNode | include/fuzzuf/hierarflow/hierarflow_node_impl.hpp:101-107 | In every run, seen from outside as a stack of entered nodes, each body finds the innermost node as its current node at every moment it looks, even if its routine is shared with its own descendants. |
| AflFast.NextP2 | utils/common.cpp:496-501 | For values up to 2^63: the smallest power of two that is at least the value. |
| AflFast.NextP2EndsIff | utils/common.cpp:496-501 | The 64-bit loop reaches the value if and only if it is at most 2^63; above that it would run forever. |
| AflFast.AFLFastState.UpdateBitmapScoreWithRawTrace | algorithms/aflfast/aflfast_state.cpp:44-92 | Every test case's reference count stays the number of entries that hold it, and its trace is present exactly if that is positive; each traced entry holds the better of its old holder and the newcomer, ties to the newcomer; other entries are unchanged; the flag is set exactly if the newcomer took an entry. |
| AflFast.AFLFastState.Offer | algorithms/aflfast/aflfast_state.cpp:53-90 | One turn of the loop: the newcomer takes the entry unless its holder is strictly better. |
| AflFast.AFLFastState.Install | algorithms/aflfast/aflfast_state.cpp:65-87 | Handing an entry over moves one reference, also when a test case displaces itself; the old holder loses its trace exactly with its last reference; a newcomer without references records one bit per byte of its trace, set where the byte is not zero. |
| AflFast.SlotsUpdate | algorithms/aflfast/aflfast_state.cpp:67-76 | Overwriting an entry changes the counts of the old and the new holder by one and no other. |
| AflFast.Compared | algorithms/aflfast/aflfast_state.cpp:57-63 | The two comparisons of the loop are the lexicographic order on the power of two and the 64-bit product of execution time and input length. |
| AflFast.StartsCounted | algorithms/aflfast/aflfast_state.cpp:44-92 | An empty table and new test cases agree. |

## Left out

- `Rule::Tokenize`, `SplitNTDescription`, `AquireNTID` and grammar loading: regular expressions, name interning and JSON; the model starts from parsed rules.
- Custom and regular-expression rules, `ShowBytes` and the `DebugShow` functions: the code throws or only prints.
- The files written by `Queue::Add`, `ChunkStore::AddTree` and `Minimize`, and the one deleted by `Finished`; `exit_reason` and `execution_time` of an item, which only name files and statistics.
- Exceptions in the middle of an update, such as a file that cannot be opened after the index changed: only completed runs are modelled. After a link that throws, the graph is left as the code leaves it and nothing is promised about it beyond what the contract says.
- Debug assertions are taken as absent, as in a release build; those of `Generate` follow from its contract.
- Sampling probabilities and the alias sampler of `RecursionInfo`: only the set of possible choices matters.
- The buffers of `Unparser`: nothing ever pushes one, so every write goes to the text.
- Branches that cannot be taken: the empty list of remaining nonterminals in `Generate`, and the missing entry in the second loop of `CalcNumOptions`.
- Contexts.SortRules: an insertion sort stands for `std::sort`; its callers use only that the result is a sorted permutation.
- Contexts.Context.GetRandomLen: signed 64-bit overflow of very large lengths is not modelled.
- Pumping.BuildRecursion: of the new sizes only the root's entry is claimed to be right; the adjustment of the inner entries is a threshold heuristic and nothing reads them.
- Mutators.Mutator.MutRules: requires that every rule's minimum fits the context's maximum length; the code does not check it, and generation would otherwise throw or wrap its budget.
- Lifecycles.NautilusState.MutRules: requires the same, and so do the routines that call it for an item in the deterministic stage.
- Lifecycles.NautilusState.ProcessInput: that running a mutation may store new items in the queue belongs to the tester's run and is not shown here; the steps of `Corpora`, which may come in any order, include it.
- The trees passed to `Mutators` and `Pumping` come with the grammar as a value where the code passes the whole context.
- The ring buffer of `RunOnWithDedup`, the executors, feedback and bitmaps: what a run of the target does is the tester's answer.
- HierarFlows.Node.AddSuccessor: child indices are unbounded, where the code has 32 bits.
- HierarFlows.Node.Call: response values passed between parent and child, and the type checks of the C++ templates.
- `Finally`, `CallRandomChild` and routines that jump to a node of their own choice, such as `SelectInput` and `ProcessInput`, as HierarFlow routines: they leave the order that the forest gives.
- AflFast.NextP2: requires a value of at most 2^63, because the code's loop does not end above that; `AflFast.NextP2EndsIff` shows that the bound is exact.
- AflFast.AFLFastState.UpdateBitmapScoreWithRawTrace: requires the same of the test cases' fuzz counts; leaves out the 32-bit width of the reference count, which the number of entries bounds, and a map size larger than the trace.
- Status screens, command line, logging, Python bindings and the other fuzzers of the framework.
