/**
 HierarFlow: nodes linked into a forest, each holding a routine that several nodes may share.
 Linking keeps the forest; running a node restores every routine's current node.
 */
module HierarFlows {
  /** What a routine returns: back to the parent, or on to the default next node. */
  datatype Verdict = ToParent | ToNext

  /** What one run of a routine's body does: how often it calls its successors, and what it returns. */
  datatype Behaviour = Behaviour(calls: nat, verdict: Verdict)

  /** The behaviour of each run of a body, in the order the bodies start: an arbitrary program. */
  type Plan = nat -> Behaviour

  /** The links of a set of nodes, as one value. */
  datatype Net = Net(parent: map<Node, Node?>, idx: map<Node, nat>, succ: map<Node, seq<Node>>)

  ghost function NetOf(nodes: set<Node>): Net
    reads nodes
  {
    Net(map n | n in nodes :: n.parent, map n | n in nodes :: n.idx, map n | n in nodes :: n.succNodes)
  }

  /** `net` is what the nodes hold. */
  ghost predicate Holds(nodes: set<Node>, net: Net)
    reads nodes
  {
    && net.parent.Keys == nodes && net.idx.Keys == nodes && net.succ.Keys == nodes
    && forall n :: n in nodes ==> net.parent[n] == n.parent && net.idx[n] == n.idx && net.succ[n] == n.succNodes
  }

  lemma HoldsNet(nodes: set<Node>)
    ensures Holds(nodes, NetOf(nodes))
  {
  }

  lemma NetHeld(nodes: set<Node>, net: Net)
    requires Holds(nodes, net)
    ensures NetOf(nodes) == net
  {
  }

  // ------------------------------------------------------------ walking upward

  /** The node `k` parents above `n`; null past the root. */
  function Up(parent: map<Node, Node?>, n: Node?, k: nat): Node? {
    if k == 0 then n
    else if n == null || n !in parent then null
    else Up(parent, parent[n], k - 1)
  }

  /** The walk from `n` ends at a root. */
  ghost predicate Rooted(parent: map<Node, Node?>, n: Node?) {
    exists k :: Up(parent, n, k) == null
  }

  ghost predicate AllRooted(parent: map<Node, Node?>) {
    forall n :: n in parent ==> Rooted(parent, n)
  }

  /** `n` is one of its own proper ancestors. */
  ghost predicate OnCycle(parent: map<Node, Node?>, n: Node?) {
    n != null && exists k :: k > 0 && Up(parent, n, k) == n
  }

  ghost predicate Acyclic(parent: map<Node, Node?>) {
    forall n :: n in parent ==> !OnCycle(parent, n)
  }

  ghost predicate AtOrAbove(parent: map<Node, Node?>, n: Node?, a: Node) {
    exists k :: Up(parent, n, k) == a
  }

  lemma {:induction false} UpNull(parent: map<Node, Node?>, k: nat)
    ensures Up(parent, null, k) == null
  {
  }

  lemma {:induction false} UpAdd(parent: map<Node, Node?>, n: Node?, j: nat, k: nat)
    ensures Up(parent, n, j + k) == Up(parent, Up(parent, n, j), k)
    decreases j
  {
    if j > 0 {
      if n == null || n !in parent {
        UpNull(parent, k);
      } else {
        UpAdd(parent, parent[n], j - 1, k);
      }
    }
  }

  /** One more step up. */
  lemma UpNext(parent: map<Node, Node?>, n: Node?, k: nat)
    ensures Up(parent, n, k + 1) ==
      var x := Up(parent, n, k); if x == null || x !in parent then null else parent[x]
  {
    UpAdd(parent, n, k, 1);
    var x := Up(parent, n, k);
    if x != null && x in parent {
      assert Up(parent, x, 1) == Up(parent, parent[x], 0);
    }
  }

  /** A walk that ended stays ended. */
  lemma UpStaysNull(parent: map<Node, Node?>, n: Node?, j: nat, k: nat)
    requires Up(parent, n, j) == null && j <= k
    ensures Up(parent, n, k) == null
  {
    UpAdd(parent, n, j, k - j);
    UpNull(parent, k - j);
  }

  lemma {:induction false} UpAround(parent: map<Node, Node?>, n: Node?, period: nat, turns: nat)
    requires Up(parent, n, period) == n
    ensures Up(parent, n, turns * period) == n
  {
    if turns > 0 {
      UpAround(parent, n, period, turns - 1);
      assert turns * period == (turns - 1) * period + period;
      UpAdd(parent, n, (turns - 1) * period, period);
    }
  }

  /** From a node on a cycle the walk never ends. */
  lemma CycleNotRooted(parent: map<Node, Node?>, n: Node?)
    requires OnCycle(parent, n)
    ensures !Rooted(parent, n)
  {
    var period :| period > 0 && Up(parent, n, period) == n;
    if Rooted(parent, n) {
      var k: nat :| Up(parent, n, k) == null;
      UpAround(parent, n, period, k);
      assert k <= k * period;
      UpStaysNull(parent, n, k, k * period);
    }
  }

  lemma AboveRooted(parent: map<Node, Node?>, n: Node?, j: nat)
    requires Rooted(parent, n)
    ensures Rooted(parent, Up(parent, n, j))
  {
    var k: nat :| Up(parent, n, k) == null;
    UpStaysNull(parent, n, k, j + k);
    UpAdd(parent, n, j, k);
  }

  lemma BelowRooted(parent: map<Node, Node?>, n: Node?, j: nat)
    requires Rooted(parent, Up(parent, n, j))
    ensures Rooted(parent, n)
  {
    var k: nat :| Up(parent, Up(parent, n, j), k) == null;
    UpAdd(parent, n, j, k);
  }

  lemma RootedAcyclic(parent: map<Node, Node?>)
    requires AllRooted(parent)
    ensures Acyclic(parent)
  {
    forall n | n in parent ensures !OnCycle(parent, n) {
      if OnCycle(parent, n) { CycleNotRooted(parent, n); }
    }
  }

  // ------------------------------------------------------- the effect of a link

  /** `after` is `before` with the parentless nodes of `kids` put under `to`. */
  ghost predicate PutUnder(before: map<Node, Node?>, kids: set<Node>, to: Node, after: map<Node, Node?>) {
    && to in before && kids <= before.Keys && after.Keys == before.Keys
    && (forall n :: n in kids ==> before[n] == null && after[n] == to)
    && (forall n :: n in before && n !in kids ==> after[n] == before[n])
  }

  /** Until it meets one of the new children, a walk is the same as before. */
  lemma {:induction false} SameWalk(before: map<Node, Node?>, kids: set<Node>, to: Node, after: map<Node, Node?>, n: Node?, k: nat)
    requires PutUnder(before, kids, to, after)
    requires forall j :: 0 <= j < k ==> Up(before, n, j) !in kids
    ensures Up(after, n, k) == Up(before, n, k)
  {
    if k > 0 {
      SameWalk(before, kids, to, after, n, k - 1);
      UpNext(before, n, k - 1);
      UpNext(after, n, k - 1);
    }
  }

  /** If the walk from the new parent still ends, every walk does. */
  lemma LinkKeepsRooted(before: map<Node, Node?>, kids: set<Node>, to: Node, after: map<Node, Node?>)
    requires PutUnder(before, kids, to, after) && AllRooted(before) && Rooted(after, to)
    ensures AllRooted(after)
  {
    forall n | n in after ensures Rooted(after, n) {
      var k: nat :| Up(before, n, k) == null;
      WalkEnds(before, kids, to, after, n, k);
    }
  }

  lemma {:induction false} WalkEnds(before: map<Node, Node?>, kids: set<Node>, to: Node, after: map<Node, Node?>, n: Node?, k: nat)
    requires PutUnder(before, kids, to, after) && Rooted(after, to) && Up(before, n, k) == null
    ensures Rooted(after, n)
  {
    if n == null {
      UpNull(after, 0);
    } else if n in kids {
      assert Up(after, n, 1) == Up(after, to, 0);
      BelowRooted(after, n, 1);
    } else if n in before {
      WalkEnds(before, kids, to, after, before[n], k - 1);
      assert Up(after, n, 1) == Up(after, before[n], 0);
      BelowRooted(after, n, 1);
    } else {
      assert Up(after, n, 1) == null;
    }
  }

  lemma UpIsAbove(parent: map<Node, Node?>, n: Node?, k: nat, a: Node)
    requires Up(parent, n, k) == a
    ensures AtOrAbove(parent, n, a)
  {
  }

  /** The walk from the new parent still ends exactly if no new child was at or above it. */
  lemma LinkRootedIff(before: map<Node, Node?>, kids: set<Node>, to: Node, after: map<Node, Node?>)
    requires PutUnder(before, kids, to, after) && AllRooted(before)
    ensures Rooted(after, to) <==> forall x :: x in kids ==> !AtOrAbove(before, to, x)
  {
    if x :| x in kids && AtOrAbove(before, to, x) {
      var k: nat :| Up(before, to, k) == x;
      LinkClosesCycle(before, kids, to, after, k);
    }
    if forall x :: x in kids ==> !AtOrAbove(before, to, x) {
      var k: nat :| Up(before, to, k) == null;
      forall j | 0 <= j < k ensures Up(before, to, j) !in kids {
        var x := Up(before, to, j);
        if x != null { UpIsAbove(before, to, j, x); }
      }
      SameWalk(before, kids, to, after, to, k);
    }
  }

  lemma {:induction false} LinkClosesCycle(before: map<Node, Node?>, kids: set<Node>, to: Node, after: map<Node, Node?>, k: nat)
    requires PutUnder(before, kids, to, after) && Up(before, to, k) in kids
    ensures OnCycle(after, to) && !Rooted(after, to)
    decreases k
  {
    if j :| 0 <= j < k && Up(before, to, j) in kids {
      LinkClosesCycle(before, kids, to, after, j);
    } else {
      SameWalk(before, kids, to, after, to, k);
      UpNext(after, to, k);
      assert Up(after, to, k + 1) == to;
      CycleNotRooted(after, to);
    }
  }

  // --------------------------------------------------------------- the forest

  /**
   A forest: a node with a parent is the child of that parent at its own index, every child
   has its parent and index, and no node is its own ancestor.
   */
  ghost predicate Forest(net: Net) {
    Wired(net) && AllRooted(net.parent)
  }

  ghost predicate Wired(net: Net) {
    && net.idx.Keys == net.parent.Keys && net.succ.Keys == net.parent.Keys
    && (forall n :: n in net.parent && net.parent[n] != null ==> IsChild(net, n, net.parent[n], net.idx[n]))
    && (forall n, k :: n in net.parent && 0 <= k < |net.succ[n]| ==> HasParent(net, net.succ[n][k], n, k))
  }

  ghost predicate IsChild(net: Net, n: Node, p: Node?, i: nat)
    requires net.succ.Keys == net.parent.Keys
  {
    p in net.parent && i < |net.succ[p]| && net.succ[p][i] == n
  }

  ghost predicate HasParent(net: Net, n: Node, p: Node, i: nat)
    requires net.idx.Keys == net.parent.Keys
  {
    n in net.parent && net.parent[n] == p && net.idx[n] == i
  }

  /** A node has one place in the forest: no node is a child twice, nor of two nodes. */
  lemma OnePlace(net: Net, p: Node, i: nat, q: Node, j: nat)
    requires Forest(net) && p in net.parent && q in net.parent
    requires i < |net.succ[p]| && j < |net.succ[q]| && net.succ[p][i] == net.succ[q][j]
    ensures p == q && i == j
  {
    assert HasParent(net, net.succ[p][i], p, i) && HasParent(net, net.succ[q][j], q, j);
  }

  /** A new node without links joins the forest. */
  lemma NewNodeJoins(net: Net, n: Node, i: nat)
    requires Forest(net) && n !in net.parent
    ensures Forest(Net(net.parent[n := null], net.idx[n := i], net.succ[n := []]))
  {
    NewNodeWired(net, n, i);
    hide Wired;
    var parent := net.parent[n := null];
    forall m | m in parent ensures Rooted(parent, m) {
      if m == n {
        assert Up(parent, n, 1) == null;
      } else {
        var k: nat :| Up(net.parent, m, k) == null;
        NewNodeSameWalk(net, n, parent, m, k);
      }
    }
  }

  lemma NewNodeWired(net: Net, n: Node, i: nat)
    requires Wired(net) && n !in net.parent
    ensures Wired(Net(net.parent[n := null], net.idx[n := i], net.succ[n := []]))
  {
    var net' := Net(net.parent[n := null], net.idx[n := i], net.succ[n := []]);
    forall m | m in net'.parent && net'.parent[m] != null ensures IsChild(net', m, net'.parent[m], net'.idx[m]) {
      assert IsChild(net, m, net.parent[m], net.idx[m]);
    }
    forall m, k | m in net'.parent && 0 <= k < |net'.succ[m]| ensures HasParent(net', net'.succ[m][k], m, k) {
      assert HasParent(net, net.succ[m][k], m, k);
    }
  }

  lemma {:induction false} NewNodeSameWalk(net: Net, n: Node, parent: map<Node, Node?>, m: Node?, k: nat)
    requires Wired(net) && n !in net.parent && parent == net.parent[n := null]
    requires m == null || m in net.parent
    ensures Up(parent, m, k) == Up(net.parent, m, k)
  {
    if k > 0 && m != null {
      if net.parent[m] != null { assert IsChild(net, m, net.parent[m], net.idx[m]); }
      NewNodeSameWalk(net, n, parent, net.parent[m], k - 1);
    }
  }

  // -------------------------------------------------------------- what a run is

  /** What happens in a run: a node is entered and left, and its body looks at its current node. */
  datatype Event = Enters(node: Node) | Sees(current: Node?) | Leaves(node: Node)

  datatype Outcome = Outcome(events: seq<Event>, time: nat)

  /** The nodes that are not at or above `n`: they become fewer on the way down. */
  ghost function Elsewhere(net: Net, n: Node): set<Node> {
    set x | x in net.parent && !AtOrAbove(net.parent, n, x)
  }

  lemma Deeper(net: Net, n: Node, i: nat)
    requires Forest(net) && n in net.parent && i < |net.succ[n]|
    ensures net.succ[n][i] in net.parent && Elsewhere(net, net.succ[n][i]) < Elsewhere(net, n)
  {
    var c := net.succ[n][i];
    assert HasParent(net, c, n, i);
    assert Up(net.parent, c, 1) == Up(net.parent, n, 0);
    forall x: Node | x in net.parent && AtOrAbove(net.parent, n, x) ensures AtOrAbove(net.parent, c, x) {
      var k: nat :| Up(net.parent, n, k) == x;
      UpAdd(net.parent, c, 1, k);
      UpIsAbove(net.parent, c, 1 + k, x);
    }
    UpIsAbove(net.parent, c, 0, c);
    if k: nat :| Up(net.parent, n, k) == c {
      UpAdd(net.parent, c, 1, k);
      assert OnCycle(net.parent, c);
      RootedAcyclic(net.parent);
    }
    assert c in Elsewhere(net, n) && c !in Elsewhere(net, c);
  }

  /** One run of a node, as the `t`-th body that starts. */
  ghost function RunSpec(net: Net, plan: Plan, n: Node, t: nat): Outcome
    requires Forest(net) && n in net.parent
    decreases Elsewhere(net, n), 2, 0
  {
    var calls := CallsSpec(net, plan, n, plan(t).calls, t + 1);
    Outcome([Enters(n), Sees(n)] + calls.events + [Leaves(n)], calls.time)
  }

  /** The body of `n` calls its successors `k` more times. */
  ghost function CallsSpec(net: Net, plan: Plan, n: Node, k: nat, t: nat): Outcome
    requires Forest(net) && n in net.parent
    decreases Elsewhere(net, n), 1, k
  {
    if k == 0 then Outcome([], t)
    else
      var r := ChildrenSpec(net, plan, n, 0, t);
      var s := CallsSpec(net, plan, n, k - 1, r.time);
      Outcome(r.events + [Sees(n)] + s.events, s.time)
  }

  /** The children of `n` from the `i`-th on run in order, up to the first that returns to the parent. */
  ghost function ChildrenSpec(net: Net, plan: Plan, n: Node, i: nat, t: nat): Outcome
    requires Forest(net) && n in net.parent && i <= |net.succ[n]|
    decreases Elsewhere(net, n), 0, |net.succ[n]| - i
  {
    if i == |net.succ[n]| then Outcome([], t)
    else
      Deeper(net, n, i);
      var r := RunSpec(net, plan, net.succ[n][i], t);
      if plan(t).verdict == ToParent then r
      else
        var s := ChildrenSpec(net, plan, n, i + 1, r.time);
        Outcome(r.events + s.events, s.time)
  }

  /** The node a run hands over to: the next sibling, or nobody. */
  ghost function Follow(net: Net, n: Node, verdict: Verdict): Node?
    requires Forest(net) && n in net.parent
  {
    var p := net.parent[n];
    if verdict == ToParent || p == null then null
    else
      assert IsChild(net, n, p, net.idx[n]);
      if net.idx[n] + 1 == |net.succ[p]| then null else net.succ[p][net.idx[n] + 1]
  }

  lemma LoopFound(parent: map<Node, Node?>, n: Node, start: Node?, j: nat, i: nat)
    requires j < i && Up(parent, start, j) == Up(parent, start, i) != null
    requires n in parent && parent[n] == start
    ensures OnCycle(parent, Up(parent, start, i)) && !Rooted(parent, n)
  {
    var c := Up(parent, start, i);
    UpAdd(parent, start, j, i - j);
    CycleNotRooted(parent, c);
    if Rooted(parent, n) {
      assert Up(parent, n, 1) == Up(parent, start, 0);
      UpAdd(parent, n, 1, i);
      AboveRooted(parent, n, 1 + i);
    }
  }

  // --------------------------------------------------------- adding successors

  predicate Different(kids: seq<Node>) {
    forall j, k :: 0 <= j < k < |kids| ==> kids[j] != kids[k]
  }

  function IndexIn(kids: seq<Node>, n: Node): (i: nat)
    requires n in kids
    ensures i < |kids| && kids[i] == n
  {
    if kids[|kids| - 1] == n then |kids| - 1 else IndexIn(kids[..|kids| - 1], n)
  }

  /** The links after the nodes of `kids` were given their parent and index. */
  ghost function Adopted(net: Net, to: Node, kids: seq<Node>): Net
    requires to in net.succ
  {
    Net(map n | n in net.parent :: if n in kids then to else net.parent[n],
        map n | n in net.idx :: if n in kids then |net.succ[to]| + IndexIn(kids, n) else net.idx[n],
        net.succ)
  }

  /** The links after `kids` were added below `to`, behind its children. */
  ghost function Extended(net: Net, to: Node, kids: seq<Node>): Net
    requires to in net.succ
  {
    Adopted(net, to, kids).(succ := net.succ[to := net.succ[to] + kids])
  }

  /** The nodes can become children: they are different and have no parent. */
  ghost predicate Adoptable(net: Net, kids: seq<Node>) {
    Different(kids) && forall n :: n in kids ==> n in net.parent && net.parent[n] == null
  }

  lemma {:induction false} IndexOfPlace(kids: seq<Node>, i: nat)
    requires Different(kids) && i < |kids|
    ensures IndexIn(kids, kids[i]) == i
  {
  }

  lemma ExtendedWired(net: Net, to: Node, kids: seq<Node>)
    requires Wired(net) && to in net.succ && Adoptable(net, kids)
    ensures Wired(Extended(net, to, kids))
  {
    var net' := Extended(net, to, kids);
    hide IndexIn;
    forall n | n in net'.parent && net'.parent[n] != null ensures IsChild(net', n, net'.parent[n], net'.idx[n]) {
      if n !in kids {
        assert IsChild(net, n, net.parent[n], net.idx[n]);
      }
    }
    forall n, k | n in net'.parent && 0 <= k < |net'.succ[n]| ensures HasParent(net', net'.succ[n][k], n, k) {
      if k < |net.succ[n]| {
        assert HasParent(net, net.succ[n][k], n, k);
      } else {
        IndexOfPlace(kids, k - |net.succ[n]|);
      }
    }
  }

  /** The first `i` nodes of `kids` could be adopted, which makes `now` of `net`. */
  ghost predicate AdoptedTo(net: Net, to: Node, kids: seq<Node>, i: nat, now: Net) {
    && i <= |kids| && to in net.succ
    && Adoptable(net, kids[..i]) && now == Adopted(net, to, kids[..i])
  }

  lemma AdoptedAll(net: Net, to: Node, kids: seq<Node>, now: Net)
    requires AdoptedTo(net, to, kids, |kids|, now)
    ensures Adoptable(net, kids) && now == Adopted(net, to, kids)
  {
    assert kids[..|kids|] == kids;
  }

  lemma AdoptNone(net: Net, to: Node, kids: seq<Node>)
    requires to in net.succ && Holding(net)
    ensures AdoptedTo(net, to, kids, 0, net)
  {
  }

  /** Its three maps have the same nodes. */
  ghost predicate Holding(net: Net) {
    net.parent.Keys == net.idx.Keys == net.succ.Keys
  }

  /** One more node is adopted. */
  lemma AdoptNext(net: Net, to: Node, kids: seq<Node>, i: nat, mid: Net, node: Node)
    requires AdoptedTo(net, to, kids, i, mid) && i < |kids| && node == kids[i] && Holding(net) && node in net.parent
    ensures node in mid.parent
    ensures mid.parent[node] == null ==>
      AdoptedTo(net, to, kids, i + 1, Net(mid.parent[node := to], mid.idx[node := |net.succ[to]| + i], mid.succ))
    ensures mid.parent[node] != null ==> !Adoptable(net, kids)
  {
    var next := i + 1;
    if mid.parent[kids[i]] != null {
      assert kids[i] in kids;
      if kids[i] in kids[..i] {
        var j :| 0 <= j < i && kids[..i][j] == kids[i];
        assert kids[j] == kids[i];
      }
    } else {
      assert kids[i] !in kids[..i];
      OneMoreIndex(kids, i, next);
      assert forall n :: n in kids[..next] <==> n in kids[..i] || n == kids[i];
      hide IndexIn;
      assert Adoptable(net, kids[..next]);
    }
  }

  lemma OneMoreIndex(kids: seq<Node>, i: nat, next: nat)
    requires i < |kids| && next == i + 1 && kids[i] !in kids[..i]
    ensures kids[..next] == kids[..i] + [kids[i]]
    ensures forall n :: n in kids[..next] ==> IndexIn(kids[..next], n) == if n in kids[..i] then IndexIn(kids[..i], n) else i
  {
    assert kids[..next][..i] == kids[..i];
  }

  lemma ExtendedOne(net: Net, to: Node, node: Node, net': Net)
    requires to in net.succ && node in net.parent && net.parent[node] == null && node in net.idx
    requires net' == Net(net.parent[node := to], net.idx[node := |net.succ[to]|], net.succ[to := net.succ[to] + [node]])
    ensures Adoptable(net, [node]) && net' == Extended(net, to, [node])
  {
    assert IndexIn([node], node) == 0;
  }

  lemma AdoptedKeepsSucc(net: Net, to: Node, kids: seq<Node>)
    requires to in net.succ
    ensures Adopted(net, to, kids).succ == net.succ
  {
  }

  lemma ExtendedAll(net: Net, to: Node, kids: seq<Node>, net': Net)
    requires to in net.succ
    requires net' == Adopted(net, to, kids).(succ := net.succ[to := net.succ[to] + kids])
    ensures net' == Extended(net, to, kids)
  {
  }

  lemma ParentsInside(net: Net, kids: seq<Node>, to: Node, net': Net)
    requires Forest(net) && to in net.succ && net' == Extended(net, to, kids)
    ensures forall n :: n in net'.parent && net'.parent[n] != null ==> net'.parent[n] in net'.parent
  {
    forall n | n in net'.parent && net'.parent[n] != null ensures net'.parent[n] in net'.parent {
      if n !in kids { assert IsChild(net, n, net.parent[n], net.idx[n]); }
    }
  }

  /** What the check after a link found out. */
  lemma LinkOutcome(net: Net, to: Node, kids: seq<Node>, net': Net, ok: bool)
    requires Forest(net) && to in net.succ && Adoptable(net, kids) && net' == Extended(net, to, kids)
    requires ok <==> Rooted(net'.parent, to)
    ensures ok <==> forall x :: x in kids ==> !AtOrAbove(net.parent, to, x)
    ensures ok <==> Acyclic(net'.parent)
    ensures ok ==> Forest(net')
  {
    var young := set n | n in kids;
    assert PutUnder(net.parent, young, to, net'.parent);
    hide Wired, Up, PutUnder;
    LinkRootedIff(net.parent, young, to, net'.parent);
    if ok {
      ExtendedWired(net, to, kids);
      LinkKeepsRooted(net.parent, young, to, net'.parent);
      RootedAcyclic(net'.parent);
    } else {
      var x :| x in kids && AtOrAbove(net.parent, to, x);
      var k: nat :| Up(net.parent, to, k) == x;
      LinkClosesCycle(net.parent, young, to, net'.parent, k);
      assert OnCycle(net'.parent, to);
    }
  }

  class Node {
    var parent: Node?
    var idx: nat
    var succNodes: seq<Node>
    const routine: Routine

    constructor (routine: Routine)
      ensures this.routine == routine && parent == null && succNodes == []
    {
      this.routine, parent, succNodes := routine, null, [];
    }

    // ---------------------------------------------------------------- linking

    /** Fails if the node has a parent already. */
    method SetParentAndIndex(caller: Node, num: nat) returns (ok: bool)
      modifies this`parent, this`idx
      ensures ok <==> old(parent) == null
      ensures !ok ==> unchanged(this)
      ensures ok ==> parent == caller && idx == num
    {
      if parent != null {
        return false;
      }
      parent := caller;
      idx := num;
      return true;
    }

    /** Walks up from this node; fails if it comes back to a node it has seen. */
    method GuaranteeNoLoop(ghost nodes: set<Node>, ghost up: map<Node, Node?>) returns (ok: bool)
      requires this in nodes && up == NetOf(nodes).parent
      requires forall n :: n in up && up[n] != null ==> up[n] in up
      ensures ok <==> Rooted(up, this)
    {
      var appeared: set<Node> := {};
      var p := parent;
      ghost var i := 0;
      assert up[this] == p;
      assert Up(up, this, 1) == Up(up, p, 0);
      while p != null
        invariant p == Up(up, parent, i) && (p != null ==> p in nodes)
        invariant forall n :: n in appeared ==> n in nodes && exists j :: 0 <= j < i && Up(up, parent, j) == n
        decreases nodes - appeared
      {
        if p in appeared {
          ghost var j :| 0 <= j < i && Up(up, parent, j) == p;
          LoopFound(up, this, parent, j, i);
          return false;
        }
        UpNext(up, parent, i);
        appeared := appeared + {p};
        p := p.parent;
        i := i + 1;
      }
      UpAdd(up, this, 1, i);
      return true;
    }

    /** Puts a node under this one; fails if it has a parent or if that closes a cycle. */
    method AddSuccessor(ghost nodes: set<Node>, node: Node) returns (ok: bool)
      requires this in nodes && node in nodes && Forest(NetOf(nodes))
      modifies this`succNodes, node`parent, node`idx
      ensures ok ==> Forest(NetOf(nodes))
      ensures ok <==> old(node.parent) == null && !old(AtOrAbove(NetOf(nodes).parent, this, node))
      ensures old(node.parent) == null ==> (ok <==> Acyclic(NetOf(nodes).parent))
      ensures old(node.parent) != null ==> NetOf(nodes) == old(NetOf(nodes))
      ensures ok ==> NetOf(nodes) == Extended(old(NetOf(nodes)), this, [node])
    {
      ghost var before := NetOf(nodes);
      HoldsNet(nodes);
      hide Forest, AtOrAbove, Acyclic, Rooted, Adoptable, Extended, Adopted, NetOf;
      var nodeIdx := |succNodes|;
      var fits := node.SetParentAndIndex(this, nodeIdx);
      if !fits {
        NetHeld(nodes, before);
        return false;
      }
      succNodes := succNodes + [node];
      ghost var after := Net(before.parent[node := this], before.idx[node := nodeIdx], before.succ[this := succNodes]);
      NetHeld(nodes, after);
      ExtendedOne(before, this, node, after);
      ParentsInside(before, [node], this, after);
      ok := GuaranteeNoLoop(nodes, after.parent);
      LinkOutcome(before, this, [node], after, ok);
      assert node in [node];
    }

    /** Puts all the nodes under this one, in order. */
    method AddSuccessors(ghost nodes: set<Node>, kids: seq<Node>) returns (ok: bool)
      requires this in nodes && (forall n :: n in kids ==> n in nodes) && Forest(NetOf(nodes))
      modifies this`succNodes, kids`parent, kids`idx
      ensures ok ==> Forest(NetOf(nodes)) && NetOf(nodes) == Extended(old(NetOf(nodes)), this, kids)
      ensures ok <==> old(Adoptable(NetOf(nodes), kids)) && forall n :: n in kids ==> !old(AtOrAbove(NetOf(nodes).parent, this, n))
      ensures old(Adoptable(NetOf(nodes), kids)) ==> (ok <==> Acyclic(NetOf(nodes).parent))
    {
      ghost var before := NetOf(nodes);
      HoldsNet(nodes);
      hide Forest, AtOrAbove, Acyclic, Rooted, Adoptable, Extended, Adopted, NetOf;
      ok := AdoptAll(nodes, before, kids);
      if !ok {
        return false;
      }
      HoldsNet(nodes);
      AdoptedKeepsSucc(before, this, kids);
      succNodes := succNodes + kids;
      ghost var after := Adopted(before, this, kids).(succ := before.succ[this := succNodes]);
      NetHeld(nodes, after);
      ExtendedAll(before, this, kids, after);
      ParentsInside(before, kids, this, after);
      ok := GuaranteeNoLoop(nodes, after.parent);
      LinkOutcome(before, this, kids, after, ok);
    }

    /** The loop of `AddSuccessors`: gives every node its parent and index. */
    method AdoptAll(ghost nodes: set<Node>, ghost before: Net, kids: seq<Node>) returns (ok: bool)
      requires this in nodes && (forall n :: n in kids ==> n in nodes) && before == NetOf(nodes)
      modifies kids`parent, kids`idx
      ensures ok <==> Adoptable(before, kids)
      ensures ok ==> NetOf(nodes) == Adopted(before, this, kids)
    {
      HoldsNet(nodes);
      hide Adoptable, Adopted, AdoptedTo, NetOf;
      AdoptNone(before, this, kids);
      var nodeIdx := |succNodes|;
      var i := 0;
      while i < |kids|
        invariant 0 <= i <= |kids| && nodeIdx == |before.succ[this]| + i
        invariant AdoptedTo(before, this, kids, i, NetOf(nodes))
      {
        var fits := AdoptOne(nodes, before, kids, i, kids[i], nodeIdx);
        if !fits {
          return false;
        }
        nodeIdx := nodeIdx + 1;
        i := i + 1;
      }
      AdoptedAll(before, this, kids, NetOf(nodes));
      return true;
    }

    /** One turn of the loop. */
    method AdoptOne(ghost nodes: set<Node>, ghost before: Net, ghost kids: seq<Node>, ghost i: nat, node: Node, nodeIdx: nat)
      returns (ok: bool)
      requires this in nodes && i < |kids| && kids[i] == node && node in nodes
      requires before.parent.Keys == before.idx.Keys == before.succ.Keys == nodes
      requires nodeIdx == |before.succ[this]| + i
      requires AdoptedTo(before, this, kids, i, NetOf(nodes))
      modifies node`parent, node`idx
      ensures ok ==> AdoptedTo(before, this, kids, i + 1, NetOf(nodes))
      ensures !ok ==> !Adoptable(before, kids)
    {
      hide Adoptable, AdoptedTo, NetOf;
      ghost var mid := NetOf(nodes);
      HoldsNet(nodes);
      AdoptNext(before, this, kids, i, mid, node);
      ok := node.SetParentAndIndex(this, nodeIdx);
      if ok {
        NetHeld(nodes, Net(mid.parent[node := this], mid.idx[node := nodeIdx], mid.succ));
      }
    }

    // ---------------------------------------------------------------- running

    /** Runs the routine with this node as its current node, and restores the routine's current node. */
    method Call(plan: Plan, t: nat, ghost nodes: set<Node>, ghost routines: set<Routine>, ghost net: Net)
      returns (next: Node?, events: seq<Event>, time: nat)
      requires Holds(nodes, net) && Forest(net) && this in nodes && Uses(nodes, routines)
      modifies routines
      ensures forall r :: r in routines ==> r.current == old(r.current)
      ensures next == Follow(net, this, plan(t).verdict)
      ensures Outcome(events, time) == RunSpec(net, plan, this, t)
      decreases Elsewhere(net, this), 4
    {
      var preLinked := routine.current;
      routine.current := this;
      next, events, time := routine.Body(plan, t, nodes, routines, net, this);
      events := [Enters(this)] + events + [Leaves(this)];
      routine.current := preLinked;
    }
  }

  /** Every node's routine is among `routines`; nodes may share one. */
  ghost predicate Uses(nodes: set<Node>, routines: set<Routine>) {
    forall n :: n in nodes ==> n.routine in routines
  }

  class Routine {
    var current: Node?

    constructor ()
      ensures current == null
    {
      current := null;
    }

    function GoToParent(): Node? {
      null
    }

    /** The node after the current node, if it has one. */
    method GoToDefaultNext() returns (next: Node?)
      requires current != null && (current.parent != null ==> current.idx < |current.parent.succNodes|)
      ensures next ==
        if current.parent == null || current.idx + 1 == |current.parent.succNodes| then null
        else current.parent.succNodes[current.idx + 1]
    {
      if current.parent == null {
        return null;
      }
      if current.idx + 1 == |current.parent.succNodes| {
        return null;
      }
      return current.parent.succNodes[current.idx + 1];
    }

    /** An arbitrary body: it calls its successors as often as the plan says and returns its verdict. */
    method Body(plan: Plan, t: nat, ghost nodes: set<Node>, ghost routines: set<Routine>, ghost net: Net, ghost n: Node)
      returns (next: Node?, events: seq<Event>, time: nat)
      requires Holds(nodes, net) && Forest(net) && n in nodes && Uses(nodes, routines)
      requires this in routines && current == n
      modifies routines
      ensures forall r :: r in routines ==> r.current == old(r.current)
      ensures next == Follow(net, n, plan(t).verdict)
      ensures Outcome([Enters(n)] + events + [Leaves(n)], time) == RunSpec(net, plan, n, t)
      decreases Elsewhere(net, n), 3
    {
      hide AllRooted, Elsewhere, CallsSpec, ChildrenSpec, RunSpec;
      events, time := [Sees(current)], t + 1;
      var k := plan(t).calls;
      ghost var all := CallsSpec(net, plan, n, k, time);
      while k > 0
        invariant Holds(nodes, net) && k >= 0
        invariant forall r :: r in routines ==> r.current == old(r.current)
        invariant events + CallsSpec(net, plan, n, k, time).events == [Sees(n)] + all.events
        invariant CallsSpec(net, plan, n, k, time).time == all.time
      {
        var more;
        ghost var t0 := time;
        more, time := RunAllChildren(plan, time, nodes, routines, net, n);
        CallTurn(net, plan, n, k, t0, events, more, time);
        events := events + more + [Sees(current)];
        k := k - 1;
      }
      RunWhole(net, plan, n, t, events, time);
      if plan(t).verdict == ToParent {
        next := GoToParent();
      } else {
        assert net.parent[n] != null ==> IsChild(net, n, net.parent[n], net.idx[n]);
        next := GoToDefaultNext();
      }
    }

    /** Runs the children of the current node, each following the one that hands over to it. */
    method RunAllChildren(plan: Plan, t: nat, ghost nodes: set<Node>, ghost routines: set<Routine>, ghost net: Net, ghost n: Node)
      returns (events: seq<Event>, time: nat)
      requires Holds(nodes, net) && Forest(net) && n in nodes && Uses(nodes, routines)
      requires this in routines && current == n
      modifies routines
      ensures forall r :: r in routines ==> r.current == old(r.current)
      ensures Outcome(events, time) == ChildrenSpec(net, plan, n, 0, t)
      decreases Elsewhere(net, n), 2
    {
      events, time := [], t;
      var succ: Node? := null;
      if |current.succNodes| != 0 {
        succ := current.succNodes[0];
      }
      ghost var all := ChildrenSpec(net, plan, n, 0, t);
      ghost var i: nat := 0;
      assert [] + all.events == all.events;
      ChildrenDone(net, plan, n, t);
      hide Forest, ChildrenSpec, RunSpec, Elsewhere, Follow;
      while succ != null
        invariant Holds(nodes, net)
        invariant forall r :: r in routines ==> r.current == old(r.current)
        invariant i <= |net.succ[n]|
        invariant if succ == null then Outcome(events, time) == all
          else i < |net.succ[n]| && succ == net.succ[n][i] && all == Before(events, ChildrenSpec(net, plan, n, i, time))
        decreases |net.succ[n]| - i
      {
        Deeper(net, n, i);
        var next, more;
        ghost var t0, sofar := time, events;
        next, more, time := succ.Call(plan, time, nodes, routines, net);
        events := events + more;
        ChildTurn(net, plan, n, i, t0, sofar, more, time, events, next);
        succ := next;
        i := i + 1;
      }
    }
  }

  function Before(events: seq<Event>, rest: Outcome): Outcome {
    Outcome(events + rest.events, rest.time)
  }

  /** What is left of a body after one call of its successors. */
  lemma CallTurn(net: Net, plan: Plan, n: Node, k: nat, t: nat, sofar: seq<Event>, more: seq<Event>, time: nat)
    requires Forest(net) && n in net.parent && k > 0
    requires Outcome(more, time) == ChildrenSpec(net, plan, n, 0, t)
    ensures CallsSpec(net, plan, n, k, t).time == CallsSpec(net, plan, n, k - 1, time).time
    ensures sofar + CallsSpec(net, plan, n, k, t).events ==
      sofar + more + [Sees(n)] + CallsSpec(net, plan, n, k - 1, time).events
  {
    hide Forest, ChildrenSpec, Elsewhere;
    var rest := CallsSpec(net, plan, n, k - 1, time).events;
    assert sofar + (more + [Sees(n)] + rest) == sofar + more + [Sees(n)] + rest;
  }

  lemma RunWhole(net: Net, plan: Plan, n: Node, t: nat, events: seq<Event>, time: nat)
    requires Forest(net) && n in net.parent
    requires
      var all := CallsSpec(net, plan, n, plan(t).calls, t + 1);
      events + CallsSpec(net, plan, n, 0, time).events == [Sees(n)] + all.events &&
      CallsSpec(net, plan, n, 0, time).time == all.time
    ensures Outcome([Enters(n)] + events + [Leaves(n)], time) == RunSpec(net, plan, n, t)
  {
    hide Forest, ChildrenSpec, Elsewhere;
    var all := CallsSpec(net, plan, n, plan(t).calls, t + 1);
    assert events == [Sees(n)] + all.events;
    assert [Enters(n)] + ([Sees(n)] + all.events) == [Enters(n), Sees(n)] + all.events;
  }

  lemma ChildrenDone(net: Net, plan: Plan, n: Node, t: nat)
    requires Forest(net) && n in net.parent
    ensures |net.succ[n]| == 0 ==> ChildrenSpec(net, plan, n, 0, t) == Outcome([], t)
  {
  }

  /** What is left to run after a child has run. */
  lemma ChildTurn(net: Net, plan: Plan, n: Node, i: nat, t: nat, sofar: seq<Event>, more: seq<Event>, time: nat,
                  events: seq<Event>, next: Node?)
    requires Forest(net) && n in net.parent && i < |net.succ[n]| && net.succ[n][i] in net.parent
    requires Outcome(more, time) == RunSpec(net, plan, net.succ[n][i], t) && events == sofar + more
    requires next == Follow(net, net.succ[n][i], plan(t).verdict)
    ensures next != null ==> i + 1 < |net.succ[n]| && next == net.succ[n][i + 1]
    ensures Before(sofar, ChildrenSpec(net, plan, n, i, t)) ==
      if next == null then Outcome(events, time) else Before(events, ChildrenSpec(net, plan, n, i + 1, time))
  {
    hide AllRooted, IsChild, HasParent, RunSpec, Follow, Elsewhere;
    FollowChild(net, n, i, plan(t).verdict);
    if plan(t).verdict == ToNext {
      var rest := ChildrenSpec(net, plan, n, i + 1, time).events;
      assert sofar + (more + rest) == events + rest;
      if i + 1 < |net.succ[n]| {
        var sibling: Node := net.succ[n][i + 1];
        assert next == sibling;
      }
    }
  }

  /** A child that goes on hands over to the child behind it. */
  lemma FollowChild(net: Net, n: Node, i: nat, verdict: Verdict)
    requires Forest(net) && n in net.parent && i < |net.succ[n]|
    ensures net.succ[n][i] in net.parent
    ensures Follow(net, net.succ[n][i], verdict) ==
      if verdict == ToParent || i + 1 == |net.succ[n]| then null else net.succ[n][i + 1]
  {
    assert HasParent(net, net.succ[n][i], n, i);
  }

  // ----------------------------------------------------- what runs promise

  /**
   Watches a run from outside, with the nodes being run as a stack: a node leaves after those
   it entered, and a body always finds the innermost node as its current node.
   */
  ghost predicate Watch(events: seq<Event>, stack: seq<Node>, stack': seq<Node>)
    decreases |events|
  {
    if events == [] then stack' == stack
    else match events[0]
      case Enters(n) => Watch(events[1..], stack + [n], stack')
      case Sees(current) => stack != [] && current == stack[|stack| - 1] && Watch(events[1..], stack, stack')
      case Leaves(n) => stack != [] && n == stack[|stack| - 1] && Watch(events[1..], stack[..|stack| - 1], stack')
  }

  lemma {:induction false} WatchAppend(a: seq<Event>, b: seq<Event>, stack: seq<Node>, mid: seq<Node>, stack': seq<Node>)
    requires Watch(a, stack, mid) && Watch(b, mid, stack')
    ensures Watch(a + b, stack, stack')
    decreases |a|
  {
    if a == [] {
      assert a + b == b;
    } else {
      assert (a + b)[1..] == a[1..] + b;
      match a[0]
      case Enters(n) => WatchAppend(a[1..], b, stack + [n], mid, stack');
      case Sees(current) => WatchAppend(a[1..], b, stack, mid, stack');
      case Leaves(n) => WatchAppend(a[1..], b, stack[..|stack| - 1], mid, stack');
    }
  }

  lemma WatchOne(n: Node, stack: seq<Node>)
    ensures Watch([Sees(n)], stack + [n], stack + [n])
    ensures Watch([Enters(n)], stack, stack + [n])
    ensures Watch([Leaves(n)], stack + [n], stack)
    ensures Watch([], stack, stack)
  {
    assert (stack + [n])[..|stack + [n]| - 1] == stack;
  }

  /** In every run each body sees the node it was called on, even where its routine is shared. */
  lemma {:induction false} EveryBodySeesItsNode(net: Net, plan: Plan, n: Node, t: nat, stack: seq<Node>)
    requires Forest(net) && n in net.parent
    ensures Watch(RunSpec(net, plan, n, t).events, stack, stack)
    decreases Elsewhere(net, n), 2, 0
  {
    hide Forest, Watch, CallsSpec, Elsewhere;
    var calls := CallsSpec(net, plan, n, plan(t).calls, t + 1).events;
    WatchOne(n, stack);
    CallsWatched(net, plan, n, plan(t).calls, t + 1, stack);
    WatchAppend([Enters(n)], [Sees(n)], stack, stack + [n], stack + [n]);
    assert [Enters(n)] + [Sees(n)] == [Enters(n), Sees(n)];
    WatchAppend([Enters(n), Sees(n)], calls, stack, stack + [n], stack + [n]);
    WatchAppend([Enters(n), Sees(n)] + calls, [Leaves(n)], stack, stack + [n], stack);
  }

  lemma {:induction false} CallsWatched(net: Net, plan: Plan, n: Node, k: nat, t: nat, stack: seq<Node>)
    requires Forest(net) && n in net.parent
    ensures Watch(CallsSpec(net, plan, n, k, t).events, stack + [n], stack + [n])
    decreases Elsewhere(net, n), 1, k
  {
    hide Forest, Watch, ChildrenSpec, Elsewhere;
    WatchOne(n, stack);
    WatchOne(n, stack + [n]);
    if k > 0 {
      var r := ChildrenSpec(net, plan, n, 0, t);
      var s := CallsSpec(net, plan, n, k - 1, r.time);
      ChildrenWatched(net, plan, n, 0, t, stack + [n]);
      CallsWatched(net, plan, n, k - 1, r.time, stack);
      WatchAppend(r.events, [Sees(n)], stack + [n], stack + [n], stack + [n]);
      WatchAppend(r.events + [Sees(n)], s.events, stack + [n], stack + [n], stack + [n]);
    }
  }

  lemma {:induction false} ChildrenWatched(net: Net, plan: Plan, n: Node, i: nat, t: nat, stack: seq<Node>)
    requires Forest(net) && n in net.parent && i <= |net.succ[n]|
    ensures Watch(ChildrenSpec(net, plan, n, i, t).events, stack, stack)
    decreases Elsewhere(net, n), 0, |net.succ[n]| - i
  {
    hide AllRooted, Watch, RunSpec, Elsewhere;
    if i == |net.succ[n]| {
      WatchOne(n, stack);
    } else {
      Deeper(net, n, i);
      var c := net.succ[n][i];
      EveryBodySeesItsNode(net, plan, c, t, stack);
      if plan(t).verdict == ToNext {
        var r := RunSpec(net, plan, c, t);
        ChildrenWatched(net, plan, n, i + 1, r.time, stack);
        WatchAppend(r.events, ChildrenSpec(net, plan, n, i + 1, r.time).events, stack, stack, stack);
      }
    }
  }

  /** `ts` are the times at which the children `i`, `i + 1`, ... of `n` start, from `t` to `end`. */
  ghost predicate RunsInOrder(net: Net, plan: Plan, n: Node, i: nat, t: nat, ts: seq<nat>, o: Outcome)
    requires Forest(net) && n in net.parent && i + |ts| <= |net.succ[n]|
    decreases |ts|
  {
    if ts == [] then o == Outcome([], t)
    else
      Deeper(net, n, i);
      var r := RunSpec(net, plan, net.succ[n][i], t);
      && ts[0] == t && r.events <= o.events
      && RunsInOrder(net, plan, n, i + 1, r.time, ts[1..], Outcome(o.events[|r.events|..], o.time))
  }

  /**
   Calling the successors runs the children once each, in order, up to the first whose body
   returns to the parent: all before it go on, and if none returns, all of them run.
   */
  lemma {:induction false} ChildrenInOrder(net: Net, plan: Plan, n: Node, i: nat, t: nat) returns (ts: seq<nat>)
    requires Forest(net) && n in net.parent && i <= |net.succ[n]|
    ensures i + |ts| <= |net.succ[n]| && RunsInOrder(net, plan, n, i, t, ts, ChildrenSpec(net, plan, n, i, t))
    ensures forall k :: 0 <= k < |ts| - 1 ==> plan(ts[k]).verdict == ToNext
    ensures i + |ts| == |net.succ[n]| || (ts != [] && plan(ts[|ts| - 1]).verdict == ToParent)
    decreases |net.succ[n]| - i
  {
    hide AllRooted, RunSpec, Elsewhere;
    if i == |net.succ[n]| {
      return [];
    }
    Deeper(net, n, i);
    var r := RunSpec(net, plan, net.succ[n][i], t);
    var o := ChildrenSpec(net, plan, n, i, t);
    if plan(t).verdict == ToParent {
      ts := [t];
      assert o.events[|r.events|..] == [];
    } else {
      var rest := ChildrenInOrder(net, plan, n, i + 1, r.time);
      ts := [t] + rest;
      assert o.events[|r.events|..] == ChildrenSpec(net, plan, n, i + 1, r.time).events;
    }
  }
}
