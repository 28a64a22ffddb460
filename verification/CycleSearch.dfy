/** The depth-first cycle finder of `DependencyGraph` as functions of its arguments, and what it
    finds. `names` is the reverse index from node to mount id. The two `&mut` arguments of the
    original, `visited` and `stack`, are threaded through `Search`. */
module CycleSearch {
  import opened Wrappers
  import opened DirectedGraphs
  import opened DepthFirst

  /** Recursion is abandoned once this many names are on the stack. */
  const DEPTH_LIMIT: nat := 1000

  datatype Search = Search(cycle: Option<seq<string>>, visited: set<nat>, stack: seq<string>)

  function IndexOf(stack: seq<string>, id: string): (p: nat)
    ensures p <= |stack|
    ensures p < |stack| ==> stack[p] == id
    ensures forall i :: 0 <= i < p ==> stack[i] != id
  {
    if stack == [] || stack[0] == id then 0 else 1 + IndexOf(stack[1..], id)
  }

  function Pop(stack: seq<string>): seq<string> {
    if stack == [] then [] else stack[..|stack| - 1]
  }

  /** One call of `dfs_find_cycle` */
  function Visit(g: DiGraph, names: map<nat, string>, node: nat, visited: set<nat>, stack: seq<string>): (r: Search)
    requires Valid(g) && node < g.nodes
    ensures visited <= r.visited
    decreases Below(g.nodes) - visited, 0
  {
    if |stack| > DEPTH_LIMIT then Search(None, visited, stack)
    else if node in visited then
      var p := if node in names then IndexOf(stack, names[node]) else |stack|;
      Search(if p < |stack| then Some(stack[p..]) else None, visited, stack)
    else
      var entered := if node in names then stack + [names[node]] else stack;
      TargetsInRange(g, node);
      var r := VisitEach(g, names, Targets(g.links, node), visited + {node}, entered);
      if r.cycle.Some? then r
      else Search(None, r.visited, if node in names then Pop(r.stack) else r.stack)
  }

  /** The loop over the neighbours inside one call */
  function VisitEach(g: DiGraph, names: map<nat, string>, nodes: seq<nat>, visited: set<nat>, stack: seq<string>)
    : (r: Search)
    requires Valid(g) && InRange(nodes, g.nodes)
    ensures visited <= r.visited
    decreases Below(g.nodes) - visited, |nodes| + 1
  {
    if nodes == [] then Search(None, visited, stack)
    else
      var r := Visit(g, names, nodes[0], visited, stack);
      if r.cycle.Some? then r
      else VisitEach(g, names, nodes[1..], r.visited, r.stack)
  }

  lemma VisitSeen(g: DiGraph, names: map<nat, string>, node: nat, visited: set<nat>, stack: seq<string>)
    requires Valid(g) && node < g.nodes && node in names && node in visited && |stack| <= DEPTH_LIMIT
    ensures var p := IndexOf(stack, names[node]);
            Visit(g, names, node, visited, stack)
            == Search(if p < |stack| then Some(stack[p..]) else None, visited, stack)
  {
  }

  lemma VisitNew(g: DiGraph, names: map<nat, string>, node: nat, visited: set<nat>, stack: seq<string>)
    requires Valid(g) && node < g.nodes && node in names && node !in visited && |stack| <= DEPTH_LIMIT
    ensures InRange(Targets(g.links, node), g.nodes)
    ensures var r := VisitEach(g, names, Targets(g.links, node), visited + {node}, stack + [names[node]]);
            Visit(g, names, node, visited, stack)
            == if r.cycle.Some? then r else Search(None, r.visited, Pop(r.stack))
  {
    TargetsInRange(g, node);
  }

  /** The only neighbour of a node not visited yet reports. */
  lemma EnterOnly(g: DiGraph, names: map<nat, string>, node: nat, next: nat, visited: set<nat>, stack: seq<string>)
    requires Valid(g) && node < g.nodes && next < g.nodes && node !in visited && |stack| <= DEPTH_LIMIT
    requires Targets(g.links, node) == [next]
    ensures var entered := if node in names then stack + [names[node]] else stack;
            var r := Visit(g, names, next, visited + {node}, entered);
            r.cycle.Some? ==> Visit(g, names, node, visited, stack) == r
  {
    hide Valid;
    TargetsInRange(g, node);
  }

  /** The root loop of `check_circular_dependencies` from node `node` on: every cycle reported. */
  function CheckFrom(g: DiGraph, names: map<nat, string>, node: nat, visited: set<nat>, stack: seq<string>)
    : seq<seq<string>>
    requires Valid(g) && node <= g.nodes
    decreases g.nodes - node
  {
    if node == g.nodes then []
    else if node in visited then CheckFrom(g, names, node + 1, visited, stack)
    else
      var r := Visit(g, names, node, visited, stack);
      var rest := CheckFrom(g, names, node + 1, r.visited, r.stack);
      if r.cycle.Some? then [r.cycle.value] + rest else rest
  }

  function Check(g: DiGraph, names: map<nat, string>): seq<seq<string>>
    requires Valid(g)
  {
    CheckFrom(g, names, 0, {}, [])
  }

  // ---- what a search under way looks like ----------------------------------------------------

  /** The reverse index names every node, and no two alike. */
  ghost predicate Named(g: DiGraph, names: map<nat, string>) {
    && (forall v: nat :: v in names <==> v < g.nodes)
    && (forall u, v :: u in names && v in names && names[u] == names[v] ==> u == v)
  }

  function Ids(names: map<nat, string>, path: seq<nat>): (ids: seq<string>)
    requires forall i :: 0 <= i < |path| ==> path[i] in names
    ensures |ids| == |path| && forall i :: 0 <= i < |path| ==> ids[i] == names[path[i]]
  {
    seq(|path|, i requires 0 <= i < |path| => names[path[i]])
  }

  /** `cycle` spells out a genuine cycle of the graph. */
  ghost predicate GenuineCycle(g: DiGraph, names: map<nat, string>, cycle: seq<string>) {
    exists c :: IsCycle(g, c) && (forall i :: 0 <= i < |c| ==> c[i] in names) && cycle == Ids(names, c)
  }

  /** The stack holds the names of distinct visited nodes: first those that earlier searches left behind,
      then the walk that the current search is on. */
  ghost predicate OnStack(g: DiGraph, names: map<nat, string>, left: seq<nat>, path: seq<nat>, visited: set<nat>,
                          stack: seq<string>)
  {
    var all := left + path;
    && Distinct(all) && InRange(all, g.nodes) && IsWalk(g, path)
    && (forall i :: 0 <= i < |all| ==> all[i] in names && all[i] in visited)
    && stack == Ids(names, all)
  }

  /** The walk can be continued to `v`. */
  ghost predicate LeadsTo(g: DiGraph, path: seq<nat>, v: nat) {
    path != [] ==> HasEdge(g, path[|path| - 1], v)
  }

  lemma PathGrows(g: DiGraph, names: map<nat, string>, left: seq<nat>, path: seq<nat>, visited: set<nat>,
                  stack: seq<string>, v: nat)
    requires Named(g, names) && v < g.nodes && v !in visited
    requires OnStack(g, names, left, path, visited, stack) && LeadsTo(g, path, v)
    ensures OnStack(g, names, left, path + [v], visited + {v}, stack + [names[v]])
  {
    hide HasEdge;
    var longer := path + [v];
    assert left + longer == left + path + [v];
    assert IsWalk(g, longer) by {
      forall k, m | 0 <= k && m == k + 1 && m < |longer| ensures HasEdge(g, longer[k], longer[m]) {
        if m < |path| {
          assert longer[k] == path[k] && longer[m] == path[m];
        }
      }
    }
    assert stack + [names[v]] == Ids(names, left + longer);
  }

  // ---- what a report is --------------------------------------------------------------------------

  /** The report consists of the names on the stack from `start` on, and the walk's last node has an edge to
      the node at `start`. */
  ghost predicate Reported(g: DiGraph, names: map<nat, string>, left: seq<nat>, path: seq<nat>, start: nat, r: Search)
  {
    && OnStack(g, names, left, path, r.visited, r.stack)
    && path != [] && start < |left| + |path| && HasEdge(g, path[|path| - 1], (left + path)[start])
    && r.cycle == Some(r.stack[start..])
  }

  /** The search reports a walk that continues `path`, or it reports nothing and restores the stack. */
  ghost predicate Continues(g: DiGraph, names: map<nat, string>, left: seq<nat>, path: seq<nat>, stack: seq<string>,
                            r: Search, walk: seq<nat>, start: nat)
  {
    if r.cycle.None? then r.stack == stack else path <= walk && Reported(g, names, left, walk, start, r)
  }

  lemma StackStays(g: DiGraph, names: map<nat, string>, left: seq<nat>, path: seq<nat>, visited: set<nat>,
                   stack: seq<string>, later: set<nat>)
    requires OnStack(g, names, left, path, visited, stack) && visited <= later
    ensures OnStack(g, names, left, path, later, stack)
  {
    hide Distinct, IsWalk;
  }

  lemma SameNameSameNode(g: DiGraph, names: map<nat, string>, u: nat, v: nat)
    requires Named(g, names) && u < g.nodes && v < g.nodes && names[u] == names[v]
    ensures u == v
  {
  }

  lemma MeetsStack(g: DiGraph, names: map<nat, string>, left: seq<nat>, path: seq<nat>, visited: set<nat>,
                   stack: seq<string>, node: nat)
    requires Named(g, names) && node < g.nodes && path != []
    requires OnStack(g, names, left, path, visited, stack) && LeadsTo(g, path, node)
    requires IndexOf(stack, names[node]) < |stack|
    ensures var start := IndexOf(stack, names[node]);
            Reported(g, names, left, path, start, Search(Some(stack[start..]), visited, stack))
  {
    hide IsWalk, Distinct, HasLink;
    SameNameSameNode(g, names, (left + path)[IndexOf(stack, names[node])], node);
  }

  lemma {:induction false} VisitReports(g: DiGraph, names: map<nat, string>, left: seq<nat>, path: seq<nat>, node: nat,
                                        visited: set<nat>, stack: seq<string>)
    returns (walk: seq<nat>, start: nat)
    requires Valid(g) && Named(g, names) && node < g.nodes
    requires OnStack(g, names, left, path, visited, stack) && LeadsTo(g, path, node)
    requires path == [] ==> node !in visited
    ensures Continues(g, names, left, path, stack, Visit(g, names, node, visited, stack), walk, start)
    ensures Visit(g, names, node, visited, stack).cycle.Some? && path == [] ==> walk[0] == node
    decreases Below(g.nodes) - visited, 0
  {
    hide OnStack, HasLink;
    walk, start := path, 0;
    if |stack| <= DEPTH_LIMIT {
      if node in visited {
        start := IndexOf(stack, names[node]);
        if start < |stack| {
          MeetsStack(g, names, left, path, visited, stack, node);
        }
      } else {
        PathGrows(g, names, left, path, visited, stack, node);
        TargetsInRange(g, node);
        walk, start := VisitEachReports(g, names, left, path + [node], Targets(g.links, node), visited + {node},
                                        stack + [names[node]]);
        assert Pop(stack + [names[node]]) == stack;
      }
    }
  }

  lemma {:induction false} VisitEachReports(g: DiGraph, names: map<nat, string>, left: seq<nat>, path: seq<nat>,
                                            nodes: seq<nat>, visited: set<nat>, stack: seq<string>)
    returns (walk: seq<nat>, start: nat)
    requires Valid(g) && Named(g, names) && InRange(nodes, g.nodes)
    requires OnStack(g, names, left, path, visited, stack) && path != []
    requires forall i :: 0 <= i < |nodes| ==> LeadsTo(g, path, nodes[i])
    ensures Continues(g, names, left, path, stack, VisitEach(g, names, nodes, visited, stack), walk, start)
    decreases Below(g.nodes) - visited, |nodes| + 1
  {
    hide HasEdge, Reported;
    walk, start := path, 0;
    if nodes != [] {
      walk, start := VisitReports(g, names, left, path, nodes[0], visited, stack);
      var r := Visit(g, names, nodes[0], visited, stack);
      if r.cycle.None? {
        walk, start := VisitEachReports(g, names, left, path, nodes[1..], r.visited, r.stack);
      }
    }
  }

  lemma SpellsCycle(g: DiGraph, names: map<nat, string>, c: seq<nat>, cycle: seq<string>)
    requires Named(g, names) && InRange(c, g.nodes)
    requires (forall i :: 0 <= i < |c| ==> c[i] in names) && cycle == Ids(names, c)
    ensures GenuineCycle(g, names, cycle) <==> IsCycle(g, c)
  {
    hide IsCycle, HasLink;
    if GenuineCycle(g, names, cycle) {
      var d :| IsCycle(g, d) && (forall i :: 0 <= i < |d| ==> d[i] in names) && cycle == Ids(names, d);
      forall i | 0 <= i < |c| ensures c[i] == d[i] {
        assert names[c[i]] == cycle[i] == names[d[i]];
      }
      assert c == d;
    }
  }

  /** The leftover part of the report, if there is one, is a walk that goes on to the root of this search. */
  ghost predicate Joined(g: DiGraph, left: seq<nat>, path: seq<nat>, start: nat)
    requires path != []
  {
    start < |left| ==> IsWalk(g, left[start..]) && HasEdge(g, left[|left| - 1], path[0])
  }

  lemma WalkConcat(g: DiGraph, a: seq<nat>, b: seq<nat>)
    requires a != [] && b != [] && IsWalk(g, b)
    ensures IsWalk(g, a + b) <==> IsWalk(g, a) && HasEdge(g, a[|a| - 1], b[0])
  {
    hide HasEdge;
    var c := a + b;
    if IsWalk(g, c) {
      forall i, j | 0 <= i && j == i + 1 && j < |a| ensures HasEdge(g, a[i], a[j]) {
        assert c[i] == a[i] && c[j] == a[j];
      }
      assert c[|a| - 1] == a[|a| - 1] && c[|a|] == b[0];
    }
    if IsWalk(g, a) && HasEdge(g, a[|a| - 1], b[0]) {
      forall i, j | 0 <= i && j == i + 1 && j < |c| ensures HasEdge(g, c[i], c[j]) {
        if i >= |a| {
          assert c[i] == b[i - |a|] && c[j] == b[j - |a|];
        }
      }
    }
  }

  lemma WalkSuffix(g: DiGraph, path: seq<nat>, p: nat)
    requires p <= |path| && IsWalk(g, path)
    ensures IsWalk(g, path[p..])
  {
    hide HasEdge;
    var c := path[p..];
    forall k, m | 0 <= k && m == k + 1 && m < |c| ensures HasEdge(g, c[k], c[m]) {
      assert c[k] == path[p + k] && c[m] == path[p + m];
    }
  }

  lemma ReportedNodes(g: DiGraph, names: map<nat, string>, left: seq<nat>, path: seq<nat>, start: nat, r: Search)
    returns (c: seq<nat>)
    requires Reported(g, names, left, path, start, r)
    ensures c == (left + path)[start..] && Distinct(c) && InRange(c, g.nodes) && c != [] && r.cycle.Some?
    ensures (forall i :: 0 <= i < |c| ==> c[i] in names) && r.cycle.value == Ids(names, c)
    ensures path != [] && IsWalk(g, path) && HasEdge(g, c[|c| - 1], c[0])
  {
    hide HasEdge, IsWalk;
    c := (left + path)[start..];
    assert c[|c| - 1] == path[|path| - 1] && c[0] == (left + path)[start];
  }

  lemma ReportedWalkIff(g: DiGraph, left: seq<nat>, path: seq<nat>, start: nat)
    requires path != [] && IsWalk(g, path) && start < |left| + |path|
    ensures IsWalk(g, (left + path)[start..]) <==> Joined(g, left, path, start)
  {
    hide HasEdge, IsWalk;
    var c := (left + path)[start..];
    if start < |left| {
      assert c == left[start..] + path;
      assert left[start..][|left| - start - 1] == left[|left| - 1];
      WalkConcat(g, left[start..], path);
    } else {
      assert c == path[start - |left|..];
      WalkSuffix(g, path, start - |left|);
    }
  }

  /** A report is genuine if and only if its leftover part joins on to the walk of its own search. */
  lemma ReportGenuineIff(g: DiGraph, names: map<nat, string>, left: seq<nat>, path: seq<nat>, start: nat, r: Search)
    requires Named(g, names) && Reported(g, names, left, path, start, r)
    ensures path != [] && r.cycle.Some?
    ensures GenuineCycle(g, names, r.cycle.value) <==> Joined(g, left, path, start)
  {
    var c := ReportedNodes(g, names, left, path, start, r);
    assert start < |left| + |path|;
    hide HasEdge, IsWalk, OnStack, GenuineCycle, Joined, Distinct;
    ReportedWalkIff(g, left, path, start);
    SpellsCycle(g, names, c, r.cycle.value);
  }

  // ---- soundness: the first cycle reported is genuine ---------------------------------------------

  /** The search started on a clean stack finds a genuine cycle or leaves the stack clean. */
  lemma RootSound(g: DiGraph, names: map<nat, string>, node: nat, visited: set<nat>)
    requires Valid(g) && Named(g, names) && node < g.nodes && node !in visited
    ensures var r := Visit(g, names, node, visited, []);
            if r.cycle.Some? then GenuineCycle(g, names, r.cycle.value) else r.stack == []
  {
    var walk, start := VisitReports(g, names, [], [], node, visited, []);
    var r := Visit(g, names, node, visited, []);
    hide Visit, Reported, GenuineCycle;
    if r.cycle.Some? {
      ReportGenuineIff(g, names, [], walk, start, r);
    }
  }

  lemma {:induction false} FirstCycleFrom(g: DiGraph, names: map<nat, string>, node: nat, visited: set<nat>)
    requires Valid(g) && Named(g, names) && node <= g.nodes
    ensures var cycles := CheckFrom(g, names, node, visited, []);
            cycles != [] ==> GenuineCycle(g, names, cycles[0])
    decreases g.nodes - node
  {
    hide GenuineCycle, Valid, Named;
    if node < g.nodes {
      if node in visited {
        FirstCycleFrom(g, names, node + 1, visited);
      } else {
        RootSound(g, names, node, visited);
        var r := Visit(g, names, node, visited, []);
        if r.cycle.None? {
          FirstCycleFrom(g, names, node + 1, r.visited);
        }
      }
    }
  }

  /** The first cycle reported is genuine, whatever the size of the graph. */
  lemma FirstCycleIsGenuine(g: DiGraph, names: map<nat, string>)
    requires Valid(g) && Named(g, names)
    requires Check(g, names) != []
    ensures GenuineCycle(g, names, Check(g, names)[0])
    ensures Cyclic(g)
  {
    FirstCycleFrom(g, names, 0, {});
  }

  // ---- completeness: reporting nothing means there is nothing to report ------------------------

  /** Whatever has an edge into `live` is in it: the nodes from which a cycle can be reached are such a set. */
  ghost predicate Inherited(g: DiGraph, live: set<nat>) {
    forall u: nat, v :: HasEdge(g, u, v) && v in live && u < g.nodes ==> u in live
  }

  /** A walk through distinct nodes that ends in `live` */
  ghost predicate SimpleInto(g: DiGraph, path: seq<nat>, live: set<nat>) {
    path != [] && Distinct(path) && InRange(path, g.nodes) && IsWalk(g, path) && path[|path| - 1] in live
  }

  ghost predicate ShortInto(g: DiGraph, live: set<nat>) {
    forall path :: SimpleInto(g, path, live) ==> |path| <= 1000
  }

  /** `done` lists finished live nodes, each after all of its live successors. */
  ghost predicate Finished(g: DiGraph, live: set<nat>, done: seq<nat>) {
    && (forall v :: v in done ==> v in live)
    && (forall i, w :: 0 <= i < |done| && HasEdge(g, done[i], w) && w in live ==> w in done[..i])
  }

  ghost predicate Settled(g: DiGraph, live: set<nat>, path: seq<nat>, visited: set<nat>, done: seq<nat>) {
    Finished(g, live, done) && forall v :: v in done <==> v in visited && v !in path && v in live
  }

  lemma FinishedGrows(g: DiGraph, live: set<nat>, done: seq<nat>, v: nat)
    requires Finished(g, live, done) && v in live
    requires forall w :: HasEdge(g, v, w) && w in live ==> w in done
    ensures Finished(g, live, done + [v])
  {
    hide HasEdge;
    var longer := done + [v];
    forall i, w | 0 <= i < |longer| && HasEdge(g, longer[i], w) && w in live ensures w in longer[..i] {
      assert longer[..i] == done[..i];
    }
  }

  lemma SettledElsewhere(g: DiGraph, live: set<nat>, path: seq<nat>, visited: set<nat>, done: seq<nat>, v: nat)
    requires Settled(g, live, path, visited, done) && v in visited && v !in path && v in live
    ensures v in done
  {
  }

  lemma SettledEnters(g: DiGraph, live: set<nat>, path: seq<nat>, visited: set<nat>, done: seq<nat>, v: nat)
    requires Settled(g, live, path, visited, done) && v !in visited
    ensures Settled(g, live, path + [v], visited + {v}, done)
  {
    hide Finished;
  }

  /** A live node whose live successors are all finished is finished itself. */
  lemma SettledLeaves(g: DiGraph, live: set<nat>, path: seq<nat>, visited: set<nat>, done: seq<nat>, v: nat)
    requires Settled(g, live, path + [v], visited, done) && v in visited && v !in path
    requires forall w :: HasEdge(g, v, w) && w in live ==> w in done
    ensures Settled(g, live, path, visited, if v in live then done + [v] else done)
  {
    if v in live {
      FinishedGrows(g, live, done, v);
    }
    hide Finished;
  }

  lemma OnCleanStack(g: DiGraph, names: map<nat, string>, path: seq<nat>, visited: set<nat>, stack: seq<string>)
    requires OnStack(g, names, [], path, visited, stack)
    ensures Distinct(path) && InRange(path, g.nodes) && IsWalk(g, path) && |stack| == |path|
    ensures forall i :: 0 <= i < |path| ==> path[i] in names && path[i] in visited && stack[i] == names[path[i]]
  {
    assert [] + path == path;
  }

  lemma VisitedStack(g: DiGraph, names: map<nat, string>, path: seq<nat>, visited: set<nat>, stack: seq<string>)
    requires OnStack(g, names, [], path, visited, stack)
    ensures forall v :: v in path ==> v in visited
  {
    hide HasEdge;
    OnCleanStack(g, names, path, visited, stack);
  }

  /** A search is only cut off away from live nodes. */
  lemma CutOffIsIdle(g: DiGraph, names: map<nat, string>, live: set<nat>, path: seq<nat>, node: nat,
                     visited: set<nat>, stack: seq<string>)
    requires Valid(g) && node < g.nodes && Inherited(g, live) && ShortInto(g, live) && |stack| > DEPTH_LIMIT
    requires OnStack(g, names, [], path, visited, stack) && LeadsTo(g, path, node)
    ensures node !in live && Visit(g, names, node, visited, stack) == Search(None, visited, stack)
  {
    hide HasEdge, IsWalk;
    OnCleanStack(g, names, path, visited, stack);
    assert SimpleInto(g, path, live) <==> path[|path| - 1] in live;
  }

  lemma SeenComplete(g: DiGraph, names: map<nat, string>, live: set<nat>, path: seq<nat>, node: nat,
                     visited: set<nat>, stack: seq<string>, done: seq<nat>)
    requires Valid(g) && Named(g, names) && node < g.nodes && node in visited && |stack| <= DEPTH_LIMIT
    requires OnStack(g, names, [], path, visited, stack) && Settled(g, live, path, visited, done)
    ensures Visit(g, names, node, visited, stack).cycle.None? ==>
              (node in live ==> node in done) && Visit(g, names, node, visited, stack).visited == visited
  {
    OnCleanStack(g, names, path, visited, stack);
    VisitSeen(g, names, node, visited, stack);
    hide Visit, OnStack, HasLink, IsWalk, Settled;
    if node in path {
      var i :| 0 <= i < |path| && path[i] == node;
      assert stack[i] == names[node];
    } else if node in live {
      SettledElsewhere(g, live, path, visited, done, node);
    }
  }

  lemma NewTargets(g: DiGraph, names: map<nat, string>, path: seq<nat>, node: nat, visited: set<nat>,
                   stack: seq<string>)
    returns (targets: seq<nat>)
    requires Valid(g) && Named(g, names) && node < g.nodes && node !in visited && |stack| <= DEPTH_LIMIT
    ensures node in names && InRange(targets, g.nodes)
    ensures forall i :: 0 <= i < |targets| ==> LeadsTo(g, path + [node], targets[i])
    ensures forall w :: HasEdge(g, node, w) ==> w in targets
    ensures var r := VisitEach(g, names, targets, visited + {node}, stack + [names[node]]);
            Visit(g, names, node, visited, stack)
            == if r.cycle.Some? then r else Search(None, r.visited, Pop(r.stack))
  {
    VisitNew(g, names, node, visited, stack);
    targets := Targets(g.links, node);
    hide HasLink;
  }

  lemma {:induction false} VisitComplete(g: DiGraph, names: map<nat, string>, live: set<nat>, path: seq<nat>,
                                         node: nat, visited: set<nat>, stack: seq<string>, done: seq<nat>)
    returns (done': seq<nat>)
    requires Valid(g) && Named(g, names) && node < g.nodes && Inherited(g, live) && ShortInto(g, live)
    requires OnStack(g, names, [], path, visited, stack) && LeadsTo(g, path, node)
    requires Settled(g, live, path, visited, done)
    ensures var r := Visit(g, names, node, visited, stack);
            r.cycle.None? ==>
              done <= done' && Settled(g, live, path, r.visited, done') && (node in live ==> node in done')
    decreases Below(g.nodes) - visited, 0
  {
    hide Visit, VisitEach, OnStack, HasLink, IsWalk, ShortInto, Inherited, Settled, Distinct, InRange, Valid, Named,
         LeadsTo;
    done' := done;
    if |stack| > DEPTH_LIMIT {
      CutOffIsIdle(g, names, live, path, node, visited, stack);
    } else if node in visited {
      SeenComplete(g, names, live, path, node, visited, stack, done);
    } else {
      VisitedStack(g, names, path, visited, stack);
      PathGrows(g, names, [], path, visited, stack, node);
      var targets := NewTargets(g, names, path, node, visited, stack);
      SettledEnters(g, live, path, visited, done, node);
      var inner := VisitEachComplete(g, names, live, path + [node], targets, visited + {node}, stack + [names[node]],
                                     done);
      var r := VisitEach(g, names, targets, visited + {node}, stack + [names[node]]);
      if r.cycle.None? {
        SettledLeaves(g, live, path, r.visited, inner, node);
        done' := if node in live then inner + [node] else inner;
      }
    }
  }

  lemma {:induction false} VisitEachComplete(g: DiGraph, names: map<nat, string>, live: set<nat>, path: seq<nat>,
                                             nodes: seq<nat>, visited: set<nat>, stack: seq<string>, done: seq<nat>)
    returns (done': seq<nat>)
    requires Valid(g) && Named(g, names) && InRange(nodes, g.nodes) && Inherited(g, live) && ShortInto(g, live)
    requires OnStack(g, names, [], path, visited, stack)
    requires path != [] && forall i :: 0 <= i < |nodes| ==> LeadsTo(g, path, nodes[i])
    requires Settled(g, live, path, visited, done)
    ensures var r := VisitEach(g, names, nodes, visited, stack);
            r.cycle.None? ==>
              && done <= done' && Settled(g, live, path, r.visited, done')
              && forall w :: w in nodes && w in live ==> w in done'
    decreases Below(g.nodes) - visited, |nodes| + 1
  {
    hide Visit, OnStack, HasLink, IsWalk, ShortInto, Inherited, Settled, Valid, Named, LeadsTo;
    done' := done;
    if nodes != [] {
      var first := VisitComplete(g, names, live, path, nodes[0], visited, stack, done);
      var r := Visit(g, names, nodes[0], visited, stack);
      if r.cycle.None? {
        var _, _ := VisitReports(g, names, [], path, nodes[0], visited, stack);
        StackStays(g, names, [], path, visited, stack, r.visited);
        done' := VisitEachComplete(g, names, live, path, nodes[1..], r.visited, r.stack, first);
      }
    }
  }

  ghost predicate Covers(live: set<nat>, done: seq<nat>, n: nat) {
    forall v: nat :: v < n && v in live ==> v in done
  }

  /** While no cycle has been reported, every live root handled so far is finished. */
  lemma {:induction false} SilentFrom(g: DiGraph, names: map<nat, string>, live: set<nat>, node: nat,
                                      visited: set<nat>, done: seq<nat>)
    returns (done': seq<nat>)
    requires Valid(g) && Named(g, names) && node <= g.nodes && Inherited(g, live) && ShortInto(g, live)
    requires Settled(g, live, [], visited, done) && Covers(live, done, node)
    requires CheckFrom(g, names, node, visited, []) == []
    ensures Finished(g, live, done') && Covers(live, done', g.nodes)
    decreases g.nodes - node
  {
    hide Visit, ShortInto, Inherited, Finished;
    done' := done;
    if node < g.nodes {
      if node in visited {
        done' := SilentFrom(g, names, live, node + 1, visited, done);
      } else {
        CleanStack(g, names, visited);
        var next := VisitComplete(g, names, live, [], node, visited, [], done);
        RootSound(g, names, node, visited);
        done' := SilentFrom(g, names, live, node + 1, Visit(g, names, node, visited, []).visited, next);
      }
    }
  }

  lemma CleanStack(g: DiGraph, names: map<nat, string>, visited: set<nat>)
    ensures OnStack(g, names, [], [], visited, [])
  {
  }

  function Reversed<T>(s: seq<T>): (r: seq<T>)
    ensures |r| == |s| && forall i :: 0 <= i < |s| ==> r[i] == s[|s| - 1 - i]
  {
    seq(|s|, i requires 0 <= i < |s| => s[|s| - 1 - i])
  }

  // ---- the nodes that matter ----------------------------------------------------------------------

  /** A walk from `v` to a node of a cycle */
  ghost predicate EndsOnCycle(g: DiGraph, path: seq<nat>, v: nat) {
    path != [] && path[0] == v && IsWalk(g, path) && exists c :: IsCycle(g, c) && path[|path| - 1] in c
  }

  ghost predicate ReachesCycle(g: DiGraph, v: nat) {
    exists path :: EndsOnCycle(g, path, v)
  }

  ghost function Live(g: DiGraph): set<nat> {
    set v: nat | v in Below(g.nodes) && ReachesCycle(g, v)
  }

  lemma OnCycleReaches(g: DiGraph, c: seq<nat>, v: nat)
    requires IsCycle(g, c) && v in c
    ensures ReachesCycle(g, v)
  {
    hide IsCycle, HasEdge;
    assert EndsOnCycle(g, [v], v);
  }

  lemma PredecessorReaches(g: DiGraph, u: nat, v: nat)
    requires HasEdge(g, u, v) && ReachesCycle(g, v)
    ensures ReachesCycle(g, u)
  {
    hide IsCycle, HasLink;
    var path :| EndsOnCycle(g, path, v);
    var longer := [u] + path;
    forall i, j | 0 <= i && j == i + 1 && j < |longer| ensures HasEdge(g, longer[i], longer[j]) {
      if i > 0 {
        assert longer[i] == path[i - 1] && longer[j] == path[j - 1];
      }
    }
    assert EndsOnCycle(g, longer, u);
  }

  /** From a node that reaches a cycle one can go on to another one. */
  lemma SuccessorReaches(g: DiGraph, v: nat) returns (w: nat)
    requires ReachesCycle(g, v)
    ensures HasEdge(g, v, w) && ReachesCycle(g, w)
  {
    var path :| EndsOnCycle(g, path, v);
    var c :| IsCycle(g, c) && path[|path| - 1] in c;
    if |path| == 1 {
      var i :| 0 <= i < |c| && c[i] == v;
      w := if i + 1 < |c| then c[i + 1] else c[0];
      hide HasLink;
      assert HasEdge(g, v, w);
      OnCycleReaches(g, c, w);
    } else {
      w := path[1];
      hide HasLink, IsCycle;
      WalkSuffix(g, path, 1);
      assert path[1..][|path| - 2] == path[|path| - 1];
      assert EndsOnCycle(g, path[1..], w);
    }
  }

  lemma LiveIsInherited(g: DiGraph)
    ensures Inherited(g, Live(g))
  {
    hide ReachesCycle, HasLink;
    forall u: nat, v | HasEdge(g, u, v) && v in Live(g) && u < g.nodes ensures u in Live(g) {
      PredecessorReaches(g, u, v);
    }
  }

  lemma InLive(g: DiGraph, v: nat)
    requires v < g.nodes && ReachesCycle(g, v)
    ensures v in Live(g)
  {
  }

  lemma FinishedIsDead(g: DiGraph, done: seq<nat>)
    requires Valid(g) && Finished(g, Live(g), done)
    ensures done == []
  {
    hide ReachesCycle;
    if done != [] {
      assert done[0] in Live(g);
      var w := SuccessorReaches(g, done[0]);
      EdgeInRange(g, done[0], w);
      InLive(g, w);
    }
  }

  lemma DeadIsAcyclic(g: DiGraph)
    requires Covers(Live(g), [], g.nodes)
    ensures !Cyclic(g)
  {
    hide ReachesCycle;
    if Cyclic(g) {
      var c :| IsCycle(g, c);
      OnCycleReaches(g, c, c[0]);
      InLive(g, c[0]);
    }
  }

  lemma EdgeInRange(g: DiGraph, u: nat, v: nat)
    requires Valid(g) && HasEdge(g, u, v)
    ensures v < g.nodes
  {
  }

  /** The finder is exact on graphs in which walks through distinct nodes towards a cycle are at most a thousand
      long: there it stays silent if and only if the graph has no cycle, so the depth limit never hides one.
      How long walks are that lead to no cycle does not matter. */
  lemma CheckIsExact(g: DiGraph, names: map<nat, string>)
    requires Valid(g) && Named(g, names) && ShortInto(g, Live(g))
    ensures Check(g, names) == [] <==> !Cyclic(g)
  {
    hide ReachesCycle, ShortInto, GenuineCycle;
    if Check(g, names) == [] {
      LiveIsInherited(g);
      hide Inherited, Finished;
      NothingSettled(g, Live(g));
      var done := SilentFrom(g, names, Live(g), 0, {}, []);
      FinishedIsDead(g, done);
      DeadIsAcyclic(g);
    } else {
      FirstCycleIsGenuine(g, names);
    }
  }

  lemma NothingSettled(g: DiGraph, live: set<nat>)
    ensures Settled(g, live, [], {}, [])
  {
  }

  /** All graphs of at most a thousand nodes are of that kind. */
  lemma SmallHasShortWalks(g: DiGraph)
    requires g.nodes <= 1000
    ensures ShortInto(g, Live(g))
  {
    hide Live, IsWalk;
    forall path | SimpleInto(g, path, Live(g)) ensures |path| <= 1000 {
      DistinctBound(path, g.nodes);
    }
  }
}
