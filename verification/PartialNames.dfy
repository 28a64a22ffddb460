/** The cycle finder on an index that may lack names. It enters nodes in the graph's own depth-first order, named or
    not; a cycle is reported unless it is entered at a node without a name. */
module PartialNames {
  import opened Wrappers
  import opened DirectedGraphs
  import opened DepthFirst
  import opened CycleSearch

  // ---- a search that reports nothing ------------------------------------------------------------------------

  /** The names of the nodes that have one, in order: `filter_map` over the reverse index */
  function NamesOf(names: map<nat, string>, order: seq<nat>): (ids: seq<string>)
    ensures forall id :: id in ids <==> exists v :: v in order && v in names && names[v] == id
  {
    if order == [] then []
    else
      var rest := NamesOf(names, order[1..]);
      assert forall v :: v in order <==> v == order[0] || v in order[1..];
      if order[0] in names then [names[order[0]]] + rest else rest
  }

  lemma {:induction false} NamesOfSnoc(names: map<nat, string>, order: seq<nat>, v: nat)
    ensures NamesOf(names, order + [v]) == NamesOf(names, order) + if v in names then [names[v]] else []
  {
    if order == [] {
      assert [v][1..] == [];
    } else {
      NamesOfSnoc(names, order[1..], v);
      assert (order + [v])[1..] == order[1..] + [v];
    }
  }

  /** A walk through distinct nodes from `root`, none of which was visited before */
  ghost predicate FreshPath(g: DiGraph, avoid: set<nat>, root: nat, path: seq<nat>) {
    FreshWalk(g, avoid, path) && Distinct(path) && path[0] == root
  }

  /** No search from `root` is cut off that starts with `n` names on the stack: names on top of these are the ones
      on a walk. */
  ghost predicate Room(g: DiGraph, names: map<nat, string>, avoid: set<nat>, root: nat, n: nat) {
    forall path :: FreshPath(g, avoid, root, path) ==> n + |NamesOf(names, path)| <= 1000
  }

  /** The search from `root` has come along `path`. */
  ghost predicate Along(g: DiGraph, names: map<nat, string>, left: seq<string>, avoid: set<nat>, root: nat,
                        path: seq<nat>, visited: set<nat>, stack: seq<string>)
  {
    && FreshPath(g, avoid, root, path) && avoid <= visited
    && (forall v :: v in path ==> v in visited)
    && stack == left + NamesOf(names, path)
  }

  lemma AlongGrows(g: DiGraph, names: map<nat, string>, left: seq<string>, avoid: set<nat>, root: nat, path: seq<nat>,
                   visited: set<nat>, stack: seq<string>, v: nat)
    requires v < g.nodes && v !in visited && avoid <= visited
    requires if path == [] then v == root && stack == left
             else Along(g, names, left, avoid, root, path, visited, stack) && LeadsTo(g, path, v)
    ensures var entered := if v in names then stack + [names[v]] else stack;
            Along(g, names, left, avoid, root, path + [v], visited + {v}, entered)
  {
    hide HasEdge, NamesOf;
    var longer := path + [v];
    NamesOfSnoc(names, path, v);
    NamesOfNone(names);
    assert IsWalk(g, longer) by {
      forall i, j | 0 <= i && j == i + 1 && j < |longer| ensures HasEdge(g, longer[i], longer[j]) {
        if j < |path| {
          assert longer[i] == path[i] && longer[j] == path[j];
        }
      }
    }
  }

  lemma NamesOfNone(names: map<nat, string>)
    ensures NamesOf(names, []) == []
  {
  }

  lemma AlongStays(g: DiGraph, names: map<nat, string>, left: seq<string>, avoid: set<nat>, root: nat, path: seq<nat>,
                   visited: set<nat>, stack: seq<string>, later: set<nat>)
    requires Along(g, names, left, avoid, root, path, visited, stack) && visited <= later
    ensures Along(g, names, left, avoid, root, path, later, stack)
  {
    hide FreshPath, NamesOf;
  }

  lemma NotCutOff(g: DiGraph, names: map<nat, string>, left: seq<string>, avoid: set<nat>, root: nat, path: seq<nat>,
                  visited: set<nat>, stack: seq<string>)
    requires Room(g, names, avoid, root, |left|) && Along(g, names, left, avoid, root, path, visited, stack)
    ensures |stack| <= 1000
  {
    hide FreshPath, NamesOf;
  }

  /** No node of `order` has an edge to a named node of `path`. */
  ghost predicate NoReturn(g: DiGraph, names: map<nat, string>, path: seq<nat>, order: seq<nat>) {
    forall u, w :: u in order && w in path && HasEdge(g, u, w) ==> w !in names
  }

  /** The first node of the cycle in this order has no name. */
  ghost predicate EntersUnnamed(names: map<nat, string>, order: seq<nat>, c: seq<nat>) {
    exists i: nat :: i < |order| && FirstIn(order, i, c) && order[i] !in names
  }

  ghost predicate FirstIn(order: seq<nat>, i: nat, c: seq<nat>)
    requires i < |order|
  {
    order[i] in c && forall j :: 0 <= j < i ==> order[j] !in c
  }

  /** So it is for every cycle that has its first node in `order`. */
  ghost predicate AllEnterUnnamed(g: DiGraph, names: map<nat, string>, visited: set<nat>, order: seq<nat>) {
    forall c :: IsCycle(g, c) && (forall v :: v in c ==> v !in visited) && (exists v :: v in c && v in order) ==>
      EntersUnnamed(names, order, c)
  }

  lemma EntersUnnamedLater(names: map<nat, string>, first: seq<nat>, second: seq<nat>, c: seq<nat>)
    requires forall v :: v in first ==> v !in c
    requires EntersUnnamed(names, second, c)
    ensures EntersUnnamed(names, first + second, c)
  {
    var i: nat :| i < |second| && FirstIn(second, i, c) && second[i] !in names;
    var k := |first| + i;
    assert (first + second)[k] == second[i];
    assert FirstIn(first + second, k, c);
  }

  lemma EntersUnnamedEarlier(names: map<nat, string>, first: seq<nat>, second: seq<nat>, c: seq<nat>)
    requires EntersUnnamed(names, first, c)
    ensures EntersUnnamed(names, first + second, c)
  {
    var i: nat :| i < |first| && FirstIn(first, i, c) && first[i] !in names;
    assert (first + second)[i] == first[i];
    assert FirstIn(first + second, i, c);
  }

  lemma UnnamedAppend(g: DiGraph, names: map<nat, string>, visited: set<nat>, first: seq<nat>, second: seq<nat>)
    requires AllEnterUnnamed(g, names, visited, first)
    requires AllEnterUnnamed(g, names, visited + Listed(first), second)
    ensures AllEnterUnnamed(g, names, visited, first + second)
  {
    hide IsCycle, EntersUnnamed;
    forall c | IsCycle(g, c) && (forall v :: v in c ==> v !in visited) && (exists v :: v in c && v in first + second)
      ensures EntersUnnamed(names, first + second, c)
    {
      if v :| v in c && v in first {
        EntersUnnamedEarlier(names, first, second, c);
      } else {
        var v :| v in c && v in first + second;
        assert v in second;
        EntersUnnamedLater(names, first, second, c);
      }
    }
  }

  /** Every node of a cycle has a predecessor on it. */
  lemma Predecessor(g: DiGraph, c: seq<nat>, v: nat) returns (u: nat)
    requires IsCycle(g, c) && v in c
    ensures u in c && HasEdge(g, u, v)
  {
    var i :| 0 <= i < |c| && c[i] == v;
    u := if i == 0 then c[|c| - 1] else c[i - 1];
    hide HasLink;
  }

  lemma {:induction false} CycleInside(g: DiGraph, order: seq<nat>, visited: set<nat>, c: seq<nat>, i: nat, j: nat)
    requires IsWalk(g, c) && (forall v :: v in c ==> v !in visited) && Closed(g, order, visited)
    requires i <= j < |c| && c[i] in order
    ensures c[j] in order
    decreases j
  {
    if i < j {
      CycleInside(g, order, visited, c, i, j - 1);
      hide HasLink;
      assert HasEdge(g, c[j - 1], c[j]) && c[j] in c;
    }
  }

  /** A cycle that misses the visited nodes lies in a closed list as soon as it meets it. */
  lemma WholeCycleInside(g: DiGraph, order: seq<nat>, visited: set<nat>, c: seq<nat>, v: nat, w: nat)
    requires IsCycle(g, c) && (forall v :: v in c ==> v !in visited) && Closed(g, order, visited)
    requires v in c && v in order && w in c
    ensures w in order
  {
    var i: nat :| i < |c| && c[i] == v;
    var j: nat :| j < |c| && c[j] == w;
    CycleInside(g, order, visited, c, i, |c| - 1);
    hide HasLink;
    assert HasEdge(g, c[|c| - 1], c[0]) && c[0] in c;
    CycleInside(g, order, visited, c, 0, j);
  }

  /** A cycle through the node just entered would have been seen from its last node, were the entered one named. */
  lemma NodeUnnamed(g: DiGraph, names: map<nat, string>, visited: set<nat>, v: nat, below: seq<nat>)
    requires v !in visited && Closed(g, [v] + below, visited)
    requires NoReturn(g, names, [v], [v] + below)
    requires AllEnterUnnamed(g, names, visited + {v}, below)
    ensures AllEnterUnnamed(g, names, visited, [v] + below)
  {
    hide IsCycle, EntersUnnamed, HasEdge, Closed;
    var order := [v] + below;
    forall c | IsCycle(g, c) && (forall w :: w in c ==> w !in visited) && (exists w :: w in c && w in order)
      ensures EntersUnnamed(names, order, c)
    {
      if v in c {
        var u := Predecessor(g, c, v);
        assert v in order && v in [v];
        WholeCycleInside(g, order, visited, c, v, u);
        UnnamedAtFirst(names, order, c);
      } else {
        var w :| w in c && w in order;
        assert w in below;
        EntersUnnamedLater(names, [v], below, c);
      }
    }
  }

  lemma UnnamedAtFirst(names: map<nat, string>, order: seq<nat>, c: seq<nat>)
    requires order != [] && order[0] in c && order[0] !in names
    ensures EntersUnnamed(names, order, c)
  {
    assert FirstIn(order, 0, c);
  }

  /** A silent search comes back as it went, with the nodes of the depth-first order entered. */
  ghost predicate Silent(g: DiGraph, names: map<nat, string>, path: seq<nat>, visited: set<nat>, stack: seq<string>,
                         order: seq<nat>, r: Search)
  {
    && r.visited == visited + Listed(order) && r.stack == stack
    && NoReturn(g, names, path, order) && AllEnterUnnamed(g, names, visited, order)
  }

  lemma NothingSilent(g: DiGraph, names: map<nat, string>, path: seq<nat>, visited: set<nat>, stack: seq<string>)
    ensures Silent(g, names, path, visited, stack, [], Search(None, visited, stack))
  {
  }

  lemma SilentAppend(g: DiGraph, names: map<nat, string>, path: seq<nat>, visited: set<nat>, stack: seq<string>,
                     first: seq<nat>, r: Search, second: seq<nat>, q: Search)
    requires Silent(g, names, path, visited, stack, first, r)
    requires Silent(g, names, path, r.visited, r.stack, second, q)
    ensures Silent(g, names, path, visited, stack, first + second, q)
  {
    UnnamedAppend(g, names, visited, first, second);
    hide AllEnterUnnamed, HasEdge;
  }

  /** A node that has been entered and left again without a report */
  lemma SilentNode(g: DiGraph, names: map<nat, string>, path: seq<nat>, visited: set<nat>, stack: seq<string>, v: nat,
                   below: seq<nat>, inner: Search)
    requires v !in visited && Closed(g, [v] + below, visited)
    requires forall w :: w in path ==> w in visited
    requires var entered := if v in names then stack + [names[v]] else stack;
             Silent(g, names, path + [v], visited + {v}, entered, below, inner)
    requires forall w :: HasEdge(g, v, w) && w in path + [v] ==> w !in names
    ensures var left := if v in names then Pop(inner.stack) else inner.stack;
            Silent(g, names, path, visited, stack, [v] + below, Search(None, inner.visited, left))
  {
    hide AllEnterUnnamed, Closed, HasEdge;
    var order := [v] + below;
    assert NoReturn(g, names, path + [v], order);
    assert forall w :: w in path ==> w in path + [v];
    assert v in path + [v];
    NodeUnnamed(g, names, visited, v, below);
    if v in names {
      assert Pop(stack + [names[v]]) == stack;
    }
  }

  lemma SeenSilently(g: DiGraph, names: map<nat, string>, node: nat, visited: set<nat>, stack: seq<string>)
    requires Valid(g) && node < g.nodes && node in visited && |stack| <= 1000
    ensures var r := Visit(g, names, node, visited, stack);
            && r.visited == visited && r.stack == stack
            && (r.cycle.Some? <==> node in names && names[node] in stack)
            && (r.cycle.Some? ==> r.cycle.value == stack[IndexOf(stack, names[node])..])
  {
    hide VisitEach;
    if node in names && names[node] in stack {
      var i :| 0 <= i < |stack| && stack[i] == names[node];
    }
  }

  lemma NewNode(g: DiGraph, names: map<nat, string>, node: nat, visited: set<nat>, stack: seq<string>)
    requires Valid(g) && node < g.nodes && node !in visited && |stack| <= 1000
    ensures InRange(Targets(g.links, node), g.nodes)
    ensures var entered := if node in names then stack + [names[node]] else stack;
            var inner := VisitEach(g, names, Targets(g.links, node), visited + {node}, entered);
            Visit(g, names, node, visited, stack) ==
              if inner.cycle.Some? then inner
              else Search(None, inner.visited, if node in names then Pop(inner.stack) else inner.stack)
  {
    hide VisitEach;
    TargetsInRange(g, node);
  }

  lemma NamedOnStack(g: DiGraph, names: map<nat, string>, left: seq<string>, avoid: set<nat>, root: nat,
                     path: seq<nat>, visited: set<nat>, stack: seq<string>, v: nat)
    requires Along(g, names, left, avoid, root, path, visited, stack) && v in path && v in names
    ensures names[v] in stack
  {
    hide FreshPath;
    assert names[v] in NamesOf(names, path);
  }

  /** For any names at all, whatever earlier searches left on the stack: a search that is not cut off and reports
      nothing has entered exactly the nodes of the depth-first order, named or not, puts the stack back, and no
      cycle that it met was entered at a node with a name. */
  lemma {:induction false} VisitEnters(g: DiGraph, names: map<nat, string>, left: seq<string>, avoid: set<nat>,
                                       root: nat, path: seq<nat>, node: nat, visited: set<nat>, stack: seq<string>)
    requires Valid(g) && node < g.nodes && root < g.nodes && Room(g, names, avoid, root, |left|)
    requires avoid <= visited
    requires if path == [] then node == root && node !in visited && stack == left
             else Along(g, names, left, avoid, root, path, visited, stack) && LeadsTo(g, path, node)
    ensures var r := Visit(g, names, node, visited, stack);
            r.cycle.None? ==>
              Silent(g, names, path, visited, stack, Preorder(g, [node], visited), r)
              && (node in path ==> node !in names)
    decreases Below(g.nodes) - visited, 0
  {
    hide Visit, VisitEach, Along, Room, Silent, Closed, HasLink, NamesOf, LeadsTo, Valid;
    StackFits(g, names, left, avoid, root, path, visited, stack);
    if node in visited {
      SeenSilently(g, names, node, visited, stack);
      PreorderSeen(g, node, visited);
      NothingSilent(g, names, path, visited, stack);
      if node in path && node in names {
        NamedOnStack(g, names, left, avoid, root, path, visited, stack, node);
      }
    } else {
      NewNode(g, names, node, visited, stack);
      PreorderNew(g, node, visited);
      var targets := Targets(g.links, node);
      var entered := if node in names then stack + [names[node]] else stack;
      AlongGrows(g, names, left, avoid, root, path, visited, stack, node);
      TargetsLead(g, path, node);
      VisitEachEnters(g, names, left, avoid, root, path + [node], targets, visited + {node}, entered);
      var inner := VisitEach(g, names, targets, visited + {node}, entered);
      PathVisited(g, names, left, avoid, root, path, visited, stack);
      if inner.cycle.None? {
        PreorderCloses(g, [node], visited);
        SilentNode(g, names, path, visited, stack, node, Preorder(g, targets, visited + {node}), inner);
      }
    }
  }

  lemma StackFits(g: DiGraph, names: map<nat, string>, left: seq<string>, avoid: set<nat>, root: nat, path: seq<nat>,
                  visited: set<nat>, stack: seq<string>)
    requires root < g.nodes && avoid <= visited && Room(g, names, avoid, root, |left|)
    requires if path == [] then root !in visited && stack == left
             else Along(g, names, left, avoid, root, path, visited, stack)
    ensures |stack| <= 1000
  {
    hide NamesOf;
    if path == [] {
      assert FreshPath(g, avoid, root, [root]);
    } else {
      NotCutOff(g, names, left, avoid, root, path, visited, stack);
    }
  }

  lemma PathVisited(g: DiGraph, names: map<nat, string>, left: seq<string>, avoid: set<nat>, root: nat,
                    path: seq<nat>, visited: set<nat>, stack: seq<string>)
    requires path != [] ==> Along(g, names, left, avoid, root, path, visited, stack)
    ensures forall v :: v in path ==> v in visited
  {
    hide FreshPath, NamesOf;
  }

  lemma TargetsLead(g: DiGraph, path: seq<nat>, node: nat)
    ensures forall w :: w in Targets(g.links, node) ==> LeadsTo(g, path + [node], w)
    ensures forall w :: HasEdge(g, node, w) ==> w in Targets(g.links, node)
  {
    hide HasLink;
  }

  lemma {:induction false} VisitEachEnters(g: DiGraph, names: map<nat, string>, left: seq<string>, avoid: set<nat>,
                                           root: nat, path: seq<nat>, nodes: seq<nat>, visited: set<nat>,
                                           stack: seq<string>)
    requires Valid(g) && InRange(nodes, g.nodes) && root < g.nodes && Room(g, names, avoid, root, |left|)
    requires avoid <= visited && path != [] && Along(g, names, left, avoid, root, path, visited, stack)
    requires forall w :: w in nodes ==> LeadsTo(g, path, w)
    ensures var r := VisitEach(g, names, nodes, visited, stack);
            r.cycle.None? ==>
              Silent(g, names, path, visited, stack, Preorder(g, nodes, visited), r)
              && forall w :: w in nodes && w in path ==> w !in names
    decreases Below(g.nodes) - visited, |nodes| + 1
  {
    hide Visit, Along, Room, Silent, HasLink, NamesOf, LeadsTo, Valid, Preorder;
    if nodes == [] {
      PreorderNone(g, visited);
      NothingSilent(g, names, path, visited, stack);
    } else {
      VisitEnters(g, names, left, avoid, root, path, nodes[0], visited, stack);
      PreorderNext(g, nodes, visited);
      var r := Visit(g, names, nodes[0], visited, stack);
      if r.cycle.None? {
        var first := Preorder(g, [nodes[0]], visited);
        SilentMoves(g, names, path, visited, stack, first, r);
        AlongStays(g, names, left, avoid, root, path, visited, stack, r.visited);
        VisitEachEnters(g, names, left, avoid, root, path, nodes[1..], r.visited, r.stack);
        var q := VisitEach(g, names, nodes[1..], r.visited, r.stack);
        if q.cycle.None? {
          SilentAppend(g, names, path, visited, stack, first, r, Preorder(g, nodes[1..], r.visited), q);
        }
      }
    }
  }

  lemma SilentMoves(g: DiGraph, names: map<nat, string>, path: seq<nat>, visited: set<nat>, stack: seq<string>,
                    order: seq<nat>, r: Search)
    requires Silent(g, names, path, visited, stack, order, r)
    ensures r.visited == visited + Listed(order) && r.stack == stack
  {
  }

  /** A search from a node not visited before that reports nothing, with room on the stack: it has visited all that
      can be reached from there through nodes not visited before, whether named or not, and nothing else. */
  lemma SilentVisitReaches(g: DiGraph, names: map<nat, string>, root: nat, visited: set<nat>, stack: seq<string>)
    requires Valid(g) && root < g.nodes && root !in visited && Room(g, names, visited, root, |stack|)
    requires Visit(g, names, root, visited, stack).cycle.None?
    ensures var r := Visit(g, names, root, visited, stack);
            && r.stack == stack
            && forall v :: v in r.visited <==> v in visited || FreshlyReached(g, visited, root, v)
  {
    hide Visit, Preorder, Room, FreshlyReached;
    VisitEnters(g, names, stack, visited, root, [], root, visited, stack);
    PreorderIsReachable(g, root, visited);
  }

  // ---- a search that reports ------------------------------------------------------------------------------

  /** No two nodes share a name. */
  ghost predicate NamesApart(names: map<nat, string>) {
    forall u, v :: u in names && v in names && names[u] == names[v] ==> u == v
  }

  ghost predicate Before(order: seq<nat>, a: nat, b: nat) {
    exists i, j :: 0 <= i < j < |order| && order[i] == a && order[j] == b
  }

  ghost predicate InOrder(w: seq<nat>, order: seq<nat>) {
    && (forall v :: v in w ==> v in order)
    && (forall i, j :: 0 <= i < j < |w| ==> Before(order, w[i], w[j]))
  }

  /** A walk that goes on from `path` through nodes in the order in which they were entered, and comes back to a
      named node of its own */
  ghost predicate Returned(g: DiGraph, names: map<nat, string>, path: seq<nat>, visited: set<nat>, order: seq<nat>,
                           walk: seq<nat>, k: nat)
  {
    && path <= walk && IsWalk(g, walk) && InRange(walk, g.nodes) && Distinct(walk)
    && k < |walk| && HasEdge(g, walk[|walk| - 1], walk[k]) && walk[k] in names
    && InOrder(walk[|path|..], order) && forall v :: v in walk[|path|..] ==> v !in visited
  }

  lemma BeforeWithin(first: seq<nat>, order: seq<nat>, last: seq<nat>, a: nat, b: nat)
    requires Before(order, a, b)
    ensures Before(first + order + last, a, b)
  {
    var i, j :| 0 <= i < j < |order| && order[i] == a && order[j] == b;
    var longer := first + order + last;
    assert longer[|first| + i] == a && longer[|first| + j] == b;
  }

  lemma InOrderWithin(w: seq<nat>, first: seq<nat>, order: seq<nat>, last: seq<nat>)
    requires InOrder(w, order)
    ensures InOrder(w, first + order + last)
  {
    hide Before;
    forall i, j | 0 <= i < j < |w| ensures Before(first + order + last, w[i], w[j]) {
      BeforeWithin(first, order, last, w[i], w[j]);
    }
  }

  lemma InOrderAfter(v: nat, w: seq<nat>, order: seq<nat>)
    requires InOrder(w, order)
    ensures InOrder([v] + w, [v] + order)
  {
    var longer, whole := [v] + w, [v] + order;
    forall i, j | 0 <= i < j < |longer| ensures Before(whole, longer[i], longer[j]) {
      if i == 0 {
        assert longer[j] == w[j - 1] && w[j - 1] in order;
        var m :| 0 <= m < |order| && order[m] == longer[j];
        assert whole[0] == v && whole[m + 1] == longer[j];
      } else {
        BeforeWithin([v], order, [], w[i - 1], w[j - 1]);
        assert [v] + order + [] == whole;
      }
    }
  }

  lemma ReturnedWithin(g: DiGraph, names: map<nat, string>, path: seq<nat>, visited: set<nat>, earlier: set<nat>,
                       first: seq<nat>, order: seq<nat>, last: seq<nat>, walk: seq<nat>, k: nat)
    requires Returned(g, names, path, visited, order, walk, k) && earlier <= visited
    ensures Returned(g, names, path, earlier, first + order + last, walk, k)
  {
    InOrderWithin(walk[|path|..], first, order, last);
    hide InOrder, HasEdge, Distinct;
  }

  lemma ReturnedThrough(g: DiGraph, names: map<nat, string>, path: seq<nat>, visited: set<nat>, v: nat,
                        below: seq<nat>, walk: seq<nat>, k: nat)
    requires v !in visited && Returned(g, names, path + [v], visited + {v}, below, walk, k)
    ensures Returned(g, names, path, visited, [v] + below, walk, k)
  {
    var n := |path|;
    var rest := walk[n + 1..];
    assert (path + [v])[n] == v && |path + [v]| == n + 1;
    assert walk[n] == v;
    assert walk[n..] == [v] + rest;
    InOrderAfter(v, rest, below);
    assert path <= walk by {
      assert walk[..n + 1] == path + [v];
      assert walk[..n] == (path + [v])[..n] == path;
    }
    hide InOrder, HasEdge, Distinct, InRange;
  }

  /** The names from that of `path[k]` on are those of the rest of the path. */
  lemma {:induction false} NamesFrom(names: map<nat, string>, path: seq<nat>, k: nat)
    requires NamesApart(names) && Distinct(path) && k < |path| && path[k] in names
    ensures var stack := NamesOf(names, path); var p := IndexOf(stack, names[path[k]]);
            p < |stack| && stack[p..] == NamesOf(names, path[k..])
  {
    var stack := NamesOf(names, path);
    assert names[path[k]] in stack;
    if k == 0 {
      assert path[0..] == path && stack[0..] == stack;
    } else {
      NamesFrom(names, path[1..], k - 1);
      assert path[1..][k - 1..] == path[k..];
      var rest, id := NamesOf(names, path[1..]), names[path[k]];
      if path[0] in names {
        assert stack == [names[path[0]]] + rest && stack[0] != id && stack[1..] == rest;
        assert IndexOf(stack, id) == 1 + IndexOf(rest, id);
        assert stack[1 + IndexOf(rest, id)..] == rest[IndexOf(rest, id)..];
      }
    }
  }

  lemma MeetsPath(g: DiGraph, names: map<nat, string>, avoid: set<nat>, root: nat, path: seq<nat>, node: nat,
                  visited: set<nat>, stack: seq<string>)
    returns (k: nat)
    requires NamesApart(names) && node in names && names[node] in stack
    requires path != [] && Along(g, names, [], avoid, root, path, visited, stack) && LeadsTo(g, path, node)
    ensures k < |path| && Returned(g, names, path, visited, [], path, k)
    ensures stack[IndexOf(stack, names[node])..] == NamesOf(names, path[k..])
  {
    assert [] + NamesOf(names, path) == NamesOf(names, path);
    hide HasLink, NamesOf;
    k := NamedOn(names, path, node);
    NamesFrom(names, path, k);
    hide NamesApart, Distinct, IsWalk, InRange;
    assert path[|path|..] == [] && InOrder([], []);
  }

  lemma NamedOn(names: map<nat, string>, path: seq<nat>, node: nat) returns (k: nat)
    requires NamesApart(names) && node in names && names[node] in NamesOf(names, path)
    ensures k < |path| && path[k] == node
  {
    var v :| v in path && v in names && names[v] == names[node];
    k :| 0 <= k < |path| && path[k] == node;
  }

  lemma {:induction false} VisitFinds(g: DiGraph, names: map<nat, string>, avoid: set<nat>, root: nat,
                                      path: seq<nat>, node: nat, visited: set<nat>, stack: seq<string>)
    returns (walk: seq<nat>, k: nat)
    requires Valid(g) && node < g.nodes && root < g.nodes && Room(g, names, avoid, root, 0) && NamesApart(names)
    requires avoid <= visited
    requires if path == [] then node == root && node !in visited && stack == []
             else Along(g, names, [], avoid, root, path, visited, stack) && LeadsTo(g, path, node)
    ensures var r := Visit(g, names, node, visited, stack);
            r.cycle.Some? ==>
              Returned(g, names, path, visited, Preorder(g, [node], visited), walk, k) && k < |walk|
              && r.cycle.value == NamesOf(names, walk[k..])
    decreases Below(g.nodes) - visited, 0
  {
    hide Visit, VisitEach, Along, Room, HasLink, NamesOf, LeadsTo, Valid, Returned, NamesApart;
    walk, k := [], 0;
    StackFits(g, names, [], avoid, root, path, visited, stack);
    if node in visited {
      SeenSilently(g, names, node, visited, stack);
      PreorderSeen(g, node, visited);
      if node in names && names[node] in stack {
        walk := path;
        k := MeetsPath(g, names, avoid, root, path, node, visited, stack);
      }
    } else {
      NewNode(g, names, node, visited, stack);
      PreorderNew(g, node, visited);
      var targets := Targets(g.links, node);
      var entered := if node in names then stack + [names[node]] else stack;
      AlongGrows(g, names, [], avoid, root, path, visited, stack, node);
      TargetsLead(g, path, node);
      walk, k := VisitEachFinds(g, names, avoid, root, path + [node], targets, visited + {node}, entered);
      if VisitEach(g, names, targets, visited + {node}, entered).cycle.Some? {
        ReturnedThrough(g, names, path, visited, node, Preorder(g, targets, visited + {node}), walk, k);
      }
    }
  }

  lemma {:induction false} VisitEachFinds(g: DiGraph, names: map<nat, string>, avoid: set<nat>, root: nat,
                                          path: seq<nat>, nodes: seq<nat>, visited: set<nat>, stack: seq<string>)
    returns (walk: seq<nat>, k: nat)
    requires Valid(g) && InRange(nodes, g.nodes) && root < g.nodes && Room(g, names, avoid, root, 0)
    requires NamesApart(names) && avoid <= visited
    requires path != [] && Along(g, names, [], avoid, root, path, visited, stack)
    requires forall w :: w in nodes ==> LeadsTo(g, path, w)
    ensures var r := VisitEach(g, names, nodes, visited, stack);
            r.cycle.Some? ==>
              Returned(g, names, path, visited, Preorder(g, nodes, visited), walk, k) && k < |walk|
              && r.cycle.value == NamesOf(names, walk[k..])
    decreases Below(g.nodes) - visited, |nodes| + 1
  {
    hide Visit, Along, Room, Silent, HasLink, NamesOf, LeadsTo, Valid, Preorder, Returned, NamesApart;
    walk, k := [], 0;
    if nodes != [] {
      PreorderNext(g, nodes, visited);
      var r := Visit(g, names, nodes[0], visited, stack);
      var first := Preorder(g, [nodes[0]], visited);
      var second := Preorder(g, nodes[1..], visited + Listed(first));
      if r.cycle.Some? {
        walk, k := VisitFinds(g, names, avoid, root, path, nodes[0], visited, stack);
        ReturnedWithin(g, names, path, visited, visited, [], first, second, walk, k);
        assert [] + first + second == first + second;
      } else {
        VisitEnters(g, names, [], avoid, root, path, nodes[0], visited, stack);
        SilentMoves(g, names, path, visited, stack, first, r);
        AlongStays(g, names, [], avoid, root, path, visited, stack, r.visited);
        walk, k := VisitEachFinds(g, names, avoid, root, path, nodes[1..], r.visited, r.stack);
        if VisitEach(g, names, nodes[1..], r.visited, r.stack).cycle.Some? {
          ReturnedWithin(g, names, path, r.visited, visited, first, second, [], walk, k);
          assert first + second + [] == first + second;
        }
      }
    }
  }

  /** The walk that a report from a root goes round holds a cycle that was entered at a named node. */
  lemma ReturnedCycle(g: DiGraph, names: map<nat, string>, visited: set<nat>, order: seq<nat>, walk: seq<nat>, k: nat)
    returns (c: seq<nat>)
    requires Returned(g, names, [], visited, order, walk, k) && Distinct(order)
    ensures k < |walk| && c == walk[k..] && IsCycle(g, c) && c[0] in names
    ensures (forall v :: v in c ==> v !in visited && v in order) && !EntersUnnamed(names, order, c)
  {
    assert walk[0..] == walk;
    c := walk[k..];
    SuffixCycle(g, walk, k);
    hide IsCycle, Distinct, IsWalk, HasEdge, InOrder, InRange;
    forall i: nat | i < |order| && FirstIn(order, i, c) ensures order[i] == walk[k] {
      EntryIsFirst(walk, order, k, i);
    }
    InOrderListed(walk, order);
  }

  lemma InOrderListed(walk: seq<nat>, order: seq<nat>)
    requires InOrder(walk, order)
    ensures forall v :: v in walk ==> v in order
  {
  }

  lemma SuffixCycle(g: DiGraph, walk: seq<nat>, k: nat)
    requires IsWalk(g, walk) && InRange(walk, g.nodes) && Distinct(walk)
    requires k < |walk| && HasEdge(g, walk[|walk| - 1], walk[k])
    ensures IsCycle(g, walk[k..])
  {
    hide HasEdge;
    var c := walk[k..];
    WalkSuffix(g, walk, k);
    assert c[|c| - 1] == walk[|walk| - 1] && c[0] == walk[k];
  }

  lemma EntryIsFirst(walk: seq<nat>, order: seq<nat>, k: nat, i: nat)
    requires InOrder(walk, order) && Distinct(order) && k < |walk| && i < |order| && FirstIn(order, i, walk[k..])
    ensures order[i] == walk[k]
  {
    var c := walk[k..];
    forall m | 0 < m < |c| ensures c[m] != order[i] {
      assert walk[k + m] == c[m] && walk[k] == c[0];
      assert Before(order, walk[k], walk[k + m]);
      var a, b :| 0 <= a < b < |order| && order[a] == walk[k] && order[b] == walk[k + m];
      assert order[a] in c;
    }
  }

  // ---- the whole check ----------------------------------------------------------------------------------------

  /** A walk through distinct nodes never passes more than a thousand that have a name: the limit on the stack is
      out of reach. */
  ghost predicate Roomy(g: DiGraph, names: map<nat, string>) {
    forall path: seq<nat> :: Distinct(path) && InRange(path, g.nodes) && IsWalk(g, path) ==>
      |NamesOf(names, path)| <= 1000
  }

  lemma RoomyFrom(g: DiGraph, names: map<nat, string>, visited: set<nat>, root: nat)
    requires Roomy(g, names)
    ensures Room(g, names, visited, root, 0)
  {
    hide HasLink, NamesOf;
  }

  lemma NamesOfLength(names: map<nat, string>, order: seq<nat>)
    ensures |NamesOf(names, order)| <= |order|
  {
  }

  /** All graphs of at most a thousand nodes are roomy. */
  lemma SmallIsRoomy(g: DiGraph, names: map<nat, string>)
    requires g.nodes <= 1000
    ensures Roomy(g, names)
  {
    hide IsWalk;
    forall path: seq<nat> | Distinct(path) && InRange(path, g.nodes) && IsWalk(g, path)
      ensures |NamesOf(names, path)| <= 1000
    {
      NamesOfLength(names, path);
      DistinctBound(path, g.nodes);
    }
  }

  lemma {:induction false} CheckFromEnters(g: DiGraph, names: map<nat, string>, node: nat, visited: set<nat>)
    requires Valid(g) && node <= g.nodes && Roomy(g, names) && NamesApart(names)
    ensures var order := Preorder(g, Roots(node, g.nodes), visited);
            && (CheckFrom(g, names, node, visited, []) == [] ==> AllEnterUnnamed(g, names, visited, order))
            && (CheckFrom(g, names, node, visited, []) != [] ==> !AllEnterUnnamed(g, names, visited, order))
    decreases g.nodes - node
  {
    hide Visit, Preorder, Roomy, Room, NamesApart, IsCycle, EntersUnnamed, Valid;
    var roots := Roots(node, g.nodes);
    if node == g.nodes {
      PreorderNone(g, visited);
      assert AllEnterUnnamed(g, names, visited, []);
    } else {
      PreorderNext(g, roots, visited);
      assert roots[1..] == Roots(node + 1, g.nodes);
      var first := Preorder(g, [node], visited);
      var second := Preorder(g, roots[1..], visited + Listed(first));
      if node in visited {
        PreorderSeen(g, node, visited);
        assert visited + Listed([]) == visited;
        assert [] + second == second;
        CheckFromEnters(g, names, node + 1, visited);
      } else {
        RoomyFrom(g, names, visited, node);
        VisitEnters(g, names, [], visited, node, [], node, visited, []);
        var walk, k := VisitFinds(g, names, visited, node, [], node, visited, []);
        var r := Visit(g, names, node, visited, []);
        hide AllEnterUnnamed;
        if r.cycle.Some? {
          FoundFirst(g, names, visited, node, second, walk, k);
        } else {
          CheckFromEnters(g, names, node + 1, r.visited);
          if AllEnterUnnamed(g, names, visited + Listed(first), second) {
            UnnamedAppend(g, names, visited, first, second);
          } else {
            NamedLater(g, names, visited, first, second);
          }
        }
      }
    }
  }

  lemma FoundFirst(g: DiGraph, names: map<nat, string>, visited: set<nat>, root: nat, second: seq<nat>,
                   walk: seq<nat>, k: nat)
    requires Valid(g) && root < g.nodes && root !in visited
    requires Returned(g, names, [], visited, Preorder(g, [root], visited), walk, k)
    ensures !AllEnterUnnamed(g, names, visited, Preorder(g, [root], visited) + second)
  {
    hide Preorder, IsCycle, Returned;
    var first := Preorder(g, [root], visited);
    PreorderDistinct(g, [root], visited);
    var c := ReturnedCycle(g, names, visited, first, walk, k);
    NotEmptyCycle(g, c);
    if EntersUnnamed(names, first + second, c) {
      UnnamedInFirst(names, first, second, c, c[0]);
    }
    assert c[0] in c && c[0] in first + second;
  }

  lemma UnnamedInFirst(names: map<nat, string>, first: seq<nat>, second: seq<nat>, c: seq<nat>, v: nat)
    requires EntersUnnamed(names, first + second, c) && v in c && v in first
    ensures EntersUnnamed(names, first, c)
  {
    var whole := first + second;
    var i: nat :| i < |whole| && FirstIn(whole, i, c) && whole[i] !in names;
    var j :| 0 <= j < |first| && first[j] == v;
    assert whole[j] == v;
    assert forall m :: 0 <= m < |first| ==> whole[m] == first[m];
    assert FirstIn(first, i, c);
  }

  lemma UnnamedInSecond(names: map<nat, string>, first: seq<nat>, second: seq<nat>, c: seq<nat>)
    requires EntersUnnamed(names, first + second, c) && forall v :: v in c ==> v !in first
    ensures EntersUnnamed(names, second, c)
  {
    var whole := first + second;
    var i: nat :| i < |whole| && FirstIn(whole, i, c) && whole[i] !in names;
    assert forall m :: 0 <= m < |first| ==> whole[m] == first[m] && first[m] in first;
    var n := i - |first|;
    assert forall m :: 0 <= m < |second| ==> whole[|first| + m] == second[m];
    assert FirstIn(second, n, c);
  }

  lemma NotEmptyCycle(g: DiGraph, c: seq<nat>)
    requires IsCycle(g, c)
    ensures c != []
  {
  }

  lemma NamedLater(g: DiGraph, names: map<nat, string>, visited: set<nat>, first: seq<nat>, second: seq<nat>)
    requires !AllEnterUnnamed(g, names, visited + Listed(first), second)
    ensures !AllEnterUnnamed(g, names, visited, first + second)
  {
    hide IsCycle;
    var c :| IsCycle(g, c) && (forall v :: v in c ==> v !in visited + Listed(first))
             && (exists v :: v in c && v in second) && !EntersUnnamed(names, second, c);
    if EntersUnnamed(names, first + second, c) {
      UnnamedInSecond(names, first, second, c);
    }
    var v :| v in c && v in second;
    assert v in first + second;
  }

  /** Every cycle is entered at a node without a name. */
  ghost predicate AllCyclesUnnamed(g: DiGraph, names: map<nat, string>)
    requires Valid(g)
  {
    forall c :: IsCycle(g, c) ==> EntersUnnamed(names, EntryOrder(g), c)
  }

  /** For any index in which no two nodes share a name, with names missing or left over: nothing is reported if and
      only if each cycle of the graph is entered at a node without a name. */
  lemma SilentIff(g: DiGraph, names: map<nat, string>)
    requires Valid(g) && Roomy(g, names) && NamesApart(names)
    ensures Check(g, names) == [] <==> AllCyclesUnnamed(g, names)
  {
    CheckFromEnters(g, names, 0, {});
    EntryOrderListsAll(g);
    hide CheckFrom, Preorder, EntersUnnamed, Valid, Roomy, NamesApart, HasLink;
    forall c | IsCycle(g, c) ensures exists v :: v in c && v in EntryOrder(g) {
      assert c[0] in c && c[0] in EntryOrder(g);
    }
  }

  /** `report` lists the names on a cycle of the graph, from the node at which it was entered. */
  ghost predicate Spells(g: DiGraph, names: map<nat, string>, report: seq<string>) {
    exists c :: IsCycle(g, c) && c[0] in names && report == NamesOf(names, c)
  }

  lemma {:induction false} FirstReportFrom(g: DiGraph, names: map<nat, string>, node: nat, visited: set<nat>)
    requires Valid(g) && node <= g.nodes && Roomy(g, names) && NamesApart(names)
    ensures var reports := CheckFrom(g, names, node, visited, []); reports != [] ==> Spells(g, names, reports[0])
    decreases g.nodes - node
  {
    hide Visit, Preorder, Roomy, Room, NamesApart, IsCycle, EntersUnnamed, Valid, Returned, Silent, NamesOf;
    if node < g.nodes {
      if node in visited {
        FirstReportFrom(g, names, node + 1, visited);
      } else {
        RoomyFrom(g, names, visited, node);
        VisitEnters(g, names, [], visited, node, [], node, visited, []);
        var walk, k := VisitFinds(g, names, visited, node, [], node, visited, []);
        var r, order := Visit(g, names, node, visited, []), Preorder(g, [node], visited);
        if r.cycle.Some? {
          PreorderDistinct(g, [node], visited);
          var c := ReturnedCycle(g, names, visited, order, walk, k);
        } else {
          SilentMoves(g, names, [], visited, [], order, r);
          FirstReportFrom(g, names, node + 1, r.visited);
        }
      }
    }
  }

  /** The first report is genuine for such an index too: it leaves out the unnamed nodes of its cycle. */
  lemma FirstReportSpells(g: DiGraph, names: map<nat, string>)
    requires Valid(g) && Roomy(g, names) && NamesApart(names) && Check(g, names) != []
    ensures Spells(g, names, Check(g, names)[0])
  {
    FirstReportFrom(g, names, 0, {});
  }
}
