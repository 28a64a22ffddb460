/** The order in which a depth-first search enters the nodes of a graph. Names play no part in it. */
module DepthFirst {
  import opened DirectedGraphs

  lemma TargetsInRange(g: DiGraph, node: nat)
    requires Valid(g)
    ensures InRange(Targets(g.links, node), g.nodes)
  {
    var ts := Targets(g.links, node);
    forall i | 0 <= i < |ts| ensures ts[i] < g.nodes {
      assert HasLink(g.links, node, ts[i]);
    }
  }

  /** The nodes entered from `nodes`, in order, when those of `visited` are not entered again */
  function Preorder(g: DiGraph, nodes: seq<nat>, visited: set<nat>): (order: seq<nat>)
    requires Valid(g) && InRange(nodes, g.nodes)
    decreases Below(g.nodes) - visited, |nodes|
  {
    if nodes == [] then []
    else if nodes[0] in visited then Preorder(g, nodes[1..], visited)
    else
      TargetsInRange(g, nodes[0]);
      var entered := [nodes[0]] + Preorder(g, Targets(g.links, nodes[0]), visited + {nodes[0]});
      entered + Preorder(g, nodes[1..], visited + Listed(entered))
  }

  function Listed(order: seq<nat>): (s: set<nat>)
    ensures forall v :: v in s <==> v in order
  {
    set v | v in order
  }

  /** One node after the other */
  lemma PreorderNext(g: DiGraph, nodes: seq<nat>, visited: set<nat>)
    requires Valid(g) && InRange(nodes, g.nodes) && nodes != []
    ensures var first := Preorder(g, [nodes[0]], visited);
            Preorder(g, nodes, visited) == first + Preorder(g, nodes[1..], visited + Listed(first))
  {
    var v := nodes[0];
    assert [v][1..] == [] && Preorder(g, [], visited) == [];
    if v in visited {
      assert visited + Listed([]) == visited;
    } else {
      PreorderNew(g, v, visited);
    }
  }

  lemma PreorderNew(g: DiGraph, v: nat, visited: set<nat>)
    requires Valid(g) && v < g.nodes && v !in visited
    ensures InRange(Targets(g.links, v), g.nodes)
    ensures Preorder(g, [v], visited) == [v] + Preorder(g, Targets(g.links, v), visited + {v})
  {
    TargetsInRange(g, v);
    assert [v][1..] == [];
  }

  lemma PreorderSeen(g: DiGraph, v: nat, visited: set<nat>)
    requires Valid(g) && v < g.nodes && v in visited
    ensures Preorder(g, [v], visited) == []
  {
    assert [v][1..] == [];
  }

  lemma PreorderNone(g: DiGraph, visited: set<nat>)
    requires Valid(g)
    ensures Preorder(g, [], visited) == []
  {
  }

  /** Each node is entered once, and none that was visited before. */
  lemma {:induction false} PreorderDistinct(g: DiGraph, nodes: seq<nat>, visited: set<nat>)
    requires Valid(g) && InRange(nodes, g.nodes)
    ensures Distinct(Preorder(g, nodes, visited)) && forall v :: v in Preorder(g, nodes, visited) ==> v !in visited
    decreases Below(g.nodes) - visited, |nodes|
  {
    if nodes != [] {
      if nodes[0] in visited {
        PreorderDistinct(g, nodes[1..], visited);
      } else {
        TargetsInRange(g, nodes[0]);
        PreorderDistinct(g, Targets(g.links, nodes[0]), visited + {nodes[0]});
        var entered := [nodes[0]] + Preorder(g, Targets(g.links, nodes[0]), visited + {nodes[0]});
        PreorderDistinct(g, nodes[1..], visited + Listed(entered));
        DistinctAppend(entered, Preorder(g, nodes[1..], visited + Listed(entered)));
      }
    }
  }

  lemma DistinctAppend(a: seq<nat>, b: seq<nat>)
    requires Distinct(a) && Distinct(b) && forall v :: v in b ==> v !in a
    ensures Distinct(a + b)
  {
    var c := a + b;
    forall i, j | 0 <= i < j < |c| ensures c[i] != c[j] {
      if j >= |a| {
        assert c[j] in b;
      }
    }
  }

  /** What is entered leads to nothing that is not visited in the end. */
  ghost predicate Closed(g: DiGraph, order: seq<nat>, visited: set<nat>) {
    forall u, w :: u in order && HasEdge(g, u, w) ==> w in visited || w in order
  }

  lemma ClosedAppend(g: DiGraph, first: seq<nat>, second: seq<nat>, visited: set<nat>)
    requires Closed(g, first, visited) && Closed(g, second, visited + Listed(first))
    ensures Closed(g, first + second, visited)
  {
    hide HasEdge;
  }

  lemma {:induction false} PreorderCloses(g: DiGraph, nodes: seq<nat>, visited: set<nat>)
    requires Valid(g) && InRange(nodes, g.nodes)
    ensures Closed(g, Preorder(g, nodes, visited), visited)
    ensures forall v :: v in nodes ==> v in visited || v in Preorder(g, nodes, visited)
    decreases Below(g.nodes) - visited, |nodes|
  {
    hide Closed, HasLink;
    if nodes == [] {
      ClosedNone(g, visited);
    } else if nodes[0] in visited {
      PreorderCloses(g, nodes[1..], visited);
    } else {
      var v := nodes[0];
      TargetsInRange(g, v);
      var below := Preorder(g, Targets(g.links, v), visited + {v});
      PreorderCloses(g, Targets(g.links, v), visited + {v});
      ClosedNode(g, v, below, visited);
      PreorderCloses(g, nodes[1..], visited + Listed([v] + below));
      ClosedAppend(g, [v] + below, Preorder(g, nodes[1..], visited + Listed([v] + below)), visited);
    }
  }

  lemma ClosedNone(g: DiGraph, visited: set<nat>)
    ensures Closed(g, [], visited)
  {
  }

  lemma ClosedNode(g: DiGraph, v: nat, below: seq<nat>, visited: set<nat>)
    requires Closed(g, below, visited + {v})
    requires forall w :: HasEdge(g, v, w) ==> w in visited + {v} || w in below
    ensures Closed(g, [v] + below, visited)
  {
    hide HasEdge;
  }

  /** A walk through nodes not visited before */
  ghost predicate FreshWalk(g: DiGraph, visited: set<nat>, w: seq<nat>) {
    w != [] && InRange(w, g.nodes) && IsWalk(g, w) && forall i :: 0 <= i < |w| ==> w[i] !in visited
  }

  /** `v` can be reached from `root` through nodes not visited before. */
  ghost predicate FreshlyReached(g: DiGraph, visited: set<nat>, root: nat, v: nat) {
    exists w :: FreshWalk(g, visited, w) && w[0] == root && w[|w| - 1] == v
  }

  lemma {:induction false} WalkStaysIn(g: DiGraph, order: seq<nat>, visited: set<nat>, w: seq<nat>, i: nat)
    requires Closed(g, order, visited) && FreshWalk(g, visited, w) && w[0] in order && i < |w|
    ensures w[i] in order
  {
    hide HasEdge;
    if i > 0 {
      WalkStaysIn(g, order, visited, w, i - 1);
      assert HasEdge(g, w[i - 1], w[i]);
    }
  }

  lemma WalkSnoc(g: DiGraph, visited: set<nat>, root: nat, u: nat, v: nat)
    requires FreshlyReached(g, visited, root, u) && HasEdge(g, u, v) && v < g.nodes && v !in visited
    ensures FreshlyReached(g, visited, root, v)
  {
    hide HasEdge;
    var w :| FreshWalk(g, visited, w) && w[0] == root && w[|w| - 1] == u;
    var longer := w + [v];
    forall i, j | 0 <= i && j == i + 1 && j < |longer| ensures HasEdge(g, longer[i], longer[j]) {
      if j < |w| {
        assert longer[i] == w[i] && longer[j] == w[j];
      }
    }
    assert FreshWalk(g, visited, longer);
  }

  /** Everything entered below a reached node is reached as well. */
  lemma {:induction false} EnteredIsReached(g: DiGraph, avoid: set<nat>, root: nat, nodes: seq<nat>, visited: set<nat>)
    requires Valid(g) && InRange(nodes, g.nodes) && avoid <= visited
    requires forall v :: v in nodes && v !in visited ==> FreshlyReached(g, avoid, root, v)
    ensures forall v :: v in Preorder(g, nodes, visited) ==> FreshlyReached(g, avoid, root, v)
    decreases Below(g.nodes) - visited, |nodes|
  {
    hide FreshlyReached, HasLink;
    if nodes != [] {
      if nodes[0] in visited {
        EnteredIsReached(g, avoid, root, nodes[1..], visited);
      } else {
        var v := nodes[0];
        TargetsInRange(g, v);
        var targets := Targets(g.links, v);
        forall w | w in targets && w !in visited + {v} ensures FreshlyReached(g, avoid, root, w) {
          WalkSnoc(g, avoid, root, v, w);
        }
        EnteredIsReached(g, avoid, root, targets, visited + {v});
        var entered := [v] + Preorder(g, targets, visited + {v});
        EnteredIsReached(g, avoid, root, nodes[1..], visited + Listed(entered));
      }
    }
  }

  /** What is entered from a new root is what can be reached from it through nodes not visited before. */
  lemma PreorderIsReachable(g: DiGraph, root: nat, visited: set<nat>)
    requires Valid(g) && root < g.nodes && root !in visited
    ensures forall v :: v in Preorder(g, [root], visited) <==> FreshlyReached(g, visited, root, v)
  {
    PreorderCloses(g, [root], visited);
    assert FreshWalk(g, visited, [root]) && [root][0] == root;
    hide Preorder, Closed, FreshWalk;
    assert FreshlyReached(g, visited, root, root);
    EnteredIsReached(g, visited, root, [root], visited);
    forall v | FreshlyReached(g, visited, root, v) ensures v in Preorder(g, [root], visited) {
      var w :| FreshWalk(g, visited, w) && w[0] == root && w[|w| - 1] == v;
      assert root in [root];
      WalkStaysIn(g, Preorder(g, [root], visited), visited, w, |w| - 1);
    }
  }

  /** The nodes from `from` on */
  function Roots(from: nat, n: nat): (nodes: seq<nat>)
    requires from <= n
    ensures |nodes| == n - from && forall i :: 0 <= i < |nodes| ==> nodes[i] == from + i
  {
    seq(n - from, i requires 0 <= i < n - from => from + i)
  }

  /** The depth-first order of all nodes of the graph */
  function EntryOrder(g: DiGraph): seq<nat>
    requires Valid(g)
  {
    Preorder(g, Roots(0, g.nodes), {})
  }

  lemma EntryOrderListsAll(g: DiGraph)
    requires Valid(g)
    ensures Distinct(EntryOrder(g)) && forall v: nat :: v < g.nodes ==> v in EntryOrder(g)
  {
    var all := Roots(0, g.nodes);
    PreorderDistinct(g, all, {});
    PreorderCloses(g, all, {});
    forall v: nat | v < g.nodes ensures v in EntryOrder(g) {
      assert all[v] == v && v in all;
    }
  }
}
