/** Directed multigraphs stored the way petgraph's `DiGraph<(), _>` stores them, and the theory of
    walks, cycles and topological orders that the dependency code is proved against.

    petgraph numbers nodes and edges densely and removes with `swap_remove`: the last node (or edge)
    takes over the freed index. `links` lists the edges newest first, which is the order in which
    petgraph's adjacency lists are walked; `id` is the edge's current `EdgeIndex`. */
module DirectedGraphs {
  import opened Wrappers

  datatype Link = Link(id: nat, source: nat, target: nat)

  datatype DiGraph = DiGraph(nodes: nat, links: seq<Link>)

  const EMPTY := DiGraph(0, [])

  /** Edge indices are pairwise distinct and dense. */
  ghost predicate WellNumbered(links: seq<Link>) {
    && (forall i :: 0 <= i < |links| ==> links[i].id < |links|)
    && (forall i, j :: 0 <= i < j < |links| ==> links[i].id != links[j].id)
  }

  ghost predicate Valid(g: DiGraph) {
    && WellNumbered(g.links)
    && (forall i :: 0 <= i < |g.links| ==> g.links[i].source < g.nodes && g.links[i].target < g.nodes)
  }

  predicate Connects(l: Link, u: nat, v: nat) {
    l.source == u && l.target == v
  }

  ghost predicate HasLink(links: seq<Link>, u: nat, v: nat) {
    exists i :: 0 <= i < |links| && Connects(links[i], u, v)
  }

  ghost predicate HasEdge(g: DiGraph, u: nat, v: nat) {
    HasLink(g.links, u, v)
  }

  /** `graph.neighbors(v)` */
  function Targets(links: seq<Link>, v: nat): (ts: seq<nat>)
    ensures forall w :: w in ts <==> HasLink(links, v, w)
  {
    if links == [] then []
    else
      assert forall w :: HasLink(links, v, w) <==> Connects(links[0], v, w) || HasLink(links[1..], v, w) by {
        HasLinkCons(links, v);
      }
      var rest := Targets(links[1..], v);
      if links[0].source == v then [links[0].target] + rest else rest
  }

  /** The sources met by `graph.edges_directed(v, Incoming)` */
  function Sources(links: seq<Link>, v: nat): (ss: seq<nat>)
    ensures forall u :: u in ss <==> HasLink(links, u, v)
  {
    if links == [] then []
    else
      assert forall u :: HasLink(links, u, v) <==> Connects(links[0], u, v) || HasLink(links[1..], u, v) by {
        forall u: nat ensures HasLink(links, u, v) <==> Connects(links[0], u, v) || HasLink(links[1..], u, v) {
          HasLinkCons(links, u);
        }
      }
      var rest := Sources(links[1..], v);
      if links[0].target == v then [links[0].source] + rest else rest
  }

  lemma HasLinkCons(links: seq<Link>, u: nat)
    requires links != []
    ensures forall w :: HasLink(links, u, w) <==> Connects(links[0], u, w) || HasLink(links[1..], u, w)
  {
    forall w
      ensures HasLink(links, u, w) <==> Connects(links[0], u, w) || HasLink(links[1..], u, w)
    {
      if HasLink(links, u, w) {
        var i :| 0 <= i < |links| && Connects(links[i], u, w);
        assert i > 0 ==> links[1..][i - 1] == links[i];
      }
    }
  }

  // ---- updates -----------------------------------------------------------------------------

  function AddEdge(g: DiGraph, u: nat, v: nat): DiGraph {
    g.(links := [Link(|g.links|, u, v)] + g.links)
  }

  /** Where the edge with index `e` stands in `links`. */
  function PositionOf(links: seq<Link>, e: nat): (p: nat)
    ensures p <= |links|
    ensures p < |links| ==> links[p].id == e
    ensures forall i :: 0 <= i < p ==> links[i].id != e
  {
    if links == [] then 0
    else if links[0].id == e then 0
    else 1 + PositionOf(links[1..], e)
  }

  /** The index before position `p` was dropped. */
  function Skip(p: nat, i: nat): nat {
    if i < p then i else i + 1
  }

  function Renumbered(l: Link, from: nat, to: nat): Link {
    if l.id == from then l.(id := to) else l
  }

  /** `graph.remove_edge(e)`: nothing happens for an index that does not exist; otherwise the edge
      with the last index takes over index `e`. The other edges keep their walking order. */
  function RemoveEdge(links: seq<Link>, e: nat): (rest: seq<Link>)
    ensures |rest| <= |links|
  {
    var p := PositionOf(links, e);
    var last := |links| - 1;
    if p > last then links
    else seq(last, i requires 0 <= i < last => Renumbered(links[Skip(p, i)], last, e))
  }

  function FirstLeaving(links: seq<Link>, a: nat): (p: nat)
    ensures p <= |links|
    ensures p < |links| ==> links[p].source == a
    ensures forall i :: 0 <= i < p ==> links[i].source != a
  {
    if links == [] || links[0].source == a then 0 else 1 + FirstLeaving(links[1..], a)
  }

  function FirstEntering(links: seq<Link>, a: nat): (p: nat)
    ensures p <= |links|
    ensures p < |links| ==> links[p].target == a
    ensures forall i :: 0 <= i < p ==> links[i].target != a
  {
    if links == [] || links[0].target == a then 0 else 1 + FirstEntering(links[1..], a)
  }

  /** The edge loop at the start of petgraph's `remove_node`: outgoing edges first, then incoming. */
  function Detach(links: seq<Link>, a: nat): seq<Link>
    decreases |links|
  {
    var p := FirstLeaving(links, a);
    var q := FirstEntering(links, a);
    if p < |links| then
      RemoveEdgeShrinks(links, p);
      Detach(RemoveEdge(links, links[p].id), a)
    else if q < |links| then
      RemoveEdgeShrinks(links, q);
      Detach(RemoveEdge(links, links[q].id), a)
    else links
  }

  lemma RemoveEdgeShrinks(links: seq<Link>, p: nat)
    requires p < |links|
    ensures |RemoveEdge(links, links[p].id)| == |links| - 1
  {
  }

  function Moved(v: nat, from: nat, to: nat): nat {
    if v == from then to else v
  }

  /** `graph.remove_node(a)`; None when there is no such node. The last node takes over index `a`. */
  function RemoveNode(g: DiGraph, a: nat): Option<DiGraph> {
    if a >= g.nodes then None
    else
      var last := g.nodes - 1;
      var kept := Detach(g.links, a);
      Some(DiGraph(last, seq(|kept|, i requires 0 <= i < |kept| =>
        Link(kept[i].id, Moved(kept[i].source, last, a), Moved(kept[i].target, last, a)))))
  }

  // ---- what the updates do to the relation ---------------------------------------------------

  function Below(n: nat): (s: set<nat>)
    ensures |s| == n
    ensures forall i: nat :: i in s <==> i < n
  {
    if n == 0 then {} else Below(n - 1) + {n - 1}
  }

  lemma {:induction false} DistinctIdsCount(links: seq<Link>)
    requires forall i, j :: 0 <= i < j < |links| ==> links[i].id != links[j].id
    ensures |set i | 0 <= i < |links| :: links[i].id| == |links|
  {
    var ids := set i | 0 <= i < |links| :: links[i].id;
    if links == [] {
      assert ids == {};
    } else {
      var rest := links[1..];
      DistinctIdsCount(rest);
      var tail := set i | 0 <= i < |rest| :: rest[i].id;
      assert ids == tail + {links[0].id} by {
        forall x | x in ids ensures x in tail + {links[0].id} {
          var i :| 0 <= i < |links| && links[i].id == x;
          assert i > 0 ==> rest[i - 1].id == x;
        }
        forall x | x in tail ensures x in ids {
          var i :| 0 <= i < |rest| && rest[i].id == x;
          assert links[i + 1].id == x;
        }
      }
    }
  }

  /** Dense distinct numbering: every index below the count is in use. */
  lemma EveryIdUsed(links: seq<Link>, e: nat)
    requires WellNumbered(links) && e < |links|
    ensures PositionOf(links, e) < |links|
  {
    var ids := set i | 0 <= i < |links| :: links[i].id;
    DistinctIdsCount(links);
    assert ids <= Below(|links|);
    if e !in ids {
      SubsetCount(ids, Below(|links|) - {e});
    }
  }

  lemma {:induction false} SubsetCount<T>(a: set<T>, b: set<T>)
    requires a <= b
    ensures |a| <= |b|
    decreases a
  {
    if a != {} {
      var x :| x in a;
      SubsetCount(a - {x}, b - {x});
    }
  }

  /** Removing an existing edge keeps the numbering dense. */
  lemma RemoveEdgeKeeps(links: seq<Link>, e: nat)
    requires WellNumbered(links) && e < |links|
    ensures PositionOf(links, e) < |links|
    ensures WellNumbered(RemoveEdge(links, e)) && |RemoveEdge(links, e)| == |links| - 1
  {
    EveryIdUsed(links, e);
    var p := PositionOf(links, e);
    var rest := RemoveEdge(links, e);
    forall i | 0 <= i < |rest| ensures rest[i].id < |rest| {
      assert links[Skip(p, i)].id != e;
    }
    forall i, j | 0 <= i < j < |rest| ensures rest[i].id != rest[j].id {
      var k, l := Skip(p, i), Skip(p, j);
      assert links[k].id != e && links[l].id != e && links[k].id != links[l].id;
    }
  }

  lemma RemoveEdgeAt(links: seq<Link>, p: nat, i: nat)
    requires WellNumbered(links) && p < |links|
    ensures PositionOf(links, links[p].id) == p && |RemoveEdge(links, links[p].id)| == |links| - 1
    ensures i < |links| - 1 ==>
              var l, r := links[Skip(p, i)], RemoveEdge(links, links[p].id)[i];
              r.source == l.source && r.target == l.target
  {
  }

  lemma RemoveEdgeRelation(links: seq<Link>, p: nat, u: nat, v: nat)
    requires WellNumbered(links) && p < |links| && !Connects(links[p], u, v)
    ensures WellNumbered(RemoveEdge(links, links[p].id))
    ensures HasLink(RemoveEdge(links, links[p].id), u, v) <==> HasLink(links, u, v)
  {
    RemoveEdgeKeeps(links, links[p].id);
    hide RemoveEdge, WellNumbered, PositionOf;
    var rest := RemoveEdge(links, links[p].id);
    if HasLink(links, u, v) {
      var i :| 0 <= i < |links| && Connects(links[i], u, v);
      var k := if i < p then i else i - 1;
      RemoveEdgeAt(links, p, k);
      assert Connects(rest[k], u, v);
    }
    if HasLink(rest, u, v) {
      var i :| 0 <= i < |rest| && Connects(rest[i], u, v);
      RemoveEdgeAt(links, p, i);
      assert Connects(links[Skip(p, i)], u, v);
    }
  }

  lemma {:induction false} DetachKeeps(links: seq<Link>, a: nat, n: nat)
    requires WellNumbered(links)
    requires forall i :: 0 <= i < |links| ==> links[i].source < n && links[i].target < n
    ensures WellNumbered(Detach(links, a))
    ensures forall i :: 0 <= i < |Detach(links, a)| ==>
              var l := Detach(links, a)[i]; l.source != a && l.target != a && l.source < n && l.target < n
    decreases |links|
  {
    var p := FirstLeaving(links, a);
    var q := FirstEntering(links, a);
    if p < |links| || q < |links| {
      var e := links[if p < |links| then p else q].id;
      RemoveEdgeKeeps(links, e);
      DetachKeeps(RemoveEdge(links, e), a, n);
    }
  }

  lemma {:induction false} DetachRelation(links: seq<Link>, a: nat, u: nat, v: nat)
    requires WellNumbered(links) && u != a && v != a
    ensures HasLink(Detach(links, a), u, v) <==> HasLink(links, u, v)
    decreases |links|
  {
    var p := FirstLeaving(links, a);
    var q := FirstEntering(links, a);
    if p < |links| || q < |links| {
      var k := if p < |links| then p else q;
      RemoveEdgeRelation(links, k, u, v);
      RemoveEdgeShrinks(links, k);
      DetachRelation(RemoveEdge(links, links[k].id), a, u, v);
    }
  }

  lemma RemoveNodeValid(g: DiGraph, a: nat)
    requires Valid(g) && a < g.nodes
    ensures Valid(RemoveNode(g, a).value)
  {
    DetachKeeps(g.links, a, g.nodes);
  }

  /** After `remove_node(a)` the edges are those not touching `a`, seen through the index swap. */
  lemma RemoveNodeRelation(g: DiGraph, a: nat, u: nat, v: nat)
    requires Valid(g) && a < g.nodes && u < g.nodes - 1 && v < g.nodes - 1
    ensures HasEdge(RemoveNode(g, a).value, u, v)
            <==> HasEdge(g, Moved(u, a, g.nodes - 1), Moved(v, a, g.nodes - 1))
  {
    var last := g.nodes - 1;
    var kept := Detach(g.links, a);
    var after := RemoveNode(g, a).value;
    var u0, v0 := Moved(u, a, last), Moved(v, a, last);
    DetachKeeps(g.links, a, g.nodes);
    DetachRelation(g.links, a, u0, v0);
    if HasLink(kept, u0, v0) {
      var i :| 0 <= i < |kept| && Connects(kept[i], u0, v0);
      assert Connects(after.links[i], u, v);
    }
    if HasEdge(after, u, v) {
      var i :| 0 <= i < |after.links| && Connects(after.links[i], u, v);
      assert Connects(kept[i], u0, v0);
    }
  }

  // ---- what the updates do to the order in which neighbours are met ---------------------------------

  /** A new edge is met first. */
  lemma AddEdgeIsFirst(g: DiGraph, u: nat, v: nat, w: nat)
    ensures Targets(AddEdge(g, u, v).links, w) == (if w == u then [v] else []) + Targets(g.links, w)
    ensures Sources(AddEdge(g, u, v).links, w) == (if w == v then [u] else []) + Sources(g.links, w)
  {
    assert AddEdge(g, u, v).links[1..] == g.links;
  }

  lemma {:induction false} TargetsConcat(a: seq<Link>, b: seq<Link>, u: nat)
    ensures Targets(a + b, u) == Targets(a, u) + Targets(b, u)
  {
    if a == [] {
      assert a + b == b;
    } else {
      TargetsConcat(a[1..], b, u);
      assert (a + b)[1..] == a[1..] + b;
    }
  }

  lemma {:induction false} TargetsSameEnds(a: seq<Link>, b: seq<Link>, u: nat)
    requires |a| == |b| && forall i :: 0 <= i < |a| ==> a[i].source == b[i].source && a[i].target == b[i].target
    ensures Targets(a, u) == Targets(b, u)
  {
    hide HasLink;
    if a != [] {
      TargetsSameEnds(a[1..], b[1..], u);
    }
  }

  /** The others are met in the order they were met before, although one of them has a new index. */
  lemma RemoveEdgeTargets(links: seq<Link>, p: nat, u: nat)
    requires WellNumbered(links) && p < |links|
    ensures Targets(RemoveEdge(links, links[p].id), u) == Targets(links[..p], u) + Targets(links[p + 1..], u)
  {
    hide HasLink, Targets, WellNumbered;
    var rest, kept := RemoveEdge(links, links[p].id), links[..p] + links[p + 1..];
    assert |rest| == |kept| by { RemoveEdgeAt(links, p, 0); }
    forall i | 0 <= i < |rest| ensures rest[i].source == kept[i].source && rest[i].target == kept[i].target {
      RemoveEdgeAt(links, p, i);
    }
    TargetsSameEnds(rest, kept, u);
    TargetsConcat(links[..p], links[p + 1..], u);
  }

  /** The list without `a` */
  function Except(ts: seq<nat>, a: nat): seq<nat> {
    if ts == [] then [] else (if ts[0] == a then [] else [ts[0]]) + Except(ts[1..], a)
  }

  lemma {:induction false} ExceptConcat(s: seq<nat>, t: seq<nat>, a: nat)
    ensures Except(s + t, a) == Except(s, a) + Except(t, a)
  {
    if s == [] {
      assert s + t == t;
    } else {
      var head := if s[0] == a then [] else [s[0]];
      ExceptConcat(s[1..], t, a);
      assert (s + t)[1..] == s[1..] + t;
      assert head + (Except(s[1..], a) + Except(t, a)) == head + Except(s[1..], a) + Except(t, a);
    }
  }

  lemma {:induction false} ExceptAbsent(ts: seq<nat>, a: nat)
    requires a !in ts
    ensures Except(ts, a) == ts
  {
    if ts != [] {
      ExceptAbsent(ts[1..], a);
    }
  }

  lemma {:induction false} DetachTargets(links: seq<Link>, a: nat, u: nat)
    requires WellNumbered(links) && u != a
    ensures Except(Targets(links, u), a) == Targets(Detach(links, a), u)
    decreases |links|
  {
    hide HasLink, Targets, WellNumbered;
    var p, q := FirstLeaving(links, a), FirstEntering(links, a);
    if p < |links| || q < |links| {
      var k := if p < |links| then p else q;
      RemoveEdgeShrinks(links, k);
      StillNumbered(links, k);
      var rest := RemoveEdge(links, links[k].id);
      DetachTargets(rest, a, u);
      RemoveEdgeTargets(links, k, u);
      OneLinkLess(links, k, a, u);
    } else {
      NothingTouches(links, a, u);
      ExceptAbsent(Targets(links, u), a);
    }
  }

  lemma StillNumbered(links: seq<Link>, k: nat)
    requires WellNumbered(links) && k < |links|
    ensures WellNumbered(RemoveEdge(links, links[k].id))
  {
    RemoveEdgeKeeps(links, links[k].id);
  }

  lemma OneLinkLess(links: seq<Link>, k: nat, a: nat, u: nat)
    requires k < |links| && (links[k].source == a || links[k].target == a) && u != a
    ensures Except(Targets(links, u), a) == Except(Targets(links[..k], u) + Targets(links[k + 1..], u), a)
  {
    hide HasLink;
    var before, after := links[..k], links[k + 1..];
    assert links == before + ([links[k]] + after);
    TargetsConcat(before, [links[k]] + after, u);
    TargetsConcat([links[k]], after, u);
    assert [links[k]][1..] == [];
    var one := Targets([links[k]], u);
    assert Except(one, a) == [];
    ExceptConcat(Targets(before, u), one + Targets(after, u), a);
    ExceptConcat(one, Targets(after, u), a);
    ExceptConcat(Targets(before, u), Targets(after, u), a);
  }

  lemma NothingTouches(links: seq<Link>, a: nat, u: nat)
    requires FirstEntering(links, a) == |links|
    ensures a !in Targets(links, u)
  {
    assert forall i :: 0 <= i < |links| ==> !Connects(links[i], u, a);
  }

  function MovedAll(ts: seq<nat>, from: nat, to: nat): (r: seq<nat>)
    ensures |r| == |ts| && forall i :: 0 <= i < |ts| ==> r[i] == Moved(ts[i], from, to)
  {
    seq(|ts|, i requires 0 <= i < |ts| => Moved(ts[i], from, to))
  }

  lemma {:induction false} TargetsMoved(links: seq<Link>, after: seq<Link>, last: nat, a: nat, u: nat)
    requires a <= last && u != last && |after| == |links|
    requires forall i :: 0 <= i < |links| ==>
               after[i].source == Moved(links[i].source, last, a) && after[i].target == Moved(links[i].target, last, a)
    requires forall i :: 0 <= i < |links| ==> links[i].source != a || a == last
    ensures Targets(after, u) == MovedAll(Targets(links, Moved(u, a, last)), last, a)
  {
    hide HasLink;
    if links != [] {
      TargetsMoved(links[1..], after[1..], last, a, u);
    }
  }

  lemma RemoveNodeLinks(g: DiGraph, a: nat)
    requires a < g.nodes
    ensures RemoveNode(g, a).Some?
    ensures var last := g.nodes - 1; var kept, links := Detach(g.links, a), RemoveNode(g, a).value.links;
            && |links| == |kept|
            && forall i :: 0 <= i < |links| ==>
                 links[i].source == Moved(kept[i].source, last, a) && links[i].target == Moved(kept[i].target, last, a)
  {
    hide Detach;
  }

  /** After `remove_node(a)` the neighbours that remain are met in the order they were met before. */
  lemma RemoveNodeTargets(g: DiGraph, a: nat, u: nat)
    requires Valid(g) && a < g.nodes && u < g.nodes - 1
    ensures var last := g.nodes - 1;
            Targets(RemoveNode(g, a).value.links, u)
            == MovedAll(Except(Targets(g.links, Moved(u, a, last)), a), last, a)
  {
    hide HasLink, Targets, Detach, WellNumbered, RemoveNode, Except, MovedAll;
    var last := g.nodes - 1;
    DetachKeeps(g.links, a, g.nodes);
    RemoveNodeLinks(g, a);
    DetachTargets(g.links, a, Moved(u, a, last));
    TargetsMoved(Detach(g.links, a), RemoveNode(g, a).value.links, last, a, u);
  }

  // ---- walks, cycles, topological orders -------------------------------------------------------

  ghost predicate Distinct<T>(p: seq<T>) {
    forall i, j :: 0 <= i < j < |p| ==> p[i] != p[j]
  }

  ghost predicate InRange(p: seq<nat>, n: nat) {
    forall i :: 0 <= i < |p| ==> p[i] < n
  }

  ghost predicate InRangeSet(s: set<nat>, n: nat) {
    forall v :: v in s ==> v < n
  }

  ghost predicate IsWalk(g: DiGraph, p: seq<nat>) {
    forall i, j :: 0 <= i && j == i + 1 && j < |p| ==> HasEdge(g, p[i], p[j])
  }

  ghost predicate IsCycle(g: DiGraph, c: seq<nat>) {
    && c != [] && Distinct(c) && InRange(c, g.nodes)
    && IsWalk(g, c) && HasEdge(g, c[|c| - 1], c[0])
  }

  ghost predicate Cyclic(g: DiGraph) {
    exists c :: IsCycle(g, c)
  }

  ghost function Elements<T>(p: seq<T>): set<T> {
    set x | x in p
  }

  /** Every edge between listed nodes points forward. */
  ghost predicate Forward(g: DiGraph, order: seq<nat>) {
    forall i, j :: 0 <= i < |order| && 0 <= j < |order| && HasEdge(g, order[i], order[j]) ==> i < j
  }

  /** A listing of all nodes, each once, in which every edge points forward. */
  ghost predicate Topological(g: DiGraph, order: seq<nat>) {
    && Distinct(order) && Elements(order) == Below(g.nodes) && Forward(g, order)
  }

  lemma {:induction false} DistinctCount<T>(p: seq<T>)
    requires Distinct(p)
    ensures |Elements(p)| == |p|
  {
    if p != [] {
      DistinctCount(p[1..]);
      assert Elements(p) == Elements(p[1..]) + {p[0]};
    }
  }

  lemma DistinctBound(p: seq<nat>, n: nat)
    requires Distinct(p) && InRange(p, n)
    ensures |p| <= n
  {
    DistinctCount(p);
    SubsetCount(Elements(p), Below(n));
  }

  lemma {:induction false} WalkGoesForward(g: DiGraph, order: seq<nat>, p: seq<nat>, i: nat, j: nat)
    requires Topological(g, order) && |p| >= 2 && InRange(p, g.nodes) && IsWalk(g, p)
    requires i < |order| && order[i] == p[0]
    requires j < |order| && order[j] == p[|p| - 1]
    ensures i < j
  {
    assert HasEdge(g, p[0], p[1]);
    if |p| > 2 {
      assert p[1] in Elements(order);
      var k :| 0 <= k < |order| && order[k] == p[1];
      assert IsWalk(g, p[1..]) by {
        forall m, n | 0 <= m && n == m + 1 && n < |p[1..]| ensures HasEdge(g, p[1..][m], p[1..][n]) {
          assert HasEdge(g, p[m + 1], p[n + 1]);
        }
      }
      WalkGoesForward(g, order, p[1..], k, j);
    }
  }

  lemma TopologicalIsAcyclic(g: DiGraph, order: seq<nat>)
    requires Topological(g, order)
    ensures !Cyclic(g)
  {
    if Cyclic(g) {
      var c :| IsCycle(g, c);
      assert c[0] in Elements(order) && c[|c| - 1] in Elements(order);
      var i :| 0 <= i < |order| && order[i] == c[0];
      var j :| 0 <= j < |order| && order[j] == c[|c| - 1];
      assert j < i;
      WalkGoesForward(g, order, c, i, j);
    }
  }

  ghost predicate EnteredFrom(g: DiGraph, nodes: set<nat>, v: nat) {
    exists u :: u in nodes && HasEdge(g, u, v)
  }

  /** A non-empty set of nodes, each entered by an edge from the set, holds a cycle. The walk `path`
      is extended backwards until it bites its own tail. */
  lemma {:induction false} BackwardClosedIsCyclic(g: DiGraph, rest: set<nat>, path: seq<nat>)
    requires InRangeSet(rest, g.nodes)
    requires forall v {:trigger EnteredFrom(g, rest, v)} :: v in rest ==> EnteredFrom(g, rest, v)
    requires path != [] && Distinct(path) && IsWalk(g, path) && Elements(path) <= rest
    ensures Cyclic(g)
    decreases rest - Elements(path)
  {
    assert path[0] in Elements(path);
    assert EnteredFrom(g, rest, path[0]);
    var u :| u in rest && HasEdge(g, u, path[0]);
    if u in path {
      var i :| 0 <= i < |path| && path[i] == u;
      assert forall k :: 0 <= k < |path| ==> path[k] in Elements(path);
      WalkBitesTail(g, path, i);
    } else {
      var longer := [u] + path;
      assert Elements(longer) == Elements(path) + {u};
      WalkExtends(g, path, u);
      BackwardClosedIsCyclic(g, rest, longer);
    }
  }

  lemma WalkBitesTail(g: DiGraph, path: seq<nat>, i: nat)
    requires i < |path| && Distinct(path) && InRange(path, g.nodes) && IsWalk(g, path)
    requires HasEdge(g, path[i], path[0])
    ensures Cyclic(g)
  {
    var c := path[..i + 1];
    assert IsWalk(g, c);
    assert IsCycle(g, c);
  }

  lemma WalkExtends(g: DiGraph, path: seq<nat>, u: nat)
    requires path != [] && IsWalk(g, path) && HasEdge(g, u, path[0])
    ensures IsWalk(g, [u] + path)
  {
    var longer := [u] + path;
    forall k, m | 0 <= k && m == k + 1 && m < |longer| ensures HasEdge(g, longer[k], longer[m]) {
      if k > 0 {
        assert longer[k] == path[k - 1] && longer[m] == path[m - 1];
      }
    }
  }
}
