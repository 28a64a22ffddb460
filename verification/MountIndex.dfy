/** The dependency graph of mounts as a value: petgraph's graph plus the two index maps that
    `DependencyGraph` keeps beside it, and what each update does to them. */
module MountIndex {
  import opened Wrappers
  import opened DirectedGraphs

  /** `names` is `reverse_index`. */
  datatype Index = Index(graph: DiGraph, mounts: map<string, nat>, names: map<nat, string>)

  datatype GraphError = AlreadyExists(id: string) | NotFound(id: string) | NodeOutOfBounds(node: nat)

  const NEW := Index(EMPTY, map[], map[])

  /** The two maps are mutually inverse bijections between the mount ids and the graph's nodes. */
  ghost predicate Coherent(s: Index) {
    && Valid(s.graph)
    && (forall v: nat :: v in s.names <==> v < s.graph.nodes)
    && (forall id :: id in s.mounts ==> s.mounts[id] in s.names && s.names[s.mounts[id]] == id)
    && (forall v :: v in s.names ==> s.names[v] in s.mounts && s.mounts[s.names[v]] == v)
  }

  /** Mount `dependent` depends on mount `dependency`. Edges run from dependency to dependent. */
  ghost predicate DependsOn(s: Index, dependent: string, dependency: string) {
    && dependent in s.mounts && dependency in s.mounts
    && HasEdge(s.graph, s.mounts[dependency], s.mounts[dependent])
  }

  // ---- the updates ---------------------------------------------------------------------------

  function AddMount(s: Index, id: string): Result<Index, GraphError> {
    if id in s.mounts then Err(AlreadyExists(id))
    else
      var v := s.graph.nodes;
      Ok(Index(s.graph.(nodes := v + 1), s.mounts[id := v], s.names[v := id]))
  }

  /** The node that petgraph moves into the freed index is not re-indexed. */
  function RemoveMount(s: Index, id: string): Index {
    if id !in s.mounts then s
    else
      var v := s.mounts[id];
      var removed := RemoveNode(s.graph, v);
      Index(if removed.Some? then removed.value else s.graph, s.mounts - {id}, s.names - {v})
  }

  /** The repair: the mount whose node was moved is recorded under its new index. */
  function RemoveMountReindexed(s: Index, id: string): Index
    requires Coherent(s)
  {
    var t := RemoveMount(s, id);
    var last := s.graph.nodes - 1;
    if id !in s.mounts || s.mounts[id] == last then t
    else
      var moved := s.names[last];
      t.(mounts := t.mounts[moved := s.mounts[id]], names := (t.names - {last})[s.mounts[id] := moved])
  }

  /** petgraph's `add_edge` panics on an index that is not a node; `NodeOutOfBounds` stands for that. */
  function AddDependency(s: Index, dependent: string, dependency: string): Result<Index, GraphError> {
    if dependent !in s.mounts then Err(NotFound(dependent))
    else if dependency !in s.mounts then Err(NotFound(dependency))
    else if s.mounts[dependency] >= s.graph.nodes then Err(NodeOutOfBounds(s.mounts[dependency]))
    else if s.mounts[dependent] >= s.graph.nodes then Err(NodeOutOfBounds(s.mounts[dependent]))
    else Ok(s.(graph := AddEdge(s.graph, s.mounts[dependency], s.mounts[dependent])))
  }

  /** The ids of `graph.edges_connecting(u, v)`, newest edge first */
  function ConnectingIds(links: seq<Link>, u: nat, v: nat): (ids: seq<nat>)
    ensures forall e :: e in ids <==> exists i :: 0 <= i < |links| && links[i].id == e && Connects(links[i], u, v)
    ensures |ids| == Count(links, u, v)
  {
    if links == [] then []
    else
      var rest := ConnectingIds(links[1..], u, v);
      assert forall i :: 0 < i < |links| ==> links[i] == links[1..][i - 1];
      if Connects(links[0], u, v) then [links[0].id] + rest else rest
  }

  /** The ids were collected first; they are removed one at a time, each removal renumbering. */
  function RemoveEdges(links: seq<Link>, ids: seq<nat>): seq<Link>
    decreases |ids|
  {
    if ids == [] then links else RemoveEdges(RemoveEdge(links, ids[0]), ids[1..])
  }

  function RemoveDependency(s: Index, dependent: string, dependency: string): Result<Index, GraphError> {
    if dependent !in s.mounts then Err(NotFound(dependent))
    else if dependency !in s.mounts then Err(NotFound(dependency))
    else
      var ids := ConnectingIds(s.graph.links, s.mounts[dependency], s.mounts[dependent]);
      Ok(s.(graph := s.graph.(links := RemoveEdges(s.graph.links, ids))))
  }

  // ---- additions keep the index coherent -------------------------------------------------------

  lemma AddMountKeeps(s: Index, id: string)
    requires Coherent(s)
    ensures if id in s.mounts then AddMount(s, id) == Err(AlreadyExists(id))
            else AddMount(s, id).Ok? &&
                 var t := AddMount(s, id).value;
                 && Coherent(t) && t.mounts.Keys == s.mounts.Keys + {id}
                 && (forall a, b :: DependsOn(t, a, b) <==> DependsOn(s, a, b))
  {
    if id in s.mounts {
      return;
    }
    var t := AddMount(s, id).value;
    var n := s.graph.nodes;
    forall u ensures !HasEdge(s.graph, n, u) && !HasEdge(s.graph, u, n) {}
    forall a, b ensures DependsOn(t, a, b) <==> DependsOn(s, a, b) {
      if a == id || b == id {
        assert !DependsOn(s, a, b);
      }
    }
  }

  lemma AddDependencyKeeps(s: Index, dependent: string, dependency: string)
    requires Coherent(s)
    ensures AddDependency(s, dependent, dependency).Ok? <==> dependent in s.mounts && dependency in s.mounts
    ensures dependent !in s.mounts ==> AddDependency(s, dependent, dependency) == Err(NotFound(dependent))
    ensures dependent in s.mounts && dependency !in s.mounts ==>
              AddDependency(s, dependent, dependency) == Err(NotFound(dependency))
    ensures AddDependency(s, dependent, dependency).Ok? ==>
              var t := AddDependency(s, dependent, dependency).value;
              && Coherent(t) && t.mounts == s.mounts
              && (forall a, b :: DependsOn(t, a, b) <==> DependsOn(s, a, b) || (a == dependent && b == dependency))
  {
    if dependent in s.mounts && dependency in s.mounts {
      var t := AddDependency(s, dependent, dependency).value;
      var u, v := s.mounts[dependency], s.mounts[dependent];
      assert t.graph.links[1..] == s.graph.links;
      forall a, b ensures DependsOn(t, a, b) <==> DependsOn(s, a, b) || (a == dependent && b == dependency) {
        if a in s.mounts && b in s.mounts {
          HasLinkCons(t.graph.links, s.mounts[b]);
        }
      }
    }
  }

  /** In any state of the maps, coherent or not: an unknown mount gets the next node of the graph and its name, even
      where a removal left another mount under that index; nothing else changes. */
  lemma AddMountAlways(s: Index, id: string)
    ensures AddMount(s, id).Ok? <==> id !in s.mounts
    ensures AddMount(s, id).Ok? ==>
              var t := AddMount(s, id).value; var v := s.graph.nodes;
              && t.graph.nodes == v + 1 && (forall a, b :: HasEdge(t.graph, a, b) <==> HasEdge(s.graph, a, b))
              && t.mounts.Keys == s.mounts.Keys + {id} && t.mounts[id] == v
              && (forall a :: a in s.mounts ==> t.mounts[a] == s.mounts[a])
              && t.names.Keys == s.names.Keys + {v} && t.names[v] == id
              && (forall w :: w in s.names && w != v ==> t.names[w] == s.names[w])
  {
  }

  /** Likewise: one edge more exactly when both mounts are known and their recorded indices are nodes. */
  lemma AddDependencyAlways(s: Index, dependent: string, dependency: string)
    ensures AddDependency(s, dependent, dependency).Ok? <==>
              && dependent in s.mounts && s.mounts[dependent] < s.graph.nodes
              && dependency in s.mounts && s.mounts[dependency] < s.graph.nodes
    ensures AddDependency(s, dependent, dependency).Ok? ==>
              var t := AddDependency(s, dependent, dependency).value;
              && t.mounts == s.mounts && t.names == s.names && t.graph.nodes == s.graph.nodes
              && forall a: nat, b: nat :: HasEdge(t.graph, a, b) <==>
                   HasEdge(s.graph, a, b) || (a == s.mounts[dependency] && b == s.mounts[dependent])
  {
    if AddDependency(s, dependent, dependency).Ok? {
      var t := AddDependency(s, dependent, dependency).value;
      assert t.graph.links[1..] == s.graph.links;
      forall a: nat, b: nat
        ensures HasEdge(t.graph, a, b) <==>
                  HasEdge(s.graph, a, b) || (a == s.mounts[dependency] && b == s.mounts[dependent])
      {
        HasLinkCons(t.graph.links, a);
      }
    }
  }

  // ---- removing a dependency --------------------------------------------------------------------

  function Count(links: seq<Link>, u: nat, v: nat): nat {
    if links == [] then 0
    else (if Connects(links[0], u, v) then 1 else 0) + Count(links[1..], u, v)
  }

  lemma {:induction false} CountZero(links: seq<Link>, u: nat, v: nat)
    ensures Count(links, u, v) == 0 <==> !HasLink(links, u, v)
  {
    if links != [] {
      CountZero(links[1..], u, v);
      HasLinkCons(links, u);
    }
  }

  lemma {:induction false} CountSplit(links: seq<Link>, p: nat, u: nat, v: nat)
    requires p <= |links|
    ensures Count(links, u, v) == Count(links[..p], u, v) + Count(links[p..], u, v)
  {
    if p > 0 {
      CountSplit(links[1..], p - 1, u, v);
      assert links[1..][..p - 1] == links[..p][1..];
      assert links[1..][p - 1..] == links[p..];
    } else {
      assert links[0..] == links;
    }
  }

  lemma {:induction false} CountSameEnds(a: seq<Link>, b: seq<Link>, u: nat, v: nat)
    requires |a| == |b| && forall i :: 0 <= i < |a| ==> a[i].source == b[i].source && a[i].target == b[i].target
    ensures Count(a, u, v) == Count(b, u, v)
  {
    if a != [] {
      CountSameEnds(a[1..], b[1..], u, v);
    }
  }

  lemma RemoveEdgeCount(links: seq<Link>, p: nat, u: nat, v: nat)
    requires WellNumbered(links) && p < |links| && Connects(links[p], u, v)
    ensures Count(RemoveEdge(links, links[p].id), u, v) == Count(links, u, v) - 1
  {
    RemoveEdgeKeeps(links, links[p].id);
    assert PositionOf(links, links[p].id) == p;
    var kept := links[..p] + links[p + 1..];
    CountSameEnds(RemoveEdge(links, links[p].id), kept, u, v);
    CountSplit(kept, p, u, v);
    CountSplit(links, p, u, v);
    assert kept[..p] == links[..p] && kept[p..] == links[p..][1..];
  }

  /** How many of the collected ids still name an edge when their turn comes. */
  function Hits(ids: seq<nat>, n: nat): nat
  {
    if ids == [] then 0
    else if ids[0] < n then 1 + Hits(ids[1..], n - 1)
    else Hits(ids[1..], n)
  }

  lemma {:induction false} HitsAll(ids: seq<nat>, n: nat)
    ensures Hits(ids, n) <= |ids|
    ensures Hits(ids, n) == |ids| <==> forall k :: 0 <= k < |ids| ==> ids[k] < n - k
  {
    if ids != [] {
      HitsAll(ids[1..], if ids[0] < n then n - 1 else n);
      if ids[0] < n {
        assert (forall k :: 0 <= k < |ids| ==> ids[k] < n - k)
           <==> (forall k :: 0 <= k < |ids[1..]| ==> ids[1..][k] < n - 1 - k) by {
          if forall k :: 0 <= k < |ids[1..]| ==> ids[1..][k] < n - 1 - k {
            forall k | 0 <= k < |ids| ensures ids[k] < n - k {
              assert k > 0 ==> ids[1..][k - 1] == ids[k];
            }
          }
        }
      }
    }
  }

  /** Whatever carries one of the pending ids is an edge between the two mounts. */
  ghost predicate OnlyMarks(links: seq<Link>, ids: seq<nat>, u: nat, v: nat) {
    forall i :: 0 <= i < |links| && links[i].id in ids ==> Connects(links[i], u, v)
  }

  lemma {:induction false} RemoveEdgesExact(links: seq<Link>, ids: seq<nat>, u: nat, v: nat)
    requires WellNumbered(links) && Distinct(ids) && OnlyMarks(links, ids, u, v)
    ensures WellNumbered(RemoveEdges(links, ids))
    ensures Count(RemoveEdges(links, ids), u, v) == Count(links, u, v) - Hits(ids, |links|)
    ensures forall a: nat, b: nat :: a != u || b != v ==>
              (HasLink(RemoveEdges(links, ids), a, b) <==> HasLink(links, a, b))
    decreases |ids|
  {
    if ids != [] {
      var e := ids[0];
      assert e !in ids[1..];
      if e < |links| {
        RemoveEdgeKeeps(links, e);
        var p := PositionOf(links, e);
        assert links[p].id in ids;
        RemoveEdgeCount(links, p, u, v);
        RemainingMarks(links, ids, u, v);
        forall a: nat, b: nat | a != u || b != v ensures HasLink(RemoveEdge(links, e), a, b) <==> HasLink(links, a, b) {
          RemoveEdgeRelation(links, p, a, b);
        }
      }
      RemoveEdgesExact(RemoveEdge(links, e), ids[1..], u, v);
    }
  }

  lemma RemainingMarks(links: seq<Link>, ids: seq<nat>, u: nat, v: nat)
    requires WellNumbered(links) && Distinct(ids) && OnlyMarks(links, ids, u, v)
    requires ids != [] && ids[0] < |links|
    ensures OnlyMarks(RemoveEdge(links, ids[0]), ids[1..], u, v)
  {
    var e := ids[0];
    RemoveEdgeKeeps(links, e);
    var p := PositionOf(links, e);
    var rest := RemoveEdge(links, e);
    assert e !in ids[1..];
    forall i | 0 <= i < |rest| && rest[i].id in ids[1..] ensures Connects(rest[i], u, v) {
      var l := links[Skip(p, i)];
      assert rest[i].id != e;
      assert rest[i] == l;
      assert l.id in ids;
    }
  }

  lemma {:induction false} ConnectingIdsDistinct(links: seq<Link>, u: nat, v: nat)
    requires forall i, j :: 0 <= i < j < |links| ==> links[i].id != links[j].id
    ensures Distinct(ConnectingIds(links, u, v))
  {
    if links != [] {
      ConnectingIdsDistinct(links[1..], u, v);
      var rest := ConnectingIds(links[1..], u, v);
      assert links[0].id !in rest by {
        forall i | 0 <= i < |links[1..]| ensures links[1..][i].id != links[0].id {
          assert links[1..][i] == links[i + 1];
        }
      }
    }
  }

  /** Collecting the edges from `u` to `v` and removing them one by one, on the edge list. */
  lemma DisconnectExact(links: seq<Link>, u: nat, v: nat)
    requires WellNumbered(links)
    ensures var ids := ConnectingIds(links, u, v); var rest := RemoveEdges(links, ids);
            && WellNumbered(rest)
            && (forall a: nat, b: nat :: a != u || b != v ==> (HasLink(rest, a, b) <==> HasLink(links, a, b)))
            && (!HasLink(rest, u, v) <==> forall k :: 0 <= k < |ids| ==> ids[k] < |links| - k)
            && (HasLink(rest, u, v) ==> HasLink(links, u, v))
  {
    var ids := ConnectingIds(links, u, v);
    ConnectingIdsDistinct(links, u, v);
    ConnectingMarks(links, u, v);
    RemoveEdgesExact(links, ids, u, v);
    CountZero(RemoveEdges(links, ids), u, v);
    CountZero(links, u, v);
    HitsAll(ids, |links|);
  }

  /** Removing a dependency never touches the others and keeps the maps; it removes the dependency
      itself if and only if no collected edge index has been overtaken by the renumbering: the k-th
      id must be below the number of edges left after k removals. */
  lemma RemoveDependencyExact(s: Index, dependent: string, dependency: string)
    requires Coherent(s)
    ensures dependent !in s.mounts ==> RemoveDependency(s, dependent, dependency) == Err(NotFound(dependent))
    ensures dependent in s.mounts && dependency !in s.mounts ==>
              RemoveDependency(s, dependent, dependency) == Err(NotFound(dependency))
    ensures dependent in s.mounts && dependency in s.mounts ==>
              RemoveDependency(s, dependent, dependency).Ok? &&
              var t := RemoveDependency(s, dependent, dependency).value;
              var ids := ConnectingIds(s.graph.links, s.mounts[dependency], s.mounts[dependent]);
              && Coherent(t) && t.mounts == s.mounts && t.names == s.names
              && (forall a, b :: a != dependent || b != dependency ==> (DependsOn(t, a, b) <==> DependsOn(s, a, b)))
              && (!DependsOn(t, dependent, dependency) <==>
                  forall k :: 0 <= k < |ids| ==> ids[k] < |s.graph.links| - k)
  {
    if dependent !in s.mounts || dependency !in s.mounts {
      return;
    }
    var u, v := s.mounts[dependency], s.mounts[dependent];
    var t := RemoveDependency(s, dependent, dependency).value;
    DisconnectExact(s.graph.links, u, v);
    DisconnectValid(s.graph, u, v);
    forall a, b | a != dependent || b != dependency ensures DependsOn(t, a, b) <==> DependsOn(s, a, b) {
      if a in s.mounts && b in s.mounts {
        assert s.names[s.mounts[a]] == a && s.names[s.mounts[b]] == b;
      }
    }
  }

  /** The same in any state of the maps, on the graph's edges */
  lemma RemoveDependencyAlways(s: Index, dependent: string, dependency: string)
    requires Valid(s.graph)
    ensures RemoveDependency(s, dependent, dependency).Ok? <==> dependent in s.mounts && dependency in s.mounts
    ensures RemoveDependency(s, dependent, dependency).Ok? ==>
              var t := RemoveDependency(s, dependent, dependency).value;
              var u, v := s.mounts[dependency], s.mounts[dependent]; var ids := ConnectingIds(s.graph.links, u, v);
              && t.mounts == s.mounts && t.names == s.names && t.graph.nodes == s.graph.nodes
              && (forall a: nat, b: nat :: a != u || b != v ==> (HasEdge(t.graph, a, b) <==> HasEdge(s.graph, a, b)))
              && (!HasEdge(t.graph, u, v) <==> forall k :: 0 <= k < |ids| ==> ids[k] < |s.graph.links| - k)
  {
    if dependent in s.mounts && dependency in s.mounts {
      DisconnectExact(s.graph.links, s.mounts[dependency], s.mounts[dependent]);
    }
    hide HasLink, WellNumbered, RemoveEdges, ConnectingIds;
  }

  lemma ConnectingMarks(links: seq<Link>, u: nat, v: nat)
    requires forall i, j :: 0 <= i < j < |links| ==> links[i].id != links[j].id
    ensures OnlyMarks(links, ConnectingIds(links, u, v), u, v)
  {
    var ids := ConnectingIds(links, u, v);
    forall i | 0 <= i < |links| && links[i].id in ids ensures Connects(links[i], u, v) {
      var j :| 0 <= j < |links| && links[j].id == links[i].id && Connects(links[j], u, v);
    }
  }

  /** A dependency recorded once is always removed. */
  lemma SingleDependencyRemoved(s: Index, dependent: string, dependency: string)
    requires Coherent(s) && dependent in s.mounts && dependency in s.mounts
    requires Count(s.graph.links, s.mounts[dependency], s.mounts[dependent]) <= 1
    ensures !DependsOn(RemoveDependency(s, dependent, dependency).value, dependent, dependency)
  {
    RemoveDependencyExact(s, dependent, dependency);
    var ids := ConnectingIds(s.graph.links, s.mounts[dependency], s.mounts[dependent]);
    forall k | 0 <= k < |ids| ensures ids[k] < |s.graph.links| - k {
      assert ids[k] in ids;
    }
  }

  // ---- removing a mount -------------------------------------------------------------------------

  /** The edges of `h` are those of `g` that did not touch `v`, seen through the swap of the last node. */
  ghost predicate NodeGone(g: DiGraph, h: DiGraph, v: nat) {
    h.nodes + 1 == g.nodes && forall a: nat, b: nat :: a < h.nodes && b < h.nodes ==>
      (HasEdge(h, a, b) <==> HasEdge(g, Moved(a, v, h.nodes), Moved(b, v, h.nodes)))
  }

  /** In any state of the maps, coherent or not: the mount is forgotten, its recorded index loses its name, and the
      graph loses the node with that index if there is one; every other entry stays. */
  lemma RemoveMountAlways(s: Index, id: string)
    requires Valid(s.graph)
    ensures var t := RemoveMount(s, id);
            if id !in s.mounts then t == s
            else
              var v, last := s.mounts[id], s.graph.nodes - 1;
              && t.mounts.Keys == s.mounts.Keys - {id}
              && (forall a :: a in t.mounts ==> t.mounts[a] == s.mounts[a])
              && t.names.Keys == s.names.Keys - {v}
              && (forall w :: w in t.names ==> t.names[w] == s.names[w])
              && if v > last then t.graph == s.graph else NodeGone(s.graph, t.graph, v)
  {
    hide HasLink, RemoveNode;
    if id in s.mounts && s.mounts[id] < s.graph.nodes {
      var v, last := s.mounts[id], s.graph.nodes - 1;
      RemoveNodeShrinks(s.graph, v);
      forall a: nat, b: nat | a < last && b < last
        ensures HasEdge(RemoveMount(s, id).graph, a, b) <==> HasEdge(s.graph, Moved(a, v, last), Moved(b, v, last))
      {
        RemoveNodeRelation(s.graph, v, a, b);
      }
    } else if id in s.mounts {
      NoSuchNode(s.graph, s.mounts[id]);
    }
  }

  lemma RemoveNodeShrinks(g: DiGraph, v: nat)
    requires v < g.nodes
    ensures RemoveNode(g, v).Some? && RemoveNode(g, v).value.nodes == g.nodes - 1
  {
  }

  lemma NoSuchNode(g: DiGraph, v: nat)
    requires v >= g.nodes
    ensures RemoveNode(g, v).None?
  {
  }

  /** The removal does not disturb the numbering: an unknown mount, or the one with the last index. */
  predicate Tame(s: Index, id: string) {
    id !in s.mounts || s.mounts[id] + 1 == s.graph.nodes
  }

  /** `remove_mount` keeps the index coherent exactly for the mount with the highest index. */
  lemma RemoveMountCoherentIff(s: Index, id: string)
    requires Coherent(s)
    ensures Coherent(RemoveMount(s, id)) <==> Tame(s, id)
  {
    if id in s.mounts {
      var v := s.mounts[id];
      RemoveNodeValid(s.graph, v);
      var t := RemoveMount(s, id);
      if v + 1 == s.graph.nodes {
        forall k | k in t.mounts ensures t.mounts[k] in t.names && t.names[t.mounts[k]] == k {
          assert s.names[s.mounts[k]] == k;
        }
      } else {
        assert v !in t.names && v < t.graph.nodes;
      }
    }
  }

  /** With the moved node re-indexed, removal keeps the index coherent for every mount and keeps
      exactly the dependencies among the remaining mounts. */
  lemma ReindexRestores(s: Index, id: string)
    requires Coherent(s)
    ensures var t := RemoveMountReindexed(s, id);
            && Coherent(t) && t.mounts.Keys == s.mounts.Keys - {id}
            && (forall a, b :: DependsOn(t, a, b) <==> DependsOn(s, a, b) && a != id && b != id)
  {
    if id in s.mounts {
      var v, last := s.mounts[id], s.graph.nodes - 1;
      RemoveNodeValid(s.graph, v);
      var t := RemoveMountReindexed(s, id);
      ReindexCoherent(s, id);
      forall a, b ensures DependsOn(t, a, b) <==> DependsOn(s, a, b) && a != id && b != id {
        if a in t.mounts && b in t.mounts {
          RemoveNodeRelation(s.graph, v, t.mounts[b], t.mounts[a]);
          ReindexMoved(s, id, a);
          ReindexMoved(s, id, b);
        }
      }
    }
  }

  lemma ReindexMoved(s: Index, id: string, a: string)
    requires Coherent(s) && id in s.mounts && a in s.mounts && a != id
    ensures var t := RemoveMountReindexed(s, id);
            a in t.mounts && t.mounts[a] < s.graph.nodes - 1
            && Moved(t.mounts[a], s.mounts[id], s.graph.nodes - 1) == s.mounts[a]
  {
    hide Valid, RemoveNode;
    var v, last := s.mounts[id], s.graph.nodes - 1;
    assert s.names[s.mounts[a]] == a && s.names[v] == id;
    assert RemoveMount(s, id).mounts == s.mounts - {id};
    if v != last {
      var moved := s.names[last];
      assert s.mounts[moved] == last;
      if a == moved {
        assert RemoveMountReindexed(s, id).mounts[a] == v;
      } else {
        assert s.mounts[a] != last;
      }
    }
  }

  lemma ReindexCoherent(s: Index, id: string)
    requires Coherent(s) && id in s.mounts
    ensures Coherent(RemoveMountReindexed(s, id))
    ensures RemoveMountReindexed(s, id).mounts.Keys == s.mounts.Keys - {id}
  {
    var v := s.mounts[id];
    RemoveNodeValid(s.graph, v);
    RemoveNodeShrinks(s.graph, v);
    hide RemoveNode, Valid;
    ReindexedMaps(s, id);
  }

  lemma ReindexedMaps(s: Index, id: string)
    requires Coherent(s) && id in s.mounts
    ensures var t, last := RemoveMountReindexed(s, id), s.graph.nodes - 1;
            && t.mounts.Keys == s.mounts.Keys - {id}
            && (forall w: nat :: w in t.names <==> w < last)
            && (forall k :: k in t.mounts ==> t.mounts[k] in t.names && t.names[t.mounts[k]] == k)
            && (forall w :: w in t.names ==> t.names[w] in t.mounts && t.mounts[t.names[w]] == w)
  {
    hide RemoveNode, Valid;
    var t, v, last := RemoveMountReindexed(s, id), s.mounts[id], s.graph.nodes - 1;
    assert s.names[v] == id && s.mounts[s.names[last]] == last;
    forall k | k in t.mounts ensures t.mounts[k] in t.names && t.names[t.mounts[k]] == k {
      assert s.names[s.mounts[k]] == k;
    }
    forall w | w in t.names ensures t.names[w] in t.mounts && t.mounts[t.names[w]] == w {
      assert w != v ==> t.names[w] == s.names[w];
    }
  }

  /** What goes wrong otherwise: the mount whose node was moved stays in `mounts` under an index that
      is no node any more, so new dependencies on it fail, and no node bears its name. */
  lemma MovedMountIsLost(s: Index, id: string)
    requires Coherent(s) && !Tame(s, id)
    ensures var t := RemoveMount(s, id); var moved := s.names[s.graph.nodes - 1];
            && moved != id && moved in t.mounts && t.mounts[moved] == t.graph.nodes
            && (forall v: nat :: v < t.graph.nodes && v in t.names ==> t.names[v] != moved)
            && (forall a :: a in t.mounts ==>
                  AddDependency(t, a, moved).Err? && AddDependency(t, moved, a).Err?)
  {
    var t := RemoveMount(s, id);
    var last := s.graph.nodes - 1;
    var moved := s.names[last];
    assert s.mounts[moved] == last;
    forall v: nat | v < t.graph.nodes && v in t.names ensures t.names[v] != moved {
      assert s.mounts[s.names[v]] == v;
    }
  }

  /** The next mount added then shares its node with the moved one. */
  lemma NextMountIsAliased(s: Index, id: string, next: string)
    requires Coherent(s) && !Tame(s, id) && next !in RemoveMount(s, id).mounts
    ensures var moved := s.names[s.graph.nodes - 1];
            var t := AddMount(RemoveMount(s, id), next).value;
            next != moved && moved in t.mounts && t.mounts[next] == t.mounts[moved]
  {
    MovedMountIsLost(s, id);
  }

  // ---- whole runs -------------------------------------------------------------------------------

  datatype Op =
    | Add(id: string)
    | Remove(id: string)
    | Depend(dependent: string, dependency: string)
    | Undepend(dependent: string, dependency: string)

  function Applied(s: Index, r: Result<Index, GraphError>): Index {
    if r.Ok? then r.value else s
  }

  function Apply(s: Index, op: Op): Index {
    match op
    case Add(id) => Applied(s, AddMount(s, id))
    case Remove(id) => RemoveMount(s, id)
    case Depend(a, b) => Applied(s, AddDependency(s, a, b))
    case Undepend(a, b) => Applied(s, RemoveDependency(s, a, b))
  }

  function Run(s: Index, ops: seq<Op>): Index
    decreases |ops|
  {
    if ops == [] then s else Run(Apply(s, ops[0]), ops[1..])
  }

  ghost predicate CoherentThroughout(s: Index, ops: seq<Op>)
    decreases |ops|
  {
    Coherent(s) && (ops != [] ==> CoherentThroughout(Apply(s, ops[0]), ops[1..]))
  }

  predicate TameThroughout(s: Index, ops: seq<Op>)
    decreases |ops|
  {
    ops != [] ==> (ops[0].Remove? ==> Tame(s, ops[0].id)) && TameThroughout(Apply(s, ops[0]), ops[1..])
  }

  lemma ApplyCoherentIff(s: Index, op: Op)
    requires Coherent(s)
    ensures Coherent(Apply(s, op)) <==> (op.Remove? ==> Tame(s, op.id))
  {
    match op
    case Add(id) =>
      if id !in s.mounts { AddMountKeeps(s, id); }
    case Remove(id) =>
      RemoveMountCoherentIff(s, id);
    case Depend(a, b) =>
      AddDependencyKeeps(s, a, b);
    case Undepend(a, b) =>
      if a in s.mounts && b in s.mounts { RemoveDependencyExact(s, a, b); }
  }

  /** Over every run of updates: the index stays coherent all along if and only if each removal takes
      the mount with the highest index (or an unknown one). */
  lemma {:induction false} RunCoherentIff(s: Index, ops: seq<Op>)
    requires Coherent(s)
    ensures CoherentThroughout(s, ops) <==> TameThroughout(s, ops)
    decreases |ops|
  {
    if ops != [] {
      ApplyCoherentIff(s, ops[0]);
      if Coherent(Apply(s, ops[0])) {
        RunCoherentIff(Apply(s, ops[0]), ops[1..]);
      }
    }
  }

  /** Whatever is updated in whatever state of the maps, the graph itself stays well formed. */
  lemma ApplyValid(s: Index, op: Op)
    requires Valid(s.graph)
    ensures Valid(Apply(s, op).graph)
  {
    match op
    case Add(id) =>
    case Remove(id) =>
      if id in s.mounts && s.mounts[id] < s.graph.nodes {
        RemoveNodeValid(s.graph, s.mounts[id]);
      }
    case Depend(a, b) =>
    case Undepend(a, b) =>
      if a in s.mounts && b in s.mounts {
        DisconnectValid(s.graph, s.mounts[b], s.mounts[a]);
      }
  }

  lemma DisconnectValid(g: DiGraph, u: nat, v: nat)
    requires Valid(g)
    ensures Valid(g.(links := RemoveEdges(g.links, ConnectingIds(g.links, u, v))))
  {
    DisconnectExact(g.links, u, v);
    var rest := RemoveEdges(g.links, ConnectingIds(g.links, u, v));
    forall i | 0 <= i < |rest| ensures rest[i].source < g.nodes && rest[i].target < g.nodes {
      var l := rest[i];
      assert Connects(l, l.source, l.target);
      assert HasLink(rest, l.source, l.target);
      assert HasLink(g.links, l.source, l.target);
    }
  }

  /** Over every run, tame or not, the graph that the queries need stays well formed. */
  lemma {:induction false} RunValid(s: Index, ops: seq<Op>)
    requires Valid(s.graph)
    ensures Valid(Run(s, ops).graph)
    decreases |ops|
  {
    hide Valid, Apply;
    if ops != [] {
      ApplyValid(s, ops[0]);
      RunValid(Apply(s, ops[0]), ops[1..]);
    }
  }

  /** A named node is the one its mount is recorded under. Mounts may lack a node or a name. */
  ghost predicate Matching(s: Index) {
    forall v :: v in s.names ==> s.names[v] in s.mounts && s.mounts[s.names[v]] == v
  }

  lemma ApplyMatching(s: Index, op: Op)
    requires Matching(s)
    ensures Matching(Apply(s, op))
  {
    hide RemoveNode, RemoveEdges;
  }

  /** Over every run, tame or not: names still lead back to their nodes, so no two nodes share one. */
  lemma {:induction false} RunMatching(s: Index, ops: seq<Op>)
    requires Matching(s)
    ensures Matching(Run(s, ops))
    decreases |ops|
  {
    hide Matching, Apply;
    if ops != [] {
      ApplyMatching(s, ops[0]);
      RunMatching(Apply(s, ops[0]), ops[1..]);
    }
  }

  function Three(): Index {
    Apply(Apply(Apply(NEW, Add("a")), Add("b")), Add("c"))
  }

  /** Mounts a, b, c; c depends on b, and b is made to depend on a twice. */
  function Twins(): Index {
    Apply(Apply(Apply(Three(), Depend("c", "b")), Depend("b", "a")), Depend("b", "a"))
  }

  lemma NewIsCoherent()
    ensures Coherent(NEW)
  {
  }

  lemma ThreeValue()
    ensures Coherent(Three())
    ensures Three() == Index(DiGraph(3, []), map["a" := 0, "b" := 1, "c" := 2], map[0 := "a", 1 := "b", 2 := "c"])
  {
    hide Valid, HasLink, DependsOn, Coherent;
    NewIsCoherent();
    AddMountKeeps(NEW, "a");
    var one := Apply(NEW, Add("a"));
    assert one == Index(DiGraph(1, []), map["a" := 0], map[0 := "a"]);
    AddMountKeeps(one, "b");
    var two := Apply(one, Add("b"));
    assert two == Index(DiGraph(2, []), map["a" := 0, "b" := 1], map[0 := "a", 1 := "b"]);
    AddMountKeeps(two, "c");
  }

  lemma TwinsValue()
    ensures Coherent(Twins())
    ensures Twins().graph == DiGraph(3, [Link(2, 0, 1), Link(1, 0, 1), Link(0, 1, 2)])
    ensures Twins().mounts == map["a" := 0, "b" := 1, "c" := 2]
  {
    ThreeValue();
    hide Three, Valid, HasLink;
    AddDependencyKeeps(Three(), "c", "b");
    var four := Apply(Three(), Depend("c", "b"));
    AddDependencyKeeps(four, "b", "a");
    AddDependencyKeeps(Apply(four, Depend("b", "a")), "b", "a");
  }

  /** A removal that leaves its dependency behind. Removing c -> b first moves the newest edge to
      index 0; of the twins, now 0 and 1, the second has become 0 when index 1 is removed. */
  lemma TwinSurvives()
    ensures var s := Apply(Twins(), Undepend("c", "b"));
            Coherent(s) && DependsOn(Apply(s, Undepend("b", "a")), "b", "a")
  {
    TwinsValue();
    hide Valid, HasLink, Twins;
    var s := Twins();
    var t := Apply(s, Undepend("c", "b"));
    RemoveDependencyExact(s, "c", "b");
    TwinLinks();
    RemoveDependencyExact(t, "b", "a");
    assert [0, 1][1] >= 2 - 1;
  }

  lemma TwinLinks()
    ensures var links := [Link(2, 0, 1), Link(1, 0, 1), Link(0, 1, 2)];
            && RemoveEdges(links, ConnectingIds(links, 1, 2)) == [Link(0, 0, 1), Link(1, 0, 1)]
            && ConnectingIds([Link(0, 0, 1), Link(1, 0, 1)], 0, 1) == [0, 1]
  {
    var links := [Link(2, 0, 1), Link(1, 0, 1), Link(0, 1, 2)];
    assert ConnectingIds(links, 1, 2) == [0];
    assert PositionOf(links, 0) == 2;
    assert RemoveEdge(links, 0) == [Link(0, 0, 1), Link(1, 0, 1)];
    assert RemoveEdges(links, [0]) == RemoveEdge(links, 0);
  }
}
