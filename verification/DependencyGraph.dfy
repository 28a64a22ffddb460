/** `DependencyGraph` itself: the three lock-protected fields, the methods that update them, the
    depth-first cycle check, the startup and shutdown sequences and the parallel groups. */
module Dependencies {
  import opened Wrappers
  import opened DirectedGraphs
  import opened MountIndex
  import CS = CycleSearch
  import DF = DepthFirst
  import PN = PartialNames

  datatype Sequence = Sequence(mounts: seq<string>, parallelGroups: seq<seq<string>>)

  // ---- ordering ------------------------------------------------------------------------------

  lemma {:induction false} NamesOfAll(names: map<nat, string>, order: seq<nat>)
    requires forall i :: 0 <= i < |order| ==> order[i] in names
    ensures PN.NamesOf(names, order) == CS.Ids(names, order)
  {
    if order != [] {
      NamesOfAll(names, order[1..]);
    }
  }

  /** Each mount once, and every dependency before its dependents. */
  ghost predicate StartupOrder(s: Index, ids: seq<string>) {
    && Distinct(ids) && Elements(ids) == s.mounts.Keys
    && (forall i, j :: 0 <= i < |ids| && 0 <= j < |ids| && DependsOn(s, ids[j], ids[i]) ==> i < j)
  }

  ghost predicate ShutdownOrder(s: Index, ids: seq<string>) {
    && Distinct(ids) && Elements(ids) == s.mounts.Keys
    && (forall i, j :: 0 <= i < |ids| && 0 <= j < |ids| && DependsOn(s, ids[j], ids[i]) ==> j < i)
  }

  lemma TopologicalNames(s: Index, order: seq<nat>)
    requires Coherent(s) && Topological(s.graph, order)
    ensures StartupOrder(s, PN.NamesOf(s.names, order))
  {
    forall i | 0 <= i < |order| ensures order[i] in s.names {
      assert order[i] in Elements(order);
    }
    NamesOfAll(s.names, order);
    NamesListEachMount(s, order);
    NamesInOrder(s, order);
  }

  lemma NamesListEachMount(s: Index, order: seq<nat>)
    requires Coherent(s) && Distinct(order) && Elements(order) == Below(s.graph.nodes)
    requires forall i :: 0 <= i < |order| ==> order[i] in s.names
    ensures Distinct(CS.Ids(s.names, order)) && Elements(CS.Ids(s.names, order)) == s.mounts.Keys
  {
    hide Valid;
    var ids := CS.Ids(s.names, order);
    forall i, j | 0 <= i < j < |ids| ensures ids[i] != ids[j] {
      assert s.mounts[ids[i]] == order[i] && s.mounts[ids[j]] == order[j];
    }
    forall id | id in s.mounts.Keys ensures id in ids {
      assert s.mounts[id] in Elements(order);
      var i :| 0 <= i < |order| && order[i] == s.mounts[id];
      assert ids[i] == id;
    }
  }

  lemma NamesInOrder(s: Index, order: seq<nat>)
    requires Coherent(s) && Forward(s.graph, order)
    requires forall i :: 0 <= i < |order| ==> order[i] in s.names
    ensures var ids := CS.Ids(s.names, order);
            forall i, j :: 0 <= i < |ids| && 0 <= j < |ids| && DependsOn(s, ids[j], ids[i]) ==> i < j
  {
    hide Valid, HasEdge;
    var ids := CS.Ids(s.names, order);
    forall i, j | 0 <= i < |ids| && 0 <= j < |ids| && DependsOn(s, ids[j], ids[i]) ensures i < j {
      assert s.mounts[ids[i]] == order[i] && s.mounts[ids[j]] == order[j];
    }
  }

  /** Of two named nodes joined by an edge, the source is listed first. */
  ghost predicate NamedForward(g: DiGraph, names: map<nat, string>, ids: seq<string>) {
    forall i, j, u, v ::
      (0 <= i < |ids| && 0 <= j < |ids| && u in names && v in names && ids[i] == names[u] && ids[j] == names[v])
      ==> HasEdge(g, u, v) ==> i < j
  }

  /** Where each listed name comes from */
  lemma {:induction false} NamesOfPositions(names: map<nat, string>, order: seq<nat>) returns (from: seq<nat>)
    ensures |from| == |PN.NamesOf(names, order)|
    ensures forall i :: 0 <= i < |from| ==>
              from[i] < |order| && order[from[i]] in names && PN.NamesOf(names, order)[i] == names[order[from[i]]]
    ensures forall i, j :: 0 <= i < j < |from| ==> from[i] < from[j]
  {
    from := [];
    if order != [] {
      var rest := NamesOfPositions(names, order[1..]);
      var later := seq(|rest|, i requires 0 <= i < |rest| => rest[i] + 1);
      from := if order[0] in names then [0] + later else later;
    }
  }

  /** For any index: the names of a topological order are those of the graph's nodes, and in that order. */
  lemma NamesOfTopological(g: DiGraph, names: map<nat, string>, order: seq<nat>)
    requires Valid(g) && Topological(g, order)
    ensures forall id :: id in PN.NamesOf(names, order) <==> exists v :: v in names && v < g.nodes && names[v] == id
    ensures PN.NamesApart(names) ==>
              Distinct(PN.NamesOf(names, order)) && NamedForward(g, names, PN.NamesOf(names, order))
  {
    hide Valid, HasLink;
    forall v: nat ensures v in order <==> v < g.nodes {
      assert v in Elements(order) <==> v in Below(g.nodes);
    }
    if PN.NamesApart(names) {
      hide PN.NamesOf, Topological;
      NamesApartInOrder(g, names, order);
    }
  }

  lemma NamesApartInOrder(g: DiGraph, names: map<nat, string>, order: seq<nat>)
    requires PN.NamesApart(names) && Topological(g, order)
    ensures Distinct(PN.NamesOf(names, order)) && NamedForward(g, names, PN.NamesOf(names, order))
  {
    hide PN.NamesOf, Topological, HasEdge;
    var from := NamesOfPositions(names, order);
    var ids := PN.NamesOf(names, order);
    forall i, j | 0 <= i < j < |ids| ensures ids[i] != ids[j] {
      DistinctAt(g, order, from[i], from[j]);
    }
    forall i, j, u, v | 0 <= i < |ids| && 0 <= j < |ids| && u in names && v in names && HasEdge(g, u, v)
                        && ids[i] == names[u] && ids[j] == names[v]
      ensures i < j
    {
      assert order[from[i]] == u && order[from[j]] == v;
      ForwardAt(g, order, from[i], from[j]);
    }
  }

  lemma DistinctAt(g: DiGraph, order: seq<nat>, i: nat, j: nat)
    requires Topological(g, order) && i < j < |order|
    ensures order[i] != order[j]
  {
  }

  lemma ForwardAt(g: DiGraph, order: seq<nat>, i: nat, j: nat)
    requires Topological(g, order) && i < |order| && j < |order| && HasEdge(g, order[i], order[j])
    ensures i < j
  {
  }

  lemma ReversedIsShutdown(s: Index, ids: seq<string>)
    requires StartupOrder(s, ids)
    ensures ShutdownOrder(s, CS.Reversed(ids))
  {
    var r := CS.Reversed(ids);
    forall id | id in Elements(ids) ensures id in r {
      var i :| 0 <= i < |ids| && ids[i] == id;
      assert r[|ids| - 1 - i] == id;
    }
  }

  /** No remaining node has an edge to `v`. */
  predicate Unblocked(g: DiGraph, rest: set<nat>, v: nat) {
    forall u :: u in Sources(g.links, v) ==> u !in rest
  }

  /** Repeatedly takes any node that no remaining node precedes; every topological order can come
      out. When all remaining nodes are blocked, they contain a cycle. */
  method Toposort(g: DiGraph) returns (r: Option<seq<nat>>)
    requires Valid(g)
    ensures r.None? <==> Cyclic(g)
    ensures r.Some? ==> Topological(g, r.value)
  {
    hide Cyclic, Valid, HasLink, Below;
    var order: seq<nat> := [];
    var rest := Below(g.nodes);
    while rest != {}
      invariant Elements(order) !! rest && Elements(order) + rest == Below(g.nodes)
      invariant Distinct(order) && Forward(g, order)
      invariant NoEdgeBack(g, rest, order)
      decreases rest
    {
      if v :| v in rest && Unblocked(g, rest, v) {
        ForwardGrows(g, rest, order, v);
        order, rest := order + [v], rest - {v};
      } else {
        StuckIsCyclic(g, rest);
        return None;
      }
    }
    TopologicalIsAcyclic(g, order);
    return Some(order);
  }

  ghost predicate NoEdgeBack(g: DiGraph, rest: set<nat>, order: seq<nat>) {
    forall i, w :: 0 <= i < |order| && w in rest ==> !HasEdge(g, w, order[i])
  }

  lemma ForwardGrows(g: DiGraph, rest: set<nat>, order: seq<nat>, v: nat)
    requires Distinct(order) && Forward(g, order) && NoEdgeBack(g, rest, order) && Elements(order) !! rest
    requires v in rest && Unblocked(g, rest, v)
    ensures Distinct(order + [v]) && Forward(g, order + [v]) && NoEdgeBack(g, rest - {v}, order + [v])
    ensures Elements(order + [v]) == Elements(order) + {v}
  {
    forall u | u in rest ensures !HasEdge(g, u, v) {
      assert u !in Sources(g.links, v);
    }
    assert v !in Elements(order);
  }

  lemma StuckIsCyclic(g: DiGraph, rest: set<nat>)
    requires rest != {} && rest <= Below(g.nodes)
    requires forall v {:trigger Unblocked(g, rest, v)} :: v in rest ==> !Unblocked(g, rest, v)
    ensures Cyclic(g)
  {
    forall v {:trigger EnteredFrom(g, rest, v)} | v in rest ensures EnteredFrom(g, rest, v) {
      assert !Unblocked(g, rest, v);
      var u :| u in Sources(g.links, v) && u in rest;
      assert HasEdge(g, u, v);
    }
    var v :| v in rest;
    BackwardClosedIsCyclic(g, rest, [v]);
  }

  // ---- parallel groups -------------------------------------------------------------------------

  /** The id under which an edge's source is looked up. */
  function SourceName(names: map<nat, string>, u: nat): string {
    if u in names then names[u] else "unknown"
  }

  /** The dependencies of node `v` are all among the emitted ids. */
  ghost predicate Ready(g: DiGraph, names: map<nat, string>, v: nat, emitted: set<string>) {
    forall u :: HasEdge(g, u, v) ==> (if u in names then names[u] else "unknown") in emitted
  }

  function Flatten(groups: seq<seq<string>>): seq<string> {
    if groups == [] then [] else groups[0] + Flatten(groups[1..])
  }

  lemma {:induction false} FlattenSnoc(groups: seq<seq<string>>, group: seq<string>)
    ensures Flatten(groups + [group]) == Flatten(groups) + group
  {
    if groups == [] {
      assert [group][1..] == [];
      assert [] + [group] == [group];
    } else {
      FlattenSnoc(groups[1..], group);
      assert (groups + [group])[1..] == groups[1..] + [group];
    }
  }

  /** Some node of this name has all its dependencies in earlier groups. */
  ghost predicate StartableAfter(g: DiGraph, names: map<nat, string>, id: string, earlier: set<string>) {
    exists v :: v in names && names[v] == id && Ready(g, names, v, earlier)
  }

  /** Every group holds one mount, each mount is listed once, and all its dependencies are in
      strictly earlier groups. */
  ghost predicate SafeGroups(g: DiGraph, names: map<nat, string>, groups: seq<seq<string>>) {
    && (forall k :: 0 <= k < |groups| ==> |groups[k]| == 1)
    && Distinct(Flatten(groups))
    && (forall k :: 0 <= k < |groups| ==> StartableAfter(g, names, groups[k][0], Elements(Flatten(groups[..k]))))
  }

  class DependencyGraph {
    var graph: DiGraph
    var mounts: map<string, nat>
    var reverseIndex: map<nat, string>

    function State(): Index
      reads this
    {
      Index(graph, mounts, reverseIndex)
    }

    constructor ()
      ensures State() == NEW
    {
      graph, mounts, reverseIndex := EMPTY, map[], map[];
    }

    method Add(id: string) returns (r: Result<(), GraphError>)
      modifies this
      ensures var spec := AddMount(old(State()), id);
              && State() == Applied(old(State()), spec)
              && r == (if spec.Ok? then Ok(()) else Err(spec.error))
    {
      if id in mounts {
        return Err(AlreadyExists(id));
      }
      var node := graph.nodes;
      graph := graph.(nodes := node + 1);
      mounts := mounts[id := node];
      reverseIndex := reverseIndex[node := id];
      return Ok(());
    }

    method Remove(id: string)
      modifies this
      ensures State() == RemoveMount(old(State()), id)
    {
      if id in mounts {
        var node := mounts[id];
        mounts := mounts - {id};
        reverseIndex := reverseIndex - {node};
        var removed := RemoveNode(graph, node);
        if removed.Some? {
          graph := removed.value;
        }
      }
    }

    method Depend(dependent: string, dependency: string) returns (r: Result<(), GraphError>)
      modifies this
      ensures var spec := AddDependency(old(State()), dependent, dependency);
              && State() == Applied(old(State()), spec)
              && r == (if spec.Ok? then Ok(()) else Err(spec.error))
    {
      if dependent !in mounts {
        return Err(NotFound(dependent));
      }
      if dependency !in mounts {
        return Err(NotFound(dependency));
      }
      var source, target := mounts[dependency], mounts[dependent];
      if source >= graph.nodes {
        return Err(NodeOutOfBounds(source));
      }
      if target >= graph.nodes {
        return Err(NodeOutOfBounds(target));
      }
      graph := AddEdge(graph, source, target);
      return Ok(());
    }

    method Undepend(dependent: string, dependency: string) returns (r: Result<(), GraphError>)
      modifies this
      ensures var spec := RemoveDependency(old(State()), dependent, dependency);
              && State() == Applied(old(State()), spec)
              && r == (if spec.Ok? then Ok(()) else Err(spec.error))
    {
      if dependent !in mounts {
        return Err(NotFound(dependent));
      }
      if dependency !in mounts {
        return Err(NotFound(dependency));
      }
      var ids := ConnectingIds(graph.links, mounts[dependency], mounts[dependent]);
      ghost var goal := RemoveEdges(graph.links, ids);
      var i := 0;
      while i < |ids|
        invariant 0 <= i <= |ids|
        invariant RemoveEdges(graph.links, ids[i..]) == goal
        invariant graph.nodes == old(graph.nodes) && mounts == old(mounts) && reverseIndex == old(reverseIndex)
      {
        assert ids[i..][1..] == ids[i + 1..];
        graph := graph.(links := RemoveEdge(graph.links, ids[i]));
        i := i + 1;
      }
      return Ok(());
    }

    /** `check_circular_dependencies` */
    method CheckCircularDependencies() returns (cycles: seq<seq<string>>)
      requires Valid(graph)
      ensures cycles == CS.Check(graph, reverseIndex)
      ensures CS.Named(graph, reverseIndex) && CS.ShortInto(graph, CS.Live(graph)) ==>
                (cycles == [] <==> !Cyclic(graph))
      ensures CS.Named(graph, reverseIndex) && cycles != [] ==> CS.GenuineCycle(graph, reverseIndex, cycles[0])
      ensures PN.Roomy(graph, reverseIndex) && PN.NamesApart(reverseIndex) ==>
                && (cycles == [] <==> PN.AllCyclesUnnamed(graph, reverseIndex))
                && (cycles != [] ==> PN.Spells(graph, reverseIndex, cycles[0]))
    {
      cycles := [];
      var visited: set<nat> := {};
      var stack: seq<string> := [];
      var node := 0;
      while node < graph.nodes
        invariant 0 <= node <= graph.nodes
        invariant cycles + CS.CheckFrom(graph, reverseIndex, node, visited, stack) == CS.Check(graph, reverseIndex)
      {
        if node !in visited {
          var cycle;
          cycle, visited, stack := DfsFindCycle(graph, reverseIndex, node, visited, stack);
          if cycle.Some? {
            cycles := cycles + [cycle.value];
          }
        }
        node := node + 1;
      }
      if CS.Named(graph, reverseIndex) {
        if CS.ShortInto(graph, CS.Live(graph)) {
          CS.CheckIsExact(graph, reverseIndex);
        }
        if cycles != [] {
          CS.FirstCycleIsGenuine(graph, reverseIndex);
        }
      }
      if PN.Roomy(graph, reverseIndex) && PN.NamesApart(reverseIndex) {
        PN.SilentIff(graph, reverseIndex);
        if cycles != [] {
          PN.FirstReportSpells(graph, reverseIndex);
        }
      }
    }

    /** `dfs_find_cycle`; `visited` and `stack` are handed back instead of updated in place. */
    static method DfsFindCycle(graph: DiGraph, names: map<nat, string>, node: nat, visited: set<nat>,
                               stack: seq<string>)
      returns (cycle: Option<seq<string>>, visited': set<nat>, stack': seq<string>)
      requires Valid(graph) && node < graph.nodes
      ensures CS.Search(cycle, visited', stack') == CS.Visit(graph, names, node, visited, stack)
      decreases Below(graph.nodes) - visited
    {
      visited', stack' := visited, stack;
      if |stack| > CS.DEPTH_LIMIT {
        return None, visited', stack';
      }
      if node in visited {
        if node in names {
          var p := CS.IndexOf(stack, names[node]);
          if p < |stack| {
            return Some(stack[p..]), visited', stack';
          }
        }
        return None, visited', stack';
      }
      visited' := visited + {node};
      if node in names {
        stack' := stack + [names[node]];
      }
      var neighbors := Targets(graph.links, node);
      DF.TargetsInRange(graph, node);
      ghost var goal := CS.VisitEach(graph, names, neighbors, visited', stack');
      var i := 0;
      while i < |neighbors|
        invariant 0 <= i <= |neighbors|
        invariant visited + {node} <= visited'
        invariant CS.VisitEach(graph, names, neighbors[i..], visited', stack') == goal
      {
        assert neighbors[i..][1..] == neighbors[i + 1..];
        cycle, visited', stack' := DfsFindCycle(graph, names, neighbors[i], visited', stack');
        if cycle.Some? {
          return cycle, visited', stack';
        }
        i := i + 1;
      }
      cycle := None;
      if node in names {
        stack' := CS.Pop(stack');
      }
    }

    /** `get_startup_sequence`: it fails exactly on a cyclic graph. What petgraph's sort returns is
        any topological order. With a coherent index the mounts come out in startup order, one per
        group. */
    method GetStartupSequence() returns (r: Option<Sequence>)
      requires Valid(graph)
      ensures r.None? <==> Cyclic(graph)
      ensures r.Some? ==> forall id :: id in r.value.mounts <==>
                            exists v :: v in reverseIndex && v < graph.nodes && reverseIndex[v] == id
      ensures r.Some? && PN.NamesApart(reverseIndex) ==>
                Distinct(r.value.mounts) && NamedForward(graph, reverseIndex, r.value.mounts)
      ensures r.Some? ==> SafeGroups(graph, reverseIndex, r.value.parallelGroups)
      ensures r.Some? ==> PassedOver(graph, reverseIndex, r.value.mounts, r.value.parallelGroups)
      ensures r.Some? && Coherent(State()) ==>
                && StartupOrder(State(), r.value.mounts)
                && Flatten(r.value.parallelGroups) == r.value.mounts
    {
      var sorted := Toposort(graph);
      if sorted.None? {
        return None;
      }
      var order := sorted.value;
      var ids := PN.NamesOf(reverseIndex, order);
      NamesOfTopological(graph, reverseIndex, order);
      if Coherent(State()) {
        TopologicalNames(State(), order);
      }
      var groups := DetermineParallelGroups(ids);
      return Some(Sequence(ids, groups));
    }

    /** For any index, what comes out is such a list and such groups read backwards. */
    method GetShutdownSequence() returns (r: Option<Sequence>)
      requires Valid(graph)
      ensures r.None? <==> Cyclic(graph)
      ensures r.Some? ==> forall id :: id in CS.Reversed(r.value.mounts) <==>
                            exists v :: v in reverseIndex && v < graph.nodes && reverseIndex[v] == id
      ensures r.Some? && PN.NamesApart(reverseIndex) ==>
                && Distinct(CS.Reversed(r.value.mounts))
                && NamedForward(graph, reverseIndex, CS.Reversed(r.value.mounts))
      ensures r.Some? ==> SafeGroups(graph, reverseIndex, CS.Reversed(r.value.parallelGroups))
      ensures r.Some? && Coherent(State()) ==>
                && ShutdownOrder(State(), r.value.mounts)
                && Flatten(r.value.parallelGroups) == r.value.mounts
    {
      var startup := GetStartupSequence();
      if startup.None? {
        return None;
      }
      var mounts := CS.Reversed(startup.value.mounts);
      var groups := CS.Reversed(startup.value.parallelGroups);
      assert CS.Reversed(mounts) == startup.value.mounts;
      assert CS.Reversed(groups) == startup.value.parallelGroups;
      if Coherent(State()) {
        ReversedIsShutdown(State(), startup.value.mounts);
      }
      FlattenReversed(startup.value.parallelGroups);
      return Some(Sequence(mounts, groups));
    }

    /** `determine_parallel_groups`, for any list of ids and any graph. Every emitted mount has all
        its dependencies in strictly earlier groups; a listed mount is passed over only when it is
        not in the index or one of its dependencies had not been emitted by its turn; and a startup
        order is emitted whole, in that order. */
    method DetermineParallelGroups(ids: seq<string>) returns (groups: seq<seq<string>>)
      requires Valid(graph)
      ensures SafeGroups(graph, reverseIndex, groups)
      ensures Elements(Flatten(groups)) <= Elements(ids)
      ensures PassedOver(graph, reverseIndex, ids, groups)
      ensures Coherent(State()) && StartupOrder(State(), ids) ==> Flatten(groups) == ids
    {
      NoGroups(graph, reverseIndex, ids);
      hide SafeGroups, PassedOver, Blocked, StartableAfter, DependsOn, Coherent, Flatten, Valid;
      groups := [];
      var processed: set<string> := {};
      var k := 0;
      while k < |ids|
        invariant 0 <= k <= |ids|
        invariant SafeGroups(graph, reverseIndex, groups) && Elements(Flatten(groups)) == processed
        invariant processed <= Elements(ids[..k])
        invariant PassedOver(graph, reverseIndex, ids[..k], groups)
        invariant Coherent(State()) && StartupOrder(State(), ids) ==> Flatten(groups) == ids[..k]
      {
        if ids[k] !in processed {
          ghost var before := groups;
          var group, canAdd;
          group, canAdd, processed := TryGroup(ids[k], processed);
          if Coherent(State()) && StartupOrder(State(), ids) {
            NothingWaits(State(), ids, k);
          }
          if canAdd && group != [] {
            GroupsGrow(graph, reverseIndex, groups, ids[k]);
            groups := groups + [group];
          }
          PassedOverGrows(graph, reverseIndex, ids, k, before, groups);
        } else {
          PassedOverGrows(graph, reverseIndex, ids, k, groups, groups);
        }
        k := k + 1;
      }
      assert ids[..k] == ids;
    }

    /** The `while let Some(current_id) = to_check.pop()` loop. Nothing is ever pushed after the
        first id, so a group holds at most that one mount. */
    method TryGroup(id: string, processed: set<string>)
      returns (group: seq<string>, canAdd: bool, processed': set<string>)
      requires Valid(graph) && id !in processed
      ensures if group == [] then processed' == processed && Blocked(graph, reverseIndex, id, processed)
              else group == [id] && canAdd && processed' == processed + {id}
                   && StartableAfter(graph, reverseIndex, id, processed)
    {
      group, canAdd, processed' := [], true, processed;
      var toCheck := [id];
      while toCheck != []
        invariant toCheck == [id] || toCheck == []
        invariant toCheck != [] ==> group == [] && processed' == processed && canAdd
        invariant toCheck == [] ==>
                    if group == [] then processed' == processed && Blocked(graph, reverseIndex, id, processed)
                    else group == [id] && processed' == processed + {id} && canAdd
                         && StartableAfter(graph, reverseIndex, id, processed)
        decreases |toCheck|
      {
        var current := toCheck[|toCheck| - 1];
        toCheck := toCheck[..|toCheck| - 1];
        if current !in processed' {
          if v :| v in reverseIndex && reverseIndex[v] == current {
            var sources := Sources(graph.links, v);
            var hasUnprocessedDeps := exists u :: u in sources && SourceName(reverseIndex, u) !in processed';
            if hasUnprocessedDeps {
              var u :| u in sources && SourceName(reverseIndex, u) !in processed';
              assert HasEdge(graph, u, v);
              assert !Ready(graph, reverseIndex, v, processed');
              canAdd := false;
            } else {
              assert Ready(graph, reverseIndex, v, processed');
              group := group + [current];
              processed' := processed' + {current};
            }
          }
        }
      }
    }
  }

  /** The id is unknown, or the node found for it waits for something not emitted. */
  ghost predicate Blocked(g: DiGraph, names: map<nat, string>, id: string, emitted: set<string>) {
    || (forall v :: v in names ==> names[v] != id)
    || (exists v :: v in names && names[v] == id && !Ready(g, names, v, emitted))
  }

  /** When the k-th id had its turn, the first `n` groups had been emitted, and it was blocked. */
  ghost predicate PassedAt(g: DiGraph, names: map<nat, string>, ids: seq<string>, groups: seq<seq<string>>, k: nat,
                           n: nat)
    requires k < |ids| && n <= |groups|
  {
    && Blocked(g, names, ids[k], Elements(Flatten(groups[..n])))
    && Elements(Flatten(groups[..n])) <= Elements(ids[..k])
    && Elements(Flatten(groups[n..])) <= Elements(ids[k + 1..])
  }

  /** Every listed id that was not emitted was blocked at each of its turns. */
  ghost predicate PassedOver(g: DiGraph, names: map<nat, string>, ids: seq<string>, groups: seq<seq<string>>) {
    forall k: nat :: k < |ids| && ids[k] !in Flatten(groups) ==>
      exists n: nat :: n <= |groups| && PassedAt(g, names, ids, groups, k, n)
  }

  lemma NoGroups(g: DiGraph, names: map<nat, string>, ids: seq<string>)
    ensures SafeGroups(g, names, []) && Flatten([]) == []
    ensures PassedOver(g, names, ids[..0], [])
  {
  }

  lemma PassedAtGrows(g: DiGraph, names: map<nat, string>, ids: seq<string>, groups: seq<seq<string>>, j: nat, n: nat,
                      id: string, more: seq<seq<string>>)
    requires j < |ids| && n <= |groups| && PassedAt(g, names, ids, groups, j, n)
    requires more == [] || more == [[id]]
    ensures PassedAt(g, names, ids + [id], groups + more, j, n)
  {
    hide Blocked, Flatten;
    var after, next := groups + more, ids + [id];
    assert after[..n] == groups[..n] && next[..j] == ids[..j] && next[j] == ids[j];
    assert next[j + 1..] == ids[j + 1..] + [id];
    FlattenSnoc(groups[n..], [id]);
    assert after[n..] == if more == [] then groups[n..] else groups[n..] + [[id]];
    assert forall x :: x in Elements(Flatten(after[n..])) ==> x in Elements(Flatten(groups[n..])) || x == id;
  }

  lemma FlattenNone()
    ensures Flatten([]) == []
  {
  }

  lemma PassedOverGrows(g: DiGraph, names: map<nat, string>, ids: seq<string>, k: nat, before: seq<seq<string>>,
                        after: seq<seq<string>>)
    requires k < |ids| && Elements(Flatten(before)) <= Elements(ids[..k])
    requires PassedOver(g, names, ids[..k], before)
    requires || after == before + [[ids[k]]]
             || (after == before && ids[k] in Flatten(before))
             || (after == before && Blocked(g, names, ids[k], Elements(Flatten(before))))
    ensures PassedOver(g, names, ids[..k + 1], after)
  {
    hide Blocked, Flatten;
    var init, next := ids[..k], ids[..k + 1];
    var more := if after == before then [] else [[ids[k]]];
    assert after == before + more && next == init + [ids[k]];
    if more != [] { FlattenSnoc(before, [ids[k]]); }
    forall j: nat | j < |next| && next[j] !in Flatten(after)
      ensures exists n: nat :: n <= |after| && PassedAt(g, names, next, after, j, n)
    {
      if j < k {
        var n: nat :| n <= |before| && PassedAt(g, names, init, before, j, n);
        PassedAtGrows(g, names, init, before, j, n, ids[k], more);
        assert n <= |after|;
      } else {
        FlattenNone();
        assert after == before && before[..|before|] == before && before[|before|..] == [];
        assert next[..k] == init;
        assert PassedAt(g, names, next, after, k, |before|);
      }
    }
  }

  lemma {:induction false} FlattenReversed(groups: seq<seq<string>>)
    requires forall k :: 0 <= k < |groups| ==> |groups[k]| == 1
    ensures Flatten(CS.Reversed(groups)) == CS.Reversed(Flatten(groups))
    ensures |Flatten(groups)| == |groups|
  {
    if groups != [] {
      FlattenReversed(groups[1..]);
      var r := CS.Reversed(groups);
      assert r == CS.Reversed(groups[1..]) + [groups[0]];
      FlattenSnoc(CS.Reversed(groups[1..]), groups[0]);
      assert CS.Reversed(Flatten(groups)) == CS.Reversed(Flatten(groups[1..])) + groups[0];
    } else {
      assert CS.Reversed(groups) == [];
    }
  }

  lemma GroupsGrow(g: DiGraph, names: map<nat, string>, groups: seq<seq<string>>, id: string)
    requires SafeGroups(g, names, groups) && id !in Flatten(groups)
    requires StartableAfter(g, names, id, Elements(Flatten(groups)))
    ensures SafeGroups(g, names, groups + [[id]])
    ensures Flatten(groups + [[id]]) == Flatten(groups) + [id]
  {
    var longer := groups + [[id]];
    FlattenSnoc(groups, [id]);
    forall k | 0 <= k < |longer| ensures StartableAfter(g, names, longer[k][0], Elements(Flatten(longer[..k]))) {
      assert longer[..k] == groups[..k];
      if k == |groups| {
        assert groups[..k] == groups;
      }
    }
  }

  /** In a startup order nothing is blocked when its turn comes. */
  lemma NothingWaits(s: Index, ids: seq<string>, k: nat)
    requires Coherent(s) && StartupOrder(s, ids) && k < |ids|
    ensures !Blocked(s.graph, s.names, ids[k], Elements(ids[..k]))
  {
    assert ids[k] in Elements(ids);
    assert s.names[s.mounts[ids[k]]] == ids[k];
    forall v | v in s.names && s.names[v] == ids[k] ensures Ready(s.graph, s.names, v, Elements(ids[..k])) {
      forall u | HasEdge(s.graph, u, v) ensures (if u in s.names then s.names[u] else "unknown") in Elements(ids[..k]) {
        var name := s.names[u];
        assert s.mounts[ids[k]] == v && s.mounts[name] == u;
        assert DependsOn(s, ids[k], name);
        assert name in Elements(ids);
        var i :| 0 <= i < |ids| && ids[i] == name;
        assert ids[..k][i] == name;
      }
    }
  }

  /** The lost mount of `MountIndex.MovedMountIsLost` is missing from every later startup list. */
  lemma LostFromStartup(s: Index, id: string, order: seq<nat>)
    requires Coherent(s) && !Tame(s, id) && Topological(RemoveMount(s, id).graph, order)
    ensures s.names[s.graph.nodes - 1] in RemoveMount(s, id).mounts
    ensures s.names[s.graph.nodes - 1] !in PN.NamesOf(RemoveMount(s, id).names, order)
  {
    MovedMountIsLost(s, id);
    var t := RemoveMount(s, id);
    var moved := s.names[s.graph.nodes - 1];
    forall v | v in order && v in t.names ensures t.names[v] != moved {
      assert v in Elements(order);
    }
  }

  /** Over every run of updates, with removals in any order: no two nodes share a name, so what the check says about
      indices that lack names applies. */
  lemma RunNamesApart(ops: seq<Op>)
    ensures PN.NamesApart(Run(NEW, ops).names) && Valid(Run(NEW, ops).graph)
  {
    hide Run;
    RunMatching(NEW, ops);
    RunValid(NEW, ops);
  }

  /** The two acyclicity tests agree on graphs in which walks through distinct mounts towards a cycle are at most
      a thousand long, in particular on all graphs of at most a thousand mounts. */
  method TestsAgree(d: DependencyGraph) returns (cycles: seq<seq<string>>, startup: Option<Sequence>)
    requires Coherent(d.State()) && (d.graph.nodes <= 1000 || CS.ShortInto(d.graph, CS.Live(d.graph)))
    ensures cycles == [] <==> startup.Some?
  {
    if d.graph.nodes <= 1000 {
      CS.SmallHasShortWalks(d.graph);
    }
    cycles := d.CheckCircularDependencies();
    startup := d.GetStartupSequence();
  }
}
