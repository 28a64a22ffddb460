/** Every report of the cycle check, not just the first: a found cycle leaves its names on the shared stack, and
    which later reports are genuine depends on how they join on to what was left there. */
module CycleReports {
  import opened Wrappers
  import opened DirectedGraphs
  import opened CycleSearch

  /** A root whose search reported something, and the shared stack as it found it */
  datatype Origin = Origin(root: nat, leftover: seq<string>)

  /** The origins of the reports of `CheckFrom`, in order */
  function OriginsFrom(g: DiGraph, names: map<nat, string>, node: nat, visited: set<nat>, stack: seq<string>)
    : seq<Origin>
    requires Valid(g) && node <= g.nodes
    decreases g.nodes - node
  {
    if node == g.nodes then []
    else if node in visited then OriginsFrom(g, names, node + 1, visited, stack)
    else
      var r := Visit(g, names, node, visited, stack);
      var rest := OriginsFrom(g, names, node + 1, r.visited, r.stack);
      if r.cycle.Some? then [Origin(node, stack)] + rest else rest
  }

  function Origins(g: DiGraph, names: map<nat, string>): seq<Origin>
    requires Valid(g)
  {
    OriginsFrom(g, names, 0, {}, [])
  }

  /** One report in terms of nodes: what earlier reports left, the walk of its own search from its root, and
      where on both together the reported part starts */
  datatype Report = Report(left: seq<nat>, walk: seq<nat>, start: nat)

  /** The report is what its root's search says, and the walk closes on the node at `start`. */
  ghost predicate Tells(g: DiGraph, names: map<nat, string>, rep: Report, origin: Origin, cycle: seq<string>) {
    var all := rep.left + rep.walk;
    && Distinct(all) && InRange(all, g.nodes) && (forall v :: v in rep.left || v in rep.walk ==> v in names)
    && IsWalk(g, rep.walk) && rep.walk != [] && rep.walk[0] == origin.root
    && rep.start < |all| && HasEdge(g, rep.walk[|rep.walk| - 1], all[rep.start])
    && origin.leftover == Ids(names, rep.left)
    && cycle == Ids(names, all)[rep.start..]
  }

  /** Each report starts on what the one before it left: its leftover and its walk. */
  ghost predicate Linked(left: seq<nat>, reports: seq<Report>) {
    && (reports != [] ==> reports[0].left == left)
    && forall i, j :: 0 <= i && j == i + 1 && j < |reports| ==> reports[j].left == reports[i].left + reports[i].walk
  }

  ghost predicate Told(g: DiGraph, names: map<nat, string>, reports: seq<Report>, origins: seq<Origin>,
                       cycles: seq<seq<string>>)
  {
    && |reports| == |origins| == |cycles|
    && forall i :: 0 <= i < |cycles| ==>
         && Tells(g, names, reports[i], origins[i], cycles[i])
         && (GenuineCycle(g, names, cycles[i]) <==> Joined(g, reports[i].left, reports[i].walk, reports[i].start))
  }

  lemma RootReports(g: DiGraph, names: map<nat, string>, node: nat, visited: set<nat>, left: seq<nat>,
                    stack: seq<string>)
    returns (rep: Report)
    requires Valid(g) && Named(g, names) && node < g.nodes && node !in visited
    requires OnStack(g, names, left, [], visited, stack)
    ensures var r := Visit(g, names, node, visited, stack);
            if r.cycle.None? then OnStack(g, names, left, [], r.visited, r.stack)
            else
              && rep.left == left && Tells(g, names, rep, Origin(node, stack), r.cycle.value)
              && (GenuineCycle(g, names, r.cycle.value) <==> Joined(g, left, rep.walk, rep.start))
              && OnStack(g, names, left + rep.walk, [], r.visited, r.stack)
  {
    var r := Visit(g, names, node, visited, stack);
    hide Visit, GenuineCycle, Joined, OnStack, Named, Valid, Reported, Tells;
    var walk, start := VisitReports(g, names, left, [], node, visited, stack);
    rep := Report(left, walk, start);
    if r.cycle.Some? {
      ReportGenuineIff(g, names, left, walk, start, r);
      ReportTells(g, names, left, node, visited, stack, walk, start, r);
    } else {
      StackStays(g, names, left, [], visited, stack, r.visited);
    }
  }

  /** What `Reported` says of a search, as a report and as the state for the next root */
  lemma ReportTells(g: DiGraph, names: map<nat, string>, left: seq<nat>, node: nat, visited: set<nat>,
                    stack: seq<string>, walk: seq<nat>, start: nat, r: Search)
    requires OnStack(g, names, left, [], visited, stack)
    requires Reported(g, names, left, walk, start, r) && walk[0] == node
    ensures Tells(g, names, Report(left, walk, start), Origin(node, stack), r.cycle.value)
    ensures OnStack(g, names, left + walk, [], r.visited, r.stack)
  {
    hide HasEdge, IsWalk, Distinct;
    assert left + [] == left && left + walk + [] == left + walk;
    var all := left + walk;
    assert forall v :: v in all ==> v in names;
    assert forall v :: v in left || v in walk ==> v in all;
    EmptyIsWalk(g);
  }

  lemma EmptyIsWalk(g: DiGraph)
    ensures IsWalk(g, [])
  {
  }

  lemma {:induction false} ReportsFrom(g: DiGraph, names: map<nat, string>, node: nat, visited: set<nat>,
                                       left: seq<nat>, stack: seq<string>)
    returns (reports: seq<Report>)
    requires Valid(g) && Named(g, names) && node <= g.nodes
    requires OnStack(g, names, left, [], visited, stack)
    ensures Told(g, names, reports, OriginsFrom(g, names, node, visited, stack),
                 CheckFrom(g, names, node, visited, stack))
    ensures Linked(left, reports)
    decreases g.nodes - node
  {
    hide Visit, OnStack, Tells, GenuineCycle, Joined, Named, Valid;
    reports := [];
    if node < g.nodes {
      if node in visited {
        reports := ReportsFrom(g, names, node + 1, visited, left, stack);
      } else {
        var rep := RootReports(g, names, node, visited, left, stack);
        var r := Visit(g, names, node, visited, stack);
        if r.cycle.Some? {
          var rest := ReportsFrom(g, names, node + 1, r.visited, left + rep.walk, r.stack);
          reports := [rep] + rest;
        } else {
          reports := ReportsFrom(g, names, node + 1, r.visited, left, r.stack);
        }
      }
    }
  }

  /** For every graph: the reports of the check are walks of their own searches, preceded by what the earlier
      ones left on the stack; and each is a genuine cycle if and only if it starts on its own walk, or the
      leftover part from its start on is a walk that goes on to its root. */
  lemma EveryReport(g: DiGraph, names: map<nat, string>) returns (reports: seq<Report>)
    requires Valid(g) && Named(g, names)
    ensures Told(g, names, reports, Origins(g, names), Check(g, names)) && Linked([], reports)
  {
    CleanStack(g, names, {});
    reports := ReportsFrom(g, names, 0, {}, [], []);
  }

  ghost predicate Reaches(g: DiGraph, u: nat, v: nat) {
    exists path :: IsPath(g, path, u, v)
  }

  ghost predicate IsPath(g: DiGraph, path: seq<nat>, u: nat, v: nat) {
    |path| > 1 && path[0] == u && path[|path| - 1] == v && IsWalk(g, path)
  }

  /** None of the names on the stack belongs to a mount that the root reaches. */
  ghost predicate Apart(g: DiGraph, names: map<nat, string>, origin: Origin) {
    forall v :: v in names && names[v] in origin.leftover ==> !Reaches(g, origin.root, v)
  }

  lemma TellsReach(g: DiGraph, names: map<nat, string>, rep: Report, origin: Origin, cycle: seq<string>)
    requires Tells(g, names, rep, origin, cycle) && rep.start < |rep.left|
    ensures !Apart(g, names, origin)
  {
    var v := rep.left[rep.start];
    var path := rep.walk + [v];
    assert (rep.left + rep.walk)[rep.start] == v;
    hide HasLink;
    forall i, j | 0 <= i && j == i + 1 && j < |path| ensures HasEdge(g, path[i], path[j]) {
      if j < |rep.walk| {
        assert path[i] == rep.walk[i] && path[j] == rep.walk[j];
      }
    }
    assert IsPath(g, path, origin.root, v);
    assert names[v] == origin.leftover[rep.start];
  }

  /** A root from which no mount left on the stack can be reached reports only a genuine cycle. */
  lemma ApartIsGenuine(g: DiGraph, names: map<nat, string>, i: nat)
    requires Valid(g) && Named(g, names) && i < |Origins(g, names)|
    ensures |Origins(g, names)| == |Check(g, names)|
    ensures Apart(g, names, Origins(g, names)[i]) ==> GenuineCycle(g, names, Check(g, names)[i])
  {
    var reports := EveryReport(g, names);
    hide Check, Origins, GenuineCycle, Tells, Apart;
    if reports[i].start < |reports[i].left| {
      TellsReach(g, names, reports[i], Origins(g, names)[i], Check(g, names)[i]);
    }
  }
}
