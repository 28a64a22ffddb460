/** What a lost name does to the cycle check: a cycle that updates alone have built goes unreported, or is reported
    without the mount that lost its name. */
module HiddenCycle {
  import opened Wrappers
  import opened DirectedGraphs
  import opened DepthFirst
  import opened MountIndex
  import CS = CycleSearch
  import PN = PartialNames

  /** c and q depend on each other; z, added first, is removed again. */
  const HIDING := [Add("z"), Add("q"), Add("c"), Depend("c", "q"), Depend("q", "c"), Remove("z")]

  lemma {:induction false} RunStep(s: Index, ops: seq<Op>)
    requires ops != []
    ensures Run(s, ops) == Run(Apply(s, ops[0]), ops[1..])
  {
  }

  lemma RunNothing(s: Index)
    ensures Run(s, []) == s
  {
  }

  /** The node of z is taken over by that of the newest mount, whose name stays behind. */
  lemma TakenOver(nodes: nat, links: seq<Link>, after: seq<Link>, mounts: map<string, nat>, names: map<nat, string>)
    requires nodes > 0 && "z" in mounts && mounts["z"] < nodes && |after| == |links|
    requires forall i :: 0 <= i < |links| ==> links[i].source != mounts["z"] && links[i].target != mounts["z"]
    requires forall i :: 0 <= i < |links| ==>
               after[i] == Link(links[i].id, Moved(links[i].source, nodes - 1, mounts["z"]),
                                Moved(links[i].target, nodes - 1, mounts["z"]))
    ensures Apply(Index(DiGraph(nodes, links), mounts, names), Remove("z"))
         == Index(DiGraph(nodes - 1, after), mounts - {"z"}, names - {mounts["z"]})
  {
    assert Detach(links, mounts["z"]) == links;
  }

  const HIDDEN := DiGraph(2, [Link(1, 0, 1), Link(0, 1, 0)])

  const BEFORE := Index(DiGraph(3, [Link(1, 2, 1), Link(0, 1, 2)]), map["z" := 0, "q" := 1, "c" := 2],
                        map[0 := "z", 1 := "q", 2 := "c"])

  lemma HidingRemoves()
    ensures Apply(BEFORE, Remove("z")).graph == HIDDEN
    ensures Apply(BEFORE, Remove("z")).names == map[1 := "q", 2 := "c"]
  {
    hide Apply;
    TakenOver(3, BEFORE.graph.links, HIDDEN.links, BEFORE.mounts, BEFORE.names);
    assert BEFORE.names - {0} == map[1 := "q", 2 := "c"];
  }

  lemma HidingEnds()
    ensures Run(NEW, HIDING).graph == HIDDEN && Run(NEW, HIDING).names == map[1 := "q", 2 := "c"]
  {
    hide Run, Apply;
    RunAdds(HIDING);
    HidingRemoves();
    assert HIDING[5..] == [Remove("z")] && [Remove("z")][1..] == [];
    RunStep(BEFORE, HIDING[5..]);
    RunNothing(Apply(BEFORE, Remove("z")));
  }

  lemma RunAdds(ops: seq<Op>)
    requires ops == HIDING
    ensures Run(NEW, ops) == Run(BEFORE, ops[5..])
  {
    hide Run, RemoveMount;
    var one := Index(DiGraph(1, []), map["z" := 0], map[0 := "z"]);
    var two := Index(DiGraph(2, []), map["z" := 0, "q" := 1], map[0 := "z", 1 := "q"]);
    var three := Index(DiGraph(3, []), BEFORE.mounts, BEFORE.names);
    var four := Index(DiGraph(3, [Link(0, 1, 2)]), BEFORE.mounts, BEFORE.names);
    assert Apply(NEW, ops[0]) == one && Apply(one, ops[1]) == two && Apply(two, ops[2]) == three;
    assert [Link(0, 1, 2)] + [] == [Link(0, 1, 2)];
    assert Apply(three, ops[3]) == four && Apply(four, ops[4]) == BEFORE;
    RunStep(NEW, ops);
    RunStep(one, ops[1..]);
    RunStep(two, ops[2..]);
    RunStep(three, ops[3..]);
    RunStep(four, ops[4..]);
    assert ops[1..][1..] == ops[2..] && ops[2..][1..] == ops[3..] && ops[3..][1..] == ops[4..];
    assert ops[4..][1..] == ops[5..];
  }

  lemma FirstEntered(g: DiGraph)
    requires Valid(g) && g.nodes > 0
    ensures EntryOrder(g) != [] && EntryOrder(g)[0] == 0
  {
  }

  /** Nothing is reported although the two mounts depend on each other: the search enters their cycle at the node
      whose name was lost. */
  lemma CycleIsHidden()
    ensures var s := Run(NEW, HIDING);
            Valid(s.graph) && IsCycle(s.graph, [0, 1]) && CS.Check(s.graph, s.names) == []
  {
    HidingEnds();
    HiddenIsSilent();
    HiddenIsCyclic();
    hide Run, IsCycle, Valid;
  }

  lemma HiddenIsCyclic()
    ensures Valid(HIDDEN) && IsCycle(HIDDEN, [0, 1])
  {
    HiddenEdges();
    hide HasLink;
  }

  lemma HiddenIsSilent()
    ensures Valid(HIDDEN) && CS.Check(HIDDEN, map[1 := "q", 2 := "c"]) == []
  {
    var names := map[1 := "q", 2 := "c"];
    assert Valid(HIDDEN);
    FirstEntered(HIDDEN);
    hide HasLink, Valid, PN.EntersUnnamed, PN.Roomy, EntryOrder, CS.Check, IsCycle;
    forall c | IsCycle(HIDDEN, c) ensures PN.EntersUnnamed(names, EntryOrder(HIDDEN), c) {
      ThroughZero(c);
      PN.UnnamedAtFirst(names, EntryOrder(HIDDEN), c);
    }
    PN.SmallIsRoomy(HIDDEN, names);
    PN.SilentIff(HIDDEN, names);
  }

  lemma HiddenEdges()
    ensures HasEdge(HIDDEN, 0, 1) && HasEdge(HIDDEN, 1, 0) && !HasEdge(HIDDEN, 1, 1)
  {
    assert Connects(HIDDEN.links[0], 0, 1) && Connects(HIDDEN.links[1], 1, 0);
  }

  lemma ThroughZero(c: seq<nat>)
    requires IsCycle(HIDDEN, c)
    ensures 0 in c
  {
    HiddenEdges();
    hide HasLink;
    assert c[0] in c && c[|c| - 1] in c && HasEdge(HIDDEN, c[|c| - 1], c[0]);
    assert c[0] < 2 && c[|c| - 1] < 2;
  }

  // ---- a cycle reported in part ----------------------------------------------------------------------------

  /** The graph left when z is removed after p, z, q and c were added, c depending on p, q on c, and p on q */
  const SHORTENED := DiGraph(3, [Link(2, 2, 0), Link(1, 1, 2), Link(0, 0, 1)])
  const SHORTENED_NAMES: map<nat, string> := map[0 := "p", 2 := "q", 3 := "c"]

  /** The search goes on through the node without a name; the report leaves its mount out. */
  lemma CycleIsShortened()
    ensures Valid(SHORTENED) && CS.Check(SHORTENED, SHORTENED_NAMES) != []
    ensures CS.Check(SHORTENED, SHORTENED_NAMES)[0] == ["p", "q"]
  {
    assert Valid(SHORTENED);
    hide Valid;
    EnterP();
    hide CS.Visit, CS.VisitEach;
    assert 0 !in {};
  }

  lemma EnterQ()
    requires Valid(SHORTENED)
    ensures CS.Visit(SHORTENED, SHORTENED_NAMES, 2, {0, 1}, ["p"])
         == CS.Search(Some(["p", "q"]), {0, 1, 2}, ["p", "q"])
  {
    hide CS.Visit, CS.VisitEach, Valid;
    var g, names := SHORTENED, SHORTENED_NAMES;
    assert Targets(g.links, 2) == [0];
    assert {0, 1} + {2} == {0, 1, 2} && ["p"] + ["q"] == ["p", "q"];
    PSeen();
    CS.EnterOnly(g, names, 2, 0, {0, 1}, ["p"]);
  }

  lemma PSeen()
    requires Valid(SHORTENED)
    ensures CS.Visit(SHORTENED, SHORTENED_NAMES, 0, {0, 1, 2}, ["p", "q"])
         == CS.Search(Some(["p", "q"]), {0, 1, 2}, ["p", "q"])
  {
    hide CS.VisitEach, Valid;
  }

  lemma EnterUnnamed()
    requires Valid(SHORTENED)
    ensures CS.Visit(SHORTENED, SHORTENED_NAMES, 1, {0}, ["p"]) == CS.Search(Some(["p", "q"]), {0, 1, 2}, ["p", "q"])
  {
    hide CS.Visit, CS.VisitEach, Valid;
    var g, names := SHORTENED, SHORTENED_NAMES;
    EnterQ();
    assert Targets(g.links, 1) == [2];
    assert {0} + {1} == {0, 1};
    CS.EnterOnly(g, names, 1, 2, {0}, ["p"]);
  }

  lemma EnterP()
    requires Valid(SHORTENED)
    ensures CS.Visit(SHORTENED, SHORTENED_NAMES, 0, {}, []) == CS.Search(Some(["p", "q"]), {0, 1, 2}, ["p", "q"])
  {
    hide CS.Visit, CS.VisitEach, Valid;
    var g, names := SHORTENED, SHORTENED_NAMES;
    EnterUnnamed();
    assert Targets(g.links, 0) == [1];
    assert {} + {0} == {0} && [] + ["p"] == ["p"];
    CS.EnterOnly(g, names, 0, 1, {}, []);
  }
}
