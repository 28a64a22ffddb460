/** Where the cycle finder stops being exact: the depth limit is tight, and a cycle reported after
    the first one need not exist. */
module CycleLimits {
  import opened Wrappers
  import opened DirectedGraphs
  import opened CycleSearch
  import opened DepthFirst
  import Text

  // ---- the depth limit hides a ring of more than a thousand nodes -------------------------------

  /** Node i has an edge to i + 1 and the last node one to the first; the edge out of node 0 came last. */
  function Ring(n: nat): DiGraph
    requires n >= 1
  {
    DiGraph(n, seq(n, i requires 0 <= i < n => Link(n - 1 - i, i, if i + 1 == n then 0 else i + 1)))
  }

  lemma RingIsCyclic(n: nat)
    requires n >= 1
    ensures Valid(Ring(n)) && Cyclic(Ring(n))
  {
    var g := Ring(n);
    var c := seq(n, i => i);
    forall k, m | 0 <= k && m == k + 1 && m < n ensures HasEdge(g, c[k], c[m]) {
      assert Connects(g.links[k], k, m);
    }
    assert Connects(g.links[n - 1], n - 1, 0);
    assert IsCycle(g, c);
  }

  lemma {:induction false} OneTarget(links: seq<Link>, v: nat, p: nat)
    requires p < |links| && links[p].source == v
    requires forall i :: 0 <= i < |links| && i != p ==> links[i].source != v
    ensures Targets(links, v) == [links[p].target]
  {
    if p == 0 {
      NoTargets(links[1..], v);
    } else {
      OneTarget(links[1..], v, p - 1);
    }
  }

  lemma {:induction false} NoTargets(links: seq<Link>, v: nat)
    requires forall i :: 0 <= i < |links| ==> links[i].source != v
    ensures Targets(links, v) == []
  {
    if links != [] {
      NoTargets(links[1..], v);
    }
  }

  function Range(from: nat, to: nat): (s: seq<nat>)
    requires from <= to
  {
    seq(to - from, i requires 0 <= i < to - from => from + i)
  }

  /** How far the search started at `start` reaches: it gives up `DEPTH_LIMIT + 1` names deep. */
  function Reach(n: nat, start: nat): nat {
    if start + DEPTH_LIMIT + 1 < n then start + DEPTH_LIMIT + 1 else n
  }

  /** Entering a node with a single successor whose search finds nothing. */
  lemma EnterAndLeave(g: DiGraph, names: map<nat, string>, node: nat, next: nat, visited: set<nat>, stack: seq<string>)
    requires Valid(g) && node < g.nodes && next < g.nodes && node in names && node !in visited && |stack| <= DEPTH_LIMIT
    requires Targets(g.links, node) == [next]
    requires var r := Visit(g, names, next, visited + {node}, stack + [names[node]]);
             r.cycle.None? && r.stack == stack + [names[node]]
    ensures Visit(g, names, node, visited, stack)
            == Search(None, Visit(g, names, next, visited + {node}, stack + [names[node]]).visited, stack)
  {
    TargetsInRange(g, node);
    var r := Visit(g, names, next, visited + {node}, stack + [names[node]]);
    assert VisitEach(g, names, [next], visited + {node}, stack + [names[node]]) == r;
    assert Pop(stack + [names[node]]) == stack;
  }

  lemma TooDeep(g: DiGraph, names: map<nat, string>, node: nat, visited: set<nat>, stack: seq<string>)
    requires Valid(g) && node < g.nodes && |stack| > DEPTH_LIMIT
    ensures Visit(g, names, node, visited, stack) == Search(None, visited, stack)
  {
  }

  lemma RingTarget(n: nat, i: nat)
    requires i < n
    ensures Targets(Ring(n).links, i) == [if i + 1 == n then 0 else i + 1]
  {
    OneTarget(Ring(n).links, i, i);
  }

  lemma {:induction false} RingVisit(n: nat, names: map<nat, string>, start: nat, i: nat)
    requires n > DEPTH_LIMIT && Valid(Ring(n)) && Named(Ring(n), names)
    requires start <= i < n && i - start <= DEPTH_LIMIT + 1
    ensures var stack := Ids(names, Range(start, i));
            Visit(Ring(n), names, i, Below(i), stack) == Search(None, Below(Reach(n, start)), stack)
    decreases n - i
  {
    hide Valid, Visit, Ring, Below;
    var g := Ring(n);
    RingSize(n);
    RingNames(n, names, start, i);
    hide Named;
    var stack := Ids(names, Range(start, i));
    if |stack| > DEPTH_LIMIT {
      TooDeep(g, names, i, Below(i), stack);
    } else {
      var next := if i + 1 == n then 0 else i + 1;
      var deeper := stack + [names[i]];
      RingTarget(n, i);
      assert Below(i) + {i} == Below(i + 1);
      if i + 1 == n {
        NotAhead(names, start, n, deeper);
      } else {
        RingVisit(n, names, start, i + 1);
      }
      EnterAndLeave(g, names, i, next, Below(i), stack);
    }
  }

  lemma RingNames(n: nat, names: map<nat, string>, start: nat, i: nat)
    requires n >= 1 && Valid(Ring(n)) && Named(Ring(n), names) && start <= i < n
    ensures forall v: nat :: v < n ==> v in names
    ensures Ids(names, Range(start, i)) + [names[i]] == Ids(names, Range(start, i + 1))
  {
  }

  lemma RingSize(n: nat)
    requires n >= 1
    ensures Ring(n).nodes == n
  {
  }

  /** Back at node 0 the search is either too deep or finds node 0 off the stack. */
  lemma NotAhead(names: map<nat, string>, start: nat, n: nat, stack: seq<string>)
    requires n > DEPTH_LIMIT && start < n && Named(Ring(n), names) && Valid(Ring(n))
    requires stack == Ids(names, Range(start, n)) && |stack| <= DEPTH_LIMIT + 1
    ensures Visit(Ring(n), names, 0, Below(n), stack) == Search(None, Below(n), stack)
    ensures Reach(n, start) == n
  {
    if |stack| <= DEPTH_LIMIT {
      forall k | 0 <= k < |stack| ensures stack[k] != names[0] {
        assert stack[k] == names[start + k] && 0 in names && start + k in names;
      }
    }
  }

  lemma {:induction false} RingCheckFrom(n: nat, names: map<nat, string>, node: nat, m: nat)
    requires n > DEPTH_LIMIT && Valid(Ring(n)) && Named(Ring(n), names)
    requires node <= m <= n
    ensures CheckFrom(Ring(n), names, node, Below(m), []) == []
    decreases n - node
  {
    hide Valid, Visit, Named, Ring, Below;
    RingSize(n);
    if node < n {
      if node < m {
        RingCheckFrom(n, names, node + 1, m);
      } else {
        assert Ids(names, Range(node, node)) == [];
        RingVisit(n, names, node, node);
        RingCheckFrom(n, names, node + 1, Reach(n, node));
      }
    }
  }

  /** The bound of a thousand nodes is tight: for every larger size there is a coherently named
      graph of that size whose cycle goes unreported. */
  lemma LargeRingIsMissed(n: nat, names: map<nat, string>)
    requires n > 1000 && Named(Ring(n), names)
    ensures Valid(Ring(n)) && Cyclic(Ring(n))
    ensures Check(Ring(n), names) == []
  {
    RingIsCyclic(n);
    RingCheckFrom(n, names, 0, 0);
  }

  /** Such a naming exists: each node by its number. */
  function Numbered(n: nat): map<nat, string> {
    map i: nat | 0 <= i < n :: Text.Decimal(i)
  }

  lemma NumberedRingIsMissed(n: nat)
    requires n > 1000
    ensures Valid(Ring(n)) && Named(Ring(n), Numbered(n)) && Cyclic(Ring(n)) && Check(Ring(n), Numbered(n)) == []
  {
    var names := Numbered(n);
    forall u, v | u in names && v in names && names[u] == names[v] ensures u == v {
      Text.DecimalInjective(u, v);
    }
    LargeRingIsMissed(n, names);
  }

  // ---- a later report may be bogus ----------------------------------------------------------

  /** a -> b -> a, and c -> a */
  const TAILED := DiGraph(3, [Link(2, 2, 0), Link(1, 1, 0), Link(0, 0, 1)])
  const TAILED_NAMES: map<nat, string> := map[0 := "a", 1 := "b", 2 := "c"]

  lemma TailedIsCoherent()
    ensures Valid(TAILED) && Named(TAILED, TAILED_NAMES)
  {
  }

  lemma NothingEntersC()
    ensures forall u :: !HasEdge(TAILED, u, 2)
  {
  }

  /** A genuine cycle of this graph cannot have "c" in third place. */
  lemma NotACycle(ids: seq<string>)
    requires |ids| == 3 && ids[2] == TAILED_NAMES[2]
    ensures !GenuineCycle(TAILED, TAILED_NAMES, ids)
  {
    if GenuineCycle(TAILED, TAILED_NAMES, ids) {
      var c :| IsCycle(TAILED, c) && (forall i :: 0 <= i < |c| ==> c[i] in TAILED_NAMES) && ids == Ids(TAILED_NAMES, c);
      assert HasEdge(TAILED, c[1], c[2]);
      assert TAILED_NAMES[c[2]] == TAILED_NAMES[2];
      TailedIsCoherent();
      NothingEntersC();
    }
  }

  /** A found cycle leaves its names on the shared stack, so the next root appears to continue it:
      the second report claims a cycle through "c" although no edge enters "c". */
  lemma LaterCycleCanBeBogus()
    ensures Valid(TAILED) && Named(TAILED, TAILED_NAMES)
    ensures Check(TAILED, TAILED_NAMES) == [["a", "b"], ["a", "b", "c"]]
    ensures !GenuineCycle(TAILED, TAILED_NAMES, Check(TAILED, TAILED_NAMES)[1])
  {
    TailedIsCoherent();
    EnterA();
    EnterC();
    CheckUnfolds();
    var second := Check(TAILED, TAILED_NAMES)[1];
    assert |second| == 3 && second[2] == TAILED_NAMES[2];
    NotACycle(second);
  }

  lemma CheckUnfolds()
    requires Visit(TAILED, TAILED_NAMES, 0, {}, []) == Search(Some(["a", "b"]), {0, 1}, ["a", "b"])
    requires Visit(TAILED, TAILED_NAMES, 2, {0, 1}, ["a", "b"])
             == Search(Some(["a", "b", "c"]), {0, 1, 2}, ["a", "b", "c"])
    ensures Check(TAILED, TAILED_NAMES) == [["a", "b"], ["a", "b", "c"]]
  {
    TailedIsCoherent();
    hide Visit, Valid, Named;
    var g, names := TAILED, TAILED_NAMES;
    assert CheckFrom(g, names, 2, {0, 1}, ["a", "b"]) == [["a", "b", "c"]];
    assert CheckFrom(g, names, 1, {0, 1}, ["a", "b"]) == [["a", "b", "c"]];
  }

  lemma EnterB()
    requires Valid(TAILED)
    ensures Visit(TAILED, TAILED_NAMES, 1, {0}, ["a"]) == Search(Some(["a", "b"]), {0, 1}, ["a", "b"])
  {
    hide Valid, Visit, VisitEach;
    assert Targets(TAILED.links, 1) == [0];
    assert {0} + {1} == {0, 1} && ["a"] + ["b"] == ["a", "b"];
    ASeen({0, 1}, ["a", "b"]);
    EnterOnly(TAILED, TAILED_NAMES, 1, 0, {0}, ["a"]);
  }

  lemma ASeen(visited: set<nat>, stack: seq<string>)
    requires Valid(TAILED) && 0 in visited && |stack| <= 1000 && stack != [] && stack[0] == "a"
    ensures Visit(TAILED, TAILED_NAMES, 0, visited, stack) == Search(Some(stack), visited, stack)
  {
    hide Valid, VisitEach;
    assert stack[0..] == stack;
  }

  lemma EnterA()
    requires Valid(TAILED)
    ensures Visit(TAILED, TAILED_NAMES, 0, {}, []) == Search(Some(["a", "b"]), {0, 1}, ["a", "b"])
  {
    hide Valid, Visit, VisitEach;
    EnterB();
    assert Targets(TAILED.links, 0) == [1];
    assert {} + {0} == {0} && [] + ["a"] == ["a"];
    EnterOnly(TAILED, TAILED_NAMES, 0, 1, {}, []);
  }

  lemma EnterC()
    requires Valid(TAILED)
    ensures Visit(TAILED, TAILED_NAMES, 2, {0, 1}, ["a", "b"])
            == Search(Some(["a", "b", "c"]), {0, 1, 2}, ["a", "b", "c"])
  {
    hide Valid, Visit, VisitEach;
    assert Targets(TAILED.links, 2) == [0];
    assert {0, 1} + {2} == {0, 1, 2} && ["a", "b"] + ["c"] == ["a", "b", "c"];
    ASeen({0, 1, 2}, ["a", "b", "c"]);
    EnterOnly(TAILED, TAILED_NAMES, 2, 0, {0, 1}, ["a", "b"]);
  }
}
