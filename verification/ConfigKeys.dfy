/** The keys that `config list` prints and the lookup behind `config get`: `collect_keys` numbers and names the
    nodes of a TOML document, `get_nested_value` follows a dotted name. */
module ConfigKeys {
  import opened Wrappers
  import opened Text

  datatype Toml = Scalar(text: string) | Table(entries: seq<Entry>) | Array(items: seq<Toml>)

  datatype Entry = Entry(key: string, value: Toml)

  /** The number of values of a 64-bit `usize` */
  const USIZE: nat := 0x1_0000_0000_0000_0000

  /** What a parsed document guarantees: keys of a table are distinct, and arrays fit in memory. */
  ghost predicate Parsed(v: Toml) {
    match v
    case Scalar(_) => true
    case Table(entries) =>
      && (forall i, j :: 0 <= i < j < |entries| ==> entries[i].key != entries[j].key)
      && forall i :: 0 <= i < |entries| ==> Parsed(entries[i].value)
    case Array(items) => |items| <= USIZE && forall i :: 0 <= i < |items| ==> Parsed(items[i])
  }

  ghost predicate DotFree(v: Toml) {
    match v
    case Scalar(_) => true
    case Table(entries) =>
      forall i :: 0 <= i < |entries| ==> '.' !in entries[i].key && DotFree(entries[i].value)
    case Array(items) => forall i :: 0 <= i < |items| ==> DotFree(items[i])
  }

  /** Under an empty key at the top, the keys of such a value are listed as if they stood at the top. */
  predicate HasKeys(v: Toml) {
    v.Table? && v.entries != []
  }

  /** A document is a table; no empty key at its top holds further keys. */
  ghost predicate Document(v: Toml) {
    && v.Table? && Parsed(v)
    && forall i :: 0 <= i < |v.entries| && v.entries[i].key == "" ==> !HasKeys(v.entries[i].value)
  }

  // ---- the two operations --------------------------------------------------------------------------------

  function Count(v: Toml): nat {
    match v
    case Scalar(_) => 0
    case Table(entries) => |entries|
    case Array(items) => |items|
  }

  function Child(v: Toml, i: nat): (c: Toml)
    requires i < Count(v)
    ensures c < v
  {
    match v
    case Table(entries) => var e := entries[i]; e.value
    case Array(items) => items[i]
  }

  function Name(v: Toml, i: nat): string
    requires i < Count(v)
  {
    if v.Table? then v.entries[i].key else Decimal(i)
  }

  function FullKey(v: Toml, prefix: string, i: nat): string
    requires i < Count(v)
  {
    if v.Table? && prefix == "" then Name(v, i) else prefix + "." + Name(v, i)
  }

  /** `collect_keys` from the i-th child on */
  function KeysFrom(v: Toml, prefix: string, i: nat): seq<string>
    requires i <= Count(v)
    decreases v, Count(v) - i
  {
    if i == Count(v) then []
    else [FullKey(v, prefix, i)] + Keys(Child(v, i), FullKey(v, prefix, i)) + KeysFrom(v, prefix, i + 1)
  }

  function Keys(v: Toml, prefix: string): seq<string>
    decreases v, Count(v) + 1
  {
    KeysFrom(v, prefix, 0)
  }

  function Position(entries: seq<Entry>, key: string): Option<nat> {
    if entries == [] then None
    else if entries[|entries| - 1].key == key then Some(|entries| - 1)
    else Position(entries[..|entries| - 1], key)
  }

  lemma {:induction false} PositionIs(entries: seq<Entry>, key: string)
    ensures var p := Position(entries, key);
            if p.None? then forall i :: 0 <= i < |entries| ==> entries[i].key != key
            else p.value < |entries| && entries[p.value].key == key
                 && forall i :: p.value < i < |entries| ==> entries[i].key != key
  {
    if entries != [] {
      PositionIs(entries[..|entries| - 1], key);
    }
  }

  /** Which child one part of a key selects */
  function Select(v: Toml, part: string): Option<nat> {
    match v
    case Scalar(_) => None
    case Table(entries) => Position(entries, part)
    case Array(items) =>
      var n := ParseUnsigned(part, 10, USIZE);
      if n.Some? && n.value < |items| then n else None
  }

  lemma SelectIsChild(v: Toml, part: string)
    ensures Select(v, part).Some? ==> Select(v, part).value < Count(v)
  {
    if v.Table? {
      PositionIs(v.entries, part);
    }
  }

  function Step(v: Toml, part: string): Option<Toml> {
    SelectIsChild(v, part);
    var i := Select(v, part);
    if i.None? then None else Some(Child(v, i.value))
  }

  function Follow(v: Toml, parts: seq<string>): Option<Toml>
    decreases |parts|
  {
    if parts == [] then Some(v)
    else
      var next := Step(v, parts[0]);
      if next.None? then None else Follow(next.value, parts[1..])
  }

  /** `get_nested_value`, up to the conversion of the node found */
  function Lookup(v: Toml, key: string): Option<Toml> {
    Follow(v, Split(key, '.'))
  }

  /** Which child a part of a key leads to: in a table the last entry of that name, in an array the item with that index
      if there is one, however the index is spelled, and nothing below a scalar. */
  lemma StepIs(v: Toml, part: string, c: Toml)
    ensures Step(v, part) == Some(c) <==>
              match v
              case Scalar(_) => false
              case Table(entries) =>
                exists i: nat :: i < |entries| && entries[i] == Entry(part, c)
                                 && forall j :: i < j < |entries| ==> entries[j].key != part
              case Array(items) =>
                exists n: nat :: n < |items| && n < USIZE && Numeral(part, n) && items[n] == c
  {
    SelectIsChild(v, part);
    match v
    case Scalar(_) =>
    case Table(entries) =>
      PositionIs(entries, part);
    case Array(items) =>
      hide Numeral;
      var n := ParseUnsigned(part, 10, USIZE);
      forall m: nat | m < USIZE ensures n == Some(m) <==> Numeral(part, m) {
        ParseUnsignedIff(part, USIZE, m);
      }
      InBounds(part);
      hide ParseUnsigned;
  }

  lemma InBounds(part: string)
    ensures var n := ParseUnsigned(part, 10, USIZE); n.Some? ==> n.value < USIZE
  {
  }

  // ---- every node below the root, with its path ---------------------------------------------------------

  datatype Listed = Listed(path: seq<string>, node: Toml)

  function NodesFrom(v: Toml, path: seq<string>, i: nat): seq<Listed>
    requires i <= Count(v)
    decreases v, Count(v) - i
  {
    if i == Count(v) then []
    else
      var here := path + [Name(v, i)];
      [Listed(here, Child(v, i))] + Nodes(Child(v, i), here) + NodesFrom(v, path, i + 1)
  }

  function Nodes(v: Toml, path: seq<string>): seq<Listed>
    decreases v, Count(v) + 1
  {
    NodesFrom(v, path, 0)
  }

  // ---- keys are joined paths ------------------------------------------------------------------------------

  lemma {:induction false} JoinSnoc(path: seq<string>, part: string)
    ensures Join(path + [part], '.') == if path == [] then part else Join(path, '.') + "." + part
  {
    if |path| == 1 {
      assert (path + [part])[1..] == [part];
    } else if |path| > 1 {
      JoinSnoc(path[1..], part);
      assert (path + [part])[1..] == path[1..] + [part];
      assert path[0] + ['.'] + (Join(path[1..], '.') + "." + part)
          == path[0] + ['.'] + Join(path[1..], '.') + "." + part;
    }
  }

  /** The prefix handed down belongs to the path, and below the root no key is listed under an empty one. */
  ghost predicate Prefixed(v: Toml, prefix: string, path: seq<string>) {
    prefix == Join(path, '.') && if path == [] then Document(v) else prefix == "" ==> !HasKeys(v)
  }

  lemma FullKeyIsJoin(v: Toml, prefix: string, path: seq<string>, i: nat)
    requires Prefixed(v, prefix, path) && i < Count(v)
    ensures var here := path + [Name(v, i)];
            FullKey(v, prefix, i) == Join(here, '.') && Prefixed(Child(v, i), FullKey(v, prefix, i), here)
  {
    JoinSnoc(path, Name(v, i));
  }

  ghost predicate Matches(keys: seq<string>, nodes: seq<Listed>) {
    |keys| == |nodes| && forall i :: 0 <= i < |keys| ==> keys[i] == Join(nodes[i].path, '.')
  }

  lemma MatchesAppend(keys: seq<string>, nodes: seq<Listed>, moreKeys: seq<string>, moreNodes: seq<Listed>)
    requires Matches(keys, nodes) && Matches(moreKeys, moreNodes)
    ensures Matches(keys + moreKeys, nodes + moreNodes)
  {
  }

  lemma {:induction false} KeysAreJoinedPaths(v: Toml, prefix: string, path: seq<string>, i: nat)
    requires Prefixed(v, prefix, path) && i <= Count(v)
    ensures Matches(KeysFrom(v, prefix, i), NodesFrom(v, path, i))
    decreases v, Count(v) - i
  {
    hide Matches, Prefixed;
    if i == Count(v) {
      NoneMatch();
    } else {
      FullKeyIsJoin(v, prefix, path, i);
      var full, here := FullKey(v, prefix, i), path + [Name(v, i)];
      OneMatches(full, Listed(here, Child(v, i)));
      KeysAreJoinedPaths(Child(v, i), full, here, 0);
      KeysAreJoinedPaths(v, prefix, path, i + 1);
      MatchesAppend([full], [Listed(here, Child(v, i))], Keys(Child(v, i), full), Nodes(Child(v, i), here));
      MatchesAppend([full] + Keys(Child(v, i), full), [Listed(here, Child(v, i))] + Nodes(Child(v, i), here),
                    KeysFrom(v, prefix, i + 1), NodesFrom(v, path, i + 1));
    }
  }

  lemma NoneMatch()
    ensures Matches([], [])
  {
  }

  lemma OneMatches(key: string, node: Listed)
    requires key == Join(node.path, '.')
    ensures Matches([key], [node])
  {
  }

  // ---- the path of a listed node leads to it -------------------------------------------------------------

  lemma DecimalSelects(i: nat, n: nat)
    requires i < n <= USIZE
    ensures ParseUnsigned(Decimal(i), 10, USIZE) == Some(i)
  {
    ParseDecimal(i, USIZE);
  }

  lemma NameSelects(v: Toml, i: nat)
    requires Parsed(v) && i < Count(v)
    ensures Step(v, Name(v, i)) == Some(Child(v, i))
  {
    if v.Table? {
      PositionIs(v.entries, Name(v, i));
    } else {
      DecimalSelects(i, |v.items|);
    }
  }

  lemma {:induction false} FollowSnoc(v: Toml, parts: seq<string>, part: string)
    ensures var end := Follow(v, parts);
            Follow(v, parts + [part]) == if end.None? then None else Step(end.value, part)
    decreases |parts|
  {
    if parts == [] {
      assert (parts + [part])[1..] == [];
    } else {
      assert (parts + [part])[1..] == parts[1..] + [part];
      var next := Step(v, parts[0]);
      if next.Some? {
        FollowSnoc(next.value, parts[1..], part);
      }
    }
  }

  ghost predicate AllReached(root: Toml, nodes: seq<Listed>) {
    forall i :: 0 <= i < |nodes| ==> Follow(root, nodes[i].path) == Some(nodes[i].node)
  }

  lemma {:induction false} ListedAreReached(root: Toml, v: Toml, path: seq<string>, i: nat)
    requires Parsed(v) && Follow(root, path) == Some(v) && i <= Count(v)
    ensures AllReached(root, NodesFrom(v, path, i))
    decreases v, Count(v) - i
  {
    hide Follow, Step;
    if i < Count(v) {
      var here := path + [Name(v, i)];
      FollowSnoc(root, path, Name(v, i));
      NameSelects(v, i);
      ChildParsed(v, i);
      ListedAreReached(root, Child(v, i), here, 0);
      ListedAreReached(root, v, path, i + 1);
    }
  }

  lemma ChildParsed(v: Toml, i: nat)
    requires Parsed(v) && i < Count(v)
    ensures Parsed(Child(v, i))
  {
  }

  // ---- paths are distinct ---------------------------------------------------------------------------------

  ghost predicate Below(nodes: seq<Listed>, path: seq<string>) {
    forall i :: 0 <= i < |nodes| ==> |path| < |nodes[i].path| && nodes[i].path[..|path|] == path
  }

  ghost predicate PathsDistinct(nodes: seq<Listed>) {
    forall i, j :: 0 <= i < j < |nodes| ==> nodes[i].path != nodes[j].path
  }

  lemma NamesDistinct(v: Toml, i: nat, j: nat)
    requires Parsed(v) && i < j < Count(v)
    ensures Name(v, i) != Name(v, j)
  {
    if v.Array? && Decimal(i) == Decimal(j) {
      DecimalInjective(i, j);
    }
  }

  lemma {:induction false} NodesAreBelow(v: Toml, path: seq<string>, i: nat)
    requires i <= Count(v)
    ensures Below(NodesFrom(v, path, i), path)
    ensures forall k :: 0 <= k < |NodesFrom(v, path, i)| ==>
              exists j: nat :: i <= j < Count(v) && NodesFrom(v, path, i)[k].path[|path|] == Name(v, j)
    decreases v, Count(v) - i
  {
    if i < Count(v) {
      var here := path + [Name(v, i)];
      NodesAreBelow(Child(v, i), here, 0);
      NodesAreBelow(v, path, i + 1);
      var below, rest := Nodes(Child(v, i), here), NodesFrom(v, path, i + 1);
      forall k | 0 <= k < |NodesFrom(v, path, i)|
        ensures var p := NodesFrom(v, path, i)[k].path;
                |path| < |p| && p[..|path|] == path && exists j: nat :: i <= j < Count(v) && p[|path|] == Name(v, j)
      {
        var p := NodesFrom(v, path, i)[k].path;
        if k == 0 {
          assert p == here;
        } else if k <= |below| {
          assert p == below[k - 1].path && p[..|here|] == here;
          assert p[..|path|] == here[..|path|] && p[|path|] == here[|path|];
        } else {
          assert p == rest[k - 1 - |below|].path;
        }
      }
    }
  }

  lemma {:induction false} ListedPathsDistinct(v: Toml, path: seq<string>, i: nat)
    requires Parsed(v) && i <= Count(v)
    ensures PathsDistinct(NodesFrom(v, path, i))
    decreases v, Count(v) - i
  {
    if i < Count(v) {
      var here := path + [Name(v, i)];
      ChildParsed(v, i);
      ListedPathsDistinct(Child(v, i), here, 0);
      ListedPathsDistinct(v, path, i + 1);
      NodesAreBelow(Child(v, i), here, 0);
      NodesAreBelow(v, path, i + 1);
      var all, rest := NodesFrom(v, path, i), NodesFrom(v, path, i + 1);
      var first := [Listed(here, Child(v, i))] + Nodes(Child(v, i), here);
      assert all == first + rest;
      forall a, b | 0 <= a < |first| && 0 <= b < |rest| ensures first[a].path != rest[b].path {
        assert first[a].path[..|here|] == here;
        assert first[a].path[|path|] == here[|path|] == Name(v, i);
        var j: nat :| i + 1 <= j < Count(v) && rest[b].path[|path|] == Name(v, j);
        NamesDistinct(v, i, j);
      }
      assert PathsDistinct(first);
    }
  }

  // ---- every listed key can be looked up ----------------------------------------------------------------

  lemma {:induction false} DecimalHasNoDot(i: nat)
    ensures '.' !in Decimal(i)
  {
    DecimalDigits(i);
  }

  ghost predicate AllFree(nodes: seq<Listed>) {
    forall k :: 0 <= k < |nodes| ==> Free(nodes[k].path, '.')
  }

  lemma {:induction false} ListedAreDotFree(v: Toml, path: seq<string>, i: nat)
    requires DotFree(v) && Free(path, '.') && i <= Count(v)
    ensures AllFree(NodesFrom(v, path, i))
    decreases v, Count(v) - i
  {
    hide Free;
    if i < Count(v) {
      if v.Array? {
        DecimalHasNoDot(i);
      }
      var here := path + [Name(v, i)];
      FreeSnoc(path, Name(v, i));
      ListedAreDotFree(Child(v, i), here, 0);
      ListedAreDotFree(v, path, i + 1);
    }
  }

  lemma FreeSnoc(path: seq<string>, part: string)
    requires Free(path, '.') && '.' !in part
    ensures Free(path + [part], '.')
  {
  }

  /** For a document without dots in its keys: the listed keys are distinct, there is one for each node below
      the root, and looking it up gives that very node, through tables and array indices. */
  lemma ListedKeysResolve(v: Toml)
    requires Document(v) && DotFree(v)
    ensures var keys, nodes := Keys(v, ""), Nodes(v, []);
            && |keys| == |nodes|
            && (forall i, j :: 0 <= i < j < |keys| ==> keys[i] != keys[j])
            && (forall i :: 0 <= i < |keys| ==> Lookup(v, keys[i]) == Some(nodes[i].node))
  {
    var keys, nodes := Keys(v, ""), Nodes(v, []);
    KeysAreJoinedPaths(v, "", [], 0);
    ListedAreReached(v, v, [], 0);
    ListedPathsDistinct(v, [], 0);
    ListedAreDotFree(v, [], 0);
    NodesAreBelow(v, [], 0);
    forall i | 0 <= i < |nodes| ensures Split(keys[i], '.') == nodes[i].path {
      SplitJoin(nodes[i].path, '.');
    }
  }

  /** The path with its array indices as they are printed */
  function Canonical(v: Toml, parts: seq<string>): seq<string>
    decreases |parts|
  {
    SelectIsChild(v, if parts == [] then "" else parts[0]);
    if parts == [] || Select(v, parts[0]).None? then []
    else
      var i := Select(v, parts[0]).value;
      [Name(v, i)] + Canonical(Child(v, i), parts[1..])
  }

  lemma FollowStep(v: Toml, parts: seq<string>)
    requires parts != [] && Follow(v, parts).Some?
    ensures Select(v, parts[0]).Some? && Select(v, parts[0]).value < Count(v)
    ensures Follow(v, parts) == Follow(Child(v, Select(v, parts[0]).value), parts[1..])
  {
    SelectIsChild(v, parts[0]);
  }

  lemma CanonicalStep(v: Toml, parts: seq<string>)
    requires parts != [] && Select(v, parts[0]).Some? && Select(v, parts[0]).value < Count(v)
    ensures var j := Select(v, parts[0]).value;
            Canonical(v, parts) == [Name(v, j)] + Canonical(Child(v, j), parts[1..])
  {
  }

  lemma NothingFollowed(v: Toml)
    ensures Follow(v, []) == Some(v) && Canonical(v, []) == []
  {
  }

  lemma {:induction false} CanonicalIsFree(v: Toml, parts: seq<string>)
    requires Free(parts, '.')
    ensures Free(Canonical(v, parts), '.')
    decreases |parts|
  {
    SelectIsChild(v, if parts == [] then "" else parts[0]);
    if parts != [] && Select(v, parts[0]).Some? {
      var j := Select(v, parts[0]).value;
      if v.Table? {
        PositionIs(v.entries, parts[0]);
      } else {
        DecimalHasNoDot(j);
      }
      CanonicalIsFree(Child(v, j), parts[1..]);
    }
  }

  lemma {:induction false} CanonicalSnoc(v: Toml, path: seq<string>, i: nat)
    requires Parsed(v) && Follow(v, path).Some? && i < Count(Follow(v, path).value)
    ensures Parsed(Follow(v, path).value)
    ensures var name := Name(Follow(v, path).value, i);
            Canonical(v, path + [name]) == Canonical(v, path) + [name]
    decreases |path|
  {
    if path == [] {
      NothingFollowed(v);
      NameSelected(v, i);
      CanonicalStep(v, [Name(v, i)]);
      NothingFollowed(Child(v, i));
      assert [] + [Name(v, i)] == [Name(v, i)] && [Name(v, i)][1..] == [];
    } else {
      hide Canonical, Name, Select, Follow;
      FollowStep(v, path);
      var j := Select(v, path[0]).value;
      ChildParsed(v, j);
      CanonicalSnoc(Child(v, j), path[1..], i);
      var longer := path + [Name(Follow(v, path).value, i)];
      assert longer[0] == path[0] && longer[1..] == path[1..] + [Name(Follow(v, path).value, i)];
      CanonicalStep(v, path);
      CanonicalStep(v, longer);
    }
  }

  lemma NameSelected(v: Toml, i: nat)
    requires Parsed(v) && i < Count(v)
    ensures Select(v, Name(v, i)) == Some(i)
  {
    if v.Table? {
      PositionIs(v.entries, Name(v, i));
    } else {
      DecimalSelects(i, |v.items|);
    }
  }

  ghost predicate AllCanonical(root: Toml, nodes: seq<Listed>) {
    forall k :: 0 <= k < |nodes| ==> Canonical(root, nodes[k].path) == nodes[k].path
  }

  lemma {:induction false} ListedAreCanonical(root: Toml, v: Toml, path: seq<string>, i: nat)
    requires Parsed(root) && Follow(root, path) == Some(v) && Canonical(root, path) == path && i <= Count(v)
    ensures AllCanonical(root, NodesFrom(v, path, i))
    decreases v, Count(v) - i
  {
    hide Follow, Step, Canonical;
    if i < Count(v) {
      var here := path + [Name(v, i)];
      CanonicalSnoc(root, path, i);
      FollowSnoc(root, path, Name(v, i));
      NameSelects(v, i);
      ListedAreCanonical(root, Child(v, i), here, 0);
      ListedAreCanonical(root, v, path, i + 1);
    }
  }

  lemma {:induction false} CanonicalIsShort(v: Toml, parts: seq<string>)
    ensures |Canonical(v, parts)| <= |parts|
    decreases |parts|
  {
    SelectIsChild(v, if parts == [] then "" else parts[0]);
    if parts != [] && Select(v, parts[0]).Some? {
      CanonicalIsShort(Child(v, Select(v, parts[0]).value), parts[1..]);
    }
  }

  lemma {:induction false} SplitSnoc(prefix: string, name: string)
    requires '.' !in name
    ensures |Split(prefix + "." + name, '.')| == |Split(prefix, '.')| + 1
  {
    var s := prefix + "." + name;
    if prefix == "" {
      SplitOne(name, '.');
      assert s[1..] == name;
    } else {
      SplitSnoc(prefix[1..], name);
      assert s[1..] == prefix[1..] + "." + name;
    }
  }

  /** The prefix has fewer parts than the path by `d`, or is the empty one that the children of a table drop. */
  ghost predicate ShortPrefix(v: Toml, prefix: string, path: seq<string>, d: nat) {
    |path| >= d && (|Split(prefix, '.')| <= |path| - d || (prefix == "" && v.Table?))
  }

  ghost predicate ShortKeys(keys: seq<string>, nodes: seq<Listed>, d: nat) {
    |keys| == |nodes|
    && forall k :: 0 <= k < |keys| && Free(nodes[k].path, '.') ==> |Split(keys[k], '.')| <= |nodes[k].path| - d
  }

  lemma FullKeyIsShort(v: Toml, prefix: string, path: seq<string>, i: nat, d: nat)
    requires (Free(path, '.') ==> ShortPrefix(v, prefix, path, d)) && i < Count(v)
    requires Free(path + [Name(v, i)], '.')
    ensures |Split(FullKey(v, prefix, i), '.')| <= |path| + 1 - d
  {
    var here := path + [Name(v, i)];
    assert here[|path|] == Name(v, i);
    assert forall j :: 0 <= j < |path| ==> path[j] == here[j];
    SplitOne(Name(v, i), '.');
    SplitSnoc(prefix, Name(v, i));
    hide Split;
  }

  lemma NoneShort(d: nat)
    ensures ShortKeys([], [], d)
  {
  }

  lemma OneShort(key: string, node: Listed, d: nat)
    requires Free(node.path, '.') ==> |Split(key, '.')| <= |node.path| - d
    ensures ShortKeys([key], [node], d)
  {
    hide Split, Free;
  }

  lemma ShortAppend(keys: seq<string>, nodes: seq<Listed>, moreKeys: seq<string>, moreNodes: seq<Listed>, d: nat)
    requires ShortKeys(keys, nodes, d) && ShortKeys(moreKeys, moreNodes, d)
    ensures ShortKeys(keys + moreKeys, nodes + moreNodes, d)
  {
    hide Split, Free;
  }

  lemma {:induction false} KeysAreShort(v: Toml, prefix: string, path: seq<string>, i: nat, d: nat)
    requires (Free(path, '.') ==> ShortPrefix(v, prefix, path, d)) && i <= Count(v)
    ensures ShortKeys(KeysFrom(v, prefix, i), NodesFrom(v, path, i), d)
    decreases v, Count(v) - i
  {
    hide Split, FullKey, Free, ShortKeys;
    if i == Count(v) {
      NoneShort(d);
    } else {
      var full, here := FullKey(v, prefix, i), path + [Name(v, i)];
      if Free(here, '.') {
        FullKeyIsShort(v, prefix, path, i, d);
      }
      KeysAreShort(Child(v, i), full, here, 0, d);
      KeysAreShort(v, prefix, path, i + 1, d);
      OneShort(full, Listed(here, Child(v, i)), d);
      ShortAppend([full], [Listed(here, Child(v, i))], Keys(Child(v, i), full), Nodes(Child(v, i), here), d);
      ShortAppend([full] + Keys(Child(v, i), full), [Listed(here, Child(v, i))] + Nodes(Child(v, i), here),
                  KeysFrom(v, prefix, i + 1), NodesFrom(v, path, i + 1), d);
    }
  }

  /** The path goes through an empty key at the top into further keys. */
  predicate Hidden(v: Toml, path: seq<string>) {
    |path| > 1 && path[0] == "" && var top := Step(v, ""); top.Some? && HasKeys(top.value)
  }

  /** Looking up the key goes along the path exactly when nothing on the path has a dot or hides it. */
  ghost predicate Agrees(v: Toml, key: string, path: seq<string>) {
    && (Canonical(v, Split(key, '.')) == path <==> Free(path, '.') && !Hidden(v, path))
    && (Free(path, '.') && !Hidden(v, path) ==> Split(key, '.') == path)
  }

  ghost predicate AllAgree(v: Toml, keys: seq<string>, nodes: seq<Listed>) {
    |keys| == |nodes| && forall k :: 0 <= k < |keys| ==> Agrees(v, keys[k], nodes[k].path)
  }

  lemma JoinedAgrees(v: Toml, key: string, path: seq<string>)
    requires key == Join(path, '.') && path != [] && Canonical(v, path) == path && !Hidden(v, path)
    ensures Agrees(v, key, path)
  {
    hide Canonical;
    SplitJoin(path, '.');
    SplitPiecesFree(key, '.');
    CanonicalIsFree(v, Split(key, '.'));
  }

  lemma ShorterAgrees(v: Toml, key: string, path: seq<string>)
    requires Hidden(v, path) && (Free(path, '.') ==> |Split(key, '.')| <= |path| - 1)
    ensures Agrees(v, key, path)
  {
    hide Canonical, Hidden;
    SplitPiecesFree(key, '.');
    CanonicalIsFree(v, Split(key, '.'));
    CanonicalIsShort(v, Split(key, '.'));
  }

  /** The keys below the i-th entry of a document's table */
  lemma ChildAgrees(v: Toml, i: nat)
    requires v.Table? && Parsed(v) && i < Count(v)
    ensures AllAgree(v, Keys(Child(v, i), Name(v, i)), Nodes(Child(v, i), [Name(v, i)]))
  {
    var c, name := Child(v, i), Name(v, i);
    NameSelects(v, i);
    NodesAreBelow(c, [name], 0);
    var keys, nodes := Keys(c, name), Nodes(c, [name]);
    hide NodesFrom, KeysFrom, Canonical, Agrees, Split, Join;
    if name == "" && HasKeys(c) {
      EmptyPrefix(c);
      KeysAreShort(c, name, [name], 0, 1);
      forall k | 0 <= k < |keys| ensures Agrees(v, keys[k], nodes[k].path) {
        assert nodes[k].path[..1] == [name];
        ShorterAgrees(v, keys[k], nodes[k].path);
      }
    } else {
      JoinOne(name);
      KeysAreJoinedPaths(c, name, [name], 0);
      OneStep(v, i);
      ListedAreCanonical(v, c, [name], 0);
      forall k | 0 <= k < |keys| ensures Agrees(v, keys[k], nodes[k].path) {
        assert nodes[k].path[..1] == [name];
        JoinedAgrees(v, keys[k], nodes[k].path);
      }
    }
  }

  lemma EmptyPrefix(c: Toml)
    requires c.Table?
    ensures ShortPrefix(c, "", [""], 1)
  {
  }

  lemma JoinOne(name: string)
    ensures Join([name], '.') == name
  {
  }

  lemma OneStep(v: Toml, i: nat)
    requires Parsed(v) && i < Count(v)
    ensures Follow(v, [Name(v, i)]) == Some(Child(v, i)) && Canonical(v, [Name(v, i)]) == [Name(v, i)]
    ensures Parsed(Child(v, i))
  {
    NameSelects(v, i);
    NameSelected(v, i);
    CanonicalStep(v, [Name(v, i)]);
    NothingFollowed(Child(v, i));
    ChildParsed(v, i);
    assert [Name(v, i)][1..] == [];
  }

  lemma {:induction false} TopAgrees(v: Toml, i: nat)
    requires v.Table? && Parsed(v) && i <= Count(v)
    ensures AllAgree(v, KeysFrom(v, "", i), NodesFrom(v, [], i))
    decreases Count(v) - i
  {
    hide Agrees, Canonical, Join;
    if i < Count(v) {
      assert [] + [Name(v, i)] == [Name(v, i)];
      OneStep(v, i);
      JoinOne(Name(v, i));
      JoinedAgrees(v, Name(v, i), [Name(v, i)]);
      ChildAgrees(v, i);
      TopAgrees(v, i + 1);
    }
  }

  /** For every parsed table, with dots and empty keys allowed: looking up a listed key goes along the path it was
      made from if and only if no key on that path has a dot and the path does not go through an empty key at the
      top; and then it arrives at the node it was listed for. */
  lemma LookupFollowsPathIff(v: Toml, i: nat)
    requires v.Table? && Parsed(v) && i < |Nodes(v, [])|
    ensures |Keys(v, "")| == |Nodes(v, [])| && Agrees(v, Keys(v, "")[i], Nodes(v, [])[i].path)
    ensures var path := Nodes(v, [])[i].path;
            Free(path, '.') && !Hidden(v, path) ==> Lookup(v, Keys(v, "")[i]) == Some(Nodes(v, [])[i].node)
  {
    TopAgrees(v, 0);
    NothingFollowed(v);
    ListedAreReached(v, v, [], 0);
    hide NodesFrom, KeysFrom, Follow, Canonical;
  }

  lemma {:induction false} ListedFrom(v: Toml, path: seq<string>, i: nat, j: nat)
    requires i <= j < Count(v)
    ensures var here := path + [Name(v, j)]; var nodes := NodesFrom(v, path, i);
            Listed(here, Child(v, j)) in nodes && forall e :: e in Nodes(Child(v, j), here) ==> e in nodes
    decreases Count(v) - i
  {
    if i < j {
      ListedFrom(v, path, i + 1, j);
    }
  }

  /** Conversely, whatever can be looked up is listed, under the same path up to the spelling of indices. */
  lemma {:induction false} FoundIsListed(v: Toml, path: seq<string>, parts: seq<string>)
    requires parts != [] && Follow(v, parts).Some?
    ensures Listed(path + Canonical(v, parts), Follow(v, parts).value) in Nodes(v, path)
    decreases |parts|
  {
    hide NodesFrom, Follow, Select, Canonical, Name, Child;
    FollowStep(v, parts);
    CanonicalStep(v, parts);
    var j := Select(v, parts[0]).value;
    var here := path + [Name(v, j)];
    ListedFrom(v, path, 0, j);
    if |parts| == 1 {
      NothingFollowed(Child(v, j));
      assert parts[1..] == [] && [Name(v, j)] + [] == [Name(v, j)];
    } else {
      FoundIsListed(Child(v, j), here, parts[1..]);
      assert here + Canonical(Child(v, j), parts[1..]) == path + Canonical(v, parts);
    }
  }

  /** A table name with a dot, such as a host name, is listed and cannot be looked up. */
  lemma DottedKeyIsLost(node: Toml)
    ensures var v := Table([Entry("nas.local", node)]);
            "nas.local" in Keys(v, "") && Lookup(v, "nas.local") == None
  {
    hide KeysFrom;
    var v := Table([Entry("nas.local", node)]);
    SplitOne("local", '.');
    SplitFirst("nas", "local", '.');
    assert "nas" + ['.'] + "local" == "nas.local";
    KeysStep(v, "", 0);
    assert Keys(v, "")[0] == "nas.local";
    PositionIs(v.entries, "nas");
  }

  /** So are the keys of a table that stands under an empty key: they are listed without their prefix. */
  lemma EmptyKeyIsLost(node: Toml)
    requires Parsed(node) && DotFree(node)
    ensures var v := Table([Entry("", Table([Entry("a", node)]))]);
            Parsed(v) && DotFree(v) && "a" in Keys(v, "") && Lookup(v, "a") == None
  {
    hide KeysFrom;
    var inner := Table([Entry("a", node)]);
    var v := Table([Entry("", inner)]);
    KeysStep(inner, "", 0);
    assert Keys(inner, "")[0] == "a";
    KeysStep(v, "", 0);
    assert Keys(v, "")[1] == "a";
    SplitOne("a", '.');
    PositionIs(v.entries, "a");
  }

  // ---- the loops ---------------------------------------------------------------------------------------------

  lemma KeysStep(v: Toml, prefix: string, i: nat)
    requires i <= Count(v)
    ensures KeysFrom(v, prefix, i) ==
            if i == Count(v) then []
            else [FullKey(v, prefix, i)] + Keys(Child(v, i), FullKey(v, prefix, i)) + KeysFrom(v, prefix, i + 1)
  {
  }

  /** What the loop has collected after one more child */
  lemma KeysCollected(v: Toml, prefix: string, i: nat, before: seq<string>)
    requires i < Count(v)
    ensures var full := FullKey(v, prefix, i);
            before + KeysFrom(v, prefix, i) == before + [full] + Keys(Child(v, i), full) + KeysFrom(v, prefix, i + 1)
  {
    KeysStep(v, prefix, i);
    hide KeysFrom, FullKey, Child, Keys;
  }

  method CollectKeys(value: Toml, prefix: string) returns (keys: seq<string>)
    ensures keys == Keys(value, prefix)
    decreases value
  {
    hide KeysFrom, Decimal;
    keys := [];
    KeysStep(value, prefix, Count(value));
    if value.Table? {
      var i := 0;
      while i < |value.entries|
        invariant i <= |value.entries| && keys + KeysFrom(value, prefix, i) == Keys(value, prefix)
      {
        var e := value.entries[i];
        var fullKey := if prefix == "" then e.key else prefix + "." + e.key;
        KeysCollected(value, prefix, i, keys);
        keys := keys + [fullKey];
        var below := CollectKeys(e.value, fullKey);
        keys := keys + below;
        i := i + 1;
      }
    } else if value.Array? {
      var i := 0;
      while i < |value.items|
        invariant i <= |value.items| && keys + KeysFrom(value, prefix, i) == Keys(value, prefix)
      {
        var fullKey := prefix + "." + Decimal(i);
        KeysCollected(value, prefix, i, keys);
        keys := keys + [fullKey];
        var below := CollectKeys(value.items[i], fullKey);
        keys := keys + below;
        i := i + 1;
      }
    }
  }

  method GetNestedValue(value: Toml, key: string) returns (found: Option<Toml>)
    ensures found == Lookup(value, key)
  {
    var parts := Split(key, '.');
    var current := value;
    var i := 0;
    while i < |parts|
      invariant i <= |parts| && Follow(current, parts[i..]) == Lookup(value, key)
    {
      SelectIsChild(current, parts[i]);
      var selected := Select(current, parts[i]);
      if selected.None? {
        return None;
      }
      current := Child(current, selected.value);
      i := i + 1;
    }
    return Some(current);
  }
}
