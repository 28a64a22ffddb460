/** `MountOptionParser` as it runs: the parsing loop, the defaults and the printing loop, each proved
    against the functions of `OptionParsing` and `OptionRoundTrip`; and option strings on which the
    laws need their conditions. */
module MountOptionParser {
  import opened Wrappers
  import opened Text
  import opened OptionKeys
  import opened OptionParsing
  import opened OptionRoundTrip
  import opened OptionReparse
  import opened OptionOrder

  method ParseOptions(s: string, fs: string) returns (r: Result<MountOptions, OptionError>)
    ensures r == Parse(s, fs)
    ensures r.Ok? ==> CleanMap(r.value.options) && HasDefaults(r.value.options, fs)
  {
    hide Process, Token, Validate, ApplyDefaults, Raw, CleanMap, HasDefaults;
    var raw := Raw(s);
    var st := START;
    var i := 0;
    while i < |raw|
      invariant 0 <= i <= |raw|
      invariant Fold(Tokens(raw[..i])) == Ok(st)
    {
      assert raw[..i + 1][..i] == raw[..i];
      if raw[i] != "" {
        var o := Token(raw[i]);
        assert Tokens(raw[..i + 1]) == Tokens(raw[..i]) + [o];
        FoldSnoc(Tokens(raw[..i]), o);
        var next := Process(st, o);
        if next.Err? {
          assert raw == raw[..i + 1] + raw[i + 1..];
          TokensConcat(raw[..i + 1], raw[i + 1..]);
          FoldErrStays(Tokens(raw[..i + 1]), Tokens(raw[i + 1..]));
          return Err(next.error);
        }
        st := next.value;
      }
      i := i + 1;
    }
    assert raw[..i] == raw;
    st := FillDefaults(st, fs);
    var v := Validate(st, fs);
    if v.Err? {
      return Err(v.error);
    }
    ParsedIsClean(s, fs);
    return Ok(MountOptions(raw, st.options, NormalizeFsType(fs), st.security, st.performance));
  }

  lemma FoldSnoc(opts: seq<Opt>, o: Opt)
    ensures Fold(opts + [o]) == if Fold(opts).Err? then Fold(opts) else Process(Fold(opts).value, o)
  {
    assert (opts + [o])[..|opts|] == opts;
  }

  /** The loop stops at the first error. */
  lemma {:induction false} FoldErrStays(a: seq<Opt>, b: seq<Opt>)
    requires Fold(a).Err?
    ensures Fold(a + b) == Fold(a)
  {
    if b == [] {
      assert a + b == a;
    } else {
      FoldErrStays(a, b[..|b| - 1]);
      assert a + b == (a + b[..|b| - 1]) + [b[|b| - 1]];
      FoldSnoc(a + b[..|b| - 1], b[|b| - 1]);
    }
  }

  /** `apply_defaults`, assignment by assignment */
  method FillDefaults(before: Parsed, fs: string) returns (after: Parsed)
    ensures after == ApplyDefaults(before, fs)
  {
    hide FillIn, FillAll;
    var options, security, performance := before.options, before.security, before.performance;
    if fs == "nfs" {
      FillSix(before, HARD, INTR, RSIZE, WSIZE, TIMEO, RETRANS);
      options, performance := FillBehaviour(options, security, performance);
      options, performance := FillSizes(options, security, performance);
      options, performance := FillTimes(options, security, performance);
    } else if fs == "cifs" || fs == "smbfs" {
      FillThree(before, RW, RSIZE, WSIZE);
      FillFlagIs(before, Rw, Ro);
      if Rw !in options && Ro !in options {
        options := options[Rw := ""];
        security := security.(readOnly := false);
      }
      options, performance := FillSizes(options, security, performance);
    } else if fs == "sshfs" {
      FillTwo(before, ALLOW, PERMISSIONS);
      assert {AllowOther} == {AllowOther, AllowOther};
      assert {DefaultPermissions} == {DefaultPermissions, DefaultPermissions};
      FillFlagIs(before, AllowOther, AllowOther);
      if AllowOther !in options {
        options := options[AllowOther := ""];
      }
      FillFlagIs(Parsed(options, security, performance), DefaultPermissions, DefaultPermissions);
      if DefaultPermissions !in options {
        options := options[DefaultPermissions := ""];
      }
    } else {
      FillNone(before);
    }
    after := Parsed(options, security, performance);
  }

  lemma FillNone(st: Parsed)
    ensures FillAll(st, []) == st
  {
  }

  lemma FillNext(st: Parsed, d: Default, ds: seq<Default>)
    ensures FillAll(st, [d] + ds) == FillAll(FillIn(st, d), ds)
  {
    assert ([d] + ds)[1..] == ds;
  }

  lemma FillTwo(st: Parsed, a: Default, b: Default)
    ensures FillAll(st, [a, b]) == FillIn(FillIn(st, a), b)
  {
    hide FillIn, FillAll;
    assert [a, b] == [a] + [b] && [b] == [b] + [];
    FillNext(st, a, [b]);
    FillNext(FillIn(st, a), b, []);
    FillNone(FillIn(FillIn(st, a), b));
  }

  lemma FillThree(st: Parsed, a: Default, b: Default, c: Default)
    ensures FillAll(st, [a, b, c]) == FillIn(FillIn(FillIn(st, a), b), c)
  {
    hide FillIn, FillAll;
    assert [a, b, c] == [a] + [b, c];
    FillNext(st, a, [b, c]);
    FillTwo(FillIn(st, a), b, c);
  }

  lemma FillSix(st: Parsed, a: Default, b: Default, c: Default, d: Default, e: Default, f: Default)
    ensures FillAll(st, [a, b, c, d, e, f]) == FillIn(FillIn(FillIn(FillIn(FillIn(FillIn(st, a), b), c), d), e), f)
  {
    hide FillIn, FillAll;
    assert [a, b, c, d, e, f] == [a] + [b, c, d, e, f] && [b, c, d, e, f] == [b] + [c, d, e, f];
    assert [c, d, e, f] == [c] + [d, e, f];
    FillNext(st, a, [b, c, d, e, f]);
    FillNext(FillIn(st, a), b, [c, d, e, f]);
    FillNext(FillIn(FillIn(st, a), b), c, [d, e, f]);
    FillThree(FillIn(FillIn(FillIn(st, a), b), c), d, e, f);
  }

  method FillBehaviour(before: map<Key, string>, ghost security: Security, performance: Performance)
    returns (options: map<Key, string>, performance': Performance)
    ensures Parsed(options, security, performance') == FillIn(FillIn(Parsed(before, security, performance), HARD), INTR)
  {
    hide FillIn;
    options, performance' := before, performance;
    FillFlagIs(Parsed(options, security, performance'), Hard, Soft);
    if Hard !in options && Soft !in options {
      options := options[Hard := ""];
      performance' := performance'.(soft := false);
    }
    FillFlagIs(Parsed(options, security, performance'), Intr, Nointr);
    if Intr !in options && Nointr !in options {
      options := options[Intr := ""];
      performance' := performance'.(intr := true);
    }
  }

  method FillSizes(before: map<Key, string>, ghost security: Security, performance: Performance)
    returns (options: map<Key, string>, performance': Performance)
    ensures Parsed(options, security, performance')
         == FillIn(FillIn(Parsed(before, security, performance), RSIZE), WSIZE)
  {
    hide FillIn;
    options, performance' := before, performance;
    FillSizeIs(Parsed(options, security, performance'), Rsize);
    if Rsize !in options {
      options := options[Rsize := "1048576"];
      performance' := performance'.(rsize := Some(1048576));
    }
    FillSizeIs(Parsed(options, security, performance'), Wsize);
    if Wsize !in options {
      options := options[Wsize := "1048576"];
      performance' := performance'.(wsize := Some(1048576));
    }
  }

  method FillTimes(before: map<Key, string>, ghost security: Security, performance: Performance)
    returns (options: map<Key, string>, performance': Performance)
    ensures Parsed(options, security, performance')
         == FillIn(FillIn(Parsed(before, security, performance), TIMEO), RETRANS)
  {
    hide FillIn;
    options, performance' := before, performance;
    FillNumberIs(Parsed(options, security, performance'), Timeo, 600);
    if Timeo !in options {
      options := options[Timeo := "600"];
      performance' := performance'.(timeo := Some(600));
    }
    FillNumberIs(Parsed(options, security, performance'), Retrans, 2);
    if Retrans !in options {
      options := options[Retrans := "2"];
      performance' := performance'.(retrans := Some(2));
    }
  }

  lemma FillFlagIs(st: Parsed, k: Key, other: Key)
    requires k != Ro && (k == Rw ==> other == Ro)
    ensures FillIn(st, Default({k, other}, Flag(k))) ==
            if k in st.options || other in st.options then st
            else Parsed(st.options[k := ""], FlagSecurity(st.security, k), FlagPerformance(st.performance, k))
  {
    assert k in {k, other} && other in {k, other};
    hide FlagSecurity, FlagPerformance;
  }

  lemma FillSizeIs(st: Parsed, k: Key)
    requires k == Rsize || k == Wsize
    ensures FillIn(st, Default({k}, Pair(k, ONE_MEGABYTE))) ==
            if k in st.options then st
            else st.(options := st.options[k := "1048576"],
                     performance := if k == Rsize then st.performance.(rsize := Some(1048576))
                                    else st.performance.(wsize := Some(1048576)))
  {
    OneMegabyte();
    hide ParseSize, Decimal, FillIn;
    ParseSizeDecimal(1048576);
    FillCanonicalSize(st, k, 1048576);
  }

  lemma FillCanonicalSize(st: Parsed, k: Key, n: nat)
    requires (k == Rsize || k == Wsize) && ParseSize(Decimal(n)) == Some(n)
    ensures FillIn(st, Default({k}, Pair(k, Decimal(n)))) ==
            if k in st.options then st
            else st.(options := st.options[k := Decimal(n)],
                     performance := if k == Rsize then st.performance.(rsize := Some(n))
                                    else st.performance.(wsize := Some(n)))
  {
    hide ParseSize, Decimal;
    assert k in {k};
  }

  lemma FillNumberIs(st: Parsed, k: Key, n: nat)
    requires (k == Timeo && n == 600) || (k == Retrans && n == 2)
    ensures var v := if k == Timeo then "600" else "2";
            FillIn(st, Default({k}, Pair(k, v))) ==
            if k in st.options then st
            else st.(options := st.options[k := v],
                     performance := if k == Timeo then st.performance.(timeo := Some(n))
                                    else st.performance.(retrans := Some(n)))
  {
    DefaultNumbers();
    hide ParseU32;
    assert k in {k};
  }

  lemma DefaultNumbers()
    ensures ParseU32("600") == Some(600) && ParseU32("2") == Some(2)
  {
    assert "600" == Decimal(600) && "2" == Decimal(2);
    ParseDecimal(600, U32);
    ParseDecimal(2, U32);
  }

  // ---- format ------------------------------------------------------------------------------------

  /** `format`: the entries of the hash map come in any order, are sorted by key and joined. */
  method Format(options: map<Key, string>) returns (s: string)
    requires forall k :: k in options ==> WellSpelled(k)
    ensures Prints(options, s)
  {
    hide Sorted, Join, Spell;
    var ks := SortedKeys(options);
    var formatted: seq<string> := [];
    var i := 0;
    assert forall j :: 0 <= j < |ks| ==> ks[j] in options by {
      forall j | 0 <= j < |ks| ensures ks[j] in options { assert ks[j] in ks; }
    }
    while i < |ks|
      invariant 0 <= i <= |ks|
      invariant formatted == Pieces(options, ks[..i])
    {
      var k, v := ks[i], options[ks[i]];
      PiecesSnoc(options, ks, i);
      formatted := formatted + [if v == "" then Spell(k) else Spell(k) + "=" + v];
      i := i + 1;
    }
    assert ks[..i] == ks;
    s := Join(formatted, ',');
  }

  lemma PiecesSnoc(m: map<Key, string>, ks: seq<Key>, i: nat)
    requires i < |ks| && forall j :: 0 <= j < |ks| ==> ks[j] in m
    ensures Pieces(m, ks[..i + 1]) == Pieces(m, ks[..i]) + [Piece(ks[i], m[ks[i]])]
  {
  }

  method SortedKeys(options: map<Key, string>) returns (ks: seq<Key>)
    requires forall k :: k in options ==> WellSpelled(k)
    ensures Sorted(ks) && Lists(ks, options.Keys)
  {
    ks := [];
    var rest := options.Keys;
    assert Sorted(ks);
    hide Sorted, WellSpelled;
    while rest != {}
      invariant rest <= options.Keys && Sorted(ks)
      invariant forall k :: k in options <==> k in rest || k in ks
      invariant forall k :: k in ks ==> k !in rest
      decreases rest
    {
      var k :| k in rest;
      ks := Insert(ks, k);
      rest := rest - {k};
    }
  }

  /** One insertion of `sort_by_key` */
  method Insert(ks: seq<Key>, k: Key) returns (r: seq<Key>)
    requires Sorted(ks) && WellSpelled(k) && k !in ks && forall j :: j in ks ==> WellSpelled(j)
    ensures Sorted(r) && forall j :: j in r <==> j in ks || j == k
  {
    hide LexLess, Spell, Classify;
    var i := 0;
    while i < |ks| && LexLess(Spell(ks[i]), Spell(k))
      invariant 0 <= i <= |ks|
      invariant forall j :: 0 <= j < i ==> LexLess(Spell(ks[j]), Spell(k))
    {
      i := i + 1;
    }
    r := ks[..i] + [k] + ks[i..];
    forall j | i <= j < |ks| ensures LexLess(Spell(k), Spell(ks[j])) {
      assert ks[i] in ks;
      LexTotal(Spell(ks[i]), Spell(k));
      SpelledApart(ks[i], k);
      if i < j { LexTransitive(Spell(k), Spell(ks[i]), Spell(ks[j])); }
    }
    assert ks == ks[..i] + ks[i..];
  }

  lemma SpelledApart(j: Key, k: Key)
    requires WellSpelled(j) && WellSpelled(k) && j != k
    ensures Spell(j) != Spell(k)
  {
    if Spell(j) == Spell(k) {
      SpellInjective(j, k);
    }
  }

  // ---- the two laws on the methods ------------------------------------------------------------------

  /** Parse, print what was accepted, and parse that: the same options come back if and only if they are
      reparsable, and the same typed records too if and only if these are what the options denote. */
  method Reparse(s: string, fs: string)
    returns (first: Result<MountOptions, OptionError>, printed: string, second: Result<MountOptions, OptionError>)
    ensures first == Parse(s, fs)
    ensures first.Ok? ==>
              var r := first.value;
              && Prints(r.options, printed) && second == Parse(printed, fs)
              && (second.Ok? && second.value.options == r.options <==> Reparsable(r.options))
              && (SameOutcome(second, first) <==>
                    Reparsable(r.options) && DenotedBy(r.options, r.security, r.performance))
  {
    hide Parse, Prints, Reparsable, CleanMap, HasDefaults, SameOutcome, DenotedBy;
    first := ParseOptions(s, fs);
    printed, second := "", first;
    if first.Ok? {
      CleanKeys(first.value.options);
      printed := Format(first.value.options);
      second := ParseOptions(printed, fs);
      ReparseExact(s, fs, printed);
      RecordsSurviveExact(s, fs, printed);
    }
  }

  lemma CleanKeys(m: map<Key, string>)
    requires CleanMap(m)
    ensures forall k :: k in m ==> WellSpelled(k)
  {
  }

  /** Parse two permutations of a list without repeated keys: without conflicts they have the same outcome. */
  method ParseReordered(s: string, t: string, fs: string)
    returns (a: Result<MountOptions, OptionError>, b: Result<MountOptions, OptionError>)
    requires IsPermutation(s, t) && DistinctKeys(Tokens(Raw(s)))
    ensures NoConflict(Tokens(Raw(s))) ==> SameOutcome(a, b)
  {
    hide Parse, Raw, Tokens, SameOutcome, NoConflict, DistinctKeys, CleanMap, HasDefaults, IsPermutation;
    a := ParseOptions(s, fs);
    b := ParseOptions(t, fs);
    if NoConflict(Tokens(Raw(s))) {
      NoConflictSameOutcome(s, t, fs);
    }
  }

  // ---- strings that need the conditions ------------------------------------------------------------

  lemma TwoPieces(a: string, b: string)
    requires a != "" && b != "" && ',' !in a && ',' !in b && Tight(a) && Tight(b)
    ensures Tokens(Raw(Join([a, b], ','))) == [Token(a), Token(b)]
  {
    SplitJoinFree([a, b], ',');
    TrimTight(a);
    TrimTight(b);
    assert Raw(Join([a, b], ',')) == [a, b];
    assert [a, b][..1] == [a] && [a][..0] == [];
    assert Tokens([a]) == [Token(a)];
    assert Tokens([a, b]) == Tokens([a]) + [Token(b)];
  }

  lemma FoldTwo(a: Opt, b: Opt)
    requires Process(START, a).Ok? && Process(Process(START, a).value, b).Ok?
    ensures Fold([a, b]) == Process(Process(START, a).value, b)
  {
    assert [a, b] == [] + [a] + [b];
    FoldSnoc([], a);
    FoldSnoc([a], b);
  }

  /** A file system type without defaults or checks of its own */
  lemma PlainFileSystem(raw: seq<string>, st: Parsed)
    requires !(st.security.readOnly && Rw in st.options) && st.performance.timeo == None
    ensures Conclude(raw, Ok(st), "smb") == Ok(MountOptions(raw, st.options, "smb", st.security, st.performance))
  {
  }

  const RW_THEN_RO_VALUE := Join(["rw", "ro=x"], ',')

  lemma RwThenRoValueTokens()
    ensures Tokens(Raw(RW_THEN_RO_VALUE)) == [Flag(Rw), Pair(Ro, "x")]
  {
    assert "ro=x" == "ro" + "=" + "x";
    FirstEquals("ro", "x");
    assert Token("ro=x") == Pair(Ro, "x") && Token("rw") == Flag(Rw);
    hide Token, Raw, Tokens, Join;
    TwoPieces("rw", "ro=x");
  }

  lemma RwThenRoValueParsed()
    ensures var r := Parse(RW_THEN_RO_VALUE, "smb");
            r.Ok? && Rw in r.value.options && r.value.options[Rw] == "" && Ro in r.value.options
  {
    hide Token, Raw, Tokens, Fold, Conclude, Join;
    RwThenRoValueTokens();
    FoldTwo(Flag(Rw), Pair(Ro, "x"));
    PlainFileSystem(Raw(RW_THEN_RO_VALUE), Fold([Flag(Rw), Pair(Ro, "x")]).value);
  }

  /** "rw,ro=x" is accepted, because only flags are checked against each other; printed, it does not
      come back. */
  lemma RwThenRoValueIsLost(t: string)
    requires Parse(RW_THEN_RO_VALUE, "smb").Ok? ==> Prints(Parse(RW_THEN_RO_VALUE, "smb").value.options, t)
    ensures Parse(RW_THEN_RO_VALUE, "smb").Ok?
    ensures Parse(t, "smb").Err? || Parse(t, "smb").value.options != Parse(RW_THEN_RO_VALUE, "smb").value.options
  {
    RwThenRoValueParsed();
    hide Parse, Prints, FlagsPrintable, ParseU32;
    ReparseExact(RW_THEN_RO_VALUE, "smb", t);
  }

  const SOFT_HARD := Join(["soft", "hard"], ',')
  const HARD_SOFT := Join(["hard", "soft"], ',')

  lemma FlagPairParsed(a: string, x: Key, b: string, y: Key)
    requires a != "" && b != "" && ',' !in a && ',' !in b && Tight(a) && Tight(b)
    requires Token(a) == Flag(x) && Token(b) == Flag(y) && x in {Soft, Hard} && y in {Soft, Hard}
    ensures var r := Parse(Join([a, b], ','), "smb");
            r.Ok? && r.value.options == map[x := "", y := ""] && r.value.performance.soft == (y == Soft)
  {
    TwoPieces(a, b);
    hide Token, Raw, Tokens, Fold, Conclude, Tight, Join;
    FoldTwo(Flag(x), Flag(y));
    PlainFileSystem(Raw(Join([a, b], ',')), Fold([Flag(x), Flag(y)]).value);
  }

  /** With contradictory flags the last one wins, so order matters, and printing them sorted turns a
      hard mount into a soft one. */
  lemma ContradictoryFlags(t: string)
    requires Parse(SOFT_HARD, "smb").Ok? ==> Prints(Parse(SOFT_HARD, "smb").value.options, t)
    ensures Parse(SOFT_HARD, "smb").Ok? && !Parse(SOFT_HARD, "smb").value.performance.soft
    ensures Parse(HARD_SOFT, "smb").Ok? && Parse(HARD_SOFT, "smb").value.performance.soft
    ensures Parse(t, "smb").Ok? && Parse(t, "smb").value.performance.soft
  {
    SoftHardParsed();
    hide Parse, CleanMap, Prints, FlagsPrintable, HasDefaults;
    var m := Parse(SOFT_HARD, "smb").value.options;
    ParsedIsClean(SOFT_HARD, "smb");
    SoftHardPrintable(m);
    SoftHardReparsed(m, t);
  }

  lemma SoftHardParsed()
    ensures var r := Parse(SOFT_HARD, "smb");
            r.Ok? && r.value.options == map[Soft := "", Hard := ""] && !r.value.performance.soft
    ensures var r := Parse(HARD_SOFT, "smb"); r.Ok? && r.value.performance.soft
  {
    assert Token("soft") == Flag(Soft) && Token("hard") == Flag(Hard);
    hide Token, Parse, Join;
    FlagPairParsed("soft", Soft, "hard", Hard);
    FlagPairParsed("hard", Hard, "soft", Soft);
  }

  lemma SoftHardPrintable(m: map<Key, string>)
    requires m == map[Soft := "", Hard := ""]
    ensures FlagsPrintable(m)
  {
  }

  lemma SoftHardReparsed(m: map<Key, string>, t: string)
    requires m == map[Soft := "", Hard := ""] && CleanMap(m) && FlagsPrintable(m) && Prints(m, t)
    ensures Parse(t, "smb").Ok? && Parse(t, "smb").value.performance.soft
  {
    hide Parse, CleanMap, Prints, FlagsPrintable, Validate, Denote;
    assert HasDefaults(m, "smb");
    ReparseOutcome(m, t, "smb");
    PrintedRecords(m);
    PrintedMeaning(m);
    PlainValid(m);
  }

  lemma PlainValid(m: map<Key, string>)
    requires forall k :: k in PrintedEntries(m) ==> GoodValue(PrintedEntries(m)[k])
    requires var e := PrintedEntries(m); !DenoteSecurity(e).readOnly && DenotePerformance(e).soft
    ensures Validate(Denote(PrintedEntries(m)), "smb").Ok?
    ensures Denote(PrintedEntries(m)).performance.soft
  {
    hide DenoteSecurity, DenotePerformance, GoodValue, PrintedEntries, Stored;
  }
}
