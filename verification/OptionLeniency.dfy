/** When some order of an option list is accepted: the order that puts `hard` before `soft` and the flag `rw` before
    an `ro` with a value is accepted whenever any is. */
module OptionLeniency {
  import opened Wrappers
  import opened Text
  import opened OptionKeys
  import opened OptionParsing
  import opened OptionRoundTrip
  import opened OptionReparse
  import opened OptionOrder

  /** All values parse, no flag `ro` stands beside an `rw`, and the meaning of the set, in which `soft` wins over
      `hard`, passes the validation. */
  ghost predicate Lenient(e: map<Key, Opt>, fs: string) {
    && (forall k :: k in e ==> GoodValue(e[k]))
    && !(IsFlag(e, Ro) && Rw in e)
    && Validate(ApplyDefaults(Denote(e), fs), fs).Ok?
  }

  // ---- no order is more lenient -----------------------------------------------------------------------------

  /** Alike in all that validation looks at, except that only the second may be a soft mount */
  predicate Harsher(a: Parsed, b: Parsed) {
    && a.options == b.options && a.security.readOnly == b.security.readOnly
    && a.performance.timeo == b.performance.timeo && a.performance.nfsvers == b.performance.nfsvers
    && a.performance.rsize == b.performance.rsize && a.performance.wsize == b.performance.wsize
    && (a.performance.soft ==> b.performance.soft)
  }

  lemma NewLookups(e: map<Key, Opt>, o: Opt)
    requires o.key !in e
    ensures var f := e[o.key := o];
            && (forall k :: IsFlag(f, k) == if k == o.key then o.Flag? else IsFlag(e, k))
            && (forall k :: U32Of(f, k)
                 == if k != o.key then U32Of(e, k) else if o.Pair? then ParseU32(o.value) else None)
            && (forall k :: SizeOf(f, k)
                 == if k != o.key then SizeOf(e, k) else if o.Pair? then ParseSize(o.value) else None)
    ensures !IsFlag(e, o.key) && U32Of(e, o.key) == None && SizeOf(e, o.key) == None
  {
    hide ParseU32, ParseSize;
  }

  lemma FlagWrites(sec: Security, perf: Performance, key: Key)
    ensures FlagSecurity(sec, key).readOnly == (key == Ro || (key != Rw && sec.readOnly))
    ensures var p := FlagPerformance(perf, key);
            && p.timeo == perf.timeo && p.nfsvers == perf.nfsvers && p.rsize == perf.rsize && p.wsize == perf.wsize
            && p.soft == (key == Soft || (key != Hard && perf.soft))
  {
  }

  lemma PairWrites(sec: Security, perf: Performance, key: Key, value: string)
    requires PairSecurity(sec, key, value).Some? && PairPerformance(perf, key, value).Some?
    ensures PairSecurity(sec, key, value).value.readOnly == sec.readOnly
    ensures var p := PairPerformance(perf, key, value).value;
            && p.timeo == (if key == Timeo then ParseU32(value) else perf.timeo)
            && p.nfsvers == (if key == Nfsvers then ParseU32(value) else perf.nfsvers)
            && p.rsize == (if key == Rsize then ParseSize(value) else perf.rsize)
            && p.wsize == (if key == Wsize then ParseSize(value) else perf.wsize)
            && p.soft == perf.soft
  {
    hide ParseU32, ParseMode, ParseSize, IsNfsVersion, IsSmbVersion;
  }

  /** What validation looks at in the meaning of a set */
  lemma DenoteIs(e: map<Key, Opt>)
    requires forall k :: k in e ==> GoodValue(e[k])
    ensures var d := Denote(e);
            && d.options.Keys == e.Keys && d.security.readOnly == IsFlag(e, Ro) && d.performance.soft == IsFlag(e, Soft)
            && d.performance.timeo == U32Of(e, Timeo) && d.performance.nfsvers == U32Of(e, Nfsvers)
            && d.performance.rsize == SizeOf(e, Rsize) && d.performance.wsize == SizeOf(e, Wsize)
  {
    hide GoodValue, Stored, IsFlag, Given, U32Of, SizeOf, ModeOf, IsNfsVersion, IsSmbVersion;
  }

  lemma NoFlag(e: map<Key, Opt>, k: Key)
    requires k !in e
    ensures !IsFlag(e, k)
  {
  }

  lemma FlagIsDenoted(st: Parsed, e: map<Key, Opt>, key: Key)
    requires var f := e[key := Flag(key)];
             (forall k :: k in e ==> GoodValue(e[k])) && (forall k :: k in f ==> GoodValue(f[k])) && key !in e
    requires Harsher(st, Denote(e)) && ProcessFlag(st, key).Ok?
    requires ProcessFlag(st, key).value.options == Denote(e[key := Flag(key)]).options
    ensures Harsher(ProcessFlag(st, key).value, Denote(e[key := Flag(key)]))
  {
    hide GoodValue, Stored, Denote, IsFlag, U32Of, SizeOf, FlagSecurity, FlagPerformance;
    DenoteIs(e);
    DenoteIs(e[key := Flag(key)]);
    NewLookups(e, Flag(key));
    FlagWrites(st.security, st.performance, key);
    if key == Rw {
      NoFlag(e, Ro);
    }
  }

  lemma PairIsDenoted(st: Parsed, e: map<Key, Opt>, key: Key, value: string)
    requires var f := e[key := Pair(key, value)];
             (forall k :: k in e ==> GoodValue(e[k])) && (forall k :: k in f ==> GoodValue(f[k])) && key !in e
    requires Harsher(st, Denote(e)) && ProcessPair(st, key, value).Ok?
    requires ProcessPair(st, key, value).value.options == Denote(e[key := Pair(key, value)]).options
    ensures Harsher(ProcessPair(st, key, value).value, Denote(e[key := Pair(key, value)]))
  {
    hide GoodValue, Stored, Denote, IsFlag, U32Of, SizeOf, ProcessPair, PairSecurity, PairPerformance, ParseU32,
         ParseSize;
    DenoteIs(e);
    DenoteIs(e[key := Pair(key, value)]);
    NewLookups(e, Pair(key, value));
    PairProcessed(st, key, value);
    PairWrites(st.security, st.performance, key, value);
  }

  lemma ProcessIsDenoted(st: Parsed, e: map<Key, Opt>, o: Opt)
    requires (forall k :: k in e ==> GoodValue(e[k])) && o.key !in e
    requires Harsher(st, Denote(e)) && Process(st, o).Ok?
    ensures var f := e[o.key := o];
            (forall k :: k in f ==> GoodValue(f[k])) && Harsher(Process(st, o).value, Denote(f))
  {
    hide GoodValue, Stored, Denote, ProcessFlag, ProcessPair;
    ProcessStores(st, o);
    OptionsExtended(e, o);
    if o.Flag? {
      FlagIsDenoted(st, e, o.key);
    } else {
      PairIsDenoted(st, e, o.key, o.value);
    }
  }

  lemma PairProcessed(st: Parsed, key: Key, value: string)
    requires ProcessPair(st, key, value).Ok?
    ensures PairSecurity(st.security, key, value).Some? && PairPerformance(st.performance, key, value).Some?
    ensures ProcessPair(st, key, value).value.security == PairSecurity(st.security, key, value).value
    ensures ProcessPair(st, key, value).value.performance == PairPerformance(st.performance, key, value).value
  {
    hide PairSecurity, PairPerformance, ParseSize, Decimal;
  }

  /** Whatever the order, the loop arrives at nothing that validation prefers to the meaning of the set. */
  lemma {:induction false} FoldIsHarsher(opts: seq<Opt>)
    requires DistinctKeys(opts) && Fold(opts).Ok?
    ensures var e := Entries(opts);
            (forall k :: k in e ==> GoodValue(e[k])) && Harsher(Fold(opts).value, Denote(e))
  {
    hide Fold, GoodValue, Harsher, Denote, Process;
    if opts == [] {
      NothingIsHarsher();
    } else {
      var init, o := opts[..|opts| - 1], opts[|opts| - 1];
      FoldPrefix(opts);
      FoldIsHarsher(init);
      ProcessIsDenoted(Fold(init).value, Entries(init), o);
    }
  }

  lemma NothingIsHarsher()
    ensures Fold([]).Ok? && Harsher(Fold([]).value, Denote(map[]))
  {
  }

  lemma PairAlike(a: Parsed, b: Parsed, key: Key, value: string)
    ensures PairSecurity(a.security, key, value).Some? <==> PairSecurity(b.security, key, value).Some?
    ensures PairPerformance(a.performance, key, value).Some? <==> PairPerformance(b.performance, key, value).Some?
  {
    hide ParseU32, ParseSize, ParseMode, IsNfsVersion, IsSmbVersion;
  }

  lemma ProcessIsHarsher(a: Parsed, b: Parsed, o: Opt)
    requires Harsher(a, b)
    ensures Process(a, o).Ok? <==> Process(b, o).Ok?
    ensures Process(a, o).Ok? ==> Harsher(Process(a, o).value, Process(b, o).value)
  {
    if o.Flag? {
      FlagWrites(a.security, a.performance, o.key);
      FlagWrites(b.security, b.performance, o.key);
    } else {
      PairAlike(a, b, o.key, o.value);
      if Process(a, o).Ok? {
        PairProcessed(a, o.key, o.value);
        PairProcessed(b, o.key, o.value);
        PairWrites(a.security, a.performance, o.key, o.value);
        PairWrites(b.security, b.performance, o.key, o.value);
      }
    }
    hide FlagSecurity, FlagPerformance, PairSecurity, PairPerformance, ParseU32, ParseSize, Decimal;
  }

  lemma {:induction false} FillAllIsHarsher(a: Parsed, b: Parsed, ds: seq<Default>)
    requires Harsher(a, b)
    ensures Harsher(FillAll(a, ds), FillAll(b, ds))
    decreases |ds|
  {
    hide Process;
    if ds != [] {
      ProcessIsHarsher(a, b, ds[0].option);
      FillAllIsHarsher(FillIn(a, ds[0]), FillIn(b, ds[0]), ds[1..]);
    }
  }

  lemma HarsherValidates(a: Parsed, b: Parsed, fs: string)
    requires Harsher(a, b) && Validate(a, fs).Ok?
    ensures Validate(b, fs).Ok?
  {
  }

  lemma AcceptedIsLenient(s: string, fs: string)
    requires DistinctKeys(Tokens(Raw(s))) && Parse(s, fs).Ok?
    ensures Lenient(Entries(Tokens(Raw(s))), fs)
  {
    var opts := Tokens(Raw(s));
    var e := Entries(opts);
    hide Raw, Tokens, Fold, Parse, Denote, GoodValue, Validate, FillAll, DefaultsOf, Harsher, DistinctKeys;
    ParseParts(s, fs);
    FoldIsHarsher(opts);
    FillAllIsHarsher(Fold(opts).value, Denote(e), DefaultsOf(fs));
    HarsherValidates(ApplyDefaults(Fold(opts).value, fs), ApplyDefaults(Denote(e), fs), fs);
    if IsFlag(e, Ro) && Rw in e {
      var i :| 0 <= i < |opts| && opts[i] == e[Ro];
      var j :| 0 <= j < |opts| && opts[j] == e[Rw];
      ReadOnlyWithRwRejected(s, fs, i, j);
    }
  }

  // ---- the lenient order --------------------------------------------------------------------------------------

  /** In the lenient order the options of a lower rank come first. */
  function Rank(o: Opt): (r: nat)
    ensures r < 3
  {
    if o.Pair? && o.key == Ro then 2
    else if o.key in {Soft, Nointr, Suid, Fmode, Dmode, Rw} then 1
    else 0
  }

  ghost predicate Ranked(opts: seq<Opt>) {
    forall i, j :: 0 <= i < j < |opts| ==> Rank(opts[i]) <= Rank(opts[j])
  }

  /** The pieces of one rank, empty pieces counting as rank 0 */
  function OfRank(raw: seq<string>, r: nat): seq<string> {
    if raw == [] then []
    else
      var before, p := OfRank(raw[..|raw| - 1], r), raw[|raw| - 1];
      if (if p == "" then 0 else Rank(Token(p))) == r then before + [p] else before
  }

  function Arranged(raw: seq<string>): seq<string> {
    OfRank(raw, 0) + OfRank(raw, 1) + OfRank(raw, 2)
  }

  lemma {:induction false} ArrangedPermutes(raw: seq<string>)
    ensures multiset(Arranged(raw)) == multiset(raw)
  {
    hide Token, Rank;
    if raw != [] {
      assert raw == raw[..|raw| - 1] + [raw[|raw| - 1]];
      ArrangedPermutes(raw[..|raw| - 1]);
    }
  }

  lemma {:induction false} RankOfTokens(raw: seq<string>, r: nat)
    ensures forall i :: 0 <= i < |Tokens(OfRank(raw, r))| ==> Rank(Tokens(OfRank(raw, r))[i]) == r
  {
    hide Token, Rank;
    if raw != [] {
      RankOfTokens(raw[..|raw| - 1], r);
    }
  }

  lemma ArrangedIsRanked(raw: seq<string>)
    ensures Ranked(Tokens(Arranged(raw)))
  {
    hide Tokens, OfRank, Rank;
    RankOfTokens(raw, 0);
    RankOfTokens(raw, 1);
    RankOfTokens(raw, 2);
    TokensConcat(OfRank(raw, 0), OfRank(raw, 1));
    TokensConcat(OfRank(raw, 0) + OfRank(raw, 1), OfRank(raw, 2));
  }

  lemma ClashIsRanked(first: Opt, second: Opt)
    requires Clash(first, second) && Rank(first) < 2
    ensures Rank(first) < Rank(second)
  {
    hide ParseMode;
  }

  /** Ranked options without an `ro` that has a value: the loop computes the meaning of the set. */
  lemma RankedMeaning(opts: seq<Opt>)
    requires Ranked(opts) && DistinctKeys(opts) && forall i :: 0 <= i < |opts| ==> Rank(opts[i]) < 2
    requires Accepted(Entries(opts))
    ensures Fold(opts) == Ok(Denote(Entries(opts)))
  {
    hide Clash, Rank, Accepted, Denote, Fold;
    forall i, j | 0 <= i < j < |opts| ensures !Clash(opts[j], opts[i]) {
      if Clash(opts[j], opts[i]) {
        ClashIsRanked(opts[j], opts[i]);
      }
    }
    FoldMeaning(opts);
  }

  /** An `ro` with a value is only recorded. */
  lemma RoValueMeaning(e: map<Key, Opt>, value: string)
    requires (forall k :: k in e ==> GoodValue(e[k])) && Ro !in e
    ensures var f := e[Ro := Pair(Ro, value)]; forall k :: k in f ==> GoodValue(f[k])
    ensures Process(Denote(e), Pair(Ro, value)) == Ok(Denote(e[Ro := Pair(Ro, value)]))
  {
    OptionsExtended(e, Pair(Ro, value));
    RoValueIgnored(e, value);
    hide ParseSize, GoodValue, Stored, DenoteSecurity, DenotePerformance;
  }

  lemma RoValueIgnored(e: map<Key, Opt>, value: string)
    requires Ro !in e
    ensures var f := e[Ro := Pair(Ro, value)];
            DenoteSecurity(f) == DenoteSecurity(e) && DenotePerformance(f) == DenotePerformance(e)
  {
    hide IsFlag, Given, ParseU32, ParseSize, ParseMode, IsNfsVersion, IsSmbVersion;
    RoValueLookups(e, value);
  }

  lemma RoValueLookups(e: map<Key, Opt>, value: string)
    requires Ro !in e
    ensures var f := e[Ro := Pair(Ro, value)];
            (forall k :: IsFlag(f, k) == IsFlag(e, k)) && (forall k :: k != Ro ==> Given(f, k) == Given(e, k))
  {
  }

  lemma LenientOrder(opts: seq<Opt>)
    requires Ranked(opts) && DistinctKeys(opts)
    requires var e := Entries(opts); (forall k :: k in e ==> GoodValue(e[k])) && !(IsFlag(e, Ro) && Rw in e)
    ensures Fold(opts) == Ok(Denote(Entries(opts)))
  {
    hide Fold, Denote, GoodValue, Process, Rank;
    if opts == [] || Rank(opts[|opts| - 1]) < 2 {
      LowRanked(opts);
      RankedMeaning(opts);
    } else {
      var init := opts[..|opts| - 1];
      var value := RoValueLast(opts);
      RankedMeaning(init);
      RoValueMeaning(Entries(init), value);
      FoldLast(opts);
    }
  }

  lemma LowRanked(opts: seq<Opt>)
    requires Ranked(opts) && (opts == [] || Rank(opts[|opts| - 1]) < 2)
    requires var e := Entries(opts); (forall k :: k in e ==> GoodValue(e[k])) && !(IsFlag(e, Ro) && Rw in e)
    ensures (forall i :: 0 <= i < |opts| ==> Rank(opts[i]) < 2) && Accepted(Entries(opts))
  {
    hide GoodValue;
    var e := Entries(opts);
    if Ro in e {
      var i :| 0 <= i < |opts| && opts[i] == e[Ro];
      assert e[Ro].Flag?;
    }
  }

  lemma RoValueLast(opts: seq<Opt>) returns (value: string)
    requires Ranked(opts) && DistinctKeys(opts) && opts != [] && Rank(opts[|opts| - 1]) == 2
    requires forall k :: k in Entries(opts) ==> GoodValue(Entries(opts)[k])
    ensures var init := opts[..|opts| - 1]; var e := Entries(init);
            && opts[|opts| - 1] == Pair(Ro, value) && Ro !in e && Entries(opts) == e[Ro := Pair(Ro, value)]
            && Ranked(init) && DistinctKeys(init) && (forall i :: 0 <= i < |init| ==> Rank(init[i]) < 2) && Accepted(e)
  {
    hide GoodValue, Entries;
    var init, last := opts[..|opts| - 1], opts[|opts| - 1];
    value := RoValueIs(last);
    EntriesLast(opts);
    forall i | 0 <= i < |init| ensures init[i].key != Ro && Rank(init[i]) < 2 {
      assert init[i] == opts[i];
      RoRank(init[i]);
    }
  }

  lemma RoValueIs(o: Opt) returns (value: string)
    requires Rank(o) == 2
    ensures o == Pair(Ro, value)
  {
    value := o.value;
  }

  lemma EntriesLast(opts: seq<Opt>)
    requires opts != []
    ensures var last := opts[|opts| - 1]; Entries(opts) == Entries(opts[..|opts| - 1])[last.key := last]
  {
  }

  lemma RoRank(o: Opt)
    requires o.key != Ro
    ensures Rank(o) < 2
  {
  }

  lemma FoldLast(opts: seq<Opt>)
    requires opts != [] && Fold(opts[..|opts| - 1]).Ok?
    ensures Fold(opts) == Process(Fold(opts[..|opts| - 1]).value, opts[|opts| - 1])
  {
  }

  lemma RawNotEmpty(s: string)
    ensures Raw(s) != []
  {
  }

  lemma LenientIsAccepted(s: string, fs: string) returns (t: string)
    requires DistinctKeys(Tokens(Raw(s))) && Lenient(Entries(Tokens(Raw(s))), fs)
    ensures IsPermutation(s, t) && Parse(t, fs).Ok?
  {
    hide Raw, Tokens, Fold, Denote, GoodValue, ApplyDefaults, Validate, Arranged, DistinctKeys, Ranked;
    ArrangedPermutes(Raw(s));
    assert Raw(s) != [] by {
      RawNotEmpty(s);
    }
    t := StringOf(s, Arranged(Raw(s)));
    PermutedTokens(s, t);
    EntriesPermute(Tokens(Raw(t)), Tokens(Raw(s)));
    ArrangedIsRanked(Raw(s));
    LenientOrder(Tokens(Raw(t)));
  }

  /** For distinct keys: no order of an option list is accepted if and only if a value does not parse, a flag `ro`
      stands beside an `rw`, or even the lenient order fails the validation. */
  lemma AllRejectedIff(s: string, fs: string)
    requires DistinctKeys(Tokens(Raw(s)))
    ensures AllRejected(s, fs) <==> !Lenient(Entries(Tokens(Raw(s))), fs)
  {
    hide Raw, Tokens, Parse, Lenient, DistinctKeys;
    if Lenient(Entries(Tokens(Raw(s))), fs) {
      var t := LenientIsAccepted(s, fs);
    } else {
      forall t | IsPermutation(s, t) ensures Parse(t, fs).Err? {
        PermutedTokens(s, t);
        EntriesPermute(Tokens(Raw(t)), Tokens(Raw(s)));
        if Parse(t, fs).Ok? {
          AcceptedIsLenient(t, fs);
        }
      }
    }
  }

  /** For distinct keys: all orders of an option list have the same outcome if and only if no two options in it
      conflict, or not even the lenient order is accepted; for an accepted list, if and only if none conflict. */
  lemma OrderFreeIff(s: string, fs: string)
    requires DistinctKeys(Tokens(Raw(s)))
    ensures OrderFree(s, fs) <==> NoConflict(Tokens(Raw(s))) || !Lenient(Entries(Tokens(Raw(s))), fs)
    ensures Parse(s, fs).Ok? ==> (OrderFree(s, fs) <==> NoConflict(Tokens(Raw(s))))
  {
    hide Raw, Tokens, Parse, Lenient, DistinctKeys, NoConflict, OrderFree;
    OrderMattersIff(s, fs);
    AllRejectedIff(s, fs);
    assert IsPermutation(s, s);
  }
}
