/** What the order of options decides: which of two conflicting options wins, hence exactly when order does not
    matter, and exactly when the typed records survive printing, which sorts the options. */
module OptionOrder {
  import opened Wrappers
  import opened Text
  import opened OptionKeys
  import opened OptionParsing
  import opened OptionRoundTrip
  import opened OptionReparse

  // ---- the last writer of a field wins --------------------------------------------------------------

  /** The fields of the typed records */
  datatype Field = ReadOnlyField | NosuidField | SuidField | NodevField | NoexecField | FmodeField | DmodeField
                 | UidField | GidField | RsizeField | WsizeField | TimeoField | RetransField | SoftField | IntrField
                 | NfsversField | VersField | VersSmbField

  predicate Touches(o: Opt, f: Field) {
    match f
    case ReadOnlyField => o.Flag? && (o.key == Ro || o.key == Rw)
    case NosuidField | SuidField => o.Flag? && (o.key == Nosuid || o.key == Suid)
    case NodevField => o == Flag(Nodev)
    case NoexecField => o == Flag(Noexec)
    case SoftField => o.Flag? && (o.key == Hard || o.key == Soft)
    case IntrField => o.Flag? && (o.key == Intr || o.key == Nointr)
    case FmodeField => o.Pair? && (o.key == FileMode || o.key == Fmode)
    case DmodeField => o.Pair? && (o.key == DirMode || o.key == Dmode)
    case UidField => o.Pair? && o.key == Uid
    case GidField => o.Pair? && o.key == Gid
    case RsizeField => o.Pair? && o.key == Rsize
    case WsizeField => o.Pair? && o.key == Wsize
    case TimeoField => o.Pair? && o.key == Timeo
    case RetransField => o.Pair? && o.key == Retrans
    case NfsversField => o.Pair? && o.key == Nfsvers
    case VersField => o.Pair? && o.key == Vers && IsNfsVersion(o.value)
    case VersSmbField => o.Pair? && o.key == Vers && !IsNfsVersion(o.value) && IsSmbVersion(o.value)
  }

  /** What a field holds */
  datatype Content = Bit(bit: bool) | Number(number: Option<nat>) | Version(version: Option<string>)

  function Read(sec: Security, perf: Performance, f: Field): Content {
    match f
    case ReadOnlyField => Bit(sec.readOnly)
    case NosuidField => Bit(sec.nosuid)
    case SuidField => Bit(sec.suid)
    case NodevField => Bit(sec.nodev)
    case NoexecField => Bit(sec.noexec)
    case SoftField => Bit(perf.soft)
    case IntrField => Bit(perf.intr)
    case FmodeField => Number(sec.fmode)
    case DmodeField => Number(sec.dmode)
    case UidField => Number(sec.uid)
    case GidField => Number(sec.gid)
    case RsizeField => Number(perf.rsize)
    case WsizeField => Number(perf.wsize)
    case TimeoField => Number(perf.timeo)
    case RetransField => Number(perf.retrans)
    case NfsversField => Number(perf.nfsvers)
    case VersField => Version(perf.vers)
    case VersSmbField => Version(perf.versSmb)
  }

  function Written(o: Opt, f: Field): Content
    requires Touches(o, f)
  {
    match f
    case ReadOnlyField => Bit(o.key == Ro)
    case NosuidField => Bit(o.key == Nosuid)
    case SuidField => Bit(o.key == Suid)
    case NodevField | NoexecField => Bit(true)
    case SoftField => Bit(o.key == Soft)
    case IntrField => Bit(o.key == Intr)
    case FmodeField | DmodeField => Number(ParseMode(o.value))
    case RsizeField | WsizeField => Number(ParseSize(o.value))
    case VersField | VersSmbField => Version(Some(o.value))
    case _ => Number(ParseU32(o.value))
  }

  lemma FlagField(sec: Security, perf: Performance, key: Key, f: Field)
    ensures Read(FlagSecurity(sec, key), FlagPerformance(perf, key), f)
         == if Touches(Flag(key), f) then Written(Flag(key), f) else Read(sec, perf, f)
  {
    hide ParseMode;
  }

  lemma PairField(sec: Security, perf: Performance, key: Key, value: string, f: Field)
    requires PairSecurity(sec, key, value).Some? && PairPerformance(perf, key, value).Some?
    ensures Read(PairSecurity(sec, key, value).value, PairPerformance(perf, key, value).value, f)
         == if Touches(Pair(key, value), f) then Written(Pair(key, value), f) else Read(sec, perf, f)
  {
    hide ParseU32, ParseMode, ParseSize, IsNfsVersion, IsSmbVersion;
  }

  lemma ProcessField(st: Parsed, o: Opt, f: Field)
    requires Process(st, o).Ok?
    ensures var t := Process(st, o).value;
            Read(t.security, t.performance, f)
            == if Touches(o, f) then Written(o, f) else Read(st.security, st.performance, f)
  {
    hide PairSecurity, PairPerformance, FlagSecurity, FlagPerformance, Read, Touches, Written, ParseSize;
    match o
    case Flag(key) => FlagField(st.security, st.performance, key, f);
    case Pair(key, value) => PairField(st.security, st.performance, key, value, f);
  }

  lemma FoldPrefix(opts: seq<Opt>)
    requires opts != [] && Fold(opts).Ok?
    ensures var init := Fold(opts[..|opts| - 1]);
            init.Ok? && Process(init.value, opts[|opts| - 1]) == Fold(opts)
  {
  }

  lemma {:induction false} LastWriter(opts: seq<Opt>, j: nat, f: Field)
    requires Fold(opts).Ok? && j < |opts| && Touches(opts[j], f)
    requires forall k :: j < k < |opts| ==> !Touches(opts[k], f)
    ensures var st := Fold(opts).value; Read(st.security, st.performance, f) == Written(opts[j], f)
  {
    hide Fold, Process, Touches, Read, Written;
    var n := |opts| - 1;
    FoldPrefix(opts);
    ProcessField(Fold(opts[..n]).value, opts[n], f);
    if j < n {
      LastWriter(opts[..n], j, f);
    }
  }

  lemma {:induction false} FoldHasKey(opts: seq<Opt>, i: nat)
    requires Fold(opts).Ok? && i < |opts|
    ensures opts[i].key in Fold(opts).value.options
  {
    hide Fold, Process;
    var n := |opts| - 1;
    FoldPrefix(opts);
    ProcessKeys(Fold(opts[..n]).value, opts[n]);
    if i < n {
      FoldHasKey(opts[..n], i);
    }
  }

  /** A flag `ro` or `rw` is rejected after the other key, however that was given. */
  lemma {:induction false} FlagRejected(opts: seq<Opt>, i: nat, j: nat)
    requires i < j < |opts|
    requires (opts[j] == Flag(Rw) && opts[i].key == Ro) || (opts[j] == Flag(Ro) && opts[i].key == Rw)
    ensures Fold(opts).Err?
  {
    hide Fold;
    if Fold(opts).Ok? {
      var n := |opts| - 1;
      FoldPrefix(opts);
      if j == n {
        FoldHasKey(opts[..n], i);
      } else {
        FlagRejected(opts[..n], i, j);
      }
    }
  }

  /** The values of these options as they are recorded */
  ghost predicate Records(m: map<Key, string>, e: map<Key, Opt>) {
    && (forall k :: k in e ==> GoodValue(e[k]))
    && m.Keys == e.Keys && forall k :: k in e ==> m[k] == Stored(e[k])
  }

  lemma RecordsOneMore(m: map<Key, string>, e: map<Key, Opt>, o: Opt)
    requires Records(m, e) && GoodValue(o)
    ensures Records(m[o.key := Stored(o)], e[o.key := o])
  {
    hide GoodValue, Stored;
  }

  /** The recorded options are the last ones given for each key. */
  lemma {:induction false} FoldOptions(opts: seq<Opt>)
    requires Fold(opts).Ok?
    ensures Records(Fold(opts).value.options, Entries(opts))
  {
    hide Fold, Records, Process, Stored;
    if opts != [] {
      var n := |opts| - 1;
      FoldPrefix(opts);
      FoldOptions(opts[..n]);
      ProcessStores(Fold(opts[..n]).value, opts[n]);
      RecordsOneMore(Fold(opts[..n]).value.options, Entries(opts[..n]), opts[n]);
    } else {
      FoldNothing();
    }
  }

  lemma FoldNothing()
    ensures Fold([]) == Ok(START) && Records(START.options, Entries([]))
  {
  }

  lemma ProcessStores(st: Parsed, o: Opt)
    requires Process(st, o).Ok?
    ensures GoodValue(o) && Process(st, o).value.options == st.options[o.key := Stored(o)]
  {
    hide ProcessPair, GoodValue;
    if o.Pair? {
      PairOptions(st, o.key, o.value);
    } else {
      FlagsGood();
    }
  }

  // ---- defaults leave it at that ---------------------------------------------------------------------

  /** A default does not set a field that a given option sets. */
  ghost predicate Guarded(d: Default, o: Opt, f: Field) {
    Touches(d.option, f) && Touches(o, f) ==> o.key in d.unless
  }

  lemma DefaultsGuarded(fs: string, o: Opt, f: Field)
    ensures forall i :: 0 <= i < |DefaultsOf(fs)| ==> Guarded(DefaultsOf(fs)[i], o, f)
  {
    hide Guarded;
    var all := {HARD, INTR, RW, RSIZE, WSIZE, TIMEO, RETRANS, ALLOW, PERMISSIONS};
    forall d | d in all ensures Guarded(d, o, f) { DefaultGuarded(d, o, f); }
    assert forall i :: 0 <= i < |DefaultsOf(fs)| ==> DefaultsOf(fs)[i] in all;
  }

  lemma DefaultGuarded(d: Default, o: Opt, f: Field)
    requires d in {HARD, INTR, RW, RSIZE, WSIZE, TIMEO, RETRANS, ALLOW, PERMISSIONS}
    ensures Guarded(d, o, f)
  {
  }

  /** Filling in a default changes nothing about a key that is there, nor about the field its option set. */
  lemma FillInLeaves(st: Parsed, d: Default, o: Opt, f: Field)
    requires o.key in st.options && d.option.key in d.unless && Touches(o, f) && Guarded(d, o, f)
    ensures var t := FillIn(st, d);
            Read(t.security, t.performance, f) == Read(st.security, st.performance, f)
            && forall k :: k in st.options ==> k in t.options && t.options[k] == st.options[k]
  {
    hide Touches, Process, Read, Written;
    if !Present(st.options, d) && Process(st, d.option).Ok? {
      ProcessField(st, d.option, f);
      ProcessStores(st, d.option);
    }
  }

  lemma {:induction false} FillAllLeaves(st: Parsed, ds: seq<Default>, o: Opt, f: Field)
    requires o.key in st.options && Touches(o, f)
    requires forall i :: 0 <= i < |ds| ==> SoundDefault(ds[i]) && Guarded(ds[i], o, f)
    ensures var t := FillAll(st, ds);
            Read(t.security, t.performance, f) == Read(st.security, st.performance, f)
            && forall k :: k in st.options ==> k in t.options && t.options[k] == st.options[k]
    decreases |ds|
  {
    hide SoundDefault, Guarded, Touches, FillIn, Read;
    if ds != [] {
      SoundIsOwn(ds[0]);
      FillInLeaves(st, ds[0], o, f);
      FillAllLeaves(FillIn(st, ds[0]), ds[1..], o, f);
    }
  }

  lemma SoundIsOwn(d: Default)
    requires SoundDefault(d)
    ensures d.option.key in d.unless
  {
  }

  lemma DefaultsLeave(st: Parsed, fs: string, o: Opt, f: Field)
    requires o.key in st.options && Touches(o, f)
    ensures var t := ApplyDefaults(st, fs);
            Read(t.security, t.performance, f) == Read(st.security, st.performance, f)
            && forall k :: k in st.options ==> k in t.options && t.options[k] == st.options[k]
  {
    hide SoundDefault, Guarded, Touches, FillAll, DefaultsOf, Read;
    DefaultsAreSound(fs);
    DefaultsGuarded(fs, o, f);
    FillAllLeaves(st, DefaultsOf(fs), o, f);
  }

  lemma ParseParts(s: string, fs: string)
    requires Parse(s, fs).Ok?
    ensures var r := Parse(s, fs).value; var folded := Fold(Tokens(Raw(s)));
            && folded.Ok?
            && Parsed(r.options, r.security, r.performance) == ApplyDefaults(folded.value, fs)
            && Validate(ApplyDefaults(folded.value, fs), fs).Ok?
  {
    hide Fold, Tokens, Raw, ApplyDefaults, Validate;
  }

  /** In an accepted result each field has what the last option for it wrote. */
  lemma ParsedField(s: string, fs: string, j: nat, f: Field)
    requires var opts := Tokens(Raw(s));
             && Parse(s, fs).Ok? && j < |opts| && Touches(opts[j], f)
             && forall k :: j < k < |opts| ==> !Touches(opts[k], f)
    ensures var r := Parse(s, fs).value; Read(r.security, r.performance, f) == Written(Tokens(Raw(s))[j], f)
  {
    var opts := Tokens(Raw(s));
    hide Fold, Tokens, Raw, ApplyDefaults, Validate, Parse, Touches, Written, Read;
    ParseParts(s, fs);
    LastWriter(opts, j, f);
    FoldHasKey(opts, j);
    DefaultsLeave(Fold(opts).value, fs, opts[j], f);
  }

  // ---- conflicts ----------------------------------------------------------------------------------------

  /** Conflicting options other than `ro` and `rw` write different values to one field, which no option under
      a third key sets. */
  lemma ConflictField(first: Opt, second: Opt) returns (f: Field)
    requires Conflict(first, second) && first.key != Ro
    ensures Touches(first, f) && Touches(second, f) && Written(first, f) != Written(second, f)
    ensures forall o :: Touches(o, f) ==> o.key == first.key || o.key == second.key
    ensures first.key != second.key
  {
    f := if first.key == Hard then SoftField else if first.key == Intr then IntrField
         else if first.key == Nosuid then SuidField else if first.key == FileMode then FmodeField else DmodeField;
    hide ParseMode;
  }

  ghost predicate NoConflict(opts: seq<Opt>) {
    forall i, j :: 0 <= i < |opts| && 0 <= j < |opts| ==> !Conflict(opts[i], opts[j])
  }

  /** No two conflicting options stand in the reverse of the order in which they are printed. */
  ghost predicate ConflictsOrdered(opts: seq<Opt>) {
    forall i, j :: 0 <= i < j < |opts| ==> !Conflict(opts[j], opts[i])
  }

  /** A flag `ro` and an `rw` with a value are never accepted together: the loop rejects them in one order, the
      validation in the other. */
  lemma ReadOnlyWithRwRejected(s: string, fs: string, i: nat, j: nat)
    requires var opts := Tokens(Raw(s));
             DistinctKeys(opts) && i < |opts| && j < |opts| && opts[i] == Flag(Ro) && opts[j].key == Rw
    ensures Parse(s, fs).Err?
  {
    var opts := Tokens(Raw(s));
    hide Fold, Tokens, Raw, ApplyDefaults, Parse;
    if Parse(s, fs).Ok? {
      ParseParts(s, fs);
      if j < i {
        FlagRejected(opts, j, i);
      } else {
        assert forall k :: i < k < |opts| ==> opts[k].key != Ro;
        if opts[j] == Flag(Rw) { FlagRejected(opts, i, j); }
        assert forall k :: i < k < |opts| ==> !Touches(opts[k], ReadOnlyField);
        ParsedField(s, fs, i, ReadOnlyField);
        FoldHasKey(opts, j);
        FoldHasKey(opts, i);
        DefaultsLeave(Fold(opts).value, fs, opts[i], ReadOnlyField);
      }
    }
  }

  // ---- when the records survive printing -----------------------------------------------------------------

  lemma {:induction false} FillAllKeepsOptions(st: Parsed, ds: seq<Default>)
    requires forall i :: 0 <= i < |ds| ==> ds[i].option.key in ds[i].unless
    ensures forall k :: k in st.options ==> k in FillAll(st, ds).options && FillAll(st, ds).options[k] == st.options[k]
    decreases |ds|
  {
    hide FillIn;
    if ds != [] {
      FillInKeepsOptions(st, ds[0]);
      FillAllKeepsOptions(FillIn(st, ds[0]), ds[1..]);
    }
  }

  lemma FillInKeepsOptions(st: Parsed, d: Default)
    requires d.option.key in d.unless
    ensures forall k :: k in st.options ==> k in FillIn(st, d).options && FillIn(st, d).options[k] == st.options[k]
  {
    hide Process, Stored;
    if !Present(st.options, d) && Process(st, d.option).Ok? {
      ProcessStores(st, d.option);
    }
  }

  lemma DefaultsKeepOptions(st: Parsed, fs: string)
    ensures var m := ApplyDefaults(st, fs).options; forall k :: k in st.options ==> k in m && m[k] == st.options[k]
  {
    hide SoundDefault, FillAll, DefaultsOf;
    DefaultsAreSound(fs);
    forall j | 0 <= j < |DefaultsOf(fs)| ensures DefaultsOf(fs)[j].option.key in DefaultsOf(fs)[j].unless {
      SoundIsOwn(DefaultsOf(fs)[j]);
    }
    FillAllKeepsOptions(st, DefaultsOf(fs));
  }

  /** With distinct keys, each option is recorded in the accepted result as it was given. */
  lemma ParsedStores(s: string, fs: string, i: nat)
    requires Parse(s, fs).Ok? && DistinctKeys(Tokens(Raw(s))) && i < |Tokens(Raw(s))|
    ensures var o, m := Tokens(Raw(s))[i], Parse(s, fs).value.options;
            GoodValue(o) && o.key in m && m[o.key] == Stored(o)
  {
    var opts := Tokens(Raw(s));
    hide Fold, Tokens, Raw, Validate, Parse, GoodValue, Stored, ApplyDefaults, DistinctKeys;
    ParseParts(s, fs);
    FoldOptions(opts);
    var o := opts[i];
    assert o in opts && o.key in Entries(opts);
    SameKeySameOption(opts, o, Entries(opts)[o.key]);
    DefaultsKeepOptions(Fold(opts).value, fs);
  }

  lemma StoredPrintsBack(m: map<Key, string>, o: Opt)
    requires GoodValue(o) && o.key in m && m[o.key] == Stored(o)
    requires (o.Pair? ==> o.value != "") && o.key != Rsize && o.key != Wsize
    ensures OptFor(m, o.key) == o
  {
    hide ParseU32, ParseMode, ParseSize;
  }

  /** Of two conflicting options the one that is printed second is the one that the printed form denotes. */
  lemma ConflictDenoted(m: map<Key, string>, first: Opt, second: Opt, f: Field)
    requires first.key in m && second.key in m && OptFor(m, first.key) == first && OptFor(m, second.key) == second
    requires Conflict(first, second) && Touches(first, f) && Touches(second, f)
    ensures var e := PrintedEntries(m); Read(DenoteSecurity(e), DenotePerformance(e), f) == Written(second, f)
  {
    hide ParseU32, ParseMode, ParseSize, IsNfsVersion, IsSmbVersion;
  }

  lemma ReversedConflictIsLost(s: string, fs: string, t: string, i: nat, j: nat)
    requires Parse(s, fs).Ok? && Prints(Parse(s, fs).value.options, t)
    requires var opts := Tokens(Raw(s));
             && DistinctKeys(opts) && (forall i :: 0 <= i < |opts| && opts[i].Pair? ==> opts[i].value != "")
             && i < j < |opts| && Conflict(opts[j], opts[i])
    ensures !SameOutcome(Parse(t, fs), Parse(s, fs))
  {
    var opts, r := Tokens(Raw(s)), Parse(s, fs).value;
    ParsedStores(s, fs, i);
    ParsedStores(s, fs, j);
    RecordsSurviveExact(s, fs, t);
    ConflictKeys(opts[j], opts[i]);
    hide Parse, Tokens, Raw, Conflict, SameOutcome, Prints, GoodValue, FlagsPrintable, ParseU32, Touches, Written, Read,
         DenoteSecurity, DenotePerformance, PrintedEntries, OptFor;
    StoredPrintsBack(r.options, opts[j]);
    if opts[j].key == Ro {
      RwBesideRo(r.options, opts[j], opts[i]);
    } else {
      StoredPrintsBack(r.options, opts[i]);
      var f := ConflictField(opts[j], opts[i]);
      assert forall k :: j < k < |opts| ==> opts[k].key != opts[j].key && opts[k].key != opts[i].key;
      ParsedField(s, fs, j, f);
      ConflictDenoted(r.options, opts[j], opts[i], f);
    }
  }

  lemma ConflictKeys(first: Opt, second: Opt)
    requires Conflict(first, second)
    ensures first.key != Rsize && first.key != Wsize && second.key != Rsize && second.key != Wsize
    ensures first.key != second.key
  {
  }

  lemma RwBesideRo(m: map<Key, string>, first: Opt, second: Opt)
    requires Conflict(first, second) && first.key == Ro && first.key in m && second.key in m
    requires GoodValue(second) && m[second.key] == Stored(second)
    ensures !Reparsable(m)
  {
    hide FlagsPrintable, ParseU32;
  }

  /** For distinct keys and no empty value: printing an accepted string gives back everything, typed records
      included, if and only if no two conflicting options stand in the reverse of the printing order. */
  lemma RecordsSurviveIff(s: string, fs: string, t: string)
    requires Parse(s, fs).Ok? && Prints(Parse(s, fs).value.options, t)
    requires var opts := Tokens(Raw(s));
             DistinctKeys(opts) && forall i :: 0 <= i < |opts| && opts[i].Pair? ==> opts[i].value != ""
    ensures SameOutcome(Parse(t, fs), Parse(s, fs)) <==> ConflictsOrdered(Tokens(Raw(s)))
  {
    var opts := Tokens(Raw(s));
    hide Parse, Tokens, Raw, Conflict, SameOutcome, Prints;
    if ConflictsOrdered(opts) {
      forall i, j | 0 <= i < j < |opts| ensures !Clash(opts[j], opts[i]) {
        if Clash(opts[j], opts[i]) {
          ReadOnlyWithRwRejected(s, fs, j, i);
        }
      }
      OrderedRecordsSurvive(s, fs, t);
    } else {
      var i, j :| 0 <= i < j < |opts| && Conflict(opts[j], opts[i]);
      ReversedConflictIsLost(s, fs, t, i, j);
    }
  }

  lemma FoldedFlag(opts: seq<Opt>, k: Key)
    requires Fold(opts).Ok? && forall i :: 0 <= i < |opts| && opts[i].Pair? ==> opts[i].value != ""
    requires k in Fold(opts).value.options && Fold(opts).value.options[k] == ""
    ensures Flag(k) in opts
  {
    hide Fold, GoodValue;
    FoldOptions(opts);
    var o := Entries(opts)[k];
    StoredIsGiven(o);
  }

  lemma StoredIsGiven(o: Opt)
    requires GoodValue(o) && (o.Pair? ==> o.value != "")
    ensures Stored(o) == "" ==> o.Flag?
  {
    hide ParseSize, ParseU32, ParseMode;
  }

  lemma GivenFlagPrintable(s: string, k: Key)
    requires Flag(k) in Tokens(Raw(s))
    ensures Spell(k) != "" && Tight(Spell(k))
  {
    hide Tokens, Raw, Tight, Spell, CleanToken;
    RawIsTight(s);
    TokensAreClean(Raw(s));
    var i :| 0 <= i < |Tokens(Raw(s))| && Tokens(Raw(s))[i] == Flag(k);
  }

  /** Beyond what the loop recorded, defaults have added known keys only, and not `ro`. */
  lemma AddedKeys(s: string, fs: string)
    requires Parse(s, fs).Ok?
    ensures var from, m := Fold(Tokens(Raw(s))), Parse(s, fs).value.options;
            from.Ok? && OnlyKnownAdded(from.value.options, m)
            && forall k :: k in from.value.options ==> m[k] == from.value.options[k]
  {
    var opts := Tokens(Raw(s));
    hide Fold, Tokens, Raw, Parse, ApplyDefaults, Validate, CleanToken, CleanMap, Agrees, HasDefaults;
    ParseParts(s, fs);
    RawIsTight(s);
    TokensAreClean(Raw(s));
    FoldKeeps(opts);
    DefaultsKeep(Fold(opts).value, fs);
    DefaultsKeepOptions(Fold(opts).value, fs);
  }

  lemma GivenFlagsPrintable(s: string, fs: string)
    requires Parse(s, fs).Ok?
    requires forall o :: o in Tokens(Raw(s)) && o.Pair? ==> o.value != ""
    ensures FlagsPrintable(Parse(s, fs).value.options)
  {
    var m := Parse(s, fs).value.options;
    hide Fold, Tokens, Raw, Parse, Tight, Spell;
    AddedKeys(s, fs);
    forall k | k in m && m[k] == "" ensures Spell(k) != "" && Tight(Spell(k)) {
      if k in Fold(Tokens(Raw(s))).value.options {
        FoldedFlag(Tokens(Raw(s)), k);
        GivenFlagPrintable(s, k);
      } else {
        KnownKeysTight(k);
      }
    }
  }

  /** An accepted flag `ro` keeps every `rw` out, given or filled in. */
  lemma ReadOnlyExcludesRw(s: string, fs: string, i: nat)
    requires Parse(s, fs).Ok? && DistinctKeys(Tokens(Raw(s))) && i < |Tokens(Raw(s))|
    requires Tokens(Raw(s))[i] == Flag(Ro)
    ensures Rw !in Parse(s, fs).value.options
  {
    var opts := Tokens(Raw(s));
    hide Fold, Tokens, Raw, Parse, ApplyDefaults;
    ParseParts(s, fs);
    if j :| 0 <= j < |opts| && opts[j].key == Rw {
      ReadOnlyWithRwRejected(s, fs, i, j);
    } else {
      ParsedField(s, fs, i, ReadOnlyField);
    }
  }

  lemma NoReadOnlyClash(s: string, fs: string)
    requires Parse(s, fs).Ok? && DistinctKeys(Tokens(Raw(s)))
    requires forall o :: o in Tokens(Raw(s)) && (o.key == Ro || o.key == Rw) ==> o.Flag?
    ensures var m := Parse(s, fs).value.options; !(Ro in m && Rw in m)
  {
    var opts := Tokens(Raw(s));
    var m := Parse(s, fs).value.options;
    hide Fold, Tokens, Raw, Parse, DistinctKeys;
    AddedKeys(s, fs);
    if Ro in m && Rw in m {
      FoldKeys(opts);
      var i :| 0 <= i < |opts| && opts[i].key == Ro;
      assert opts[i] in opts && opts[i] == Flag(Ro);
      ReadOnlyExcludesRw(s, fs, i);
    }
  }

  lemma {:induction false} FoldNotSoft(opts: seq<Opt>)
    requires Fold(opts).Ok? && Flag(Soft) !in opts
    ensures !Fold(opts).value.performance.soft
  {
    hide Fold, Process;
    if opts == [] {
      FoldNothing();
    } else {
      var n := |opts| - 1;
      FoldPrefix(opts);
      FoldNotSoft(opts[..n]);
      ProcessField(Fold(opts[..n]).value, opts[n], SoftField);
      assert opts[n] in opts;
    }
  }

  lemma {:induction false} FillAllNotSoft(st: Parsed, ds: seq<Default>)
    requires !st.performance.soft && forall i :: 0 <= i < |ds| ==> ds[i].option != Flag(Soft)
    ensures !FillAll(st, ds).performance.soft
    decreases |ds|
  {
    hide Process;
    if ds != [] {
      if Process(st, ds[0].option).Ok? {
        ProcessField(st, ds[0].option, SoftField);
      }
      FillAllNotSoft(FillIn(st, ds[0]), ds[1..]);
    }
  }

  lemma DefaultsNotSoft(fs: string)
    ensures forall i :: 0 <= i < |DefaultsOf(fs)| ==> DefaultsOf(fs)[i].option != Flag(Soft)
  {
  }

  /** A mount is soft only if the flag was given. */
  lemma SoftIsGiven(s: string, fs: string)
    requires Parse(s, fs).Ok? && Parse(s, fs).value.performance.soft
    ensures Flag(Soft) in Tokens(Raw(s))
  {
    var opts := Tokens(Raw(s));
    hide Fold, Tokens, Raw, Parse, Validate, FillAll, DefaultsOf;
    ParseParts(s, fs);
    DefaultsNotSoft(fs);
    if Flag(Soft) !in opts {
      FoldNotSoft(opts);
      FillAllNotSoft(Fold(opts).value, DefaultsOf(fs));
    }
  }

  lemma ZeroTimeoutIsSoft(s: string, fs: string)
    requires Parse(s, fs).Ok? && DistinctKeys(Tokens(Raw(s)))
    ensures var m := Parse(s, fs).value.options;
            Timeo in m && ParseU32(m[Timeo]) == Some(0) ==> Soft in m && m[Soft] == ""
  {
    var m := Parse(s, fs).value.options;
    ParsedIsClean(s, fs);
    EmptyIsNoNumber();
    hide Tokens, Raw, Parse, CleanMap, HasDefaults, ParseU32, ParseSize, DistinctKeys;
    if Timeo in m && ParseU32(m[Timeo]) == Some(0) {
      SoftIsGiven(s, fs);
      var i :| 0 <= i < |Tokens(Raw(s))| && Tokens(Raw(s))[i] == Flag(Soft);
      ParsedStores(s, fs, i);
    }
  }

  /** What a caller can read off the option list: with distinct keys, no empty value and `ro` and `rw` as flags
      only, what is accepted is reparsable, contradictory flags included. */
  lemma FlagsOnlyReparsable(s: string, fs: string)
    requires Parse(s, fs).Ok? && DistinctKeys(Tokens(Raw(s)))
    requires forall o :: o in Tokens(Raw(s)) ==>
               (o.Pair? ==> o.value != "") && (o.key == Ro || o.key == Rw ==> o.Flag?)
    ensures Reparsable(Parse(s, fs).value.options)
  {
    var m := Parse(s, fs).value.options;
    hide Parse, Tokens, Raw, FlagsPrintable, DistinctKeys;
    GivenFlagsPrintable(s, fs);
    NoReadOnlyClash(s, fs);
    ZeroTimeoutIsSoft(s, fs);
  }

  // ---- when order does not matter --------------------------------------------------------------------------

  ghost predicate IsPermutation(s: string, t: string) {
    multiset(Raw(s)) == multiset(Raw(t))
  }

  /** Every reordering of the list is accepted or rejected alike and gives the same options and records. */
  ghost predicate OrderFree(s: string, fs: string) {
    forall t :: IsPermutation(s, t) ==> SameOutcome(Parse(s, fs), Parse(t, fs))
  }

  ghost predicate AllRejected(s: string, fs: string) {
    forall t :: IsPermutation(s, t) ==> Parse(t, fs).Err?
  }

  lemma {:induction false} PieceOf(raw: seq<string>, o: Opt) returns (p: nat)
    requires o in Tokens(raw)
    ensures p < |raw| && raw[p] != "" && Token(raw[p]) == o
  {
    hide Token;
    var n := |raw| - 1;
    if raw[n] != "" && Token(raw[n]) == o {
      p := n;
    } else {
      p := PieceOf(raw[..n], o);
    }
  }

  lemma TokensOfFront(a: string, b: string, rest: seq<string>)
    requires a != "" && b != ""
    ensures Tokens([a, b] + rest) == [Token(a), Token(b)] + Tokens(rest)
  {
    hide Token;
    TokensConcat([a, b], rest);
    assert [a, b][..1] == [a] && [a][..0] == [];
    assert Tokens([a]) == [Token(a)];
    assert Tokens([a, b]) == Tokens([a]) + [Token(b)];
  }

  /** The list without the pieces at two positions */
  function WithoutTwo(raw: seq<string>, p: nat, q: nat): seq<string>
    requires p < q < |raw|
  {
    raw[..p] + raw[p + 1..q] + raw[q + 1..]
  }

  lemma TwoInFront(raw: seq<string>, p: nat, q: nat)
    requires p < q < |raw|
    ensures multiset(raw) == multiset{raw[p], raw[q]} + multiset(WithoutTwo(raw, p, q))
  {
    var a, b, c := raw[..p], raw[p + 1..q], raw[q + 1..];
    assert raw == a + [raw[p]] + b + [raw[q]] + c;
  }

  lemma RawOfJoined(raw: seq<string>)
    requires raw != [] && forall i :: 0 <= i < |raw| ==> Tight(raw[i]) && ',' !in raw[i]
    ensures Raw(Join(raw, ',')) == raw
  {
    SplitJoinFree(raw, ',');
    forall i | 0 <= i < |raw| ensures Trim(raw[i]) == raw[i] {
      TrimTight(raw[i]);
    }
    hide Trim, Tight;
  }

  lemma FrontOf(raw: seq<string>, p: nat, q: nat) returns (others: seq<string>)
    requires p < |raw| && q < |raw| && p != q
    ensures multiset([raw[p], raw[q]] + others) == multiset(raw)
  {
    hide WithoutTwo;
    others := if p < q then WithoutTwo(raw, p, q) else WithoutTwo(raw, q, p);
    TwoInFront(raw, if p < q then p else q, if p < q then q else p);
    assert multiset([raw[p], raw[q]]) == multiset{raw[p], raw[q]};
  }

  /** A reordering of the pieces is the list of pieces of some string. */
  lemma StringOf(s: string, raw: seq<string>) returns (t: string)
    requires multiset(raw) == multiset(Raw(s)) && raw != []
    ensures Raw(t) == raw && IsPermutation(s, t)
  {
    hide Raw, Tight, Join;
    RawIsTight(s);
    forall i | 0 <= i < |raw| ensures Tight(raw[i]) && ',' !in raw[i] {
      assert raw[i] in multiset(raw);
      assert raw[i] in Raw(s);
    }
    t := Join(raw, ',');
    RawOfJoined(raw);
  }

  /** The reordering that puts two given options in front */
  lemma PutInFront(s: string, a: Opt, b: Opt) returns (t: string, rest: seq<Opt>)
    requires a in Tokens(Raw(s)) && b in Tokens(Raw(s)) && a != b
    ensures IsPermutation(s, t) && Tokens(Raw(t)) == [a, b] + rest
  {
    hide Raw, Tokens, Token, IsPermutation;
    var p := PieceOf(Raw(s), a);
    var q := PieceOf(Raw(s), b);
    var others := FrontOf(Raw(s), p, q);
    t := StringOf(s, [Raw(s)[p], Raw(s)[q]] + others);
    TokensOfFront(Raw(s)[p], Raw(s)[q], others);
    rest := Tokens(others);
  }

  lemma PermutedTokens(s: string, t: string)
    requires IsPermutation(s, t) && DistinctKeys(Tokens(Raw(s)))
    ensures DistinctKeys(Tokens(Raw(t))) && multiset(Tokens(Raw(t))) == multiset(Tokens(Raw(s)))
  {
    hide Raw, Tokens;
    TokensPermute(Raw(s), Raw(t));
    DistinctKeysPermute(Tokens(Raw(s)), Tokens(Raw(t)));
  }

  /** With distinct keys, what two options in front leave behind is what the second of them wrote. */
  lemma FrontField(t: string, fs: string, a: Opt, b: Opt, rest: seq<Opt>, f: Field)
    requires Parse(t, fs).Ok? && DistinctKeys(Tokens(Raw(t))) && Tokens(Raw(t)) == [a, b] + rest
    requires Touches(b, f) && forall o :: Touches(o, f) ==> o.key == a.key || o.key == b.key
    ensures var r := Parse(t, fs).value; Read(r.security, r.performance, f) == Written(b, f)
  {
    var opts := Tokens(Raw(t));
    hide Raw, Tokens, Parse, Touches, Read, Written;
    forall k | 1 < k < |opts| ensures !Touches(opts[k], f) {
      assert opts[k].key != opts[0].key && opts[k].key != opts[1].key;
    }
    ParsedField(t, fs, 1, f);
  }

  lemma SameOutcomeSameField(s: string, t: string, fs: string, f: Field)
    requires Parse(s, fs).Ok? && SameOutcome(Parse(s, fs), Parse(t, fs))
    ensures Parse(t, fs).Ok?
    ensures var r, q := Parse(s, fs).value, Parse(t, fs).value;
            Read(r.security, r.performance, f) == Read(q.security, q.performance, f)
  {
    hide Parse, Read;
  }

  /** A conflict shows in two accepted reorderings. */
  lemma ConflictShows(s: string, fs: string, first: Opt, second: Opt)
    requires DistinctKeys(Tokens(Raw(s))) && Parse(s, fs).Ok?
    requires first in Tokens(Raw(s)) && second in Tokens(Raw(s)) && Conflict(first, second)
    ensures !OrderFree(s, fs)
  {
    hide Raw, Tokens, Parse, SameOutcome, IsPermutation, DistinctKeys, Conflict, Touches, Written, Read;
    if OrderFree(s, fs) {
      ConflictKeys(first, second);
      var x, restX := PutInFront(s, first, second);
      var y, restY := PutInFront(s, second, first);
      PermutedTokens(s, x);
      PermutedTokens(s, y);
      SameOutcomeSameField(s, x, fs, SoftField);
      if first.key == Ro {
        RoBeforeRwRejected(x, fs, first, second, restX);
      } else {
        var f := ConflictField(first, second);
        SameOutcomeSameField(s, x, fs, f);
        SameOutcomeSameField(s, y, fs, f);
        FrontField(x, fs, first, second, restX, f);
        FrontField(y, fs, second, first, restY, f);
      }
    }
  }

  lemma RoBeforeRwRejected(t: string, fs: string, first: Opt, second: Opt, rest: seq<Opt>)
    requires Tokens(Raw(t)) == [first, second] + rest && Conflict(first, second) && first.key == Ro
    ensures Parse(t, fs).Err?
  {
    FlagRejected(Tokens(Raw(t)), 0, 1);
    hide Fold, Tokens, Raw, ApplyDefaults, Validate;
  }

  lemma NoConflictSameOutcome(s: string, t: string, fs: string)
    requires IsPermutation(s, t) && DistinctKeys(Tokens(Raw(s))) && NoConflict(Tokens(Raw(s)))
    ensures SameOutcome(Parse(s, fs), Parse(t, fs))
  {
    var opts := Tokens(Raw(s));
    hide Raw, Tokens, Parse, Conflict, DistinctKeys;
    if i, j :| 0 <= i < |opts| && 0 <= j < |opts| && opts[i] == Flag(Ro) && opts[j].Pair? && opts[j].key == Rw {
      ReadOnlyWithRwRejected(s, fs, i, j);
      PermutedTokens(s, t);
      assert opts[i] in multiset(opts) && opts[j] in multiset(opts);
      var k :| 0 <= k < |Tokens(Raw(t))| && Tokens(Raw(t))[k] == opts[i];
      var l :| 0 <= l < |Tokens(Raw(t))| && Tokens(Raw(t))[l] == opts[j];
      ReadOnlyWithRwRejected(t, fs, k, l);
    } else {
      OrderDoesNotMatter(s, t, fs);
    }
  }

  /** For distinct keys: all reorderings of an option list have the same outcome if and only if no two options
      in it conflict, or every reordering is rejected. */
  lemma OrderMattersIff(s: string, fs: string)
    requires DistinctKeys(Tokens(Raw(s)))
    ensures OrderFree(s, fs) <==> NoConflict(Tokens(Raw(s))) || AllRejected(s, fs)
  {
    var opts := Tokens(Raw(s));
    hide Raw, Tokens, Parse, SameOutcome, Conflict, DistinctKeys;
    if NoConflict(opts) {
      forall t | IsPermutation(s, t) ensures SameOutcome(Parse(s, fs), Parse(t, fs)) {
        NoConflictSameOutcome(s, t, fs);
      }
    } else if AllRejected(s, fs) {
      forall t | IsPermutation(s, t) ensures SameOutcome(Parse(s, fs), Parse(t, fs)) {
        assert IsPermutation(s, s);
        BothRejected(Parse(s, fs), Parse(t, fs));
      }
    } else {
      var i, j :| 0 <= i < |opts| && 0 <= j < |opts| && Conflict(opts[i], opts[j]);
      var t :| IsPermutation(s, t) && Parse(t, fs).Ok?;
      if OrderFree(s, fs) {
        OkAlike(Parse(s, fs), Parse(t, fs));
        ConflictShows(s, fs, opts[i], opts[j]);
      }
    }
  }

  lemma BothRejected(a: Result<MountOptions, OptionError>, b: Result<MountOptions, OptionError>)
    requires a.Err? && b.Err?
    ensures SameOutcome(a, b)
  {
  }

  lemma OkAlike(a: Result<MountOptions, OptionError>, b: Result<MountOptions, OptionError>)
    requires SameOutcome(a, b)
    ensures a.Ok? <==> b.Ok?
  {
  }
}
