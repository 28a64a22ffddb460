/** What is filled in for each file system type, and which numbers are accepted. Both are decided by the type as given,
    before it is normalised. */
module OptionLimits {
  import opened Wrappers
  import opened Text
  import opened OptionKeys
  import opened OptionParsing
  import opened OptionRoundTrip
  import opened OptionReparse
  import opened OptionOrder
  import opened MountOptionParser

  // ---- defaults --------------------------------------------------------------------------------------------

  /** The options with `k` filled in as `v`, unless one of these keys is there */
  function Filled(options: map<Key, string>, k: Key, other: Key, v: string): map<Key, string> {
    if k in options || other in options then options else options[k := v]
  }

  function WithBehaviour(st: Parsed): Parsed {
    var o, p := st.options, st.performance;
    st.(options := Filled(Filled(o, Hard, Soft, ""), Intr, Nointr, ""),
        performance := p.(soft := if Hard in o || Soft in o then p.soft else false,
                          intr := if Intr in o || Nointr in o then p.intr else true))
  }

  function WithSizes(st: Parsed): Parsed {
    var o, p := st.options, st.performance;
    st.(options := Filled(Filled(o, Rsize, Rsize, "1048576"), Wsize, Wsize, "1048576"),
        performance := p.(rsize := if Rsize in o then p.rsize else Some(1048576),
                          wsize := if Wsize in o then p.wsize else Some(1048576)))
  }

  function WithTimes(st: Parsed): Parsed {
    var o, p := st.options, st.performance;
    st.(options := Filled(Filled(o, Timeo, Timeo, "600"), Retrans, Retrans, "2"),
        performance := p.(timeo := if Timeo in o then p.timeo else Some(600),
                          retrans := if Retrans in o then p.retrans else Some(2)))
  }

  function WithReadWrite(st: Parsed): Parsed {
    st.(options := Filled(st.options, Rw, Ro, ""),
        security := st.security.(readOnly := (Rw in st.options || Ro in st.options) && st.security.readOnly))
  }

  lemma BehaviourIs(st: Parsed)
    ensures FillIn(FillIn(st, HARD), INTR) == WithBehaviour(st)
  {
    hide FillIn;
    FillFlagIs(st, Hard, Soft);
    FillFlagIs(FillIn(st, HARD), Intr, Nointr);
  }

  lemma SizesAre(st: Parsed)
    ensures FillIn(FillIn(st, RSIZE), WSIZE) == WithSizes(st)
  {
    hide FillIn;
    FillSizeIs(st, Rsize);
    FillSizeIs(FillIn(st, RSIZE), Wsize);
  }

  lemma TimesAre(st: Parsed)
    ensures FillIn(FillIn(st, TIMEO), RETRANS) == WithTimes(st)
  {
    hide FillIn;
    FillNumberIs(st, Timeo, 600);
    FillNumberIs(FillIn(st, TIMEO), Retrans, 2);
  }

  lemma NfsDefaults(st: Parsed)
    ensures ApplyDefaults(st, "nfs") == WithTimes(WithSizes(WithBehaviour(st)))
  {
    hide FillIn, FillAll, WithTimes, WithSizes, WithBehaviour;
    FillSix(st, HARD, INTR, RSIZE, WSIZE, TIMEO, RETRANS);
    BehaviourIs(st);
    SizesAre(WithBehaviour(st));
    TimesAre(WithSizes(WithBehaviour(st)));
  }

  lemma CifsDefaults(st: Parsed, fs: string)
    requires fs == "cifs" || fs == "smbfs"
    ensures ApplyDefaults(st, fs) == WithSizes(WithReadWrite(st))
  {
    hide FillIn, FillAll, WithSizes;
    FillThree(st, RW, RSIZE, WSIZE);
    FillFlagIs(st, Rw, Ro);
    SizesAre(WithReadWrite(st));
  }

  lemma SshfsDefaults(st: Parsed)
    ensures var t := ApplyDefaults(st, "sshfs");
            && t.security == st.security && t.performance == st.performance
            && t.options == Filled(Filled(st.options, AllowOther, AllowOther, ""),
                                   DefaultPermissions, DefaultPermissions, "")
  {
    hide FillIn, FillAll;
    FillTwo(st, ALLOW, PERMISSIONS);
    assert {AllowOther} == {AllowOther, AllowOther};
    assert {DefaultPermissions} == {DefaultPermissions, DefaultPermissions};
    FillFlagIs(st, AllowOther, AllowOther);
    FillFlagIs(FillIn(st, ALLOW), DefaultPermissions, DefaultPermissions);
  }

  /** Nothing is filled in for any other type, `nfs4` included. */
  lemma OtherDefaults(st: Parsed, fs: string)
    requires fs !in ["nfs", "cifs", "smbfs", "sshfs"]
    ensures ApplyDefaults(st, fs) == st
  {
  }

  // ---- limits ------------------------------------------------------------------------------------------------

  predicate SizeWithin(size: Option<nat>) {
    size.None? || (1024 <= size.value && size.value <= 104857600)
  }

  /** What holds of every accepted list */
  lemma AcceptedWithin(s: string, fs: string)
    requires Parse(s, fs).Ok?
    ensures var r := Parse(s, fs).value; var perf := r.performance;
            && (r.security.readOnly ==> Rw !in r.options)
            && (perf.timeo == Some(0) ==> perf.soft && fs != "nfs")
            && (fs == "nfs" || fs == "cifs" ==> SizeWithin(perf.rsize) && SizeWithin(perf.wsize))
            && (fs == "nfs" && perf.nfsvers.Some? ==> perf.nfsvers.value == 3 || perf.nfsvers.value == 4)
            && (fs == "nfs" && perf.timeo.Some? ==> 1 <= perf.timeo.value && perf.timeo.value <= 3600)
            && r.raw == Raw(s)
            && r.fsType == (if fs == "smbfs" then "cifs" else if fs == "nfs4" then "nfs" else fs)
  {
    hide Raw, Tokens, Fold, ApplyDefaults;
  }

  lemma OnePiece(p: string)
    requires p != "" && ',' !in p && Tight(p)
    ensures Raw(p) == [p] && Tokens(Raw(p)) == [Token(p)]
  {
    hide Token;
    SplitOne(p, ',');
    TrimTight(p);
    assert [p][..0] == [] && Tokens([]) == [];
  }

  lemma FoldOne(o: Opt)
    ensures Fold([o]) == Process(START, o)
  {
    assert [o][..0] == [];
  }

  /** The string of a single numeric option */
  lemma OneNumber(k: Key, n: nat, fs: string)
    requires !k.Other?
    ensures var s := Spell(k) + "=" + Decimal(n);
            Parse(s, fs) == Conclude([s], Process(START, Pair(k, Decimal(n))), fs)
  {
    hide Decimal, Spell, Classify, Process, Conclude, PositionOfEquals, Raw, Tokens, IsSpace;
    var s := Spell(k) + "=" + Decimal(n);
    KnownKeysClean(k);
    KnownKeysTight(k);
    KnownKeysWellSpelled(k);
    DecimalDigits(n);
    NoSpaceDigits();
    FirstEquals(Spell(k), Decimal(n));
    assert s[|Spell(k)|] == '=';
    assert s[0] == Spell(k)[0] && s[|s| - 1] == Decimal(n)[|Decimal(n)| - 1];
    OnePiece(s);
    FoldOne(Pair(k, Decimal(n)));
  }

  lemma NoSpaceDigits()
    ensures forall c :: '0' <= c <= '9' ==> !IsSpace(c) && c != ','
  {
  }

  lemma OneProcessed(k: Key, n: nat)
    requires k in [Rsize, Wsize, Timeo, Retrans, Nfsvers]
    ensures Process(START, Pair(k, Decimal(n))) ==
            if n >= (if k in [Rsize, Wsize] then USIZE else U32) then Err(Invalid(k, Decimal(n)))
            else Ok(START.(options := map[k := Decimal(n)],
                           performance := match k
                                          case Rsize => START.performance.(rsize := Some(n))
                                          case Wsize => START.performance.(wsize := Some(n))
                                          case Timeo => START.performance.(timeo := Some(n))
                                          case Retrans => START.performance.(retrans := Some(n))
                                          case _ => START.performance.(nfsvers := Some(n))))
  {
    DecimalInRange(n, USIZE);
    DecimalInRange(n, U32);
    SizeOfDecimal(n);
    hide ParseUnsigned, Decimal, ParseSize;
  }

  lemma DecimalInRange(n: nat, bound: nat)
    ensures ParseUnsigned(Decimal(n), 10, bound) == if n < bound then Some(n) else None
  {
    DigitsValueDecimal(n);
    DecimalDigits(n);
    hide Decimal, DigitsValue;
  }

  lemma SizeOfDecimal(n: nat)
    ensures ParseSize(Decimal(n)) == if n < USIZE then Some(n) else None
  {
    hide Decimal, ParseUnsigned, Trim, StripEnd;
    var s := Decimal(n);
    DecimalDigits(n);
    TrimTight(s);
    assert Upper(s) == s;
    DecimalInRange(n, USIZE);
  }

  /** Which numbers are accepted: sizes from 1 KB to 100 MB, timeouts up to an hour, NFS versions 3 and 4. Only the
      types `nfs` and `cifs` have these limits, not their other names `nfs4` and `smbfs`. */
  lemma NumberAcceptedIff(k: Key, n: nat, fs: string)
    requires k in [Rsize, Wsize, Timeo, Retrans, Nfsvers]
    ensures Parse(Spell(k) + "=" + Decimal(n), fs).Ok? <==>
              if k in [Rsize, Wsize] then
                if fs in ["nfs", "cifs"] then 1024 <= n && n <= 104857600 else n < 0x1_0000_0000_0000_0000
              else if k == Timeo then
                1 <= n && n <= (if fs == "nfs" then 3600 else 0xFFFF_FFFF)
              else if k == Nfsvers && fs == "nfs" then n == 3 || n == 4
              else n < 0x1_0000_0000
  {
    hide Decimal, Spell, Process, ApplyDefaults, Parse, Conclude, Validate;
    OneNumber(k, n, fs);
    OneProcessed(k, n);
    var r := Process(START, Pair(k, Decimal(n)));
    if r.Ok? {
      ConcludeOk([Spell(k) + "=" + Decimal(n)], r.value, fs);
      if fs == "nfs" {
        OneOnNfs(k, n, r.value);
      } else if fs == "cifs" || fs == "smbfs" {
        OneOnCifs(k, n, r.value, fs);
      } else {
        OneElsewhere(k, n, r.value, fs);
      }
    } else {
      ConcludeErr([Spell(k) + "=" + Decimal(n)], r, fs);
    }
  }

  lemma ConcludeOk(raw: seq<string>, st: Parsed, fs: string)
    ensures Conclude(raw, Ok(st), fs).Ok? <==> Validate(ApplyDefaults(st, fs), fs).Ok?
  {
    hide ApplyDefaults, Validate;
  }

  lemma ConcludeErr(raw: seq<string>, r: Result<Parsed, OptionError>, fs: string)
    requires r.Err?
    ensures Conclude(raw, r, fs).Err?
  {
    hide ApplyDefaults, Validate;
  }

  /** The records hold this one number. */
  ghost predicate Holds(st: Parsed, k: Key, n: nat) {
    && st.options.Keys == {k} && !st.security.readOnly && !st.performance.soft
    && st.performance.rsize == (if k == Rsize then Some(n) else None)
    && st.performance.wsize == (if k == Wsize then Some(n) else None)
    && st.performance.timeo == (if k == Timeo then Some(n) else None)
    && st.performance.nfsvers == (if k == Nfsvers then Some(n) else None)
  }

  lemma OneOnNfs(k: Key, n: nat, st: Parsed)
    requires k in [Rsize, Wsize, Timeo, Retrans, Nfsvers] && Holds(st, k, n)
    ensures Validate(ApplyDefaults(st, "nfs"), "nfs").Ok? <==>
              if k in [Rsize, Wsize] then 1024 <= n && n <= 104857600
              else if k == Timeo then 1 <= n && n <= 3600
              else k == Nfsvers ==> n == 3 || n == 4
  {
    hide ApplyDefaults;
    NfsDefaults(st);
  }

  lemma OneOnCifs(k: Key, n: nat, st: Parsed, fs: string)
    requires k in [Rsize, Wsize, Timeo, Retrans, Nfsvers] && Holds(st, k, n) && (fs == "cifs" || fs == "smbfs")
    ensures Validate(ApplyDefaults(st, fs), fs).Ok? <==>
              if k in [Rsize, Wsize] then fs == "cifs" ==> 1024 <= n && n <= 104857600
              else k == Timeo ==> 1 <= n
  {
    hide ApplyDefaults;
    CifsDefaults(st, fs);
  }

  lemma OneElsewhere(k: Key, n: nat, st: Parsed, fs: string)
    requires k in [Rsize, Wsize, Timeo, Retrans, Nfsvers] && Holds(st, k, n) && fs !in ["nfs", "cifs", "smbfs"]
    ensures Validate(ApplyDefaults(st, fs), fs).Ok? <==> (k == Timeo ==> 1 <= n)
  {
    hide ApplyDefaults;
    if fs == "sshfs" {
      SshfsDefaults(st);
    } else {
      OtherDefaults(st, fs);
    }
  }

  /** No options at all */
  lemma NothingGiven(fs: string)
    ensures Parse("", fs).Ok?
    ensures var r := Parse("", fs).value;
            && r.security == Security(false, false, false, false, false, None, None, None, None)
            && (fs == "nfs" ==>
                  && r.options == map[Hard := "", Intr := "", Rsize := "1048576", Wsize := "1048576", Timeo := "600",
                                      Retrans := "2"]
                  && r.performance == Performance(Some(1048576), Some(1048576), Some(600), Some(2), false, true, None,
                                                  None, None))
            && (fs == "cifs" || fs == "smbfs" ==>
                  && r.options == map[Rw := "", Rsize := "1048576", Wsize := "1048576"]
                  && r.performance == Performance(Some(1048576), Some(1048576), None, None, false, false, None,
                                                  None, None))
            && (fs == "sshfs" ==> r.options == map[AllowOther := "", DefaultPermissions := ""])
            && (fs !in ["nfs", "cifs", "smbfs", "sshfs"] ==> r.options == map[])
            && (fs !in ["nfs", "cifs", "smbfs"] ==>
                  r.performance == Performance(None, None, None, None, false, false, None, None, None))
  {
    hide ApplyDefaults, Validate, Conclude, Raw, Tokens, Fold;
    NothingParsed();
    ConcludeStart(fs);
    if fs == "nfs" {
      NfsStart();
    } else if fs == "cifs" || fs == "smbfs" {
      CifsStart(fs);
    } else if fs == "sshfs" {
      SshfsDefaults(START);
    } else {
      OtherDefaults(START, fs);
    }
  }

  lemma NothingParsed()
    ensures Raw("") == [""] && Tokens([""]) == [] && Fold([]) == Ok(START)
  {
  }

  lemma ConcludeStart(fs: string)
    ensures var t, r := ApplyDefaults(START, fs), Conclude([""], Ok(START), fs);
            r.Ok? && r.value.options == t.options && r.value.security == t.security
            && r.value.performance == t.performance
  {
    hide ApplyDefaults;
    if fs == "nfs" {
      NfsStart();
    } else if fs == "cifs" || fs == "smbfs" {
      CifsStart(fs);
    } else if fs == "sshfs" {
      SshfsDefaults(START);
    } else {
      OtherDefaults(START, fs);
    }
  }

  lemma NfsStart()
    ensures var t := ApplyDefaults(START, "nfs");
            && t.options == map[Hard := "", Intr := "", Rsize := "1048576", Wsize := "1048576", Timeo := "600",
                                Retrans := "2"]
            && t.security == START.security
            && t.performance == Performance(Some(1048576), Some(1048576), Some(600), Some(2), false, true, None, None,
                                            None)
  {
    hide ApplyDefaults;
    NfsDefaults(START);
  }

  lemma CifsStart(fs: string)
    requires fs == "cifs" || fs == "smbfs"
    ensures var t := ApplyDefaults(START, fs);
            && t.options == map[Rw := "", Rsize := "1048576", Wsize := "1048576"]
            && t.security == START.security
            && t.performance == Performance(Some(1048576), Some(1048576), None, None, false, false, None, None, None)
  {
    hide ApplyDefaults;
    CifsDefaults(START, fs);
  }

  // ---- errors -----------------------------------------------------------------------------------------------

  /** A list that the loop rejects is rejected for its first bad option, and for what is wrong with that one. */
  lemma {:induction false} FirstErrorCounts(opts: seq<Opt>) returns (i: nat)
    requires Fold(opts).Err?
    ensures i < |opts| && Fold(opts[..i]).Ok?
    ensures var o, before := opts[i], Fold(opts[..i]).value.options;
            if !GoodValue(o) then o.Pair? && Fold(opts) == Err(Invalid(o.key, o.value))
            else && Fold(opts) == Err(ConflictingRoRw)
                 && ((o == Flag(Ro) && Rw in before) || (o == Flag(Rw) && Ro in before))
  {
    var n := |opts| - 1;
    assert opts[..n + 1] == opts;
    hide Process, GoodValue;
    if Fold(opts[..n]).Err? {
      i := FirstErrorCounts(opts[..n]);
      assert opts[..n][..i] == opts[..i];
    } else {
      i := n;
      ProcessErr(Fold(opts[..n]).value, opts[n]);
    }
  }

  lemma ProcessErr(st: Parsed, o: Opt)
    requires Process(st, o).Err?
    ensures if !GoodValue(o) then o.Pair? && Process(st, o) == Err(Invalid(o.key, o.value))
            else && Process(st, o) == Err(ConflictingRoRw)
                 && ((o == Flag(Ro) && Rw in st.options) || (o == Flag(Rw) && Ro in st.options))
  {
    hide ParseU32, ParseMode, ParseSize;
  }

  /** A list that the validation rejects is rejected for a limit that it exceeds. */
  lemma ErrorNamesLimit(s: string, fs: string)
    requires Fold(Tokens(Raw(s))).Ok? && Parse(s, fs).Err?
    ensures var st := ApplyDefaults(Fold(Tokens(Raw(s))).value, fs); var perf := st.performance;
            match Parse(s, fs).error
            case ConflictingRoRw => st.security.readOnly && Rw in st.options
            case HardZeroTimeout => !perf.soft && perf.timeo == Some(0)
            case UnsupportedNfsVersion =>
              fs == "nfs" && perf.nfsvers.Some? && perf.nfsvers.value != 3 && perf.nfsvers.value != 4
            case SizeOutOfRange => fs in ["nfs", "cifs"] && !(SizeWithin(perf.rsize) && SizeWithin(perf.wsize))
            case TimeoutOutOfRange =>
              fs == "nfs" && perf.timeo.Some? && (perf.timeo.value > 3600 || (perf.timeo.value == 0 && perf.soft))
            case Invalid(_, _) => false
  {
    hide Raw, Tokens, Fold, ApplyDefaults;
  }
}
