/** What the characters of an option mean: sizes with a suffix, modes, and which field of the typed records an option
    of a given name ends up in. */
module OptionValues {
  import opened Wrappers
  import opened Text
  import opened OptionKeys
  import opened OptionParsing
  import opened OptionRoundTrip
  import opened OptionReparse
  import opened OptionOrder

  // ---- sizes --------------------------------------------------------------------------------------------

  predicate AllAre(s: string, upper: char, lower: char) {
    forall i :: 0 <= i < |s| ==> s[i] == upper || s[i] == lower
  }

  lemma {:induction false} StripSuffix(digits: string, suffix: string, c: char)
    requires digits != [] && digits[|digits| - 1] != c && forall i :: 0 <= i < |suffix| ==> suffix[i] == c
    ensures StripEnd(digits + suffix, c) == digits
  {
    if suffix == [] {
      assert digits + suffix == digits;
    } else {
      StripSuffix(digits, suffix[..|suffix| - 1], c);
      assert (digits + suffix)[..|digits + suffix| - 1] == digits + suffix[..|suffix| - 1];
    }
  }

  lemma UpperOfSized(n: nat, suffix: string, c: char)
    requires suffix != "" && c in ['K', 'M', 'G'] && AllAre(suffix, c, (c as int + 32) as char)
    ensures var s := Decimal(n) + suffix; var v := Upper(Trim(s));
            v != "" && v[|v| - 1] == c && StripEnd(v, c) == Decimal(n)
  {
    var s := Decimal(n) + suffix;
    var digits := Decimal(n);
    hide Decimal;
    DecimalDigits(n);
    assert s[0] == digits[0] && s[|s| - 1] == suffix[|suffix| - 1];
    TrimTight(s);
    var letters := Upper(suffix);
    assert Upper(s) == digits + letters;
    StripSuffix(digits, letters, c);
  }

  /** One or more suffix letters of one kind, in either case, scale a size, modulo 2^64. */
  lemma ParseSizeSuffix(n: nat, suffix: string)
    requires n < 0x1_0000_0000_0000_0000 && suffix != ""
    ensures var size, wrap := ParseSize(Decimal(n) + suffix), 0x1_0000_0000_0000_0000;
            && (AllAre(suffix, 'K', 'k') ==> size == Some(n * 1024 % wrap))
            && (AllAre(suffix, 'M', 'm') ==> size == Some(n * 1048576 % wrap))
            && (AllAre(suffix, 'G', 'g') ==> size == Some(n * 1073741824 % wrap))
  {
    ParseDecimal(n, USIZE);
    if AllAre(suffix, 'K', 'k') {
      UpperOfSized(n, suffix, 'K');
    } else if AllAre(suffix, 'M', 'm') {
      UpperOfSized(n, suffix, 'M');
    } else if AllAre(suffix, 'G', 'g') {
      UpperOfSized(n, suffix, 'G');
    }
    hide Decimal, ParseUnsigned, Upper, Trim, StripEnd;
  }

  /** White space around a size does not count. */
  lemma ParseSizeTrims(s: string)
    ensures ParseSize(s) == ParseSize(Trim(s))
  {
    TrimIsTight(s);
    TrimTight(Trim(s));
    hide Trim, Upper, StripEnd, ParseUnsigned;
  }

  /** No other letter is a suffix. */
  lemma ParseSizeOther(n: nat, c: char)
    requires !IsSpace(c) && !('0' <= c <= '9') && c !in ['K', 'k', 'M', 'm', 'G', 'g']
    ensures ParseSize(Decimal(n) + [c]) == None
  {
    var s := Decimal(n) + [c];
    hide Decimal;
    DecimalDigits(n);
    TrimTight(s);
    var v := Upper(s);
    assert v[|v| - 1] == Upper([c])[0];
    assert v[0] != '+';
    assert DigitsValue(v, 10) == None;
  }

  // ---- modes ---------------------------------------------------------------------------------------------

  /** `n` in octal digits */
  function Octal(n: nat): (s: string)
    ensures s != ""
  {
    if n < 8 then [DigitChar(n)] else Octal(n / 8) + [DigitChar(n % 8)]
  }

  lemma {:induction false} OctalValue(n: nat)
    ensures DigitsValue(Octal(n), 8) == Some(n)
    ensures Octal(n)[0] != '+'
  {
    if n >= 8 {
      OctalValue(n / 8);
      var s := Octal(n);
      assert s[..|s| - 1] == Octal(n / 8);
    }
  }

  lemma {:induction false} DecimalStart(n: nat)
    ensures Decimal(n)[0] == '0' <==> n == 0
  {
    if n >= 10 {
      DecimalStart(n / 10);
    }
  }

  /** A mode is octal after a zero and decimal otherwise, so that a lone zero is no mode. */
  lemma ParseModeIs(n: nat)
    requires n < 0x1_0000_0000
    ensures ParseMode("0" + Octal(n)) == Some(n)
    ensures ParseMode(Decimal(n)) == if n == 0 then None else Some(n)
  {
    OctalValue(n);
    DecimalStart(n);
    ParseDecimal(n, U32);
    hide Octal, DigitsValue;
    var s := "0" + Octal(n);
    assert s[1..] == Octal(n);
    if n == 0 {
      assert Decimal(0) == "0" && "0"[1..] == [];
      assert DigitsValue([], 8) == None;
    } else {
      hide Decimal;
    }
  }

  // ---- names ------------------------------------------------------------------------------------------------

  /** The names under which options are looked for */
  lemma OptionNames()
    ensures Spell(Uid) == "uid" && Spell(Gid) == "gid" && Spell(Fmode) == "fmode" && Spell(FileMode) == "file_mode"
    ensures Spell(Dmode) == "dmode" && Spell(DirMode) == "dir_mode" && Spell(Rsize) == "rsize"
    ensures Spell(Wsize) == "wsize" && Spell(Timeo) == "timeo" && Spell(Retrans) == "retrans"
    ensures Spell(Nfsvers) == "nfsvers" && Spell(Vers) == "vers"
    ensures Spell(Ro) == "ro" && Spell(Rw) == "rw" && Spell(Nosuid) == "nosuid" && Spell(Suid) == "suid"
    ensures Spell(Nodev) == "nodev" && Spell(Noexec) == "noexec" && Spell(Soft) == "soft" && Spell(Hard) == "hard"
    ensures Spell(Intr) == "intr" && Spell(Nointr) == "nointr" && Spell(AllowOther) == "allow_other"
    ensures Spell(DefaultPermissions) == "default_permissions"
  {
  }

  lemma {:induction false} TokenListed(raw: seq<string>, piece: string) returns (j: nat)
    requires piece in raw && piece != ""
    ensures j < |Tokens(raw)| && Tokens(raw)[j] == Token(piece)
  {
    hide Token;
    var n := |raw| - 1;
    if raw[n] == piece {
      j := |Tokens(raw)| - 1;
    } else {
      j := TokenListed(raw[..n], piece);
    }
  }

  /** The piece `name=value` of a known name */
  lemma PairListed(s: string, k: Key, v: string) returns (j: nat)
    requires !k.Other? && Spell(k) + "=" + v in Raw(s)
    ensures j < |Tokens(Raw(s))| && Tokens(Raw(s))[j] == Pair(k, v)
  {
    KnownKeysClean(k);
    KnownKeysWellSpelled(k);
    FirstEquals(Spell(k), v);
    hide Raw, Tokens, Classify, Spell, PositionOfEquals;
    var piece := Spell(k) + "=" + v;
    assert piece[|Spell(k)|] == '=';
    j := TokenListed(Raw(s), piece);
  }

  lemma FlagListed(s: string, k: Key) returns (j: nat)
    requires !k.Other? && Spell(k) in Raw(s)
    ensures j < |Tokens(Raw(s))| && Tokens(Raw(s))[j] == Flag(k)
  {
    KnownKeysClean(k);
    KnownKeysWellSpelled(k);
    KnownKeysTight(k);
    FirstEquals(Spell(k), "");
    hide Raw, Tokens, Classify, Spell, PositionOfEquals;
    j := TokenListed(Raw(s), Spell(k));
  }

  /** Only the option under this key sets the field. */
  ghost predicate Alone(k: Key, f: Field) {
    forall o :: Touches(o, f) ==> o.key == k
  }

  lemma GivenField(s: string, fs: string, k: Key, v: string, f: Field)
    requires Parse(s, fs).Ok? && DistinctKeys(Tokens(Raw(s))) && !k.Other? && Spell(k) + "=" + v in Raw(s)
    requires Alone(k, f) && Touches(Pair(k, v), f)
    ensures var r := Parse(s, fs).value; Read(r.security, r.performance, f) == Written(Pair(k, v), f)
    ensures GoodValue(Pair(k, v)) && k in Parse(s, fs).value.options
    ensures Parse(s, fs).value.options[k] == Stored(Pair(k, v))
  {
    hide Raw, Tokens, Spell, Parse, Touches, Written, Read, GoodValue, Stored;
    var j := PairListed(s, k, v);
    ParsedField(s, fs, j, f);
    ParsedStores(s, fs, j);
  }

  /** An accepted number is recorded in the field of its name. */
  lemma GivenNumber(s: string, fs: string, k: Key, v: string)
    requires Parse(s, fs).Ok? && DistinctKeys(Tokens(Raw(s))) && Spell(k) + "=" + v in Raw(s)
    requires k in [Uid, Gid, Timeo, Retrans, Nfsvers]
    ensures var r := Parse(s, fs).value;
            && ParseU32(v).Some? && k in r.options && r.options[k] == v
            && (k == Uid ==> r.security.uid == ParseU32(v))
            && (k == Gid ==> r.security.gid == ParseU32(v))
            && (k == Timeo ==> r.performance.timeo == ParseU32(v))
            && (k == Retrans ==> r.performance.retrans == ParseU32(v))
            && (k == Nfsvers ==> r.performance.nfsvers == ParseU32(v))
  {
    hide Raw, Tokens, Spell, Parse, ParseU32, ParseMode, ParseSize, IsNfsVersion, IsSmbVersion;
    var f := match k case Uid => UidField case Gid => GidField case Timeo => TimeoField case Retrans => RetransField
             case _ => NfsversField;
    GivenField(s, fs, k, v, f);
  }

  /** An accepted size is recorded in the field of its name, and printed as a number. */
  lemma GivenSize(s: string, fs: string, k: Key, v: string)
    requires Parse(s, fs).Ok? && DistinctKeys(Tokens(Raw(s))) && Spell(k) + "=" + v in Raw(s)
    requires k in [Rsize, Wsize]
    ensures var r := Parse(s, fs).value;
            && ParseSize(v).Some? && k in r.options && r.options[k] == Decimal(ParseSize(v).value)
            && (k == Rsize ==> r.performance.rsize == ParseSize(v))
            && (k == Wsize ==> r.performance.wsize == ParseSize(v))
  {
    hide Raw, Tokens, Spell, Parse, ParseU32, ParseMode, ParseSize, IsNfsVersion, IsSmbVersion;
    GivenField(s, fs, k, v, if k == Rsize then RsizeField else WsizeField);
  }

  /** In particular with a suffix: `rsize=64K` is recorded as 65536. */
  lemma GivenSuffixedSize(s: string, fs: string, k: Key, n: nat, suffix: string)
    requires Parse(s, fs).Ok? && DistinctKeys(Tokens(Raw(s))) && k in [Rsize, Wsize]
    requires Spell(k) + "=" + (Decimal(n) + suffix) in Raw(s)
    ensures var perf := Parse(s, fs).value.performance; var size := if k == Rsize then perf.rsize else perf.wsize;
            && (suffix in ["K", "k"] && n * 1024 < 0x1_0000_0000_0000_0000 ==> size == Some(n * 1024))
            && (suffix in ["M", "m"] && n * 1048576 < 0x1_0000_0000_0000_0000 ==> size == Some(n * 1048576))
            && (suffix in ["G", "g"] && n * 1073741824 < 0x1_0000_0000_0000_0000 ==> size == Some(n * 1073741824))
  {
    hide Raw, Tokens, Spell, Parse, ParseSize, Decimal;
    GivenSize(s, fs, k, Decimal(n) + suffix);
    if n < 0x1_0000_0000_0000_0000 && suffix != "" {
      ParseSizeSuffix(n, suffix);
    }
  }

  /** An accepted mode is recorded in the field of its name, unless its alias is given too. */
  lemma GivenMode(s: string, fs: string, k: Key, alias: Key, v: string)
    requires Parse(s, fs).Ok? && DistinctKeys(Tokens(Raw(s))) && Spell(k) + "=" + v in Raw(s)
    requires (k, alias) in [(Fmode, FileMode), (FileMode, Fmode), (Dmode, DirMode), (DirMode, Dmode)]
    requires forall o :: o in Tokens(Raw(s)) ==> o.key != alias
    ensures var sec := Parse(s, fs).value.security;
            && ParseMode(v).Some?
            && (k in [Fmode, FileMode] ==> sec.fmode == ParseMode(v))
            && (k in [Dmode, DirMode] ==> sec.dmode == ParseMode(v))
  {
    hide Raw, Tokens, Spell, Parse, ParseU32, ParseMode, ParseSize, IsNfsVersion, IsSmbVersion;
    var f := if k in [Fmode, FileMode] then FmodeField else DmodeField;
    var j := PairListed(s, k, v);
    var opts := Tokens(Raw(s));
    forall i | j < i < |opts| ensures !Touches(opts[i], f) {
      assert opts[i] in opts && opts[i].key != opts[j].key;
    }
    ParsedField(s, fs, j, f);
    ParsedStores(s, fs, j);
  }

  /** A version that starts with 3 or 4 is taken for one of NFS, the other known ones are those of SMB. */
  lemma GivenVersion(s: string, fs: string, v: string)
    requires Parse(s, fs).Ok? && DistinctKeys(Tokens(Raw(s))) && Spell(Vers) + "=" + v in Raw(s)
    ensures var perf := Parse(s, fs).value.performance;
            && (v != "" && v[0] in ['3', '4'] ==> perf.vers == Some(v))
            && (v in ["1.0", "2.0", "2.1"] ==> perf.versSmb == Some(v))
  {
    hide Raw, Tokens, Spell, Parse, ParseU32, ParseMode, ParseSize;
    if v != "" && v[0] in ['3', '4'] {
      GivenField(s, fs, Vers, v, VersField);
    } else if v in ["1.0", "2.0", "2.1"] {
      GivenField(s, fs, Vers, v, VersSmbField);
    }
  }

  // ---- what is not given ----------------------------------------------------------------------------------

  lemma {:induction false} UntouchedByLoop(opts: seq<Opt>, f: Field)
    requires Fold(opts).Ok? && forall o :: o in opts ==> !Touches(o, f)
    ensures var st := Fold(opts).value;
            Read(st.security, st.performance, f) == Read(START.security, START.performance, f)
  {
    hide Fold, Process, Touches, Read, Written;
    if opts == [] {
      FoldNothing();
    } else {
      var n := |opts| - 1;
      FoldPrefix(opts);
      assert opts[n] in opts;
      UntouchedByLoop(opts[..n], f);
      ProcessField(Fold(opts[..n]).value, opts[n], f);
    }
  }

  /** Only these fields have a default of their own. */
  predicate HasDefault(f: Field) {
    f == IntrField || f == RsizeField || f == WsizeField || f == TimeoField || f == RetransField
  }

  /** No default sets this field, except to what it is at the start. */
  ghost predicate Neutral(d: Default, f: Field) {
    Touches(d.option, f) ==> Written(d.option, f) == Read(START.security, START.performance, f)
  }

  lemma DefaultsNeutral(fs: string, f: Field)
    requires !HasDefault(f)
    ensures forall i :: 0 <= i < |DefaultsOf(fs)| ==> Neutral(DefaultsOf(fs)[i], f)
  {
    hide Neutral;
    var all := {HARD, INTR, RW, RSIZE, WSIZE, TIMEO, RETRANS, ALLOW, PERMISSIONS};
    forall d | d in all ensures Neutral(d, f) { DefaultNeutral(d, f); }
    assert forall i :: 0 <= i < |DefaultsOf(fs)| ==> DefaultsOf(fs)[i] in all;
  }

  lemma DefaultNeutral(d: Default, f: Field)
    requires d in {HARD, INTR, RW, RSIZE, WSIZE, TIMEO, RETRANS, ALLOW, PERMISSIONS} && !HasDefault(f)
    ensures Neutral(d, f)
  {
    hide ParseU32, ParseMode, ParseSize;
  }

  lemma {:induction false} UntouchedByDefaults(st: Parsed, ds: seq<Default>, f: Field)
    requires forall i :: 0 <= i < |ds| ==> Neutral(ds[i], f)
    requires Read(st.security, st.performance, f) == Read(START.security, START.performance, f)
    ensures var t := FillAll(st, ds); Read(t.security, t.performance, f) == Read(START.security, START.performance, f)
    decreases |ds|
  {
    hide Process, Touches, Read, Written;
    if ds != [] {
      if Process(st, ds[0].option).Ok? {
        ProcessField(st, ds[0].option, f);
      }
      assert Neutral(ds[0], f);
      UntouchedByDefaults(FillIn(st, ds[0]), ds[1..], f);
    }
  }

  /** A field without a default that no option sets is empty. */
  lemma UntouchedField(s: string, fs: string, f: Field)
    requires Parse(s, fs).Ok? && !HasDefault(f) && forall o :: o in Tokens(Raw(s)) ==> !Touches(o, f)
    ensures var r := Parse(s, fs).value;
            Read(r.security, r.performance, f) == Read(START.security, START.performance, f)
  {
    hide Raw, Tokens, Parse, Touches, Read, Fold, FillAll, DefaultsOf, Neutral, Validate;
    ParseParts(s, fs);
    DefaultsNeutral(fs, f);
    UntouchedByLoop(Tokens(Raw(s)), f);
    UntouchedByDefaults(Fold(Tokens(Raw(s))).value, DefaultsOf(fs), f);
  }

  lemma {:induction false} TokenFrom(raw: seq<string>, o: Opt) returns (piece: string)
    requires o in Tokens(raw)
    ensures piece in raw && piece != "" && Token(piece) == o
  {
    hide Token;
    var p := PieceOf(raw, o);
    piece := raw[p];
  }

  lemma FlagGivenIff(s: string, k: Key)
    requires !k.Other?
    ensures Flag(k) in Tokens(Raw(s)) <==> Spell(k) in Raw(s)
  {
    hide Raw, Tokens, Spell, Classify, Tight;
    if Spell(k) in Raw(s) {
      var j := FlagListed(s, k);
    }
    if Flag(k) in Tokens(Raw(s)) {
      var piece := TokenFrom(Raw(s), Flag(k));
      RawIsTight(s);
      PieceIsClean(piece);
    }
  }

  /** The field is set by the flag `on`, cleared by `off`, and touched by nothing else. */
  ghost predicate Switch(f: Field, on: Key, off: Key) {
    && (forall o :: Touches(o, f) <==> o == Flag(on) || o == Flag(off))
    && Written(Flag(on), f) == Bit(true) && Written(Flag(off), f) == Bit(false)
    && Read(START.security, START.performance, f) == Bit(false) && !HasDefault(f) && on != off
  }

  lemma ReadOnlySwitch()
    ensures Switch(ReadOnlyField, Ro, Rw)
  {
    hide ParseU32, ParseMode, ParseSize;
  }

  lemma SoftSwitch()
    ensures Switch(SoftField, Soft, Hard)
  {
    hide ParseU32, ParseMode, ParseSize;
  }

  lemma SuidSwitches()
    ensures Switch(SuidField, Suid, Nosuid) && Switch(NosuidField, Nosuid, Suid)
  {
    hide ParseU32, ParseMode, ParseSize;
  }

  /** The other flag was not given. */
  lemma FlagDecides(s: string, fs: string, k: Key, other: Key, f: Field)
    requires Parse(s, fs).Ok? && DistinctKeys(Tokens(Raw(s))) && Switch(f, k, other)
    requires Flag(other) !in Tokens(Raw(s))
    ensures var r := Parse(s, fs).value;
            Read(r.security, r.performance, f) == Bit(Flag(k) in Tokens(Raw(s)))
  {
    hide Raw, Tokens, Parse, Touches, Read, Written;
    var opts := Tokens(Raw(s));
    if Flag(k) in opts {
      var j :| 0 <= j < |opts| && opts[j] == Flag(k);
      forall i | j < i < |opts| ensures !Touches(opts[i], f) {
        assert opts[i] in opts && opts[i].key != opts[j].key;
      }
      ParsedField(s, fs, j, f);
    } else {
      UntouchedField(s, fs, f);
    }
  }

  /** The flag that sets the field was not given. */
  lemma FlagClears(s: string, fs: string, k: Key, other: Key, f: Field)
    requires Parse(s, fs).Ok? && Switch(f, other, k)
    requires Flag(other) !in Tokens(Raw(s))
    ensures var r := Parse(s, fs).value; Read(r.security, r.performance, f) == Bit(false)
  {
    hide Raw, Tokens, Parse, Touches, Read, Written;
    var opts := Tokens(Raw(s));
    if Flag(k) in opts {
      var j := LastOf(opts, Flag(k));
      forall i | j < i < |opts| ensures !Touches(opts[i], f) {
        assert opts[i] in opts;
      }
      ParsedField(s, fs, j, f);
    } else {
      UntouchedField(s, fs, f);
    }
  }

  lemma {:induction false} LastOf(opts: seq<Opt>, o: Opt) returns (j: nat)
    requires o in opts
    ensures j < |opts| && opts[j] == o && forall i :: j < i < |opts| ==> opts[i] != o
  {
    var n := |opts| - 1;
    if opts[n] == o {
      j := n;
    } else {
      j := LastOf(opts[..n], o);
    }
  }

  /** What the flags of an accepted list come to, each switch given at most one way */
  lemma GivenFlags(s: string, fs: string)
    requires Parse(s, fs).Ok? && DistinctKeys(Tokens(Raw(s)))
    ensures var sec, perf, raw := Parse(s, fs).value.security, Parse(s, fs).value.performance, Raw(s);
            && (sec.readOnly <==> "ro" in raw)
            && (sec.nodev <==> "nodev" in raw) && (sec.noexec <==> "noexec" in raw)
            && ("suid" !in raw ==> !sec.suid && (sec.nosuid <==> "nosuid" in raw))
            && ("nosuid" !in raw ==> !sec.nosuid && (sec.suid <==> "suid" in raw))
            && ("hard" !in raw ==> (perf.soft <==> "soft" in raw)) && ("soft" !in raw ==> !perf.soft)
            && ("intr" in raw && "nointr" !in raw ==> perf.intr) && ("nointr" in raw && "intr" !in raw ==> !perf.intr)
  {
    hide Raw, Tokens, Parse, Spell, Touches, DistinctKeys;
    OptionNames();
    GivenReadOnly(s, fs);
    GivenSuid(s, fs);
    GivenSoft(s, fs);
    GivenIntr(s, fs, Intr, Nointr);
    GivenIntr(s, fs, Nointr, Intr);
    FlagGivenIff(s, Nodev);
    FlagGivenIff(s, Noexec);
    OnlyFlag(s, fs, Nodev, NodevField);
    OnlyFlag(s, fs, Noexec, NoexecField);
  }

  lemma GivenIntr(s: string, fs: string, k: Key, other: Key)
    requires Parse(s, fs).Ok? && DistinctKeys(Tokens(Raw(s)))
    requires (k, other) in [(Intr, Nointr), (Nointr, Intr)]
    ensures Spell(k) in Raw(s) && Spell(other) !in Raw(s) ==> Parse(s, fs).value.performance.intr == (k == Intr)
  {
    hide Raw, Tokens, Parse, Spell;
    FlagGivenIff(s, k);
    FlagGivenIff(s, other);
    var opts := Tokens(Raw(s));
    if Flag(k) in opts && Flag(other) !in opts {
      var j := LastOf(opts, Flag(k));
      forall i | j < i < |opts| ensures !Touches(opts[i], IntrField) {
        assert opts[i] in opts;
      }
      ParsedField(s, fs, j, IntrField);
    }
  }

  lemma OnlyFlag(s: string, fs: string, k: Key, f: Field)
    requires Parse(s, fs).Ok? && DistinctKeys(Tokens(Raw(s)))
    requires (k == Nodev && f == NodevField) || (k == Noexec && f == NoexecField)
    ensures var r := Parse(s, fs).value;
            Read(r.security, r.performance, f) == Bit(Flag(k) in Tokens(Raw(s)))
  {
    hide Raw, Tokens, Parse;
    if Flag(k) in Tokens(Raw(s)) {
      var j :| 0 <= j < |Tokens(Raw(s))| && Tokens(Raw(s))[j] == Flag(k);
      ParsedField(s, fs, j, f);
    } else {
      UntouchedField(s, fs, f);
    }
  }

  lemma GivenReadOnly(s: string, fs: string)
    requires Parse(s, fs).Ok? && DistinctKeys(Tokens(Raw(s)))
    ensures Parse(s, fs).value.security.readOnly <==> Spell(Ro) in Raw(s)
  {
    hide Raw, Tokens, Parse, Spell, Switch, DistinctKeys;
    FlagGivenIff(s, Ro);
    ReadOnlySwitch();
    var opts := Tokens(Raw(s));
    if Flag(Ro) in opts {
      var i :| 0 <= i < |opts| && opts[i] == Flag(Ro);
      if Flag(Rw) in opts {
        var j :| 0 <= j < |opts| && opts[j] == Flag(Rw);
        ReadOnlyWithRwRejected(s, fs, i, j);
      } else {
        FlagDecides(s, fs, Ro, Rw, ReadOnlyField);
      }
    } else {
      FlagClears(s, fs, Rw, Ro, ReadOnlyField);
    }
  }

  lemma GivenSuid(s: string, fs: string)
    requires Parse(s, fs).Ok? && DistinctKeys(Tokens(Raw(s)))
    ensures var sec := Parse(s, fs).value.security;
            && (Spell(Suid) !in Raw(s) ==> !sec.suid && (sec.nosuid <==> Spell(Nosuid) in Raw(s)))
            && (Spell(Nosuid) !in Raw(s) ==> !sec.nosuid && (sec.suid <==> Spell(Suid) in Raw(s)))
  {
    hide Raw, Tokens, Parse, Spell, Switch, DistinctKeys;
    FlagGivenIff(s, Suid);
    FlagGivenIff(s, Nosuid);
    SuidSwitches();
    if Flag(Suid) !in Tokens(Raw(s)) {
      FlagClears(s, fs, Nosuid, Suid, SuidField);
      FlagDecides(s, fs, Nosuid, Suid, NosuidField);
    }
    if Flag(Nosuid) !in Tokens(Raw(s)) {
      FlagClears(s, fs, Suid, Nosuid, NosuidField);
      FlagDecides(s, fs, Suid, Nosuid, SuidField);
    }
  }

  lemma GivenSoft(s: string, fs: string)
    requires Parse(s, fs).Ok? && DistinctKeys(Tokens(Raw(s)))
    ensures var perf := Parse(s, fs).value.performance;
            && (Spell(Hard) !in Raw(s) ==> (perf.soft <==> Spell(Soft) in Raw(s)))
            && (Spell(Soft) !in Raw(s) ==> !perf.soft)
  {
    hide Raw, Tokens, Parse, Spell, Switch, DistinctKeys;
    FlagGivenIff(s, Soft);
    FlagGivenIff(s, Hard);
    SoftSwitch();
    if Flag(Hard) !in Tokens(Raw(s)) {
      FlagDecides(s, fs, Soft, Hard, SoftField);
    }
    if Flag(Soft) !in Tokens(Raw(s)) {
      FlagClears(s, fs, Hard, Soft, SoftField);
    }
  }
}
