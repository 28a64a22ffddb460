/** `MountOptionParser::parse` as functions of its arguments: tokens, the fold over them, the
    defaults and the validation; and what the fold means when no key occurs twice. */
module OptionParsing {
  import opened Wrappers
  import opened Text
  import opened OptionKeys

  /** One trimmed piece of the option string. */
  datatype Opt = Flag(key: Key) | Pair(key: Key, value: string)

  datatype Security = Security(readOnly: bool, nosuid: bool, nodev: bool, noexec: bool, suid: bool,
                               fmode: Option<nat>, dmode: Option<nat>, uid: Option<nat>, gid: Option<nat>)

  datatype Performance = Performance(rsize: Option<nat>, wsize: Option<nat>, timeo: Option<nat>, retrans: Option<nat>,
                                     soft: bool, intr: bool, nfsvers: Option<nat>,
                                     vers: Option<string>, versSmb: Option<string>)

  /** What the parsing loop builds. */
  datatype Parsed = Parsed(options: map<Key, string>, security: Security, performance: Performance)

  datatype MountOptions = MountOptions(raw: seq<string>, options: map<Key, string>, fsType: string,
                                       security: Security, performance: Performance)

  datatype OptionError =
    | Invalid(key: Key, value: string)
    | ConflictingRoRw
    | HardZeroTimeout
    | UnsupportedNfsVersion
    | SizeOutOfRange
    | TimeoutOutOfRange

  const START := Parsed(map[], Security(false, false, false, false, false, None, None, None, None),
                        Performance(None, None, None, None, false, false, None, None, None))

  const U32: nat := 0x1_0000_0000
  const USIZE: nat := 0x1_0000_0000_0000_0000
  const ONE_MEGABYTE := "1048576"

  // ---- values ----------------------------------------------------------------------------------

  function ParseU32(value: string): Option<nat> {
    ParseUnsigned(value, 10, U32)
  }

  /** Octal after a leading zero, decimal otherwise. */
  function ParseMode(value: string): Option<nat> {
    if value != [] && value[0] == '0' then ParseUnsigned(value[1..], 8, U32) else ParseU32(value)
  }

  /** `to_uppercase`. Only ASCII letters matter: no other character becomes a digit or K, M, G. */
  function Upper(s: string): (r: string)
    ensures |r| == |s|
  {
    seq(|s|, i requires 0 <= i < |s| =>
      if 'a' <= s[i] <= 'z' then (s[i] as int - 'a' as int + 'A' as int) as char else s[i])
  }

  /** `trim_end_matches(c)` */
  function StripEnd(s: string, c: char): string {
    if s != [] && s[|s| - 1] == c then StripEnd(s[..|s| - 1], c) else s
  }

  /** The multiplication wraps, as it does without overflow checks. */
  function Scaled(digits: string, unit: nat): Option<nat> {
    var n := ParseUnsigned(digits, 10, USIZE);
    if n.Some? then Some((n.value * unit) % USIZE) else None
  }

  function ParseSize(value: string): Option<nat> {
    var v := Upper(Trim(value));
    if v != [] && v[|v| - 1] == 'K' then Scaled(StripEnd(v, 'K'), 1024)
    else if v != [] && v[|v| - 1] == 'M' then Scaled(StripEnd(v, 'M'), 1024 * 1024)
    else if v != [] && v[|v| - 1] == 'G' then Scaled(StripEnd(v, 'G'), 1024 * 1024 * 1024)
    else ParseUnsigned(v, 10, USIZE)
  }

  /** A printed size reads back as itself. */
  lemma ParseSizeDecimal(n: nat)
    requires n < USIZE
    ensures ParseSize(Decimal(n)) == Some(n)
  {
    hide Decimal, ParseUnsigned, Trim, StripEnd;
    var s := Decimal(n);
    DecimalDigits(n);
    TrimTight(s);
    assert Upper(s) == s;
    ParseDecimal(n, USIZE);
  }

  lemma ParseSizeBound(value: string)
    ensures ParseSize(value).Some? ==> ParseSize(value).value < USIZE
  {
  }

  // ---- the loop ----------------------------------------------------------------------------------

  /** The security half of `process_key_value_option`; None when the value does not parse. */
  function PairSecurity(sec: Security, key: Key, value: string): Option<Security> {
    match key
    case Uid => var n := ParseU32(value); if n.None? then None else Some(sec.(uid := n))
    case Gid => var n := ParseU32(value); if n.None? then None else Some(sec.(gid := n))
    case Fmode | FileMode => var n := ParseMode(value); if n.None? then None else Some(sec.(fmode := n))
    case Dmode | DirMode => var n := ParseMode(value); if n.None? then None else Some(sec.(dmode := n))
    case _ => Some(sec)
  }

  /** The performance half */
  function PairPerformance(perf: Performance, key: Key, value: string): Option<Performance> {
    match key
    case Rsize => var n := ParseSize(value); if n.None? then None else Some(perf.(rsize := n))
    case Wsize => var n := ParseSize(value); if n.None? then None else Some(perf.(wsize := n))
    case Timeo => var n := ParseU32(value); if n.None? then None else Some(perf.(timeo := n))
    case Retrans => var n := ParseU32(value); if n.None? then None else Some(perf.(retrans := n))
    case Nfsvers => var n := ParseU32(value); if n.None? then None else Some(perf.(nfsvers := n))
    case Vers =>
      if IsNfsVersion(value) then Some(perf.(vers := Some(value)))
      else if IsSmbVersion(value) then Some(perf.(versSmb := Some(value)))
      else Some(perf)
    case _ => Some(perf)
  }

  predicate IsNfsVersion(value: string) {
    value != [] && (value[0] == '3' || value[0] == '4')
  }

  predicate IsSmbVersion(value: string) {
    value in ["1.0", "2.0", "2.1", "3.0"]
  }

  /** `process_key_value_option`: sizes are recorded as numbers, everything else as given. */
  function ProcessPair(st: Parsed, key: Key, value: string): Result<Parsed, OptionError> {
    var sec := PairSecurity(st.security, key, value);
    var perf := PairPerformance(st.performance, key, value);
    if sec.None? || perf.None? then Err(Invalid(key, value))
    else
      var stored := if key == Rsize || key == Wsize then Decimal(ParseSize(value).value) else value;
      Ok(Parsed(st.options[key := stored], sec.value, perf.value))
  }

  function FlagSecurity(sec: Security, key: Key): Security {
    match key
    case Ro => sec.(readOnly := true)
    case Rw => sec.(readOnly := false)
    case Nosuid => sec.(nosuid := true, suid := false)
    case Suid => sec.(suid := true, nosuid := false)
    case Nodev => sec.(nodev := true)
    case Noexec => sec.(noexec := true)
    case _ => sec
  }

  function FlagPerformance(perf: Performance, key: Key): Performance {
    match key
    case Soft => perf.(soft := true)
    case Hard => perf.(soft := false)
    case Intr => perf.(intr := true)
    case Nointr => perf.(intr := false)
    case _ => perf
  }

  /** `process_boolean_option` */
  function ProcessFlag(st: Parsed, key: Key): Result<Parsed, OptionError> {
    if (key == Ro && Rw in st.options) || (key == Rw && Ro in st.options) then Err(ConflictingRoRw)
    else Ok(Parsed(st.options[key := ""], FlagSecurity(st.security, key), FlagPerformance(st.performance, key)))
  }

  function Process(st: Parsed, o: Opt): Result<Parsed, OptionError> {
    match o
    case Flag(key) => ProcessFlag(st, key)
    case Pair(key, value) => ProcessPair(st, key, value)
  }

  function Fold(opts: seq<Opt>): Result<Parsed, OptionError> {
    if opts == [] then Ok(START)
    else
      var r := Fold(opts[..|opts| - 1]);
      if r.Err? then r else Process(r.value, opts[|opts| - 1])
  }

  // ---- tokens ------------------------------------------------------------------------------------

  function PositionOfEquals(s: string): (p: nat)
    ensures p <= |s|
    ensures p < |s| ==> s[p] == '='
    ensures forall i :: 0 <= i < p ==> s[i] != '='
  {
    if s == [] || s[0] == '=' then 0 else 1 + PositionOfEquals(s[1..])
  }

  /** `opt.split_once('=')` decides between a key with a value and a flag. */
  function Token(piece: string): Opt {
    var p := PositionOfEquals(piece);
    if p < |piece| then Pair(Classify(piece[..p]), piece[p + 1..]) else Flag(Classify(piece))
  }

  function TrimAll(pieces: seq<string>): (raw: seq<string>)
    ensures |raw| == |pieces| && forall i :: 0 <= i < |raw| ==> raw[i] == Trim(pieces[i])
  {
    seq(|pieces|, i requires 0 <= i < |pieces| => Trim(pieces[i]))
  }

  function Raw(s: string): seq<string> {
    TrimAll(Split(s, ','))
  }

  /** The tokens of the non-empty pieces. */
  function Tokens(raw: seq<string>): seq<Opt> {
    if raw == [] then []
    else
      var before := Tokens(raw[..|raw| - 1]);
      if raw[|raw| - 1] == "" then before else before + [Token(raw[|raw| - 1])]
  }

  // ---- defaults and validation --------------------------------------------------------------------

  /** An option that is inserted unless one of the given keys is present */
  datatype Default = Default(unless: set<Key>, option: Opt)

  const HARD := Default({Hard, Soft}, Flag(Hard))
  const INTR := Default({Intr, Nointr}, Flag(Intr))
  const RW := Default({Rw, Ro}, Flag(Rw))
  const RSIZE := Default({Rsize}, Pair(Rsize, ONE_MEGABYTE))
  const WSIZE := Default({Wsize}, Pair(Wsize, ONE_MEGABYTE))
  const TIMEO := Default({Timeo}, Pair(Timeo, "600"))
  const RETRANS := Default({Retrans}, Pair(Retrans, "2"))
  const ALLOW := Default({AllowOther}, Flag(AllowOther))
  const PERMISSIONS := Default({DefaultPermissions}, Flag(DefaultPermissions))

  /** The file system type is compared as given, not as normalised. */
  function DefaultsOf(fs: string): seq<Default> {
    if fs == "nfs" then [HARD, INTR, RSIZE, WSIZE, TIMEO, RETRANS]
    else if fs == "cifs" || fs == "smbfs" then [RW, RSIZE, WSIZE]
    else if fs == "sshfs" then [ALLOW, PERMISSIONS]
    else []
  }

  function FillIn(st: Parsed, d: Default): Parsed {
    if exists k :: k in d.unless && k in st.options then st
    else
      var r := Process(st, d.option);
      if r.Ok? then r.value else st
  }

  function FillAll(st: Parsed, ds: seq<Default>): Parsed
    decreases |ds|
  {
    if ds == [] then st else FillAll(FillIn(st, ds[0]), ds[1..])
  }

  /** `apply_defaults` */
  function ApplyDefaults(st: Parsed, fs: string): Parsed {
    FillAll(st, DefaultsOf(fs))
  }

  predicate SizeAllowed(size: Option<nat>) {
    size.Some? ==> 1024 <= size.value <= 104_857_600
  }

  /** `validate_options` */
  function Validate(st: Parsed, fs: string): Result<(), OptionError> {
    var perf := st.performance;
    if st.security.readOnly && Rw in st.options then Err(ConflictingRoRw)
    else if !perf.soft && perf.timeo == Some(0) then Err(HardZeroTimeout)
    else if fs == "nfs" then
      if perf.nfsvers.Some? && !(3 <= perf.nfsvers.value <= 4) then Err(UnsupportedNfsVersion)
      else if !SizeAllowed(perf.rsize) || !SizeAllowed(perf.wsize) then Err(SizeOutOfRange)
      else if perf.timeo.Some? && !(1 <= perf.timeo.value <= 3600) then Err(TimeoutOutOfRange)
      else Ok(())
    else if fs == "cifs" then
      if !SizeAllowed(perf.rsize) || !SizeAllowed(perf.wsize) then Err(SizeOutOfRange) else Ok(())
    else Ok(())
  }

  function NormalizeFsType(fs: string): string {
    if fs == "smbfs" then "cifs" else if fs == "nfs4" then "nfs" else fs
  }

  /** Everything after the tokens. */
  function Conclude(raw: seq<string>, folded: Result<Parsed, OptionError>, fs: string)
    : Result<MountOptions, OptionError>
  {
    if folded.Err? then Err(folded.error)
    else
      var st := ApplyDefaults(folded.value, fs);
      var v := Validate(st, fs);
      if v.Err? then Err(v.error)
      else Ok(MountOptions(raw, st.options, NormalizeFsType(fs), st.security, st.performance))
  }

  /** `parse` */
  function Parse(s: string, fs: string): Result<MountOptions, OptionError> {
    Conclude(Raw(s), Fold(Tokens(Raw(s))), fs)
  }

  // ---- the meaning of a list without repeated keys -------------------------------------------------

  /** The option given for each key. */
  function Entries(opts: seq<Opt>): (e: map<Key, Opt>)
    ensures forall k :: k in e ==> e[k].key == k && e[k] in opts
    ensures forall o :: o in opts ==> o.key in e
  {
    if opts == [] then map[]
    else
      var last := opts[|opts| - 1];
      var e := Entries(opts[..|opts| - 1]);
      e[last.key := last]
  }

  ghost predicate DistinctKeys(opts: seq<Opt>) {
    forall i, j :: 0 <= i < j < |opts| ==> opts[i].key != opts[j].key
  }

  predicate IsFlag(e: map<Key, Opt>, k: Key) {
    k in e && e[k].Flag?
  }

  /** The value given for a key, if it was given one. */
  function Given(e: map<Key, Opt>, k: Key): Option<string> {
    if k in e && e[k].Pair? then Some(e[k].value) else None
  }

  predicate GoodValue(o: Opt) {
    o.Pair? ==>
      match o.key
      case Uid | Gid | Timeo | Retrans | Nfsvers => ParseU32(o.value).Some?
      case Fmode | FileMode | Dmode | DirMode => ParseMode(o.value).Some?
      case Rsize | Wsize => ParseSize(o.value).Some?
      case _ => true
  }

  /** What the options map records. */
  function Stored(o: Opt): string
    requires GoodValue(o)
  {
    match o
    case Flag(_) => ""
    case Pair(k, v) => if k == Rsize || k == Wsize then Decimal(ParseSize(v).value) else v
  }

  /** The set of options is accepted: all values parse, and no `rw` flag stands beside an `ro`. */
  ghost predicate Accepted(e: map<Key, Opt>) {
    (forall k :: k in e ==> GoodValue(e[k])) && !(IsFlag(e, Rw) && Ro in e)
  }

  function U32Of(e: map<Key, Opt>, k: Key): Option<nat> {
    var v := Given(e, k);
    if v.Some? then ParseU32(v.value) else None
  }

  function SizeOf(e: map<Key, Opt>, k: Key): Option<nat> {
    var v := Given(e, k);
    if v.Some? then ParseSize(v.value) else None
  }

  /** The first name of an alias pair wins over the second. */
  function ModeOf(e: map<Key, Opt>, k: Key, alias: Key): Option<nat> {
    if Given(e, k).Some? then ParseMode(Given(e, k).value)
    else if Given(e, alias).Some? then ParseMode(Given(e, alias).value)
    else None
  }

  function DenoteSecurity(e: map<Key, Opt>): Security {
    Security(
      readOnly := IsFlag(e, Ro),
      nosuid := IsFlag(e, Nosuid) && !IsFlag(e, Suid),
      nodev := IsFlag(e, Nodev),
      noexec := IsFlag(e, Noexec),
      suid := IsFlag(e, Suid),
      fmode := ModeOf(e, Fmode, FileMode),
      dmode := ModeOf(e, Dmode, DirMode),
      uid := U32Of(e, Uid),
      gid := U32Of(e, Gid))
  }

  function DenotePerformance(e: map<Key, Opt>): Performance {
    var vers := Given(e, Vers);
    Performance(
      rsize := SizeOf(e, Rsize),
      wsize := SizeOf(e, Wsize),
      timeo := U32Of(e, Timeo),
      retrans := U32Of(e, Retrans),
      soft := IsFlag(e, Soft),
      intr := IsFlag(e, Intr) && !IsFlag(e, Nointr),
      nfsvers := U32Of(e, Nfsvers),
      vers := if vers.Some? && IsNfsVersion(vers.value) then vers else None,
      versSmb := if vers.Some? && !IsNfsVersion(vers.value) && IsSmbVersion(vers.value) then vers else None)
  }

  /** The result of a set of options, order playing no part. */
  function Denote(e: map<Key, Opt>): Parsed
    requires forall k :: k in e ==> GoodValue(e[k])
  {
    Parsed(map k | k in e :: Stored(e[k]), DenoteSecurity(e), DenotePerformance(e))
  }

  /** Two options whose order decides the result of parsing, `first` being the one that comes first when
      printed: contradictory flags, an alias pair with different modes, and a flag `rw` that is accepted before
      an `ro` with a value and rejected after it. */
  predicate Conflict(first: Opt, second: Opt) {
    || (first == Flag(Hard) && second == Flag(Soft))
    || (first == Flag(Intr) && second == Flag(Nointr))
    || (first == Flag(Nosuid) && second == Flag(Suid))
    || (first.Pair? && second.Pair? && IsAlias(first.key, second.key)
        && ParseMode(first.value) != ParseMode(second.value))
    || (first.Pair? && first.key == Ro && second == Flag(Rw))
  }

  predicate IsAlias(alias: Key, k: Key) {
    (alias == FileMode && k == Fmode) || (alias == DirMode && k == Dmode)
  }

  /** Two options whose order the loop notices: conflicting ones, and a flag `ro` with an `rw` that has a value,
      which either the loop or the validation rejects. The meaning above is the outcome of `first` coming first. */
  predicate Clash(first: Opt, second: Opt) {
    Conflict(first, second) || (first == Flag(Ro) && second.Pair? && second.key == Rw)
  }

  ghost predicate ClashesOrdered(opts: seq<Opt>) {
    forall i, j :: 0 <= i < j < |opts| ==> !Clash(opts[j], opts[i])
  }

  ghost predicate NoClash(opts: seq<Opt>) {
    forall i, j :: 0 <= i < |opts| && 0 <= j < |opts| ==> !Clash(opts[i], opts[j])
  }

  /** `o` comes under a new key and after nothing it should have preceded. */
  ghost predicate Extends(e: map<Key, Opt>, o: Opt) {
    o.key !in e && forall k :: k in e ==> e[k].key == k && !Clash(o, e[k])
  }

  lemma ExtendedLookups(e: map<Key, Opt>, o: Opt)
    requires Extends(e, o)
    ensures var f := e[o.key := o];
            && (forall k :: IsFlag(f, k) == if k == o.key then o.Flag? else IsFlag(e, k))
            && (forall k :: Given(f, k) == if k != o.key then Given(e, k) else if o.Pair? then Some(o.value) else None)
    ensures !IsFlag(e, o.key) && Given(e, o.key) == None
  {
  }

  lemma ExtendedClashes(e: map<Key, Opt>, o: Opt)
    requires Extends(e, o)
    ensures o == Flag(Hard) ==> !IsFlag(e, Soft)
    ensures o == Flag(Intr) ==> !IsFlag(e, Nointr)
    ensures o == Flag(Nosuid) ==> !IsFlag(e, Suid)
    ensures o.Pair? && o.key == FileMode && Given(e, Fmode).Some? ==>
              ParseMode(Given(e, Fmode).value) == ParseMode(o.value)
    ensures o.Pair? && o.key == DirMode && Given(e, Dmode).Some? ==>
              ParseMode(Given(e, Dmode).value) == ParseMode(o.value)
    ensures o == Flag(Ro) && Rw in e ==> IsFlag(e, Rw)
    ensures o.Pair? && o.key == Ro ==> !IsFlag(e, Rw)
  {
    hide ParseMode;
    assert Soft in e ==> !Clash(o, e[Soft]);
    assert Nointr in e ==> !Clash(o, e[Nointr]);
    assert Suid in e ==> !Clash(o, e[Suid]);
    assert Fmode in e ==> !Clash(o, e[Fmode]);
    assert Dmode in e ==> !Clash(o, e[Dmode]);
    assert Rw in e ==> !Clash(o, e[Rw]);
  }

  lemma FlagSecurityMeaning(e: map<Key, Opt>, key: Key)
    requires Extends(e, Flag(key)) && !(key == Rw && Ro in e)
    ensures FlagSecurity(DenoteSecurity(e), key) == DenoteSecurity(e[key := Flag(key)])
  {
    ExtendedLookups(e, Flag(key));
    ExtendedClashes(e, Flag(key));
    assert key == Rw ==> !IsFlag(e, Ro);
    hide IsFlag, Given, U32Of, ModeOf, Extends;
    FlagLeavesValues(e, key);
  }

  lemma FlagLeavesValues(e: map<Key, Opt>, key: Key)
    requires Extends(e, Flag(key))
    ensures var f := e[key := Flag(key)];
            && (forall k :: U32Of(f, k) == U32Of(e, k)) && (forall k :: SizeOf(f, k) == SizeOf(e, k))
            && (forall j, k :: ModeOf(f, j, k) == ModeOf(e, j, k))
            && Given(f, Vers) == Given(e, Vers)
  {
    ExtendedLookups(e, Flag(key));
    hide Given, ParseU32, ParseSize, ParseMode, Extends;
  }

  lemma FlagPerformanceMeaning(e: map<Key, Opt>, key: Key)
    requires Extends(e, Flag(key))
    ensures FlagPerformance(DenotePerformance(e), key) == DenotePerformance(e[key := Flag(key)])
  {
    ExtendedLookups(e, Flag(key));
    ExtendedClashes(e, Flag(key));
    hide IsFlag, Given, U32Of, SizeOf, Extends, IsNfsVersion, IsSmbVersion;
    FlagLeavesValues(e, key);
  }

  lemma PairLookups(e: map<Key, Opt>, key: Key, value: string)
    requires Extends(e, Pair(key, value))
    ensures var f := e[key := Pair(key, value)];
            && (forall k :: IsFlag(f, k) == IsFlag(e, k))
            && (forall k :: U32Of(f, k) == if k == key then ParseU32(value) else U32Of(e, k))
            && ModeOf(f, Fmode, FileMode)
               == (if key == Fmode || key == FileMode then ParseMode(value) else ModeOf(e, Fmode, FileMode))
            && ModeOf(f, Dmode, DirMode)
               == (if key == Dmode || key == DirMode then ParseMode(value) else ModeOf(e, Dmode, DirMode))
  {
    ExtendedLookups(e, Pair(key, value));
    ExtendedClashes(e, Pair(key, value));
    hide IsFlag, Given, ParseU32, ParseMode, Extends;
  }

  lemma PairSecurityMeaning(e: map<Key, Opt>, key: Key, value: string)
    requires Extends(e, Pair(key, value)) && GoodValue(Pair(key, value))
    ensures PairSecurity(DenoteSecurity(e), key, value) == Some(DenoteSecurity(e[key := Pair(key, value)]))
  {
    PairLookups(e, key, value);
    hide IsFlag, U32Of, ModeOf, ParseU32, ParseMode, ParseSize, Extends;
  }

  lemma PairPerformanceMeaning(e: map<Key, Opt>, key: Key, value: string)
    requires Extends(e, Pair(key, value)) && GoodValue(Pair(key, value))
    ensures PairPerformance(DenotePerformance(e), key, value) == Some(DenotePerformance(e[key := Pair(key, value)]))
  {
    ExtendedLookups(e, Pair(key, value));
    hide IsFlag, Given, ParseU32, ParseSize, ParseMode, Extends, IsNfsVersion, IsSmbVersion;
  }

  lemma AcceptedExtension(e: map<Key, Opt>, o: Opt)
    requires Extends(e, o)
    ensures Accepted(e[o.key := o]) <==>
              Accepted(e) && GoodValue(o) && !(o == Flag(Rw) && Ro in e) && !(o == Flag(Ro) && Rw in e)
  {
    var f := e[o.key := o];
    hide GoodValue;
    ExtendedLookups(e, o);
    ExtendedClashes(e, o);
    assert forall k :: k in e ==> f[k] == e[k];
    assert f[o.key] == o;
  }

  lemma BadValueFails(st: Parsed, o: Opt)
    requires !GoodValue(o)
    ensures Process(st, o).Err?
  {
    hide ParseU32, ParseSize, ParseMode;
  }

  lemma OptionsExtended(e: map<Key, Opt>, o: Opt)
    requires o.key !in e && GoodValue(o) && forall k :: k in e ==> GoodValue(e[k])
    ensures var f := e[o.key := o]; forall k :: k in f ==> GoodValue(f[k])
    ensures Denote(e[o.key := o]).options == Denote(e).options[o.key := Stored(o)]
  {
    hide GoodValue, Stored, DenoteSecurity, DenotePerformance;
    var f := e[o.key := o];
    forall k | k in f ensures GoodValue(f[k]) {
      assert k != o.key ==> f[k] == e[k];
    }
  }

  lemma ProcessFlagMeaning(e: map<Key, Opt>, key: Key)
    requires Extends(e, Flag(key)) && Accepted(e) && Accepted(e[key := Flag(key)])
    ensures ProcessFlag(Denote(e), key) == Ok(Denote(e[key := Flag(key)]))
  {
    AcceptedExtension(e, Flag(key));
    OptionsExtended(e, Flag(key));
    FlagSecurityMeaning(e, key);
    FlagPerformanceMeaning(e, key);
    hide Extends, DenoteSecurity, DenotePerformance, FlagSecurity, FlagPerformance;
  }

  lemma ProcessPairMeaning(e: map<Key, Opt>, key: Key, value: string)
    requires Extends(e, Pair(key, value)) && Accepted(e) && Accepted(e[key := Pair(key, value)])
    ensures ProcessPair(Denote(e), key, value) == Ok(Denote(e[key := Pair(key, value)]))
  {
    AcceptedExtension(e, Pair(key, value));
    OptionsExtended(e, Pair(key, value));
    PairSecurityMeaning(e, key, value);
    PairPerformanceMeaning(e, key, value);
    hide Extends, DenoteSecurity, DenotePerformance, PairSecurity, PairPerformance, ParseSize;
  }

  /** Adding one more option under a new key. */
  lemma ProcessMeaning(e: map<Key, Opt>, o: Opt)
    requires Accepted(e) && Extends(e, o)
    ensures Process(Denote(e), o).Ok? <==> Accepted(e[o.key := o])
    ensures Accepted(e[o.key := o]) ==> Process(Denote(e), o) == Ok(Denote(e[o.key := o]))
  {
    AcceptedExtension(e, o);
    if !GoodValue(o) {
      BadValueFails(Denote(e), o);
    } else if Accepted(e[o.key := o]) {
      if o.Flag? {
        ProcessFlagMeaning(e, o.key);
      } else {
        ProcessPairMeaning(e, o.key, o.value);
      }
    }
  }

  lemma LastExtends(opts: seq<Opt>)
    requires opts != [] && DistinctKeys(opts) && ClashesOrdered(opts)
    ensures DistinctKeys(opts[..|opts| - 1]) && ClashesOrdered(opts[..|opts| - 1])
    ensures Extends(Entries(opts[..|opts| - 1]), opts[|opts| - 1])
  {
    hide Clash;
    var init, last := opts[..|opts| - 1], opts[|opts| - 1];
    var e := Entries(init);
    forall k | k in e ensures e[k].key == k && e[k].key != last.key && !Clash(last, e[k]) {
      var i :| 0 <= i < |init| && init[i] == e[k];
      assert opts[i] == e[k];
    }
  }

  /** The fold over options with distinct keys, clashing ones in printing order, succeeds exactly for
      an accepted set and then computes its meaning. */
  lemma {:induction false} FoldMeaning(opts: seq<Opt>)
    requires DistinctKeys(opts) && ClashesOrdered(opts)
    ensures Fold(opts).Ok? <==> Accepted(Entries(opts))
    ensures Fold(opts).Ok? ==> Fold(opts) == Ok(Denote(Entries(opts)))
  {
    if opts == [] {
      assert Denote(map[]) == START;
    } else {
      var init, last := opts[..|opts| - 1], opts[|opts| - 1];
      LastExtends(opts);
      FoldMeaning(init);
      AcceptedExtension(Entries(init), last);
      if Accepted(Entries(init)) {
        ProcessMeaning(Entries(init), last);
      }
    }
  }
}
