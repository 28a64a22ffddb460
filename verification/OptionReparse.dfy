/** Printed options read back: exactly when they do, and when the typed records survive as well. */
module OptionReparse {
  import opened Wrappers
  import opened Text
  import opened OptionKeys
  import opened OptionParsing
  import opened OptionRoundTrip

  // ---- printed options as tokens -------------------------------------------------------------------

  function OptFor(m: map<Key, string>, k: Key): (o: Opt)
    requires k in m
    ensures o.key == k
  {
    if m[k] == "" then Flag(k) else Pair(k, m[k])
  }

  function OptsFor(m: map<Key, string>, ks: seq<Key>): (opts: seq<Opt>)
    requires forall i :: 0 <= i < |ks| ==> ks[i] in m
    ensures |opts| == |ks| && forall i :: 0 <= i < |ks| ==> opts[i] == OptFor(m, ks[i])
  {
    seq(|ks|, i requires 0 <= i < |ks| => OptFor(m, ks[i]))
  }

  /** The options that the printed form gives */
  function PrintedEntries(m: map<Key, string>): map<Key, Opt> {
    map k | k in m :: OptFor(m, k)
  }

  /** Keys without a value survive the printing: they are not empty and not padded with white space. */
  ghost predicate FlagsPrintable(m: map<Key, string>) {
    forall k :: k in m && m[k] == "" ==> Spell(k) != "" && Tight(Spell(k))
  }

  lemma FirstEquals(key: string, v: string)
    requires '=' !in key
    ensures PositionOfEquals(key + "=" + v) == |key|
    ensures (key + "=" + v)[..|key|] == key && (key + "=" + v)[|key| + 1..] == v
    ensures PositionOfEquals(key) == |key|
  {
    var p := key + "=" + v;
    assert p[|key|] == '=';
    forall i | 0 <= i < |key| ensures p[i] != '=' {
      assert p[i] == key[i];
    }
  }

  lemma PieceToken(k: Key, v: string)
    requires CleanEntry(k, v)
    ensures Token(Piece(k, v)) == if v == "" then Flag(k) else Pair(k, v)
    ensures ',' !in Piece(k, v)
  {
    FirstEquals(Spell(k), v);
    hide Spell, Classify, PositionOfEquals, Tight;
  }

  lemma PieceUntrimmed(m: map<Key, string>, k: Key)
    requires CleanMap(m) && FlagsPrintable(m) && k in m
    ensures Piece(k, m[k]) != "" && Trim(Piece(k, m[k])) == Piece(k, m[k])
    ensures Token(Piece(k, m[k])) == OptFor(m, k)
  {
    TrimTight(Piece(k, m[k]));
    PieceToken(k, m[k]);
    hide Spell, Classify, Token, Tight, GoodEntry;
  }

  lemma {:induction false} TokensOfPieces(m: map<Key, string>, ks: seq<Key>)
    requires CleanMap(m) && FlagsPrintable(m) && forall i :: 0 <= i < |ks| ==> ks[i] in m
    ensures Tokens(TrimAll(Pieces(m, ks))) == OptsFor(m, ks)
  {
    hide CleanMap, FlagsPrintable, Trim, Token, Piece, OptFor;
    if ks != [] {
      var init, k := ks[..|ks| - 1], ks[|ks| - 1];
      TokensOfPieces(m, init);
      var raw := TrimAll(Pieces(m, ks));
      assert raw[..|raw| - 1] == TrimAll(Pieces(m, init));
      PieceUntrimmed(m, k);
      assert raw[|raw| - 1] == Piece(k, m[k]);
      assert OptsFor(m, ks) == OptsFor(m, init) + [OptFor(m, k)];
    }
  }

  lemma SplitPrinted(m: map<Key, string>, ks: seq<Key>)
    requires CleanMap(m) && forall i :: 0 <= i < |ks| ==> ks[i] in m
    ensures Tokens(Raw(Join(Pieces(m, ks), ','))) == Tokens(TrimAll(Pieces(m, ks)))
  {
    var ps := Pieces(m, ks);
    if ks == [] {
      assert Join(ps, ',') == "";
      assert Raw("") == [""];
      assert Tokens([""]) == [];
    } else {
      forall i | 0 <= i < |ps| ensures ',' !in ps[i] {
        PieceToken(ks[i], m[ks[i]]);
      }
      SplitJoinFree(ps, ',');
    }
  }

  lemma ClashingKeysInOrder()
    ensures LexLess("hard", "soft") && LexLess("intr", "nointr") && LexLess("nosuid", "suid")
    ensures LexLess("file_mode", "fmode") && LexLess("dir_mode", "dmode") && LexLess("ro", "rw")
  {
  }

  lemma ClashIsPrintedInOrder(first: Opt, second: Opt)
    requires Clash(first, second)
    ensures LexLess(Spell(first.key), Spell(second.key))
  {
    ClashingKeysInOrder();
    hide LexLess, ParseMode;
  }

  lemma LexAsymmetric(a: string, b: string)
    requires LexLess(a, b)
    ensures !LexLess(b, a) && a != b
  {
    LexIrreflexive(a);
    if LexLess(b, a) {
      LexTransitive(a, b, a);
    }
  }

  lemma PrintedIsOrdered(m: map<Key, string>, ks: seq<Key>)
    requires Sorted(ks) && Lists(ks, m.Keys)
    ensures DistinctKeys(OptsFor(m, ks)) && ClashesOrdered(OptsFor(m, ks))
    ensures Entries(OptsFor(m, ks)) == PrintedEntries(m)
  {
    hide Clash, LexLess;
    var opts := OptsFor(m, ks);
    forall i, j | 0 <= i < j < |opts| ensures opts[i].key != opts[j].key && !Clash(opts[j], opts[i]) {
      LexAsymmetric(Spell(ks[i]), Spell(ks[j]));
      if Clash(opts[j], opts[i]) {
        ClashIsPrintedInOrder(opts[j], opts[i]);
      }
    }
    PrintedEntriesListed(m, ks);
  }

  lemma PrintedEntriesListed(m: map<Key, string>, ks: seq<Key>)
    requires Lists(ks, m.Keys)
    ensures Entries(OptsFor(m, ks)) == PrintedEntries(m)
  {
    hide Entries;
    var opts := OptsFor(m, ks);
    var e := Entries(opts);
    forall k | k in m ensures k in e {
      var i :| 0 <= i < |ks| && ks[i] == k;
      assert opts[i] in opts;
    }
    forall k | k in e ensures k in m && e[k] == OptFor(m, k) {
      var i :| 0 <= i < |opts| && opts[i] == e[k];
      assert ks[i] in ks;
    }
  }

  /** A clean map without an `rw` flag beside `ro` is a set of acceptable options whose recorded
      values are the map itself. */
  lemma PrintedMeaning(m: map<Key, string>)
    requires CleanMap(m)
    ensures var e := PrintedEntries(m);
            && (forall k :: k in e ==> GoodValue(e[k])) && Denote(e).options == m
            && (Accepted(e) <==> !(Rw in m && m[Rw] == "" && Ro in m))
  {
    hide GoodValue, Stored, CleanEntry, DenoteSecurity, DenotePerformance;
    var e := PrintedEntries(m);
    forall k | k in e ensures GoodValue(e[k]) && Stored(e[k]) == m[k] {
      PrintedEntryGood(m, k);
    }
  }

  lemma PrintedEntryGood(m: map<Key, string>, k: Key)
    requires CleanMap(m) && k in m
    ensures GoodValue(OptFor(m, k)) && Stored(OptFor(m, k)) == m[k]
  {
    assert GoodEntry(k, m[k]);
    hide CleanMap, CleanEntry;
  }

  // ---- defaults ------------------------------------------------------------------------------------

  lemma OneMegabyte()
    ensures ONE_MEGABYTE == Decimal(1048576)
  {
    OneMoreDigit(1);
    OneMoreDigit(10);
    OneMoreDigit(104);
    OneMoreDigit(1048);
    OneMoreDigit(10485);
    OneMoreDigit(104857);
    OneMoreDigit(1048576);
    hide Decimal;
    assert Decimal(1048) == "1048" && Decimal(1048576) == "1048" + "576";
  }

  lemma OneMoreDigit(n: nat)
    ensures Decimal(n) == if n < 10 then [DigitChar(n)] else Decimal(n / 10) + [DigitChar(n % 10)]
  {
  }

  lemma NumberTokenClean(k: Key, n: nat)
    requires k in {Rsize, Wsize, Timeo, Retrans}
    ensures CleanToken(Pair(k, Decimal(n)))
  {
    hide Decimal;
    DecimalDigits(n);
    KnownKeysWellSpelled(k);
    var p := Piece(k, Decimal(n));
    assert p[|p| - 1] == Decimal(n)[|Decimal(n)| - 1];
    assert p[0] == Spell(k)[0];
  }

  lemma FlagTokenClean(k: Key)
    requires !k.Other?
    ensures CleanToken(Flag(k))
  {
    hide Spell, Classify;
    KnownKeysWellSpelled(k);
    KnownKeysClean(k);
  }

  lemma DefaultTokensClean()
    ensures CleanToken(Pair(Rsize, ONE_MEGABYTE)) && CleanToken(Pair(Wsize, ONE_MEGABYTE))
    ensures CleanToken(Pair(Timeo, "600")) && CleanToken(Pair(Retrans, "2"))
  {
    OneMegabyte();
    assert "600" == Decimal(600) && "2" == Decimal(2);
    hide CleanToken, Decimal;
    NumberTokenClean(Rsize, 1048576);
    NumberTokenClean(Wsize, 1048576);
    NumberTokenClean(Timeo, 600);
    NumberTokenClean(Retrans, 2);
  }

  lemma NumberGood(k: Key, n: nat)
    requires k in {Rsize, Wsize, Timeo, Retrans} && n < U32
    ensures GoodValue(Pair(k, Decimal(n)))
  {
    ParseSizeDecimal(n);
    ParseDecimal(n, U32);
    assert ParseU32(Decimal(n)).Some?;
    hide Decimal, ParseSize, ParseU32, ParseMode;
  }

  lemma DefaultValuesGood()
    ensures GoodValue(Pair(Rsize, ONE_MEGABYTE)) && GoodValue(Pair(Wsize, ONE_MEGABYTE))
    ensures GoodValue(Pair(Timeo, "600")) && GoodValue(Pair(Retrans, "2"))
  {
    OneMegabyte();
    assert "600" == Decimal(600) && "2" == Decimal(2);
    hide Decimal, GoodValue;
    NumberGood(Rsize, 1048576);
    NumberGood(Wsize, 1048576);
    NumberGood(Timeo, 600);
    NumberGood(Retrans, 2);
  }

  lemma FlagsGood()
    ensures forall k :: GoodValue(Flag(k))
  {
  }

  /** What the proofs need of a default: it is a clean, acceptable option under a known key, and it is not
      inserted beside an option that it would contradict. */
  ghost predicate SoundDefault(d: Default) {
    var o := d.option;
    && o.key in d.unless && !o.key.Other? && CleanToken(o) && GoodValue(o) && (o.Pair? ==> o.value != "")
    && o.key != Ro && (o.key == Rw ==> Ro in d.unless)
    && forall p :: Clash(o, p) ==> p.key in d.unless
  }

  lemma FlagIsSound(d: Default)
    requires d in {HARD, INTR, RW, ALLOW, PERMISSIONS}
    ensures SoundDefault(d)
  {
    FlagTokenClean(d.option.key);
    FlagsGood();
    hide CleanToken, GoodValue;
  }

  lemma NumberIsSound(d: Default)
    requires d in {RSIZE, WSIZE, TIMEO, RETRANS}
    ensures SoundDefault(d)
  {
    DefaultTokensClean();
    DefaultValuesGood();
    hide CleanToken, GoodValue;
  }

  lemma DefaultsAreSound(fs: string)
    ensures forall i :: 0 <= i < |DefaultsOf(fs)| ==> SoundDefault(DefaultsOf(fs)[i])
  {
    hide SoundDefault;
    var flags, numbers := {HARD, INTR, RW, ALLOW, PERMISSIONS}, {RSIZE, WSIZE, TIMEO, RETRANS};
    forall d | d in flags ensures SoundDefault(d) { FlagIsSound(d); }
    forall d | d in numbers ensures SoundDefault(d) { NumberIsSound(d); }
    assert forall i :: 0 <= i < |DefaultsOf(fs)| ==> DefaultsOf(fs)[i] in flags || DefaultsOf(fs)[i] in numbers;
  }

  ghost predicate Present(m: map<Key, string>, d: Default) {
    exists k :: k in d.unless && k in m
  }

  /** The keys whose absence `apply_defaults` would notice are all there. */
  ghost predicate HasDefaults(m: map<Key, string>, fs: string) {
    forall i :: 0 <= i < |DefaultsOf(fs)| ==> Present(m, DefaultsOf(fs)[i])
  }

  /** `to` holds all of `from`, and beyond it only keys the parser knows, `ro` not among them. */
  ghost predicate OnlyKnownAdded(from: map<Key, string>, to: map<Key, string>) {
    (forall k :: k in from ==> k in to) && (forall k :: k in to && k !in from ==> !k.Other? && k != Ro)
  }

  lemma AbsentIsAccepted(st: Parsed, d: Default)
    requires SoundDefault(d) && !Present(st.options, d)
    ensures Process(st, d.option).Ok?
  {
    hide ParseSize, ParseU32, ParseMode, CleanToken, Clash;
  }

  /** Filling in one default keeps what earlier lemmas know of the state, and makes it present. */
  lemma FillInKeeps(st: Parsed, d: Default)
    requires CleanMap(st.options) && Agrees(st) && SoundDefault(d)
    ensures var t := FillIn(st, d);
            CleanMap(t.options) && Agrees(t) && OnlyKnownAdded(st.options, t.options) && Present(t.options, d)
  {
    hide CleanMap, Agrees, CleanToken, GoodValue, Clash, Process;
    if !Present(st.options, d) {
      AbsentIsAccepted(st, d);
      ProcessKeeps(st, d.option);
      ProcessKeys(st, d.option);
      assert d.option.key in FillIn(st, d).options;
    }
  }

  lemma {:induction false} FillAllKeeps(st: Parsed, ds: seq<Default>)
    requires CleanMap(st.options) && Agrees(st) && forall i :: 0 <= i < |ds| ==> SoundDefault(ds[i])
    ensures var t := FillAll(st, ds);
            && CleanMap(t.options) && Agrees(t) && OnlyKnownAdded(st.options, t.options)
            && forall i :: 0 <= i < |ds| ==> Present(t.options, ds[i])
    decreases |ds|
  {
    hide CleanMap, Agrees, SoundDefault, FillIn;
    if ds != [] {
      FillInKeeps(st, ds[0]);
      FillAllKeeps(FillIn(st, ds[0]), ds[1..]);
    }
  }

  lemma DefaultsKeep(st: Parsed, fs: string)
    requires CleanMap(st.options) && Agrees(st)
    ensures var t := ApplyDefaults(st, fs);
            CleanMap(t.options) && Agrees(t) && OnlyKnownAdded(st.options, t.options) && HasDefaults(t.options, fs)
  {
    hide CleanMap, Agrees, OnlyKnownAdded, SoundDefault, Present, DefaultsOf, FillAll;
    DefaultsAreSound(fs);
    FillAllKeeps(st, DefaultsOf(fs));
  }

  lemma {:induction false} FillAllIdle(st: Parsed, ds: seq<Default>)
    requires forall i :: 0 <= i < |ds| ==> Present(st.options, ds[i])
    ensures FillAll(st, ds) == st
    decreases |ds|
  {
    hide Process;
    if ds != [] {
      assert Present(st.options, ds[0]);
      FillAllIdle(st, ds[1..]);
    }
  }

  /** Present defaults change nothing. */
  lemma DefaultsIdle(st: Parsed, fs: string)
    requires HasDefaults(st.options, fs)
    ensures ApplyDefaults(st, fs) == st
  {
    hide FillAll, Present, DefaultsOf;
    FillAllIdle(st, DefaultsOf(fs));
  }

  // ---- when printed options are accepted again ---------------------------------------------------------

  /** What a caller can check on an accepted options map before printing it. */
  ghost predicate Reparsable(m: map<Key, string>) {
    && FlagsPrintable(m)
    && !(Ro in m && Rw in m && (m[Ro] == "" || m[Rw] == ""))
    && (Timeo in m && ParseU32(m[Timeo]) == Some(0) ==> Soft in m && m[Soft] == "")
  }

  /** The outcome of parsing the printed form of a printable map. */
  lemma ReparseOutcome(m: map<Key, string>, s: string, fs: string)
    requires CleanMap(m) && FlagsPrintable(m) && Prints(m, s) && HasDefaults(m, fs)
    ensures var e := PrintedEntries(m);
            && (forall k :: k in e ==> GoodValue(e[k])) && Denote(e).options == m
            && (Parse(s, fs).Ok? <==> Accepted(e) && Validate(Denote(e), fs).Ok?)
            && (Parse(s, fs).Ok? ==>
                  var r := Parse(s, fs).value; Parsed(r.options, r.security, r.performance) == Denote(e))
  {
    hide CleanMap, FlagsPrintable, Accepted, Denote, Fold, Sorted, HasDefaults, Validate;
    var ks :| Sorted(ks) && Lists(ks, m.Keys) && s == Join(Pieces(m, ks), ',');
    ReparseFold(m, ks);
    PrintedMeaning(m);
    var e := PrintedEntries(m);
    DefaultsIdle(Denote(e), fs);
    ConcludeIdle(Raw(s), Fold(Tokens(Raw(s))), fs);
  }

  lemma ConcludeIdle(raw: seq<string>, folded: Result<Parsed, OptionError>, fs: string)
    requires folded.Ok? ==> ApplyDefaults(folded.value, fs) == folded.value
    ensures Conclude(raw, folded, fs).Ok? <==> folded.Ok? && Validate(folded.value, fs).Ok?
    ensures Conclude(raw, folded, fs).Ok? ==>
              var r := Conclude(raw, folded, fs).value; Parsed(r.options, r.security, r.performance) == folded.value
  {
    hide ApplyDefaults, Validate;
  }

  lemma ReparseFold(m: map<Key, string>, ks: seq<Key>)
    requires CleanMap(m) && FlagsPrintable(m) && Sorted(ks) && Lists(ks, m.Keys)
    ensures var e := PrintedEntries(m); var folded := Fold(Tokens(Raw(Join(Pieces(m, ks), ','))));
            && (folded.Ok? <==> Accepted(e)) && (folded.Ok? ==> folded == Ok(Denote(e)))
  {
    hide CleanMap, FlagsPrintable, Raw, Fold, Denote;
    SplitPrinted(m, ks);
    TokensOfPieces(m, ks);
    PrintedIsOrdered(m, ks);
    FoldMeaning(OptsFor(m, ks));
  }

  /** What validation sees of printed options. */
  lemma PrintedRecords(m: map<Key, string>)
    requires CleanMap(m)
    ensures var e := PrintedEntries(m); var sec := DenoteSecurity(e); var perf := DenotePerformance(e);
            && sec.readOnly == (Ro in m && m[Ro] == "")
            && perf.soft == (Soft in m && m[Soft] == "")
            && perf.timeo == (if Timeo in m && m[Timeo] != "" then ParseU32(m[Timeo]) else None)
            && perf.nfsvers == (if Nfsvers in m && m[Nfsvers] != "" then ParseU32(m[Nfsvers]) else None)
            && perf.rsize == (if Rsize in m && m[Rsize] != "" then ParseSize(m[Rsize]) else None)
            && perf.wsize == (if Wsize in m && m[Wsize] != "" then ParseSize(m[Wsize]) else None)
  {
    hide CleanMap, ParseU32, ParseSize, ParseMode;
  }

  /** Dropping records that validation looks at can only bring up the two conflicts. */
  lemma ValidTransfer(st: Parsed, t: Parsed, fs: string)
    requires Validate(st, fs).Ok?
    requires t.performance.timeo in {None, st.performance.timeo}
    requires t.performance.nfsvers in {None, st.performance.nfsvers}
    requires t.performance.rsize in {None, st.performance.rsize} && t.performance.wsize in {None, st.performance.wsize}
    ensures Validate(t, fs).Ok? <==>
              !(t.security.readOnly && Rw in t.options) && !(!t.performance.soft && t.performance.timeo == Some(0))
  {
  }

  /** For options whose records were validated, the printed form is valid exactly if neither the
      read-only conflict nor a zero timeout without `soft` turns up. */
  lemma PrintedValid(st: Parsed, fs: string)
    requires CleanMap(st.options) && Agrees(st) && Validate(st, fs).Ok?
    ensures var m := st.options; var e := PrintedEntries(m);
            && (forall k :: k in e ==> GoodValue(e[k]))
            && (Validate(Denote(e), fs).Ok? <==>
                  !(Ro in m && m[Ro] == "" && Rw in m)
                  && (Timeo in m && ParseU32(m[Timeo]) == Some(0) ==> Soft in m && m[Soft] == ""))
  {
    PrintedMeaning(st.options);
    PrintedRecords(st.options);
    EmptyIsNoNumber();
    hide CleanMap, DenoteSecurity, DenotePerformance, ParseSize, PrintedEntries, GoodValue, ParseU32, Validate;
    ValidTransfer(st, Denote(PrintedEntries(st.options)), fs);
  }

  lemma EmptyIsNoNumber()
    ensures ParseU32("") == None
  {
  }

  lemma ParsedIsClean(s: string, fs: string)
    requires Parse(s, fs).Ok?
    ensures var r := Parse(s, fs).value; var st := Parsed(r.options, r.security, r.performance);
            CleanMap(r.options) && Agrees(st) && HasDefaults(r.options, fs) && Validate(st, fs).Ok?
  {
    hide CleanMap, Agrees, Validate, HasDefaults, ApplyDefaults, Fold;
    RawIsTight(s);
    TokensAreClean(Raw(s));
    var opts := Tokens(Raw(s));
    FoldKeeps(opts);
    DefaultsKeep(Fold(opts).value, fs);
  }

  // ---- the exact condition -----------------------------------------------------------------------------

  predicate Unprintable(m: map<Key, string>, k: Key) {
    k in m && m[k] == "" && !(Spell(k) != "" && Tight(Spell(k)))
  }

  lemma SomeUnprintable(m: map<Key, string>) returns (k: Key)
    requires !FlagsPrintable(m)
    ensures Unprintable(m, k)
  {
    hide Tight, Spell;
    k :| k in m && m[k] == "" && !(Spell(k) != "" && Tight(Spell(k)));
  }

  lemma LostInTokens(m: map<Key, string>, t: string, k: Key)
    requires CleanMap(m) && Prints(m, t) && Unprintable(m, k)
    ensures forall i :: 0 <= i < |Tokens(Raw(t))| ==> CleanToken(Tokens(Raw(t))[i]) && Tokens(Raw(t))[i].key != k
  {
    var ks :| Sorted(ks) && Lists(ks, m.Keys) && t == Join(Pieces(m, ks), ',');
    hide CleanMap, Tight, Spell, Prints, Sorted, Raw, CleanToken, Tokens, Join;
    SplitPrinted(m, ks);
    RawIsTight(t);
    TokensAreClean(Raw(t));
    TokensOfAnyPieces(m, ks);
  }

  lemma LostInFold(m: map<Key, string>, t: string, k: Key)
    requires CleanMap(m) && Prints(m, t) && Unprintable(m, k) && Fold(Tokens(Raw(t))).Ok?
    ensures k !in Fold(Tokens(Raw(t))).value.options && k.Other?
  {
    LostInTokens(m, t, k);
    FoldKeys(Tokens(Raw(t)));
    hide CleanMap, Spell, Prints, Fold, Tokens, Raw, CleanToken;
    if !k.Other? {
      KnownKeysTight(k);
    }
  }

  /** A key without a value whose spelling is empty or padded is lost in printing. */
  lemma UnprintableKeyIsLost(m: map<Key, string>, t: string, fs: string, k: Key)
    requires CleanMap(m) && Prints(m, t) && Unprintable(m, k) && Parse(t, fs).Ok?
    ensures k !in Parse(t, fs).value.options
  {
    hide CleanMap, ApplyDefaults, Validate, Unprintable, Prints, Fold, Tokens, Raw, Agrees, CleanToken, HasDefaults;
    LostInFold(m, t, k);
    RawIsTight(t);
    TokensAreClean(Raw(t));
    FoldKeeps(Tokens(Raw(t)));
    DefaultsKeep(Fold(Tokens(Raw(t))).value, fs);
  }

  lemma {:induction false} TokensOfAnyPieces(m: map<Key, string>, ks: seq<Key>)
    requires CleanMap(m) && forall i :: 0 <= i < |ks| ==> ks[i] in m
    ensures var opts := Tokens(TrimAll(Pieces(m, ks)));
            forall i :: 0 <= i < |opts| && opts[i].Pair? ==> opts[i].key in m && m[opts[i].key] != ""
  {
    hide CleanMap, Token, Trim, Piece;
    if ks != [] {
      var init, k := ks[..|ks| - 1], ks[|ks| - 1];
      TokensOfAnyPieces(m, init);
      var raw := TrimAll(Pieces(m, ks));
      assert raw[..|raw| - 1] == TrimAll(Pieces(m, init));
      assert raw[|raw| - 1] == Trim(Piece(k, m[k]));
      TrimmedPieceToken(m, k);
      var before, opts := Tokens(raw[..|raw| - 1]), Tokens(raw);
      assert opts == before || opts == before + [Token(raw[|raw| - 1])];
      forall i | 0 <= i < |opts| && opts[i].Pair? ensures opts[i].key in m && m[opts[i].key] != "" {
        if i < |before| {
          assert opts[i] == before[i] == Tokens(TrimAll(Pieces(m, init)))[i];
        } else {
          assert opts[i] == Token(raw[|raw| - 1]);
        }
      }
    }
  }

  lemma TrimmedPieceToken(m: map<Key, string>, k: Key)
    requires CleanMap(m) && k in m
    ensures var o := Token(Trim(Piece(k, m[k]))); o.Pair? ==> o.key == k && m[k] != ""
  {
    var p := Piece(k, m[k]);
    TrimTight(p);
    PieceToken(k, m[k]);
    TrimIsTight(p);
    if m[k] == "" {
      var e := PositionOfEquals(Trim(p));
      assert e < |Trim(p)| ==> '=' in Trim(p);
    }
    hide Trim, Tight, Spell, Classify;
  }

  lemma {:induction false} FoldKeys(opts: seq<Opt>)
    requires Fold(opts).Ok?
    ensures forall k :: k in Fold(opts).value.options ==> exists i :: 0 <= i < |opts| && opts[i].key == k
  {
    if opts != [] {
      var init, last := opts[..|opts| - 1], opts[|opts| - 1];
      FoldKeys(init);
      var st := Fold(init).value;
      ProcessKeys(st, last);
      forall k | k in Fold(opts).value.options ensures exists i :: 0 <= i < |opts| && opts[i].key == k {
        if k == last.key {
          assert opts[|opts| - 1].key == k;
        } else {
          var i :| 0 <= i < |init| && init[i].key == k;
          assert opts[i].key == k;
        }
      }
    }
  }

  lemma ProcessKeys(st: Parsed, o: Opt)
    requires Process(st, o).Ok?
    ensures Process(st, o).value.options.Keys == st.options.Keys + {o.key}
  {
    hide PairSecurity, PairPerformance, FlagSecurity, FlagPerformance, ParseSize;
  }

  /** For every accepted option string, repeated and contradictory options included: its printed form
      is accepted again and gives the same options map if and only if the map is reparsable. */
  lemma ReparseExact(s: string, fs: string, t: string)
    requires Parse(s, fs).Ok? && Prints(Parse(s, fs).value.options, t)
    ensures Parse(t, fs).Ok? && Parse(t, fs).value.options == Parse(s, fs).value.options
            <==> Reparsable(Parse(s, fs).value.options)
  {
    var r := Parse(s, fs).value;
    var st := Parsed(r.options, r.security, r.performance);
    var m := r.options;
    ParsedIsClean(s, fs);
    hide Parse, CleanMap, Prints, Agrees, Validate, HasDefaults, Denote, GoodValue, Accepted;
    if FlagsPrintable(m) {
      hide FlagsPrintable, PrintedEntries, ParseU32;
      ReparseOutcome(m, t, fs);
      PrintedMeaning(m);
      PrintedValid(st, fs);
    } else {
      hide FlagsPrintable, Unprintable;
      var k := SomeUnprintable(m);
      if Parse(t, fs).Ok? {
        UnprintableKeyIsLost(m, t, fs, k);
      }
    }
  }

  // ---- records -------------------------------------------------------------------------------------------

  /** A printable flag, or a pair with a value. */
  predicate WellGiven(o: Opt) {
    && (o.Flag? ==> Spell(o.key) != "" && Tight(Spell(o.key)))
    && (o.Pair? ==> o.value != "")
  }

  ghost predicate AllWellGiven(e: map<Key, Opt>) {
    forall k :: k in e ==> e[k].key == k && WellGiven(e[k])
  }

  /** `st` is the meaning of a set of acceptable, well given options. */
  ghost predicate Meant(st: Parsed, e: map<Key, Opt>) {
    AllWellGiven(e) && Accepted(e) && st == Denote(e)
  }

  lemma MeantKeys(st: Parsed, e: map<Key, Opt>)
    requires Meant(st, e)
    ensures st.options.Keys == e.Keys
  {
    hide Stored, GoodValue, DenoteSecurity, DenotePerformance;
  }

  lemma FillInMeant(st: Parsed, e: map<Key, Opt>, d: Default) returns (e': map<Key, Opt>)
    requires Meant(st, e) && SoundDefault(d)
    ensures Meant(FillIn(st, d), e')
  {
    hide SoundDefault, Denote, Process, Accepted, Meant;
    e' := e;
    MeantKeys(st, e);
    if forall k :: k in d.unless ==> k !in st.options {
      ExtendMeant(st, e, d);
      e' := e[d.option.key := d.option];
    }
  }

  lemma ExtendMeant(st: Parsed, e: map<Key, Opt>, d: Default)
    requires Meant(st, e) && SoundDefault(d) && forall k :: k in d.unless ==> k !in e
    ensures Process(st, d.option).Ok? && Meant(Process(st, d.option).value, e[d.option.key := d.option])
  {
    hide Clash, GoodValue, Denote, Process, Accepted, WellGiven, CleanToken;
    var o := d.option;
    KnownGiven(o);
    assert Extends(e, o);
    ExtendStaysAccepted(e, o, d.unless);
    ProcessMeaning(e, o);
    var f := e[o.key := o];
    forall k | k in f ensures f[k].key == k && WellGiven(f[k]) {
      assert k != o.key ==> f[k] == e[k];
    }
  }

  lemma KnownGiven(o: Opt)
    requires !o.key.Other? && (o.Pair? ==> o.value != "")
    ensures WellGiven(o)
  {
    KnownKeysTight(o.key);
  }

  lemma ExtendStaysAccepted(e: map<Key, Opt>, o: Opt, unless: set<Key>)
    requires Extends(e, o) && Accepted(e) && GoodValue(o) && o.key != Ro && (o.key == Rw ==> Ro in unless)
    requires forall k :: k in unless ==> k !in e
    ensures Accepted(e[o.key := o])
  {
    AcceptedExtension(e, o);
  }

  lemma {:induction false} FillAllMeant(st: Parsed, e: map<Key, Opt>, ds: seq<Default>) returns (e': map<Key, Opt>)
    requires Meant(st, e) && forall i :: 0 <= i < |ds| ==> SoundDefault(ds[i])
    ensures Meant(FillAll(st, ds), e')
    decreases |ds|
  {
    hide Meant, SoundDefault, FillIn;
    e' := e;
    if ds != [] {
      e' := FillInMeant(st, e, ds[0]);
      e' := FillAllMeant(FillIn(st, ds[0]), e', ds[1..]);
    }
  }

  lemma DefaultsMeant(st: Parsed, e: map<Key, Opt>, fs: string) returns (e': map<Key, Opt>)
    requires Meant(st, e)
    ensures Meant(ApplyDefaults(st, fs), e')
  {
    hide Meant, SoundDefault, FillAll, DefaultsOf;
    DefaultsAreSound(fs);
    e' := FillAllMeant(st, e, DefaultsOf(fs));
  }

  /** The recorded values print as the options they came from, sizes as plain numbers. */
  lemma PrintedLookups(st: Parsed, e: map<Key, Opt>)
    requires Meant(st, e)
    ensures var p := PrintedEntries(st.options);
            && p.Keys == e.Keys
            && (forall k :: IsFlag(p, k) == IsFlag(e, k))
            && (forall k :: k != Rsize && k != Wsize ==> Given(p, k) == Given(e, k))
            && SizeOf(p, Rsize) == SizeOf(e, Rsize) && SizeOf(p, Wsize) == SizeOf(e, Wsize)
  {
    hide Meant, ParseSize;
    var p := PrintedEntries(st.options);
    MeantKeys(st, e);
    forall k | k in e
      ensures p[k].Flag? == e[k].Flag? && (k != Rsize && k != Wsize ==> p[k] == e[k])
    {
      PrintedLookup(st, e, k);
    }
    if Rsize in e { PrintedLookup(st, e, Rsize); }
    if Wsize in e { PrintedLookup(st, e, Wsize); }
  }

  lemma PrintedLookup(st: Parsed, e: map<Key, Opt>, k: Key)
    requires Meant(st, e) && k in e
    ensures var p := PrintedEntries(st.options);
            && k in p && p[k].Flag? == e[k].Flag?
            && (k != Rsize && k != Wsize ==> p[k] == e[k])
            && (k == Rsize || k == Wsize ==> SizeOf(p, k) == SizeOf(e, k))
  {
    StoredValue(st, e, k);
    hide ParseSize, Meant, Decimal;
    if e[k].Pair? && (k == Rsize || k == Wsize) {
      ParseSizeBound(e[k].value);
      ParseSizeDecimal(ParseSize(e[k].value).value);
    }
  }

  lemma StoredValue(st: Parsed, e: map<Key, Opt>, k: Key)
    requires Meant(st, e) && k in e
    ensures k in st.options && e[k].key == k && GoodValue(e[k]) && st.options[k] == Stored(e[k])
    ensures e[k].Pair? ==> e[k].value != ""
    ensures e[k].Pair? && (k == Rsize || k == Wsize) ==> ParseSize(e[k].value).Some?
  {
    hide ParseSize, ParseU32, ParseMode, DenoteSecurity, DenotePerformance, Tight, Spell, Decimal;
  }

  lemma PrintedSameMeaning(st: Parsed, e: map<Key, Opt>)
    requires Meant(st, e) && CleanMap(st.options)
    ensures FlagsPrintable(st.options) && Accepted(PrintedEntries(st.options))
    ensures forall k :: k in PrintedEntries(st.options) ==> GoodValue(PrintedEntries(st.options)[k])
    ensures Denote(PrintedEntries(st.options)) == st
  {
    var p := PrintedEntries(st.options);
    PrintedLookups(st, e);
    PrintedMeaning(st.options);
    MeantPrintable(st, e);
    SameLookupsSameSecurity(p, e);
    SameLookupsSamePerformance(p, e);
    hide CleanMap, GoodValue, DenoteSecurity, DenotePerformance, Stored, SizeOf, Given;
  }

  lemma MeantPrintable(st: Parsed, e: map<Key, Opt>)
    requires Meant(st, e) && PrintedEntries(st.options).Keys == e.Keys
    requires forall k :: IsFlag(PrintedEntries(st.options), k) == IsFlag(e, k)
    ensures FlagsPrintable(st.options)
    ensures !(Rw in st.options && st.options[Rw] == "" && Ro in st.options)
  {
    hide Denote, GoodValue, Tight, Spell;
    var m := st.options;
    forall k | k in m && m[k] == "" ensures Spell(k) != "" && Tight(Spell(k)) {
      assert IsFlag(PrintedEntries(m), k);
      assert IsFlag(e, k);
    }
    assert Rw in m && m[Rw] == "" ==> IsFlag(PrintedEntries(m), Rw);
    assert Ro in m ==> Ro in PrintedEntries(m).Keys;
  }

  lemma SameLookupsSameSecurity(p: map<Key, Opt>, e: map<Key, Opt>)
    requires forall k :: IsFlag(p, k) == IsFlag(e, k)
    requires forall k :: k != Rsize && k != Wsize ==> Given(p, k) == Given(e, k)
    ensures DenoteSecurity(p) == DenoteSecurity(e)
  {
    hide IsFlag, Given, ParseU32, ParseMode;
  }

  lemma SameLookupsSamePerformance(p: map<Key, Opt>, e: map<Key, Opt>)
    requires forall k :: IsFlag(p, k) == IsFlag(e, k)
    requires forall k :: k != Rsize && k != Wsize ==> Given(p, k) == Given(e, k)
    requires SizeOf(p, Rsize) == SizeOf(e, Rsize) && SizeOf(p, Wsize) == SizeOf(e, Wsize)
    ensures DenotePerformance(p) == DenotePerformance(e)
  {
    hide IsFlag, Given, ParseU32, SizeOf, IsNfsVersion, IsSmbVersion;
  }

  lemma TokensWellGiven(s: string)
    requires forall i :: 0 <= i < |Tokens(Raw(s))| && Tokens(Raw(s))[i].Pair? ==> Tokens(Raw(s))[i].value != ""
    ensures AllWellGiven(Entries(Tokens(Raw(s))))
  {
    var opts := Tokens(Raw(s));
    RawIsTight(s);
    hide Raw, Tight, Tokens, CleanToken, Spell, Entries;
    TokensAreClean(Raw(s));
    var e := Entries(opts);
    forall k | k in e ensures e[k].key == k && WellGiven(e[k]) {
      var i :| 0 <= i < |opts| && opts[i] == e[k];
    }
  }

  lemma TokensMeant(s: string)
    requires var opts := Tokens(Raw(s));
             Fold(opts).Ok? && DistinctKeys(opts) && ClashesOrdered(opts)
             && forall i :: 0 <= i < |opts| && opts[i].Pair? ==> opts[i].value != ""
    ensures Meant(Fold(Tokens(Raw(s))).value, Entries(Tokens(Raw(s))))
  {
    hide Raw, Tokens, AllWellGiven, Fold, Accepted, Denote, DistinctKeys, Entries, ClashesOrdered;
    TokensWellGiven(s);
    FoldMeaning(Tokens(Raw(s)));
  }

  /** Without repeated keys and empty values, and with clashing options in printing order, the printed form gives
      back the same options and the same typed records. */
  lemma OrderedRecordsSurvive(s: string, fs: string, t: string)
    requires Parse(s, fs).Ok? && Prints(Parse(s, fs).value.options, t)
    requires var opts := Tokens(Raw(s));
             DistinctKeys(opts) && ClashesOrdered(opts)
             && forall i :: 0 <= i < |opts| && opts[i].Pair? ==> opts[i].value != ""
    ensures SameOutcome(Parse(t, fs), Parse(s, fs))
  {
    var r := Parse(s, fs).value;
    var st := Parsed(r.options, r.security, r.performance);
    ParsedIsClean(s, fs);
    TokensMeant(s);
    hide Fold, Tokens, Raw, Entries, Meant, ApplyDefaults, CleanMap, Agrees, Validate, HasDefaults, Prints, Denote,
         Accepted, FlagsPrintable, PrintedEntries, GoodValue, DistinctKeys, ClashesOrdered;
    var e := DefaultsMeant(Fold(Tokens(Raw(s))).value, Entries(Tokens(Raw(s))), fs);
    PrintedSameMeaning(st, e);
    ReparseOutcome(r.options, t, fs);
    SameFsType(s, t, fs);
  }

  /** The records that the printed options of a map denote */
  ghost predicate DenotedBy(m: map<Key, string>, sec: Security, perf: Performance) {
    DenoteSecurity(PrintedEntries(m)) == sec && DenotePerformance(PrintedEntries(m)) == perf
  }

  /** For every accepted option string, repeated and contradictory options included: printing it gives back
      everything, typed records included, if and only if its map is reparsable and its records are those that
      the recorded options denote. */
  lemma RecordsSurviveExact(s: string, fs: string, t: string)
    requires Parse(s, fs).Ok? && Prints(Parse(s, fs).value.options, t)
    ensures var r := Parse(s, fs).value;
            SameOutcome(Parse(t, fs), Parse(s, fs)) <==>
              Reparsable(r.options) && DenotedBy(r.options, r.security, r.performance)
  {
    var r := Parse(s, fs).value;
    ReparseExact(s, fs, t);
    ParsedIsClean(s, fs);
    SameFsType(s, t, fs);
    hide Parse, CleanMap, Prints, Agrees, Validate, HasDefaults, DenoteSecurity, DenotePerformance, GoodValue, Accepted,
         PrintedEntries, Stored;
    if Reparsable(r.options) || SameOutcome(Parse(t, fs), Parse(s, fs)) {
      assert FlagsPrintable(r.options);
      hide FlagsPrintable, Reparsable;
      ReparseOutcome(r.options, t, fs);
    }
  }

  lemma SameFsType(s: string, t: string, fs: string)
    ensures Parse(s, fs).Ok? && Parse(t, fs).Ok? ==> Parse(s, fs).value.fsType == Parse(t, fs).value.fsType
  {
  }
}
