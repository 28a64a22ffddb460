/** Printing mount options, and the two laws of parsing: option order does not matter, and printed
    options parse back. */
module OptionRoundTrip {
  import opened Wrappers
  import opened Text
  import opened OptionKeys
  import opened OptionParsing

  // ---- order independence ------------------------------------------------------------------------

  /** Both rejected, or accepted with the same options and records. */
  ghost predicate SameOutcome(a: Result<MountOptions, OptionError>, b: Result<MountOptions, OptionError>) {
    && (a.Ok? <==> b.Ok?)
    && (a.Ok? ==> a.value.(raw := b.value.raw) == b.value)
  }

  lemma {:induction false} TokensConcat(a: seq<string>, b: seq<string>)
    ensures Tokens(a + b) == Tokens(a) + Tokens(b)
  {
    if b == [] {
      assert a + b == a;
    } else {
      TokensConcat(a, b[..|b| - 1]);
      assert (a + b)[..|a + b| - 1] == a + b[..|b| - 1];
    }
  }

  lemma {:induction false} TokensPermute(a: seq<string>, b: seq<string>)
    requires multiset(a) == multiset(b)
    ensures multiset(Tokens(a)) == multiset(Tokens(b))
    decreases |a|
  {
    if a == [] {
      assert |multiset(b)| == |b|;
    } else {
      var init, x := a[..|a| - 1], a[|a| - 1];
      assert a == init + [x];
      assert x in multiset(b);
      var i :| 0 <= i < |b| && b[i] == x;
      var rest := b[..i] + b[i + 1..];
      assert b == b[..i] + [x] + b[i + 1..];
      assert multiset(a) == multiset(init) + multiset{x};
      assert multiset(b) == multiset(rest) + multiset{x};
      assert multiset(init) == multiset(a) - multiset{x};
      assert multiset(rest) == multiset(b) - multiset{x};
      TokensPermute(init, rest);
      TokensConcat(b[..i], b[i + 1..]);
      TokensConcat(b[..i], [x]);
      TokensConcat(b[..i] + [x], b[i + 1..]);
      TokensConcat(init, [x]);
    }
  }

  lemma CountOfRepeated<T>(s: seq<T>, i: nat, j: nat)
    requires i < j < |s| && s[i] == s[j]
    ensures multiset(s)[s[i]] >= 2
  {
    assert s == s[..j] + s[j..];
    assert s[..j][i] == s[i] && s[j..][0] == s[i];
  }

  lemma {:induction false} CountOfDistinct(opts: seq<Opt>, o: Opt)
    requires DistinctKeys(opts)
    ensures multiset(opts)[o] <= 1
  {
    if opts != [] {
      var init, last := opts[..|opts| - 1], opts[|opts| - 1];
      CountOfDistinct(init, o);
      assert opts == init + [last];
      if o == last {
        forall i | 0 <= i < |init| ensures init[i] != o {
          assert init[i] == opts[i];
        }
      }
    }
  }

  lemma DistinctKeysPermute(a: seq<Opt>, b: seq<Opt>)
    requires DistinctKeys(a) && multiset(a) == multiset(b)
    ensures DistinctKeys(b)
  {
    forall i, j | 0 <= i < j < |b| ensures b[i].key != b[j].key {
      if b[i].key == b[j].key {
        assert b[i] in multiset(a) && b[j] in multiset(a);
        assert b[i] == b[j];
        CountOfRepeated(b, i, j);
        CountOfDistinct(a, b[i]);
      }
    }
  }

  lemma EntriesPermute(a: seq<Opt>, b: seq<Opt>)
    requires DistinctKeys(a) && DistinctKeys(b) && multiset(a) == multiset(b)
    ensures Entries(a) == Entries(b)
  {
    EntriesWithin(a, b);
    EntriesWithin(b, a);
  }

  lemma EntriesWithin(a: seq<Opt>, b: seq<Opt>)
    requires DistinctKeys(b) && multiset(a) == multiset(b)
    ensures forall k :: k in Entries(a) ==> k in Entries(b) && Entries(b)[k] == Entries(a)[k]
  {
    forall k | k in Entries(a) ensures k in Entries(b) && Entries(b)[k] == Entries(a)[k] {
      var o := Entries(a)[k];
      assert o in multiset(b);
      SameKeySameOption(b, o, Entries(b)[k]);
    }
  }

  lemma SameKeySameOption(opts: seq<Opt>, o: Opt, p: Opt)
    requires DistinctKeys(opts) && o in opts && p in opts && o.key == p.key
    ensures o == p
  {
    var i :| 0 <= i < |opts| && opts[i] == o;
    var j :| 0 <= j < |opts| && opts[j] == p;
  }

  /** Without repeated keys and clashes, any reordering of the trimmed pieces is accepted or rejected
      alike and gives the same options and records. */
  lemma OrderDoesNotMatter(s: string, t: string, fs: string)
    requires multiset(Raw(s)) == multiset(Raw(t))
    requires DistinctKeys(Tokens(Raw(s))) && NoClash(Tokens(Raw(s)))
    ensures SameOutcome(Parse(s, fs), Parse(t, fs))
  {
    hide Fold, Denote, Accepted, Conclude, Raw, NoClash, DistinctKeys, Tokens, Entries, ClashesOrdered;
    var a, b := Tokens(Raw(s)), Tokens(Raw(t));
    TokensPermute(Raw(s), Raw(t));
    DistinctKeysPermute(a, b);
    EntriesPermute(a, b);
    NoClashPermute(a, b);
    FoldMeaning(a);
    FoldMeaning(b);
    SameFoldSameOutcome(Raw(s), Raw(t), Fold(a), Fold(b), fs);
  }

  lemma SameFoldSameOutcome(r: seq<string>, q: seq<string>, a: Result<Parsed, OptionError>,
                            b: Result<Parsed, OptionError>, fs: string)
    requires (a.Ok? <==> b.Ok?) && (a.Ok? ==> a == b)
    ensures SameOutcome(Conclude(r, a, fs), Conclude(q, b, fs))
  {
    hide ApplyDefaults, Validate;
  }

  lemma NoClashPermute(a: seq<Opt>, b: seq<Opt>)
    requires NoClash(a) && multiset(a) == multiset(b)
    ensures NoClash(b) && ClashesOrdered(a) && ClashesOrdered(b)
  {
    hide Clash;
    forall i, j | 0 <= i < |b| && 0 <= j < |b| ensures !Clash(b[i], b[j]) {
      assert b[i] in multiset(a) && b[j] in multiset(a);
      var k :| 0 <= k < |a| && a[k] == b[i];
      var l :| 0 <= l < |a| && a[l] == b[j];
    }
  }

  // ---- printing ----------------------------------------------------------------------------------

  ghost predicate Sorted(ks: seq<Key>) {
    forall i, j :: 0 <= i < j < |ks| ==> LexLess(Spell(ks[i]), Spell(ks[j]))
  }

  ghost predicate Lists(ks: seq<Key>, s: set<Key>) {
    forall k :: k in ks <==> k in s
  }

  /** One printed option */
  function Piece(k: Key, v: string): string {
    if v == "" then Spell(k) else Spell(k) + "=" + v
  }

  function Pieces(m: map<Key, string>, ks: seq<Key>): (ps: seq<string>)
    requires forall i :: 0 <= i < |ks| ==> ks[i] in m
    ensures |ps| == |ks| && forall i :: 0 <= i < |ks| ==> ps[i] == Piece(ks[i], m[ks[i]])
  {
    seq(|ks|, i requires 0 <= i < |ks| => Piece(ks[i], m[ks[i]]))
  }

  /** `s` is what `format` makes of the options: sorted by key, joined by commas. */
  ghost predicate Prints(m: map<Key, string>, s: string) {
    exists ks :: Sorted(ks) && Lists(ks, m.Keys) && s == Join(Pieces(m, ks), ',')
  }

  lemma NonEmptyHolds(b: seq<Key>)
    requires b != []
    ensures exists k :: k in b
  {
    assert b[0] in b;
  }

  lemma {:induction false} SortedListUnique(a: seq<Key>, b: seq<Key>)
    requires Sorted(a) && Sorted(b) && forall k :: k in a <==> k in b
    ensures a == b
    decreases |a|
  {
    if a == [] {
      if b != [] { NonEmptyHolds(b); }
    } else {
      assert a[0] in b && b != [] && b[0] in a;
      assert a[0] == b[0] by {
        if a[0] != b[0] {
          var i :| 0 <= i < |b| && b[i] == a[0];
          var j :| 0 <= j < |a| && a[j] == b[0];
          LexTransitive(Spell(a[0]), Spell(b[0]), Spell(a[0]));
          LexIrreflexive(Spell(a[0]));
        }
      }
      forall k ensures k in a[1..] <==> k in b[1..] {
        SortedTail(a, k);
        SortedTail(b, k);
      }
      SortedListUnique(a[1..], b[1..]);
    }
  }

  lemma SortedTail(a: seq<Key>, k: Key)
    requires Sorted(a) && a != []
    ensures k in a[1..] <==> k in a && k != a[0]
  {
    LexIrreflexive(Spell(a[0]));
    if k in a[1..] {
      var i :| 0 <= i < |a[1..]| && a[1..][i] == k;
      assert a[i + 1] == k;
    }
    if k in a && k != a[0] {
      var i :| 0 <= i < |a| && a[i] == k;
      assert a[1..][i - 1] == k;
    }
  }

  /** Printing is deterministic although the map is iterated in arbitrary order. */
  lemma PrintsUnique(m: map<Key, string>, s: string, t: string)
    requires Prints(m, s) && Prints(m, t)
    ensures s == t
  {
    var ks :| Sorted(ks) && Lists(ks, m.Keys) && s == Join(Pieces(m, ks), ',');
    var ls :| Sorted(ls) && Lists(ls, m.Keys) && t == Join(Pieces(m, ls), ',');
    SortedListUnique(ks, ls);
  }

  // ---- what parsing leaves in the options map --------------------------------------------------------

  /** Keys hold no separator; a key with a value is printed without white space at its ends. */
  predicate CleanEntry(k: Key, v: string) {
    && WellSpelled(k) && ',' !in Spell(k) && '=' !in Spell(k) && ',' !in v
    && (v != "" ==> Tight(Piece(k, v)))
  }

  predicate CleanToken(o: Opt) {
    CleanEntry(o.key, if o.Pair? then o.value else "")
  }

  /** A recorded value would be recorded again as it is. */
  predicate GoodEntry(k: Key, v: string) {
    v != "" ==> GoodValue(Pair(k, v)) && Stored(Pair(k, v)) == v
  }

  /** The fields that validation looks at agree with the recorded values. */
  predicate Agrees(st: Parsed) {
    var m, perf := st.options, st.performance;
    && (Timeo in m && m[Timeo] != "" ==> perf.timeo == ParseU32(m[Timeo]))
    && (Nfsvers in m && m[Nfsvers] != "" ==> perf.nfsvers == ParseU32(m[Nfsvers]))
    && (Rsize in m && m[Rsize] != "" ==> perf.rsize == ParseSize(m[Rsize]))
    && (Wsize in m && m[Wsize] != "" ==> perf.wsize == ParseSize(m[Wsize]))
  }

  ghost predicate CleanMap(m: map<Key, string>) {
    forall k :: k in m ==> CleanEntry(k, m[k]) && GoodEntry(k, m[k])
  }

  lemma PieceIsClean(p: string)
    requires p != "" && Tight(p) && ',' !in p
    ensures CleanToken(Token(p))
    ensures Token(p).Flag? ==> Spell(Token(p).key) == p
  {
    var e := PositionOfEquals(p);
    if e < |p| {
      assert p == p[..e] + "=" + p[e + 1..];
    }
  }

  lemma {:induction false} TokensAreClean(raw: seq<string>)
    requires forall i :: 0 <= i < |raw| ==> Tight(raw[i]) && ',' !in raw[i]
    ensures forall i :: 0 <= i < |Tokens(raw)| ==> CleanToken(Tokens(raw)[i])
    ensures forall i :: 0 <= i < |Tokens(raw)| && Tokens(raw)[i].Flag? ==>
              Spell(Tokens(raw)[i].key) != "" && Tight(Spell(Tokens(raw)[i].key))
  {
    hide CleanToken, Tight;
    if raw != [] {
      TokensAreClean(raw[..|raw| - 1]);
      if raw[|raw| - 1] != "" {
        PieceIsClean(raw[|raw| - 1]);
      }
    }
  }

  lemma RawIsTight(s: string)
    ensures forall i :: 0 <= i < |Raw(s)| ==> Tight(Raw(s)[i]) && ',' !in Raw(s)[i]
  {
    SplitPiecesFree(s, ',');
    forall i | 0 <= i < |Raw(s)| ensures Tight(Raw(s)[i]) && ',' !in Raw(s)[i] {
      TrimIsTight(Split(s, ',')[i]);
    }
  }

  lemma SizeEntryClean(k: Key, n: nat)
    requires (k == Rsize || k == Wsize) && n < USIZE
    ensures CleanEntry(k, Decimal(n)) && GoodEntry(k, Decimal(n)) && ParseSize(Decimal(n)) == Some(n)
  {
    ParseSizeDecimal(n);
    SizePieceTight(k, n);
    hide ParseSize, Decimal, Tight;
    KnownKeysWellSpelled(k);
  }

  lemma SizePieceTight(k: Key, n: nat)
    requires k == Rsize || k == Wsize
    ensures Tight(Piece(k, Decimal(n))) && ',' !in Decimal(n)
  {
    hide Decimal;
    DecimalDigits(n);
    var p := Piece(k, Decimal(n));
    assert p[|p| - 1] == Decimal(n)[|Decimal(n)| - 1];
    assert p[0] == Spell(k)[0];
  }

  /** Every option, repeated or not, keeps the map clean and the records in step with it. */
  lemma ProcessKeeps(st: Parsed, o: Opt)
    requires CleanMap(st.options) && Agrees(st) && CleanToken(o) && Process(st, o).Ok?
    ensures CleanMap(Process(st, o).value.options) && Agrees(Process(st, o).value)
  {
    if o.Flag? {
      FlagKeeps(st, o.key);
    } else {
      PairKeeps(st, o.key, o.value);
    }
  }

  lemma FlagKeeps(st: Parsed, key: Key)
    requires CleanMap(st.options) && Agrees(st) && CleanEntry(key, "") && ProcessFlag(st, key).Ok?
    ensures CleanMap(ProcessFlag(st, key).value.options) && Agrees(ProcessFlag(st, key).value)
  {
    hide CleanEntry, ParseU32, ParseSize, GoodValue;
  }

  lemma CleanMapGrows(m: map<Key, string>, k: Key, v: string)
    requires CleanMap(m) && CleanEntry(k, v) && GoodEntry(k, v)
    ensures CleanMap(m[k := v])
  {
    hide CleanEntry, GoodEntry;
  }

  lemma PairAgrees(st: Parsed, key: Key, value: string)
    requires Agrees(st) && ProcessPair(st, key, value).Ok?
    requires key == Rsize || key == Wsize ==> ParseSize(Decimal(ParseSize(value).value)) == ParseSize(value)
    ensures Agrees(ProcessPair(st, key, value).value)
  {
    hide ParseU32, ParseSize, ParseMode, Decimal, IsNfsVersion, IsSmbVersion, PairSecurity;
  }

  lemma PairOptions(st: Parsed, key: Key, value: string)
    requires ProcessPair(st, key, value).Ok?
    ensures GoodValue(Pair(key, value))
    ensures ProcessPair(st, key, value).value.options == st.options[key := Stored(Pair(key, value))]
  {
    hide ParseU32, ParseSize, ParseMode, Decimal;
  }

  lemma PairKeeps(st: Parsed, key: Key, value: string)
    requires CleanMap(st.options) && Agrees(st) && CleanEntry(key, value) && ProcessPair(st, key, value).Ok?
    ensures CleanMap(ProcessPair(st, key, value).value.options) && Agrees(ProcessPair(st, key, value).value)
  {
    hide ParseSize, Decimal, CleanEntry, Agrees, CleanMap;
    PairOptions(st, key, value);
    if key == Rsize || key == Wsize {
      ParseSizeBound(value);
      SizeEntryClean(key, ParseSize(value).value);
    }
    PairAgrees(st, key, value);
    CleanMapGrows(st.options, key, Stored(Pair(key, value)));
  }

  lemma {:induction false} FoldKeeps(opts: seq<Opt>)
    requires forall i :: 0 <= i < |opts| ==> CleanToken(opts[i])
    requires Fold(opts).Ok?
    ensures CleanMap(Fold(opts).value.options) && Agrees(Fold(opts).value)
  {
    hide CleanToken;
    if opts != [] {
      FoldKeeps(opts[..|opts| - 1]);
      ProcessKeeps(Fold(opts[..|opts| - 1]).value, opts[|opts| - 1]);
    }
  }
}
