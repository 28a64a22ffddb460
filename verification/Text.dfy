/** String primitives of the Rust standard library that the models rely on:
    `str::split`, `[_]::join`, unsigned `parse` / `from_str_radix`, and `to_string`. */
module Text {
  import opened Wrappers

  /** `s.split(sep)`: always at least one piece. */
  function Split(s: string, sep: char): (parts: seq<string>)
    ensures |parts| >= 1
  {
    if s == [] then [[]]
    else
      var rest := Split(s[1..], sep);
      if s[0] == sep then [[]] + rest else [[s[0]] + rest[0]] + rest[1..]
  }

  /** `parts.join(sep)` */
  function Join(parts: seq<string>, sep: char): string {
    if parts == [] then []
    else if |parts| == 1 then parts[0]
    else parts[0] + [sep] + Join(parts[1..], sep)
  }

  ghost predicate Free(parts: seq<string>, sep: char) {
    forall i :: 0 <= i < |parts| ==> sep !in parts[i]
  }

  lemma {:induction false} SplitOne(p: string, sep: char)
    requires sep !in p
    ensures Split(p, sep) == [p]
  {
    if p != [] {
      SplitOne(p[1..], sep);
      assert [p[0]] + p[1..] == p;
    }
  }

  lemma {:induction false} SplitFirst(p: string, rest: string, sep: char)
    requires sep !in p
    ensures Split(p + [sep] + rest, sep) == [p] + Split(rest, sep)
  {
    var s := p + [sep] + rest;
    if p == [] {
      assert s[1..] == rest;
    } else {
      SplitFirst(p[1..], rest, sep);
      assert s[1..] == p[1..] + [sep] + rest;
      assert [p[0]] + p[1..] == p;
    }
  }

  lemma {:induction false} SplitPiecesFree(s: string, sep: char)
    ensures Free(Split(s, sep), sep)
  {
    if s != [] {
      SplitPiecesFree(s[1..], sep);
    }
  }

  lemma {:induction false} SplitJoinFree(parts: seq<string>, sep: char)
    requires |parts| >= 1 && Free(parts, sep)
    ensures Split(Join(parts, sep), sep) == parts
  {
    if |parts| == 1 {
      SplitOne(parts[0], sep);
    } else {
      SplitJoinFree(parts[1..], sep);
      SplitFirst(parts[0], Join(parts[1..], sep), sep);
    }
  }

  /** Splitting undoes joining for exactly the lists none of whose pieces holds the separator. */
  lemma SplitJoin(parts: seq<string>, sep: char)
    requires |parts| >= 1
    ensures Split(Join(parts, sep), sep) == parts <==> Free(parts, sep)
  {
    if Free(parts, sep) {
      SplitJoinFree(parts, sep);
    } else {
      SplitPiecesFree(Join(parts, sep), sep);
    }
  }

  /** Joining undoes splitting for every string. */
  lemma {:induction false} JoinSplit(s: string, sep: char)
    ensures Join(Split(s, sep), sep) == s
  {
    if s != [] {
      JoinSplit(s[1..], sep);
      var rest := Split(s[1..], sep);
      if s[0] == sep {
        assert Join([[]] + rest, sep) == [] + [sep] + Join(rest, sep) by { assert ([[]] + rest)[1..] == rest; }
      } else {
        var parts := [[s[0]] + rest[0]] + rest[1..];
        assert parts[1..] == rest[1..];
        assert |rest| > 1 ==> Join(parts, sep) == [s[0]] + (rest[0] + [sep] + Join(rest[1..], sep));
      }
      assert s == [s[0]] + s[1..];
    }
  }

  // ---- unsigned numbers --------------------------------------------------------------------

  function DigitValue(c: char, radix: nat): Option<nat>
    requires 2 <= radix <= 10
  {
    if '0' <= c && c as int - '0' as int < radix then Some(c as int - '0' as int) else None
  }

  /** The value of a non-empty digit string, or None if some character is not a digit. */
  function DigitsValue(s: string, radix: nat): Option<nat>
    requires 2 <= radix <= 10
  {
    if s == [] then None
    else
      var d := DigitValue(s[|s| - 1], radix);
      if d.None? || |s| == 1 then d
      else
        var high := DigitsValue(s[..|s| - 1], radix);
        if high.None? then None else Some(high.value * radix + d.value)
  }

  /** `T::from_str_radix(s, radix)` for an unsigned type with the given number of values:
      one leading `+` is accepted, a lone `+` and the empty string are not. */
  function ParseUnsigned(s: string, radix: nat, bound: nat): Option<nat>
    requires 2 <= radix <= 10
  {
    var digits := if |s| > 1 && s[0] == '+' then s[1..] else s;
    var n := DigitsValue(digits, radix);
    if n.Some? && n.value < bound then n else None
  }

  function DigitChar(d: nat): char
    requires d < 10
  {
    ('0' as int + d) as char
  }

  /** `n.to_string()` */
  function Decimal(n: nat): (s: string)
    ensures |s| >= 1
  {
    if n < 10 then [DigitChar(n)] else Decimal(n / 10) + [DigitChar(n % 10)]
  }

  lemma {:induction false} DecimalDigits(n: nat)
    ensures forall i :: 0 <= i < |Decimal(n)| ==> '0' <= Decimal(n)[i] <= '9'
  {
    if n >= 10 {
      DecimalDigits(n / 10);
    }
  }

  lemma {:induction false} DigitsValueDecimal(n: nat)
    ensures DigitsValue(Decimal(n), 10) == Some(n)
  {
    if n >= 10 {
      var s := Decimal(n);
      DigitsValueDecimal(n / 10);
      assert s[..|s| - 1] == Decimal(n / 10);
    }
  }

  /** Printing a number and reading it back gives the number. */
  lemma ParseDecimal(n: nat, bound: nat)
    requires n < bound
    ensures ParseUnsigned(Decimal(n), 10, bound) == Some(n)
  {
    DigitsValueDecimal(n);
    DecimalDigits(n);
  }

  function Zeros(k: nat): string {
    if k == 0 then [] else ['0'] + Zeros(k - 1)
  }

  lemma {:induction false} ZerosSnoc(k: nat)
    ensures Zeros(k) + ['0'] == Zeros(k + 1)
  {
    if k > 0 {
      ZerosSnoc(k - 1);
      assert Zeros(k) + ['0'] == ['0'] + (Zeros(k - 1) + ['0']);
    }
  }

  /** Digits denote a number only if they are its decimal form after any leading zeros. */
  lemma {:induction false} DigitsAreDecimal(s: string) returns (k: nat)
    requires DigitsValue(s, 10).Some?
    ensures s == Zeros(k) + Decimal(DigitsValue(s, 10).value)
  {
    k := 0;
    var init, last := s[..|s| - 1], s[|s| - 1];
    var n := DigitsValue(s, 10).value;
    var d := DigitValue(last, 10).value;
    assert s == init + [last] && [DigitChar(d)] == [last];
    if |s| > 1 {
      k := DigitsAreDecimal(init);
      var high := DigitsValue(init, 10).value;
      if high == 0 {
        ZerosSnoc(k);
        assert Decimal(0) == ['0'] && init == Zeros(k + 1);
        k := k + 1;
      } else {
        assert n / 10 == high && n % 10 == d;
        assert s == Zeros(k) + (Decimal(high) + [last]);
      }
    }
  }

  lemma {:induction false} ZerosThenDecimal(k: nat, n: nat)
    ensures DigitsValue(Zeros(k) + Decimal(n), 10) == Some(n)
    decreases n
  {
    DigitsValueDecimal(n);
    var s := Zeros(k) + Decimal(n);
    var init := s[..|s| - 1];
    if n >= 10 {
      ZerosThenDecimal(k, n / 10);
      assert init == Zeros(k) + Decimal(n / 10);
    } else {
      assert init == Zeros(k) && s[|s| - 1] == DigitChar(n);
      ZerosAreZero(k);
    }
  }

  lemma {:induction false} ZerosAreZero(k: nat)
    ensures k > 0 ==> DigitsValue(Zeros(k), 10) == Some(0)
    ensures |Zeros(k)| == k
  {
    if k > 0 {
      ZerosAreZero(k - 1);
      ZerosSnoc(k - 1);
      assert Zeros(k)[..k - 1] == Zeros(k - 1) && Zeros(k)[k - 1] == '0';
    }
  }

  /** Leading zeros if any, and the decimal form of `n` */
  ghost predicate Padded(s: string, n: nat) {
    exists k: nat :: s == Zeros(k) + Decimal(n)
  }

  /** The same, with a plus sign allowed in front */
  ghost predicate Numeral(s: string, n: nat) {
    Padded(s, n) || (s != [] && s[0] == '+' && Padded(s[1..], n))
  }

  lemma PaddedIff(s: string, n: nat)
    ensures DigitsValue(s, 10) == Some(n) <==> Padded(s, n)
    ensures Padded(s, n) ==> s != [] && s[0] != '+'
  {
    if DigitsValue(s, 10) == Some(n) {
      var k := DigitsAreDecimal(s);
    }
    if Padded(s, n) {
      var k: nat :| s == Zeros(k) + Decimal(n);
      ZerosThenDecimal(k, n);
      DecimalDigits(n);
      ZerosAreDigits(k);
      hide Decimal, DigitsValue, Zeros;
      assert s[0] == if |Zeros(k)| > 0 then Zeros(k)[0] else Decimal(n)[0];
    }
  }

  /** Exactly the numerals of numbers in range are read, and as those numbers. */
  lemma ParseUnsignedIff(s: string, bound: nat, n: nat)
    ensures ParseUnsigned(s, 10, bound) == Some(n) <==> n < bound && Numeral(s, n)
  {
    hide Padded;
    PaddedIff(s, n);
    if s != [] {
      PaddedIff(s[1..], n);
    }
    hide DigitsValue;
    if s == "+" {
      PaddedIff([], n);
      assert s[1..] == [];
    }
    PlusIsNoDigit(s);
  }

  lemma {:induction false} PlusIsNoDigit(s: string)
    ensures s != [] && s[0] == '+' ==> DigitsValue(s, 10).None?
  {
    if |s| > 1 {
      PlusIsNoDigit(s[..|s| - 1]);
    }
  }

  lemma {:induction false} ZerosAreDigits(k: nat)
    ensures forall i :: 0 <= i < |Zeros(k)| ==> Zeros(k)[i] == '0'
  {
    if k > 0 {
      ZerosAreDigits(k - 1);
    }
  }

  lemma DecimalInjective(m: nat, n: nat)
    requires Decimal(m) == Decimal(n)
    ensures m == n
  {
    DigitsValueDecimal(m);
    DigitsValueDecimal(n);
  }

  // ---- trimming --------------------------------------------------------------------------------

  /** Unicode White_Space, as `char::is_whitespace` */
  predicate IsSpace(c: char) {
    var u := c as int;
    || 9 <= u <= 13 || u == 0x20 || u == 0x85 || u == 0xA0 || u == 0x1680 || 0x2000 <= u <= 0x200A
    || u == 0x2028 || u == 0x2029 || u == 0x202F || u == 0x205F || u == 0x3000
  }

  function TrimStart(s: string): (r: string)
    ensures r != [] ==> !IsSpace(r[0])
    ensures forall c :: c in r ==> c in s
    ensures r != [] ==> s != [] && r[|r| - 1] == s[|s| - 1]
  {
    if s != [] && IsSpace(s[0]) then TrimStart(s[1..]) else s
  }

  function TrimEnd(s: string): (r: string)
    ensures r != [] ==> !IsSpace(r[|r| - 1])
    ensures forall c :: c in r ==> c in s
    ensures r != [] ==> s != [] && r[0] == s[0]
  {
    if s != [] && IsSpace(s[|s| - 1]) then TrimEnd(s[..|s| - 1]) else s
  }

  /** `s.trim()` */
  function Trim(s: string): string {
    TrimEnd(TrimStart(s))
  }

  /** Neither end is white space. */
  predicate Tight(s: string) {
    s != [] ==> !IsSpace(s[0]) && !IsSpace(s[|s| - 1])
  }

  lemma TrimIsTight(s: string)
    ensures Tight(Trim(s))
    ensures forall c :: c in Trim(s) ==> c in s
  {
  }

  lemma TrimTight(s: string)
    ensures Trim(s) == s <==> Tight(s)
  {
    TrimIsTight(s);
  }

  ghost predicate AllSpace(s: string) {
    forall i :: 0 <= i < |s| ==> IsSpace(s[i])
  }

  lemma {:induction false} TrimStartSplits(s: string) returns (a: string)
    ensures AllSpace(a) && s == a + TrimStart(s)
  {
    a := [];
    if s != [] && IsSpace(s[0]) {
      var b := TrimStartSplits(s[1..]);
      a := [s[0]] + b;
    }
  }

  lemma {:induction false} TrimEndSplits(s: string) returns (b: string)
    ensures AllSpace(b) && s == TrimEnd(s) + b
  {
    b := [];
    if s != [] && IsSpace(s[|s| - 1]) {
      var c := TrimEndSplits(s[..|s| - 1]);
      b := c + [s[|s| - 1]];
    }
  }

  /** Nothing but white space is trimmed away. */
  lemma TrimSplits(s: string) returns (a: string, b: string)
    ensures AllSpace(a) && AllSpace(b) && s == a + Trim(s) + b
  {
    a := TrimStartSplits(s);
    b := TrimEndSplits(TrimStart(s));
  }

  // ---- order ---------------------------------------------------------------------------------

  /** The order of `String`: bytewise on UTF-8, which is by code point. */
  predicate LexLess(a: string, b: string) {
    if b == [] then false
    else if a == [] then true
    else a[0] < b[0] || (a[0] == b[0] && LexLess(a[1..], b[1..]))
  }

  lemma {:induction false} LexTotal(a: string, b: string)
    ensures a == b || LexLess(a, b) || LexLess(b, a)
  {
    if a != [] && b != [] && a[0] == b[0] {
      LexTotal(a[1..], b[1..]);
      if a[1..] == b[1..] {
        assert a == [a[0]] + a[1..] && b == [b[0]] + b[1..];
      }
    }
  }

  lemma {:induction false} LexTransitive(a: string, b: string, c: string)
    requires LexLess(a, b) && LexLess(b, c)
    ensures LexLess(a, c)
  {
    if a != [] && a[0] == b[0] && b[0] == c[0] {
      LexTransitive(a[1..], b[1..], c[1..]);
    }
  }

  lemma {:induction false} LexIrreflexive(a: string)
    ensures !LexLess(a, a)
  {
    if a != [] {
      LexIrreflexive(a[1..]);
    }
  }
}
