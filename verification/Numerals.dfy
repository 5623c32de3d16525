/** Number to text in rekernel/tinyprintf/tinyprintf.c: ulli2a, uli2a, ui2a and their signed forms. */
module Numerals {
  import opened Base

  const WORD32: nat := 0x1_0000_0000
  const BUFFER: nat := 23

  function Pow(base: nat, e: nat): nat {
    if e == 0 then 1 else base * Pow(base, e - 1)
  }

  /** Division and remainder, kept apart from the arithmetic around them. */
  function Quo(n: nat, d: nat): nat
    requires d > 0
  {
    n / d
  }

  function Rem(n: nat, d: nat): nat
    requires d > 0
  {
    n % d
  }

  lemma QuoRem(n: nat, d: nat)
    requires d > 0
    ensures Rem(n, d) < d && Quo(n, d) * d + Rem(n, d) == n && d * Quo(n, d) + Rem(n, d) == n
    ensures d >= 2 && n > 0 ==> Quo(n, d) < n
  {
    var q := n / d;
    assert d >= 2 && q >= 1 ==> q * d >= q * 2;
  }

  lemma QuoRemUnique(n: nat, d: nat, q: nat, r: nat)
    requires d > 0 && r < d && n == q * d + r
    ensures Quo(n, d) == q && Rem(n, d) == r
  {
    DivModUnique(n, d, q, r);
  }

  predicate IsBase(base: nat) { base == 8 || base == 10 || base == 16 }

  /** The digits of n, most significant first, without leading zeros. */
  function Digits(n: nat, base: nat): (s: seq<nat>)
    requires base >= 2
    ensures |s| >= 1 && forall i :: 0 <= i < |s| ==> s[i] < base
  {
    if n < base then [n] else
      QuoRem(n, base);
      Digits(Quo(n, base), base) + [Rem(n, base)]
  }

  function Eval(s: seq<nat>, base: nat): nat {
    if s == [] then 0 else Eval(s[..|s| - 1], base) * base + s[|s| - 1]
  }

  /** Digits from ten on are letters, of the case asked for. */
  function DigitChar(d: nat, uc: bool): (ch: char)
    requires d < 16
    ensures if d < 10 then '0' <= ch <= '9' else if uc then 'A' <= ch <= 'F' else 'a' <= ch <= 'f'
  {
    if d < 10 then '0' + d as char else (if uc then 'A' else 'a') + (d - 10) as char
  }

  /** a2d: the value of a hexadecimal digit, or -1. */
  function DigitValue(ch: char): int {
    if '0' <= ch <= '9' then (ch - '0') as int
    else if 'a' <= ch <= 'f' then (ch - 'a') as int + 10
    else if 'A' <= ch <= 'F' then (ch - 'A') as int + 10
    else -1
  }

  function Chars(s: seq<nat>, uc: bool): (t: seq<char>)
    requires forall i :: 0 <= i < |s| ==> s[i] < 16
    ensures |t| == |s|
  {
    seq(|s|, i requires 0 <= i < |s| => DigitChar(s[i], uc))
  }

  function Text(n: nat, base: nat, uc: bool): seq<char>
    requires IsBase(base)
  {
    Chars(Digits(n, base), uc)
  }

  /** The number that a text denotes. */
  function Number(t: seq<char>, base: nat): int {
    if t == [] then 0 else Number(t[..|t| - 1], base) * base + DigitValue(t[|t| - 1])
  }

  // What the digits mean.

  lemma EvalSnoc(s: seq<nat>, d: nat, base: nat)
    ensures Eval(s + [d], base) == Eval(s, base) * base + d
  {
    assert (s + [d])[..|s|] == s;
  }

  lemma EvalOne(d: nat, base: nat)
    ensures Eval([d], base) == d
  {
    assert [d][..0] == [];
    assert Eval([d], base) == Eval([], base) * base + d;
  }

  lemma {:induction false} EvalDigits(n: nat, base: nat)
    requires base >= 2
    ensures Eval(Digits(n, base), base) == n
  {
    hide Eval;
    hide Quo;
    hide Rem;
    if n >= base {
      QuoRem(n, base);
      EvalDigits(Quo(n, base), base);
      EvalSnoc(Digits(Quo(n, base), base), Rem(n, base), base);
    } else {
      EvalOne(n, base);
    }
  }

  lemma DigitCharValue(d: nat, uc: bool)
    requires d < 16
    ensures DigitValue(DigitChar(d, uc)) == d && DigitChar(d, uc) != '\0'
    ensures DigitChar(d, uc) == '0' <==> d == 0
  {
  }

  lemma {:induction false} NumberOfChars(s: seq<nat>, base: nat, uc: bool)
    requires forall i :: 0 <= i < |s| ==> s[i] < 16
    ensures Number(Chars(s, uc), base) == Eval(s, base)
  {
    if s != [] {
      var k := |s| - 1;
      NumberOfChars(s[..k], base, uc);
      assert Chars(s, uc)[..k] == Chars(s[..k], uc);
      DigitCharValue(s[k], uc);
    }
  }

  /** The text denotes the number. */
  lemma TextReadsBack(n: nat, base: nat, uc: bool)
    requires IsBase(base)
    ensures Number(Text(n, base, uc), base) == n
  {
    EvalDigits(n, base);
    NumberOfChars(Digits(n, base), base, uc);
  }

  lemma {:induction false} FirstDigit(n: nat, base: nat)
    requires base >= 2
    ensures |Digits(n, base)| > 1 ==> Digits(n, base)[0] > 0
    ensures Digits(n, base)[0] == 0 ==> n == 0
  {
    hide Quo;
    hide Rem;
    if n >= base {
      QuoRem(n, base);
      FirstDigit(Quo(n, base), base);
    }
  }

  /** The text is canonical: a leading zero only for zero itself. */
  lemma TextCanonical(n: nat, base: nat, uc: bool)
    requires IsBase(base)
    ensures |Text(n, base, uc)| >= 1
    ensures Text(n, base, uc)[0] == '0' ==> n == 0 && |Text(n, base, uc)| == 1
  {
    FirstDigit(n, base);
    DigitCharValue(Digits(n, base)[0], uc);
  }

  /** The letters of the text are of the case asked for, and below base ten there are none. */
  lemma TextLetters(n: nat, base: nat, uc: bool)
    requires IsBase(base)
    ensures var t := Text(n, base, uc);
            forall i :: 0 <= i < |t| ==>
              || '0' <= t[i] <= '9'
              || (base == 16 && if uc then 'A' <= t[i] <= 'F' else 'a' <= t[i] <= 'f')
  {
    var t := Text(n, base, uc);
    forall i | 0 <= i < |t|
      ensures '0' <= t[i] <= '9' || (base == 16 && if uc then 'A' <= t[i] <= 'F' else 'a' <= t[i] <= 'f')
    {
      assert t[i] == DigitChar(Digits(n, base)[i], uc);
    }
  }

  lemma MulAssoc(a: nat, x: nat, y: nat)
    ensures a * (x * y) == (a * x) * y
  {
  }

  lemma {:induction false} PowPlus(b: nat, i: nat, j: nat)
    ensures Pow(b, i + j) == Pow(b, i) * Pow(b, j)
  {
    if i > 0 {
      PowPlus(b, i - 1, j);
      var x, y := Pow(b, i - 1), Pow(b, j);
      PowNext(b, i - 1, x);
      PowNext(b, i - 1 + j, x * y);
      hide Pow;
      MulAssoc(b, x, y);
    }
  }

  lemma PowTwice(b: nat, i: nat)
    ensures Pow(b, 2 * i) == Pow(b, i) * Pow(b, i)
    ensures Pow(b, 1) == b
  {
    PowPlus(b, i, i);
    assert Pow(b, 1) == b * Pow(b, 0);
  }

  lemma DivBelow(n: nat, b: nat, p: nat)
    requires b > 0 && n < b * p
    ensures Quo(n, b) < p
  {
    QuoRem(n, b);
    var q := Quo(n, b);
    hide Quo;
    hide Rem;
    if q >= p {
      MulMono(b, p, q);
    }
  }

  lemma {:induction false} DigitCount(n: nat, base: nat, k: nat)
    requires base >= 2 && k >= 1 && n < Pow(base, k)
    ensures |Digits(n, base)| <= k
    decreases k
  {
    hide Quo;
    hide Rem;
    if n >= base {
      PowNext(base, 0, 1);
      PowNext(base, k - 1, Pow(base, k - 1));
      DivBelow(n, base, Pow(base, k - 1));
      DigitCount(Quo(n, base), base, k - 1);
    }
  }

  /** Every 64-bit number fits the buffer with its terminator. */
  lemma TextFits(n: nat, base: nat, uc: bool)
    requires IsBase(base) && n < WORD
    ensures |Text(n, base, uc)| < BUFFER
  {
    if base == 8 {
      PowTwice(8, 1);
      PowTwice(8, 2);
      PowTwice(8, 4);
      PowTwice(8, 8);
      PowPlus(8, 16, 4);
      PowPlus(8, 20, 2);
      DigitCount(n, 8, 22);
    } else if base == 10 {
      PowTwice(10, 1);
      PowTwice(10, 2);
      PowTwice(10, 4);
      PowTwice(10, 8);
      PowPlus(10, 16, 4);
      DigitCount(n, 10, 20);
    } else {
      PowTwice(16, 1);
      PowTwice(16, 2);
      PowTwice(16, 4);
      PowTwice(16, 8);
      DigitCount(n, 16, 16);
    }
  }

  // Most significant digit first.

  /** n in exactly e digits, taken off from the top by division. */
  function Fixed(n: nat, e: nat, base: nat): (s: seq<nat>)
    requires base >= 2
    ensures |s| == e
    decreases e
  {
    if e == 0 then [] else
      PowPositive(base, e - 1);
      [Quo(n, Pow(base, e - 1))] + Fixed(Rem(n, Pow(base, e - 1)), e - 1, base)
  }

  lemma {:induction false} PowPositive(base: nat, e: nat)
    requires base >= 2
    ensures Pow(base, e) > 0
  {
    if e > 0 {
      PowPositive(base, e - 1);
    }
  }

  lemma MulMono(a: nat, x: int, y: int)
    requires x <= y
    ensures a * x <= a * y
  {
  }

  lemma MulSplit(a: int, x: int, y: int)
    ensures a * (x + y) == a * x + a * y
  {
  }

  lemma MulRegroup(a: int, x: int, y: int)
    ensures a * (x * y) == y * (a * x)
  {
  }

  /** n is y times b * q and a remainder in which z counts the b's. */
  lemma DivParts(n: nat, b: nat, q: nat, x: nat, r: nat, y: nat, z: nat)
    requires b > 0 && q > 0 && n == b * x + r && r < b && x == q * y + z && z < q
    ensures b * q > 0 && n == y * (b * q) + (b * z + r) && 0 <= b * z + r < b * q
  {
    MulSplit(b, q * y, z);
    MulRegroup(b, q, y);
    MulMono(b, z, q - 1);
    MulSplit(b, q, -1);
    MulMono(b, 0, z);
  }

  /** Dividing by b and then by q is dividing by b * q. */
  lemma DivChain(n: nat, b: nat, q: nat)
    requires b > 0 && q > 0
    ensures b * q > 0 && Quo(n, b * q) == Quo(Quo(n, b), q)
    ensures Quo(Rem(n, b * q), b) == Rem(Quo(n, b), q) && Rem(Rem(n, b * q), b) == Rem(n, b)
  {
    hide Quo;
    hide Rem;
    var x, r := Quo(n, b), Rem(n, b);
    var y, z := Quo(x, q), Rem(x, q);
    QuoRem(n, b);
    QuoRem(x, q);
    DivParts(n, b, q, x, r, y, z);
    QuoRemUnique(n, b * q, y, b * z + r);
    QuoRemUnique(b * z + r, b, z, r);
  }

  lemma {:induction false} FixedSnoc(n: nat, e: nat, base: nat)
    requires base >= 2 && e >= 1 && n < Pow(base, e)
    ensures Fixed(n, e, base) == Fixed(Quo(n, base), e - 1, base) + [Rem(n, base)]
    decreases e
  {
    hide Fixed;
    hide Quo;
    hide Rem;
    FixedStep(n, e, base);
    if e == 1 {
      PowNext(base, 0, 1);
      QuoRemUnique(n, 1, n, 0);
      QuoRemUnique(n, base, 0, n);
      FixedNone(0, base);
    } else {
      var q, p := Pow(base, e - 2), Pow(base, e - 1);
      PowPositive(base, e - 2);
      PowNext(base, e - 2, q);
      hide Pow;
      DivChain(n, base, q);
      QuoRem(n, p);
      var m, c := Rem(n, p), Quo(n, base);
      FixedSnoc(m, e - 1, base);
      FixedStep(c, e - 1, base);
      calc {
        Fixed(n, e, base);
        [Quo(n, p)] + (Fixed(Quo(m, base), e - 2, base) + [Rem(m, base)]);
        ([Quo(c, q)] + Fixed(Rem(c, q), e - 2, base)) + [Rem(n, base)];
      }
    }
  }

  lemma FixedNone(n: nat, base: nat)
    requires base >= 2
    ensures Fixed(n, 0, base) == []
  {
  }

  lemma FixedStep(n: nat, e: nat, base: nat)
    requires base >= 2 && e >= 1
    ensures Pow(base, e - 1) > 0
    ensures Fixed(n, e, base) == [Quo(n, Pow(base, e - 1))] + Fixed(Rem(n, Pow(base, e - 1)), e - 1, base)
  {
    PowPositive(base, e - 1);
  }

  /** Taking digits off from the top gives the canonical digits, if the count is right. */
  lemma {:induction false} FixedIsDigits(n: nat, e: nat, base: nat)
    requires base >= 2 && e >= 1 && n < Pow(base, e) && (e > 1 ==> n >= Pow(base, e - 1))
    ensures Fixed(n, e, base) == Digits(n, base)
    decreases e
  {
    FixedSnoc(n, e, base);
    PowNext(base, 0, 1);
    hide Fixed;
    hide Quo;
    hide Rem;
    if e == 1 {
      QuoRemUnique(n, base, 0, n);
      FixedNone(0, base);
    } else {
      var p, q := Pow(base, e - 2), Pow(base, e - 1);
      PowNext(base, e - 2, p);
      PowNext(base, e - 1, q);
      PowPositive(base, e - 2);
      MulMono(base, 1, p);
      hide Pow;
      DivBelow(n, base, q);
      DivAtLeast(n, base, p);
      FixedIsDigits(Quo(n, base), e - 1, base);
    }
  }

  lemma DivAtLeast(n: nat, b: nat, p: nat)
    requires b > 0 && n >= b * p
    ensures Quo(n, b) >= p
  {
    QuoRem(n, b);
    var q := Quo(n, b);
    hide Quo;
    hide Rem;
    if q < p {
      MulMono(b, q, p - 1);
      MulSplit(b, p, -1);
    }
  }

  lemma PowNext(base: nat, e: nat, d: nat)
    requires d == Pow(base, e)
    ensures Pow(base, e + 1) == d * base == base * d
  {
  }

  lemma ChunkAbove(n: nat, d: nat, b: nat)
    requires d > 0 && Quo(n, d) >= b
    ensures n >= d * b
  {
    QuoRem(n, d);
    MulMono(d, b, Quo(n, d));
  }

  lemma ChunkBelow(n: nat, d: nat, b: nat)
    requires d > 0 && b > 0 && Quo(n, d) < b
    ensures n < b * d
  {
    QuoRem(n, d);
    MulMono(d, Quo(n, d), b - 1);
    MulSplit(d, b, -1);
  }

  /** The first loop: the largest power of the base that is not above the number, or 1.  The product never exceeds the
      machine word. */
  method Scale(num: nat, base: nat, word: nat) returns (d: nat, ghost e: nat)
    requires base >= 2 && num < word
    ensures d == Pow(base, e) && num < Pow(base, e + 1) && (e > 0 ==> d <= num)
    ensures 1 <= d && (d > 1 ==> d <= num) && num < base * d
  {
    hide Quo;
    hide Rem;
    d, e := 1, 0;
    while Quo(num, d) >= base
      invariant d == Pow(base, e) > 0 && (e > 0 ==> d <= num)
      decreases num - d
    {
      ghost var d0 := d;
      ChunkAbove(num, d, base);
      MulMono(d, 2, base);
      QuoRemUnique(d * base, word, 0, d * base);
      d := Rem(d * base, word);
      PowNext(base, e, d0);
      e := e + 1;
      hide Pow;
    }
    ChunkBelow(num, d, base);
    PowNext(base, e, d);
  }

  /** The divisions of one turn of the second loop: the top digit, the rest, and the next lower power. */
  method TakeDigit(num: nat, d: nat, base: nat, ghost e: nat) returns (dgt: nat, num': nat, d': nat)
    requires base >= 2 && e >= 1 && d == Pow(base, e - 1) && num < Pow(base, e)
    ensures Fixed(num, e, base) == [dgt] + Fixed(num', e - 1, base)
    ensures num' < Pow(base, e - 1) && d' == (if e == 1 then 0 else Pow(base, e - 2)) && (d' == 0 <==> e == 1)
  {
    FixedStep(num, e, base);
    PowOver(base, e - 1);
    QuoRem(num, d);
    hide Fixed;
    hide Pow;
    hide Quo;
    hide Rem;
    dgt := Quo(num, d);
    num' := Rem(num, d);
    d' := Quo(d, base);
  }

  /** The second loop: the e digits of num go to the buffer, except leading zeros, of which there are none. */
  method EmitDigits(num0: nat, d0: nat, base: nat, uc: bool, bf: array<char>, ghost e0: nat, ghost digits: seq<nat>)
    returns (n: nat)
    requires base >= 2 && e0 >= 1 && d0 == Pow(base, e0 - 1) && 0 < d0 && num0 < Pow(base, e0)
    requires bf.Length == BUFFER && e0 == |digits| < BUFFER && digits == Fixed(num0, e0, base)
    requires forall i :: 0 <= i < |digits| ==> digits[i] < 16
    requires |digits| > 1 ==> digits[0] > 0
    modifies bf
    ensures n == |digits| && bf[..n] == Chars(digits, uc)
    ensures forall i :: n <= i < BUFFER ==> bf[i] == old(bf[i])
  {
    hide Fixed;
    hide Pow;
    hide DigitChar;
    hide Chars;
    var num: nat, d: nat := num0, d0;
    ghost var e := e0;
    ghost var done: seq<nat> := [];
    n := 0;
    ShownNone(bf[..], uc);
    while d != 0
      invariant d == (if e == 0 then 0 else Pow(base, e - 1)) && num < Pow(base, e) && (d == 0 <==> e == 0)
      invariant n + e == |digits| && digits == done + Fixed(num, e, base)
      invariant Shown(bf[..], done, uc, n)
      invariant forall i :: n <= i < BUFFER ==> bf[i] == old(bf[i])
      decreases e
    {
      var dgt: nat;
      ghost var num', before := num, bf[..];
      dgt, num, d := TakeDigit(num, d, base, e);
      DigitNext(digits, done, dgt, Fixed(num', e, base), Fixed(num, e - 1, base));
      if n > 0 || dgt > 0 || d == 0 {
        bf[n] := DigitChar(dgt, uc);
        n := n + 1;
      }
      ShownNext(before, bf[..], done, dgt, uc, n - 1);
      done := done + [dgt];
      e := e - 1;
    }
    FixedNone(num, base);
    ShownAll(bf[..], digits, done, uc, n);
  }

  /** The first n characters of a text show n digits. */
  ghost predicate Shown(bf: seq<char>, done: seq<nat>, uc: bool, n: nat) {
    && n == |done| && n <= |bf|
    && forall i :: 0 <= i < n ==> done[i] < 16 && bf[i] == DigitChar(done[i], uc)
  }

  lemma ShownNone(bf: seq<char>, uc: bool)
    ensures Shown(bf, [], uc, 0)
  {
  }

  lemma ShownNext(before: seq<char>, after: seq<char>, done: seq<nat>, dgt: nat, uc: bool, n: nat)
    requires Shown(before, done, uc, n) && dgt < 16 && n < |before| && after == before[n := DigitChar(dgt, uc)]
    ensures Shown(after, done + [dgt], uc, n + 1)
  {
    hide DigitChar;
  }

  lemma ShownAll(bf: seq<char>, digits: seq<nat>, done: seq<nat>, uc: bool, n: nat)
    requires Shown(bf, done, uc, n) && digits == done + []
    requires forall i :: 0 <= i < |digits| ==> digits[i] < 16
    ensures n == |digits| && bf[..n] == Chars(digits, uc)
  {
    hide DigitChar;
  }

  /** The next digit is a digit of the text, and not a leading zero. */
  lemma DigitNext(digits: seq<nat>, done: seq<nat>, dgt: nat, rest: seq<nat>, rest': seq<nat>)
    requires digits == done + rest && rest == [dgt] + rest'
    requires forall i :: 0 <= i < |digits| ==> digits[i] < 16
    requires |digits| > 1 ==> digits[0] > 0
    ensures digits == (done + [dgt]) + rest' && dgt < 16 && (|done| > 0 || dgt > 0 || |rest'| == 0)
  {
    assert digits[|done|] == dgt;
  }

  /** ulli2a and uli2a with a word of 64 bits, ui2a with one of 32: the text of a number and its terminator. */
  method U2a(n0: nat, base: nat, uc: bool, word: nat, bf: array<char>) returns (n: nat)
    requires IsBase(base) && n0 < word <= WORD && bf.Length == BUFFER
    modifies bf
    ensures n < BUFFER && bf[..n] == Text(n0, base, uc) && bf[n] == '\0'
    ensures forall i :: n < i < BUFFER ==> bf[i] == old(bf[i])
  {
    var d, e := Scale(n0, base, word);
    TextFits(n0, base, uc);
    FixedIsDigits(n0, e + 1, base);
    FirstDigit(n0, base);
    PowPositive(base, e);
    hide Digits;
    hide Fixed;
    hide Pow;
    n := EmitDigits(n0, d, base, uc, bf, e + 1, Digits(n0, base));
    bf[n] := '\0';
  }

  /** Dividing a power of the base by the base gives the next lower one, and 0 after 1. */
  lemma PowOver(base: nat, e: nat)
    requires base >= 2
    ensures Quo(Pow(base, e), base) == if e == 0 then 0 else Pow(base, e - 1)
    ensures Quo(Pow(base, e), base) == 0 <==> e == 0
  {
    hide Quo;
    hide Rem;
    if e > 0 {
      PowPositive(base, e - 1);
      QuoRemUnique(Pow(base, e), base, Pow(base, e - 1), 0);
    } else {
      QuoRemUnique(1, base, 0, 1);
    }
  }

  /** A signed machine number read as unsigned. */
  function Unsigned(n: int, word: nat): nat
    requires word > 0 && -(word as int) <= n < word
  {
    if n < 0 then n + word else n
  }

  /** lli2a, li2a and i2a: the most negative number has no negation, and is its own under wrap-around. */
  method I2a(n0: int, uc: bool, word: nat, bf: array<char>) returns (n: nat, minus: bool)
    requires (word == WORD32 || word == WORD) && -(word / 2) <= n0 < word / 2 && bf.Length == BUFFER
    modifies bf
    ensures minus == (n0 < 0)
    ensures n < BUFFER && bf[..n] == Text(if n0 < 0 then -n0 else n0, 10, uc) && bf[n] == '\0'
  {
    var num := n0;
    minus := false;
    if num < 0 {
      num := if num == -(word / 2) then num else -num;
      minus := true;
    }
    n := U2a(Unsigned(num, word), 10, uc, word, bf);
  }

  /** A sign and a text denote the signed number, the most negative one included. */
  lemma SignedReadsBack(n: int, uc: bool)
    ensures var t := Number(Text(if n < 0 then -n else n, 10, uc), 10);
            n == if n < 0 then -t else t
  {
    TextReadsBack(if n < 0 then -n else n, 10, uc);
  }
}
