/** The format interpreter of rekernel/tinyprintf/tinyprintf.c and the two sinks of vsnprintf and vsprintf. */
module Printf {
  import opened Base
  import opened Numerals

  const NUL: char := '\0'

  // One field.

  /** struct param, but for its buffer. */
  datatype Param = Param(lz: bool, alt: bool, left: bool, width: nat, minus: bool, base: nat, uc: bool)
  {
    function Sign(): seq<char> { if minus then ['-'] else [] }

    function Prefix(): seq<char> {
      if alt && base == 16 then ['0', if uc then 'X' else 'x']
      else if alt && base == 8 then ['0']
      else []
    }

    /** The width as a signed int. */
    function Width(): int { if width < 0x8000_0000 then width else width - 0x1_0000_0000 }

    /** What the sign and prefix take off the count of filling characters wraps around in 32 bits. */
    function Pad(len: nat): nat {
      var w := Width();
      var n := Wrap32((if w <= 0 then w else if w <= len then 0 else w - len) - |Sign()| - |Prefix()|);
      if n > 0 then n else 0
    }
  }

  /** A number just below the range of an int, as an int. */
  function Wrap32(n: int): int { if n < -0x8000_0000 then n + 0x1_0000_0000 else n }

  function Repeat(c: char, n: nat): (s: seq<char>)
    ensures |s| == n && forall i :: 0 <= i < n ==> s[i] == c
  {
    seq(n, _ => c)
  }

  /** A text with its sign, prefix and padding. */
  function Field(p: Param, text: seq<char>): seq<char> {
    var n := p.Pad(|text|);
    if p.lz then p.Sign() + p.Prefix() + Repeat('0', n) + text
    else if p.left then p.Sign() + p.Prefix() + text + Repeat(' ', n)
    else Repeat(' ', n) + p.Sign() + p.Prefix() + text
  }

  /** A field is as long as its width, or as what must be in it if that is longer.  A width that does not fit an int
      counts as none if and only if it stays negative without sign and prefix; else the count of filling characters
      wraps around to about two billion. */
  lemma FieldLength(p: Param, text: seq<char>)
    requires p.width < WORD32
    ensures var head := (if p.minus then 1 else 0) + if p.alt && p.base == 16 then 2 else if p.alt && p.base == 8 then 1 else 0;
            && (p.width < 0x8000_0000 ==>
                  |Field(p, text)| == if p.width > head + |text| then p.width else head + |text|)
            && (p.width >= 0x8000_0000 ==> (|Field(p, text)| == head + |text| <==> p.width - head >= 0x8000_0000))
            && (p.width >= 0x8000_0000 && p.width - head < 0x8000_0000 ==> |Field(p, text)| == p.width + |text|)
  {
    FieldParts(p, text);
    hide Field;
    hide Repeat;
  }

  /** A width that wraps around: %2147483648d of -1. */
  lemma WidthWraps(uc: bool)
    ensures |Field(Param(false, false, false, 0x8000_0000, true, 10, uc), ['1'])| == 0x8000_0001
  {
    FieldLength(Param(false, false, false, 0x8000_0000, true, 10, uc), ['1']);
  }

  lemma FieldParts(p: Param, text: seq<char>)
    ensures var n := p.Pad(|text|);
            && (p.lz ==> Field(p, text) == p.Sign() + p.Prefix() + Repeat('0', n) + text)
            && (!p.lz && p.left ==> Field(p, text) == p.Sign() + p.Prefix() + text + Repeat(' ', n))
            && (!p.lz && !p.left ==> Field(p, text) == Repeat(' ', n) + p.Sign() + p.Prefix() + text)
            && |Field(p, text)| == |text| + |p.Sign()| + |p.Prefix()| + n
  {
  }

  lemma Regroup(o: seq<char>, a: seq<char>, b: seq<char>, c: seq<char>, d: seq<char>)
    ensures o + a + b + c + d == o + (a + b + c + d)
  {
  }

  /** The number of filling characters, as putchw counts it in an int. */
  method FillCount(p: Param, bf: seq<char>, ghost text: seq<char>) returns (n: int)
    requires bf == text + [NUL] && NUL !in text
    ensures p.Pad(|text|) == if n > 0 then n else 0
  {
    n := p.Width();
    var i := 0;
    while bf[i] != NUL && n > 0
      invariant 0 <= i <= |text| && n == p.Width() - i && (n < 0 ==> i == 0) && (p.Width() < 0 ==> i == 0)
      decreases |text| - i
    {
      n := n - 1;
      i := i + 1;
    }
    if p.minus {
      n := Wrap32(n - 1);
    }
    if p.alt && p.base == 16 {
      n := Wrap32(n - 2);
    } else if p.alt && p.base == 8 {
      n := Wrap32(n - 1);
    }
  }

  // Sinks.

  /** Where the characters go: _vsnprintf_putcf, which checks the capacity, or _vsprintf_putcf, which does not. */
  class Sink {
    const dest: array<char>
    const checked: bool
    const capacity: nat
    var numChars: nat
    ghost var out: seq<char>      // all characters put
    ghost const before: seq<char> // what dest held at first

    ghost function Limit(): nat
      reads this
    {
      if checked then capacity else dest.Length
    }

    ghost predicate Valid()
      reads this, dest
      ensures Valid() ==> numChars == |out|
    {
      && numChars == |out| && Limit() <= dest.Length == |before|
      && (!checked ==> numChars <= dest.Length)
      && forall i :: 0 <= i < dest.Length ==> dest[i] == if i < |out| && i < Limit() then out[i] else before[i]
    }

    /** There is room for n more characters. */
    ghost predicate Room(n: nat)
      reads this
    {
      !checked ==> numChars + n <= dest.Length
    }

    constructor (dest: array<char>, checked: bool, capacity: nat)
      requires capacity <= dest.Length
      ensures Valid() && out == [] && numChars == 0 && before == dest[..]
      ensures this.dest == dest && this.checked == checked && this.capacity == capacity
    {
      this.dest, this.checked, this.capacity, numChars := dest, checked, capacity, 0;
      out, before := [], dest[..];
    }

    method Put(c: char)
      requires Valid() && Room(1)
      modifies this, dest
      ensures Valid() && out == old(out) + [c]
    {
      if !checked || numChars < capacity {
        dest[numChars] := c;
      }
      numChars := numChars + 1;
      out := out + [c];
    }

    method PutMany(c: char, n: int)
      requires Valid() && (n > 0 ==> Room(n))
      modifies this, dest
      ensures Valid() && out == old(out) + Repeat(c, if n > 0 then n else 0)
    {
      var k := n;
      ghost var done := 0;
      while k > 0
        invariant Valid() && done >= 0 && out == old(out) + Repeat(c, done)
        invariant if n > 0 then k == n - done && k >= 0 && Room(k) else done == 0 && k == n
      {
        Put(c);
        assert Repeat(c, done) + [c] == Repeat(c, done + 1);
        done := done + 1;
        k := k - 1;
      }
    }

    /** Puts the characters of a buffer up to its terminator. */
    method PutText(bf: seq<char>, ghost text: seq<char>)
      requires Valid() && Room(|text|) && bf == text + [NUL] && NUL !in text
      modifies this, dest
      ensures Valid() && out == old(out) + text
    {
      var i := 0;
      while bf[i] != NUL
        invariant 0 <= i <= |text| && Valid() && out == old(out) + text[..i] && Room(|text| - i)
        decreases |text| - i
      {
        Put(bf[i]);
        assert text[..i] + [bf[i]] == text[..i + 1];
        i := i + 1;
      }
      assert text[..i] == text;
    }

    /** The sign and the alternate-form prefix. */
    method PutHead(p: Param)
      requires Valid() && Room(|p.Sign()| + |p.Prefix()|)
      modifies this, dest
      ensures Valid() && out == old(out) + p.Sign() + p.Prefix()
    {
      if p.minus {
        Put('-');
      }
      if p.alt && p.base == 16 {
        Put('0');
        Put(if p.uc then 'X' else 'x');
      } else if p.alt && p.base == 8 {
        Put('0');
      }
    }

    /** putchw */
    method PutChw(p: Param, bf: seq<char>, ghost text: seq<char>)
      requires Valid() && bf == text + [NUL] && NUL !in text && Room(|Field(p, text)|)
      modifies this, dest
      ensures Valid() && out == old(out) + Field(p, text)
    {
      var n := FillCount(p, bf, text);
      ghost var pad := p.Pad(|text|);
      FieldParts(p, text);
      hide Field;
      hide Param.Sign;
      hide Param.Prefix;
      hide Param.Pad;
      hide Repeat;
      hide Sink.Valid;
      Regroup(out, p.Sign(), p.Prefix(), Repeat('0', pad), text);
      Regroup(out, p.Sign(), p.Prefix(), text, Repeat(' ', pad));
      Regroup(out, Repeat(' ', pad), p.Sign(), p.Prefix(), text);
      if !p.lz && !p.left {
        PutMany(' ', n);
      }
      PutHead(p);
      if p.lz {
        PutMany('0', n);
      }
      PutText(bf, text);
      if !p.lz && p.left {
        PutMany(' ', n);
      }
    }
  }

  // Reading a conversion specification.  A format is given without its terminator, which At supplies.

  function At(fmt: seq<char>, i: nat): char
    requires i <= |fmt|
  {
    if i < |fmt| then fmt[i] else NUL
  }

  predicate IsDigit(ch: char) { '0' <= ch <= '9' }

  predicate IsFlag(ch: char) { ch == '-' || ch == '0' || ch == '#' }

  /** What a2u takes for a decimal digit: the letter a passes its test as well. */
  predicate IsWidthDigit(ch: char) { 0 <= DigitValue(ch) <= 10 }

  function SkipFlags(fmt: seq<char>, i: nat): (j: nat)
    requires i <= |fmt|
    ensures i <= j <= |fmt|
    decreases |fmt| - i
  {
    if i < |fmt| && IsFlag(fmt[i]) then SkipFlags(fmt, i + 1) else i
  }

  function SkipWidth(fmt: seq<char>, i: nat): (j: nat)
    requires i <= |fmt|
    ensures i <= j <= |fmt|
    decreases |fmt| - i
  {
    if i < |fmt| && IsWidthDigit(fmt[i]) then SkipWidth(fmt, i + 1) else i
  }

  function SkipDigits(fmt: seq<char>, i: nat): (j: nat)
    requires i <= |fmt|
    ensures i <= j <= |fmt|
    decreases |fmt| - i
  {
    if i < |fmt| && IsDigit(fmt[i]) then SkipDigits(fmt, i + 1) else i
  }

  /** The value of a width in a 32-bit unsigned int. */
  function WidthOf(s: seq<char>): (w: nat)
    requires forall i :: 0 <= i < |s| ==> IsWidthDigit(s[i])
    ensures w < WORD32
  {
    if s == [] then 0 else (WidthOf(s[..|s| - 1]) * 10 + DigitValue(s[|s| - 1])) % WORD32
  }

  /** A conversion specification; at is the position of its conversion character. */
  datatype Directive = Directive(lz: bool, alt: bool, left: bool, width: nat, lng: nat, at: nat)

  lemma {:induction false} WidthRun(fmt: seq<char>, i: nat, k: nat)
    requires i <= |fmt| && i <= k < SkipWidth(fmt, i)
    ensures IsWidthDigit(fmt[k])
    decreases k - i
  {
    if i < k {
      WidthRun(fmt, i + 1, k);
    }
  }

  /** The length modifier at m, 1 for z and l and 2 for ll, and the position after it. */
  function LengthAt(fmt: seq<char>, m: nat): (r: (nat, nat))
    requires m <= |fmt|
    ensures r.0 <= 2 && m <= r.1 <= |fmt|
  {
    if At(fmt, m) == 'z' then (1, m + 1)
    else if At(fmt, m) != 'l' then (0, m)
    else if At(fmt, m + 1) == 'l' then (2, m + 2)
    else (1, m + 1)
  }

  /** The specification that starts after the % at i - 1. */
  function DirectiveAt(fmt: seq<char>, i: nat): (d: Directive)
    requires i <= |fmt|
    ensures i <= d.at <= |fmt|
  {
    var j := SkipFlags(fmt, i);
    var flags := fmt[i..j];
    var k := if IsDigit(At(fmt, j)) then SkipWidth(fmt, j) else j;
    assert forall x :: 0 <= x < k - j ==> IsWidthDigit(fmt[j..k][x]) by {
      forall x | 0 <= x < k - j
        ensures IsWidthDigit(fmt[j..k][x])
      {
        WidthRun(fmt, j, j + x);
      }
    }
    var width := WidthOf(fmt[j..k]);
    var dot := At(fmt, k) == '.';
    var m := if dot then SkipDigits(fmt, k + 1) else k;
    var (lng, at) := LengthAt(fmt, m);
    Directive('0' in flags || dot, '#' in flags, '-' in flags, width, lng, at)
  }

  /** The flag loop.  The cursor i stands at the character last read. */
  method ReadFlags(fmt: seq<char>, start: nat) returns (i: nat, lz: bool, alt: bool, left: bool)
    requires start <= |fmt| && NUL !in fmt
    ensures i == SkipFlags(fmt, start)
    ensures lz == ('0' in fmt[start..i]) && alt == ('#' in fmt[start..i]) && left == ('-' in fmt[start..i])
  {
    i, lz, alt, left := start, false, false, false;
    while At(fmt, i) != NUL
      invariant start <= i <= |fmt| && SkipFlags(fmt, i) == SkipFlags(fmt, start)
      invariant lz == ('0' in fmt[start..i]) && alt == ('#' in fmt[start..i]) && left == ('-' in fmt[start..i])
      decreases |fmt| - i
    {
      assert fmt[start..i + 1] == fmt[start..i] + [fmt[i]];
      if At(fmt, i) == '-' {
        left := true;
      } else if At(fmt, i) == '0' {
        lz := true;
      } else if At(fmt, i) == '#' {
        alt := true;
      } else {
        break;
      }
      i := i + 1;
    }
  }

  /** The characters from start up to i are width digits, and num is what they say. */
  ghost predicate WidthRead(fmt: seq<char>, start: nat, i: nat, num: nat) {
    && start <= i <= |fmt|
    && (forall x :: 0 <= x < i - start ==> IsWidthDigit(fmt[start..i][x])) && num == WidthOf(fmt[start..i])
  }

  lemma WidthReadNext(fmt: seq<char>, start: nat, i: nat, num: nat)
    requires WidthRead(fmt, start, i, num) && i < |fmt| && IsWidthDigit(fmt[i])
    ensures WidthRead(fmt, start, i + 1, (num * 10 + DigitValue(fmt[i])) % WORD32)
  {
    hide IsWidthDigit;
    hide DigitValue;
    var s := fmt[start..i + 1];
    assert s == fmt[start..i] + [fmt[i]];
    assert s[..|s| - 1] == fmt[start..i];
  }

  /** a2u with base 10 */
  method ReadWidth(fmt: seq<char>, start: nat) returns (i: nat, num: nat)
    requires start <= |fmt| && NUL !in fmt
    ensures i == SkipWidth(fmt, start) && WidthRead(fmt, start, i, num)
  {
    hide WidthOf;
    i, num := start, 0;
    WidthReadNone(fmt, start);
    while DigitValue(At(fmt, i)) >= 0
      invariant start <= i <= |fmt| && SkipWidth(fmt, i) == SkipWidth(fmt, start)
      invariant WidthRead(fmt, start, i, num)
      decreases |fmt| - i
    {
      var digit := DigitValue(At(fmt, i));
      if digit > 10 {
        break;
      }
      WidthReadNext(fmt, start, i, num);
      num := (num * 10 + digit) % WORD32;
      i := i + 1;
    }
  }

  lemma WidthReadNone(fmt: seq<char>, start: nat)
    requires start <= |fmt|
    ensures WidthRead(fmt, start, start, 0)
  {
    assert fmt[start..start] == [];
  }

  /** All of a conversion specification but its conversion character.  The cursor never passes the terminator. */
  method ReadDirective(fmt: seq<char>, start: nat) returns (d: Directive)
    requires start <= |fmt| && NUL !in fmt
    ensures d == DirectiveAt(fmt, start)
  {
    var i, lz, alt, left := ReadFlags(fmt, start);
    var width := 0;
    if IsDigit(At(fmt, i)) {
      i, width := ReadWidth(fmt, i);
    } else {
      assert fmt[i..i] == [];
    }
    var dot := At(fmt, i) == '.';
    if dot {
      lz := true;
      i := SkipPrecision(fmt, i + 1);
    }
    var lng;
    lng, i := ReadLength(fmt, i);
    d := Directive(lz, alt, left, width, lng, i);
  }

  /** The precision is skipped. */
  method SkipPrecision(fmt: seq<char>, start: nat) returns (i: nat)
    requires start <= |fmt| && NUL !in fmt
    ensures i == SkipDigits(fmt, start)
  {
    i := start;
    while IsDigit(At(fmt, i))
      invariant start <= i <= |fmt| && SkipDigits(fmt, i) == SkipDigits(fmt, start)
      decreases |fmt| - i
    {
      i := i + 1;
    }
  }

  method ReadLength(fmt: seq<char>, start: nat) returns (lng: nat, i: nat)
    requires start <= |fmt| && NUL !in fmt
    ensures (lng, i) == LengthAt(fmt, start)
  {
    i, lng := start, 0;
    if At(fmt, i) == 'z' {
      i, lng := i + 1, 1;
    } else if At(fmt, i) == 'l' {
      i, lng := i + 1, 1;
      if At(fmt, i) == 'l' {
        i, lng := i + 1, 2;
      }
    }
  }

  // Conversions.

  /** A variable argument: the 64-bit word it is passed in, and the string that word points to, if it is a pointer. */
  datatype Arg = Arg(word: nat, text: seq<char>)
  {
    function Unsigned(lng: nat): nat { if lng == 0 then word % WORD32 else word % WORD }

    function Signed(lng: nat): int {
      var size := if lng == 0 then WORD32 else WORD;
      var u := Unsigned(lng);
      if u < size / 2 then u else u - size
    }
  }

  /** The characters of a string up to its terminator. */
  function CStr(s: seq<char>): (r: seq<char>)
    ensures NUL !in r && |r| <= |s| && r == s[..|r|] && (|r| < |s| ==> s[|r|] == NUL)
  {
    if s == [] || s[0] == NUL then [] else [s[0]] + CStr(s[1..])
  }

  /** What a conversion puts, whether it takes an argument, and the base and case that stay in the parameter struct. */
  datatype Conversion = Conversion(out: seq<char>, taken: nat, base: nat, uc: bool)

  function Absolute(n: int): nat { if n < 0 then -n else n }

  function Convert(d: Directive, ch: char, a: Arg, base: nat, uc: bool): Conversion {
    var p := Param(d.lz, d.alt, d.left, d.width, false, base, uc);
    if ch == 'u' then
      Conversion(Field(p.(base := 10), Text(a.Unsigned(d.lng), 10, uc)), 1, 10, uc)
    else if ch == 'd' || ch == 'i' then
      var n := a.Signed(d.lng);
      Conversion(Field(p.(base := 10, minus := n < 0), Text(Absolute(n), 10, uc)), 1, 10, uc)
    else if ch == 'p' then
      Conversion(Field(p.(base := 16, uc := false, alt := true), Text(a.Unsigned(1), 16, false)), 1, 16, false)
    else if ch == 'x' || ch == 'X' then
      Conversion(Field(p.(base := 16, uc := ch == 'X'), Text(a.Unsigned(d.lng), 16, ch == 'X')), 1, 16, ch == 'X')
    else if ch == 'o' then
      Conversion(Field(p.(base := 8), Text(a.Unsigned(0), 8, uc)), 1, 8, uc)
    else if ch == 'c' then
      Conversion([(a.word % 256) as char], 1, base, uc)
    else if ch == 's' then
      Conversion(Field(p, CStr(a.text)), 1, base, uc)
    else if ch == '%' then
      Conversion(['%'], 0, base, uc)
    else
      Conversion([], 0, base, uc)
  }

  // What the conversions print.

  /** A field is its sign and prefix and its text, with spaces before, zeros between or spaces behind, as the flags say. */
  lemma FieldLaid(p: Param, text: seq<char>, head: seq<char>) returns (l: nat, z: nat, t: nat)
    requires head == p.Sign() + p.Prefix()
    ensures Field(p, text) == Repeat(' ', l) + head + Repeat('0', z) + text + Repeat(' ', t)
    ensures (l > 0 ==> !p.lz && !p.left) && (z > 0 ==> p.lz) && (t > 0 ==> !p.lz && p.left)
    ensures p.width < 0x8000_0000 ==>
              |Field(p, text)| == if p.width > |head| + |text| then p.width else |head| + |text|
  {
    FieldParts(p, text);
    if p.width < 0x8000_0000 {
      FieldLength(p, text);
    }
    hide Field;
    var n := p.Pad(|text|);
    var nothing := Repeat(' ', 0);
    assert Repeat('0', 0) == [] == nothing;
    hide Repeat;
    hide Param.Pad;
    hide Param.Sign;
    hide Param.Prefix;
    l, z, t := 0, 0, 0;
    if p.lz {
      z := n;
      Around(nothing, head, Repeat('0', z), text, nothing);
    } else if p.left {
      t := n;
      Around(nothing, head, nothing, text, Repeat(' ', t));
    } else {
      l := n;
      Around(Repeat(' ', l), head, nothing, text, nothing);
      Associate(Repeat(' ', l), p.Sign(), p.Prefix());
    }
  }

  lemma Around(l: seq<char>, head: seq<char>, z: seq<char>, text: seq<char>, t: seq<char>)
    ensures l == [] && t == [] ==> l + head + z + text + t == head + z + text
    ensures l == [] && z == [] ==> l + head + z + text + t == head + text + t
    ensures z == [] && t == [] ==> l + head + z + text + t == l + head + text
  {
  }

  /** The number that the low bits of a word mean in two's complement. */
  lemma SignedIs(a: Arg, lng: nat, v: int)
    requires var size := if lng == 0 then 0x1_0000_0000 else 0x1_0000_0000_0000_0000;
             -(size / 2) <= v < size / 2 && (a.word - v) % size == 0
    ensures a.Signed(lng) == v
  {
    var size := if lng == 0 then WORD32 else WORD;
    var k := (a.word - v) / size;
    if v >= 0 {
      DivModUnique(a.word, size, k, v);
    } else {
      DivModUnique(a.word, size, k - 1, v + size);
    }
  }

  /** d and i take one argument, and print a minus exactly when the number in its low 32 bits, or 64 with a length, is
      negative in two's complement; then its absolute value in decimal without leading zeros. */
  lemma ConvertSigned(d: Directive, ch: char, a: Arg, base: nat, uc: bool, v: int)
    returns (text: seq<char>, l: nat, z: nat, t: nat)
    requires ch == 'd' || ch == 'i'
    requires var size := if d.lng == 0 then 0x1_0000_0000 else 0x1_0000_0000_0000_0000;
             -(size / 2) <= v < size / 2 && (a.word - v) % size == 0
    ensures var c, minus := Convert(d, ch, a, base, uc), if v < 0 then "-" else "";
            && c.taken == 1 && c.base == 10 && c.uc == uc
            && c.out == Repeat(' ', l) + minus + Repeat('0', z) + text + Repeat(' ', t)
            && (d.width < 0x8000_0000 ==> |c.out| == if d.width > |minus| + |text| then d.width else |minus| + |text|)
    ensures Number(text, 10) == (if v < 0 then -v else v) && |text| >= 1 && (text[0] == '0' ==> |text| == 1)
    ensures forall i :: 0 <= i < |text| ==> '0' <= text[i] <= '9'
    ensures (l > 0 ==> !d.lz && !d.left) && (z > 0 ==> d.lz) && (t > 0 ==> !d.lz && d.left)
  {
    hide Field;
    hide Text;
    hide Number;
    hide Repeat;
    SignedIs(a, d.lng, v);
    var p, n := Param(d.lz, d.alt, d.left, d.width, v < 0, 10, uc), if v < 0 then -v else v;
    text := Text(n, 10, uc);
    assert Convert(d, ch, a, base, uc) == Conversion(Field(p, text), 1, 10, uc);
    hide Convert;
    var head := if v < 0 then "-" else "";
    assert head == p.Sign() + p.Prefix();
    hide Param.Sign;
    hide Param.Prefix;
    TextReadsBack(n, 10, uc);
    TextCanonical(n, 10, uc);
    TextLetters(n, 10, uc);
    l, z, t := FieldLaid(p, text, head);
  }

  /** u, o, x, X and p take one argument, and print the number in its low 32 bits, or 64 with a length and always for p,
      in base ten, eight or sixteen, with upper-case letters for X; # asks for a prefix, which p always has. */
  lemma ConvertUnsigned(d: Directive, ch: char, a: Arg, base: nat, uc: bool)
    returns (text: seq<char>, l: nat, z: nat, t: nat)
    requires ch in "uoxXp"
    ensures var c := Convert(d, ch, a, base, uc);
            var prefix := if ch == 'p' || (d.alt && ch == 'x') then "0x" else if d.alt && ch == 'X' then "0X"
                          else if d.alt && ch == 'o' then "0" else "";
            && c.taken == 1 && c.base == (if ch == 'u' then 10 else if ch == 'o' then 8 else 16)
            && c.uc == (if ch == 'u' || ch == 'o' then uc else ch == 'X')
            && c.out == Repeat(' ', l) + prefix + Repeat('0', z) + text + Repeat(' ', t)
            && (d.width < 0x8000_0000 ==> |c.out| == if d.width > |prefix| + |text| then d.width else |prefix| + |text|)
    ensures Number(text, if ch == 'u' then 10 else if ch == 'o' then 8 else 16)
            == a.word % if ch == 'p' || (d.lng != 0 && ch != 'o') then 0x1_0000_0000_0000_0000 else 0x1_0000_0000
    ensures |text| >= 1 && (text[0] == '0' ==> |text| == 1)
    ensures forall i :: 0 <= i < |text| ==>
              || '0' <= text[i] <= '9'
              || (if ch == 'X' then 'A' <= text[i] <= 'F' else (ch == 'x' || ch == 'p') && 'a' <= text[i] <= 'f')
    ensures (l > 0 ==> !d.lz && !d.left) && (z > 0 ==> d.lz) && (t > 0 ==> !d.lz && d.left)
  {
    hide Field;
    hide Text;
    hide Number;
    hide Repeat;
    var n := a.word % if ch == 'p' || (d.lng != 0 && ch != 'o') then WORD else WORD32;
    var r, up := if ch == 'u' then 10 else if ch == 'o' then 8 else 16, if ch == 'u' || ch == 'o' then uc else ch == 'X';
    var p := Param(d.lz, d.alt || ch == 'p', d.left, d.width, false, r, up);
    text := Text(n, r, up);
    UnsignedIs(d, ch, a, base, uc);
    hide Convert;
    var prefix := if ch == 'p' || (d.alt && ch == 'x') then "0x" else if d.alt && ch == 'X' then "0X"
                  else if d.alt && ch == 'o' then "0" else "";
    assert prefix == p.Sign() + p.Prefix();
    hide Param.Sign;
    hide Param.Prefix;
    TextReadsBack(n, r, up);
    TextCanonical(n, r, up);
    TextLetters(n, r, up);
    l, z, t := FieldLaid(p, text, prefix);
  }

  lemma UnsignedIs(d: Directive, ch: char, a: Arg, base: nat, uc: bool)
    requires ch in "uoxXp"
    ensures var n := a.word % if ch == 'p' || (d.lng != 0 && ch != 'o') then WORD else WORD32;
            var r := if ch == 'u' then 10 else if ch == 'o' then 8 else 16;
            var up := if ch == 'u' || ch == 'o' then uc else ch == 'X';
            Convert(d, ch, a, base, uc)
            == Conversion(Field(Param(d.lz, d.alt || ch == 'p', d.left, d.width, false, r, up), Text(n, r, up)), 1, r, up)
  {
    hide Field;
    hide Text;
    assert ch == 'u' || ch == 'o' || ch == 'x' || ch == 'X' || ch == 'p';
  }

  /** s takes one argument, and prints its characters up to the first NUL.  The prefix that # asks for is that of the
      base which an earlier conversion left behind. */
  lemma ConvertString(d: Directive, a: Arg, base: nat, uc: bool) returns (text: seq<char>, l: nat, z: nat, t: nat)
    ensures var c := Convert(d, 's', a, base, uc);
            var prefix := if d.alt && base == 16 then (if uc then "0X" else "0x") else if d.alt && base == 8 then "0" else "";
            && c.taken == 1 && c.base == base && c.uc == uc
            && c.out == Repeat(' ', l) + prefix + Repeat('0', z) + text + Repeat(' ', t)
            && (d.width < 0x8000_0000 ==> |c.out| == if d.width > |prefix| + |text| then d.width else |prefix| + |text|)
    ensures NUL !in text && |text| <= |a.text| && text == a.text[..|text|]
    ensures |text| < |a.text| ==> a.text[|text|] == NUL
    ensures (l > 0 ==> !d.lz && !d.left) && (z > 0 ==> d.lz) && (t > 0 ==> !d.lz && d.left)
  {
    hide Field;
    hide Repeat;
    text := CStr(a.text);
    var p := Param(d.lz, d.alt, d.left, d.width, false, base, uc);
    assert Convert(d, 's', a, base, uc) == Conversion(Field(p, text), 1, base, uc);
    hide Convert;
    hide CStr;
    var prefix := if d.alt && base == 16 then (if uc then "0X" else "0x") else if d.alt && base == 8 then "0" else "";
    assert prefix == p.Sign() + p.Prefix();
    hide Param.Sign;
    hide Param.Prefix;
    l, z, t := FieldLaid(p, text, prefix);
  }

  /** c takes one argument and prints its low byte; % takes none and prints itself; anything else does nothing. */
  lemma ConvertOther(d: Directive, ch: char, a: Arg, base: nat, uc: bool)
    requires ch !in "diuoxXps"
    ensures var c := Convert(d, ch, a, base, uc);
            && c.taken == (if ch == 'c' then 1 else 0) && c.base == base && c.uc == uc
            && (ch == 'c' ==> |c.out| == 1 && c.out[0] as int == a.word % 256)
            && (ch == '%' ==> c.out == "%")
            && (ch != 'c' && ch != '%' ==> c.out == "")
  {
    assert ch != 'd' && ch != 'i' && ch != 'u' && ch != 'o' && ch != 'x' && ch != 'X' && ch != 'p' && ch != 's' by {
      assert forall i :: 0 <= i < |"diuoxXps"| ==> ch != "diuoxXps"[i];
    }
  }

  /** The output for a format from position i on, with arguments from the k-th on; base and uc are what the parameter
      struct holds.  A specification cut off by the end of the format ends the output. */
  function Format(fmt: seq<char>, i: nat, args: nat -> Arg, k: nat, base: nat, uc: bool): seq<char>
    requires i <= |fmt|
    decreases |fmt| - i
  {
    if i == |fmt| then []
    else if fmt[i] != '%' then [fmt[i]] + Format(fmt, i + 1, args, k, base, uc)
    else
      var d := DirectiveAt(fmt, i + 1);
      if d.at == |fmt| then []
      else
        var c := Convert(d, fmt[d.at], args(k), base, uc);
        c.out + Format(fmt, d.at + 1, args, k + c.taken, c.base, c.uc)
  }

  lemma TextNoNul(n: nat, base: nat, uc: bool)
    requires IsBase(base)
    ensures NUL !in Text(n, base, uc)
  {
    var t := Text(n, base, uc);
    forall i | 0 <= i < |t|
      ensures t[i] != NUL
    {
      DigitCharValue(Digits(n, base)[i], uc);
    }
  }

  /** One of the unsigned conversions: the number goes to the buffer, the buffer into its field. */
  method PutUnsigned(sink: Sink, p: Param, n: nat, word: nat, bf: array<char>)
    requires sink.Valid() && IsBase(p.base) && n < word <= WORD
    requires bf.Length == BUFFER && bf != sink.dest && sink.Room(|Field(p, Text(n, p.base, p.uc))|)
    modifies sink, sink.dest, bf
    ensures sink.Valid() && sink.out == old(sink.out) + Field(p, Text(n, p.base, p.uc))
  {
    hide Field;
    hide Text;
    TextNoNul(n, p.base, p.uc);
    var len := U2a(n, p.base, p.uc, word, bf);
    sink.PutChw(p, bf[..len + 1], Text(n, p.base, p.uc));
  }

  method PutSigned(sink: Sink, p: Param, n: int, word: nat, bf: array<char>)
    requires sink.Valid() && p.base == 10 && (word == WORD32 || word == WORD) && -(word / 2) <= n < word / 2
    requires bf.Length == BUFFER && bf != sink.dest
    requires sink.Room(|Field(p.(minus := n < 0), Text(Absolute(n), 10, p.uc))|)
    modifies sink, sink.dest, bf
    ensures sink.Valid() && sink.out == old(sink.out) + Field(p.(minus := n < 0), Text(Absolute(n), 10, p.uc))
  {
    hide Field;
    hide Text;
    TextNoNul(Absolute(n), 10, p.uc);
    var len, minus := I2a(n, p.uc, word, bf);
    sink.PutChw(p.(minus := minus), bf[..len + 1], Text(Absolute(n), 10, p.uc));
  }

  /** The switch on the conversion character. */
  method PutConversion(sink: Sink, d: Directive, ch: char, a: Arg, base0: nat, uc0: bool, bf: array<char>)
    returns (taken: nat, base: nat, uc: bool)
    requires sink.Valid() && bf.Length == BUFFER && bf != sink.dest
    requires sink.Room(|Convert(d, ch, a, base0, uc0).out|)
    modifies sink, sink.dest, bf
    ensures sink.Valid()
    ensures var c := Convert(d, ch, a, base0, uc0);
            sink.out == old(sink.out) + c.out && taken == c.taken && base == c.base && uc == c.uc
  {
    hide Sink.Valid;
    taken, base, uc := 1, base0, uc0;
    if ch == 'u' || ch == 'd' || ch == 'i' {
      base := PutDecimal(sink, d, ch, a, base0, uc0, bf);
    } else if ch == 'p' || ch == 'x' || ch == 'X' || ch == 'o' {
      base, uc := PutRadix(sink, d, ch, a, base0, uc0, bf);
    } else if ch == 'c' {
      sink.Put((a.word % 256) as char);
    } else if ch == 's' {
      var p := Param(d.lz, d.alt, d.left, d.width, false, base0, uc0);
      sink.PutChw(p, CStr(a.text) + [NUL], CStr(a.text));
    } else {
      taken := 0;
      if ch == '%' {
        sink.Put(ch);
      }
    }
  }

  /** The cases u, d and i. */
  method PutDecimal(sink: Sink, d: Directive, ch: char, a: Arg, base0: nat, uc: bool, bf: array<char>)
    returns (base: nat)
    requires sink.Valid() && bf.Length == BUFFER && bf != sink.dest && (ch == 'u' || ch == 'd' || ch == 'i')
    requires sink.Room(|Convert(d, ch, a, base0, uc).out|)
    modifies sink, sink.dest, bf
    ensures sink.Valid()
    ensures var c := Convert(d, ch, a, base0, uc);
            sink.out == old(sink.out) + c.out && c.taken == 1 && base == c.base && uc == c.uc
  {
    hide Field;
    hide Text;
    hide Sink.Valid;
    base := 10;
    var p := Param(d.lz, d.alt, d.left, d.width, false, 10, uc);
    var word := if d.lng == 0 then WORD32 else WORD;
    if ch == 'u' {
      PutUnsigned(sink, p, a.Unsigned(d.lng), word, bf);
    } else {
      PutSigned(sink, p, a.Signed(d.lng), word, bf);
    }
  }

  /** The cases p, x, X and o. */
  method PutRadix(sink: Sink, d: Directive, ch: char, a: Arg, base0: nat, uc0: bool, bf: array<char>)
    returns (base: nat, uc: bool)
    requires sink.Valid() && bf.Length == BUFFER && bf != sink.dest
    requires ch == 'p' || ch == 'x' || ch == 'X' || ch == 'o'
    requires sink.Room(|Convert(d, ch, a, base0, uc0).out|)
    modifies sink, sink.dest, bf
    ensures sink.Valid()
    ensures var c := Convert(d, ch, a, base0, uc0);
            sink.out == old(sink.out) + c.out && c.taken == 1 && base == c.base && uc == c.uc
  {
    hide Field;
    hide Text;
    hide Sink.Valid;
    if ch == 'o' {
      base, uc := 8, uc0;
      PutUnsigned(sink, Param(d.lz, d.alt, d.left, d.width, false, 8, uc0), a.Unsigned(0), WORD32, bf);
    } else {
      base, uc := 16, ch == 'X';
      var alt, lng := d.alt, d.lng;
      if ch == 'p' {
        alt, lng := true, 1;
      }
      PutUnsigned(sink, Param(d.lz, alt, d.left, d.width, false, 16, uc), a.Unsigned(lng),
                  if lng == 0 then WORD32 else WORD, bf);
    }
  }

  lemma Associate(a: seq<char>, b: seq<char>, c: seq<char>)
    ensures a + (b + c) == a + b + c
  {
  }

  /** tfp_format: every character of the output, in order, goes to the sink. */
  method TfpFormat(sink: Sink, fmt: seq<char>, args: nat -> Arg, base0: nat, uc0: bool)
    requires sink.Valid() && NUL !in fmt && sink.Room(|Format(fmt, 0, args, 0, base0, uc0)|)
    modifies sink, sink.dest
    ensures sink.Valid() && sink.out == old(sink.out) + Format(fmt, 0, args, 0, base0, uc0)
  {
    hide Sink.Valid;
    hide Convert;
    hide DirectiveAt;
    hide Format;
    var bf := new char[BUFFER](_ => NUL);
    var base, uc := base0, uc0;
    var i, k := 0, 0;
    ghost var whole, done := Format(fmt, 0, args, 0, base0, uc0), [];
    while At(fmt, i) != NUL
      invariant 0 <= i <= |fmt| && sink.Valid() && sink.out == old(sink.out) + done
      invariant whole == done + Format(fmt, i, args, k, base, uc) && sink.Room(|whole| - |done|)
      decreases |fmt| - i
    {
      FormatStep(fmt, i, args, k, base, uc);
      if At(fmt, i) != '%' {
        sink.Put(At(fmt, i));
        Associate(done, [fmt[i]], Format(fmt, i + 1, args, k, base, uc));
        done := done + [fmt[i]];
        i := i + 1;
      } else {
        var d := ReadDirective(fmt, i + 1);
        if At(fmt, d.at) == NUL {
          return;
        }
        ghost var c := Convert(d, fmt[d.at], args(k), base, uc);
        var taken;
        taken, base, uc := PutConversion(sink, d, fmt[d.at], args(k), base, uc, bf);
        Associate(done, c.out, Format(fmt, d.at + 1, args, k + taken, base, uc));
        done := done + c.out;
        k := k + taken;
        i := d.at + 1;
      }
    }
    FormatStep(fmt, i, args, k, base, uc);
  }

  lemma FormatStep(fmt: seq<char>, i: nat, args: nat -> Arg, k: nat, base: nat, uc: bool)
    requires i <= |fmt|
    ensures i == |fmt| ==> Format(fmt, i, args, k, base, uc) == []
    ensures i < |fmt| && fmt[i] != '%' ==>
              Format(fmt, i, args, k, base, uc) == [fmt[i]] + Format(fmt, i + 1, args, k, base, uc)
    ensures i < |fmt| && fmt[i] == '%' ==>
              var d := DirectiveAt(fmt, i + 1);
              if d.at == |fmt| then Format(fmt, i, args, k, base, uc) == []
              else var c := Convert(d, fmt[d.at], args(k), base, uc);
                   Format(fmt, i, args, k, base, uc) == c.out + Format(fmt, d.at + 1, args, k + c.taken, c.base, c.uc)
  {
    hide Convert;
    hide DirectiveAt;
  }

  // What a well-formed specification means.

  predicate IsConversion(ch: char) {
    ch in ['u', 'd', 'i', 'p', 'x', 'X', 'o', 'c', 's', '%']
  }

  /** A specification as section 7.19.6.1 of ISO C99 writes it: flags, width, precision, length and conversion.
      A width of 0 stands for none. */
  datatype Spec = Spec(flags: seq<char>, width: nat, precision: seq<char>, length: seq<char>, conversion: char)
  {
    predicate Valid() {
      && (forall i :: 0 <= i < |flags| ==> flags[i] == '-' || flags[i] == '0' || flags[i] == '#')
      && width < 0x1_0000_0000
      && (precision != [] ==> precision[0] == '.' && forall i :: 1 <= i < |precision| ==> '0' <= precision[i] <= '9')
      && (length == [] || length == ['z'] || length == ['l'] || length == ['l', 'l'])
      && IsConversion(conversion)
    }

    function WidthText(): seq<char> { if width == 0 then [] else Text(width, 10, false) }

    function Shown(): seq<char> { flags + WidthText() + precision + length + [conversion] }

    /** What the specification says, its conversion character standing at position at. */
    function Meaning(at: nat): Directive {
      Directive('0' in flags || precision != [], '#' in flags, '-' in flags, width,
                if |length| == 1 then 1 else |length|, at)
    }
  }

  lemma {:induction false} SkipFlagsTo(fmt: seq<char>, i: nat, j: nat)
    requires i <= j <= |fmt| && (forall k :: i <= k < j ==> IsFlag(fmt[k])) && (j < |fmt| ==> !IsFlag(fmt[j]))
    ensures SkipFlags(fmt, i) == j
    decreases j - i
  {
    if i < j {
      SkipFlagsTo(fmt, i + 1, j);
    }
  }

  lemma {:induction false} SkipWidthTo(fmt: seq<char>, i: nat, j: nat)
    requires i <= j <= |fmt| && (forall k :: i <= k < j ==> IsWidthDigit(fmt[k])) && (j < |fmt| ==> !IsWidthDigit(fmt[j]))
    ensures SkipWidth(fmt, i) == j
    decreases j - i
  {
    if i < j {
      SkipWidthTo(fmt, i + 1, j);
    }
  }

  lemma {:induction false} SkipDigitsTo(fmt: seq<char>, i: nat, j: nat)
    requires i <= j <= |fmt| && (forall k :: i <= k < j ==> IsDigit(fmt[k])) && (j < |fmt| ==> !IsDigit(fmt[j]))
    ensures SkipDigits(fmt, i) == j
    decreases j - i
  {
    if i < j {
      SkipDigitsTo(fmt, i + 1, j);
    }
  }

  lemma RemainderStep(a: nat, d: nat)
    ensures (a % WORD32 * 10 + d) % WORD32 == (a * 10 + d) % WORD32
  {
    var x := a % WORD32 * 10 + d;
    DivModUnique(a * 10 + d, WORD32, a / WORD32 * 10 + x / WORD32, x % WORD32);
  }

  lemma {:induction false} WidthIsNumber(s: seq<char>)
    requires forall i :: 0 <= i < |s| ==> IsWidthDigit(s[i])
    ensures Number(s, 10) >= 0 && WidthOf(s) == Number(s, 10) % WORD32
  {
    if s != [] {
      var k := |s| - 1;
      WidthIsNumber(s[..k]);
      RemainderStep(Number(s[..k], 10), DigitValue(s[k]));
    }
  }

  /** A width written in decimal is read back. */
  lemma WidthReadsBack(w: nat)
    requires w < WORD32
    ensures var t := Text(w, 10, false);
            && (forall i :: 0 <= i < |t| ==> IsDigit(t[i]) && IsWidthDigit(t[i]))
            && WidthOf(t) == w && |t| >= 1 && (w > 0 ==> t[0] != '0')
  {
    var t := Text(w, 10, false);
    forall i | 0 <= i < |t|
      ensures IsDigit(t[i]) && IsWidthDigit(t[i])
    {
      DigitCharValue(Digits(w, 10)[i], false);
    }
    hide IsDigit;
    hide IsWidthDigit;
    hide Number;
    hide Text;
    WidthIsNumber(t);
    TextReadsBack(w, 10, false);
    TextCanonical(w, 10, false);
  }

  lemma WidthTextReads(p: Spec)
    requires p.Valid()
    ensures var t := p.WidthText();
            && (forall i :: 0 <= i < |t| ==> IsDigit(t[i]) && IsWidthDigit(t[i]))
            && WidthOf(t) == p.width && (t == [] <==> p.width == 0) && (t != [] ==> t[0] != '0')
  {
    WidthReadsBack(p.width);
    hide Text;
    hide IsDigit;
    hide IsWidthDigit;
  }

  /** A conversion character is none of the characters that may stand before it. */
  lemma ConversionChar(ch: char)
    requires IsConversion(ch)
    ensures !IsFlag(ch) && !IsWidthDigit(ch) && !IsDigit(ch) && ch != '.' && ch != 'l' && ch != 'z'
  {
  }

  /** Nor is a length character, nor the point. */
  lemma OtherChars()
    ensures !IsFlag('l') && !IsWidthDigit('l') && !IsDigit('l')
    ensures !IsFlag('z') && !IsWidthDigit('z') && !IsDigit('z')
    ensures !IsFlag('.') && !IsWidthDigit('.') && !IsDigit('.')
  {
  }

  lemma LengthReadsBack(fmt: seq<char>, m: nat, p: Spec)
    requires p.Valid() && m + |p.length| < |fmt|
    requires fmt[m..m + |p.length|] == p.length && fmt[m + |p.length|] == p.conversion
    ensures LengthAt(fmt, m) == (if |p.length| == 1 then 1 else |p.length|, m + |p.length|)
  {
    hide IsConversion;
    hide IsFlag;
    hide IsWidthDigit;
    hide IsDigit;
    ConversionChar(p.conversion);
    var slice := fmt[m..m + |p.length|];
    if |p.length| == 1 {
      assert fmt[m] == slice[0];
    } else if |p.length| == 2 {
      assert fmt[m] == slice[0] && fmt[m + 1] == slice[1];
    }
  }

  /** The specification stands in the format at i, part by part. */
  ghost predicate Shows(fmt: seq<char>, i: nat, p: Spec) {
    var j := i + |p.flags|;
    var k := j + |p.WidthText()|;
    var m := k + |p.precision|;
    var at := m + |p.length|;
    && at < |fmt|
    && fmt[i..j] == p.flags && fmt[j..k] == p.WidthText() && fmt[k..m] == p.precision
    && fmt[m..at] == p.length && fmt[at] == p.conversion
  }

  ghost predicate PartAt(fmt: seq<char>, i: nat, s: seq<char>) {
    i + |s| <= |fmt| && fmt[i..i + |s|] == s
  }

  lemma PartAtTwo(fmt: seq<char>, i: nat, a: seq<char>, b: seq<char>)
    requires PartAt(fmt, i, a + b)
    ensures PartAt(fmt, i, a) && PartAt(fmt, i + |a|, b)
  {
    var s := fmt[i..i + |a + b|];
    assert fmt[i..i + |a|] == s[..|a|] == a;
    assert fmt[i + |a|..i + |a| + |b|] == s[|a|..] == b;
  }

  lemma ShownParts(pre: seq<char>, p: Spec, post: seq<char>)
    ensures Shows(pre + p.Shown() + post, |pre|, p)
  {
    hide Spec.WidthText;
    var a, w, r, l, c := p.flags, p.WidthText(), p.precision, p.length, [p.conversion];
    var fmt, i := pre + p.Shown() + post, |pre|;
    assert PartAt(fmt, i, p.Shown());
    hide PartAt;
    PartAtTwo(fmt, i, a + w + r + l, c);
    PartAtTwo(fmt, i, a + w + r, l);
    PartAtTwo(fmt, i, a + w, r);
    PartAtTwo(fmt, i, a, w);
    PartsShow(fmt, i, p);
    hide Shows;
  }

  lemma PartsShow(fmt: seq<char>, i: nat, p: Spec)
    requires PartAt(fmt, i, p.flags) && PartAt(fmt, i + |p.flags|, p.WidthText())
    requires PartAt(fmt, i + |p.flags + p.WidthText()|, p.precision)
    requires PartAt(fmt, i + |p.flags + p.WidthText() + p.precision|, p.length)
    requires PartAt(fmt, i + |p.flags + p.WidthText() + p.precision + p.length|, [p.conversion])
    ensures Shows(fmt, i, p)
  {
    hide Spec.WidthText;
    var at := i + |p.flags + p.WidthText() + p.precision + p.length|;
    assert fmt[at] == fmt[at..at + 1][0];
  }

  lemma ShowsParts(fmt: seq<char>, i: nat, p: Spec)
    requires Shows(fmt, i, p)
    ensures var j := i + |p.flags|;
            var k := j + |p.WidthText()|;
            var m := k + |p.precision|;
            && m + |p.length| < |fmt| && m + |p.length| == i + |p.Shown()| - 1
            && fmt[i..j] == p.flags && fmt[j..k] == p.WidthText() && fmt[k..m] == p.precision
            && fmt[m..m + |p.length|] == p.length && fmt[m + |p.length|] == p.conversion
  {
    hide Spec.WidthText;
  }

  lemma ShowsEnd(fmt: seq<char>, i: nat, p: Spec)
    requires Shows(fmt, i, p)
    ensures |p.Shown()| >= 1 && i + |p.Shown()| <= |fmt|
    ensures var at := i + |p.Shown()| - 1; fmt[at] == p.conversion && p.Meaning(at).at == at
  {
    hide Spec.WidthText;
  }

  lemma DirectiveParts(fmt: seq<char>, i: nat, j: nat, k: nat, m: nat, flags: seq<char>, w: seq<char>, dot: bool,
                       lng: nat, at: nat)
    requires i <= j <= k <= m <= |fmt| && j == SkipFlags(fmt, i) && fmt[i..j] == flags && dot == (At(fmt, k) == '.')
    requires k == if IsDigit(At(fmt, j)) then SkipWidth(fmt, j) else j
    requires fmt[j..k] == w && forall x :: 0 <= x < |w| ==> IsWidthDigit(w[x])
    requires m == if At(fmt, k) == '.' then SkipDigits(fmt, k + 1) else k
    requires LengthAt(fmt, m) == (lng, at)
    ensures DirectiveAt(fmt, i) == Directive('0' in flags || dot, '#' in flags, '-' in flags, WidthOf(w), lng, at)
  {
    hide SkipFlags;
    hide SkipWidth;
    hide SkipDigits;
    hide LengthAt;
    hide IsDigit;
    hide IsWidthDigit;
    hide WidthOf;
  }

  /** The interpreter reads a well-formed specification as what it says. */
  lemma SpecReadsBack(fmt: seq<char>, i: nat, p: Spec)
    requires p.Valid() && Shows(fmt, i, p)
    ensures DirectiveAt(fmt, i) == p.Meaning(i + |p.Shown()| - 1)
  {
    hide Shows;
    hide Spec.Valid;
    hide Spec.WidthText;
    hide Spec.Shown;
    hide SkipFlags;
    hide SkipWidth;
    hide SkipDigits;
    hide LengthAt;
    hide IsDigit;
    hide IsWidthDigit;
    hide WidthOf;
    hide DirectiveAt;
    var j := i + |p.flags|;
    var k := j + |p.WidthText()|;
    var m := k + |p.precision|;
    hide At;
    ShowsParts(fmt, i, p);
    FlagsEnd(fmt, i, p);
    EndsAt(fmt, i, p);
    LengthReadsBack(fmt, m, p);
    WidthTextReads(p);
    DirectiveParts(fmt, i, j, k, m, p.flags, p.WidthText(), p.precision != [],
                   if |p.length| == 1 then 1 else |p.length|, m + |p.length|);
  }

  /** After the flags, width and precision comes a character that belongs to none of them. */
  lemma NextPart(fmt: seq<char>, i: nat, p: Spec)
    requires p.Valid() && Shows(fmt, i, p)
    ensures var j := i + |p.flags|;
            var k := j + |p.WidthText()|;
            var m := k + |p.precision|;
            && !IsFlag(fmt[m]) && !IsWidthDigit(fmt[m]) && fmt[m] != '.'
            && (p.precision != [] ==> fmt[k] == '.')
            && (p.precision == [] ==> k == m)
            && !IsFlag(fmt[k]) && !IsWidthDigit(fmt[k]) && !IsDigit(fmt[k]) && !IsDigit(fmt[m])
  {
    hide IsFlag;
    hide IsWidthDigit;
    hide IsDigit;
    hide IsConversion;
    hide Spec.WidthText;
    hide Shows;
    var k := i + |p.flags| + |p.WidthText()|;
    var m := k + |p.precision|;
    ShowsParts(fmt, i, p);
    ConversionChar(p.conversion);
    OtherChars();
    assert p.length != [] ==> fmt[m] == fmt[m..m + |p.length|][0];
    assert p.precision != [] ==> fmt[k] == fmt[k..m][0];
  }

  lemma SpecChars(p: Spec)
    requires p.Valid()
    ensures forall i :: 0 <= i < |p.flags| ==> IsFlag(p.flags[i])
    ensures forall i :: 1 <= i < |p.precision| ==> IsDigit(p.precision[i])
  {
    hide IsConversion;
  }

  lemma FlagsEnd(fmt: seq<char>, i: nat, p: Spec)
    requires p.Valid() && Shows(fmt, i, p)
    ensures SkipFlags(fmt, i) == i + |p.flags|
  {
    hide Shows;
    hide Spec.WidthText;
    hide Spec.Shown;
    hide IsDigit;
    hide IsFlag;
    hide IsWidthDigit;
    hide IsConversion;
    hide WidthOf;
    hide SkipFlags;
    var j := i + |p.flags|;
    SpecChars(p);
    ShowsParts(fmt, i, p);
    NextPart(fmt, i, p);
    WidthTextReads(p);
    assert forall x :: i <= x < j ==> fmt[x] == fmt[i..j][x - i];
    if p.width > 0 {
      assert fmt[j] == fmt[j..j + |p.WidthText()|][0];
      DigitNoFlag(fmt[j]);
    }
    SkipFlagsTo(fmt, i, j);
  }

  lemma DigitNoFlag(ch: char)
    requires IsDigit(ch) && ch != '0'
    ensures !IsFlag(ch)
  {
  }

  lemma WidthEnd(fmt: seq<char>, i: nat, p: Spec)
    requires p.Valid() && Shows(fmt, i, p)
    ensures var j := i + |p.flags|;
            && SkipWidth(fmt, j) == j + |p.WidthText()|
            && (p.width > 0 <==> IsDigit(fmt[j]))
  {
    hide Shows;
    hide Spec.Valid;
    hide Spec.WidthText;
    hide Spec.Shown;
    hide IsDigit;
    hide IsFlag;
    hide IsWidthDigit;
    hide WidthOf;
    hide SkipWidth;
    var j := i + |p.flags|;
    var k := j + |p.WidthText()|;
    ShowsParts(fmt, i, p);
    NextPart(fmt, i, p);
    WidthTextReads(p);
    assert forall x :: j <= x < k ==> fmt[x] == fmt[j..k][x - j];
    SkipWidthTo(fmt, j, k);
  }

  lemma PrecisionEnd(fmt: seq<char>, i: nat, p: Spec)
    requires p.Valid() && Shows(fmt, i, p)
    ensures var k := i + |p.flags| + |p.WidthText()|;
            && (p.precision == [] <==> fmt[k] != '.')
            && (p.precision != [] ==> SkipDigits(fmt, k + 1) == k + |p.precision|)
  {
    hide Shows;
    hide Spec.WidthText;
    hide Spec.Shown;
    hide IsDigit;
    hide IsFlag;
    hide IsWidthDigit;
    hide IsConversion;
    hide SkipDigits;
    var k := i + |p.flags| + |p.WidthText()|;
    var m := k + |p.precision|;
    SpecChars(p);
    ShowsParts(fmt, i, p);
    NextPart(fmt, i, p);
    if p.precision != [] {
      assert forall x :: k <= x < m ==> fmt[x] == fmt[k..m][x - k];
      SkipDigitsTo(fmt, k + 1, m);
    }
  }

  lemma EndsAt(fmt: seq<char>, i: nat, p: Spec)
    requires p.Valid() && Shows(fmt, i, p)
    ensures var j := i + |p.flags|;
            var k := j + |p.WidthText()|;
            var m := k + |p.precision|;
            && m < |fmt| && k == (if IsDigit(At(fmt, j)) then SkipWidth(fmt, j) else j)
            && (p.precision != [] <==> At(fmt, k) == '.')
            && m == (if At(fmt, k) == '.' then SkipDigits(fmt, k + 1) else k)
  {
    hide Shows;
    hide Spec.Valid;
    hide Spec.WidthText;
    hide Spec.Shown;
    hide SkipWidth;
    hide SkipDigits;
    hide IsDigit;
    hide IsWidthDigit;
    hide WidthOf;
    ShowsParts(fmt, i, p);
    WidthEnd(fmt, i, p);
    PrecisionEnd(fmt, i, p);
    WidthTextReads(p);
  }

  /** Characters other than % go through unchanged. */
  lemma {:induction false} Literal(fmt: seq<char>, i: nat, j: nat, args: nat -> Arg, k: nat, base: nat, uc: bool)
    requires i <= j <= |fmt| && '%' !in fmt[i..j]
    ensures Format(fmt, i, args, k, base, uc) == fmt[i..j] + Format(fmt, j, args, k, base, uc)
    decreases j - i
  {
    if i < j {
      assert fmt[i] == fmt[i..j][0];
      assert fmt[i..j] == [fmt[i]] + fmt[i + 1..j];
      FormatStep(fmt, i, args, k, base, uc);
      Literal(fmt, i + 1, j, args, k, base, uc);
    }
  }

  /** A specification that the end of the format cuts off prints nothing. */
  lemma FormatCutOff(pre: seq<char>, flags: seq<char>, args: nat -> Arg, base: nat, uc: bool)
    requires '%' !in pre && forall i :: 0 <= i < |flags| ==> flags[i] == '-' || flags[i] == '0' || flags[i] == '#'
    ensures Format(pre + ['%'] + flags, 0, args, 0, base, uc) == pre
  {
    hide Convert;
    hide Format;
    var fmt, i := pre + ['%'] + flags, |pre|;
    assert fmt[0..i] == pre;
    Literal(fmt, 0, i, args, 0, base, uc);
    SkipFlagsTo(fmt, i + 1, |fmt|);
    hide SkipFlags;
    assert DirectiveAt(fmt, i + 1).at == |fmt|;
    hide DirectiveAt;
    FormatStep(fmt, i, args, 0, base, uc);
  }

  /** Where a well-formed specification stands, the output is the conversion it means, and then the rest with the
      arguments that are left. */
  lemma FormatSpec(fmt: seq<char>, i: nat, p: Spec, args: nat -> Arg, k: nat, base: nat, uc: bool)
    requires i < |fmt| && fmt[i] == '%' && p.Valid() && Shows(fmt, i + 1, p)
    ensures var at := i + |p.Shown()|;
            var c := Convert(p.Meaning(at), p.conversion, args(k), base, uc);
            && at < |fmt|
            && Format(fmt, i, args, k, base, uc) == c.out + Format(fmt, at + 1, args, k + c.taken, c.base, c.uc)
  {
    hide Convert;
    hide DirectiveAt;
    hide Spec.Meaning;
    hide Spec.Valid;
    hide Spec.Shown;
    hide Shows;
    hide Format;
    ShowsEnd(fmt, i + 1, p);
    SpecReadsBack(fmt, i + 1, p);
    FormatStep(fmt, i, args, k, base, uc);
  }

  /** Plain text, one specification and anything after it. */
  lemma FormatText(pre: seq<char>, p: Spec, post: seq<char>, args: nat -> Arg, base: nat, uc: bool)
    requires '%' !in pre && p.Valid()
    ensures var fmt := pre + ['%'] + p.Shown() + post;
            var at := |pre| + |p.Shown()|;
            var c := Convert(p.Meaning(at), p.conversion, args(0), base, uc);
            Format(fmt, 0, args, 0, base, uc) == pre + (c.out + Format(fmt, at + 1, args, c.taken, c.base, c.uc))
  {
    var fmt := pre + ['%'] + p.Shown() + post;
    hide Convert;
    hide Format;
    hide Shows;
    hide Spec.Valid;
    hide Spec.Shown;
    hide Spec.Meaning;
    ShownParts(pre + ['%'], p, post);
    assert fmt[0..|pre|] == pre && fmt[|pre|] == '%';
    Literal(fmt, 0, |pre|, args, 0, base, uc);
    FormatSpec(fmt, |pre|, p, args, 0, base, uc);
  }

  /** The same for d and i, from the characters of the format to those of the output. */
  lemma FormatSigned(pre: seq<char>, p: Spec, post: seq<char>, args: nat -> Arg, base: nat, uc: bool, v: int)
    returns (text: seq<char>, l: nat, z: nat, t: nat)
    requires '%' !in pre && p.Valid() && (p.conversion == 'd' || p.conversion == 'i')
    requires var size := if p.length == [] then 0x1_0000_0000 else 0x1_0000_0000_0000_0000;
             -(size / 2) <= v < size / 2 && (args(0).word - v) % size == 0
    ensures var fmt, minus := pre + ['%'] + p.Shown() + post, if v < 0 then "-" else "";
            var out := Repeat(' ', l) + minus + Repeat('0', z) + text + Repeat(' ', t);
            && Format(fmt, 0, args, 0, base, uc) == pre + (out + Format(fmt, |fmt| - |post|, args, 1, 10, uc))
            && (p.width < 0x8000_0000 ==> |out| == if p.width > |minus| + |text| then p.width else |minus| + |text|)
    ensures Number(text, 10) == (if v < 0 then -v else v) && |text| >= 1 && (text[0] == '0' ==> |text| == 1)
    ensures forall i :: 0 <= i < |text| ==> '0' <= text[i] <= '9'
    ensures l > 0 ==> '0' !in p.flags && p.precision == [] && '-' !in p.flags
    ensures z > 0 ==> '0' in p.flags || p.precision != []
    ensures t > 0 ==> '0' !in p.flags && p.precision == [] && '-' in p.flags
  {
    hide Convert;
    hide Format;
    hide Repeat;
    hide Number;
    hide Spec.Valid;
    hide Spec.Shown;
    FormatText(pre, p, post, args, base, uc);
    LengthChars(p);
    text, l, z, t := ConvertSigned(p.Meaning(|pre| + |p.Shown()|), p.conversion, args(0), base, uc, v);
  }

  lemma LengthChars(p: Spec)
    requires p.Valid()
    ensures |p.length| <= 2
  {
    hide IsConversion;
    hide IsFlag;
    hide IsDigit;
  }

  /** ... for u, o, x, X and p ... */
  lemma FormatUnsigned(pre: seq<char>, p: Spec, post: seq<char>, args: nat -> Arg, base: nat, uc: bool)
    returns (text: seq<char>, l: nat, z: nat, t: nat)
    requires '%' !in pre && p.Valid() && p.conversion in "uoxXp"
    ensures var fmt, ch := pre + ['%'] + p.Shown() + post, p.conversion;
            var radix := if ch == 'u' then 10 else if ch == 'o' then 8 else 16;
            var prefix := if ch == 'p' || ('#' in p.flags && ch == 'x') then "0x"
                          else if '#' in p.flags && ch == 'X' then "0X"
                          else if '#' in p.flags && ch == 'o' then "0" else "";
            var out := Repeat(' ', l) + prefix + Repeat('0', z) + text + Repeat(' ', t);
            && Format(fmt, 0, args, 0, base, uc)
               == pre + (out + Format(fmt, |fmt| - |post|, args, 1, radix, if ch == 'u' || ch == 'o' then uc else ch == 'X'))
            && (p.width < 0x8000_0000 ==> |out| == if p.width > |prefix| + |text| then p.width else |prefix| + |text|)
            && Number(text, radix)
               == args(0).word % if ch == 'p' || (p.length != [] && ch != 'o') then 0x1_0000_0000_0000_0000 else 0x1_0000_0000
    ensures |text| >= 1 && (text[0] == '0' ==> |text| == 1)
    ensures forall i :: 0 <= i < |text| ==>
              || '0' <= text[i] <= '9'
              || (if p.conversion == 'X' then 'A' <= text[i] <= 'F'
                  else (p.conversion == 'x' || p.conversion == 'p') && 'a' <= text[i] <= 'f')
    ensures l > 0 ==> '0' !in p.flags && p.precision == [] && '-' !in p.flags
    ensures z > 0 ==> '0' in p.flags || p.precision != []
    ensures t > 0 ==> '0' !in p.flags && p.precision == [] && '-' in p.flags
  {
    hide Convert;
    hide Format;
    hide Repeat;
    hide Number;
    hide Spec.Valid;
    hide Spec.Shown;
    FormatText(pre, p, post, args, base, uc);
    LengthChars(p);
    text, l, z, t := ConvertUnsigned(p.Meaning(|pre| + |p.Shown()|), p.conversion, args(0), base, uc);
  }

  /** ... for s, when # does not ask for a prefix ... */
  lemma FormatString(pre: seq<char>, p: Spec, post: seq<char>, args: nat -> Arg, base: nat, uc: bool)
    returns (text: seq<char>, l: nat, z: nat, t: nat)
    requires '%' !in pre && p.Valid() && p.conversion == 's' && '#' !in p.flags
    ensures var fmt := pre + ['%'] + p.Shown() + post;
            var out := Repeat(' ', l) + "" + Repeat('0', z) + text + Repeat(' ', t);
            && Format(fmt, 0, args, 0, base, uc) == pre + (out + Format(fmt, |fmt| - |post|, args, 1, base, uc))
            && (p.width < 0x8000_0000 ==> |out| == if p.width > |text| then p.width else |text|)
    ensures var s := args(0).text;
            NUL !in text && |text| <= |s| && text == s[..|text|] && (|text| < |s| ==> s[|text|] == NUL)
    ensures l > 0 ==> '0' !in p.flags && p.precision == [] && '-' !in p.flags
    ensures z > 0 ==> '0' in p.flags || p.precision != []
    ensures t > 0 ==> '0' !in p.flags && p.precision == [] && '-' in p.flags
  {
    hide Convert;
    hide Format;
    hide Repeat;
    hide Spec.Valid;
    hide Spec.Shown;
    FormatText(pre, p, post, args, base, uc);
    text, l, z, t := ConvertString(p.Meaning(|pre| + |p.Shown()|), args(0), base, uc);
  }

  /** ... and for c and %. */
  lemma FormatChar(pre: seq<char>, p: Spec, post: seq<char>, args: nat -> Arg, base: nat, uc: bool) returns (c: char)
    requires '%' !in pre && p.Valid() && (p.conversion == 'c' || p.conversion == '%')
    ensures var fmt := pre + ['%'] + p.Shown() + post;
            Format(fmt, 0, args, 0, base, uc)
            == pre + ([c] + Format(fmt, |fmt| - |post|, args, if p.conversion == 'c' then 1 else 0, base, uc))
    ensures if p.conversion == 'c' then c as int == args(0).word % 256 else c == '%'
  {
    hide Format;
    hide Spec.Valid;
    hide Spec.Shown;
    FormatText(pre, p, post, args, base, uc);
    var at := |pre| + |p.Shown()|;
    ConvertOther(p.Meaning(at), p.conversion, args(0), base, uc);
    hide Convert;
    var out := Convert(p.Meaning(at), p.conversion, args(0), base, uc).out;
    c := out[0];
    assert out == [c];
  }

  /** The plain %d: a minus if the number is negative, and its absolute value. */
  lemma PercentD(args: nat -> Arg, base: nat, uc: bool, v: int) returns (text: seq<char>)
    requires -0x8000_0000 <= v < 0x8000_0000 && (args(0).word - v) % 0x1_0000_0000 == 0
    ensures Format("%d", 0, args, 0, base, uc) == (if v < 0 then "-" else "") + text
    ensures Number(text, 10) == (if v < 0 then -v else v) && |text| >= 1 && (text[0] == '0' ==> |text| == 1)
  {
    hide Format;
    hide Number;
    hide Repeat;
    var p := Spec([], 0, [], [], 'd');
    var l, z, t;
    text, l, z, t := FormatSigned([], p, [], args, base, uc, v);
    var fmt := [] + ['%'] + p.Shown() + [];
    assert fmt == "%d";
    FormatStep(fmt, 2, args, 1, 10, uc);
    var minus := if v < 0 then "-" else "";
    assert l == z == t == 0;
    assert Repeat(' ', 0) == [] == Repeat('0', 0);
  }

  // The two string functions.

  /** A count as an int. */
  function ToInt(n: nat): (r: int)
    ensures n < 0x8000_0000 ==> r == n
  {
    var u := n % WORD32;
    if u < 0x8000_0000 then u else u - WORD32
  }

  lemma ToIntIs(n: nat)
    ensures -0x8000_0000 <= ToInt(n) < 0x8000_0000 && (n - ToInt(n)) % 0x1_0000_0000 == 0
  {
    var r := ToInt(n);
    var k := n / WORD32;
    DivModUnique(n - r, WORD32, if n % WORD32 < 0x8000_0000 then k else k + 1, 0);
  }

  /** base0 and uc0 stand for what the parameter struct happens to hold at first. */
  method Vsnprintf(str: array<char>, size: nat, fmt: seq<char>, args: nat -> Arg, base0: nat, uc0: bool) returns (r: int)
    requires size <= str.Length && NUL !in fmt
    modifies str
    ensures size == 0 ==> r == 0 && str[..] == old(str[..])
    ensures size > 0 ==> r == ToInt(|Format(fmt, 0, args, 0, base0, uc0)|)
    ensures size > 0 ==> var text := Format(fmt, 0, args, 0, base0, uc0);
                         var kept := Min(|text|, size - 1);
                         && str[..kept] == text[..kept] && str[kept] == NUL
                         && forall i :: kept < i < str.Length ==> str[i] == old(str[i])
  {
    hide Format;
    if size < 1 {
      return 0;
    }
    var sink := new Sink(str, true, size - 1);
    TfpFormat(sink, fmt, args, base0, uc0);
    if sink.numChars < size - 1 {
      str[sink.numChars] := NUL;
    } else {
      str[size - 1] := NUL;
    }
    r := ToInt(sink.numChars);
  }

  /** The buffer must be large enough, as sprintf demands. */
  method Vsprintf(str: array<char>, fmt: seq<char>, args: nat -> Arg, base0: nat, uc0: bool) returns (r: int)
    requires NUL !in fmt && |Format(fmt, 0, args, 0, base0, uc0)| < str.Length
    modifies str
    ensures r == ToInt(|Format(fmt, 0, args, 0, base0, uc0)|)
    ensures var text := Format(fmt, 0, args, 0, base0, uc0);
            && str[..|text|] == text && str[|text|] == NUL
            && forall i :: |text| < i < str.Length ==> str[i] == old(str[i])
  {
    hide Format;
    var sink := new Sink(str, false, 0);
    TfpFormat(sink, fmt, args, base0, uc0);
    str[sink.numChars] := NUL;
    r := ToInt(sink.numChars);
  }
}
