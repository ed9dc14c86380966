/** Numbers as text: `uint64toa` and `itoa` of kernel/lib/stdlib.c. */
module NumberText {
  import opened Arithmetic
  import opened Bytes
  import opened CString

  const ZERO: Byte := 48
  /** The size of the buffer that `printNumber` of kernel/lib/print.c passes. */
  const PRINT_BUFFER: nat := 20

  /** Larger bases need digit characters that a byte does not hold. */
  predicate ValidBase(base: nat) { 2 <= base <= 208 }

  lemma RemainderBelow(v: nat, base: nat)
    requires base >= 1
    ensures 0 <= v % base < base && v / base >= 0
  {
  }

  /** The digit characters as the loop finds them, lowest digit first. */
  function LowFirst(value: nat, base: nat): (d: seq<Byte>)
    requires ValidBase(base)
    ensures |d| >= 1 && 0 !in d
    decreases value
  {
    var v := value / base;
    [ZERO + value % base] + (if v > 0 then QuotientSmaller(value, base); LowFirst(v, base) else [])
  }

  /** What the text means: the value of digits, highest first. */
  function Parse(text: seq<Byte>, base: nat): int {
    if text == [] then 0 else Parse(text[..|text| - 1], base) * base + (text[|text| - 1] - ZERO)
  }

  function Power(base: nat, n: nat): nat {
    if n == 0 then 1 else base * Power(base, n - 1)
  }

  /** The lowest digit comes last in the text. */
  lemma ParseLowest(d: seq<Byte>, base: nat)
    requires d != []
    ensures Parse(Reversed(d), base) == Parse(Reversed(d[1..]), base) * base + (d[0] - ZERO)
  {
    var r := Reversed(d);
    assert r[..|r| - 1] == Reversed(d[1..]);
  }

  function ValueLowFirst(d: seq<Byte>, base: nat): int {
    if d == [] then 0 else ValueLowFirst(d[1..], base) * base + (d[0] - ZERO)
  }

  lemma {:induction false} ParseReversed(d: seq<Byte>, base: nat)
    ensures Parse(Reversed(d), base) == ValueLowFirst(d, base)
    decreases |d|
  {
    if d != [] {
      ParseLowest(d, base);
      ParseReversed(d[1..], base);
    }
  }

  /** The lowest digit, and the value of the others. */
  lemma LowFirstSplits(value: nat, base: nat, d: seq<Byte>) returns (v: nat, r: nat)
    requires ValidBase(base) && d == LowFirst(value, base)
    ensures value == v * base + r && d[0] == ZERO + r
    ensures d[1..] == if v > 0 then LowFirst(v, base) else []
    ensures v > 0 ==> v < value
  {
    RemainderBelow(value, base);
    Euclid(value, base);
    v, r := value / base, value % base;
    if v > 0 { QuotientSmaller(value, base); }
  }

  lemma ValueFromLowest(d: seq<Byte>, base: nat, x: int, r: int)
    requires d != [] && ValueLowFirst(d[1..], base) == x && d[0] == ZERO + r
    ensures ValueLowFirst(d, base) == x * base + r
  {
  }

  lemma {:induction false} DigitsHaveValue(value: nat, base: nat, d: seq<Byte>)
    requires ValidBase(base) && d == LowFirst(value, base)
    ensures ValueLowFirst(d, base) == value
    decreases value
  {
    var v, r := LowFirstSplits(value, base, d);
    if v > 0 {
      DigitsHaveValue(v, base, d[1..]);
    }
    ValueFromLowest(d, base, v, r);
  }

  /** Parsing the text gives the value back. */
  lemma ParseOfText(value: nat, base: nat)
    requires ValidBase(base)
    ensures Parse(Reversed(LowFirst(value, base)), base) == value
  {
    ParseReversed(LowFirst(value, base), base);
    DigitsHaveValue(value, base, LowFirst(value, base));
  }

  lemma DigitBelow(value: nat, base: nat)
    requires ValidBase(base)
    ensures |LowFirst(value, base)| >= 1 && LowFirst(value, base)[0] == 48 + value % base
    ensures LowFirst(value, base)[1..] == if value / base > 0 then LowFirst(value / base, base) else []
  {
  }

  lemma PowerShifts(value: nat, base: nat, k: nat)
    requires base >= 2
    ensures Power(base, k) >= 1 && Power(base, k + 1) >= 1
    ensures value / base / Power(base, k) == value / Power(base, k + 1)
  {
    PowerPositive(base, k);
    PowerPositive(base, k + 1);
    SplitDigit(value, base, Power(base, k));
    assert Power(base, k + 1) == Power(base, k) * base;
  }

  /** The character of the digit worth `Power(base, k)`. */
  ghost predicate IsDigit(c: int, value: nat, base: nat, k: nat)
    requires base >= 1
  {
    Power(base, k) >= 1 && c == '0' as int + value / Power(base, k) % base
  }

  lemma FirstIsDigit(value: nat, base: nat)
    requires base >= 1
    ensures IsDigit(48 + value % base, value, base, 0)
  {
    assert Power(base, 0) == 1;
  }

  lemma NextIsDigit(c: int, value: nat, base: nat, k: nat, v: nat)
    requires base >= 2 && v == value / base && IsDigit(c, v, base, k)
    ensures IsDigit(c, value, base, k + 1)
  {
    PowerShifts(value, base, k);
  }

  lemma HigherDigits(value: nat, base: nat, d: seq<Byte>) returns (v: nat, rest: seq<Byte>)
    requires ValidBase(base) && d == LowFirst(value, base) && |d| > 1
    ensures v == value / base && rest == LowFirst(v, base) && d == [d[0]] + rest
  {
    v, rest := value / base, d[1..];
    DigitBelow(value, base);
  }

  /** Character `k`, counted from the lowest, stands for digit `k`. */
  lemma {:induction false} DigitAt(value: nat, base: nat, d: seq<Byte>, k: nat)
    requires ValidBase(base) && d == LowFirst(value, base) && k < |d|
    ensures IsDigit(d[k], value, base, k)
    decreases k
  {
    if k > 0 {
      var v, rest := HigherDigits(value, base, d);
      DigitAt(v, base, rest, k - 1);
      NextIsDigit(d[k], value, base, k - 1, v);
    } else {
      DigitBelow(value, base);
      FirstIsDigit(value, base);
    }
  }

  /** Only zero has a text that starts with the digit zero. */
  lemma {:induction false} NoLeadingZero(value: nat, base: nat)
    requires ValidBase(base)
    ensures Reversed(LowFirst(value, base))[0] == ZERO <==> value == 0
    decreases value
  {
    var d, v := LowFirst(value, base), value / base;
    assert Reversed(d)[0] == d[|d| - 1];
    if v > 0 {
      QuotientSmaller(value, base);
      NoLeadingZero(v, base);
      var e := LowFirst(v, base);
      assert Reversed(e)[0] == e[|e| - 1] && d[1..] == e;
    } else {
      assert d == [ZERO + value % base];
    }
  }

  /** `n` digits are enough exactly for the values below the base's `n`-th power. */
  lemma {:induction false} DigitCount(value: nat, base: nat, n: nat)
    requires ValidBase(base) && n >= 1
    ensures |LowFirst(value, base)| <= n <==> value < Power(base, n)
    decreases n
  {
    QuotientBelow(value, base, Power(base, n - 1));
    if n > 1 && value / base > 0 {
      DigitCount(value / base, base, n - 1);
    } else if n > 1 {
      PowerPositive(base, n - 1);
    } else {
      assert Power(base, 0) == 1;
    }
  }

  lemma {:induction false} PowerPositive(base: nat, n: nat)
    requires base >= 1
    ensures Power(base, n) >= 1
  {
    if n > 0 { PowerPositive(base, n - 1); }
  }

  /** The text and its NUL fit the buffer of `printNumber` exactly for the values below 10^19. */
  lemma PrintBufferHoldsIff(value: nat)
    ensures |LowFirst(value, 10)| + 1 <= PRINT_BUFFER <==> value < 10_000_000_000_000_000_000
  {
    DigitCount(value, 10, 19);
    TenToThe(6);
    TenToThe(12);
    TenToThe(18);
  }

  /** Six more digits are a million times more. */
  lemma TenToThe(n: nat)
    requires n >= 6
    ensures Power(10, n + 1) == 10 * Power(10, n)
    ensures Power(10, n) == 1_000_000 * Power(10, n - 6)
  {
    assert Power(10, n) == 10 * Power(10, n - 1) && Power(10, n - 1) == 10 * Power(10, n - 2);
    assert Power(10, n - 2) == 10 * Power(10, n - 3) && Power(10, n - 3) == 10 * Power(10, n - 4);
    assert Power(10, n - 4) == 10 * Power(10, n - 5) && Power(10, n - 5) == 10 * Power(10, n - 6);
  }

  /** The digits that the loop has still to write. */
  ghost function Remaining(v: nat, base: nat, more: bool): seq<Byte>
    requires ValidBase(base)
  {
    if more then LowFirst(v, base) else []
  }

  /** The character of the lowest digit. */
  function LowDigit(v: nat, base: nat): (c: Byte)
    requires ValidBase(base)
    ensures c != 0
  {
    RemainderBelow(v, base);
    ZERO + v % base
  }

  lemma FirstDigit(v: nat, base: nat, d: seq<Byte>, n: nat)
    requires ValidBase(base) && n <= |d| && d[n..] == Remaining(v, base, true)
    ensures n < |d| && d[n] == LowDigit(v, base)
    ensures d[n + 1..] == Remaining(v / base, base, v / base > 0)
  {
    assert d[n] == d[n..][0] && d[n + 1..] == d[n..][1..];
  }

  /** The first `n` digits stand at `p`. */
  ghost predicate Written(m0: seq<Byte>, m: seq<Byte>, p: nat, d: seq<Byte>, n: nat) {
    && |m| == |m0| && p + |d| <= |m| && n <= |d|
    && forall k {:trigger m[k]} :: 0 <= k < |m| ==> m[k] == if p <= k < p + n then d[k - p] else m0[k]
  }

  lemma AllWritten(m0: seq<Byte>, m: seq<Byte>, p: nat, d: seq<Byte>, n: nat, rest: seq<Byte>)
    requires Written(m0, m, p, d, n) && d[n..] == rest && rest == []
    ensures n == |d| && m == Stored(m0, p, d)
  {
    assert |d[n..]| == |d| - n;
  }

  lemma OneMoreWritten(m0: seq<Byte>, m: seq<Byte>, p: nat, d: seq<Byte>, n: nat, m': seq<Byte>)
    requires Written(m0, m, p, d, n) && n < |d| && m' == m[p + n := d[n]]
    ensures Written(m0, m', p, d, n + 1)
  {
  }

  /** One round of the loop: the lowest digit is written, the rest of the value remains. */
  method WriteDigit(mem: array<Byte>, p: nat, n: nat, v: nat, base: nat, ghost m0: seq<Byte>, ghost d: seq<Byte>)
    returns (next: nat)
    requires ValidBase(base) && Written(m0, mem[..], p, d, n) && d[n..] == Remaining(v, base, true)
    modifies mem
    ensures n < |d| && Written(m0, mem[..], p, d, n + 1) && d[n + 1..] == Remaining(next, base, next > 0)
  {
    ghost var m := mem[..];
    FirstDigit(v, base, d, n);
    PutByte(mem, p + n, LowDigit(v, base));
    OneMoreWritten(m0, m, p, d, n, mem[..]);
    RemainderBelow(v, base);
    next := v / base;
  }

  method PutByte(mem: array<Byte>, a: nat, c: Byte)
    requires a < mem.Length
    modifies mem
    ensures mem[..] == old(mem[..])[a := c]
  {
    mem[a] := c;
  }

  /** The digit loop: the lowest digit is written first, and at least one is. */
  method WriteDigits(mem: array<Byte>, p: nat, value: nat, base: nat) returns (n: nat)
    requires ValidBase(base) && p + |LowFirst(value, base)| <= mem.Length
    modifies mem
    ensures n == |LowFirst(value, base)|
    ensures mem[..] == Stored(old(mem[..]), p, LowFirst(value, base))
  {
    ghost var m0, d := mem[..], LowFirst(value, base);
    var v: nat, more := value, true;
    n := 0;
    while more
      invariant Written(m0, mem[..], p, d, n) && d[n..] == Remaining(v, base, more)
      decreases |d| - n
    {
      v := WriteDigit(mem, p, n, v, base, m0, d);
      n := n + 1;
      more := v > 0;
    }
    AllWritten(m0, mem[..], p, d, n, []);
  }

  /** The string at `str` afterwards is the value's text, highest digit first. */
  method Uint64toa(mem: array<Byte>, value: nat, str: nat, base: nat)
    requires value < U64 && ValidBase(base) && str + |LowFirst(value, base)| + 1 <= mem.Length
    modifies mem
    ensures mem[..] == Stored(old(mem[..]), str, Reversed(LowFirst(value, base)) + [0])
    ensures HasString(mem[..], str) && StringAt(mem[..], str) == Reversed(LowFirst(value, base))
  {
    ghost var before, d := mem[..], LowFirst(value, base);
    var i := WriteDigits(mem, str, value, base);
    mem[str + i] := 0;
    DigitsTerminated(before, mem[..], str, d);
    ghost var written := mem[..];
    Reverse(mem, str);
    ReversedHasNoZero(d);
    TextReplaced(before, written, mem[..], str, d, Reversed(d));
  }

  lemma DigitsTerminated(before: seq<Byte>, written: seq<Byte>, p: nat, d: seq<Byte>)
    requires p + |d| < |before| == |written| && 0 !in d
    requires written == Stored(before, p, d)[p + |d| := 0]
    ensures written == Stored(before, p, d + [0]) && HasString(written, p) && StringAt(written, p) == d
  {
    StringWritten(written, p, d);
  }

  /** Text of the same length in place of the digits, before the same NUL. */
  lemma TextReplaced(before: seq<Byte>, written: seq<Byte>, after: seq<Byte>, p: nat, d: seq<Byte>, t: seq<Byte>)
    requires p + |d| < |before| == |written| && |t| == |d| && 0 !in t
    requires written == Stored(before, p, d + [0]) && after == Stored(written, p, t)
    ensures after == Stored(before, p, t + [0])
    ensures HasString(after, p) && StringAt(after, p) == t
  {
    assert after[p..p + |t|] == t;
    StringWritten(after, p, t);
  }

  lemma ReversedHasNoZero(d: seq<Byte>)
    requires 0 !in d
    ensures 0 !in Reversed(d)
  {
    forall k | 0 <= k < |d| ensures Reversed(d)[k] != 0 {
      assert d[|d| - 1 - k] in d;
    }
  }

  lemma StringWritten(mem: seq<Byte>, p: nat, t: seq<Byte>)
    requires p + |t| < |mem| && 0 !in t && mem[p..p + |t|] == t && mem[p + |t|] == 0
    ensures HasString(mem, p) && StringAt(mem, p) == t
  {
    assert mem[p..][|t|] == 0;
    assert mem[p..][..|t|] == t;
    TextIs(mem[p..], t);
  }

  // ---------- signed numbers ----------

  const MINUS: Byte := 45

  /** What the loop and the sign leave in the buffer before it is reversed. */
  function SignedLowFirst(value: int, base: nat): (d: seq<Byte>)
    requires ValidBase(base)
    ensures 0 !in d && |d| >= 1
  {
    if value < 0 then LowFirst(-value, base) + [MINUS] else LowFirst(value, base)
  }

  function ParseSigned(text: seq<Byte>, base: nat): int
    requires text != []
  {
    if text[0] == MINUS then -Parse(text[1..], base) else Parse(text, base)
  }

  lemma {:induction false} TextStartsWithDigit(value: nat, base: nat)
    requires ValidBase(base)
    ensures Reversed(LowFirst(value, base))[0] >= ZERO
    decreases value
  {
    var d := LowFirst(value, base);
    var v, r := LowFirstSplits(value, base, d);
    if v > 0 {
      TextStartsWithDigit(v, base);
      assert d[|d| - 1] == d[1..][|d| - 2];
    }
  }

  lemma ParseOfNegative(value: nat, base: nat)
    requires ValidBase(base)
    ensures ParseSigned(Reversed(LowFirst(value, base) + [MINUS]), base) == 0 - value
  {
    var d, r := LowFirst(value, base), Reversed(LowFirst(value, base) + [MINUS]);
    assert r[0] == MINUS && r[1..] == Reversed(d);
    ParseOfText(value, base);
  }

  lemma ParseOfNonnegative(value: nat, base: nat)
    requires ValidBase(base)
    ensures ParseSigned(Reversed(LowFirst(value, base)), base) == value
  {
    ParseOfText(value, base);
    TextStartsWithDigit(value, base);
  }

  /** The text of a negative number is a minus before the text of its absolute value. */
  lemma MinusInFront(value: nat, base: nat)
    requires ValidBase(base) && value > 0
    ensures Reversed(SignedLowFirst(0 - value, base)) == ['-' as int] + Reversed(LowFirst(value, base))
    ensures SignedLowFirst(value, base) == LowFirst(value, base)
  {
    var d := LowFirst(value, base);
    var r := Reversed(d + [MINUS]);
    assert r[0] == MINUS && r[1..] == Reversed(d);
  }

  /** A minus is never a digit, so the text gives the value back with its sign. */
  lemma ParseOfSignedText(value: int, base: nat)
    requires ValidBase(base)
    ensures ParseSigned(Reversed(SignedLowFirst(value, base)), base) == value
  {
    if value < 0 {
      ParseOfNegative(-value, base);
    } else {
      ParseOfNonnegative(value, base);
    }
  }

  /** The smallest `int` is left out: negating it is undefined in C. */
  method Itoa(mem: array<Byte>, value: int, str: nat, base: nat)
    requires -0x8000_0000 < value < 0x8000_0000 && ValidBase(base)
    requires str + |SignedLowFirst(value, base)| + 1 <= mem.Length
    modifies mem
    ensures mem[..] == Stored(old(mem[..]), str, Reversed(SignedLowFirst(value, base)) + [0])
    ensures HasString(mem[..], str) && StringAt(mem[..], str) == Reversed(SignedLowFirst(value, base))
  {
    ghost var before, d := mem[..], SignedLowFirst(value, base);
    var i := WriteDigits(mem, str, if value < 0 then -value else value, base);
    if value < 0 {
      mem[str + i] := MINUS;
      i := i + 1;
    }
    assert mem[..] == Stored(before, str, d);
    mem[str + i] := 0;
    DigitsTerminated(before, mem[..], str, d);
    ghost var written := mem[..];
    Reverse(mem, str);
    ReversedHasNoZero(d);
    TextReplaced(before, written, mem[..], str, d, Reversed(d));
  }
}
