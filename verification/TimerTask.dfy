/** 64-bit arithmetic out of shifts, additions and subtractions, and decimal
    printing (attic/timer/timertask.c). Machine words are naturals below 2^64 and
    every operation that can wrap says so. */
module TimerTask {
  const TWO_64: int := 0x1_0000_0000_0000_0000
  const TWO_63: int := 0x8000_0000_0000_0000

  type Ull = x: nat | x < TWO_64
  type LongLong = v: int | -0x8000_0000_0000_0000 <= v < TWO_63

  // --- machine operations -----------------------------------------------------

  function Shl(x: Ull, k: nat): (r: Ull) {
    (x * Pow2(k)) % TWO_64
  }

  function Shr(x: Ull): (r: Ull) {
    x / 2
  }

  function Add(x: Ull, y: Ull): (r: Ull) {
    (x + y) % TWO_64
  }

  function Sub(x: Ull, y: Ull): (r: Ull) {
    (x - y) % TWO_64
  }

  function AsSigned(x: Ull): (r: LongLong) {
    if x < TWO_63 then x else x - TWO_64
  }

  function AsUnsigned(v: int): (r: Ull) {
    v % TWO_64
  }

  // --- modular arithmetic -----------------------------------------------------

  lemma ModUnique(x: int, k: int, r: int)
    requires x == k * TWO_64 + r && 0 <= r < TWO_64
    ensures x % TWO_64 == r
  {
  }

  lemma MulMonotone(x: int, y: int, b: nat)
    ensures x <= y ==> x * b <= y * b
  {
  }

  function Pow2(k: nat): (p: nat)
    ensures p >= 1
  {
    if k == 0 then 1 else 2 * Pow2(k - 1)
  }

  // --- multiply and divide ----------------------------------------------------

  function MulTen(x: Ull): (r: Ull) {
    var x2 := Shl(x, 1);
    var x8 := Shl(x2, 2);
    Add(x2, x8)
  }

  lemma MulTenExact(x: Ull)
    ensures MulTen(x) == (10 * x) % TWO_64
  {
    var x2 := Shl(x, 1);
    var x8 := Shl(x2, 2);
    assert Pow2(1) == 2 && Pow2(2) == 4;
    var c1, c2, c3 := (2 * x) / TWO_64, (4 * x2) / TWO_64, (x2 + x8) / TWO_64;
    assert x2 == 2 * x - c1 * TWO_64;
    assert x8 == 4 * x2 - c2 * TWO_64;
    assert MulTen(x) == x2 + x8 - c3 * TWO_64;
    ModUnique(10 * x, 5 * c1 + c2 + c3, MulTen(x));
  }

  /** One shift-and-add step moves the low bit's share of a * b into r; c counts
      the multiples of m that wrap-around takes away. */
  lemma ShiftAdd(a: int, h: int, bit: int, r: int, c1: int, c2: int, m: int)
    requires bit == 0 || bit == 1
    ensures (r + bit * a - c1 * m) + (2 * a - c2 * m) * h == r + a * (2 * h + bit) - (c1 + c2 * h) * m
  {
    assert (2 * a - c2 * m) * h == 2 * a * h - c2 * m * h;
    assert a * (2 * h + bit) == 2 * a * h + bit * a;
    assert (c1 + c2 * h) * m == c1 * m + c2 * m * h by {
      assert c2 * h * m == c2 * m * h;
    }
  }

  method UllMul(a0: Ull, b0: Ull) returns (r: Ull)
    ensures r == (a0 * b0) % TWO_64
  {
    var a: Ull, b: Ull := a0, b0;
    r := 0;
    ghost var k: int := 0;
    while b > 0
      invariant Product(r, a, b) == Product(0, a0, b0) - k * TWO_64
      decreases b
    {
      ghost var c1: int, c2: int := if b % 2 == 1 then (r + a) / TWO_64 else 0, (2 * a) / TWO_64;
      ShiftAdd(a, b / 2, b % 2, r, c1, c2, TWO_64);
      assert Pow2(1) == 2;
      if b % 2 == 1 {
        r := Add(r, a);
      }
      a := Shl(a, 1);
      b := Shr(b);
      k := k + c1 + c2 * b;
    }
    ModUnique(Product(0, a0, b0), k, r);
  }

  ghost function Product(r: int, a: int, b: int): (result: int) {
    r + a * b
  }

  lemma NoWrap(x: Ull, d: Ull, q: Ull, b: Ull)
    ensures x >= d ==> Sub(x, d) == x - d
    ensures q + b < TWO_64 ==> Add(q, b) == q + b
  {
  }

  /** `wrapped` tells whether any shift or addition lost a bit. */
  method DivTen(x0: Ull) returns (q: Ull, ghost wrapped: bool)
    ensures q == x0 / 10
    ensures !wrapped
  {
    var x: Ull := x0;
    var d: Ull := 10 * 0x1000_0000_0000_0000;
    var b: Ull := 0x1000_0000_0000_0000;
    ghost var k: int := 60;
    assert b == Pow2(60) by { Pow2Sixty(); }
    q, wrapped := 0, false;
    hide Add, Sub;
    while b > 0
      invariant -1 <= k <= 60
      invariant k >= 0 ==> b == Pow2(k) && d == 10 * b
      invariant k == -1 ==> b == 0 && d == 5
      invariant x - d < d && q * 10 + x == x0
      invariant !wrapped
      decreases b
    {
      NoWrap(x, d, q, b);
      if x >= d {
        wrapped := wrapped || x - d < 0 || q + b >= TWO_64;
        x := Sub(x, d);
        q := Add(q, b);
      }
      d := Shr(d);
      b := Shr(b);
      k := k - 1;
    }
    QuotientUnique(x0, 10, q, x);
  }

  lemma Pow2Sixty()
    ensures Pow2(60) == 0x1000_0000_0000_0000
  {
    assert Pow2(10) == 1024;
    assert Pow2(20) == 0x10_0000;
    assert Pow2(30) == 0x4000_0000;
    assert Pow2(40) == 0x100_0000_0000;
    assert Pow2(50) == 0x4_0000_0000_0000;
  }

  /** Quotient in q; what is left in the dividend is the remainder. A zero
      divisor gives a zero quotient and leaves the dividend alone. */
  method UllDiv(a0: Ull, b0: Ull) returns (q: Ull, a: Ull, ghost wrapped: bool)
    ensures b0 == 0 ==> q == 0 && a == a0
    ensures b0 > 0 ==> q == a0 / b0 && a == a0 % b0
    ensures !wrapped
  {
    a, wrapped := a0, false;
    if b0 == 0 {
      return 0, a, false;
    }
    var b: Ull, p: Ull := b0, 1;
    ghost var k: nat := 0;
    assert Pow2(1) == 2;
    while b < a && AsSigned(b) > 0
      invariant p == Doubled(1, k) && b == Doubled(b0, k) && p <= b && !wrapped
      decreases TWO_64 - b
    {
      wrapped := wrapped || 2 * b >= TWO_64 || 2 * p >= TWO_64;
      b := Shl(b, 1);
      p := Shl(p, 1);
      k := k + 1;
    }
    q, a, wrapped := SubtractDown(a0, b0, b, p, k);
  }

  function Doubled(x: nat, k: nat): (r: nat)
    ensures r >= x
  {
    if k == 0 then x else 2 * Doubled(x, k - 1)
  }

  lemma {:induction false} DoubledIsProduct(x: nat, k: nat)
    ensures Doubled(x, k) == Doubled(1, k) * x
  {
    if k > 0 {
      DoubledIsProduct(x, k - 1);
    }
  }

  /** The part of the dividend accounted for by quotient q. */
  function Covered(q: nat, b: nat): (r: nat) {
    if q == 0 then 0 else Covered(q - 1, b) + b
  }

  lemma {:induction false} CoveredIsProduct(q: nat, b: nat)
    ensures Covered(q, b) == q * b
    ensures b > 0 ==> q <= Covered(q, b)
  {
    if q > 0 {
      CoveredIsProduct(q - 1, b);
    }
  }

  lemma QuotientStep(q: nat, p: nat, b: nat, k: nat)
    requires p == Doubled(1, k) && b > 0
    ensures Covered(q + p, b) == Covered(q, b) + Doubled(b, k)
    ensures q + p <= Covered(q + p, b)
  {
    CoveredIsProduct(q, b);
    CoveredIsProduct(q + p, b);
    DoubledIsProduct(b, k);
    Distributes(q, p, b);
    hide Covered, Doubled;
  }

  lemma Distributes(x: int, y: int, b: int)
    ensures (x + y) * b == x * b + y * b
  {
  }

  /** The second loop: subtract the shifted divisor wherever it fits, shifting it
      back down. */
  method SubtractDown(a0: Ull, b0: Ull, top: Ull, bit: Ull, ghost k0: nat)
      returns (q: Ull, a: Ull, ghost wrapped: bool)
    requires b0 > 0 && bit == Doubled(1, k0) && top == Doubled(b0, k0) && a0 - top < top
    ensures q == a0 / b0 && a == a0 % b0
    ensures !wrapped
  {
    var b: Ull, p: Ull := top, bit;
    ghost var k: int := k0;
    q, a, wrapped := 0, a0, false;
    hide Add, Sub;
    while p > 0
      invariant -1 <= k
      invariant k >= 0 ==> p == Doubled(1, k) && b == Doubled(b0, k) && a - b < b
      invariant k == -1 ==> p == 0 && a < b0
      invariant Covered(q, b0) + a == a0
      invariant !wrapped
      decreases p
    {
      NoWrap(a, b, q, p);
      if a >= b {
        QuotientStep(q, p, b0, k);
        wrapped := wrapped || a - b < 0 || q + p >= TWO_64;
        a := Sub(a, b);
        q := Add(q, p);
      }
      if k > 0 {
        assert b == 2 * Doubled(b0, k - 1) && p == 2 * Doubled(1, k - 1);
      }
      b := Shr(b);
      p := Shr(p);
      k := k - 1;
    }
    CoveredIsProduct(q, b0);
    QuotientUnique(a0, b0, q, a);
  }

  lemma QuotientUnique(a: nat, b: nat, q: nat, r: nat)
    requires b > 0 && a == q * b + r && r < b
    ensures q == a / b && r == a % b
  {
    var q', r' := a / b, a % b;
    assert a == q' * b + r';
    MulMonotone(q + 1, q', b);
    MulMonotone(q' + 1, q, b);
    assert (q + 1) * b == q * b + b && (q' + 1) * b == q' * b + b;
  }

  // --- decimal text -----------------------------------------------------------

  function Digit(d: nat): (r: char)
    requires d < 10
  {
    '0' + d as char
  }

  /** The canonical decimal digits of n. */
  function Digits(n: nat): (s: string)
    ensures |s| >= 1
  {
    if n < 10 then [Digit(n)] else Digits(n / 10) + [Digit(n % 10)]
  }

  function Decimal(v: int): (r: string) {
    if v < 0 then "-" + Digits(-v) else Digits(v)
  }

  /** The value of a string of digits, most significant first. */
  function ParseDigits(s: string): (r: int) {
    if s == "" then 0 else 10 * ParseDigits(s[..|s| - 1]) + (s[|s| - 1] as int - '0' as int)
  }

  function Parse(s: string): (r: int) {
    if s != "" && s[0] == '-' then -ParseDigits(s[1..]) else ParseDigits(s)
  }

  lemma {:induction false} DigitsCanonical(n: nat)
    ensures ParseDigits(Digits(n)) == n
    ensures forall i | 0 <= i < |Digits(n)| :: '0' <= Digits(n)[i] <= '9'
    ensures Digits(n)[0] == '0' <==> n == 0
    ensures n == 0 ==> Digits(n) == "0"
  {
    var s := Digits(n);
    if n < 10 {
      assert s[..0] == "";
    } else {
      DigitsCanonical(n / 10);
      assert s[..|s| - 1] == Digits(n / 10);
    }
  }

  /** Reading the printed text back gives the number; there is no leading zero
      except in "0" itself, and never "-0". */
  lemma DecimalCanonical(v: int)
    ensures Parse(Decimal(v)) == v
    ensures Decimal(v) != "-0"
    ensures var digits := if v < 0 then Decimal(v)[1..] else Decimal(v);
            (digits[0] == '0' ==> digits == "0") && (forall c <- digits :: '0' <= c <= '9')
  {
    if v < 0 {
      DigitsCanonical(-v);
      assert Decimal(v)[1..] == Digits(-v);
    } else {
      DigitsCanonical(v);
    }
  }

  /** Exactly w digits, with leading zeros. */
  function Fixed(n: nat, w: nat): (s: string)
    ensures |s| == w
  {
    if w == 0 then "" else Fixed(n / 10, w - 1) + [Digit(n % 10)]
  }

  function Pow10(w: nat): (r: nat) {
    if w == 0 then 1 else 10 * Pow10(w - 1)
  }

  lemma {:induction false} FixedZero(w: nat)
    ensures Fixed(0, w) == seq(w, _ => '0')
  {
    if w > 0 {
      FixedZero(w - 1);
    }
  }

  /** Fixed-width digits are the canonical ones behind zeros. */
  lemma {:induction false} FixedStrip(n: nat, w: nat)
    requires w >= 1 && n < Pow10(w)
    ensures |Digits(n)| <= w && Fixed(n, w) == seq(w - |Digits(n)|, _ => '0') + Digits(n)
    decreases n
  {
    if n < 10 {
      FixedZero(w - 1);
    } else {
      assert w >= 2 by { assert Pow10(1) == 10; }
      FixedStrip(n / 10, w - 1);
    }
  }

  lemma Pow10TwentyTwo()
    ensures TWO_64 <= Pow10(22)
  {
    assert Pow10(8) == 100000000;
    assert Pow10(16) == 10000000000000000;
    assert Pow10(22) == 10000000000000000000000;
  }

  /** Writes v in decimal, NUL-terminated, into a buffer of at least 24 characters,
      and touches no more than the first 24 of them. */
  method LongLongToDecStr(buf: array<char>, v: LongLong)
    requires buf.Length >= 24
    modifies buf
    ensures |Decimal(v)| <= 23 && buf[..|Decimal(v)| + 1] == Decimal(v) + ['\0']
    ensures buf[24..] == old(buf[24..])
  {
    Pow10TwentyTwo();
    hide Digits, Pow10;
    if v < 0 {
      buf[0] := '-';
      var a := AsUnsigned(-(v as int));
      assert a == -(v as int);
      WriteDigits(buf, 1, a, 22);
      assert buf[..1] == "-";
      assert buf[..|Digits(a)| + 2] == buf[..1] + buf[1..|Digits(a)| + 2];
    } else {
      WriteDigits(buf, 0, v, 22);
    }
  }

  /** What follows the sign: `width` digits with leading zeros, then the zeros
      removed in place. */
  method WriteDigits(buf: array<char>, base: nat, a: Ull, width: nat)
    requires width >= 1 && base + width < buf.Length && a < Pow10(width)
    modifies buf
    ensures |Digits(a)| <= width
    ensures buf[base..base + |Digits(a)| + 1] == Digits(a) + ['\0']
    ensures forall i | 0 <= i < base || base + width < i < buf.Length :: buf[i] == old(buf[i])
  {
    hide Digits, ParseDigits, Fixed, Pow10;
    ghost var digits := Digits(a);
    FixedStrip(a, width);
    WriteFixed(buf, base, a, width);
    DigitsCanonical(a);
    var cp := SkipZeros(buf, base, width, digits);
    MoveDigits(buf, base, cp, base + width, digits);
  }

  method MoveDigits(buf: array<char>, base: nat, cp: nat, end: nat, ghost digits: string)
    requires base <= cp <= end < buf.Length && |digits| == end - cp
    requires buf[cp..end] == digits && buf[end] == '\0' && '\0' !in digits
    modifies buf
    ensures buf[base..base + |digits| + 1] == digits + ['\0']
    ensures forall i | 0 <= i < base || end < i < buf.Length :: buf[i] == old(buf[i])
  {
    ghost var was := buf[..];
    assert forall i | cp <= i < end :: buf[i] == was[i] == buf[cp..end][i - cp] == digits[i - cp];
    CopyDown(buf, base, cp, end);
    assert forall i | base <= i < base + |digits| :: buf[i] == was[i + (cp - base)] == digits[i - base];
  }

  /** The digit loop: least significant digit last, then the terminator. */
  method WriteFixed(buf: array<char>, base: nat, a0: Ull, width: nat)
    requires base + width < buf.Length
    modifies buf
    ensures forall i | 0 <= i < base || base + width < i < buf.Length :: buf[i] == old(buf[i])
    ensures buf[base..base + width] == Fixed(a0, width) && buf[base + width] == '\0'
  {
    var a: Ull := a0;
    var n := width - 1;
    ghost var text := Fixed(a0, width);
    hide Fixed, MulTen, Sub, Digit;
    while n >= 0
      invariant -1 <= n < width && text[..n + 1] == Fixed(a, n + 1)
      invariant forall i | n < i < width :: buf[base + i] == text[i]
      invariant forall i | 0 <= i < base || base + width < i < buf.Length :: buf[i] == old(buf[i])
    {
      var b, _ := DivTen(a);
      LastDigit(a, b);
      FixedLast(a, b, n);
      assert text[n] == text[..n + 1][n] && text[..n] == text[..n + 1][..n];
      buf[base + n] := Digit(Sub(a, MulTen(b)));
      a := b;
      n := n - 1;
    }
    buf[base + width] := '\0';
  }

  lemma FixedLast(a: nat, b: nat, n: nat)
    requires b == a / 10
    ensures Fixed(a, n + 1)[n] == Digit(a % 10) && Fixed(a, n + 1)[..n] == Fixed(b, n)
  {
  }

  lemma LastDigit(a: Ull, b: Ull)
    requires b == a / 10
    ensures Sub(a, MulTen(b)) == a % 10
  {
    MulTenExact(b);
  }

  /** The position of the first digit to keep: the last zero if there are only zeros. */
  method SkipZeros(buf: array<char>, base: nat, width: nat, ghost digits: string) returns (cp: nat)
    requires base + width < buf.Length && 1 <= |digits| <= width
    requires buf[base..base + width] == seq(width - |digits|, _ => '0') + digits
    requires buf[base + width] == '\0' && digits[0] != '\0'
    requires digits[0] == '0' ==> digits == "0"
    ensures cp == base + width - |digits| && buf[cp..base + width] == digits
  {
    ghost var first := base + width - |digits|;
    assert forall i | base <= i < first :: buf[i] == buf[base..base + width][i - base] == '0';
    assert buf[first] == buf[base..base + width][first - base] == digits[0];
    cp := base;
    while buf[cp] == '0'
      invariant base <= cp <= base + width
      invariant digits[0] != '0' ==> cp <= first
      decreases base + width - cp
    {
      cp := cp + 1;
    }
    assert cp >= first;
    if buf[cp] == '\0' {
      assert digits[0] == '0';
      cp := cp - 1;
    }
  }

  /** Moves the NUL-terminated text at `src` down to `dst`; the two may overlap. */
  method CopyDown(buf: array<char>, dst: nat, src: nat, end: nat)
    requires dst <= src <= end < buf.Length
    requires buf[end] == '\0' && forall i | src <= i < end :: buf[i] != '\0'
    modifies buf
    ensures forall i | dst <= i <= dst + (end - src) :: buf[i] == old(buf[..])[i + (src - dst)]
    ensures forall i | 0 <= i < dst || dst + (end - src) < i < buf.Length :: buf[i] == old(buf[i])
  {
    ghost var was := buf[..];
    var cp1, cp := dst, src;
    var c := MoveOne(buf, cp1, cp);
    cp1, cp := cp1 + 1, cp + 1;
    while c != '\0'
      invariant dst < cp1 <= cp <= end + 1 && cp - cp1 == src - dst
      invariant c == was[cp - 1] && (c == '\0' ==> cp == end + 1)
      invariant forall i | dst <= i < cp1 :: buf[i] == was[i + (src - dst)]
      invariant forall i | 0 <= i < dst || cp1 <= i < buf.Length :: buf[i] == was[i]
      decreases end + 1 - cp
    {
      c := MoveOne(buf, cp1, cp);
      cp1, cp := cp1 + 1, cp + 1;
    }
  }

  /** *cp1 = *cp, which is also the value tested. */
  method MoveOne(buf: array<char>, cp1: nat, cp: nat) returns (c: char)
    requires cp1 <= cp < buf.Length
    modifies buf
    ensures c == old(buf[cp]) && buf[cp1] == c
    ensures forall i | 0 <= i < buf.Length && i != cp1 :: buf[i] == old(buf[i])
  {
    c := buf[cp];
    buf[cp1] := c;
  }
}
