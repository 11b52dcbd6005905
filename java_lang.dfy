/**
 * The parts of the Java platform the CSV binder leans on: fixed-width
 * two's-complement integers and their narrowing conversions, `java.util.Date`
 * as a millisecond count, and the platform hash codes of `String` and `Date`.
 */
module JavaLang {

  type Int8 = x: int | -0x80 <= x < 0x80
  type Int16 = x: int | -0x8000 <= x < 0x8000
  type Int32 = x: int | -0x8000_0000 <= x < 0x8000_0000
  type Int64 = x: int | -0x8000_0000_0000_0000 <= x < 0x8000_0000_0000_0000

  /** The widths of Java's integral types byte, short, int and long. */
  datatype Width = W8 | W16 | W32 | W64

  function Modulus(w: Width): (m: int)
    ensures m >= 0x100
  {
    match w
    case W8 => 0x100
    case W16 => 0x1_0000
    case W32 => 0x1_0000_0000
    case W64 => 0x1_0000_0000_0000_0000
  }

  function MinOf(w: Width): int {
    -(Modulus(w) / 2)
  }

  function MaxOf(w: Width): int {
    Modulus(w) / 2 - 1
  }

  predicate InRange(x: int, w: Width) {
    MinOf(w) <= x <= MaxOf(w)
  }

  /**
   * Java's narrowing primitive conversion between integral types: keep the
   * low bits of `x` and read them as a signed number of width `w`.
   */
  function Narrow(x: int, w: Width): (r: int)
    ensures InRange(r, w)
    ensures (x - r) % Modulus(w) == 0
    ensures InRange(x, w) ==> r == x
  {
    match w
    case W8 => Wrap(x, 0x100, 0x80)
    case W16 => Wrap(x, 0x1_0000, 0x8000)
    case W32 => Wrap(x, 0x1_0000_0000, 0x8000_0000)
    case W64 => Wrap(x, 0x1_0000_0000_0000_0000, 0x8000_0000_0000_0000)
  }

  /** Shift by half the modulus `m`, reduce, and shift back. */
  function Wrap(x: int, m: int, h: int): (r: int)
    requires h > 0 && m == 2 * h
    ensures -h <= r < h && (x - r) % m == 0 && (-h <= x < h ==> r == x)
  {
    WrapLaws(x, m, h);
    (x + h) % m - h
  }

  /** Shifting by half the modulus, reducing and shifting back lands in the
      signed window, differs from `x` by a multiple of `m`, and fixes the window. */
  lemma WrapLaws(x: int, m: int, h: int)
    requires h > 0 && m == 2 * h
    ensures var r := (x + h) % m - h;
            -h <= r < h && (x - r) % m == 0 && (-h <= x < h ==> r == x)
  {
    var q := (x + h) / m;
    var r0 := (x + h) % m;
    assert x + h == m * q + r0 && 0 <= r0 < m;
    var r := r0 - h;
    MultipleMod(x - r, q, m);
    if -h <= x < h {
      ModUnique(x + h, m, 0, x + h);
    }
  }

  /** `Narrow` for any width, with the modulus left symbolic. */
  lemma NarrowDef(x: int, w: Width)
    ensures Narrow(x, w) == (x + Modulus(w) / 2) % Modulus(w) - Modulus(w) / 2
  {
  }

  /** Two numbers that agree modulo 2^width narrow to the same value. */
  lemma NarrowCongruent(x: int, y: int, w: Width)
    requires (x - y) % Modulus(w) == 0
    ensures Narrow(x, w) == Narrow(y, w)
  {
    var m := Modulus(w);
    var h := m / 2;
    var k := (x - y) / m;
    assert x - y == m * k + (x - y) % m;
    assert x + h == (y + h) + m * k;
    ModShift(y + h, k, m);
    NarrowDef(x, w);
    NarrowDef(y, w);
  }

  /** `m * q` is divisible by `m`. */
  lemma MultipleMod(d: int, q: int, m: int)
    requires m > 0 && d == m * q
    ensures d % m == 0
  {
    ModShift(0, q, m);
  }

  /** A multiple of `m` times anything is a multiple of `m`. */
  lemma MultipleScaled(d: int, c: int, m: int)
    requires m > 0 && d % m == 0
    ensures (c * d) % m == 0
  {
    var k := d / m;
    assert d == m * k + d % m;
    assert c * d == m * (c * k);
    MultipleMod(c * d, c * k, m);
  }

  lemma MulBounds(m: int, t: int)
    requires m > 0
    ensures t >= 1 ==> m * t >= m
    ensures t <= -1 ==> m * t <= -m
  {
    if t >= 1 {
      assert m * t == m + m * (t - 1);
      MulNonneg(m, t - 1);
    } else if t <= -1 {
      assert m * t == -m - m * (-t - 1);
      MulNonneg(m, -t - 1);
    }
  }
  lemma MulNonneg(a: int, b: int)
    requires a >= 0 && b >= 0
    ensures a * b >= 0
  {}
  lemma ModUnique(a: int, m: int, q: int, r: int)
    requires m > 0 && 0 <= r < m && a == m * q + r
    ensures a % m == r
  {
    var t := q - a / m;
    assert a == m * (a / m) + a % m;
    assert m * t == a % m - r;
    MulBounds(m, t);
  }
  lemma ModShift(a: int, k: int, m: int)
    requires m > 0
    ensures (a + m * k) % m == a % m
  {
    assert a == m * (a / m) + a % m;
    assert a + m * k == m * (a / m + k) + a % m;
    ModUnique(a + m * k, m, a / m + k, a % m);
  }

  /**
   * Narrowing is injective on a window of 2^width consecutive numbers: two
   * offsets of the same base that narrow alike are equal.
   */
  lemma {:induction false} NarrowOffsetInjective(c: int, a: Int32, b: Int32)
    requires Narrow(c + a, W32) == Narrow(c + b, W32)
    ensures a == b
  {
    var m := Modulus(W32);
    var ra := Narrow(c + a, W32);
    assert (c + a - ra) % m == 0;
    assert (c + b - ra) % m == 0;
    var ka := (c + a - ra) / m;
    var kb := (c + b - ra) / m;
    assert c + a - ra == m * ka;
    assert c + b - ra == m * kb;
    assert a - b == m * (ka - kb);
  }

  /**
   * Java's conversion of a floating-point value that has already been rounded
   * toward zero to `int` or `long`: values beyond the range stick to its ends.
   */
  function Saturate(x: int, w: Width): (r: int)
    ensures InRange(r, w)
    ensures InRange(x, w) ==> r == x
    ensures x < MinOf(w) ==> r == MinOf(w)
    ensures x > MaxOf(w) ==> r == MaxOf(w)
  {
    if x < MinOf(w) then MinOf(w) else if x > MaxOf(w) then MaxOf(w) else x
  }

  /** `java.util.Date`, which is a count of milliseconds since the epoch. */
  datatype Date = Date(millis: Int64)

  /** The bitwise exclusive or of the low `n` bits of `a` and `b`. */
  function BitXor(a: nat, b: nat, n: nat): nat {
    if n == 0 then 0
    else (if a % 2 != b % 2 then 1 else 0) + 2 * BitXor(a / 2, b / 2, n - 1)
  }

  /** 2^n. */
  function Pow2(n: nat): (r: nat)
    ensures r >= 1
  {
    if n == 0 then 1 else 2 * Pow2(n - 1)
  }

  /** 2^(a+b) = 2^a * 2^b. */
  lemma {:induction false} Pow2Add(a: nat, b: nat)
    ensures Pow2(a + b) == Pow2(a) * Pow2(b)
  {
    if a > 0 {
      Pow2Add(a - 1, b);
      assert Pow2(a + b) == 2 * Pow2(a - 1 + b);
    }
  }

  /** 2^32, the number of `int` values. */
  lemma Pow2Of32()
    ensures Pow2(32) == 0x1_0000_0000
  {
    assert Pow2(4) == 16;
    Pow2Add(4, 4);
    Pow2Add(8, 8);
    Pow2Add(16, 16);
  }

  /** Exclusive or with zero leaves a number of `n` bits alone. */
  lemma {:induction false} XorZero(a: nat, n: nat)
    requires a < Pow2(n)
    ensures BitXor(a, 0, n) == a
  {
    if n > 0 {
      XorZero(a / 2, n - 1);
    }
  }

  /** A time in [0, 2^32) is its own low 32 bits, has no high bits, and is
      left alone by an exclusive or with zero. */
  lemma LowTimeBits(m: int)
    requires 0 <= m < 0x1_0000_0000
    ensures m % 0x1_0000_0000_0000_0000 == m
    ensures m % 0x1_0000_0000 == m && m / 0x1_0000_0000 == 0
    ensures BitXor(m, 0, 32) == m
  {
    ModUnique(m, 0x1_0000_0000_0000_0000, 0, m);
    ModUnique(m, 0x1_0000_0000, 0, m);
    assert m == 0x1_0000_0000 * (m / 0x1_0000_0000) + m % 0x1_0000_0000;
    Pow2Of32();
    XorZero(m, 32);
  }

  /** `Date.hashCode()`: the low and the high 32 bits of the time XOR-ed. A
      time in [0, 2^32) has no high bits, and hashes to its own `(int)` cast. */
  function DateHash(d: Date): (h: Int32)
    ensures 0 <= d.millis < 0x1_0000_0000 ==> h == Narrow(d.millis, W32)
  {
    var u := d.millis % 0x1_0000_0000_0000_0000;
    var folded := Narrow(BitXor(u % 0x1_0000_0000, u / 0x1_0000_0000, 32), W32);
    if 0 <= d.millis < 0x1_0000_0000 then LowTimeBits(d.millis); folded else folded
  }

  /** Bit `k` of `x` in two's complement (halving is floor division). */
  predicate Bit(x: int, k: nat)
    decreases k
  {
    if k == 0 then x % 2 == 1 else Bit(x / 2, k - 1)
  }

  /** Each of the low `n` bits of `BitXor` is the exclusive or of the two bits. */
  lemma {:induction false} BitXorBit(a: nat, b: nat, n: nat, k: nat)
    requires k < n
    ensures Bit(BitXor(a, b, n), k) <==> Bit(a, k) != Bit(b, k)
  {
    var rest := BitXor(a / 2, b / 2, n - 1);
    assert BitXor(a, b, n) == (if a % 2 != b % 2 then 1 else 0) + 2 * rest;
    if k > 0 {
      assert BitXor(a, b, n) / 2 == rest;
      BitXorBit(a / 2, b / 2, n - 1, k - 1);
    }
  }

  /** `BitXor` of `n` bits is below 2^n. */
  lemma {:induction false} BitXorBound(a: nat, b: nat, n: nat)
    ensures BitXor(a, b, n) < Pow2(n)
  {
    if n > 0 {
      BitXorBound(a / 2, b / 2, n - 1);
    }
  }

  /** Reducing modulo `2 * q` keeps the low bit, and commutes with halving. */
  lemma HalfMod(u: nat, q: nat)
    requires q > 0
    ensures (u % (2 * q)) / 2 == (u / 2) % q
    ensures (u % (2 * q)) % 2 == u % 2
  {
    var a := u / (2 * q);
    var r := u % (2 * q);
    assert u == 2 * (q * a) + r;
    assert u / 2 == q * a + r / 2;
    ModUnique(u / 2, q, a, r / 2);
    ModShift(r, q * a, 2);
  }

  /** Dividing by `2 * q` is halving and then dividing by `q`. */
  lemma HalfDiv(u: nat, q: nat)
    requires q > 0
    ensures u / (2 * q) == (u / 2) / q
  {
    var a := (u / 2) / q;
    var r := (u / 2) % q;
    assert u / 2 == q * a + r;
    assert u == (2 * q) * a + (2 * r + u % 2);
    assert u / (2 * q) == a by {
      ModUnique(u, 2 * q, a, 2 * r + u % 2);
      assert u == (2 * q) * (u / (2 * q)) + u % (2 * q);
    }
  }

  /** The low `m` bits of `u` are the bits of `u % 2^m`. */
  lemma {:induction false} LowBits(u: nat, m: nat, k: nat)
    requires k < m
    ensures Bit(u % Pow2(m), k) <==> Bit(u, k)
  {
    HalfMod(u, Pow2(m - 1));
    if k > 0 {
      LowBits(u / 2, m - 1, k - 1);
    }
  }

  /** Bit `k` of `u / 2^m` is bit `k + m` of `u`. */
  lemma {:induction false} HighBits(u: nat, m: nat, k: nat)
    ensures Bit(u / Pow2(m), k) <==> Bit(u, k + m)
  {
    if m > 0 {
      HalfDiv(u, Pow2(m - 1));
      HighBits(u / 2, m - 1, k);
    }
  }

  /** For every time: bit `k` of the hash, as an unsigned 32-bit number, is
      bit `k` XOR bit `k + 32` of the time's 64-bit two's-complement pattern. */
  lemma DateHashBits(d: Date, k: nat)
    requires k < 32
    ensures var u := d.millis % 0x1_0000_0000_0000_0000;
            Bit(DateHash(d) % 0x1_0000_0000, k) <==> Bit(u, k) != Bit(u, k + 32)
  {
    var u := d.millis % 0x1_0000_0000_0000_0000;
    var lo := u % 0x1_0000_0000;
    var hi := u / 0x1_0000_0000;
    var x := BitXor(lo, hi, 32);
    var h := DateHash(d);
    Pow2Of32();
    BitXorBound(lo, hi, 32);
    assert h == Narrow(x, W32);
    var t := (x - h) / 0x1_0000_0000;
    assert x - h == 0x1_0000_0000 * t;
    ModUnique(h, 0x1_0000_0000, -t, x);
    BitXorBit(lo, hi, 32, k);
    LowBits(u, 32, k);
    HighBits(u, 32, k);
  }

  /** 31^n. */
  function Pow31(n: nat): int {
    if n == 0 then 1 else 31 * Pow31(n - 1)
  }

  /** The sum s[0]*31^(n-1) + s[1]*31^(n-2) + ... + s[n-1] of a string of length n. */
  function StringPoly(s: string): int {
    if |s| == 0 then 0 else s[0] as int * Pow31(|s| - 1) + StringPoly(s[1..])
  }

  /** Appending a character multiplies the sum by 31 and adds the character. */
  lemma {:induction false} StringPolyAppend(s: string, c: char)
    ensures StringPoly(s + [c]) == 31 * StringPoly(s) + c as int
  {
    if |s| > 0 {
      var t := s + [c];
      assert t[0] == s[0] && t[1..] == s[1..] + [c];
      StringPolyAppend(s[1..], c);
      var a, q := s[0] as int, Pow31(|s| - 1);
      assert Pow31(|t| - 1) == 31 * q;
      assert a * (31 * q) == 31 * (a * q);
    }
  }

  /** One step `h = 31 * h + c` on a wrapped value agrees with the step on the exact value, wrapped. */
  lemma HornerStep(r: int, exact: int, c: int)
    requires r == Narrow(exact, W32)
    ensures Narrow(31 * r + c, W32) == Narrow(31 * exact + c, W32)
  {
    MultipleScaled(exact - r, -31, Modulus(W32));
    assert (31 * r + c) - (31 * exact + c) == -31 * (exact - r);
    NarrowCongruent(31 * r + c, 31 * exact + c, W32);
  }

  /** `String.hashCode()`: `h = 31 * h + c` over the characters, in 32-bit
      arithmetic; that is the sum s[0]*31^(n-1) + ... + s[n-1] modulo 2^32. */
  function StringHash(s: string): (h: Int32)
    ensures h == Narrow(StringPoly(s), W32)
  {
    if |s| == 0 then 0
    else
      var front, c := s[..|s| - 1], s[|s| - 1];
      var h0 := StringHash(front);
      HornerStep(h0, StringPoly(front), c as int);
      StringPolyAppend(front, c);
      assert front + [c] == s;
      Narrow(31 * h0 + c as int, W32)
  }
}
