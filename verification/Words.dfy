/** Machine words as natural numbers: bits, bitwise operators, shifts and little-endian bytes.

    The compiler and the register code work on uint16_t, uint64_t and 48-bit fields.  A word is a
    natural number here and every width is written out (`% TWO64`, `% TWO48`); a bit is read by
    halving, so facts about bitwise operators are inductions over the position of the bit. */
module Words {

  type byte = x: int | 0 <= x < 256

  const TWO16: nat := 0x1_0000
  const TWO48: nat := 0x1_0000_0000_0000
  const TWO63: nat := 0x8000_0000_0000_0000
  const TWO64: nat := 0x1_0000_0000_0000_0000

  type u16 = x: int | 0 <= x < TWO16
  type u32 = x: int | 0 <= x < 0x1_0000_0000
  type u64 = x: int | 0 <= x < TWO64

  function Pow2(n: nat): (r: nat)
    ensures r > 0
  {
    if n == 0 then 1 else 2 * Pow2(n - 1)
  }

  lemma Pow2Constants()
    ensures Pow2(16) == TWO16 && Pow2(28) == 268435456 && Pow2(38) == 0x40_0000_0000
    ensures Pow2(48) == TWO48 && Pow2(64) == TWO64
  {
    assert Pow2(8) == 256;
    Pow2Add(8, 8);
    Pow2Add(16, 16);
    Pow2Add(16, 12);
    assert Pow2(12) == 4096;
    Pow2Add(32, 16);
    Pow2Add(32, 32);
    Pow2Add(16, 22);
    Pow2Add(16, 6);
    assert Pow2(6) == 64;
  }

  lemma {:induction false} Pow2Add(m: nat, n: nat)
    ensures Pow2(m + n) == Pow2(m) * Pow2(n)
  {
    if m != 0 {
      Pow2Add(m - 1, n);
      assert Pow2(m + n) == 2 * Pow2(m - 1 + n);
    }
  }

  // ----- Bits -----

  /** Bit i of x, counting from the least significant one. */
  predicate Bit(x: nat, i: nat) {
    if i == 0 then x % 2 == 1 else Bit(x / 2, i - 1)
  }

  function And(x: nat, y: nat): (r: nat)
    ensures r <= x && r <= y
  {
    if x == 0 || y == 0 then 0 else 2 * And(x / 2, y / 2) + (x % 2) * (y % 2)
  }

  function Or(x: nat, y: nat): nat
    decreases x + y
  {
    if x == 0 && y == 0 then 0
    else 2 * Or(x / 2, y / 2) + (if x % 2 == 1 || y % 2 == 1 then 1 else 0)
  }

  /** `~x` on uint64_t. */
  function Not64(x: u64): u64 {
    TWO64 - 1 - x
  }

  /** `x << s` on uint64_t. */
  function Shl64(x: nat, s: nat): u64 {
    x * Pow2(s) % TWO64
  }

  lemma {:induction false} ZeroHasNoBits(i: nat)
    ensures !Bit(0, i)
  {
    if i != 0 { ZeroHasNoBits(i - 1); }
  }

  lemma {:induction false} AndBit(x: nat, y: nat, i: nat)
    ensures Bit(And(x, y), i) <==> Bit(x, i) && Bit(y, i)
  {
    if x == 0 || y == 0 {
      ZeroHasNoBits(i);
    } else {
      assert (x % 2) * (y % 2) == if x % 2 == 1 && y % 2 == 1 then 1 else 0;
      if i != 0 { AndBit(x / 2, y / 2, i - 1); }
    }
  }

  lemma AndOfDouble(x: nat, y: nat)
    ensures And(x, 2 * y) == 2 * And(x / 2, y)
  {
  }

  lemma AndOfSuccessor(x: nat, y: nat)
    ensures And(x, 2 * y + 1) == 2 * And(x / 2, y) + x % 2
  {
  }

  lemma AndOfNone(x: nat)
    ensures And(x, 0) == 0
  {
  }

  /** The high bit and four low bits, the rest masked out. */
  lemma AndOfShifts(x: nat, y: nat)
    ensures And(x, 16 * y) == 16 * And(x / 16, y)
    ensures And(x, 16 * y + 15) == 16 * And(x / 16, y) + x % 16
  {
    hide And;
    AndOfDouble(x, 8 * y);
    AndOfDouble(x / 2, 4 * y);
    AndOfDouble(x / 4, 2 * y);
    AndOfDouble(x / 8, y);
    AndOfSuccessor(x, 8 * y + 7);
    AndOfSuccessor(x / 2, 4 * y + 3);
    AndOfSuccessor(x / 4, 2 * y + 1);
    AndOfSuccessor(x / 8, y);
    assert x / 2 / 2 == x / 4 && x / 4 / 2 == x / 8 && x / 8 / 2 == x / 16;
  }

  lemma {:induction false} OrBit(x: nat, y: nat, i: nat)
    ensures Bit(Or(x, y), i) <==> Bit(x, i) || Bit(y, i)
  {
    if x == 0 && y == 0 {
      ZeroHasNoBits(i);
    } else if i != 0 {
      OrBit(x / 2, y / 2, i - 1);
    }
  }

  lemma {:induction false} OrBounded(x: nat, y: nat, n: nat)
    requires x < Pow2(n) && y < Pow2(n)
    ensures Or(x, y) < Pow2(n)
  {
    if n != 0 && (x != 0 || y != 0) {
      OrBounded(x / 2, y / 2, n - 1);
    }
  }

  lemma {:induction false} ComplementBit(x: nat, n: nat, i: nat)
    requires x < Pow2(n) && i < n
    ensures Bit((Pow2(n) - 1 - x) as nat, i) <==> !Bit(x, i)
  {
    if i != 0 {
      ComplementBit(x / 2, n - 1, i - 1);
      assert (Pow2(n) - 1 - x) / 2 == Pow2(n - 1) - 1 - x / 2;
    }
  }

  lemma Not64Bit(x: u64, i: nat)
    requires i < 64
    ensures Bit(Not64(x), i) <==> !Bit(x, i)
  {
    Pow2Constants();
    ComplementBit(x, 64, i);
  }

  lemma {:induction false} TimesPow2Bit(x: nat, s: nat, i: nat)
    ensures Bit(x * Pow2(s), i) <==> i >= s && Bit(x, i - s)
  {
    if s != 0 {
      assert x * Pow2(s) == 2 * (x * Pow2(s - 1));
      if i != 0 { TimesPow2Bit(x, s - 1, i - 1); }
    }
  }

  lemma {:induction false} TruncationBit(x: nat, n: nat, i: nat)
    ensures Bit(x % Pow2(n), i) <==> i < n && Bit(x, i)
  {
    if n == 0 {
      ZeroHasNoBits(i);
    } else {
      HalveTruncation(x, n);
      if i != 0 { TruncationBit(x / 2, n - 1, i - 1); }
    }
  }

  lemma HalveTruncation(x: nat, n: nat)
    requires n > 0
    ensures (x % Pow2(n)) / 2 == (x / 2) % Pow2(n - 1) && (x % Pow2(n)) % 2 == x % 2
  {
    var p := Pow2(n - 1);
    var q, r := x / 2 / p, x / 2 % p;
    assert x == 2 * (q * p + r) + x % 2;
    assert x == q * (2 * p) + (2 * r + x % 2) by { assert 2 * (q * p) == q * (2 * p); }
    DivModUnique(x, 2 * p, q, 2 * r + x % 2);
  }

  lemma MultipleIsFar(d: int, m: int)
    requires d != 0 && m >= 0
    ensures d * m >= m || d * m <= -m
  {
    if d >= 1 {
      assert (d - 1) * m >= 0;
    } else {
      assert (-1 - d) * m >= 0;
    }
  }

  lemma DivModUnique(x: int, m: int, q: int, r: int)
    requires m > 0 && 0 <= r < m && x == q * m + r
    ensures x / m == q && x % m == r
  {
    var q', r' := x / m, x % m;
    assert x == q' * m + r';
    assert (q' - q) * m == r - r';
    if q' != q { MultipleIsFar(q' - q, m); }
  }

  lemma Shl64Bit(x: nat, s: nat, i: nat)
    requires i < 64
    ensures Bit(Shl64(x, s), i) <==> i >= s && Bit(x, i - s)
  {
    Pow2Constants();
    hide Bit, Pow2;
    TruncationBit(x * Pow2(s), 64, i);
    TimesPow2Bit(x, s, i);
  }

  lemma {:induction false} SingleBit(s: nat, i: nat)
    ensures Bit(Pow2(s), i) <==> i == s
  {
    if s == 0 {
      if i != 0 { ZeroHasNoBits(i - 1); }
    } else if i != 0 {
      SingleBit(s - 1, i - 1);
    }
  }

  /** Two numbers below 2^n with the same low n bits are equal. */
  lemma {:induction false} BitsDetermine(x: nat, y: nat, n: nat)
    requires x < Pow2(n) && y < Pow2(n)
    requires forall i: nat | i < n :: Bit(x, i) <==> Bit(y, i)
    ensures x == y
  {
    if n != 0 {
      assert Bit(x, 0) <==> Bit(y, 0);
      forall i: nat | i < n - 1 ensures Bit(x / 2, i) <==> Bit(y / 2, i) {
        assert Bit(x, i + 1) <==> Bit(y, i + 1);
      }
      BitsDetermine(x / 2, y / 2, n - 1);
    }
  }

  lemma Pow2Monotonic(m: nat, n: nat)
    requires m <= n
    ensures Pow2(m) <= Pow2(n)
  {
    Pow2Add(m, n - m);
    assert Pow2(m) * Pow2(n - m) >= Pow2(m) * 1;
  }

  // ----- Little-endian bytes -----

  function LittleEndian(x: nat, n: nat): (r: seq<byte>)
    ensures |r| == n
  {
    if n == 0 then [] else [x % 256] + LittleEndian(x / 256, n - 1)
  }

  function FromLittleEndian(b: seq<byte>): nat {
    if b == [] then 0 else b[0] + 256 * FromLittleEndian(b[1..])
  }

  /** Reading back n little-endian bytes gives the number modulo 256^n. */
  lemma {:induction false} LittleEndianRoundTrip(x: nat, n: nat)
    ensures FromLittleEndian(LittleEndian(x, n)) == x % Pow2(8 * n)
  {
    if n != 0 {
      LittleEndianRoundTrip(x / 256, n - 1);
      Pow2Add(8, 8 * (n - 1));
      assert Pow2(8) == 256;
      TruncateLowByte(x, Pow2(8 * (n - 1)));
    }
  }

  lemma TruncateLowByte(x: nat, p: nat)
    requires p > 0
    ensures x % (256 * p) == x % 256 + 256 * (x / 256 % p)
  {
    var q, r := x / 256 / p, x / 256 % p;
    assert x / 256 == q * p + r;
    assert x == q * (256 * p) + (256 * r + x % 256) by { assert 256 * (q * p) == q * (256 * p); }
    DivModUnique(x, 256 * p, q, 256 * r + x % 256);
  }

  /** The first m bytes are the number's low bytes, the others the rest of the number. */
  lemma {:induction false} LittleEndianSplit(x: nat, m: nat, n: nat, y: nat)
    requires y == x / Pow2(8 * m)
    ensures LittleEndian(x, m + n) == LittleEndian(x, m) + LittleEndian(y, n)
    decreases m
  {
    hide Pow2;
    ShiftBytes(x, m);
    if m != 0 {
      hide LittleEndian;
      LittleEndianSplit(x / 256, m - 1, n, y);
      LittleEndianCons(x, m + n);
      LittleEndianCons(x, m);
    } else {
      assert [] + LittleEndian(x, n) == LittleEndian(x, n);
    }
  }

  lemma LittleEndianCons(x: nat, n: nat)
    requires n > 0
    ensures LittleEndian(x, n) == [x % 256] + LittleEndian(x / 256, n - 1)
  {
  }

  lemma ShiftBytes(x: nat, m: nat)
    ensures m == 0 ==> x / Pow2(8 * m) == x
    ensures m > 0 ==> x / Pow2(8 * m) == x / 256 / Pow2(8 * (m - 1))
  {
    if m != 0 {
      Pow2Add(8, 8 * (m - 1));
      assert Pow2(8) == 256;
      DivideTwice(x, 256, Pow2(8 * (m - 1)));
    } else {
      DivModUnique(x, 1, x, 0);
    }
  }

  lemma DivideTwice(x: nat, a: nat, b: nat)
    requires 0 < a && 0 < b
    ensures x / a / b == x / (a * b)
  {
    var q, r := x / a / b, x / a % b;
    assert x / a == q * b + r;
    assert x == a * (x / a) + x % a;
    Distribute(a, q, b, r);
    DivModUnique(x, a * b, q, a * r + x % a);
  }

  lemma Distribute(a: nat, q: nat, b: nat, r: nat)
    requires r < b
    ensures a * (q * b + r) == q * (a * b) + a * r
    ensures a * r + a <= a * b
  {
    assert a * (q * b + r) == a * (q * b) + a * r;
    assert a * (q * b) == q * (a * b);
    assert a * (b - 1 - r) >= 0;
  }

  lemma {:induction false} FromLittleEndianAppend(a: seq<byte>, b: seq<byte>)
    ensures FromLittleEndian(a + b) == FromLittleEndian(a) + Pow2(8 * |a|) * FromLittleEndian(b)
  {
    if a == [] {
      assert a + b == b;
    } else {
      assert Pow2(8) == 256;
      hide Pow2;
      assert (a + b)[1..] == a[1..] + b;
      FromLittleEndianAppend(a[1..], b);
      Pow2Add(8, 8 * |a[1..]|);
      HornerStep(FromLittleEndian(a[1..]), Pow2(8 * |a[1..]|), FromLittleEndian(b), Pow2(8 * |a|));
    }
  }

  lemma HornerStep(x: nat, p: nat, v: nat, q: nat)
    requires q == 256 * p
    ensures 256 * (x + p * v) == 256 * x + q * v
  {
  }
}
