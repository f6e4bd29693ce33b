/** The bit operators of C on unsigned numbers, defined bit by bit, and the arithmetic they amount to. */
module BitOps {
  const WORD: nat := 0x1_0000_0000

  /** `a | b` */
  function Or(a: nat, b: nat): nat
    decreases a + b
  {
    if a == 0 then b
    else if b == 0 then a
    else 2 * Or(a / 2, b / 2) + if a % 2 == 1 || b % 2 == 1 then 1 else 0
  }

  /** `a & b` */
  function And(a: nat, b: nat): nat {
    if a == 0 || b == 0 then 0
    else 2 * And(a / 2, b / 2) + if a % 2 == 1 && b % 2 == 1 then 1 else 0
  }

  /** `a` with `n` zero bits behind it */
  function Shifted(a: nat, n: nat): nat {
    if n == 0 then a else 2 * Shifted(a, n - 1)
  }

  /** `a << n` on 32-bit words */
  function Shl(a: nat, n: nat): nat {
    Shifted(a, n) % WORD
  }

  /** `a >> n` */
  function Shr(a: nat, n: nat): nat
    decreases n
  {
    if n == 0 then a else Shr(a / 2, n - 1)
  }

  /** The number of `n`-bit words. */
  function Pow2(n: nat): nat {
    Shifted(1, n)
  }

  // ---- Bit by bit ----

  lemma OrBit(a: nat, b: nat, x: nat, y: nat)
    requires x < 2 && y < 2
    ensures Or(2 * a + x, 2 * b + y) == 2 * Or(a, b) + if x == 1 || y == 1 then 1 else 0
  {
    assert (2 * a + x) / 2 == a && (2 * b + y) / 2 == b;
  }

  lemma AndBit(a: nat, b: nat, x: nat, y: nat)
    requires x < 2 && y < 2
    ensures And(2 * a + x, 2 * b + y) == 2 * And(a, b) + if x == 1 && y == 1 then 1 else 0
  {
    assert (2 * a + x) / 2 == a && (2 * b + y) / 2 == b;
  }

  lemma OrStep(a: nat, b: nat, x: nat, y: nat, high: nat)
    requires Or(a + x / 2, b + y / 2) == high + Or(x / 2, y / 2)
    ensures Or(2 * a + x, 2 * b + y) == 2 * high + Or(x, y)
  {
    var p, q := x / 2, y / 2;
    assert x == 2 * p + x % 2 && y == 2 * q + y % 2;
    OrBit(a + p, b + q, x % 2, y % 2);
    OrBit(p, q, x % 2, y % 2);
  }

  /** High and low bits do not meet. */
  lemma {:induction false} OrSplit(a: nat, b: nat, n: nat, x: nat, y: nat)
    requires x < Pow2(n) && y < Pow2(n)
    ensures Or(Shifted(a, n) + x, Shifted(b, n) + y) == Shifted(Or(a, b), n) + Or(x, y)
    decreases n
  {
    if n > 0 {
      OrSplit(a, b, n - 1, x / 2, y / 2);
      OrStep(Shifted(a, n - 1), Shifted(b, n - 1), x, y, Shifted(Or(a, b), n - 1));
    }
  }

  lemma {:induction false} ZeroShifted(n: nat)
    ensures Shifted(0, n) == 0 && Pow2(n) >= 1
  {
    if n > 0 {
      ZeroShifted(n - 1);
    }
  }

  /** An OR of bits that do not overlap is an addition. */
  lemma OrIsPlus(a: nat, n: nat, x: nat)
    requires x < Pow2(n)
    ensures Or(Shifted(a, n), x) == Shifted(a, n) + x
  {
    ZeroShifted(n);
    OrSplit(a, 0, n, 0, x);
  }

  lemma OrOnto(h: nat, a: nat, n: nat, x: nat)
    requires h == Shifted(a, n) && x < Pow2(n)
    ensures Or(h, x) == h + x
  {
    OrIsPlus(a, n, x);
  }

  /** Bits that are all set swallow any others. */
  lemma {:induction false} OrFull(n: nat, x: nat)
    requires x < Pow2(n)
    ensures Or(Pow2(n) - 1, x) == Pow2(n) - 1
    decreases n
  {
    ZeroShifted(n);
    if n > 0 {
      ZeroShifted(n - 1);
      OrFull(n - 1, x / 2);
      OrBit(Pow2(n - 1) - 1, x / 2, 1, x % 2);
    }
  }

  /** A mask of low bits keeps them. */
  lemma {:induction false} AndOfMask(q: nat, n: nat, r: nat)
    requires r < Pow2(n)
    ensures And(Shifted(q, n) + r, Pow2(n) - 1) == r
    decreases n
  {
    if n > 0 {
      ZeroShifted(n - 1);
      AndOfMask(q, n - 1, r / 2);
      AndBit(Shifted(q, n - 1) + r / 2, Pow2(n - 1) - 1, r % 2, 1);
      assert r == 2 * (r / 2) + r % 2;
    }
  }

  /** A right shift drops the low bits. */
  lemma {:induction false} ShrOf(q: nat, n: nat, r: nat)
    requires r < Pow2(n)
    ensures Shr(Shifted(q, n) + r, n) == q
    decreases n
  {
    if n > 0 {
      ShrOf(q, n - 1, r / 2);
      assert (2 * Shifted(q, n - 1) + r) / 2 == Shifted(q, n - 1) + r / 2;
    }
  }

  lemma {:induction false} ShiftedAgain(a: nat, m: nat, n: nat)
    ensures Shifted(a, m + n) == Shifted(Shifted(a, m), n)
  {
    if n > 0 {
      ShiftedAgain(a, m, n - 1);
    }
  }

  // ---- The shifts and masks in use ----

  lemma ShiftedTwice(a: nat)
    ensures Shifted(a, 2) == 4 * a
  {
    assert Shifted(a, 1) == 2 * a;
  }

  lemma SmallShifts(a: nat)
    ensures Shifted(a, 4) == 0x10 * a && Shifted(a, 6) == 0x40 * a && Shifted(a, 8) == 0x100 * a
    ensures Shifted(a, 5) == 0x20 * a
  {
    ShiftedTwice(a);
    ShiftedTwice(4 * a);
    ShiftedTwice(0x10 * a);
    ShiftedTwice(0x40 * a);
    ShiftedAgain(a, 2, 2);
    ShiftedAgain(a, 4, 2);
    ShiftedAgain(a, 6, 2);
    assert Shifted(a, 5) == 2 * Shifted(a, 4);
  }

  /** A left shift is a multiplication as long as no bit is shifted out. */
  lemma ShlIsProduct(a: nat)
    requires 0x10 * a < WORD
    ensures Shl(a, 4) == Shifted(a, 4) == 0x10 * a
  {
    SmallShifts(a);
  }

  /** Left shifts are multiplications. */
  lemma LargeShifts(a: nat)
    ensures Shifted(a, 12) == 0x1000 * a && Shifted(a, 16) == 0x1_0000 * a
    ensures Shifted(a, 18) == 0x4_0000 * a && Shifted(a, 24) == 0x100_0000 * a
  {
    SmallShifts(a);
    SmallShifts(0x40 * a);
    SmallShifts(0x1000 * a);
    SmallShifts(0x100 * a);
    SmallShifts(0x1_0000 * a);
    ShiftedAgain(a, 6, 6);
    ShiftedAgain(a, 12, 6);
    ShiftedAgain(a, 8, 8);
    ShiftedAgain(a, 16, 8);
  }

  lemma SmallQuotients(a: nat)
    ensures Shr(a, 6) == a / 0x40 && Shr(a, 8) == a / 0x100
  {
    SmallShifts(1);
    SmallShifts(a / 0x40);
    SmallShifts(a / 0x100);
    ShrOf(a / 0x40, 6, a % 0x40);
    ShrOf(a / 0x100, 8, a % 0x100);
  }

  lemma SexticQuotients(a: nat)
    ensures Shr(a, 12) == a / 0x1000 && Shr(a, 18) == a / 0x4_0000
  {
    LargeShifts(1);
    LargeShifts(a / 0x1000);
    LargeShifts(a / 0x4_0000);
    ShrOf(a / 0x1000, 12, a % 0x1000);
    ShrOf(a / 0x4_0000, 18, a % 0x4_0000);
  }

  lemma ByteQuotients(a: nat)
    ensures Shr(a, 16) == a / 0x1_0000 && Shr(a, 24) == a / 0x100_0000
  {
    LargeShifts(1);
    LargeShifts(a / 0x1_0000);
    LargeShifts(a / 0x100_0000);
    ShrOf(a / 0x1_0000, 16, a % 0x1_0000);
    ShrOf(a / 0x100_0000, 24, a % 0x100_0000);
  }

  /** The right shifts of the program are divisions. */
  lemma ShrIsQuotient(a: nat)
    ensures Shr(a, 6) == a / 0x40 && Shr(a, 12) == a / 0x1000 && Shr(a, 18) == a / 0x4_0000
    ensures Shr(a, 8) == a / 0x100 && Shr(a, 16) == a / 0x1_0000 && Shr(a, 24) == a / 0x100_0000
  {
    SmallQuotients(a);
    SexticQuotients(a);
    ByteQuotients(a);
  }

  /** Masks of low bits keep remainders. */
  lemma Mask6(a: nat)
    ensures And(a, 0x3F) == a % 0x40
  {
    SmallShifts(a / 0x40);
    assert Pow2(6) == 0x40;
    AndOfMask(a / 0x40, 6, a % 0x40);
  }

  lemma Mask8(a: nat)
    ensures And(a, 0xFF) == a % 0x100
  {
    SmallShifts(a / 0x100);
    assert Pow2(8) == 0x100;
    AndOfMask(a / 0x100, 8, a % 0x100);
  }

  lemma LeadNibble(k: nat, h: nat, l: nat)
    requires h < 0x10 && l < 0x10
    ensures Or(0xF0, 0x10 * (0x10 * k + h) + l) == 0x100 * k + (0xF0 + l)
  {
    SmallShifts(1);
    SmallShifts(0xF);
    SmallShifts(h);
    SmallShifts(k);
    SmallShifts(0);
    OrSplit(0, k, 8, 0xF0, 0x10 * h + l);
    OrSplit(0xF, h, 4, 0, l);
    OrFull(4, h);
  }

  lemma LowByte(k: nat, c: nat)
    requires c < 0x100
    ensures (0x100 * k + c) % 0x100 == c
  {
  }

  /** The low byte of `0xF0 | v`, whatever `v`. */
  lemma LowByteOfLead(v: nat)
    ensures Or(0xF0, v) % 0x100 == 0xF0 + v % 0x10
  {
    var q, l := v / 0x10, v % 0x10;
    var k, h := q / 0x10, q % 0x10;
    assert v == 0x10 * q + l;
    assert q == 0x10 * k + h;
    LeadNibble(k, h, l);
    LowByte(k, 0xF0 + l);
  }
}
