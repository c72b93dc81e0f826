/** Machine words as bounded integers: bytes, 32-bit cells and 64-bit words, with the
    bitwise operators the hash code uses.  The JavaScript code keeps one 64-bit word as
    two neighbouring 32-bit cells, low half first. */
module Words {

  const TWO_32: nat := 0x1_0000_0000
  const TWO_64: nat := 0x1_0000_0000_0000_0000

  type u8 = x: int | 0 <= x < 0x100
  type u32 = x: int | 0 <= x < 0x1_0000_0000
  type u64 = x: int | 0 <= x < 0x1_0000_0000_0000_0000

  /** What storing a number in a cell of a 32-bit array keeps of it. */
  function ToUint32(x: int): u32 {
    x % TWO_32
  }

  function ToUint8(x: int): u8 {
    x % 0x100
  }

  function Pow2(k: nat): (p: nat)
    ensures p > 0
  {
    if k == 0 then 1 else 2 * Pow2(k - 1)
  }

  /** Bitwise exclusive or. */
  function Xor(x: nat, y: nat): nat
    decreases x + y
  {
    if x == 0 && y == 0 then 0 else (x % 2 + y % 2) % 2 + 2 * Xor(x / 2, y / 2)
  }

  /** The 64-bit word kept in two cells. */
  function Join(lo: u32, hi: u32): u64 {
    lo + TWO_32 * hi
  }

  /** Addition of 64-bit words. */
  function Add64(x: u64, y: u64): u64 {
    (x + y) % TWO_64
  }

  function Sub64(x: u64, y: u64): u64 {
    (x - y) % TWO_64
  }

  // ----- Powers of two

  lemma {:induction false} Pow2Adds(a: nat, b: nat)
    ensures Pow2(a + b) == Pow2(a) * Pow2(b)
  {
    if a > 0 {
      Pow2Adds(a - 1, b);
      assert Pow2(a) * Pow2(b) == 2 * (Pow2(a - 1) * Pow2(b));
    }
  }

  lemma Pow2Values()
    ensures Pow2(8) == 0x100 && Pow2(16) == 0x1_0000 && Pow2(24) == 0x100_0000 && Pow2(31) == 0x8000_0000
    ensures Pow2(32) == TWO_32 && Pow2(40) == 0x100_0000_0000 && Pow2(48) == 0x1_0000_0000_0000
    ensures Pow2(63) == 0x8000_0000_0000_0000 && Pow2(64) == TWO_64
    ensures Pow2(1) == 2
  {
    assert Pow2(4) == 16;
    Pow2Adds(4, 4);
    Pow2Adds(8, 8);
    Pow2Adds(16, 8);
    Pow2Adds(16, 16);
    assert Pow2(32) == 2 * Pow2(31);
    Pow2Adds(32, 8);
    Pow2Adds(32, 16);
    Pow2Adds(32, 32);
    assert Pow2(64) == 2 * Pow2(63);
  }

  // ----- Exclusive or

  lemma {:induction false} XorBound(x: nat, y: nat, k: nat)
    requires x < Pow2(k) && y < Pow2(k)
    ensures Xor(x, y) < Pow2(k)
  {
    if k > 0 {
      XorBound(x / 2, y / 2, k - 1);
    }
  }

  function Xor32(x: u32, y: u32): u32 {
    Pow2Values();
    XorBound(x, y, 32);
    Xor(x, y)
  }

  function Xor64(x: u64, y: u64): u64 {
    Pow2Values();
    XorBound(x, y, 64);
    Xor(x, y)
  }

  lemma {:induction false} XorCommutes(x: nat, y: nat)
    ensures Xor(x, y) == Xor(y, x)
    decreases x + y
  {
    if x + y > 0 {
      XorCommutes(x / 2, y / 2);
    }
  }

  lemma {:induction false} XorZero(x: nat)
    ensures Xor(x, 0) == x
  {
    if x > 0 {
      XorZero(x / 2);
    }
  }

  /** The lowest bit and the remaining bits of an exclusive or. */
  lemma XorStep(x: nat, y: nat)
    ensures Xor(x, y) % 2 == (x % 2 + y % 2) % 2
    ensures Xor(x, y) / 2 == Xor(x / 2, y / 2)
  {
  }

  /** A number is determined by its lowest bit and its half. */
  lemma SameBits(x: nat, y: nat, d: nat)
    requires x % 2 == y % 2 && x / 2 == y / 2 + d
    ensures x == y + 2 * d
  {
  }

  lemma ParityCancels(x: nat, y: nat, r: nat)
    requires r == (x % 2 + y % 2) % 2
    ensures (r + y % 2) % 2 == x % 2 && r % 2 == r
  {
  }

  lemma {:induction false} XorCancels(x: nat, y: nat)
    ensures Xor(Xor(x, y), y) == x
    decreases x + y
  {
    hide Xor;
    if x + y > 0 {
      var z := Xor(x, y);
      XorStep(x, y);
      XorStep(z, y);
      XorCancels(x / 2, y / 2);
      assert z / 2 == Xor(x / 2, y / 2);
      ParityCancels(x, y, z % 2);
      SameBits(Xor(z, y), x, 0);
    } else {
      XorZero(0);
    }
  }

  lemma {:induction false} XorAssociates(x: nat, y: nat, z: nat)
    ensures Xor(x, Xor(y, z)) == Xor(Xor(x, y), z)
    decreases x + y + z
  {
    hide Xor;
    if x + y + z > 0 {
      XorStep(x, y);
      XorStep(y, z);
      XorStep(x, Xor(y, z));
      XorStep(Xor(x, y), z);
      XorAssociates(x / 2, y / 2, z / 2);
      ParityAssociates(x, y, z, Xor(x, y), Xor(y, z));
      SameBits(Xor(x, Xor(y, z)), Xor(Xor(x, y), z), 0);
    } else {
      XorZero(0);
    }
  }

  lemma ParityAssociates(x: nat, y: nat, z: nat, xy: nat, yz: nat)
    requires xy % 2 == (x % 2 + y % 2) % 2 && yz % 2 == (y % 2 + z % 2) % 2
    ensures (x % 2 + yz % 2) % 2 == (xy % 2 + z % 2) % 2
  {
  }

  /** b moved k bits to the left. */
  function Shl(b: nat, k: nat): nat {
    if k == 0 then b else 2 * Shl(b, k - 1)
  }

  lemma {:induction false} ShlIsProduct(b: nat, k: nat)
    ensures Shl(b, k) == Pow2(k) * b
  {
    if k > 0 {
      ShlIsProduct(b, k - 1);
      Twice(Pow2(k - 1), b);
    }
  }

  /** Low and high parts are combined separately. */
  lemma {:induction false} XorSplits(k: nat, a: nat, b: nat, c: nat, d: nat)
    requires a < Pow2(k) && c < Pow2(k)
    ensures Xor(a + Shl(b, k), c + Shl(d, k)) == Xor(a, c) + Shl(Xor(b, d), k)
  {
    hide Xor;
    if k == 0 {
      XorZero(0);
    } else {
      XorSplits(k - 1, a / 2, b, c / 2, d);
      XorShifted(a, c, Shl(b, k - 1), Shl(d, k - 1), Shl(Xor(b, d), k - 1));
    }
  }

  lemma XorShifted(a: nat, c: nat, pb: nat, pd: nat, px: nat)
    requires Xor(a / 2 + pb, c / 2 + pd) == Xor(a / 2, c / 2) + px
    ensures Xor(a + 2 * pb, c + 2 * pd) == Xor(a, c) + 2 * px
  {
    hide Xor;
    var u, v := a + 2 * pb, c + 2 * pd;
    XorStep(a, c);
    XorStep(u, v);
    HalfOfSum(a, pb);
    HalfOfSum(c, pd);
    SameBits(Xor(u, v), Xor(a, c), px);
  }

  lemma HalfOfSum(a: nat, n: nat)
    ensures (a + 2 * n) % 2 == a % 2 && (a + 2 * n) / 2 == a / 2 + n
  {
  }

  lemma Twice(p: nat, b: nat)
    ensures (2 * p) * b == 2 * (p * b)
  {
  }

  /** Combining parts that occupy different bits is addition. */
  lemma XorDisjoint(k: nat, a: nat, b: nat)
    requires a < Pow2(k)
    ensures Xor(a, Pow2(k) * b) == a + Pow2(k) * b
  {
    hide Xor, Shl, Pow2;
    XorSplits(k, a, 0, 0, b);
    ShlIsProduct(0, k);
    ShlIsProduct(b, k);
    XorZero(a);
    XorZero(b);
    XorCommutes(0, b);
  }

  lemma {:induction false} XorOnes(k: nat, x: nat)
    requires x < Pow2(k)
    ensures Xor(x, Pow2(k) - 1) == Pow2(k) - 1 - x
  {
    hide Xor;
    if k == 0 {
      XorZero(0);
    } else {
      var p := Pow2(k - 1);
      XorOnes(k - 1, x / 2);
      XorStep(x, 2 * p - 1);
    }
  }

  lemma Shl32(b: nat)
    ensures Shl(b, 32) == TWO_32 * b
  {
    ShlIsProduct(b, 32);
    Pow2Values();
  }

  lemma XorHalves(a0: nat, a1: nat, b0: nat, b1: nat)
    requires a0 < TWO_32 && b0 < TWO_32
    ensures Xor(a0 + TWO_32 * a1, b0 + TWO_32 * b1) == Xor(a0, b0) + TWO_32 * Xor(a1, b1)
  {
    hide Xor, Shl, Pow2;
    assert Pow2(32) == TWO_32 by { Pow2Values(); }
    XorSplits(32, a0, a1, b0, b1);
    Shl32(a1);
    Shl32(b1);
    Shl32(Xor(a1, b1));
  }

  /** Exclusive or of 64-bit words works cell by cell. */
  lemma XorJoin(a0: u32, a1: u32, b0: u32, b1: u32)
    ensures Join(Xor32(a0, b0), Xor32(a1, b1)) == Xor64(Join(a0, a1), Join(b0, b1))
  {
    XorHalves(a0, a1, b0, b1);
  }

  lemma Xor64Zero(x: u64)
    ensures Xor64(x, 0) == x
  {
    XorZero(x);
  }

  // ----- Rotation

  lemma RotrBound(x: u64, k: nat)
    requires 0 < k < 64
    ensures 0 <= x / Pow2(k) < Pow2(64 - k)
    ensures x / Pow2(k) + (x % Pow2(k)) * Pow2(64 - k) < TWO_64
  {
    Pow2Adds(k, 64 - k);
    Pow2Values();
    SwapBound(x, Pow2(k), Pow2(64 - k), TWO_64);
  }

  lemma SwapBound(x: nat, p: nat, q: nat, n: nat)
    requires 0 < p && 0 < q && p * q == n && x < n
    ensures 0 <= x / p < q && x / p + (x % p) * q < n
  {
    var h, l := x / p, x % p;
    assert x == h * p + l;
    if h >= q {
      MulMonotone(q, h, p);
    }
    MulMonotone(l, p - 1, q);
    assert (p - 1) * q == p * q - q;
  }

  lemma MulMonotone(a: nat, b: nat, c: nat)
    requires a <= b
    ensures a * c <= b * c
  {
  }

  /** Rotation to the right by k bits. */
  function Rotr(x: u64, k: nat): u64
    requires 0 < k < 64
  {
    RotrBound(x, k);
    x / Pow2(k) + (x % Pow2(k)) * Pow2(64 - k)
  }

  lemma DivideUnique(x: nat, q: nat, h: nat, l: nat)
    requires h < q && x == h + l * q
    ensures x / q == l && x % q == h
  {
    var l', h' := x / q, x % q;
    assert x == l' * q + h';
    if l < l' {
      MulMonotone(l + 1, l', q);
    } else if l' < l {
      MulMonotone(l' + 1, l, q);
    }
  }

  /** A rotation is undone by the complementary one. */
  lemma RotrInverse(x: u64, k: nat)
    requires 0 < k < 64
    ensures Rotr(Rotr(x, k), 64 - k) == x
  {
    RotrBound(x, k);
    DivideUnique(Rotr(x, k), Pow2(64 - k), x / Pow2(k), x % Pow2(k));
  }

  // ----- Shifts of 32-bit values

  lemma QuotientBound(x: nat, p: nat)
    requires p > 0
    ensures 0 <= x / p <= x
  {
    assert x == p * (x / p) + x % p;
    if x / p > 0 {
      MulMonotone(1, p, x / p);
    }
  }

  /** `x >>> k` */
  function ShiftRight(x: u32, k: nat): u32
    requires k < 32
  {
    QuotientBound(x, Pow2(k));
    x / Pow2(k)
  }

  /** `x << k`, cut to 32 bits */
  function ShiftLeft(x: u32, k: nat): u32
    requires k < 32
  {
    ToUint32(x * Pow2(k))
  }

  // ----- Bytes of a word and of its cells

  lemma LowByte(a: nat, n: nat)
    ensures (a + 0x100 * n) % 0x100 == a % 0x100
  {
  }

  lemma LowBytes(lo: u32, hi: u32)
    ensures Join(lo, hi) % 0x100 == lo % 0x100
    ensures Join(lo, hi) / 0x100 % 0x100 == lo / 0x100 % 0x100
    ensures Join(lo, hi) / 0x1_0000 % 0x100 == lo / 0x1_0000 % 0x100
    ensures Join(lo, hi) / 0x100_0000 % 0x100 == lo / 0x100_0000 % 0x100
  {
    var n: nat := hi;
    LowByte(lo, 0x100_0000 * n);
    assert Join(lo, hi) / 0x100 == lo / 0x100 + 0x100 * (0x1_0000 * n) by { QuotientOfJoin(lo, hi); }
    LowByte(lo / 0x100, 0x1_0000 * n);
    assert Join(lo, hi) / 0x1_0000 == lo / 0x1_0000 + 0x100 * (0x100 * n) by { QuotientOfJoin(lo, hi); }
    LowByte(lo / 0x1_0000, 0x100 * n);
    assert Join(lo, hi) / 0x100_0000 == lo / 0x100_0000 + 0x100 * n by { QuotientOfJoin(lo, hi); }
    LowByte(lo / 0x100_0000, n);
  }

  lemma QuotientOfJoin(lo: u32, hi: u32)
    ensures Join(lo, hi) / 0x100 == lo / 0x100 + 0x100_0000 * hi
    ensures Join(lo, hi) / 0x1_0000 == lo / 0x1_0000 + 0x1_0000 * hi
    ensures Join(lo, hi) / 0x100_0000 == lo / 0x100_0000 + 0x100 * hi
  {
  }

  lemma HighBytes(lo: u32, hi: u32)
    ensures Join(lo, hi) / 0x1_0000_0000 == hi
    ensures Join(lo, hi) / 0x100_0000_0000 == hi / 0x100
    ensures Join(lo, hi) / 0x1_0000_0000_0000 == hi / 0x1_0000
    ensures Join(lo, hi) / 0x100_0000_0000_0000 == hi / 0x100_0000
  {
  }
}
