/** 64-bit words kept as pairs of neighbouring 32-bit cells, low half first: what the pure
    JavaScript implementation computes cell by cell, stated on the words. */
module Cells {
  import opened Words
  import opened Rfc7693
  import opened Parameters
  import opened Machine

  /** The words kept in a sequence of cells. */
  function Pairs(s: seq<u32>): (w: seq<u64>)
    requires |s| % 2 == 0
    ensures |w| == |s| / 2
  {
    seq(|s| / 2, k requires 0 <= k < |s| / 2 => Join(s[2 * k], s[2 * k + 1]))
  }

  /** The cells after the pair at a has been assigned. */
  function SetPair(s: seq<u32>, a: nat, lo: u32, hi: u32): (r: seq<u32>)
    requires a + 1 < |s|
    ensures |r| == |s|
  {
    var s' := s[a := lo];
    s'[a + 1 := hi]
  }

  lemma PairsUpdate(s: seq<u32>, a: nat, lo: u32, hi: u32)
    requires |s| % 2 == 0 && a % 2 == 0 && a < |s|
    ensures Pairs(SetPair(s, a, lo, hi)) == Pairs(s)[a / 2 := Join(lo, hi)]
  {
    var s' := SetPair(s, a, lo, hi);
    forall j | 0 <= j < |s| / 2
      ensures Pairs(s')[j] == Pairs(s)[a / 2 := Join(lo, hi)][j]
    {
      assert s'[2 * j] == (if 2 * j == a then lo else s[2 * j]);
      assert s'[2 * j + 1] == (if 2 * j == a then hi else s[2 * j + 1]);
    }
  }

  lemma PairsAt(s: seq<u32>, a: nat)
    requires |s| % 2 == a % 2 == 0 && a < |s|
    ensures Pairs(s)[a / 2] == Join(s[a], s[a + 1])
  {
  }

  lemma ModUnique(x: nat, r: nat, q: nat)
    requires r < TWO_64 && x == r + TWO_64 * q
    ensures x % TWO_64 == r
  {
  }

  /** Adding the halves and passing the carry by hand is addition modulo 2^64. */
  lemma CarryByHand(a0: u32, a1: u32, b0: u32, b1: u32, o0: nat, o1: nat)
    requires o0 == a0 + b0
    requires o1 == if o0 >= TWO_32 then a1 + b1 + 1 else a1 + b1
    ensures Join(ToUint32(o0), ToUint32(o1)) == Add64(Join(a0, a1), Join(b0, b1))
  {
    var carry := if o0 >= TWO_32 then 1 else 0;
    assert o0 % TWO_32 == o0 - TWO_32 * carry;
    var q := o1 / TWO_32;
    assert o1 == TWO_32 * q + o1 % TWO_32;
    ModUnique(Join(a0, a1) + Join(b0, b1), Join(o0 % TWO_32, o1 % TWO_32), q);
  }

  /** The same when the second operand comes as numbers that may be negative. */
  lemma SignedCarry(a0: u32, a1: u32, b0: int, b1: int, o0: nat, o1: int)
    requires -0x8000_0000 <= b0 < TWO_32 && -0x8000_0000 <= b1 < TWO_32
    requires o0 == a0 + ToUint32(b0)
    requires o1 == if o0 >= TWO_32 then a1 + b1 + 1 else a1 + b1
    ensures Join(ToUint32(o0), ToUint32(o1)) == Add64(Join(a0, a1), Join(ToUint32(b0), ToUint32(b1)))
  {
    var u := if b1 < 0 then o1 + TWO_32 else o1;
    assert ToUint32(u) == ToUint32(o1);
    CarryByHand(a0, a1, ToUint32(b0), ToUint32(b1), o0, u);
  }

  // ----- Rotations written as shifts across the two cells

  lemma Rotate32(x0: u32, x1: u32)
    ensures Join(x1, x0) == Rotr(Join(x0, x1), 32)
  {
    Pow2Values();
    RotrIs(Join(x0, x1), 32, TWO_32, TWO_32);
  }

  lemma RotrIs(x: u64, k: nat, p: nat, q: nat)
    requires 0 < k < 64 && p == Pow2(k) && q == Pow2(64 - k)
    ensures Rotr(x, k) == x / p + (x % p) * q
  {
  }

  lemma Rotate24(x0: u32, x1: u32)
    ensures Join(Xor32(ShiftRight(x0, 24), ShiftLeft(x1, 8)), Xor32(ShiftRight(x1, 24), ShiftLeft(x0, 8)))
         == Rotr(Join(x0, x1), 24)
  {
    Pow2Values();
    RotrIs(Join(x0, x1), 24, 0x100_0000, 0x100_0000_0000);
    XorDisjoint(8, x0 / 0x100_0000, x1 % 0x100_0000);
    XorDisjoint(8, x1 / 0x100_0000, x0 % 0x100_0000);
    Regroup24(x0, x1);
  }

  lemma Regroup24(x0: u32, x1: u32)
    ensures x0 * 0x100 % TWO_32 == 0x100 * (x0 % 0x100_0000)
    ensures x1 * 0x100 % TWO_32 == 0x100 * (x1 % 0x100_0000)
    ensures Join(x0, x1) / 0x100_0000 == x0 / 0x100_0000 + 0x100 * x1
    ensures Join(x0, x1) % 0x100_0000 == x0 % 0x100_0000
  {
  }

  lemma Rotate16(x0: u32, x1: u32)
    ensures Join(Xor32(ShiftRight(x0, 16), ShiftLeft(x1, 16)), Xor32(ShiftRight(x1, 16), ShiftLeft(x0, 16)))
         == Rotr(Join(x0, x1), 16)
  {
    Pow2Values();
    RotrIs(Join(x0, x1), 16, 0x1_0000, 0x1_0000_0000_0000);
    XorDisjoint(16, x0 / 0x1_0000, x1 % 0x1_0000);
    XorDisjoint(16, x1 / 0x1_0000, x0 % 0x1_0000);
    Regroup16(x0, x1);
  }

  lemma Regroup16(x0: u32, x1: u32)
    ensures x0 * 0x1_0000 % TWO_32 == 0x1_0000 * (x0 % 0x1_0000)
    ensures x1 * 0x1_0000 % TWO_32 == 0x1_0000 * (x1 % 0x1_0000)
    ensures Join(x0, x1) / 0x1_0000 == x0 / 0x1_0000 + 0x1_0000 * x1
    ensures Join(x0, x1) % 0x1_0000 == x0 % 0x1_0000
  {
  }

  lemma Rotate63(x0: u32, x1: u32)
    ensures Join(Xor32(ShiftRight(x1, 31), ShiftLeft(x0, 1)), Xor32(ShiftRight(x0, 31), ShiftLeft(x1, 1)))
         == Rotr(Join(x0, x1), 63)
  {
    Pow2Values();
    RotrIs(Join(x0, x1), 63, 0x8000_0000_0000_0000, 2);
    XorDisjoint(1, x1 / 0x8000_0000, x0 % 0x8000_0000);
    XorDisjoint(1, x0 / 0x8000_0000, x1 % 0x8000_0000);
    Regroup63(x0, x1);
  }

  lemma Regroup63(x0: u32, x1: u32)
    ensures x0 * 2 % TWO_32 == 2 * (x0 % 0x8000_0000)
    ensures x1 * 2 % TWO_32 == 2 * (x1 % 0x8000_0000)
    ensures Join(x0, x1) / 0x8000_0000_0000_0000 == x1 / 0x8000_0000
    ensures Join(x0, x1) % 0x8000_0000_0000_0000 == x0 + TWO_32 * (x1 % 0x8000_0000)
  {
  }

  // ----- The same on a sequence of cells: pair b is combined with pair c and rotated

  lemma RotatedPair32(s: seq<u32>, b: nat, c: nat)
    requires |s| % 2 == b % 2 == c % 2 == 0 && b < |s| && c < |s|
    ensures
      var w := Pairs(s);
      var xor0, xor1 := Xor32(s[b], s[c]), Xor32(s[b + 1], s[c + 1]);
      Pairs(SetPair(s, b, xor1, xor0)) == w[b / 2 := Rotr(Xor64(w[b / 2], w[c / 2]), 32)]
  {
    hide Rotr, Xor64, Xor32, Join, ShiftLeft, ShiftRight;
    var xor0, xor1 := Xor32(s[b], s[c]), Xor32(s[b + 1], s[c + 1]);
    XorJoin(s[b], s[b + 1], s[c], s[c + 1]);
    Rotate32(xor0, xor1);
    PairsUpdate(s, b, xor1, xor0);
  }

  lemma RotatedPair24(s: seq<u32>, b: nat, c: nat)
    requires |s| % 2 == b % 2 == c % 2 == 0 && b < |s| && c < |s|
    ensures
      var w := Pairs(s);
      var xor0, xor1 := Xor32(s[b], s[c]), Xor32(s[b + 1], s[c + 1]);
      Pairs(SetPair(s, b, Xor32(ShiftRight(xor0, 24), ShiftLeft(xor1, 8)),
        Xor32(ShiftRight(xor1, 24), ShiftLeft(xor0, 8)))) == w[b / 2 := Rotr(Xor64(w[b / 2], w[c / 2]), 24)]
  {
    hide Rotr, Xor64, Xor32, Join, ShiftLeft, ShiftRight;
    var xor0, xor1 := Xor32(s[b], s[c]), Xor32(s[b + 1], s[c + 1]);
    XorJoin(s[b], s[b + 1], s[c], s[c + 1]);
    Rotate24(xor0, xor1);
    PairsUpdate(s, b, Xor32(ShiftRight(xor0, 24), ShiftLeft(xor1, 8)), Xor32(ShiftRight(xor1, 24), ShiftLeft(xor0, 8)));
  }

  lemma RotatedPair16(s: seq<u32>, b: nat, c: nat)
    requires |s| % 2 == b % 2 == c % 2 == 0 && b < |s| && c < |s|
    ensures
      var w := Pairs(s);
      var xor0, xor1 := Xor32(s[b], s[c]), Xor32(s[b + 1], s[c + 1]);
      Pairs(SetPair(s, b, Xor32(ShiftRight(xor0, 16), ShiftLeft(xor1, 16)),
        Xor32(ShiftRight(xor1, 16), ShiftLeft(xor0, 16)))) == w[b / 2 := Rotr(Xor64(w[b / 2], w[c / 2]), 16)]
  {
    hide Rotr, Xor64, Xor32, Join, ShiftLeft, ShiftRight;
    var xor0, xor1 := Xor32(s[b], s[c]), Xor32(s[b + 1], s[c + 1]);
    XorJoin(s[b], s[b + 1], s[c], s[c + 1]);
    Rotate16(xor0, xor1);
    PairsUpdate(s, b, Xor32(ShiftRight(xor0, 16), ShiftLeft(xor1, 16)), Xor32(ShiftRight(xor1, 16), ShiftLeft(xor0, 16)));
  }

  lemma RotatedPair63(s: seq<u32>, b: nat, c: nat)
    requires |s| % 2 == b % 2 == c % 2 == 0 && b < |s| && c < |s|
    ensures
      var w := Pairs(s);
      var xor0, xor1 := Xor32(s[b], s[c]), Xor32(s[b + 1], s[c + 1]);
      Pairs(SetPair(s, b, Xor32(ShiftRight(xor1, 31), ShiftLeft(xor0, 1)),
        Xor32(ShiftRight(xor0, 31), ShiftLeft(xor1, 1)))) == w[b / 2 := Rotr(Xor64(w[b / 2], w[c / 2]), 63)]
  {
    hide Rotr, Xor64, Xor32, Join, ShiftLeft, ShiftRight;
    var xor0, xor1 := Xor32(s[b], s[c]), Xor32(s[b + 1], s[c + 1]);
    XorJoin(s[b], s[b + 1], s[c], s[c + 1]);
    Rotate63(xor0, xor1);
    PairsUpdate(s, b, Xor32(ShiftRight(xor1, 31), ShiftLeft(xor0, 1)), Xor32(ShiftRight(xor0, 31), ShiftLeft(xor1, 1)));
  }

  // ----- The RFC's function G as two halves that update the state word by word

  function HalfMix(w: State, a: index16, b: index16, c: index16, d: index16, x: u64, r: nat, r': nat): State
    requires 0 < r < 64 && 0 < r' < 64
  {
    var w := w[a := Add64(w[a], w[b])];
    var w := w[a := Add64(w[a], x)];
    var w := w[d := Rotr(Xor64(w[d], w[a]), r)];
    var w := w[c := Add64(w[c], w[d])];
    w[b := Rotr(Xor64(w[b], w[c]), r')]
  }

  lemma GInSteps(w: State, a: index16, b: index16, c: index16, d: index16, x: u64, y: u64)
    requires a != b && a != c && a != d && b != c && b != d && c != d
    ensures G(w, a, b, c, d, x, y) == HalfMix(HalfMix(w, a, b, c, d, x, 32, 24), a, b, c, d, y, 16, 63)
  {
    hide Rotr, Add64, Xor64;
  }

  // ----- Setting up the work vector

  /** `~x` */
  function Not32(x: u32): u32 {
    TWO_32 - 1 - x
  }

  lemma PutByte(a: u32, b: u8, k: nat, p: nat)
    requires k < 32 && p == Pow2(k) && a < p && 0x100 * p <= TWO_32
    ensures Xor32(a, ShiftLeft(b, k)) == a + p * b
  {
    var n := p * b;
    assert n < TWO_32 by {
      MulMonotone(b, 0xFF, p);
    }
    assert ShiftLeft(b, k) == n;
    assert Xor(a, n) == a + n by {
      XorDisjoint(k, a, b);
    }
  }

  lemma BytesCombine(b0: u8, b1: u8, b2: u8, b3: u8)
    ensures Xor32(Xor32(Xor32(b0, ShiftLeft(b1, 8)), ShiftLeft(b2, 16)), ShiftLeft(b3, 24))
         == LittleEndian32([b0, b1, b2, b3], 0)
  {
    hide Xor32, ShiftLeft;
    Pow2Values();
    PutByte(b0, b1, 8, 0x100);
    var a := LittleEndian32([b0, b1, 0, 0], 0);
    PutByte(a, b2, 16, 0x1_0000);
    var a' := LittleEndian32([b0, b1, b2, 0], 0);
    PutByte(a', b3, 24, 0x100_0000);
  }

  /** `B2B_GET32`: four bytes put together with shifts and exclusive or. */
  function B2B_GET32(arr: seq<u8>, i: nat): (r: u32)
    requires i + 4 <= |arr|
    ensures r == LittleEndian32(arr, i)
  {
    hide Xor32, ShiftLeft;
    BytesCombine(arr[i], arr[i + 1], arr[i + 2], arr[i + 3]);
    Xor32(Xor32(Xor32(arr[i], ShiftLeft(arr[i + 1], 8)), ShiftLeft(arr[i + 2], 16)), ShiftLeft(arr[i + 3], 24))
  }

  /** Complementing both cells is the RFC's exclusive or with all ones. */
  lemma NotJoin(lo: u32, hi: u32)
    ensures Join(Not32(lo), Not32(hi)) == Xor64(Join(lo, hi), TWO_64 - 1)
  {
    Pow2Values();
    XorOnes(64, Join(lo, hi));
  }

  /** A counter below 2^53 split as `t` and `t / 0x100000000` fills the RFC's two counter words. */
  lemma CounterWords(t: nat)
    requires t < 0x20_0000_0000_0000
    ensures Join(ToUint32(t), ToUint32(t / 0x1_0000_0000)) == t % TWO_64
    ensures t / TWO_64 % TWO_64 == 0
  {
  }

  /** `BLAKE2B_IV32` */
  const BLAKE2B_IV32: seq<u32> := [
    0xf3bcc908, 0x6a09e667, 0x84caa73b, 0xbb67ae85, 0xfe94f82b, 0x3c6ef372, 0x5f1d36f1, 0xa54ff53a, 0xade682d1,
    0x510e527f, 0x2b3e6c1f, 0x9b05688c, 0xfb41bd6b, 0x1f83d9ab, 0x137e2179, 0x5be0cd19
  ]

  lemma IvCells()
    ensures |BLAKE2B_IV32| == 16 && Pairs(BLAKE2B_IV32) == IV
  {
  }

  lemma PairsAppend(s: seq<u32>, s': seq<u32>)
    requires |s| % 2 == |s'| % 2 == 0
    ensures Pairs(s + s') == Pairs(s) + Pairs(s')
  {
  }

  /** The work vector the JavaScript code sets up, cell by cell. */
  function WorkCells(h: seq<u32>, t: nat, last: bool): (v: seq<u32>)
    requires |h| == 16
    ensures |v| == 32
  {
    var v := CountedCells(h, t);
    if last then SetPair(v, 28, Not32(v[28]), Not32(v[29])) else v
  }

  function CountedCells(h: seq<u32>, t: nat): (v: seq<u32>)
    requires |h| == 16
    ensures |v| == 32
  {
    IvCells();
    var v := h + BLAKE2B_IV32;
    SetPair(v, 24, Xor32(v[24], ToUint32(t)), Xor32(v[25], ToUint32(t / 0x1_0000_0000)))
  }

  lemma CountedIsRfc(h: seq<u32>, hw: Words8, t: nat, v: seq<u32>)
    requires |h| == 16 && |v| == 32 && |h| % 2 == |v| % 2 == 0 && t < 0x20_0000_0000_0000
    requires hw == Pairs(h)
    requires v == CountedCells(h, t)
    ensures Pairs(v) == WorkVector(hw, t, false)
  {
    hide Xor64, Xor32, Join, ToUint32, Pairs;
    IvCells();
    var s := h + BLAKE2B_IV32;
    PairsAppend(h, BLAKE2B_IV32);
    var lo, hi := ToUint32(t), ToUint32(t / 0x1_0000_0000);
    CounterWords(t);
    XorJoin(s[24], s[25], lo, hi);
    PairsAt(s, 24);
    PairsUpdate(s, 24, Xor32(s[24], lo), Xor32(s[25], hi));
    Xor64Zero(Pairs(v)[13]);
  }

  lemma WorkCellsIsRfc(h: seq<u32>, hw: Words8, t: nat, last: bool, w: seq<u32>)
    requires |h| == 16 && |w| == 32 && |h| % 2 == |w| % 2 == 0 && t < 0x20_0000_0000_0000
    requires hw == Pairs(h)
    requires w == WorkCells(h, t, last)
    ensures Pairs(w) == WorkVector(hw, t, last)
  {
    hide Xor64, Xor32, Join, Not32, Pairs, CountedCells, ToUint32;
    var v := CountedCells(h, t);
    CountedIsRfc(h, hw, t, v);
    NotJoin(v[28], v[29]);
    PairsAt(v, 28);
    PairsUpdate(v, 28, Not32(v[28]), Not32(v[29]));
  }

  lemma MessageCells(m: seq<u32>, b: Block)
    requires |m| == 32
    requires forall k :: 0 <= k < 32 ==> m[k] == LittleEndian32(b, 4 * k)
    ensures Pairs(m) == BlockWords(b)
  {
    hide LittleEndian32;
  }

  /** Folding both halves of the work vector into h, cell by cell. */
  lemma FoldCells(h: seq<u32>, v: seq<u32>, h': seq<u32>)
    requires |h| == |h'| == 16 && |v| == 32
    requires forall k :: 0 <= k < 16 ==> h'[k] == Xor32(Xor32(h[k], v[k]), v[k + 16])
    ensures Pairs(h') == Fold(Pairs(h), Pairs(v))
  {
    hide Xor32, Xor64, Join;
    forall k | 0 <= k < 8
      ensures Pairs(h')[k] == Fold(Pairs(h), Pairs(v))[k]
    {
      XorJoin(h[2 * k], h[2 * k + 1], v[2 * k], v[2 * k + 1]);
      var lo, hi := Xor32(h[2 * k], v[2 * k]), Xor32(h[2 * k + 1], v[2 * k + 1]);
      XorJoin(lo, hi, v[2 * k + 16], v[2 * k + 1 + 16]);
    }
  }

  lemma InitialCellsFrom(iv: seq<u32>, h: seq<u32>, p: seq<u8>)
    requires |iv| == |h| == 16 && |p| == 64 && Pairs(iv) == IV
    requires forall k :: 0 <= k < 16 ==> h[k] == Xor32(iv[k], LittleEndian32(p, 4 * k))
    ensures Pairs(h) == InitialFrom(p)
  {
    hide Xor32, Xor64, LittleEndian32, Join;
    forall k | 0 <= k < 8
      ensures Pairs(h)[k] == InitialFrom(p)[k]
    {
      XorJoin(iv[2 * k], iv[2 * k + 1], LittleEndian32(p, 8 * k), LittleEndian32(p, 8 * k + 4));
      PairsAt(iv, 2 * k);
    }
  }

  /** `BLAKE2B_IV32` combined with the parameter block, cell by cell. */
  lemma InitialCells(h: seq<u32>, p: seq<u8>)
    requires |h| == 16 && |p| == 64
    requires forall k :: 0 <= k < 16 ==> h[k] == Xor32(BLAKE2B_IV32[k], LittleEndian32(p, 4 * k))
    ensures Pairs(h) == InitialFrom(p)
  {
    hide Xor32, Xor64, LittleEndian32, Join, Pairs;
    IvCells();
    InitialCellsFrom(BLAKE2B_IV32, h, p);
  }

  lemma ByteShifts(x: u32)
    ensures ShiftRight(x, 0) == x && ShiftRight(x, 8) == x / 0x100
    ensures ShiftRight(x, 16) == x / 0x1_0000 && ShiftRight(x, 24) == x / 0x100_0000
  {
    Pow2Values();
    assert Pow2(0) == 1;
  }

  /** Byte j of a word is byte j % 4 of one of its cells. */
  lemma ByteOfWord(lo: u32, hi: u32, j: nat)
    requires j < 8
    ensures Join(lo, hi) / Pow256(j) % 0x100 == ToUint8(ShiftRight(if j < 4 then lo else hi, 8 * (j % 4)))
  {
    hide Join, ShiftRight, Pow2;
    ByteShifts(lo);
    ByteShifts(hi);
    if j < 4 {
      LowBytes(lo, hi);
    } else {
      HighBytes(lo, hi);
    }
  }

  /** `x >> k`, which fills up with the sign bit */
  function SignedShift(x: u32, k: nat): int
    requires k < 32
  {
    (if x < 0x8000_0000 then x else x - TWO_32) / Pow2(k)
  }

  lemma ByteWraps(a: int, n: int)
    ensures ToUint8(a - 0x100 * n) == ToUint8(a)
  {
  }

  lemma Quotients(x: u32)
    ensures (x - TWO_32) / 0x100 == x / 0x100 - 0x100 * 0x1_0000
    ensures (x - TWO_32) / 0x1_0000 == x / 0x1_0000 - 0x100 * 0x100
    ensures (x - TWO_32) / 0x100_0000 == x / 0x100_0000 - 0x100 * 1
  {
  }

  lemma SignShifted(x: u32)
    ensures ToUint8(x - TWO_32) == ToUint8(x)
    ensures ToUint8((x - TWO_32) / 0x100) == ToUint8(x / 0x100)
    ensures ToUint8((x - TWO_32) / 0x1_0000) == ToUint8(x / 0x1_0000)
    ensures ToUint8((x - TWO_32) / 0x100_0000) == ToUint8(x / 0x100_0000)
  {
    hide ToUint8;
    Quotients(x);
    ByteWraps(x, 0x100_0000);
    ByteWraps(x / 0x100, 0x1_0000);
    ByteWraps(x / 0x1_0000, 0x100);
    ByteWraps(x / 0x100_0000, 1);
  }

  lemma SignedShifts(x: u32)
    ensures
      var y := if x < 0x8000_0000 then x else x - TWO_32;
      && SignedShift(x, 0) == y && SignedShift(x, 8) == y / 0x100
      && SignedShift(x, 16) == y / 0x1_0000 && SignedShift(x, 24) == y / 0x100_0000
  {
    Pow2Values();
    assert Pow2(0) == 1;
  }

  /** The sign does not reach the lowest byte. */
  lemma ByteUnsigned(x: u32, j: nat)
    requires j < 4
    ensures ToUint8(SignedShift(x, 8 * j)) == ToUint8(ShiftRight(x, 8 * j))
  {
    hide ToUint8, SignedShift, ShiftRight, Pow2;
    ByteShifts(x);
    SignedShifts(x);
    SignShifted(x);
  }

  /** `h[i >> 2] >> 8 * (i & 3)`, cut to a byte; there is nothing behind the 16 cells. */
  function OutputByte(h: seq<u32>, i: nat): u8
    requires |h| == 16
  {
    if i < 64 then ToUint8(SignedShift(h[i / 4], 8 * (i % 4))) else 0
  }

  /** Byte i of the output taken from its cell. */
  lemma OutputNext(h: seq<u32>, i: nat)
    requires |h| == 16
    ensures Padded(Pairs(h), i + 1) == Padded(Pairs(h), i) + [OutputByte(h, i)]
  {
    hide WordBytes, OutputByte;
    if i < 64 {
      OutputByteIs(h, i);
    } else {
      assert OutputByte(h, i) == 0 by { NothingBehind(h, i); }
    }
  }

  lemma NothingBehind(h: seq<u32>, i: nat)
    requires |h| == 16 && i >= 64
    ensures OutputByte(h, i) == 0
  {
  }

  lemma OutputByteIs(h: seq<u32>, i: nat)
    requires |h| == 16 && i < 64
    ensures WordBytes(Pairs(h))[i] == OutputByte(h, i)
  {
    hide Join, ShiftRight, SignedShift, Pairs, Pow256, ToUint8;
    var k, j := i / 8, i % 8;
    ByteUnsigned(h[i / 4], i % 4);
    PairsAt(h, 2 * k);
    ByteOfWord(h[2 * k], h[2 * k + 1], j);
    assert i / 4 == (if j < 4 then 2 * k else 2 * k + 1) && i % 4 == j % 4;
  }
}
