/** A linear memory of bytes with 64-bit loads and stores, and the layout of one hash state in it:
    block 0..128, h 128..192, t 192..200, c 200..208, flag 208..216. */
module LinearMemory {
  import opened Words
  import opened Rfc7693

  // ----- Words as bytes

  function ByteOf(x: u64, j: nat): u8
    requires j < 8
  {
    x / Pow256(j) % 0x100
  }

  /** The words one after another, each little-endian. */
  function Bytes(ws: seq<u64>): (s: seq<u8>)
    ensures |s| == 8 * |ws|
  {
    seq(8 * |ws|, i requires 0 <= i < 8 * |ws| => ByteOf(ws[i / 8], i % 8))
  }

  lemma FieldByte(ws: seq<u64>, k: nat, j: nat)
    requires k < |ws| && j < 8
    ensures Bytes(ws)[8 * k + j] == ByteOf(ws[k], j)
  {
    hide ByteOf;
    assert (8 * k + j) / 8 == k && (8 * k + j) % 8 == j;
  }

  lemma FourDigits(y: u32)
    ensures y == y % 0x100 + 0x100 * (y / 0x100 % 0x100)
                 + 0x1_0000 * (y / 0x1_0000 % 0x100) + 0x100_0000 * (y / 0x100_0000 % 0x100)
  {
    assert y / 0x1_0000 == y / 0x100 / 0x100;
    assert y / 0x100_0000 == y / 0x1_0000 / 0x100;
  }

  lemma HalfDigits(x: u64)
    ensures
      var lo, hi := x % TWO_32, x / TWO_32;
      && x == Join(lo, hi)
      && ByteOf(x, 0) == lo % 0x100 && ByteOf(x, 1) == lo / 0x100 % 0x100
      && ByteOf(x, 2) == lo / 0x1_0000 % 0x100 && ByteOf(x, 3) == lo / 0x100_0000 % 0x100
      && ByteOf(x, 4) == hi % 0x100 && ByteOf(x, 5) == hi / 0x100 % 0x100
      && ByteOf(x, 6) == hi / 0x1_0000 % 0x100 && ByteOf(x, 7) == hi / 0x100_0000 % 0x100
  {
    hide Join;
    var lo, hi := x % TWO_32, x / TWO_32;
    JoinHalves(x);
    LowBytes(lo, hi);
    HighBytes(lo, hi);
  }

  lemma JoinHalves(x: u64)
    ensures x == Join(x % TWO_32, x / TWO_32)
  {
  }

  /** Loading the bytes of a word gives the word back. */
  lemma LoadBytes(s: seq<u8>, i: nat, x: u64)
    requires i + 8 <= |s|
    requires forall j :: 0 <= j < 8 ==> s[i + j] == ByteOf(x, j)
    ensures LittleEndian64(s, i) == x
  {
    HalfDigits(x);
    FourDigits(x % TWO_32);
    FourDigits(x / TWO_32);
    assert s[i + 0] == ByteOf(x, 0) && s[i + 1] == ByteOf(x, 1) && s[i + 2] == ByteOf(x, 2) && s[i + 3] == ByteOf(x, 3);
    assert s[i + 4] == ByteOf(x, 4) && s[i + 5] == ByteOf(x, 5) && s[i + 6] == ByteOf(x, 6) && s[i + 7] == ByteOf(x, 7);
  }

  // ----- Loads and stores

  /** The memory with the bytes s at address p. */
  function Splice(mem: seq<u8>, p: nat, s: seq<u8>): (r: seq<u8>)
    requires p + |s| <= |mem|
    ensures |r| == |mem|
  {
    mem[..p] + s + mem[p + |s|..]
  }

  /** i64.load */
  function Load64(mem: seq<u8>, p: nat): u64
    requires p + 8 <= |mem|
  {
    LittleEndian64(mem, p)
  }

  /** i64.store */
  function Store64(mem: seq<u8>, p: nat, x: u64): (r: seq<u8>)
    requires p + 8 <= |mem|
    ensures |r| == |mem|
  {
    Splice(mem, p, Bytes([x]))
  }

  // ----- One hash state

  const SLOT: nat := 216

  /** The flag of a state whose last block was compressed. */
  const ONES: u64 := TWO_64 - 1

  type Fields = ws: seq<u64> | |ws| == 11 witness seq(11, _ => 0)

  /** The bytes of a state: its block, then h, t, c and the flag as words. */
  function StateBytes(b: Block, ws: Fields): (s: seq<u8>)
    ensures |s| == SLOT
  {
    b + Bytes(ws)
  }

  function FieldsOf(h: Words8, t: u64, c: u64, f: u64): Fields {
    h + [t, c, f]
  }

  /** The memory with a state at address p. */
  function Image(mem: seq<u8>, p: nat, b: Block, ws: Fields): (r: seq<u8>)
    requires p + SLOT <= |mem|
    ensures |r| == |mem|
  {
    Splice(mem, p, StateBytes(b, ws))
  }

  lemma LoadField(mem: seq<u8>, p: nat, b: Block, ws: Fields, k: nat)
    requires p + SLOT <= |mem| && k < 11
    ensures Load64(Image(mem, p, b, ws), p + 128 + 8 * k) == ws[k]
  {
    hide LittleEndian64, ByteOf;
    var r, a := Image(mem, p, b, ws), p + 128 + 8 * k;
    forall j | 0 <= j < 8
      ensures r[a + j] == ByteOf(ws[k], j)
    {
      assert r[a + j] == Bytes(ws)[8 * k + j];
      assert (8 * k + j) / 8 == k && (8 * k + j) % 8 == j;
    }
    LoadBytes(r, a, ws[k]);
  }

  lemma LoadBlockWord(mem: seq<u8>, p: nat, b: Block, ws: Fields, k: nat)
    requires p + SLOT <= |mem| && k < 16
    ensures Load64(Image(mem, p, b, ws), p + 8 * k) == LittleEndian64(b, 8 * k)
  {
    var r := Image(mem, p, b, ws);
    assert r[p + 8 * k..p + 8 * k + 8] == b[8 * k..8 * k + 8];
    SameEightBytes(r, p + 8 * k, b, 8 * k);
  }

  lemma SameEightBytes(s: seq<u8>, i: nat, s': seq<u8>, i': nat)
    requires i + 8 <= |s| && i' + 8 <= |s'|
    requires s[i..i + 8] == s'[i'..i' + 8]
    ensures LittleEndian64(s, i) == LittleEndian64(s', i')
  {
    SliceWord(s, i);
    SliceWord(s', i');
  }

  lemma SliceWord(s: seq<u8>, i: nat)
    requires i + 8 <= |s|
    ensures LittleEndian64(s, i) == LittleEndian64(s[i..i + 8], 0)
  {
  }

  lemma StoreField(mem: seq<u8>, p: nat, b: Block, ws: Fields, k: nat, x: u64)
    requires p + SLOT <= |mem| && k < 11
    ensures Store64(Image(mem, p, b, ws), p + 128 + 8 * k, x) == Image(mem, p, b, ws[k := x])
  {
    hide ByteOf;
    var l, r := Store64(Image(mem, p, b, ws), p + 128 + 8 * k, x), Image(mem, p, b, ws[k := x]);
    forall i | 0 <= i < |mem|
      ensures l[i] == r[i]
    {
      if p + 128 <= i < p + SLOT {
        StoredByte(ws, k, x, i - p - 128);
      }
    }
  }

  lemma StoredByte(ws: Fields, k: nat, x: u64, i: nat)
    requires k < 11 && i < 88
    ensures Bytes(ws[k := x])[i] == if 8 * k <= i < 8 * k + 8 then Bytes([x])[i - 8 * k] else Bytes(ws)[i]
  {
    hide ByteOf;
    if 8 * k <= i < 8 * k + 8 {
      assert i / 8 == k && (i - 8 * k) / 8 == 0 && (i - 8 * k) % 8 == i % 8;
    } else {
      assert i / 8 != k;
    }
  }

  lemma StoreBlockByte(mem: seq<u8>, p: nat, b: Block, ws: Fields, i: nat, x: u8)
    requires p + SLOT <= |mem| && i < 128
    ensures Image(mem, p, b, ws)[p + i := x] == Image(mem, p, b[i := x], ws)
  {
  }

  lemma ImageTwice(mem: seq<u8>, p: nat, b: Block, ws: Fields, b': Block, ws': Fields)
    requires p + SLOT <= |mem|
    ensures Image(Image(mem, p, b, ws), p, b', ws') == Image(mem, p, b', ws')
  {
    hide Bytes;
  }

  /** Writing a state changes nothing outside its slot. */
  lemma ImageOutside(mem: seq<u8>, p: nat, b: Block, ws: Fields, lo: nat, hi: nat)
    requires p + SLOT <= |mem| && lo <= hi <= |mem|
    requires hi <= p || p + SLOT <= lo
    ensures Image(mem, p, b, ws)[lo..hi] == mem[lo..hi]
  {
    hide Bytes;
    forall i | lo <= i < hi
      ensures Image(mem, p, b, ws)[i] == mem[i]
    {
    }
  }

  /** What the slot at p holds. */
  lemma ImageSlot(mem: seq<u8>, p: nat, b: Block, ws: Fields)
    requires p + SLOT <= |mem|
    ensures Image(mem, p, b, ws)[p..p + SLOT] == StateBytes(b, ws)
    ensures mem == Image(mem, p, b, ws) <==> mem[p..p + SLOT] == StateBytes(b, ws)
  {
    hide Bytes;
    if mem[p..p + SLOT] == StateBytes(b, ws) {
      assert mem == mem[..p] + mem[p..p + SLOT] + mem[p + SLOT..];
    }
  }

  lemma SpliceNext(mem: seq<u8>, p: nat, ws: seq<u64>, x: u64)
    requires p + 8 * |ws| + 8 <= |mem|
    ensures Store64(Splice(mem, p, Bytes(ws)), p + 8 * |ws|, x) == Splice(mem, p, Bytes(ws + [x]))
  {
    BytesAppend(ws, [x]);
  }

  lemma BytesAppend(ws: seq<u64>, ws': seq<u64>)
    ensures Bytes(ws + ws') == Bytes(ws) + Bytes(ws')
  {
    hide ByteOf;
    forall i | 0 <= i < 8 * |ws'|
      ensures Bytes(ws + ws')[8 * |ws| + i] == Bytes(ws')[i]
    {
      assert (8 * |ws| + i) / 8 == |ws| + i / 8 && (8 * |ws| + i) % 8 == i % 8;
    }
  }

  lemma ZeroBytes(n: nat)
    ensures Bytes(seq(n, _ => 0)) == Zeros(8 * n)
  {
  }
}
