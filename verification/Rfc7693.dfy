/** The BLAKE2b hash function as RFC 7693 defines it, on 64-bit words.  Nothing here follows the
    repository's code: these definitions are the yardstick for both implementations. */
module Rfc7693 {
  import opened Words

  /** Section 2.6: the initialization vector. */
  const IV: seq<u64> := [
    0x6a09e667f3bcc908, 0xbb67ae8584caa73b, 0x3c6ef372fe94f82b, 0xa54ff53a5f1d36f1,
    0x510e527fade682d1, 0x9b05688c2b3e6c1f, 0x1f83d9abfb41bd6b, 0x5be0cd19137e2179
  ]

  /** The first eight primes. */
  const PRIMES: seq<nat> := [2, 3, 5, 7, 11, 13, 17, 19]

  predicate IsPrime(p: nat) {
    p > 1 && forall d :: 1 < d < p ==> p % d != 0
  }

  lemma Composite(p: nat, d: nat)
    requires 1 < d < p && p % d == 0
    ensures !IsPrime(p)
  {
  }

  /** In order, and none left out. */
  lemma PrimesInOrder(p: nat)
    requires p < 20
    ensures forall i, j :: 0 <= i < j < |PRIMES| ==> PRIMES[i] < PRIMES[j]
    ensures p in PRIMES <==> IsPrime(p)
  {
    if p > 2 && p % 2 == 0 {
      Composite(p, 2);
    } else if p > 3 && p % 3 == 0 {
      Composite(p, 3);
    } else if p > 1 {
      assert p in [2, 3, 5, 7, 11, 13, 17, 19];
      forall d | 1 < d < p
        ensures p % d != 0
      {
        SmallDivisors(p, d);
      }
    }
  }

  lemma SmallDivisors(p: nat, d: nat)
    requires p in [2, 3, 5, 7, 11, 13, 17, 19] && 1 < d < p
    ensures p % d != 0
  {
    match d
    case 2 => case 3 => case 4 => case 5 => case 6 => case 7 => case 8 => case 9 => case 10 => case 11 =>
    case 12 => case 13 => case 14 => case 15 => case 16 => case 17 => case 18 =>
  }

  /** iv is the first 64 bits of the fractional part of the square root of p, whose integer part is r. */
  predicate RootFraction(p: nat, r: nat, iv: u64) {
    var x := r * TWO_64 + iv;
    r * r <= p < (r + 1) * (r + 1) && x * x <= p * TWO_64 * TWO_64 < (x + 1) * (x + 1)
  }

  /** Section 2.6: where the initialization vector comes from. */
  lemma IvIsRoots(i: nat)
    requires i < 8
    ensures |IV| == |PRIMES| == 8 && exists r :: RootFraction(PRIMES[i], r, IV[i])
  {
    var roots := [1, 1, 2, 2, 3, 3, 4, 4];
    assert RootFraction(PRIMES[i], roots[i], IV[i]);
  }

  type index16 = x: int | 0 <= x < 16

  /** Section 2.7: the message schedule. */
  function Sigma(r: nat): (row: seq<index16>)
    requires r < 10
    ensures |row| == 16
  {
    match r
    case 0 => [0, 1, 2, 3, 4, 5, 6, 7, 8, 9, 10, 11, 12, 13, 14, 15]
    case 1 => [14, 10, 4, 8, 9, 15, 13, 6, 1, 12, 0, 2, 11, 7, 5, 3]
    case 2 => [11, 8, 12, 0, 5, 2, 15, 13, 10, 14, 3, 6, 7, 1, 9, 4]
    case 3 => [7, 9, 3, 1, 13, 12, 11, 14, 2, 6, 5, 10, 4, 0, 15, 8]
    case 4 => [9, 0, 5, 7, 2, 4, 10, 15, 14, 1, 11, 12, 6, 8, 3, 13]
    case 5 => [2, 12, 6, 10, 0, 11, 8, 3, 4, 13, 7, 5, 15, 14, 1, 9]
    case 6 => [12, 5, 1, 15, 14, 13, 4, 10, 0, 7, 6, 3, 9, 2, 8, 11]
    case 7 => [13, 11, 7, 14, 12, 1, 3, 9, 5, 0, 15, 4, 8, 6, 2, 10]
    case 8 => [6, 15, 14, 9, 11, 3, 0, 8, 12, 2, 13, 7, 1, 4, 10, 5]
    case _ => [10, 2, 8, 4, 7, 6, 1, 5, 15, 11, 9, 14, 3, 12, 13, 0]
  }

  type State = v: seq<u64> | |v| == 16 witness seq(16, _ => 0)
  type Words8 = h: seq<u64> | |h| == 8 witness seq(8, _ => 0)
  type Block = b: seq<u8> | |b| == 128 witness seq(128, _ => 0)

  datatype Quad = Quad(a: u64, b: u64, c: u64, d: u64)

  /** Section 3.1: the mixing function G on the four words it changes. */
  function Mix(q: Quad, x: u64, y: u64): Quad {
    var a1 := Add64(Add64(q.a, q.b), x);
    var d1 := Rotr(Xor64(q.d, a1), 32);
    var c1 := Add64(q.c, d1);
    var b1 := Rotr(Xor64(q.b, c1), 24);
    var a2 := Add64(Add64(a1, b1), y);
    var d2 := Rotr(Xor64(d1, a2), 16);
    var c2 := Add64(c1, d2);
    var b2 := Rotr(Xor64(b1, c2), 63);
    Quad(a2, b2, c2, d2)
  }

  /** G applied to the words of the state at four different places. */
  function G(v: State, a: index16, b: index16, c: index16, d: index16, x: u64, y: u64): State {
    var q := Mix(Quad(v[a], v[b], v[c], v[d]), x, y);
    v[a := q.a][b := q.b][c := q.c][d := q.d]
  }

  /** One round of section 3.2: four columns, then four diagonals. */
  function Round(v: State, m: State, s: seq<index16>): State
    requires |s| == 16
  {
    hide G;
    var v := G(v, 0, 4, 8, 12, m[s[0]], m[s[1]]);
    var v := G(v, 1, 5, 9, 13, m[s[2]], m[s[3]]);
    var v := G(v, 2, 6, 10, 14, m[s[4]], m[s[5]]);
    var v := G(v, 3, 7, 11, 15, m[s[6]], m[s[7]]);
    var v := G(v, 0, 5, 10, 15, m[s[8]], m[s[9]]);
    var v := G(v, 1, 6, 11, 12, m[s[10]], m[s[11]]);
    var v := G(v, 2, 7, 8, 13, m[s[12]], m[s[13]]);
    G(v, 3, 4, 9, 14, m[s[14]], m[s[15]])
  }

  /** The first n rounds. */
  function Rounds(v: State, m: State, n: nat): State {
    if n == 0 then v else Round(Rounds(v, m, n - 1), m, Sigma((n - 1) % 10))
  }

  function LittleEndian32(s: seq<u8>, i: nat): u32
    requires i + 4 <= |s|
  {
    var b0: nat, b1: nat, b2: nat, b3: nat := s[i], s[i + 1], s[i + 2], s[i + 3];
    b0 + 0x100 * b1 + 0x1_0000 * b2 + 0x100_0000 * b3
  }

  /** Eight bytes read as a little-endian word (section 2.4). */
  function LittleEndian64(s: seq<u8>, i: nat): u64
    requires i + 8 <= |s|
  {
    Join(LittleEndian32(s, i), LittleEndian32(s, i + 4))
  }

  function BlockWords(b: Block): State {
    seq(16, i requires 0 <= i < 16 => LittleEndian64(b, 8 * i))
  }

  /** Section 3.2: the work vector before the rounds. */
  function WorkVector(h: Words8, t: nat, last: bool): State {
    var v := h + IV;
    var v := v[12 := Xor64(v[12], t % TWO_64)];
    var v := v[13 := Xor64(v[13], t / TWO_64 % TWO_64)];
    if last then v[14 := Xor64(v[14], TWO_64 - 1)] else v
  }

  /** Section 3.2: both halves of the work vector combined with h. */
  function Fold(h: Words8, v: State): Words8 {
    seq(8, i requires 0 <= i < 8 => Xor64(Xor64(h[i], v[i]), v[i + 8]))
  }

  /** Section 3.2: the compression function F. */
  function F(h: Words8, b: Block, t: nat, last: bool): Words8 {
    Fold(h, Rounds(WorkVector(h, t, last), BlockWords(b), 12))
  }

  // ----- Section 3.3: padding the data and computing a digest

  function Zeros(n: nat): (z: seq<u8>)
    ensures |z| == n && forall i :: 0 <= i < n ==> z[i] == 0
  {
    seq(n, _ => 0)
  }

  function PadBlock(s: seq<u8>): Block
    requires |s| <= 128
  {
    s + Zeros(128 - |s|)
  }

  /** The data cut into blocks, the last one filled up with zeros. */
  function SplitBlocks(s: seq<u8>): seq<Block> {
    if s == [] then []
    else if |s| <= 128 then [PadBlock(s)]
    else [s[..128]] + SplitBlocks(s[128..])
  }

  /** The data blocks d[0..dd-1]: the padded key if there is one, then the padded message;
      an unkeyed empty message is one block of zeros. */
  function DataBlocks(key: seq<u8>, message: seq<u8>): (d: seq<Block>)
    requires |key| <= 64
    ensures |d| > 0
  {
    if key == [] && message == [] then [PadBlock([])]
    else (if key == [] then [] else [PadBlock(key)]) + SplitBlocks(message)
  }

  /** h after the blocks d[0..n-1], none of them the last. */
  function Chain(h: Words8, d: seq<Block>, n: nat): Words8
    requires n <= |d|
  {
    if n == 0 then h else F(Chain(h, d, n - 1), d[n - 1], 128 * n, false)
  }

  /** All bytes of the words, little-endian. */
  function WordBytes(h: Words8): (bytes: seq<u8>)
    ensures |bytes| == 64
  {
    seq(64, i requires 0 <= i < 64 => h[i / 8] / Pow256(i % 8) % 0x100)
  }

  function Pow256(k: nat): (p: nat)
    requires k < 8
    ensures p > 0
  {
    [1, 0x100, 0x1_0000, 0x100_0000, 0x1_0000_0000, 0x100_0000_0000, 0x1_0000_0000_0000, 0x100_0000_0000_0000][k]
  }

  /** The hash with initial words h0: kk = |key| and ll = |message| of section 3.3. */
  function HashFrom(h0: Words8, key: seq<u8>, message: seq<u8>): Words8
    requires |key| <= 64
  {
    var d := DataBlocks(key, message);
    var h := Chain(h0, d, |d| - 1);
    var total := if key == [] then |message| else |message| + 128;
    F(h, d[|d| - 1], total, true)
  }

  /** Section 3.3: initial words for a digest of nn bytes and a key of kk bytes. */
  function InitialWords(nn: u8, kk: nat): Words8
    requires kk <= 64
  {
    IV[0 := Xor64(IV[0], 0x01010000 + 0x100 * kk + nn)]
  }

  /** BLAKE2b(message, key, nn) of section 3.3. */
  function Blake2b(message: seq<u8>, key: seq<u8>, nn: nat): (digest: seq<u8>)
    requires 1 <= nn <= 64 && |key| <= 64
    ensures |digest| == nn
  {
    WordBytes(HashFrom(InitialWords(nn, |key|), key, message))[..nn]
  }
}
