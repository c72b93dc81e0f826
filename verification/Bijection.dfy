/** For a fixed message block the rounds are a bijection on the work vector: every call of G has
    an explicit inverse, and the inverses compose in reverse order. */
module Bijection {
  import opened Words
  import opened Rfc7693

  lemma AddSub(x: u64, y: u64)
    ensures Sub64(Add64(x, y), y) == x
    ensures Add64(Sub64(x, y), y) == x
  {
    if x + y < TWO_64 {
      assert Add64(x, y) == x + y;
    } else {
      assert Add64(x, y) == x + y - TWO_64;
    }
    if x >= y {
      assert Sub64(x, y) == x - y;
    } else {
      assert Sub64(x, y) == x - y + TWO_64;
    }
  }

  lemma Xor64Cancels(x: u64, y: u64)
    ensures Xor64(Xor64(x, y), y) == x
  {
    XorCancels(x, y);
  }

  /** The rotation is undone, then the exclusive or. */
  function UnXorRotr(z: u64, y: u64, k: nat): u64
    requires 0 < k < 64
  {
    Xor64(Rotr(z, 64 - k), y)
  }

  lemma XorRotrInverse(x: u64, y: u64, k: nat)
    requires 0 < k < 64
    ensures UnXorRotr(Rotr(Xor64(x, y), k), y, k) == x
    ensures Rotr(Xor64(UnXorRotr(x, y, k), y), k) == x
  {
    hide Rotr, Xor64;
    RotrInverse(Xor64(x, y), k);
    RotrInverse(x, 64 - k);
    Xor64Cancels(x, y);
    Xor64Cancels(Rotr(x, 64 - k), y);
  }

  /** The inverse of Mix: its eight steps undone, last first. */
  function Unmix(q: Quad, x: u64, y: u64): Quad {
    var b1 := UnXorRotr(q.b, q.c, 63);
    var c1 := Sub64(q.c, q.d);
    var d1 := UnXorRotr(q.d, q.a, 16);
    var a1 := Sub64(Sub64(q.a, y), b1);
    var b0 := UnXorRotr(b1, c1, 24);
    var c0 := Sub64(c1, d1);
    var d0 := UnXorRotr(d1, a1, 32);
    var a0 := Sub64(Sub64(a1, x), b0);
    Quad(a0, b0, c0, d0)
  }

  lemma UnmixMix(q: Quad, x: u64, y: u64)
    ensures Unmix(Mix(q, x, y), x, y) == q
  {
    hide Rotr, Xor64, Add64, Sub64, UnXorRotr;
    var a1 := Add64(Add64(q.a, q.b), x);
    var d1 := Rotr(Xor64(q.d, a1), 32);
    var c1 := Add64(q.c, d1);
    var b1 := Rotr(Xor64(q.b, c1), 24);
    var a2 := Add64(Add64(a1, b1), y);
    var d2 := Rotr(Xor64(d1, a2), 16);
    var c2 := Add64(c1, d2);
    XorRotrInverse(b1, c2, 63);
    AddSub(c1, d2);
    XorRotrInverse(d1, a2, 16);
    AddSub(Add64(a1, b1), y);
    AddSub(a1, b1);
    XorRotrInverse(q.b, c1, 24);
    AddSub(q.c, d1);
    XorRotrInverse(q.d, a1, 32);
    AddSub(Add64(q.a, q.b), x);
    AddSub(q.a, q.b);
  }

  lemma MixUnmix(q: Quad, x: u64, y: u64)
    ensures Mix(Unmix(q, x, y), x, y) == q
  {
    hide Rotr, Xor64, Add64, Sub64, UnXorRotr;
    var b1 := UnXorRotr(q.b, q.c, 63);
    var c1 := Sub64(q.c, q.d);
    var d1 := UnXorRotr(q.d, q.a, 16);
    var a1 := Sub64(Sub64(q.a, y), b1);
    var b0 := UnXorRotr(b1, c1, 24);
    XorRotrInverse(q.b, q.c, 63);
    AddSub(q.c, q.d);
    XorRotrInverse(q.d, q.a, 16);
    AddSub(q.a, y);
    AddSub(Sub64(q.a, y), b1);
    XorRotrInverse(b1, c1, 24);
    AddSub(c1, d1);
    XorRotrInverse(d1, a1, 32);
    AddSub(a1, x);
    AddSub(Sub64(a1, x), b0);
  }

  function UnG(v: State, a: index16, b: index16, c: index16, d: index16, x: u64, y: u64): State {
    var q := Unmix(Quad(v[a], v[b], v[c], v[d]), x, y);
    v[a := q.a][b := q.b][c := q.c][d := q.d]
  }

  lemma UnGInverse(v: State, a: index16, b: index16, c: index16, d: index16, x: u64, y: u64)
    requires a != b && a != c && a != d && b != c && b != d && c != d
    ensures UnG(G(v, a, b, c, d, x, y), a, b, c, d, x, y) == v
    ensures G(UnG(v, a, b, c, d, x, y), a, b, c, d, x, y) == v
  {
    hide Mix, Unmix;
    UnmixMix(Quad(v[a], v[b], v[c], v[d]), x, y);
    MixUnmix(Quad(v[a], v[b], v[c], v[d]), x, y);
  }

  /** One round undone: the eight inverses in reverse order. */
  function UnRound(v: State, m: State, s: seq<index16>): State
    requires |s| == 16
  {
    hide UnG;
    var v := UnG(v, 3, 4, 9, 14, m[s[14]], m[s[15]]);
    var v := UnG(v, 2, 7, 8, 13, m[s[12]], m[s[13]]);
    var v := UnG(v, 1, 6, 11, 12, m[s[10]], m[s[11]]);
    var v := UnG(v, 0, 5, 10, 15, m[s[8]], m[s[9]]);
    var v := UnG(v, 3, 7, 11, 15, m[s[6]], m[s[7]]);
    var v := UnG(v, 2, 6, 10, 14, m[s[4]], m[s[5]]);
    var v := UnG(v, 1, 5, 9, 13, m[s[2]], m[s[3]]);
    UnG(v, 0, 4, 8, 12, m[s[0]], m[s[1]])
  }

  lemma UnRoundRound(v: State, m: State, s: seq<index16>)
    requires |s| == 16
    ensures UnRound(Round(v, m, s), m, s) == v
  {
    hide G, UnG;
    var v1 := G(v, 0, 4, 8, 12, m[s[0]], m[s[1]]);
    var v2 := G(v1, 1, 5, 9, 13, m[s[2]], m[s[3]]);
    var v3 := G(v2, 2, 6, 10, 14, m[s[4]], m[s[5]]);
    var v4 := G(v3, 3, 7, 11, 15, m[s[6]], m[s[7]]);
    var v5 := G(v4, 0, 5, 10, 15, m[s[8]], m[s[9]]);
    var v6 := G(v5, 1, 6, 11, 12, m[s[10]], m[s[11]]);
    var v7 := G(v6, 2, 7, 8, 13, m[s[12]], m[s[13]]);
    UnGInverse(v7, 3, 4, 9, 14, m[s[14]], m[s[15]]);
    UnGInverse(v6, 2, 7, 8, 13, m[s[12]], m[s[13]]);
    UnGInverse(v5, 1, 6, 11, 12, m[s[10]], m[s[11]]);
    UnGInverse(v4, 0, 5, 10, 15, m[s[8]], m[s[9]]);
    UnGInverse(v3, 3, 7, 11, 15, m[s[6]], m[s[7]]);
    UnGInverse(v2, 2, 6, 10, 14, m[s[4]], m[s[5]]);
    UnGInverse(v1, 1, 5, 9, 13, m[s[2]], m[s[3]]);
    UnGInverse(v, 0, 4, 8, 12, m[s[0]], m[s[1]]);
  }

  lemma RoundUnRound(v: State, m: State, s: seq<index16>)
    requires |s| == 16
    ensures Round(UnRound(v, m, s), m, s) == v
  {
    hide G, UnG;
    var v7 := UnG(v, 3, 4, 9, 14, m[s[14]], m[s[15]]);
    var v6 := UnG(v7, 2, 7, 8, 13, m[s[12]], m[s[13]]);
    var v5 := UnG(v6, 1, 6, 11, 12, m[s[10]], m[s[11]]);
    var v4 := UnG(v5, 0, 5, 10, 15, m[s[8]], m[s[9]]);
    var v3 := UnG(v4, 3, 7, 11, 15, m[s[6]], m[s[7]]);
    var v2 := UnG(v3, 2, 6, 10, 14, m[s[4]], m[s[5]]);
    var v1 := UnG(v2, 1, 5, 9, 13, m[s[2]], m[s[3]]);
    UnGInverse(v, 3, 4, 9, 14, m[s[14]], m[s[15]]);
    UnGInverse(v7, 2, 7, 8, 13, m[s[12]], m[s[13]]);
    UnGInverse(v6, 1, 6, 11, 12, m[s[10]], m[s[11]]);
    UnGInverse(v5, 0, 5, 10, 15, m[s[8]], m[s[9]]);
    UnGInverse(v4, 3, 7, 11, 15, m[s[6]], m[s[7]]);
    UnGInverse(v3, 2, 6, 10, 14, m[s[4]], m[s[5]]);
    UnGInverse(v2, 1, 5, 9, 13, m[s[2]], m[s[3]]);
    UnGInverse(v1, 0, 4, 8, 12, m[s[0]], m[s[1]]);
  }

  /** The first n rounds undone. */
  function UnRounds(v: State, m: State, n: nat): State
    decreases n
  {
    hide UnRound, Sigma;
    if n == 0 then v else UnRounds(UnRound(v, m, Sigma((n - 1) % 10)), m, n - 1)
  }

  /** The rounds and their inverse undo each other, for every message block and number of rounds. */
  lemma {:induction false} RoundsBijective(v: State, m: State, n: nat)
    ensures UnRounds(Rounds(v, m, n), m, n) == v
    ensures Rounds(UnRounds(v, m, n), m, n) == v
    decreases n
  {
    hide Round, UnRound, Sigma;
    if n > 0 {
      var s := Sigma((n - 1) % 10);
      RoundsBijective(v, m, n - 1);
      UnRoundRound(Rounds(v, m, n - 1), m, s);
      RoundsBijective(UnRound(v, m, s), m, n - 1);
      RoundUnRound(v, m, s);
    }
  }
}
