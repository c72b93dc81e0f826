/** modules/blake2b-wasm/generate-rounds.js: the generator that unrolls the twelve rounds into
    straight-line WebAssembly, as syntax trees, and what that code computes. */
module Generator {
  import opened Words
  import opened Rfc7693
  import opened Schedule

  /** The locals $v0..$v15 and $m0..$m15 of the compression function. */
  datatype Local = V(n: index16) | M(n: index16)

  /** The i64 expressions the generator emits. */
  datatype Expr = GetLocal(x: Local) | Const(k: u64)
                | Add(e1: Expr, e2: Expr) | Xor(e1: Expr, e2: Expr) | RotrBy(e1: Expr, e2: Expr)

  datatype Instr = SetLocal(x: Local, e: Expr)

  // ----- The generator

  /** `G(r, i, a, b, c, d)` */
  function GenG(r: nat, i: nat, a: Local, b: Local, c: Local, d: Local): (code: seq<Instr>)
    requires r < 12 && i < 8
  {
    var x, y := M(SigmaRow(r)[2 * i + 0]), M(SigmaRow(r)[2 * i + 1]);
    [ SetLocal(a, Add(GetLocal(a), Add(GetLocal(b), GetLocal(x)))),
      SetLocal(d, RotrBy(Xor(GetLocal(d), GetLocal(a)), Const(32))),
      SetLocal(c, Add(GetLocal(c), GetLocal(d))),
      SetLocal(b, RotrBy(Xor(GetLocal(b), GetLocal(c)), Const(24))),
      SetLocal(a, Add(GetLocal(a), Add(GetLocal(b), GetLocal(y)))),
      SetLocal(d, RotrBy(Xor(GetLocal(d), GetLocal(a)), Const(16))),
      SetLocal(c, Add(GetLocal(c), GetLocal(d))),
      SetLocal(b, RotrBy(Xor(GetLocal(b), GetLocal(c)), Const(63))) ]
  }

  /** `ROUND(r)` */
  function GenRound(r: nat): (code: seq<Instr>)
    requires r < 12
  {
    GenG(r, 0, V(0), V(4), V(8), V(12))
    + GenG(r, 1, V(1), V(5), V(9), V(13))
    + GenG(r, 2, V(2), V(6), V(10), V(14))
    + GenG(r, 3, V(3), V(7), V(11), V(15))
    + GenG(r, 4, V(0), V(5), V(10), V(15))
    + GenG(r, 5, V(1), V(6), V(11), V(12))
    + GenG(r, 6, V(2), V(7), V(8), V(13))
    + GenG(r, 7, V(3), V(4), V(9), V(14))
  }

  /** `ROUND(0)` to `ROUND(n - 1)`; the generator prints twelve. */
  function GenRounds(n: nat): (code: seq<Instr>)
    requires n <= 12
  {
    if n == 0 then [] else GenRounds(n - 1) + GenRound(n - 1)
  }

  // ----- Execution

  datatype Locals = Locals(v: State, m: State)

  function Get(l: Locals, x: Local): u64 {
    match x
    case V(n) => l.v[n]
    case M(n) => l.m[n]
  }

  function Set(l: Locals, x: Local, w: u64): Locals {
    match x
    case V(n) => l.(v := l.v[n := w])
    case M(n) => l.(m := l.m[n := w])
  }

  /** i64.rotr turns by the count modulo 64. */
  function Turn(x: u64, k: u64): u64 {
    if k % 64 == 0 then x else Rotr(x, k % 64)
  }

  function Eval(e: Expr, l: Locals): u64 {
    match e
    case GetLocal(x) => Get(l, x)
    case Const(k) => k
    case Add(e1, e2) => Add64(Eval(e1, l), Eval(e2, l))
    case Xor(e1, e2) => Xor64(Eval(e1, l), Eval(e2, l))
    case RotrBy(e1, e2) => Turn(Eval(e1, l), Eval(e2, l))
  }

  function Exec(code: seq<Instr>, l: Locals): Locals
    decreases |code|
  {
    if code == [] then l else Exec(code[1..], Set(l, code[0].x, Eval(code[0].e, l)))
  }

  // ----- Correctness

  lemma {:induction false} ExecConcat(p: seq<Instr>, q: seq<Instr>, l: Locals)
    ensures Exec(p + q, l) == Exec(q, Exec(p, l))
    decreases |p|
  {
    hide Eval, Set;
    if p == [] {
      assert p + q == q;
    } else {
      assert (p + q)[1..] == p[1..] + q;
      ExecConcat(p[1..], q, Set(l, p[0].x, Eval(p[0].e, l)));
    }
  }

  lemma AddWraps(x: u64, y: u64)
    ensures Add64(x, y) == if x + y < TWO_64 then x + y else x + y - TWO_64
  {
  }

  lemma AddAssociates(x: u64, y: u64, z: u64)
    ensures Add64(x, Add64(y, z)) == Add64(Add64(x, y), z)
  {
    hide Add64;
    AddWraps(y, z);
    AddWraps(x, Add64(y, z));
    AddWraps(x, y);
    AddWraps(Add64(x, y), z);
  }

  /** The eight instructions of one G compute the RFC's G. */
  lemma GenGCorrect(r: nat, i: nat, a: index16, b: index16, c: index16, d: index16, l: Locals)
    requires r < 12 && i < 8
    requires a != b && a != c && a != d && b != c && b != d && c != d
    ensures
      var s := SigmaRow(r);
      Exec(GenG(r, i, V(a), V(b), V(c), V(d)), l)
      == l.(v := G(l.v, a, b, c, d, l.m[s[2 * i]], l.m[s[2 * i + 1]]))
  {
    hide Rotr, Xor64, Add64, SigmaRow;
    var x, y := M(SigmaRow(r)[2 * i]), M(SigmaRow(r)[2 * i + 1]);
    var code := GenG(r, i, V(a), V(b), V(c), V(d));
    HalfCorrect(a, b, c, d, x, 32, 24, l);
    var l' := Exec(code[..4], l);
    HalfCorrect(a, b, c, d, y, 16, 63, l');
    assert code[..4] == Half(V(a), V(b), V(c), V(d), x, 32, 24);
    assert code[4..] == Half(V(a), V(b), V(c), V(d), y, 16, 63);
    assert code == code[..4] + code[4..];
    ExecConcat(code[..4], code[4..], l);
  }

  function Half(a: Local, b: Local, c: Local, d: Local, x: Local, k: u64, k': u64): seq<Instr> {
    [ SetLocal(a, Add(GetLocal(a), Add(GetLocal(b), GetLocal(x)))),
      SetLocal(d, RotrBy(Xor(GetLocal(d), GetLocal(a)), Const(k))),
      SetLocal(c, Add(GetLocal(c), GetLocal(d))),
      SetLocal(b, RotrBy(Xor(GetLocal(b), GetLocal(c)), Const(k'))) ]
  }

  lemma EvalSum(a: Local, b: Local, x: Local, l: Locals)
    ensures Eval(Add(GetLocal(a), Add(GetLocal(b), GetLocal(x))), l) == Add64(Add64(Get(l, a), Get(l, b)), Get(l, x))
  {
    AddAssociates(Get(l, a), Get(l, b), Get(l, x));
    assert Eval(Add(GetLocal(b), GetLocal(x)), l) == Add64(Get(l, b), Get(l, x));
  }

  lemma EvalTurned(d: Local, a: Local, k: u64, l: Locals)
    requires 0 < k < 64
    ensures Eval(RotrBy(Xor(GetLocal(d), GetLocal(a)), Const(k)), l) == Rotr(Xor64(Get(l, d), Get(l, a)), k)
  {
    hide Rotr, Xor64, Get;
    assert Eval(Xor(GetLocal(d), GetLocal(a)), l) == Xor64(Get(l, d), Get(l, a));
  }

  lemma ExecFour(code: seq<Instr>, l: Locals)
    requires |code| == 4
    ensures
      var l1 := Set(l, code[0].x, Eval(code[0].e, l));
      var l2 := Set(l1, code[1].x, Eval(code[1].e, l1));
      var l3 := Set(l2, code[2].x, Eval(code[2].e, l2));
      Exec(code, l) == Set(l3, code[3].x, Eval(code[3].e, l3))
  {
    hide Set, Eval;
    var l1 := Set(l, code[0].x, Eval(code[0].e, l));
    var l2 := Set(l1, code[1].x, Eval(code[1].e, l1));
    var l3 := Set(l2, code[2].x, Eval(code[2].e, l2));
    var l4 := Set(l3, code[3].x, Eval(code[3].e, l3));
    assert Exec(code, l) == Exec(code[1..], l1) == Exec(code[1..][1..], l2);
    assert Exec(code[1..][1..], l2) == Exec(code[1..][1..][1..], l3) == l4;
  }

  lemma HalfCorrect(a: index16, b: index16, c: index16, d: index16, x: Local, k: u64, k': u64, l: Locals)
    requires 0 < k < 64 && 0 < k' < 64 && x.M?
    requires a != b && a != c && a != d && b != c && b != d && c != d
    ensures
      var a1 := Add64(Add64(l.v[a], l.v[b]), Get(l, x));
      var d1 := Rotr(Xor64(l.v[d], a1), k);
      var c1 := Add64(l.v[c], d1);
      var b1 := Rotr(Xor64(l.v[b], c1), k');
      Exec(Half(V(a), V(b), V(c), V(d), x, k, k'), l) == l.(v := l.v[a := a1][b := b1][c := c1][d := d1])
  {
    hide Rotr, Xor64, Add64, Exec;
    var a1 := Add64(Add64(l.v[a], l.v[b]), Get(l, x));
    var d1 := Rotr(Xor64(l.v[d], a1), k);
    var c1 := Add64(l.v[c], d1);
    var b1 := Rotr(Xor64(l.v[b], c1), k');
    ExecFour(Half(V(a), V(b), V(c), V(d), x, k, k'), l);
    EvalSum(V(a), V(b), x, l);
    var l1 := Set(l, V(a), a1);
    EvalTurned(V(d), V(a), k, l1);
    var l2 := Set(l1, V(d), d1);
    var l3 := Set(l2, V(c), c1);
    EvalTurned(V(b), V(c), k', l3);
    assert Set(l3, V(b), b1).v == l.v[a := a1][b := b1][c := c1][d := d1];
  }

  /** One emitted round is the RFC's round with the row of its number. */
  lemma GenRoundCorrect(r: nat, l: Locals)
    requires r < 12
    ensures Exec(GenRound(r), l) == l.(v := Round(l.v, l.m, SigmaRow(r)))
  {
    hide G, SigmaRow, GenG, Exec;
    var s, m := SigmaRow(r), l.m;
    var p0, p1 := GenG(r, 0, V(0), V(4), V(8), V(12)), GenG(r, 1, V(1), V(5), V(9), V(13));
    var p2, p3 := GenG(r, 2, V(2), V(6), V(10), V(14)), GenG(r, 3, V(3), V(7), V(11), V(15));
    var p4, p5 := GenG(r, 4, V(0), V(5), V(10), V(15)), GenG(r, 5, V(1), V(6), V(11), V(12));
    var p6, p7 := GenG(r, 6, V(2), V(7), V(8), V(13)), GenG(r, 7, V(3), V(4), V(9), V(14));
    ExecConcat(p0 + p1 + p2 + p3 + p4 + p5 + p6, p7, l);
    ExecConcat(p0 + p1 + p2 + p3 + p4 + p5, p6, l);
    ExecConcat(p0 + p1 + p2 + p3 + p4, p5, l);
    ExecConcat(p0 + p1 + p2 + p3, p4, l);
    ExecConcat(p0 + p1 + p2, p3, l);
    ExecConcat(p0 + p1, p2, l);
    ExecConcat(p0, p1, l);
    var v1 := G(l.v, 0, 4, 8, 12, m[s[0]], m[s[1]]);
    var v2 := G(v1, 1, 5, 9, 13, m[s[2]], m[s[3]]);
    var v3 := G(v2, 2, 6, 10, 14, m[s[4]], m[s[5]]);
    var v4 := G(v3, 3, 7, 11, 15, m[s[6]], m[s[7]]);
    var v5 := G(v4, 0, 5, 10, 15, m[s[8]], m[s[9]]);
    var v6 := G(v5, 1, 6, 11, 12, m[s[10]], m[s[11]]);
    var v7 := G(v6, 2, 7, 8, 13, m[s[12]], m[s[13]]);
    GenGCorrect(r, 0, 0, 4, 8, 12, l);
    GenGCorrect(r, 1, 1, 5, 9, 13, l.(v := v1));
    GenGCorrect(r, 2, 2, 6, 10, 14, l.(v := v2));
    GenGCorrect(r, 3, 3, 7, 11, 15, l.(v := v3));
    GenGCorrect(r, 4, 0, 5, 10, 15, l.(v := v4));
    GenGCorrect(r, 5, 1, 6, 11, 12, l.(v := v5));
    GenGCorrect(r, 6, 2, 7, 8, 13, l.(v := v6));
    GenGCorrect(r, 7, 3, 4, 9, 14, l.(v := v7));
  }

  /** The emitted rounds compute the RFC's rounds on any sixteen state and message words, and
      leave the message words alone. */
  lemma {:induction false} GenRoundsCorrect(n: nat, l: Locals)
    requires n <= 12
    ensures Exec(GenRounds(n), l) == l.(v := Rounds(l.v, l.m, n))
  {
    hide Round, Sigma, SigmaRow, GenRound;
    if n == 0 {
      assert GenRounds(0) == [];
    } else {
      GenRoundsCorrect(n - 1, l);
      ExecConcat(GenRounds(n - 1), GenRound(n - 1), l);
      GenRoundCorrect(n - 1, l.(v := Rounds(l.v, l.m, n - 1)));
      RowIsRfc(n - 1);
    }
  }
}
