/** modules/blake2b/index.js: BLAKE2b on 32-bit cells, with work arrays shared by all instances. */
module Blake2bJs {
  import opened Words
  import opened Wrappers
  import opened Rfc7693
  import opened Cells
  import opened Schedule
  import opened Generator
  import opened Streaming
  import opened StreamingProofs
  import opened Parameters
  import opened Machine

  /** The module's global arrays `v`, `m` and `parameter_block`. */
  class Globals {
    const v: array<u32>
    const m: array<u32>
    const parameterBlock: array<u8>

    predicate Shape() {
      v.Length == 32 && m.Length == 32 && parameterBlock.Length == 64 && v != m
    }

    constructor ()
      ensures Shape() && fresh(v) && fresh(m) && fresh(parameterBlock)
    {
      v := new u32[32](_ => 0);
      m := new u32[32](_ => 0);
      parameterBlock := new u8[64](_ => 0);
    }

    /** v[a,a+1] += v[b,b+1], the carry passed by hand. */
    method Add64AA(a: nat, b: nat)
      requires Shape()
      requires a % 2 == 0 && b % 2 == 0 && a < 32 && b < 32
      modifies v
      ensures var w := old(Pairs(v[..])); Pairs(v[..]) == w[a / 2 := Add64(w[a / 2], w[b / 2])]
    {
      var a0: nat, a1: nat, b0: nat, b1: nat := v[a], v[a + 1], v[b], v[b + 1];
      var o0 := a0 + b0;
      var o1 := a1 + b1;
      if o0 >= 0x1_0000_0000 {
        o1 := o1 + 1;
      }
      CarryByHand(v[a], v[a + 1], v[b], v[b + 1], o0, o1);
      PairsUpdate(v[..], a, ToUint32(o0), ToUint32(o1));
      ghost var before := v[..];
      v[a] := ToUint32(o0);
      v[a + 1] := ToUint32(o1);
      assert v[..] == SetPair(before, a, ToUint32(o0), ToUint32(o1));
    }

    /** v[a,a+1] += the word with halves b0 and b1; a negative b0 stands for b0 + 2^32. */
    method Add64AC(a: nat, b0: int, b1: int)
      requires Shape()
      requires a % 2 == 0 && a < 32
      requires -0x8000_0000 <= b0 < TWO_32 && -0x8000_0000 <= b1 < TWO_32
      modifies v
      ensures
        var w := old(Pairs(v[..]));
        Pairs(v[..]) == w[a / 2 := Add64(w[a / 2], Join(ToUint32(b0), ToUint32(b1)))]
    {
      var a0: nat, a1: nat := v[a], v[a + 1];
      var o0 := a0 + b0;
      if b0 < 0 {
        o0 := o0 + 0x1_0000_0000;
      }
      var o1 := a1 + b1;
      if o0 >= 0x1_0000_0000 {
        o1 := o1 + 1;
      }
      SignedCarry(v[a], v[a + 1], b0, b1, o0, o1);
      PairsUpdate(v[..], a, ToUint32(o0), ToUint32(o1));
      ghost var before := v[..];
      v[a] := ToUint32(o0);
      v[a + 1] := ToUint32(o1);
      assert v[..] == SetPair(before, a, ToUint32(o0), ToUint32(o1));
    }

    /** The first half of `B2B_G`: rotations by 32 and 24. */
    method MixFirstHalf(a: nat, b: nat, c: nat, d: nat, x0: u32, x1: u32)
      requires Shape()
      requires a % 2 == b % 2 == c % 2 == d % 2 == 0
      requires a < 32 && b < 32 && c < 32 && d < 32
      modifies v
      ensures Pairs(v[..]) == HalfMix(old(Pairs(v[..])), a / 2, b / 2, c / 2, d / 2, Join(x0, x1), 32, 24)
    {
      hide Rotr, Add64, Xor64, Xor32, Join, ShiftLeft, ShiftRight, Pairs;
      Add64AA(a, b);
      Add64AC(a, x0, x1);

      ghost var s := v[..];
      var xor0, xor1 := Xor32(v[d], v[a]), Xor32(v[d + 1], v[a + 1]);
      v[d] := xor1;
      v[d + 1] := xor0;
      assert v[..] == SetPair(s, d, v[d], v[d + 1]);
      RotatedPair32(s, d, a);

      Add64AA(c, d);

      s := v[..];
      xor0, xor1 := Xor32(v[b], v[c]), Xor32(v[b + 1], v[c + 1]);
      v[b] := Xor32(ShiftRight(xor0, 24), ShiftLeft(xor1, 8));
      v[b + 1] := Xor32(ShiftRight(xor1, 24), ShiftLeft(xor0, 8));
      assert v[..] == SetPair(s, b, v[b], v[b + 1]);
      RotatedPair24(s, b, c);
    }

    /** The second half of `B2B_G`: rotations by 16 and 63. */
    method MixSecondHalf(a: nat, b: nat, c: nat, d: nat, y0: u32, y1: u32)
      requires Shape()
      requires a % 2 == b % 2 == c % 2 == d % 2 == 0
      requires a < 32 && b < 32 && c < 32 && d < 32
      modifies v
      ensures Pairs(v[..]) == HalfMix(old(Pairs(v[..])), a / 2, b / 2, c / 2, d / 2, Join(y0, y1), 16, 63)
    {
      hide Rotr, Add64, Xor64, Xor32, Join, ShiftLeft, ShiftRight, Pairs;
      Add64AA(a, b);
      Add64AC(a, y0, y1);

      ghost var s := v[..];
      var xor0, xor1 := Xor32(v[d], v[a]), Xor32(v[d + 1], v[a + 1]);
      v[d] := Xor32(ShiftRight(xor0, 16), ShiftLeft(xor1, 16));
      v[d + 1] := Xor32(ShiftRight(xor1, 16), ShiftLeft(xor0, 16));
      assert v[..] == SetPair(s, d, v[d], v[d + 1]);
      RotatedPair16(s, d, a);

      Add64AA(c, d);

      s := v[..];
      xor0, xor1 := Xor32(v[b], v[c]), Xor32(v[b + 1], v[c + 1]);
      v[b] := Xor32(ShiftRight(xor1, 31), ShiftLeft(xor0, 1));
      v[b + 1] := Xor32(ShiftRight(xor0, 31), ShiftLeft(xor1, 1));
      assert v[..] == SetPair(s, b, v[b], v[b + 1]);
      RotatedPair63(s, b, c);
    }

    /** Mixing on the cells of `v` is the RFC's function G on its words. */
    method B2B_G(a: nat, b: nat, c: nat, d: nat, ix: nat, iy: nat)
      requires Shape()
      requires a % 2 == b % 2 == c % 2 == d % 2 == ix % 2 == iy % 2 == 0
      requires a < 32 && b < 32 && c < 32 && d < 32 && ix < 32 && iy < 32
      requires a != b && a != c && a != d && b != c && b != d && c != d
      modifies v
      ensures Pairs(v[..]) == G(old(Pairs(v[..])), a / 2, b / 2, c / 2, d / 2, Pairs(m[..])[ix / 2], Pairs(m[..])[iy / 2])
    {
      hide HalfMix, G, Join, Pairs;
      var x0, x1, y0, y1 := m[ix], m[ix + 1], m[iy], m[iy + 1];
      GInSteps(Pairs(v[..]), a / 2, b / 2, c / 2, d / 2, Join(x0, x1), Join(y0, y1));
      PairsAt(m[..], ix);
      PairsAt(m[..], iy);
      MixFirstHalf(a, b, c, d, x0, x1);
      MixSecondHalf(a, b, c, d, y0, y1);
    }

    /** The body of the loop over rounds. */
    method MixRound(i: nat)
      requires Shape() && i < 12
      modifies v
      ensures Pairs(v[..]) == Round(old(Pairs(v[..])), Pairs(m[..]), Sigma(i % 10))
    {
      hide G, Sigma, Pairs;
      var table := SIGMA82();
      forall j | 0 <= j < 16
        ensures table[i * 16 + j] / 2 == Sigma(i % 10)[j]
      {
        TableAt(i, j);
      }
      B2B_G(0, 8, 16, 24, table[i * 16 + 0], table[i * 16 + 1]);
      B2B_G(2, 10, 18, 26, table[i * 16 + 2], table[i * 16 + 3]);
      B2B_G(4, 12, 20, 28, table[i * 16 + 4], table[i * 16 + 5]);
      B2B_G(6, 14, 22, 30, table[i * 16 + 6], table[i * 16 + 7]);
      B2B_G(0, 10, 20, 30, table[i * 16 + 8], table[i * 16 + 9]);
      B2B_G(2, 12, 22, 24, table[i * 16 + 10], table[i * 16 + 11]);
      B2B_G(4, 14, 16, 26, table[i * 16 + 12], table[i * 16 + 13]);
      B2B_G(6, 8, 18, 28, table[i * 16 + 14], table[i * 16 + 15]);
    }

    /** The loop over rounds computes the RFC's rounds, and so does the straight-line code that the
        generator emits, on the 64-bit words kept in the cells. */
    method MixRounds()
      requires Shape()
      modifies v
      ensures Pairs(v[..]) == Rounds(old(Pairs(v[..])), Pairs(m[..]), 12)
      ensures Pairs(v[..]) == Exec(GenRounds(12), Locals(old(Pairs(v[..])), Pairs(m[..]))).v
    {
      hide Pairs, Round, Sigma, Exec, GenRounds;
      ghost var l := Locals(Pairs(v[..]), Pairs(m[..]));
      for i := 0 to 12
        invariant Pairs(v[..]) == Rounds(l.v, l.m, i)
      {
        MixRound(i);
      }
      GenRoundsCorrect(12, l);
    }
  }

  /** A hashing context. */
  class Blake2b {
    const b: array<u8>
    const h: array<u32>
    var t: nat
    var c: nat
    const outlen: nat

    ghost predicate Valid()
      reads this
    {
      b.Length == 128 && h.Length == 16 && c <= 128
    }

    ghost function Model(): Stream
      reads this, b, h
      requires Valid()
    {
      Ctx(b[..], Pairs(h[..]), t, c)
    }

    /** Creates a context from its parameter block, then absorbs the key if there is one. */
    constructor (g: Globals, outlen: nat, key: Option<seq<u8>>, salt: Option<seq<u8>>, personal: Option<seq<u8>>)
      requires g.Shape()
      requires FitsBlock(salt, personal)
      requires Size(key) < 0x20_0000_0000_0000
      modifies g.v, g.m, g.parameterBlock
      ensures Valid() && fresh(b) && fresh(h) && this.outlen == outlen
      ensures Model() == Open(outlen, key, salt, personal)
    {
      b := new u8[128](_ => 0);
      h := new u32[16](_ => 0);
      t := 0;
      c := 0;
      this.outlen := outlen;
      new;
      hide Pairs, InitialFrom, F, ParameterBlock;
      FillParameterBlock(g.parameterBlock, outlen, Size(key), salt, personal);
      InitState(g.parameterBlock);
      assert b[..] == Zeros(128);
      if key.Some? {
        Update(g, key.value);
        c := 128;
      }
    }

    /** The loop of the constructor over the cells of h. */
    method InitState(p: array<u8>)
      requires Valid() && p.Length == 64
      modifies h
      ensures Pairs(h[..]) == InitialFrom(p[..])
    {
      hide Pairs, Xor32, LittleEndian32, InitialFrom;
      for i := 0 to 16
        invariant forall k :: 0 <= k < i ==> h[k] == Xor32(BLAKE2B_IV32[k], LittleEndian32(p[..], 4 * k))
      {
        h[i] := Xor32(BLAKE2B_IV32[i], B2B_GET32(p[..], i * 4));
      }
      InitialCells(h[..], p[..]);
    }

    /** The first part of `blake2bCompress`: the work vector. */
    method InitWork(g: Globals, last: bool)
      requires Valid() && g.Shape() && h != g.v
      requires t < 0x20_0000_0000_0000
      modifies g.v
      ensures Pairs(g.v[..]) == WorkVector(Pairs(h[..]), t, last)
    {
      hide Pairs, WorkVector, Xor32, Not32;
      var v := g.v;
      for i := 0 to 16
        invariant forall k :: 0 <= k < i ==> v[k] == h[k] && v[k + 16] == BLAKE2B_IV32[k]
      {
        v[i] := h[i];
        v[i + 16] := BLAKE2B_IV32[i];
      }
      v[24] := Xor32(v[24], ToUint32(t));
      v[25] := Xor32(v[25], ToUint32(t / 0x1_0000_0000));
      if last {
        v[28] := Not32(v[28]);
        v[29] := Not32(v[29]);
      }
      assert v[..] == WorkCells(h[..], t, last);
      WorkCellsIsRfc(h[..], Pairs(h[..]), t, last, v[..]);
    }

    /** The second part: the message words. */
    method LoadMessage(g: Globals)
      requires Valid() && g.Shape()
      modifies g.m
      ensures Pairs(g.m[..]) == BlockWords(b[..])
    {
      hide LittleEndian32, Pairs, BlockWords;
      var m := g.m;
      for i := 0 to 32
        invariant forall k :: 0 <= k < i ==> m[k] == LittleEndian32(b[..], 4 * k)
      {
        m[i] := B2B_GET32(b[..], 4 * i);
      }
      MessageCells(m[..], b[..]);
    }

    /** `blake2bCompress(ctx, last)` is the RFC's F, whatever the shared arrays held before. */
    method Compress(g: Globals, last: bool)
      requires Valid() && g.Shape() && h != g.v && h != g.m
      requires t < 0x20_0000_0000_0000
      modifies h, g.v, g.m
      ensures Valid()
      ensures Pairs(h[..]) == F(old(Pairs(h[..])), b[..], t, last)
    {
      hide Pairs, Rounds, WorkVector, BlockWords, Fold, Xor32, Exec, GenRounds;
      ghost var h0 := h[..];
      InitWork(g, last);
      ghost var w := Pairs(g.v[..]);
      LoadMessage(g);
      ghost var words := BlockWords(b[..]);
      g.MixRounds();
      ghost var v := g.v[..];
      for i := 0 to 16
        invariant g.v[..] == v
        invariant forall k :: 0 <= k < i ==> h[k] == Xor32(Xor32(h0[k], v[k]), v[k + 16])
        invariant forall k :: i <= k < 16 ==> h[k] == h0[k]
      {
        assert g.v[i] == v[i] && g.v[i + 16] == v[i + 16];
        h[i] := Xor32(Xor32(h[i], g.v[i]), g.v[i + 16]);
      }
      FoldCells(h0, v, h[..]);
    }

    /** `blake2bUpdate(ctx, input)` */
    method Update(g: Globals, input: seq<u8>)
      requires Valid() && g.Shape() && h != g.v && h != g.m
      requires t + c + |input| < 0x20_0000_0000_0000
      modifies this`t, this`c, b, h, g.v, g.m
      ensures Valid()
      ensures Model() == Absorb(old(Model()), input)
    {
      hide Pairs, F;
      ghost var before := Model();
      AbsorbNothing(before);
      assert input[..0] == [];
      for i := 0 to |input|
        invariant Valid()
        invariant t + c == before.t + before.c + i
        invariant Model() == Absorb(before, input[..i])
      {
        AbsorbNext(before, input, i);
        if c == 128 {
          t := t + c;
          Compress(g, false);
          c := 0;
        }
        b[c] := input[i];
        c := c + 1;
      }
      assert input[..|input|] == input;
    }

    /** `blake2bFinal(ctx, out)` */
    method Final(g: Globals, out: array<u8>)
      requires Valid() && g.Shape() && h != g.v && h != g.m
      requires out != b && out.Length >= outlen
      requires t + c < 0x20_0000_0000_0000
      modifies this`t, this`c, b, h, g.v, g.m, out
      ensures Valid()
      ensures Model() == Finish(old(Model()))
      ensures out[..] == Padded(Model().h, outlen) + old(out[outlen..])
    {
      hide Pairs, F, Padded;
      ghost var before := Model();
      t := t + c;
      while c < 128
        invariant t == before.t + before.c
        invariant before.c <= c <= 128
        invariant b[..c] == before.b[..before.c] + Zeros(c - before.c)
        invariant Pairs(h[..]) == before.h && unchanged(out)
        decreases 128 - c
      {
        b[c] := 0;
        c := c + 1;
      }
      assert b[..] == b[..128];
      Compress(g, true);
      assert Model() == Finish(before);
      WriteOutput(out);
    }

    /** The loop at the end of `blake2bFinal`. */
    method WriteOutput(out: array<u8>)
      requires Valid()
      requires out != b && out.Length >= outlen
      modifies out
      ensures out[..] == Padded(Pairs(h[..]), outlen) + old(out[outlen..])
    {
      hide Pairs, Padded, SignedShift;
      ghost var before := out[..];
      for i := 0 to outlen
        invariant out[..] == Padded(Pairs(h[..]), i) + before[i..]
      {
        OutputNext(h[..], i);
        var x := OutputByte(h[..], i);
        OneMoreByte(Padded(Pairs(h[..]), i), before, x);
        out[i] := x;
      }
    }

    /** `digest(out)`: an output array that is too small is refused before anything changes. */
    method Digest(g: Globals, out: array?<u8>) returns (r: HashResult<array<u8>>)
      requires Valid() && g.Shape() && h != g.v && h != g.m
      requires out != null ==> out != b
      requires t + c < 0x20_0000_0000_0000
      modifies this`t, this`c, b, h, g.v, g.m, out
      ensures Valid()
      ensures r == Err(OutputTooSmall) <==> out != null && out.Length < outlen
      ensures r.Err? ==> r == Err(OutputTooSmall) && Model() == old(Model()) && unchanged(out)
      ensures r.Ok? ==>
        && Model() == Finish(old(Model()))
        && (if out == null then fresh(r.value) else r.value == out)
        && r.value[..] == Padded(Model().h, outlen) + (if out == null then [] else old(out[outlen..]))
    {
      var buf: array<u8>;
      if out == null {
        buf := new u8[outlen](_ => 0);
      } else {
        buf := out;
      }
      if buf.Length < outlen {
        return Err(OutputTooSmall);
      }
      Final(g, buf);
      return Ok(buf);
    }
  }

  /** `createHash`: the checks, unless switched off, then a new context.  With the checks off a salt
      or personalisation that overruns the parameter block still fails in `set`. */
  method CreateHash(g: Globals, outlen: nat, key: Option<seq<u8>>, salt: Option<seq<u8>>,
                    personal: Option<seq<u8>>, noAssert: bool)
    returns (r: HashResult<Blake2b>)
    requires g.Shape()
    requires Size(key) < 0x20_0000_0000_0000
    modifies g.v, g.m, g.parameterBlock
    ensures !noAssert ==>
      (r.Ok? <==>
        && 16 <= outlen <= 64
        && (key.Some? ==> 16 <= |key.value| <= 64)
        && (salt.Some? ==> |salt.value| == 16)
        && (personal.Some? ==> |personal.value| == 16))
    ensures !noAssert ==> (r == Err(BadOutputLength) <==> !(16 <= outlen <= 64))
    ensures !noAssert ==>
      (r == Err(BadKeyLength) <==> 16 <= outlen <= 64 && key.Some? && !(16 <= |key.value| <= 64))
    ensures !noAssert ==>
      (r == Err(BadSaltLength) <==>
        16 <= outlen <= 64 && (key.Some? ==> 16 <= |key.value| <= 64) && salt.Some? && |salt.value| != 16)
    ensures !noAssert ==>
      (r == Err(BadPersonalLength) <==>
        && 16 <= outlen <= 64 && (key.Some? ==> 16 <= |key.value| <= 64)
        && (salt.Some? ==> |salt.value| == 16) && personal.Some? && |personal.value| != 16)
    ensures !noAssert ==> r.Err? == Check(outlen, key, salt, personal).Some?
    ensures !noAssert && r.Err? ==> Some(r.error) == Check(outlen, key, salt, personal)
    ensures noAssert ==> r.Err? == !FitsBlock(salt, personal)
    ensures noAssert && r.Err? ==> r.error == Overrun
    ensures r.Ok? ==>
      var ctx := r.value;
      && fresh(ctx) && fresh(ctx.b) && fresh(ctx.h) && ctx.Valid() && ctx.outlen == outlen
      && FitsBlock(salt, personal)
      && ctx.Model() == Open(outlen, key, salt, personal)
  {
    if !noAssert {
      var e := Check(outlen, key, salt, personal);
      if e.Some? {
        return Err(e.value);
      }
    }
    if salt.Some? && |salt.value| > 32 {
      return Err(Overrun);
    }
    if personal.Some? && |personal.value| > 16 {
      return Err(Overrun);
    }
    var ctx := new Blake2b(g, outlen, key, salt, personal);
    return Ok(ctx);
  }

  // ----- Many contexts over the same global arrays

  /** Contexts share nothing but the global arrays. */
  ghost predicate Separate(g: Globals, ctxs: seq<Blake2b>)
    reads ctxs
  {
    && g.Shape()
    && (forall k :: 0 <= k < |ctxs| ==> ctxs[k].Valid() && ctxs[k].h != g.v && ctxs[k].h != g.m)
    && (forall k, l :: 0 <= k < l < |ctxs| ==>
         ctxs[k] != ctxs[l] && ctxs[k].b != ctxs[l].b && ctxs[k].h != ctxs[l].h)
  }

  /** The contexts and their arrays. */
  ghost function Footprint(ctxs: seq<Blake2b>): set<object> {
    (set k | 0 <= k < |ctxs| :: ctxs[k])
    + (set k | 0 <= k < |ctxs| :: ctxs[k].b)
    + (set k | 0 <= k < |ctxs| :: ctxs[k].h)
  }

  /** The contexts are in the states of the machine's instances. */
  ghost predicate Represents(ctxs: seq<Blake2b>, all: seq<Instance>)
    reads Footprint(ctxs)
  {
    && |ctxs| == |all|
    && forall k :: 0 <= k < |ctxs| ==>
         ctxs[k].Valid() && ctxs[k].Model() == all[k].s && ctxs[k].outlen == all[k].outlen
  }

  /** Creating one more context. */
  method StepCreate(g: Globals, ctxs: seq<Blake2b>, op: Op, ghost all: seq<Instance>)
    returns (ctxs': seq<Blake2b>, out: Out)
    requires op.Create? && Separate(g, ctxs) && Represents(ctxs, all) && Applies(JS, |all|, op)
    requires Weight(op) < 0x20_0000_0000_0000
    requires forall k :: 0 <= k < |all| ==> all[k].s.t + all[k].s.c + Weight(op) < 0x20_0000_0000_0000
    modifies g.v, g.m, g.parameterBlock, Footprint(ctxs)
    ensures Sane(JS, all) && Separate(g, ctxs')
    ensures Represents(ctxs', Step(JS, all, op).0) && out == Step(JS, all, op).1
    ensures fresh(Footprint(ctxs') - Footprint(ctxs))
  {
    hide Open, Check, Pairs;
    var r := CreateHash(g, op.outlen, op.key, op.salt, op.personal, op.noAssert);
    if r.Err? {
      return ctxs, Rejected(r.error);
    }
    return ctxs + [r.value], Created;
  }

  /** Updating one of the contexts. */
  method StepUpdate(g: Globals, ctxs: seq<Blake2b>, op: Op, ghost all: seq<Instance>)
    returns (ctxs': seq<Blake2b>, out: Out)
    requires op.Update? && Separate(g, ctxs) && Represents(ctxs, all) && Applies(JS, |all|, op)
    requires Weight(op) < 0x20_0000_0000_0000
    requires forall k :: 0 <= k < |all| ==> all[k].s.t + all[k].s.c + Weight(op) < 0x20_0000_0000_0000
    modifies g.v, g.m, g.parameterBlock, Footprint(ctxs)
    ensures Sane(JS, all) && Separate(g, ctxs')
    ensures Represents(ctxs', Step(JS, all, op).0) && out == Step(JS, all, op).1
    ensures fresh(Footprint(ctxs') - Footprint(ctxs))
  {
    hide Finish, Absorb, Padded, Pairs;
    ctxs[op.id].Update(g, op.bytes);
    return ctxs, Updated;
  }

  /** Taking the digest of one of the contexts. */
  method StepDigest(g: Globals, ctxs: seq<Blake2b>, op: Op, ghost all: seq<Instance>)
    returns (ctxs': seq<Blake2b>, out: Out)
    requires op.Digest? && Separate(g, ctxs) && Represents(ctxs, all) && Applies(JS, |all|, op)
    requires Weight(op) < 0x20_0000_0000_0000
    requires forall k :: 0 <= k < |all| ==> all[k].s.t + all[k].s.c + Weight(op) < 0x20_0000_0000_0000
    modifies g.v, g.m, g.parameterBlock, Footprint(ctxs)
    ensures Sane(JS, all) && Separate(g, ctxs')
    ensures Represents(ctxs', Step(JS, all, op).0) && out == Step(JS, all, op).1
    ensures fresh(Footprint(ctxs') - Footprint(ctxs))
  {
    hide Finish, Absorb, Padded, Pairs;
    var ctx := ctxs[op.id];
    var buf: array?<u8> := null;
    if op.out.Some? {
      var bytes := op.out.value;
      buf := new u8[|bytes|](k requires 0 <= k < |bytes| => bytes[k]);
      assert buf[..] == bytes;
    }
    var r := ctx.Digest(g, buf);
    if r.Err? {
      return ctxs, Rejected(r.error);
    }
    return ctxs, Digested(r.value[..]);
  }

  /** One operation on contexts that share the global arrays. */
  method StepContexts(g: Globals, ctxs: seq<Blake2b>, op: Op, ghost all: seq<Instance>)
    returns (ctxs': seq<Blake2b>, out: Out)
    requires Separate(g, ctxs) && Represents(ctxs, all) && Applies(JS, |all|, op)
    requires Weight(op) < 0x20_0000_0000_0000
    requires forall k :: 0 <= k < |all| ==> all[k].s.t + all[k].s.c + Weight(op) < 0x20_0000_0000_0000
    modifies g.v, g.m, g.parameterBlock, Footprint(ctxs)
    ensures Sane(JS, all) && Separate(g, ctxs')
    ensures Represents(ctxs', Step(JS, all, op).0) && out == Step(JS, all, op).1
    ensures fresh(Footprint(ctxs') - Footprint(ctxs))
  {
    hide Step, Represents, Separate, Footprint, Weight;
    if op.Create? {
      ctxs', out := StepCreate(g, ctxs, op, all);
    } else if op.Update? {
      ctxs', out := StepUpdate(g, ctxs, op, all);
    } else {
      ctxs', out := StepDigest(g, ctxs, op, all);
    }
  }

  /** Any interleaving of operations on any number of contexts: every output, and every context at
      the end, is what the machine without shared storage gives, although all contexts compute in
      the same global arrays.  Byte counters stay below 2^53, where JavaScript numbers are exact. */
  method RunContexts(g: Globals, ctxs: seq<Blake2b>, ops: seq<Op>, ghost all: seq<Instance>)
    returns (ctxs': seq<Blake2b>, outs: seq<Out>)
    requires Separate(g, ctxs) && Represents(ctxs, all) && Sane(JS, all)
    requires Runnable(JS, |all|, ops)
    requires TotalWeight(ops) < 0x20_0000_0000_0000
    requires forall k :: 0 <= k < |all| ==> all[k].s.t + all[k].s.c + TotalWeight(ops) < 0x20_0000_0000_0000
    modifies g.v, g.m, g.parameterBlock, Footprint(ctxs)
    ensures outs == Run(JS, all, ops).1
    ensures Represents(ctxs', Run(JS, all, ops).0)
    decreases |ops|
  {
    hide Step, Grows, Weight, Represents, Separate, Footprint;
    if ops == [] {
      return ctxs, [];
    }
    StepWeight(JS, all, ops[0]);
    var ctxs1, out := StepContexts(g, ctxs, ops[0], all);
    ctxs', outs := RunContexts(g, ctxs1, ops[1..], Step(JS, all, ops[0]).0);
    outs := [out] + outs;
  }

  lemma OneMoreByte(done: seq<u8>, before: seq<u8>, x: u8)
    requires |done| < |before|
    ensures (done + before[|done|..])[|done| := x] == done + [x] + before[|done| + 1..]
  {
  }

  /** Zeroes the block and sets its fields. */
  method FillParameterBlock(p: array<u8>, outlen: nat, keyLength: nat, salt: Option<seq<u8>>, personal: Option<seq<u8>>)
    requires p.Length == 64
    requires FitsBlock(salt, personal)
    modifies p
    ensures p[..] == ParameterBlock(outlen, keyLength, salt, personal)
  {
    forall i | 0 <= i < 64 {
      p[i] := 0;
    }
    p[0] := ToUint8(outlen);
    p[1] := ToUint8(keyLength);
    p[2] := 1;
    p[3] := 1;
    ghost var head: seq<u8> := [ToUint8(outlen), ToUint8(keyLength), 1, 1];
    assert p[..] == head + Zeros(60);
    SetBytes(p, 32, salt);
    SetBytes(p, 48, personal);
  }

  /** `p.set(bytes, at)` for bytes that fit. */
  method SetBytes(p: array<u8>, at: nat, bytes: Option<seq<u8>>)
    requires bytes.Some? ==> at + |bytes.value| <= p.Length
    modifies p
    ensures p[..] == Write(old(p[..]), at, bytes)
  {
    if bytes.Some? {
      var v := bytes.value;
      forall i | 0 <= i < |v| {
        p[at + i] := v[i];
      }
    }
  }
}
