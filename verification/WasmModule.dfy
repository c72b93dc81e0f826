/** The WebAssembly module behind modules/blake2b-wasm: its linear memory, the `realloc` of
    blake2b.js and the exported functions of blake2b.wat. */
module WasmModule {
  import opened Words
  import opened Wrappers
  import opened Rfc7693
  import opened LinearMemory
  import opened Generator
  import opened Streaming
  import opened StreamingProofs
  import opened Parameters

  const PAGE: nat := 65536

  /** The module declares at most 1000 pages. */
  const MAX_MEMORY: nat := 1000 * PAGE

  /** The slot at p holds the stream, with its flag. */
  predicate Holds(mem: seq<u8>, p: nat, s: Stream, flag: u64) {
    && p + SLOT <= |mem|
    && s.t < TWO_64
    && mem[p..p + SLOT] == StateBytes(s.b, FieldsOf(s.h, s.t, s.c, flag))
  }

  /** The memory with the stream written into the slot at p. */
  function Put(mem: seq<u8>, p: nat, s: Stream, flag: u64): (r: seq<u8>)
    requires p + SLOT <= |mem| && s.t < TWO_64
    ensures |r| == |mem|
  {
    Image(mem, p, s.b, FieldsOf(s.h, s.t, s.c, flag))
  }

  // ----- What the compression function loads and stores

  function LoadState(mem: seq<u8>, p: nat): Words8
    requires p + SLOT <= |mem|
  {
    seq(8, k requires 0 <= k < 8 => Load64(mem, p + 128 + 8 * k))
  }

  function LoadMessage(mem: seq<u8>, p: nat): Rfc7693.State
    requires p + SLOT <= |mem|
  {
    seq(16, k requires 0 <= k < 16 => Load64(mem, p + 8 * k))
  }

  lemma LoadedState(mem: seq<u8>, p: nat, b: Block, h: Words8, t: u64, c: u64, f: u64)
    requires p + SLOT <= |mem|
    ensures
      var r := Image(mem, p, b, FieldsOf(h, t, c, f));
      && LoadState(r, p) == h && LoadMessage(r, p) == BlockWords(b)
      && Load64(r, p + 192) == t && Load64(r, p + 200) == c && Load64(r, p + 208) == f
  {
    hide Image, Load64, LittleEndian64;
    var ws := FieldsOf(h, t, c, f);
    var r := Image(mem, p, b, ws);
    forall k | 0 <= k < 8
      ensures LoadState(r, p)[k] == h[k]
    {
      LoadField(mem, p, b, ws, k);
    }
    forall k | 0 <= k < 16
      ensures LoadMessage(r, p)[k] == BlockWords(b)[k]
    {
      LoadBlockWord(mem, p, b, ws, k);
    }
    LoadField(mem, p, b, ws, 8);
    LoadField(mem, p, b, ws, 9);
    LoadField(mem, p, b, ws, 10);
  }

  /** The work vector with the flag word combined in, as the module does it. */
  lemma WorkVectorFromFlag(h: Words8, t: u64, f: u64)
    requires f == 0 || f == ONES
    ensures
      var v := h + IV;
      var v := v[12 := Xor64(v[12], t)];
      v[14 := Xor64(v[14], f)] == WorkVector(h, t, f == ONES)
  {
    hide Xor64;
    Xor64Zero((h + IV)[13]);
    Xor64Zero((h + IV)[14]);
  }

  lemma FoldRegrouped(h: u64, v: u64, w: u64)
    ensures Xor64(h, Xor64(v, w)) == Xor64(Xor64(h, v), w)
  {
    XorAssociates(h, v, w);
  }

  class Wasm {
    var memory: seq<u8>

    /** The module starts with 10 pages. */
    constructor ()
      ensures memory == Zeros(10 * PAGE)
    {
      memory := Zeros(10 * PAGE);
    }

    /** `realloc(size)`: grows by whole pages; the contents stay and new bytes are zero. */
    method Realloc(size: nat)
      requires |memory| <= size <= MAX_MEMORY
      requires |memory| % PAGE == 0
      modifies this
      ensures size <= |memory| <= MAX_MEMORY && |memory| % PAGE == 0
      ensures memory == old(memory) + Zeros(|memory| - |old(memory)|)
    {
      var pages := (size - |memory| + PAGE - 1) / PAGE;
      memory := memory + Zeros(PAGE * pages);
    }

    /** `blake2b_compress(ctx)` with the code the generator emits. */
    method Blake2bCompress(ctx: nat, ghost s: Stream, ghost f: u64)
      requires Holds(memory, ctx, s, f) && (f == 0 || f == ONES)
      modifies this
      ensures memory == Put(old(memory), ctx, s.(h := F(s.h, s.b, s.t, f == ONES)), f)
    {
      hide F, Image, Load64, Store64, Exec, GenRounds, Rounds, WorkVector, BlockWords, Xor64;
      ghost var ws := FieldsOf(s.h, s.t, s.c, f);
      ImageSlot(memory, ctx, s.b, ws);
      LoadedState(memory, ctx, s.b, s.h, s.t, s.c, f);

      var v := LoadState(memory, ctx) + IV;
      var m := LoadMessage(memory, ctx);
      v := v[12 := Xor64(v[12], Load64(memory, ctx + 192))];
      v := v[14 := Xor64(v[14], Load64(memory, ctx + 208))];
      WorkVectorFromFlag(s.h, s.t, f);
      var l := Exec(GenRounds(12), Locals(v, m));
      GenRoundsCorrect(12, Locals(v, m));
      ghost var folded := F(s.h, s.b, s.t, f == ONES);
      assert folded == Fold(s.h, l.v) by {
        CompressionIs(s.h, s.b, s.t, f == ONES);
      }

      assert Partly(ws, folded, 0) == ws;
      for k := 0 to 8
        invariant memory == Image(old(memory), ctx, s.b, Partly(ws, folded, k))
      {
        ghost var now := Partly(ws, folded, k);
        LoadField(old(memory), ctx, s.b, now, k);
        var w := Xor64(Load64(memory, ctx + 128 + 8 * k), Xor64(l.v[k], l.v[k + 8]));
        FoldRegrouped(s.h[k], l.v[k], l.v[k + 8]);
        StoreField(old(memory), ctx, s.b, now, k, w);
        memory := Store64(memory, ctx + 128 + 8 * k, w);
        assert now[k := w] == Partly(ws, folded, k + 1);
      }
      assert Partly(ws, folded, 8) == FieldsOf(folded, s.t, s.c, f);
    }

    /** `blake2b_init(ptr, outlen)`: a cleared state whose h combines the parameter block at 0..64. */
    method Blake2bInit(ptr: nat)
      requires 64 <= ptr && ptr + SLOT <= |memory|
      modifies this
      ensures memory == Put(old(memory), ptr, Start(InitialFrom(old(memory)[..64])), 0)
    {
      hide Store64, Splice, Bytes, ByteOf, Xor64, LittleEndian64;
      ghost var p := memory[..64];
      ghost var ws: seq<u64> := [];
      SpliceNothing(memory, ptr);
      for k := 0 to 16
        invariant |ws| == k && ws == seq(k, _ => 0)
        invariant memory == Splice(old(memory), ptr, Bytes(ws))
      {
        SpliceNext(old(memory), ptr, ws, 0);
        memory := Store64(memory, ptr + 8 * k, 0);
        ws := ws + [0];
      }
      for k := 0 to 8
        invariant ws == seq(16, _ => 0) + InitialFrom(p)[..k]
        invariant memory == Splice(old(memory), ptr, Bytes(ws))
      {
        ParameterWord(old(memory), ptr, Bytes(ws), k);
        var w := Xor64(IV[k], Load64(memory, 8 * k));
        SpliceNext(old(memory), ptr, ws, w);
        memory := Store64(memory, ptr + 128 + 8 * k, w);
        ws := ws + [w];
      }
      for k := 0 to 3
        invariant ws == seq(16, _ => 0) + InitialFrom(p) + seq(k, _ => 0)
        invariant memory == Splice(old(memory), ptr, Bytes(ws))
      {
        SpliceNext(old(memory), ptr, ws, 0);
        memory := Store64(memory, ptr + 192 + 8 * k, 0);
        ws := ws + [0];
      }
      InitialBytes(InitialFrom(p), ws);
      StartFits(InitialFrom(p));
    }

    /** `blake2b_update(ctx, input, input_end)` on input that lies above the state. */
    method Blake2bUpdate(ctx: nat, input: nat, inputEnd: nat, ghost s: Stream)
      requires Holds(memory, ctx, s, 0)
      requires ctx + SLOT <= input <= inputEnd <= |memory|
      requires s.t + s.c + (inputEnd - input) < 0x20_0000_0000_0000
      modifies this
      ensures Absorb(s, old(memory)[input..inputEnd]).t < TWO_64
      ensures memory == Put(old(memory), ctx, Absorb(s, old(memory)[input..inputEnd]), 0)
    {
      hide F, Put, Load64, Store64, StateBytes, Flush;
      ghost var m0, data, c0 := memory, memory[input..inputEnd], s.c;
      ghost var a := s;
      AbsorbNothing(s);
      assert data[..0] == [];
      HeldIsPut(memory, ctx, s, 0);
      LoadedFields(memory, ctx, s, 0);
      var i := Load64(memory, ctx + 200) % TWO_32;
      for k := 0 to inputEnd - input
        invariant a == Absorb(s, data[..k])
        invariant a.t + a.c == s.t + c0 + k && i == a.c
        invariant memory == Put(m0, ctx, a.(c := c0), 0)
      {
        if i == 128 {
          LoadedFields(m0, ctx, a.(c := c0), 0);
          CounterStored(m0, ctx, a.(c := c0), 0, a.t + 128);
          memory := Store64(memory, ctx + 192, (Load64(memory, ctx + 192) + i) % TWO_64);
          i := 0;
          ghost var full := a.(t := a.t + 128, c := c0);
          PutHolds(m0, ctx, full, 0);
          Blake2bCompress(ctx, full, 0);
          PutTwice(m0, ctx, full, 0, full.(h := F(full.h, full.b, full.t, false)), 0);
        }
        ghost var f := Flush(a);
        FlushIs(a);
        PutOutside(m0, ctx, f.(c := c0), 0, input + k);
        ByteStored(m0, ctx, f.(c := c0), 0, i, data[k]);
        memory := memory[ctx + i := memory[input + k]];
        i := i + 1;
        AbsorbNext(s, data, k);
        a := AbsorbByte(a, data[k]);
      }
      assert data[..inputEnd - input] == data;
      PendingStored(m0, ctx, a.(c := c0), 0, i);
      memory := Store64(memory, ctx + 200, i);
    }

    /** `blake2b_final(ctx)`: the digest is left in h. */
    method Blake2bFinal(ctx: nat, ghost s: Stream)
      requires Holds(memory, ctx, s, 0)
      requires s.t + s.c < 0x20_0000_0000_0000
      modifies this
      ensures memory == Put(old(memory), ctx, Finish(s), ONES)
    {
      hide F, Put, Load64, Store64, StateBytes;
      ghost var m0 := memory;
      HeldIsPut(memory, ctx, s, 0);
      LoadedFields(memory, ctx, s, 0);
      CounterStored(m0, ctx, s, 0, s.t + s.c);
      memory := Store64(memory, ctx + 192, (Load64(memory, ctx + 192) + Load64(memory, ctx + 200)) % TWO_64);
      ghost var a := s.(t := s.t + s.c);
      FlagStored(m0, ctx, a, 0, ONES);
      memory := Store64(memory, ctx + 208, ONES);
      LoadedFields(m0, ctx, a, ONES);
      ZeroRest(ctx, Load64(memory, ctx + 200) % TWO_32, m0, a, ONES);
      ghost var last := PadBuffer(a);
      PutHolds(m0, ctx, last, ONES);
      Blake2bCompress(ctx, last, ONES);
      FinishIs(s);
      PutTwice(m0, ctx, last, ONES, Finish(s), ONES);
    }

    /** The loop of `blake2b_final` that fills the block with zeros, and the store of c after it. */
    method ZeroRest(ctx: nat, c: nat, ghost m0: seq<u8>, ghost a: Stream, ghost f: u64)
      requires c == a.c && ctx + SLOT <= |m0| && a.t < TWO_64
      requires memory == Put(m0, ctx, a, f)
      modifies this
      ensures memory == Put(m0, ctx, PadBuffer(a), f)
    {
      hide Put, Store64;
      var i := c;
      ghost var b := a.b;
      while i != 128
        invariant a.c <= i <= 128
        invariant b[..i] == a.b[..a.c] + Zeros(i - a.c)
        invariant memory == Put(m0, ctx, a.(b := b), f)
        decreases 128 - i
      {
        ByteStored(m0, ctx, a.(b := b), f, i, 0);
        memory := memory[ctx + i := 0];
        b := b[i := 0];
        i := i + 1;
      }
      assert b == b[..128];
      PendingStored(m0, ctx, a.(b := b), f, i);
      memory := Store64(memory, ctx + 200, i);
    }
  }

  /** The buffer filled up with zeros. */
  ghost function PadBuffer(s: Stream): Stream {
    s.(b := s.b[..s.c] + Zeros(128 - s.c), c := 128)
  }

  lemma FinishIs(s: Stream)
    ensures
      var last := PadBuffer(s.(t := s.t + s.c));
      Finish(s) == last.(h := F(last.h, last.b, last.t, true))
  {
    hide F;
  }

  // ----- The state in its slot, one store at a time

  lemma HeldIsPut(mem: seq<u8>, p: nat, s: Stream, f: u64)
    requires Holds(mem, p, s, f)
    ensures mem == Put(mem, p, s, f)
  {
    hide StateBytes, Image;
    ImageSlot(mem, p, s.b, FieldsOf(s.h, s.t, s.c, f));
  }

  lemma PutHolds(mem: seq<u8>, p: nat, s: Stream, f: u64)
    requires p + SLOT <= |mem| && s.t < TWO_64
    ensures Holds(Put(mem, p, s, f), p, s, f)
  {
    hide StateBytes, Image;
    ImageSlot(mem, p, s.b, FieldsOf(s.h, s.t, s.c, f));
  }

  lemma PutTwice(mem: seq<u8>, p: nat, s: Stream, f: u64, s': Stream, f': u64)
    requires p + SLOT <= |mem| && s.t < TWO_64 && s'.t < TWO_64
    ensures Put(Put(mem, p, s, f), p, s', f') == Put(mem, p, s', f')
  {
    hide StateBytes, Image;
    ImageTwice(mem, p, s.b, FieldsOf(s.h, s.t, s.c, f), s'.b, FieldsOf(s'.h, s'.t, s'.c, f'));
  }

  lemma PutOutside(mem: seq<u8>, p: nat, s: Stream, f: u64, i: nat)
    requires p + SLOT <= |mem| && s.t < TWO_64
    requires i < |mem| && (i < p || p + SLOT <= i)
    ensures Put(mem, p, s, f)[i] == mem[i]
  {
    hide StateBytes, Image;
    var r := Image(mem, p, s.b, FieldsOf(s.h, s.t, s.c, f));
    ImageOutside(mem, p, s.b, FieldsOf(s.h, s.t, s.c, f), i, i + 1);
    assert r[i] == r[i..i + 1][0] && mem[i] == mem[i..i + 1][0];
  }

  lemma LoadedFields(mem: seq<u8>, p: nat, s: Stream, f: u64)
    requires p + SLOT <= |mem| && s.t < TWO_64
    ensures
      var r := Put(mem, p, s, f);
      Load64(r, p + 192) == s.t && Load64(r, p + 200) == s.c && Load64(r, p + 208) == f
  {
    hide StateBytes, Image, Load64;
    LoadedState(mem, p, s.b, s.h, s.t, s.c, f);
  }

  lemma CounterStored(mem: seq<u8>, p: nat, s: Stream, f: u64, t: u64)
    requires p + SLOT <= |mem| && s.t < TWO_64
    ensures Store64(Put(mem, p, s, f), p + 192, t) == Put(mem, p, s.(t := t), f)
  {
    hide StateBytes, Image, Store64;
    StoreField(mem, p, s.b, FieldsOf(s.h, s.t, s.c, f), 8, t);
    assert FieldsOf(s.h, s.t, s.c, f)[8 := t] == FieldsOf(s.h, t, s.c, f);
  }

  lemma PendingStored(mem: seq<u8>, p: nat, s: Stream, f: u64, c: nat)
    requires p + SLOT <= |mem| && s.t < TWO_64 && c <= 128
    ensures Store64(Put(mem, p, s, f), p + 200, c) == Put(mem, p, s.(c := c), f)
  {
    hide StateBytes, Image, Store64;
    StoreField(mem, p, s.b, FieldsOf(s.h, s.t, s.c, f), 9, c);
    assert FieldsOf(s.h, s.t, s.c, f)[9 := c] == FieldsOf(s.h, s.t, c, f);
  }

  lemma FlagStored(mem: seq<u8>, p: nat, s: Stream, f: u64, f': u64)
    requires p + SLOT <= |mem| && s.t < TWO_64
    ensures Store64(Put(mem, p, s, f), p + 208, f') == Put(mem, p, s, f')
  {
    hide StateBytes, Image, Store64;
    StoreField(mem, p, s.b, FieldsOf(s.h, s.t, s.c, f), 10, f');
    assert FieldsOf(s.h, s.t, s.c, f)[10 := f'] == FieldsOf(s.h, s.t, s.c, f');
  }

  lemma ByteStored(mem: seq<u8>, p: nat, s: Stream, f: u64, i: nat, x: u8)
    requires p + SLOT <= |mem| && s.t < TWO_64 && i < 128
    ensures Put(mem, p, s, f)[p + i := x] == Put(mem, p, s.(b := s.b[i := x]), f)
  {
    hide StateBytes, Image;
    StoreBlockByte(mem, p, s.b, FieldsOf(s.h, s.t, s.c, f), i, x);
  }

  lemma FlushIs(s: Stream)
    ensures Flush(s) == if s.c == 128 then Ctx(s.b, F(s.h, s.b, s.t + 128, false), s.t + 128, 0) else s
    ensures forall x: u8 :: AbsorbByte(s, x) == Flush(s).(b := Flush(s).b[Flush(s).c := x], c := Flush(s).c + 1)
  {
    hide F;
  }

  lemma CompressionIs(h: Words8, b: Block, t: nat, last: bool)
    ensures F(h, b, t, last) == Fold(h, Rounds(WorkVector(h, t, last), BlockWords(b), 12))
  {
  }

  /** The fields when the first k words of h have been stored. */
  ghost function Partly(ws: Fields, h: Words8, k: nat): Fields
    requires k <= 8
  {
    h[..k] + ws[k..]
  }

  lemma SpliceNothing(mem: seq<u8>, p: nat)
    requires p <= |mem|
    ensures mem == Splice(mem, p, Bytes([]))
  {
  }

  /** The parameter block is read unchanged while the state above it is written. */
  lemma ParameterWord(mem: seq<u8>, ptr: nat, s: seq<u8>, k: nat)
    requires 64 <= ptr && ptr + |s| <= |mem| && k < 8
    ensures Load64(Splice(mem, ptr, s), 8 * k) == LittleEndian64(mem[..64], 8 * k)
  {
    hide LittleEndian64;
    assert Splice(mem, ptr, s)[8 * k..8 * k + 8] == mem[..64][8 * k..8 * k + 8];
    SameEightBytes(Splice(mem, ptr, s), 8 * k, mem[..64], 8 * k);
  }

  lemma InitialBytes(h: Words8, ws: seq<u64>)
    requires ws == seq(16, _ => 0) + h + seq(3, _ => 0)
    ensures Bytes(ws) == StateBytes(Zeros(128), FieldsOf(h, 0, 0, 0))
  {
    hide ByteOf;
    var fields := FieldsOf(h, 0, 0, 0);
    assert ws == seq(16, _ => 0) + fields;
    BytesAppend(seq(16, _ => 0), fields);
    ZeroBytes(16);
  }

  lemma StartFits(h: Words8)
    ensures Start(h) == Ctx(Zeros(128), h, 0, 0)
  {
  }
}
