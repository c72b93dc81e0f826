/** modules/blake2b-wasm/index.js: hash instances whose states live in slots of one linear memory.
    Bytes 0..64 are the parameter block, slots of 216 bytes follow up to `head`, and input is
    copied to `head` and beyond. */
module Blake2bWasm {
  import opened Words
  import opened Wrappers
  import opened Rfc7693
  import opened LinearMemory
  import opened WasmModule
  import opened SharedMemory
  import opened Streaming
  import opened StreamingProofs
  import opened Parameters
  import opened Machine

  /** No byte of the key is left behind head. */
  predicate Wiped(mem: seq<u8>, head: nat, keyLength: nat) {
    head + keyLength <= |mem| && forall i :: head <= i < head + keyLength ==> mem[i] == 0
  }

  /** The module's variables. */
  class Module {
    const wasm: Wasm
    var head: nat
    var freeList: seq<nat>
    /** The streams of the instances that are not finalized, by the address of their slot. */
    ghost var live: map<nat, Stream>

    /** Each slot below head is live or free. */
    ghost predicate Allocated()
      reads this, wasm
    {
      Layout(head, live.Keys, freeList, |wasm.memory|)
    }

    /** Besides, live slots hold their streams. */
    ghost predicate Valid()
      reads this, wasm
    {
      Allocated() && HoldAll(wasm.memory, live)
    }

    /** The slot at pointer is live and holds its stream, whatever the others hold. */
    ghost predicate Intact(pointer: nat)
      reads this, wasm
    {
      pointer in live && Holds(wasm.memory, pointer, live[pointer], 0)
    }

    constructor ()
      ensures Valid() && fresh(wasm)
      ensures live == map[] && freeList == [] && head == 64
    {
      wasm := new Wasm();
      head := 64;
      freeList := [];
      live := map[];
    }

    /** The part of `update` that touches shared memory: copies the input to head, growing the
        memory if it must, and absorbs it into the state. */
    method Feed(pointer: nat, input: seq<u8>)
      requires Allocated() && Intact(pointer)
      requires head + |input| <= MAX_MEMORY
      requires live[pointer].t + live[pointer].c + |input| < 0x20_0000_0000_0000
      modifies this`live, wasm
      ensures Allocated() && Intact(pointer) && head + |input| <= |wasm.memory|
      ensures live == old(live)[pointer := Absorb(old(live)[pointer], input)]
      ensures forall q :: q in live && q != pointer ==> SlotKept(old(wasm.memory), wasm.memory, q)
    {
      hide Holds, SlotKept, Put, Layout;
      ghost var m0, s := wasm.memory, live[pointer];
      LayoutFacts(head, live.Keys, freeList, |m0|);
      if head + |input| > |wasm.memory| {
        wasm.Realloc(head + |input|);
      }
      ghost var grown := wasm.memory;
      assert grown[..|m0|] == m0;
      wasm.memory := Splice(wasm.memory, head, input);
      ghost var mem := wasm.memory;
      ScratchKeeps(m0, grown, head, input, pointer);
      KeptHolds(m0, mem, pointer, s, 0);
      assert mem[head..head + |input|] == input;
      wasm.Blake2bUpdate(pointer, head, head + |input|, s);
      ghost var a := Absorb(s, input);
      assert live[pointer := a].Keys == live.Keys;
      live := live[pointer := a];
      LayoutGrows(head, live.Keys, freeList, |m0|, |mem|);
      PutHolds(mem, pointer, a, 0);
      forall q | q in live && q != pointer
        ensures SlotKept(m0, wasm.memory, q)
      {
        ScratchKeeps(m0, grown, head, input, q);
        PutKeeps(mem, pointer, a, 0, q, head);
        KeptTwice(m0, mem, wasm.memory, q);
      }
    }

    /** The part of `digest` that touches shared memory: the slot joins the free list and the state
        in it is finished. */
    method Release(pointer: nat)
      requires Allocated() && Intact(pointer)
      requires live[pointer].t + live[pointer].c < 0x20_0000_0000_0000
      modifies this`freeList, this`live, wasm
      ensures Allocated()
      ensures live == old(live) - {pointer} && freeList == old(freeList) + [pointer]
      ensures Holds(wasm.memory, pointer, Finish(old(live)[pointer]), ONES)
      ensures forall q :: q in live ==> SlotKept(old(wasm.memory), wasm.memory, q)
    {
      hide Holds, Finish, Put, SlotKept, Layout;
      ghost var s, m0 := live[pointer], wasm.memory;
      HoldsFits(m0, pointer, s, 0);
      LayoutFacts(head, live.Keys, freeList, |m0|);
      LayoutFrees(head, live.Keys, freeList, |m0|, pointer);
      assert (live - {pointer}).Keys == live.Keys - {pointer};
      freeList := freeList + [pointer];
      live := live - {pointer};
      wasm.Blake2bFinal(pointer, s);
      FinishFits(s);
      PutHolds(m0, pointer, Finish(s), ONES);
      forall q | q in live
        ensures SlotKept(m0, wasm.memory, q)
      {
        PutKeeps(m0, pointer, Finish(s), ONES, q, head);
      }
    }

    /** Clears and fills the parameter block at 0..64, and whatever a longer salt or personalisation
        reaches; fails where they do not fit in the memory. */
    method SetParameters(digestLength: nat, keyLength: nat, salt: Option<seq<u8>>, personal: Option<seq<u8>>)
      returns (ok: bool)
      requires |wasm.memory| >= 64
      modifies wasm
      ensures ok == FitsMemory(|wasm.memory|, salt, personal)
      ensures wasm.memory == ParametersIn(old(wasm.memory), digestLength, keyLength, salt, personal)
    {
      hide Write;
      var rest := wasm.memory[64..];
      wasm.memory := Splice(wasm.memory, 0, Zeros(64));
      wasm.memory := wasm.memory[0 := ToUint8(digestLength)];
      wasm.memory := wasm.memory[1 := ToUint8(keyLength)];
      wasm.memory := wasm.memory[2 := 1];
      wasm.memory := wasm.memory[3 := 1];
      assert wasm.memory == BlockHead(digestLength, keyLength) + rest;
      if 32 + Size(salt) > |wasm.memory| {
        return false;
      }
      wasm.memory := Write(wasm.memory, 32, salt);
      if 48 + Size(personal) > |wasm.memory| {
        return false;
      }
      wasm.memory := Write(wasm.memory, 48, personal);
      return true;
    }

    /** Takes a free slot, making one at head if there is none. */
    method TakeSlot() returns (pointer: nat)
      requires Allocated()
      modifies this`head, this`freeList
      ensures Taken(head, live.Keys, freeList, |wasm.memory|, pointer)
      ensures head == (if old(freeList) == [] then old(head) + SLOT else old(head))
      ensures old(freeList) == [] ==> pointer == old(head) && freeList == []
      ensures old(freeList) != [] ==> old(freeList) == freeList + [pointer]
    {
      hide Layout, Taken;
      LayoutTakes(head, live.Keys, freeList, |wasm.memory|);
      if |freeList| == 0 {
        freeList := freeList + [head];
        head := head + 216;
      }
      pointer := freeList[|freeList| - 1];
      freeList := freeList[..|freeList| - 1];
    }

    /** `blake2b_init` on the slot taken, after the memory was grown to hold it. */
    method InitSlot(pointer: nat)
      requires Taken(head, live.Keys, freeList, |wasm.memory|, pointer) && head <= MAX_MEMORY
      modifies this`live, wasm
      ensures Allocated() && Intact(pointer) && |old(wasm.memory)| >= 64
      ensures live == old(live)[pointer := Start(InitialFrom(old(wasm.memory)[..64]))]
      ensures forall q :: q in old(live) ==> SlotKept(old(wasm.memory), wasm.memory, q)
    {
      hide Holds, InitialFrom, Put, SlotKept, Layout, Taken;
      ghost var m0, before := wasm.memory, live;
      TakenFacts(head, live.Keys, freeList, |m0|, pointer);
      if pointer + 216 > |wasm.memory| {
        wasm.Realloc(pointer + 216);
      }
      ghost var grown := wasm.memory;
      assert grown[..|m0|] == m0 && grown[..64] == m0[..64];
      wasm.Blake2bInit(pointer);
      ghost var s := Start(InitialFrom(m0[..64]));
      LayoutOpens(head, live.Keys, freeList, |m0|, pointer, |grown|);
      assert live[pointer := s].Keys == live.Keys + {pointer};
      live := live[pointer := s];
      PutHolds(grown, pointer, s, 0);
      forall q | q in before
        ensures SlotKept(m0, wasm.memory, q)
      {
        GrowthKeeps(m0, grown, q);
        PutKeeps(grown, pointer, s, 0, q, head);
        KeptTwice(m0, grown, wasm.memory, q);
      }
    }

    /** The constructor up to `blake2b_init`: a slot is taken and a state opened in it.  Every other
        slot is as the parameters left it.  If these do not fit in the memory the slot taken is lost:
        it is neither live nor free. */
    method OpenSlot(digestLength: nat, keyLength: nat, salt: Option<seq<u8>>, personal: Option<seq<u8>>)
      returns (r: HashResult<nat>)
      requires Allocated() && head + SLOT <= MAX_MEMORY
      modifies this, wasm
      ensures r.Ok? == FitsMemory(|old(wasm.memory)|, salt, personal)
      ensures r.Err? ==>
        && r.error == Overrun && live == old(live) && head == 64 + SLOT * (|live| + |freeList| + 1)
        && wasm.memory == ParametersIn(old(wasm.memory), digestLength, keyLength, salt, personal)
      ensures r.Ok? ==>
        && Allocated() && Intact(r.value) && r.value !in old(live)
        && live == old(live)[r.value :=
             Start(InitialFrom(ParameterBlock(digestLength, keyLength, Clip(salt, 32), Clip(personal, 16))))]
        && forall q :: q in old(live) ==>
             SlotKept(ParametersIn(old(wasm.memory), digestLength, keyLength, salt, personal), wasm.memory, q)
      ensures head <= old(head) + SLOT
    {
      hide Holds, ParameterBlock, InitialFrom, ParametersIn, SlotKept, FitsMemory, Layout, Taken;
      ghost var m0 := wasm.memory;
      LayoutFacts(head, live.Keys, freeList, |m0|);
      var pointer := TakeSlot();
      TakenFacts(head, live.Keys, freeList, |m0|, pointer);
      var ok := SetParameters(digestLength, keyLength, salt, personal);
      if !ok {
        return Err(Overrun);
      }
      BlockWritten(m0, digestLength, keyLength, salt, personal);
      InitSlot(pointer);
      return Ok(pointer);
    }

    /** The end of the constructor for a keyed instance: the copy of the key is wiped and the buffer
        declared full. */
    method EndKey(pointer: nat, keyLength: nat)
      requires Allocated() && Intact(pointer) && head + keyLength <= |wasm.memory|
      modifies this`live, wasm
      ensures Allocated() && Intact(pointer)
      ensures live == old(live)[pointer := old(live)[pointer].(c := 128)]
      ensures Wiped(wasm.memory, head, keyLength)
      ensures forall q :: q in live && q != pointer ==> SlotKept(old(wasm.memory), wasm.memory, q)
    {
      hide Holds, Put, SlotKept, Layout;
      ghost var m0, s := wasm.memory, live[pointer];
      LayoutFacts(head, live.Keys, freeList, |m0|);
      wasm.memory := Splice(wasm.memory, head, Zeros(keyLength));
      ghost var mem := wasm.memory;
      ScratchKeeps(m0, m0, head, Zeros(keyLength), pointer);
      KeptHolds(m0, mem, pointer, s, 0);
      HoldsFits(mem, pointer, s, 0);
      LowByteOfPending(mem, pointer, s);
      wasm.memory := wasm.memory[pointer + 200 := 128];
      assert live[pointer := s.(c := 128)].Keys == live.Keys;
      live := live[pointer := s.(c := 128)];
      PutHolds(mem, pointer, s.(c := 128), 0);
      forall q | q in live && q != pointer
        ensures SlotKept(m0, wasm.memory, q)
      {
        ScratchKeeps(m0, m0, head, Zeros(keyLength), q);
        PutKeeps(mem, pointer, s.(c := 128), 0, q, head);
        KeptTwice(m0, mem, wasm.memory, q);
      }
    }

    /** The keyed part of the constructor: the key is absorbed like input, then wiped. */
    method AbsorbKey(pointer: nat, key: seq<u8>)
      requires Allocated() && Intact(pointer) && live[pointer].t == live[pointer].c == 0
      requires head + |key| <= MAX_MEMORY
      modifies this`live, wasm
      ensures Allocated() && Intact(pointer)
      ensures live == old(live)[pointer := Absorb(old(live)[pointer], key).(c := 128)]
      ensures Wiped(wasm.memory, head, |key|)
      ensures forall q :: q in live && q != pointer ==> SlotKept(old(wasm.memory), wasm.memory, q)
    {
      hide Module.Allocated, Absorb, Holds, SlotKept;
      ghost var m0 := wasm.memory;
      Feed(pointer, key);
      ghost var m1 := wasm.memory;
      EndKey(pointer, |key|);
      forall q | q in live && q != pointer
        ensures SlotKept(m0, wasm.memory, q)
      {
        KeptTwice(m0, m1, wasm.memory, q);
      }
    }

    /** The constructor after its checks.  Whatever the arguments are, the new instance is the stream
        opened with the salt and personalisation cut to their places, and the module is valid
        afterwards exactly if writing the parameters left all live slots with their streams. */
    method OpenInstance(digestLength: nat, key: Option<seq<u8>>, salt: Option<seq<u8>>, personal: Option<seq<u8>>)
      returns (r: HashResult<nat>)
      requires Allocated() && head + SLOT + Size(key) <= MAX_MEMORY
      modifies this, wasm
      ensures r.Ok? == FitsMemory(|old(wasm.memory)|, salt, personal)
      ensures r.Err? ==>
        && r.error == Overrun && live == old(live) && head == 64 + SLOT * (|live| + |freeList| + 1)
        && wasm.memory == ParametersIn(old(wasm.memory), digestLength, Size(key), salt, personal)
      ensures r.Ok? ==>
        && Allocated() && Intact(r.value) && r.value !in old(live)
        && live == old(live)[r.value := Open(digestLength, key, Clip(salt, 32), Clip(personal, 16))]
        && (Valid() <==> HoldAll(ParametersIn(old(wasm.memory), digestLength, Size(key), salt, personal), old(live)))
        && (key.Some? ==> Wiped(wasm.memory, head, |key.value|))
      ensures head <= old(head) + SLOT
    {
      hide Module.Allocated, ParameterBlock, InitialFrom, Absorb, Holds, HoldAll, ParametersIn, SlotKept, FitsMemory;
      ghost var before := live;
      EnoughMemory(this);
      ghost var written := ParametersIn(wasm.memory, digestLength, Size(key), salt, personal);
      r := OpenSlot(digestLength, Size(key), salt, personal);
      if r.Err? {
        return;
      }
      ghost var m1 := wasm.memory;
      if key.Some? {
        AbsorbKey(r.value, key.value);
        forall q | q in before
          ensures SlotKept(written, wasm.memory, q)
        {
          KeptTwice(written, m1, wasm.memory, q);
        }
      }
      OthersDecide(written, wasm.memory, before, r.value, live[r.value]);
      assert before - {r.value} == before;
    }
  }

  lemma LiveIntact(w: Module, p: nat)
    requires w.Valid() && p in w.live
    ensures w.Intact(p)
  {
    hide Layout, Holds;
  }

  lemma EnoughMemory(w: Module)
    requires w.Allocated()
    ensures |w.wasm.memory| >= PAGE
  {
  }

  /** The memory in use: below head there is room for exactly the live and the free slots, behind the
      parameter block; no two of them overlap, and none is in both lists or free twice. */
  lemma AllocatorSafety(w: Module, p: nat, q: nat)
    requires w.Allocated()
    requires (p in w.live || p in w.freeList) && (q in w.live || q in w.freeList) && p != q
    ensures p + SLOT <= q || q + SLOT <= p
    ensures 64 <= p && p + SLOT <= w.head == 64 + SLOT * (|w.live| + |w.freeList|)
    ensures p in w.live ==> p !in w.freeList
    ensures forall k, l :: 0 <= k < |w.freeList| && 0 <= l < |w.freeList| && w.freeList[k] == w.freeList[l] ==> k == l
  {
    SlotsDisjoint(p, q, w.head);
  }

  /** Storing one byte at the address of c sets c, whose other bytes are zero. */
  lemma LowByteOfPending(mem: seq<u8>, p: nat, s: Stream)
    requires Holds(mem, p, s, 0)
    ensures p + SLOT <= |mem| && s.t < TWO_64
    ensures mem[p + 200 := 128] == Put(mem, p, s.(c := 128), 0)
  {
    hide StateBytes, Put, Bytes;
    HeldIsPut(mem, p, s, 0);
    PendingStored(mem, p, s, 0, 128);
    LoadedPendingBytes(mem, p, s);
    SmallWord(128);
    var r := Store64(mem, p + 200, 128);
    forall i | 0 <= i < |mem|
      ensures r[i] == mem[p + 200 := 128][i]
    {
      if i == p + 200 {
        assert r[i] == Bytes([128])[0];
      } else if p + 200 < i < p + 208 {
        assert r[i] == Bytes([128])[i - p - 200];
      }
    }
  }

  /** The bytes of a word below 256. */
  lemma SmallByte(x: u64, j: nat)
    requires x < 0x100 && j < 8
    ensures ByteOf(x, j) == if j == 0 then x else 0
  {
  }

  lemma SmallWord(x: u64)
    requires x < 0x100
    ensures Bytes([x])[0] == x
    ensures forall j :: 1 <= j < 8 ==> Bytes([x])[j] == 0
  {
    hide ByteOf;
    forall j | 0 <= j < 8
      ensures Bytes([x])[j] == if j == 0 then x else 0
    {
      SmallByte(x, j);
    }
  }

  lemma LoadedPendingBytes(mem: seq<u8>, p: nat, s: Stream)
    requires Holds(mem, p, s, 0)
    ensures forall i :: p + 200 < i < p + 208 ==> mem[i] == 0
  {
    hide ByteOf, Bytes;
    var ws := FieldsOf(s.h, s.t, s.c, 0);
    forall i | p + 200 < i < p + 208
      ensures mem[i] == 0
    {
      assert mem[i] == mem[p..p + SLOT][i - p] == StateBytes(s.b, ws)[i - p] == Bytes(ws)[8 * 9 + (i - p - 200)];
      FieldByte(ws, 9, i - p - 200);
      SmallByte(s.c, i - p - 200);
    }
  }

  lemma FinishFits(s: Stream)
    ensures Finish(s).t == s.t + s.c
  {
  }

  /** A hash instance. */
  class Hash {
    const digestLength: nat
    var finalized: bool
    const pointer: nat

    /** An instance that is not finalized owns a live slot with its stream. */
    ghost predicate Owned(w: Module)
      reads this, w, w.wasm
    {
      !finalized ==> w.Intact(pointer)
    }

    /** The end of the constructor, once the slot at pointer has been taken. */
    constructor (w: Module, digestLength: nat, pointer: nat)
      ensures this.digestLength == digestLength && this.pointer == pointer && !finalized
    {
      this.digestLength := digestLength;
      this.pointer := pointer;
      this.finalized := false;
    }

    /** `update(input)` */
    method Update(w: Module, input: seq<u8>) returns (r: HashResult<()>)
      requires w.Allocated() && Owned(w)
      requires w.head + |input| <= MAX_MEMORY
      requires !finalized ==> w.live[pointer].t + w.live[pointer].c + |input| < 0x20_0000_0000_0000
      modifies w`live, w.wasm
      ensures w.Allocated() && Owned(w) && (old(w.Valid()) ==> w.Valid())
      ensures r == if finalized then Err(Finalized) else Ok(())
      ensures w.live == if finalized then old(w.live) else old(w.live)[pointer := Absorb(old(w.live)[pointer], input)]
      ensures finalized ==> unchanged(w.wasm)
      ensures forall q :: q in w.live && q != pointer ==> SlotKept(old(w.wasm.memory), w.wasm.memory, q)
    {
      hide Module.Allocated, HoldAll, Holds, SlotKept, Absorb;
      if finalized {
        forall q | q in w.live
          ensures SlotKept(w.wasm.memory, w.wasm.memory, q)
        {
          LiveKept(w, q);
        }
        return Err(Finalized);
      }
      ghost var m0, before := w.wasm.memory, w.live;
      w.Feed(pointer, input);
      OthersDecide(m0, w.wasm.memory, before, pointer, w.live[pointer]);
      AllButOne(m0, before, pointer);
      return Ok(());
    }

    /** `digest()`: the slot is given back and the bytes after its block are copied into a new array.
        A length above 88 goes past the slot; the bytes are then whatever memory holds there. */
    method Digest(w: Module) returns (r: HashResult<array<u8>>)
      requires w.Allocated() && Owned(w)
      requires !finalized ==> w.live[pointer].t + w.live[pointer].c < 0x20_0000_0000_0000
      modifies this`finalized, w`freeList, w`live, w.wasm
      ensures w.Allocated() && finalized && (old(w.Valid()) ==> w.Valid())
      ensures old(finalized) ==> r == Err(Finalized) && w.live == old(w.live) && w.freeList == old(w.freeList)
      ensures !old(finalized) ==> forall q :: q in w.live ==> SlotKept(old(w.wasm.memory), w.wasm.memory, q)
      ensures !old(finalized) ==>
        && w.live == old(w.live) - {pointer} && w.freeList == old(w.freeList) + [pointer]
        && r.Ok? && fresh(r.value)
        && pointer + SLOT <= |w.wasm.memory|
        && r.value[..] == MemorySlice(w.wasm.memory, pointer + 128, digestLength)
        && (digestLength <= 88 ==> r.value[..] == Output(true, Finish(old(w.live)[pointer]), digestLength))
    {
      hide Module.Allocated, HoldAll, Holds, SlotKept, Finish, Output, MemorySlice;
      if finalized {
        return Err(Finalized);
      }
      finalized := true;
      ghost var s := w.live[pointer];
      Free(w);
      HoldsFits(w.wasm.memory, pointer, Finish(s), ONES);
      var bytes := MemorySlice(w.wasm.memory, pointer + 128, digestLength);
      if digestLength <= 88 {
        SliceIsOutput(w.wasm.memory, pointer, Finish(s), digestLength);
      }
      var buf := new u8[|bytes|](k requires 0 <= k < |bytes| => bytes[k]);
      assert buf[..] == bytes;
      return Ok(buf);
    }

    /** `digest(enc)` with a buffer.  The slot is given back before the buffer is looked at, so a
        buffer that is too small is refused but still ends the instance. */
    method DigestInto(w: Module, enc: array<u8>) returns (r: HashResult<array<u8>>)
      requires w.Allocated() && Owned(w)
      requires !finalized ==> w.live[pointer].t + w.live[pointer].c < 0x20_0000_0000_0000
      modifies this`finalized, w`freeList, w`live, w.wasm, enc
      ensures w.Allocated() && finalized && (old(w.Valid()) ==> w.Valid())
      ensures r ==
        if old(finalized) then Err(Finalized) else if enc.Length < digestLength then Err(OutputTooSmall) else Ok(enc)
      ensures !old(finalized) ==> forall q :: q in w.live ==> SlotKept(old(w.wasm.memory), w.wasm.memory, q)
      ensures old(finalized) ==> w.live == old(w.live) && w.freeList == old(w.freeList)
      ensures !old(finalized) ==> w.live == old(w.live) - {pointer} && w.freeList == old(w.freeList) + [pointer]
      ensures r.Err? ==> enc[..] == old(enc[..])
      ensures r.Ok? ==>
        && pointer + SLOT <= |w.wasm.memory|
        && enc[..] ==
             Extended(MemorySlice(w.wasm.memory, pointer + 128, digestLength), digestLength) + old(enc[digestLength..])
        && (digestLength <= 88 ==>
             enc[..] == Output(true, Finish(old(w.live)[pointer]), digestLength) + old(enc[digestLength..]))
    {
      hide Module.Allocated, HoldAll, Holds, SlotKept, Finish, Output;
      if finalized {
        return Err(Finalized);
      }
      finalized := true;
      ghost var s := w.live[pointer];
      Free(w);
      if enc.Length < digestLength {
        return Err(OutputTooSmall);
      }
      HoldsFits(w.wasm.memory, pointer, Finish(s), ONES);
      CopyDigest(w, enc);
      if digestLength <= 88 {
        SliceIsOutput(w.wasm.memory, pointer, Finish(s), digestLength);
      }
      return Ok(enc);
    }

    /** Gives the slot back and keeps the module as valid as it was. */
    method Free(w: Module)
      requires w.Allocated() && w.Intact(pointer)
      requires w.live[pointer].t + w.live[pointer].c < 0x20_0000_0000_0000
      modifies w`freeList, w`live, w.wasm
      ensures w.Allocated() && (old(w.Valid()) ==> w.Valid())
      ensures w.live == old(w.live) - {pointer} && w.freeList == old(w.freeList) + [pointer]
      ensures Holds(w.wasm.memory, pointer, Finish(old(w.live)[pointer]), ONES)
      ensures forall q :: q in w.live ==> SlotKept(old(w.wasm.memory), w.wasm.memory, q)
    {
      hide Module.Allocated, HoldAll, Holds, SlotKept, Finish;
      ghost var m0, before := w.wasm.memory, w.live;
      w.Release(pointer);
      OthersRemain(m0, w.wasm.memory, w.live);
      AllButOne(m0, before, pointer);
    }

    /** The loop that copies the digest; behind the end of memory there is nothing, which a byte array
        takes for zero. */
    method CopyDigest(w: Module, out: array<u8>)
      requires pointer + SLOT <= |w.wasm.memory| && digestLength <= out.Length
      modifies out
      ensures out[..] ==
        Extended(MemorySlice(w.wasm.memory, pointer + 128, digestLength), digestLength) + old(out[digestLength..])
    {
      var memory := w.wasm.memory;
      ghost var digest := Extended(MemorySlice(memory, pointer + 128, digestLength), digestLength);
      ghost var before := out[..];
      for i := 0 to digestLength
        invariant forall k :: 0 <= k < i ==> out[k] == digest[k]
        invariant forall k :: i <= k < out.Length ==> out[k] == before[k]
      {
        out[i] := if pointer + 128 + i < |memory| then memory[pointer + 128 + i] else 0;
      }
      assert out[..] == digest + before[digestLength..];
    }
  }

  /** The bytes, filled up with zeros. */
  function Extended(bytes: seq<u8>, n: nat): (r: seq<u8>)
    requires |bytes| <= n
    ensures |r| == n
  {
    bytes + Zeros(n - |bytes|)
  }

  lemma LiveKept(w: Module, q: nat)
    requires w.Allocated() && q in w.live
    ensures SlotKept(w.wasm.memory, w.wasm.memory, q)
  {
  }

  lemma AllButOne(mem: seq<u8>, live: map<nat, Stream>, p: nat)
    ensures HoldAll(mem, live) ==> HoldAll(mem, live - {p})
  {
    hide Holds;
  }

  /** `Blake2b(digestLength, key, salt, personal, noAssert)` */
  method CreateHash(w: Module, length: nat, key: Option<seq<u8>>, salt: Option<seq<u8>>,
                    personal: Option<seq<u8>>, noAssert: bool)
    returns (r: HashResult<Hash>)
    requires w.Allocated() && w.head + SLOT + Size(key) <= MAX_MEMORY
    modifies w, w.wasm
    ensures r.Err? ==>
      if noAssert then r.error == Overrun && !FitsMemory(|old(w.wasm.memory)|, salt, personal)
      else Some(r.error) == Check(if length == 0 then 32 else length, key, salt, personal)
    ensures !noAssert ==>
      (r.Ok? <==>
        && 16 <= (if length == 0 then 32 else length) <= 64
        && (key.Some? ==> 16 <= |key.value| <= 64)
        && (salt.Some? ==> |salt.value| == 16)
        && (personal.Some? ==> |personal.value| == 16))
    ensures !noAssert ==> (r == Err(BadOutputLength) <==> !(16 <= (if length == 0 then 32 else length) <= 64))
    ensures !noAssert ==>
      (r == Err(BadKeyLength) <==> 16 <= (if length == 0 then 32 else length) <= 64 && key.Some? && !(16 <= |key.value| <= 64))
    ensures !noAssert ==>
      (r == Err(BadSaltLength) <==>
        16 <= (if length == 0 then 32 else length) <= 64 && (key.Some? ==> 16 <= |key.value| <= 64) && salt.Some? && |salt.value| != 16)
    ensures !noAssert ==>
      (r == Err(BadPersonalLength) <==>
        && 16 <= (if length == 0 then 32 else length) <= 64 && (key.Some? ==> 16 <= |key.value| <= 64)
        && (salt.Some? ==> |salt.value| == 16) && personal.Some? && |personal.value| != 16)
    ensures r.Err? && !noAssert ==> unchanged(w) && unchanged(w.wasm)
    ensures r.Err? && noAssert ==> w.live == old(w.live) && w.head == 64 + SLOT * (|w.live| + |w.freeList| + 1)
    ensures r.Ok? ==>
      var hash := r.value;
      && (if noAssert then FitsMemory(|old(w.wasm.memory)|, salt, personal)
          else Check(if length == 0 then 32 else length, key, salt, personal) == None)
      && fresh(hash) && !hash.finalized && hash.Owned(w) && hash.pointer !in old(w.live)
      && hash.digestLength == (if length == 0 then 32 else length)
      && w.live == old(w.live)[hash.pointer := Open(hash.digestLength, key, Clip(salt, 32), Clip(personal, 16))]
      && w.head <= old(w.head) + SLOT && w.Allocated()
      && (key.Some? ==> Wiped(w.wasm.memory, w.head, |key.value|))
      && (w.Valid() <==>
           HoldAll(ParametersIn(old(w.wasm.memory), hash.digestLength, Size(key), salt, personal), old(w.live)))
    ensures r.Ok? && FitsBlock(salt, personal) ==> (w.Valid() <==> old(w.Valid()))
  {
    hide Module.Allocated, Open, Holds, HoldAll, ParametersIn;
    EnoughMemory(w);
    CheckedFits(|w.wasm.memory|, if length == 0 then 32 else length, key, salt, personal);
    var digestLength := if length == 0 then 32 else length;
    if !noAssert {
      var e := Check(digestLength, key, salt, personal);
      if e.Some? {
        return Err(e.value);
      }
    }
    ghost var m0 := w.wasm.memory;
    if FitsBlock(salt, personal) {
      FittingHarmless(w, digestLength, Size(key), salt, personal);
    }
    var pointer :- w.OpenInstance(digestLength, key, salt, personal);
    var hash := new Hash(w, digestLength, pointer);
    return Ok(hash);
  }

  lemma CheckedFits(n: nat, outlen: nat, key: Option<seq<u8>>, salt: Option<seq<u8>>, personal: Option<seq<u8>>)
    requires n >= PAGE
    ensures Check(outlen, key, salt, personal).None? ==> FitsBlock(salt, personal)
    ensures FitsBlock(salt, personal) ==> FitsMemory(n, salt, personal)
  {
  }

  lemma FittingHarmless(w: Module, digestLength: nat, keyLength: nat, salt: Option<seq<u8>>, personal: Option<seq<u8>>)
    requires w.Allocated() && FitsBlock(salt, personal)
    ensures |w.wasm.memory| >= 64
    ensures HoldAll(ParametersIn(w.wasm.memory, digestLength, keyLength, salt, personal), w.live)
      <==> HoldAll(w.wasm.memory, w.live)
  {
    hide Holds, HoldAll, ParametersIn, SlotKept;
    var mem := w.wasm.memory;
    var written := ParametersIn(mem, digestLength, keyLength, salt, personal);
    forall q | q in w.live
      ensures SlotKept(mem, written, q)
    {
      FittingKeeps(mem, digestLength, keyLength, salt, personal, q);
    }
    OthersRemain(mem, written, w.live);
  }

  // ----- Many instances in one memory

  /** The instances are in the states of the machine's, and no two share a slot. */
  ghost predicate Represents(w: Module, hashes: seq<Hash>, all: seq<Instance>)
    reads w, hashes
  {
    && |hashes| == |all|
    && (forall k :: 0 <= k < |hashes| ==>
         && hashes[k].finalized == all[k].finalized
         && hashes[k].digestLength == all[k].outlen <= 88
         && (!all[k].finalized ==> hashes[k].pointer in w.live && w.live[hashes[k].pointer] == all[k].s))
    && (forall k, l :: 0 <= k < l < |hashes| ==>
         && hashes[k] != hashes[l]
         && (!all[k].finalized && !all[l].finalized ==> hashes[k].pointer != hashes[l].pointer))
  }

  /** How far above head an operation may reach. */
  function Reach(op: Op): nat {
    match op
    case Create(_, key, _, _, _) => SLOT + Size(key)
    case Update(_, bytes) => |bytes|
    case Digest(_, _) => 0
  }

  function Growth(op: Op): nat {
    if op.Create? then SLOT else 0
  }

  /** The memory can grow as far as every operation of the run needs. */
  predicate RoomFor(head: nat, ops: seq<Op>)
    decreases |ops|
  {
    ops == [] || (head + Reach(ops[0]) <= MAX_MEMORY && RoomFor(head + Growth(ops[0]), ops[1..]))
  }

  /** Creating one more instance. */
  method StepCreate(w: Module, hashes: seq<Hash>, op: Op, ghost all: seq<Instance>)
    returns (hashes': seq<Hash>, out: Out)
    requires op.Create? && w.Valid() && Represents(w, hashes, all) && Applies(WASM, |all|, op)
    requires w.head + Reach(op) <= MAX_MEMORY
    requires forall k :: 0 <= k < |all| ==> all[k].s.t + all[k].s.c + Weight(op) < 0x20_0000_0000_0000
    modifies w, w.wasm, hashes
    ensures w.Valid() && w.head <= old(w.head) + Growth(op)
    ensures Sane(WASM, all)
    ensures Represents(w, hashes', Step(WASM, all, op).0) && out == Step(WASM, all, op).1
    ensures forall k :: 0 <= k < |hashes'| ==> hashes'[k] in hashes || fresh(hashes'[k])
  {
    hide Module.Allocated, HoldAll, Open, Check;
    EnoughMemory(w);
    CheckedFits(|w.wasm.memory|, Length(WASM, op.outlen), op.key, op.salt, op.personal);
    CreatedSane(WASM, op);
    var r := CreateHash(w, op.outlen, op.key, op.salt, op.personal, op.noAssert);
    if r.Err? {
      return hashes, Rejected(r.error);
    }
    return hashes + [r.value], Created;
  }

  /** Updating one of the instances. */
  method StepUpdate(w: Module, hashes: seq<Hash>, op: Op, ghost all: seq<Instance>)
    returns (hashes': seq<Hash>, out: Out)
    requires op.Update? && w.Valid() && Represents(w, hashes, all) && Applies(WASM, |all|, op)
    requires w.head + Reach(op) <= MAX_MEMORY
    requires forall k :: 0 <= k < |all| ==> all[k].s.t + all[k].s.c + Weight(op) < 0x20_0000_0000_0000
    modifies w, w.wasm, hashes
    ensures w.Valid() && w.head <= old(w.head) + Growth(op)
    ensures Sane(WASM, all)
    ensures Represents(w, hashes', Step(WASM, all, op).0) && out == Step(WASM, all, op).1
    ensures forall k :: 0 <= k < |hashes'| ==> hashes'[k] in hashes || fresh(hashes'[k])
  {
    hide Module.Allocated, Module.Intact, HoldAll, Finish, Absorb, Output, SlotKept;
    if !hashes[op.id].finalized {
      LiveIntact(w, hashes[op.id].pointer);
    }
    var r := hashes[op.id].Update(w, op.bytes);
    return hashes, if r.Err? then Rejected(r.error) else Updated;
  }

  /** Taking the digest of one of the instances. */
  method StepDigest(w: Module, hashes: seq<Hash>, op: Op, ghost all: seq<Instance>)
    returns (hashes': seq<Hash>, out: Out)
    requires op.Digest? && w.Valid() && Represents(w, hashes, all) && Applies(WASM, |all|, op)
    requires w.head + Reach(op) <= MAX_MEMORY
    requires forall k :: 0 <= k < |all| ==> all[k].s.t + all[k].s.c + Weight(op) < 0x20_0000_0000_0000
    modifies w, w.wasm, hashes
    ensures w.Valid() && w.head <= old(w.head) + Growth(op)
    ensures Sane(WASM, all)
    ensures Represents(w, hashes', Step(WASM, all, op).0) && out == Step(WASM, all, op).1
    ensures forall k :: 0 <= k < |hashes'| ==> hashes'[k] in hashes || fresh(hashes'[k])
  {
    hide Module.Allocated, Module.Intact, HoldAll, Finish, Absorb, Output, MemorySlice, Extended;
    if !hashes[op.id].finalized {
      LiveIntact(w, hashes[op.id].pointer);
    }
    var r: HashResult<array<u8>>;
    if op.out.None? {
      r := hashes[op.id].Digest(w);
    } else {
      var bytes := op.out.value;
      var enc := new u8[|bytes|](k requires 0 <= k < |bytes| => bytes[k]);
      assert enc[..] == bytes;
      r := hashes[op.id].DigestInto(w, enc);
    }
    if r.Err? {
      return hashes, Rejected(r.error);
    }
    return hashes, Digested(r.value[..]);
  }

  /** One operation on instances that share the memory. */
  method StepHashes(w: Module, hashes: seq<Hash>, op: Op, ghost all: seq<Instance>)
    returns (hashes': seq<Hash>, out: Out)
    requires w.Valid() && Represents(w, hashes, all) && Applies(WASM, |all|, op)
    requires w.head + Reach(op) <= MAX_MEMORY
    requires forall k :: 0 <= k < |all| ==> all[k].s.t + all[k].s.c + Weight(op) < 0x20_0000_0000_0000
    modifies w, w.wasm, hashes
    ensures w.Valid() && w.head <= old(w.head) + Growth(op)
    ensures Sane(WASM, all)
    ensures Represents(w, hashes', Step(WASM, all, op).0) && out == Step(WASM, all, op).1
    ensures forall k :: 0 <= k < |hashes'| ==> hashes'[k] in hashes || fresh(hashes'[k])
  {
    hide Module.Valid, Step, Represents, Reach, Weight;
    if op.Create? {
      hashes', out := StepCreate(w, hashes, op, all);
    } else if op.Update? {
      hashes', out := StepUpdate(w, hashes, op, all);
    } else {
      hashes', out := StepDigest(w, hashes, op, all);
    }
  }

  /** Any interleaving of operations on any number of instances: every output, and every instance at
      the end, is what the machine without shared storage gives, whatever slots are recycled and
      however the memory grows. */
  method RunHashes(w: Module, hashes: seq<Hash>, ops: seq<Op>, ghost all: seq<Instance>)
    returns (hashes': seq<Hash>, outs: seq<Out>)
    requires w.Valid() && Represents(w, hashes, all) && Sane(WASM, all)
    requires Runnable(WASM, |all|, ops)
    requires RoomFor(w.head, ops)
    requires TotalWeight(ops) < 0x20_0000_0000_0000
    requires forall k :: 0 <= k < |all| ==> all[k].s.t + all[k].s.c + TotalWeight(ops) < 0x20_0000_0000_0000
    modifies w, w.wasm, hashes
    ensures w.Valid()
    ensures outs == Run(WASM, all, ops).1
    ensures Represents(w, hashes', Run(WASM, all, ops).0)
    decreases |ops|
  {
    hide Module.Valid, Step, Grows, Weight, Represents, Reach;
    if ops == [] {
      return hashes, [];
    }
    var op := ops[0];
    StepWeight(WASM, all, op);
    var hashes1, out := StepHashes(w, hashes, op, all);
    MoreRoom(w.head, old(w.head) + Growth(op), ops[1..]);
    hashes', outs := RunHashes(w, hashes1, ops[1..], Step(WASM, all, op).0);
    outs := [out] + outs;
  }

  lemma {:induction false} MoreRoom(head: nat, head': nat, ops: seq<Op>)
    requires head <= head' && RoomFor(head', ops)
    ensures RoomFor(head, ops)
    decreases |ops|
  {
    if ops != [] {
      MoreRoom(head + Growth(ops[0]), head' + Growth(ops[0]), ops[1..]);
    }
  }
}
