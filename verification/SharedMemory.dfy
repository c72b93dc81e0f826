/** What the WASM module's methods do to memory outside the slot they work on: which writes stay clear
    of other slots, and which digest bytes come from the slot itself. */
module SharedMemory {
  import opened Words
  import opened Wrappers
  import opened Rfc7693
  import opened LinearMemory
  import opened WasmModule
  import opened Streaming
  import opened StreamingProofs
  import opened Parameters
  import opened Machine

  /** p is the address of a slot below head. */
  predicate IsSlot(p: nat, head: nat) {
    64 <= p && (p - 64) % SLOT == 0 && p + SLOT <= head
  }

  lemma SlotsDisjoint(p: nat, q: nat, head: nat)
    requires IsSlot(p, head) && IsSlot(q, head) && p != q
    ensures p + SLOT <= q || q + SLOT <= p
  {
    var i, j := (p - 64) / SLOT, (q - 64) / SLOT;
    assert p == 64 + SLOT * i && q == 64 + SLOT * j;
  }

  lemma NewSlot(n: nat, head: nat)
    requires head == 64 + SLOT * n
    ensures IsSlot(head, head + SLOT)
    ensures forall p :: IsSlot(p, head + SLOT) ==> p == head || IsSlot(p, head)
  {
    forall p: nat | IsSlot(p, head + SLOT)
      ensures p == head || IsSlot(p, head)
    {
      var i := (p - 64) / SLOT;
      assert p == 64 + SLOT * i;
    }
  }

  // ----- The allocator

  /** Each slot below head is live or free, never both and never twice.  Live slots lie inside the n
      bytes of memory. */
  ghost predicate Layout(head: nat, live: set<nat>, freeList: seq<nat>, n: nat) {
    && head == 64 + SLOT * (|live| + |freeList|)
    && n % PAGE == 0 && PAGE <= n <= MAX_MEMORY
    && (forall p :: p in live ==> IsSlot(p, head) && p + SLOT <= n)
    && (forall k :: 0 <= k < |freeList| ==> IsSlot(freeList[k], head) && freeList[k] !in live)
    && (forall k, l :: 0 <= k < l < |freeList| ==> freeList[k] != freeList[l])
    && (forall p :: IsSlot(p, head) ==> p in live || p in freeList)
  }

  /** The same while the slot at pointer is taken, but neither live nor free. */
  ghost predicate Taken(head: nat, live: set<nat>, freeList: seq<nat>, n: nat, pointer: nat) {
    && IsSlot(pointer, head) && pointer !in live && pointer !in freeList
    && head == 64 + SLOT * (|live| + |freeList| + 1)
    && n % PAGE == 0 && PAGE <= n <= MAX_MEMORY
    && (forall p :: p in live ==> IsSlot(p, head) && p + SLOT <= n)
    && (forall k :: 0 <= k < |freeList| ==> IsSlot(freeList[k], head) && freeList[k] !in live)
    && (forall k, l :: 0 <= k < l < |freeList| ==> freeList[k] != freeList[l])
    && (forall p :: IsSlot(p, head) ==> p in live || p in freeList || p == pointer)
  }

  lemma LayoutFacts(head: nat, live: set<nat>, freeList: seq<nat>, n: nat)
    requires Layout(head, live, freeList, n)
    ensures n % PAGE == 0 && PAGE <= n <= MAX_MEMORY
    ensures forall p :: p in live ==> IsSlot(p, head) && p + SLOT <= n
  {
  }

  lemma LayoutGrows(head: nat, live: set<nat>, freeList: seq<nat>, n: nat, n': nat)
    requires Layout(head, live, freeList, n) && n <= n' <= MAX_MEMORY && n' % PAGE == 0
    ensures Layout(head, live, freeList, n')
  {
  }

  lemma LayoutTakes(head: nat, live: set<nat>, freeList: seq<nat>, n: nat)
    requires Layout(head, live, freeList, n)
    ensures freeList == [] ==> Taken(head + SLOT, live, [], n, head)
    ensures freeList != [] ==> Taken(head, live, freeList[..|freeList| - 1], n, freeList[|freeList| - 1])
  {
    if freeList == [] {
      NewSlot(|live|, head);
    } else {
      var rest, last := freeList[..|freeList| - 1], freeList[|freeList| - 1];
      assert freeList == rest + [last];
    }
  }

  lemma TakenFacts(head: nat, live: set<nat>, freeList: seq<nat>, n: nat, pointer: nat)
    requires Taken(head, live, freeList, n, pointer)
    ensures IsSlot(pointer, head) && pointer !in live && head == 64 + SLOT * (|live| + |freeList| + 1)
    ensures n % PAGE == 0 && PAGE <= n <= MAX_MEMORY
    ensures forall p :: p in live ==> IsSlot(p, head) && p + SLOT <= n
  {
  }

  lemma LayoutOpens(head: nat, live: set<nat>, freeList: seq<nat>, n: nat, pointer: nat, n': nat)
    requires Taken(head, live, freeList, n, pointer)
    requires n <= n' <= MAX_MEMORY && n' % PAGE == 0 && pointer + SLOT <= n'
    ensures Layout(head, live + {pointer}, freeList, n')
  {
  }

  lemma LayoutFrees(head: nat, live: set<nat>, freeList: seq<nat>, n: nat, pointer: nat)
    requires Layout(head, live, freeList, n) && pointer in live
    ensures Layout(head, live - {pointer}, freeList + [pointer], n)
  {
  }

  // ----- What a slot holds

  /** The bytes of the slot at p are the same in both memories. */
  predicate SlotKept(mem: seq<u8>, mem': seq<u8>, p: nat) {
    p + SLOT <= |mem| && p + SLOT <= |mem'| && mem'[p..p + SLOT] == mem[p..p + SLOT]
  }

  lemma KeptByBytes(mem: seq<u8>, mem': seq<u8>, p: nat)
    requires p + SLOT <= |mem| && p + SLOT <= |mem'|
    requires forall i :: p <= i < p + SLOT ==> mem'[i] == mem[i]
    ensures SlotKept(mem, mem', p)
  {
  }

  /** A slot whose bytes did not change holds what it held, and nothing it did not hold. */
  lemma KeptHolds(mem: seq<u8>, mem': seq<u8>, p: nat, s: Stream, flag: u64)
    requires SlotKept(mem, mem', p)
    ensures Holds(mem', p, s, flag) <==> Holds(mem, p, s, flag)
  {
    hide StateBytes;
  }

  lemma HoldsFits(mem: seq<u8>, p: nat, s: Stream, flag: u64)
    requires Holds(mem, p, s, flag)
    ensures p + SLOT <= |mem| && s.t < TWO_64
  {
  }

  /** Every live slot holds its stream. */
  predicate HoldAll(mem: seq<u8>, live: map<nat, Stream>) {
    forall p :: p in live ==> Holds(mem, p, live[p], 0)
  }

  /** If no live slot but one was touched and that one holds its stream, all slots hold theirs if and
      only if the others did. */
  lemma OthersDecide(mem: seq<u8>, mem': seq<u8>, live: map<nat, Stream>, p: nat, s: Stream)
    requires forall q :: q in live && q != p ==> SlotKept(mem, mem', q)
    requires Holds(mem', p, s, 0)
    ensures HoldAll(mem', live[p := s]) <==> HoldAll(mem, live - {p})
  {
    hide Holds, SlotKept;
    var live' := live[p := s];
    forall q | q in live && q != p
      ensures Holds(mem', q, live'[q], 0) <==> Holds(mem, q, (live - {p})[q], 0)
    {
      KeptHolds(mem, mem', q, live[q], 0);
    }
    if HoldAll(mem', live') {
      forall q | q in live - {p}
        ensures Holds(mem, q, (live - {p})[q], 0)
      {
        assert q in live' && q != p;
      }
    }
  }

  /** The same after the slot at p has left the live slots. */
  lemma OthersRemain(mem: seq<u8>, mem': seq<u8>, live: map<nat, Stream>)
    requires forall q :: q in live ==> SlotKept(mem, mem', q)
    ensures HoldAll(mem', live) <==> HoldAll(mem, live)
  {
    hide Holds, SlotKept;
    forall q | q in live
      ensures Holds(mem', q, live[q], 0) <==> Holds(mem, q, live[q], 0)
    {
      KeptHolds(mem, mem', q, live[q], 0);
    }
  }

  /** Writing one state leaves the other slots alone. */
  lemma PutKeeps(mem: seq<u8>, p: nat, s: Stream, f: u64, q: nat, head: nat)
    requires IsSlot(p, head) && IsSlot(q, head) && p != q
    requires p + SLOT <= |mem| && q + SLOT <= |mem| && s.t < TWO_64
    ensures SlotKept(mem, Put(mem, p, s, f), q)
  {
    hide StateBytes, Image;
    SlotsDisjoint(p, q, head);
    ImageOutside(mem, p, s.b, FieldsOf(s.h, s.t, s.c, f), q, q + SLOT);
  }

  lemma KeptTwice(mem: seq<u8>, mem': seq<u8>, mem'': seq<u8>, p: nat)
    requires SlotKept(mem, mem', p) && SlotKept(mem', mem'', p)
    ensures SlotKept(mem, mem'', p)
  {
  }

  /** Growing the memory and copying input to head leaves the slots below head alone. */
  lemma ScratchKeeps(mem: seq<u8>, grown: seq<u8>, head: nat, input: seq<u8>, p: nat)
    requires |mem| <= |grown| && grown[..|mem|] == mem
    requires head + |input| <= |grown| && p + SLOT <= head && p + SLOT <= |mem|
    ensures SlotKept(mem, Splice(grown, head, input), p)
  {
    var r := Splice(grown, head, input);
    forall i | p <= i < p + SLOT
      ensures r[i] == mem[i]
    {
      assert r[i] == grown[i] == grown[..|mem|][i];
    }
    KeptByBytes(mem, r, p);
  }

  lemma GrowthKeeps(mem: seq<u8>, grown: seq<u8>, p: nat)
    requires |mem| <= |grown| && grown[..|mem|] == mem && p + SLOT <= |mem|
    ensures SlotKept(mem, grown, p)
  {
    forall i | p <= i < p + SLOT
      ensures grown[i] == mem[i]
    {
      assert grown[i] == grown[..|mem|][i];
    }
    KeptByBytes(mem, grown, p);
  }

  // ----- Writing the parameters of a new instance

  /** The first n of the bytes. */
  function Clip(bytes: Option<seq<u8>>, n: nat): Option<seq<u8>> {
    if bytes.Some? && |bytes.value| > n then Some(bytes.value[..n]) else bytes
  }

  /** `memory.set(bytes, at)` throws if the bytes do not fit in the memory. */
  predicate FitsMemory(n: nat, salt: Option<seq<u8>>, personal: Option<seq<u8>>) {
    32 + Size(salt) <= n && 48 + Size(personal) <= n
  }

  function BlockHead(digestLength: nat, keyLength: nat): (head: seq<u8>)
    ensures |head| == 64
  {
    [ToUint8(digestLength), ToUint8(keyLength), 1, 1] + Zeros(60)
  }

  /** The memory after the parameters of a new instance were written, as far as they fit in it.
      Nothing keeps a salt or personalisation inside the first 64 bytes. */
  function ParametersIn(mem: seq<u8>, digestLength: nat, keyLength: nat, salt: Option<seq<u8>>,
                        personal: Option<seq<u8>>): (r: seq<u8>)
    requires |mem| >= 64
    ensures |r| == |mem|
  {
    var cleared := BlockHead(digestLength, keyLength) + mem[64..];
    if 32 + Size(salt) > |mem| then cleared
    else
      var salted := Write(cleared, 32, salt);
      if 48 + Size(personal) > |mem| then salted else Write(salted, 48, personal)
  }

  /** What the first 64 bytes are: the block of the clipped salt and personalisation. */
  lemma BlockWritten(mem: seq<u8>, digestLength: nat, keyLength: nat, salt: Option<seq<u8>>, personal: Option<seq<u8>>)
    requires |mem| >= 64 && FitsMemory(|mem|, salt, personal)
    ensures ParametersIn(mem, digestLength, keyLength, salt, personal)[..64]
      == ParameterBlock(digestLength, keyLength, Clip(salt, 32), Clip(personal, 16))
  {
    hide Write;
    var head := BlockHead(digestLength, keyLength);
    var cleared := head + mem[64..];
    var salted, salted' := Write(cleared, 32, salt), Write(head, 32, Clip(salt, 32));
    forall i | 0 <= i < 64
      ensures Write(salted, 48, personal)[i] == Write(salted', 48, Clip(personal, 16))[i]
    {
      WriteAt(cleared, 32, salt, i);
      WriteAt(head, 32, Clip(salt, 32), i);
      WriteAt(salted, 48, personal, i);
      WriteAt(salted', 48, Clip(personal, 16), i);
    }
  }

  /** Parameters that fit their block leave every slot alone. */
  lemma FittingKeeps(mem: seq<u8>, digestLength: nat, keyLength: nat, salt: Option<seq<u8>>, personal: Option<seq<u8>>, p: nat)
    requires |mem| >= 64 && FitsBlock(salt, personal)
    requires 64 <= p && p + SLOT <= |mem|
    ensures SlotKept(mem, ParametersIn(mem, digestLength, keyLength, salt, personal), p)
  {
    hide Write;
    var r := ParametersIn(mem, digestLength, keyLength, salt, personal);
    var cleared := BlockHead(digestLength, keyLength) + mem[64..];
    forall i | p <= i < p + SLOT
      ensures r[i] == mem[i]
    {
      WriteAt(cleared, 32, salt, i);
      WriteAt(Write(cleared, 32, salt), 48, personal, i);
    }
    KeptByBytes(mem, r, p);
  }

  /** A salt of 33 bytes overwrites the first byte of the first slot: the block of another instance. */
  lemma SaltReachesSlot(mem: seq<u8>, digestLength: nat, keyLength: nat, salt: seq<u8>, s: Stream)
    requires Holds(mem, 64, s, 0) && |salt| == 33 && salt[32] != s.b[0]
    ensures !Holds(ParametersIn(mem, digestLength, keyLength, Some(salt), None), 64, s, 0)
  {
    hide Write;
    var cleared := BlockHead(digestLength, keyLength) + mem[64..];
    var r := ParametersIn(mem, digestLength, keyLength, Some(salt), None);
    WriteAt(cleared, 32, Some(salt), 64);
    WriteAt(Write(cleared, 32, Some(salt)), 48, None, 64);
    FirstByte(mem, s);
    if Holds(r, 64, s, 0) {
      FirstByte(r, s);
    }
  }

  lemma FirstByte(mem: seq<u8>, s: Stream)
    requires Holds(mem, 64, s, 0)
    ensures |mem| > 64 && mem[64] == s.b[0]
  {
    hide Bytes;
    assert mem[64] == mem[64..64 + SLOT][0] == StateBytes(s.b, FieldsOf(s.h, s.t, s.c, 0))[0];
  }

  /** A memory of zeros holds the state of zeros. */
  lemma ZerosHold(n: nat)
    requires n >= 64 + SLOT
    ensures Holds(Zeros(n), 64, Ctx(Zeros(128), seq(8, _ => 0), 0, 0), 0)
  {
    hide Bytes;
    var s: Stream := Ctx(Zeros(128), seq(8, _ => 0), 0, 0);
    assert FieldsOf(s.h, 0, 0, 0) == seq(11, _ => 0);
    ZeroBytes(11);
    assert Zeros(n)[64..64 + SLOT] == StateBytes(s.b, FieldsOf(s.h, 0, 0, 0));
  }

  /** A salt of n bytes or a personalisation of k bytes that leaves its block changes the slot at 64 in
      some memory. */
  lemma LongParametersReachSlot(n: nat, k: nat) returns (mem: seq<u8>, salt: seq<u8>, personal: seq<u8>, s: Stream)
    requires n > 32 || k > 16
    ensures |salt| == n && |personal| == k && Holds(mem, 64, s, 0)
    ensures !Holds(ParametersIn(mem, 0, 0, Some(salt), Some(personal)), 64, s, 0)
  {
    hide Write, Holds, BlockHead;
    mem, s := Zeros(64 + SLOT + n + k), Ctx(Zeros(128), seq(8, _ => 0), 0, 0);
    salt, personal := seq(n, _ => 1), seq(k, _ => 1);
    ZerosHold(|mem|);
    var cleared := BlockHead(0, 0) + mem[64..];
    WriteAt(cleared, 32, Some(salt), 64);
    WriteAt(Write(cleared, 32, Some(salt)), 48, Some(personal), 64);
    var r := ParametersIn(mem, 0, 0, Some(salt), Some(personal));
    assert r[64] == 1;
    if Holds(r, 64, s, 0) {
      FirstByte(r, s);
    }
  }

  /** Every state in every slot survives the creation of an instance with any salt of n bytes and any
      personalisation of k bytes, if and only if both fit their block. */
  lemma ExactlyFittingLengths(n: nat, k: nat)
    ensures n <= 32 && k <= 16 <==>
      forall mem: seq<u8>, digestLength: nat, keyLength: nat, salt: Option<seq<u8>>, personal: Option<seq<u8>>, p: nat, s: Stream
        | |mem| >= 64 && 64 <= p && Size(salt) == n && Size(personal) == k && Holds(mem, p, s, 0) ::
        Holds(ParametersIn(mem, digestLength, keyLength, salt, personal), p, s, 0)
  {
    hide Holds, ParametersIn;
    if n <= 32 && k <= 16 {
      forall mem: seq<u8>, digestLength: nat, keyLength: nat, salt: Option<seq<u8>>, personal: Option<seq<u8>>, p: nat, s: Stream
        | |mem| >= 64 && 64 <= p && Size(salt) == n && Size(personal) == k && Holds(mem, p, s, 0)
        ensures Holds(ParametersIn(mem, digestLength, keyLength, salt, personal), p, s, 0)
      {
        HoldsFits(mem, p, s, 0);
        FittingKeeps(mem, digestLength, keyLength, salt, personal, p);
        KeptHolds(mem, ParametersIn(mem, digestLength, keyLength, salt, personal), p, s, 0);
      }
    } else {
      var mem, salt, personal, s := LongParametersReachSlot(n, k);
      assert Size(Some(salt)) == n && Size(Some(personal)) == k;
      HoldsFits(mem, 64, s, 0);
    }
  }

  // ----- Reading the digest

  /** `memory.slice(lo, lo + n)`, which ends with the memory. */
  function MemorySlice(mem: seq<u8>, lo: nat, n: nat): (r: seq<u8>)
    requires lo <= |mem|
    ensures |r| <= n
  {
    if lo + n <= |mem| then mem[lo..lo + n] else mem[lo..]
  }

  /** The bytes of a finished state from its h on. */
  lemma TailInSlot(mem: seq<u8>, p: nat, s: Stream)
    requires Holds(mem, p, s, ONES)
    ensures p + SLOT <= |mem| && mem[p + 128..p + SLOT] == Tail(s)
  {
    hide ByteOf;
    var ws := FieldsOf(s.h, s.t, s.c, ONES);
    BytesAppend(s.h, [s.t, s.c, ONES]);
    forall i | 0 <= i < 64
      ensures WordBytes(s.h)[i] == Bytes(s.h)[i]
    {
      WordByteIs(s.h, i);
    }
    assert WordBytes(s.h) == Bytes(s.h);
    assert mem[p + 128..p + SLOT] == mem[p..p + SLOT][128..] == StateBytes(s.b, ws)[128..] == Bytes(ws);
  }

  lemma WordByteIs(h: Words8, i: nat)
    requires i < 64
    ensures WordBytes(h)[i] == ByteOf(h[i / 8], i % 8)
  {
  }

  /** A digest of up to 88 bytes read from a finished slot. */
  lemma SliceIsOutput(mem: seq<u8>, p: nat, s: Stream, n: nat)
    requires Holds(mem, p, s, ONES) && n <= 88
    ensures p + SLOT <= |mem| && MemorySlice(mem, p + 128, n) == Output(true, s, n)
  {
    hide Holds, Bytes, WordBytes;
    TailInSlot(mem, p, s);
    assert mem[p + 128..p + 128 + n] == mem[p + 128..p + SLOT][..n];
  }

  lemma OwnSlice(mem: seq<u8>, p: nat, n: nat)
    requires p + SLOT <= |mem| && n <= 88
    ensures MemorySlice(mem, p + 128, n) == mem[p..p + SLOT][128..128 + n]
  {
    var own := mem[p..p + SLOT];
    assert forall k :: 0 <= k < SLOT ==> own[k] == mem[p + k];
    assert own[128..128 + n] == mem[p + 128..p + 128 + n];
  }

  /** A digest of n bytes depends on its own slot alone, whatever else is in memory, if and only if n is
      at most 88. */
  lemma ExactlyOwnSlot(n: nat)
    ensures n <= 88 <==>
      forall mem: seq<u8>, mem': seq<u8>, p: nat | SlotKept(mem, mem', p) ::
        MemorySlice(mem, p + 128, n) == MemorySlice(mem', p + 128, n)
  {
    if n <= 88 {
      forall mem: seq<u8>, mem': seq<u8>, p: nat | SlotKept(mem, mem', p)
        ensures MemorySlice(mem, p + 128, n) == MemorySlice(mem', p + 128, n)
      {
        OwnSlice(mem, p, n);
        OwnSlice(mem', p, n);
      }
    } else {
      var mem, mem' := Zeros(64 + SLOT + n), Zeros(64 + SLOT + n)[64 + SLOT := 1];
      KeptByBytes(mem, mem', 64);
      assert MemorySlice(mem, 64 + 128, n)[88] != MemorySlice(mem', 64 + 128, n)[88];
    }
  }

  /** The bytes of h in the slot at p are the same in both memories. */
  predicate ChainValueKept(mem: seq<u8>, mem': seq<u8>, p: nat) {
    p + SLOT <= |mem| && p + SLOT <= |mem'| && mem'[p + 128..p + 192] == mem[p + 128..p + 192]
  }

  /** It depends on the 64 bytes of h alone if and only if n is at most 64. */
  lemma ExactlyChainValue(n: nat)
    ensures n <= 64 <==>
      forall mem: seq<u8>, mem': seq<u8>, p: nat | ChainValueKept(mem, mem', p) ::
        MemorySlice(mem, p + 128, n) == MemorySlice(mem', p + 128, n)
  {
    if n <= 64 {
      forall mem: seq<u8>, mem': seq<u8>, p: nat | ChainValueKept(mem, mem', p)
        ensures MemorySlice(mem, p + 128, n) == MemorySlice(mem', p + 128, n)
      {
        assert MemorySlice(mem, p + 128, n) == mem[p + 128..p + 192][..n];
        assert MemorySlice(mem', p + 128, n) == mem'[p + 128..p + 192][..n];
      }
    } else {
      var mem, mem' := Zeros(64 + SLOT + n), Zeros(64 + SLOT + n)[64 + 192 := 1];
      assert ChainValueKept(mem, mem', 64);
      assert MemorySlice(mem, 64 + 128, n)[64] != MemorySlice(mem', 64 + 128, n)[64];
    }
  }
}
