/** Why streaming is right: chunk borders do not matter, the state is determined by the bytes
    absorbed, and finishing gives the digest of section 3.3 of RFC 7693. */
module StreamingProofs {
  import opened Words
  import opened Rfc7693
  import opened Streaming

  /** A context just created with initial words h0. */
  function Start(h0: Words8): Stream {
    Ctx(Zeros(128), h0, 0, 0)
  }

  /** A context after its key was absorbed and the buffer declared full. */
  function KeyedStart(h0: Words8, key: seq<u8>): Stream {
    Absorb(Start(h0), key).(c := 128)
  }

  // ----- Chunks

  lemma AbsorbNext(s: Stream, input: seq<u8>, i: nat)
    requires i < |input|
    ensures Absorb(s, input[..i + 1]) == AbsorbByte(Absorb(s, input[..i]), input[i])
  {
    hide AbsorbByte;
    assert input[..i + 1][..|input[..i + 1]| - 1] == input[..i];
  }

  /** Absorbing in two pieces or in one gives the same state. */
  lemma {:induction false} AbsorbConcat(s: Stream, x: seq<u8>, y: seq<u8>)
    ensures Absorb(s, x + y) == Absorb(Absorb(s, x), y)
    decreases |y|
  {
    hide AbsorbByte;
    if y == [] {
      assert x + y == x;
    } else {
      var y' := y[..|y| - 1];
      AbsorbConcat(s, x, y');
      assert (x + y)[..|x + y| - 1] == x + y';
    }
  }

  function AbsorbAll(s: Stream, chunks: seq<seq<u8>>): Stream
    decreases |chunks|
  {
    if chunks == [] then s else AbsorbAll(Absorb(s, chunks[0]), chunks[1..])
  }

  function Concat(chunks: seq<seq<u8>>): seq<u8> {
    if chunks == [] then [] else chunks[0] + Concat(chunks[1..])
  }

  /** Any run of updates reaches the state one update with all the bytes reaches. */
  lemma {:induction false} ChunkingIrrelevant(s: Stream, chunks: seq<seq<u8>>)
    ensures AbsorbAll(s, chunks) == Absorb(s, Concat(chunks))
    decreases |chunks|
  {
    if chunks != [] {
      ChunkingIrrelevant(Absorb(s, chunks[0]), chunks[1..]);
      AbsorbConcat(s, chunks[0], Concat(chunks[1..]));
    }
  }

  /** Every byte absorbed is either compressed or waiting. */
  lemma {:induction false} BytesCounted(s: Stream, input: seq<u8>)
    ensures Absorb(s, input).t + Absorb(s, input).c == s.t + s.c + |input|
  {
    if input != [] {
      BytesCounted(s, input[..|input| - 1]);
    }
  }

  // ----- The state reached

  /** h0 chained over the first n full blocks of the data. */
  function ChainPrefix(h0: Words8, data: seq<u8>, n: nat): Words8
    requires 128 * n <= |data|
  {
    hide F;
    if n == 0 then h0
    else F(ChainPrefix(h0, data, n - 1), data[128 * (n - 1)..128 * n], 128 * n, false)
  }

  lemma {:induction false} ChainPrefixLocal(h0: Words8, data: seq<u8>, more: seq<u8>, n: nat)
    requires 128 * n <= |data|
    ensures ChainPrefix(h0, data + more, n) == ChainPrefix(h0, data, n)
  {
    hide F;
    if n > 0 {
      ChainPrefixLocal(h0, data, more, n - 1);
      assert (data + more)[128 * (n - 1)..128 * n] == data[128 * (n - 1)..128 * n];
    }
  }

  /** The number of full blocks behind the pending one. */
  function Settled(data: seq<u8>): nat {
    if data == [] then 0 else (|data| - 1) / 128
  }

  /** All full blocks but the pending one are chained, and the rest, at least one byte and at
      most a full block, waits at the start of the buffer. */
  predicate Reached(s: Stream, h0: Words8, data: seq<u8>) {
    var n := Settled(data);
    && 128 * n <= |data|
    && s.t == 128 * n
    && s.c == |data| - 128 * n
    && s.b[..s.c] == data[128 * n..]
    && s.h == ChainPrefix(h0, data, n)
  }

  lemma FlushReached(s: Stream, h0: Words8, data: seq<u8>)
    requires Reached(s, h0, data)
    ensures
      var f, n := Flush(s), |data| / 128;
      && f.t == 128 * n
      && f.c == |data| - 128 * n < 128
      && f.b[..f.c] == data[128 * n..]
      && f.h == ChainPrefix(h0, data, n)
  {
    hide F;
    var n := Settled(data);
    if s.c == 128 {
      assert s.b == data[128 * n..128 * (n + 1)];
    } else {
      assert |data| / 128 == n;
    }
  }

  lemma ByteReached(s: Stream, h0: Words8, data: seq<u8>, x: u8)
    requires Reached(s, h0, data)
    ensures Reached(AbsorbByte(s, x), h0, data + [x])
  {
    hide F, Flush;
    FlushReached(s, h0, data);
    var n := |data| / 128;
    assert Settled(data + [x]) == n;
    assert (data + [x])[128 * n..] == data[128 * n..] + [x];
    ChainPrefixLocal(h0, data, [x], n);
  }

  /** The state after absorbing data into a new context. */
  lemma {:induction false} StateReached(h0: Words8, data: seq<u8>)
    ensures Reached(Absorb(Start(h0), data), h0, data)
  {
    hide AbsorbByte;
    if data == [] {
      hide *;
      StartReached(h0);
      AbsorbNothing(Start(h0));
    } else {
      hide Reached;
      var before, x := data[..|data| - 1], data[|data| - 1];
      StateReached(h0, before);
      ByteReached(Absorb(Start(h0), before), h0, before, x);
      assert data == before + [x];
    }
  }

  lemma AbsorbNothing(s: Stream)
    ensures Absorb(s, []) == s
  {
  }

  lemma StartReached(h0: Words8)
    ensures Reached(Start(h0), h0, [])
  {
  }

  // ----- Agreement with the RFC

  lemma {:induction false} BlocksOfData(data: seq<u8>)
    requires data != []
    ensures
      var d, n := SplitBlocks(data), Settled(data);
      && |d| == n + 1
      && d[n] == PadBlock(data[128 * n..])
      && forall i :: 0 <= i < n ==> d[i] == data[128 * i..128 * i + 128]
  {
    hide PadBlock;
    var n := Settled(data);
    if |data| <= 128 {
      assert data[128 * n..] == data;
    } else {
      var rest := data[128..];
      var d := SplitBlocks(rest);
      BlocksOfData(rest);
      assert Settled(rest) == n - 1;
      assert rest[128 * (n - 1)..] == data[128 * n..];
      assert SplitBlocks(data) == [data[..128]] + d;
      forall i | 1 <= i < n
        ensures d[i - 1] == data[128 * i..128 * i + 128]
      {
        assert rest[128 * (i - 1)..128 * (i - 1) + 128] == data[128 * i..128 * i + 128];
      }
    }
  }

  lemma {:induction false} ChainOfBlocks(h0: Words8, data: seq<u8>, d: seq<Block>, n: nat)
    requires 128 * n <= |data| && n <= |d|
    requires forall i :: 0 <= i < n ==> d[i] == data[128 * i..128 * i + 128]
    ensures Chain(h0, d, n) == ChainPrefix(h0, data, n)
  {
    hide F;
    if n > 0 {
      ChainOfBlocks(h0, data, d, n - 1);
    }
  }

  /** The data blocks of an unkeyed hash end with the pending bytes, padded. */
  lemma PendingBlock(h0: Words8, data: seq<u8>)
    ensures
      var d, n := DataBlocks([], data), Settled(data);
      && 128 * n <= |data| <= 128 * n + 128
      && |d| == n + 1
      && d[n] == PadBlock(data[128 * n..])
      && Chain(h0, d, n) == ChainPrefix(h0, data, n)
  {
    hide F, PadBlock, SplitBlocks, Chain, ChainPrefix;
    var d, n := DataBlocks([], data), Settled(data);
    if data == [] {
      assert data[0..] == [];
    } else {
      BlocksOfData(data);
    }
    ChainOfBlocks(h0, data, d, n);
  }

  /** Absorbing and finishing computes the unkeyed hash. */
  lemma FinishIsHash(h0: Words8, data: seq<u8>)
    ensures Finish(Absorb(Start(h0), data)).h == HashFrom(h0, [], data)
  {
    hide F, Chain, ChainPrefix, DataBlocks, Absorb, Start;
    StateReached(h0, data);
    PendingBlock(h0, data);
    var s, n := Absorb(Start(h0), data), Settled(data);
    assert s.b[..s.c] + Zeros(128 - s.c) == PadBlock(data[128 * n..]);
  }

  /** Declaring the buffer full after the key is absorbing the key padded to a block. */
  lemma KeyIsPaddedBlock(h0: Words8, key: seq<u8>)
    requires |key| <= 128
    ensures KeyedStart(h0, key) == Absorb(Start(h0), PadBlock(key))
  {
    hide F;
    var n := 128 - |key|;
    AbsorbConcat(Start(h0), key, Zeros(n));
    FillBuffer(h0, key);
    FillBuffer(h0, PadBlock(key));
    assert PadBlock(key) == key + Zeros(n);
    assert PadBlock(PadBlock(key)) == PadBlock(key);
  }

  /** Up to 128 bytes just fill the buffer, which holds zeros elsewhere. */
  lemma {:induction false} FillBuffer(h0: Words8, data: seq<u8>)
    requires |data| <= 128
    ensures Absorb(Start(h0), data) == Ctx(PadBlock(data), h0, 0, |data|)
  {
    if data == [] {
      assert PadBlock(data) == Zeros(128);
    } else {
      var before, x := data[..|data| - 1], data[|data| - 1];
      FillBuffer(h0, before);
      assert PadBlock(before)[|before| := x] == PadBlock(data);
    }
  }

  lemma PadFull(b: Block)
    ensures PadBlock(b) == b
  {
  }

  lemma KeyedBlocks(key: seq<u8>, message: seq<u8>)
    requires 0 < |key| <= 64
    ensures DataBlocks(key, message) == DataBlocks([], PadBlock(key) + message)
  {
    hide PadBlock;
    var first := PadBlock(key);
    var data := first + message;
    if message == [] {
      assert data == first;
      PadFull(first);
    } else {
      assert data[..128] == first && data[128..] == message;
    }
  }

  /** A keyed hash is the unkeyed hash, from the same words, of padded key and message. */
  lemma KeyedHash(h0: Words8, key: seq<u8>, message: seq<u8>)
    requires 0 < |key| <= 64
    ensures HashFrom(h0, key, message) == HashFrom(h0, [], PadBlock(key) + message)
  {
    hide DataBlocks, F, Chain, PadBlock;
    KeyedBlocks(key, message);
  }

  /** Absorbing the message after the key and finishing computes the RFC's keyed hash. */
  lemma KeyedFinishIsHash(h0: Words8, key: seq<u8>, message: seq<u8>)
    requires 0 < |key| <= 64
    ensures Finish(Absorb(KeyedStart(h0, key), message)).h == HashFrom(h0, key, message)
  {
    hide F, Chain, Finish;
    KeyIsPaddedBlock(h0, key);
    AbsorbConcat(Start(h0), PadBlock(key), message);
    FinishIsHash(h0, PadBlock(key) + message);
    KeyedHash(h0, key, message);
  }
}
