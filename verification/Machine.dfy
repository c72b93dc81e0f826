/** What a program can observe of a BLAKE2b module: instances are created, fed and asked for their
    digest in any order.  Each instance is its own stream; nothing is shared.  Both implementations
    share storage between instances and are proved to behave like this machine. */
module Machine {
  import opened Words
  import opened Wrappers
  import opened Rfc7693
  import opened LinearMemory
  import opened Streaming
  import opened StreamingProofs
  import opened Parameters

  /** What the two modules do differently.  A strict module refuses an instance after its digest.  The
      WASM module takes output length 0 for 32, ends an instance before it looks at the buffer for the
      digest, and takes digest bytes past h from the rest of the instance's state. */
  datatype Rules = Rules(strict: bool, wasm: bool)

  /** modules/blake2b */
  const JS: Rules := Rules(false, false)

  /** modules/blake2b-wasm */
  const WASM: Rules := Rules(true, true)

  datatype Op = Create(outlen: nat, key: Option<seq<u8>>, salt: Option<seq<u8>>, personal: Option<seq<u8>>, noAssert: bool)
              | Update(id: nat, bytes: seq<u8>)
              | Digest(id: nat, out: Option<seq<u8>>)

  datatype Out = Created | Updated | Digested(bytes: seq<u8>) | Rejected(error: Error)

  datatype Instance = Instance(s: Stream, outlen: nat, finalized: bool)

  /** The stream of a new instance. */
  function Open(outlen: nat, key: Option<seq<u8>>, salt: Option<seq<u8>>, personal: Option<seq<u8>>): Stream
    requires FitsBlock(salt, personal)
  {
    var h0 := InitialFrom(ParameterBlock(outlen, Size(key), salt, personal));
    if key.None? then Start(h0) else KeyedStart(h0, key.value)
  }

  function Length(rules: Rules, outlen: nat): nat {
    if rules.wasm && outlen == 0 then 32 else outlen
  }

  /** Why a creation is refused, if it is. */
  function Refusal(rules: Rules, op: Op): (e: Option<Error>)
    requires op.Create?
    ensures e.None? ==> FitsBlock(op.salt, op.personal)
  {
    if !op.noAssert then Check(Length(rules, op.outlen), op.key, op.salt, op.personal)
    else if FitsBlock(op.salt, op.personal) then None
    else Some(Overrun)
  }

  /** With the checks on, an instance is created exactly for these arguments. */
  lemma AcceptedExactly(rules: Rules, op: Op)
    requires op.Create? && !op.noAssert
    ensures Refusal(rules, op).None? <==>
      && 16 <= (if rules.wasm && op.outlen == 0 then 32 else op.outlen) <= 64
      && (op.key.Some? ==> 16 <= |op.key.value| <= 64)
      && (op.salt.Some? ==> |op.salt.value| == 16)
      && (op.personal.Some? ==> |op.personal.value| == 16)
  {
  }

  /** The bytes of a finished state from h on: h, the counter, the pending count and the flag. */
  function Tail(s: Stream): (bytes: seq<u8>)
    ensures |bytes| == 88
  {
    WordBytes(s.h) + Bytes([s.t % TWO_64, s.c, ONES])
  }

  /** The first n bytes of h, and zeros past its 64 bytes. */
  function Padded(h: Words8, n: nat): (out: seq<u8>)
    ensures |out| == n
  {
    if n <= 64 then WordBytes(h)[..n] else WordBytes(h) + Zeros(n - 64)
  }

  /** The first n digest bytes of a finished stream. */
  function Output(wasm: bool, s: Stream, n: nat): (out: seq<u8>)
    requires wasm ==> n <= 88
    ensures |out| == n
  {
    if wasm && n > 64 then Tail(s)[..n] else Padded(s.h, n)
  }

  predicate SaneOne(rules: Rules, i: Instance) {
    rules.wasm ==> i.outlen <= 88
  }

  /** One operation of an existing instance. */
  function StepOne(rules: Rules, i: Instance, op: Op): (Instance, Out)
    requires op.Update? || op.Digest?
    requires SaneOne(rules, i)
  {
    if rules.strict && i.finalized then (i, Rejected(Finalized))
    else if op.Update? then (i.(s := Absorb(i.s, op.bytes)), Updated)
    else
      var done := i.(s := Finish(i.s), finalized := true);
      if op.out.Some? && |op.out.value| < i.outlen then
        (if rules.wasm then done else i, Rejected(OutputTooSmall))
      else
        var digest := Output(rules.wasm, done.s, i.outlen);
        (done, Digested(if op.out.Some? then digest + op.out.value[i.outlen..] else digest))
  }

  ghost predicate Sane(rules: Rules, all: seq<Instance>) {
    forall i :: 0 <= i < |all| ==> SaneOne(rules, all[i])
  }

  /** With the checks off, the WASM module does not keep instances apart for every argument: what fits
      is proved to be exactly this. */
  predicate Tame(rules: Rules, op: Op) {
    rules.wasm && op.Create? && op.noAssert ==> FitsBlock(op.salt, op.personal) && op.outlen <= 88
  }

  /** An operation may only name an instance that exists. */
  predicate Applies(rules: Rules, n: nat, op: Op) {
    Tame(rules, op) && (op.Create? || op.id < n)
  }

  function Step(rules: Rules, all: seq<Instance>, op: Op): (r: (seq<Instance>, Out))
    requires Sane(rules, all) && Applies(rules, |all|, op)
    ensures Sane(rules, r.0) && |r.0| == |all| + Grows(rules, op)
  {
    hide Open, Finish, Absorb, Output;
    if op.Create? then
      var e := Refusal(rules, op);
      if e.Some? then (all, Rejected(e.value))
      else
        var n := Length(rules, op.outlen);
        (all + [Instance(Open(n, op.key, op.salt, op.personal), n, false)], Created)
    else
      var (i, out) := StepOne(rules, all[op.id], op);
      (all[op.id := i], out)
  }

  /** Every operation of the run names an instance that exists by then. */
  predicate Runnable(rules: Rules, n: nat, ops: seq<Op>)
    decreases |ops|
  {
    ops == [] || (Applies(rules, n, ops[0]) && Runnable(rules, n + Grows(rules, ops[0]), ops[1..]))
  }

  function Grows(rules: Rules, op: Op): nat {
    if op.Create? && Refusal(rules, op).None? then 1 else 0
  }

  /** The instances and the outputs after a run. */
  function Run(rules: Rules, all: seq<Instance>, ops: seq<Op>): (r: (seq<Instance>, seq<Out>))
    requires Sane(rules, all) && Runnable(rules, |all|, ops)
    ensures Sane(rules, r.0) && |r.1| == |ops|
    decreases |ops|
  {
    hide Step, Grows;
    if ops == [] then (all, [])
    else
      var (all', out) := Step(rules, all, ops[0]);
      var (end, outs) := Run(rules, all', ops[1..]);
      (end, [out] + outs)
  }

  // ----- Isolation

  /** The operations of the run that name the instance. */
  function Own(ops: seq<Op>, id: nat): (own: seq<Op>)
    ensures forall k :: 0 <= k < |own| ==> !own[k].Create?
  {
    if ops == [] then []
    else (if !ops[0].Create? && ops[0].id == id then [ops[0]] else []) + Own(ops[1..], id)
  }

  /** The outputs of those operations. */
  function OwnOutputs(ops: seq<Op>, outs: seq<Out>, id: nat): seq<Out>
    requires |ops| == |outs|
  {
    if ops == [] then []
    else (if !ops[0].Create? && ops[0].id == id then [outs[0]] else []) + OwnOutputs(ops[1..], outs[1..], id)
  }

  /** An instance run on its own. */
  function Alone(rules: Rules, i: Instance, own: seq<Op>): (Instance, seq<Out>)
    requires SaneOne(rules, i)
    requires forall k :: 0 <= k < |own| ==> !own[k].Create?
    decreases |own|
  {
    if own == [] then (i, [])
    else
      var (i', out) := StepOne(rules, i, own[0]);
      var (end, outs) := Alone(rules, i', own[1..]);
      (end, [out] + outs)
  }

  /** In any run, an instance ends in the state, and gives the outputs, of its own operations run
      alone: the operations on other instances leave no trace. */
  lemma {:induction false} Isolation(rules: Rules, all: seq<Instance>, ops: seq<Op>, id: nat)
    requires Sane(rules, all) && Runnable(rules, |all|, ops) && id < |all|
    ensures
      var (end, outs) := Run(rules, all, ops);
      && id < |end|
      && (end[id], OwnOutputs(ops, outs, id)) == Alone(rules, all[id], Own(ops, id))
    decreases |ops|
  {
    hide Open, StepOne;
    if ops != [] {
      var (all', out) := Step(rules, all, ops[0]);
      Isolation(rules, all', ops[1..], id);
      var (end, outs) := Run(rules, all', ops[1..]);
      assert Run(rules, all, ops) == (end, [out] + outs);
      assert ([out] + outs)[1..] == outs;
      if !ops[0].Create? && ops[0].id == id {
        assert Own(ops, id) == [ops[0]] + Own(ops[1..], id);
        assert Own(ops, id)[1..] == Own(ops[1..], id);
      } else {
        assert all'[id] == all[id];
        assert Own(ops, id) == Own(ops[1..], id);
        assert OwnOutputs(ops, [out] + outs, id) == OwnOutputs(ops[1..], outs, id);
      }
    }
  }

  // ----- Agreement with the RFC

  function Updates(id: nat, chunks: seq<seq<u8>>): (ops: seq<Op>)
    ensures |ops| == |chunks|
    ensures forall k :: 0 <= k < |ops| ==> ops[k].Update? && ops[k].id == id
  {
    seq(|chunks|, k requires 0 <= k < |chunks| => Update(id, chunks[k]))
  }

  lemma {:induction false} UpdatesAbsorb(rules: Rules, i: Instance, id: nat, chunks: seq<seq<u8>>)
    requires SaneOne(rules, i) && !i.finalized
    ensures Alone(rules, i, Updates(id, chunks)).0 == i.(s := AbsorbAll(i.s, chunks))
    decreases |chunks|
  {
    hide Absorb;
    if chunks != [] {
      var ops := Updates(id, chunks);
      assert ops[0] == Update(id, chunks[0]);
      assert ops[1..] == Updates(id, chunks[1..]);
      UpdatesAbsorb(rules, i.(s := Absorb(i.s, chunks[0])), id, chunks[1..]);
    }
  }

  /** An instance created with an output length and an optional key, updated in any way and then
      asked for its digest answers BLAKE2b of section 3.3 of the bytes it was given. */
  lemma DigestIsRfc(wasm: bool, outlen: nat, key: Option<seq<u8>>, chunks: seq<seq<u8>>)
    requires 1 <= outlen <= 64
    requires key.Some? ==> 1 <= |key.value| <= 64
    ensures
      Output(wasm, Finish(AbsorbAll(Open(outlen, key, None, None), chunks)), outlen)
      == Blake2b(Concat(chunks), if key.Some? then key.value else [], outlen)
  {
    hide Finish, Absorb, WordBytes, HashFrom, InitialFrom, InitialWords, Tail;
    var s := Open(outlen, key, None, None);
    ChunkingIrrelevant(s, chunks);
    InitialIsRfc(outlen, Size(key));
    var h0 := InitialWords(outlen, Size(key));
    var message := Concat(chunks);
    if key.None? {
      FinishIsHash(h0, message);
    } else {
      KeyedFinishIsHash(h0, key.value, message);
    }
  }

  lemma {:induction false} AloneConcat(rules: Rules, i: Instance, x: seq<Op>, y: seq<Op>)
    requires SaneOne(rules, i)
    requires forall k :: 0 <= k < |x| ==> !x[k].Create?
    requires forall k :: 0 <= k < |y| ==> !y[k].Create?
    ensures
      var (j, outs) := Alone(rules, i, x);
      && SaneOne(rules, j)
      && |outs| == |x|
      && Alone(rules, i, x + y) == (Alone(rules, j, y).0, outs + Alone(rules, j, y).1)
    decreases |x|
  {
    hide Absorb, Finish, Output;
    if x == [] {
      assert x + y == y;
      assert Alone(rules, i, x).1 + Alone(rules, i, y).1 == Alone(rules, i, y).1;
    } else {
      assert (x + y)[0] == x[0] && (x + y)[1..] == x[1..] + y;
      var (i', out) := StepOne(rules, i, x[0]);
      AloneConcat(rules, i', x[1..], y);
      var (j, outs) := Alone(rules, i', x[1..]);
      assert [out] + (outs + Alone(rules, j, y).1) == ([out] + outs) + Alone(rules, j, y).1;
    }
  }

  /** What a digest of outlen bytes looks like in the buffer given for it, or in a new one. */
  function InBuffer(digest: seq<u8>, out: Option<seq<u8>>): seq<u8>
    requires out.Some? ==> |digest| <= |out.value|
  {
    if out.Some? then digest + out.value[|digest|..] else digest
  }

  /** In any run, whatever happens to the other instances, a new instance that is updated with some
      chunks and then asked for its digest answers BLAKE2b of its own chunks. */
  lemma AnyRunDigestIsRfc(rules: Rules, all: seq<Instance>, ops: seq<Op>, id: nat, outlen: nat, key: Option<seq<u8>>,
                          chunks: seq<seq<u8>>, out: Option<seq<u8>>, later: seq<Op>)
    requires 1 <= outlen <= 64
    requires key.Some? ==> 1 <= |key.value| <= 64
    requires out.Some? ==> outlen <= |out.value|
    requires Sane(rules, all) && Runnable(rules, |all|, ops) && id < |all|
    requires all[id] == Instance(Open(outlen, key, None, None), outlen, false)
    requires Own(ops, id) == Updates(id, chunks) + [Digest(id, out)] + later
    ensures
      var own := OwnOutputs(ops, Run(rules, all, ops).1, id);
      && |chunks| < |own|
      && own[|chunks|] == Digested(InBuffer(Blake2b(Concat(chunks), if key.Some? then key.value else [], outlen), out))
  {
    hide *;
    var own := Own(ops, id);
    var rest := [Digest(id, out)] + later;
    assert forall k :: 0 <= k < |rest| ==> rest[k] == own[|chunks| + k] && !own[|chunks| + k].Create?;
    assert own == Updates(id, chunks) + rest;
    SaneSmall(rules, all[id]);
    Isolation(rules, all, ops, id);
    AloneConcat(rules, all[id], Updates(id, chunks), rest);
    UpdatesAbsorb(rules, all[id], id, chunks);
    DigestFirst(rules, all[id].(s := AbsorbAll(all[id].s, chunks)), rest);
    DigestIsRfc(rules.wasm, outlen, key, chunks);
  }

  lemma SaneSmall(rules: Rules, i: Instance)
    requires i.outlen <= 64
    ensures SaneOne(rules, i)
  {
  }

  /** A run in two parts. */
  lemma {:induction false} RunConcat(rules: Rules, all: seq<Instance>, x: seq<Op>, y: seq<Op>)
    requires Sane(rules, all) && Runnable(rules, |all|, x + y)
    ensures Runnable(rules, |all|, x) && Runnable(rules, |Run(rules, all, x).0|, y)
    ensures
      var (mid, outs) := Run(rules, all, x);
      Run(rules, all, x + y) == (Run(rules, mid, y).0, outs + Run(rules, mid, y).1)
    decreases |x|
  {
    hide Step, Grows, Applies;
    if x == [] {
      assert x + y == y;
      assert [] + Run(rules, all, y).1 == Run(rules, all, y).1;
    } else {
      assert (x + y)[0] == x[0] && (x + y)[1..] == x[1..] + y;
      var (all', out) := Step(rules, all, x[0]);
      RunConcat(rules, all', x[1..], y);
      var (mid, outs) := Run(rules, all', x[1..]);
      assert [out] + (outs + Run(rules, mid, y).1) == ([out] + outs) + Run(rules, mid, y).1;
    }
  }

  /** The whole life of an instance in any run: whatever was done before it was created and whatever
      else is done after, an instance that is created, with the checks on or off, updated with some
      chunks and asked for its digest answers BLAKE2b of its own chunks. */
  lemma LifeOfInstance(rules: Rules, all: seq<Instance>, before: seq<Op>, id: nat, create: Op,
                       after: seq<Op>, chunks: seq<seq<u8>>, out: Option<seq<u8>>, later: seq<Op>)
    requires Sane(rules, all) && Runnable(rules, |all|, before) && id == |Run(rules, all, before).0|
    requires Runnable(rules, |all|, before + ([create] + after))
    requires create.Create? && create.salt == create.personal == None && Refusal(rules, create).None?
    requires 1 <= create.outlen <= 64 && (create.key.Some? ==> 1 <= |create.key.value| <= 64)
    requires out.Some? ==> create.outlen <= |out.value|
    requires Own(after, id) == Updates(id, chunks) + [Digest(id, out)] + later
    ensures
      var outs := Run(rules, all, before + ([create] + after)).1;
      var own := OwnOutputs(after, outs[|before| + 1..], id);
      var digest := Blake2b(Concat(chunks), if create.key.Some? then create.key.value else [], create.outlen);
      |chunks| < |own| && own[|chunks|] == Digested(InBuffer(digest, out))
  {
    hide *;
    var mid := Run(rules, all, before).0;
    RunConcat(rules, all, before, [create] + after);
    RunCreate(rules, mid, create, after);
    var i := Instance(Open(create.outlen, create.key, None, None), create.outlen, false);
    assert (mid + [i])[id] == i;
    AnyRunDigestIsRfc(rules, mid + [i], after, id, create.outlen, create.key, chunks, out, later);
    var outs := Run(rules, all, before + ([create] + after)).1;
    assert outs[|before| + 1..] == Run(rules, mid + [i], after).1;
  }

  lemma CreatedSane(rules: Rules, op: Op)
    requires op.Create? && Tame(rules, op)
    ensures Refusal(rules, op).None? && rules.wasm ==> Length(rules, op.outlen) <= 88
  {
  }

  lemma RunCreate(rules: Rules, all: seq<Instance>, create: Op, after: seq<Op>)
    requires Sane(rules, all) && Runnable(rules, |all|, [create] + after)
    requires create.Create? && create.outlen > 0 && Refusal(rules, create).None?
    ensures
      var all' := all + [Instance(Open(create.outlen, create.key, create.salt, create.personal), create.outlen, false)];
      && Sane(rules, all') && Runnable(rules, |all'|, after)
      && Run(rules, all, [create] + after) == (Run(rules, all', after).0, [Created] + Run(rules, all', after).1)
  {
    hide Open, StepOne, Refusal;
    CreatedSane(rules, create);
    var ops := [create] + after;
    assert ops[0] == create && ops[1..] == after;
  }

  lemma DigestFirst(rules: Rules, i: Instance, ops: seq<Op>)
    requires SaneOne(rules, i) && !i.finalized
    requires ops != [] && ops[0].Digest? && (ops[0].out.Some? ==> i.outlen <= |ops[0].out.value|)
    requires forall k :: 0 <= k < |ops| ==> !ops[k].Create?
    ensures
      var outs := Alone(rules, i, ops).1;
      outs != [] && outs[0] == Digested(InBuffer(Output(rules.wasm, Finish(i.s), i.outlen), ops[0].out))
  {
    hide Finish, Output;
  }

  // ----- Use after digest

  /** What decides whether an instance ends: its output length and whether it has ended. */
  datatype Life = Life(outlen: nat, finalized: bool)

  function Lives(all: seq<Instance>): seq<Life> {
    seq(|all|, k requires 0 <= k < |all| => Life(all[k].outlen, all[k].finalized))
  }

  function NextLives(rules: Rules, lives: seq<Life>, op: Op): seq<Life>
    requires Applies(rules, |lives|, op)
  {
    match op
    case Create(outlen, _, _, _, _) =>
      if Refusal(rules, op).None? then lives + [Life(Length(rules, outlen), false)] else lives
    case Update(_, _) => lives
    case Digest(id, out) =>
      if !rules.wasm && out.Some? && |out.value| < lives[id].outlen then lives else lives[id := lives[id].(finalized := true)]
  }

  /** No operation of the run names an instance after its digest. */
  predicate NoUseAfterDigest(rules: Rules, lives: seq<Life>, ops: seq<Op>)
    requires Runnable(rules, |lives|, ops)
    decreases |ops|
  {
    hide Refusal;
    ops == [] ||
    (&& (ops[0].Create? || !lives[ops[0].id].finalized)
     && NoUseAfterDigest(rules, NextLives(rules, lives, ops[0]), ops[1..]))
  }

  lemma SameStep(all: seq<Instance>, wasm: bool, op: Op)
    requires var rules := Rules(true, wasm); Sane(rules, all) && Applies(rules, |all|, op)
    requires op.Create? || !all[op.id].finalized
    ensures Sane(Rules(false, wasm), all) && Applies(Rules(false, wasm), |all|, op)
    ensures Step(Rules(false, wasm), all, op) == Step(Rules(true, wasm), all, op)
    ensures Lives(Step(Rules(true, wasm), all, op).0) == NextLives(Rules(true, wasm), Lives(all), op)
  {
    hide Open, Check, Finish, Absorb, Output;
  }

  lemma MisuseShows(all: seq<Instance>, wasm: bool, op: Op)
    requires var rules := Rules(true, wasm); Sane(rules, all) && Applies(rules, |all|, op)
    requires !op.Create? && all[op.id].finalized
    ensures Sane(Rules(false, wasm), all) && Applies(Rules(false, wasm), |all|, op)
    ensures Step(Rules(true, wasm), all, op).1 == Rejected(Finalized) != Step(Rules(false, wasm), all, op).1
  {
    hide Open, Check, Finish, Absorb, Output;
  }

  lemma {:induction false} LenientRuns(n: nat, wasm: bool, ops: seq<Op>)
    requires Runnable(Rules(true, wasm), n, ops)
    ensures Runnable(Rules(false, wasm), n, ops)
    decreases |ops|
  {
    hide Check;
    if ops != [] {
      LenientRuns(n + Grows(Rules(true, wasm), ops[0]), wasm, ops[1..]);
    }
  }

  /** Whether a module refuses an instance after its digest, as the documentation of modules/blake2b
      says, or does not, as its code does, shows in the outputs of a run if and only if the run uses an
      instance after its digest. */
  lemma {:induction false} OnlyMisuseDiffers(all: seq<Instance>, wasm: bool, ops: seq<Op>)
    requires Sane(Rules(true, wasm), all) && Runnable(Rules(true, wasm), |all|, ops)
    ensures Sane(Rules(false, wasm), all) && Runnable(Rules(false, wasm), |all|, ops)
    ensures Run(Rules(false, wasm), all, ops).1 == Run(Rules(true, wasm), all, ops).1
      <==> NoUseAfterDigest(Rules(true, wasm), Lives(all), ops)
    decreases |ops|
  {
    hide Step, NextLives, Grows, Tame;
    LenientRuns(|all|, wasm, ops);
    if ops != [] {
      var op, rules := ops[0], Rules(true, wasm);
      if op.Create? || !all[op.id].finalized {
        SameStep(all, wasm, op);
        var (all', out) := Step(rules, all, op);
        OnlyMisuseDiffers(all', wasm, ops[1..]);
        FirstOutput(out, Run(Rules(false, wasm), all', ops[1..]).1, Run(rules, all', ops[1..]).1);
      } else {
        MisuseShows(all, wasm, op);
        assert Run(Rules(false, wasm), all, ops).1[0] != Run(rules, all, ops).1[0];
      }
    }
  }

  lemma FirstOutput(out: Out, x: seq<Out>, y: seq<Out>)
    ensures [out] + x == [out] + y <==> x == y
  {
    assert ([out] + x)[1..] == x && ([out] + y)[1..] == y;
  }

  lemma RunFirst(rules: Rules, all: seq<Instance>, op: Op, ops: seq<Op>)
    requires Sane(rules, all) && Applies(rules, |all|, op) && Runnable(rules, |Step(rules, all, op).0|, ops)
    ensures Runnable(rules, |all|, [op] + ops)
    ensures Run(rules, all, [op] + ops).1 == [Step(rules, all, op).1] + Run(rules, Step(rules, all, op).0, ops).1
  {
    hide Step;
    assert ([op] + ops)[1..] == ops;
  }

  /** The shortest run that shows it: the code updates an instance after its digest. */
  lemma UpdateAfterDigest(rules: Rules, x: u8)
    ensures
      var ops := [Create(32, None, None, None, false)] + ([Digest(0, None)] + ([Update(0, [x])] + []));
      && Runnable(rules, 0, ops)
      && Run(rules, [], ops).1[2] == if rules.strict then Rejected(Finalized) else Updated
  {
    hide Open, Finish, Absorb, Output, Run, Runnable;
    var create, digest, update := Create(32, None, None, None, false), Digest(0, None), Update(0, [x]);
    var all1 := Step(rules, [], create).0;
    var all2 := Step(rules, all1, digest).0;
    var (all3, out) := Step(rules, all2, update);
    assert out == if rules.strict then Rejected(Finalized) else Updated;
    NothingRuns(rules, |all3|);
    RunFirst(rules, all2, update, []);
    RunFirst(rules, all1, digest, [update] + []);
    RunFirst(rules, [], create, [digest] + ([update] + []));
  }

  lemma NothingRuns(rules: Rules, n: nat)
    ensures Runnable(rules, n, [])
  {
  }

  // ----- Byte counters

  /** How far an operation can move a byte counter. */
  function Weight(op: Op): nat {
    match op
    case Create(_, key, _, _, _) => 128 + Size(key)
    case Update(_, bytes) => |bytes|
    case Digest(_, _) => 128
  }

  function TotalWeight(ops: seq<Op>): nat {
    if ops == [] then 0 else Weight(ops[0]) + TotalWeight(ops[1..])
  }

  /** No operation moves a byte counter further than its weight. */
  lemma StepWeight(rules: Rules, all: seq<Instance>, op: Op)
    requires Sane(rules, all) && Applies(rules, |all|, op)
    ensures
      var all' := Step(rules, all, op).0;
      forall k :: 0 <= k < |all'| ==>
        all'[k].s.t + all'[k].s.c <= (if k < |all| then all[k].s.t + all[k].s.c else 0) + Weight(op)
  {
    hide F, InitialFrom, ParameterBlock, Check, Absorb, Output;
    match op
    case Create(outlen, key, salt, personal, _) =>
      if Refusal(rules, op).None? && key.Some? {
        BytesCounted(Start(InitialFrom(ParameterBlock(Length(rules, outlen), Size(key), salt, personal))), key.value);
      }
    case Update(id, bytes) =>
      BytesCounted(all[id].s, bytes);
    case Digest(id, _) =>
  }
}
