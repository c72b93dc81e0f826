# BitGoJS: proofs about hashing, message codecs and release tooling

A Dafny model of five parts of the repository, with proofs of what they promise.

1. `modules/blake2b`: BLAKE2b on pairs of 32-bit cells (`Words`, `Cells`, `Schedule`, `Streaming`,
   `StreamingProofs`, `Parameters`, `Machine`, `Blake2bJs`, `Bijection`).
2. `modules/blake2b-wasm`: the same hash with every state in a slot of one linear memory, and the
   generator of its unrolled rounds (`Generator`, `LinearMemory`, `WasmModule`, `SharedMemory`,
   `Blake2bWasm`).
3. `modules/abstract-cosmos/resources`: the generated protobuf codecs (`Wire`, `Codec`, `CodecProofs`,
   `Schemas`, `Messages`, `Protobuf`).
4. `scripts`: the dependency walk for the Dockerfile, re-scoping, and version pinning (`Dependencies`,
   `Rescope`, `Pinning`).
5. `modules/abstract-cosmos/src/cosmosCoin.ts`: the balances a recovery sweep sends (`Sweep`).

`dafny verify dfyconfig.toml` checks everything.

## How the hash proofs fit together

`Rfc7693` writes BLAKE2b down from RFC 7693 alone, on 64-bit words. `Machine` is what a program can
observe of a module: instances are created, with the argument checks on or off, updated and digested in
any order, and nothing is shared. Three results join them to the code.

- Code to machine: `Blake2bJs.RunContexts` and `Blake2bWasm.RunHashes` execute any interleaving of
  operations on any number of instances, with the arrays or the memory shared as in the sources, and
  give the machine's outputs. So neither the global work arrays, nor recycled slots, nor the scratch
  area, nor growth of the memory carries anything from one instance to another. For the JavaScript code
  this holds for all arguments. The WASM module keeps instances apart for all arguments the checks let
  through; with the checks off, exactly for those that stay inside their places (see below).
- Machine to one instance: `Machine.Isolation` shows that an instance's outputs in any run are those of
  its own operations alone.
- One instance to the RFC: `Machine.LifeOfInstance` shows that an instance created anywhere in a run
  answers BLAKE2b, as section 3.3 of RFC 7693 defines it, of its own concatenated chunks, keyed or not,
  empty message included.

Underneath, every method on cells is proved against its meaning on 64-bit words: hand-made carries are
addition modulo 2^64, shifts across two cells are rotations, `B2B_G` is the RFC's function G.
Bitwise exclusive or is a recursive function on natural numbers, so no proof depends on bit-vectors.

In both implementations each method that changes state is stated with its whole new state. For a slot of
the linear memory this is the byte image of the stream (`WasmModule.Put`), and all bytes outside the slot
are unchanged by definition of that image.

## Where code and documentation, or code and expectation, differ

- modules/blake2b/README.md:53 says that `update` after `digest` throws. The JavaScript code has no such
  check (modules/blake2b/index.js:265-278) and the WASM code has one. The model follows the code.
  `Machine.UpdateAfterDigest` is a run where it shows, and `Machine.OnlyMisuseDiffers` says that the check
  shows in the outputs of a run if and only if the run uses an instance after its digest, which can be
  read off the operations beforehand.
- With `noAssert` the WASM module writes salt and personalisation of any length into the shared memory
  (modules/blake2b-wasm/index.js:60-61). A salt of 33 bytes changes the state of whatever instance has the
  first slot (`SharedMemory.SaltReachesSlot`). All states survive the creation of an instance if and only
  if the salt has at most 32 and the personalisation at most 16 bytes
  (`SharedMemory.ExactlyFittingLengths`). Where they do not even fit in the memory, `set` throws after the
  slot was taken, and the slot is lost (`Blake2bWasm.CreateHash`).
- With `noAssert` a digest of the WASM module can be longer than its h. Its bytes depend on the instance's
  own slot alone if and only if there are at most 88 of them, and on h alone if and only if there are at
  most 64 (`SharedMemory.ExactlyOwnSlot`, `SharedMemory.ExactlyChainValue`). The JavaScript code fills up
  with zeros.
- In the WASM module a `digest(enc)` with a buffer that is too small fails only after the slot was given
  back (modules/blake2b-wasm/index.js:85-98), while the JavaScript instance stays usable
  (modules/blake2b/index.js:271-278). Runs contain digests into buffers of any length.
- A nested message can read past the end its length declares (`CodecProofs.NestedReadsPastEnd`), since the
  loop only looks at its end between records. A decode stops exactly at its end if and only if the bytes
  up to there decode on their own (`CodecProofs.ExactlyAtEnd`).
- Pinning a package called like a method of all objects, such as constructor, adds a key to records that
  do not have it; for all other names, and only for them, no key comes or goes (`Pinning.ExactlyOwnNames`).
- Re-scoping name by name is the same as re-scoping all at once, is idempotent and leaves no old name
  behind only for some target scopes; three lemmas say for exactly which (`Rescope.ExactlyGoodScopes`,
  `Rescope.ExactlyIdempotent`, `Rescope.ExactlyNoneLeft`), with texts that show the failure for all others.
- A dependency whose range is the empty string is passed over by the pinning loop
  (scripts/prepareRelease/changePackageJson.ts:9-14). `Pinning.PinsConsistent` states pinning with that
  condition in both directions, and `Pinning.EmptyRangeMissed` is an example.
- With more than one balance in the native denomination only the last one is swept
  (modules/abstract-cosmos/src/cosmosCoin.ts:275-276). `Sweep.Conservation` states conservation with the
  exact condition, and `Sweep.TwoNativeBalances` is an account that does not meet it.

## Model

| member | source | states |
|---|---|---|
| Cells.CarryByHand | modules/blake2b/index.js:18-26 | Adding the halves and passing the carry by hand is addition modulo 2^64, for all four cells |
| Cells.SignedCarry | modules/blake2b/index.js:31-42 | The same when the second operand's halves may be negative 32-bit numbers |
| Cells.B2B_GET32 | modules/blake2b/index.js:45-47 | Shifts and exclusive ors of four bytes give the little-endian 32-bit number |
| Cells.Rotate32 | modules/blake2b/index.js:60-64 | Exchanging the cells is the right rotation by 32 |
| Cells.Rotate24 | modules/blake2b/index.js:68-72 | The cross-cell shifts by 24 and 8 are the right rotation by 24 |
| Cells.Rotate16 | modules/blake2b/index.js:77-81 | The cross-cell shifts by 16 are the right rotation by 16 |
| Cells.Rotate63 | modules/blake2b/index.js:85-89 | The cross-cell shifts by 31 and 1 are the right rotation by 63 |
| Cells.GInSteps | modules/blake2b/index.js:51-90 | The RFC's G equals two halves that update the state word by word, in the order the code does |
| Cells.WorkCellsIsRfc | modules/blake2b/index.js:123-138 | The cells set up before the rounds are the RFC's work vector, counter and last-block inversion included |
| Cells.FoldCells | modules/blake2b/index.js:157-159 | Folding cell by cell is folding both halves of the work vector into h |
| Cells.InitialCells | modules/blake2b/index.js:252-255 | Initialization vector and parameter block combined cell by cell are the initial words |
| Cells.OutputNext | modules/blake2b/index.js:313-315 | The signed shift of a cell, cut to a byte, is the next little-endian output byte, and zero behind the 64 bytes of h |
| Schedule.RowIsRfc | modules/blake2b-wasm/generate-rounds.js:1-14 | The twelve rows written out are the RFC's ten, starting again after the tenth |
| Schedule.FlatIsRows | modules/blake2b/index.js:98-105 | The flat table, written out on its own, holds the generator's rows one after another |
| Schedule.TableAt | modules/blake2b/index.js:98-114 | The flat doubled table holds, for every round and place, the RFC's entry |
| Blake2bJs.Globals.Add64AA | modules/blake2b/index.js:18-26 | On the shared array: one word becomes the sum modulo 2^64, all other words stay |
| Blake2bJs.Globals.Add64AC | modules/blake2b/index.js:31-42 | The same with the second operand given as two numbers |
| Blake2bJs.Globals.B2B_G | modules/blake2b/index.js:51-90 | The cells of v afterwards are the RFC's G on the words of v and m |
| Blake2bJs.Globals.MixRound | modules/blake2b/index.js:146-155 | One turn of the loop is one round of RFC 7693 section 3.2 |
| Blake2bJs.Globals.MixRounds | modules/blake2b/index.js:145-155 | The loop on 32-bit cells leaves in v what executing the generator's straight-line 64-bit code leaves, and both are the RFC's twelve rounds |
| Blake2bJs.Blake2b.Compress | modules/blake2b/index.js:120-160 | Compression is the RFC's F of h, block, counter and last flag, whatever v and m held before |
| Blake2bJs.Blake2b.constructor | modules/blake2b/index.js:233-263 | A new context is the stream opened with its parameter block, key absorbed and buffer declared full |
| Blake2bJs.Blake2b.Update | modules/blake2b/index.js:290-300 | The context becomes the stream after absorbing the input |
| Blake2bJs.Blake2b.Final | modules/blake2b/index.js:304-317 | The context is finished, the first outlen output bytes are the digest, for any outlen, the rest of the array stays |
| Blake2bJs.Blake2b.Digest | modules/blake2b/index.js:271-278 | Exactly an output array that is too short is refused, before anything changes; otherwise the digest is written |
| Blake2bJs.CreateHash | modules/blake2b/index.js:332-355 | With checks on it succeeds if and only if the length is 16 to 64, a key has 16 to 64 bytes, salt and personalisation 16, and each error stands for the first of these that fails; with checks off which arguments fail; the stream of the new context |
| Blake2bJs.FillParameterBlock | modules/blake2b/index.js:234-250 | The shared block holds exactly this instance's parameters, whatever it held before |
| Blake2bJs.StepContexts | modules/blake2b/index.js:233-355 | One operation, creation with checks on or off and digest into any buffer included, on contexts that share v, m and parameter_block does what the machine does and leaves the others alone |
| Blake2bJs.RunContexts | modules/blake2b/index.js:118-143 | Non-interference over every run: outputs and all contexts are those of the machine without shared arrays |
| StreamingProofs.AbsorbConcat | modules/blake2b/index.js:290-300 | Absorbing two pieces in turn is absorbing their concatenation |
| StreamingProofs.ChunkingIrrelevant | modules/blake2b/index.js:290-300 | Any sequence of updates reaches the state of one update with all the bytes |
| StreamingProofs.BytesCounted | modules/blake2b/index.js:290-300 | t + c grows by exactly the bytes absorbed |
| StreamingProofs.StateReached | modules/blake2b/index.js:290-300 | After any data: t, c, the pending bytes, and h as the fold of F over all full blocks but the pending one |
| StreamingProofs.FinishIsHash | modules/blake2b/index.js:304-317 | Finishing gives the hash of RFC 7693 section 3.3 for an unkeyed message |
| StreamingProofs.KeyIsPaddedBlock | modules/blake2b/index.js:257-262 | Absorbing the key and setting c to 128 is absorbing the key padded with zeros to a block |
| StreamingProofs.KeyedHash | modules/blake2b/index.js:257-262 | A keyed hash is the unkeyed hash of padded key and message from the same initial words, empty message included |
| StreamingProofs.KeyedFinishIsHash | modules/blake2b/index.js:257-317 | Keyed start, any message, then finishing is the RFC's keyed hash |
| Rfc7693.IvIsRoots | modules/blake2b/index.js:93-96 | Each word of the initialization vector is the first 64 bits of the fractional part of the square root of its prime |
| Rfc7693.PrimesInOrder | modules/blake2b/index.js:93-96 | The primes are the first eight, in order, none left out |
| Parameters.BlockBytes | modules/blake2b/index.js:234-250 | Every byte of the parameter block: lengths, fanout, depth, salt from 32, personalisation from 48, zeros |
| Parameters.InitialIsRfc | modules/blake2b/index.js:234-255 | Without salt and personalisation the initial words are those of section 3.3 |
| Machine.AcceptedExactly | modules/blake2b/index.js:333-352 | The lengths for which a checked creation is not refused |
| Machine.Isolation | modules/blake2b/index.js:118-163 | In any run an instance's outputs and final state are those of its own operations run alone |
| Machine.UpdatesAbsorb | modules/blake2b/index.js:265-269 | A run of updates alone leaves the stream after all its chunks |
| Machine.DigestIsRfc | modules/blake2b/index.js:233-317 | Create, any updates, digest: BLAKE2b of the concatenated chunks, for every valid length and key |
| Machine.AnyRunDigestIsRfc | modules/blake2b/index.js:233-317 | The same inside any run with any other instances |
| Machine.LifeOfInstance | modules/blake2b/index.js:233-355 | The same for an instance created in the middle of a run, with checks on or off: whatever was done before and whatever else is done after, its digest is BLAKE2b of its own chunks |
| Machine.OnlyMisuseDiffers | modules/blake2b/index.js:265-278 | Refusing instances after their digest shows in the outputs of a run if and only if the run uses an instance after its digest |
| Machine.UpdateAfterDigest | modules/blake2b/index.js:265-269 | A run of three operations in which the code accepts an update after the digest |
| Machine.StepWeight | modules/blake2b/index.js:290-311 | No operation moves any byte counter further than its own bytes and one block |
| Bijection.UnmixMix | modules/blake2b/index.js:51-90 | The explicit inverse undoes the mixing of four words |
| Bijection.MixUnmix | modules/blake2b/index.js:51-90 | Mixing undoes the explicit inverse |
| Bijection.UnGInverse | modules/blake2b/index.js:51-90 | Both directions on the state, at any four different places |
| Bijection.RoundsBijective | modules/blake2b/index.js:145-155 | For every message block any number of rounds is a bijection, undone by the inverses in reverse order |
| Generator.ExecConcat | modules/blake2b-wasm/generate-rounds.js:59-72 | Executing code pieces one after another is executing their concatenation |
| Generator.GenGCorrect | modules/blake2b-wasm/generate-rounds.js:16-43 | The eight emitted instructions compute the RFC's G at any four different locals |
| Generator.GenRoundCorrect | modules/blake2b-wasm/generate-rounds.js:45-57 | An emitted round computes the RFC's round with the row of its number |
| Generator.GenRoundsCorrect | modules/blake2b-wasm/generate-rounds.js:59-72 | The emitted rounds compute the RFC's rounds on all state and message words and leave the message words alone |
| LinearMemory.LoadField | modules/blake2b-wasm/blake2b.wat:38-45 | Loading a field of a stored state gives the field |
| LinearMemory.StoreField | modules/blake2b-wasm/blake2b.wat:38-45 | Storing a field changes that field of the state and nothing else in memory |
| LinearMemory.ImageOutside | modules/blake2b-wasm/index.js:45-52 | Writing a state changes no byte outside its 216-byte slot |
| WasmModule.Wasm.Realloc | modules/blake2b-wasm/blake2b.js:26-29 | Memory grows by whole pages to at least the size asked for; contents stay, new bytes are zero |
| WasmModule.Wasm.Blake2bInit | modules/blake2b-wasm/blake2b.wat:5-46 | The slot holds a fresh stream whose h combines the parameter block; nothing else changes |
| WasmModule.Wasm.Blake2bUpdate | modules/blake2b-wasm/blake2b.wat:48-82 | The slot holds the stream after absorbing the input bytes; nothing else changes |
| WasmModule.Wasm.Blake2bFinal | modules/blake2b-wasm/blake2b.wat:84-116 | The slot holds the finished stream with the last-block flag; nothing else changes |
| WasmModule.Wasm.Blake2bCompress | modules/blake2b-wasm/blake2b.wat:118-2831 | With the generated rounds, compression is the RFC's F; nothing but h changes |
| SharedMemory.SlotsDisjoint | modules/blake2b-wasm/index.js:45-52 | Two different slots never overlap |
| SharedMemory.FittingKeeps | modules/blake2b-wasm/index.js:54-61 | Parameters that fit their block leave every slot alone |
| SharedMemory.SaltReachesSlot | modules/blake2b-wasm/index.js:60 | A salt of 33 bytes destroys the state in the first slot unless its last byte happens to be there already |
| SharedMemory.ExactlyFittingLengths | modules/blake2b-wasm/index.js:54-61 | Every state in every slot survives a creation with any salt and personalisation of given lengths if and only if these are at most 32 and 16 |
| SharedMemory.SliceIsOutput | modules/blake2b-wasm/index.js:91 | Up to 88 digest bytes read from a finished slot are h, counter, pending count and flag of its stream |
| SharedMemory.ExactlyOwnSlot | modules/blake2b-wasm/index.js:91 | A digest depends on its own slot alone if and only if it has at most 88 bytes |
| SharedMemory.ExactlyChainValue | modules/blake2b-wasm/index.js:91 | A digest depends on h alone if and only if it has at most 64 bytes |
| Blake2bWasm.AllocatorSafety | modules/blake2b-wasm/index.js:4-5 | Whatever the slots hold: slots lie in [64, head), two never overlap, none is both live and free or free twice, and head counts them exactly |
| Blake2bWasm.Module.constructor | modules/blake2b-wasm/index.js:4-5 | The module starts with no slots and head at 64 |
| Blake2bWasm.Module.TakeSlot | modules/blake2b-wasm/index.js:45-52 | The slot taken is the one freed last, or a new one at head; it lies below head, is nobody's, and no slot is on the free list twice |
| Blake2bWasm.Module.SetParameters | modules/blake2b-wasm/index.js:54-61 | The whole memory afterwards for salt and personalisation of any length, and that it fails exactly where they do not fit in the memory |
| Blake2bWasm.Module.OpenInstance | modules/blake2b-wasm/index.js:45-70 | One new live slot with the stream opened with clipped salt and personalisation; the module stays valid exactly if writing the parameters left all live slots with their streams |
| Blake2bWasm.Module.EndKey | modules/blake2b-wasm/index.js:68-69 | The bytes of the key behind head are zero, and setting the low byte of c sets c to 128 in this slot only |
| Blake2bWasm.Module.Feed | modules/blake2b-wasm/index.js:77-79 | This slot's stream absorbs the input copied to head, memory grown if needed; other slots stay |
| Blake2bWasm.Module.Release | modules/blake2b-wasm/index.js:87-88 | The slot moves from live to free, once, and holds the digest; other slots stay |
| Blake2bWasm.Hash.Update | modules/blake2b-wasm/index.js:73-81 | Exactly a finalized instance is refused; otherwise its stream absorbs the input |
| Blake2bWasm.Hash.Digest | modules/blake2b-wasm/index.js:83-92 | Exactly a finalized instance is refused; otherwise its slot is free and the bytes are those of memory behind its block, up to 88 of them the digest of its stream |
| Blake2bWasm.Hash.DigestInto | modules/blake2b-wasm/index.js:83-104 | The same into a buffer; a short buffer is refused after the slot was freed |
| Blake2bWasm.CreateHash | modules/blake2b-wasm/index.js:19-71 | For all arguments, checks on or off: exactly which lengths are refused and with which error, one new instance with its own slot otherwise and no byte of its key left behind head, when a slot is lost, and exactly when all other instances keep their streams |
| Blake2bWasm.StepHashes | modules/blake2b-wasm/index.js:19-104 | One operation keeps the allocator invariant and does what the machine does |
| Blake2bWasm.RunHashes | modules/blake2b-wasm/index.js:19-104 | Allocator safety and isolation over every run, unchecked creations and digests into buffers included: outputs and instances are the machine's |
| Wire.VarintRoundTrip | modules/abstract-cosmos/resources/ProposalCompiled.js:198 | A varint is read back, anywhere in a buffer, when it fits the bytes allowed |
| Wire.SkipsPayload | modules/abstract-cosmos/resources/ProposalCompiled.js:231-233 | Skipping by wire type passes exactly over the payload of a well-formed record, nested groups and varints that are not minimal included |
| CodecProofs.DecodeWindow | modules/abstract-cosmos/resources/ProposalCompiled.js:193-237 | Decoding a part of a buffer is decoding the whole buffer, if and only if that does not go past the part |
| CodecProofs.DecodesInTurn | modules/abstract-cosmos/resources/ProposalCompiled.js:193-237 | Any two buffers that decode, one after the other: the second is decoded into the message the first gave |
| CodecProofs.ExactlyAtEnd | modules/abstract-cosmos/resources/ProposalCompiled.js:195-197 | A decode stops exactly at its declared end if and only if the bytes up to there decode on their own, and then gives the same message |
| CodecProofs.NestedReadsPastEnd | modules/abstract-cosmos/resources/ProposalCompiled.js:195-197 | A nested message that is accepted although it reads past its declared end |
| CodecProofs.RecordIsItem | modules/abstract-cosmos/resources/ProposalCompiled.js:231-233 | Every well-formed record of an unknown field is one that decoding passes over |
| CodecProofs.DecodesItems | modules/abstract-cosmos/resources/ProposalCompiled.js:193-237 | Decoding takes in exactly the records between pos and end, in any order, number and encoding of their tags, lengths and values, and stops at end |
| CodecProofs.ItemsOfMessage | modules/abstract-cosmos/resources/ProposalCompiled.js:145-167 | The encoder writes well-formed records which, taken in by any message, merge into it |
| CodecProofs.DecodeUndoesEncode | modules/abstract-cosmos/resources/ProposalCompiled.js:145-237 | Decoding undoes encoding wherever the bytes stand and whatever follows, and stops at the declared end |
| CodecProofs.RoundTrip | modules/abstract-cosmos/resources/MsgCompiled.js:824-905 | Decoding a buffer that is one encoding gives the message back, for every schema and every fitting value |
| CodecProofs.ConcatenationMerges | modules/abstract-cosmos/resources/ProposalCompiled.js:193-237 | Two encodings in a row decode to last-wins fields and appended lists |
| CodecProofs.StripKeeps | modules/abstract-cosmos/resources/ProposalCompiled.js:231-233 | Removing unknown records at every level leaves the message the same |
| CodecProofs.UnknownRecordsIgnored | modules/abstract-cosmos/resources/ProposalCompiled.js:231-233 | Unknown records with any bytes that skipping passes over, inserted anywhere, nested messages included, do not change what is decoded |
| Schemas.TagsAsWritten | modules/abstract-cosmos/resources/MsgCompiled.js:824-843 | The schemas give the tag numbers the generated encoders write |
| Schemas.MessagesRoundTrip | modules/abstract-cosmos/resources/MsgCompiled.js:345-402 | Each of the ten messages is decoded from its encoding unchanged |
| Messages.ProposalRecords | modules/abstract-cosmos/resources/ProposalCompiled.js:193-237 | What each record does to any proposal: proposers and messages of type Any are appended, exec is the signed low 32 bits, all else is overwritten |
| Messages.VoteRecords | modules/abstract-cosmos/resources/ProposalCompiled.js:583-617 | What each record does to any vote: proposalId is the unsigned 64-bit number, option and exec the signed low 32 bits |
| Messages.AnyRecords | modules/abstract-cosmos/resources/ProposalCompiled.js:948-970 | What each record does to any Any |
| Messages.AssetRecords | modules/abstract-cosmos/resources/MsgCompiled.js:148-176 | What each record does to any asset: synth and trade tell whether the low 32 bits are not zero |
| Messages.CoinRecords | modules/abstract-cosmos/resources/MsgCompiled.js:380-402 | What each record does to any coin: asset is an Asset, decimals the signed 64-bit number |
| Messages.TxRecords | modules/abstract-cosmos/resources/MsgCompiled.js:869-905 | What each record does to any transaction: coins and gas of type Coin are appended |
| Messages.FeeRecords | modules/abstract-cosmos/resources/MsgCompiled.js:1145-1165 | What each record does to any fee: coins of type Coin are appended |
| Messages.DepositRecords | modules/abstract-cosmos/resources/MsgCompiled.js:1557-1580 | What each record does to any deposit: coins of type Coin are appended |
| Messages.SendRecords | modules/abstract-cosmos/resources/MsgCompiled.js:1809-1832 | What each record does to any transfer: amounts of the cosmos type Coin are appended |
| Messages.CosmosCoinRecords | modules/abstract-cosmos/resources/MsgCompiled.js:2099-2118 | What each record does to any cosmos coin |
| Messages.ProposalLists | modules/abstract-cosmos/resources/ProposalCompiled.js:205-208 | Two proposers, or two messages, are both kept, first the first |
| Messages.CoinLists | modules/abstract-cosmos/resources/MsgCompiled.js:888-895 | Two coins or gas amounts of a transaction, two coins of a fee or deposit are both kept, first the first |
| Messages.SendAmounts | modules/abstract-cosmos/resources/MsgCompiled.js:1822-1825 | Two amounts of a transfer are both kept, first the first |
| Messages.ScalarBytes | modules/abstract-cosmos/resources/MsgCompiled.js:109-121 | The bytes of every kind of value: 0 or 1, two's complement on 64 bits, or bytes after their length |
| Messages.VarintBytes | modules/abstract-cosmos/resources/MsgCompiled.js:109-121 | Every byte of a varint: seven bits of the number, lowest first, marked but for the last |
| Messages.VarintLength | modules/abstract-cosmos/resources/MsgCompiled.js:109-121 | A varint has no byte more than its number needs |
| Messages.FieldsAscend | modules/abstract-cosmos/resources/MsgCompiled.js:109-121 | Fields are written in ascending order of their numbers |
| Protobuf.Writer.FieldSlot | modules/abstract-cosmos/resources/ProposalCompiled.js:147-165 | One field appends nothing, one record, or one record per element, and pending forks stay |
| Protobuf.Writer.Message | modules/abstract-cosmos/resources/ProposalCompiled.js:145-167 | Encoding with a growing, forking writer appends exactly the encoding |
| Protobuf.Reader.ReadVar | modules/abstract-cosmos/resources/ProposalCompiled.js:198 | The reading loop moves and answers, or fails, as the varint specification |
| Protobuf.Reader.SkipRecord | modules/abstract-cosmos/resources/ProposalCompiled.js:231-233 | The skipping loop moves or fails as the skip specification, groups included |
| Protobuf.Reader.Message | modules/abstract-cosmos/resources/ProposalCompiled.js:193-237 | The decoding loop gives the decoded message and position, or the same error, on every input |
| Dependencies.Walk | scripts/update-dockerfile.ts:23-39 | Ends on every graph; adds only reachable modules, keeps the rest, and leaves the set closed |
| Dependencies.ClosedHoldsPath | scripts/update-dockerfile.ts:32-38 | A closed set holds the end of every path from the root |
| Dependencies.WalkFromRoot | scripts/update-dockerfile.ts:52-53 | The set is exactly the modules reachable by one or more edges, each once; all are public or called bitgo, and every such module that the root or one of them depends on is there; fails exactly without the root |
| Dependencies.FindFirst | scripts/update-dockerfile.ts:31 | The module found under a name is the first of that name |
| Rescope.UpdateModuleNames | scripts/prepareRelease/changeScopeInFile.ts:7-12 | The loop gives the sequential replacement and, for a good scope, the simultaneous one |
| Rescope.ScopeExchanged | scripts/prepareRelease/changeScopeInFile.ts:3-5 | A name of the old scope becomes the new scope, a slash and the rest of the name |
| Rescope.OneName | scripts/prepareRelease/changeScopeInFile.ts:3-9 | Replacing all occurrences of one name is exchanging the scope at exactly the places where it stands |
| Rescope.Compose | scripts/prepareRelease/changeScopeInFile.ts:7-12 | Two rewriting passes are one pass with both lists of names, even when one name is a prefix of another |
| Rescope.SequentialIsSimultaneous | scripts/prepareRelease/changeScopeInFile.ts:7-12 | Name after name gives what one simultaneous rewrite gives |
| Rescope.OrderIrrelevant | scripts/prepareRelease/changeScopeInFile.ts:7-12 | Order and repetition of the names make no difference |
| Rescope.Idempotent | scripts/prepareRelease/changeScopeInFile.ts:7-12 | A second run changes nothing |
| Rescope.NoneLeft | scripts/prepareRelease/changeScopeInFile.ts:7-12 | No name of the old scope stands anywhere in the result |
| Rescope.ExactlyGoodScopes | scripts/prepareRelease/changeScopeInFile.ts:3-12 | Sequential equals simultaneous for all texts and names if and only if the scope is good |
| Rescope.ExactlyIdempotent | scripts/prepareRelease/changeScopeInFile.ts:3-12 | Idempotent for all texts and names if and only if the scope is good |
| Rescope.ExactlyNoneLeft | scripts/prepareRelease/changeScopeInFile.ts:3-12 | Nothing is left for all texts and names if and only if the scope starts with '@' and does not bring the old one back |
| Rescope.WrongStart | scripts/prepareRelease/changeScopeInFile.ts:3-12 | For each scope that does not start with '@', a text where both ways differ |
| Rescope.OldScopeAgain | scripts/prepareRelease/changeScopeInFile.ts:3-12 | For each scope that brings the old one back, a text where both ways differ |
| Pinning.NeverBehindLatest | scripts/prepare-release.ts:105-125 | The tag that is incremented is never behind the latest release, whichever branch chose it |
| Pinning.NeverBehindPublished | scripts/prepare-release.ts:105-125 | If the order of versions is one and incrementing never goes back, the new version is never before the published prerelease |
| Pinning.GuardSeesDependents | scripts/prepare-release.ts:140-141 | The substring test on the JSON text never passes over a package that depends on the name |
| Pinning.GuardHarmless | scripts/prepare-release.ts:140-145 | For an ordinary name, pinning behind the substring test is pinning |
| Pinning.Json.SetDependencyVersion | scripts/prepareRelease/changePackageJson.ts:1-16 | Exactly the ranges that answer to the name become the version, inherited names included; everything else stays |
| Pinning.ConstructorAdded | scripts/prepareRelease/changePackageJson.ts:9-14 | A record without a package called constructor gains one |
| Pinning.ExactlyOwnNames | scripts/prepareRelease/changePackageJson.ts:9-14 | Pinning adds no key to any record if and only if the name is not inherited |
| Pinning.Files.IncrementOne | scripts/prepare-release.ts:97-150 | The published prerelease itself is incremented if it is not older than the latest version, otherwise the latest version with the prerelease identifier; without tags nothing changes. For all names: either nothing changes, or this package gets its version and every other package is pinned to it where the substring test finds the name |
| Pinning.Files.IncrementVersions | scripts/prepare-release.ts:158-180 | After the loop every package.json is what the bumps in turn make of it; with distinct, ordinary names every package is pinned to the final version of every other bumped package, whichever modules failed |
| Pinning.AfterIsSettled | scripts/prepare-release.ts:158-180 | For distinct, ordinary names the bumps in turn give the settled state, which looks at final versions only |
| Pinning.SettledStep | scripts/prepare-release.ts:119-147 | What one more bump does to the settled state of any package |
| Pinning.PinsConsistent | scripts/prepare-release.ts:158-180 | A range on another bumped package is its final version if and only if it was not empty; no key comes or goes |
| Pinning.EmptyRangeMissed | scripts/prepareRelease/changePackageJson.ts:9-14 | A package whose empty range on a bumped package stays empty |
| Pinning.OtherRangesKept | scripts/prepare-release.ts:158-180 | Ranges on packages that were not bumped are unchanged |
| Sweep.SplitBalances | modules/abstract-cosmos/src/cosmosCoin.ts:270-280 | The loop: the balances in other denominations, each once and in the order of the account, at places that go up |
| Sweep.LastAmountIs | modules/abstract-cosmos/src/cosmosCoin.ts:275-276 | The native balance is the amount of the last balance in the native denomination |
| Sweep.ProcessBalances | modules/abstract-cosmos/src/cosmosCoin.ts:252-289 | Succeeds exactly for good inputs with enough funds, else the first failing check; the native balance less the gas, and the other balances in the order of the account |
| Sweep.SentIs | modules/abstract-cosmos/src/cosmosCoin.ts:294-318 | One message from the account to the destination for each other balance, in order, then one for the native balance less the gas |
| Sweep.FixedNumber | modules/abstract-cosmos/src/cosmosCoin.ts:307 | Reading the printed amount gives the amount |
| Sweep.Conservation | modules/abstract-cosmos/src/cosmosCoin.ts:252-318 | Per denomination, what is sent plus the gas is what the account holds; for the native one if and only if no earlier native balance is lost |
| Sweep.TwoNativeBalances | modules/abstract-cosmos/src/cosmosCoin.ts:275-276 | An account with two native balances where it is lost |

## Left out

- The WASM binary, its loading, promises and the exchange of JavaScript for WASM exports at load time; the exported functions have bodies here, over the byte layout.
- `memory.grow` that fails: operations require that the memory stays within the 1000 pages the module declares.
- Byte counters at or above 2^53, where JavaScript numbers stop being exact (modules/blake2b/index.js:132); the total of a run stays below.
- Blake2bWasm.RunHashes: with the checks off, runs contain only salts and personalisations that fit their block and lengths up to 88, because instances are not kept apart beyond that; `Blake2bWasm.CreateHash` and `Blake2bWasm.Hash.Digest` say what single calls do there. What later calls do with an instance whose state was overwritten is not modelled.
- Output as hexadecimal text: shallow. Type checks on arguments: the model's types rule them out.
- The generator's text and comments: its output is modelled as syntax trees of the same instructions. Locals are numbered, so their declarations are not part of the model.
- The protobufjs library, which is not part of this repository: reader and writer follow the Protocol Buffers encoding (varints of up to ten bytes, `bool` and `int32` from the low 32 bits, groups skipped to their end tag). UTF-8, the Long class and base64 are left out; strings are bytes.
- The generated functions one by one: one encoder and one decoder, driven by a schema, stand for all of them; `Schemas` lists ten messages. `verify`, the field-by-field conversions `fromObject` and `toObject` with their enum names, `encodeDelimited`, type URLs, and the `error` tag that ends a decode inside a group are left out.
- Names and scopes with characters that mean something in a regular expression or a replacement text, and scoped names with a second '@' (`Rescope`).
- Fetching tags, reading and writing files, process output: files are an in-memory map and tags are arguments. semver's `lt` and `inc` are parameters, which may fail.
- peerDependencies and other dependency records, which the source does not pin either.
- Pinning.GuardSeesDependents: for names that JSON escapes, with quotes, backslashes or control characters, no pin is promised; `Pinning.Files.IncrementVersions` still says what each package.json becomes.
- Amounts with signs or fractions (`Sweep`): amounts are decimal digits in base units. Balance queries, fees and signing are left out.
- `ready`, `toHex` and the remaining files of the repository: they have no state or algorithm of their own that the five parts above depend on.
