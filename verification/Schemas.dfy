/** The messages of ProposalCompiled.js and MsgCompiled.js as schemas. */
module Schemas {
  import opened Words
  import opened Wrappers
  import opened Wire
  import opened Codec
  import opened CodecProofs

  // cosmos.group.v1 and google.protobuf (ProposalCompiled.js)

  const ANY: Schema := [Desc(1, TString, false), Desc(2, TBytes, false)]

  const MSG_SUBMIT_PROPOSAL: Schema := [
    Desc(1, TString, false), Desc(2, TString, true), Desc(3, TString, false), Desc(4, TMessage(ANY), true),
    Desc(5, TInt32, false), Desc(6, TString, false), Desc(7, TString, false)
  ]

  const MSG_VOTE: Schema := [
    Desc(1, TUint64, false), Desc(2, TString, false), Desc(3, TInt32, false), Desc(4, TString, false),
    Desc(5, TInt32, false)
  ]

  // common, types and cosmos.base.v1beta1 (MsgCompiled.js)

  const ASSET: Schema := [
    Desc(1, TString, false), Desc(2, TString, false), Desc(3, TString, false), Desc(4, TBool, false),
    Desc(5, TBool, false)
  ]

  const COIN: Schema := [Desc(1, TMessage(ASSET), false), Desc(2, TString, false), Desc(3, TInt64, false)]

  const TX: Schema := [
    Desc(1, TString, false), Desc(2, TString, false), Desc(3, TString, false), Desc(4, TString, false),
    Desc(5, TMessage(COIN), true), Desc(6, TMessage(COIN), true), Desc(7, TString, false)
  ]

  const FEE: Schema := [Desc(1, TMessage(COIN), true), Desc(2, TString, false)]

  const MSG_DEPOSIT: Schema := [Desc(1, TMessage(COIN), true), Desc(2, TString, false), Desc(3, TBytes, false)]

  const COSMOS_COIN: Schema := [Desc(1, TString, false), Desc(2, TString, false)]

  const MSG_SEND: Schema := [Desc(1, TBytes, false), Desc(2, TBytes, false), Desc(3, TMessage(COSMOS_COIN), true)]

  /** The numbers the generated encoders pass to `writer.uint32` before each field. */
  function Tags(fs: Schema): seq<nat> {
    seq(|fs|, k requires 0 <= k < |fs| => 8 * fs[k].num + WireOf(fs[k].kind))
  }

  lemma TagsAsWritten()
    ensures Tags(ANY) == [10, 18]
    ensures Tags(MSG_SUBMIT_PROPOSAL) == [10, 18, 26, 34, 40, 50, 58]
    ensures Tags(MSG_VOTE) == [8, 18, 24, 34, 40]
    ensures Tags(ASSET) == [10, 18, 26, 32, 40]
    ensures Tags(COIN) == [10, 18, 24]
    ensures Tags(TX) == [10, 18, 26, 34, 42, 50, 58]
    ensures Tags(FEE) == [10, 18]
    ensures Tags(MSG_DEPOSIT) == [10, 18, 26]
    ensures Tags(COSMOS_COIN) == [10, 18]
    ensures Tags(MSG_SEND) == [10, 18, 26]
  {
  }

  /** Fields numbered from 1 are distinct. */
  lemma Numbered(fs: Schema)
    requires |fs| < 100 && forall k :: 0 <= k < |fs| ==> fs[k].num == k + 1
    requires forall k :: 0 <= k < |fs| ==> fs[k].repeated ==> WireOf(fs[k].kind) == 2
    requires forall k :: 0 <= k < |fs| ==> fs[k].kind.TMessage? ==> ValidSchema(fs[k].kind.fields)
    ensures ValidSchema(fs)
  {
    forall k | 0 <= k < |fs|
      ensures ValidDesc(fs[k])
    {
    }
  }

  lemma SchemasValid()
    ensures ValidSchema(ANY) && ValidSchema(MSG_SUBMIT_PROPOSAL) && ValidSchema(MSG_VOTE)
    ensures ValidSchema(ASSET) && ValidSchema(COIN) && ValidSchema(TX) && ValidSchema(FEE)
    ensures ValidSchema(MSG_DEPOSIT) && ValidSchema(COSMOS_COIN) && ValidSchema(MSG_SEND)
  {
    hide ValidSchema;
    Numbered(ANY);
    Numbered(ASSET);
    Numbered(COSMOS_COIN);
    Numbered(MSG_VOTE);
    Numbered(COIN);
    Numbered(TX);
    Numbered(FEE);
    Numbered(MSG_DEPOSIT);
    Numbered(MSG_SEND);
    Numbered(MSG_SUBMIT_PROPOSAL);
  }

  predicate IsSchema(fs: Schema) {
    fs in [ANY, MSG_SUBMIT_PROPOSAL, MSG_VOTE, ASSET, COIN, TX, FEE, MSG_DEPOSIT, COSMOS_COIN, MSG_SEND]
  }

  /** Every message of either file is decoded from its encoding unchanged. */
  lemma MessagesRoundTrip(fs: Schema, slots: seq<Slot>)
    requires IsSchema(fs) && FitsMessage(fs, slots)
    ensures DecodeAll(fs, Encode(fs, slots, 0)) == Ok(At(slots, |Encode(fs, slots, 0)|))
  {
    hide ValidSchema, FitsMessage, Encode, Decode;
    SchemasValid();
    RoundTrip(fs, slots);
  }
}
