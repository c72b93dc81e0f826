/** What every record of every message means: which field it sets or extends, and to what.  Together
    with their order this determines what a message decodes to. */
module Messages {
  import opened Words
  import opened Wrappers
  import opened Wire
  import opened Codec
  import opened CodecProofs
  import opened Schemas

  /** Bytes with their length in front, however the length is written. */
  datatype Delimited = Delimited(len: seq<u8>, body: seq<u8>) {
    predicate Valid() {
      IsVarint(len) && Number(len) == |body|
    }

    function Bytes(): seq<u8> {
      len + body
    }
  }

  // ----- What a varint means in a field of each type

  function AsInt32(n: nat): int {
    if n % 0x1_0000_0000 < 0x8000_0000 then n % 0x1_0000_0000 else n % 0x1_0000_0000 - 0x1_0000_0000
  }

  function AsInt64(n: nat): int {
    if n % 0x1_0000_0000_0000_0000 < 0x8000_0000_0000_0000 then n % 0x1_0000_0000_0000_0000
    else n % 0x1_0000_0000_0000_0000 - 0x1_0000_0000_0000_0000
  }

  function AsUint64(n: nat): int {
    n % 0x1_0000_0000_0000_0000
  }

  predicate AsBool(n: nat) {
    n % 0x1_0000_0000 != 0
  }

  function AsKind(kind: Kind, n: nat): Value
    requires kind.TBool? || kind.TInt32? || kind.TInt64? || kind.TUint64?
  {
    match kind
    case TBool => VBool(AsBool(n))
    case TInt32 => VInt(AsInt32(n))
    case TInt64 => VInt(AsInt64(n))
    case TUint64 => VInt(AsUint64(n))
  }

  // ----- One record

  lemma OneRecord(fs: Schema, slots: seq<Slot>, k: nat, tag: u8, body: seq<u8>, v: Value)
    requires ValidSchema(fs) && |slots| == |fs| && k < |fs| && tag < 128 && tag / 8 == fs[k].num
    requires ReadField(fs[k], body, 0) == Ok(At(v, |body|))
    ensures TakesIn(fs, slots, [tag] + body, Assign(fs, slots, k, v))
  {
    hide Decode, ReadField, ReadUint32, Assign;
    var buf := [tag] + body;
    OneByte(buf, 0);
    FindUnique(fs, k);
    FieldWindow(fs[k], buf, 1, |buf|, 0);
    assert buf[1..|buf|] == body;
    DecodeKnown(fs, slots, buf, 0, |buf|, tag, k, v, 1, |buf|);
    NothingDecoded(fs, Assign(fs, slots, k, v), buf, |buf|);
  }

  lemma TextRecord(fs: Schema, slots: seq<Slot>, k: nat, tag: u8, text: Delimited)
    requires ValidSchema(fs) && |slots| == |fs| && k < |fs| && tag < 128 && tag / 8 == fs[k].num
    requires (fs[k].kind.TString? || fs[k].kind.TBytes?) && text.Valid()
    ensures TakesIn(fs, slots, [tag] + text.Bytes(), Assign(fs, slots, k, VBytes(text.body)))
  {
    hide Assign, ValidSchema, TakesIn, ReadUint32, IsVarint, Number;
    var buf := text.Bytes();
    assert buf[0..0 + |text.len|] == text.len;
    NumberRead(buf, 0, text.len);
    assert buf[|text.len|..|text.len| + |text.body|] == text.body;
    OneRecord(fs, slots, k, tag, buf, VBytes(text.body));
  }

  lemma MessageRecord(fs: Schema, slots: seq<Slot>, k: nat, tag: u8, nested: Delimited, x: seq<Slot>)
    requires ValidSchema(fs) && |slots| == |fs| && k < |fs| && tag < 128 && tag / 8 == fs[k].num
    requires fs[k].kind.TMessage? && nested.Valid()
    requires TakesIn(fs[k].kind.fields, Empty(fs[k].kind.fields), nested.body, x)
    ensures TakesIn(fs, slots, [tag] + nested.Bytes(), Assign(fs, slots, k, VMessage(x)))
  {
    hide Assign, ValidSchema, Decode, ReadUint32, IsVarint, Number, Empty;
    var buf, fs' := nested.Bytes(), fs[k].kind.fields;
    var p := |nested.len|;
    assert buf[0..0 + p] == nested.len;
    NumberRead(buf, 0, nested.len);
    DecodeWindow(fs', Empty(fs'), buf, p, |buf|, 0, |nested.body|);
    assert buf[p..|buf|] == nested.body;
    FieldIsMessage(fs[k], buf, 0, |nested.body|, p, x, |buf|);
    OneRecord(fs, slots, k, tag, buf, VMessage(x));
  }

  lemma NumberRecord(fs: Schema, slots: seq<Slot>, k: nat, tag: u8, digits: seq<u8>, n: nat)
    requires ValidSchema(fs) && |slots| == |fs| && k < |fs| && tag < 128 && tag / 8 == fs[k].num
    requires var kind := fs[k].kind; kind.TBool? || kind.TInt32? || kind.TInt64? || kind.TUint64?
    requires ReadVarint(digits, 0, 10) == Ok(At(n, |digits|))
    ensures TakesIn(fs, slots, [tag] + digits, Assign(fs, slots, k, AsKind(fs[k].kind, n)))
  {
    hide Assign, ValidSchema, TakesIn, ReadVarint;
    OneRecord(fs, slots, k, tag, digits, AsKind(fs[k].kind, n));
  }

  // ----- The records of each message, taken in by any message of its kind

  /** type_url and value */
  lemma AnyRecords(slots: seq<Slot>, text: Delimited)
    requires |slots| == 2
    requires text.Valid()
    ensures TakesIn(ANY, slots, [10] + text.Bytes(), slots[0 := One(VBytes(text.body))])
    ensures TakesIn(ANY, slots, [18] + text.Bytes(), slots[1 := One(VBytes(text.body))])
  {
    hide ValidSchema, TakesIn, ReadVarint;
    SchemasValid();
    TextRecord(ANY, slots, 0, 10, text);
    TextRecord(ANY, slots, 1, 18, text);
  }

  /** groupPolicyAddress, proposers, metadata, messages, exec, title, summary */
  lemma ProposalRecords(slots: seq<Slot>, text: Delimited, nested: Delimited, x: seq<Slot>, digits: seq<u8>, n: nat)
    requires |slots| == 7 && slots[1].Many? && slots[3].Many?
    requires text.Valid() && nested.Valid()
    requires |x| == |ANY| && TakesIn(ANY, Empty(ANY), nested.body, x)
    requires ReadVarint(digits, 0, 10) == Ok(At(n, |digits|))
    ensures TakesIn(MSG_SUBMIT_PROPOSAL, slots, [10] + text.Bytes(), slots[0 := One(VBytes(text.body))])
    ensures TakesIn(MSG_SUBMIT_PROPOSAL, slots, [18] + text.Bytes(), slots[1 := Many(slots[1].vs + [VBytes(text.body)])])
    ensures TakesIn(MSG_SUBMIT_PROPOSAL, slots, [26] + text.Bytes(), slots[2 := One(VBytes(text.body))])
    ensures TakesIn(MSG_SUBMIT_PROPOSAL, slots, [34] + nested.Bytes(), slots[3 := Many(slots[3].vs + [VMessage(x)])])
    ensures TakesIn(MSG_SUBMIT_PROPOSAL, slots, [40] + digits, slots[4 := One(VInt(AsInt32(n)))])
    ensures TakesIn(MSG_SUBMIT_PROPOSAL, slots, [50] + text.Bytes(), slots[5 := One(VBytes(text.body))])
    ensures TakesIn(MSG_SUBMIT_PROPOSAL, slots, [58] + text.Bytes(), slots[6 := One(VBytes(text.body))])
  {
    hide ValidSchema, TakesIn, ReadVarint;
    SchemasValid();
    TextRecord(MSG_SUBMIT_PROPOSAL, slots, 0, 10, text);
    TextRecord(MSG_SUBMIT_PROPOSAL, slots, 1, 18, text);
    TextRecord(MSG_SUBMIT_PROPOSAL, slots, 2, 26, text);
    MessageRecord(MSG_SUBMIT_PROPOSAL, slots, 3, 34, nested, x);
    NumberRecord(MSG_SUBMIT_PROPOSAL, slots, 4, 40, digits, n);
    TextRecord(MSG_SUBMIT_PROPOSAL, slots, 5, 50, text);
    TextRecord(MSG_SUBMIT_PROPOSAL, slots, 6, 58, text);
  }

  /** proposalId, voter, option, metadata, exec */
  lemma VoteRecords(slots: seq<Slot>, text: Delimited, digits: seq<u8>, n: nat)
    requires |slots| == 5
    requires text.Valid()
    requires ReadVarint(digits, 0, 10) == Ok(At(n, |digits|))
    ensures TakesIn(MSG_VOTE, slots, [8] + digits, slots[0 := One(VInt(AsUint64(n)))])
    ensures TakesIn(MSG_VOTE, slots, [18] + text.Bytes(), slots[1 := One(VBytes(text.body))])
    ensures TakesIn(MSG_VOTE, slots, [24] + digits, slots[2 := One(VInt(AsInt32(n)))])
    ensures TakesIn(MSG_VOTE, slots, [34] + text.Bytes(), slots[3 := One(VBytes(text.body))])
    ensures TakesIn(MSG_VOTE, slots, [40] + digits, slots[4 := One(VInt(AsInt32(n)))])
  {
    hide ValidSchema, TakesIn, ReadVarint;
    SchemasValid();
    NumberRecord(MSG_VOTE, slots, 0, 8, digits, n);
    TextRecord(MSG_VOTE, slots, 1, 18, text);
    NumberRecord(MSG_VOTE, slots, 2, 24, digits, n);
    TextRecord(MSG_VOTE, slots, 3, 34, text);
    NumberRecord(MSG_VOTE, slots, 4, 40, digits, n);
  }

  /** chain, symbol, ticker, synth, trade */
  lemma AssetRecords(slots: seq<Slot>, text: Delimited, digits: seq<u8>, n: nat)
    requires |slots| == 5
    requires text.Valid()
    requires ReadVarint(digits, 0, 10) == Ok(At(n, |digits|))
    ensures TakesIn(ASSET, slots, [10] + text.Bytes(), slots[0 := One(VBytes(text.body))])
    ensures TakesIn(ASSET, slots, [18] + text.Bytes(), slots[1 := One(VBytes(text.body))])
    ensures TakesIn(ASSET, slots, [26] + text.Bytes(), slots[2 := One(VBytes(text.body))])
    ensures TakesIn(ASSET, slots, [32] + digits, slots[3 := One(VBool(AsBool(n)))])
    ensures TakesIn(ASSET, slots, [40] + digits, slots[4 := One(VBool(AsBool(n)))])
  {
    hide ValidSchema, TakesIn, ReadVarint;
    SchemasValid();
    TextRecord(ASSET, slots, 0, 10, text);
    TextRecord(ASSET, slots, 1, 18, text);
    TextRecord(ASSET, slots, 2, 26, text);
    NumberRecord(ASSET, slots, 3, 32, digits, n);
    NumberRecord(ASSET, slots, 4, 40, digits, n);
  }

  /** asset, amount, decimals */
  lemma CoinRecords(slots: seq<Slot>, text: Delimited, nested: Delimited, x: seq<Slot>, digits: seq<u8>, n: nat)
    requires |slots| == 3
    requires text.Valid() && nested.Valid()
    requires |x| == |ASSET| && TakesIn(ASSET, Empty(ASSET), nested.body, x)
    requires ReadVarint(digits, 0, 10) == Ok(At(n, |digits|))
    ensures TakesIn(COIN, slots, [10] + nested.Bytes(), slots[0 := One(VMessage(x))])
    ensures TakesIn(COIN, slots, [18] + text.Bytes(), slots[1 := One(VBytes(text.body))])
    ensures TakesIn(COIN, slots, [24] + digits, slots[2 := One(VInt(AsInt64(n)))])
  {
    hide ValidSchema, TakesIn, ReadVarint;
    SchemasValid();
    MessageRecord(COIN, slots, 0, 10, nested, x);
    TextRecord(COIN, slots, 1, 18, text);
    NumberRecord(COIN, slots, 2, 24, digits, n);
  }

  /** id, chain, fromAddress, toAddress, coins, gas, memo */
  lemma TxRecords(slots: seq<Slot>, text: Delimited, nested: Delimited, x: seq<Slot>)
    requires |slots| == 7 && slots[4].Many? && slots[5].Many?
    requires text.Valid() && nested.Valid()
    requires |x| == |COIN| && TakesIn(COIN, Empty(COIN), nested.body, x)
    ensures TakesIn(TX, slots, [10] + text.Bytes(), slots[0 := One(VBytes(text.body))])
    ensures TakesIn(TX, slots, [18] + text.Bytes(), slots[1 := One(VBytes(text.body))])
    ensures TakesIn(TX, slots, [26] + text.Bytes(), slots[2 := One(VBytes(text.body))])
    ensures TakesIn(TX, slots, [34] + text.Bytes(), slots[3 := One(VBytes(text.body))])
    ensures TakesIn(TX, slots, [42] + nested.Bytes(), slots[4 := Many(slots[4].vs + [VMessage(x)])])
    ensures TakesIn(TX, slots, [50] + nested.Bytes(), slots[5 := Many(slots[5].vs + [VMessage(x)])])
    ensures TakesIn(TX, slots, [58] + text.Bytes(), slots[6 := One(VBytes(text.body))])
  {
    hide ValidSchema, TakesIn, ReadVarint;
    SchemasValid();
    TextRecord(TX, slots, 0, 10, text);
    TextRecord(TX, slots, 1, 18, text);
    TextRecord(TX, slots, 2, 26, text);
    TextRecord(TX, slots, 3, 34, text);
    MessageRecord(TX, slots, 4, 42, nested, x);
    MessageRecord(TX, slots, 5, 50, nested, x);
    TextRecord(TX, slots, 6, 58, text);
  }

  /** coins, poolDeduct */
  lemma FeeRecords(slots: seq<Slot>, text: Delimited, nested: Delimited, x: seq<Slot>)
    requires |slots| == 2 && slots[0].Many?
    requires text.Valid() && nested.Valid()
    requires |x| == |COIN| && TakesIn(COIN, Empty(COIN), nested.body, x)
    ensures TakesIn(FEE, slots, [10] + nested.Bytes(), slots[0 := Many(slots[0].vs + [VMessage(x)])])
    ensures TakesIn(FEE, slots, [18] + text.Bytes(), slots[1 := One(VBytes(text.body))])
  {
    hide ValidSchema, TakesIn, ReadVarint;
    SchemasValid();
    MessageRecord(FEE, slots, 0, 10, nested, x);
    TextRecord(FEE, slots, 1, 18, text);
  }

  /** coins, memo, signer */
  lemma DepositRecords(slots: seq<Slot>, text: Delimited, nested: Delimited, x: seq<Slot>)
    requires |slots| == 3 && slots[0].Many?
    requires text.Valid() && nested.Valid()
    requires |x| == |COIN| && TakesIn(COIN, Empty(COIN), nested.body, x)
    ensures TakesIn(MSG_DEPOSIT, slots, [10] + nested.Bytes(), slots[0 := Many(slots[0].vs + [VMessage(x)])])
    ensures TakesIn(MSG_DEPOSIT, slots, [18] + text.Bytes(), slots[1 := One(VBytes(text.body))])
    ensures TakesIn(MSG_DEPOSIT, slots, [26] + text.Bytes(), slots[2 := One(VBytes(text.body))])
  {
    hide ValidSchema, TakesIn, ReadVarint;
    SchemasValid();
    MessageRecord(MSG_DEPOSIT, slots, 0, 10, nested, x);
    TextRecord(MSG_DEPOSIT, slots, 1, 18, text);
    TextRecord(MSG_DEPOSIT, slots, 2, 26, text);
  }

  /** denom, amount */
  lemma CosmosCoinRecords(slots: seq<Slot>, text: Delimited)
    requires |slots| == 2
    requires text.Valid()
    ensures TakesIn(COSMOS_COIN, slots, [10] + text.Bytes(), slots[0 := One(VBytes(text.body))])
    ensures TakesIn(COSMOS_COIN, slots, [18] + text.Bytes(), slots[1 := One(VBytes(text.body))])
  {
    hide ValidSchema, TakesIn, ReadVarint;
    SchemasValid();
    TextRecord(COSMOS_COIN, slots, 0, 10, text);
    TextRecord(COSMOS_COIN, slots, 1, 18, text);
  }

  /** fromAddress, toAddress, amount */
  lemma SendRecords(slots: seq<Slot>, text: Delimited, nested: Delimited, x: seq<Slot>)
    requires |slots| == 3 && slots[2].Many?
    requires text.Valid() && nested.Valid()
    requires |x| == |COSMOS_COIN| && TakesIn(COSMOS_COIN, Empty(COSMOS_COIN), nested.body, x)
    ensures TakesIn(MSG_SEND, slots, [10] + text.Bytes(), slots[0 := One(VBytes(text.body))])
    ensures TakesIn(MSG_SEND, slots, [18] + text.Bytes(), slots[1 := One(VBytes(text.body))])
    ensures TakesIn(MSG_SEND, slots, [26] + nested.Bytes(), slots[2 := Many(slots[2].vs + [VMessage(x)])])
  {
    hide ValidSchema, TakesIn, ReadVarint;
    SchemasValid();
    TextRecord(MSG_SEND, slots, 0, 10, text);
    TextRecord(MSG_SEND, slots, 1, 18, text);
    MessageRecord(MSG_SEND, slots, 2, 26, nested, x);
  }

  // ----- Lists keep their order

  lemma TextsInOrder(fs: Schema, k: nat, tag: u8, p: Delimited, q: Delimited)
    requires ValidSchema(fs) && k < |fs| && fs[k].repeated && tag < 128 && tag / 8 == fs[k].num
    requires (fs[k].kind.TString? || fs[k].kind.TBytes?) && p.Valid() && q.Valid()
    ensures TakesIn(fs, Empty(fs), [tag] + p.Bytes() + ([tag] + q.Bytes()),
              Empty(fs)[k := Many([VBytes(p.body), VBytes(q.body)])])
  {
    hide ValidSchema, TakesIn, Delimited.Bytes, Delimited.Valid;
    var one := Empty(fs)[k := Many([VBytes(p.body)])];
    TextRecord(fs, Empty(fs), k, tag, p);
    assert [] + [VBytes(p.body)] == [VBytes(p.body)];
    TextRecord(fs, one, k, tag, q);
    var two := Empty(fs)[k := Many([VBytes(p.body), VBytes(q.body)])];
    assert [VBytes(p.body)] + [VBytes(q.body)] == [VBytes(p.body), VBytes(q.body)];
    assert one[k := Many([VBytes(p.body), VBytes(q.body)])] == two;
    DecodesInTurn(fs, Empty(fs), [tag] + p.Bytes(), one, [tag] + q.Bytes(), two);
  }

  lemma MessagesInOrder(fs: Schema, k: nat, tag: u8, p: Delimited, x: seq<Slot>, q: Delimited, y: seq<Slot>)
    requires ValidSchema(fs) && k < |fs| && fs[k].repeated && tag < 128 && tag / 8 == fs[k].num
    requires fs[k].kind.TMessage? && p.Valid() && q.Valid()
    requires var fs' := fs[k].kind.fields; TakesIn(fs', Empty(fs'), p.body, x) && TakesIn(fs', Empty(fs'), q.body, y)
    ensures TakesIn(fs, Empty(fs), [tag] + p.Bytes() + ([tag] + q.Bytes()),
              Empty(fs)[k := Many([VMessage(x), VMessage(y)])])
  {
    hide ValidSchema, TakesIn, Delimited.Bytes, Delimited.Valid;
    var one := Empty(fs)[k := Many([VMessage(x)])];
    MessageRecord(fs, Empty(fs), k, tag, p, x);
    assert [] + [VMessage(x)] == [VMessage(x)];
    MessageRecord(fs, one, k, tag, q, y);
    var two := Empty(fs)[k := Many([VMessage(x), VMessage(y)])];
    assert [VMessage(x)] + [VMessage(y)] == [VMessage(x), VMessage(y)];
    assert one[k := Many([VMessage(x), VMessage(y)])] == two;
    DecodesInTurn(fs, Empty(fs), [tag] + p.Bytes(), one, [tag] + q.Bytes(), two);
  }

  /** Two proposers, or two proposed messages, are both kept, first the first. */
  lemma ProposalLists(p: Delimited, q: Delimited, u: Delimited, x: seq<Slot>, v: Delimited, y: seq<Slot>)
    requires p.Valid() && q.Valid() && u.Valid() && v.Valid()
    requires TakesIn(ANY, Empty(ANY), u.body, x) && TakesIn(ANY, Empty(ANY), v.body, y)
    ensures TakesIn(MSG_SUBMIT_PROPOSAL, Empty(MSG_SUBMIT_PROPOSAL), [18] + p.Bytes() + ([18] + q.Bytes()),
              [Absent, Many([VBytes(p.body), VBytes(q.body)]), Absent, Many([]), Absent, Absent, Absent])
    ensures TakesIn(MSG_SUBMIT_PROPOSAL, Empty(MSG_SUBMIT_PROPOSAL), [34] + u.Bytes() + ([34] + v.Bytes()),
              [Absent, Many([]), Absent, Many([VMessage(x), VMessage(y)]), Absent, Absent, Absent])
  {
    hide ValidSchema, TakesIn, Delimited.Bytes, Delimited.Valid;
    SchemasValid();
    TextsInOrder(MSG_SUBMIT_PROPOSAL, 1, 18, p, q);
    MessagesInOrder(MSG_SUBMIT_PROPOSAL, 3, 34, u, x, v, y);
    var none := Empty(MSG_SUBMIT_PROPOSAL);
    assert none == [Absent, Many([]), Absent, Many([]), Absent, Absent, Absent];
    var texts, messages := Many([VBytes(p.body), VBytes(q.body)]), Many([VMessage(x), VMessage(y)]);
    assert none[1 := texts] == [Absent, texts, Absent, Many([]), Absent, Absent, Absent];
    assert none[3 := messages] == [Absent, Many([]), Absent, messages, Absent, Absent, Absent];
  }

  /** Two coins, or two amounts of gas, of a transaction; two coins of a fee or a deposit. */
  lemma CoinLists(u: Delimited, x: seq<Slot>, v: Delimited, y: seq<Slot>)
    requires u.Valid() && v.Valid()
    requires TakesIn(COIN, Empty(COIN), u.body, x) && TakesIn(COIN, Empty(COIN), v.body, y)
    ensures TakesIn(TX, Empty(TX), [42] + u.Bytes() + ([42] + v.Bytes()),
              [Absent, Absent, Absent, Absent, Many([VMessage(x), VMessage(y)]), Many([]), Absent])
    ensures TakesIn(TX, Empty(TX), [50] + u.Bytes() + ([50] + v.Bytes()),
              [Absent, Absent, Absent, Absent, Many([]), Many([VMessage(x), VMessage(y)]), Absent])
    ensures TakesIn(FEE, Empty(FEE), [10] + u.Bytes() + ([10] + v.Bytes()),
              [Many([VMessage(x), VMessage(y)]), Absent])
    ensures TakesIn(MSG_DEPOSIT, Empty(MSG_DEPOSIT), [10] + u.Bytes() + ([10] + v.Bytes()),
              [Many([VMessage(x), VMessage(y)]), Absent, Absent])
  {
    hide ValidSchema, TakesIn, Delimited.Bytes, Delimited.Valid;
    SchemasValid();
    MessagesInOrder(TX, 4, 42, u, x, v, y);
    MessagesInOrder(TX, 5, 50, u, x, v, y);
    MessagesInOrder(FEE, 0, 10, u, x, v, y);
    MessagesInOrder(MSG_DEPOSIT, 0, 10, u, x, v, y);
    var coins := Many([VMessage(x), VMessage(y)]);
    assert Empty(TX) == [Absent, Absent, Absent, Absent, Many([]), Many([]), Absent];
    assert Empty(TX)[4 := coins] == [Absent, Absent, Absent, Absent, coins, Many([]), Absent];
    assert Empty(TX)[5 := coins] == [Absent, Absent, Absent, Absent, Many([]), coins, Absent];
    assert Empty(FEE)[0 := coins] == [coins, Absent];
    assert Empty(MSG_DEPOSIT)[0 := coins] == [coins, Absent, Absent];
  }

  /** Two amounts of a transfer. */
  lemma SendAmounts(u: Delimited, x: seq<Slot>, v: Delimited, y: seq<Slot>)
    requires u.Valid() && v.Valid()
    requires TakesIn(COSMOS_COIN, Empty(COSMOS_COIN), u.body, x) && TakesIn(COSMOS_COIN, Empty(COSMOS_COIN), v.body, y)
    ensures TakesIn(MSG_SEND, Empty(MSG_SEND), [26] + u.Bytes() + ([26] + v.Bytes()),
              [Absent, Absent, Many([VMessage(x), VMessage(y)])])
  {
    hide ValidSchema, TakesIn, Delimited.Bytes, Delimited.Valid;
    SchemasValid();
    MessagesInOrder(MSG_SEND, 2, 26, u, x, v, y);
    var coins := Many([VMessage(x), VMessage(y)]);
    assert Empty(MSG_SEND)[2 := coins] == [Absent, Absent, coins];
  }

  // ----- The bytes an encoder writes

  /** A value's bytes: 0 or 1, two's complement on 64 bits, or bytes after their length. */
  lemma ScalarBytes(kind: Kind, v: Value)
    requires Fits(kind, v)
    ensures kind.TBool? ==> EncodeValue(kind, v) == [if v.b then 1 else 0]
    ensures kind.TInt32? || kind.TInt64? ==>
      EncodeValue(kind, v) == Varint(if v.n >= 0 then v.n else v.n + 0x1_0000_0000_0000_0000)
    ensures kind.TUint64? ==> EncodeValue(kind, v) == Varint(v.n)
    ensures kind.TString? || kind.TBytes? ==> EncodeValue(kind, v) == Varint(|v.s|) + v.s
    ensures kind.TMessage? ==>
      var body := Encode(kind.fields, v.slots, 0);
      EncodeValue(kind, v) == Varint(|body|) + body
  {
    hide Varint, Encode, FitsMessage;
    if kind.TBool? {
      SmallVarint(if v.b then 1 else 0);
    } else if kind.TInt32? || kind.TInt64? {
      TwosComplement(v.n);
    }
  }

  lemma TwosComplement(n: int)
    requires -0x8000_0000_0000_0000 <= n < 0x8000_0000_0000_0000
    ensures n % TWO_64 == if n >= 0 then n else n + 0x1_0000_0000_0000_0000
  {
  }

  /** The bytes of a varint: seven bits of the number in each, the lowest first, a mark on all but the
      last, and no byte more than needed. */
  lemma {:induction false} VarintBytes(n: nat, i: nat)
    requires i < |Varint(n)|
    ensures Varint(n)[i] == n / Pow128(i) % 128 + (if i < |Varint(n)| - 1 then 128 else 0)
    decreases n
  {
    hide Varint, Pow128;
    if n < 128 {
      SmallVarint(n);
      Pow128Steps(1);
    } else {
      VarintStep(n);
      Pow128Steps(1);
      if i > 0 {
        VarintBytes(n / 128, i - 1);
        Pow128Steps(i);
        DivideTwice(n, 128, Pow128(i - 1));
      }
    }
  }

  lemma {:induction false} VarintLength(n: nat)
    ensures n < Pow128(|Varint(n)|) && (|Varint(n)| > 1 ==> Pow128(|Varint(n)| - 1) <= n)
    decreases n
  {
    hide Varint, Pow128;
    Pow128Steps(1);
    if n < 128 {
      SmallVarint(n);
    } else {
      VarintStep(n);
      VarintLength(n / 128);
      Pow128Steps(|Varint(n / 128)|);
    }
  }

  lemma VarintStep(n: nat)
    requires n >= 128
    ensures Varint(n) == [128 + n % 128] + Varint(n / 128)
  {
  }

  lemma Pow128Steps(k: nat)
    requires k > 0
    ensures Pow128(0) == 1 && Pow128(k) == 128 * Pow128(k - 1) && Pow128(k + 1) == 128 * Pow128(k)
  {
  }

  lemma DivideTwice(n: nat, a: nat, b: nat)
    requires a > 0 && b > 0
    ensures a * b > 0 && n / a / b == n / (a * b)
  {
    var q, r := n / a, n % a;
    QuotientAndRest(n, a);
    QuotientAndRest(q, b);
    DivideTwiceIs(n, a, b, q / b, r, q % b);
  }

  lemma QuotientAndRest(n: nat, a: nat)
    requires a > 0
    ensures n == a * (n / a) + n % a && 0 <= n % a < a && n / a >= 0
  {
    QuotientBound(n, a);
  }

  lemma DivideTwiceIs(n: nat, a: nat, b: nat, q: nat, r: nat, r': nat)
    requires r < a && r' < b && n == a * (b * q + r') + r
    ensures a * b > 0 && n / (a * b) == q
  {
    Remainders(a, b, r, r');
    Regroup(a, b, q, r, r');
    DivideUnique(n, a * b, a * r' + r, q);
  }

  lemma Remainders(a: nat, b: nat, r: nat, r': nat)
    requires r < a && r' < b
    ensures a * r' + r < a * b
  {
    MulMonotone(r' + 1, b, a);
  }

  lemma Regroup(a: nat, b: nat, q: nat, r: nat, r': nat)
    ensures a * (b * q + r') + r == a * r' + r + q * (a * b)
  {
    assert a * (b * q + r') == a * (b * q) + a * r';
    assert a * (b * q) == q * (a * b);
  }

  /** Fields are written in ascending order of their numbers. */
  lemma FieldsAscend(fs: Schema, slots: seq<Slot>, i: nat, j: nat)
    requires IsSchema(fs) && FitsMessage(fs, slots) && i < j < |fs|
    ensures fs[i].num < fs[j].num
    ensures exists a, b, c ::
      Encode(fs, slots, 0) == a + EncodeSlot(fs[i], slots[i]) + b + EncodeSlot(fs[j], slots[j]) + c
  {
    hide IsSchema, FitsSlot, EncodeSlot, Encode;
    NumbersAscend(fs);
    var a := EncodeFrom(fs, slots, 0, i);
    var b := EncodeFrom(fs, slots, i + 1, j);
    EncodeNext(fs, slots, i);
    EncodeNext(fs, slots, j);
    var x, y, c := EncodeSlot(fs[i], slots[i]), EncodeSlot(fs[j], slots[j]), Encode(fs, slots, j + 1);
    assert a + (x + (b + (y + c))) == a + x + b + y + c;
  }

  lemma NumbersAscend(fs: Schema)
    requires IsSchema(fs)
    ensures forall k :: 0 <= k < |fs| ==> fs[k].num == k + 1
  {
  }

  lemma EncodeNext(fs: Schema, slots: seq<Slot>, k: nat)
    requires FitsMessage(fs, slots) && k < |fs|
    ensures Encode(fs, slots, k) == EncodeSlot(fs[k], slots[k]) + Encode(fs, slots, k + 1)
  {
    hide EncodeSlot, FitsSlot;
  }

  /** What stands before field k, from field j on. */
  lemma {:induction false} EncodeFrom(fs: Schema, slots: seq<Slot>, j: nat, k: nat) returns (before: seq<u8>)
    requires FitsMessage(fs, slots) && j <= k <= |fs|
    ensures Encode(fs, slots, j) == before + Encode(fs, slots, k)
    decreases k - j
  {
    hide FitsSlot, EncodeSlot, Encode;
    if j == k {
      before := [];
    } else {
      EncodeNext(fs, slots, j);
      var rest := EncodeFrom(fs, slots, j + 1, k);
      before := EncodeSlot(fs[j], slots[j]) + rest;
    }
  }

  lemma SmallVarint(n: nat)
    requires n < 128
    ensures Varint(n) == [n]
  {
  }
}
