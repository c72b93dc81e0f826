/** What decoding does to any well-formed stream of records, and from it: decoding undoes encoding,
    concatenated messages merge, and records of unknown fields make no difference. */
module CodecProofs {
  import opened Words
  import opened Wrappers
  import opened Wire
  import opened Codec

  /** One record of a message, as its bytes stand: a field with any bytes its read takes for a value, a
      field with a nested stream of records, or a record of a field the schema does not have, with any
      bytes that skipping passes over.  Tags and lengths need not be written in the shortest way. */
  datatype Item = Leaf(tag: seq<u8>, body: seq<u8>)
                | Nested(tag: seq<u8>, len: seq<u8>, items: seq<Item>)
                | Other(tag: seq<u8>, payload: seq<u8>)

  /** The field a tag is for, or |fs|. */
  function FieldOf(fs: Schema, tag: seq<u8>): (k: nat)
    requires IsVarint(tag)
    ensures k <= |fs|
  {
    Find(fs, Number(tag) / 8)
  }

  predicate ItemOk(fs: Schema, item: Item)
    decreases item, 1
  {
    && IsVarint(item.tag)
    && var k := FieldOf(fs, item.tag);
    match item
    case Leaf(_, body) =>
      && k < |fs| && !fs[k].kind.TMessage?
      && ReadValue(fs[k].kind, body, 0).Ok? && ReadValue(fs[k].kind, body, 0).value.pos == |body|
    case Nested(_, len, items) =>
      && k < |fs| && fs[k].kind.TMessage? && ItemsOk(fs[k].kind.fields, items)
      && IsVarint(len) && Number(len) == |ItemsBytes(items)|
    case Other(tag, payload) =>
      k == |fs| && SkipType(payload, 0, Number(tag) % 8) == Ok(|payload|)
  }

  predicate ItemsOk(fs: Schema, items: seq<Item>)
    decreases items, 1
  {
    items == [] || (ItemOk(fs, items[0]) && ItemsOk(fs, items[1..]))
  }

  /** The bytes after the tag. */
  function ItemPayload(item: Item): seq<u8>
    decreases item, 2
  {
    match item
    case Leaf(_, body) => body
    case Nested(_, len, items) => len + ItemsBytes(items)
    case Other(_, payload) => payload
  }

  function ItemsBytes(items: seq<Item>): seq<u8>
    decreases items, 2
  {
    if items == [] then [] else items[0].tag + ItemPayload(items[0]) + ItemsBytes(items[1..])
  }

  /** The value a record gives its field. */
  function ItemValue(fs: Schema, item: Item): Value
    requires ItemOk(fs, item) && !item.Other?
    decreases item, 2
  {
    var kind := fs[FieldOf(fs, item.tag)].kind;
    match item
    case Leaf(_, body) => ReadValue(kind, body, 0).value.value
    case Nested(_, _, items) => VMessage(Apply(kind.fields, Empty(kind.fields), items))
  }

  /** The message after one record has been taken in. */
  function ApplyOne(fs: Schema, slots: seq<Slot>, item: Item): (r: seq<Slot>)
    requires ItemOk(fs, item) && |slots| == |fs|
    ensures |r| == |fs|
    decreases item, 3
  {
    if item.Other? then slots else Assign(fs, slots, FieldOf(fs, item.tag), ItemValue(fs, item))
  }

  /** The message after the records have been taken in, one after another. */
  function Apply(fs: Schema, slots: seq<Slot>, items: seq<Item>): (r: seq<Slot>)
    requires ItemsOk(fs, items) && |slots| == |fs|
    ensures |r| == |fs|
    decreases items, 3
  {
    if items == [] then slots else Apply(fs, ApplyOne(fs, slots, items[0]), items[1..])
  }

  // ----- Decoding a part of a buffer

  lemma {:induction false} ValueWindow(kind: Kind, buf: seq<u8>, lo: nat, n: nat, i: nat)
    requires lo + i <= n <= |buf|
    ensures Window(ReadValue(kind, buf[lo..n], i), ReadValue(kind, buf, lo + i), lo, n)
    decreases kind
  {
    hide ReadUint32, ReadUint64, ReadBytes, Decode, Signed;
    match kind
    case TBool => Uint32Window(buf, lo, n, i);
    case TInt32 => Uint32Window(buf, lo, n, i);
    case TInt64 => Uint64Window(buf, lo, n, i);
    case TUint64 => Uint64Window(buf, lo, n, i);
    case TString => BytesWindow(buf, lo, n, i);
    case TBytes => BytesWindow(buf, lo, n, i);
    case TMessage(fs) =>
      Uint32Window(buf, lo, n, i);
      var part := ReadUint32(buf[lo..n], i);
      if part.Ok? {
        var p := part.value.pos;
        DecodeWindow(fs, Empty(fs), buf, lo, n, p, p + part.value.value);
      }
  }

  lemma {:induction false} FieldWindow(d: Desc, buf: seq<u8>, lo: nat, n: nat, i: nat)
    requires lo + i <= n <= |buf|
    ensures Window(ReadField(d, buf[lo..n], i), ReadField(d, buf, lo + i), lo, n)
    decreases d
  {
    hide ReadValue;
    ValueWindow(d.kind, buf, lo, n, i);
  }

  /** Decoding a part of a buffer is decoding the whole as long as that does not go past the part. */
  lemma {:induction false} DecodeWindow(fs: Schema, slots: seq<Slot>, buf: seq<u8>, lo: nat, n: nat, i: nat, end: nat)
    requires |slots| == |fs| && lo + i <= n <= |buf|
    ensures Window(Decode(fs, slots, buf[lo..n], i, end), Decode(fs, slots, buf, lo + i, lo + end), lo, n)
    decreases fs, n - i
  {
    hide ReadUint32, ReadField, SkipType, Assign;
    if i < end {
      Uint32Window(buf, lo, n, i);
      var part := ReadUint32(buf[lo..n], i);
      if part.Ok? {
        var tag, p := part.value.value, part.value.pos;
        var k := Find(fs, tag / 8);
        if k < |fs| {
          FieldWindow(fs[k], buf, lo, n, p);
          var v := ReadField(fs[k], buf[lo..n], p);
          if v.Ok? {
            DecodeWindow(fs, Assign(fs, slots, k, v.value.value), buf, lo, n, v.value.pos, end);
          }
        } else {
          SkipTypeWindow(buf, lo, n, p, tag % 8);
          var skipped := SkipType(buf[lo..n], p, tag % 8);
          if skipped.Ok? {
            DecodeWindow(fs, slots, buf, lo, n, skipped.value, end);
          }
        }
      }
    }
  }

  /** A decode stops exactly at its declared end if and only if the bytes up to there decode on their
      own; what follows them in the buffer makes no difference to the message. */
  lemma ExactlyAtEnd(fs: Schema, slots: seq<Slot>, buf: seq<u8>, pos: nat, end: nat)
    requires |slots| == |fs| && pos <= end <= |buf|
    ensures
      var own, whole := Decode(fs, slots, buf[..end], pos, end), Decode(fs, slots, buf, pos, end);
      && (own.Ok? <==> whole.Ok? && whole.value.pos == end)
      && (own.Ok? ==> own == whole)
  {
    hide Decode;
    DecodeWindow(fs, slots, buf, 0, end, pos, end);
    assert buf[0..end] == buf[..end];
  }

  /** Decoding all of a buffer into a message gives another one. */
  predicate TakesIn(fs: Schema, slots: seq<Slot>, buf: seq<u8>, slots': seq<Slot>)
    requires |slots| == |fs|
  {
    Decode(fs, slots, buf, 0, |buf|) == Ok(At(slots', |buf|))
  }

  /** A decode that stopped at mid can go on from there. */
  lemma {:induction false} DecodeGoesOn(fs: Schema, slots: seq<Slot>, buf: seq<u8>, pos: nat, mid: nat, end: nat)
    requires |slots| == |fs| && pos <= mid <= end && mid <= |buf|
    requires Decode(fs, slots, buf, pos, mid).Ok? && Decode(fs, slots, buf, pos, mid).value.pos == mid
    ensures Decode(fs, slots, buf, pos, end) == Decode(fs, Decode(fs, slots, buf, pos, mid).value.value, buf, mid, end)
    decreases |buf| - pos
  {
    hide ReadUint32, ReadField, SkipType, Assign, Find;
    if pos < mid {
      var tag := ReadUint32(buf, pos).value;
      var k := Find(fs, tag.value / 8);
      if k < |fs| {
        var v := ReadField(fs[k], buf, tag.pos).value;
        DecodeGoesOn(fs, Assign(fs, slots, k, v.value), buf, v.pos, mid, end);
      } else {
        DecodeGoesOn(fs, slots, buf, SkipType(buf, tag.pos, tag.value % 8).value, mid, end);
      }
    }
  }

  /** Any two buffers that decode, one after the other: the second is decoded into what the first gave. */
  lemma DecodesInTurn(fs: Schema, slots: seq<Slot>, x: seq<u8>, a: seq<Slot>, y: seq<u8>, b: seq<Slot>)
    requires |slots| == |fs| == |a| && TakesIn(fs, slots, x, a) && TakesIn(fs, a, y, b)
    ensures TakesIn(fs, slots, x + y, b)
  {
    hide Decode;
    var buf := x + y;
    DecodeWindow(fs, slots, buf, 0, |x|, 0, |x|);
    assert buf[0..|x|] == x;
    DecodeWindow(fs, a, buf, |x|, |buf|, 0, |y|);
    assert buf[|x|..|buf|] == y;
    DecodeGoesOn(fs, slots, buf, 0, |x|, |buf|);
  }

  /** A nested message that declares one byte and then begins a string: the string is read from the
      bytes behind the declared end, and the outer decode succeeds. */
  lemma NestedReadsPastEnd(num: nat, x: u8)
    requires 1 <= num < 16
    ensures
      var inner := [Desc(1, TString, false)];
      var outer := [Desc(num, TMessage(inner), false)];
      var buf: seq<u8> := [8 * num + 2, 1, 10, 1, x];
      && Decode(inner, Empty(inner), buf, 2, 3) == Ok(At([One(VBytes([x]))], 5))
      && DecodeAll(outer, buf) == Ok(At([One(VMessage([One(VBytes([x]))]))], 5))
      && Decode(inner, Empty(inner), buf[..3], 2, 3).Err?
  {
    hide Assign, ReadUint32, ReadBytes;
    var inner := [Desc(1, TString, false)];
    var outer := [Desc(num, TMessage(inner), false)];
    var buf: seq<u8> := [8 * num + 2, 1, 10, 1, x];
    OneByte(buf, 0);
    OneByte(buf, 1);
    OneByte(buf, 2);
    OneByte(buf, 3);
    OneString(buf, 3);
    AssignOnly(inner, VBytes([x]));
    DecodeKnown(inner, Empty(inner), buf, 2, 3, 10, 0, VBytes([x]), 3, 5);
    AssignOnly(outer, VMessage([One(VBytes([x]))]));
    FieldIsMessage(outer[0], buf, 1, 1, 2, [One(VBytes([x]))], 5);
    DecodeKnown(outer, Empty(outer), buf, 0, 5, 8 * num + 2, 0, VMessage([One(VBytes([x]))]), 1, 5);
    ExactlyAtEnd(inner, Empty(inner), buf, 2, 3);
  }

  lemma OneByte(buf: seq<u8>, pos: nat)
    requires pos < |buf| && buf[pos] < 128
    ensures ReadUint32(buf, pos) == Ok(At(buf[pos], pos + 1))
  {
  }

  lemma OneString(buf: seq<u8>, pos: nat)
    requires pos + 1 < |buf| && buf[pos] == 1
    ensures ReadBytes(buf, pos) == Ok(At([buf[pos + 1]], pos + 2))
  {
    hide ReadUint32;
    OneByte(buf, pos);
    assert buf[pos + 1..pos + 2] == [buf[pos + 1]];
  }

  lemma AssignOnly(fs: Schema, v: Value)
    requires |fs| == 1 && !fs[0].repeated
    ensures Assign(fs, Empty(fs), 0, v) == [One(v)]
  {
  }

  lemma FieldIsMessage(d: Desc, buf: seq<u8>, pos: nat, n: nat, p: nat, slots: seq<Slot>, p': nat)
    requires d.kind.TMessage? && pos <= |buf| && ReadUint32(buf, pos) == Ok(At(n, p))
    requires Decode(d.kind.fields, Empty(d.kind.fields), buf, p, p + n) == Ok(At(slots, p'))
    ensures ReadField(d, buf, pos) == Ok(At(VMessage(slots), p'))
  {
    hide Decode;
  }

  // ----- Decoding a stream of records

  lemma DecodeKnown(fs: Schema, slots: seq<Slot>, buf: seq<u8>, pos: nat, end: nat, tag: nat, k: nat, v: Value, p: nat,
                    p': nat)
    requires |slots| == |fs| && pos < end && pos <= |buf|
    requires ReadUint32(buf, pos) == Ok(At(tag, p)) && Find(fs, tag / 8) == k < |fs|
    requires ReadField(fs[k], buf, p) == Ok(At(v, p'))
    ensures Decode(fs, slots, buf, pos, end) == Decode(fs, Assign(fs, slots, k, v), buf, p', end)
  {
    hide ReadField, ReadUint32, Find, Assign;
  }

  lemma DecodeOther(fs: Schema, slots: seq<Slot>, buf: seq<u8>, pos: nat, end: nat, tag: nat, p: nat, p': nat)
    requires |slots| == |fs| && pos < end && pos <= |buf|
    requires ReadUint32(buf, pos) == Ok(At(tag, p)) && Find(fs, tag / 8) == |fs|
    requires SkipType(buf, p, tag % 8) == Ok(p')
    ensures Decode(fs, slots, buf, pos, end) == Decode(fs, slots, buf, p', end)
  {
    hide ReadField, ReadUint32, Find, Assign, SkipType;
  }

  lemma BufferReaches(buf: seq<u8>, pos: nat, s: seq<u8>)
    requires HasAt(buf, pos, s)
    ensures pos + |s| <= |buf| && buf[pos..pos + |s|] == s
  {
  }

  lemma {:induction false} ReadsItem(fs: Schema, item: Item, buf: seq<u8>, pos: nat)
    requires ItemOk(fs, item) && !item.Other?
    requires HasAt(buf, pos, ItemPayload(item))
    ensures pos <= |buf|
    ensures ReadField(fs[FieldOf(fs, item.tag)], buf, pos) == Ok(At(ItemValue(fs, item), pos + |ItemPayload(item)|))
    decreases item, 0
  {
    hide IsVarint, Number, FieldOf, ReadValue, ReadUint32, Decode, Apply, ItemsBytes;
    var d := fs[FieldOf(fs, item.tag)];
    match item
    case Leaf(_, body) =>
      ValueWindow(d.kind, buf, pos, pos + |body|, 0);
    case Nested(_, len, items) =>
      var body := ItemsBytes(items);
      HasAtSplit(buf, pos, len, body);
      NumberRead(buf, pos, len);
      DecodesItems(d.kind.fields, Empty(d.kind.fields), items, buf, pos + |len|);
      FieldIsMessage(d, buf, pos, |body|, pos + |len|, Apply(d.kind.fields, Empty(d.kind.fields), items), pos + |len| + |body|);
  }

  /** One record in front. */
  lemma {:induction false} DecodesItem(fs: Schema, slots: seq<Slot>, item: Item, buf: seq<u8>, pos: nat, end: nat)
    requires ItemOk(fs, item) && |slots| == |fs| && pos < end && pos <= |buf|
    requires HasAt(buf, pos, item.tag + ItemPayload(item))
    ensures pos + |item.tag + ItemPayload(item)| <= |buf|
    ensures Decode(fs, slots, buf, pos, end)
      == Decode(fs, ApplyOne(fs, slots, item), buf, pos + |item.tag + ItemPayload(item)|, end)
    decreases item, 2
  {
    hide IsVarint, Number, ReadUint32, ReadValue, Decode, ItemValue, ItemPayload, ItemsBytes, ReadField, Assign, SkipType,
      HasAt;
    BufferReaches(buf, pos, item.tag + ItemPayload(item));
    HasAtSplit(buf, pos, item.tag, ItemPayload(item));
    NumberRead(buf, pos, item.tag);
    var p, p' := pos + |item.tag|, pos + |item.tag + ItemPayload(item)|;
    if item.Other? {
      PayloadOf(item);
      SkipsHere(buf, p, item.payload, Number(item.tag) % 8);
      DecodeOther(fs, slots, buf, pos, end, Number(item.tag), p, p');
    } else {
      ReadsItem(fs, item, buf, p);
      DecodeKnown(fs, slots, buf, pos, end, Number(item.tag), FieldOf(fs, item.tag), ItemValue(fs, item), p, p');
    }
  }

  lemma SkipsHere(buf: seq<u8>, pos: nat, payload: seq<u8>, wireType: nat)
    requires HasAt(buf, pos, payload) && SkipType(payload, 0, wireType) == Ok(|payload|)
    ensures pos <= |buf| && SkipType(buf, pos, wireType) == Ok(pos + |payload|)
  {
    hide SkipType, SkipGroup, SkipVarint, SkipFixed, ReadUint32, HasAt;
    BufferReaches(buf, pos, payload);
    SkipTypeWindow(buf, pos, pos + |payload|, 0, wireType);
    assert buf[pos..pos + |payload|] == payload;
  }

  lemma PayloadOf(item: Item)
    requires item.Other?
    ensures ItemPayload(item) == item.payload
  {
  }

  /** Every well-formed record of a field the schema does not have, groups included, is such a record. */
  lemma RecordIsItem(fs: Schema, u: Unknown)
    requires WellFormed(u) && Find(fs, Number(u.tag) / 8) == |fs|
    ensures ItemOk(fs, Other(u.tag, Payload(u))) && ItemsBytes([Other(u.tag, Payload(u))]) == Record(u)
  {
    hide SkipType, IsVarint, Number, Find;
    TagOf(u);
    WholeBuffer(Payload(u));
    SkipsPayload(Payload(u), 0, u);
  }

  lemma TagNotEmpty(fs: Schema, item: Item)
    requires ItemOk(fs, item)
    ensures |item.tag| > 0
  {
  }

  /** Decoding takes in exactly the records that stand between pos and end, wherever they stand in
      the buffer, and stops at end. */
  lemma {:induction false} DecodesItems(fs: Schema, slots: seq<Slot>, items: seq<Item>, buf: seq<u8>, pos: nat)
    requires ItemsOk(fs, items) && |slots| == |fs|
    requires HasAt(buf, pos, ItemsBytes(items))
    ensures pos <= |buf|
    ensures
      var end := pos + |ItemsBytes(items)|;
      Decode(fs, slots, buf, pos, end) == Ok(At(Apply(fs, slots, items), end))
    decreases items, 1
  {
    hide HasAt, ItemOk, ItemPayload, ApplyOne, Decode;
    BufferReaches(buf, pos, ItemsBytes(items));
    if items == [] {
      NothingDecoded(fs, slots, buf, pos);
    } else {
      var item, end := items[0], pos + |ItemsBytes(items)|;
      HasAtSplit(buf, pos, item.tag + ItemPayload(item), ItemsBytes(items[1..]));
      TagNotEmpty(fs, item);
      DecodesItem(fs, slots, item, buf, pos, end);
      DecodesItems(fs, ApplyOne(fs, slots, item), items[1..], buf, pos + |item.tag + ItemPayload(item)|);
    }
  }

  lemma NothingDecoded(fs: Schema, slots: seq<Slot>, buf: seq<u8>, pos: nat)
    requires |slots| == |fs| && pos <= |buf|
    ensures Decode(fs, slots, buf, pos, pos) == Ok(At(slots, pos))
  {
  }

  // ----- Streams of records put together

  lemma {:induction false} ItemsConcat(fs: Schema, slots: seq<Slot>, x: seq<Item>, y: seq<Item>)
    requires ItemsOk(fs, x) && ItemsOk(fs, y) && |slots| == |fs|
    ensures ItemsOk(fs, x + y)
    ensures ItemsBytes(x + y) == ItemsBytes(x) + ItemsBytes(y)
    ensures Apply(fs, slots, x + y) == Apply(fs, Apply(fs, slots, x), y)
    decreases |x|
  {
    hide ItemOk, ItemPayload, ApplyOne;
    if x == [] {
      assert x + y == y;
    } else {
      assert (x + y)[0] == x[0] && (x + y)[1..] == x[1..] + y;
      ItemsConcat(fs, ApplyOne(fs, slots, x[0]), x[1..], y);
      var first := x[0].tag + ItemPayload(x[0]);
      assert first + (ItemsBytes(x[1..]) + ItemsBytes(y)) == first + ItemsBytes(x[1..]) + ItemsBytes(y);
    }
  }

  lemma OneMoreItem(fs: Schema, slots: seq<Slot>, item: Item, items: seq<Item>)
    requires ItemOk(fs, item) && ItemsOk(fs, items) && |slots| == |fs|
    ensures ItemsOk(fs, [item] + items)
    ensures ItemsBytes([item] + items) == item.tag + ItemPayload(item) + ItemsBytes(items)
    ensures Apply(fs, slots, [item] + items) == Apply(fs, ApplyOne(fs, slots, item), items)
  {
    hide ItemOk, ItemPayload, ApplyOne;
    assert ([item] + items)[1..] == items;
  }

  // ----- The records an encoder writes

  function ItemOf(d: Desc, kind: Kind, v: Value): Item
    requires Fits(kind, v)
    decreases kind
  {
    if kind.TMessage? then
      var items := ItemsOf(kind.fields, v.slots, 0);
      Nested(Tag(d), Varint(|ItemsBytes(items)|), items)
    else Leaf(Tag(d), EncodeValue(kind, v))
  }

  function ItemsOfMany(d: Desc, vs: seq<Value>): seq<Item>
    requires forall j :: 0 <= j < |vs| ==> Fits(d.kind, vs[j])
    decreases d, 0, |vs|
  {
    if vs == [] then [] else [ItemOf(d, d.kind, vs[0])] + ItemsOfMany(d, vs[1..])
  }

  function ItemsOfSlot(d: Desc, slot: Slot): seq<Item>
    requires FitsSlot(d, slot)
    decreases d, 1
  {
    match slot
    case Absent => []
    case One(v) => [ItemOf(d, d.kind, v)]
    case Many(vs) => ItemsOfMany(d, vs)
  }

  function ItemsOf(fs: Schema, slots: seq<Slot>, k: nat): seq<Item>
    requires FitsMessage(fs, slots) && k <= |fs|
    decreases fs, |fs| - k
  {
    if k == |fs| then [] else ItemsOfSlot(fs[k], slots[k]) + ItemsOf(fs, slots, k + 1)
  }

  lemma SignedBack(n: int)
    ensures -0x8000_0000 <= n < 0x8000_0000 ==> Signed(n % TWO_64 % TWO_32, TWO_32) == n
    ensures -0x8000_0000_0000_0000 <= n < 0x8000_0000_0000_0000 ==> Signed(n % TWO_64 % TWO_64, TWO_64) == n
    ensures 0 <= n < TWO_64 ==> n % TWO_64 % TWO_64 == n
  {
  }

  lemma ReadsInt(buf: seq<u8>, pos: nat, n: int)
    requires HasAt(buf, pos, EncodeInt(n))
    ensures ReadUint32(buf, pos) == Ok(At(n % TWO_64 % TWO_32, pos + |EncodeInt(n)|))
    ensures ReadUint64(buf, pos) == Ok(At(n % TWO_64 % TWO_64, pos + |EncodeInt(n)|))
  {
    hide HasAt, Varint, ReadVarint, Pow128;
    Fits64(n % TWO_64);
    VarintRoundTrip(buf, pos, n % TWO_64, 10);
  }

  lemma ReadsBytes(buf: seq<u8>, pos: nat, s: seq<u8>)
    requires |s| < TWO_32 && HasAt(buf, pos, Varint(|s|) + s)
    ensures ReadBytes(buf, pos) == Ok(At(s, pos + |Varint(|s|) + s|))
  {
    hide HasAt, Varint, ReadUint32;
    HasAtSplit(buf, pos, Varint(|s|), s);
    BufferReaches(buf, pos + |Varint(|s|)|, s);
    Uint32RoundTrip(buf, pos, |s|);
  }

  /** A value is read back from its encoding. */
  lemma ReadsScalar(kind: Kind, v: Value, buf: seq<u8>, pos: nat)
    requires !kind.TMessage? && Fits(kind, v) && HasAt(buf, pos, EncodeValue(kind, v))
    ensures pos <= |buf| && ReadValue(kind, buf, pos) == Ok(At(v, pos + |EncodeValue(kind, v)|))
  {
    hide HasAt, Varint, ReadUint32, ReadUint64, ReadBytes, EncodeInt, Signed;
    BufferReaches(buf, pos, EncodeValue(kind, v));
    match kind
    case TBool =>
      Uint32RoundTrip(buf, pos, if v.b then 1 else 0);
    case TString =>
      ReadsBytes(buf, pos, v.s);
    case TBytes =>
      ReadsBytes(buf, pos, v.s);
    case TInt32 =>
      ReadsInt(buf, pos, v.n);
      SignedBack(v.n);
    case TInt64 =>
      ReadsInt(buf, pos, v.n);
      SignedBack(v.n);
    case TUint64 =>
      ReadsInt(buf, pos, v.n);
      SignedBack(v.n);
    case TMessage(_) =>
  }

  lemma FindUnique(fs: Schema, k: nat)
    requires k < |fs|
    requires forall i, j :: 0 <= i < j < |fs| ==> fs[i].num != fs[j].num
    ensures Find(fs, fs[k].num) == k
  {
  }

  /** The tag of a field is read as that field. */
  lemma TagReads(fs: Schema, k: nat)
    requires ValidSchema(fs) && k < |fs|
    ensures IsVarint(Tag(fs[k])) && FieldOf(fs, Tag(fs[k])) == k
  {
    hide IsVarint, Number;
    assert ValidDesc(fs[k]);
    var n := 8 * fs[k].num + WireOf(fs[k].kind);
    VarintIsVarint(n);
    assert n / 8 == fs[k].num;
    FindUnique(fs, k);
  }

  lemma NestedSchema(fs: Schema, k: nat)
    requires ValidSchema(fs) && k < |fs| && fs[k].kind.TMessage?
    ensures ValidSchema(fs[k].kind.fields)
  {
    assert ValidDesc(fs[k]);
  }

  /** A record an encoder writes is well formed, has the encoder's bytes and gives back its value. */
  lemma {:induction false} ItemOfValue(fs: Schema, k: nat, kind: Kind, v: Value)
    requires ValidSchema(fs) && k < |fs| && fs[k].kind == kind && Fits(kind, v)
    ensures
      var item := ItemOf(fs[k], kind, v);
      && ItemOk(fs, item) && !item.Other? && item.tag == Tag(fs[k]) && FieldOf(fs, item.tag) == k
      && ItemPayload(item) == EncodeValue(kind, v)
      && ItemValue(fs, item) == v
    decreases kind
  {
    hide Varint, Tag, IsVarint, Number, FieldOf, EncodeInt, ValidSchema, FitsMessage, ItemsOf, ItemsOk, ItemsBytes, Encode,
      Apply, Empty, Merge, Shaped, ReadValue;
    TagReads(fs, k);
    if kind.TMessage? {
      var fs' := kind.fields;
      NestedSchema(fs, k);
      MergeIntoEmpty(fs', v.slots);
      ItemsOfMessage(fs', v.slots, 0, Empty(fs'));
      assert Empty(fs')[..0] + v.slots[0..] == v.slots;
      VarintIsVarint(|Encode(fs', v.slots, 0)|);
    } else {
      var s := EncodeValue(kind, v);
      WholeBuffer(s);
      ReadsScalar(kind, v, s, 0);
    }
  }

  lemma {:induction false} ItemsOfManyValues(fs: Schema, k: nat, d: Desc, vs: seq<Value>, slots: seq<Slot>)
    requires ValidSchema(fs) && k < |fs| == |slots| && fs[k] == d && d.repeated && slots[k].Many?
    requires forall j :: 0 <= j < |vs| ==> Fits(d.kind, vs[j])
    ensures
      var items := ItemsOfMany(d, vs);
      && ItemsOk(fs, items)
      && ItemsBytes(items) == EncodeMany(d, vs)
      && Apply(fs, slots, items) == slots[k := Many(slots[k].vs + vs)]
    decreases d, 0, |vs|
  {
    hide Fits, EncodeValue, ItemOk, ItemPayload, ItemOf, ItemValue, Tag, FieldOf, ValidSchema;
    if vs == [] {
      assert slots[k].vs + vs == slots[k].vs;
      assert slots[k := slots[k]] == slots;
    } else {
      ItemOfValue(fs, k, d.kind, vs[0]);
      var slots' := Assign(fs, slots, k, vs[0]);
      ItemsOfManyValues(fs, k, d, vs[1..], slots');
      assert slots[k].vs + [vs[0]] + vs[1..] == slots[k].vs + vs;
      assert slots'[k := Many(slots[k].vs + vs)] == slots[k := Many(slots[k].vs + vs)];
      OneMoreItem(fs, slots, ItemOf(d, d.kind, vs[0]), ItemsOfMany(d, vs[1..]));
    }
  }

  /** The later message wins; lists are appended. */
  function MergeSlot(earlier: Slot, later: Slot): Slot {
    if later.Absent? then earlier
    else if later.Many? && earlier.Many? then Many(earlier.vs + later.vs)
    else later
  }

  function Merge(earlier: seq<Slot>, later: seq<Slot>): (r: seq<Slot>)
    requires |earlier| == |later|
    ensures |r| == |later|
  {
    seq(|later|, k requires 0 <= k < |later| => MergeSlot(earlier[k], later[k]))
  }

  /** Repeated fields hold lists. */
  predicate Shaped(fs: Schema, slots: seq<Slot>) {
    |slots| == |fs| && forall k :: 0 <= k < |fs| && fs[k].repeated ==> slots[k].Many?
  }

  lemma {:induction false} ItemsOfOneSlot(fs: Schema, k: nat, d: Desc, slot: Slot, slots: seq<Slot>)
    requires ValidSchema(fs) && k < |fs| && fs[k] == d && FitsSlot(d, slot) && Shaped(fs, slots)
    ensures
      var items := ItemsOfSlot(d, slot);
      && ItemsOk(fs, items)
      && ItemsBytes(items) == EncodeSlot(d, slot)
      && Apply(fs, slots, items) == slots[k := MergeSlot(slots[k], slot)]
    decreases d, 1
  {
    hide Fits, EncodeValue, ItemOk, ItemPayload, ItemOf, ItemValue, Tag, FieldOf, ValidSchema;
    match slot
    case Absent =>
      assert slots[k := slots[k]] == slots;
    case One(v) =>
      ItemOfValue(fs, k, d.kind, v);
      var item := ItemOf(d, d.kind, v);
      OneMoreItem(fs, slots, item, []);
      assert [item] + [] == [item];
    case Many(vs) =>
      ItemsOfManyValues(fs, k, d, vs, slots);
  }

  /** The records of a message from field k on, taken in by any message, merge into it. */
  lemma {:induction false} ItemsOfMessage(fs: Schema, slots: seq<Slot>, k: nat, cur: seq<Slot>)
    requires ValidSchema(fs) && FitsMessage(fs, slots) && k <= |fs| && Shaped(fs, cur)
    ensures
      var items := ItemsOf(fs, slots, k);
      && ItemsOk(fs, items)
      && ItemsBytes(items) == Encode(fs, slots, k)
      && Apply(fs, cur, items) == cur[..k] + Merge(cur, slots)[k..]
    decreases fs, |fs| - k
  {
    hide FitsSlot, EncodeSlot, ItemsOfSlot, MergeSlot, ValidSchema, ItemOk, ItemPayload, ApplyOne;
    if k == |fs| {
      assert cur[..k] + Merge(cur, slots)[k..] == cur;
    } else {
      var cur' := cur[k := MergeSlot(cur[k], slots[k])];
      ItemsOfOneSlot(fs, k, fs[k], slots[k], cur);
      SlotStaysList(fs, k, cur[k], slots[k]);
      ItemsOfMessage(fs, slots, k + 1, cur');
      ItemsConcat(fs, cur, ItemsOfSlot(fs[k], slots[k]), ItemsOf(fs, slots, k + 1));
      assert cur'[..k + 1] + Merge(cur', slots)[k + 1..] == cur[..k] + Merge(cur, slots)[k..];
    }
  }

  lemma SlotStaysList(fs: Schema, k: nat, slot: Slot, slot': Slot)
    requires k < |fs| && FitsSlot(fs[k], slot')
    ensures fs[k].repeated && slot.Many? ==> MergeSlot(slot, slot').Many?
  {
  }

  lemma MergeIntoEmpty(fs: Schema, slots: seq<Slot>)
    requires FitsMessage(fs, slots)
    ensures Shaped(fs, Empty(fs)) && Merge(Empty(fs), slots) == slots
  {
    forall k | 0 <= k < |fs|
      ensures MergeSlot(Empty(fs)[k], slots[k]) == slots[k]
    {
      assert FitsSlot(fs[k], slots[k]);
      if slots[k].Many? {
        assert [] + slots[k].vs == slots[k].vs;
      }
    }
  }

  // ----- The laws of the codec

  /** Decoding undoes encoding, wherever the encoding stands in a buffer and whatever follows it, and
      stops exactly at its declared end. */
  lemma DecodeUndoesEncode(fs: Schema, slots: seq<Slot>, buf: seq<u8>, pos: nat)
    requires ValidSchema(fs) && FitsMessage(fs, slots) && HasAt(buf, pos, Encode(fs, slots, 0))
    ensures pos <= |buf|
    ensures
      var end := pos + |Encode(fs, slots, 0)|;
      Decode(fs, Empty(fs), buf, pos, end) == Ok(At(slots, end))
  {
    hide Decode, Encode, FitsMessage, ValidSchema, Apply, ItemsBytes;
    RecordsOf(fs, slots);
    DecodesItems(fs, Empty(fs), ItemsOf(fs, slots, 0), buf, pos);
  }

  /** Decoding a buffer that is one encoded message. */
  lemma RoundTrip(fs: Schema, slots: seq<Slot>)
    requires ValidSchema(fs) && FitsMessage(fs, slots)
    ensures DecodeAll(fs, Encode(fs, slots, 0)) == Ok(At(slots, |Encode(fs, slots, 0)|))
  {
    hide Decode, Encode, FitsMessage, ValidSchema;
    var s := Encode(fs, slots, 0);
    WholeBuffer(s);
    DecodeUndoesEncode(fs, slots, s, 0);
  }

  /** Decoding two encodings one after the other merges the messages: the last value of a field wins
      and lists are appended. */
  lemma ConcatenationMerges(fs: Schema, x: seq<Slot>, y: seq<Slot>)
    requires ValidSchema(fs) && FitsMessage(fs, x) && FitsMessage(fs, y)
    ensures
      var buf := Encode(fs, x, 0) + Encode(fs, y, 0);
      DecodeAll(fs, buf) == Ok(At(Merge(x, y), |buf|))
  {
    hide Decode, Encode, ValidSchema, FitsMessage, ItemsOk, ItemsBytes, ItemsOf, Apply, Merge, Shaped;
    var buf := Encode(fs, x, 0) + Encode(fs, y, 0);
    RecordsOf(fs, x);
    ItemsOfMessage(fs, y, 0, x);
    assert x[..0] + Merge(x, y)[0..] == Merge(x, y);
    ItemsConcat(fs, Empty(fs), ItemsOf(fs, x, 0), ItemsOf(fs, y, 0));
    WholeBuffer(buf);
    DecodesItems(fs, Empty(fs), ItemsOf(fs, x, 0) + ItemsOf(fs, y, 0), buf, 0);
  }

  /** The records of a message rebuild it. */
  lemma RecordsOf(fs: Schema, slots: seq<Slot>)
    requires ValidSchema(fs) && FitsMessage(fs, slots)
    ensures Shaped(fs, slots)
    ensures
      var items := ItemsOf(fs, slots, 0);
      && ItemsOk(fs, items)
      && ItemsBytes(items) == Encode(fs, slots, 0)
      && Apply(fs, Empty(fs), items) == slots
  {
    hide Encode, ItemsOk, ItemsBytes, ItemsOf, Apply, Merge, ValidSchema;
    assert forall k :: 0 <= k < |fs| ==> FitsSlot(fs[k], slots[k]);
    MergeIntoEmpty(fs, slots);
    ItemsOfMessage(fs, slots, 0, Empty(fs));
    assert Empty(fs)[..0] + slots[0..] == slots;
  }

  lemma WholeBuffer(buf: seq<u8>)
    ensures HasAt(buf, 0, buf)
  {
    assert buf[0..0 + |buf|] == buf;
  }

  /** Records of unknown fields removed, at every level of nesting. */
  function Strip(items: seq<Item>): seq<Item> {
    if items == [] then []
    else
      match items[0]
      case Leaf(_, _) => [items[0]] + Strip(items[1..])
      case Nested(tag, _, inner) => [Nested(tag, Varint(|ItemsBytes(Strip(inner))|), Strip(inner))] + Strip(items[1..])
      case Other(_, _) => Strip(items[1..])
  }

  lemma {:induction false} StripKeeps(fs: Schema, slots: seq<Slot>, items: seq<Item>)
    requires ItemsOk(fs, items) && |slots| == |fs|
    ensures ItemsOk(fs, Strip(items))
    ensures |ItemsBytes(Strip(items))| <= |ItemsBytes(items)|
    ensures Apply(fs, slots, Strip(items)) == Apply(fs, slots, items)
    decreases items, 1
  {
    hide ItemOk, ItemPayload, ApplyOne;
    if items != [] {
      var item, rest := items[0], items[1..];
      StripKeeps(fs, ApplyOne(fs, slots, item), rest);
      match item
      case Other(_, _) =>
        OtherIgnored(fs, slots, item);
      case Leaf(_, _) =>
        OneMoreItem(fs, slots, item, Strip(rest));
      case Nested(tag, _, inner) =>
        var item' := Nested(tag, Varint(|ItemsBytes(Strip(inner))|), Strip(inner));
        NestedStripped(fs, slots, item, item');
        OneMoreItem(fs, slots, item', Strip(rest));
    }
  }

  lemma OtherIgnored(fs: Schema, slots: seq<Slot>, item: Item)
    requires item.Other? && ItemOk(fs, item) && |slots| == |fs|
    ensures ApplyOne(fs, slots, item) == slots
  {
  }

  lemma {:induction false} NestedStripped(fs: Schema, slots: seq<Slot>, item: Item, item': Item)
    requires item.Nested? && ItemOk(fs, item) && |slots| == |fs|
    requires item' == Nested(item.tag, Varint(|ItemsBytes(Strip(item.items))|), Strip(item.items))
    ensures ItemOk(fs, item') && |ItemPayload(item')| <= |ItemPayload(item)|
    ensures ApplyOne(fs, slots, item') == ApplyOne(fs, slots, item)
    decreases item, 0
  {
    hide Varint, IsVarint, Number, Assign, ItemsOk, ItemsBytes, Strip, Apply, FieldOf, Empty;
    var fs' := fs[FieldOf(fs, item.tag)].kind.fields;
    var n, n' := |ItemsBytes(item.items)|, |ItemsBytes(Strip(item.items))|;
    StripKeeps(fs', Empty(fs'), item.items);
    NumberSmall(item.len);
    VarintIsVarint(n');
    NumberShortest(item.len);
    VarintMonotone(n', n);
  }

  lemma NumberSmall(s: seq<u8>)
    requires IsVarint(s)
    ensures Number(s) < TWO_32
  {
  }

  /** Well-formed records of unknown fields, inserted anywhere between the records of a message or of
      the messages inside it, do not change what is decoded. */
  lemma UnknownRecordsIgnored(fs: Schema, items: seq<Item>)
    requires ItemsOk(fs, items)
    ensures ItemsOk(fs, Strip(items))
    ensures
      var with, without := ItemsBytes(items), ItemsBytes(Strip(items));
      && DecodeAll(fs, with) == Ok(At(Apply(fs, Empty(fs), items), |with|))
      && DecodeAll(fs, without) == Ok(At(Apply(fs, Empty(fs), items), |without|))
  {
    hide Decode, Apply, ItemsBytes, Strip;
    StripKeeps(fs, Empty(fs), items);
    var with, without := ItemsBytes(items), ItemsBytes(Strip(items));
    WholeBuffer(with);
    WholeBuffer(without);
    DecodesItems(fs, Empty(fs), items, with, 0);
    DecodesItems(fs, Empty(fs), Strip(items), without, 0);
  }
}
