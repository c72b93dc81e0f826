/** Messages, their schemas, and what the generated `encode` and `decode` functions compute.  One
    encoder and one decoder, driven by a schema, stand for the functions generated per message:
    those differ only in field numbers, names and types. */
module Codec {
  import opened Words
  import opened Wrappers
  import opened Wire

  // ----- Schemas and messages

  datatype Kind = TString | TBytes | TBool | TInt32 | TInt64 | TUint64 | TMessage(fields: seq<Desc>)

  datatype Desc = Desc(num: nat, kind: Kind, repeated: bool)

  type Schema = seq<Desc>

  /** Strings are kept as their bytes. */
  datatype Value = VBytes(s: seq<u8>) | VInt(n: int) | VBool(b: bool) | VMessage(slots: seq<Slot>)

  /** A field of a message: not set, set, or a list. */
  datatype Slot = Absent | One(v: Value) | Many(vs: seq<Value>)

  /** A new message: nothing set, repeated fields empty. */
  function Empty(fs: Schema): (slots: seq<Slot>)
    ensures |slots| == |fs|
  {
    seq(|fs|, k requires 0 <= k < |fs| => if fs[k].repeated then Many([]) else Absent)
  }

  function WireOf(kind: Kind): nat {
    match kind
    case TString => 2
    case TBytes => 2
    case TMessage(_) => 2
    case _ => 0
  }

  /** Field numbers are distinct and in range, and only length-delimited fields repeat. */
  predicate ValidSchema(fs: Schema)
    decreases fs, 1
  {
    && (forall k :: 0 <= k < |fs| ==> ValidDesc(fs[k]))
    && (forall k, l :: 0 <= k < l < |fs| ==> fs[k].num != fs[l].num)
  }

  predicate ValidDesc(d: Desc)
    decreases d
  {
    && 1 <= d.num < MAX_FIELD
    && (d.repeated ==> WireOf(d.kind) == 2)
    && (d.kind.TMessage? ==> ValidSchema(d.kind.fields))
  }

  // ----- Encoding

  /** The value is of the kind and in its range. */
  predicate Fits(kind: Kind, v: Value)
    decreases kind, 0
  {
    match kind
    case TBool => v.VBool?
    case TInt32 => v.VInt? && -0x8000_0000 <= v.n < 0x8000_0000
    case TInt64 => v.VInt? && -0x8000_0000_0000_0000 <= v.n < 0x8000_0000_0000_0000
    case TUint64 => v.VInt? && 0 <= v.n < TWO_64
    case TMessage(fs) => v.VMessage? && FitsMessage(fs, v.slots) && |Encode(fs, v.slots, 0)| < TWO_32
    case _ => v.VBytes? && |v.s| < TWO_32
  }

  predicate FitsSlot(d: Desc, slot: Slot)
    decreases d, 0
  {
    if d.repeated then slot.Many? && forall j :: 0 <= j < |slot.vs| ==> Fits(d.kind, slot.vs[j])
    else slot.Absent? || (slot.One? && Fits(d.kind, slot.v))
  }

  predicate FitsMessage(fs: Schema, slots: seq<Slot>)
    decreases fs, 0
  {
    |slots| == |fs| && forall k :: 0 <= k < |fs| ==> FitsSlot(fs[k], slots[k])
  }

  function Tag(d: Desc): seq<u8> {
    Varint(8 * d.num + WireOf(d.kind))
  }

  /** Negative 32-bit numbers are written as 64-bit ones. */
  function EncodeInt(n: int): seq<u8> {
    Varint(n % TWO_64)
  }

  function EncodeValue(kind: Kind, v: Value): seq<u8>
    requires Fits(kind, v)
    decreases kind, 1
  {
    match kind
    case TBool => Varint(if v.b then 1 else 0)
    case TInt32 => EncodeInt(v.n)
    case TInt64 => EncodeInt(v.n)
    case TUint64 => EncodeInt(v.n)
    case TMessage(fs) =>
      var body := Encode(fs, v.slots, 0);
      Varint(|body|) + body
    case _ => Varint(|v.s|) + v.s
  }

  function EncodeMany(d: Desc, vs: seq<Value>): seq<u8>
    requires forall j :: 0 <= j < |vs| ==> Fits(d.kind, vs[j])
    decreases d, 1, |vs|
  {
    if vs == [] then [] else Tag(d) + EncodeValue(d.kind, vs[0]) + EncodeMany(d, vs[1..])
  }

  function EncodeSlot(d: Desc, slot: Slot): seq<u8>
    requires FitsSlot(d, slot)
    decreases d, 2
  {
    match slot
    case Absent => []
    case One(v) => Tag(d) + EncodeValue(d.kind, v)
    case Many(vs) => EncodeMany(d, vs)
  }

  /** `encode`: the fields from number k of the schema on, in order. */
  function Encode(fs: Schema, slots: seq<Slot>, k: nat): seq<u8>
    requires FitsMessage(fs, slots) && k <= |fs|
    decreases fs, 1, |fs| - k
  {
    if k == |fs| then [] else EncodeSlot(fs[k], slots[k]) + Encode(fs, slots, k + 1)
  }

  // ----- Decoding

  /** The place of a field number in the schema, or |fs|. */
  function Find(fs: Schema, num: nat): (k: nat)
    ensures k <= |fs|
    ensures k < |fs| ==> fs[k].num == num
    ensures forall j :: 0 <= j < k ==> fs[j].num != num
  {
    if fs == [] || fs[0].num == num then 0 else 1 + Find(fs[1..], num)
  }

  /** A repeated field is appended to; any other field is overwritten. */
  function Assign(fs: Schema, slots: seq<Slot>, k: nat, v: Value): (r: seq<Slot>)
    requires k < |fs| == |slots|
    ensures |r| == |slots|
  {
    slots[k := if !fs[k].repeated then One(v) else if slots[k].Many? then Many(slots[k].vs + [v]) else Many([v])]
  }

  function Signed(n: nat, width: nat): int {
    if 2 * n >= width then n - width else n
  }

  function ReadValue(kind: Kind, buf: seq<u8>, pos: nat): (r: ReadResult<At<Value>>)
    requires pos <= |buf|
    ensures r.Ok? ==> pos <= r.value.pos <= |buf|
    decreases kind
  {
    match kind
    case TBool =>
      var n :- ReadUint32(buf, pos);
      Ok(At(VBool(n.value != 0), n.pos))
    case TInt32 =>
      var n :- ReadUint32(buf, pos);
      Ok(At(VInt(Signed(n.value, TWO_32)), n.pos))
    case TInt64 =>
      var n :- ReadUint64(buf, pos);
      Ok(At(VInt(Signed(n.value, TWO_64)), n.pos))
    case TUint64 =>
      var n :- ReadUint64(buf, pos);
      Ok(At(VInt(n.value), n.pos))
    case TMessage(fs) =>
      var n :- ReadUint32(buf, pos);
      var m :- Decode(fs, Empty(fs), buf, n.pos, n.pos + n.value);
      Ok(At(VMessage(m.value), m.pos))
    case _ =>
      var s :- ReadBytes(buf, pos);
      Ok(At(VBytes(s.value), s.pos))
  }

  function ReadField(d: Desc, buf: seq<u8>, pos: nat): (r: ReadResult<At<Value>>)
    requires pos <= |buf|
    ensures r.Ok? ==> pos <= r.value.pos <= |buf|
    decreases d
  {
    ReadValue(d.kind, buf, pos)
  }

  /** `decode`: records are read until pos reaches end.  A field is recognized by its number alone;
      records with other numbers are skipped by wire type. */
  function Decode(fs: Schema, slots: seq<Slot>, buf: seq<u8>, pos: nat, end: nat): (r: ReadResult<At<seq<Slot>>>)
    requires |slots| == |fs| && pos <= |buf|
    ensures r.Ok? ==> pos <= r.value.pos <= |buf| && end <= r.value.pos && |r.value.value| == |fs|
    decreases fs, |buf| - pos
  {
    if pos >= end then Ok(At(slots, pos))
    else
      var tag :- ReadUint32(buf, pos);
      var k := Find(fs, tag.value / 8);
      if k < |fs| then
        var v :- ReadField(fs[k], buf, tag.pos);
        Decode(fs, Assign(fs, slots, k, v.value), buf, v.pos, end)
      else
        var p :- SkipType(buf, tag.pos, tag.value % 8);
        Decode(fs, slots, buf, p, end)
  }

  /** Decoding a whole buffer. */
  function DecodeAll(fs: Schema, buf: seq<u8>): ReadResult<At<seq<Slot>>> {
    Decode(fs, Empty(fs), buf, 0, |buf|)
  }
}
