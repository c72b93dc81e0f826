/** The reader and writer objects and the imperative `encode` and `decode`: a writer whose buffer
    grows and forks, a reader whose position moves forward. */
module Protobuf {
  import opened Words
  import opened Wrappers
  import opened Wire
  import opened Codec

  class Writer {
    var buf: seq<u8>
    /** The buffers set aside by `fork`. */
    var forks: seq<seq<u8>>

    constructor ()
      ensures buf == [] && forks == []
    {
      buf := [];
      forks := [];
    }

    method Varint64(n: nat)
      modifies this`buf
      ensures buf == old(buf) + Varint(n)
    {
      var rest := n;
      while rest >= 128
        invariant buf + Varint(rest) == old(buf) + Varint(n)
      {
        assert Varint(rest) == [128 + rest % 128] + Varint(rest / 128);
        buf := buf + [128 + rest % 128];
        rest := rest / 128;
      }
      buf := buf + [rest];
    }

    method Bytes(s: seq<u8>)
      modifies this`buf
      ensures buf == old(buf) + (Varint(|s|) + s)
    {
      Varint64(|s|);
      buf := buf + s;
    }

    /** `fork()`: starts an empty buffer for a nested message. */
    method Fork()
      modifies this
      ensures buf == [] && forks == old(forks) + [old(buf)]
    {
      forks := forks + [buf];
      buf := [];
    }

    /** `ldelim()`: goes back to the buffer set aside and appends the nested one after its length. */
    method Ldelim()
      requires forks != []
      modifies this
      ensures forks == old(forks)[..|old(forks)| - 1]
      ensures buf == old(forks)[|old(forks)| - 1] + (Varint(|old(buf)|) + old(buf))
    {
      var nested := buf;
      buf := forks[|forks| - 1];
      forks := forks[..|forks| - 1];
      Bytes(nested);
    }

    method Value(kind: Kind, v: Codec.Value)
      requires Fits(kind, v)
      modifies this
      ensures buf == old(buf) + EncodeValue(kind, v) && forks == old(forks)
      decreases kind, 0
    {
      match kind
      case TBool => Varint64(if v.b then 1 else 0);
      case TInt32 => Varint64(v.n % TWO_64);
      case TInt64 => Varint64(v.n % TWO_64);
      case TUint64 => Varint64(v.n);
      case TString => Bytes(v.s);
      case TBytes => Bytes(v.s);
      case TMessage(fs) =>
        Fork();
        Message(fs, v.slots);
        Ldelim();
    }

    method Field(d: Desc, v: Codec.Value)
      requires Fits(d.kind, v)
      modifies this
      ensures buf == old(buf) + (Tag(d) + EncodeValue(d.kind, v)) && forks == old(forks)
      decreases d, 0
    {
      Varint64(8 * d.num + WireOf(d.kind));
      Value(d.kind, v);
    }

    /** The part of `encode` for one field: nothing if it is not set, one record if it is, one record
        for each element of a list. */
    method FieldSlot(d: Desc, slot: Slot)
      requires FitsSlot(d, slot)
      modifies this
      ensures buf == old(buf) + EncodeSlot(d, slot) && forks == old(forks)
      decreases d, 1
    {
      hide EncodeValue, Tag, Fits;
      match slot
      case Absent =>
        assert buf + [] == buf;
      case One(v) =>
        Field(d, v);
      case Many(vs) =>
        for i := 0 to |vs|
          invariant forks == old(forks)
          invariant buf + EncodeMany(d, vs[i..]) == old(buf) + EncodeMany(d, vs)
        {
          assert vs[i..][1..] == vs[i + 1..];
          Field(d, vs[i]);
        }
        assert vs[|vs|..] == [];
    }

    /** `encode(message, writer)` */
    method Message(fs: Schema, slots: seq<Slot>)
      requires FitsMessage(fs, slots)
      modifies this
      ensures buf == old(buf) + Encode(fs, slots, 0) && forks == old(forks)
      decreases fs, 0
    {
      hide EncodeSlot, FitsSlot;
      for k := 0 to |fs|
        invariant forks == old(forks)
        invariant buf + Encode(fs, slots, k) == old(buf) + Encode(fs, slots, 0)
      {
        FieldSlot(fs[k], slots[k]);
      }
    }
  }

  /** What a read must do to the reader's position, given the function that says what it reads. */
  ghost predicate Reads<T>(spec: ReadResult<At<T>>, r: ReadResult<T>, pos: nat) {
    match spec
    case Ok(a) => r == Ok(a.value) && pos == a.pos
    case Err(e) => r == Err(e)
  }

  class Reader {
    const buf: seq<u8>
    var pos: nat

    ghost predicate Valid()
      reads this
    {
      pos <= |buf|
    }

    constructor (buf: seq<u8>)
      ensures Valid() && this.buf == buf && pos == 0
    {
      this.buf := buf;
      pos := 0;
    }

    /** A varint of up to ten bytes. */
    method ReadVar() returns (r: ReadResult<nat>)
      requires Valid()
      modifies this
      ensures Valid() && Reads(ReadVarint(buf, old(pos), 10), r, pos)
    {
      var value: nat, scale: nat, left: nat := 0, 1, 10;
      while left > 0 && pos < |buf| && buf[pos] >= 128
        invariant Valid() && 0 <= left <= 10 && scale > 0
        invariant ReadVarint(buf, old(pos), 10) == Shifted(value, scale, ReadVarint(buf, pos, left))
        decreases left
      {
        hide ReadVarint, Shifted;
        var digit: nat := buf[pos] - 128;
        OneByteMore(buf, pos, left, value, scale);
        value := value + scale * digit;
        scale := scale * 128;
        pos := pos + 1;
        left := left - 1;
      }
      if pos >= |buf| {
        return Err(IndexOutOfRange);
      }
      if left == 0 {
        return Err(InvalidVarint);
      }
      var last: nat := buf[pos];
      value := value + scale * last;
      pos := pos + 1;
      return Ok(value);
    }

    /** `uint32()` */
    method Uint32() returns (r: ReadResult<nat>)
      requires Valid()
      modifies this
      ensures Valid() && Reads(ReadUint32(buf, old(pos)), r, pos)
    {
      var n :- ReadVar();
      return Ok(n % TWO_32);
    }

    method Uint64() returns (r: ReadResult<nat>)
      requires Valid()
      modifies this
      ensures Valid() && Reads(ReadUint64(buf, old(pos)), r, pos)
    {
      var n :- ReadVar();
      return Ok(n % TWO_64);
    }

    /** `bytes()` */
    method Bytes() returns (r: ReadResult<seq<u8>>)
      requires Valid()
      modifies this
      ensures Valid() && Reads(ReadBytes(buf, old(pos)), r, pos)
    {
      var n :- Uint32();
      if pos + n > |buf| {
        return Err(IndexOutOfRange);
      }
      var s := buf[pos..pos + n];
      pos := pos + n;
      return Ok(s);
    }

    /** `skip(length)` */
    method Skip(n: nat) returns (r: ReadResult<()>)
      requires Valid()
      modifies this
      ensures Valid() && Moves(SkipFixed(buf, old(pos), n), r, pos)
    {
      if pos + n > |buf| {
        return Err(IndexOutOfRange);
      }
      pos := pos + n;
      return Ok(());
    }

    /** `skip()` */
    method SkipVar() returns (r: ReadResult<()>)
      requires Valid()
      modifies this
      ensures Valid() && Moves(SkipVarint(buf, old(pos)), r, pos)
    {
      while pos < |buf| && buf[pos] >= 128
        invariant Valid() && SkipVarint(buf, old(pos)) == SkipVarint(buf, pos)
        decreases |buf| - pos
      {
        pos := pos + 1;
      }
      if pos >= |buf| {
        return Err(IndexOutOfRange);
      }
      pos := pos + 1;
      return Ok(());
    }

    /** `skipType(wireType)` */
    method SkipRecord(wireType: nat) returns (r: ReadResult<()>)
      requires Valid()
      modifies this
      ensures Valid() && Moves(SkipType(buf, old(pos), wireType), r, pos)
      decreases |buf| - pos
    {
      match wireType
      case 0 => r := SkipVar();
      case 1 => r := Skip(8);
      case 2 =>
        var n :- Uint32();
        r := Skip(n);
      case 3 =>
        assert SkipType(buf, old(pos), wireType) == SkipGroup(buf, old(pos));
        var tag :- Uint32();
        while tag % 8 != 4
          invariant old(pos) < pos <= |buf|
          invariant SkipGroup(buf, old(pos)) == AfterTag(buf, pos, tag)
          decreases |buf| - pos
        {
          var u :- SkipRecord(tag % 8);
          tag :- Uint32();
        }
        return Ok(());
      case 5 => r := Skip(4);
      case _ => r := Err(InvalidWireType);
    }

    /** The read a field's kind calls for. */
    method Value(kind: Kind) returns (r: ReadResult<Codec.Value>)
      requires Valid()
      modifies this
      ensures Valid() && Reads(ReadValue(kind, buf, old(pos)), r, pos)
      decreases kind, 0
    {
      match kind
      case TBool =>
        var n :- Uint32();
        return Ok(VBool(n != 0));
      case TInt32 =>
        var n :- Uint32();
        return Ok(VInt(Signed(n, TWO_32)));
      case TInt64 =>
        var n :- Uint64();
        return Ok(VInt(Signed(n, TWO_64)));
      case TUint64 =>
        var n :- Uint64();
        return Ok(VInt(n));
      case TString =>
        var s :- Bytes();
        return Ok(VBytes(s));
      case TBytes =>
        var s :- Bytes();
        return Ok(VBytes(s));
      case TMessage(fs) =>
        var n :- Uint32();
        var slots :- Message(fs, Some(n));
        return Ok(VMessage(slots));
    }

    method Field(d: Desc) returns (r: ReadResult<Codec.Value>)
      requires Valid()
      modifies this
      ensures Valid() && Reads(ReadField(d, buf, old(pos)), r, pos)
      decreases d, 0
    {
      r := Value(d.kind);
    }

    /** `decode(reader, length)` */
    method Message(fs: Schema, length: Option<nat>) returns (r: ReadResult<seq<Slot>>)
      requires Valid()
      modifies this
      ensures Valid()
      ensures
        var end := if length.None? then |buf| else old(pos) + length.value;
        Reads(Decode(fs, Empty(fs), buf, old(pos), end), r, pos)
      decreases fs, 0
    {
      hide ReadField, SkipType, ReadUint32, Assign;
      var end := if length.None? then |buf| else pos + length.value;
      var message := Empty(fs);
      while pos < end
        invariant Valid() && |message| == |fs|
        invariant Decode(fs, Empty(fs), buf, old(pos), end) == Decode(fs, message, buf, pos, end)
        decreases |buf| - pos
      {
        var tag :- Uint32();
        var k := Find(fs, tag / 8);
        if k < |fs| {
          var v :- Field(fs[k]);
          message := Assign(fs, message, k, v);
        } else {
          var u :- SkipRecord(tag % 8);
        }
      }
      return Ok(message);
    }
  }

  ghost predicate Moves(spec: ReadResult<nat>, r: ReadResult<()>, pos: nat) {
    match spec
    case Ok(p) => r == Ok(()) && pos == p
    case Err(e) => r == Err(e)
  }

  /** The rest of a group once its next tag was read. */
  ghost function AfterTag(buf: seq<u8>, pos: nat, tag: nat): ReadResult<nat>
    requires pos <= |buf|
  {
    if tag % 8 == 4 then Ok(pos)
    else
      var p :- SkipType(buf, pos, tag % 8);
      SkipGroup(buf, p)
  }

  /** A varint whose low bits are already known. */
  ghost function Shifted(value: nat, scale: nat, rest: ReadResult<At<nat>>): ReadResult<At<nat>> {
    match rest
    case Ok(a) => Ok(At(value + scale * a.value, a.pos))
    case Err(e) => Err(e)
  }

  /** One byte of a varint that goes on. */
  lemma OneByteMore(buf: seq<u8>, pos: nat, left: nat, value: nat, scale: nat)
    requires left > 0 && pos < |buf| && buf[pos] >= 128
    ensures
      var digit: nat := buf[pos] - 128;
      Shifted(value, scale, ReadVarint(buf, pos, left))
      == Shifted(value + scale * digit, scale * 128, ReadVarint(buf, pos + 1, left - 1))
  {
    var digit: nat := buf[pos] - 128;
    var rest := ReadVarint(buf, pos + 1, left - 1);
    if rest.Ok? {
      ShiftedDigit(value, scale, digit, rest.value.value);
    }
  }

  lemma ShiftedDigit(value: nat, scale: nat, digit: nat, n: nat)
    ensures value + scale * (digit + 128 * n) == (value + scale * digit) + (scale * 128) * n
  {
    assert scale * (digit + 128 * n) == scale * digit + scale * (128 * n);
    assert scale * (128 * n) == (scale * 128) * n;
  }
}
