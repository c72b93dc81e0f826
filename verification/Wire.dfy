/** The records of the Protocol Buffers encoding: base 128 varints, tags, length-delimited and fixed
    size payloads, and skipping records of unknown fields. */
module Wire {
  import opened Words
  import opened Wrappers

  datatype Error = IndexOutOfRange | InvalidVarint | InvalidWireType

  type ReadResult<T> = Result<T, Error>

  /** A value together with the position after it. */
  datatype At<+T> = At(value: T, pos: nat)

  // ----- Base 128 varints

  function Varint(n: nat): (s: seq<u8>)
    ensures |s| >= 1
  {
    if n < 128 then [n] else [128 + n % 128] + Varint(n / 128)
  }

  /** A varint of at most left bytes. */
  function ReadVarint(buf: seq<u8>, pos: nat, left: nat): (r: ReadResult<At<nat>>)
    ensures r.Ok? ==> pos < r.value.pos <= |buf|
    decreases left
  {
    if pos >= |buf| then Err(IndexOutOfRange)
    else if left == 0 then Err(InvalidVarint)
    else if buf[pos] < 128 then Ok(At(buf[pos], pos + 1))
    else
      var rest :- ReadVarint(buf, pos + 1, left - 1);
      Ok(At(buf[pos] - 128 + 128 * rest.value, rest.pos))
  }

  /** `reader.uint32()`: a varint of up to ten bytes, cut to 32 bits. */
  function ReadUint32(buf: seq<u8>, pos: nat): (r: ReadResult<At<nat>>)
    ensures r.Ok? ==> pos < r.value.pos <= |buf|
  {
    var v :- ReadVarint(buf, pos, 10);
    Ok(At(v.value % TWO_32, v.pos))
  }

  function ReadUint64(buf: seq<u8>, pos: nat): (r: ReadResult<At<nat>>)
    ensures r.Ok? ==> pos < r.value.pos <= |buf|
  {
    var v :- ReadVarint(buf, pos, 10);
    Ok(At(v.value % TWO_64, v.pos))
  }

  /** `reader.bytes()` */
  function ReadBytes(buf: seq<u8>, pos: nat): (r: ReadResult<At<seq<u8>>>)
    ensures r.Ok? ==> pos < r.value.pos <= |buf|
  {
    var n :- ReadUint32(buf, pos);
    if n.pos + n.value > |buf| then Err(IndexOutOfRange)
    else Ok(At(buf[n.pos..n.pos + n.value], n.pos + n.value))
  }

  // ----- Skipping

  function SkipVarint(buf: seq<u8>, pos: nat): (r: ReadResult<nat>)
    ensures r.Ok? ==> pos < r.value <= |buf|
    decreases |buf| - pos
  {
    if pos >= |buf| then Err(IndexOutOfRange)
    else if buf[pos] < 128 then Ok(pos + 1)
    else SkipVarint(buf, pos + 1)
  }

  function SkipFixed(buf: seq<u8>, pos: nat, n: nat): (r: ReadResult<nat>)
    ensures r.Ok? ==> r.value == pos + n <= |buf|
  {
    if pos + n > |buf| then Err(IndexOutOfRange) else Ok(pos + n)
  }

  /** `reader.skipType(wireType)`: the position after the payload of a record. */
  function SkipType(buf: seq<u8>, pos: nat, wireType: nat): (r: ReadResult<nat>)
    requires pos <= |buf|
    ensures r.Ok? ==> pos <= r.value <= |buf|
    decreases |buf| - pos, 1
  {
    match wireType
    case 0 => SkipVarint(buf, pos)
    case 1 => SkipFixed(buf, pos, 8)
    case 2 =>
      var n :- ReadUint32(buf, pos);
      SkipFixed(buf, n.pos, n.value)
    case 3 => SkipGroup(buf, pos)
    case 5 => SkipFixed(buf, pos, 4)
    case _ => Err(InvalidWireType)
  }

  /** Records up to the end-group tag. */
  function SkipGroup(buf: seq<u8>, pos: nat): (r: ReadResult<nat>)
    requires pos <= |buf|
    ensures r.Ok? ==> pos <= r.value <= |buf|
    decreases |buf| - pos, 0
  {
    var tag :- ReadUint32(buf, pos);
    if tag.value % 8 == 4 then Ok(tag.pos)
    else
      var p :- SkipType(buf, tag.pos, tag.value % 8);
      SkipGroup(buf, p)
  }

  // ----- Reading back what was written

  /** The bytes s stand in buf at pos. */
  predicate HasAt(buf: seq<u8>, pos: nat, s: seq<u8>) {
    pos + |s| <= |buf| && buf[pos..pos + |s|] == s
  }

  lemma HasAtSplit(buf: seq<u8>, pos: nat, s: seq<u8>, s': seq<u8>)
    requires HasAt(buf, pos, s + s')
    ensures HasAt(buf, pos, s) && HasAt(buf, pos + |s|, s')
  {
    var w := buf[pos..pos + |s + s'|];
    assert buf[pos..pos + |s|] == w[..|s|];
    assert buf[pos + |s|..pos + |s| + |s'|] == w[|s|..];
  }

  function Pow128(k: nat): (p: nat)
    ensures p > 0
  {
    if k == 0 then 1 else 128 * Pow128(k - 1)
  }

  /** A varint is read back exactly when it fits in the bytes allowed. */
  lemma {:induction false} VarintRoundTrip(buf: seq<u8>, pos: nat, n: nat, left: nat)
    requires HasAt(buf, pos, Varint(n)) && left > 0 && n < Pow128(left)
    ensures ReadVarint(buf, pos, left) == Ok(At(n, pos + |Varint(n)|))
    decreases left
  {
    var s := Varint(n);
    assert buf[pos] == buf[pos..pos + |s|][0] == s[0];
    if n >= 128 {
      HasAtSplit(buf, pos, [128 + n % 128], Varint(n / 128));
      VarintRoundTrip(buf, pos + 1, n / 128, left - 1);
    }
  }

  lemma Fits64(n: nat)
    requires n < TWO_64
    ensures n < Pow128(10)
  {
    assert Pow128(4) == 0x1000_0000;
    assert Pow128(10) == 128 * (128 * (128 * (128 * (128 * (128 * Pow128(4))))));
  }

  lemma {:induction false} SkipsVarint(buf: seq<u8>, pos: nat, n: nat)
    requires HasAt(buf, pos, Varint(n))
    ensures SkipVarint(buf, pos) == Ok(pos + |Varint(n)|)
    decreases n
  {
    var s := Varint(n);
    assert buf[pos] == buf[pos..pos + |s|][0] == s[0];
    if n >= 128 {
      HasAtSplit(buf, pos, [128 + n % 128], Varint(n / 128));
      SkipsVarint(buf, pos + 1, n / 128);
    }
  }

  lemma Uint32RoundTrip(buf: seq<u8>, pos: nat, n: nat)
    requires HasAt(buf, pos, Varint(n)) && n < TWO_32
    ensures ReadUint32(buf, pos) == Ok(At(n, pos + |Varint(n)|))
  {
    hide ReadVarint, Varint, Pow128, HasAt;
    Fits64(n);
    VarintRoundTrip(buf, pos, n, 10);
  }

  // ----- Reading from a part of a buffer

  /** What a read gives in the part of a buffer between lo and n, against the same read in the whole
      buffer: the same value and place, if and only if the whole read does not go past n. */
  ghost predicate Window<T>(part: ReadResult<At<T>>, whole: ReadResult<At<T>>, lo: nat, n: nat) {
    && (part.Ok? <==> whole.Ok? && whole.value.pos <= n)
    && (part.Ok? ==> whole.value == At(part.value.value, lo + part.value.pos))
  }

  ghost predicate WindowSkip(part: ReadResult<nat>, whole: ReadResult<nat>, lo: nat, n: nat) {
    && (part.Ok? <==> whole.Ok? && whole.value <= n)
    && (part.Ok? ==> whole.value == lo + part.value)
  }

  lemma {:induction false} VarintWindow(buf: seq<u8>, lo: nat, n: nat, i: nat, left: nat)
    requires lo + i <= n <= |buf|
    ensures Window(ReadVarint(buf[lo..n], i, left), ReadVarint(buf, lo + i, left), lo, n)
    decreases left
  {
    if lo + i < n && left > 0 && buf[lo + i] >= 128 {
      VarintWindow(buf, lo, n, i + 1, left - 1);
    }
  }

  lemma Uint32Window(buf: seq<u8>, lo: nat, n: nat, i: nat)
    requires lo + i <= n <= |buf|
    ensures Window(ReadUint32(buf[lo..n], i), ReadUint32(buf, lo + i), lo, n)
  {
    hide ReadVarint;
    VarintWindow(buf, lo, n, i, 10);
  }

  lemma Uint64Window(buf: seq<u8>, lo: nat, n: nat, i: nat)
    requires lo + i <= n <= |buf|
    ensures Window(ReadUint64(buf[lo..n], i), ReadUint64(buf, lo + i), lo, n)
  {
    hide ReadVarint;
    VarintWindow(buf, lo, n, i, 10);
  }

  lemma SliceOfSlice(buf: seq<u8>, lo: nat, n: nat, p: nat, m: nat)
    requires lo + p + m <= n <= |buf|
    ensures buf[lo..n][p..p + m] == buf[lo + p..lo + p + m]
  {
    var part := buf[lo..n];
    var l, r := part[p..p + m], buf[lo + p..lo + p + m];
    forall k | 0 <= k < m
      ensures l[k] == r[k]
    {
      assert part[p + k] == buf[lo + p + k];
    }
  }

  lemma BytesWindow(buf: seq<u8>, lo: nat, n: nat, i: nat)
    requires lo + i <= n <= |buf|
    ensures Window(ReadBytes(buf[lo..n], i), ReadBytes(buf, lo + i), lo, n)
  {
    hide ReadUint32;
    Uint32Window(buf, lo, n, i);
    var part := ReadUint32(buf[lo..n], i);
    if part.Ok? && part.value.pos + part.value.value <= n - lo {
      var p, m := part.value.pos, part.value.value;
      SliceOfSlice(buf, lo, n, p, m);
    }
  }

  lemma {:induction false} SkipVarintWindow(buf: seq<u8>, lo: nat, n: nat, i: nat)
    requires lo + i <= n <= |buf|
    ensures WindowSkip(SkipVarint(buf[lo..n], i), SkipVarint(buf, lo + i), lo, n)
    decreases n - i
  {
    if lo + i < n && buf[lo + i] >= 128 {
      SkipVarintWindow(buf, lo, n, i + 1);
    }
  }

  lemma {:induction false} SkipTypeWindow(buf: seq<u8>, lo: nat, n: nat, i: nat, wireType: nat)
    requires lo + i <= n <= |buf|
    ensures WindowSkip(SkipType(buf[lo..n], i, wireType), SkipType(buf, lo + i, wireType), lo, n)
    decreases n - i, 1
  {
    hide ReadUint32, SkipVarint, SkipGroup;
    match wireType
    case 0 => SkipVarintWindow(buf, lo, n, i);
    case 2 => Uint32Window(buf, lo, n, i);
    case 3 => SkipGroupWindow(buf, lo, n, i);
    case _ =>
  }

  lemma {:induction false} SkipGroupWindow(buf: seq<u8>, lo: nat, n: nat, i: nat)
    requires lo + i <= n <= |buf|
    ensures WindowSkip(SkipGroup(buf[lo..n], i), SkipGroup(buf, lo + i), lo, n)
    decreases n - i, 0
  {
    hide ReadUint32, SkipType;
    Uint32Window(buf, lo, n, i);
    var part := ReadUint32(buf[lo..n], i);
    if part.Ok? && part.value.value % 8 != 4 {
      var p := part.value.pos;
      SkipTypeWindow(buf, lo, n, p, part.value.value % 8);
      var skipped := SkipType(buf[lo..n], p, part.value.value % 8);
      if skipped.Ok? {
        SkipGroupWindow(buf, lo, n, skipped.value);
      }
    }
  }

  // ----- Encodings of numbers that need not be minimal

  /** The bytes are a varint, of any length a reader accepts. */
  predicate IsVarint(s: seq<u8>) {
    ReadUint32(s, 0).Ok? && ReadUint32(s, 0).value.pos == |s|
  }

  /** The number it is read as. */
  function Number(s: seq<u8>): nat
    requires IsVarint(s)
  {
    ReadUint32(s, 0).value.value
  }

  lemma NumberRead(buf: seq<u8>, pos: nat, s: seq<u8>)
    requires IsVarint(s) && HasAt(buf, pos, s)
    ensures ReadUint32(buf, pos) == Ok(At(Number(s), pos + |s|))
  {
    hide ReadUint32;
    Uint32Window(buf, pos, pos + |s|, 0);
  }

  lemma VarintIsVarint(n: nat)
    requires n < TWO_32
    ensures IsVarint(Varint(n)) && Number(Varint(n)) == n
  {
    hide ReadUint32, Varint;
    assert Varint(n)[0..0 + |Varint(n)|] == Varint(n);
    Uint32RoundTrip(Varint(n), 0, n);
  }

  lemma {:induction false} VarintMonotone(m: nat, n: nat)
    requires m <= n
    ensures |Varint(m)| <= |Varint(n)|
    decreases n
  {
    if m >= 128 {
      VarintMonotone(m / 128, n / 128);
    }
  }

  /** No encoding of a number is shorter than the one the writer uses. */
  lemma {:induction false} VarintShortest(buf: seq<u8>, pos: nat, left: nat)
    requires ReadVarint(buf, pos, left).Ok?
    ensures var r := ReadVarint(buf, pos, left).value; |Varint(r.value)| <= r.pos - pos
    decreases left
  {
    if buf[pos] >= 128 {
      VarintShortest(buf, pos + 1, left - 1);
      var v := ReadVarint(buf, pos + 1, left - 1).value.value;
      var low: nat := buf[pos] - 128;
      assert (low + 128 * v) / 128 == v;
      assert |Varint(low + 128 * v)| <= 1 + |Varint(v)|;
    }
  }

  lemma NumberShortest(s: seq<u8>)
    requires IsVarint(s)
    ensures |Varint(Number(s))| <= |s|
  {
    hide Varint, ReadVarint;
    VarintShortest(s, 0, 10);
    VarintMonotone(Number(s), ReadVarint(s, 0, 10).value.value);
  }

  // ----- Records of unknown fields

  /** A record of any field, with its tag as it stands; the body of a group is records again. */
  datatype Unknown = UVarint(tag: seq<u8>, digits: seq<u8>)
                   | UFixed64(tag: seq<u8>, bytes: seq<u8>)
                   | ULen(tag: seq<u8>, len: seq<u8>, bytes: seq<u8>)
                   | UGroup(tag: seq<u8>, body: seq<Unknown>, endTag: seq<u8>)
                   | UFixed32(tag: seq<u8>, bytes: seq<u8>)

  const MAX_FIELD: nat := 0x2000_0000

  predicate WellFormed(u: Unknown) {
    && IsVarint(u.tag) && Number(u.tag) % 8 == WireType(u)
    && match u
       case UVarint(_, digits) => SkipVarint(digits, 0) == Ok(|digits|)
       case UFixed64(_, bytes) => |bytes| == 8
       case ULen(_, len, bytes) => IsVarint(len) && Number(len) == |bytes|
       case UGroup(_, body, endTag) => IsVarint(endTag) && Number(endTag) % 8 == 4 && AllWellFormed(body)
       case UFixed32(_, bytes) => |bytes| == 4
  }

  predicate AllWellFormed(us: seq<Unknown>) {
    us == [] || (WellFormed(us[0]) && AllWellFormed(us[1..]))
  }

  function WireType(u: Unknown): nat {
    match u
    case UVarint(_, _) => 0
    case UFixed64(_, _) => 1
    case ULen(_, _, _) => 2
    case UGroup(_, _, _) => 3
    case UFixed32(_, _) => 5
  }

  function Payload(u: Unknown): seq<u8>
    decreases u, 0
  {
    match u
    case UVarint(_, digits) => digits
    case UFixed64(_, bytes) => bytes
    case ULen(_, len, bytes) => len + bytes
    case UGroup(_, body, endTag) => Records(body) + endTag
    case UFixed32(_, bytes) => bytes
  }

  function Record(u: Unknown): seq<u8>
    decreases u, 1
  {
    u.tag + Payload(u)
  }

  function Records(us: seq<Unknown>): seq<u8>
    decreases us, 0
  {
    if us == [] then [] else Record(us[0]) + Records(us[1..])
  }

  /** Skipping by wire type passes exactly over the payload. */
  lemma {:induction false} SkipsPayload(buf: seq<u8>, pos: nat, u: Unknown)
    requires WellFormed(u) && HasAt(buf, pos, Payload(u))
    ensures SkipType(buf, pos, WireType(u)) == Ok(pos + |Payload(u)|)
    decreases u, 1
  {
    hide ReadUint32, SkipVarint;
    match u
    case UVarint(_, digits) =>
      SkipVarintWindow(buf, pos, pos + |digits|, 0);
    case UFixed64(_, _) =>
    case ULen(_, len, bytes) =>
      HasAtSplit(buf, pos, len, bytes);
      NumberRead(buf, pos, len);
    case UGroup(_, body, endTag) => SkipsGroup(buf, pos, body, endTag);
    case UFixed32(_, _) =>
  }

  lemma SkipGroupStep(buf: seq<u8>, pos: nat, tag: nat, p: nat, p': nat)
    requires pos <= |buf| && ReadUint32(buf, pos) == Ok(At(tag, p)) && tag % 8 != 4
    requires SkipType(buf, p, tag % 8) == Ok(p')
    ensures SkipGroup(buf, pos) == SkipGroup(buf, p')
  {
  }

  lemma {:induction false} SkipsGroup(buf: seq<u8>, pos: nat, body: seq<Unknown>, endTag: seq<u8>)
    requires AllWellFormed(body) && IsVarint(endTag) && Number(endTag) % 8 == 4
    requires HasAt(buf, pos, Records(body) + endTag)
    ensures SkipGroup(buf, pos) == Ok(pos + |Records(body)| + |endTag|)
    decreases body, 0
  {
    hide ReadUint32, SkipType, Payload, HasAt, WellFormed, IsVarint, Number;
    HasAtSplit(buf, pos, Records(body), endTag);
    if body == [] {
      NumberRead(buf, pos, endTag);
    } else {
      hide SkipGroup, WireType;
      var u := body[0];
      TagOf(u);
      assert Records(body) + endTag == Record(u) + (Records(body[1..]) + endTag);
      HasAtSplit(buf, pos, Record(u), Records(body[1..]) + endTag);
      HasAtSplit(buf, pos, u.tag, Payload(u));
      NumberRead(buf, pos, u.tag);
      SkipsPayload(buf, pos + |u.tag|, u);
      SkipsGroup(buf, pos + |Record(u)|, body[1..], endTag);
      SkipGroupStep(buf, pos, Number(u.tag), pos + |u.tag|, pos + |Record(u)|);
    }
  }

  lemma TagOf(u: Unknown)
    requires WellFormed(u)
    ensures IsVarint(u.tag) && Number(u.tag) % 8 == WireType(u) != 4
  {
  }
}
