/** The streaming state both implementations keep for one hash instance, and what each of their
    operations does to it.  Blocks are compressed lazily: a full buffer waits for one more byte. */
module Streaming {
  import opened Words
  import opened Rfc7693

  /** b: block buffer, h: chain value, t: bytes compressed so far, c: bytes waiting in b. */
  datatype Ctx = Ctx(b: Block, h: Words8, t: nat, c: nat)

  type Stream = s: Ctx | s.c <= 128 witness Ctx(seq(128, _ => 0), seq(8, _ => 0), 0, 0)

  /** Makes room when the buffer is full. */
  function Flush(s: Stream): Stream {
    if s.c == 128 then Ctx(s.b, F(s.h, s.b, s.t + 128, false), s.t + 128, 0) else s
  }

  function AbsorbByte(s: Stream, x: u8): Stream {
    var s := Flush(s);
    s.(b := s.b[s.c := x], c := s.c + 1)
  }

  function Absorb(s: Stream, input: seq<u8>): Stream {
    if input == [] then s else AbsorbByte(Absorb(s, input[..|input| - 1]), input[|input| - 1])
  }

  /** The state after a digest was taken. */
  function Finish(s: Stream): Stream {
    var b := s.b[..s.c] + Zeros(128 - s.c);
    Ctx(b, F(s.h, b, s.t + s.c, true), s.t + s.c, 128)
  }
}
