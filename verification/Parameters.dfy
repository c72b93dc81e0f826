/** The parameter block of a hash instance and the checks on what goes into it. */
module Parameters {
  import opened Words
  import opened Wrappers
  import opened Rfc7693

  datatype Error = BadOutputLength | BadKeyLength | BadSaltLength | BadPersonalLength
                 | Overrun | OutputTooSmall | Finalized

  type HashResult<T> = Result<T, Error>

  /** The assertions at the top of `createHash` and of the WASM constructor. */
  function Check(outlen: nat, key: Option<seq<u8>>, salt: Option<seq<u8>>, personal: Option<seq<u8>>): Option<Error> {
    if outlen < 16 || outlen > 64 then Some(BadOutputLength)
    else if key.Some? && (|key.value| < 16 || |key.value| > 64) then Some(BadKeyLength)
    else if salt.Some? && |salt.value| != 16 then Some(BadSaltLength)
    else if personal.Some? && |personal.value| != 16 then Some(BadPersonalLength)
    else None
  }

  /** Salt and personalisation stay inside the block of 64 bytes. */
  predicate FitsBlock(salt: Option<seq<u8>>, personal: Option<seq<u8>>) {
    && (salt.Some? ==> |salt.value| <= 32)
    && (personal.Some? ==> |personal.value| <= 16)
  }

  /** `block.set(bytes, at)` */
  function Write(block: seq<u8>, at: nat, bytes: Option<seq<u8>>): (r: seq<u8>)
    requires bytes.Some? ==> at + |bytes.value| <= |block|
    ensures |r| == |block|
  {
    match bytes
    case None => block
    case Some(v) => block[..at] + v + block[at + |v|..]
  }

  /** outlen, key length, fanout 1 and depth 1, then zeros, salt at 32 and personalisation at 48. */
  function ParameterBlock(outlen: nat, keyLength: nat, salt: Option<seq<u8>>, personal: Option<seq<u8>>): (p: seq<u8>)
    requires FitsBlock(salt, personal)
    ensures |p| == 64
  {
    var head: seq<u8> := [ToUint8(outlen), ToUint8(keyLength), 1, 1];
    Write(Write(head + Zeros(60), 32, salt), 48, personal)
  }

  /** Byte by byte: what the block holds at each place. */
  lemma BlockBytes(outlen: nat, keyLength: nat, salt: Option<seq<u8>>, personal: Option<seq<u8>>, i: nat)
    requires FitsBlock(salt, personal) && i < 64
    ensures ParameterBlock(outlen, keyLength, salt, personal)[i] ==
      if i == 0 then outlen % 256
      else if i == 1 then keyLength % 256
      else if i == 2 || i == 3 then 1
      else if personal.Some? && 48 <= i < 48 + |personal.value| then personal.value[i - 48]
      else if salt.Some? && 32 <= i < 32 + |salt.value| then salt.value[i - 32]
      else 0
  {
    hide Write;
    var head: seq<u8> := [ToUint8(outlen), ToUint8(keyLength), 1, 1];
    WriteAt(head + Zeros(60), 32, salt, i);
    WriteAt(Write(head + Zeros(60), 32, salt), 48, personal, i);
  }

  lemma WriteAt(block: seq<u8>, at: nat, bytes: Option<seq<u8>>, i: nat)
    requires at + Size(bytes) <= |block| && i < |block|
    ensures Write(block, at, bytes)[i] == if at <= i < at + Size(bytes) then bytes.value[i - at] else block[i]
  {
  }

  function Size(bytes: Option<seq<u8>>): nat {
    if bytes.Some? then |bytes.value| else 0
  }

  /** Initial words: the initialization vector combined with the parameter block. */
  function InitialFrom(p: seq<u8>): Words8
    requires |p| == 64
  {
    seq(8, i requires 0 <= i < 8 => Xor64(IV[i], LittleEndian64(p, 8 * i)))
  }

  /** Without salt and personalisation these are the initial words of section 3.3. */
  lemma InitialIsRfc(outlen: nat, keyLength: nat)
    requires 1 <= outlen <= 64 && keyLength <= 64
    ensures InitialFrom(ParameterBlock(outlen, keyLength, None, None)) == InitialWords(outlen, keyLength)
  {
    hide Xor64;
    var p := ParameterBlock(outlen, keyLength, None, None);
    forall i | 0 <= i < 8
      ensures InitialFrom(p)[i] == InitialWords(outlen, keyLength)[i]
    {
      if i == 0 {
        assert LittleEndian64(p, 0) == 0x01010000 + 0x100 * keyLength + outlen;
      } else {
        assert LittleEndian64(p, 8 * i) == 0;
        Xor64Zero(IV[i]);
      }
    }
  }
}
