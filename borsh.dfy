/**
 * The Borsh encoding of the counter account (`CounterAccount { counter: u32 }`):
 * Borsh writes a fixed-width integer as its little-endian bytes with no header,
 * and `try_from_slice` insists that the slice holds exactly those bytes.
 */
module Borsh {
  import opened Wrappers

  type Byte = x: int | 0 <= x < 0x100
  type U32 = x: int | 0 <= x < 0x1_0000_0000

  /** Why `try_from_slice` refused a slice as a `u32`. */
  datatype IoError =
    | InputTooShort    // fewer than four bytes to read the integer from
    | NotAllBytesRead  // the integer was read but bytes are left over

  /** 256 to the power `n`: the number of values `n` bytes can hold. */
  function Pow256(n: nat): (r: nat)
    ensures r > 0
  {
    if n == 0 then 1 else 0x100 * Pow256(n - 1)
  }

  /** The `n` least significant base-256 digits of `v`, least significant first. */
  function EncodeLE(v: nat, n: nat): (r: seq<Byte>)
    ensures |r| == n
  {
    if n == 0 then [] else [v % 0x100] + EncodeLE(v / 0x100, n - 1)
  }

  /** The number whose base-256 digits, least significant first, are `b`. */
  function DecodeLE(b: seq<Byte>): (r: nat)
    ensures r < Pow256(|b|)
  {
    if b == [] then 0 else b[0] + 0x100 * DecodeLE(b[1..])
  }

  /** Decoding the `n`-byte encoding of a value that fits in `n` bytes gives it back. */
  lemma {:induction false} DecodeEncodeLE(v: nat, n: nat)
    requires v < Pow256(n)
    ensures DecodeLE(EncodeLE(v, n)) == v
  {
    if n > 0 {
      assert v / 0x100 < Pow256(n - 1);
      DecodeEncodeLE(v / 0x100, n - 1);
      assert EncodeLE(v, n)[1..] == EncodeLE(v / 0x100, n - 1);
    }
  }

  /** Every byte string is the encoding of its value, at its own length. */
  lemma {:induction false} EncodeDecodeLE(b: seq<Byte>)
    ensures EncodeLE(DecodeLE(b), |b|) == b
  {
    if b != [] {
      var v := DecodeLE(b);
      assert v % 0x100 == b[0] && v / 0x100 == DecodeLE(b[1..]);
      EncodeDecodeLE(b[1..]);
    }
  }

  /** `u32::to_le_bytes`, which is also how Borsh serializes a `u32`. */
  function EncodeU32LE(v: U32): (r: seq<Byte>)
    ensures |r| == 4
    ensures DecodeLE(r) == v
  {
    assert Pow256(4) == 0x1_0000_0000;
    DecodeEncodeLE(v, 4);
    EncodeLE(v, 4)
  }

  /** Reads four little-endian bytes as a `u32`; the bytes are then the encoding of the result. */
  function DecodeU32LE(b: seq<Byte>): (r: U32)
    requires |b| == 4
    ensures EncodeU32LE(r) == b
  {
    assert Pow256(4) == 0x1_0000_0000;
    EncodeDecodeLE(b);
    DecodeLE(b)
  }

  /** Decoding the encoding of a `u32` gives back that `u32`. */
  lemma DecodeEncode(v: U32)
    ensures DecodeU32LE(EncodeU32LE(v)) == v
  {
  }

  /**
   * `CounterAccount::try_from_slice`: succeeds exactly on four-byte slices,
   * and then the slice is the encoding of the value read.
   */
  function DeserializeU32(data: seq<Byte>): (r: Result<U32, IoError>)
    ensures r.Ok? <==> |data| == 4
    ensures r.Ok? ==> EncodeU32LE(r.value) == data
    ensures r.Err? ==> (r.error == InputTooShort <==> |data| < 4)
  {
    if |data| < 4 then Err(InputTooShort)
    else if |data| > 4 then Err(NotAllBytesRead)
    else Ok(DecodeU32LE(data))
  }

  /** Reading back what was serialized gives the serialized value. */
  lemma DeserializeEncode(v: U32)
    ensures DeserializeU32(EncodeU32LE(v)) == Ok(v)
  {
  }
}
