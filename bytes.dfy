/** Fixed-width integers and the big-endian cursor reads of the crate root
    (`read_u1`, `read_u2`, `read_u4`, `read_u8`). Their bodies are not part of
    this model; they are given here the contract every caller relies on: read
    1, 2, 4 or 8 bytes big-endian at the cursor, advance the cursor by that
    width, and fail when the buffer is too short. */
module Bytes {
  import opened Results

  type u8 = x: int | 0 <= x < 0x100
  type u16 = x: int | 0 <= x < 0x1_0000
  type u32 = x: int | 0 <= x < 0x1_0000_0000
  type u64 = x: int | 0 <= x < 0x1_0000_0000_0000_0000
  type i32 = x: int | -0x8000_0000 <= x < 0x8000_0000
  type i64 = x: int | -0x8000_0000_0000_0000 <= x < 0x8000_0000_0000_0000

  /** Big-endian value of the two bytes at `at`. */
  function BE16(b: seq<u8>, at: nat): u16
    requires at + 2 <= |b|
  {
    b[at] as int * 0x100 + b[at + 1] as int
  }

  function BE32(b: seq<u8>, at: nat): u32
    requires at + 4 <= |b|
  {
    BE16(b, at) as int * 0x1_0000 + BE16(b, at + 2) as int
  }

  function BE64(b: seq<u8>, at: nat): u64
    requires at + 8 <= |b|
  {
    BE32(b, at) as int * 0x1_0000_0000 + BE32(b, at + 4) as int
  }

  /** Rust's `u32 as i32`: reinterpret the bits as two's complement. */
  function AsI32(u: u32): (v: i32)
    ensures (v + 0x1_0000_0000) % 0x1_0000_0000 == u
    ensures v < 0 <==> u >= 0x8000_0000
  {
    if u < 0x8000_0000 then u else u - 0x1_0000_0000
  }

  /** Rust's `u64 as i64`. */
  function AsI64(u: u64): (v: i64)
    ensures (v + 0x1_0000_0000_0000_0000) % 0x1_0000_0000_0000_0000 == u
    ensures v < 0 <==> u >= 0x8000_0000_0000_0000
  {
    if u < 0x8000_0000_0000_0000 then u else u - 0x1_0000_0000_0000_0000
  }

  method ReadU1(bytes: seq<u8>, ix: nat) returns (r: Result<u8>, next: nat)
    ensures ix + 1 <= |bytes| ==> r == Ok(bytes[ix]) && next == ix + 1
    ensures ix + 1 > |bytes| ==> r == Err(Truncated(ix))
  {
    if ix + 1 > |bytes| {
      return Err(Truncated(ix)), ix;
    }
    return Ok(bytes[ix]), ix + 1;
  }

  method ReadU2(bytes: seq<u8>, ix: nat) returns (r: Result<u16>, next: nat)
    ensures ix + 2 <= |bytes| ==> r == Ok(BE16(bytes, ix)) && next == ix + 2
    ensures ix + 2 > |bytes| ==> r == Err(Truncated(ix))
  {
    if ix + 2 > |bytes| {
      return Err(Truncated(ix)), ix;
    }
    return Ok(BE16(bytes, ix)), ix + 2;
  }

  method ReadU4(bytes: seq<u8>, ix: nat) returns (r: Result<u32>, next: nat)
    ensures ix + 4 <= |bytes| ==> r == Ok(BE32(bytes, ix)) && next == ix + 4
    ensures ix + 4 > |bytes| ==> r == Err(Truncated(ix))
  {
    if ix + 4 > |bytes| {
      return Err(Truncated(ix)), ix;
    }
    return Ok(BE32(bytes, ix)), ix + 4;
  }

  method ReadU8(bytes: seq<u8>, ix: nat) returns (r: Result<u64>, next: nat)
    ensures ix + 8 <= |bytes| ==> r == Ok(BE64(bytes, ix)) && next == ix + 8
    ensures ix + 8 > |bytes| ==> r == Err(Truncated(ix))
  {
    if ix + 8 > |bytes| {
      return Err(Truncated(ix)), ix;
    }
    return Ok(BE64(bytes, ix)), ix + 8;
  }
}
