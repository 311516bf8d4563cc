/** kieker_serialize: integers into a buffer, in network byte order on a little-endian host. */
module Serialize {
  import opened Words
  import opened Bytes

  /** `memcpy` of the low `count` bytes of `n`. */
  method CopyLow(buffer: array<Byte>, offset: nat, n: nat, count: nat)
    requires offset + count <= buffer.Length
    modifies buffer
    ensures buffer[..offset + count] == old(buffer[..offset]) + LittleBytes(n, count)
    ensures buffer[offset + count..] == old(buffer[offset + count..])
  {
    var i, rest := 0, n;
    assert LittleBytes(n, 0) == [];
    while i < count
      invariant i <= count
      invariant buffer[..offset] == old(buffer[..offset]) && buffer[offset + count..] == old(buffer[offset + count..])
      invariant buffer[offset..offset + i] + LittleBytes(rest, count - i) == LittleBytes(n, count)
    {
      buffer[offset + i] := rest % 0x100;
      assert buffer[offset..offset + i + 1] == buffer[offset..offset + i] + [rest % 0x100];
      rest := rest / 0x100;
      i := i + 1;
    }
    assert buffer[..offset + count] == buffer[..offset] + buffer[offset..offset + count];
  }

  /** The common shape: swap the bytes of the value and copy them. */
  method SerializeInt(buffer: array<Byte>, offset: nat, value: int, width: nat) returns (size: nat)
    requires offset + width <= buffer.Length
    modifies buffer
    ensures size == width
    ensures buffer[..offset + width] == old(buffer[..offset]) + IntBytes(value, width)
    ensures buffer[offset + width..] == old(buffer[offset + width..])
  {
    var nvalue := SwapBytes(Wrapped(value, width), width);
    SwapThenCopyIsBig(Wrapped(value, width), width);
    CopyLow(buffer, offset, nvalue, width);
    size := width;
  }

  /** kieker_serialize_boolean and kieker_serialize_int8: one byte, no swapping. */
  method SerializeInt8(buffer: array<Byte>, offset: nat, value: int) returns (size: nat)
    requires offset + 1 <= buffer.Length
    modifies buffer
    ensures size == 1
    ensures buffer[..offset + 1] == old(buffer[..offset]) + IntBytes(value, 1)
    ensures buffer[offset + 1..] == old(buffer[offset + 1..])
  {
    OneByte(Wrapped(value, 1));
    CopyLow(buffer, offset, Wrapped(value, 1), 1);
    size := 1;
  }

  lemma OneByte(n: nat)
    ensures LittleBytes(n, 1) == BigBytes(n, 1)
  {
    assert LittleBytes(n / 0x100, 0) == [] && BigBytes(n / 0x100, 0) == [];
  }

  /** kieker_serialize_int16. */
  method SerializeInt16(buffer: array<Byte>, offset: nat, value: int) returns (size: nat)
    requires offset + 2 <= buffer.Length
    modifies buffer
    ensures size == 2
    ensures buffer[..offset + 2] == old(buffer[..offset]) + IntBytes(value, 2)
    ensures buffer[offset + 2..] == old(buffer[offset + 2..])
  {
    size := SerializeInt(buffer, offset, value, 2);
  }

  /** kieker_serialize_int32; the value is a `long`, its upper half is dropped. */
  method SerializeInt32(buffer: array<Byte>, offset: nat, value: int) returns (size: nat)
    requires offset + 4 <= buffer.Length
    modifies buffer
    ensures size == 4
    ensures buffer[..offset + 4] == old(buffer[..offset]) + IntBytes(value, 4)
    ensures buffer[offset + 4..] == old(buffer[offset + 4..])
  {
    size := SerializeInt(buffer, offset, value, 4);
  }

  /** kieker_serialize_int64. */
  method SerializeInt64(buffer: array<Byte>, offset: nat, value: int) returns (size: nat)
    requires offset + 8 <= buffer.Length
    modifies buffer
    ensures size == 8
    ensures buffer[..offset + 8] == old(buffer[..offset]) + IntBytes(value, 8)
    ensures buffer[offset + 8..] == old(buffer[offset + 8..])
  {
    size := SerializeInt(buffer, offset, value, 8);
  }
}
