/** Option, the "present or absent" answer of every guarded read. */
module Wrappers {
  datatype Option<+T> = None | Some(value: T)
}

/**
 * The bounds-checked reader: a fixed, immutable byte buffer (the ArrayBuffer
 * behind the DataView) and the guarded reads that every other part of the
 * decoder goes through.
 */
module Bytes {
  import opened Wrappers

  /** One byte, as DataView.getUint8 returns it. */
  newtype byte = x: int | 0 <= x < 0x100

  /**
   * safeRead: the window of `length` bytes at `offset`, or None when the
   * window does not lie inside the buffer. The callback of the original is
   * the decoding the caller applies to the window.
   */
  function SafeRead(buf: seq<byte>, offset: int, length: nat): (r: Option<seq<byte>>)
    ensures r.None? <==> offset < 0 || offset + length > |buf|
    ensures r.Some? ==> |r.value| == length
    ensures r.Some? ==> forall k :: 0 <= k < length ==> r.value[k] == buf[offset + k]
  {
    if offset < 0 || offset + length > |buf| then None else Some(buf[offset..offset + length])
  }

  /** DataView.getUint16 on a 2-byte window, in the given byte order. */
  function Uint16(w: seq<byte>, littleEndian: bool): nat
    requires |w| == 2
  {
    if littleEndian then w[0] as nat + 0x100 * w[1] as nat
    else 0x100 * w[0] as nat + w[1] as nat
  }

  /** DataView.getUint32 on a 4-byte window, in the given byte order. */
  function Uint32(w: seq<byte>, littleEndian: bool): nat
    requires |w| == 4
  {
    if littleEndian then
      w[0] as nat + 0x100 * w[1] as nat + 0x1_0000 * w[2] as nat + 0x100_0000 * w[3] as nat
    else
      0x100_0000 * w[0] as nat + 0x1_0000 * w[1] as nat + 0x100 * w[2] as nat + w[3] as nat
  }

  /** The two bytes that store `v` in the given byte order (the inverse of Uint16). */
  function Uint16Bytes(v: nat, littleEndian: bool): (w: seq<byte>)
    requires v < 0x1_0000
    ensures |w| == 2
  {
    var lo, hi := (v % 0x100) as byte, (v / 0x100) as byte;
    if littleEndian then [lo, hi] else [hi, lo]
  }

  /** The four bytes that store `v` in the given byte order (the inverse of Uint32). */
  function Uint32Bytes(v: nat, littleEndian: bool): (w: seq<byte>)
    requires v < 0x1_0000_0000
    ensures |w| == 4
  {
    var v1 := v / 0x100;
    var v2 := v1 / 0x100;
    var b0 := (v % 0x100) as byte;
    var b1 := (v1 % 0x100) as byte;
    var b2 := (v2 % 0x100) as byte;
    var b3 := (v2 / 0x100) as byte;
    if littleEndian then [b0, b1, b2, b3] else [b3, b2, b1, b0]
  }

  /** Reading a 16-bit word back from the bytes that store it gives the word. */
  lemma Uint16RoundTrip(v: nat, littleEndian: bool)
    requires v < 0x1_0000
    ensures Uint16(Uint16Bytes(v, littleEndian), littleEndian) == v
  {
  }

  /** Every 2-byte window is the storage of the word read from it. */
  lemma Uint16Bytes_Uint16(w: seq<byte>, littleEndian: bool)
    requires |w| == 2
    ensures Uint16(w, littleEndian) < 0x1_0000
    ensures Uint16Bytes(Uint16(w, littleEndian), littleEndian) == w
  {
  }

  /** Reading a 32-bit word back from the bytes that store it gives the word. */
  lemma Uint32RoundTrip(v: nat, littleEndian: bool)
    requires v < 0x1_0000_0000
    ensures Uint32(Uint32Bytes(v, littleEndian), littleEndian) == v
  {
    var v1 := v / 0x100;
    var v2 := v1 / 0x100;
    assert v == v % 0x100 + 0x100 * v1;
    assert v1 == v1 % 0x100 + 0x100 * v2;
    assert v2 == v2 % 0x100 + 0x100 * (v2 / 0x100);
  }

  /** Every 4-byte window is the storage of the word read from it. */
  lemma Uint32Bytes_Uint32(w: seq<byte>, littleEndian: bool)
    requires |w| == 4
    ensures Uint32(w, littleEndian) < 0x1_0000_0000
    ensures Uint32Bytes(Uint32(w, littleEndian), littleEndian) == w
  {
    var b0 := if littleEndian then w[0] else w[3];
    var b1 := if littleEndian then w[1] else w[2];
    var b2 := if littleEndian then w[2] else w[1];
    var b3 := if littleEndian then w[3] else w[0];
    var v := Uint32(w, littleEndian);
    assert v == b0 as nat + 0x100 * (b1 as nat + 0x100 * (b2 as nat + 0x100 * b3 as nat));
    ByteSplit(b0 as nat, b1 as nat + 0x100 * (b2 as nat + 0x100 * b3 as nat));
    ByteSplit(b1 as nat, b2 as nat + 0x100 * b3 as nat);
    ByteSplit(b2 as nat, b3 as nat);
  }

  /** Splitting off the low byte of a number. */
  lemma ByteSplit(lo: nat, hi: nat)
    requires lo < 0x100
    ensures (lo + 0x100 * hi) % 0x100 == lo && (lo + 0x100 * hi) / 0x100 == hi
  {
  }

  /** A guarded 16-bit read: None exactly when the two bytes are not all inside the buffer. */
  function SafeUint16(buf: seq<byte>, offset: int, littleEndian: bool): (r: Option<nat>)
    ensures r.None? <==> offset < 0 || offset + 2 > |buf|
    ensures r.Some? ==> r.value < 0x1_0000 && r.value == Uint16(buf[offset..offset + 2], littleEndian)
  {
    match SafeRead(buf, offset, 2)
    case None => None
    case Some(w) => Some(Uint16(w, littleEndian))
  }

  /** A guarded 32-bit read: None exactly when the four bytes are not all inside the buffer. */
  function SafeUint32(buf: seq<byte>, offset: int, littleEndian: bool): (r: Option<nat>)
    ensures r.None? <==> offset < 0 || offset + 4 > |buf|
    ensures r.Some? ==> r.value < 0x1_0000_0000 && r.value == Uint32(buf[offset..offset + 4], littleEndian)
  {
    match SafeRead(buf, offset, 4)
    case None => None
    case Some(w) => Some(Uint32(w, littleEndian))
  }

  /** A read that fits in a prefix of the buffer reads the same value from the whole buffer. */
  lemma SafeUint16Prefix(buf: seq<byte>, k: nat, offset: int, littleEndian: bool)
    requires k <= |buf|
    requires SafeUint16(buf[..k], offset, littleEndian).Some?
    ensures SafeUint16(buf, offset, littleEndian) == SafeUint16(buf[..k], offset, littleEndian)
  {
    assert buf[..k][offset..offset + 2] == buf[offset..offset + 2];
  }

  /** A read that fits in a prefix of the buffer reads the same value from the whole buffer. */
  lemma SafeUint32Prefix(buf: seq<byte>, k: nat, offset: int, littleEndian: bool)
    requires k <= |buf|
    requires SafeUint32(buf[..k], offset, littleEndian).Some?
    ensures SafeUint32(buf, offset, littleEndian) == SafeUint32(buf[..k], offset, littleEndian)
  {
    assert buf[..k][offset..offset + 4] == buf[offset..offset + 4];
  }
}
