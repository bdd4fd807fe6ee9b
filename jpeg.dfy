/**
 * The JPEG side of the extractor: the walk along the marker chain to the first
 * APP1 segment (ITU-T T.81, Annex B), the checks on that segment, and the
 * whole extraction as one function of the buffer.
 */
module Jpeg {
  import opened Wrappers
  import opened Bytes
  import opened Text
  import opened Tiff

  /** The start-of-image marker every JPEG begins with. */
  const SOI: nat := 0xFFD8
  /** The APP1 marker, the segment that carries Exif data. */
  const APP1: nat := 0xFFE1

  /** What one turn of the marker loop does at `offset`. */
  datatype ScanStep =
    | App1At(lengthAt: nat)  // an APP1 marker; its length field is at lengthAt
    | Skip(next: nat)        // another segment, skipped by its length
    | Stop                   // the loop ends without an APP1 segment

  /**
   * One turn of the marker loop: stop unless offset < |buf| - 1; read the
   * big-endian marker; stop if nothing follows it; report APP1; stop on a
   * marker whose high byte is not 0xFF (marker & 0xff00 !== 0xff00); else
   * skip by the big-endian segment length, stopping when it is missing or
   * below 2.
   */
  function MarkerStep(buf: seq<byte>, offset: nat): (r: ScanStep)
    ensures r.App1At? <==> offset + 2 < |buf| && buf[offset] == 0xFF && buf[offset + 1] == 0xE1
    ensures r.App1At? ==> r.lengthAt == offset + 2
    ensures r.Skip? <==> offset + 4 <= |buf| && buf[offset] == 0xFF && buf[offset + 1] != 0xE1
                         && Uint16(buf[offset + 2..offset + 4], false) >= 2
    ensures r.Skip? ==> r.next == offset + 2 + Uint16(buf[offset + 2..offset + 4], false) >= offset + 4
  {
    if offset + 1 >= |buf| then Stop
    else
      match SafeUint16(buf, offset, false)
      case None => Stop
      case Some(marker) =>
        var lengthAt := offset + 2;
        if lengthAt >= |buf| then Stop
        else if marker == APP1 then App1At(lengthAt)
        else if marker / 0x100 != 0xFF then Stop
        else
          match SafeUint16(buf, lengthAt, false)
          case None => Stop
          case Some(segmentLength) => if segmentLength < 2 then Stop else Skip(lengthAt + segmentLength)
  }

  /**
   * The marker loop from `offset`: where the first APP1 segment's length
   * field is, if the chain of skipped segments reaches one. Every skip moves
   * forward by at least 4 bytes, so the walk ends.
   */
  function FindApp1(buf: seq<byte>, offset: nat): Option<nat>
    decreases |buf| - offset
  {
    match MarkerStep(buf, offset)
    case Stop => None
    case App1At(lengthAt) => Some(lengthAt)
    case Skip(next) => FindApp1(buf, next)
  }

  /** q is reached from o by skipping zero or more whole segments. */
  ghost predicate Skips(buf: seq<byte>, o: nat, q: nat)
    decreases |buf| - o
  {
    o == q || (MarkerStep(buf, o).Skip? && Skips(buf, MarkerStep(buf, o).next, q))
  }

  /** Skipping only ever moves forward. */
  lemma {:induction false} SkipsForward(buf: seq<byte>, o: nat, q: nat)
    requires Skips(buf, o, q)
    ensures o <= q
    decreases |buf| - o
  {
    if o != q {
      SkipsForward(buf, MarkerStep(buf, o).next, q);
    }
  }

  /**
   * The marker loop finds exactly the APP1 marker at the end of the chain of
   * skipped segments: it answers lengthAt if and only if some offset q
   * reached by skipping holds an APP1 marker whose length field is at
   * lengthAt.
   */
  lemma {:induction false} FindApp1Exact(buf: seq<byte>, o: nat, lengthAt: nat)
    ensures FindApp1(buf, o) == Some(lengthAt)
        <==> exists q :: Skips(buf, o, q) && MarkerStep(buf, q) == App1At(lengthAt)
    decreases |buf| - o
  {
    match MarkerStep(buf, o)
    case Stop =>
      forall q | Skips(buf, o, q)
        ensures q == o
      {
      }
    case App1At(at) =>
      assert Skips(buf, o, o);
      forall q | Skips(buf, o, q)
        ensures q == o
      {
      }
    case Skip(next) =>
      FindApp1Exact(buf, next, lengthAt);
      if exists q :: Skips(buf, next, q) && MarkerStep(buf, q) == App1At(lengthAt) {
        var q :| Skips(buf, next, q) && MarkerStep(buf, q) == App1At(lengthAt);
        assert Skips(buf, o, q);
      }
      if exists q :: Skips(buf, o, q) && MarkerStep(buf, q) == App1At(lengthAt) {
        var q :| Skips(buf, o, q) && MarkerStep(buf, q) == App1At(lengthAt);
        assert q != o;
        assert Skips(buf, next, q);
      }
  }

  /**
   * The APP1 segment whose length field is at `lengthAt`: its length must be
   * at least 8, its signature must read "Exif", and its TIFF header (8 bytes
   * after the length field) must fit; then IFD0 is decoded. Any failed check
   * gives no fields.
   */
  function DecodeApp1(buf: seq<byte>, lengthAt: nat): map<string, Value> {
    match SafeUint16(buf, lengthAt, false)
    case None => map[]
    case Some(segmentLength) =>
      if segmentLength < 8 || lengthAt + 6 > |buf| then map[]
      else if StringAt(buf, lengthAt + 2, 4) != "Exif" then map[]
      else DecodeTiff(buf, lengthAt + 8)
  }

  /** The TIFF structure at `tiffOffset`: IFD0's fields, or none when the header does not fit. */
  function DecodeTiff(buf: seq<byte>, tiffOffset: nat): map<string, Value> {
    match ReadTiffHeader(buf, tiffOffset)
    case None => map[]
    case Some(h) => DecodeIfd(buf, tiffOffset, tiffOffset + h.ifd0Offset, h.littleEndian, Ifd0, map[])
  }

  /**
   * Fields come out of an APP1 segment only when its length is at least 8,
   * it carries the "Exif" signature and its TIFF header fits; they are then
   * IFD0's fields, read in the header's byte order from the offset it names.
   */
  lemma DecodeApp1Guards(buf: seq<byte>, lengthAt: nat)
    requires DecodeApp1(buf, lengthAt) != map[]
    ensures lengthAt + 2 <= |buf| && Uint16(buf[lengthAt..lengthAt + 2], false) >= 8
    ensures lengthAt + 6 <= |buf| && buf[lengthAt + 2..lengthAt + 6] == ExifSignatureBytes
    ensures var tiffOffset := lengthAt + 8;
            && tiffOffset + 8 <= |buf|
            && var h := ReadTiffHeader(buf, tiffOffset).value;
               DecodeApp1(buf, lengthAt) == DecodeIfd(buf, tiffOffset, tiffOffset + h.ifd0Offset, h.littleEndian, Ifd0, map[])
  {
    ExifSignature(buf, lengthAt + 2);
  }

  /**
   * Conversely, a segment whose length is at least 8 and whose signature
   * bytes spell "Exif" is decoded as the TIFF structure 8 bytes after its
   * length field.
   */
  lemma DecodeApp1Decodes(buf: seq<byte>, lengthAt: nat)
    requires lengthAt + 6 <= |buf| && Uint16(buf[lengthAt..lengthAt + 2], false) >= 8
    requires buf[lengthAt + 2..lengthAt + 6] == ExifSignatureBytes
    ensures DecodeApp1(buf, lengthAt) == DecodeTiff(buf, lengthAt + 8)
  {
    ExifSignature(buf, lengthAt + 2);
  }

  /** extractExifData: the fields of the first APP1 segment of a JPEG of at least 12 bytes. */
  function Extract(buf: seq<byte>): map<string, Value> {
    if |buf| < 12 then map[]
    else if SafeUint16(buf, 0, false) != Some(SOI) then map[]
    else
      match FindApp1(buf, 2)
      case None => map[]
      case Some(lengthAt) => DecodeApp1(buf, lengthAt)
  }

  /** A buffer under 12 bytes, or one that does not start with 0xFF 0xD8, yields no fields. */
  lemma NotJpegYieldsNothing(buf: seq<byte>)
    requires |buf| < 12 || buf[0] != 0xFF || buf[1] != 0xD8
    ensures Extract(buf) == map[]
  {
    if |buf| >= 12 {
      assert SafeUint16(buf, 0, false) == Some(Uint16(buf[0..2], false));
      Uint16Bytes_Uint16(buf[0..2], false);
      assert Uint16Bytes(SOI, false) == [0xFF, 0xD8];
    }
  }

  /**
   * Only the first APP1 segment is looked at: when it lacks the "Exif"
   * signature, the result is empty even if a later APP1 segment has one.
   */
  lemma FirstApp1WithoutExifYieldsNothing(buf: seq<byte>, lengthAt: nat)
    requires FindApp1(buf, 2) == Some(lengthAt)
    requires lengthAt + 6 > |buf| || buf[lengthAt + 2..lengthAt + 6] != ExifSignatureBytes
    ensures Extract(buf) == map[]
  {
    ExifSignature(buf, lengthAt + 2);
  }

  /** The record holds only the seven keys the IFD0 switch knows. */
  lemma ExtractKeys(buf: seq<byte>)
    ensures Extract(buf).Keys <= KeysAt(Ifd0)
  {
    if |buf| >= 12 && SafeUint16(buf, 0, false) == Some(SOI) && FindApp1(buf, 2).Some? {
      DecodeApp1Keys(buf, FindApp1(buf, 2).value);
    }
  }

  lemma DecodeApp1Keys(buf: seq<byte>, lengthAt: nat)
    ensures DecodeApp1(buf, lengthAt).Keys <= KeysAt(Ifd0)
  {
    assert DecodeApp1(buf, lengthAt) == map[] || DecodeApp1(buf, lengthAt) == DecodeTiff(buf, lengthAt + 8);
    DecodeTiffKeys(buf, lengthAt + 8);
  }

  lemma DecodeTiffKeys(buf: seq<byte>, tiffOffset: nat)
    ensures DecodeTiff(buf, tiffOffset).Keys <= KeysAt(Ifd0)
  {
    match ReadTiffHeader(buf, tiffOffset)
    case None =>
    case Some(h) =>
      DecodeIfdOnlyWrites(buf, tiffOffset, tiffOffset + h.ifd0Offset, h.littleEndian, Ifd0, map[]);
  }
}
