/**
 * Two whole JPEG files, byte by byte, and what extraction makes of them:
 * a Make string read from IFD0, and an iso number read from the Exif
 * SubIFD that IFD0 points to.
 */
module Scenarios {
  import opened Wrappers
  import opened Bytes
  import opened Text
  import opened Tiff
  import opened Jpeg

  /**
   * A 40-byte JPEG: SOI, an APP1 segment of length 0x30 with the "Exif\0\0"
   * signature, a little-endian TIFF header at 12 naming IFD0 at TIFF
   * offset 8, and IFD0 with one entry (Make, ASCII, count 6, value at TIFF
   * offset 22) whose value "Canon\0" is the last six bytes. Extraction
   * yields exactly that Make.
   */
  lemma CanonMake(buf: seq<byte>)
    requires |buf| == 40
    requires buf[..12] == [0xFF, 0xD8, 0xFF, 0xE1, 0x00, 0x30, 0x45, 0x78, 0x69, 0x66, 0x00, 0x00]
    requires buf[12..20] == [0x49, 0x49, 0x2A, 0x00, 0x08, 0x00, 0x00, 0x00]
    requires buf[20..22] == [0x01, 0x00]
    requires buf[22..34] == [0x0F, 0x01, 0x02, 0x00, 0x06, 0x00, 0x00, 0x00, 0x16, 0x00, 0x00, 0x00]
    requires buf[34..40] == [0x43, 0x61, 0x6E, 0x6F, 0x6E, 0x00]
    ensures Extract(buf) == map["Make" := Str("Canon")]
  {
    ExifApp1(buf, 0x30);
    LittleEndianIfd0(buf);
    OneEntryDirectory(buf, 20, Ifd0, map[]);
    var e := IfdEntry(0x010F, ASCII, 6, 0x16);
    StoredEntries();
    EntryAt(buf, 22, e);
    CanonString(buf);
    assert Dispatch(buf, 12, 22, e, true, Ifd0) == Found(Make, Str("Canon"));
    EntryStepAssigns(buf, 12, 22, true, Ifd0, map[], e);
  }

  /**
   * A 52-byte JPEG laid out the same way, but IFD0's one entry is the Exif
   * SubIFD pointer (LONG, count 1, value 26), and the SubIFD at TIFF
   * offset 26 (byte 38) has one entry: ISOSpeedRatings, SHORT, count 1,
   * inline value 400. Extraction yields exactly that iso number.
   */
  lemma SubIfdIso(buf: seq<byte>)
    requires |buf| == 52
    requires buf[..12] == [0xFF, 0xD8, 0xFF, 0xE1, 0x00, 0x32, 0x45, 0x78, 0x69, 0x66, 0x00, 0x00]
    requires buf[12..20] == [0x49, 0x49, 0x2A, 0x00, 0x08, 0x00, 0x00, 0x00]
    requires buf[20..22] == [0x01, 0x00]
    requires buf[22..34] == [0x69, 0x87, 0x04, 0x00, 0x01, 0x00, 0x00, 0x00, 0x1A, 0x00, 0x00, 0x00]
    requires buf[34..38] == [0x00, 0x00, 0x00, 0x00]
    requires buf[38..40] == [0x01, 0x00]
    requires buf[40..52] == [0x27, 0x88, 0x03, 0x00, 0x01, 0x00, 0x00, 0x00, 0x90, 0x01, 0x00, 0x00]
    ensures Extract(buf) == map["iso" := Num(400)]
  {
    ExifApp1(buf, 0x32);
    LittleEndianIfd0(buf);
    OneEntryDirectory(buf, 20, Ifd0, map[]);
    var pointer := IfdEntry(ExifIfdPointerTag, LONG, 1, 26);
    StoredEntries();
    EntryAt(buf, 22, pointer);
    PointerFollowed(buf, 12, 22, pointer, true);
    EntryStepEnters(buf, 12, 22, true, Ifd0, map[], pointer);
    OneEntryDirectory(buf, 38, ExifSubIfd, map[]);
    var iso := IfdEntry(0x8827, SHORT, 1, 400);
    EntryAt(buf, 40, iso);
    InlineIso(buf, 40, iso);
    EntryStepAssigns(buf, 12, 40, true, ExifSubIfd, map[], iso);
  }

  /**
   * A buffer that opens with SOI and an APP1 marker whose length field (at
   * 4) is at least 8 and whose signature spells "Exif" is decoded as the
   * TIFF structure at 12.
   */
  lemma ExifApp1(buf: seq<byte>, segmentLength: byte)
    requires |buf| >= 12 && segmentLength >= 8
    requires buf[..12] == [0xFF, 0xD8, 0xFF, 0xE1, 0x00, segmentLength, 0x45, 0x78, 0x69, 0x66, 0x00, 0x00]
    ensures Extract(buf) == DecodeTiff(buf, 12)
  {
    assert buf[0..2] == [0xFF, 0xD8];
    assert SafeUint16(buf, 0, false) == Some(SOI);
    assert buf[2..4] == [0xFF, 0xE1];
    assert MarkerStep(buf, 2) == App1At(4);
    assert FindApp1(buf, 2) == Some(4);
    assert buf[4..6] == [0x00, segmentLength];
    assert buf[6..10] == ExifSignatureBytes;
    DecodeApp1Decodes(buf, 4);
  }

  /** A little-endian TIFF header at 12 naming IFD0 at TIFF offset 8 leads to the directory at byte 20. */
  lemma LittleEndianIfd0(buf: seq<byte>)
    requires |buf| >= 20 && buf[12..20] == [0x49, 0x49, 0x2A, 0x00, 0x08, 0x00, 0x00, 0x00]
    ensures DecodeTiff(buf, 12) == DecodeIfd(buf, 12, 20, true, Ifd0, map[])
  {
    assert buf[16..20] == [0x08, 0x00, 0x00, 0x00];
    assert ReadTiffHeader(buf, 12) == Some(TiffHeader(true, 8));
  }

  /** A directory at `start` with a count of 1 applies its one entry and stops. */
  lemma OneEntryDirectory(buf: seq<byte>, start: nat, level: Level, fields: map<string, Value>)
    requires start + 14 <= |buf| && buf[start..start + 2] == [0x01, 0x00]
    ensures DecodeIfd(buf, 12, start, true, level, fields) == EntryStep(buf, 12, start + 2, true, level, fields)
  {
    assert SafeUint16(buf, start, true) == Some(1);
    DecodeIfdStart(buf, 12, start, true, level, fields, 1);
    DecodeEntriesNext(buf, 12, start, true, level, 1, 0, fields);
    DecodeEntriesStop(buf, 12, start, true, level, 1, 1,
                      EntryStep(buf, 12, start + 2, true, level, fields));
  }

  /** Twelve bytes at `at` that store e little-endian are read back as e. */
  lemma EntryAt(buf: seq<byte>, at: nat, e: IfdEntry)
    requires ValidEntry(e) && at + 12 <= |buf| && buf[at..at + 12] == EntryBytes(e, true)
    ensures ReadEntry(buf, at, true) == Some(e)
  {
    assert buf == buf[..at] + EntryBytes(e, true) + buf[at + 12..];
    EntryRoundTrip(buf[..at], e, true, buf[at + 12..]);
  }

  /** The three entries of the two files, as they are stored little-endian. */
  lemma StoredEntries()
    ensures EntryBytes(IfdEntry(0x010F, ASCII, 6, 0x16), true)
         == [0x0F, 0x01, 0x02, 0x00, 0x06, 0x00, 0x00, 0x00, 0x16, 0x00, 0x00, 0x00]
    ensures EntryBytes(IfdEntry(ExifIfdPointerTag, LONG, 1, 26), true)
         == [0x69, 0x87, 0x04, 0x00, 0x01, 0x00, 0x00, 0x00, 0x1A, 0x00, 0x00, 0x00]
    ensures EntryBytes(IfdEntry(0x8827, SHORT, 1, 400), true)
         == [0x27, 0x88, 0x03, 0x00, 0x01, 0x00, 0x00, 0x00, 0x90, 0x01, 0x00, 0x00]
  {
  }

  /** An inline ISO entry in the SubIFD is found with the value of its first two value bytes. */
  lemma InlineIso(buf: seq<byte>, at: nat, e: IfdEntry)
    requires e == IfdEntry(0x8827, SHORT, 1, 400) && at + 12 <= |buf|
    requires buf[at + 8..at + 10] == [0x90, 0x01]
    ensures Dispatch(buf, 12, at, e, true, ExifSubIfd) == Found(Iso, Num(400))
  {
    assert SafeUint16(buf, at + 8, true) == Some(400);
  }

  /** The Make value at byte 34 reads as "Canon": five bytes, then the NUL. */
  lemma CanonString(buf: seq<byte>)
    requires |buf| == 40 && buf[34..40] == [0x43, 0x61, 0x6E, 0x6F, 0x6E, 0x00]
    ensures StringAt(buf, 34, 6) == "Canon"
  {
    var window := buf[34..40];
    assert Chars(window[..5]) == "Canon";
    WindowRead(buf, 34, 6, 6, window, 5, "Canon");
    TrimUntrimmed("Canon");
  }
}
