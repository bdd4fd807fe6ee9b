/**
 * The extractor as the original runs it: a result object whose fields are
 * assigned in place, the marker loop over a mutable offset, and the two
 * directory loops that write into the same object. Each method is proved to
 * compute the function of the Jpeg and Tiff modules that specifies it.
 */
module Extractor {
  import opened Wrappers
  import opened Bytes
  import opened Text
  import opened Tiff
  import opened Jpeg

  /** The exifData object: a record of named fields, assigned in place. */
  class ExifData {
    var fields: map<string, Value>

    constructor()
      ensures fields == map[]
    {
      fields := map[];
    }
  }

  /**
   * extractExifData: a fresh record holding exactly the fields Extract
   * gives for the buffer.
   */
  method ExtractExifData(buf: seq<byte>) returns (exifData: ExifData)
    ensures fresh(exifData)
    ensures exifData.fields == Extract(buf)
  {
    exifData := new ExifData();
    if |buf| < 12 {
      return;
    }
    var soi := SafeUint16(buf, 0, false);
    if soi != Some(SOI) {
      return;
    }
    var offset := 2;
    while offset + 1 < |buf|
      invariant FindApp1(buf, offset) == FindApp1(buf, 2)
      invariant exifData.fields == map[]
      decreases |buf| - offset
    {
      ghost var markerAt := offset;
      var marker := SafeUint16(buf, offset, false);
      if marker.None? {
        break;
      }
      offset := offset + 2;
      if offset >= |buf| {
        assert MarkerStep(buf, markerAt) == Stop;
        break;
      }
      if marker.value == APP1 {
        assert MarkerStep(buf, markerAt) == App1At(offset);
        ParseApp1(buf, offset, exifData);
        break;
      } else if marker.value / 0x100 != 0xFF {
        assert MarkerStep(buf, markerAt) == Stop;
        break;
      } else {
        var segmentLength := SafeUint16(buf, offset, false);
        if segmentLength.None? || segmentLength.value < 2 {
          assert MarkerStep(buf, markerAt) == Stop;
          break;
        }
        offset := offset + segmentLength.value;
        assert MarkerStep(buf, markerAt) == Skip(offset);
      }
    }
  }

  /**
   * The APP1 branch of the marker loop: check the segment length, the
   * "Exif" signature and the TIFF header, then walk IFD0's entries into the
   * (still empty) record.
   */
  method ParseApp1(buf: seq<byte>, lengthAt: nat, exifData: ExifData)
    requires exifData.fields == map[]
    modifies exifData
    ensures exifData.fields == DecodeApp1(buf, lengthAt)
  {
    var segmentLength := SafeUint16(buf, lengthAt, false);
    if segmentLength.None? || segmentLength.value < 8 {
      return;
    }
    if lengthAt + 2 + 4 > |buf| {
      return;
    }
    var exifHeader := GetString(buf, lengthAt + 2, 4);
    if exifHeader != "Exif" {
      return;
    }
    ParseTiff(buf, lengthAt + 8, exifData);
  }

  /**
   * The TIFF part of the APP1 branch: the header must fit; its byte-order
   * mark chooses little-endian exactly when it is 0x4949, and IFD0 starts
   * at tiffOffset plus the 32-bit offset after the mark.
   */
  method ParseTiff(buf: seq<byte>, tiffOffset: nat, exifData: ExifData)
    requires exifData.fields == map[]
    modifies exifData
    ensures exifData.fields == DecodeTiff(buf, tiffOffset)
  {
    if tiffOffset + 8 > |buf| {
      return;
    }
    var byteOrder := SafeUint16(buf, tiffOffset, false);
    if byteOrder.None? {
      return;
    }
    var littleEndian := byteOrder.value == 0x4949;
    var ifdOffsetValue := SafeUint32(buf, tiffOffset + 4, littleEndian);
    if ifdOffsetValue.None? {
      return;
    }
    assert ReadTiffHeader(buf, tiffOffset) == Some(TiffHeader(littleEndian, ifdOffsetValue.value));
    var ifdOffset := tiffOffset + ifdOffsetValue.value;
    ProcessDirectory(buf, tiffOffset, ifdOffset, littleEndian, Ifd0, exifData);
  }

  /**
   * processExifSubIFD: the SubIFD at tiffOffset + exifIfdPointer, decoded
   * into the caller's record with the same guards as IFD0.
   */
  method ProcessExifSubIfd(buf: seq<byte>, tiffOffset: nat, exifIfdPointer: nat, littleEndian: bool,
                           exifData: ExifData)
    modifies exifData
    ensures exifData.fields
         == DecodeIfd(buf, tiffOffset, tiffOffset + exifIfdPointer, littleEndian, ExifSubIfd, old(exifData.fields))
    decreases 0, 5
  {
    ProcessDirectory(buf, tiffOffset, tiffOffset + exifIfdPointer, littleEndian, ExifSubIfd, exifData);
  }

  /**
   * The directory loop both copies in the original share: give up unless
   * the count's two bytes fit and the count is at most 200, then process
   * the entries.
   */
  method ProcessDirectory(buf: seq<byte>, tiffOffset: nat, start: nat, littleEndian: bool, level: Level,
                          exifData: ExifData)
    modifies exifData
    ensures exifData.fields == DecodeIfd(buf, tiffOffset, start, littleEndian, level, old(exifData.fields))
    decreases Rank(level), 4
  {
    if start + 2 > |buf| {
      return;
    }
    var entriesCount := SafeUint16(buf, start, littleEndian);
    if entriesCount.None? || entriesCount.value > MaxEntries {
      return;
    }
    DecodeIfdStart(buf, tiffOffset, start, littleEndian, level, exifData.fields, entriesCount.value);
    ProcessEntries(buf, tiffOffset, start, littleEndian, level, entriesCount.value, exifData);
  }

  /** The entries of a directory in order, stopping at the first whose 12 bytes do not fit. */
  method ProcessEntries(buf: seq<byte>, tiffOffset: nat, start: nat, littleEndian: bool, level: Level,
                        count: nat, exifData: ExifData)
    modifies exifData
    ensures exifData.fields == DecodeEntries(buf, tiffOffset, start, littleEndian, level, count, 0, old(exifData.fields))
    decreases Rank(level), 3
  {
    ghost var result := DecodeEntries(buf, tiffOffset, start, littleEndian, level, count, 0, exifData.fields);
    var i := 0;
    while i < count
      invariant i <= count
      invariant DecodeEntries(buf, tiffOffset, start, littleEndian, level, count, i, exifData.fields) == result
      decreases count - i
    {
      var entryOffset := EntryOffset(start, i);
      if entryOffset + 12 > |buf| {
        DecodeEntriesStop(buf, tiffOffset, start, littleEndian, level, count, i, exifData.fields);
        break;
      }
      DecodeEntriesNext(buf, tiffOffset, start, littleEndian, level, count, i, exifData.fields);
      ProcessEntry(buf, tiffOffset, entryOffset, littleEndian, level, exifData);
      i := i + 1;
    }
    DecodeEntriesStop(buf, tiffOffset, start, littleEndian, level, count, i, exifData.fields);
  }

  /**
   * The body of both directory loops: read the entry's four words, giving
   * up when one does not fit, then act on the entry.
   */
  method ProcessEntry(buf: seq<byte>, tiffOffset: nat, entryOffset: nat, littleEndian: bool, level: Level,
                      exifData: ExifData)
    modifies exifData
    ensures exifData.fields == EntryStep(buf, tiffOffset, entryOffset, littleEndian, level, old(exifData.fields))
    decreases Rank(level), 2
  {
    var tag := SafeUint16(buf, entryOffset, littleEndian);
    if tag.None? {
      return;
    }
    var fieldType := SafeUint16(buf, entryOffset + 2, littleEndian);
    if fieldType.None? {
      return;
    }
    var count := SafeUint32(buf, entryOffset + 4, littleEndian);
    if count.None? {
      return;
    }
    var valueOffset := SafeUint32(buf, entryOffset + 8, littleEndian);
    if valueOffset.None? {
      return;
    }
    var entry := IfdEntry(tag.value, fieldType.value, count.value, valueOffset.value);
    assert ReadEntry(buf, entryOffset, littleEndian) == Some(entry);
    ghost var before := exifData.fields;
    if Dispatch(buf, tiffOffset, entryOffset, entry, littleEndian, level).EnterSubIfd? {
      EntryStepEnters(buf, tiffOffset, entryOffset, littleEndian, level, before, entry);
    } else {
      EntryStepAssigns(buf, tiffOffset, entryOffset, littleEndian, level, before, entry);
    }
    ApplyEntry(buf, tiffOffset, entryOffset, entry, littleEndian, level, exifData);
  }

  /**
   * An entry that has been read: work out where its value is, skip it when
   * that is outside the buffer, and run the directory's switch on its tag.
   */
  method ApplyEntry(buf: seq<byte>, tiffOffset: nat, entryOffset: nat, entry: IfdEntry, littleEndian: bool,
                    level: Level, exifData: ExifData)
    modifies exifData
    ensures Dispatch(buf, tiffOffset, entryOffset, entry, littleEndian, level).EnterSubIfd? ==> (
      exifData.fields
      == DecodeIfd(buf, tiffOffset, tiffOffset + entry.valueOffset, littleEndian, ExifSubIfd, old(exifData.fields)))
    ensures !Dispatch(buf, tiffOffset, entryOffset, entry, littleEndian, level).EnterSubIfd? ==> (
      exifData.fields == Assign(old(exifData.fields), Dispatch(buf, tiffOffset, entryOffset, entry, littleEndian, level)))
    decreases Rank(level), 1
  {
    ghost var outcome := Dispatch(buf, tiffOffset, entryOffset, entry, littleEndian, level);
    var dataOffset :=
      if (entry.fieldType == SHORT && entry.count <= 2) || (entry.fieldType == LONG && entry.count == 1)
      then entryOffset + 8
      else tiffOffset + entry.valueOffset;
    assert dataOffset == DataOffset(entry, entryOffset, tiffOffset);
    if dataOffset >= |buf| {
      return;
    }
    assert outcome == Switch(buf, dataOffset, entry, littleEndian, level);
    RunSwitch(buf, tiffOffset, dataOffset, entry, littleEndian, level, exifData);
  }

  /**
   * The switch on the entry's tag, for a value at `dataOffset`: the SubIFD
   * pointer (IFD0 only, and only when two bytes are there) decodes the
   * SubIFD into the record; every other tag goes to SetField.
   */
  method RunSwitch(buf: seq<byte>, tiffOffset: nat, dataOffset: nat, entry: IfdEntry, littleEndian: bool,
                   level: Level, exifData: ExifData)
    modifies exifData
    ensures Switch(buf, dataOffset, entry, littleEndian, level).EnterSubIfd? ==> (
      exifData.fields
      == DecodeIfd(buf, tiffOffset, tiffOffset + entry.valueOffset, littleEndian, ExifSubIfd, old(exifData.fields)))
    ensures !Switch(buf, dataOffset, entry, littleEndian, level).EnterSubIfd? ==> (
      exifData.fields == Assign(old(exifData.fields), Switch(buf, dataOffset, entry, littleEndian, level)))
    decreases Rank(level), 0
  {
    if entry.tag == ExifIfdPointerTag && level == Ifd0 {
      if dataOffset + 2 <= |buf| {
        ProcessExifSubIfd(buf, tiffOffset, entry.valueOffset, littleEndian, exifData);
      }
    } else {
      SetField(buf, dataOffset, entry, littleEndian, level, exifData);
    }
  }

  /** The switch's cases that set a field. */
  method SetField(buf: seq<byte>, dataOffset: nat, entry: IfdEntry, littleEndian: bool, level: Level,
                  exifData: ExifData)
    requires entry.tag != ExifIfdPointerTag || level == ExifSubIfd
    modifies exifData
    ensures exifData.fields == Assign(old(exifData.fields), Switch(buf, dataOffset, entry, littleEndian, level))
  {
    var tag := entry.tag;
    if tag == 0x010F && level == Ifd0 {
      SetString(buf, dataOffset, entry, Make, exifData);
    } else if tag == 0x0110 && level == Ifd0 {
      SetString(buf, dataOffset, entry, Model, exifData);
    } else if tag == 0x9003 && level == Ifd0 {
      SetString(buf, dataOffset, entry, CreationDate, exifData);
    } else if tag == 0x8827 {
      SetIso(buf, dataOffset, entry, littleEndian, exifData);
    } else if tag == 0x829A {
      SetRational(buf, dataOffset, entry, littleEndian, ExposureTime, exifData);
    } else if tag == 0x829D {
      SetRational(buf, dataOffset, entry, littleEndian, Aperture, exifData);
    } else if tag == 0x920A {
      SetRational(buf, dataOffset, entry, littleEndian, FocalLength, exifData);
    }
  }

  /** Make, Model, DateTimeOriginal: an ASCII value read with GetString. */
  method SetString(buf: seq<byte>, dataOffset: nat, entry: IfdEntry, f: Field, exifData: ExifData)
    modifies exifData
    ensures exifData.fields == Assign(old(exifData.fields), AsciiOutcome(f, buf, dataOffset, entry))
  {
    if entry.fieldType == ASCII {
      var s := GetString(buf, dataOffset, Min(entry.count, MaxLengthOf(f)));
      exifData.fields := exifData.fields[Key(f) := Str(s)];
    }
  }

  /** ISO: a SHORT whose two bytes are in the buffer. */
  method SetIso(buf: seq<byte>, dataOffset: nat, entry: IfdEntry, littleEndian: bool, exifData: ExifData)
    modifies exifData
    ensures exifData.fields == Assign(old(exifData.fields), IsoOutcome(buf, dataOffset, entry, littleEndian))
  {
    if entry.fieldType == SHORT && dataOffset + 2 <= |buf| {
      var iso := SafeUint16(buf, dataOffset, littleEndian);
      exifData.fields := exifData.fields[Key(Iso) := Num(iso.value)];
    }
  }

  /** ExposureTime, FNumber, FocalLength: a RATIONAL with a non-zero denominator, formatted. */
  method SetRational(buf: seq<byte>, dataOffset: nat, entry: IfdEntry, littleEndian: bool, f: Field,
                     exifData: ExifData)
    modifies exifData
    ensures exifData.fields
         == Assign(old(exifData.fields), RationalOutcome(f, buf, dataOffset, entry, littleEndian))
  {
    if entry.fieldType == RATIONAL && dataOffset + 8 <= |buf| {
      var numerator := SafeUint32(buf, dataOffset, littleEndian);
      var denominator := SafeUint32(buf, dataOffset + 4, littleEndian);
      if numerator.Some? && denominator.Some? && denominator.value != 0 {
        var text := RationalText(f, numerator.value, denominator.value);
        if text.Some? {
          exifData.fields := exifData.fields[Key(f) := Str(text.value)];
        }
      }
    }
  }

  /** The keys of the basic file attributes the page collects before the Exif fields. */
  const BasicKeys: set<string> := {"fileName", "fileSize", "fileType", "lastModified", "dimensions", "resolution"}

  /** The merge { ...basicMetadata, ...exifData }: later keys win, so the Exif fields take precedence. */
  function Merge<V>(basic: map<string, V>, exif: map<string, V>): (r: map<string, V>)
    ensures r.Keys == basic.Keys + exif.Keys
    ensures forall k :: k in exif ==> r[k] == exif[k]
    ensures forall k :: k in basic && k !in exif ==> r[k] == basic[k]
  {
    basic + exif
  }

  /**
   * Merging the extracted fields into the basic attributes never overwrites
   * an attribute: the two key sets are disjoint, so the merge holds every
   * basic attribute unchanged next to every Exif field.
   */
  lemma MergeKeepsBasicAttributes(basic: map<string, Value>, buf: seq<byte>)
    requires basic.Keys <= BasicKeys
    ensures var r := Merge(basic, Extract(buf));
            && r.Keys == basic.Keys + Extract(buf).Keys
            && (forall k :: k in basic ==> r[k] == basic[k])
            && (forall k :: k in Extract(buf) ==> r[k] == Extract(buf)[k])
  {
    ExtractKeys(buf);
    assert BasicKeys !! KeysAt(Ifd0);
  }
}
