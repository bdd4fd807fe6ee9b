/**
 * Graceful degradation on truncated input: decoding a prefix of a buffer
 * never finds a field that the whole buffer does not also yield. The
 * values themselves may differ (a string cut short, an entry the prefix
 * does not reach yet that would overwrite an earlier one), so the statement
 * is about the set of keys.
 */
module Truncation {
  import opened Wrappers
  import opened Bytes
  import opened Text
  import opened Tiff
  import opened Jpeg

  /** An entry whose 12 bytes fit in a prefix reads the same from the whole buffer. */
  lemma ReadEntryPrefix(buf: seq<byte>, k: nat, at: nat, littleEndian: bool)
    requires k <= |buf| && at + 12 <= k
    ensures ReadEntry(buf[..k], at, littleEndian) == ReadEntry(buf, at, littleEndian)
  {
    var p := buf[..k];
    SafeUint16Prefix(buf, k, at, littleEndian);
    SafeUint16Prefix(buf, k, at + 2, littleEndian);
    SafeUint32Prefix(buf, k, at + 4, littleEndian);
    SafeUint32Prefix(buf, k, at + 8, littleEndian);
  }

  /**
   * One turn of the marker loop on a prefix either stops or does what it
   * does on the whole buffer.
   */
  lemma MarkerStepPrefix(buf: seq<byte>, k: nat, offset: nat)
    requires k <= |buf|
    ensures MarkerStep(buf[..k], offset) == Stop || MarkerStep(buf[..k], offset) == MarkerStep(buf, offset)
  {
    var p := buf[..k];
    if offset + 2 <= k {
      SafeUint16Prefix(buf, k, offset, false);
    }
    if offset + 4 <= k {
      SafeUint16Prefix(buf, k, offset + 2, false);
    }
  }

  /** The marker walk on a prefix finds nothing or the same APP1 segment. */
  lemma {:induction false} FindApp1Prefix(buf: seq<byte>, k: nat, offset: nat)
    requires k <= |buf|
    ensures FindApp1(buf[..k], offset) == None || FindApp1(buf[..k], offset) == FindApp1(buf, offset)
    decreases |buf| - offset
  {
    MarkerStepPrefix(buf, k, offset);
    match MarkerStep(buf[..k], offset)
    case Stop =>
    case App1At(_) =>
    case Skip(next) =>
      FindApp1Prefix(buf, k, next);
  }

  /**
   * The switch run on a prefix sets a field only if the whole buffer sets
   * the same field there, and follows the SubIFD pointer only if the whole
   * buffer follows it too.
   */
  lemma SwitchPrefix(buf: seq<byte>, k: nat, d: nat, e: IfdEntry, littleEndian: bool, level: Level)
    requires k <= |buf|
    ensures var r := Switch(buf[..k], d, e, littleEndian, level);
            var s := Switch(buf, d, e, littleEndian, level);
            && (r.Found? ==> s.Found? && s.field == r.field)
            && (r.EnterSubIfd? ==> s == r)
  {
    var p := buf[..k];
    if d + 2 <= k {
      SafeUint16Prefix(buf, k, d, littleEndian);
    }
    if d + 8 <= k {
      SafeUint32Prefix(buf, k, d, littleEndian);
      SafeUint32Prefix(buf, k, d + 4, littleEndian);
    }
  }

  /** The same, for an entry whose data offset has been checked against the prefix. */
  lemma DispatchPrefix(buf: seq<byte>, k: nat, tiffOffset: nat, entryOffset: nat, e: IfdEntry,
                       littleEndian: bool, level: Level)
    requires k <= |buf|
    ensures var r := Dispatch(buf[..k], tiffOffset, entryOffset, e, littleEndian, level);
            var s := Dispatch(buf, tiffOffset, entryOffset, e, littleEndian, level);
            && (r.Found? ==> s.Found? && s.field == r.field)
            && (r.EnterSubIfd? ==> s == r)
  {
    var d := DataOffset(e, entryOffset, tiffOffset);
    if d < k {
      SwitchPrefix(buf, k, d, e, littleEndian, level);
    }
  }

  /** Which of the seven field keys a record holds, one bit per field. */
  function Presence(a: map<string, Value>): bv8 {
    (if Key(Make) in a then 1 else 0)
    | (if Key(Model) in a then 2 else 0)
    | (if Key(CreationDate) in a then 4 else 0)
    | (if Key(Iso) in a then 8 else 0)
    | (if Key(ExposureTime) in a then 16 else 0)
    | (if Key(Aperture) in a then 32 else 0)
    | (if Key(FocalLength) in a then 64 else 0)
  }

  /**
   * Each of the seven field keys that `a` has, `b` has too. Records built
   * by the decoder hold no other key, so on them this is `a.Keys <= b.Keys`.
   * It is written as a bit mask rather than a set inclusion because one
   * bit-vector equation keeps the solver fast where the decode functions
   * are unfolded.
   */
  predicate KeysWithin(a: map<string, Value>, b: map<string, Value>) {
    Presence(a) & !Presence(b) == 0
  }

  lemma KeysWithinTransitive(a: map<string, Value>, b: map<string, Value>, c: map<string, Value>)
    requires KeysWithin(a, b) && KeysWithin(b, c)
    ensures KeysWithin(a, c)
  {
  }

  /** Writing the same key into both records keeps the first's keys within the second's. */
  lemma KeysWithinUpdate(a: map<string, Value>, b: map<string, Value>, key: string, v: Value, w: Value)
    requires KeysWithin(a, b)
    ensures KeysWithin(a[key := v], b[key := w])
  {
  }

  /** On records holding only field keys, KeysWithin is key inclusion. */
  lemma KeysWithinSubset(a: map<string, Value>, b: map<string, Value>)
    requires a.Keys <= KeysAt(Ifd0) && KeysWithin(a, b)
    ensures a.Keys <= b.Keys
  {
    forall key | key in a
      ensures key in b
    {
      assert key in KeysAt(Ifd0);
    }
  }

  lemma KeysWithinEmpty(b: map<string, Value>)
    ensures KeysWithin(map[], b)
  {
  }

  /** A decode step that only writes keys keeps every key already there. */
  lemma OnlyWritesKeysWithin(before: map<string, Value>, after: map<string, Value>, keys: set<string>)
    requires OnlyWrites(before, after, keys)
    ensures KeysWithin(before, after)
  {
  }

  /** Applying an entry of the whole buffer keeps every key already there. */
  lemma EntryStepKeepsKeys(buf: seq<byte>, tiffOffset: nat, entryOffset: nat, littleEndian: bool, level: Level,
                           fields: map<string, Value>)
    ensures KeysWithin(fields, EntryStep(buf, tiffOffset, entryOffset, littleEndian, level, fields))
  {
    EntryStepOnlyWrites(buf, tiffOffset, entryOffset, littleEndian, level, fields);
    OnlyWritesKeysWithin(fields, EntryStep(buf, tiffOffset, entryOffset, littleEndian, level, fields), KeysAt(level));
  }

  /** Decoding the rest of a directory of the whole buffer keeps every key already there. */
  lemma DecodeEntriesKeepsKeys(buf: seq<byte>, tiffOffset: nat, start: nat, littleEndian: bool, level: Level,
                               count: nat, i: nat, fields: map<string, Value>)
    requires i <= count
    ensures KeysWithin(fields, DecodeEntries(buf, tiffOffset, start, littleEndian, level, count, i, fields))
  {
    DecodeEntriesOnlyWrites(buf, tiffOffset, start, littleEndian, level, count, i, fields);
    OnlyWritesKeysWithin(fields, DecodeEntries(buf, tiffOffset, start, littleEndian, level, count, i, fields), KeysAt(level));
  }

  /** Decoding a directory of the whole buffer keeps every key already there. */
  lemma DecodeIfdKeepsKeys(buf: seq<byte>, tiffOffset: nat, start: nat, littleEndian: bool, level: Level,
                           fields: map<string, Value>)
    ensures KeysWithin(fields, DecodeIfd(buf, tiffOffset, start, littleEndian, level, fields))
  {
    DecodeIfdOnlyWrites(buf, tiffOffset, start, littleEndian, level, fields);
    OnlyWritesKeysWithin(fields, DecodeIfd(buf, tiffOffset, start, littleEndian, level, fields), KeysAt(level));
  }

  /**
   * An entry that fits in the prefix, applied to a record with fewer keys,
   * gives no key that the same entry applied from the whole buffer lacks.
   */
  lemma {:induction false} EntryStepKeysPrefix(buf: seq<byte>, k: nat, tiffOffset: nat, entryOffset: nat,
                                               littleEndian: bool, level: Level,
                                               f1: map<string, Value>, f2: map<string, Value>)
    requires k <= |buf| && entryOffset + 12 <= k
    requires KeysWithin(f1, f2)
    ensures KeysWithin(EntryStep(buf[..k], tiffOffset, entryOffset, littleEndian, level, f1),
                       EntryStep(buf, tiffOffset, entryOffset, littleEndian, level, f2))
    decreases Rank(level), 0, 1, 0
  {
    var p := buf[..k];
    ReadEntryPrefix(buf, k, entryOffset, littleEndian);
    var e := ReadEntry(buf, entryOffset, littleEndian).value;
    EntryStepActs(p, tiffOffset, entryOffset, littleEndian, level, f1, e);
    EntryStepActs(buf, tiffOffset, entryOffset, littleEndian, level, f2, e);
    DispatchPrefix(buf, k, tiffOffset, entryOffset, e, littleEndian, level);
    ActKeysPrefix(buf, k, tiffOffset, littleEndian, level, Dispatch(p, tiffOffset, entryOffset, e, littleEndian, level),
                  Dispatch(buf, tiffOffset, entryOffset, e, littleEndian, level), f1, f2);
  }

  /** EntryStepKeysPrefix for every pair of records at once. */
  lemma {:induction false} EntryStepKeysPrefixAll(buf: seq<byte>, k: nat, tiffOffset: nat, entryOffset: nat,
                                                  littleEndian: bool, level: Level)
    ensures k <= |buf| && entryOffset + 12 <= k ==>
              forall g1, g2 {:trigger EntryStep(buf[..k], tiffOffset, entryOffset, littleEndian, level, g1),
                                      EntryStep(buf, tiffOffset, entryOffset, littleEndian, level, g2)} ::
                KeysWithin(g1, g2) ==>
                  KeysWithin(EntryStep(buf[..k], tiffOffset, entryOffset, littleEndian, level, g1),
                             EntryStep(buf, tiffOffset, entryOffset, littleEndian, level, g2))
    decreases Rank(level), 0, 1, 1
  {
    if k <= |buf| && entryOffset + 12 <= k {
      forall g1, g2 | KeysWithin(g1, g2)
        ensures KeysWithin(EntryStep(buf[..k], tiffOffset, entryOffset, littleEndian, level, g1),
                           EntryStep(buf, tiffOffset, entryOffset, littleEndian, level, g2))
      {
        EntryStepKeysPrefix(buf, k, tiffOffset, entryOffset, littleEndian, level, g1, g2);
      }
    }
  }

  /**
   * An outcome from the prefix against the outcome of the same entry from
   * the whole buffer: the prefix's record ends with no key the whole
   * buffer's lacks.
   */
  lemma {:induction false} ActKeysPrefix(buf: seq<byte>, k: nat, tiffOffset: nat, littleEndian: bool, level: Level,
                                         r: Outcome, s: Outcome, f1: map<string, Value>, f2: map<string, Value>)
    requires k <= |buf|
    requires r.EnterSubIfd? ==> level == Ifd0
    requires s.EnterSubIfd? ==> level == Ifd0
    requires r.Found? ==> s.Found? && s.field == r.field
    requires r.EnterSubIfd? ==> s == r
    requires KeysWithin(f1, f2)
    ensures KeysWithin(Act(buf[..k], tiffOffset, littleEndian, level, r, f1),
                       Act(buf, tiffOffset, littleEndian, level, s, f2))
    decreases Rank(level), 0, 0, 0
  {
    if r.EnterSubIfd? {
      DecodeIfdKeysPrefix(buf, k, tiffOffset, tiffOffset + r.pointer, littleEndian, ExifSubIfd, f1, f2);
    } else if r.Found? {
      ActFoundKeysPrefix(buf, k, tiffOffset, littleEndian, level, r, s, f1, f2);
    } else {
      ActSkipKeysPrefix(buf, k, tiffOffset, littleEndian, level, r, s, f1, f2);
    }
  }

  /** A field found from the prefix is found, maybe with another value, from the whole buffer. */
  lemma ActFoundKeysPrefix(buf: seq<byte>, k: nat, tiffOffset: nat, littleEndian: bool, level: Level,
                           r: Outcome, s: Outcome, f1: map<string, Value>, f2: map<string, Value>)
    requires k <= |buf| && r.Found? && s.Found? && s.field == r.field
    requires KeysWithin(f1, f2)
    ensures KeysWithin(Act(buf[..k], tiffOffset, littleEndian, level, r, f1),
                       Act(buf, tiffOffset, littleEndian, level, s, f2))
  {
    KeysWithinUpdate(f1, f2, Key(r.field), r.value, s.value);
  }

  /** An entry the prefix skips leaves its record alone; the whole buffer's only adds keys. */
  lemma ActSkipKeysPrefix(buf: seq<byte>, k: nat, tiffOffset: nat, littleEndian: bool, level: Level,
                          r: Outcome, s: Outcome, f1: map<string, Value>, f2: map<string, Value>)
    requires k <= |buf| && !r.Found? && !r.EnterSubIfd?
    requires s.EnterSubIfd? ==> level == Ifd0
    requires KeysWithin(f1, f2)
    ensures KeysWithin(Act(buf[..k], tiffOffset, littleEndian, level, r, f1),
                       Act(buf, tiffOffset, littleEndian, level, s, f2))
  {
    if s.EnterSubIfd? {
      DecodeIfdKeepsKeys(buf, tiffOffset, tiffOffset + s.pointer, littleEndian, ExifSubIfd, f2);
    }
    KeysWithinTransitive(f1, f2, Act(buf, tiffOffset, littleEndian, level, s, f2));
  }

  /**
   * Entries i, i+1, ... decoded from a prefix, into a record with fewer
   * keys, give no key that the same entries decoded from the whole buffer
   * lack.
   */
  lemma {:induction false} DecodeEntriesKeysPrefix(buf: seq<byte>, k: nat, tiffOffset: nat, start: nat,
                                                   littleEndian: bool, level: Level, count: nat, i: nat,
                                                   f1: map<string, Value>, f2: map<string, Value>)
    requires k <= |buf| && i <= count
    requires KeysWithin(f1, f2)
    ensures KeysWithin(DecodeEntries(buf[..k], tiffOffset, start, littleEndian, level, count, i, f1),
                       DecodeEntries(buf, tiffOffset, start, littleEndian, level, count, i, f2))
    decreases Rank(level), 1, count - i, 2
  {
    if i == count || EntryOffset(start, i) + 12 > k {
      DecodeEntriesKeysPrefixStop(buf, k, tiffOffset, start, littleEndian, level, count, i, f1, f2);
    } else {
      var p := buf[..k];
      forall g1, g2 {:trigger DecodeEntries(p, tiffOffset, start, littleEndian, level, count, i + 1, g1),
                              DecodeEntries(buf, tiffOffset, start, littleEndian, level, count, i + 1, g2)}
        | KeysWithin(g1, g2)
        ensures KeysWithin(DecodeEntries(p, tiffOffset, start, littleEndian, level, count, i + 1, g1),
                           DecodeEntries(buf, tiffOffset, start, littleEndian, level, count, i + 1, g2))
      {
        DecodeEntriesKeysPrefix(buf, k, tiffOffset, start, littleEndian, level, count, i + 1, g1, g2);
      }
      EntryStepKeysPrefixAll(buf, k, tiffOffset, EntryOffset(start, i), littleEndian, level);
      DecodeEntriesKeysPrefixStep(buf, k, tiffOffset, start, littleEndian, level, count, i, f1, f2);
    }
  }

  /** Where the prefix's decode stops, the whole buffer's only adds keys. */
  lemma {:induction false} DecodeEntriesKeysPrefixStop(buf: seq<byte>, k: nat, tiffOffset: nat, start: nat,
                                    littleEndian: bool, level: Level, count: nat, i: nat,
                                    f1: map<string, Value>, f2: map<string, Value>)
    requires k <= |buf| && i <= count && (i == count || EntryOffset(start, i) + 12 > k)
    requires KeysWithin(f1, f2)
    ensures KeysWithin(DecodeEntries(buf[..k], tiffOffset, start, littleEndian, level, count, i, f1),
                       DecodeEntries(buf, tiffOffset, start, littleEndian, level, count, i, f2))
  {
    DecodeEntriesStop(buf[..k], tiffOffset, start, littleEndian, level, count, i, f1);
    DecodeEntriesKeepsKeys(buf, tiffOffset, start, littleEndian, level, count, i, f2);
    KeysWithinTransitive(f1, f2, DecodeEntries(buf, tiffOffset, start, littleEndian, level, count, i, f2));
  }

  /**
   * Entry i fits in the prefix: both decodes apply it and go on, so what
   * holds of the records after entry i holds of the whole decodes.
   */
  lemma DecodeEntriesKeysPrefixStep(buf: seq<byte>, k: nat, tiffOffset: nat, start: nat,
                                    littleEndian: bool, level: Level, count: nat, i: nat,
                                    f1: map<string, Value>, f2: map<string, Value>)
    ensures k <= |buf| && i < count && EntryOffset(start, i) + 12 <= k
            && KeysWithin(DecodeEntries(buf[..k], tiffOffset, start, littleEndian, level, count, i + 1,
                                        EntryStep(buf[..k], tiffOffset, EntryOffset(start, i), littleEndian, level, f1)),
                          DecodeEntries(buf, tiffOffset, start, littleEndian, level, count, i + 1,
                                        EntryStep(buf, tiffOffset, EntryOffset(start, i), littleEndian, level, f2)))
            ==> KeysWithin(DecodeEntries(buf[..k], tiffOffset, start, littleEndian, level, count, i, f1),
                           DecodeEntries(buf, tiffOffset, start, littleEndian, level, count, i, f2))
  {
    if k <= |buf| && i < count && EntryOffset(start, i) + 12 <= k {
      DecodeEntriesNext(buf[..k], tiffOffset, start, littleEndian, level, count, i, f1);
      DecodeEntriesNext(buf, tiffOffset, start, littleEndian, level, count, i, f2);
    }
  }

  lemma {:induction false} DecodeIfdKeysPrefix(buf: seq<byte>, k: nat, tiffOffset: nat, start: nat,
                                               littleEndian: bool, level: Level,
                                               f1: map<string, Value>, f2: map<string, Value>)
    requires k <= |buf|
    requires KeysWithin(f1, f2)
    ensures KeysWithin(DecodeIfd(buf[..k], tiffOffset, start, littleEndian, level, f1),
                       DecodeIfd(buf, tiffOffset, start, littleEndian, level, f2))
    decreases Rank(level), 2, 0, 0
  {
    var p := buf[..k];
    match EntryCount(p, start, littleEndian)
    case None =>
      DecodeIfdKeepsKeys(buf, tiffOffset, start, littleEndian, level, f2);
      KeysWithinTransitive(f1, f2, DecodeIfd(buf, tiffOffset, start, littleEndian, level, f2));
    case Some(count) =>
      SafeUint16Prefix(buf, k, start, littleEndian);
      assert EntryCount(buf, start, littleEndian) == Some(count);
      DecodeEntriesKeysPrefix(buf, k, tiffOffset, start, littleEndian, level, count, 0, f1, f2);
  }

  /** Unfolding DecodeTiff at a header that has been read. */
  lemma DecodeTiffReads(buf: seq<byte>, tiffOffset: nat, h: TiffHeader)
    requires ReadTiffHeader(buf, tiffOffset) == Some(h)
    ensures DecodeTiff(buf, tiffOffset) == DecodeIfd(buf, tiffOffset, tiffOffset + h.ifd0Offset, h.littleEndian, Ifd0, map[])
  {
  }

  /** Unfolding DecodeTiff where no header can be read. */
  lemma DecodeTiffEmpty(buf: seq<byte>, tiffOffset: nat)
    requires ReadTiffHeader(buf, tiffOffset) == None
    ensures DecodeTiff(buf, tiffOffset) == map[]
  {
  }

  lemma DecodeTiffKeysPrefix(buf: seq<byte>, k: nat, tiffOffset: nat)
    requires k <= |buf|
    ensures KeysWithin(DecodeTiff(buf[..k], tiffOffset), DecodeTiff(buf, tiffOffset))
  {
    match ReadTiffHeader(buf[..k], tiffOffset)
    case None =>
      DecodeTiffEmpty(buf[..k], tiffOffset);
      KeysWithinEmpty(DecodeTiff(buf, tiffOffset));
    case Some(h) =>
      DecodeTiffKeysPrefixRead(buf, k, tiffOffset, h);
  }

  /** A header read from the prefix reads the same from the whole buffer, and so does IFD0. */
  lemma DecodeTiffKeysPrefixRead(buf: seq<byte>, k: nat, tiffOffset: nat, h: TiffHeader)
    requires k <= |buf| && ReadTiffHeader(buf[..k], tiffOffset) == Some(h)
    ensures KeysWithin(DecodeTiff(buf[..k], tiffOffset), DecodeTiff(buf, tiffOffset))
  {
    SafeUint16Prefix(buf, k, tiffOffset, false);
    SafeUint32Prefix(buf, k, tiffOffset + 4, h.littleEndian);
    assert ReadTiffHeader(buf, tiffOffset) == Some(h);
    DecodeTiffReads(buf[..k], tiffOffset, h);
    DecodeTiffReads(buf, tiffOffset, h);
    DecodeIfdKeysPrefix(buf, k, tiffOffset, tiffOffset + h.ifd0Offset, h.littleEndian, Ifd0, map[], map[]);
  }

  lemma DecodeApp1KeysPrefix(buf: seq<byte>, k: nat, lengthAt: nat)
    requires k <= |buf|
    ensures KeysWithin(DecodeApp1(buf[..k], lengthAt), DecodeApp1(buf, lengthAt))
  {
    var p := buf[..k];
    if DecodeApp1(p, lengthAt) != map[] {
      DecodeApp1Guards(p, lengthAt);
      SafeUint16Prefix(buf, k, lengthAt, false);
      StringAtPrefix(buf, k, lengthAt + 2, 4);
      assert DecodeApp1(p, lengthAt) == DecodeTiff(p, lengthAt + 8);
      assert DecodeApp1(buf, lengthAt) == DecodeTiff(buf, lengthAt + 8);
      DecodeTiffKeysPrefix(buf, k, lengthAt + 8);
    }
  }

  /**
   * Cutting the buffer at any point never produces a field the whole
   * buffer does not: the keys extracted from a prefix are a subset of the
   * keys extracted from the whole.
   */
  lemma ExtractTruncated(buf: seq<byte>, k: nat)
    requires k <= |buf|
    ensures Extract(buf[..k]).Keys <= Extract(buf).Keys
  {
    var p := buf[..k];
    if |p| >= 12 && SafeUint16(p, 0, false) == Some(SOI) {
      SafeUint16Prefix(buf, k, 0, false);
      FindApp1Prefix(buf, k, 2);
      if FindApp1(p, 2).Some? {
        DecodeApp1KeysPrefix(buf, k, FindApp1(p, 2).value);
        ExtractKeys(p);
        KeysWithinSubset(Extract(p), Extract(buf));
      }
    }
  }
}
