/**
 * The TIFF structure inside the Exif APP1 segment: the 8-byte header, the
 * 12-byte directory entries, the tag dispatcher that turns an entry into a
 * field of the result, and the directory decoder shared by IFD0 and the
 * Exif SubIFD.
 */
module Tiff {
  import opened Wrappers
  import opened Bytes
  import opened Text
  import opened Format

  // ---------------------------------------------------------------- header

  /** The TIFF header: byte order and the offset of IFD0 from the header's start. */
  datatype TiffHeader = TiffHeader(littleEndian: bool, ifd0Offset: nat)

  /**
   * The header at `tiffOffset`: absent unless all 8 bytes are in the buffer;
   * little-endian exactly when the order mark reads 0x4949 ("II"); IFD0's
   * offset is the 32-bit word at `tiffOffset + 4` in that byte order.
   */
  function ReadTiffHeader(buf: seq<byte>, tiffOffset: nat): (r: Option<TiffHeader>)
    ensures r.Some? <==> tiffOffset + 8 <= |buf|
    ensures r.Some? ==> (r.value.littleEndian <==> buf[tiffOffset] == 0x49 && buf[tiffOffset + 1] == 0x49)
    ensures r.Some? ==> r.value.ifd0Offset == Uint32(buf[tiffOffset + 4..tiffOffset + 8], r.value.littleEndian)
  {
    if tiffOffset + 8 > |buf| then None
    else
      match SafeUint16(buf, tiffOffset, false)
      case None => None
      case Some(byteOrder) =>
        var littleEndian := byteOrder == 0x4949;
        match SafeUint32(buf, tiffOffset + 4, littleEndian)
        case None => None
        case Some(ifdOffset) => Some(TiffHeader(littleEndian, ifdOffset))
  }

  /** The 8 bytes that encode a header ("II" or "MM", the magic 42, IFD0's offset). */
  function TiffHeaderBytes(h: TiffHeader): (bs: seq<byte>)
    requires h.ifd0Offset < 0x1_0000_0000
    ensures |bs| == 8
  {
    (if h.littleEndian then [0x49, 0x49, 0x2A, 0x00] else [0x4D, 0x4D, 0x00, 0x2A])
      + Uint32Bytes(h.ifd0Offset, h.littleEndian)
  }

  /** A header written anywhere in a buffer is read back as itself. */
  lemma TiffHeaderRoundTrip(before: seq<byte>, h: TiffHeader, after: seq<byte>)
    requires h.ifd0Offset < 0x1_0000_0000
    ensures ReadTiffHeader(before + TiffHeaderBytes(h) + after, |before|) == Some(h)
  {
    var buf := before + TiffHeaderBytes(h) + after;
    var at := |before|;
    assert buf[at..at + 8] == TiffHeaderBytes(h);
    assert buf[at + 4..at + 8] == Uint32Bytes(h.ifd0Offset, h.littleEndian);
    Uint32RoundTrip(h.ifd0Offset, h.littleEndian);
  }

  // ---------------------------------------------------------------- entries

  /** TIFF field types the decoder looks at (TIFF 6.0, Section 2). */
  const ASCII: nat := 2
  const SHORT: nat := 3
  const LONG: nat := 4
  const RATIONAL: nat := 5

  /** One 12-byte directory entry: tag, field type, count, value-or-offset. */
  datatype IfdEntry = IfdEntry(tag: nat, fieldType: nat, count: nat, valueOffset: nat)

  predicate ValidEntry(e: IfdEntry) {
    e.tag < 0x1_0000 && e.fieldType < 0x1_0000 && e.count < 0x1_0000_0000 && e.valueOffset < 0x1_0000_0000
  }

  /**
   * The entry at `at`, read as uint16, uint16, uint32, uint32 in the given
   * byte order; absent exactly when its 12 bytes do not fit.
   */
  function ReadEntry(buf: seq<byte>, at: nat, littleEndian: bool): (r: Option<IfdEntry>)
    ensures r.Some? <==> at + 12 <= |buf|
    ensures r.Some? ==> ValidEntry(r.value)
  {
    match SafeUint16(buf, at, littleEndian)
    case None => None
    case Some(tag) =>
      match SafeUint16(buf, at + 2, littleEndian)
      case None => None
      case Some(fieldType) =>
        match SafeUint32(buf, at + 4, littleEndian)
        case None => None
        case Some(count) =>
          match SafeUint32(buf, at + 8, littleEndian)
          case None => None
          case Some(valueOffset) => Some(IfdEntry(tag, fieldType, count, valueOffset))
  }

  /** The 12 bytes that encode an entry in the given byte order. */
  function EntryBytes(e: IfdEntry, littleEndian: bool): (bs: seq<byte>)
    requires ValidEntry(e)
    ensures |bs| == 12
  {
    Uint16Bytes(e.tag, littleEndian) + Uint16Bytes(e.fieldType, littleEndian)
      + Uint32Bytes(e.count, littleEndian) + Uint32Bytes(e.valueOffset, littleEndian)
  }

  /** An entry written anywhere in a buffer is read back as itself. */
  lemma EntryRoundTrip(before: seq<byte>, e: IfdEntry, littleEndian: bool, after: seq<byte>)
    requires ValidEntry(e)
    ensures ReadEntry(before + EntryBytes(e, littleEndian) + after, |before|, littleEndian) == Some(e)
  {
    var buf := before + EntryBytes(e, littleEndian) + after;
    var at := |before|;
    assert buf[at..at + 2] == Uint16Bytes(e.tag, littleEndian);
    assert buf[at + 2..at + 4] == Uint16Bytes(e.fieldType, littleEndian);
    assert buf[at + 4..at + 8] == Uint32Bytes(e.count, littleEndian);
    assert buf[at + 8..at + 12] == Uint32Bytes(e.valueOffset, littleEndian);
    Uint16RoundTrip(e.tag, littleEndian);
    Uint16RoundTrip(e.fieldType, littleEndian);
    Uint32RoundTrip(e.count, littleEndian);
    Uint32RoundTrip(e.valueOffset, littleEndian);
  }

  /**
   * Whether the entry's value sits in its own 4-byte value field: a SHORT
   * with count at most 2, or a LONG with count 1. Every other entry points
   * at its value.
   */
  predicate IsInline(e: IfdEntry) {
    (e.fieldType == SHORT && e.count <= 2) || (e.fieldType == LONG && e.count == 1)
  }

  /** Where the entry's value is: in the entry at `entryOffset + 8`, or at TIFF start + valueOffset. */
  function DataOffset(e: IfdEntry, entryOffset: nat, tiffOffset: nat): (d: nat)
    ensures IsInline(e) ==> d == entryOffset + 8
    ensures !IsInline(e) ==> d == tiffOffset + e.valueOffset
  {
    if IsInline(e) then entryOffset + 8 else tiffOffset + e.valueOffset
  }

  /** Bytes per value of a TIFF field type (TIFF 6.0, Section 2); 0 for types not listed. */
  function TypeSize(fieldType: nat): nat {
    if fieldType == 1 || fieldType == ASCII || fieldType == 6 || fieldType == 7 then 1
    else if fieldType == SHORT || fieldType == 8 then 2
    else if fieldType == LONG || fieldType == 9 || fieldType == 11 then 4
    else if fieldType == RATIONAL || fieldType == 10 || fieldType == 12 then 8
    else 0
  }

  /** Only values that fit in the 4-byte value field are taken to be inline. */
  lemma InlineValuesFit(e: IfdEntry)
    requires IsInline(e)
    ensures TypeSize(e.fieldType) * e.count <= 4
  {
  }

  // ---------------------------------------------------------------- fields

  /** A value in the result record: a string, or (for iso) a number. */
  datatype Value = Str(text: string) | Num(number: nat)

  /** The fields the decoder fills. */
  datatype Field = Make | Model | CreationDate | Iso | ExposureTime | Aperture | FocalLength

  /** The field's key in the result record. */
  function Key(f: Field): string {
    match f
    case Make => "Make"
    case Model => "Model"
    case CreationDate => "creationDate"
    case Iso => "iso"
    case ExposureTime => "exposureTime"
    case Aperture => "aperture"
    case FocalLength => "focalLength"
  }

  /** The Exif tag the field is read from. */
  function TagOf(f: Field): nat {
    match f
    case Make => 0x010F
    case Model => 0x0110
    case CreationDate => 0x9003
    case Iso => 0x8827
    case ExposureTime => 0x829A
    case Aperture => 0x829D
    case FocalLength => 0x920A
  }

  /** The one field type the decoder accepts for the field. */
  function TypeOf(f: Field): nat {
    match f
    case Make => ASCII
    case Model => ASCII
    case CreationDate => ASCII
    case Iso => SHORT
    case ExposureTime => RATIONAL
    case Aperture => RATIONAL
    case FocalLength => RATIONAL
  }

  /** The tag whose value is the offset of the Exif SubIFD. */
  const ExifIfdPointerTag: nat := 0x8769

  /** The two directories: IFD0, and the Exif SubIFD reached from it. */
  datatype Level = Ifd0 | ExifSubIfd

  /** Which fields a directory's switch reads: all in IFD0, the four shot fields in the SubIFD. */
  predicate ReadAt(level: Level, f: Field) {
    level == Ifd0 || f in {Iso, ExposureTime, Aperture, FocalLength}
  }

  /** The record keys a directory's switch may write: the keys of the fields it reads. */
  function KeysAt(level: Level): set<string> {
    set f: Field | ReadAt(level, f) :: Key(f)
  }

  lemma KeyOfReadField(level: Level, f: Field)
    requires ReadAt(level, f)
    ensures Key(f) in KeysAt(level)
  {
  }

  /** How a directory entry ended up: a field, the SubIFD pointer, or why nothing was set. */
  datatype Outcome =
    | Found(field: Field, value: Value)
    | EnterSubIfd(pointer: nat)
    | OutOfBounds
    | TypeMismatch
    | InvalidValue
    | Unrecognized

  /** The numerator and denominator of the unsigned rational at `d`. */
  function ReadRational(buf: seq<byte>, d: nat, littleEndian: bool): (nd: (nat, nat))
    requires d + 8 <= |buf|
  {
    (Uint32(buf[d..d + 4], littleEndian), Uint32(buf[d + 4..d + 8], littleEndian))
  }

  /** The display text of a rational-valued field. */
  function RationalText(f: Field, num: nat, den: nat): Option<string> {
    match f
    case ExposureTime => ExposureText(num, den)
    case Aperture => ApertureText(num, den)
    case FocalLength => FocalLengthText(num, den)
    case _ => None
  }

  /** The longest string read for an ASCII field. */
  function MaxLengthOf(f: Field): nat {
    if f == CreationDate then 20 else 100
  }

  /** An ASCII field: the string at the data offset, at most min(count, MaxLengthOf(f)) bytes. */
  function AsciiOutcome(f: Field, buf: seq<byte>, d: nat, e: IfdEntry): Outcome {
    if e.fieldType == ASCII then Found(f, Str(StringAt(buf, d, Min(e.count, MaxLengthOf(f)))))
    else TypeMismatch
  }

  /** The iso field: the SHORT at the data offset. */
  function IsoOutcome(buf: seq<byte>, d: nat, e: IfdEntry, littleEndian: bool): Outcome {
    if e.fieldType == SHORT && d + 2 <= |buf| then
      match SafeUint16(buf, d, littleEndian)
      case None => OutOfBounds
      case Some(v) => Found(Iso, Num(v))
    else if e.fieldType == SHORT then OutOfBounds
    else TypeMismatch
  }

  /** A rational field: both words read at the data offset, then formatted. */
  function RationalOutcome(f: Field, buf: seq<byte>, d: nat, e: IfdEntry, littleEndian: bool): Outcome {
    if e.fieldType == RATIONAL && d + 8 <= |buf| then
      match SafeUint32(buf, d, littleEndian)
      case None => OutOfBounds
      case Some(num) =>
        match SafeUint32(buf, d + 4, littleEndian)
        case None => OutOfBounds
        case Some(den) =>
          if den == 0 then InvalidValue
          else
            match RationalText(f, num, den)
            case None => InvalidValue
            case Some(text) => Found(f, Str(text))
    else if e.fieldType == RATIONAL then OutOfBounds
    else TypeMismatch
  }

  /**
   * What an entry does: nothing when its data offset is outside the buffer,
   * otherwise what the directory's switch makes of it.
   */
  function Dispatch(buf: seq<byte>, tiffOffset: nat, entryOffset: nat, e: IfdEntry, littleEndian: bool, level: Level)
    : (r: Outcome)
    ensures r.Found? ==> e.tag == TagOf(r.field) && e.fieldType == TypeOf(r.field) && ReadAt(level, r.field)
    ensures r.EnterSubIfd? ==> && level == Ifd0 && e.tag == ExifIfdPointerTag && r.pointer == e.valueOffset
                               && DataOffset(e, entryOffset, tiffOffset) + 2 <= |buf|
    ensures DataOffset(e, entryOffset, tiffOffset) >= |buf| ==> r == OutOfBounds
  {
    var d := DataOffset(e, entryOffset, tiffOffset);
    if d >= |buf| then OutOfBounds else Switch(buf, d, e, littleEndian, level)
  }

  /**
   * The switch on the entry's tag, for a value at `d`: IFD0 knows all seven
   * fields and the SubIFD pointer, the SubIFD only iso, exposureTime,
   * aperture and focalLength.
   */
  function Switch(buf: seq<byte>, d: nat, e: IfdEntry, littleEndian: bool, level: Level): (r: Outcome)
    ensures r.Found? ==> e.tag == TagOf(r.field) && e.fieldType == TypeOf(r.field) && ReadAt(level, r.field)
    ensures r.EnterSubIfd? ==> level == Ifd0 && e.tag == ExifIfdPointerTag && r.pointer == e.valueOffset && d + 2 <= |buf|
  {
    if e.tag == 0x010F && level == Ifd0 then AsciiOutcome(Make, buf, d, e)
    else if e.tag == 0x0110 && level == Ifd0 then AsciiOutcome(Model, buf, d, e)
    else if e.tag == 0x9003 && level == Ifd0 then AsciiOutcome(CreationDate, buf, d, e)
    else if e.tag == 0x8827 then IsoOutcome(buf, d, e, littleEndian)
    else if e.tag == 0x829A then RationalOutcome(ExposureTime, buf, d, e, littleEndian)
    else if e.tag == 0x829D then RationalOutcome(Aperture, buf, d, e, littleEndian)
    else if e.tag == 0x920A then RationalOutcome(FocalLength, buf, d, e, littleEndian)
    else if e.tag == ExifIfdPointerTag && level == Ifd0 then
      if d + 2 <= |buf| then EnterSubIfd(e.valueOffset) else OutOfBounds
    else Unrecognized
  }

  /** A found field written into the record; any other outcome leaves it as it is. */
  function Assign(fields: map<string, Value>, outcome: Outcome): map<string, Value> {
    if outcome.Found? then fields[Key(outcome.field) := outcome.value] else fields
  }

  /** The bytes a field's value needs at its data offset. */
  function ValueBytes(f: Field): nat {
    match f
    case Make => 1
    case Model => 1
    case CreationDate => 1
    case Iso => 2
    case _ => 8
  }

  /**
   * The value the table gives a field, read at data offset `d`, when its
   * bytes are in the buffer: the bounded string, the SHORT, or the formatted
   * rational (absent for a rational that formats to nothing).
   */
  function TableValue(f: Field, buf: seq<byte>, d: nat, e: IfdEntry, littleEndian: bool): Option<Value>
    requires d + ValueBytes(f) <= |buf|
  {
    match f
    case Iso => Some(Num(Uint16(buf[d..d + 2], littleEndian)))
    case ExposureTime => RationalValue(f, buf, d, littleEndian)
    case Aperture => RationalValue(f, buf, d, littleEndian)
    case FocalLength => RationalValue(f, buf, d, littleEndian)
    case _ => Some(Str(StringAt(buf, d, Min(e.count, MaxLengthOf(f)))))
  }

  function RationalValue(f: Field, buf: seq<byte>, d: nat, littleEndian: bool): Option<Value>
    requires d + 8 <= |buf|
  {
    var (num, den) := ReadRational(buf, d, littleEndian);
    match RationalText(f, num, den)
    case None => None
    case Some(text) => Some(Str(text))
  }

  /**
   * The dispatcher agrees with the field table: an entry carrying a field's
   * tag, in a directory that reads that field, yields Found(f, v) exactly
   * when its type is the field's type, the value's bytes are in the buffer,
   * and the table gives the value v.
   */
  lemma DispatchMatchesTable(buf: seq<byte>, tiffOffset: nat, entryOffset: nat, e: IfdEntry,
                             littleEndian: bool, level: Level, f: Field, v: Value)
    requires e.tag == TagOf(f) && ReadAt(level, f)
    ensures var d := DataOffset(e, entryOffset, tiffOffset);
            Dispatch(buf, tiffOffset, entryOffset, e, littleEndian, level) == Found(f, v)
            <==> e.fieldType == TypeOf(f) && d + ValueBytes(f) <= |buf|
                 && TableValue(f, buf, d, e, littleEndian) == Some(v)
  {
    var d := DataOffset(e, entryOffset, tiffOffset);
    if d < |buf| {
      SwitchByField(buf, d, e, littleEndian, level, f);
      if f in {ExposureTime, Aperture, FocalLength} {
        RationalMatchesTable(f, buf, d, e, littleEndian, v);
      }
    }
  }

  /** The switch's case for a field. */
  function FieldOutcome(f: Field, buf: seq<byte>, d: nat, e: IfdEntry, littleEndian: bool): Outcome {
    match f
    case Iso => IsoOutcome(buf, d, e, littleEndian)
    case ExposureTime => RationalOutcome(f, buf, d, e, littleEndian)
    case Aperture => RationalOutcome(f, buf, d, e, littleEndian)
    case FocalLength => RationalOutcome(f, buf, d, e, littleEndian)
    case _ => AsciiOutcome(f, buf, d, e)
  }

  lemma SwitchByField(buf: seq<byte>, d: nat, e: IfdEntry, littleEndian: bool, level: Level, f: Field)
    requires e.tag == TagOf(f) && ReadAt(level, f)
    ensures Switch(buf, d, e, littleEndian, level) == FieldOutcome(f, buf, d, e, littleEndian)
  {
  }

  lemma RationalMatchesTable(f: Field, buf: seq<byte>, d: nat, e: IfdEntry, littleEndian: bool, v: Value)
    requires f in {ExposureTime, Aperture, FocalLength}
    ensures RationalOutcome(f, buf, d, e, littleEndian) == Found(f, v)
        <==> e.fieldType == RATIONAL && d + 8 <= |buf| && RationalValue(f, buf, d, littleEndian) == Some(v)
  {
    if e.fieldType == RATIONAL && d + 8 <= |buf| {
      var (num, den) := ReadRational(buf, d, littleEndian);
      assert SafeUint32(buf, d, littleEndian) == Some(num);
      assert SafeUint32(buf, d + 4, littleEndian) == Some(den);
      assert RationalText(f, num, 0) == None;
    }
  }

  /**
   * A rational whose denominator word is 0 sets no field and follows no
   * pointer, whatever its numerator.
   */
  lemma ZeroDenominatorSetsNothing(buf: seq<byte>, tiffOffset: nat, entryOffset: nat, e: IfdEntry,
                                   littleEndian: bool, level: Level)
    requires e.tag in {0x829A, 0x829D, 0x920A}
    requires var d := DataOffset(e, entryOffset, tiffOffset);
             d + 8 <= |buf| && Uint32(buf[d + 4..d + 8], littleEndian) == 0
    ensures !Dispatch(buf, tiffOffset, entryOffset, e, littleEndian, level).Found?
  {
  }

  /** A tag outside the table and other than the SubIFD pointer never sets a field. */
  lemma UnknownTagSetsNothing(buf: seq<byte>, tiffOffset: nat, entryOffset: nat, e: IfdEntry,
                              littleEndian: bool, level: Level)
    requires forall f: Field :: e.tag != TagOf(f)
    requires e.tag != ExifIfdPointerTag
    ensures Dispatch(buf, tiffOffset, entryOffset, e, littleEndian, level) in {OutOfBounds, Unrecognized}
  {
    assert e.tag != TagOf(Make) && e.tag != TagOf(Model) && e.tag != TagOf(CreationDate);
    assert e.tag != TagOf(Iso) && e.tag != TagOf(ExposureTime);
    assert e.tag != TagOf(Aperture) && e.tag != TagOf(FocalLength);
  }

  /**
   * The two directory switches agree on the tags they share: for every tag
   * other than Make, Model, DateTimeOriginal and the SubIFD pointer, IFD0 and
   * the SubIFD dispatch an entry the same way.
   */
  lemma SwitchesAgreeOnSharedTags(buf: seq<byte>, tiffOffset: nat, entryOffset: nat, e: IfdEntry,
                                  littleEndian: bool)
    requires e.tag !in {0x010F, 0x0110, 0x9003, ExifIfdPointerTag}
    ensures Dispatch(buf, tiffOffset, entryOffset, e, littleEndian, Ifd0)
         == Dispatch(buf, tiffOffset, entryOffset, e, littleEndian, ExifSubIfd)
  {
  }

  /** The SubIFD switch never follows a pointer, and never sets Make, Model or creationDate. */
  lemma SubIfdSwitchIsNarrower(buf: seq<byte>, tiffOffset: nat, entryOffset: nat, e: IfdEntry,
                               littleEndian: bool)
    ensures var r := Dispatch(buf, tiffOffset, entryOffset, e, littleEndian, ExifSubIfd);
            !r.EnterSubIfd? && (r.Found? ==> r.field !in {Make, Model, CreationDate})
  {
  }

  /** The SubIFD pointer is followed whenever the data offset leaves room for two bytes, whatever the entry's type. */
  lemma PointerFollowed(buf: seq<byte>, tiffOffset: nat, entryOffset: nat, e: IfdEntry, littleEndian: bool)
    requires e.tag == ExifIfdPointerTag
    requires DataOffset(e, entryOffset, tiffOffset) + 2 <= |buf|
    ensures Dispatch(buf, tiffOffset, entryOffset, e, littleEndian, Ifd0) == EnterSubIfd(e.valueOffset)
  {
  }

  // ---------------------------------------------------------------- directories

  /** The defensive cap on a directory's entry count. */
  const MaxEntries: nat := 200

  function Rank(level: Level): nat {
    if level == Ifd0 then 1 else 0
  }

  /** The directory's entry count, if its 2 bytes fit and it is at most 200. */
  function EntryCount(buf: seq<byte>, start: nat, littleEndian: bool): (r: Option<nat>)
    ensures r.Some? ==> r.value <= MaxEntries
    ensures r.Some? <==> start + 2 <= |buf| && Uint16(buf[start..start + 2], littleEndian) <= MaxEntries
  {
    if start + 2 > |buf| then None
    else
      match SafeUint16(buf, start, littleEndian)
      case None => None
      case Some(n) => if n > MaxEntries then None else Some(n)
  }

  function EntryOffset(start: nat, i: nat): nat {
    start + 2 + i * 12
  }

  /**
   * One entry applied to the record: a found field is written (replacing an
   * earlier value of the same key), the SubIFD pointer decodes the SubIFD
   * into the same record, anything else leaves it as it is.
   */
  function EntryStep(buf: seq<byte>, tiffOffset: nat, entryOffset: nat, littleEndian: bool, level: Level,
                     fields: map<string, Value>): map<string, Value>
    decreases Rank(level), 0, 1
  {
    match ReadEntry(buf, entryOffset, littleEndian)
    case None => fields
    case Some(e) => Act(buf, tiffOffset, littleEndian, level, Dispatch(buf, tiffOffset, entryOffset, e, littleEndian, level), fields)
  }

  /** What an entry's outcome does to the record. */
  function Act(buf: seq<byte>, tiffOffset: nat, littleEndian: bool, level: Level, outcome: Outcome,
               fields: map<string, Value>): map<string, Value>
    requires outcome.EnterSubIfd? ==> level == Ifd0
    decreases Rank(level), 0, 0
  {
    match outcome
    case Found(f, v) => fields[Key(f) := v]
    case EnterSubIfd(pointer) => DecodeIfd(buf, tiffOffset, tiffOffset + pointer, littleEndian, ExifSubIfd, fields)
    case _ => fields
  }

  /** Entries i, i+1, ... of a directory of `count` entries, stopping at the first that does not fit. */
  function DecodeEntries(buf: seq<byte>, tiffOffset: nat, start: nat, littleEndian: bool, level: Level,
                         count: nat, i: nat, fields: map<string, Value>): map<string, Value>
    requires i <= count
    decreases Rank(level), 1, count - i
  {
    if i == count || EntryOffset(start, i) + 12 > |buf| then fields
    else
      DecodeEntries(buf, tiffOffset, start, littleEndian, level, count, i + 1,
                    EntryStep(buf, tiffOffset, EntryOffset(start, i), littleEndian, level, fields))
  }

  /**
   * The directory at `start`: nothing when its count does not fit or exceeds
   * 200, otherwise its entries in order.
   */
  function DecodeIfd(buf: seq<byte>, tiffOffset: nat, start: nat, littleEndian: bool, level: Level,
                     fields: map<string, Value>): map<string, Value>
    decreases Rank(level), 2, 0
  {
    match EntryCount(buf, start, littleEndian)
    case None => fields
    case Some(count) => DecodeEntries(buf, tiffOffset, start, littleEndian, level, count, 0, fields)
  }

  /** Unfolding EntryStep at an entry that has been read. */
  lemma EntryStepActs(buf: seq<byte>, tiffOffset: nat, entryOffset: nat, littleEndian: bool, level: Level,
                      fields: map<string, Value>, e: IfdEntry)
    requires ReadEntry(buf, entryOffset, littleEndian) == Some(e)
    ensures EntryStep(buf, tiffOffset, entryOffset, littleEndian, level, fields)
         == Act(buf, tiffOffset, littleEndian, level, Dispatch(buf, tiffOffset, entryOffset, e, littleEndian, level), fields)
  {
  }

  /** Unfolding EntryStep at an entry that points to the SubIFD. */
  lemma EntryStepEnters(buf: seq<byte>, tiffOffset: nat, entryOffset: nat, littleEndian: bool, level: Level,
                        fields: map<string, Value>, e: IfdEntry)
    requires ReadEntry(buf, entryOffset, littleEndian) == Some(e)
    requires Dispatch(buf, tiffOffset, entryOffset, e, littleEndian, level).EnterSubIfd?
    ensures EntryStep(buf, tiffOffset, entryOffset, littleEndian, level, fields)
         == DecodeIfd(buf, tiffOffset, tiffOffset + e.valueOffset, littleEndian, ExifSubIfd, fields)
  {
    EntryStepActs(buf, tiffOffset, entryOffset, littleEndian, level, fields, e);
    assert Dispatch(buf, tiffOffset, entryOffset, e, littleEndian, level) == EnterSubIfd(e.valueOffset);
  }

  /** Unfolding EntryStep at any other entry that has been read. */
  lemma EntryStepAssigns(buf: seq<byte>, tiffOffset: nat, entryOffset: nat, littleEndian: bool, level: Level,
                         fields: map<string, Value>, e: IfdEntry)
    requires ReadEntry(buf, entryOffset, littleEndian) == Some(e)
    requires !Dispatch(buf, tiffOffset, entryOffset, e, littleEndian, level).EnterSubIfd?
    ensures EntryStep(buf, tiffOffset, entryOffset, littleEndian, level, fields)
         == Assign(fields, Dispatch(buf, tiffOffset, entryOffset, e, littleEndian, level))
  {
    EntryStepActs(buf, tiffOffset, entryOffset, littleEndian, level, fields, e);
  }

  /** Unfolding DecodeIfd once a count within the cap has been read. */
  lemma DecodeIfdStart(buf: seq<byte>, tiffOffset: nat, start: nat, littleEndian: bool, level: Level,
                       fields: map<string, Value>, count: nat)
    requires start + 2 <= |buf| && SafeUint16(buf, start, littleEndian) == Some(count) && count <= MaxEntries
    ensures DecodeIfd(buf, tiffOffset, start, littleEndian, level, fields)
         == DecodeEntries(buf, tiffOffset, start, littleEndian, level, count, 0, fields)
  {
  }

  /** Unfolding DecodeEntries at an entry that fits. */
  lemma DecodeEntriesNext(buf: seq<byte>, tiffOffset: nat, start: nat, littleEndian: bool, level: Level,
                          count: nat, i: nat, fields: map<string, Value>)
    requires i < count && EntryOffset(start, i) + 12 <= |buf|
    ensures DecodeEntries(buf, tiffOffset, start, littleEndian, level, count, i, fields)
         == DecodeEntries(buf, tiffOffset, start, littleEndian, level, count, i + 1,
                          EntryStep(buf, tiffOffset, EntryOffset(start, i), littleEndian, level, fields))
  {
  }

  /** Unfolding DecodeEntries where the loop stops. */
  lemma DecodeEntriesStop(buf: seq<byte>, tiffOffset: nat, start: nat, littleEndian: bool, level: Level,
                          count: nat, i: nat, fields: map<string, Value>)
    requires i <= count && (i == count || EntryOffset(start, i) + 12 > |buf|)
    ensures DecodeEntries(buf, tiffOffset, start, littleEndian, level, count, i, fields) == fields
  {
  }

  /**
   * What a directory does to the record: keeps every key it had, adds only
   * keys its switch knows, and leaves every other key's value alone.
   */
  ghost predicate OnlyWrites(before: map<string, Value>, after: map<string, Value>, keys: set<string>) {
    && before.Keys <= after.Keys
    && after.Keys <= before.Keys + keys
    && forall k :: k in before && k !in keys ==> after[k] == before[k]
  }

  lemma OnlyWritesTransitive(a: map<string, Value>, b: map<string, Value>, c: map<string, Value>,
                             keys: set<string>, wider: set<string>)
    requires keys <= wider
    requires OnlyWrites(a, b, keys) && OnlyWrites(b, c, wider)
    ensures OnlyWrites(a, c, wider)
  {
  }

  lemma {:induction false} EntryStepOnlyWrites(buf: seq<byte>, tiffOffset: nat, entryOffset: nat,
                                               littleEndian: bool, level: Level, fields: map<string, Value>)
    ensures OnlyWrites(fields, EntryStep(buf, tiffOffset, entryOffset, littleEndian, level, fields), KeysAt(level))
    decreases Rank(level), 0, 1
  {
    var entry := ReadEntry(buf, entryOffset, littleEndian);
    if entry.Some? {
      EntryOnlyWrites(buf, tiffOffset, entryOffset, littleEndian, level, fields, entry.value);
    }
  }

  lemma {:induction false} EntryOnlyWrites(buf: seq<byte>, tiffOffset: nat, entryOffset: nat,
                                           littleEndian: bool, level: Level, fields: map<string, Value>, e: IfdEntry)
    requires ReadEntry(buf, entryOffset, littleEndian) == Some(e)
    ensures OnlyWrites(fields, EntryStep(buf, tiffOffset, entryOffset, littleEndian, level, fields), KeysAt(level))
    decreases Rank(level), 0, 0
  {
    var outcome := Dispatch(buf, tiffOffset, entryOffset, e, littleEndian, level);
    if outcome.EnterSubIfd? {
      EntryStepEnters(buf, tiffOffset, entryOffset, littleEndian, level, fields, e);
      var sub := DecodeIfd(buf, tiffOffset, tiffOffset + e.valueOffset, littleEndian, ExifSubIfd, fields);
      DecodeIfdOnlyWrites(buf, tiffOffset, tiffOffset + e.valueOffset, littleEndian, ExifSubIfd, fields);
      SubIfdKeysWithin();
      OnlyWritesWiden(fields, sub, KeysAt(ExifSubIfd), KeysAt(Ifd0));
    } else {
      EntryStepAssigns(buf, tiffOffset, entryOffset, littleEndian, level, fields, e);
      AssignOnlyWrites(fields, outcome, level);
    }
  }

  lemma SubIfdKeysWithin()
    ensures KeysAt(ExifSubIfd) <= KeysAt(Ifd0)
  {
  }

  lemma OnlyWritesWiden(before: map<string, Value>, after: map<string, Value>, keys: set<string>, wider: set<string>)
    requires keys <= wider && OnlyWrites(before, after, keys)
    ensures OnlyWrites(before, after, wider)
  {
  }

  lemma AssignOnlyWrites(fields: map<string, Value>, outcome: Outcome, level: Level)
    requires outcome.Found? ==> ReadAt(level, outcome.field)
    ensures OnlyWrites(fields, Assign(fields, outcome), KeysAt(level))
  {
    if outcome.Found? {
      KeyOfReadField(level, outcome.field);
    }
  }

  lemma {:induction false} DecodeEntriesOnlyWrites(buf: seq<byte>, tiffOffset: nat, start: nat,
                                                   littleEndian: bool, level: Level, count: nat, i: nat,
                                                   fields: map<string, Value>)
    requires i <= count
    ensures OnlyWrites(fields, DecodeEntries(buf, tiffOffset, start, littleEndian, level, count, i, fields),
                       KeysAt(level))
    decreases Rank(level), 1, count - i
  {
    if i == count || EntryOffset(start, i) + 12 > |buf| {
    } else {
      var next := EntryStep(buf, tiffOffset, EntryOffset(start, i), littleEndian, level, fields);
      EntryStepOnlyWrites(buf, tiffOffset, EntryOffset(start, i), littleEndian, level, fields);
      DecodeEntriesOnlyWrites(buf, tiffOffset, start, littleEndian, level, count, i + 1, next);
      OnlyWritesTransitive(fields, next,
        DecodeEntries(buf, tiffOffset, start, littleEndian, level, count, i + 1, next), KeysAt(level), KeysAt(level));
    }
  }

  /**
   * Decoding a directory keeps every key already in the record, adds only
   * keys of its own switch, and changes no other key; in particular the
   * SubIFD touches only iso, exposureTime, aperture and focalLength.
   */
  lemma {:induction false} DecodeIfdOnlyWrites(buf: seq<byte>, tiffOffset: nat, start: nat,
                                               littleEndian: bool, level: Level, fields: map<string, Value>)
    ensures OnlyWrites(fields, DecodeIfd(buf, tiffOffset, start, littleEndian, level, fields), KeysAt(level))
    decreases Rank(level), 2, 0
  {
    match EntryCount(buf, start, littleEndian)
    case None =>
    case Some(count) => DecodeEntriesOnlyWrites(buf, tiffOffset, start, littleEndian, level, count, 0, fields);
  }

  /** How many whole 12-byte entries fit after a count at `start` in a buffer of `len` bytes. */
  function Room(len: nat, start: nat): nat
    requires start + 2 <= len
  {
    (len - start - 2) / 12
  }

  /** How many entries a directory decode looks at: its count, cut where the entries stop fitting. */
  function VisitedEntries(buf: seq<byte>, start: nat, littleEndian: bool): nat {
    match EntryCount(buf, start, littleEndian)
    case None => 0
    case Some(count) => Min(count, Room(|buf|, start))
  }

  /** Entries i .. j-1 applied in order, with no bounds test. */
  ghost function ApplyEntries(buf: seq<byte>, tiffOffset: nat, start: nat, littleEndian: bool, level: Level,
                              i: nat, j: nat, fields: map<string, Value>): map<string, Value>
    requires i <= j
    decreases j - i
  {
    if i == j then fields
    else
      ApplyEntries(buf, tiffOffset, start, littleEndian, level, i + 1, j,
                   EntryStep(buf, tiffOffset, EntryOffset(start, i), littleEndian, level, fields))
  }

  lemma {:induction false} DecodeEntriesVisits(buf: seq<byte>, tiffOffset: nat, start: nat, littleEndian: bool,
                                               level: Level, count: nat, visited: nat, i: nat,
                                               fields: map<string, Value>)
    requires start + 2 <= |buf| && visited == Min(count, Room(|buf|, start))
    requires i <= visited
    ensures DecodeEntries(buf, tiffOffset, start, littleEndian, level, count, i, fields)
         == ApplyEntries(buf, tiffOffset, start, littleEndian, level, i, visited, fields)
    decreases visited - i
  {
    DecodeEntriesVisited(buf, tiffOffset, start, littleEndian, level, count, visited, i, fields);
    if i < visited {
      DecodeEntriesVisits(buf, tiffOffset, start, littleEndian, level, count, visited, i + 1,
                          EntryStep(buf, tiffOffset, EntryOffset(start, i), littleEndian, level, fields));
    }
  }

  /** One step of DecodeEntriesVisits: entries below `visited` are applied, the loop stops at it. */
  lemma DecodeEntriesVisited(buf: seq<byte>, tiffOffset: nat, start: nat, littleEndian: bool,
                             level: Level, count: nat, visited: nat, i: nat, fields: map<string, Value>)
    requires start + 2 <= |buf| && visited == Min(count, Room(|buf|, start))
    requires i <= visited
    ensures i < visited ==>
              DecodeEntries(buf, tiffOffset, start, littleEndian, level, count, i, fields)
              == DecodeEntries(buf, tiffOffset, start, littleEndian, level, count, i + 1,
                               EntryStep(buf, tiffOffset, EntryOffset(start, i), littleEndian, level, fields))
    ensures i == visited ==> DecodeEntries(buf, tiffOffset, start, littleEndian, level, count, i, fields) == fields
  {
    EntryFits(|buf|, start, i);
  }

  /** Entry i lies wholly inside a buffer of `len` bytes exactly when i < Room(len, start). */
  lemma EntryFits(len: nat, start: nat, i: nat)
    requires start + 2 <= len
    ensures EntryOffset(start, i) + 12 <= len <==> i < Room(len, start)
  {
    var room := len - start - 2;
    var q := room / 12;
    assert room == 12 * q + room % 12 && room % 12 < 12;
  }

  /**
   * A directory decode looks at exactly its first VisitedEntries entries, in
   * order: never more than 200 and never more than its count, each of them
   * wholly inside the buffer.
   */
  lemma DecodeIfdVisits(buf: seq<byte>, tiffOffset: nat, start: nat, littleEndian: bool, level: Level,
                        fields: map<string, Value>)
    ensures VisitedEntries(buf, start, littleEndian) <= MaxEntries
    ensures forall i :: 0 <= i < VisitedEntries(buf, start, littleEndian) ==> EntryOffset(start, i) + 12 <= |buf|
    ensures DecodeIfd(buf, tiffOffset, start, littleEndian, level, fields)
         == ApplyEntries(buf, tiffOffset, start, littleEndian, level, 0, VisitedEntries(buf, start, littleEndian), fields)
  {
    match EntryCount(buf, start, littleEndian)
    case None =>
    case Some(count) =>
      var v := VisitedEntries(buf, start, littleEndian);
      forall i | 0 <= i < v
        ensures EntryOffset(start, i) + 12 <= |buf|
      {
        EntryFits(|buf|, start, i);
      }
      DecodeEntriesVisits(buf, tiffOffset, start, littleEndian, level, count, v, 0, fields);
  }

  /** A directory whose count is above 200 leaves the record as it is. */
  lemma CappedDirectoryIgnored(buf: seq<byte>, tiffOffset: nat, start: nat, littleEndian: bool, level: Level,
                               fields: map<string, Value>)
    requires start + 2 <= |buf| && Uint16(buf[start..start + 2], littleEndian) > MaxEntries
    ensures DecodeIfd(buf, tiffOffset, start, littleEndian, level, fields) == fields
    ensures VisitedEntries(buf, start, littleEndian) == 0
  {
  }
}
