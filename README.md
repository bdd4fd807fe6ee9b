# EXIF extractor of the image metadata page, in Dafny

This project models the hand-written EXIF decoder of the image metadata
viewer (`app/page.tsx`). The decoder reads the raw bytes of an uploaded
file. It walks the JPEG marker chain (ITU-T T.81, Annex B) to the first APP1
segment. It checks that segment for the `"Exif"` signature, reads the TIFF
header (TIFF Revision 6.0, Section 2) and decodes the 12-byte entries of
IFD0. Known (tag, type) pairs become fields of a flat result record:
`Make`, `Model`, `creationDate`, `iso`, `exposureTime`, `aperture` and
`focalLength`. The ExifIFD pointer (tag 0x8769) makes it decode the Exif
SubIFD once, into the same record. Each part is proved to stay inside the
buffer and to terminate, and its result is tied to a specification.

Modules, leaf first:

- `Bytes` (bytes.dfy): the buffer is `seq<byte>` with `byte` = 0..255.
  `SafeRead` is the bounds gate `safeRead`. `SafeUint16` and `SafeUint32`
  are the guarded `getUint16`/`getUint32` reads in either byte order.
- `Format` (format.dfy): exact rational formatting of the three rational
  fields (`"<v> sec"`, `"1/<k> sec"`, `"f/<x.y>"`, `"<x.y> mm"`).
- `Text` (text.dfy): `getStringFromDataView`. `StringAt` is the
  specification, `GetString` is the loop with its early `break`, and
  `Trim` models `String.prototype.trim`.
- `Tiff` (tiff.dfy): the TIFF header, the entries, the inline-vs-offset
  rule, the tag switch as a per-entry `Outcome`, and one directory decoder
  `DecodeIfd` shared by IFD0 and the SubIFD. A `Level` parameter says which
  switch applies. Recursion goes one level deep, because only IFD0 follows
  the pointer.
- `Jpeg` (jpeg.dfy): one turn of the marker loop (`MarkerStep`), the walk
  (`FindApp1`), the APP1 checks (`DecodeApp1`) and the whole extraction
  `Extract`.
- `Scenarios` (scenarios.dfy): two whole files, byte by byte, and the exact
  record extraction gives for each.
- `Extractor` (extractor.dfy): the original's imperative form. `ExifData`
  is the `exifData` object that is written in place. `ExtractExifData` has
  the `while` loop over a mutable `offset`. `ProcessEntries` is the `for`
  loop over entries, and `ProcessExifSubIfd` is the SubIFD's loop. Each
  method is proved to compute the function that specifies it.
- `Truncation` (truncation.dfy): cutting the buffer short never adds a
  field.

Every byte the model reads is either an index Dafny checks against the
buffer's length or goes through `SafeRead`. So "no read outside the buffer"
holds by verification. The `try`/`catch` blocks of the original are not
needed and are not modelled.

## Model

| member | source | states |
|---|---|---|
| `Bytes.SafeRead` | app/page.tsx:76-86 | absent exactly when `offset < 0` or `offset + length > byteLength`; otherwise the window of `length` bytes at `offset`, byte for byte |
| `Bytes.SafeUint16` | app/page.tsx:168-169 | a 16-bit read is absent exactly when its two bytes leave the buffer; otherwise it is the word below 65536 that `getUint16` reads in the given byte order |
| `Bytes.SafeUint32` | app/page.tsx:176-184 | a 32-bit read is absent exactly when its four bytes leave the buffer; otherwise it is the `getUint32` word below 2^32 |
| `Bytes.Uint16Bytes_Uint16` | app/page.tsx:168-174 | every 2-byte window is the encoding of the word read from it, so the read loses nothing |
| `Bytes.Uint32Bytes_Uint32` | app/page.tsx:176-184 | every 4-byte window is the encoding of the word read from it |
| `Bytes.Uint16RoundTrip` | app/page.tsx:158 | `Uint16`, the `getUint16` decoding, is the inverse of writing a 16-bit word in the same byte order |
| `Bytes.Uint32RoundTrip` | app/page.tsx:147-149 | `Uint32`, the `getUint32` decoding, is the inverse of writing a 32-bit word in the same byte order |
| `Text.GetString` | app/page.tsx:406-422 | the loop that appends one character per byte and breaks at the first NUL returns exactly `StringAt` |
| `Text.StringAt` | app/page.tsx:410-411 | at most `maxLength` characters, never a NUL, and "" when `offset >= byteLength` |
| `Text.Window` | app/page.tsx:412-421 | the string read from a window of `n` bytes is at most `n` characters long and holds no NUL |
| `Text.WindowRead` | app/page.tsx:412-421 | when the window's first `i` bytes hold no NUL and byte `i` is a NUL or the window ends there, the string read is those `i` bytes as characters, trimmed |
| `Text.TakeUntilNul` | app/page.tsx:413-417 | the kept bytes are a prefix with no zero byte, and they stop exactly at the first zero byte or at the window's end |
| `Text.NulFreePrefix` | app/page.tsx:413-417 | a NUL-free run that ends at a NUL or at the window's end is exactly what the loop keeps |
| `Text.Trim` | app/page.tsx:421 | the result is a slice `s[i..j]` of its input with only characters that `trim` removes before `i` and from `j` on, and neither end of the result is such a character |
| `Text.TrimIsTheSlice` | app/page.tsx:421 | any such slice is the trimmed string, so the contract of `Trim` determines its result |
| `Text.TrimIdempotent` | app/page.tsx:421 | trimming twice is trimming once |
| `Text.ExifSignature` | app/page.tsx:130-133 | the 4-byte string read equals "Exif" if and only if the four bytes are in the buffer and are `45 78 69 66` |
| `Text.StringAtPrefix` | app/page.tsx:410 | a string read that fits inside a prefix of the buffer reads the same from the whole buffer |
| `Format.RoundedReciprocal` | app/page.tsx:236 | the reciprocal that `Math.round(1 / exposureValue)` shows, taken on the exact rational: the integer `k` with `k - 1/2 <= den/num < k + 1/2` (halves rounded up), and at least 1 when `num <= den` |
| `Format.Tenths` | app/page.tsx:252 | `toFixed(1)` picks the number of tenths nearest to `num/den`, halves rounded up |
| `Format.Fixed1RoundTrip` | app/page.tsx:252 | the `toFixed(1)` text has the shape `<digits>.<digit>`, has no leading zero in its integer part, and reads back as exactly `Tenths(num, den)` |
| `Format.NatToString` | app/page.tsx:236 | the numeral of `n` is a non-empty run of decimal digits with no leading zero unless `n` is 0 |
| `Format.NatToStringRoundTrip` | app/page.tsx:236 | the decimal numeral of `n` reads back as `n` |
| `Format.NatToStringInjective` | app/page.tsx:236 | two different numbers never print the same numeral |
| `Format.ExposureText` | app/page.tsx:231-238 | the exposure text is absent exactly when the denominator or the numerator is 0, and for a quotient of at least 1 it is the decimal text of `num/den` followed by " sec" |
| `Format.ShortExposureShape` | app/page.tsx:235-236 | a sub-second exposure is shown as `"1/k sec"`, with `k >= 1` the nearest integer to `den/num` |
| `Format.FractionDigitsValue` | app/page.tsx:234 | the long-division digits of `r/den`, padded with zeros to `k` places, are worth `r * 10^k / den`: they are the first `k` decimal places of `r/den` |
| `Format.PrintedReadsBack` | app/page.tsx:234 | a numeral, a point and a digit string with its trailing zeros dropped read back as the numeral and the digits' padded value |
| `Format.DecimalUpToReads` | app/page.tsx:234 | `${num / den}` (as `DecimalText`, with at most 16 fraction digits) reads back as the integer numeral of `num/den`, then a point only when a fraction follows, then at most 16 digits with no trailing zero that are the first decimal places of `num/den` |
| `Format.DecimalTextWhole` | app/page.tsx:233-234 | a whole quotient of at least 1 prints as the integer numeral, with no decimal point |
| `Format.ExposureExamples` | app/page.tsx:232-237 | 1/250 gives "1/250 sec", 2/1 gives "2 sec", and a zero denominator or zero numerator gives nothing |
| `Format.ApertureText` | app/page.tsx:251-253 | the aperture text is absent exactly when the denominator is 0; otherwise it is "f/" followed by a one-decimal text with no leading zero that reads back as the tenths nearest to `num/den` |
| `Format.FocalLengthText` | app/page.tsx:266-268 | the focal-length text is absent exactly when the denominator is 0; otherwise it is a one-decimal text with no leading zero that reads back as the tenths nearest to `num/den`, followed by " mm" |
| `Format.ApertureExample` | app/page.tsx:241-268 | 28/10 gives "f/2.8" and 50/1 gives "50.0 mm" |
| `Tiff.ReadTiffHeader` | app/page.tsx:137-152 | the header is present exactly when its 8 bytes fit; it is little-endian exactly when the order mark is `49 49`; IFD0's offset is the uint32 at `tiffOffset + 4` in that order |
| `Tiff.TiffHeaderRoundTrip` | app/page.tsx:141-149 | an "II" or "MM" header written anywhere in a buffer reads back as itself |
| `Tiff.ReadEntry` | app/page.tsx:166-184 | an entry is read exactly when its 12 bytes fit, and its four words are within their 16/32-bit ranges |
| `Tiff.EntryRoundTrip` | app/page.tsx:168-184 | an entry written anywhere in a buffer reads back as itself in either byte order |
| `Tiff.DataOffset` | app/page.tsx:187-190 | `entryOffset + 8` for a SHORT with count at most 2 or a LONG with count 1, `tiffOffset + valueOffset` otherwise |
| `Tiff.InlineValuesFit` | app/page.tsx:187-189 | every value taken to be inline fits in the 4-byte value field |
| `Tiff.Dispatch` | app/page.tsx:192-277 | a field is found only for its own tag and type, in a directory whose switch knows it; the pointer is followed only from IFD0 and only when two bytes fit at its data offset; a data offset at or past the end yields OutOfBounds |
| `Tiff.Switch` | app/page.tsx:196-277 | the switch on a tag sets only the field of that tag, with its one accepted type, and follows the pointer only in IFD0 |
| `Tiff.DispatchMatchesTable` | app/page.tsx:196-270 | an entry with a field's tag yields that field with value `v` if and only if its type is the field's type, the value's bytes are in the buffer and the table's decoding gives `v` |
| `Tiff.ZeroDenominatorSetsNothing` | app/page.tsx:231 | a rational whose denominator is 0 sets no field |
| `Tiff.UnknownTagSetsNothing` | app/page.tsx:196-277 | a tag outside the table, other than the pointer, leaves the record alone |
| `Tiff.SwitchesAgreeOnSharedTags` | app/page.tsx:347-398 | for every tag except Make, Model, DateTimeOriginal and the pointer, IFD0 and the SubIFD handle an entry the same way |
| `Tiff.SubIfdSwitchIsNarrower` | app/page.tsx:347-398 | the SubIFD never follows a pointer and never sets Make, Model or creationDate |
| `Tiff.PointerFollowed` | app/page.tsx:271-276 | tag 0x8769 in IFD0 decodes the SubIFD at `tiffOffset + valueOffset` whenever two bytes fit at its data offset |
| `Tiff.EntryCount` | app/page.tsx:155-159 | a directory is decoded only when its count's two bytes fit, and its count is then at most 200 |
| `Tiff.EntryStepActs` | app/page.tsx:167-193 | an entry whose 12 bytes were read is acted on by what `Dispatch` makes of it |
| `Tiff.EntryStepAssigns` | app/page.tsx:196-270 | a found field is written with the map update, which replaces an earlier value of the same key; any other outcome leaves the record as it is |
| `Tiff.EntryStepEnters` | app/page.tsx:271-276 | the pointer entry decodes the SubIFD into the same record |
| `Tiff.DecodeIfdOnlyWrites` | app/page.tsx:306-344 | decoding a directory keeps every key already in the record, adds only keys of its own switch, and changes no other key |
| `Tiff.DecodeIfdStart` | app/page.tsx:155-162 | a directory whose count fits and is at most 200 is decoded by the entry loop from entry 0 |
| `Tiff.DecodeEntriesNext` | app/page.tsx:162-166 | an entry below the count that fits in the buffer is applied, then the loop moves to the next |
| `Tiff.DecodeEntriesStop` | app/page.tsx:162-166 | the entry loop stops at the count or at the first entry that does not fit |
| `Tiff.DecodeEntriesVisits` | app/page.tsx:162-166 | from entry `i`, the entry loop applies entries `i` up to `min(count, room)` in order and nothing else |
| `Tiff.DecodeIfdVisits` | app/page.tsx:161-166 | a directory decode applies exactly its first `min(count, room)` entries in order, each wholly inside the buffer, and never more than 200 |
| `Tiff.CappedDirectoryIgnored` | app/page.tsx:159 | a directory whose count is above 200 contributes nothing |
| `Tiff.EntryFits` | app/page.tsx:166 | entry `i` lies inside the buffer exactly when `i` is below the number of whole entries that fit |
| `Jpeg.MarkerStep` | app/page.tsx:114-121 | a turn of the marker loop reports APP1 if and only if bytes `FF E1` are at `offset` and `offset + 2` is inside the buffer, with the length field at `offset + 2`; it skips if and only if the marker is `FF` followed by another byte and a big-endian length of at least 2 fits after it, moving to `offset + 2 + length`; otherwise it stops |
| `Jpeg.FindApp1Exact` | app/page.tsx:114-289 | the marker loop answers `lengthAt` if and only if the chain of skipped segments reaches an APP1 marker whose length field is at `lengthAt` |
| `Jpeg.SkipsForward` | app/page.tsx:281-288 | skipping segments only ever moves forward |
| `Jpeg.DecodeApp1Guards` | app/page.tsx:124-155 | fields come from APP1 only when its length is at least 8, the signature is "Exif" and the TIFF header at `lengthAt + 8` fits; they are then IFD0's fields |
| `Jpeg.DecodeApp1Decodes` | app/page.tsx:124-135 | conversely, an APP1 segment whose length is at least 8 and whose signature bytes are `45 78 69 66` is decoded as the TIFF structure at `lengthAt + 8` |
| `Jpeg.DecodeTiffKeys` | app/page.tsx:135-160 | the TIFF structure yields only the keys the IFD0 switch knows |
| `Jpeg.NotJpegYieldsNothing` | app/page.tsx:97-108 | a buffer under 12 bytes, or one that does not start with `FF D8`, yields no fields |
| `Jpeg.FirstApp1WithoutExifYieldsNothing` | app/page.tsx:132-133 | when the first APP1 segment lacks the signature, the result is empty even if a later one has it |
| `Jpeg.ExtractKeys` | app/page.tsx:196-277 | the record holds only the seven keys the IFD0 switch knows |
| `Scenarios.CanonMake` | app/page.tsx:89-295 | a 40-byte JPEG whose IFD0 holds one Make entry with "Canon\0" yields exactly `{Make: "Canon"}` |
| `Scenarios.SubIfdIso` | app/page.tsx:89-403 | a 52-byte JPEG whose IFD0 holds only the pointer to a SubIFD with an inline ISO of 400 yields exactly `{iso: 400}` |
| `Extractor.ExtractExifData` | app/page.tsx:89-295 | the marker loop over a mutable offset, with the APP1 branch, leaves exactly the fields `Extract` gives in a fresh record |
| `Extractor.ParseApp1` | app/page.tsx:124-134 | the APP1 branch writes exactly the fields `DecodeApp1` gives |
| `Extractor.ParseTiff` | app/page.tsx:135-160 | the TIFF branch writes exactly the fields `DecodeTiff` gives |
| `Extractor.ProcessExifSubIfd` | app/page.tsx:298-403 | `processExifSubIFD` updates the caller's record to `DecodeIfd` at `tiffOffset + exifIfdPointer` with the SubIFD switch |
| `Extractor.ProcessDirectory` | app/page.tsx:155-159 | the count guards (IFD0's here, repeated for the SubIFD at app/page.tsx:306-314), followed by the entry loop, compute `DecodeIfd` |
| `Extractor.ProcessEntries` | app/page.tsx:161-166 | the `for` loop over entries, which breaks at the first entry that does not fit, computes `DecodeEntries` |
| `Extractor.ProcessEntry` | app/page.tsx:167-184 | reading an entry's four words and acting on it computes `EntryStep` |
| `Extractor.ApplyEntry` | app/page.tsx:186-193 | an entry whose data offset is at or past the end changes nothing; otherwise the switch runs |
| `Extractor.RunSwitch` | app/page.tsx:196-277 | the switch either decodes the SubIFD into the record or assigns the found field |
| `Extractor.SetField` | app/page.tsx:196-270 | the field-setting cases write exactly the outcome of `Switch` |
| `Extractor.SetString` | app/page.tsx:197-214 | an ASCII field is set to the bounded string when the type is 2, and otherwise left alone |
| `Extractor.SetIso` | app/page.tsx:215-220 | iso is set to the SHORT when the type is 3 and its two bytes fit |
| `Extractor.SetRational` | app/page.tsx:221-270 | a rational field is set only when the type is 5, its eight bytes fit, the denominator is non-zero and the text exists |
| `Extractor.Merge` | app/page.tsx:47 | the merged record has both key sets, the EXIF value wins on a shared key, and a basic value survives otherwise |
| `Extractor.MergeKeepsBasicAttributes` | app/page.tsx:44-52 | merging never overwrites a basic attribute, because the EXIF keys are disjoint from the basic keys |
| `Truncation.MarkerStepPrefix` | app/page.tsx:114-121 | on a prefix, a turn of the marker loop either stops or does what it does on the whole buffer |
| `Truncation.FindApp1Prefix` | app/page.tsx:114-289 | the marker walk on a prefix finds nothing or the same APP1 segment |
| `Truncation.DecodeIfdKeysPrefix` | app/page.tsx:306-344 | a directory decoded from a prefix, into a record whose field keys the whole buffer's starting record all has, yields no field key that the whole buffer's decode lacks; this covers the entries the prefix cuts off and the SubIFD it follows |
| `Truncation.ExtractTruncated` | app/page.tsx:89-295 | the keys extracted from any prefix of the buffer are a subset of those extracted from the whole buffer |

## Left out

- Browser I/O is not modelled: `handleFileChange`, `FileReader`, `Image`, object URLs and drag and drop (app/page.tsx:16-73, 424-437). The buffer is a parameter.
- `toLocaleString` of `lastModified` and the KB size text (app/page.tsx:25-27) are locale and floating-point formatting by a foreign library. The basic attributes are an opaque map given to `Merge`.
- The JSX rendering and components/image-metadata-display.tsx are display only.
- app/api/exif/route.ts is an HTTP handler with no decoding logic. It is not part of this model.
- `try`/`catch` and `console` logging are not modelled. Every read is proved in bounds, so the catch paths cannot be reached.
- Format.DecimalText: `${v}` for an exposure of at least one second prints the shortest decimal that round-trips a JavaScript double. The model prints the exact decimal expansion of `num/den`, cut after 16 fraction digits. The two agree on whole numbers and on short terminating fractions, but not on every quotient.
- Format.RoundedReciprocal: `Math.round(1 / exposureValue)` rounds the double `1 / (num/den)`, which is computed in two rounded steps. The model rounds the exact `den/num`, halves up. The two differ when `den/num` is at or near a half: for 2/93 the double is 46.49999999999999, so the page shows "1/46 sec" where the model gives 47. `Format.ExposureText` and `Format.ShortExposureShape` carry the same gap for exposures under one second.
- Format.Tenths: `toFixed(1)` rounds the double nearest to `num/den`. The model rounds the exact rational, halves up. The two differ when the double falls just below a half, as with 0.15.
- Truncation.ExtractTruncated: states the subset property for keys only. The values can differ, because a string can be cut short and a later entry that the prefix does not reach can overwrite an earlier value.

## Notes on the source

- The scan breaks out of the marker loop after the first APP1 segment, whatever it holds (app/page.tsx:280), so a later Exif segment is never read. See `Jpeg.FirstApp1WithoutExifYieldsNothing`.
- Strings are passed through `trim()`, which removes whitespace at both ends (app/page.tsx:421). See `Text.Trim`.
- The EXIF object is spread last, so an EXIF value would replace a basic attribute of the same key (app/page.tsx:47). `MergeKeepsBasicAttributes` shows that the two key sets are disjoint, so no basic attribute is replaced.
- The inline rule covers only SHORT with count at most 2 and LONG with count 1. TIFF 6.0 stores every value of at most four bytes inline, so an ASCII value of four bytes or fewer would be read from the wrong place. The model keeps the code's rule (`Tiff.DataOffset`).
- Big-endian ("MM") files are decoded in big-endian order, as the original does. All the reads take the byte-order flag.
