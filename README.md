# CCM glyph-atlas codec in Dafny

The model covers the binary codec of the CCM font format, the glyph atlas of
the Souls games. Two scripts carry it:

- Convert-ccm-to-txt.py decodes all three format generations (DemonsSouls,
  DarkSouls1, DarkSouls2).
- Convert-txt-to-ccm.py decodes the header of any generation but the body
  only of DarkSouls2. It encodes one layout only: little-endian DarkSouls2.
  It also builds a new font from the header of an original file and the
  character lines of a bitmap-font descriptor.

Each script's `CCM` object becomes a Dafny `class`. Its fields are the
header fields and the glyph table. The file cursor becomes an `InStream`.
The output file, with its `seek` and overwrite, becomes an `OutStream`.
Every reading or writing loop is a `method` with loop invariants. Each
method is proved equal to a recursive specification function over the
bytes: `DecodeHeader`, `DecodeBody`, `Decode`, `DecodeDs2Only`, `Layout`,
`Encode`, `ImportFrom` and `Convert`. The properties are then proved about
those functions.

Files and modules:

- `wire.dfy` (`Wire`): the `struct` codecs. These are little- and big-endian,
  unsigned and two's-complement, 1, 2 and 4 bytes wide, with their
  round-trip lemmas.
- `streams.dfy` (`Streams`): the read cursor and the writable file.
- `ccm_header.dfy` (`CcmFormat`): the entities and the 32-byte header. Both
  scripts parse the header with the same code.
- `ds2_body.dfy` (`Ds2Body`): the DarkSouls2 region table, keyed by absolute
  offset, and the glyph records. Both readers share this code.
- `ccm_to_txt.dfy` (`CcmToTxt`): the reader of Convert-ccm-to-txt.py, with
  the code-group expansion of the older layout.
- `ds2_image.dfy` (`Ds2Image`): the file `write` produces, as a value.
- `txt_to_ccm.dfy` (`TxtToCcm`): the reader, the writer and the import of
  Convert-txt-to-ccm.py.
- `round_trip.dfy` (`RoundTrip`): reading back what the writer wrote.

Errors are values of `Wire.Error`. Each one stands for an exception the
scripts raise:

- `Truncated`: a short `read` makes `struct.unpack` fail.
- `UnknownVersion`: `CCMVer(tag)` rejects the tag.
- `BadConstant(offset)`: an `assert` on a constant field fails.
- `DanglingRegion`: the region dictionary has no such key.
- `ZeroDivision`: a texture width or height is 0.
- `IndexOutOfRange`: a list index is out of range.
- `OutOfRange`: `struct.pack` is given a value that does not fit.

## Model

| member | source | states |
|---|---|---|
| Wire.Field | Convert-ccm-to-txt.py:66 | `read(n)` gives n bytes exactly when n bytes remain; a short read makes the unpack fail with Truncated |
| Wire.EncodeUnsigned | Convert-txt-to-ccm.py:132-135 | packing an unsigned value gives exactly n bytes |
| Wire.EncodeSigned | Convert-txt-to-ccm.py:117-125 | packing a signed value gives exactly n bytes |
| Wire.UnsignedFits | Convert-ccm-to-txt.py:85-88 | an unpacked unsigned field lies in 0 .. 256^n - 1 |
| Wire.SignedFits | Convert-ccm-to-txt.py:66-69 | an unpacked signed field lies in -2^(8n-1) .. 2^(8n-1) - 1 |
| Wire.Unsigned | Convert-ccm-to-txt.py:61 | `struct.unpack` of an unsigned field (`B`, `<I`) in either byte order; `Wire.UnsignedFits` bounds it, and `Wire.UnsignedRoundTrip` with `Wire.UnsignedEncodingIsOnto` prove it the inverse of `Wire.EncodeUnsigned` |
| Wire.Signed | Convert-ccm-to-txt.py:66-69 | `struct.unpack` of a two's-complement field (`h`, `i`); `Wire.SignedFits` bounds it, and `Wire.SignedRoundTrip` with `Wire.SignedEncodingIsOnto` prove it the inverse of `Wire.EncodeSigned` |
| Wire.SignedAt | Convert-ccm-to-txt.py:66-69 | `unpack` of `read(n)` at offset p: Truncated unless n bytes remain (`Wire.Field`), else the signed field; `Wire.SignedAtEncoding` reads back a packed value |
| Wire.UnsignedAt | Convert-ccm-to-txt.py:61 | the same for an unsigned field; `Wire.UnsignedAtEncoding` reads back a packed value and `CcmFormat.OneByte` gives a one-byte field as the byte |
| Wire.UnsignedRoundTrip | Convert-txt-to-ccm.py:132-135 | unpacking an unsigned field packed in the same width and byte order gives the value back |
| Wire.SignedRoundTrip | Convert-txt-to-ccm.py:117-125 | unpacking a signed field packed in the same width and byte order gives the value back, for every value the width holds |
| Wire.UnsignedEncodingIsOnto | Convert-ccm-to-txt.py:85-88 | every byte string is the packing of the unsigned value read from it, and that value fits the width |
| Wire.SignedEncodingIsOnto | Convert-ccm-to-txt.py:66-69 | every byte string is the packing of the signed value read from it, and that value fits the width |
| Wire.SignedAtEncoding | Convert-ccm-to-txt.py:66-69 | a signed field read at an offset holding the packing of x reads x |
| Wire.UnsignedAtEncoding | Convert-ccm-to-txt.py:61 | an unsigned field read at an offset holding the packing of x reads x |
| Streams.InStream.ReadSigned | Convert-ccm-to-txt.py:66 | `unpack` of a signed field on `read(n)` gives the field at the cursor and advances by n; a short read fails with Truncated and leaves the cursor at the end |
| Streams.InStream.ReadUnsigned | Convert-ccm-to-txt.py:61 | the same for an unsigned field |
| Streams.OutStream.WriteSigned | Convert-txt-to-ccm.py:117 | `write(pack(...))` of a signed field succeeds exactly when the value fits; it then overwrites the bytes at the cursor (appending at the end) and advances; otherwise nothing changes |
| Streams.OutStream.WriteUnsigned | Convert-txt-to-ccm.py:132 | the same for an unsigned field |
| Streams.OutStream.Seek | Convert-txt-to-ccm.py:164 | `seek` moves the cursor and keeps the bytes |
| Streams.Overwrite | Convert-txt-to-ccm.py:164-166 | a write at position p replaces the bytes p .. p + n - 1, extends the file when it runs past the end, and keeps every other byte |
| Streams.OverwriteAtEnd | Convert-txt-to-ccm.py:115 | writing at the end of the file appends |
| Streams.OverwriteChunk | Convert-txt-to-ccm.py:164-166 | writing a field over a field of the same size replaces it and keeps every other byte |
| CcmFormat.VersionOf | Convert-ccm-to-txt.py:7-10 | a tag names a version exactly when it is 0x100, 0x10001 or 0x20000, and then the version's tag is that value; any other tag fails with UnknownVersion(tag) |
| CcmFormat.Tag | Convert-ccm-to-txt.py:7-10 | the CCMVer value of each generation; `CcmFormat.VersionOf` proves it the inverse of `CCMVer(tag)` |
| CcmFormat.ByteOrder | Convert-ccm-to-txt.py:62-64 | big-endian for DemonsSouls only; `CcmFormat.DecodeHeader` reads every field after the tag in it, and `RoundTrip.BigEndianHeaderFails` shows a little-endian image under the DemonsSouls tag failing at the 0x20 constant |
| CcmFormat.Count | Convert-ccm-to-txt.py:93 | `range(count)` runs no iterations for a negative count; `Ds2Body.DecodeBody` and `CcmToTxt.DecodeLegacyBody` read that many records per table, and `Ds2Body.DecodedBodyBounded` bounds the decoded glyphs by `Count(glyphCount)` |
| CcmFormat.SizesAt | Convert-ccm-to-txt.py:66-69 | file size, full width, texture width and height decode exactly when the file holds 14 bytes |
| CcmFormat.CountsAt | Convert-ccm-to-txt.py:71-81 | for the older generations the three counts decode whenever the file holds 20 bytes, and there is no region count; DarkSouls2 forces unk0e to 0, has no code-group count and decodes only when the reserved field is 0; nothing decodes from a shorter file |
| CcmFormat.OffsetsAt | Convert-ccm-to-txt.py:83-84 | the constant and the glyph offset decode only when the file holds 28 bytes and bytes 20..23 hold 0x20 in the version's byte order |
| CcmFormat.TailAt | Convert-ccm-to-txt.py:85-88 | the tail decodes exactly when the file holds 32 bytes and byte 31 is 0 |
| CcmFormat.ShortsAt | Convert-ccm-to-txt.py:128-131 | four 16-bit fields decode exactly when their 8 bytes are in the file |
| CcmFormat.OneByte | Convert-ccm-to-txt.py:85 | a one-byte field is the byte itself |
| CcmFormat.DecodedHeaderFacts | Convert-ccm-to-txt.py:61-88 | a decoded header guarantees a 32-byte file, the tag naming the version, 0x20 at bytes 20..23 in the version's byte order and a zero pad byte; DarkSouls2 has unk0e 0 and no code-group count, the older versions have no region count; a short file or an unknown tag fails |
| CcmFormat.HeaderAccepted | Convert-ccm-to-txt.py:61-88 | the header is accepted exactly when the file holds 32 bytes, the tag is known, the DarkSouls2 reserved field is 0, bytes 20..23 hold 0x20 and byte 31 is 0 |
| CcmFormat.DecodeHeader | Convert-ccm-to-txt.py:61-88 | a decoded header holds the raw fields in the version's byte order: file size at 4, widths and height at 8..13, the per-generation counts at 14..19, the glyph offset at 24 and the three bytes at 28..30; it fails only with Truncated, UnknownVersion or BadConstant |
| CcmFormat.ReadSizes | Convert-ccm-to-txt.py:66-69 | reading bytes 4..13 at the cursor gives `SizesAt` |
| CcmFormat.ReadCounts | Convert-ccm-to-txt.py:71-81 | reading bytes 14..19 at the cursor gives `CountsAt` |
| CcmFormat.ReadOffsets | Convert-ccm-to-txt.py:83-84 | reading bytes 20..27 at the cursor gives `OffsetsAt` |
| CcmFormat.ReadTail | Convert-ccm-to-txt.py:85-88 | reading bytes 28..31 at the cursor gives `TailAt` |
| CcmFormat.ReadShorts | Convert-ccm-to-txt.py:128-131 | reading four 16-bit fields at the cursor gives `ShortsAt` |
| CcmFormat.ReadHeader | Convert-ccm-to-txt.py:59-88 | reading the header field by field gives `DecodeHeader` of the file and leaves the cursor at 32 |
| Ds2Body.RegionAt | Convert-ccm-to-txt.py:119-123 | a rectangle decodes exactly when its 8 bytes are in the file, and is x1, y1, x2, y2 as four signed 16-bit fields; a short file fails with Truncated |
| Ds2Body.RegionOffset | Convert-ccm-to-txt.py:117-118 | `f.tell()` at entry i, 32 + 8 * i; `Ds2Body.ReadRegionTable` keeps the cursor equal to it, and `Ds2Body.ReadRegionsSpec` proves the keys are exactly these offsets |
| Ds2Body.RecordAt | Convert-ccm-to-txt.py:126-138 | a glyph record decodes exactly when its 24 bytes are in the file, both reserved words are 0, its region offset is a key of the table and the texture width and height are nonzero; it then holds the code at p, the rectangle `regions[offset]` and tex_index, pre_space, width and advance at p+8..p+16; with the words in place, an offset missing from the table fails with DanglingRegion(offset); the only errors are Truncated, BadConstant, DanglingRegion and ZeroDivision |
| Ds2Body.ReservedAt | Convert-ccm-to-txt.py:132-133 | the reserved words pass exactly when both are in the file and both are 0 |
| Ds2Body.Records | Convert-ccm-to-txt.py:125-133 | there is one decoded record per glyph count |
| Ds2Body.ReadRegion | Convert-ccm-to-txt.py:119-123 | reading a rectangle at the cursor gives `RegionAt` and advances by 8 |
| Ds2Body.ReadReserved | Convert-ccm-to-txt.py:132-133 | reading the two reserved words gives `ReservedAt` |
| Ds2Body.ReadRegions | Convert-ccm-to-txt.py:116-123 | the region loop keeps every key it started with and fails only with Truncated |
| Ds2Body.ReadGlyphs | Convert-ccm-to-txt.py:125-138 | the glyph loop keeps every code it started with, and a failure is the error of one of the records |
| Ds2Body.DecodeBody | Convert-ccm-to-txt.py:116-138 | the DarkSouls2 body fails only with Truncated, BadConstant, DanglingRegion or ZeroDivision |
| Ds2Body.ReadRecord | Convert-ccm-to-txt.py:126-138 | reading a glyph record at the cursor gives `RecordAt` and advances by 24 |
| Ds2Body.ReadRegionTable | Convert-ccm-to-txt.py:116-123 | the region loop, with `tell` as key, gives `ReadRegions` and ends at 32 + 8 * count |
| Ds2Body.ReadGlyphRecords | Convert-ccm-to-txt.py:125-138 | the glyph loop gives `ReadGlyphs` of the records |
| Ds2Body.ReadBody | Convert-ccm-to-txt.py:116-138 | the DarkSouls2 part of `read` gives `DecodeBody` |
| Ds2Body.ReadRegionsSpec | Convert-ccm-to-txt.py:116-123 | the region loop succeeds exactly when the whole table is in the file; it then holds exactly the keys 32 + 8 * j, each with the rectangle stored there |
| Ds2Body.KeyStep | Convert-ccm-to-txt.py:118 | the keys of entries i.. are entry i's offset and the keys of entries i+1.., and entry i's offset is not among the latter |
| Ds2Body.ReadGlyphsSize | Convert-ccm-to-txt.py:125-138 | the glyph loop adds at most one code per record |
| Ds2Body.ReadGlyphsOk | Convert-ccm-to-txt.py:125-138 | the glyph loop succeeds exactly when every record decodes |
| Ds2Body.ReadGlyphsFromRecords | Convert-ccm-to-txt.py:125-138 | every glyph of the result was there before or is the glyph of some record with that code |
| Ds2Body.ReadGlyphsLastWins | Convert-ccm-to-txt.py:138 | when several records carry one code, the last of them decides its glyph |
| Ds2Body.ReadGlyphsKeepsUntouched | Convert-ccm-to-txt.py:138 | a code no remaining record carries keeps its glyph |
| Ds2Body.DecodedBodyBounded | Convert-ccm-to-txt.py:125-138 | a decoded DarkSouls2 body holds at most glyph_count glyphs, and each carries a rectangle |
| Ds2Body.RecordsScaled | Convert-ccm-to-txt.py:135-137 | every record that decodes carries a rectangle |
| Ds2Body.RecordsNeedTexture | Convert-ccm-to-txt.py:136-137 | a record decodes only when the texture width and height are nonzero |
| Ds2Body.ReadGlyphsScaled | Convert-ccm-to-txt.py:125-138 | the glyph loop stores only glyphs of the records |
| CcmToTxt.GroupAt | Convert-ccm-to-txt.py:94-97 | a code group decodes exactly when its 12 bytes are in the file, as start code, end code and glyph index at p, p+4 and p+8; a short file fails with Truncated |
| CcmToTxt.LegacyGlyphAt | Convert-ccm-to-txt.py:101-109 | an older-layout record decodes exactly when its 24 bytes are in the file, as the four float words u1, v1, u2, v2 at p..p+16, then pre_space, width, advance and tex_index; a short file fails with Truncated |
| CcmToTxt.FloatWordsAt | Convert-ccm-to-txt.py:101-104 | the four float words decode exactly when their 16 bytes are in the file, as u1, v1, u2, v2 in that order; a short file fails with Truncated |
| CcmToTxt.PyIndex | Convert-ccm-to-txt.py:114 | a list index succeeds exactly when -len <= k < len, a negative index counting from the end, and gives an element of the list; otherwise IndexOutOfRange(k) |
| CcmToTxt.CodeCount | Convert-ccm-to-txt.py:112 | end - start + 1 codes per group; `CcmToTxt.ExpandGroupSpec` proves that a group maps exactly the codes start .. start + CodeCount - 1, so none when end < start |
| CcmToTxt.DecodeContent | Convert-ccm-to-txt.py:90-138 | the layout dispatch on the version; `CcmToTxt.DecodedLayoutFollowsVersion` proves glyphs carry float words exactly for the older versions, and `CcmToTxt.DecodeAfterHeader` ties it to `Decode` |
| CcmToTxt.ReadTable | Convert-ccm-to-txt.py:92-109 | a failing table loop fails with the error of one of the records it reads |
| CcmToTxt.ExpandGroup | Convert-ccm-to-txt.py:112-114 | one group keeps every code already mapped and fails only with an index error |
| CcmToTxt.ExpandGroups | Convert-ccm-to-txt.py:111-114 | the expansion keeps every code already mapped and fails only with an index error |
| CcmToTxt.DecodeLegacyBody | Convert-ccm-to-txt.py:91-114 | the older-layout body fails only with Truncated or an index error |
| CcmToTxt.Decode | Convert-ccm-to-txt.py:58-138 | a decoded file holds a whole header whose tag names the version, unk0e is 0 for DarkSouls2, and decoding never fails with a range error |
| CcmToTxt.DecodeAfterHeader | Convert-ccm-to-txt.py:58-138 | once the header decodes, the file decodes as its body does |
| CcmToTxt.ReadTableOk | Convert-ccm-to-txt.py:93-109 | a table loop succeeds exactly when the file holds every record |
| CcmToTxt.ReadTableContents | Convert-ccm-to-txt.py:93-109 | a table loop appends record j, as stored at base + size * j, in file order |
| CcmToTxt.GroupDecoderOk | Convert-ccm-to-txt.py:94-97 | a group decodes at an offset exactly when its 12 bytes follow |
| CcmToTxt.LegacyDecoderOk | Convert-ccm-to-txt.py:101-108 | an older-layout record decodes at an offset exactly when its 24 bytes follow |
| CcmToTxt.GroupTableOk | Convert-ccm-to-txt.py:92-97 | the code-group loop succeeds exactly when the file holds 32 + 12 * count bytes |
| CcmToTxt.GroupTableContents | Convert-ccm-to-txt.py:92-97 | the code-group loop yields group j as stored at 32 + 12 * j |
| CcmToTxt.FlatTableOk | Convert-ccm-to-txt.py:99-109 | the flat glyph loop succeeds exactly when the file holds every record |
| CcmToTxt.FlatTableContents | Convert-ccm-to-txt.py:99-109 | the flat glyph loop yields record j as stored at base + 24 * j |
| CcmToTxt.FlatTableFloatWords | Convert-ccm-to-txt.py:99-109 | every flat record carries raw float words |
| CcmToTxt.ExpandGroupSpec | Convert-ccm-to-txt.py:111-114 | a group succeeds exactly when all its indices glyph_index .. glyph_index + end - start fall in the flat list, and fails only with an index error; it maps code start + j to record glyph_index + j, adds no other code and keeps every other code; a group with end < start adds nothing |
| CcmToTxt.ExpandGroupsKeeps | Convert-ccm-to-txt.py:111-114 | a code no group covers stays as it was |
| CcmToTxt.ExpandGroupsLastWins | Convert-ccm-to-txt.py:111-114 | a code several groups cover takes its glyph from the last of them |
| CcmToTxt.ExpandGroupsFromFlat | Convert-ccm-to-txt.py:111-114 | every glyph of the expansion is a flat record or was there before |
| CcmToTxt.GroupExpansionExample | Convert-ccm-to-txt.py:111-114 | start 10, end 12, index 5 maps exactly codes 10, 11 and 12 to records 5, 6 and 7 |
| CcmToTxt.LegacyBodyHasFloatWords | Convert-ccm-to-txt.py:91-114 | every glyph of an older-layout body carries raw float words |
| CcmToTxt.DecodedLayoutFollowsVersion | Convert-ccm-to-txt.py:90-138 | a glyph carries float words exactly when the file is not DarkSouls2, and a rectangle otherwise |
| CcmToTxt.ReadGroup | Convert-ccm-to-txt.py:94-97 | reading a group at the cursor gives `GroupAt` and advances by 12 |
| CcmToTxt.ReadLegacyGlyph | Convert-ccm-to-txt.py:101-109 | reading an older-layout record gives `LegacyGlyphAt` and advances by 24 |
| CcmToTxt.ReadFloatWords | Convert-ccm-to-txt.py:101-104 | reading four float words gives `FloatWordsAt` and advances by 16 |
| CcmToTxt.ReadGroups | Convert-ccm-to-txt.py:92-97 | the code-group loop gives the table the specification loop reads |
| CcmToTxt.ReadLegacyGlyphs | Convert-ccm-to-txt.py:99-109 | the flat glyph loop gives the table the specification loop reads |
| CcmToTxt.CCM.constructor | Convert-ccm-to-txt.py:47-56 | a new object is DemonsSouls with zero fields and no glyphs |
| CcmToTxt.CCM.Expand | Convert-ccm-to-txt.py:111-114 | the nested expansion loops leave the glyph table `ExpandGroups` computes, or fail with its error |
| CcmToTxt.CCM.ReadLegacyContent | Convert-ccm-to-txt.py:91-114 | the older-layout body part of `read` fills the glyph table with `DecodeLegacyBody` |
| CcmToTxt.CCM.ReadContent | Convert-ccm-to-txt.py:90-138 | the body part of `read` fills the glyph table with the layout the version calls for |
| CcmToTxt.CCM.Load | Convert-ccm-to-txt.py:61-138 | once the header is read, the object holds its fields and the decoded body |
| CcmToTxt.CCM.Read | Convert-ccm-to-txt.py:58-138 | `read` leaves the object holding `Decode` of the file, or fails with its error |
| Ds2Image.Least | Convert-txt-to-ccm.py:138 | the least element of a non-empty code set |
| Ds2Image.SortedCodes | Convert-txt-to-ccm.py:138 | `sorted(keys)` holds exactly the codes of the set, strictly ascending |
| Ds2Image.LastIndex | Convert-txt-to-ccm.py:155 | the last position holding a rectangle |
| Ds2Image.OffsetTableLast | Convert-txt-to-ccm.py:153-160 | `tex_region_offsets` holds exactly the rectangles written, each under the offset of the last entry equal to it |
| Ds2Image.OffsetTable | Convert-txt-to-ccm.py:152-160 | every offset in `tex_region_offsets` is the offset of one of the table entries written |
| Ds2Image.RegionList | Convert-txt-to-ccm.py:143-150 | one rectangle per code |
| Ds2Image.OffsetFits | Convert-txt-to-ccm.py:165 | with fewer than 0x8000 glyphs, every table entry offset and the file size fit a signed 32-bit field |
| Ds2Image.LeadBytes | Convert-txt-to-ccm.py:115-117 | the tag and file-size fields are 8 bytes |
| Ds2Image.SizeBytes | Convert-txt-to-ccm.py:118-125 | the size and count fields are 12 bytes |
| Ds2Image.OffsetBytes | Convert-txt-to-ccm.py:127-129 | the constant and glyph-offset fields are 8 bytes |
| Ds2Image.TailBytes | Convert-txt-to-ccm.py:132-135 | the tail is 4 bytes |
| Ds2Image.HeaderBytes | Convert-txt-to-ccm.py:115-135 | the header is exactly 32 bytes |
| Ds2Image.RegionBytes | Convert-txt-to-ccm.py:156-159 | a table entry is 8 bytes |
| Ds2Image.MetricBytes | Convert-txt-to-ccm.py:175-178 | the four 16-bit fields of a record are 8 bytes |
| Ds2Image.RecordBytes | Convert-txt-to-ccm.py:173-180 | a glyph record is 24 bytes |
| Ds2Image.RegionChunks | Convert-txt-to-ccm.py:154-160 | one table entry per rectangle |
| Ds2Image.RecordChunks | Convert-txt-to-ccm.py:169-180 | one glyph record per code |
| Ds2Image.EncodableParts | Convert-txt-to-ccm.py:115-180 | when every field fits, the sorted codes and their rectangles make the parts of a file |
| Ds2Image.FileSize | Convert-txt-to-ccm.py:182-185 | the final `f.tell()`, 32 + 32 * n; `Ds2Image.LayoutHeader` proves the file has that length and that bytes 4..7 carry it, and `Ds2Image.OffsetFits` that it fits 32 bits |
| Ds2Image.Image | Convert-txt-to-ccm.py:110-185 | the file `write` lays out for an encodable document; `RoundTrip.WriteThenRead` proves it reads back, and `RoundTrip.LegacyVersionReadBack` and `RoundTrip.BigEndianVersionReadBack` what the older tags give |
| Ds2Image.Layout | Convert-txt-to-ccm.py:110-185 | the file is 32 + 32 * n bytes long for n glyphs |
| Ds2Image.Encode | Convert-txt-to-ccm.py:110-185 | a written file is 32 + 32 * n bytes long, and the only failure is the range error |
| Ds2Image.SortedCodesFacts | Convert-txt-to-ccm.py:138-150 | the sorted codes are distinct and cover the glyph table, and rectangle j is the rectangle of code j |
| Ds2Image.LayoutHeader | Convert-txt-to-ccm.py:116-185 | the file is 32 + 32 * n bytes long and starts with the header carrying that size and the glyph table offset 32 + 8 * n |
| Ds2Image.LayoutRegion | Convert-txt-to-ccm.py:152-160 | table entry j lies at 32 + 8 * j and holds rectangle j |
| Ds2Image.LayoutRecord | Convert-txt-to-ccm.py:168-180 | glyph record j lies at 32 + 8 * n + 24 * j and holds code j, the offset of the last entry equal to rectangle j, and the glyph's fields |
| TxtToCcm.BodyNeedsTexture | Convert-txt-to-ccm.py:104-108 | a DarkSouls2 body with glyphs names a texture of nonzero width and height |
| TxtToCcm.DecodeDs2Only | Convert-txt-to-ccm.py:52-108 | this script's `read` keeps no glyphs for an older version, and fails only with Truncated, UnknownVersion, BadConstant, DanglingRegion or ZeroDivision |
| TxtToCcm.DecodeDs2OnlyWellFormed | Convert-txt-to-ccm.py:52-108 | what this script's `read` produces has a rectangle in every glyph, and glyphs only with a texture size |
| TxtToCcm.WriteLead | Convert-txt-to-ccm.py:115-117 | appends the tag and the zero file-size placeholder |
| TxtToCcm.WriteSizes | Convert-txt-to-ccm.py:118-125 | succeeds exactly when the widths and the glyph count fit 16 bits, and appends the sizes, the glyph count twice and a zero |
| TxtToCcm.WriteOffsets | Convert-txt-to-ccm.py:127-129 | appends 0x20 and the zero glyph-offset placeholder |
| TxtToCcm.WriteTail | Convert-txt-to-ccm.py:132-135 | succeeds exactly when unk1c, unk1d and the texture count fit a byte, and appends them and a zero |
| TxtToCcm.WriteHeader | Convert-txt-to-ccm.py:114-135 | succeeds exactly when every header field fits; the file is then the 32-byte header with both placeholders 0 |
| TxtToCcm.CollectRegions | Convert-txt-to-ccm.py:138-150 | the loop yields the rectangle of each code in order |
| TxtToCcm.WriteRegion | Convert-txt-to-ccm.py:156-159 | succeeds exactly when the four coordinates fit 16 bits, and appends the entry |
| TxtToCcm.RegionChunksStep | Convert-txt-to-ccm.py:154-160 | writing one more entry appends its bytes to the table |
| TxtToCcm.WriteRegions | Convert-txt-to-ccm.py:152-160 | succeeds exactly when every rectangle fits; it then appends the table, and the dictionary it builds is `OffsetTable`, which maps each rectangle to the offset where it was last written |
| TxtToCcm.WriteMetrics | Convert-txt-to-ccm.py:175-178 | succeeds exactly when the four fields fit, and appends them |
| TxtToCcm.WriteRecord | Convert-txt-to-ccm.py:173-180 | succeeds exactly when the code and the four fields fit, and appends the 24-byte record |
| TxtToCcm.RecordChunksStep | Convert-txt-to-ccm.py:169-180 | writing the record of one more code appends its bytes |
| TxtToCcm.OffsetOf | Convert-txt-to-ccm.py:174 | rectangle i is a key of the dictionary, under the offset of the last equal entry, which fits 32 bits |
| TxtToCcm.RecordsFitStep | Convert-txt-to-ccm.py:169-180 | the records of one more code fit exactly when that code's record does, and a record that does not fit spoils the whole table |
| TxtToCcm.WriteRecords | Convert-txt-to-ccm.py:168-180 | succeeds exactly when every record fits, and appends the records in code order |
| TxtToCcm.PatchGlyphOffset | Convert-txt-to-ccm.py:162-166 | writing the glyph offset over bytes 24..27 gives the header with that offset and keeps the rest |
| TxtToCcm.PatchFileSize | Convert-txt-to-ccm.py:182-185 | writing the file size over bytes 4..7 gives the header with that size and keeps the rest |
| TxtToCcm.FitsByCode | Convert-txt-to-ccm.py:115-180 | every field fits exactly when the header fits, every rectangle fits and every record fits |
| TxtToCcm.EncodableIff | Convert-txt-to-ccm.py:115-180 | the same, for the sorted codes and their rectangles |
| TxtToCcm.CCM.constructor | Convert-txt-to-ccm.py:41-50 | a new object is DarkSouls2 with zero fields and no glyphs |
| TxtToCcm.CCM.Read | Convert-txt-to-ccm.py:52-108 | `read` leaves the object holding `DecodeDs2Only` of the file, which is well formed, or fails with its error |
| TxtToCcm.CCM.Write | Convert-txt-to-ccm.py:110-185 | `write` of a well-formed object produces exactly `Encode` of it: the header, the table and the records, with both placeholders patched, or the range error |
| TxtToCcm.WriteGlyphOffset | Convert-txt-to-ccm.py:162-166 | patches the current length into bytes 24..27 and returns the cursor to the end |
| TxtToCcm.WriteFileSize | Convert-txt-to-ccm.py:182-185 | patches the final length into bytes 4..7 |
| TxtToCcm.WriteGlyphTable | Convert-txt-to-ccm.py:162-185 | succeeds exactly when every record fits, and the file is then `Layout` of the document |
| TxtToCcm.ImportFails | Convert-txt-to-ccm.py:224-227 | the import fails exactly when a character line exists and the texture width or height is 0, and then with the division error |
| TxtToCcm.CharGlyph | Convert-txt-to-ccm.py:224-237 | the glyph of a character line: rectangle (x, y, x + width, y + height), xoffset as pre-space, width, xadvance as advance, page as texture index; `TxtToCcm.ImportLastWins` proves the last line with an id gives its glyph |
| TxtToCcm.ImportFrom | Convert-txt-to-ccm.py:209-237 | the import keeps every code already present, adds at most one code per line and fails only with the division error |
| TxtToCcm.ImportKeys | Convert-txt-to-ccm.py:209-237 | the imported table holds exactly the ids of the character lines |
| TxtToCcm.ImportLastWins | Convert-txt-to-ccm.py:230-237 | the last line with an id decides its glyph: rectangle (x, y, x + width, y + height), xoffset, width, xadvance and page |
| TxtToCcm.ImportKept | Convert-txt-to-ccm.py:230 | a code no line names keeps its glyph |
| TxtToCcm.ImportScaled | Convert-txt-to-ccm.py:224-237 | every imported glyph carries a rectangle |
| TxtToCcm.ImportedWellFormed | Convert-txt-to-ccm.py:193-237 | a document with imported glyphs is one `write` accepts: every glyph carries a rectangle, and there are glyphs only when the texture width and height are nonzero |
| TxtToCcm.ConvertWithOriginal | Convert-txt-to-ccm.py:188-240 | the conversion reads the original, copies its header fields, adds a glyph per character line and writes: exactly `Convert` |
| TxtToCcm.Convert | Convert-txt-to-ccm.py:188-240 | a converted file comes from an original that reads and an import that succeeds, and is 32 + 32 * n bytes for the n imported codes; with an original that reads, the only failures are the division error and the range error |
| RoundTrip.HeaderSlices | Convert-txt-to-ccm.py:115-135 | each header field lies at its offset |
| RoundTrip.SizesReadBack | Convert-txt-to-ccm.py:60-81 | bytes 8..19 read back as the sizes and counts written, in either generation's layout |
| RoundTrip.TailReadBack | Convert-txt-to-ccm.py:79-82 | bytes 28..31 read back as written |
| RoundTrip.HeaderReadBack | Convert-txt-to-ccm.py:55-82 | the written DarkSouls2 header reads back with its fields, the glyph count as region and glyph count, unk0e 0 and the patched offsets |
| RoundTrip.LegacyHeaderReadBack | Convert-txt-to-ccm.py:65-69 | a header written with the DarkSouls1 tag reads in the grouped layout: the glyph count lands in unk0e and the code-group count, and the glyph count reads as 0 |
| RoundTrip.ConstantBigEndian | Convert-txt-to-ccm.py:127 | the constant 0x20 written little-endian reads big-endian as 0x20000000 |
| RoundTrip.BigEndianHeaderFails | Convert-txt-to-ccm.py:55-77 | a header written with the DemonsSouls tag fails at the 0x20 constant |
| RoundTrip.RegionReadBack | Convert-txt-to-ccm.py:89-93 | a written table entry reads back as the rectangle |
| RoundTrip.MetricsReadBack | Convert-txt-to-ccm.py:98-101 | the four written 16-bit fields read back |
| RoundTrip.RecordReadBack | Convert-txt-to-ccm.py:95-108 | a written record reads back as its code and glyph when its offset names the glyph's rectangle and the texture has a size |
| RoundTrip.RegionEntryReadBack | Convert-txt-to-ccm.py:87-93 | entry j of the written file reads back as rectangle j |
| RoundTrip.RegionsReadBack | Convert-txt-to-ccm.py:86-93 | the region loop over the written table succeeds with exactly the keys 32 + 8 * j, each holding rectangle j |
| RoundTrip.EntryKey | Convert-txt-to-ccm.py:88 | 32 + 8 * j is a key of a table of n entries when j < n |
| RoundTrip.RegionTableReadBack | Convert-txt-to-ccm.py:86-93 | the region table of the written file reads back |
| RoundTrip.RecordEntryReadBack | Convert-txt-to-ccm.py:95-108 | record j of the written file reads back as code j and its glyph |
| RoundTrip.RecordsReadBack | Convert-txt-to-ccm.py:95-108 | every record of the written file reads back |
| RoundTrip.ReadGlyphsDistinct | Convert-txt-to-ccm.py:95-108 | records of distinct codes that cover a table read back as exactly that table |
| RoundTrip.RecordsOf | Convert-txt-to-ccm.py:95-108 | the record facts restated per decoded record |
| RoundTrip.LayoutBodyReadBack | Convert-txt-to-ccm.py:84-108 | the body of the written file reads back as the glyph table |
| RoundTrip.GlyphsReadBack | Convert-txt-to-ccm.py:95-108 | the glyph loop over the written records gives the glyph table |
| RoundTrip.BodyReadBack | Convert-txt-to-ccm.py:84-108 | a file with those records decodes to the glyph table |
| RoundTrip.BodyFromTables | Convert-txt-to-ccm.py:84-108 | the body decodes as its glyph loop does once the region table reads |
| RoundTrip.LayoutReadBack | Convert-txt-to-ccm.py:52-108 | the written file reads back as the document with unk0e 0 |
| RoundTrip.WriteThenRead | Convert-txt-to-ccm.py:110-185 | for a well-formed DarkSouls2 document, `read` of `write`'s output gives the document back (unk0e reads as 0); `write` fails only with the range error, and only when some field does not fit |
| RoundTrip.ConvertReadBack | Convert-txt-to-ccm.py:188-240 | converting against a DarkSouls2 original gives a file that reads back as the original's header fields with exactly the imported glyphs; it fails only on a texture without a size or a field that does not fit |
| RoundTrip.LegacyDecode | Convert-txt-to-ccm.py:84-85 | this script's `read` keeps no glyphs for an older version |
| RoundTrip.LegacyVersionReadBack | Convert-txt-to-ccm.py:112-135 | `write` with the DarkSouls1 tag gives a file that reads back with no glyphs and the glyph count as unk0e |
| RoundTrip.BigEndianVersionReadBack | Convert-txt-to-ccm.py:112-135 | `write` with the DemonsSouls tag gives a file that fails to read at the 0x20 constant |
| RoundTrip.ReadersAgree | Convert-txt-to-ccm.py:52-108 | on a DarkSouls2 file the two scripts' readers give the same object or the same error; on an older file this script's reader gives the other reader's object without its glyphs |

## Left out

- Floating point. The older layout's four coordinate floats are kept as raw
  32-bit words (`FloatWords`); they are read and never interpreted.
- DarkSouls2 coordinates. The readers divide each rectangle by the texture
  size, and `write` multiplies back and rounds. The model keeps the pixel
  rectangle itself (`Scaled`), so `round(x / w * w) == x` is taken to hold
  for 16-bit x and w. The division is kept only as its failure: a zero
  texture size raises ZeroDivision. A coordinate of 309 digits or more also makes
  the import's division overflow a float, and the script raises
  OverflowError at that line. The model accepts the line, and `write` then
  fails with OutOfRange. The failure kinds stated by `TxtToCcm.ImportFails`,
  `TxtToCcm.ImportFrom`, `TxtToCcm.Convert` and `RoundTrip.ConvertReadBack`
  hold of the script only for coordinates below that bound.
- Text output. The `.fnt`-style formatting of Convert-ccm-to-txt.py and its
  line-height computation are not modelled: they are string and float I/O.
- Text input. Parsing the `char id=` lines with a regular expression is not
  modelled. A `CharRecord` holds the fields of a line that matched. Lines
  that do not match are skipped by the script and absent from the list.
- Files. `open`, the hard-coded paths, `print` and the module-level calls
  are left out. Streams are in-memory byte sequences.
- Partial effects of a failure. When `read` raises, the fields assigned
  before the failing one keep their new values. When `write` raises, a
  partial file is left on disk. The model returns the error only.
- CcmToTxt.CCM.Read: says nothing about the object's fields after a failure.
- TxtToCcm.CCM.Read: says nothing about the object's fields after a failure.
- TxtToCcm.CCM.Write: returns the bytes instead of writing a file, and
  gives no partial contents on a range error.
- Ds2Body.Records: its own contract states only the number of records.
  Record j is by definition `RecordAt` at base + 24 * j, and the contract of
  `Ds2Body.RecordAt` states what that record holds.
- TexRegion hashing. `__eq__`/`__hash__` become structural equality of the
  `TexRegion` datatype, which is what dictionary lookup by value needs.
