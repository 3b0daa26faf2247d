/** The entities of a CCM document and the 32-byte header that every format
    generation starts with. The version tag is always read little-endian and
    then chooses the byte order of every later field. */
module CcmFormat {
  import opened Wire
  import opened Streams

  /** The three recognised format generations (CCMVer). */
  datatype Version = DemonsSouls | DarkSouls1 | DarkSouls2

  /** The tag each generation stores in bytes 0..3. */
  function Tag(v: Version): nat
  {
    match v
    case DemonsSouls => 0x100
    case DarkSouls1 => 0x10001
    case DarkSouls2 => 0x20000
  }

  /** `CCMVer(tag)`: only the three known tags name a version. */
  function VersionOf(tag: int): (r: Result<Version>)
    ensures r.Ok? <==> tag == 0x100 || tag == 0x10001 || tag == 0x20000
    ensures r.Ok? ==> Tag(r.value) == tag
    ensures r.Err? ==> r.error == UnknownVersion(tag)
  {
    if tag == 0x100 then Ok(DemonsSouls)
    else if tag == 0x10001 then Ok(DarkSouls1)
    else if tag == 0x20000 then Ok(DarkSouls2)
    else Err(UnknownVersion(tag))
  }

  /** DemonsSouls files are big-endian after the tag, the others little-endian. */
  function ByteOrder(v: Version): Endian
  {
    if v == DemonsSouls then Big else Little
  }

  /** Size of the header, and the constant stored at bytes 20..23. */
  const HeaderSize: nat := 0x20

  /** A pixel rectangle of the texture atlas; equality is on the four corners. */
  datatype TexRegion = TexRegion(x1: int, y1: int, x2: int, y2: int)

  /** A run of codes start..end mapped to the flat glyph records from glyphIndex on. */
  datatype CodeGroup = CodeGroup(startCode: int, endCode: int, glyphIndex: int)

  /** Texture coordinates of a glyph. The older layouts store four IEEE-754
      single-precision floats, kept here as their raw 32-bit words. The newest
      layout stores a pixel rectangle; the coordinates are that rectangle divided
      by the texture width and height, so the rectangle is kept. */
  datatype Uv =
    | FloatWords(u1x: int, u1y: int, u2x: int, u2y: int)
    | Scaled(region: TexRegion)

  datatype Glyph = Glyph(uv: Uv, preSpace: int, width: int, advance: int, texIndex: int)

  /** Every header field as read; counts a generation does not have are -1. */
  datatype Header = Header(
    version: Version,
    fileSize: int,
    fullWidth: int,
    texWidth: int,
    texHeight: int,
    unk0e: int,
    codeGroupCount: int,
    texRegionCount: int,
    glyphCount: int,
    glyphOffset: int,
    unk1c: int,
    unk1d: int,
    texCount: int)

  /** The state a CCM object holds after a read. */
  datatype Document = Document(
    version: Version,
    fullWidth: int,
    texWidth: int,
    texHeight: int,
    unk0e: int,
    unk1c: int,
    unk1d: int,
    texCount: int,
    glyphs: map<int, Glyph>)

  /** Iterations of `range(count)`: none for a negative count. */
  function Count(c: int): nat
  {
    if c < 0 then 0 else c
  }

  /** Bytes 4..13: file size, full width, texture width and texture height. */
  function SizesAt(data: seq<Byte>, e: Endian): (r: Result<(int, int, int, int)>)
    ensures r.Ok? <==> 14 <= |data|
  {
    var fileSize :- SignedAt(data, 4, 4, e);
    var fullWidth :- SignedAt(data, 8, 2, e);
    var texWidth :- SignedAt(data, 10, 2, e);
    var texHeight :- SignedAt(data, 12, 2, e);
    Ok((fileSize, fullWidth, texWidth, texHeight))
  }

  /** Bytes 14..19, which differ between the generations: unk0e, the code-group
      count and the glyph count in the older layouts; the region count, the
      glyph count and a reserved zero in DarkSouls2. The result holds unk0e,
      the code-group count, the region count and the glyph count, with -1 for
      a count the generation does not have. */
  function CountsAt(data: seq<Byte>, v: Version): (r: Result<(int, int, int, int)>)
    ensures 20 <= |data| && v != DarkSouls2 ==> r.Ok?
    ensures r.Ok? ==> 20 <= |data|
    ensures r.Ok? && v == DarkSouls2 ==> r.value.0 == 0 && r.value.1 == -1 && Signed(data[18..20], Little) == 0
    ensures r.Ok? && v != DarkSouls2 ==> r.value.2 == -1
  {
    var e := ByteOrder(v);
    var at14 :- SignedAt(data, 14, 2, e);
    var at16 :- SignedAt(data, 16, 2, e);
    var at18 :- SignedAt(data, 18, 2, e);
    if v == DarkSouls2 then
      :- Need(at18 == 0, BadConstant(18));
      Ok((0, -1, at14, at16))
    else
      Ok((at14, at16, -1, at18))
  }

  /** Bytes 20..27: the header size constant 0x20, then the glyph offset. */
  function OffsetsAt(data: seq<Byte>, e: Endian): (r: Result<int>)
    ensures r.Ok? ==> 28 <= |data| && Signed(data[20..24], e) == HeaderSize
  {
    var check :- SignedAt(data, 20, 4, e);
    :- Need(check == HeaderSize, BadConstant(20));
    SignedAt(data, 24, 4, e)
  }

  /** Bytes 28..31: unk1c, unk1d, the texture count and a zero pad byte. */
  function TailAt(data: seq<Byte>): (r: Result<(int, int, int)>)
    ensures r.Ok? <==> |data| >= HeaderSize && data[31] == 0
  {
    var unk1c :- UnsignedAt(data, 28, 1, Little);
    var unk1d :- UnsignedAt(data, 29, 1, Little);
    var texCount :- UnsignedAt(data, 30, 1, Little);
    var pad :- UnsignedAt(data, 31, 1, Little);
    OneByte(data, 31);
    :- Need(pad == 0, BadConstant(31));
    Ok((unk1c, unk1d, texCount))
  }

  /** A one-byte field is the byte itself. */
  lemma OneByte(data: seq<Byte>, p: nat)
    requires p < |data|
    ensures UnsignedAt(data, p, 1, Little) == Ok(data[p])
  {
    var bs := data[p..p + 1];
    assert bs[1..] == [] && bs[0] == data[p];
    assert Unsigned(bs, Little) == bs[0] + 0x100 * Unsigned(bs[1..], Little);
  }

  /** Four consecutive signed 16-bit fields at offset p, as glyph records end. */
  function ShortsAt(data: seq<Byte>, p: nat, e: Endian): (r: Result<(int, int, int, int)>)
    ensures r.Ok? <==> p + 8 <= |data|
  {
    var a :- SignedAt(data, p, 2, e);
    var b :- SignedAt(data, p + 2, 2, e);
    var c :- SignedAt(data, p + 4, 2, e);
    var d :- SignedAt(data, p + 6, 2, e);
    Ok((a, b, c, d))
  }

  /** The header as the readers parse it, field by field in file order; the
      first field that is missing or wrong decides the error. */
  function DecodeHeader(data: seq<Byte>): (r: Result<Header>)
    ensures r.Ok? ==>
              var h, e := r.value, ByteOrder(r.value.version);
              |data| >= HeaderSize &&
              h.fileSize == Signed(data[4..8], e) && h.fullWidth == Signed(data[8..10], e) &&
              h.texWidth == Signed(data[10..12], e) && h.texHeight == Signed(data[12..14], e) &&
              h.glyphOffset == Signed(data[24..28], e) &&
              h.unk1c == data[28] && h.unk1d == data[29] && h.texCount == data[30] &&
              (h.version == DarkSouls2 ==>
                 h.texRegionCount == Signed(data[14..16], e) && h.glyphCount == Signed(data[16..18], e)) &&
              (h.version != DarkSouls2 ==>
                 h.unk0e == Signed(data[14..16], e) && h.codeGroupCount == Signed(data[16..18], e) &&
                 h.glyphCount == Signed(data[18..20], e))
    ensures r.Err? ==> r.error.Truncated? || r.error.UnknownVersion? || r.error.BadConstant?
  {
    var tag :- UnsignedAt(data, 0, 4, Little);
    var version :- VersionOf(tag);
    var e := ByteOrder(version);
    var sizes :- SizesAt(data, e);
    var counts :- CountsAt(data, version);
    var glyphOffset :- OffsetsAt(data, e);
    var tail :- TailAt(data);
    OneByte(data, 28);
    OneByte(data, 29);
    OneByte(data, 30);
    Ok(Header(version, sizes.0, sizes.1, sizes.2, sizes.3, counts.0, counts.1, counts.2, counts.3,
              glyphOffset, tail.0, tail.1, tail.2))
  }

  /** What a decoded header guarantees: the file holds the whole header, the
      tag names the version, bytes 20..23 hold 0x20 in the version's byte
      order, the pad byte is zero, and each generation has its own counts. */
  lemma DecodedHeaderFacts(data: seq<Byte>)
    ensures var r := DecodeHeader(data);
            r.Ok? ==>
              |data| >= HeaderSize &&
              Tag(r.value.version) == Unsigned(data[..4], Little) &&
              Signed(data[20..24], ByteOrder(r.value.version)) == HeaderSize && data[31] == 0 &&
              (r.value.version == DarkSouls2 ==>
                 Signed(data[18..20], Little) == 0 && r.value.unk0e == 0 && r.value.codeGroupCount == -1) &&
              (r.value.version != DarkSouls2 ==> r.value.texRegionCount == -1)
    ensures |data| < HeaderSize ==> DecodeHeader(data).Err?
    ensures |data| >= 4 && VersionOf(Unsigned(data[..4], Little)).Err? ==>
              DecodeHeader(data) == Err(UnknownVersion(Unsigned(data[..4], Little)))
  {
  }

  /** A header is accepted exactly when the file holds 32 bytes, the tag is
      known, the reserved fields are zero and bytes 20..23 hold 0x20. */
  lemma HeaderAccepted(data: seq<Byte>)
    ensures DecodeHeader(data).Ok? <==>
      |data| >= HeaderSize &&
      VersionOf(Unsigned(data[..4], Little)).Ok? &&
      (var v := VersionOf(Unsigned(data[..4], Little)).value;
       (v == DarkSouls2 ==> Signed(data[18..20], Little) == 0) &&
       Signed(data[20..24], ByteOrder(v)) == HeaderSize &&
       data[31] == 0)
  {
    if |data| >= HeaderSize {
      OneByte(data, 31);
    }
  }

  /** Bytes 4..13 of the header, read at the cursor. */
  method ReadSizes(f: InStream, e: Endian) returns (r: Result<(int, int, int, int)>)
    requires f.Valid() && f.pos == 4
    modifies f
    ensures f.Valid()
    ensures r == SizesAt(f.data, e)
    ensures r.Ok? ==> f.pos == 14
  {
    var fileSize :- f.ReadSigned(4, e);
    var fullWidth :- f.ReadSigned(2, e);
    var texWidth :- f.ReadSigned(2, e);
    var texHeight :- f.ReadSigned(2, e);
    r := Ok((fileSize, fullWidth, texWidth, texHeight));
  }

  /** Bytes 14..19 of the header, read in the layout of version v. */
  method ReadCounts(f: InStream, v: Version) returns (r: Result<(int, int, int, int)>)
    requires f.Valid() && f.pos == 14
    modifies f
    ensures f.Valid()
    ensures r == CountsAt(f.data, v)
    ensures r.Ok? ==> f.pos == 20
  {
    var e := ByteOrder(v);
    if v == DemonsSouls || v == DarkSouls1 {
      var unk0e :- f.ReadSigned(2, e);
      var codeGroupCount :- f.ReadSigned(2, e);
      var glyphCount :- f.ReadSigned(2, e);
      r := Ok((unk0e, codeGroupCount, -1, glyphCount));
    } else {
      var texRegionCount :- f.ReadSigned(2, e);
      var glyphCount :- f.ReadSigned(2, e);
      var reserved :- f.ReadSigned(2, e);
      if reserved != 0 {
        return Err(BadConstant(18));
      }
      r := Ok((0, -1, texRegionCount, glyphCount));
    }
  }

  /** Bytes 20..27 of the header. */
  method ReadOffsets(f: InStream, e: Endian) returns (r: Result<int>)
    requires f.Valid() && f.pos == 20
    modifies f
    ensures f.Valid()
    ensures r == OffsetsAt(f.data, e)
    ensures r.Ok? ==> f.pos == 28
  {
    var check :- f.ReadSigned(4, e);
    if check != HeaderSize {
      return Err(BadConstant(20));
    }
    r := f.ReadSigned(4, e);
  }

  /** Bytes 28..31 of the header. */
  method ReadTail(f: InStream) returns (r: Result<(int, int, int)>)
    requires f.Valid() && f.pos == 28
    modifies f
    ensures f.Valid()
    ensures r == TailAt(f.data)
    ensures r.Ok? ==> f.pos == HeaderSize
  {
    var unk1c :- f.ReadUnsigned(1, Little);
    var unk1d :- f.ReadUnsigned(1, Little);
    var texCount :- f.ReadUnsigned(1, Little);
    var pad :- f.ReadUnsigned(1, Little);
    if pad != 0 {
      return Err(BadConstant(31));
    }
    r := Ok((unk1c, unk1d, texCount));
  }

  /** Four signed 16-bit fields, read at the cursor. */
  method ReadShorts(f: InStream, e: Endian) returns (r: Result<(int, int, int, int)>)
    requires f.Valid()
    modifies f
    ensures f.Valid()
    ensures r == ShortsAt(f.data, old(f.pos), e)
    ensures r.Ok? ==> f.pos == old(f.pos) + 8
  {
    var a :- f.ReadSigned(2, e);
    var b :- f.ReadSigned(2, e);
    var c :- f.ReadSigned(2, e);
    var d :- f.ReadSigned(2, e);
    r := Ok((a, b, c, d));
  }

  /** The header part of `CCM.read`: the version tag, then every field in the
      byte order the tag chose. */
  method ReadHeader(f: InStream) returns (r: Result<Header>)
    requires f.Valid() && f.pos == 0
    modifies f
    ensures f.Valid()
    ensures r == DecodeHeader(f.data)
    ensures r.Ok? ==> f.pos == HeaderSize
  {
    var tag :- f.ReadUnsigned(4, Little);
    var version :- VersionOf(tag);
    var e := ByteOrder(version);
    var sizes :- ReadSizes(f, e);
    var counts :- ReadCounts(f, version);
    var glyphOffset :- ReadOffsets(f, e);
    var tail :- ReadTail(f);
    r := Ok(Header(version, sizes.0, sizes.1, sizes.2, sizes.3, counts.0, counts.1, counts.2,
                   counts.3, glyphOffset, tail.0, tail.1, tail.2));
  }
}
