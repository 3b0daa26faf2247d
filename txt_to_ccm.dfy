/** The encoder script, Convert-txt-to-ccm.py. Its own `CCM.read` parses the
    header of every generation but fills the glyph table only for
    DarkSouls2; its `CCM.write` always emits the little-endian DarkSouls2
    layout of Ds2Image; `txt_to_ccm_with_original` copies the header of a
    reference file and builds the glyph table from the text descriptor. */
module TxtToCcm {
  import opened Wire
  import opened Streams
  import opened CcmFormat
  import opened Ds2Body
  import opened Ds2Image

  /** `CCM.read` of the encoder script: the header fields, and the glyphs of a
      DarkSouls2 body; an older file yields no glyphs. */
  function DecodeDs2Only(data: seq<Byte>): (r: Result<Document>)
    ensures r.Ok? && r.value.version != DarkSouls2 ==> r.value.glyphs == map[]
    ensures r.Err? ==>
              r.error.Truncated? || r.error.UnknownVersion? || r.error.BadConstant? ||
              r.error.DanglingRegion? || r.error.ZeroDivision?
  {
    var h :- DecodeHeader(data);
    var glyphs :- if h.version == DarkSouls2 then DecodeBody(data, h) else Ok(map[]);
    Ok(Document(h.version, h.fullWidth, h.texWidth, h.texHeight, h.unk0e, h.unk1c, h.unk1d,
                h.texCount, glyphs))
  }

  /** A DarkSouls2 body with glyphs names a texture of nonzero size. */
  lemma BodyNeedsTexture(data: seq<Byte>, h: Header)
    ensures DecodeBody(data, h).Ok? && |DecodeBody(data, h).value| > 0 ==>
              h.texWidth != 0 && h.texHeight != 0
  {
    var e := ByteOrder(h.version);
    var n := Count(h.texRegionCount);
    var regions := ReadRegions(data, e, n, 0, map[]);
    if regions.Ok? {
      var recs := Records(data, e, RegionOffset(n), Count(h.glyphCount), regions.value, h.texWidth, h.texHeight);
      var body := DecodeBody(data, h);
      assert body == ReadGlyphs(recs, 0, map[]);
      ReadGlyphsFromRecords(recs, 0, map[]);
      RecordsNeedTexture(data, e, RegionOffset(n), Count(h.glyphCount), regions.value, h.texWidth, h.texHeight);
      if body.Ok? && |body.value| > 0 {
        EmptyOrMember(body.value.Keys);
        var c :| c in body.value;
      }
    }
  }

  /** What the encoder's reader produces is well formed: every glyph has a
      rectangle, and glyphs come only with a texture of nonzero size. */
  lemma DecodeDs2OnlyWellFormed(data: seq<Byte>)
    ensures DecodeDs2Only(data).Ok? ==> WellFormed(DecodeDs2Only(data).value)
  {
    var h := DecodeHeader(data);
    if h.Ok? && h.value.version == DarkSouls2 {
      DecodedBodyBounded(data, h.value);
      BodyNeedsTexture(data, h.value);
    }
  }

  // ---------------------------------------------------------------------------
  // `CCM.write`, stage by stage. Every `struct.pack` of a value that does
  // not fit raises; the stages report that as `ok == false`.

  /** Bytes 0..7: the version tag and a zero placeholder for the file size. */
  method WriteLead(f: OutStream, v: Version)
    requires f.pos == |f.bytes|
    modifies f
    ensures f.bytes == old(f.bytes) + LeadBytes(v, 0) && f.pos == |f.bytes|
  {
    PowValues();
    var ok := f.WriteUnsigned(Tag(v), 4, Little);
    ok := f.WriteSigned(0, 4, Little);
  }

  /** Bytes 8..19: the widths, the glyph count twice and a zero. */
  method WriteSizes(f: OutStream, doc: Document) returns (ok: bool)
    requires f.pos == |f.bytes|
    modifies f
    ensures ok == SizesFit(doc)
    ensures ok ==> f.bytes == old(f.bytes) + SizeBytes(doc) && f.pos == |f.bytes|
  {
    PowValues();
    var n := |doc.glyphs|;
    ok := f.WriteSigned(doc.fullWidth, 2, Little);
    if !ok { return; }
    ghost var s := EncodeSigned(doc.fullWidth, 2, Little);
    ok := f.WriteSigned(doc.texWidth, 2, Little);
    if !ok { return; }
    AppendAssoc(old(f.bytes), s, EncodeSigned(doc.texWidth, 2, Little));
    s := s + EncodeSigned(doc.texWidth, 2, Little);
    ok := f.WriteSigned(doc.texHeight, 2, Little);
    if !ok { return; }
    AppendAssoc(old(f.bytes), s, EncodeSigned(doc.texHeight, 2, Little));
    s := s + EncodeSigned(doc.texHeight, 2, Little);
    ok := f.WriteSigned(n, 2, Little);
    if !ok { return; }
    AppendAssoc(old(f.bytes), s, EncodeSigned(n, 2, Little));
    s := s + EncodeSigned(n, 2, Little);
    ok := f.WriteSigned(n, 2, Little);
    AppendAssoc(old(f.bytes), s, EncodeSigned(n, 2, Little));
    s := s + EncodeSigned(n, 2, Little);
    ok := f.WriteSigned(0, 2, Little);
    AppendAssoc(old(f.bytes), s, EncodeSigned(0, 2, Little));
  }

  /** Bytes 20..27: the constant 0x20 and a zero placeholder for the glyph
      table offset. */
  method WriteOffsets(f: OutStream)
    requires f.pos == |f.bytes|
    modifies f
    ensures f.bytes == old(f.bytes) + OffsetBytes(0) && f.pos == |f.bytes|
  {
    var ok := f.WriteSigned(HeaderSize, 4, Little);
    ok := f.WriteSigned(0, 4, Little);
    AppendAssoc(old(f.bytes), EncodeSigned(HeaderSize, 4, Little), EncodeSigned(0, 4, Little));
  }

  /** Bytes 28..31: unk1c, unk1d, the texture count and a zero byte. */
  method WriteTail(f: OutStream, doc: Document) returns (ok: bool)
    requires f.pos == |f.bytes|
    modifies f
    ensures ok == TailFits(doc)
    ensures ok ==> f.bytes == old(f.bytes) + TailBytes(doc) && f.pos == |f.bytes|
  {
    ok := f.WriteUnsigned(doc.unk1c, 1, Little);
    if !ok { return; }
    ghost var s := EncodeUnsigned(doc.unk1c, 1, Little);
    ok := f.WriteUnsigned(doc.unk1d, 1, Little);
    if !ok { return; }
    AppendAssoc(old(f.bytes), s, EncodeUnsigned(doc.unk1d, 1, Little));
    s := s + EncodeUnsigned(doc.unk1d, 1, Little);
    ok := f.WriteUnsigned(doc.texCount, 1, Little);
    if !ok { return; }
    AppendAssoc(old(f.bytes), s, EncodeUnsigned(doc.texCount, 1, Little));
    s := s + EncodeUnsigned(doc.texCount, 1, Little);
    ok := f.WriteUnsigned(0, 1, Little);
    AppendAssoc(old(f.bytes), s, EncodeUnsigned(0, 1, Little));
  }

  /** The header, with zero placeholders for the file size and the glyph
      table offset. */
  method WriteHeader(f: OutStream, doc: Document) returns (ok: bool)
    requires f.bytes == [] && f.pos == 0
    modifies f
    ensures ok == HeaderFits(doc)
    ensures ok ==> f.bytes == HeaderBytes(doc, 0, 0) && f.pos == HeaderSize
  {
    WriteLead(f, doc.version);
    assert f.bytes == LeadBytes(doc.version, 0);
    ok := WriteSizes(f, doc);
    if !ok { return; }
    WriteOffsets(f);
    ok := WriteTail(f, doc);
    assert ok ==> f.bytes == HeaderBytes(doc, 0, 0);
  }

  /** The rectangle of each glyph in code order (`round(uv * size)` of a
      rectangle that was divided by the texture size is that rectangle). */
  method CollectRegions(glyphs: map<int, Glyph>, codes: seq<int>) returns (rs: seq<TexRegion>)
    requires forall i :: 0 <= i < |codes| ==> codes[i] in glyphs && glyphs[codes[i]].uv.Scaled?
    ensures rs == RegionList(glyphs, codes)
  {
    rs := [];
    var i := 0;
    while i < |codes|
      invariant i <= |codes|
      invariant rs == RegionList(glyphs, codes[..i])
    {
      assert codes[..i + 1][..i] == codes[..i];
      rs := rs + [glyphs[codes[i]].uv.region];
      i := i + 1;
    }
    assert codes[..i] == codes;
  }

  /** One region-table entry. */
  method WriteRegion(f: OutStream, r: TexRegion) returns (ok: bool)
    requires f.pos == |f.bytes|
    modifies f
    ensures ok == RegionFits(r)
    ensures ok ==> f.bytes == old(f.bytes) + RegionBytes(r) && f.pos == |f.bytes|
  {
    ok := f.WriteSigned(r.x1, 2, Little);
    if !ok { return; }
    ok := f.WriteSigned(r.y1, 2, Little);
    if !ok { return; }
    ok := f.WriteSigned(r.x2, 2, Little);
    if !ok { return; }
    ok := f.WriteSigned(r.y2, 2, Little);
  }

  /** Writing one more entry appends its bytes. */
  lemma RegionChunksStep(rs: seq<TexRegion>, i: nat)
    requires i < |rs| && forall k :: 0 <= k <= i ==> RegionFits(rs[k])
    ensures Flatten(RegionChunks(rs[..i + 1])) == Flatten(RegionChunks(rs[..i])) + RegionBytes(rs[i])
  {
    assert RegionChunks(rs[..i + 1])[..i] == RegionChunks(rs[..i]);
  }

  /** The region table loop: each rectangle is written at the cursor and
      `tex_region_offsets` maps it to that offset, a later equal rectangle
      replacing an earlier one. */
  method WriteRegions(f: OutStream, rs: seq<TexRegion>) returns (ok: bool, offsets: map<TexRegion, int>)
    requires f.pos == |f.bytes| == HeaderSize
    modifies f
    ensures ok == forall i :: 0 <= i < |rs| ==> RegionFits(rs[i])
    ensures ok ==> f.bytes == old(f.bytes) + Flatten(RegionChunks(rs)) && f.pos == |f.bytes| &&
                   offsets == OffsetTable(rs)
  {
    offsets := map[];
    var currentPos := f.pos;
    var i := 0;
    while i < |rs|
      invariant i <= |rs| && forall k :: 0 <= k < i ==> RegionFits(rs[k])
      invariant f.bytes == old(f.bytes) + Flatten(RegionChunks(rs[..i])) && f.pos == |f.bytes|
      invariant currentPos == RegionOffset(i) == f.pos
      invariant offsets == OffsetTable(rs[..i])
    {
      assert rs[..i + 1][..i] == rs[..i];
      offsets := offsets[rs[i] := currentPos];
      ghost var written := Flatten(RegionChunks(rs[..i]));
      ok := WriteRegion(f, rs[i]);
      if !ok { return; }
      RegionChunksStep(rs, i);
      AppendAssoc(old(f.bytes), written, RegionBytes(rs[i]));
      currentPos := currentPos + RegionSize;
      i := i + 1;
    }
    assert rs[..i] == rs;
    ok := true;
  }

  /** The four 16-bit fields of a glyph record. */
  method WriteMetrics(f: OutStream, g: Glyph) returns (ok: bool)
    requires f.pos == |f.bytes|
    modifies f
    ensures ok == MetricsFit(g)
    ensures ok ==> f.bytes == old(f.bytes) + MetricBytes(g) && f.pos == |f.bytes|
  {
    ok := f.WriteSigned(g.texIndex, 2, Little);
    if !ok { return; }
    ok := f.WriteSigned(g.preSpace, 2, Little);
    if !ok { return; }
    ok := f.WriteSigned(g.width, 2, Little);
    if !ok { return; }
    ok := f.WriteSigned(g.advance, 2, Little);
  }

  /** One glyph record: the code, the region offset, the four 16-bit fields
      and two zero words. */
  method WriteRecord(f: OutStream, code: int, offset: int, g: Glyph) returns (ok: bool)
    requires f.pos == |f.bytes| && FitsSigned(offset, 4)
    modifies f
    ensures ok == (FitsSigned(code, 4) && MetricsFit(g))
    ensures ok ==> f.bytes == old(f.bytes) + RecordBytes(code, offset, g) && f.pos == |f.bytes|
  {
    ghost var start := f.bytes;
    ok := f.WriteSigned(code, 4, Little);
    if !ok { return; }
    ghost var c, o := EncodeSigned(code, 4, Little), EncodeSigned(offset, 4, Little);
    ghost var z := EncodeSigned(0, 4, Little);
    ok := f.WriteSigned(offset, 4, Little);
    AppendAssoc(start, c, o);
    ok := WriteMetrics(f, g);
    if !ok { return; }
    AppendAssoc(start, c + o, MetricBytes(g));
    ghost var front := c + o + MetricBytes(g);
    assert f.bytes == start + front;
    ok := f.WriteSigned(0, 4, Little);
    ok := f.WriteSigned(0, 4, Little);
    AppendAssoc(start + front, z, z);
    AppendAssoc(start, front, z + z);
  }

  /** Writing the record of one more code appends its bytes. */
  lemma RecordChunksStep(glyphs: map<int, Glyph>, codes: seq<int>, rs: seq<TexRegion>, i: nat)
    requires i < |codes| && RecordsFit(glyphs, codes[..i + 1], rs)
    ensures RecordsFit(glyphs, codes[..i], rs)
    ensures FitsSigned(RegionOffset(LastIndex(rs, rs[i])), 4)
    ensures Flatten(RecordChunks(glyphs, codes[..i + 1], rs)) ==
            Flatten(RecordChunks(glyphs, codes[..i], rs)) +
            RecordBytes(codes[i], RegionOffset(LastIndex(rs, rs[i])), glyphs[codes[i]])
  {
    OffsetFits(|rs|, LastIndex(rs, rs[i]));
    assert codes[..i + 1][..i] == codes[..i];
    assert RecordChunks(glyphs, codes[..i + 1], rs)[..i] == RecordChunks(glyphs, codes[..i], rs);
  }

  /** Entry i's rectangle is in the offset table, under the offset of the
      last entry equal to it, which fits a signed 32-bit field. */
  lemma OffsetOf(rs: seq<TexRegion>, i: nat)
    requires i < |rs| < 0x8000
    ensures rs[i] in OffsetTable(rs) && OffsetTable(rs)[rs[i]] == RegionOffset(LastIndex(rs, rs[i]))
    ensures FitsSigned(RegionOffset(LastIndex(rs, rs[i])), 4)
  {
    OffsetTableLast(rs);
    OffsetFits(|rs|, LastIndex(rs, rs[i]));
  }

  /** The records of codes[..i + 1] fit exactly when those of codes[..i] do
      and record i does; a record that does not fit spoils all of codes. */
  lemma RecordsFitStep(glyphs: map<int, Glyph>, codes: seq<int>, rs: seq<TexRegion>, i: nat)
    requires i < |codes| <= |rs| < 0x8000 && codes[i] in glyphs
    requires RecordsFit(glyphs, codes[..i], rs)
    ensures RecordsFit(glyphs, codes[..i + 1], rs) <==> FitsSigned(codes[i], 4) && MetricsFit(glyphs[codes[i]])
    ensures !(FitsSigned(codes[i], 4) && MetricsFit(glyphs[codes[i]])) ==> !RecordsFit(glyphs, codes, rs)
  {
    assert forall k :: 0 <= k < i ==> codes[..i + 1][k] == codes[..i][k];
    assert codes[..i + 1][i] == codes[i];
  }

  /** The glyph record loop, in code order; each record names the offset the
      region loop stored for its rectangle. */
  method WriteRecords(f: OutStream, glyphs: map<int, Glyph>, codes: seq<int>, rs: seq<TexRegion>,
                      offsets: map<TexRegion, int>) returns (ok: bool)
    requires |codes| == |rs| < 0x8000 && forall i :: 0 <= i < |codes| ==> codes[i] in glyphs
    requires offsets == OffsetTable(rs) && f.pos == |f.bytes|
    modifies f
    ensures ok == RecordsFit(glyphs, codes, rs)
    ensures ok ==> f.bytes == old(f.bytes) + Flatten(RecordChunks(glyphs, codes, rs)) && f.pos == |f.bytes|
  {
    var i := 0;
    assert codes[..0] == [];
    while i < |codes|
      invariant i <= |codes| && RecordsFit(glyphs, codes[..i], rs)
      invariant f.bytes == old(f.bytes) + Flatten(RecordChunks(glyphs, codes[..i], rs)) && f.pos == |f.bytes|
    {
      var code := codes[i];
      var glyph := glyphs[code];
      OffsetOf(rs, i);
      RecordsFitStep(glyphs, codes, rs, i);
      ghost var written := Flatten(RecordChunks(glyphs, codes[..i], rs));
      ok := WriteRecord(f, code, offsets[rs[i]], glyph);
      if !ok {
        return;
      }
      RecordChunksStep(glyphs, codes, rs, i);
      AppendAssoc(old(f.bytes), written, RecordBytes(code, offsets[rs[i]], glyph));
      i := i + 1;
    }
    assert codes[..i] == codes;
    ok := true;
  }

  /** Seeking back to byte 24 and writing the glyph table offset over its
      placeholder. */
  lemma PatchGlyphOffset(doc: Document, glyphOffset: int, rest: seq<Byte>)
    requires HeaderFits(doc) && FitsSigned(glyphOffset, 4)
    ensures Overwrite(HeaderBytes(doc, 0, 0) + rest, 24, EncodeSigned(glyphOffset, 4, Little)) ==
            HeaderBytes(doc, 0, glyphOffset) + rest
  {
    var front := LeadBytes(doc.version, 0) + SizeBytes(doc);
    var a := front + EncodeSigned(HeaderSize, 4, Little);
    var c := TailBytes(doc) + rest;
    var was, now := EncodeSigned(0, 4, Little), EncodeSigned(glyphOffset, 4, Little);
    AppendAssoc(front, EncodeSigned(HeaderSize, 4, Little), was);
    AppendAssoc(a + was, TailBytes(doc), rest);
    assert HeaderBytes(doc, 0, 0) + rest == a + was + c;
    OverwriteChunk(a, was, c, now);
    AppendAssoc(front, EncodeSigned(HeaderSize, 4, Little), now);
    AppendAssoc(a + now, TailBytes(doc), rest);
    assert a + now + c == HeaderBytes(doc, 0, glyphOffset) + rest;
  }

  /** Seeking back to byte 4 and writing the file size over its placeholder. */
  lemma PatchFileSize(doc: Document, fileSize: int, glyphOffset: int, rest: seq<Byte>)
    requires HeaderFits(doc) && FitsSigned(fileSize, 4) && FitsSigned(glyphOffset, 4)
    ensures Overwrite(HeaderBytes(doc, 0, glyphOffset) + rest, 4, EncodeSigned(fileSize, 4, Little)) ==
            HeaderBytes(doc, fileSize, glyphOffset) + rest
  {
    PowValues();
    var a := EncodeUnsigned(Tag(doc.version), 4, Little);
    var b := SizeBytes(doc) + OffsetBytes(glyphOffset) + TailBytes(doc);
    var c := b + rest;
    var was, now := EncodeSigned(0, 4, Little), EncodeSigned(fileSize, 4, Little);
    HeaderRegroup(a, was, SizeBytes(doc), OffsetBytes(glyphOffset), TailBytes(doc));
    AppendAssoc(a + was, b, rest);
    assert HeaderBytes(doc, 0, glyphOffset) + rest == a + was + c;
    OverwriteChunk(a, was, c, now);
    HeaderRegroup(a, now, SizeBytes(doc), OffsetBytes(glyphOffset), TailBytes(doc));
    AppendAssoc(a + now, b, rest);
    assert a + now + c == HeaderBytes(doc, fileSize, glyphOffset) + rest;
  }

  /** The lead bytes split off the rest of the header. */
  lemma HeaderRegroup(t: seq<Byte>, s: seq<Byte>, x: seq<Byte>, y: seq<Byte>, z: seq<Byte>)
    ensures (t + s) + x + y + z == (t + s) + (x + y + z)
  {
    AppendAssoc(t + s, x, y);
    AppendAssoc(t + s, x + y, z);
  }

  /** For codes that list the glyph table once each, with their rectangles
      rs, a document is encodable exactly when its header fields, every
      rectangle and every record fit. */
  lemma FitsByCode(doc: Document, codes: seq<int>, rs: seq<TexRegion>)
    requires Writable(doc) && |codes| == |doc.glyphs| == |rs|
    requires forall c :: c in codes <==> c in doc.glyphs
    requires forall j :: 0 <= j < |codes| ==> codes[j] in doc.glyphs && doc.glyphs[codes[j]].uv.Scaled? &&
                                              rs[j] == doc.glyphs[codes[j]].uv.region
    ensures Encodable(doc) <==>
              HeaderFits(doc) && (forall i :: 0 <= i < |rs| ==> RegionFits(rs[i])) &&
              RecordsFit(doc.glyphs, codes, rs)
  {
    if Encodable(doc) {
      PowValues();
      forall i | 0 <= i < |codes|
        ensures FitsSigned(codes[i], 4) && MetricsFit(doc.glyphs[codes[i]]) && RegionFits(rs[i])
      {
      }
      assert RecordsFit(doc.glyphs, codes, rs);
    }
    if HeaderFits(doc) && (forall i :: 0 <= i < |rs| ==> RegionFits(rs[i])) && RecordsFit(doc.glyphs, codes, rs) {
      forall c | c in doc.glyphs
        ensures FitsSigned(c, 4) && MetricsFit(doc.glyphs[c]) && RegionFits(doc.glyphs[c].uv.region)
      {
        var i :| 0 <= i < |codes| && codes[i] == c;
      }
    }
  }

  /** A document is encodable exactly when its header fields, the rectangles
      in code order and the records in code order all fit. */
  lemma EncodableIff(doc: Document)
    requires Writable(doc)
    ensures var codes := SortedCodes(doc.glyphs.Keys);
            var rs := RegionList(doc.glyphs, codes);
            Encodable(doc) <==>
              HeaderFits(doc) && (forall i :: 0 <= i < |rs| ==> RegionFits(rs[i])) &&
              RecordsFit(doc.glyphs, codes, rs)
  {
    SortedCodesFacts(doc.glyphs);
    FitsByCode(doc, SortedCodes(doc.glyphs.Keys), RegionList(doc.glyphs, SortedCodes(doc.glyphs.Keys)));
  }

  // ---------------------------------------------------------------------------
  // The CCM object

  /** The encoder's CCM object: the header fields and the glyph table. */
  class CCM {
    var version: Version
    var fullWidth: int
    var texWidth: int
    var texHeight: int
    var unk0e: int
    var unk1c: int
    var unk1d: int
    var texCount: int
    var glyphs: map<int, Glyph>

    /** The document this object holds. */
    function Doc(): Document
      reads this
    {
      Document(version, fullWidth, texWidth, texHeight, unk0e, unk1c, unk1d, texCount, glyphs)
    }

    /** Every glyph holds a pixel rectangle, and glyphs come only with a
        texture of nonzero size: what reading and importing produce. */
    ghost predicate Valid()
      reads this
    {
      WellFormed(Doc())
    }

    constructor ()
      ensures Doc() == Document(DarkSouls2, 0, 0, 0, 0, 0, 0, 0, map[]) && Valid()
    {
      version := DarkSouls2;
      fullWidth, texWidth, texHeight := 0, 0, 0;
      unk0e, unk1c, unk1d, texCount := 0, 0, 0, 0;
      glyphs := map[];
    }

    /** `CCM.read`: the header fields, then for a DarkSouls2 file the region
        table and the glyph records. */
    method Read(data: seq<Byte>) returns (outcome: Check)
      modifies this
      ensures DecodeDs2Only(data).Ok? ==> outcome == Pass && Doc() == DecodeDs2Only(data).value && Valid()
      ensures DecodeDs2Only(data).Err? ==> outcome == Fail(DecodeDs2Only(data).error)
    {
      DecodeDs2OnlyWellFormed(data);
      var f := new InStream(data);
      var header := ReadHeader(f);
      if header.Err? {
        assert DecodeDs2Only(data) == Err(header.error);
        return Fail(header.error);
      }
      var h := header.value;
      version, fullWidth, texWidth, texHeight := h.version, h.fullWidth, h.texWidth, h.texHeight;
      unk0e, unk1c, unk1d, texCount := h.unk0e, h.unk1c, h.unk1d, h.texCount;
      glyphs := map[];
      if h.version == DarkSouls2 {
        var body := ReadBody(f, h);
        if body.Err? {
          assert DecodeDs2Only(data) == Err(body.error);
          return Fail(body.error);
        }
        glyphs := body.value;
      }
      assert DecodeDs2Only(data) == Ok(Doc());
      outcome := Pass;
    }

    /** `CCM.write`: the header with placeholders, the region table, the
        glyph table offset patched in, the glyph records, and the file size
        patched in. A field that does not fit fails the write. */
    method Write() returns (r: Result<seq<Byte>>)
      requires Valid()
      ensures r == Encode(Doc())
    {
      var doc := Doc();
      var f := new OutStream();
      var ok := WriteHeader(f, doc);
      EncodableIff(doc);
      if !ok {
        return Err(OutOfRange);
      }
      var codes := SortedCodes(doc.glyphs.Keys);
      SortedCodesFacts(doc.glyphs);
      var rs := CollectRegions(doc.glyphs, codes);
      var offsets;
      ok, offsets := WriteRegions(f, rs);
      if !ok {
        return Err(OutOfRange);
      }
      ok := WriteGlyphTable(f, doc, codes, rs, offsets);
      if !ok {
        return Err(OutOfRange);
      }
      r := Ok(f.bytes);
    }
  }

  /** Patches the glyph table offset, the length the file has reached after
      the region table, into the header. */
  method WriteGlyphOffset(f: OutStream, doc: Document, rest: seq<Byte>)
    requires HeaderFits(doc) && f.bytes == HeaderBytes(doc, 0, 0) + rest && f.pos == |f.bytes|
    requires FitsSigned(|f.bytes|, 4)
    modifies f
    ensures f.bytes == HeaderBytes(doc, 0, |old(f.bytes)|) + rest && f.pos == |f.bytes|
  {
    var glyphOffset := f.pos;
    f.Seek(24);
    var ok := f.WriteSigned(glyphOffset, 4, Little);
    PatchGlyphOffset(doc, glyphOffset, rest);
    f.Seek(glyphOffset);
  }

  /** Patches the file size, the final length of the file, into the header. */
  method WriteFileSize(f: OutStream, doc: Document, glyphOffset: int, rest: seq<Byte>)
    requires HeaderFits(doc) && FitsSigned(glyphOffset, 4)
    requires f.bytes == HeaderBytes(doc, 0, glyphOffset) + rest && f.pos == |f.bytes|
    requires FitsSigned(|f.bytes|, 4)
    modifies f
    ensures f.bytes == HeaderBytes(doc, |old(f.bytes)|, glyphOffset) + rest
  {
    var fileSize := f.pos;
    f.Seek(4);
    var ok := f.WriteSigned(fileSize, 4, Little);
    PatchFileSize(doc, fileSize, glyphOffset, rest);
  }

  /** The second half of `CCM.write`, after the header and the region table:
      the glyph table offset, the records and the file size. */
  method WriteGlyphTable(f: OutStream, doc: Document, codes: seq<int>, rs: seq<TexRegion>,
                         offsets: map<TexRegion, int>) returns (ok: bool)
    requires HeaderFits(doc) && |codes| == |doc.glyphs| == |rs|
    requires forall i :: 0 <= i < |codes| ==> codes[i] in doc.glyphs
    requires forall i :: 0 <= i < |rs| ==> RegionFits(rs[i])
    requires offsets == OffsetTable(rs)
    requires f.bytes == HeaderBytes(doc, 0, 0) + Flatten(RegionChunks(rs)) && f.pos == |f.bytes|
    modifies f
    ensures ok == RecordsFit(doc.glyphs, codes, rs)
    ensures ok ==> Parts(doc, codes, rs) && f.bytes == Layout(doc, codes, rs)
  {
    var n := |codes|;
    assert n < 0x8000;
    OffsetFits(n, n);
    FlattenLength(RegionChunks(rs), RegionSize);
    var regionTable := Flatten(RegionChunks(rs));
    assert |f.bytes| == RegionOffset(n);
    WriteGlyphOffset(f, doc, regionTable);
    ok := WriteRecords(f, doc.glyphs, codes, rs, offsets);
    if !ok {
      return;
    }
    var records := Flatten(RecordChunks(doc.glyphs, codes, rs));
    FlattenLength(RecordChunks(doc.glyphs, codes, rs), RecordSize);
    AppendAssoc(HeaderBytes(doc, 0, RegionOffset(n)), regionTable, records);
    assert |f.bytes| == FileSize(n);
    WriteFileSize(f, doc, RegionOffset(n), regionTable + records);
    AppendAssoc(HeaderBytes(doc, FileSize(n), RegionOffset(n)), regionTable, records);
  }

  // ---------------------------------------------------------------------------
  // Importing the character lines of a bitmap-font descriptor

  /** The fields of one descriptor line that matches the `char id=...`
      pattern; the pattern admits only digits, and a sign for xoffset. */
  datatype CharRecord = CharRecord(id: nat, x: nat, y: nat, width: nat, height: nat,
                                   xoffset: int, xadvance: nat, page: nat)

  /** The glyph built for one character: the pixel rectangle from (x, y) of
      the given width and height, xoffset as the pre-space, xadvance as the
      advance and the page as the texture index. */
  function CharGlyph(ch: CharRecord): Glyph
  {
    Glyph(Scaled(TexRegion(ch.x, ch.y, ch.x + ch.width, ch.y + ch.height)),
          ch.xoffset, ch.width, ch.xadvance, ch.page)
  }

  /** The character lines from i on, added to acc in order. Scaling the first
      rectangle divides by the texture width and height, so a texture without
      a size fails on the first character. */
  function ImportFrom(chars: seq<CharRecord>, i: nat, texWidth: int, texHeight: int,
                      acc: map<int, Glyph>): (r: Result<map<int, Glyph>>)
    requires i <= |chars|
    decreases |chars| - i
    ensures r.Ok? ==> acc.Keys <= r.value.Keys && |r.value| <= |acc| + |chars| - i
    ensures r.Err? ==> r.error == ZeroDivision
  {
    if i == |chars| then Ok(acc)
    else if texWidth == 0 || texHeight == 0 then Err(ZeroDivision)
    else ImportFrom(chars, i + 1, texWidth, texHeight, acc[chars[i].id := CharGlyph(chars[i])])
  }

  /** Importing fails exactly when a character remains and the texture has
      no size, and then with the division error. */
  lemma {:induction false} ImportFails(chars: seq<CharRecord>, i: nat, texWidth: int, texHeight: int,
                                       acc: map<int, Glyph>)
    requires i <= |chars|
    ensures ImportFrom(chars, i, texWidth, texHeight, acc).Err? <==>
            i < |chars| && (texWidth == 0 || texHeight == 0)
    ensures ImportFrom(chars, i, texWidth, texHeight, acc).Err? ==>
            ImportFrom(chars, i, texWidth, texHeight, acc).error == ZeroDivision
    decreases |chars| - i
  {
    if i < |chars| && texWidth != 0 && texHeight != 0 {
      ImportFails(chars, i + 1, texWidth, texHeight, acc[chars[i].id := CharGlyph(chars[i])]);
    }
  }

  /** The imported table holds the codes already there and the id of every
      character line, and nothing else. */
  lemma {:induction false} ImportKeys(chars: seq<CharRecord>, i: nat, texWidth: int, texHeight: int,
                                      acc: map<int, Glyph>)
    requires i <= |chars| && ImportFrom(chars, i, texWidth, texHeight, acc).Ok?
    ensures forall c :: c in ImportFrom(chars, i, texWidth, texHeight, acc).value <==>
                        c in acc || exists j :: i <= j < |chars| && chars[j].id == c
    decreases |chars| - i
  {
    if i < |chars| {
      var next := acc[chars[i].id := CharGlyph(chars[i])];
      ImportKeys(chars, i + 1, texWidth, texHeight, next);
      forall c | c in next || exists j :: i + 1 <= j < |chars| && chars[j].id == c
        ensures c in acc || exists j :: i <= j < |chars| && chars[j].id == c
      {
        if c == chars[i].id {
          assert chars[i].id == c;
        }
      }
    }
  }

  /** The last line with a given id decides its glyph. */
  lemma {:induction false} ImportLastWins(chars: seq<CharRecord>, i: nat, texWidth: int, texHeight: int,
                                          acc: map<int, Glyph>)
    requires i <= |chars| && ImportFrom(chars, i, texWidth, texHeight, acc).Ok?
    ensures var m := ImportFrom(chars, i, texWidth, texHeight, acc).value;
            forall j :: i <= j < |chars| && (forall l :: j < l < |chars| ==> chars[l].id != chars[j].id) ==>
              chars[j].id in m && m[chars[j].id] == CharGlyph(chars[j])
    decreases |chars| - i
  {
    if i < |chars| {
      var next := acc[chars[i].id := CharGlyph(chars[i])];
      var m := ImportFrom(chars, i + 1, texWidth, texHeight, next).value;
      assert ImportFrom(chars, i, texWidth, texHeight, acc).value == m;
      ImportLastWins(chars, i + 1, texWidth, texHeight, next);
      ImportKept(chars, i + 1, texWidth, texHeight, next);
      forall j | i <= j < |chars| && (forall l :: j < l < |chars| ==> chars[l].id != chars[j].id)
        ensures chars[j].id in m && m[chars[j].id] == CharGlyph(chars[j])
      {
        if j == i {
          assert chars[i].id in next && next[chars[i].id] == CharGlyph(chars[i]);
        }
      }
    }
  }

  /** A code no line from i on names keeps the glyph it had. */
  lemma {:induction false} ImportKept(chars: seq<CharRecord>, i: nat, texWidth: int, texHeight: int,
                                      acc: map<int, Glyph>)
    requires i <= |chars| && ImportFrom(chars, i, texWidth, texHeight, acc).Ok?
    ensures var m := ImportFrom(chars, i, texWidth, texHeight, acc).value;
            forall c :: c in acc && (forall j :: i <= j < |chars| ==> chars[j].id != c) ==>
              c in m && m[c] == acc[c]
    decreases |chars| - i
  {
    if i < |chars| {
      var next := acc[chars[i].id := CharGlyph(chars[i])];
      ImportKept(chars, i + 1, texWidth, texHeight, next);
      forall c | c in acc && (forall j :: i <= j < |chars| ==> chars[j].id != c)
        ensures c in next && next[c] == acc[c] && forall j :: i + 1 <= j < |chars| ==> chars[j].id != c
      {
        assert chars[i].id != c;
      }
    }
  }

  /** Every imported glyph holds a pixel rectangle, and a table that gained
      any glyph names a texture with a size. */
  lemma {:induction false} ImportScaled(chars: seq<CharRecord>, i: nat, texWidth: int, texHeight: int,
                                        acc: map<int, Glyph>)
    requires i <= |chars| && ImportFrom(chars, i, texWidth, texHeight, acc).Ok?
    requires forall c :: c in acc ==> acc[c].uv.Scaled?
    ensures var m := ImportFrom(chars, i, texWidth, texHeight, acc).value;
            forall c :: c in m ==> m[c].uv.Scaled?
    decreases |chars| - i
  {
    if i < |chars| {
      ImportScaled(chars, i + 1, texWidth, texHeight, acc[chars[i].id := CharGlyph(chars[i])]);
    }
  }

  /** A document whose glyphs were imported is well formed: every glyph has a
      rectangle, and there are glyphs only with a texture of nonzero size. */
  lemma ImportedWellFormed(doc: Document, chars: seq<CharRecord>)
    requires ImportFrom(chars, 0, doc.texWidth, doc.texHeight, map[]).Ok?
    ensures WellFormed(doc.(glyphs := ImportFrom(chars, 0, doc.texWidth, doc.texHeight, map[]).value))
  {
    var m := ImportFrom(chars, 0, doc.texWidth, doc.texHeight, map[]).value;
    ImportScaled(chars, 0, doc.texWidth, doc.texHeight, map[]);
    ImportFails(chars, 0, doc.texWidth, doc.texHeight, map[]);
    ImportKeys(chars, 0, doc.texWidth, doc.texHeight, map[]);
    EmptyOrMember(m.Keys);
  }

  /** `txt_to_ccm_with_original`: the header of the original file with the
      imported character lines as its glyphs, written out. */
  function Convert(original: seq<Byte>, chars: seq<CharRecord>): (r: Result<seq<Byte>>)
    ensures r.Ok? ==>
              DecodeDs2Only(original).Ok? &&
              var doc := DecodeDs2Only(original).value;
              ImportFrom(chars, 0, doc.texWidth, doc.texHeight, map[]).Ok? &&
              |r.value| == FileSize(|ImportFrom(chars, 0, doc.texWidth, doc.texHeight, map[]).value|)
    ensures r.Err? && DecodeDs2Only(original).Ok? ==> r.error == ZeroDivision || r.error == OutOfRange
  {
    var doc :- DecodeDs2Only(original);
    var glyphs :- ImportFrom(chars, 0, doc.texWidth, doc.texHeight, map[]);
    ImportedWellFormed(doc, chars);
    Encode(doc.(glyphs := glyphs))
  }

  /** `txt_to_ccm_with_original`: reads the original, copies its header
      fields into a new CCM object, adds a glyph per character line and
      writes the object. */
  method ConvertWithOriginal(original: seq<Byte>, chars: seq<CharRecord>) returns (r: Result<seq<Byte>>)
    ensures r == Convert(original, chars)
  {
    var originalCcm := new CCM();
    var outcome := originalCcm.Read(original);
    if outcome.Fail? {
      return Err(outcome.error);
    }
    var ccm := new CCM();
    ccm.version := originalCcm.version;
    ccm.fullWidth := originalCcm.fullWidth;
    ccm.texWidth := originalCcm.texWidth;
    ccm.texHeight := originalCcm.texHeight;
    ccm.unk0e := originalCcm.unk0e;
    ccm.unk1c := originalCcm.unk1c;
    ccm.unk1d := originalCcm.unk1d;
    ccm.texCount := originalCcm.texCount;
    ccm.glyphs := map[];
    ghost var doc := originalCcm.Doc();
    assert ccm.Doc() == doc.(glyphs := map[]);
    var i := 0;
    while i < |chars|
      invariant 0 <= i <= |chars|
      invariant ccm.Doc() == doc.(glyphs := ccm.glyphs)
      invariant ImportFrom(chars, i, doc.texWidth, doc.texHeight, ccm.glyphs) ==
                ImportFrom(chars, 0, doc.texWidth, doc.texHeight, map[])
    {
      if ccm.texWidth == 0 || ccm.texHeight == 0 {
        return Err(ZeroDivision);
      }
      ccm.glyphs := ccm.glyphs[chars[i].id := CharGlyph(chars[i])];
      i := i + 1;
    }
    ImportedWellFormed(doc, chars);
    r := ccm.Write();
  }
}
