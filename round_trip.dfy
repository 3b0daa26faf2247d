/** Reading back what the encoder writes: the file `CCM.write` produces for
    a DarkSouls2 document decodes, with the encoder's own `CCM.read`, to the
    same document; only unk0e, which is never written, reads back as 0. */
module RoundTrip {
  import opened Wire
  import opened CcmFormat
  import opened Ds2Body
  import opened Ds2Image
  import opened TxtToCcm
  import CcmToTxt

  // ---------------------------------------------------------------------------
  // The header

  /** Each header field lies at its offset. */
  lemma HeaderSlices(data: seq<Byte>, doc: Document, fileSize: int, glyphOffset: int)
    requires HeaderFits(doc) && FitsSigned(fileSize, 4) && FitsSigned(glyphOffset, 4)
    requires |data| >= HeaderSize && data[..HeaderSize] == HeaderBytes(doc, fileSize, glyphOffset)
    ensures data[0..4] == EncodeUnsigned(Tag(doc.version), 4, Little)
    ensures data[4..8] == EncodeSigned(fileSize, 4, Little)
    ensures data[8..20] == SizeBytes(doc)
    ensures data[20..24] == EncodeSigned(HeaderSize, 4, Little)
    ensures data[24..28] == EncodeSigned(glyphOffset, 4, Little)
    ensures data[28..32] == TailBytes(doc)
  {
    PowValues();
    var lead, sizes := LeadBytes(doc.version, fileSize), SizeBytes(doc);
    var offsets, tail := OffsetBytes(glyphOffset), TailBytes(doc);
    SplitField(data, 0, lead + sizes + offsets, tail);
    SplitField(data, 0, lead + sizes, offsets);
    SplitField(data, 0, lead, sizes);
    SplitField(data, 0, EncodeUnsigned(Tag(doc.version), 4, Little), EncodeSigned(fileSize, 4, Little));
    SplitField(data, 20, EncodeSigned(HeaderSize, 4, Little), EncodeSigned(glyphOffset, 4, Little));
  }

  /** Bytes 8..19 read back as the sizes and counts written. */
  lemma SizesReadBack(data: seq<Byte>, doc: Document, fileSize: int)
    requires HeaderFits(doc) && FitsSigned(fileSize, 4)
    requires 20 <= |data| && data[4..8] == EncodeSigned(fileSize, 4, Little) && data[8..20] == SizeBytes(doc)
    ensures SizesAt(data, Little) == Ok((fileSize, doc.fullWidth, doc.texWidth, doc.texHeight))
    ensures CountsAt(data, DarkSouls2) == Ok((0, -1, |doc.glyphs|, |doc.glyphs|))
    ensures CountsAt(data, DarkSouls1) == Ok((|doc.glyphs|, |doc.glyphs|, -1, 0))
  {
    var n := |doc.glyphs|;
    var e1, e2, e3 := EncodeSigned(doc.fullWidth, 2, Little), EncodeSigned(doc.texWidth, 2, Little),
                      EncodeSigned(doc.texHeight, 2, Little);
    var e4, e5, e6 := EncodeSigned(n, 2, Little), EncodeSigned(n, 2, Little), EncodeSigned(0, 2, Little);
    SplitField(data, 8, e1 + e2 + e3 + e4 + e5, e6);
    SplitField(data, 8, e1 + e2 + e3 + e4, e5);
    SplitField(data, 8, e1 + e2 + e3, e4);
    SplitField(data, 8, e1 + e2, e3);
    SplitField(data, 8, e1, e2);
    SignedAtEncoding(data, 4, fileSize, 4, Little);
    SignedAtEncoding(data, 8, doc.fullWidth, 2, Little);
    SignedAtEncoding(data, 10, doc.texWidth, 2, Little);
    SignedAtEncoding(data, 12, doc.texHeight, 2, Little);
    SignedAtEncoding(data, 14, n, 2, Little);
    SignedAtEncoding(data, 16, n, 2, Little);
    SignedAtEncoding(data, 18, 0, 2, Little);
  }

  /** Bytes 28..31 read back as the three bytes written and the zero pad. */
  lemma TailReadBack(data: seq<Byte>, doc: Document)
    requires HeaderFits(doc)
    requires 32 <= |data| && data[28..32] == TailBytes(doc)
    ensures TailAt(data) == Ok((doc.unk1c, doc.unk1d, doc.texCount))
  {
    var u1, u2 := EncodeUnsigned(doc.unk1c, 1, Little), EncodeUnsigned(doc.unk1d, 1, Little);
    var u3, u4 := EncodeUnsigned(doc.texCount, 1, Little), EncodeUnsigned(0, 1, Little);
    SplitField(data, 28, u1 + u2 + u3, u4);
    SplitField(data, 28, u1 + u2, u3);
    SplitField(data, 28, u1, u2);
    UnsignedAtEncoding(data, 28, doc.unk1c, 1, Little);
    UnsignedAtEncoding(data, 29, doc.unk1d, 1, Little);
    UnsignedAtEncoding(data, 30, doc.texCount, 1, Little);
    UnsignedAtEncoding(data, 31, 0, 1, Little);
  }

  /** A header written for a DarkSouls2 document reads back with its fields,
      the glyph count as region and glyph count, and unk0e 0. */
  lemma HeaderReadBack(data: seq<Byte>, doc: Document, fileSize: int, glyphOffset: int)
    requires doc.version == DarkSouls2
    requires HeaderFits(doc) && FitsSigned(fileSize, 4) && FitsSigned(glyphOffset, 4)
    requires |data| >= HeaderSize && data[..HeaderSize] == HeaderBytes(doc, fileSize, glyphOffset)
    ensures DecodeHeader(data) ==
            Ok(Header(DarkSouls2, fileSize, doc.fullWidth, doc.texWidth, doc.texHeight, 0, -1,
                      |doc.glyphs|, |doc.glyphs|, glyphOffset, doc.unk1c, doc.unk1d, doc.texCount))
  {
    PowValues();
    HeaderSlices(data, doc, fileSize, glyphOffset);
    UnsignedAtEncoding(data, 0, Tag(DarkSouls2), 4, Little);
    SizesReadBack(data, doc, fileSize);
    SignedAtEncoding(data, 20, HeaderSize, 4, Little);
    SignedAtEncoding(data, 24, glyphOffset, 4, Little);
    TailReadBack(data, doc);
  }

  /** A header written for a DarkSouls1 document reads back in the grouped
      layout: the region count lands in unk0e, the glyph count in the
      code-group count and the reserved zero in the glyph count. */
  lemma LegacyHeaderReadBack(data: seq<Byte>, doc: Document, fileSize: int, glyphOffset: int)
    requires doc.version == DarkSouls1
    requires HeaderFits(doc) && FitsSigned(fileSize, 4) && FitsSigned(glyphOffset, 4)
    requires |data| >= HeaderSize && data[..HeaderSize] == HeaderBytes(doc, fileSize, glyphOffset)
    ensures DecodeHeader(data) ==
            Ok(Header(DarkSouls1, fileSize, doc.fullWidth, doc.texWidth, doc.texHeight, |doc.glyphs|,
                      |doc.glyphs|, -1, 0, glyphOffset, doc.unk1c, doc.unk1d, doc.texCount))
  {
    PowValues();
    HeaderSlices(data, doc, fileSize, glyphOffset);
    UnsignedAtEncoding(data, 0, Tag(DarkSouls1), 4, Little);
    SizesReadBack(data, doc, fileSize);
    SignedAtEncoding(data, 20, HeaderSize, 4, Little);
    SignedAtEncoding(data, 24, glyphOffset, 4, Little);
    TailReadBack(data, doc);
  }

  /** The constant 0x20 written little-endian reads big-endian as 0x20000000. */
  lemma ConstantBigEndian()
    ensures EncodeSigned(HeaderSize, 4, Little) == [0x20, 0, 0, 0]
    ensures Signed([0x20, 0, 0, 0], Big) == 0x2000_0000
  {
    PowValues();
    assert Unsigned([0x20], Big) == 0x20;
    assert [0x20, 0, 0, 0][..3] == [0x20, 0, 0];
    assert [0x20, 0, 0][..2] == [0x20, 0];
    assert [0x20, 0][..1] == [0x20];
  }

  /** A header written for a DemonsSouls document is read big-endian after
      the tag, so the 0x20 constant at bytes 20..23 does not match. */
  lemma BigEndianHeaderFails(data: seq<Byte>, doc: Document, fileSize: int, glyphOffset: int)
    requires doc.version == DemonsSouls
    requires HeaderFits(doc) && FitsSigned(fileSize, 4) && FitsSigned(glyphOffset, 4)
    requires |data| >= HeaderSize && data[..HeaderSize] == HeaderBytes(doc, fileSize, glyphOffset)
    ensures DecodeHeader(data) == Err(BadConstant(20))
  {
    PowValues();
    HeaderSlices(data, doc, fileSize, glyphOffset);
    UnsignedAtEncoding(data, 0, Tag(DemonsSouls), 4, Little);
    ConstantBigEndian();
    assert SignedAt(data, 20, 4, Big) == Ok(0x2000_0000);
  }

  // ---------------------------------------------------------------------------
  // The region table and the glyph records

  /** A region-table entry reads back as the rectangle written. */
  lemma RegionReadBack(data: seq<Byte>, p: nat, r: TexRegion)
    requires RegionFits(r)
    requires p + RegionSize <= |data| && data[p..p + RegionSize] == RegionBytes(r)
    ensures RegionAt(data, p, Little) == Ok(r)
  {
    var e1, e2 := EncodeSigned(r.x1, 2, Little), EncodeSigned(r.y1, 2, Little);
    var e3, e4 := EncodeSigned(r.x2, 2, Little), EncodeSigned(r.y2, 2, Little);
    SplitField(data, p, e1 + e2 + e3, e4);
    SplitField(data, p, e1 + e2, e3);
    SplitField(data, p, e1, e2);
    SignedAtEncoding(data, p, r.x1, 2, Little);
    SignedAtEncoding(data, p + 2, r.y1, 2, Little);
    SignedAtEncoding(data, p + 4, r.x2, 2, Little);
    SignedAtEncoding(data, p + 6, r.y2, 2, Little);
  }

  /** The four 16-bit fields of a record read back as written. */
  lemma MetricsReadBack(data: seq<Byte>, p: nat, g: Glyph)
    requires MetricsFit(g)
    requires p + 8 <= |data| && data[p..p + 8] == MetricBytes(g)
    ensures ShortsAt(data, p, Little) == Ok((g.texIndex, g.preSpace, g.width, g.advance))
  {
    var e1, e2 := EncodeSigned(g.texIndex, 2, Little), EncodeSigned(g.preSpace, 2, Little);
    var e3, e4 := EncodeSigned(g.width, 2, Little), EncodeSigned(g.advance, 2, Little);
    SplitField(data, p, e1 + e2 + e3, e4);
    SplitField(data, p, e1 + e2, e3);
    SplitField(data, p, e1, e2);
    SignedAtEncoding(data, p, g.texIndex, 2, Little);
    SignedAtEncoding(data, p + 2, g.preSpace, 2, Little);
    SignedAtEncoding(data, p + 4, g.width, 2, Little);
    SignedAtEncoding(data, p + 6, g.advance, 2, Little);
  }

  /** A glyph record reads back as its code and glyph when its offset names
      an entry holding the glyph's rectangle and the texture has a size. */
  lemma RecordReadBack(data: seq<Byte>, p: nat, code: int, offset: int, g: Glyph,
                       regions: map<int, TexRegion>, texWidth: int, texHeight: int)
    requires FitsSigned(code, 4) && FitsSigned(offset, 4) && MetricsFit(g) && g.uv.Scaled?
    requires p + RecordSize <= |data| && data[p..p + RecordSize] == RecordBytes(code, offset, g)
    requires offset in regions && regions[offset] == g.uv.region
    requires texWidth != 0 && texHeight != 0
    ensures RecordAt(data, p, Little, regions, texWidth, texHeight) == Ok((code, g))
  {
    var e1, e2, m := EncodeSigned(code, 4, Little), EncodeSigned(offset, 4, Little), MetricBytes(g);
    var z := EncodeSigned(0, 4, Little);
    SplitField(data, p, e1 + e2 + m, z + z);
    SplitField(data, p, e1 + e2, m);
    SplitField(data, p, e1, e2);
    SplitField(data, p + 16, z, z);
    SignedAtEncoding(data, p, code, 4, Little);
    SignedAtEncoding(data, p + 4, offset, 4, Little);
    MetricsReadBack(data, p + 8, g);
    SignedRoundTrip(0, 4, Little);
  }

  /** Region-table entry j of a written file reads back as rectangle j. */
  lemma RegionEntryReadBack(doc: Document, codes: seq<int>, rs: seq<TexRegion>, j: nat)
    requires Parts(doc, codes, rs) && j < |codes|
    ensures RegionAt(Layout(doc, codes, rs), RegionOffset(j), Little) == Ok(rs[j])
  {
    LayoutRegion(doc, codes, rs, j);
    RegionReadBack(Layout(doc, codes, rs), RegionOffset(j), rs[j]);
  }

  /** A table of n entries, each reading back as rectangle j, reads back as
      the map from offset 32 + 8 * j to rectangle j. */
  lemma RegionsReadBack(data: seq<Byte>, rs: seq<TexRegion>)
    requires RegionOffset(|rs|) <= |data|
    requires forall j :: 0 <= j < |rs| ==> RegionAt(data, RegionOffset(j), Little) == Ok(rs[j])
    ensures ReadRegions(data, Little, |rs|, 0, map[]).Ok?
    ensures var m := ReadRegions(data, Little, |rs|, 0, map[]).value;
            (forall k :: k in m <==> IsRegionKey(k, 0, |rs|)) &&
            forall j :: 0 <= j < |rs| ==> RegionOffset(j) in m && m[RegionOffset(j)] == rs[j]
  {
    ReadRegionsSpec(data, Little, |rs|, 0, map[]);
    var m := ReadRegions(data, Little, |rs|, 0, map[]).value;
    forall j | 0 <= j < |rs| ensures RegionOffset(j) in m && m[RegionOffset(j)] == rs[j] {
      EntryKey(j, |rs|);
    }
  }

  /** Entry j of a table of n entries is stored under a key of that table. */
  lemma EntryKey(j: nat, n: nat)
    requires j < n
    ensures IsRegionKey(RegionOffset(j), 0, n)
  {
    assert (RegionOffset(j) - HeaderSize) / RegionSize == j;
  }

  /** The region table of a written file reads back with entry j, under its
      offset 32 + 8 * j, holding rectangle j. */
  lemma RegionTableReadBack(doc: Document, codes: seq<int>, rs: seq<TexRegion>)
    requires Parts(doc, codes, rs)
    ensures var data := Layout(doc, codes, rs);
            ReadRegions(data, Little, |codes|, 0, map[]).Ok? &&
            var m := ReadRegions(data, Little, |codes|, 0, map[]).value;
            (forall k :: k in m <==> IsRegionKey(k, 0, |codes|)) &&
            forall j :: 0 <= j < |codes| ==> RegionOffset(j) in m && m[RegionOffset(j)] == rs[j]
  {
    var data := Layout(doc, codes, rs);
    LayoutHeader(doc, codes, rs);
    forall j | 0 <= j < |rs| ensures RegionAt(data, RegionOffset(j), Little) == Ok(rs[j]) {
      RegionEntryReadBack(doc, codes, rs, j);
    }
    RegionsReadBack(data, rs);
  }

  /** Glyph record j of a written file reads back as code j and its glyph. */
  lemma RecordEntryReadBack(doc: Document, codes: seq<int>, rs: seq<TexRegion>,
                            regions: map<int, TexRegion>, j: nat)
    requires Parts(doc, codes, rs) && j < |codes|
    requires doc.glyphs[codes[j]].uv.Scaled? && rs[j] == doc.glyphs[codes[j]].uv.region
    requires forall l :: 0 <= l < |codes| ==> RegionOffset(l) in regions && regions[RegionOffset(l)] == rs[l]
    requires doc.texWidth != 0 && doc.texHeight != 0
    ensures RecordAt(Layout(doc, codes, rs), RegionOffset(|codes|) + RecordSize * j, Little, regions,
                     doc.texWidth, doc.texHeight) == Ok((codes[j], doc.glyphs[codes[j]]))
  {
    var data := Layout(doc, codes, rs);
    var p := RegionOffset(|codes|) + RecordSize * j;
    var g := doc.glyphs[codes[j]];
    var l := LastIndex(rs, rs[j]);
    OffsetFits(|codes|, l);
    LayoutRecord(doc, codes, rs, j);
    assert data[p..p + RecordSize] == RecordBytes(codes[j], RegionOffset(l), g);
    assert regions[RegionOffset(l)] == g.uv.region;
    RecordReadBack(data, p, codes[j], RegionOffset(l), g, regions, doc.texWidth, doc.texHeight);
  }

  /** Every glyph record of a written file reads back as its code and glyph. */
  lemma RecordsReadBack(doc: Document, codes: seq<int>, rs: seq<TexRegion>, regions: map<int, TexRegion>)
    requires Parts(doc, codes, rs)
    requires forall j :: 0 <= j < |codes| ==>
               doc.glyphs[codes[j]].uv.Scaled? && rs[j] == doc.glyphs[codes[j]].uv.region
    requires forall j :: 0 <= j < |codes| ==> RegionOffset(j) in regions && regions[RegionOffset(j)] == rs[j]
    requires |codes| > 0 ==> doc.texWidth != 0 && doc.texHeight != 0
    ensures forall j :: 0 <= j < |codes| ==>
              RecordAt(Layout(doc, codes, rs), RegionOffset(|codes|) + RecordSize * j, Little, regions,
                       doc.texWidth, doc.texHeight) == Ok((codes[j], doc.glyphs[codes[j]]))
  {
    forall j | 0 <= j < |codes|
      ensures RecordAt(Layout(doc, codes, rs), RegionOffset(|codes|) + RecordSize * j, Little, regions,
                       doc.texWidth, doc.texHeight) == Ok((codes[j], doc.glyphs[codes[j]]))
    {
      RecordEntryReadBack(doc, codes, rs, regions, j);
    }
  }

  /** Records with distinct codes that cover the glyph table exactly rebuild it. */
  lemma ReadGlyphsDistinct(recs: seq<Result<(int, Glyph)>>, codes: seq<int>, glyphs: map<int, Glyph>)
    requires |recs| == |codes|
    requires forall c :: c in codes <==> c in glyphs
    requires forall i, j :: 0 <= i < j < |codes| ==> codes[i] != codes[j]
    requires forall j :: 0 <= j < |codes| ==> codes[j] in glyphs && recs[j] == Ok((codes[j], glyphs[codes[j]]))
    ensures ReadGlyphs(recs, 0, map[]) == Ok(glyphs)
  {
    ReadGlyphsOk(recs, 0, map[]);
    ReadGlyphsFromRecords(recs, 0, map[]);
    var m := ReadGlyphs(recs, 0, map[]).value;
    forall c | c in m ensures c in glyphs {
      var j :| 0 <= j < |recs| && recs[j] == Ok((c, m[c]));
      assert codes[j] == c;
    }
    forall c | c in glyphs ensures c in m && m[c] == glyphs[c] {
      var j :| 0 <= j < |codes| && codes[j] == c;
      forall l | j < l < |recs| ensures !HasCode(recs, l, c) {
        assert recs[l].value.0 == codes[l];
      }
      ReadGlyphsLastWins(recs, 0, map[], j);
    }
    assert m == glyphs;
  }

  /** Record results, taken one offset at a time, make the record sequence. */
  lemma RecordsOf(data: seq<Byte>, base: nat, regions: map<int, TexRegion>, texWidth: int, texHeight: int,
                  codes: seq<int>, glyphs: map<int, Glyph>)
    requires forall j :: 0 <= j < |codes| ==> codes[j] in glyphs
    requires forall j :: 0 <= j < |codes| ==>
               RecordAt(data, base + RecordSize * j, Little, regions, texWidth, texHeight) == Ok((codes[j], glyphs[codes[j]]))
    ensures var recs := Records(data, Little, base, |codes|, regions, texWidth, texHeight);
            forall j :: 0 <= j < |codes| ==> recs[j] == Ok((codes[j], glyphs[codes[j]]))
  {
  }

  // ---------------------------------------------------------------------------
  // The whole file

  /** The body of a file laid out from distinct codes that cover the glyph
      table, with each glyph's own rectangle, reads back as the glyph table
      under a header counting n regions and n glyphs. */
  lemma LayoutBodyReadBack(doc: Document, codes: seq<int>, rs: seq<TexRegion>, h: Header)
    requires Parts(doc, codes, rs)
    requires forall c :: c in codes <==> c in doc.glyphs
    requires forall i, j :: 0 <= i < j < |codes| ==> codes[i] != codes[j]
    requires forall j :: 0 <= j < |codes| ==>
               doc.glyphs[codes[j]].uv.Scaled? && rs[j] == doc.glyphs[codes[j]].uv.region
    requires |codes| > 0 ==> doc.texWidth != 0 && doc.texHeight != 0
    requires h.version == DarkSouls2 && h.texRegionCount == |codes| && h.glyphCount == |codes|
    requires h.texWidth == doc.texWidth && h.texHeight == doc.texHeight
    ensures DecodeBody(Layout(doc, codes, rs), h) == Ok(doc.glyphs)
  {
    var data := Layout(doc, codes, rs);
    RegionTableReadBack(doc, codes, rs);
    var regions := ReadRegions(data, Little, |codes|, 0, map[]).value;
    RecordsReadBack(doc, codes, rs, regions);
    BodyReadBack(data, h, regions, codes, doc.glyphs);
  }

  /** Records that read back as distinct codes covering the glyph table,
      each with its glyph, make the glyph loop rebuild the table. */
  lemma GlyphsReadBack(data: seq<Byte>, h: Header, regions: map<int, TexRegion>, codes: seq<int>,
                       glyphs: map<int, Glyph>)
    requires forall c :: c in codes <==> c in glyphs
    requires forall i, j :: 0 <= i < j < |codes| ==> codes[i] != codes[j]
    requires forall j :: 0 <= j < |codes| ==> codes[j] in glyphs
    requires forall j :: 0 <= j < |codes| ==>
               RecordAt(data, RegionOffset(|codes|) + RecordSize * j, Little, regions, h.texWidth, h.texHeight)
               == Ok((codes[j], glyphs[codes[j]]))
    ensures ReadGlyphs(Records(data, Little, RegionOffset(|codes|), |codes|, regions, h.texWidth, h.texHeight),
                       0, map[]) == Ok(glyphs)
  {
    var recs := Records(data, Little, RegionOffset(|codes|), |codes|, regions, h.texWidth, h.texHeight);
    RecordsOf(data, RegionOffset(|codes|), regions, h.texWidth, h.texHeight, codes, glyphs);
    ReadGlyphsDistinct(recs, codes, glyphs);
  }

  /** A body whose region table reads back and whose n records read back as
      distinct codes covering the glyph table, each with its glyph, decodes
      to that glyph table. */
  lemma BodyReadBack(data: seq<Byte>, h: Header, regions: map<int, TexRegion>, codes: seq<int>,
                     glyphs: map<int, Glyph>)
    requires h.version == DarkSouls2 && h.texRegionCount == |codes| && h.glyphCount == |codes|
    requires ReadRegions(data, Little, |codes|, 0, map[]) == Ok(regions)
    requires forall c :: c in codes <==> c in glyphs
    requires forall i, j :: 0 <= i < j < |codes| ==> codes[i] != codes[j]
    requires forall j :: 0 <= j < |codes| ==> codes[j] in glyphs
    requires forall j :: 0 <= j < |codes| ==>
               RecordAt(data, RegionOffset(|codes|) + RecordSize * j, Little, regions, h.texWidth, h.texHeight)
               == Ok((codes[j], glyphs[codes[j]]))
    ensures DecodeBody(data, h) == Ok(glyphs)
  {
    GlyphsReadBack(data, h, regions, codes, glyphs);
    BodyFromTables(data, h, regions, |codes|);
  }

  /** With n regions and n glyphs counted, a body whose region table reads
      back decodes as the glyph loop over its n records. */
  lemma BodyFromTables(data: seq<Byte>, h: Header, regions: map<int, TexRegion>, n: nat)
    requires h.version == DarkSouls2 && h.texRegionCount == n && h.glyphCount == n
    requires ReadRegions(data, Little, n, 0, map[]) == Ok(regions)
    ensures DecodeBody(data, h) ==
            ReadGlyphs(Records(data, Little, RegionOffset(n), n, regions, h.texWidth, h.texHeight), 0, map[])
  {
  }

  /** A file laid out from distinct codes that cover the glyph table, with
      each glyph's own rectangle, reads back as the document; unk0e, which
      the layout does not hold, reads back as 0. The texture must have a size
      whenever there are glyphs, since reading divides by it. */
  lemma LayoutReadBack(doc: Document, codes: seq<int>, rs: seq<TexRegion>)
    requires doc.version == DarkSouls2 && Parts(doc, codes, rs)
    requires forall c :: c in codes <==> c in doc.glyphs
    requires forall i, j :: 0 <= i < j < |codes| ==> codes[i] != codes[j]
    requires forall j :: 0 <= j < |codes| ==>
               doc.glyphs[codes[j]].uv.Scaled? && rs[j] == doc.glyphs[codes[j]].uv.region
    requires |codes| > 0 ==> doc.texWidth != 0 && doc.texHeight != 0
    ensures DecodeDs2Only(Layout(doc, codes, rs)) == Ok(doc.(unk0e := 0))
  {
    var data := Layout(doc, codes, rs);
    var n := |codes|;
    LayoutHeader(doc, codes, rs);
    HeaderReadBack(data, doc, FileSize(n), RegionOffset(n));
    LayoutBodyReadBack(doc, codes, rs, DecodeHeader(data).value);
  }

  /** Writing a well-formed DarkSouls2 document and reading the file back
      with the encoder's own reader gives the document again, with unk0e 0;
      the write fails only with a range error. */
  lemma WriteThenRead(doc: Document)
    requires doc.version == DarkSouls2 && WellFormed(doc)
    ensures Encode(doc).Ok? ==> DecodeDs2Only(Encode(doc).value) == Ok(doc.(unk0e := 0))
    ensures Encode(doc).Err? ==> Encode(doc).error == OutOfRange && !Encodable(doc)
  {
    if Encodable(doc) {
      EncodableParts(doc);
      var codes := SortedCodes(doc.glyphs.Keys);
      SortedCodesFacts(doc.glyphs);
      LayoutReadBack(doc, codes, RegionList(doc.glyphs, codes));
    }
  }

  /** Converting character lines against a DarkSouls2 original gives a file
      that reads back as the original's header fields with exactly the
      imported glyphs; the conversion fails only on a texture without a size
      or on a field that does not fit. */
  lemma ConvertReadBack(original: seq<Byte>, chars: seq<CharRecord>)
    requires DecodeDs2Only(original).Ok? && DecodeDs2Only(original).value.version == DarkSouls2
    ensures var doc := DecodeDs2Only(original).value;
            var imported := ImportFrom(chars, 0, doc.texWidth, doc.texHeight, map[]);
            Convert(original, chars).Ok? ==>
              imported.Ok? && DecodeDs2Only(Convert(original, chars).value) == Ok(doc.(glyphs := imported.value))
    ensures var doc := DecodeDs2Only(original).value;
            var imported := ImportFrom(chars, 0, doc.texWidth, doc.texHeight, map[]);
            Convert(original, chars).Err? ==>
              Convert(original, chars).error == (if imported.Err? then ZeroDivision else OutOfRange)
  {
    var doc := DecodeDs2Only(original).value;
    var imported := ImportFrom(chars, 0, doc.texWidth, doc.texHeight, map[]);
    ImportFails(chars, 0, doc.texWidth, doc.texHeight, map[]);
    if imported.Ok? {
      ImportedWellFormed(doc, chars);
      assert doc.unk0e == 0;
      WriteThenRead(doc.(glyphs := imported.value));
    }
  }

  /** The encoder's reader keeps no glyphs for a file of an older version. */
  lemma LegacyDecode(data: seq<Byte>)
    requires DecodeHeader(data).Ok? && DecodeHeader(data).value.version != DarkSouls2
    ensures var h := DecodeHeader(data).value;
            DecodeDs2Only(data) ==
            Ok(Document(h.version, h.fullWidth, h.texWidth, h.texHeight, h.unk0e, h.unk1c, h.unk1d,
                        h.texCount, map[]))
  {
  }

  /** `write` tags the file with the document's own version but always lays
      it out as DarkSouls2: a DarkSouls1 file reads back with no glyphs and
      the glyph count as unk0e. */
  lemma LegacyVersionReadBack(doc: Document)
    requires doc.version == DarkSouls1 && Writable(doc) && Encodable(doc)
    ensures DecodeDs2Only(Image(doc)) == Ok(doc.(unk0e := |doc.glyphs|, glyphs := map[]))
  {
    EncodableParts(doc);
    var codes := SortedCodes(doc.glyphs.Keys);
    var rs := RegionList(doc.glyphs, codes);
    var n := |codes|;
    var data := Image(doc);
    assert data == Layout(doc, codes, rs);
    LayoutHeader(doc, codes, rs);
    LegacyHeaderReadBack(data, doc, FileSize(n), RegionOffset(n));
    LegacyDecode(data);
  }

  /** A file written for a DemonsSouls document, DarkSouls2 layout under the
      big-endian tag, fails to read at the 0x20 constant. */
  lemma BigEndianVersionReadBack(doc: Document)
    requires doc.version == DemonsSouls && Writable(doc) && Encodable(doc)
    ensures DecodeDs2Only(Image(doc)) == Err(BadConstant(20))
  {
    EncodableParts(doc);
    var codes := SortedCodes(doc.glyphs.Keys);
    var rs := RegionList(doc.glyphs, codes);
    var n := |codes|;
    LayoutHeader(doc, codes, rs);
    BigEndianHeaderFails(Image(doc), doc, FileSize(n), RegionOffset(n));
  }

  /** The two scripts parse the same header and the same DarkSouls2 body, so
      on a DarkSouls2 file their readers agree, failures included; on an older
      file the encoder's reader keeps the header and drops the glyphs the other
      reader expands. */
  lemma ReadersAgree(data: seq<Byte>)
    ensures DecodeHeader(data).Ok? && DecodeHeader(data).value.version == DarkSouls2 ==>
              CcmToTxt.Decode(data) == DecodeDs2Only(data)
    ensures CcmToTxt.Decode(data).Ok? && CcmToTxt.Decode(data).value.version != DarkSouls2 ==>
              DecodeDs2Only(data) == Ok(CcmToTxt.Decode(data).value.(glyphs := map[]))
  {
  }
}
