/** The body of a DarkSouls2 file: a table of pixel rectangles right after the
    header, keyed by the absolute byte offset each entry starts at, followed by
    24-byte glyph records that name their rectangle by that offset. Both
    scripts read it with the same code. */
module Ds2Body {
  import opened Wire
  import opened Streams
  import opened CcmFormat

  /** Size of a region-table entry: four signed 16-bit coordinates. */
  const RegionSize: nat := 8

  /** Size of a glyph record: code, region offset, four 16-bit fields, two zero words. */
  const RecordSize: nat := 24

  /** Absolute offset of region-table entry i. */
  function RegionOffset(i: nat): nat
  {
    HeaderSize + RegionSize * i
  }

  /** Whether offset k is the key of one of the entries lo..hi-1. */
  predicate IsRegionKey(k: int, lo: nat, hi: nat)
  {
    k >= HeaderSize && (k - HeaderSize) % RegionSize == 0 && lo <= (k - HeaderSize) / RegionSize < hi
  }

  /** The rectangle stored at offset p: x1, y1, x2, y2. */
  function RegionAt(data: seq<Byte>, p: nat, e: Endian): (r: Result<TexRegion>)
    ensures r.Ok? <==> p + RegionSize <= |data|
    ensures r.Ok? ==>
              r.value == TexRegion(Signed(data[p..p + 2], e), Signed(data[p + 2..p + 4], e),
                                   Signed(data[p + 4..p + 6], e), Signed(data[p + 6..p + 8], e))
    ensures r.Err? ==> r.error == Truncated
  {
    var x1 :- SignedAt(data, p, 2, e);
    var y1 :- SignedAt(data, p + 2, 2, e);
    var x2 :- SignedAt(data, p + 4, 2, e);
    var y2 :- SignedAt(data, p + 6, 2, e);
    Ok(TexRegion(x1, y1, x2, y2))
  }

  /** The region loop from entry i on, storing each entry under its offset. */
  function ReadRegions(data: seq<Byte>, e: Endian, count: nat, i: nat, acc: map<int, TexRegion>)
    : (r: Result<map<int, TexRegion>>)
    requires i <= count
    decreases count - i
    ensures r.Ok? ==> acc.Keys <= r.value.Keys
    ensures r.Err? ==> r.error == Truncated
  {
    if i == count then Ok(acc)
    else
      var r :- RegionAt(data, RegionOffset(i), e);
      ReadRegions(data, e, count, i + 1, acc[RegionOffset(i) := r])
  }

  /** One glyph record at offset p. The two reserved words must be zero, the
      region offset must be a key of the table, and the rectangle is divided by
      the texture width and height, which therefore must not be zero. */
  function RecordAt(data: seq<Byte>, p: nat, e: Endian, regions: map<int, TexRegion>,
                    texWidth: int, texHeight: int): (r: Result<(int, Glyph)>)
    ensures r.Ok? <==>
              p + RecordSize <= |data| &&
              Signed(data[p + 16..p + 20], e) == 0 && Signed(data[p + 20..p + 24], e) == 0 &&
              Signed(data[p + 4..p + 8], e) in regions && texWidth != 0 && texHeight != 0
    ensures r.Ok? ==>
              r.value.0 == Signed(data[p..p + 4], e) &&
              r.value.1.uv == Scaled(regions[Signed(data[p + 4..p + 8], e)]) &&
              r.value.1.texIndex == Signed(data[p + 8..p + 10], e) &&
              r.value.1.preSpace == Signed(data[p + 10..p + 12], e) &&
              r.value.1.width == Signed(data[p + 12..p + 14], e) &&
              r.value.1.advance == Signed(data[p + 14..p + 16], e)
    ensures p + RecordSize <= |data| &&
            Signed(data[p + 16..p + 20], e) == 0 && Signed(data[p + 20..p + 24], e) == 0 &&
            Signed(data[p + 4..p + 8], e) !in regions ==>
              r == Err(DanglingRegion(Signed(data[p + 4..p + 8], e)))
    ensures r.Err? ==> r.error.Truncated? || r.error.BadConstant? || r.error.DanglingRegion? || r.error.ZeroDivision?
  {
    var code :- SignedAt(data, p, 4, e);
    var offset :- SignedAt(data, p + 4, 4, e);
    var metrics :- ShortsAt(data, p + 8, e);  // tex_index, pre_space, width, advance
    :- ReservedAt(data, p + 16, e);
    :- Need(offset in regions, DanglingRegion(offset));
    :- Need(texWidth != 0 && texHeight != 0, ZeroDivision);
    Ok((code, Glyph(Scaled(regions[offset]), metrics.1, metrics.2, metrics.3, metrics.0)))
  }

  /** The two reserved words of a glyph record at offset p, which must be zero. */
  function ReservedAt(data: seq<Byte>, p: nat, e: Endian): (r: Check)
    ensures r.Pass? ==> p + 8 <= |data|
    ensures r.Pass? <==> p + 8 <= |data| && Signed(data[p..p + 4], e) == 0 && Signed(data[p + 4..p + 8], e) == 0
  {
    match SignedAt(data, p, 4, e)
    case Err(error) => Fail(error)
    case Ok(reserved1) =>
      if reserved1 != 0 then Fail(BadConstant(p))
      else
        match SignedAt(data, p + 4, 4, e)
        case Err(error) => Fail(error)
        case Ok(reserved2) => if reserved2 != 0 then Fail(BadConstant(p + 4)) else Pass
  }

  /** The decoded records of a glyph table of count records starting at base;
      each record sits at a fixed offset, so each decodes on its own. */
  function Records(data: seq<Byte>, e: Endian, base: nat, count: nat, regions: map<int, TexRegion>,
                   texWidth: int, texHeight: int): (recs: seq<Result<(int, Glyph)>>)
    ensures |recs| == count
  {
    seq(count, j requires 0 <= j < count => RecordAt(data, base + RecordSize * j, e, regions, texWidth, texHeight))
  }

  /** The glyph loop from record i on: the first record that fails aborts, and
      a later record with the same code replaces an earlier one. */
  function ReadGlyphs(recs: seq<Result<(int, Glyph)>>, i: nat, acc: map<int, Glyph>): (r: Result<map<int, Glyph>>)
    requires i <= |recs|
    decreases |recs| - i
    ensures r.Ok? ==> acc.Keys <= r.value.Keys
    ensures r.Err? ==> exists j :: i <= j < |recs| && recs[j] == Err(r.error)
  {
    if i == |recs| then Ok(acc)
    else
      var rec :- recs[i];
      ReadGlyphs(recs, i + 1, acc[rec.0 := rec.1])
  }

  /** The DarkSouls2 body after a header h. */
  function DecodeBody(data: seq<Byte>, h: Header): (r: Result<map<int, Glyph>>)
    ensures r.Err? ==> r.error.Truncated? || r.error.BadConstant? || r.error.DanglingRegion? || r.error.ZeroDivision?
  {
    var e := ByteOrder(h.version);
    var n := Count(h.texRegionCount);
    var regions :- ReadRegions(data, e, n, 0, map[]);
    ReadGlyphs(Records(data, e, RegionOffset(n), Count(h.glyphCount), regions, h.texWidth, h.texHeight),
               0, map[])
  }

  /** One rectangle of the region table, read field by field at the cursor. */
  method ReadRegion(f: InStream, e: Endian) returns (r: Result<TexRegion>)
    requires f.Valid()
    modifies f
    ensures f.Valid()
    ensures r == RegionAt(f.data, old(f.pos), e)
    ensures r.Ok? ==> f.pos == old(f.pos) + RegionSize
  {
    var x1 :- f.ReadSigned(2, e);
    var y1 :- f.ReadSigned(2, e);
    var x2 :- f.ReadSigned(2, e);
    var y2 :- f.ReadSigned(2, e);
    r := Ok(TexRegion(x1, y1, x2, y2));
  }

  /** The two reserved words of a glyph record, read at the cursor. */
  method ReadReserved(f: InStream, e: Endian) returns (r: Check)
    requires f.Valid()
    modifies f
    ensures f.Valid()
    ensures r == ReservedAt(f.data, old(f.pos), e)
    ensures r.Pass? ==> f.pos == old(f.pos) + 8
  {
    var p := f.pos;
    var reserved1 := f.ReadSigned(4, e);
    if reserved1.Err? {
      return Fail(reserved1.error);
    }
    if reserved1.value != 0 {
      return Fail(BadConstant(p));
    }
    var reserved2 := f.ReadSigned(4, e);
    if reserved2.Err? {
      return Fail(reserved2.error);
    }
    if reserved2.value != 0 {
      return Fail(BadConstant(p + 4));
    }
    r := Pass;
  }

  /** One glyph record, read field by field at the cursor, then resolved
      against the region table. */
  method ReadRecord(f: InStream, e: Endian, texRegions: map<int, TexRegion>,
                    texWidth: int, texHeight: int) returns (r: Result<(int, Glyph)>)
    requires f.Valid()
    modifies f
    ensures f.Valid()
    ensures r == RecordAt(f.data, old(f.pos), e, texRegions, texWidth, texHeight)
    ensures r.Ok? ==> f.pos == old(f.pos) + RecordSize
  {
    var code :- f.ReadSigned(4, e);
    var texRegionOffset :- f.ReadSigned(4, e);
    var metrics :- ReadShorts(f, e);
    var reserved := ReadReserved(f, e);
    if reserved.Fail? {
      return Err(reserved.error);
    }
    if texRegionOffset !in texRegions {
      return Err(DanglingRegion(texRegionOffset));
    }
    var region := texRegions[texRegionOffset];
    if texWidth == 0 || texHeight == 0 {
      return Err(ZeroDivision);
    }
    r := Ok((code, Glyph(Scaled(region), metrics.1, metrics.2, metrics.3, metrics.0)));
  }

  /** The region-table loop of `CCM.read`, starting right after the header:
      each rectangle is stored under the offset it was read from. */
  method ReadRegionTable(f: InStream, e: Endian, count: nat) returns (r: Result<map<int, TexRegion>>)
    requires f.Valid() && f.pos == HeaderSize
    modifies f
    ensures f.Valid()
    ensures r == ReadRegions(f.data, e, count, 0, map[])
    ensures r.Ok? ==> f.pos == RegionOffset(count)
  {
    var texRegions: map<int, TexRegion> := map[];
    var i := 0;
    while i < count
      invariant f.Valid() && i <= count
      invariant f.pos == RegionOffset(i)
      invariant ReadRegions(f.data, e, count, i, texRegions) == ReadRegions(f.data, e, count, 0, map[])
    {
      var pos := f.pos;
      var region :- ReadRegion(f, e);
      texRegions := texRegions[pos := region];
      i := i + 1;
    }
    r := Ok(texRegions);
  }

  /** The glyph loop of `CCM.read`: count records from base on, each stored
      under its code. */
  method ReadGlyphRecords(f: InStream, e: Endian, base: nat, count: nat, texRegions: map<int, TexRegion>,
                          texWidth: int, texHeight: int) returns (r: Result<map<int, Glyph>>)
    requires f.Valid() && f.pos == base
    modifies f
    ensures f.Valid()
    ensures r == ReadGlyphs(Records(f.data, e, base, count, texRegions, texWidth, texHeight), 0, map[])
  {
    ghost var recs := Records(f.data, e, base, count, texRegions, texWidth, texHeight);
    var glyphs: map<int, Glyph> := map[];
    var j := 0;
    while j < count
      invariant f.Valid() && j <= count
      invariant f.pos == base + RecordSize * j
      invariant ReadGlyphs(recs, j, glyphs) == ReadGlyphs(recs, 0, map[])
    {
      assert recs[j] == RecordAt(f.data, f.pos, e, texRegions, texWidth, texHeight);
      var record :- ReadRecord(f, e, texRegions, texWidth, texHeight);
      glyphs := glyphs[record.0 := record.1];
      j := j + 1;
    }
    r := Ok(glyphs);
  }

  /** The DarkSouls2 part of `CCM.read`, starting right after the header. */
  method ReadBody(f: InStream, h: Header) returns (r: Result<map<int, Glyph>>)
    requires f.Valid() && f.pos == HeaderSize
    modifies f
    ensures f.Valid()
    ensures r == DecodeBody(f.data, h)
  {
    var e := ByteOrder(h.version);
    var regionCount := Count(h.texRegionCount);
    var texRegions :- ReadRegionTable(f, e, regionCount);
    r := ReadGlyphRecords(f, e, RegionOffset(regionCount), Count(h.glyphCount), texRegions,
                          h.texWidth, h.texHeight);
  }

  // ---------------------------------------------------------------------------
  // Properties of the region table

  /** The region loop succeeds exactly when the whole table is in the file; it
      adds one key per entry, the entry's own offset 32 + 8 * j, holding the
      rectangle stored there, and keeps every other key of acc. */
  lemma {:induction false} ReadRegionsSpec(data: seq<Byte>, e: Endian, count: nat, i: nat,
                                           acc: map<int, TexRegion>)
    requires i <= count
    decreases count - i
    ensures ReadRegions(data, e, count, i, acc).Ok? <==> (i == count || RegionOffset(count) <= |data|)
    ensures ReadRegions(data, e, count, i, acc).Ok? ==>
      var m := ReadRegions(data, e, count, i, acc).value;
      (forall k :: k in m <==> k in acc || IsRegionKey(k, i, count)) &&
      (forall j :: i <= j < count ==> m[RegionOffset(j)] == RegionAt(data, RegionOffset(j), e).value) &&
      (forall k :: k in acc && !IsRegionKey(k, i, count) ==> m[k] == acc[k])
  {
    if i < count {
      var p := RegionOffset(i);
      MulStep(i, count);
      if p + RegionSize <= |data| {
        var r := RegionAt(data, p, e).value;
        ReadRegionsSpec(data, e, count, i + 1, acc[p := r]);
        KeyStep(i, count);
      }
    }
  }

  lemma MulStep(i: nat, count: nat)
    requires i < count
    ensures RegionOffset(i) + RegionSize <= RegionOffset(count)
  {
  }

  /** The keys of entries i.. are entry i's offset and the keys of entries i+1.. */
  lemma KeyStep(i: nat, count: nat)
    requires i < count
    ensures !IsRegionKey(RegionOffset(i), i + 1, count)
    ensures IsRegionKey(RegionOffset(i), i, count)
    ensures forall k :: IsRegionKey(k, i, count) <==> k == RegionOffset(i) || IsRegionKey(k, i + 1, count)
    ensures forall j :: i < j < count ==> IsRegionKey(RegionOffset(j), i + 1, count)
  {
    forall k ensures IsRegionKey(k, i, count) <==> k == RegionOffset(i) || IsRegionKey(k, i + 1, count) {
      if k >= HeaderSize && (k - HeaderSize) % RegionSize == 0 {
        var q := (k - HeaderSize) / RegionSize;
        assert k == RegionOffset(q);
      }
    }
    forall j | i < j < count ensures IsRegionKey(RegionOffset(j), i + 1, count) {
      assert (RegionOffset(j) - HeaderSize) / RegionSize == j;
    }
  }

  // ---------------------------------------------------------------------------
  // Properties of the glyph records

  /** The glyph loop adds at most one code per record. */
  lemma {:induction false} ReadGlyphsSize(recs: seq<Result<(int, Glyph)>>, i: nat, acc: map<int, Glyph>)
    requires i <= |recs|
    decreases |recs| - i
    ensures ReadGlyphs(recs, i, acc).Ok? ==> |ReadGlyphs(recs, i, acc).value| <= |acc| + (|recs| - i)
  {
    if i < |recs| && recs[i].Ok? {
      var rec := recs[i].value;
      ReadGlyphsSize(recs, i + 1, acc[rec.0 := rec.1]);
      MapUpdateSize(acc, rec.0, rec.1);
    }
  }

  lemma MapUpdateSize<K, V>(m: map<K, V>, k: K, v: V)
    ensures |m[k := v]| <= |m| + 1
  {
    if k in m {
      assert m[k := v].Keys == m.Keys;
    } else {
      assert m[k := v].Keys == m.Keys + {k};
    }
  }

  /** The loop succeeds exactly when every record decodes. */
  lemma {:induction false} ReadGlyphsOk(recs: seq<Result<(int, Glyph)>>, i: nat, acc: map<int, Glyph>)
    requires i <= |recs|
    decreases |recs| - i
    ensures ReadGlyphs(recs, i, acc).Ok? <==> forall j :: i <= j < |recs| ==> recs[j].Ok?
  {
    if i < |recs| && recs[i].Ok? {
      var rec := recs[i].value;
      ReadGlyphsOk(recs, i + 1, acc[rec.0 := rec.1]);
    }
  }

  /** Every glyph in the result was accumulated before or comes from a record. */
  lemma {:induction false} ReadGlyphsFromRecords(recs: seq<Result<(int, Glyph)>>, i: nat, acc: map<int, Glyph>)
    requires i <= |recs|
    decreases |recs| - i
    ensures ReadGlyphs(recs, i, acc).Ok? ==>
              var m := ReadGlyphs(recs, i, acc).value;
              forall c :: c in m ==>
                (c in acc && m[c] == acc[c]) ||
                (exists j :: i <= j < |recs| && recs[j] == Ok((c, m[c])))
  {
    if i < |recs| && recs[i].Ok? {
      var rec := recs[i].value;
      var acc' := acc[rec.0 := rec.1];
      ReadGlyphsFromRecords(recs, i + 1, acc');
      if ReadGlyphs(recs, i, acc).Ok? {
        var m := ReadGlyphs(recs, i, acc).value;
        forall c | c in m && !(c in acc && m[c] == acc[c])
          ensures exists j :: i <= j < |recs| && recs[j] == Ok((c, m[c]))
        {
          if c in acc' && m[c] == acc'[c] {
            assert c == rec.0 && recs[i] == Ok((c, m[c]));
          }
        }
      }
    }
  }

  /** Whether record l decodes and carries code c. */
  predicate HasCode(recs: seq<Result<(int, Glyph)>>, l: nat, c: int)
    requires l < |recs|
  {
    recs[l].Ok? && recs[l].value.0 == c
  }

  /** The last record with a given code decides that code's glyph. */
  lemma {:induction false} ReadGlyphsLastWins(recs: seq<Result<(int, Glyph)>>, i: nat, acc: map<int, Glyph>, j: nat)
    requires i <= j < |recs|
    requires ReadGlyphs(recs, i, acc).Ok?
    requires recs[j].Ok?
    requires forall l :: j < l < |recs| ==> !HasCode(recs, l, recs[j].value.0)
    decreases |recs| - i
    ensures recs[j].value.0 in ReadGlyphs(recs, i, acc).value
    ensures ReadGlyphs(recs, i, acc).value[recs[j].value.0] == recs[j].value.1
  {
    var rec := recs[i].value;
    var acc' := acc[rec.0 := rec.1];
    if j == i {
      ReadGlyphsKeepsUntouched(recs, i + 1, acc', rec.0);
    } else {
      ReadGlyphsLastWins(recs, i + 1, acc', j);
    }
  }

  /** A code that no later record names keeps its accumulated glyph. */
  lemma {:induction false} ReadGlyphsKeepsUntouched(recs: seq<Result<(int, Glyph)>>, i: nat,
                                                    acc: map<int, Glyph>, c: int)
    requires i <= |recs|
    requires c in acc
    requires forall l :: i <= l < |recs| ==> !HasCode(recs, l, c)
    decreases |recs| - i
    ensures ReadGlyphs(recs, i, acc).Ok? ==>
              c in ReadGlyphs(recs, i, acc).value && ReadGlyphs(recs, i, acc).value[c] == acc[c]
  {
    if i < |recs| && recs[i].Ok? {
      assert !HasCode(recs, i, c);
      var rec := recs[i].value;
      ReadGlyphsKeepsUntouched(recs, i + 1, acc[rec.0 := rec.1], c);
    }
  }

  /** A DarkSouls2 body holds at most glyph_count glyphs, and each one
      carries a pixel rectangle. */
  lemma DecodedBodyBounded(data: seq<Byte>, h: Header)
    ensures DecodeBody(data, h).Ok? ==>
              var glyphs := DecodeBody(data, h).value;
              |glyphs| <= Count(h.glyphCount) &&
              forall c :: c in glyphs ==> glyphs[c].uv.Scaled?
  {
    var e := ByteOrder(h.version);
    var n := Count(h.texRegionCount);
    var regions := ReadRegions(data, e, n, 0, map[]);
    if regions.Ok? {
      var recs := Records(data, e, RegionOffset(n), Count(h.glyphCount), regions.value,
                          h.texWidth, h.texHeight);
      assert DecodeBody(data, h) == ReadGlyphs(recs, 0, map[]);
      ReadGlyphsSize(recs, 0, map[]);
      RecordsScaled(data, e, RegionOffset(n), Count(h.glyphCount), regions.value, h.texWidth, h.texHeight);
      ReadGlyphsScaled(recs, 0, map[]);
    }
  }

  /** Every glyph record that decodes carries a rectangle. */
  lemma RecordsScaled(data: seq<Byte>, e: Endian, base: nat, count: nat, regions: map<int, TexRegion>,
                      texWidth: int, texHeight: int)
    ensures var recs := Records(data, e, base, count, regions, texWidth, texHeight);
            forall j :: 0 <= j < count && recs[j].Ok? ==> recs[j].value.1.uv.Scaled?
  {
    var recs := Records(data, e, base, count, regions, texWidth, texHeight);
    forall j | 0 <= j < count && recs[j].Ok? ensures recs[j].value.1.uv.Scaled? {
      assert recs[j] == RecordAt(data, base + RecordSize * j, e, regions, texWidth, texHeight);
    }
  }

  /** A record reads only against a texture of nonzero size. */
  lemma RecordsNeedTexture(data: seq<Byte>, e: Endian, base: nat, count: nat, regions: map<int, TexRegion>,
                           texWidth: int, texHeight: int)
    ensures var recs := Records(data, e, base, count, regions, texWidth, texHeight);
            forall j :: 0 <= j < count && recs[j].Ok? ==> texWidth != 0 && texHeight != 0
  {
    var recs := Records(data, e, base, count, regions, texWidth, texHeight);
    forall j | 0 <= j < count && recs[j].Ok? ensures texWidth != 0 && texHeight != 0 {
      assert recs[j] == RecordAt(data, base + RecordSize * j, e, regions, texWidth, texHeight);
    }
  }

  /** The glyph loop only stores glyphs of the records. */
  lemma {:induction false} ReadGlyphsScaled(recs: seq<Result<(int, Glyph)>>, i: nat, acc: map<int, Glyph>)
    requires i <= |recs|
    requires forall j :: i <= j < |recs| && recs[j].Ok? ==> recs[j].value.1.uv.Scaled?
    requires forall c :: c in acc ==> acc[c].uv.Scaled?
    decreases |recs| - i
    ensures ReadGlyphs(recs, i, acc).Ok? ==>
              forall c :: c in ReadGlyphs(recs, i, acc).value ==> ReadGlyphs(recs, i, acc).value[c].uv.Scaled?
  {
    if i < |recs| && recs[i].Ok? {
      ReadGlyphsScaled(recs, i + 1, acc[recs[i].value.0 := recs[i].value.1]);
    }
  }


}
