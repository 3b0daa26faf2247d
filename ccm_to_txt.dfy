/** The reader of Convert-ccm-to-txt.py: it decodes all three generations.
    DemonsSouls and DarkSouls1 files hold code groups and a flat list of glyph
    records, and each group maps a run of codes onto a run of records;
    DarkSouls2 files hold the region table and glyph records of Ds2Body. */
module CcmToTxt {
  import opened Wire
  import opened Streams
  import opened CcmFormat
  import opened Ds2Body

  /** Size of a code group: start code, end code, first glyph index. */
  const GroupSize: nat := 12

  /** Size of an older-layout glyph record: four float words, four 16-bit fields. */
  const LegacyRecordSize: nat := 24

  // ---------------------------------------------------------------------------
  // The older layout

  /** A code group: start code, end code and first glyph index, each a signed
      32-bit field. */
  function GroupAt(data: seq<Byte>, p: nat, e: Endian): (r: Result<CodeGroup>)
    ensures r.Ok? <==> p + GroupSize <= |data|
    ensures r.Ok? ==>
              r.value == CodeGroup(Signed(data[p..p + 4], e), Signed(data[p + 4..p + 8], e),
                                   Signed(data[p + 8..p + 12], e))
    ensures r.Err? ==> r.error == Truncated
  {
    var startCode :- SignedAt(data, p, 4, e);
    var endCode :- SignedAt(data, p + 4, 4, e);
    var glyphIndex :- SignedAt(data, p + 8, 4, e);
    Ok(CodeGroup(startCode, endCode, glyphIndex))
  }

  /** Offset of code group i, right after the header. */
  function GroupOffset(i: nat): nat
  {
    HeaderSize + GroupSize * i
  }

  /** The code-group records, as a decoder of the record at an offset. */
  function GroupDecoder(data: seq<Byte>, e: Endian): nat -> Result<CodeGroup>
  {
    (p: nat) => GroupAt(data, p, e)
  }

  /** An older-layout glyph record: u1, v1, u2, v2 as raw float words, then
      pre_space, width, advance and tex_index. */
  function LegacyGlyphAt(data: seq<Byte>, p: nat, e: Endian): (r: Result<Glyph>)
    ensures r.Ok? <==> p + LegacyRecordSize <= |data|
    ensures r.Ok? ==>
              r.value.uv == FloatWords(Unsigned(data[p..p + 4], e), Unsigned(data[p + 4..p + 8], e),
                                       Unsigned(data[p + 8..p + 12], e), Unsigned(data[p + 12..p + 16], e)) &&
              r.value.preSpace == Signed(data[p + 16..p + 18], e) &&
              r.value.width == Signed(data[p + 18..p + 20], e) &&
              r.value.advance == Signed(data[p + 20..p + 22], e) &&
              r.value.texIndex == Signed(data[p + 22..p + 24], e)
    ensures r.Err? ==> r.error == Truncated
  {
    var uv :- FloatWordsAt(data, p, e);
    var metrics :- ShortsAt(data, p + 16, e);  // pre_space, width, advance, tex_index
    Ok(Glyph(uv, metrics.0, metrics.1, metrics.2, metrics.3))
  }

  /** Four 32-bit float words u1, v1, u2, v2 at offset p. */
  function FloatWordsAt(data: seq<Byte>, p: nat, e: Endian): (r: Result<Uv>)
    ensures r.Ok? <==> p + 16 <= |data|
    ensures r.Ok? ==>
              r.value == FloatWords(Unsigned(data[p..p + 4], e), Unsigned(data[p + 4..p + 8], e),
                                    Unsigned(data[p + 8..p + 12], e), Unsigned(data[p + 12..p + 16], e))
    ensures r.Err? ==> r.error == Truncated
  {
    var u1x :- UnsignedAt(data, p, 4, e);
    var u1y :- UnsignedAt(data, p + 4, 4, e);
    var u2x :- UnsignedAt(data, p + 8, 4, e);
    var u2y :- UnsignedAt(data, p + 12, 4, e);
    Ok(FloatWords(u1x, u1y, u2x, u2y))
  }

  /** The older-layout glyph records, as a decoder of the record at an offset. */
  function LegacyDecoder(data: seq<Byte>, e: Endian): nat -> Result<Glyph>
  {
    (p: nat) => LegacyGlyphAt(data, p, e)
  }

  /** A loop reading records of `size` bytes from `base` on, record i decoded
      at base + size * i, from record i to record count - 1: the first record
      the decoder rejects aborts the loop, the others are appended in file
      order. */
  function ReadTable<T>(decode: nat -> Result<T>, base: nat, size: nat, count: nat, i: nat, acc: seq<T>)
    : (r: Result<seq<T>>)
    requires i <= count
    decreases count - i
    ensures r.Err? ==> exists j :: i <= j < count && decode(base + size * j) == Err(r.error)
  {
    if i == count then Ok(acc)
    else
      var x :- decode(base + size * i);
      ReadTable(decode, base, size, count, i + 1, acc + [x])
  }

  /** Number of codes a group covers (zero or less: none). */
  function CodeCount(g: CodeGroup): int
  {
    g.endCode - g.startCode + 1
  }

  /** Python list indexing: a negative index counts from the end. */
  function PyIndex<T>(s: seq<T>, k: int): (r: Result<T>)
    ensures r.Ok? <==> -|s| <= k < |s|
    ensures r.Ok? ==> r.value in s
    ensures r.Err? ==> r.error == IndexOutOfRange(k)
  {
    if 0 <= k < |s| then Ok(s[k])
    else if -|s| <= k < 0 then Ok(s[|s| + k])
    else Err(IndexOutOfRange(k))
  }

  /** The inner loop of the expansion: codes start+i.. of group g. */
  function ExpandGroup(g: CodeGroup, flat: seq<Glyph>, i: nat, acc: map<int, Glyph>): (r: Result<map<int, Glyph>>)
    decreases CodeCount(g) - i
    ensures r.Ok? ==> acc.Keys <= r.value.Keys
    ensures r.Err? ==> r.error.IndexOutOfRange?
  {
    if i >= CodeCount(g) then Ok(acc)
    else
      var glyph :- PyIndex(flat, g.glyphIndex + i);
      ExpandGroup(g, flat, i + 1, acc[g.startCode + i := glyph])
  }

  /** The outer loop of the expansion: groups k.., a later group overwriting
      an earlier one on the codes they share. */
  function ExpandGroups(groups: seq<CodeGroup>, flat: seq<Glyph>, k: nat, acc: map<int, Glyph>)
    : (r: Result<map<int, Glyph>>)
    requires k <= |groups|
    decreases |groups| - k
    ensures r.Ok? ==> acc.Keys <= r.value.Keys
    ensures r.Err? ==> r.error.IndexOutOfRange?
  {
    if k == |groups| then Ok(acc)
    else
      var acc' :- ExpandGroup(groups[k], flat, 0, acc);
      ExpandGroups(groups, flat, k + 1, acc')
  }

  /** The expansion in the middle of group k, at code i of that group. */
  function ExpandFrom(groups: seq<CodeGroup>, flat: seq<Glyph>, k: nat, i: nat, acc: map<int, Glyph>)
    : Result<map<int, Glyph>>
    requires k < |groups|
  {
    var acc' :- ExpandGroup(groups[k], flat, i, acc);
    ExpandGroups(groups, flat, k + 1, acc')
  }

  /** The body of a DemonsSouls or DarkSouls1 file after header h: every code
      group, then every flat glyph record, then the expansion. */
  function DecodeLegacyBody(data: seq<Byte>, h: Header): (r: Result<map<int, Glyph>>)
    ensures r.Err? ==> r.error == Truncated || r.error.IndexOutOfRange?
  {
    var e := ByteOrder(h.version);
    var groupCount := Count(h.codeGroupCount);
    var groups :- ReadTable(GroupDecoder(data, e), HeaderSize, GroupSize, groupCount, 0, []);
    var flat :- ReadTable(LegacyDecoder(data, e), GroupOffset(groupCount), LegacyRecordSize,
                          Count(h.glyphCount), 0, []);
    ExpandGroups(groups, flat, 0, map[])
  }

  /** The glyph table of a file with header h, in the layout its version uses. */
  function DecodeContent(data: seq<Byte>, h: Header): Result<map<int, Glyph>>
  {
    if h.version == DemonsSouls || h.version == DarkSouls1 then DecodeLegacyBody(data, h)
    else DecodeBody(data, h)
  }

  /** The whole file as `CCM.read` decodes it. */
  function Decode(data: seq<Byte>): (r: Result<Document>)
    ensures r.Ok? ==>
              |data| >= HeaderSize && Tag(r.value.version) == Unsigned(data[..4], Little) &&
              (r.value.version == DarkSouls2 ==> r.value.unk0e == 0)
    ensures r.Err? ==> r.error != OutOfRange
  {
    var h :- DecodeHeader(data);
    var glyphs :- DecodeContent(data, h);
    Ok(Document(h.version, h.fullWidth, h.texWidth, h.texHeight, h.unk0e, h.unk1c, h.unk1d,
                h.texCount, glyphs))
  }

  /** A file whose header decodes is decoded by its body. */
  lemma DecodeAfterHeader(data: seq<Byte>, h: Header)
    requires DecodeHeader(data) == Ok(h)
    ensures DecodeContent(data, h).Err? ==> Decode(data) == Err(DecodeContent(data, h).error)
    ensures DecodeContent(data, h).Ok? ==>
              Decode(data) == Ok(Document(h.version, h.fullWidth, h.texWidth, h.texHeight, h.unk0e,
                                          h.unk1c, h.unk1d, h.texCount, DecodeContent(data, h).value))
  {
  }

  // ---------------------------------------------------------------------------
  // Properties of the two tables

  /** A table loop succeeds exactly when the data holds every record, given
      a decoder that accepts exactly the records that end within `limit`. */
  lemma {:induction false} ReadTableOk<T>(decode: nat -> Result<T>, base: nat, size: nat, count: nat,
                                          i: nat, acc: seq<T>, limit: int)
    requires i <= count
    requires forall p: nat :: decode(p).Ok? <==> p + size <= limit
    decreases count - i
    ensures ReadTable(decode, base, size, count, i, acc).Ok? <==>
              i == count || base + size * count <= limit
  {
    if i < count {
      MulMono(size, i + 1, count);
      var r := decode(base + size * i);
      if r.Ok? {
        ReadTableOk(decode, base, size, count, i + 1, acc + [r.value], limit);
      }
    }
  }

  /** A table loop appends record j as decoded at base + size * j. */
  lemma {:induction false} ReadTableContents<T>(decode: nat -> Result<T>, base: nat, size: nat,
                                                count: nat, i: nat, acc: seq<T>)
    requires i <= count
    requires ReadTable(decode, base, size, count, i, acc).Ok?
    decreases count - i
    ensures var s := ReadTable(decode, base, size, count, i, acc).value;
            |s| == |acc| + count - i && s[..|acc|] == acc &&
            forall j :: i <= j < count ==> decode(base + size * j) == Ok(s[|acc| + j - i])
  {
    if i < count {
      var acc' := acc + [decode(base + size * i).value];
      ReadTableContents(decode, base, size, count, i + 1, acc');
      var s := ReadTable(decode, base, size, count, i, acc).value;
      assert s[..|acc'|][..|acc|] == acc;
    }
  }

  /** A code group decodes exactly when its 12 bytes are in the file. */
  lemma GroupDecoderOk(data: seq<Byte>, e: Endian)
    ensures forall p: nat :: GroupDecoder(data, e)(p).Ok? <==> p + GroupSize <= |data|
  {
    forall p: nat ensures GroupDecoder(data, e)(p).Ok? <==> p + GroupSize <= |data| {
      assert GroupDecoder(data, e)(p) == GroupAt(data, p, e);
    }
  }

  /** An older-layout record decodes exactly when its 24 bytes are in the file. */
  lemma LegacyDecoderOk(data: seq<Byte>, e: Endian)
    ensures forall p: nat :: LegacyDecoder(data, e)(p).Ok? <==> p + LegacyRecordSize <= |data|
  {
    forall p: nat ensures LegacyDecoder(data, e)(p).Ok? <==> p + LegacyRecordSize <= |data| {
      assert LegacyDecoder(data, e)(p) == LegacyGlyphAt(data, p, e);
    }
  }

  /** The code-group loop succeeds exactly when the file holds the whole table. */
  lemma GroupTableOk(data: seq<Byte>, e: Endian, count: nat)
    ensures ReadTable(GroupDecoder(data, e), HeaderSize, GroupSize, count, 0, []).Ok? <==>
              count == 0 || GroupOffset(count) <= |data|
  {
    GroupDecoderOk(data, e);
    ReadTableOk(GroupDecoder(data, e), HeaderSize, GroupSize, count, 0, [], |data|);
  }

  /** The code-group loop yields group j as stored at offset 32 + 12 * j. */
  lemma GroupTableContents(data: seq<Byte>, e: Endian, count: nat)
    requires ReadTable(GroupDecoder(data, e), HeaderSize, GroupSize, count, 0, []).Ok?
    ensures var groups := ReadTable(GroupDecoder(data, e), HeaderSize, GroupSize, count, 0, []).value;
            |groups| == count &&
            forall j :: 0 <= j < count ==> GroupAt(data, GroupOffset(j), e) == Ok(groups[j])
  {
    ReadTableContents(GroupDecoder(data, e), HeaderSize, GroupSize, count, 0, []);
  }

  /** The flat loop succeeds exactly when the file holds every record. */
  lemma FlatTableOk(data: seq<Byte>, e: Endian, base: nat, count: nat)
    ensures ReadTable(LegacyDecoder(data, e), base, LegacyRecordSize, count, 0, []).Ok? <==>
              count == 0 || base + LegacyRecordSize * count <= |data|
  {
    LegacyDecoderOk(data, e);
    ReadTableOk(LegacyDecoder(data, e), base, LegacyRecordSize, count, 0, [], |data|);
  }

  /** The flat loop yields record j as stored at base + 24 * j. */
  lemma FlatTableContents(data: seq<Byte>, e: Endian, base: nat, count: nat)
    requires ReadTable(LegacyDecoder(data, e), base, LegacyRecordSize, count, 0, []).Ok?
    ensures var flat := ReadTable(LegacyDecoder(data, e), base, LegacyRecordSize, count, 0, []).value;
            |flat| == count &&
            forall j :: 0 <= j < count ==> LegacyGlyphAt(data, base + LegacyRecordSize * j, e) == Ok(flat[j])
  {
    ReadTableContents(LegacyDecoder(data, e), base, LegacyRecordSize, count, 0, []);
  }

  /** Every flat record carries raw float words. */
  lemma FlatTableFloatWords(data: seq<Byte>, e: Endian, base: nat, count: nat)
    requires ReadTable(LegacyDecoder(data, e), base, LegacyRecordSize, count, 0, []).Ok?
    ensures forall g :: g in ReadTable(LegacyDecoder(data, e), base, LegacyRecordSize, count, 0, []).value ==>
              g.uv.FloatWords?
  {
    var flat := ReadTable(LegacyDecoder(data, e), base, LegacyRecordSize, count, 0, []).value;
    FlatTableContents(data, e, base, count);
    forall g: Glyph | g in flat ensures g.uv.FloatWords? {
      var j :| 0 <= j < count && flat[j] == g;
      assert LegacyGlyphAt(data, base + LegacyRecordSize * j, e) == Ok(g);
    }
  }

  // ---------------------------------------------------------------------------
  // Properties of the group expansion

  /** Whether group g covers code c. */
  predicate Covers(g: CodeGroup, c: int)
  {
    g.startCode <= c && c - g.startCode < CodeCount(g)
  }

  /** From code i on, a group succeeds exactly when its remaining indices
      glyph_index + i .. glyph_index + count - 1 all fall inside the flat list
      (Python indexing, negative indices counting from the end); it then maps
      code start + j to record glyph_index + j and keeps every other code. */
  lemma {:induction false} ExpandGroupSpec(g: CodeGroup, flat: seq<Glyph>, i: nat, acc: map<int, Glyph>)
    decreases CodeCount(g) - i
    ensures ExpandGroup(g, flat, i, acc).Ok? <==>
              i >= CodeCount(g) ||
              (-|flat| <= g.glyphIndex + i && g.glyphIndex + CodeCount(g) - 1 < |flat|)
    ensures ExpandGroup(g, flat, i, acc).Err? ==>
              ExpandGroup(g, flat, i, acc).error.IndexOutOfRange?
    ensures ExpandGroup(g, flat, i, acc).Ok? ==>
              var m := ExpandGroup(g, flat, i, acc).value;
              (forall c :: c in m <==> c in acc || (Covers(g, c) && c - g.startCode >= i)) &&
              (forall c :: Covers(g, c) && c - g.startCode >= i ==>
                 PyIndex(flat, g.glyphIndex + (c - g.startCode)) == Ok(m[c])) &&
              (forall c :: c in acc && !(Covers(g, c) && c - g.startCode >= i) ==> m[c] == acc[c]) &&
              (forall c :: c in m ==> (c in acc && m[c] == acc[c]) || m[c] in flat)
  {
    if i < CodeCount(g) {
      var r := PyIndex(flat, g.glyphIndex + i);
      if r.Ok? {
        ExpandGroupSpec(g, flat, i + 1, acc[g.startCode + i := r.value]);
      }
    }
  }

  /** Groups k.. leave a code that none of them covers as it was. */
  lemma {:induction false} ExpandGroupsKeeps(groups: seq<CodeGroup>, flat: seq<Glyph>, k: nat,
                                             acc: map<int, Glyph>, c: int)
    requires k <= |groups|
    requires forall l :: k <= l < |groups| ==> !Covers(groups[l], c)
    requires ExpandGroups(groups, flat, k, acc).Ok?
    decreases |groups| - k
    ensures c in ExpandGroups(groups, flat, k, acc).value <==> c in acc
    ensures c in acc ==> ExpandGroups(groups, flat, k, acc).value[c] == acc[c]
  {
    if k < |groups| {
      ExpandGroupSpec(groups[k], flat, 0, acc);
      var acc' := ExpandGroup(groups[k], flat, 0, acc).value;
      ExpandGroupsKeeps(groups, flat, k + 1, acc', c);
    }
  }

  /** A code covered by several groups takes its glyph from the last of them. */
  lemma {:induction false} ExpandGroupsLastWins(groups: seq<CodeGroup>, flat: seq<Glyph>, k: nat,
                                                acc: map<int, Glyph>, l: nat, c: int)
    requires k <= l < |groups|
    requires Covers(groups[l], c)
    requires forall l' :: l < l' < |groups| ==> !Covers(groups[l'], c)
    requires ExpandGroups(groups, flat, k, acc).Ok?
    decreases |groups| - k
    ensures c in ExpandGroups(groups, flat, k, acc).value
    ensures PyIndex(flat, groups[l].glyphIndex + (c - groups[l].startCode))
         == Ok(ExpandGroups(groups, flat, k, acc).value[c])
  {
    ExpandGroupSpec(groups[k], flat, 0, acc);
    var acc' := ExpandGroup(groups[k], flat, 0, acc).value;
    if l == k {
      ExpandGroupsKeeps(groups, flat, k + 1, acc', c);
    } else {
      ExpandGroupsLastWins(groups, flat, k + 1, acc', l, c);
    }
  }

  /** Every glyph of the expansion is one of the flat records or was there before. */
  lemma {:induction false} ExpandGroupsFromFlat(groups: seq<CodeGroup>, flat: seq<Glyph>, k: nat,
                                                acc: map<int, Glyph>)
    requires k <= |groups|
    requires ExpandGroups(groups, flat, k, acc).Ok?
    decreases |groups| - k
    ensures var m := ExpandGroups(groups, flat, k, acc).value;
            forall c :: c in m ==> (c in acc && m[c] == acc[c]) || m[c] in flat
  {
    if k < |groups| {
      ExpandGroupSpec(groups[k], flat, 0, acc);
      var acc' := ExpandGroup(groups[k], flat, 0, acc).value;
      ExpandGroupsFromFlat(groups, flat, k + 1, acc');
    }
  }

  /** Start 10, end 12, glyph index 5: exactly codes 10, 11 and 12, mapped to
      flat records 5, 6 and 7. */
  lemma GroupExpansionExample(flat: seq<Glyph>)
    requires |flat| == 8
    ensures ExpandGroups([CodeGroup(10, 12, 5)], flat, 0, map[])
         == Ok(map[10 := flat[5], 11 := flat[6], 12 := flat[7]])
  {
    var g := CodeGroup(10, 12, 5);
    ExpandGroupSpec(g, flat, 0, map[]);
    var m := ExpandGroup(g, flat, 0, map[]).value;
    assert m.Keys == {10, 11, 12} by {
      forall c ensures c in m <==> c in {10, 11, 12} {
        assert Covers(g, c) <==> 10 <= c <= 12;
      }
    }
    assert m == map[10 := flat[5], 11 := flat[6], 12 := flat[7]];
  }

  /** Every glyph of an older-layout body is a flat record, so it carries
      raw float words. */
  lemma LegacyBodyHasFloatWords(data: seq<Byte>, h: Header)
    requires DecodeLegacyBody(data, h).Ok?
    ensures forall c :: c in DecodeLegacyBody(data, h).value ==>
              DecodeLegacyBody(data, h).value[c].uv.FloatWords?
  {
    var e := ByteOrder(h.version);
    var groupCount := Count(h.codeGroupCount);
    var base := GroupOffset(groupCount);
    var groups := ReadTable(GroupDecoder(data, e), HeaderSize, GroupSize, groupCount, 0, []).value;
    var flat := ReadTable(LegacyDecoder(data, e), base, LegacyRecordSize, Count(h.glyphCount), 0, []).value;
    FlatTableFloatWords(data, e, base, Count(h.glyphCount));
    ExpandGroupsFromFlat(groups, flat, 0, map[]);
  }

  /** The body decoded is the one the version calls for: older versions give
      glyphs with raw float words, DarkSouls2 gives glyphs with rectangles. */
  lemma DecodedLayoutFollowsVersion(data: seq<Byte>)
    requires Decode(data).Ok?
    ensures var doc := Decode(data).value;
            forall c :: c in doc.glyphs ==>
              (doc.glyphs[c].uv.FloatWords? <==> doc.version != DarkSouls2)
  {
    var h := DecodeHeader(data).value;
    if h.version == DarkSouls2 {
      DecodedBodyBounded(data, h);
    } else {
      LegacyBodyHasFloatWords(data, h);
    }
  }

  // ---------------------------------------------------------------------------
  // The CCM object of the reader

  /** One code group, read field by field at the cursor. */
  method ReadGroup(f: InStream, e: Endian) returns (r: Result<CodeGroup>)
    requires f.Valid()
    modifies f
    ensures f.Valid()
    ensures r == GroupAt(f.data, old(f.pos), e)
    ensures r.Ok? ==> f.pos == old(f.pos) + GroupSize
  {
    var startCode :- f.ReadSigned(4, e);
    var endCode :- f.ReadSigned(4, e);
    var glyphIndex :- f.ReadSigned(4, e);
    r := Ok(CodeGroup(startCode, endCode, glyphIndex));
  }

  /** One older-layout glyph record, read field by field at the cursor. */
  method ReadLegacyGlyph(f: InStream, e: Endian) returns (r: Result<Glyph>)
    requires f.Valid()
    modifies f
    ensures f.Valid()
    ensures r == LegacyGlyphAt(f.data, old(f.pos), e)
    ensures r.Ok? ==> f.pos == old(f.pos) + LegacyRecordSize
  {
    var uv :- ReadFloatWords(f, e);
    var metrics :- ReadShorts(f, e);
    r := Ok(Glyph(uv, metrics.0, metrics.1, metrics.2, metrics.3));
  }

  /** Four 32-bit float words, read at the cursor. */
  method ReadFloatWords(f: InStream, e: Endian) returns (r: Result<Uv>)
    requires f.Valid()
    modifies f
    ensures f.Valid()
    ensures r == FloatWordsAt(f.data, old(f.pos), e)
    ensures r.Ok? ==> f.pos == old(f.pos) + 16
  {
    var u1x :- f.ReadUnsigned(4, e);
    var u1y :- f.ReadUnsigned(4, e);
    var u2x :- f.ReadUnsigned(4, e);
    var u2y :- f.ReadUnsigned(4, e);
    r := Ok(FloatWords(u1x, u1y, u2x, u2y));
  }

  /** The code-group loop, starting at base. */
  method ReadGroups(f: InStream, e: Endian, base: nat, count: nat) returns (r: Result<seq<CodeGroup>>)
    requires f.Valid() && f.pos == base
    modifies f
    ensures f.Valid()
    ensures r == ReadTable(GroupDecoder(f.data, e), base, GroupSize, count, 0, [])
    ensures r.Ok? ==> f.pos == base + GroupSize * count
  {
    var groups: seq<CodeGroup> := [];
    var k := 0;
    while k < count
      invariant f.Valid() && k <= count
      invariant f.pos == base + GroupSize * k
      invariant ReadTable(GroupDecoder(f.data, e), base, GroupSize, count, k, groups)
             == ReadTable(GroupDecoder(f.data, e), base, GroupSize, count, 0, [])
    {
      var group := ReadGroup(f, e);
      if group.Err? {
        return Err(group.error);
      }
      groups := groups + [group.value];
      k := k + 1;
    }
    r := Ok(groups);
  }

  /** The flat glyph loop, starting at base. */
  method ReadLegacyGlyphs(f: InStream, e: Endian, base: nat, count: nat) returns (r: Result<seq<Glyph>>)
    requires f.Valid() && f.pos == base
    modifies f
    ensures f.Valid()
    ensures r == ReadTable(LegacyDecoder(f.data, e), base, LegacyRecordSize, count, 0, [])
  {
    var flat: seq<Glyph> := [];
    var n := 0;
    while n < count
      invariant f.Valid() && n <= count
      invariant f.pos == base + LegacyRecordSize * n
      invariant ReadTable(LegacyDecoder(f.data, e), base, LegacyRecordSize, count, n, flat)
             == ReadTable(LegacyDecoder(f.data, e), base, LegacyRecordSize, count, 0, [])
    {
      var glyph := ReadLegacyGlyph(f, e);
      if glyph.Err? {
        return Err(glyph.error);
      }
      flat := flat + [glyph.value];
      n := n + 1;
    }
    r := Ok(flat);
  }

  class CCM {
    var version: Version
    var fullWidth: int
    var texWidth: int
    var texHeight: int
    var unk0e: int
    var unk1c: int
    var unk1d: int
    var texCount: int
    var glyphs: map<int, Glyph>

    /** The document this object holds. */
    function Doc(): Document
      reads this
    {
      Document(version, fullWidth, texWidth, texHeight, unk0e, unk1c, unk1d, texCount, glyphs)
    }

    constructor ()
      ensures Doc() == Document(DemonsSouls, 0, 0, 0, 0, 0, 0, 0, map[])
    {
      version := DemonsSouls;
      fullWidth, texWidth, texHeight := 0, 0, 0;
      unk0e, unk1c, unk1d, texCount := 0, 0, 0, 0;
      glyphs := map[];
    }

    /** The expansion loops of `CCM.read`, writing straight into the glyph
        table: group by group, code by code. */
    method Expand(groups: seq<CodeGroup>, flat: seq<Glyph>) returns (outcome: Check)
      modifies this`glyphs
      ensures ExpandGroups(groups, flat, 0, old(glyphs)).Ok? ==>
                outcome == Pass && glyphs == ExpandGroups(groups, flat, 0, old(glyphs)).value
      ensures ExpandGroups(groups, flat, 0, old(glyphs)).Err? ==>
                outcome == Fail(ExpandGroups(groups, flat, 0, old(glyphs)).error)
    {
      ghost var spec := ExpandGroups(groups, flat, 0, glyphs);
      var k := 0;
      while k < |groups|
        invariant k <= |groups|
        invariant ExpandGroups(groups, flat, k, glyphs) == spec
      {
        var group := groups[k];
        var codeCount := group.endCode - group.startCode + 1;
        var i := 0;
        while i < codeCount
          invariant ExpandFrom(groups, flat, k, i, glyphs) == spec
            decreases codeCount - i
        {
          var glyph := PyIndex(flat, group.glyphIndex + i);
          if glyph.Err? {
            return Fail(glyph.error);
          }
          glyphs := glyphs[group.startCode + i := glyph.value];
          i := i + 1;
        }
        k := k + 1;
      }
      outcome := Pass;
    }

    /** The body part of `CCM.read` for the older layouts: the code groups,
        the flat records, then the expansion into the glyph table. */
    method ReadLegacyContent(f: InStream, h: Header) returns (outcome: Check)
      requires f.Valid() && f.pos == HeaderSize && glyphs == map[]
      modifies this`glyphs, f
      ensures DecodeLegacyBody(f.data, h).Ok? ==>
                outcome == Pass && glyphs == DecodeLegacyBody(f.data, h).value
      ensures DecodeLegacyBody(f.data, h).Err? ==> outcome == Fail(DecodeLegacyBody(f.data, h).error)
    {
      var e := ByteOrder(h.version);
      var groupCount := Count(h.codeGroupCount);
      var groups := ReadGroups(f, e, HeaderSize, groupCount);
      if groups.Err? {
        return Fail(groups.error);
      }
      var flat := ReadLegacyGlyphs(f, e, GroupOffset(groupCount), Count(h.glyphCount));
      if flat.Err? {
        return Fail(flat.error);
      }
      outcome := Expand(groups.value, flat.value);
    }

    /** The body part of `CCM.read`, after the header fields are assigned. */
    method ReadContent(f: InStream, h: Header) returns (outcome: Check)
      requires f.Valid() && f.pos == HeaderSize && glyphs == map[]
      modifies this`glyphs, f
      ensures DecodeContent(f.data, h).Ok? ==> outcome == Pass && glyphs == DecodeContent(f.data, h).value
      ensures DecodeContent(f.data, h).Err? ==> outcome == Fail(DecodeContent(f.data, h).error)
    {
      if h.version == DemonsSouls || h.version == DarkSouls1 {
        outcome := ReadLegacyContent(f, h);
      } else {
        var body := ReadBody(f, h);
        if body.Err? {
          return Fail(body.error);
        }
        glyphs := body.value;
        outcome := Pass;
      }
    }

    /** `CCM.read` once the header h is read: its fields are assigned, then
        the body fills the glyph table. */
    method Load(f: InStream, h: Header) returns (outcome: Check)
      requires f.Valid() && f.pos == HeaderSize
      modifies this, f
      ensures DecodeContent(f.data, h).Ok? ==>
                outcome == Pass &&
                Doc() == Document(h.version, h.fullWidth, h.texWidth, h.texHeight, h.unk0e, h.unk1c,
                                  h.unk1d, h.texCount, DecodeContent(f.data, h).value)
      ensures DecodeContent(f.data, h).Err? ==> outcome == Fail(DecodeContent(f.data, h).error)
    {
      version, fullWidth, texWidth, texHeight := h.version, h.fullWidth, h.texWidth, h.texHeight;
      unk0e, unk1c, unk1d, texCount := h.unk0e, h.unk1c, h.unk1d, h.texCount;
      glyphs := map[];
      outcome := ReadContent(f, h);
    }

    /** `CCM.read`: on success the object holds the decoded document; on a
        failure the error is the one the first bad field raises (the fields
        assigned before it keep their new values). */
    method Read(data: seq<Byte>) returns (outcome: Check)
      modifies this
      ensures Decode(data).Ok? ==> outcome == Pass && Doc() == Decode(data).value
      ensures Decode(data).Err? ==> outcome == Fail(Decode(data).error)
    {
      var f := new InStream(data);
      var header := ReadHeader(f);
      if header.Err? {
        return Fail(header.error);
      }
      DecodeAfterHeader(data, header.value);
      outcome := Load(f, header.value);
    }
  }
}
