/** The file `CCM.write` of Convert-txt-to-ccm.py produces, as a value: always
    the little-endian DarkSouls2 layout. The 32-byte header comes first,
    then one region-table entry per glyph and then one 24-byte record per
    glyph, both in ascending code order. Each record names the offset of the
    last table entry that holds an equal rectangle. */
module Ds2Image {
  import opened Wire
  import opened CcmFormat
  import opened Ds2Body

  // ---------------------------------------------------------------------------
  // `sorted(glyphs.keys())`

  /** The smallest code of a non-empty set. */
  function Least(s: set<int>): (m: int)
    requires s != {}
    ensures m in s && forall c :: c in s ==> m <= c
  {
    LeastExists(s);
    var m :| m in s && forall c :: c in s ==> m <= c;
    m
  }

  lemma {:induction false} LeastExists(s: set<int>)
    requires s != {}
    decreases s
    ensures exists m :: m in s && forall c :: c in s ==> m <= c
  {
    EmptyOrMember(s);
    var x :| x in s;
    var rest := s - {x};
    if rest == {} {
      forall c | c in s ensures x <= c {
        assert c !in rest;
      }
    } else {
      LeastExists(rest);
      var m :| m in rest && forall c :: c in rest ==> m <= c;
      var least := if x < m then x else m;
      forall c | c in s ensures least <= c {
        if c != x {
          assert c in rest;
        }
      }
      assert least in s;
    }
  }

  lemma EmptyOrMember(s: set<int>)
    ensures s == {} || exists x :: x in s
  {
    if forall x :: x !in s {
      assert s == {};
    }
  }

  /** The codes of s in strictly ascending order, each once. */
  function SortedCodes(s: set<int>): (r: seq<int>)
    decreases |s|
    ensures |r| == |s|
    ensures forall c :: c in r <==> c in s
    ensures forall i, j :: 0 <= i < j < |r| ==> r[i] < r[j]
  {
    if s == {} then []
    else
      var m := Least(s);
      [m] + SortedCodes(s - {m})
  }

  // ---------------------------------------------------------------------------
  // The region table and `tex_region_offsets`

  /** The rectangle of each glyph in code order. A glyph's coordinates are its
      rectangle divided by the texture size, so `round(uv * size)` gives the
      rectangle back. */
  function RegionList(glyphs: map<int, Glyph>, codes: seq<int>): (rs: seq<TexRegion>)
    requires forall i :: 0 <= i < |codes| ==> codes[i] in glyphs && glyphs[codes[i]].uv.Scaled?
    ensures |rs| == |codes|
  {
    seq(|codes|, i requires 0 <= i < |codes| => glyphs[codes[i]].uv.region)
  }

  /** The position of the last occurrence of r in rs. */
  function LastIndex(rs: seq<TexRegion>, r: TexRegion): (j: nat)
    requires r in rs
    ensures j < |rs| && rs[j] == r
    ensures forall k :: j < k < |rs| ==> rs[k] != r
  {
    if rs[|rs| - 1] == r then |rs| - 1 else LastIndex(rs[..|rs| - 1], r)
  }

  /** `tex_region_offsets` after entries rs were written from offset 32 on:
      each rectangle maps to the offset its entry was written at, a later
      equal rectangle replacing an earlier one. */
  function OffsetTable(rs: seq<TexRegion>): (t: map<TexRegion, int>)
    ensures forall r :: r in t ==> IsRegionKey(t[r], 0, |rs|)
  {
    if rs == [] then map[]
    else OffsetTable(rs[..|rs| - 1])[rs[|rs| - 1] := RegionOffset(|rs| - 1)]
  }

  /** The offset table holds exactly the rectangles written, each under the
      offset of its last entry. */
  lemma {:induction false} OffsetTableLast(rs: seq<TexRegion>)
    ensures forall r :: r in OffsetTable(rs) <==> r in rs
    ensures forall r :: r in rs ==> OffsetTable(rs)[r] == RegionOffset(LastIndex(rs, r))
  {
    if rs != [] {
      var init := rs[..|rs| - 1];
      OffsetTableLast(init);
      forall r ensures r in OffsetTable(rs) <==> r in rs {
        if r in init {
          var j :| 0 <= j < |init| && init[j] == r;
          assert rs[j] == r;
        }
        if r in rs && r != rs[|rs| - 1] {
          var j :| 0 <= j < |rs| && rs[j] == r;
          assert init[j] == r;
        }
      }
      forall r | r in rs ensures OffsetTable(rs)[r] == RegionOffset(LastIndex(rs, r)) {
        if r != rs[|rs| - 1] {
          var j :| 0 <= j < |rs| && rs[j] == r;
          assert init[j] == r;
        }
      }
    }
  }

  // ---------------------------------------------------------------------------
  // What `struct.pack` accepts

  predicate RegionFits(r: TexRegion)
  {
    FitsSigned(r.x1, 2) && FitsSigned(r.y1, 2) && FitsSigned(r.x2, 2) && FitsSigned(r.y2, 2)
  }

  /** tex_index, pre_space, width and advance fit their signed 16-bit fields. */
  predicate MetricsFit(g: Glyph)
  {
    FitsSigned(g.texIndex, 2) && FitsSigned(g.preSpace, 2) && FitsSigned(g.width, 2) && FitsSigned(g.advance, 2)
  }

  /** The widths and the glyph count fit their signed 16-bit fields; the
      glyph count is written twice. */
  predicate SizesFit(doc: Document)
  {
    FitsSigned(doc.fullWidth, 2) && FitsSigned(doc.texWidth, 2) && FitsSigned(doc.texHeight, 2) &&
    FitsSigned(|doc.glyphs|, 2)
  }

  /** unk1c, unk1d and the texture count fit their unsigned bytes. */
  predicate TailFits(doc: Document)
  {
    FitsUnsigned(doc.unk1c, 1) && FitsUnsigned(doc.unk1d, 1) && FitsUnsigned(doc.texCount, 1)
  }

  /** Every value the header takes from the document fits its field. */
  predicate HeaderFits(doc: Document)
  {
    SizesFit(doc) && TailFits(doc)
  }

  /** Glyphs that `write` can handle: each has a rectangle. */
  predicate Writable(doc: Document)
  {
    forall c :: c in doc.glyphs ==> doc.glyphs[c].uv.Scaled?
  }

  /** Whether `write` packs every field without a range error. */
  predicate Encodable(doc: Document)
    requires Writable(doc)
  {
    HeaderFits(doc) &&
    forall c :: c in doc.glyphs ==>
      FitsSigned(c, 4) && MetricsFit(doc.glyphs[c]) && RegionFits(doc.glyphs[c].uv.region)
  }

  /** A document `write` accepts and whose file reads back: every glyph
      holds a pixel rectangle, and the texture has a size whenever there are
      glyphs, since reading divides by it. */
  predicate WellFormed(doc: Document)
  {
    Writable(doc) && (|doc.glyphs| > 0 ==> doc.texWidth != 0 && doc.texHeight != 0)
  }

  /** Offsets inside a file of fewer than 0x8000 glyphs fit a signed 32-bit field. */
  lemma OffsetFits(n: nat, j: nat)
    requires n < 0x8000 && j <= n
    ensures FitsSigned(RegionOffset(j), 4) && FitsSigned(RegionOffset(n) + RecordSize * n, 4)
  {
    PowValues();
  }

  // ---------------------------------------------------------------------------
  // The bytes of each part

  /** Bytes 0..7: the version tag and the file size. */
  function LeadBytes(v: Version, fileSize: int): (r: seq<Byte>)
    requires FitsSigned(fileSize, 4)
    ensures |r| == 8
  {
    PowValues();
    EncodeUnsigned(Tag(v), 4, Little) + EncodeSigned(fileSize, 4, Little)
  }

  /** Bytes 8..19: full width, texture width and height, the glyph count as
      region count and as glyph count, and a reserved zero. */
  function SizeBytes(doc: Document): (r: seq<Byte>)
    requires SizesFit(doc)
    ensures |r| == 12
  {
    var n := |doc.glyphs|;
    EncodeSigned(doc.fullWidth, 2, Little) + EncodeSigned(doc.texWidth, 2, Little) +
    EncodeSigned(doc.texHeight, 2, Little) + EncodeSigned(n, 2, Little) + EncodeSigned(n, 2, Little) +
    EncodeSigned(0, 2, Little)
  }

  /** Bytes 20..27: the constant 0x20 and the glyph table offset. */
  function OffsetBytes(glyphOffset: int): (r: seq<Byte>)
    requires FitsSigned(glyphOffset, 4)
    ensures |r| == 8
  {
    EncodeSigned(HeaderSize, 4, Little) + EncodeSigned(glyphOffset, 4, Little)
  }

  /** Bytes 28..31: unk1c, unk1d, the texture count and a zero byte. */
  function TailBytes(doc: Document): (r: seq<Byte>)
    requires TailFits(doc)
    ensures |r| == 4
  {
    EncodeUnsigned(doc.unk1c, 1, Little) + EncodeUnsigned(doc.unk1d, 1, Little) +
    EncodeUnsigned(doc.texCount, 1, Little) + EncodeUnsigned(0, 1, Little)
  }

  function HeaderBytes(doc: Document, fileSize: int, glyphOffset: int): (r: seq<Byte>)
    requires HeaderFits(doc) && FitsSigned(fileSize, 4) && FitsSigned(glyphOffset, 4)
    ensures |r| == HeaderSize
  {
    LeadBytes(doc.version, fileSize) + SizeBytes(doc) + OffsetBytes(glyphOffset) + TailBytes(doc)
  }

  /** A region-table entry: x1, y1, x2, y2. */
  function RegionBytes(r: TexRegion): (b: seq<Byte>)
    requires RegionFits(r)
    ensures |b| == RegionSize
  {
    EncodeSigned(r.x1, 2, Little) + EncodeSigned(r.y1, 2, Little) +
    EncodeSigned(r.x2, 2, Little) + EncodeSigned(r.y2, 2, Little)
  }

  /** The four 16-bit fields of a glyph record: tex_index, pre_space, width, advance. */
  function MetricBytes(g: Glyph): (b: seq<Byte>)
    requires MetricsFit(g)
    ensures |b| == 8
  {
    EncodeSigned(g.texIndex, 2, Little) + EncodeSigned(g.preSpace, 2, Little) +
    EncodeSigned(g.width, 2, Little) + EncodeSigned(g.advance, 2, Little)
  }

  /** A glyph record: code, region offset, the four 16-bit fields, two zero words. */
  function RecordBytes(code: int, offset: int, g: Glyph): (b: seq<Byte>)
    requires FitsSigned(code, 4) && FitsSigned(offset, 4) && MetricsFit(g)
    ensures |b| == RecordSize
  {
    EncodeSigned(code, 4, Little) + EncodeSigned(offset, 4, Little) + MetricBytes(g) +
    (EncodeSigned(0, 4, Little) + EncodeSigned(0, 4, Little))
  }

  function RegionChunks(rs: seq<TexRegion>): (chunks: seq<seq<Byte>>)
    requires forall i :: 0 <= i < |rs| ==> RegionFits(rs[i])
    ensures |chunks| == |rs|
  {
    seq(|rs|, i requires 0 <= i < |rs| => RegionBytes(rs[i]))
  }

  /** Whether the glyph records of codes can be written with the regions rs. */
  predicate RecordsFit(glyphs: map<int, Glyph>, codes: seq<int>, rs: seq<TexRegion>)
  {
    |codes| <= |rs| < 0x8000 &&
    forall i :: 0 <= i < |codes| ==>
      codes[i] in glyphs && FitsSigned(codes[i], 4) && MetricsFit(glyphs[codes[i]])
  }

  /** Record i names the offset of the last entry equal to rs[i]. */
  function RecordChunks(glyphs: map<int, Glyph>, codes: seq<int>, rs: seq<TexRegion>): (chunks: seq<seq<Byte>>)
    requires RecordsFit(glyphs, codes, rs)
    ensures |chunks| == |codes|
  {
    seq(|codes|, i requires 0 <= i < |codes| =>
      OffsetFits(|rs|, LastIndex(rs, rs[i]));
      RecordBytes(codes[i], RegionOffset(LastIndex(rs, rs[i])), glyphs[codes[i]]))
  }

  // ---------------------------------------------------------------------------
  // The whole file

  /** Length of the file for n glyphs. */
  function FileSize(n: nat): nat
  {
    RegionOffset(n) + RecordSize * n
  }

  /** The parts of a file: a header whose fields fit, n codes, and the n
      rectangles and records of those codes. */
  predicate Parts(doc: Document, codes: seq<int>, rs: seq<TexRegion>)
  {
    HeaderFits(doc) && |codes| == |doc.glyphs| == |rs| && RecordsFit(doc.glyphs, codes, rs) &&
    forall i :: 0 <= i < |rs| ==> RegionFits(rs[i])
  }

  /** The file for the codes in the order given, with their rectangles rs:
      the header with the final file size and glyph table offset, the region
      table, then the glyph records. */
  function Layout(doc: Document, codes: seq<int>, rs: seq<TexRegion>): (r: seq<Byte>)
    requires Parts(doc, codes, rs)
    ensures |r| == FileSize(|codes|)
  {
    var n := |codes|;
    OffsetFits(n, n);
    FlattenLength(RegionChunks(rs), RegionSize);
    FlattenLength(RecordChunks(doc.glyphs, codes, rs), RecordSize);
    HeaderBytes(doc, FileSize(n), RegionOffset(n)) + Flatten(RegionChunks(rs)) +
    Flatten(RecordChunks(doc.glyphs, codes, rs))
  }

  /** Every field of an encodable document fits, so its sorted codes and their
      rectangles make the parts of a file. */
  lemma EncodableParts(doc: Document)
    requires Writable(doc) && Encodable(doc)
    ensures var codes := SortedCodes(doc.glyphs.Keys);
            Parts(doc, codes, RegionList(doc.glyphs, codes))
  {
    PowValues();
  }

  /** The sorted codes of a glyph table are distinct and cover it, and each
      names a glyph with a pixel rectangle, which the region list holds. */
  lemma SortedCodesFacts(glyphs: map<int, Glyph>)
    requires forall c :: c in glyphs ==> glyphs[c].uv.Scaled?
    ensures var codes := SortedCodes(glyphs.Keys);
            (forall c :: c in codes <==> c in glyphs) &&
            (forall i, j :: 0 <= i < j < |codes| ==> codes[i] != codes[j]) &&
            forall j :: 0 <= j < |codes| ==>
              glyphs[codes[j]].uv.Scaled? && RegionList(glyphs, codes)[j] == glyphs[codes[j]].uv.region
  {
  }

  /** The file `write` produces for doc: its codes in ascending order. */
  function Image(doc: Document): seq<Byte>
    requires Writable(doc) && Encodable(doc)
  {
    EncodableParts(doc);
    var codes := SortedCodes(doc.glyphs.Keys);
    Layout(doc, codes, RegionList(doc.glyphs, codes))
  }

  /** `CCM.write`: the file, or a range error when some field does not fit. */
  function Encode(doc: Document): (r: Result<seq<Byte>>)
    requires Writable(doc)
    ensures r.Ok? ==> |r.value| == FileSize(|doc.glyphs|)
    ensures r.Err? ==> r.error == OutOfRange
  {
    if Encodable(doc) then Ok(Image(doc)) else Err(OutOfRange)
  }

  // ---------------------------------------------------------------------------
  // Where each part lies

  /** The file is 32 + 32 * n bytes long for n glyphs and starts with the
      header carrying that size and the glyph table offset 32 + 8 * n. */
  lemma LayoutHeader(doc: Document, codes: seq<int>, rs: seq<TexRegion>)
    requires Parts(doc, codes, rs)
    ensures var n := |codes|;
            FitsSigned(FileSize(n), 4) && FitsSigned(RegionOffset(n), 4) &&
            |Layout(doc, codes, rs)| == FileSize(n) &&
            Layout(doc, codes, rs)[..HeaderSize] == HeaderBytes(doc, FileSize(n), RegionOffset(n))
  {
    OffsetFits(|codes|, |codes|);
    FlattenLength(RegionChunks(rs), RegionSize);
    FlattenLength(RecordChunks(doc.glyphs, codes, rs), RecordSize);
  }

  /** Region-table entry j lies at 32 + 8 * j and holds rectangle j. */
  lemma LayoutRegion(doc: Document, codes: seq<int>, rs: seq<TexRegion>, j: nat)
    requires Parts(doc, codes, rs)
    requires j < |codes|
    ensures RegionOffset(j) + RegionSize <= |Layout(doc, codes, rs)|
    ensures Layout(doc, codes, rs)[RegionOffset(j)..RegionOffset(j) + RegionSize] == RegionBytes(rs[j])
  {
    var n := |codes|;
    OffsetFits(n, n);
    ChunkAt(HeaderBytes(doc, FileSize(n), RegionOffset(n)), RegionChunks(rs),
            Flatten(RecordChunks(doc.glyphs, codes, rs)), RegionSize, j);
  }

  /** Glyph record j lies at 32 + 8 * n + 24 * j and holds code j, the offset
      of the last entry equal to rectangle j, and the fields of its glyph. */
  lemma LayoutRecord(doc: Document, codes: seq<int>, rs: seq<TexRegion>, j: nat)
    requires Parts(doc, codes, rs)
    requires j < |codes|
    ensures var p := RegionOffset(|codes|) + RecordSize * j;
            p + RecordSize <= |Layout(doc, codes, rs)| &&
            Layout(doc, codes, rs)[p..p + RecordSize] == RecordChunks(doc.glyphs, codes, rs)[j]
  {
    var n := |codes|;
    OffsetFits(n, n);
    var front := HeaderBytes(doc, FileSize(n), RegionOffset(n)) + Flatten(RegionChunks(rs));
    FlattenLength(RegionChunks(rs), RegionSize);
    ChunkAt(front, RecordChunks(doc.glyphs, codes, rs), [], RecordSize, j);
    assert front + Flatten(RecordChunks(doc.glyphs, codes, rs)) + [] == Layout(doc, codes, rs);
  }
}
