/** Byte-level building blocks of the CCM codec: bytes, byte order, the errors a
    decode or encode can end with, and the fixed-width two's-complement integer
    encodings that Python's `struct` module performs for the formats
    `B`, `h`, `i` and `I` with a `<` (little-endian) or `>` (big-endian) prefix. */
module Wire {

  type Byte = x: int | 0 <= x < 0x100

  datatype Endian = Little | Big

  /** Every way a decode or encode of the codec can be aborted. */
  datatype Error =
    | Truncated                  // fewer bytes left than the field needs (struct.error on unpack)
    | UnknownVersion(tag: int)   // the version tag is not a known CCMVer (ValueError)
    | BadConstant(at: nat)       // a mandatory constant or zero field differs (AssertionError)
    | DanglingRegion(offset: int)// a glyph names a region offset with no table entry (KeyError)
    | ZeroDivision               // a pixel coordinate divided by a zero texture dimension
    | IndexOutOfRange(index: int)// a code group points past the flat glyph list (IndexError)
    | OutOfRange                 // a value does not fit its field on encode (struct.error on pack)

  datatype Result<T> = Ok(value: T) | Err(error: Error) {
    predicate IsFailure() { Err? }
    function PropagateFailure<U>(): Result<U> requires Err? { Err(error) }
    function Extract(): T requires Ok? { value }
  }

  /** Result of a check that carries no value. */
  datatype Check = Pass | Fail(error: Error) {
    predicate IsFailure() { Fail? }
    function PropagateFailure<U>(): Result<U> requires Fail? { Err(error) }
  }

  function Need(condition: bool, error: Error): Check {
    if condition then Pass else Fail(error)
  }

  // ---------------------------------------------------------------------------
  // Unsigned and two's-complement values of n-byte fields

  function Pow256(n: nat): (r: nat)
    ensures r >= 1
  {
    if n == 0 then 1 else 0x100 * Pow256(n - 1)
  }

  /** Smallest value that no longer fits a signed n-byte field. */
  function Half(n: nat): int { if n == 0 then 0 else 0x80 * Pow256(n - 1) }

  /** The field widths the codec uses: one, two and four bytes. */
  lemma PowValues()
    ensures Pow256(1) == 0x100 && Pow256(2) == 0x1_0000 && Pow256(4) == 0x1_0000_0000
    ensures Half(1) == 0x80 && Half(2) == 0x8000 && Half(4) == 0x8000_0000
  {
  }

  predicate FitsUnsigned(x: int, n: nat) { 0 <= x < Pow256(n) }

  predicate FitsSigned(x: int, n: nat) { -Half(n) <= x < Half(n) }

  /** `struct.unpack` of an unsigned field (`B`, `I`): the least significant
      byte comes first in little-endian order and last in big-endian order. */
  function Unsigned(bs: seq<Byte>, e: Endian): (r: nat)
  {
    if bs == [] then 0
    else if e == Little then
      var rest := Unsigned(bs[1..], e);
      bs[0] + 0x100 * rest
    else
      var rest := Unsigned(bs[..|bs| - 1], e);
      bs[|bs| - 1] + 0x100 * rest
  }

  /** `struct.unpack` of a signed two's-complement field (`h`, `i`). */
  function Signed(bs: seq<Byte>, e: Endian): (r: int)
    requires |bs| > 0
  {
    var u := Unsigned(bs, e);
    if u >= Half(|bs|) then u - Pow256(|bs|) else u
  }

  /** An unsigned n-byte field holds a value below 256^n. */
  lemma {:induction false} UnsignedFits(bs: seq<Byte>, e: Endian)
    ensures FitsUnsigned(Unsigned(bs, e), |bs|)
  {
    if bs != [] {
      UnsignedFits(if e == Little then bs[1..] else bs[..|bs| - 1], e);
    }
  }

  /** A signed n-byte field holds a value in [-256^n / 2, 256^n / 2). */
  lemma SignedFits(bs: seq<Byte>, e: Endian)
    requires |bs| > 0
    ensures FitsSigned(Signed(bs, e), |bs|)
  {
    UnsignedFits(bs, e);
  }

  /** `struct.pack` of an unsigned field. */
  function EncodeUnsigned(x: int, n: nat, e: Endian): (r: seq<Byte>)
    requires FitsUnsigned(x, n)
    ensures |r| == n
  {
    if n == 0 then []
    else
      var low: Byte := x % 0x100;
      DivBound(x, Pow256(n - 1));
      var rest := EncodeUnsigned(x / 0x100, n - 1, e);
      if e == Little then [low] + rest else rest + [low]
  }

  lemma DivBound(x: nat, p: nat)
    requires x < 0x100 * p
    ensures x / 0x100 < p
  {
  }

  /** `struct.pack` of a signed field: negative values are stored as x + 256^n. */
  function EncodeSigned(x: int, n: nat, e: Endian): (r: seq<Byte>)
    requires n > 0 && FitsSigned(x, n)
    ensures |r| == n
  {
    EncodeUnsigned(if x < 0 then x + Pow256(n) else x, n, e)
  }

  /** Decoding an encoded unsigned field gives the value back. */
  lemma {:induction false} UnsignedRoundTrip(x: int, n: nat, e: Endian)
    requires FitsUnsigned(x, n)
    ensures Unsigned(EncodeUnsigned(x, n, e), e) == x
  {
    if n > 0 {
      var q := x / 0x100;
      DivBound(x, Pow256(n - 1));
      var rest := EncodeUnsigned(q, n - 1, e);
      var bs := EncodeUnsigned(x, n, e);
      UnsignedRoundTrip(q, n - 1, e);
      if e == Little {
        assert bs[1..] == rest && bs[0] == x % 0x100;
      } else {
        assert bs[..|bs| - 1] == rest && bs[|bs| - 1] == x % 0x100;
      }
    }
  }

  /** Every byte string is the encoding of the value it decodes to. */
  lemma {:induction false} UnsignedEncodingIsOnto(bs: seq<Byte>, e: Endian)
    ensures FitsUnsigned(Unsigned(bs, e), |bs|) && EncodeUnsigned(Unsigned(bs, e), |bs|, e) == bs
  {
    UnsignedFits(bs, e);
    if bs != [] {
      var n := |bs|;
      var init := if e == Little then bs[1..] else bs[..n - 1];
      var low := if e == Little then bs[0] else bs[n - 1];
      assert Unsigned(bs, e) == low + 0x100 * Unsigned(init, e);
      UnsignedEncodingIsOnto(init, e);
      EncodeStep(low, Unsigned(init, e), n, e);
      assert bs == if e == Little then [low] + init else init + [low];
    }
  }

  /** Encoding low + 256 * u puts the byte low before (little-endian) or
      after (big-endian) the encoding of u. */
  lemma EncodeStep(low: Byte, u: nat, n: nat, e: Endian)
    requires n > 0 && FitsUnsigned(u, n - 1)
    ensures FitsUnsigned(low + 0x100 * u, n)
    ensures EncodeUnsigned(low + 0x100 * u, n, e) ==
            if e == Little then [low] + EncodeUnsigned(u, n - 1, e) else EncodeUnsigned(u, n - 1, e) + [low]
  {
    DivMod(low, u);
  }

  lemma DivMod(low: Byte, v: nat)
    ensures (low + 0x100 * v) % 0x100 == low && (low + 0x100 * v) / 0x100 == v
  {
  }

  /** Decoding an encoded signed field gives the value back. */
  lemma SignedRoundTrip(x: int, n: nat, e: Endian)
    requires n > 0 && FitsSigned(x, n)
    ensures Signed(EncodeSigned(x, n, e), e) == x
  {
    UnsignedRoundTrip(if x < 0 then x + Pow256(n) else x, n, e);
  }

  lemma SignedEncodingIsOnto(bs: seq<Byte>, e: Endian)
    requires |bs| > 0
    ensures FitsSigned(Signed(bs, e), |bs|) && EncodeSigned(Signed(bs, e), |bs|, e) == bs
  {
    SignedFits(bs, e);
    UnsignedEncodingIsOnto(bs, e);
  }

  // ---------------------------------------------------------------------------
  // Reading fields at absolute byte offsets

  /** The n bytes at offset p, or Truncated when the data ends first. */
  function Field(data: seq<Byte>, p: nat, n: nat): (r: Result<seq<Byte>>)
    ensures r.Ok? <==> p + n <= |data|
    ensures r.Ok? ==> |r.value| == n
    ensures r.Err? ==> r.error == Truncated
  {
    if p + n <= |data| then Ok(data[p..p + n]) else Err(Truncated)
  }

  function SignedAt(data: seq<Byte>, p: nat, n: nat, e: Endian): (r: Result<int>)
    requires n > 0
  {
    var bs :- Field(data, p, n);
    Ok(Signed(bs, e))
  }

  function UnsignedAt(data: seq<Byte>, p: nat, n: nat, e: Endian): (r: Result<int>)
  {
    var bs :- Field(data, p, n);
    Ok(Unsigned(bs, e))
  }

  /** A field whose bytes are an encoding reads back as the encoded value. */
  lemma SignedAtEncoding(data: seq<Byte>, p: nat, x: int, n: nat, e: Endian)
    requires n > 0 && FitsSigned(x, n)
    requires p + n <= |data| && data[p..p + n] == EncodeSigned(x, n, e)
    ensures SignedAt(data, p, n, e) == Ok(x)
  {
    SignedRoundTrip(x, n, e);
  }

  lemma UnsignedAtEncoding(data: seq<Byte>, p: nat, x: int, n: nat, e: Endian)
    requires FitsUnsigned(x, n)
    requires p + n <= |data| && data[p..p + n] == EncodeUnsigned(x, n, e)
    ensures UnsignedAt(data, p, n, e) == Ok(x)
  {
    UnsignedRoundTrip(x, n, e);
  }

  // ---------------------------------------------------------------------------
  // Byte strings made of chunks

  /** The chunks written one after the other. */
  function Flatten(chunks: seq<seq<Byte>>): seq<Byte>
  {
    if chunks == [] then [] else Flatten(chunks[..|chunks| - 1]) + chunks[|chunks| - 1]
  }

  /** Concatenation regroups. */
  lemma AppendAssoc(a: seq<Byte>, b: seq<Byte>, c: seq<Byte>)
    ensures a + (b + c) == (a + b) + c
  {
  }

  /** Chunks of one size sz make sz bytes each. */
  lemma {:induction false} FlattenLength(chunks: seq<seq<Byte>>, sz: nat)
    requires forall k :: 0 <= k < |chunks| ==> |chunks[k]| == sz
    ensures |Flatten(chunks)| == sz * |chunks|
  {
    if chunks != [] {
      FlattenLength(chunks[..|chunks| - 1], sz);
    }
  }

  /** Chunk i lies between the chunks before it and the chunks after it. */
  lemma {:induction false} FlattenSplit(chunks: seq<seq<Byte>>, i: nat)
    requires i < |chunks|
    ensures Flatten(chunks) == Flatten(chunks[..i]) + chunks[i] + Flatten(chunks[i + 1..])
  {
    var init := chunks[..|chunks| - 1];
    var last := chunks[|chunks| - 1];
    if i == |chunks| - 1 {
      assert chunks[..i] == init && chunks[i + 1..] == [];
    } else {
      FlattenSplit(init, i);
      var after := chunks[i + 1..];
      assert after[..|after| - 1] == init[i + 1..] && after[|after| - 1] == last;
      assert init[..i] == chunks[..i] && init[i] == chunks[i];
    }
  }

  lemma MulMono(a: nat, b: nat, c: nat)
    requires b <= c
    ensures a * b <= a * c
  {
  }

  /** A slice of a slice is a slice. */
  lemma SliceOfSlice(data: seq<Byte>, p: nat, n: nat, a: nat, b: nat)
    requires p + n <= |data| && a <= b <= n
    ensures data[p..p + n][a..b] == data[p + a..p + b]
  {
    var inner, outer := data[p..p + n][a..b], data[p + a..p + b];
    assert |inner| == |outer|;
    forall i | 0 <= i < |inner| ensures inner[i] == outer[i] {}
  }

  /** A field made of two parts holds each part at its own offset. */
  lemma SplitField(data: seq<Byte>, p: nat, a: seq<Byte>, b: seq<Byte>)
    requires p + |a| + |b| <= |data| && data[p..p + |a| + |b|] == a + b
    ensures data[p..p + |a|] == a && data[p + |a|..p + |a| + |b|] == b
  {
    SliceOfSlice(data, p, |a| + |b|, 0, |a|);
    SliceOfSlice(data, p, |a| + |b|, |a|, |a| + |b|);
    assert (a + b)[..|a|] == a && (a + b)[|a|..] == b;
  }

  /** Chunk j of uniform chunks of size sz lies at offset |pre| + sz * j of
      pre + Flatten(chunks) + post. */
  lemma ChunkAt(pre: seq<Byte>, chunks: seq<seq<Byte>>, post: seq<Byte>, sz: nat, j: nat)
    requires forall k :: 0 <= k < |chunks| ==> |chunks[k]| == sz
    requires j < |chunks|
    ensures |pre| + sz * j + sz <= |pre + Flatten(chunks) + post|
    ensures (pre + Flatten(chunks) + post)[|pre| + sz * j..|pre| + sz * j + sz] == chunks[j]
  {
    FlattenSplit(chunks, j);
    var before, after := Flatten(chunks[..j]), Flatten(chunks[j + 1..]);
    FlattenLength(chunks[..j], sz);
    assert |before| == sz * j;
    var data := pre + Flatten(chunks) + post;
    assert data == (pre + before) + chunks[j] + (after + post);
    MiddleSlice(pre + before, chunks[j], after + post);
  }

  /** The middle part of a concatenation of three. */
  lemma MiddleSlice(x: seq<Byte>, c: seq<Byte>, y: seq<Byte>)
    ensures (x + c + y)[|x|..|x| + |c|] == c
  {
    var s := (x + c + y)[|x|..|x| + |c|];
    forall i | 0 <= i < |c| ensures s[i] == c[i] {
      assert s[i] == (x + c + y)[|x| + i];
    }
  }
}
