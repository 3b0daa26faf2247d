/** The two file handles the codec works through: a binary file opened for
    reading, whose cursor each `read` advances, and a binary file opened for
    writing, which can seek back and overwrite bytes it wrote earlier. Both
    files live in memory; opening and closing them is not modelled. */
module Streams {
  import opened Wire

  /** A binary file opened for reading: its bytes and the cursor (`tell`). */
  class InStream {
    const data: seq<Byte>
    var pos: nat

    ghost predicate Valid()
      reads this
    {
      pos <= |data|
    }

    constructor (bytes: seq<Byte>)
      ensures Valid()
      ensures data == bytes && pos == 0
    {
      data := bytes;
      pos := 0;
    }

    /** `struct.unpack` of a signed n-byte field on `read(n)`. A short read
        leaves the cursor at the end of the file and fails. */
    method ReadSigned(n: nat, e: Endian) returns (r: Result<int>)
      requires Valid() && n > 0
      modifies this
      ensures Valid()
      ensures r == SignedAt(data, old(pos), n, e)
      ensures pos == if r.Ok? then old(pos) + n else |data|
    {
      if pos + n <= |data| {
        r := Ok(Signed(data[pos..pos + n], e));
        pos := pos + n;
      } else {
        r := Err(Truncated);
        pos := |data|;
      }
    }

    /** `struct.unpack` of an unsigned n-byte field on `read(n)`. */
    method ReadUnsigned(n: nat, e: Endian) returns (r: Result<int>)
      requires Valid()
      modifies this
      ensures Valid()
      ensures r == UnsignedAt(data, old(pos), n, e)
      ensures pos == if r.Ok? then old(pos) + n else |data|
    {
      if pos + n <= |data| {
        r := Ok(Unsigned(data[pos..pos + n], e));
        pos := pos + n;
      } else {
        r := Err(Truncated);
        pos := |data|;
      }
    }
  }

  /** The file contents after writing b at position p: bytes before p are kept
      (a gap past the end reads as zeros), b replaces what was at p.., and
      bytes after the written range are kept. */
  function Overwrite(s: seq<Byte>, p: nat, b: seq<Byte>): (r: seq<Byte>)
    ensures |r| == if p + |b| > |s| then p + |b| else |s|
    ensures forall i :: 0 <= i < |r| ==>
              r[i] == if p <= i < p + |b| then b[i - p] else if i < |s| then s[i] else 0
  {
    var padded := if p > |s| then s + seq(p - |s|, _ => 0) else s;
    padded[..p] + b + (if p + |b| < |padded| then padded[p + |b|..] else [])
  }

  /** Writing at the end of the file appends. */
  lemma OverwriteAtEnd(s: seq<Byte>, b: seq<Byte>)
    ensures Overwrite(s, |s|, b) == s + b
  {
    var r := Overwrite(s, |s|, b);
    forall i | 0 <= i < |r| ensures r[i] == (s + b)[i] {}
  }

  /** Writing a chunk over one of the same size swaps it and keeps the rest. */
  lemma OverwriteChunk(a: seq<Byte>, was: seq<Byte>, c: seq<Byte>, now: seq<Byte>)
    requires |was| == |now|
    ensures Overwrite(a + was + c, |a|, now) == a + now + c
  {
    var r := Overwrite(a + was + c, |a|, now);
    forall i | 0 <= i < |r| ensures r[i] == (a + now + c)[i] {}
  }

  /** A binary file opened for writing, with its cursor. */
  class OutStream {
    var bytes: seq<Byte>
    var pos: nat

    constructor ()
      ensures bytes == [] && pos == 0
    {
      bytes := [];
      pos := 0;
    }

    /** `write(struct.pack(...))` of a signed n-byte field: a value that does
        not fit raises before anything is written. */
    method WriteSigned(x: int, n: nat, e: Endian) returns (ok: bool)
      requires n > 0
      modifies this
      ensures ok == FitsSigned(x, n)
      ensures ok ==> bytes == Overwrite(old(bytes), old(pos), EncodeSigned(x, n, e))
                     && pos == old(pos) + n
      ensures ok && old(pos) == |old(bytes)| ==> bytes == old(bytes) + EncodeSigned(x, n, e)
      ensures !ok ==> bytes == old(bytes) && pos == old(pos)
    {
      ok := FitsSigned(x, n);
      if ok {
        var b := EncodeSigned(x, n, e);
        OverwriteAtEnd(bytes, b);
        bytes := Overwrite(bytes, pos, b);
        pos := pos + n;
      }
    }

    /** `write(struct.pack(...))` of an unsigned n-byte field. */
    method WriteUnsigned(x: int, n: nat, e: Endian) returns (ok: bool)
      modifies this
      ensures ok == FitsUnsigned(x, n)
      ensures ok ==> bytes == Overwrite(old(bytes), old(pos), EncodeUnsigned(x, n, e))
                     && pos == old(pos) + n
      ensures ok && old(pos) == |old(bytes)| ==> bytes == old(bytes) + EncodeUnsigned(x, n, e)
      ensures !ok ==> bytes == old(bytes) && pos == old(pos)
    {
      ok := FitsUnsigned(x, n);
      if ok {
        var b := EncodeUnsigned(x, n, e);
        OverwriteAtEnd(bytes, b);
        bytes := Overwrite(bytes, pos, b);
        pos := pos + n;
      }
    }

    /** `seek(p)`. */
    method Seek(p: nat)
      modifies this
      ensures pos == p && bytes == old(bytes)
    {
      pos := p;
    }
  }
}
