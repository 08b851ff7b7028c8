/** The binary glTF (GLB) container of glTF 2.0, chapter 4: a 12-byte header
    (magic `glTF`, version, total length) and a stream of chunks, each a u32
    data length, a 4-byte type and the data padded to a multiple of 4 (JSON
    with spaces, everything else with zeros). Models `parse_glb` and
    `build_glb` of scripts/optimize-b3dm-textures.py and the chunk walk they
    share with scripts/analyze-b3dm.py. */
module Glb {
  import opened Wrappers
  import opened Bytes

  const MAGIC: seq<byte> := [0x67, 0x6c, 0x54, 0x46]      // "glTF"
  const JSON_TYPE: seq<byte> := [0x4a, 0x53, 0x4f, 0x4e]  // "JSON"
  const BIN_TYPE: seq<byte> := [0x42, 0x49, 0x4e, 0x00]   // "BIN\0"
  const HEADER_LENGTH: nat := 12
  const SPACE: byte := 0x20

  /** One chunk as `parse_glb` returns it: its type and its data without the
      padding. A chunk cut off by the end of the input has a short type or
      short data, as Python slicing gives them. */
  datatype Chunk = Chunk(chunkType: seq<byte>, data: seq<byte>)

  datatype GlbFile = GlbFile(version: nat, chunks: seq<Chunk>)

  /** The offset of the chunk after one that starts at `offset` and whose
      length field is `n`: header, data and padding. */
  function NextOffset(offset: nat, n: nat): (next: nat)
    ensures next == offset + 8 + Padded(n)
    ensures Aligned(offset) ==> Aligned(next)
  {
    AlignedSum(offset, 8);
    AlignedSum(offset + 8, Padded(n));
    offset + 8 + n + Pad4(n)
  }

  /** The chunk whose header starts at `offset`, once its length is known. */
  function ChunkAt(data: seq<byte>, offset: nat, n: nat): Chunk {
    Chunk(Slice(data, offset + 4, offset + 8), Slice(data, offset + 8, offset + 8 + n))
  }

  /** The chunk walk: from `offset` to the end of `data`, read a length, take
      the type and the data, skip the padding. A length field cut short raises
      (struct.error). */
  function Walk(data: seq<byte>, offset: nat): Result<seq<Chunk>>
    decreases |data| - offset
  {
    if |data| <= offset then Ok([])
    else
      match ReadU32At(data, offset)
      case Err => Err
      case Ok(n) =>
        match Walk(data, NextOffset(offset, n))
        case Err => Err
        case Ok(rest) => Ok([ChunkAt(data, offset, n)] + rest)
  }

  /** The offsets at which the walk reads a chunk header. */
  ghost function Starts(data: seq<byte>, offset: nat): seq<nat>
    decreases |data| - offset
  {
    if |data| <= offset then []
    else
      match ReadU32At(data, offset)
      case Err => [offset]
      case Ok(n) => [offset] + Starts(data, NextOffset(offset, n))
  }

  /** Every chunk header the walk reads lies inside the data, and a walk from a
      4-aligned offset only ever reads at 4-aligned offsets. */
  lemma {:induction false} StartsAligned(data: seq<byte>, offset: nat)
    requires Aligned(offset)
    ensures forall i :: 0 <= i < |Starts(data, offset)| ==>
              Aligned(Starts(data, offset)[i]) && offset <= Starts(data, offset)[i] < |data|
    decreases |data| - offset
  {
    if offset < |data| {
      match ReadU32At(data, offset)
      case Err =>
      case Ok(n) => StartsAligned(data, NextOffset(offset, n));
    }
  }

  /** `rs` with `prefix` in front, or the same error. */
  function Prepend(prefix: seq<Chunk>, rs: Result<seq<Chunk>>): Result<seq<Chunk>> {
    if rs.Ok? then Ok(prefix + rs.value) else Err
  }

  /** One step of the walk: the chunk at `offset`, then the walk from the
      next offset. */
  lemma WalkStep(data: seq<byte>, offset: nat, prefix: seq<Chunk>, next: nat)
    requires offset < |data| && ReadU32At(data, offset).Ok?
    requires next == NextOffset(offset, ReadU32At(data, offset).value)
    ensures Prepend(prefix, Walk(data, offset))
            == Prepend(prefix + [ChunkAt(data, offset, ReadU32At(data, offset).value)], Walk(data, next))
  {
    var c := ChunkAt(data, offset, ReadU32At(data, offset).value);
    if Walk(data, next).Ok? {
      assert prefix + ([c] + Walk(data, next).value) == prefix + [c] + Walk(data, next).value;
    }
  }

  /** `parse_glb`: checks the magic (ValueError), reads version and length
      (struct.error when cut short; the length is not used) and walks the
      chunks from offset 12. */
  method ParseGlb(data: seq<byte>) returns (r: Result<GlbFile>)
    ensures r.Ok? <==> Slice(data, 0, 4) == MAGIC && HEADER_LENGTH <= |data|
                       && Walk(data, HEADER_LENGTH).Ok?
    ensures r.Ok? ==> r.value.version == ReadU32At(data, 4).value
                      && r.value.chunks == Walk(data, HEADER_LENGTH).value
  {
    if Slice(data, 0, 4) != MAGIC {
      return Err;
    }
    var version := ReadU32At(data, 4);
    var length := ReadU32At(data, 8);
    if version.Err? || length.Err? {
      return Err;
    }
    var chunks: seq<Chunk> := [];
    var offset: nat := HEADER_LENGTH;
    ghost var all := Walk(data, offset);
    assert all.Ok? ==> [] + all.value == all.value;
    assert Prepend([], all) == all;
    while offset < |data|
      invariant Walk(data, HEADER_LENGTH) == Prepend(chunks, Walk(data, offset))
      decreases |data| - offset
    {
      var chunkLength := ReadU32At(data, offset);
      if chunkLength.Err? {
        return Err;
      }
      var n := chunkLength.value;
      ghost var start := offset;
      chunks := chunks + [ChunkAt(data, offset, n)];
      offset := offset + 8 + n;
      offset := offset + Pad4(n);
      WalkStep(data, start, chunks[..|chunks| - 1], offset);
      assert chunks[..|chunks| - 1] + [ChunkAt(data, start, n)] == chunks;
    }
    return Ok(GlbFile(version.value, chunks));
  }

  /** Every data length can be written as a u32. */
  predicate ChunksFit(chunks: seq<Chunk>) {
    forall i :: 0 <= i < |chunks| ==> IsU32(|chunks[i].data|)
  }

  /** The padding byte: spaces after JSON, zeros after anything else. */
  function PadByte(chunkType: seq<byte>): byte {
    if chunkType == JSON_TYPE then SPACE else 0
  }

  /** One chunk as `build_glb` writes it: the unpadded length, the type, the
      data, then padding to the next multiple of 4. */
  function EncodeChunk(c: Chunk): (r: seq<byte>)
    requires IsU32(|c.data|)
    ensures |r| == 4 + |c.chunkType| + Padded(|c.data|)
    ensures r[..4] == PackU32(|c.data|).value
    ensures r[4..4 + |c.chunkType|] == c.chunkType
    ensures r[4 + |c.chunkType|..4 + |c.chunkType| + |c.data|] == c.data
    ensures r[4 + |c.chunkType| + |c.data|..] == Repeat(PadByte(c.chunkType), Pad4(|c.data|))
    ensures |c.chunkType| == 4 ==> Aligned(|r|)
  {
    var pad := Repeat(PadByte(c.chunkType), Pad4(|c.data|));
    var r := PackU32(|c.data|).value + c.chunkType + c.data + pad;
    AlignedSum(8, Padded(|c.data|));
    r
  }

  /** The GLB body: every chunk encoded, in order. */
  function EncodeChunks(chunks: seq<Chunk>): seq<byte>
    requires ChunksFit(chunks)
  {
    if chunks == [] then [] else EncodeChunk(chunks[0]) + EncodeChunks(chunks[1..])
  }

  lemma {:induction false} EncodeChunksAppend(chunks: seq<Chunk>, c: Chunk)
    requires ChunksFit(chunks) && IsU32(|c.data|)
    ensures ChunksFit(chunks + [c])
    ensures EncodeChunks(chunks + [c]) == EncodeChunks(chunks) + EncodeChunk(c)
  {
    ChunksFitAppend(chunks, c);
    if chunks == [] {
      assert [c][1..] == [];
      assert EncodeChunks([c]) == EncodeChunk(c) + EncodeChunks([]);
    } else {
      var tail := chunks[1..];
      assert (chunks + [c])[1..] == tail + [c];
      assert (chunks + [c])[0] == chunks[0];
      EncodeChunksAppend(tail, c);
      ConcatAssoc(EncodeChunk(chunks[0]), EncodeChunks(tail), EncodeChunk(c));
    }
  }

  lemma ChunksFitAppend(chunks: seq<Chunk>, c: Chunk)
    requires ChunksFit(chunks) && IsU32(|c.data|)
    ensures ChunksFit(chunks + [c])
  {
    forall i | 0 <= i < |chunks| + 1 ensures IsU32(|(chunks + [c])[i].data|) {
      if i < |chunks| {
        assert (chunks + [c])[i] == chunks[i];
      }
    }
  }

  /** The complete GLB for a body. */
  function Assemble(version: int, body: seq<byte>): (r: seq<byte>)
    requires IsU32(version) && IsU32(HEADER_LENGTH + |body|)
    ensures |r| == HEADER_LENGTH + |body|
    ensures r[..4] == MAGIC && r[HEADER_LENGTH..] == body
    ensures ReadU32At(r, 4) == Ok(version)
    ensures ReadU32At(r, 8) == Ok(|r|)
  {
    var r := MAGIC + PackU32(version).value + PackU32(HEADER_LENGTH + |body|).value + body;
    assert Slice(r, 4, 8) == PackU32(version).value;
    assert Slice(r, 8, 12) == PackU32(HEADER_LENGTH + |body|).value;
    UnpackPack(version);
    UnpackPack(HEADER_LENGTH + |body|);
    r
  }

  /** `build_glb`: appends each chunk's length (without padding), type and
      padded data to the body, then prefixes the header whose length field is
      12 plus the body length; raises (struct.error) when a length or the
      version is not a u32. */
  method BuildGlb(version: int, chunks: seq<Chunk>) returns (r: Result<seq<byte>>)
    ensures r.Ok? <==> ChunksFit(chunks) && IsU32(version)
                       && IsU32(HEADER_LENGTH + |EncodeChunks(chunks)|)
    ensures r.Ok? ==> r.value == Assemble(version, EncodeChunks(chunks))
  {
    var body: seq<byte> := [];
    for i := 0 to |chunks|
      invariant ChunksFit(chunks[..i])
      invariant body == EncodeChunks(chunks[..i])
    {
      var c := chunks[i];
      if !IsU32(|c.data|) {
        return Err;
      }
      var padded := c.data + Repeat(PadByte(c.chunkType), Pad4(|c.data|));
      ghost var before := body;
      body := body + PackU32(|c.data|).value;
      body := body + c.chunkType;
      body := body + padded;
      AppendEncoded(before, c);
      ChunksPrefix(chunks, i);
      EncodeChunksAppend(chunks[..i], c);
    }
    assert chunks[..|chunks|] == chunks;
    if !IsU32(version) || !IsU32(HEADER_LENGTH + |body|) {
      return Err;
    }
    return Ok(Assemble(version, body));
  }

  /** Appending a chunk's length, type and padded data, one after the
      other, appends its encoding. */
  lemma AppendEncoded(before: seq<byte>, c: Chunk)
    requires IsU32(|c.data|)
    ensures before + PackU32(|c.data|).value + c.chunkType + (c.data + Repeat(PadByte(c.chunkType), Pad4(|c.data|)))
            == before + EncodeChunk(c)
  {
    var h := PackU32(|c.data|).value + c.chunkType;
    var pad := Repeat(PadByte(c.chunkType), Pad4(|c.data|));
    ConcatAssoc(before, PackU32(|c.data|).value, c.chunkType);
    ConcatAssoc(before + PackU32(|c.data|).value + c.chunkType, c.data, pad);
    ConcatAssoc(before, h + c.data, pad);
    ConcatAssoc(before, h, c.data);
  }

  lemma ChunksPrefix(chunks: seq<Chunk>, i: nat)
    requires i < |chunks|
    ensures chunks[..i + 1] == chunks[..i] + [chunks[i]]
  {
    assert |chunks[..i + 1]| == |chunks[..i] + [chunks[i]]|;
  }

  /** Chunks with 4-byte types, as every well-formed GLB has. */
  predicate TypesWellFormed(chunks: seq<Chunk>) {
    forall i :: 0 <= i < |chunks| ==> |chunks[i].chunkType| == 4
  }

  /** A chunk header and data laid out at `|pre|` read back as that chunk. */
  lemma ReadChunkBytes(pre: seq<byte>, n: nat, t: seq<byte>, d: seq<byte>, post: seq<byte>)
    requires IsU32(n) && |t| == 4 && |d| == n
    ensures var data := pre + PackU32(n).value + (t + d + post);
            && ReadU32At(data, |pre|) == Ok(n)
            && ChunkAt(data, |pre|, n) == Chunk(t, d)
  {
    var data := pre + PackU32(n).value + (t + d + post);
    var h := pre + PackU32(n).value;
    ReadPacked(pre, n, t + d + post);
    ConcatAssoc(t, d, post);
    ConcatAssoc(h, t, d + post);
    SliceOfCat(h, t, d + post);
    ConcatAssoc(h, t + d, post);
    ConcatAssoc(h, t, d);
    SliceOfCat(h + t, d, post);
  }

  /** The walk reads an encoded chunk back: its length field, its type and
      data, and the offset just past its padding. */
  lemma ReadEncodedChunk(pre: seq<byte>, c: Chunk, post: seq<byte>)
    requires IsU32(|c.data|) && |c.chunkType| == 4
    ensures var data := pre + EncodeChunk(c) + post;
            && ReadU32At(data, |pre|) == Ok(|c.data|)
            && ChunkAt(data, |pre|, |c.data|) == c
            && NextOffset(|pre|, |c.data|) == |pre| + |EncodeChunk(c)|
  {
    var p := PackU32(|c.data|).value;
    var t, d := c.chunkType, c.data;
    var pad := Repeat(PadByte(t), Pad4(|d|));
    var r := t + d + pad;
    ConcatAssoc(p, t, d);
    ConcatAssoc(p, t + d, pad);
    assert EncodeChunk(c) == p + r;
    ConcatAssoc(pre, p, r);
    ConcatAssoc(pre + p, r, post);
    ConcatAssoc(t + d, pad, post);
    ReadChunkBytes(pre, |d|, t, d, pad + post);
  }

  lemma TailFits(chunks: seq<Chunk>)
    requires chunks != [] && ChunksFit(chunks) && TypesWellFormed(chunks)
    ensures ChunksFit(chunks[1..]) && TypesWellFormed(chunks[1..])
  {
    assert forall i :: 0 <= i < |chunks| - 1 ==> chunks[1..][i] == chunks[i + 1];
  }

  /** A walk that reads one chunk and then the rest. */
  lemma WalkCons(data: seq<byte>, offset: nat, rest: seq<Chunk>)
    requires offset < |data| && ReadU32At(data, offset).Ok?
    requires Walk(data, NextOffset(offset, ReadU32At(data, offset).value)) == Ok(rest)
    ensures Walk(data, offset) == Ok([ChunkAt(data, offset, ReadU32At(data, offset).value)] + rest)
  {
  }

  /** Walking an encoded body gives back its chunks. */
  lemma {:induction false} WalkEncoded(pre: seq<byte>, chunks: seq<Chunk>)
    requires ChunksFit(chunks) && TypesWellFormed(chunks)
    ensures Walk(pre + EncodeChunks(chunks), |pre|) == Ok(chunks)
    decreases |chunks|
  {
    if chunks != [] {
      var c := chunks[0];
      var data := pre + EncodeChunks(chunks);
      var pre' := pre + EncodeChunk(c);
      TailFits(chunks);
      ConcatAssoc(pre, EncodeChunk(c), EncodeChunks(chunks[1..]));
      assert data == pre' + EncodeChunks(chunks[1..]);
      ReadEncodedChunk(pre, c, EncodeChunks(chunks[1..]));
      WalkEncoded(pre', chunks[1..]);
      assert ReadU32At(data, |pre|) == Ok(|c.data|);
      assert NextOffset(|pre|, |c.data|) == |pre'|;
      assert Walk(data, |pre'|) == Ok(chunks[1..]);
      WalkCons(data, |pre|, chunks[1..]);
      assert [c] + chunks[1..] == chunks;
    } else {
      assert pre + EncodeChunks(chunks) == pre;
    }
  }

  /** Round trip: parsing what `build_glb` produced gives back the version and
      the chunks, for chunks with 4-byte types. */
  lemma ParseBuild(version: int, chunks: seq<Chunk>)
    requires ChunksFit(chunks) && TypesWellFormed(chunks)
    requires IsU32(version) && IsU32(HEADER_LENGTH + |EncodeChunks(chunks)|)
    ensures var g := Assemble(version, EncodeChunks(chunks));
            && Slice(g, 0, 4) == MAGIC && HEADER_LENGTH <= |g|
            && ReadU32At(g, 4) == Ok(version)
            && Walk(g, HEADER_LENGTH) == Ok(chunks)
  {
    var g := Assemble(version, EncodeChunks(chunks));
    assert g == g[..HEADER_LENGTH] + EncodeChunks(chunks);
    WalkEncoded(g[..HEADER_LENGTH], chunks);
  }

  /** The body of chunks with 4-byte types is a multiple of 4 long, so every
      chunk it holds starts on a 4-byte boundary. */
  lemma {:induction false} EncodedAligned(chunks: seq<Chunk>)
    requires ChunksFit(chunks) && TypesWellFormed(chunks)
    ensures Aligned(|EncodeChunks(chunks)|)
  {
    if chunks != [] {
      EncodedAligned(chunks[1..]);
      AlignedSum(|EncodeChunk(chunks[0])|, |EncodeChunks(chunks[1..])|);
    }
  }

  /** The index of the last chunk of type `t`: later chunks of a type
      replace earlier ones in the loops that pick the JSON and BIN chunks. */
  function LastOfType(chunks: seq<Chunk>, t: seq<byte>): (r: Option<nat>)
    ensures r.Some? ==> r.value < |chunks| && chunks[r.value].chunkType == t
    ensures r.Some? ==> forall k :: r.value < k < |chunks| ==> chunks[k].chunkType != t
    ensures r.None? ==> forall k :: 0 <= k < |chunks| ==> chunks[k].chunkType != t
  {
    if chunks == [] then None
    else if chunks[|chunks| - 1].chunkType == t then Some(|chunks| - 1)
    else LastOfType(chunks[..|chunks| - 1], t)
  }
}
