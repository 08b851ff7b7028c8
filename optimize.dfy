/** `process_b3dm` of scripts/optimize-b3dm-textures.py: read the b3dm, parse
    its GLB, pick the last JSON and BIN chunks, repack the BIN buffer with
    re-encoded images, and write a new b3dm; in every other case (a missing
    chunk, no image that got smaller, or any exception) the output file is a
    copy of the input. Files are byte sequences; `decode` stands for
    `json.loads(data.decode('utf-8'))` (`None` when it raises), `encode` for
    `json.dumps(gltf, separators=(',', ':')).encode('utf-8')`. */
module Optimize {
  import opened Wrappers
  import opened Bytes
  import opened GltfJson
  import B3dm
  import opened Glb
  import opened Repack

  /** How `process_b3dm` ended: the three copy messages, or a written file
      with the repack's result (the new glTF JSON, BIN data and counts). */
  datatype Outcome =
    | NoChunks
    | NothingSmaller
    | Failed
    | Written(result: Repacked)

  /** The loop that sets `json_chunk` and `bin_chunk`. */
  method SelectChunks(chunks: seq<Chunk>) returns (json: Option<nat>, bin: Option<nat>)
    ensures json == LastOfType(chunks, JSON_TYPE) && bin == LastOfType(chunks, BIN_TYPE)
  {
    json, bin := None, None;
    for i := 0 to |chunks|
      invariant json == LastOfType(chunks[..i], JSON_TYPE)
      invariant bin == LastOfType(chunks[..i], BIN_TYPE)
    {
      assert chunks[..i + 1][..i] == chunks[..i];
      if chunks[i].chunkType == JSON_TYPE {
        json := Some(i);
      } else if chunks[i].chunkType == BIN_TYPE {
        bin := Some(i);
      }
    }
    assert chunks[..|chunks|] == chunks;
  }

  /** The new JSON chunk data: the serialised JSON padded with spaces. */
  function PadSpaces(d: seq<byte>): (r: seq<byte>)
    ensures |r| == Padded(|d|) && r[..|d|] == d && Aligned(|r|)
  {
    d + Repeat(SPACE, Pad4(|d|))
  }

  /** The chunks with the last JSON and BIN chunks given new data. */
  function Replaced(chunks: seq<Chunk>, ji: nat, bi: nat, json: seq<byte>, bin: seq<byte>): (r: seq<Chunk>)
    requires ji < |chunks| && bi < |chunks| && ji != bi
    ensures |r| == |chunks|
    ensures forall k :: 0 <= k < |chunks| ==> r[k].chunkType == chunks[k].chunkType
    ensures r[ji].data == json && r[bi].data == bin
    ensures forall k :: 0 <= k < |chunks| && k != ji && k != bi ==> r[k] == chunks[k]
  {
    chunks[ji := chunks[ji].(data := json)][bi := chunks[bi].(data := bin)]
  }

  /** `parse_glb` accepts the data. */
  predicate GlbParses(data: seq<byte>) {
    Slice(data, 0, 4) == MAGIC && HEADER_LENGTH <= |data| && Walk(data, HEADER_LENGTH).Ok?
  }

  /** The GLB chunks of a b3dm file, when `read_b3dm` and `parse_glb` both
      succeed. */
  function ChunksOf(input: seq<byte>): Option<seq<Chunk>> {
    var c := B3dm.ReadB3dm(input);
    if c.Ok? && GlbParses(c.value.gltf) then Some(Walk(c.value.gltf, HEADER_LENGTH).value) else None
  }

  /** Where `process_b3dm` stands once it has decoded the JSON: the b3dm
      components, the GLB chunks, the indices of the last JSON and BIN
      chunks, and the decoded glTF JSON. */
  datatype Found = Found(components: B3dm.Components, chunks: seq<Chunk>, ji: nat, bi: nat, gltf: Gltf)

  predicate FoundValid(f: Found) {
    f.ji < |f.chunks| && f.bi < |f.chunks| && f.ji != f.bi && GlbParses(f.components.gltf)
  }

  /** The file reads and parses, but one of the two chunks is missing. */
  predicate Missing(input: seq<byte>) {
    ChunksOf(input).Some?
    && (LastOfType(ChunksOf(input).value, JSON_TYPE).None? || LastOfType(ChunksOf(input).value, BIN_TYPE).None?)
  }

  /** Lines 181-201: read the b3dm, parse its GLB, find the last JSON and BIN
      chunks and decode the JSON; `None` when a step raises or a chunk is
      missing. */
  function FindJson(input: seq<byte>, decode: seq<byte> -> Option<Gltf>): (f: Option<Found>)
    ensures f.Some? ==>
              && FoundValid(f.value)
              && B3dm.ReadB3dm(input) == Ok(f.value.components)
              && ChunksOf(input) == Some(f.value.chunks)
              && LastOfType(f.value.chunks, JSON_TYPE) == Some(f.value.ji)
              && LastOfType(f.value.chunks, BIN_TYPE) == Some(f.value.bi)
              && decode(f.value.chunks[f.value.ji].data) == Some(f.value.gltf)
    ensures ChunksOf(input).None? || Missing(input) ==> f.None?
  {
    var c := B3dm.ReadB3dm(input);
    if c.Err? || !GlbParses(c.value.gltf) then None
    else
      var chunks := Walk(c.value.gltf, HEADER_LENGTH).value;
      var j := LastOfType(chunks, JSON_TYPE);
      var b := LastOfType(chunks, BIN_TYPE);
      if j.None? || b.None? then None
      else
        assert JSON_TYPE[0] != BIN_TYPE[0];
        match decode(chunks[j.value].data)
        case None => None
        case Some(g) => Some(Found(c.value, chunks, j.value, b.value, g))
  }

  /** The JSON has the two lists the repack needs. */
  predicate HasLists(g: Gltf) {
    g.images.Some? && g.bufferViews.Some?
  }

  /** What the repack reads for a decoded JSON with both lists. */
  function SourceOf(f: Found, optimize: (seq<byte>, string) -> Option<seq<byte>>): Source
    requires FoundValid(f) && HasLists(f.gltf)
  {
    Source(f.gltf.bufferViews.value, f.gltf.images.value, f.chunks[f.bi].data, optimize)
  }

  /** `images_processed` stays 0: the JSON lacks `images` or `bufferViews`,
      or every view is placed and no image got smaller. */
  predicate NoneSmaller(f: Found, optimize: (seq<byte>, string) -> Option<seq<byte>>)
    requires FoundValid(f)
  {
    || !HasLists(f.gltf)
    || (&& Placements(SourceOf(f, optimize), Order(f.gltf.bufferViews.value)).Ok?
        && Shrunk(Placements(SourceOf(f, optimize), Order(f.gltf.bufferViews.value)).value) == 0)
  }

  /** The chunks with the serialised, padded JSON and the new BIN data. */
  function NewChunks(chunks: seq<Chunk>, ji: nat, bi: nat, encode: Gltf -> seq<byte>, r: Repacked): seq<Chunk>
    requires ji < |chunks| && bi < |chunks| && ji != bi
  {
    Replaced(chunks, ji, bi, PadSpaces(encode(r.gltf)), r.binary)
  }

  /** The components with the GLB rebuilt from `chunks` with the old version. */
  function Rebuilt(c: B3dm.Components, chunks: seq<Chunk>): B3dm.Components
    requires GlbParses(c.gltf) && ChunksFit(chunks) && IsU32(HEADER_LENGTH + |EncodeChunks(chunks)|)
  {
    c.(gltf := Assemble(ReadU32At(c.gltf, 4).value, EncodeChunks(chunks)))
  }

  /** Lines 284-298 for a repack result `r`: the JSON serialised and padded
      with spaces, the two chunks given their new data, the GLB rebuilt with
      the old version and the b3dm written with the old tables; `None` when
      `struct.pack` raises on a value that is not a u32. */
  function Rewrite(c: B3dm.Components, chunks: seq<Chunk>, ji: nat, bi: nat,
                   encode: Gltf -> seq<byte>, r: Repacked): (out: Option<seq<byte>>)
    requires ji < |chunks| && bi < |chunks| && ji != bi && GlbParses(c.gltf)
    ensures var nc := NewChunks(chunks, ji, bi, encode, r);
            out.Some? <==> && ChunksFit(nc) && IsU32(c.version)
                           && IsU32(B3dm.HEADER_LENGTH + |B3dm.Tables(c)| + HEADER_LENGTH + |EncodeChunks(nc)|)
    ensures out.Some? ==>
              var nc := NewChunks(chunks, ji, bi, encode, r);
              && ChunksFit(nc) && IsU32(HEADER_LENGTH + |EncodeChunks(nc)|)
              && B3dm.ReadB3dm(out.value) == Ok(Rebuilt(c, nc))
              && ReadU32At(out.value, 8) == Ok(|out.value|)
  {
    var nc := NewChunks(chunks, ji, bi, encode, r);
    if !ChunksFit(nc) || !IsU32(HEADER_LENGTH + |EncodeChunks(nc)|) then None
    else
      var c' := Rebuilt(c, nc);
      assert B3dm.TotalLength(c') == B3dm.HEADER_LENGTH + |B3dm.Tables(c)| + HEADER_LENGTH + |EncodeChunks(nc)|;
      var w := B3dm.WriteB3dm(c');
      if w.Err? then None
      else
        B3dm.ReadWrite(c');
        Some(w.value)
  }

  /** A repack result in which an image got smaller and whose file can be
      written. */
  ghost predicate Writable(f: Found, encode: Gltf -> seq<byte>, optimize: (seq<byte>, string) -> Option<seq<byte>>)
    requires FoundValid(f)
  {
    && HasLists(f.gltf)
    && exists r :: && RepackedAs(f.gltf, f.chunks[f.bi].data, optimize, r)
                   && r.processed > 0
                   && Rewrite(f.components, f.chunks, f.ji, f.bi, encode, r).Some?
  }

  /** Lines 284-298: serialise and pad the JSON, put the new JSON and BIN
      data into their chunks, rebuild the GLB and write the b3dm. */
  method WriteBack(components: B3dm.Components, version: nat, chunks: seq<Chunk>,
                   ji: nat, bi: nat, encode: Gltf -> seq<byte>, r: Repacked)
    returns (output: Option<seq<byte>>)
    requires GlbParses(components.gltf) && version == ReadU32At(components.gltf, 4).value
    requires ji < |chunks| && bi < |chunks| && ji != bi
    ensures output == Rewrite(components, chunks, ji, bi, encode, r)
  {
    var newJson := encode(r.gltf);
    newJson := newJson + Repeat(SPACE, Pad4(|newJson|));
    var newChunks := Replaced(chunks, ji, bi, newJson, r.binary);
    var built := BuildGlb(version, newChunks);
    if built.Err? {
      return None;
    }
    var written := B3dm.WriteB3dm(components.(gltf := built.value));
    if written.Err? {
      return None;
    }
    return Some(written.value);
  }

  /** Lines 181-201: read the b3dm, parse its GLB, select the chunks and
      decode the JSON; `missing` tells a missing chunk from a step that
      raised. */
  method LocateJson(input: seq<byte>, decode: seq<byte> -> Option<Gltf>) returns (found: Option<Found>, missing: bool)
    ensures found == FindJson(input, decode)
    ensures missing == Missing(input)
  {
    var components := B3dm.ReadB3dm(input);
    if components.Err? {
      return None, false;
    }
    var glb := ParseGlb(components.value.gltf);
    if glb.Err? {
      return None, false;
    }
    var chunks := glb.value.chunks;
    assert ChunksOf(input) == Some(chunks);
    var ji, bi := SelectChunks(chunks);
    if ji.None? || bi.None? {
      return None, true;
    }
    var decoded := decode(chunks[ji.value].data);
    if decoded.None? {
      return None, false;
    }
    return Some(Found(components.value, chunks, ji.value, bi.value, decoded.value)), false;
  }

  /** Lines 203-298, once the JSON is decoded: repack when the JSON has
      `images` and `bufferViews`, and write the new b3dm exactly when an image
      got smaller and the file can be written; otherwise the output is the
      input. */
  method ProcessFound(input: seq<byte>, f: Found, encode: Gltf -> seq<byte>,
                      optimize: (seq<byte>, string) -> Option<seq<byte>>)
    returns (output: seq<byte>, outcome: Outcome)
    requires FoundValid(f)
    ensures !outcome.Written? ==> output == input
    ensures !outcome.NoChunks?
    ensures outcome.NothingSmaller? <==> NoneSmaller(f, optimize)
    ensures outcome.Written? <==> Writable(f, encode, optimize)
    ensures outcome.Failed? <==> !NoneSmaller(f, optimize) && !Writable(f, encode, optimize)
    ensures outcome.Written? ==>
              && HasLists(f.gltf)
              && RepackedAs(f.gltf, f.chunks[f.bi].data, optimize, outcome.result)
              && outcome.result.processed > 0
              && Rewrite(f.components, f.chunks, f.ji, f.bi, encode, outcome.result) == Some(output)
  {
    var components, chunks, ji, bi, gltf := f.components, f.chunks, f.ji, f.bi, f.gltf;
    var version := ReadU32At(components.gltf, 4).value;
    var oldBinary := chunks[bi].data;
    if !(gltf.images.Some? && gltf.bufferViews.Some?) {
      // new_binary = old_binary and images_processed stays 0
      return input, NothingSmaller;
    }
    var repacked := RepackBuffer(gltf, oldBinary, optimize);
    if repacked.Err? {
      NotWritable(f, encode, optimize);
      return input, Failed;
    }
    var r := repacked.value;
    if r.processed == 0 {
      NotWritable(f, encode, optimize);
      return input, NothingSmaller;
    }
    var written := WriteBack(components, version, chunks, ji, bi, encode, r);
    if written.None? {
      UnwritableResult(f, encode, optimize, r);
      return input, Failed;
    }
    return written.value, Written(r);
  }

  /** `process_b3dm`: a new b3dm is written exactly when both chunks are
      found, the JSON decodes with `images` and `bufferViews`, the repack
      succeeds, an image got smaller and the lengths fit in a u32; in every
      other case the output is the input. */
  method ProcessB3dm(input: seq<byte>, decode: seq<byte> -> Option<Gltf>, encode: Gltf -> seq<byte>,
                     optimize: (seq<byte>, string) -> Option<seq<byte>>)
    returns (output: seq<byte>, outcome: Outcome)
    ensures !outcome.Written? ==> output == input
    ensures outcome.NoChunks? <==> Missing(input)
    ensures outcome.NothingSmaller? <==>
              FindJson(input, decode).Some? && NoneSmaller(FindJson(input, decode).value, optimize)
    ensures outcome.Written? <==>
              FindJson(input, decode).Some? && Writable(FindJson(input, decode).value, encode, optimize)
    ensures outcome.Failed? <==>
              || (FindJson(input, decode).None? && !Missing(input))
              || (&& FindJson(input, decode).Some?
                  && !NoneSmaller(FindJson(input, decode).value, optimize)
                  && !Writable(FindJson(input, decode).value, encode, optimize))
    ensures outcome.Written? ==>
              && FindJson(input, decode).Some?
              && var f := FindJson(input, decode).value;
              && HasLists(f.gltf)
              && RepackedAs(f.gltf, f.chunks[f.bi].data, optimize, outcome.result)
              && outcome.result.processed > 0
              && Rewrite(f.components, f.chunks, f.ji, f.bi, encode, outcome.result) == Some(output)
  {
    var found, missing := LocateJson(input, decode);
    if found.None? {
      return input, if missing then NoChunks else Failed;
    }
    output, outcome := ProcessFound(input, found.value, encode, optimize);
  }

  /** No repack result has an image that got smaller when the repack raises
      or none got smaller. */
  lemma NotWritable(f: Found, encode: Gltf -> seq<byte>, optimize: (seq<byte>, string) -> Option<seq<byte>>)
    requires FoundValid(f) && HasLists(f.gltf)
    requires var ps := Placements(SourceOf(f, optimize), Order(f.gltf.bufferViews.value));
             ps.Err? || Shrunk(ps.value) == 0
    ensures !Writable(f, encode, optimize)
  {
  }

  /** When the one repack result cannot be written, nothing is writable. */
  lemma UnwritableResult(f: Found, encode: Gltf -> seq<byte>, optimize: (seq<byte>, string) -> Option<seq<byte>>, r: Repacked)
    requires FoundValid(f) && HasLists(f.gltf)
    requires RepackedAs(f.gltf, f.chunks[f.bi].data, optimize, r)
    requires Rewrite(f.components, f.chunks, f.ji, f.bi, encode, r).None?
    ensures !Writable(f, encode, optimize)
  {
    forall r' | RepackedAs(f.gltf, f.chunks[f.bi].data, optimize, r')
      ensures Rewrite(f.components, f.chunks, f.ji, f.bi, encode, r').None?
    {
      RepackedUnique(f.gltf, f.chunks[f.bi].data, optimize, r, r');
    }
  }

  /** The written b3dm reads back: same version and tables, the byteLength
      its length, a GLB with the old version, and (for chunks with 4-byte
      types, as every well-formed GLB has) the old chunks with only the JSON
      and BIN data replaced. */
  lemma WrittenReadsBack(c: B3dm.Components, output: seq<byte>, chunks: seq<Chunk>, ji: nat, bi: nat,
                         encode: Gltf -> seq<byte>, r: Repacked)
    requires ji < |chunks| && bi < |chunks| && ji != bi && GlbParses(c.gltf)
    requires Rewrite(c, chunks, ji, bi, encode, r) == Some(output)
    requires TypesWellFormed(chunks)
    ensures B3dm.ReadB3dm(output).Ok? && ReadU32At(output, 8) == Ok(|output|)
    ensures var c' := B3dm.ReadB3dm(output).value;
            && c'.version == c.version && B3dm.Tables(c') == B3dm.Tables(c)
            && GlbParses(c'.gltf) && ReadU32At(c'.gltf, 4) == ReadU32At(c.gltf, 4)
            && var cs := Walk(c'.gltf, HEADER_LENGTH).value;
            && |cs| == |chunks|
            && cs[ji] == Chunk(chunks[ji].chunkType, PadSpaces(encode(r.gltf)))
            && cs[bi] == Chunk(chunks[bi].chunkType, r.binary)
            && forall k :: 0 <= k < |chunks| && k != ji && k != bi ==> cs[k] == chunks[k]
  {
    var newChunks := NewChunks(chunks, ji, bi, encode, r);
    var g' := Assemble(ReadU32At(c.gltf, 4).value, EncodeChunks(newChunks));
    assert B3dm.ReadB3dm(output).value == c.(gltf := g');
    ParseBuild(ReadU32At(c.gltf, 4).value, newChunks);
    assert Walk(g', HEADER_LENGTH).value == newChunks;
  }
}
