/** `analyze_b3dm` of scripts/analyze-b3dm.py: skip the b3dm header and
    tables, walk the GLB chunks keeping the last JSON and BIN chunks, and
    list, for every image that names a bufferView, its name, its byteLength
    and what the image decoder makes of its bytes. The file is its bytes;
    `decode` is `json.loads(data.decode('utf-8'))` (`None` when it raises)
    and `probe` is PIL's `Image.open` (`None` when it raises, otherwise the
    size and format it reports). */
module Analyze {
  import opened Wrappers
  import opened Bytes
  import opened GltfJson
  import opened Glb
  import B3dm

  /** One entry of `result['images']`: `info` is `None` for an entry that
      records the decoder's error instead of a size and format. */
  datatype Entry<Info> = Entry(name: string, bytes: nat, info: Option<Info>)

  /** `None` (not a b3dm, or no glTF payload), an exception that escapes,
      or the result dictionary. */
  datatype Analysis<Info> = NotB3dm | Raised | Report(images: seq<Entry<Info>>)

  const UNKNOWN: string := "unknown"

  /** The payload after the header and the four tables, `f.read()` after
      `f.read(ft_json_len + ft_bin_len + bt_json_len + bt_bin_len)`. */
  function Payload(s: seq<byte>): seq<byte>
    requires B3dm.HEADER_LENGTH <= |s|
  {
    Drop(s, B3dm.HEADER_LENGTH + ReadU32At(s, 12).value + ReadU32At(s, 16).value
            + ReadU32At(s, 20).value + ReadU32At(s, 24).value)
  }

  /** What one chunk does to the JSON and BIN data the chunk loop holds:
      a JSON chunk is decoded (an undecodable one raises), a BIN chunk is
      kept, any other chunk is skipped. */
  function Absorb(json: Option<Gltf>, bin: Option<seq<byte>>, c: Chunk, decode: seq<byte> -> Option<Gltf>)
    : Result<(Option<Gltf>, Option<seq<byte>>)>
  {
    if c.chunkType == JSON_TYPE then
      match decode(c.data)
      case None => Err
      case Some(g) => Ok((Some(g), bin))
    else if c.chunkType == BIN_TYPE then Ok((json, Some(c.data)))
    else Ok((json, bin))
  }

  /** The JSON and BIN data the chunk loop ends with, so a later chunk of a
      type replaces an earlier one. */
  function Scan(chunks: seq<Chunk>, decode: seq<byte> -> Option<Gltf>): Result<(Option<Gltf>, Option<seq<byte>>)> {
    if chunks == [] then Ok((None, None))
    else
      match Scan(chunks[..|chunks| - 1], decode)
      case Err => Err
      case Ok((json, bin)) => Absorb(json, bin, chunks[|chunks| - 1], decode)
  }

  /** Python's `xs[i]` on a list of length `n`: negative indices count from
      the end; anything else out of range raises IndexError. */
  function PyIndex(i: int, n: nat): (r: Option<nat>)
    ensures r.Some? <==> 0 <= n + i && i < n
    ensures r.Some? ==> r.value < n && (r.value == i || r.value == n + i)
  {
    if 0 <= i < n then Some(i) else if 0 <= n + i && i < 0 then Some(n + i) else None
  }

  function NameOf(img: Image): string {
    if img.name.Some? then img.name.value else UNKNOWN
  }

  /** The entry for an image that names a bufferView: a missing
      `bufferViews`, an index out of range or a missing `byteLength` raises;
      the bytes are `bin[off:off + len]` with `off` defaulting to 0. */
  function Describe<Info>(g: Gltf, bin: seq<byte>, probe: seq<byte> -> Option<Info>, img: Image): Result<Entry<Info>>
    requires img.bufferView.Some?
  {
    if g.bufferViews.None? then Err
    else
      match PyIndex(img.bufferView.value, |g.bufferViews.value|)
      case None => Err
      case Some(i) =>
        var bv := g.bufferViews.value[i];
        if bv.byteLength.None? then Err
        else
          var off := OffsetOrZero(bv);
          Ok(Entry(NameOf(img), bv.byteLength.value, probe(Slice(bin, off, off + bv.byteLength.value))))
  }

  /** The images that carry `bufferView`, in their order. */
  function WithView(images: seq<Image>): (r: seq<Image>)
    ensures |r| <= |images|
    ensures forall k :: 0 <= k < |r| ==> r[k].bufferView.Some?
  {
    if images == [] then []
    else
      var last := images[|images| - 1];
      var init := WithView(images[..|images| - 1]);
      if last.bufferView.Some? then init + [last] else init
  }

  /** The entries for a list of images that all carry `bufferView`. */
  function DescribeAll<Info>(g: Gltf, bin: seq<byte>, probe: seq<byte> -> Option<Info>, imgs: seq<Image>): (r: Result<seq<Entry<Info>>>)
    requires forall k :: 0 <= k < |imgs| ==> imgs[k].bufferView.Some?
    ensures r.Ok? ==> |r.value| == |imgs|
  {
    if imgs == [] then Ok([])
    else
      var init := imgs[..|imgs| - 1];
      assert forall k :: 0 <= k < |init| ==> init[k] == imgs[k];
      match DescribeAll(g, bin, probe, init)
      case Err => Err
      case Ok(es) =>
        match Describe(g, bin, probe, imgs[|imgs| - 1])
        case Err => Err
        case Ok(e) => Ok(es + [e])
  }

  /** A listing that succeeds holds, in order, the entry of every image,
      each of which succeeded. */
  lemma {:induction false} DescribeAllOk<Info>(g: Gltf, bin: seq<byte>, probe: seq<byte> -> Option<Info>, imgs: seq<Image>)
    requires forall k :: 0 <= k < |imgs| ==> imgs[k].bufferView.Some?
    requires DescribeAll(g, bin, probe, imgs).Ok?
    ensures forall k :: 0 <= k < |imgs| ==>
              Describe(g, bin, probe, imgs[k]).Ok?
              && DescribeAll(g, bin, probe, imgs).value[k] == Describe(g, bin, probe, imgs[k]).value
    decreases |imgs|
  {
    if imgs != [] {
      var n := |imgs| - 1;
      var init := imgs[..n];
      assert forall k :: 0 <= k < |init| ==> init[k] == imgs[k];
      DescribeAllOk(g, bin, probe, init);
      var es := DescribeAll(g, bin, probe, init).value;
      var e := Describe(g, bin, probe, imgs[n]).value;
      assert DescribeAll(g, bin, probe, imgs).value == es + [e];
    }
  }

  /** When every image's entry succeeds, so does the listing. */
  lemma {:induction false} DescribeAllComplete<Info>(g: Gltf, bin: seq<byte>, probe: seq<byte> -> Option<Info>, imgs: seq<Image>)
    requires forall k :: 0 <= k < |imgs| ==> imgs[k].bufferView.Some?
    requires forall k :: 0 <= k < |imgs| ==> Describe(g, bin, probe, imgs[k]).Ok?
    ensures DescribeAll(g, bin, probe, imgs).Ok?
    decreases |imgs|
  {
    if imgs != [] {
      var n := |imgs| - 1;
      var init := imgs[..n];
      assert forall k :: 0 <= k < |init| ==> init[k] == imgs[k];
      DescribeAllComplete(g, bin, probe, init);
      assert Describe(g, bin, probe, imgs[n]).Ok?;
    }
  }

  /** The listing succeeds exactly when every image's entry does, and then
      holds those entries in order. */
  lemma DescribeAllSpec<Info>(g: Gltf, bin: seq<byte>, probe: seq<byte> -> Option<Info>, imgs: seq<Image>)
    requires forall k :: 0 <= k < |imgs| ==> imgs[k].bufferView.Some?
    ensures var r := DescribeAll(g, bin, probe, imgs);
            r.Ok? <==> forall k :: 0 <= k < |imgs| ==> Describe(g, bin, probe, imgs[k]).Ok?
    ensures var r := DescribeAll(g, bin, probe, imgs);
            r.Ok? ==> forall k :: 0 <= k < |imgs| ==> r.value[k] == Describe(g, bin, probe, imgs[k]).value
  {
    if DescribeAll(g, bin, probe, imgs).Ok? {
      DescribeAllOk(g, bin, probe, imgs);
    }
    if forall k :: 0 <= k < |imgs| ==> Describe(g, bin, probe, imgs[k]).Ok? {
      DescribeAllComplete(g, bin, probe, imgs);
    }
  }

  /** The chunk walk from offset 12 and the scan of what it reads. */
  function WalkScan(gltf: seq<byte>, decode: seq<byte> -> Option<Gltf>): Result<(Option<Gltf>, Option<seq<byte>>)> {
    match Walk(gltf, HEADER_LENGTH)
    case Err => Err
    case Ok(chunks) => Scan(chunks, decode)
  }

  /** The image list for the JSON and BIN data the scan ended with: images
      are listed only when there is JSON, a non-empty BIN chunk and an
      `images` member (Python truthiness). */
  function Listing<Info>(json: Option<Gltf>, bin: Option<seq<byte>>, probe: seq<byte> -> Option<Info>): Result<seq<Entry<Info>>> {
    if json.Some? && bin.Some? && |bin.value| > 0 && json.value.images.Some? then
      DescribeAll(json.value, bin.value, probe, WithView(json.value.images.value))
    else Ok([])
  }

  /** What the analysis reports for a glTF payload that starts with `glTF`. */
  function Images<Info>(gltf: seq<byte>, decode: seq<byte> -> Option<Gltf>, probe: seq<byte> -> Option<Info>): Result<seq<Entry<Info>>> {
    match WalkScan(gltf, decode)
    case Err => Err
    case Ok((json, bin)) => Listing(json, bin, probe)
  }

  /** A scan that succeeds on a list succeeded on every prefix of it. */
  lemma {:induction false} ScanPrefix(a: seq<Chunk>, b: seq<Chunk>, decode: seq<byte> -> Option<Gltf>)
    requires Scan(a + b, decode).Ok?
    ensures Scan(a, decode).Ok?
    decreases |b|
  {
    if b == [] {
      assert a + b == a;
    } else {
      assert (a + b)[..|a + b| - 1] == a + b[..|b| - 1];
      ScanPrefix(a, b[..|b| - 1], decode);
    }
  }

  lemma ScanStep(a: seq<Chunk>, c: Chunk, decode: seq<byte> -> Option<Gltf>, json: Option<Gltf>, bin: Option<seq<byte>>)
    requires Scan(a, decode) == Ok((json, bin))
    ensures Scan(a + [c], decode) == Absorb(json, bin, c, decode)
  {
    assert (a + [c])[..|a|] == a;
  }

  /** A JSON chunk that does not decode makes the whole scan raise. */
  lemma DecodeFailRaises(gltf: seq<byte>, offset: nat, visited: seq<Chunk>, decode: seq<byte> -> Option<Gltf>)
    requires offset < |gltf| && ReadU32At(gltf, offset).Ok?
    requires Walk(gltf, HEADER_LENGTH) == Prepend(visited, Walk(gltf, offset))
    requires var c := ChunkAt(gltf, offset, ReadU32At(gltf, offset).value);
             c.chunkType == JSON_TYPE && decode(c.data).None?
    requires Scan(visited, decode).Ok?
    ensures Walk(gltf, HEADER_LENGTH).Ok? ==> Scan(Walk(gltf, HEADER_LENGTH).value, decode).Err?
  {
    var n := ReadU32At(gltf, offset).value;
    var c := ChunkAt(gltf, offset, n);
    var next := NextOffset(offset, n);
    WalkStep(gltf, offset, visited, next);
    var (json, bin) := Scan(visited, decode).value;
    ScanStep(visited, c, decode, json, bin);
    assert Scan(visited + [c], decode).Err?;
    if Walk(gltf, next).Ok? {
      if Scan(visited + [c] + Walk(gltf, next).value, decode).Ok? {
        ScanPrefix(visited + [c], Walk(gltf, next).value, decode);
      }
    }
  }

  /** The `while offset < len(gltf_data)` loop: walks the chunks from offset
      12, decoding each JSON chunk and keeping the last JSON and BIN data. */
  method ScanChunks(gltf: seq<byte>, decode: seq<byte> -> Option<Gltf>)
    returns (r: Result<(Option<Gltf>, Option<seq<byte>>)>)
    ensures r == WalkScan(gltf, decode)
  {
    var offset: nat := HEADER_LENGTH;
    var json: Option<Gltf> := None;
    var bin: Option<seq<byte>> := None;
    ghost var visited: seq<Chunk> := [];
    ghost var all := Walk(gltf, offset);
    assert all.Ok? ==> [] + all.value == all.value;
    assert Prepend([], all) == all;
    while offset < |gltf|
      invariant Walk(gltf, HEADER_LENGTH) == Prepend(visited, Walk(gltf, offset))
      invariant Scan(visited, decode) == Ok((json, bin))
      decreases |gltf| - offset
    {
      var chunkLength := ReadU32At(gltf, offset);
      if chunkLength.Err? {
        return Err;
      }
      var n := chunkLength.value;
      var chunkType := Slice(gltf, offset + 4, offset + 8);
      var chunkBody := Slice(gltf, offset + 8, offset + 8 + n);
      ghost var c := ChunkAt(gltf, offset, n);
      ghost var next := NextOffset(offset, n);
      WalkStep(gltf, offset, visited, next);
      ScanStep(visited, c, decode, json, bin);
      assert c == Chunk(chunkType, chunkBody);
      var step := Absorb(json, bin, Chunk(chunkType, chunkBody), decode);
      if step.Err? {
        DecodeFailRaises(gltf, offset, visited, decode);
        return Err;
      }
      json, bin := step.value.0, step.value.1;
      visited := visited + [c];
      offset := offset + 8 + n;
      offset := offset + Pad4(n);
      assert offset == next;
    }
    assert Walk(gltf, offset) == Ok([]);
    assert visited + [] == visited;
    return Ok((json, bin));
  }

  /** Every image that carries `bufferView` is listed. */
  lemma {:induction false} InWithView(images: seq<Image>, i: nat)
    requires i < |images| && images[i].bufferView.Some?
    ensures images[i] in WithView(images)
    decreases |images|
  {
    var init := images[..|images| - 1];
    if i < |images| - 1 {
      assert init[i] == images[i];
      InWithView(init, i);
    }
  }

  /** The indices of the images that carry `bufferView`, increasing. */
  function ViewIndices(images: seq<Image>): (idx: seq<nat>)
    ensures forall k :: 0 <= k < |idx| ==> idx[k] < |images| && images[idx[k]].bufferView.Some?
    ensures forall k, l :: 0 <= k < l < |idx| ==> idx[k] < idx[l]
    ensures forall i :: 0 <= i < |images| && images[i].bufferView.Some? ==> i in idx
    decreases |images|
  {
    if images == [] then []
    else
      var init := images[..|images| - 1];
      var prev := ViewIndices(init);
      assert forall k :: 0 <= k < |prev| ==> images[prev[k]] == init[prev[k]];
      if images[|images| - 1].bufferView.Some? then prev + [|images| - 1] else prev
  }

  /** `WithView` keeps the images at those indices and no others, in input
      order: a subsequence of the input. */
  lemma {:induction false} WithViewOrder(images: seq<Image>)
    ensures |WithView(images)| == |ViewIndices(images)|
    ensures forall k :: 0 <= k < |WithView(images)| ==> WithView(images)[k] == images[ViewIndices(images)[k]]
    decreases |images|
  {
    if images != [] {
      var init := images[..|images| - 1];
      WithViewOrder(init);
      var prev := ViewIndices(init);
      assert forall k :: 0 <= k < |prev| ==> images[prev[k]] == init[prev[k]];
    }
  }

  /** One image whose entry raises makes the whole listing raise. */
  lemma DescribeFails<Info>(g: Gltf, bin: seq<byte>, probe: seq<byte> -> Option<Info>, images: seq<Image>, i: nat)
    requires i < |images| && images[i].bufferView.Some? && Describe(g, bin, probe, images[i]).Err?
    ensures DescribeAll(g, bin, probe, WithView(images)).Err?
  {
    InWithView(images, i);
    DescribeAllSpec(g, bin, probe, WithView(images));
    var k :| 0 <= k < |WithView(images)| && WithView(images)[k] == images[i];
  }

  /** One more image for the loop below. */
  lemma DescribeStep<Info>(g: Gltf, bin: seq<byte>, probe: seq<byte> -> Option<Info>,
                           images: seq<Image>, i: nat, es: seq<Entry<Info>>)
    requires i < |images| && DescribeAll(g, bin, probe, WithView(images[..i])) == Ok(es)
    ensures images[i].bufferView.None? ==> DescribeAll(g, bin, probe, WithView(images[..i + 1])) == Ok(es)
    ensures images[i].bufferView.Some? ==>
              DescribeAll(g, bin, probe, WithView(images[..i + 1]))
              == (match Describe(g, bin, probe, images[i]) case Err => Err case Ok(e) => Ok(es + [e]))
  {
    var prefix := images[..i + 1];
    assert prefix[..i] == images[..i] && prefix[i] == images[i];
    var tail := WithView(images[..i]);
    if images[i].bufferView.Some? {
      assert WithView(prefix) == tail + [images[i]];
      assert (tail + [images[i]])[..|tail|] == tail;
    }
  }

  /** The `for img in json_data['images']` loop: an entry for every image
      that carries `bufferView`, in order. */
  method ListImages<Info>(g: Gltf, bin: seq<byte>, probe: seq<byte> -> Option<Info>) returns (r: Result<seq<Entry<Info>>>)
    requires g.images.Some?
    ensures r == DescribeAll(g, bin, probe, WithView(g.images.value))
  {
    var images := g.images.value;
    var entries: seq<Entry<Info>> := [];
    for i := 0 to |images|
      invariant DescribeAll(g, bin, probe, WithView(images[..i])) == Ok(entries)
    {
      var img := images[i];
      DescribeStep(g, bin, probe, images, i, entries);
      if img.bufferView.Some? {
        var e := Describe(g, bin, probe, img);
        if e.Err? {
          DescribeFails(g, bin, probe, images, i);
          return Err;
        }
        entries := entries + [e.value];
      }
    }
    assert images[..|images|] == images;
    return Ok(entries);
  }

  /** `analyze_b3dm`. */
  method AnalyzeB3dm<Info>(s: seq<byte>, decode: seq<byte> -> Option<Gltf>, probe: seq<byte> -> Option<Info>)
    returns (r: Analysis<Info>)
    ensures r.NotB3dm? <==>
              Slice(s, 0, 4) != B3dm.MAGIC
              || (B3dm.HEADER_LENGTH <= |s| && Slice(Payload(s), 0, 4) != Glb.MAGIC)
    ensures r.Raised? <==>
              Slice(s, 0, 4) == B3dm.MAGIC
              && (|s| < B3dm.HEADER_LENGTH
                  || (Slice(Payload(s), 0, 4) == Glb.MAGIC && Images(Payload(s), decode, probe).Err?))
    ensures r.Report? ==>
              B3dm.HEADER_LENGTH <= |s| && Images(Payload(s), decode, probe) == Ok(r.images)
  {
    if Slice(s, 0, 4) != B3dm.MAGIC {
      return NotB3dm;
    }
    var ftJsonLen := ReadU32At(s, 12);
    var ftBinLen := ReadU32At(s, 16);
    var btJsonLen := ReadU32At(s, 20);
    var btBinLen := ReadU32At(s, 24);
    if ftJsonLen.Err? || ftBinLen.Err? || btJsonLen.Err? || btBinLen.Err? {
      assert |s| < B3dm.HEADER_LENGTH;
      return Raised;
    }
    assert B3dm.HEADER_LENGTH <= |s|;
    var gltf := Drop(s, B3dm.HEADER_LENGTH + ftJsonLen.value + ftBinLen.value + btJsonLen.value + btBinLen.value);
    assert gltf == Payload(s);
    if Slice(gltf, 0, 4) != Glb.MAGIC {
      return NotB3dm;
    }
    var scanned := ScanChunks(gltf, decode);
    if scanned.Err? {
      return Raised;
    }
    var (json, bin) := scanned.value;
    assert Images(gltf, decode, probe) == Listing(json, bin, probe);
    if json.Some? && bin.Some? && |bin.value| > 0 && json.value.images.Some? {
      var listed := ListImages(json.value, bin.value, probe);
      if listed.Err? {
        return Raised;
      }
      return Report(listed.value);
    }
    return Report([]);
  }

  /** The last JSON and BIN chunks win: the scan succeeds exactly when every
      JSON chunk decodes, and then gives the decoding of the last JSON chunk
      and the data of the last BIN chunk. */
  lemma {:induction false} ScanLast(chunks: seq<Chunk>, decode: seq<byte> -> Option<Gltf>)
    ensures Scan(chunks, decode).Ok? <==>
              forall k :: 0 <= k < |chunks| && chunks[k].chunkType == JSON_TYPE ==> decode(chunks[k].data).Some?
    ensures Scan(chunks, decode).Ok? ==>
              var (json, bin) := Scan(chunks, decode).value;
              && json == (match LastOfType(chunks, JSON_TYPE) case None => None case Some(k) => decode(chunks[k].data))
              && bin == (match LastOfType(chunks, BIN_TYPE) case None => None case Some(k) => Some(chunks[k].data))
    decreases |chunks|
  {
    if chunks != [] {
      var init := chunks[..|chunks| - 1];
      ScanLast(init, decode);
      assert forall k :: 0 <= k < |init| ==> init[k] == chunks[k];
    }
  }

  /** The analyser finds the glTF payload where `read_b3dm` does. */
  lemma PayloadIsGltf(s: seq<byte>)
    requires B3dm.ReadB3dm(s).Ok?
    ensures Payload(s) == B3dm.ReadB3dm(s).value.gltf
  {
    var c := B3dm.ReadB3dm(s).value;
    var n := ReadU32At(s, 12).value + ReadU32At(s, 16).value + ReadU32At(s, 20).value + ReadU32At(s, 24).value;
    if B3dm.HEADER_LENGTH + n <= |s| {
      B3dm.GltfOffset(s);
    } else {
      B3dm.TablesShort(s);
    }
  }
}
