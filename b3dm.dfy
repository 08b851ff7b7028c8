/** The Batched 3D Model (b3dm) container of OGC 3D Tiles 1.0: a 28-byte
    header (magic `b3dm`, version, byteLength and the four table lengths, all
    little-endian u32) followed by the feature table JSON and binary, the batch
    table JSON and binary, and the embedded glTF. Models `read_b3dm` and
    `write_b3dm` of scripts/optimize-b3dm-textures.py, with the file replaced
    by its bytes. */
module B3dm {
  import opened Wrappers
  import opened Bytes

  const MAGIC: seq<byte> := [0x62, 0x33, 0x64, 0x6d]  // "b3dm"
  const HEADER_LENGTH: nat := 28

  /** The dictionary `read_b3dm` returns and `write_b3dm` consumes. */
  datatype Components = Components(
    version: int,
    featureTableJson: seq<byte>,
    featureTableBinary: seq<byte>,
    batchTableJson: seq<byte>,
    batchTableBinary: seq<byte>,
    gltf: seq<byte>)

  /** 28 plus the lengths of the five sections: the byteLength that
      `write_b3dm` stores. */
  function TotalLength(c: Components): nat {
    HEADER_LENGTH + |c.featureTableJson| + |c.featureTableBinary|
      + |c.batchTableJson| + |c.batchTableBinary| + |c.gltf|
  }

  /** The four tables, in file order. */
  function Tables(c: Components): seq<byte> {
    c.featureTableJson + c.featureTableBinary + c.batchTableJson + c.batchTableBinary
  }

  function Min(a: nat, b: nat): nat {
    if a <= b then a else b
  }

  /** `f.read(n)` with the file cursor at `pos`: at most `n` bytes, fewer at
      the end of the file. */
  function ReadAt(s: seq<byte>, pos: nat, n: nat): (r: seq<byte>)
    requires pos <= |s|
    ensures |r| == Min(n, |s| - pos)
    ensures r == s[pos..pos + |r|]
  {
    s[pos..Min(pos + n, |s|)]
  }

  /** The u32 at `off`, once the header is known to be long enough. */
  function FieldAt(s: seq<byte>, off: nat): nat
    requires off + 4 <= |s|
  {
    ReadU32At(s, off).value
  }

  /** A sequence is the concatenation of its pieces between cut points. */
  lemma CutAt(s: seq<byte>, p0: nat, p1: nat, p2: nat, p3: nat, p4: nat,
               a: seq<byte>, b: seq<byte>, c: seq<byte>, d: seq<byte>)
    requires p0 <= p1 <= p2 <= p3 <= p4 <= |s|
    requires a == s[p0..p1] && b == s[p1..p2] && c == s[p2..p3] && d == s[p3..p4]
    ensures s == s[..p0] + (a + b + c + d) + s[p4..]
  {
    assert s[..p1] == s[..p0] + s[p0..p1];
    assert s[..p2] == s[..p1] + s[p1..p2];
    assert s[..p3] == s[..p2] + s[p2..p3];
    assert s[..p4] == s[..p3] + s[p3..p4];
    assert s == s[..p4] + s[p4..];
  }

  /** The four tables and the glTF, read one after another from the end of
      the header with the table lengths the header gives. */
  function ReadTables(s: seq<byte>, version: int, n1: nat, n2: nat, n3: nat, n4: nat): (c: Components)
    requires HEADER_LENGTH <= |s|
    ensures c.version == version
    ensures s == s[..HEADER_LENGTH] + Tables(c) + c.gltf
    ensures HEADER_LENGTH + n1 + n2 + n3 + n4 <= |s| ==>
              |c.featureTableJson| == n1 && |c.featureTableBinary| == n2
              && |c.batchTableJson| == n3 && |c.batchTableBinary| == n4
  {
    var ftJson := ReadAt(s, HEADER_LENGTH, n1);
    var p1 := HEADER_LENGTH + |ftJson|;
    var ftBin := ReadAt(s, p1, n2);
    var p2 := p1 + |ftBin|;
    var btJson := ReadAt(s, p2, n3);
    var p3 := p2 + |btJson|;
    var btBin := ReadAt(s, p3, n4);
    var p4 := p3 + |btBin|;
    CutAt(s, HEADER_LENGTH, p1, p2, p3, p4, ftJson, ftBin, btJson, btBin);
    var c := Components(version, ftJson, ftBin, btJson, btBin, s[p4..]);
    assert Tables(c) == ftJson + ftBin + btJson + btBin;
    c
  }

  /** The sections after a complete header. */
  function ReadSections(s: seq<byte>): (c: Components)
    requires HEADER_LENGTH <= |s|
  {
    ReadTables(s, FieldAt(s, 4), FieldAt(s, 12), FieldAt(s, 16), FieldAt(s, 20), FieldAt(s, 24))
  }

  /** `read_b3dm`: rejects a wrong magic (ValueError) and a header cut short
      (struct.error); section reads past the end of the input come back short,
      as `f.read` does; the byteLength field is read and ignored, and the glTF
      is all the bytes after the batch table binary. */
  function ReadB3dm(s: seq<byte>): (r: Result<Components>)
    ensures r.Ok? <==> Slice(s, 0, 4) == MAGIC && HEADER_LENGTH <= |s|
    ensures r.Ok? ==> r.value.version == FieldAt(s, 4)
    ensures r.Ok? ==> s == s[..HEADER_LENGTH] + Tables(r.value) + r.value.gltf
    ensures r.Ok? ==> |r.value.featureTableJson| <= FieldAt(s, 12)
  {
    if Slice(s, 0, 4) != MAGIC then Err
    else if |s| < HEADER_LENGTH then
      assert ReadU32At(s, 24).Err?;
      Err
    else
      Ok(ReadSections(s))
  }

  /** The seven u32 header fields after the magic. */
  function HeaderFields(c: Components): seq<int> {
    [c.version, TotalLength(c), |c.featureTableJson|, |c.featureTableBinary|,
     |c.batchTableJson|, |c.batchTableBinary|]
  }

  /** `write_b3dm`: the header holds byteLength = 28 + the five section
      lengths and each table length, then the sections follow in order; it
      raises (struct.error) when the version or byteLength is not a u32. */
  function WriteB3dm(c: Components): (r: Result<seq<byte>>)
    ensures r.Ok? <==> IsU32(c.version) && IsU32(TotalLength(c))
    ensures r.Ok? ==> |r.value| == TotalLength(c)
    ensures r.Ok? ==> r.value[..4] == MAGIC
    ensures r.Ok? ==> ReadU32At(r.value, 4) == Ok(c.version)
    ensures r.Ok? ==> ReadU32At(r.value, 8) == Ok(TotalLength(c))
    ensures r.Ok? ==> ReadU32At(r.value, 12) == Ok(|c.featureTableJson|)
    ensures r.Ok? ==> ReadU32At(r.value, 16) == Ok(|c.featureTableBinary|)
    ensures r.Ok? ==> ReadU32At(r.value, 20) == Ok(|c.batchTableJson|)
    ensures r.Ok? ==> ReadU32At(r.value, 24) == Ok(|c.batchTableBinary|)
    ensures r.Ok? ==> r.value[HEADER_LENGTH..] == Tables(c) + c.gltf
  {
    if !IsU32(c.version) || !IsU32(TotalLength(c)) then Err
    else
      var fields := HeaderFields(c);
      var rest := Tables(c) + c.gltf;
      HeaderLayout(fields, rest);
      Ok(MAGIC + PackFields(fields) + rest)
  }

  /** The magic, six packed header fields and the rest: each field reads back
      at its offset and the rest starts at byte 28. */
  lemma HeaderLayout(fields: seq<int>, rest: seq<byte>)
    requires |fields| == 6 && forall j :: 0 <= j < 6 ==> IsU32(fields[j])
    ensures var out := MAGIC + PackFields(fields) + rest;
            && |out| == HEADER_LENGTH + |rest| && out[..4] == MAGIC && out[HEADER_LENGTH..] == rest
            && ReadU32At(out, 4) == Ok(fields[0]) && ReadU32At(out, 8) == Ok(fields[1])
            && ReadU32At(out, 12) == Ok(fields[2]) && ReadU32At(out, 16) == Ok(fields[3])
            && ReadU32At(out, 20) == Ok(fields[4]) && ReadU32At(out, 24) == Ok(fields[5])
  {
    var out := MAGIC + PackFields(fields) + rest;
    assert |MAGIC| == 4;
    ReadPackedField(MAGIC, fields, rest, 0, 4);
    ReadPackedField(MAGIC, fields, rest, 1, 8);
    ReadPackedField(MAGIC, fields, rest, 2, 12);
    ReadPackedField(MAGIC, fields, rest, 3, 16);
    ReadPackedField(MAGIC, fields, rest, 4, 20);
    ReadPackedField(MAGIC, fields, rest, 5, 24);
    assert out[HEADER_LENGTH..] == rest;
  }

  /** Two sets of components with the same version and table lengths whose
      sections join to the same bytes are the same. */
  lemma SameComponents(c: Components, d: Components)
    requires c.version == d.version
    requires |c.featureTableJson| == |d.featureTableJson| && |c.featureTableBinary| == |d.featureTableBinary|
    requires |c.batchTableJson| == |d.batchTableJson| && |c.batchTableBinary| == |d.batchTableBinary|
    requires Tables(c) + c.gltf == Tables(d) + d.gltf
    ensures c == d
  {
    var s := Tables(c) + c.gltf;
    var p1 := |c.featureTableJson|;
    var p2 := p1 + |c.featureTableBinary|;
    var p3 := p2 + |c.batchTableJson|;
    var p4 := p3 + |c.batchTableBinary|;
    assert c.featureTableJson == s[..p1] == d.featureTableJson;
    assert c.featureTableBinary == s[p1..p2] == d.featureTableBinary;
    assert c.batchTableJson == s[p2..p3] == d.batchTableJson;
    assert c.batchTableBinary == s[p3..p4] == d.batchTableBinary;
    assert c.gltf == s[p4..] == d.gltf;
  }

  /** Reading back what `write_b3dm` wrote gives the same components: the
      reader takes each table by its stored length and the rest as glTF. */
  lemma ReadWrite(c: Components)
    requires WriteB3dm(c).Ok?
    ensures ReadB3dm(WriteB3dm(c).value) == Ok(c)
  {
    WrittenHeader(c);
    WrittenTables(c);
  }

  /** The header `write_b3dm` wrote reads back as the version and the table
      lengths. */
  lemma WrittenHeader(c: Components)
    requires WriteB3dm(c).Ok?
    ensures var s := WriteB3dm(c).value;
            ReadB3dm(s) == Ok(ReadTables(s, c.version, |c.featureTableJson|, |c.featureTableBinary|,
                                         |c.batchTableJson|, |c.batchTableBinary|))
  {
    var s := WriteB3dm(c).value;
    assert Slice(s, 0, 4) == s[..4] == MAGIC;
    assert FieldAt(s, 4) == c.version && FieldAt(s, 12) == |c.featureTableJson|;
    assert FieldAt(s, 16) == |c.featureTableBinary| && FieldAt(s, 20) == |c.batchTableJson|;
    assert FieldAt(s, 24) == |c.batchTableBinary|;
  }

  /** Cut at the written table lengths, the written bytes give back the
      components. */
  lemma WrittenTables(c: Components)
    requires WriteB3dm(c).Ok?
    ensures var s := WriteB3dm(c).value;
            ReadTables(s, c.version, |c.featureTableJson|, |c.featureTableBinary|,
                       |c.batchTableJson|, |c.batchTableBinary|) == c
  {
    var s := WriteB3dm(c).value;
    var d := ReadTables(s, c.version, |c.featureTableJson|, |c.featureTableBinary|,
                        |c.batchTableJson|, |c.batchTableBinary|);
    DropPrefix(s, s[..HEADER_LENGTH], Tables(d) + d.gltf);
    SameComponents(c, d);
  }

  lemma DropPrefix(s: seq<byte>, h: seq<byte>, t: seq<byte>)
    requires s == h + t
    ensures s[|h|..] == t
  {
    assert |s[|h|..]| == |t|;
  }

  /** Where the glTF starts: for an input whose header lengths fit in it, the
      glTF payload begins exactly 28 + the four table lengths bytes in. */
  lemma GltfOffset(s: seq<byte>)
    requires ReadB3dm(s).Ok?
    requires HEADER_LENGTH + ReadU32At(s, 12).value + ReadU32At(s, 16).value
             + ReadU32At(s, 20).value + ReadU32At(s, 24).value <= |s|
    ensures ReadB3dm(s).value.gltf
            == s[HEADER_LENGTH + ReadU32At(s, 12).value + ReadU32At(s, 16).value
                 + ReadU32At(s, 20).value + ReadU32At(s, 24).value..]
  {
  }

  /** When the header's table lengths run past the end of the input, the
      tables take all of it and the glTF payload is empty. */
  lemma TablesShort(s: seq<byte>)
    requires ReadB3dm(s).Ok?
    requires HEADER_LENGTH + ReadU32At(s, 12).value + ReadU32At(s, 16).value
             + ReadU32At(s, 20).value + ReadU32At(s, 24).value > |s|
    ensures ReadB3dm(s).value.gltf == []
  {
    var c := ReadB3dm(s).value;
    assert c == ReadTables(s, FieldAt(s, 4), FieldAt(s, 12), FieldAt(s, 16), FieldAt(s, 20), FieldAt(s, 24));
  }
}
