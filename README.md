# Verified model of the 3D-tiles build scripts

This repository renders a 3D-tile dataset of buildings and terrain. This project models its Python build scripts and proves properties about that model:

- **Texture optimiser** (`scripts/optimize-b3dm-textures.py`):
  - reads and writes the Batched 3D Model (b3dm) container of OGC 3D Tiles 1.0;
  - parses and rebuilds its embedded binary glTF (GLB, glTF 2.0 chapter 4);
  - repacks the GLB's BIN buffer around re-encoded images;
  - falls back to copying the input file whenever it cannot do better.
- **Analyser** (`scripts/analyze-b3dm.py`): walks the same chunk stream and lists the images it finds.
- **Filename sanitiser** (`scripts/sanitize_filenames.py`):
  - cleans tile file names;
  - plans the renames of a directory's `.b3dm` files;
  - rewrites the references to them in `tileset.json`.
- **Terrarium generator** (`scripts/generate-terrain-tiles.py`):
  - tile-grid arithmetic on longitudes;
  - the elevation-to-RGB encoding;
  - the zoom, column and row loops that select tiles and clip each tile's DEM window.
- **Quantized-mesh generator** (`scripts/generate-terrain-quantized-mesh.py`):
  - the generator object and its `dataset` field;
  - the WGS84 bounds of the dataset's corners;
  - the TMS tile loops and the per-zoom and total counts.

The rendering client (per-frame coordinate transform and tile streamer) is written in TypeScript. Its sources are not part of this model.

## Module layout

- `wrappers.dfy`: `Option` and `Result`. A raised exception is `Err` or `None`.
- `bytes.dfy`: bytes (`type byte = x: int | 0 <= x < 0x100`), Python's clamped slicing, and the little-endian u32 codec of `struct.pack/unpack('<I')`.
- `b3dm.dfy`: `read_b3dm` and `write_b3dm` as functions on byte sequences.
- `glb.dfy`: the chunk walk, `parse_glb` and `build_glb`. The two scripts' loops are methods proved equal to the walk and the encoding functions.
- `gltf.dfy`: the part of the glTF JSON that the scripts touch.
- `sort.dfy`: Python's stable `list.sort(key=...)` on enumerated indices.
- `repack.dfy`: the bufferView repack loop, the in-place update loop and the buffer layout lemmas.
- `optimize.dfy`: `process_b3dm`.
- `analyze.dfy`: `analyze_b3dm`.
- `sanitize.dfy`: `sanitize_filename` and `process_directory`.
- `tilegrid.dfy`: longitude/column arithmetic shared by both terrain generators.
- `terrain.dfy`: `elevation_to_terrarium` and `generate_tiles_for_dem`.
- `qmesh.dfy`: `TerrainTileGenerator`, a class whose `generate` method sets the `dataset` field.

Foreign code becomes a function-typed parameter of the operation that calls it. The parameters `decode`, `optimize`, `probe`, `open` and `transform` return `None` where the library call raises:

- `optimize` stands for `optimize_image`.
- `decode` and `encode` stand for `json.loads` and `json.dumps`.
- `probe` stands for PIL's `Image.open`.
- `quote` stands for `urllib.parse.quote`.
- `open` stands for `gdal.Open` and `transform` for `TransformPoint`.
- `emit` stands for `_generate_tile`, which catches its own exceptions and reports success as a boolean.
- `rowLat`, `latToTileY` and `latToRow` stand for the latitude trigonometry. They are total: the model gives every latitude a row.

Floats are modelled as exact reals; Python's `int()` on a float is `TileGrid.Trunc`.

As the code has it, `_generate_zoom_level` takes `y_min` from the south corner and `y_max` from the north corner. It then passes the TMS row to the XYZ-style `_tile_to_deg`. The model keeps both as written. `RowRangeAtMostOnce` and `ZoomAtMostOnePerColumn` state what follows. XYZ rows number from the north, so the north corner's row is at most the south corner's. In that case `y_max_tms <= y_min_tms`, and the inner loop runs at most once per column.

## Model

| member | source | states |
|---|---|---|
| Bytes.Slice | scripts/optimize-b3dm-textures.py:75-77 | Python slicing clamps both ends: the slice is never longer than the input; it is the exact subsequence when in bounds, the suffix `s[lo:]` when only the end runs past the input, and empty when the range is inverted or starts past the end |
| Bytes.Drop | scripts/analyze-b3dm.py:25 | `s[lo:]` has `len(s) - lo` bytes, or none past the end |
| Bytes.PackU32 | scripts/optimize-b3dm-textures.py:102 | `struct.pack('<I', n)` succeeds exactly when `n` is a u32, and gives 4 bytes |
| Bytes.UnpackU32 | scripts/optimize-b3dm-textures.py:68 | `struct.unpack('<I', s)` succeeds exactly on 4 bytes, and gives a u32 |
| Bytes.ReadU32At | scripts/optimize-b3dm-textures.py:75 | reading a length field succeeds exactly when 4 bytes remain at the offset |
| Bytes.UnpackPack | scripts/optimize-b3dm-textures.py:102 | round trip: unpacking a packed u32 gives it back |
| Bytes.ReadPacked | scripts/optimize-b3dm-textures.py:75 | a packed u32 anywhere in a byte sequence reads back as its value |
| Bytes.ReadPackedField | scripts/optimize-b3dm-textures.py:127-132 | header fields packed one after another read back, field `i` at offset `4*i` past the prefix |
| Bytes.Pad4 | scripts/optimize-b3dm-textures.py:84 | `(4 - n % 4) % 4` is below 4, brings `n` to a multiple of 4, and is 0 exactly when `n` already is one |
| B3dm.ReadAt | scripts/optimize-b3dm-textures.py:43-48 | `f.read(n)` returns `min(n, remaining)` bytes starting at the cursor |
| B3dm.ReadTables | scripts/optimize-b3dm-textures.py:43-51 | the input is the header, then the four tables, then the glTF; each table has the header's length when all of them fit |
| B3dm.ReadB3dm | scripts/optimize-b3dm-textures.py:27-60 | succeeds exactly when the magic is `b3dm` and the 28-byte header is complete; the version is the header's; the input splits into header, tables and glTF; byteLength is ignored |
| B3dm.WriteB3dm | scripts/optimize-b3dm-textures.py:113-139 | succeeds exactly when the version and byteLength fit in a u32; writes the magic, version, byteLength = 28 + the five section lengths, and the four table lengths, then the sections in order |
| B3dm.HeaderLayout | scripts/optimize-b3dm-textures.py:126-132 | the magic and six packed fields form a 28-byte header whose fields read back at offsets 4 to 24 |
| B3dm.ReadWrite | scripts/optimize-b3dm-textures.py:113-139 | round trip: `read_b3dm` of what `write_b3dm` wrote gives back the same components |
| B3dm.GltfOffset | scripts/optimize-b3dm-textures.py:43-51 | when the table lengths fit, the glTF is everything from byte 28 + the four table lengths onwards |
| B3dm.TablesShort | scripts/optimize-b3dm-textures.py:43-51 | when the table lengths run past the end, the glTF is empty |
| Glb.NextOffset | scripts/optimize-b3dm-textures.py:83-85 | the walk advances by 8 + the padded length, keeping 4-byte alignment |
| Glb.StartsAligned | scripts/optimize-b3dm-textures.py:72-85 | from a 4-aligned offset such as 12, every chunk header the walk reads lies inside the data on a 4-byte boundary |
| Glb.ParseGlb | scripts/optimize-b3dm-textures.py:63-87 | succeeds exactly when the magic is `glTF`, the 12-byte header is complete and every length field is complete; returns the version and the walked chunks |
| Glb.EncodeChunk | scripts/optimize-b3dm-textures.py:93-104 | one chunk is its unpadded length, its type, its data and `Pad4` bytes of padding (spaces after JSON, zeros otherwise) |
| Glb.EncodeChunksAppend | scripts/optimize-b3dm-textures.py:93-104 | one more chunk appends its encoding to the body |
| Glb.Assemble | scripts/optimize-b3dm-textures.py:106-110 | the GLB is `glTF`, the version, the total length 12 + body length, then the body |
| Glb.BuildGlb | scripts/optimize-b3dm-textures.py:90-110 | the loop builds exactly the encoded body and header; it raises exactly when some length or the version is not a u32 |
| Glb.ReadEncodedChunk | scripts/optimize-b3dm-textures.py:74-85 | the walk reads an encoded chunk back and continues just past its padding |
| Glb.WalkEncoded | scripts/optimize-b3dm-textures.py:74-85 | walking an encoded body gives back its chunks |
| Glb.ParseBuild | scripts/optimize-b3dm-textures.py:63-110 | round trip: `parse_glb(build_glb(v, cs))` is `(v, cs)` for chunks with 4-byte types |
| Glb.EncodedAligned | scripts/optimize-b3dm-textures.py:96-104 | the body of chunks with 4-byte types is a multiple of 4 long |
| Glb.LastOfType | scripts/optimize-b3dm-textures.py:192-196 | the chosen chunk is the last one of its type; `None` when there is none |
| StableSort.SortByKey | scripts/optimize-b3dm-textures.py:216-217 | the sort is a permutation of the indices |
| StableSort.SortOrdered | scripts/optimize-b3dm-textures.py:216-217 | the indices come in order of key, equal keys by index |
| StableSort.SortPermutation | scripts/optimize-b3dm-textures.py:216-217 | every index occurs exactly once, in stable order |
| StableSort.OrderedUnique | scripts/optimize-b3dm-textures.py:217 | two stable orders of the same indices are equal, so Python's stable sort gives this order |
| Repack.FirstImage | scripts/optimize-b3dm-textures.py:229-233 | the first image whose `bufferView` is the view, or `None` when no image refers to it |
| Repack.FindImage | scripts/optimize-b3dm-textures.py:229-233 | the lookup loop finds exactly that image |
| Repack.Placements | scripts/optimize-b3dm-textures.py:222-264 | the placements, when they succeed, have one entry per view in the order |
| Repack.PlacementsSpec | scripts/optimize-b3dm-textures.py:222-264 | the placements succeed exactly when every view's does, and then hold each view's placement in order |
| Repack.PlacementsRaise | scripts/optimize-b3dm-textures.py:222-264 | one view whose placement raises makes the repack raise |
| Repack.PadZero | scripts/optimize-b3dm-textures.py:259-260 | the padded bytes are the bytes followed by zeros up to a multiple of 4 |
| Repack.Parts | scripts/optimize-b3dm-textures.py:248-262 | `buffer_parts` holds every placement's padded bytes in order |
| Repack.PlaceOne | scripts/optimize-b3dm-textures.py:223-264 | one loop body gives the view's placement, its padded bytes and the `bv_updates` entry at the current offset, or raises exactly when the placement raises |
| Repack.PlaceViews | scripts/optimize-b3dm-textures.py:222-264 | the first loop succeeds exactly when the placements do; it yields the parts, an update per view at the sum of the padded sizes before it, and the image counts |
| Repack.ApplyUpdates | scripts/optimize-b3dm-textures.py:267-269 | every updated view gets its new offset and length with its other members kept; every other view stays as it was |
| Repack.RepackedUnique | scripts/optimize-b3dm-textures.py:210-276 | the repack result is determined by the JSON, the BIN data and `optimize_image` |
| Repack.RepackBuffer | scripts/optimize-b3dm-textures.py:210-276 | succeeds exactly when the placements do; the new buffer is the join of the parts in stable byteOffset order; every view is rewritten; buffer 0 gets the new length; counts as placed |
| Repack.UpdatesDistinct | scripts/optimize-b3dm-textures.py:216-220 | the entries of `bv_updates` name distinct views, one per index |
| Repack.JoinLength | scripts/optimize-b3dm-textures.py:272 | the new buffer is as long as all the padded views together |
| Repack.LayoutStarts | scripts/optimize-b3dm-textures.py:245-250 | each view's new byteOffset is a multiple of 4, and the next one starts where its padding ends |
| Repack.LayoutDisjoint | scripts/optimize-b3dm-textures.py:245-264 | the ranges of two placed views do not overlap |
| Repack.LayoutContents | scripts/optimize-b3dm-textures.py:248-272 | the new buffer holds each view's bytes at its new byteOffset |
| Repack.PlaceCopy | scripts/optimize-b3dm-textures.py:255-264 | a view no image refers to keeps its byteLength, and its bytes are its old slice, all of it when it lay inside the old buffer |
| Repack.PlaceImage | scripts/optimize-b3dm-textures.py:235-250 | an image view holds the re-encoding of its old bytes under the image's mime type, and its byteLength is the new length |
| Repack.ShrunkBound | scripts/optimize-b3dm-textures.py:252-254 | `images_processed` is at most the number of views, and positive exactly when some image got smaller |
| Optimize.SelectChunks | scripts/optimize-b3dm-textures.py:192-196 | the loop keeps the last JSON chunk and the last BIN chunk |
| Optimize.PadSpaces | scripts/optimize-b3dm-textures.py:285-288 | the serialised JSON is padded with spaces to a multiple of 4 |
| Optimize.Replaced | scripts/optimize-b3dm-textures.py:290-291 | only the data of the chosen JSON and BIN chunks changes |
| Optimize.FindJson | scripts/optimize-b3dm-textures.py:181-201 | the steps before the repack: on success the b3dm components, the parsed chunks, the last JSON and BIN chunks and the decoded JSON; nothing when the file does not parse or a chunk is missing |
| Optimize.LocateJson | scripts/optimize-b3dm-textures.py:181-201 | the reading, parsing, selecting and decoding steps compute `FindJson`, and tell a missing chunk from a step that raised |
| Optimize.Rewrite | scripts/optimize-b3dm-textures.py:284-298 | a new b3dm exists exactly when every new chunk length, the version and the total length fit in a u32; it reads back as the old components with the GLB rebuilt from the new chunks and the old GLB version, and its byteLength field is its length |
| Optimize.WriteBack | scripts/optimize-b3dm-textures.py:284-298 | serialising, padding, replacing the chunks, `build_glb` and `write_b3dm` compute `Rewrite` |
| Optimize.ProcessFound | scripts/optimize-b3dm-textures.py:203-298 | after the decode: nothing smaller exactly when the JSON lacks `images` or `bufferViews` or the repack succeeds with no image smaller; written exactly when some repack result has an image smaller and can be written; failed exactly when neither holds; copies the input unless written |
| Optimize.ProcessB3dm | scripts/optimize-b3dm-textures.py:177-309 | the output is the input unless a file is written; "no JSON/BIN chunk" exactly when the file parses and a chunk is missing; "no images to optimise" exactly when the decode succeeds and nothing got smaller; a written file exactly when the decode succeeds and some repack result is writable, and then it is `Rewrite` of the repack's result; an error exactly in every other case |
| Optimize.WrittenReadsBack | scripts/optimize-b3dm-textures.py:284-298 | the written file reads and parses back to the old version and tables, the byteLength its length, and the old chunks with only the JSON and BIN data replaced |
| Analyze.PyIndex | scripts/analyze-b3dm.py:54 | Python list indexing: negative indices count from the end; anything else out of range raises |
| Analyze.WithView | scripts/analyze-b3dm.py:52-53 | only images carrying `bufferView` are kept |
| Analyze.ViewIndices | scripts/analyze-b3dm.py:52-53 | the increasing positions of exactly the images carrying `bufferView` |
| Analyze.WithViewOrder | scripts/analyze-b3dm.py:52-53 | the kept images are the input's images at those positions, in input order |
| Analyze.DescribeAll | scripts/analyze-b3dm.py:52-72 | one entry per image when the listing succeeds |
| Analyze.DescribeAllSpec | scripts/analyze-b3dm.py:52-72 | the listing succeeds exactly when every image's entry does, and then holds those entries in order |
| Analyze.DecodeFailRaises | scripts/analyze-b3dm.py:40-41 | a JSON chunk that does not decode makes the scan raise |
| Analyze.ScanChunks | scripts/analyze-b3dm.py:31-47 | the while loop computes the walk from offset 12 and the scan of its chunks |
| Analyze.InWithView | scripts/analyze-b3dm.py:52-53 | every image carrying `bufferView` is listed |
| Analyze.DescribeFails | scripts/analyze-b3dm.py:52-72 | one image whose entry raises makes the listing raise |
| Analyze.ListImages | scripts/analyze-b3dm.py:52-72 | the for loop computes exactly the listing of the images carrying `bufferView` |
| Analyze.AnalyzeB3dm | scripts/analyze-b3dm.py:10-74 | `None` exactly when the magic is wrong or the payload does not start with `glTF`; raises exactly on a short header or a failing listing; otherwise reports the listing of the payload |
| Analyze.ScanLast | scripts/analyze-b3dm.py:35-47 | the scan succeeds exactly when every JSON chunk decodes; the last JSON chunk's decoding and the last BIN chunk's data win |
| Analyze.PayloadIsGltf | scripts/analyze-b3dm.py:16-25 | the analyser's payload, 28 + the four table lengths bytes in, is the glTF that `read_b3dm` returns |
| Sanitize.ReplaceAbsent | scripts/sanitize_filenames.py:7 | `replace` leaves a string without the pattern unchanged |
| Sanitize.ReplaceIntroduces | scripts/sanitize_filenames.py:69 | where the pattern occurs, the replacement occurs in the result |
| Sanitize.ReplaceSameLength | scripts/sanitize_filenames.py:7 | replacing by a string of equal length keeps the length |
| Sanitize.LastIndex | scripts/sanitize_filenames.py:12 | `rfind` gives the last index of a character, or -1 |
| Sanitize.SplitExt | scripts/sanitize_filenames.py:12 | `splitext` splits at the last dot of the last component unless that component is a dotfile; the halves join to the input and the extension starts with a dot |
| Sanitize.Substitute | scripts/sanitize_filenames.py:7 | each of `[`, `]`, `(`, `)` and space becomes one `_`, and nothing else changes |
| Sanitize.MapChar | scripts/sanitize_filenames.py:7 | replacing one character by another keeps the length and changes exactly the positions holding it |
| Sanitize.ReplaceChar | scripts/sanitize_filenames.py:7 | `replace` of a one-character pattern by one character is that per-position map |
| Sanitize.SubstituteChained | scripts/sanitize_filenames.py:7 | the five chained `replace` calls give `Substitute` |
| Sanitize.DoubleIff | scripts/sanitize_filenames.py:9 | `'__' in s` holds exactly when two adjacent underscores exist |
| Sanitize.SqueezeFacts | scripts/sanitize_filenames.py:9-10 | collapsing only drops underscores, keeps the first character, leaves no `__`, and changes nothing without `__` |
| Sanitize.PassShortens | scripts/sanitize_filenames.py:9-10 | each `replace('__', '_')` pass shortens the string while `__` occurs, so the loop ends |
| Sanitize.PassSqueeze | scripts/sanitize_filenames.py:10 | a pass keeps what the string collapses to |
| Sanitize.CollapseUnderscores | scripts/sanitize_filenames.py:9-10 | the while loop computes the collapse |
| Sanitize.SanitizeFilename | scripts/sanitize_filenames.py:5-15 | `sanitize_filename` is substitution, collapse, then dropping one `_` ending the stem |
| Sanitize.SanitizedClean | scripts/sanitize_filenames.py:5-15 | the result has none of `[`, `]`, `(`, `)`, space, no `__`, and is no longer than the input |
| Sanitize.SanitizedIdempotentOnClean | scripts/sanitize_filenames.py:5-15 | a clean name whose stem does not end with `_` comes back unchanged |
| Sanitize.SanitizedStem | scripts/sanitize_filenames.py:12-15 | the stem kept before the extension never ends with `_` |
| Sanitize.ResplitCounterexample | scripts/sanitize_filenames.py:12-15 | `_._` becomes `._`; splitting that again gives a stem ending in `_` |
| Sanitize.PlanRenames | scripts/sanitize_filenames.py:31-48 | the rename loop computes the plan over the listing |
| Sanitize.PlanKeepsCount | scripts/sanitize_filenames.py:37-47 | the planned renames keep the number of names in the directory, and files not yet visited are still there |
| Sanitize.PlanCardinality | scripts/sanitize_filenames.py:31-48 | the directory keeps its cardinality over the whole listing |
| Sanitize.StepRecords | scripts/sanitize_filenames.py:32-47 | a listed file adds at most one rename: a `.b3dm` name to its different, previously free sanitised name, which the directory then holds |
| Sanitize.PlanSound | scripts/sanitize_filenames.py:31-48 | every rename maps a listed `.b3dm` name to its different sanitised name, at most one per listed file |
| Sanitize.Rewritten | scripts/sanitize_filenames.py:61-79 | the replacement count is at most the number of renames |
| Sanitize.RewriteReferences | scripts/sanitize_filenames.py:61-79 | the loop replaces `dir/old` by `dir/new`, otherwise `dir/quote(old)`, counting the renames found, at most one per rename |
| Sanitize.RewriteNothingFound | scripts/sanitize_filenames.py:61-79 | a text mentioning no renamed file, plainly or quoted, comes back unchanged with count 0 |
| TileGrid.Trunc | scripts/generate-terrain-tiles.py:82 | `int()` on a float truncates toward zero |
| TileGrid.LonToTileXInRange | scripts/generate-terrain-tiles.py:79-83 | a longitude in [-180, 180) falls in a column in [0, 2^z) |
| TileGrid.TileEdges | scripts/generate-terrain-tiles.py:56-60 | `east(x) == west(x+1)`, `west(x) < east(x)`, `west(0) == -180`, `east(2^z - 1) == 180` |
| TileGrid.LonInItsColumn | scripts/generate-terrain-tiles.py:79-83 | a longitude east of -180 lies between the west and east edges of its column |
| TileGrid.WestEdgeRoundTrip | scripts/generate-terrain-tiles.py:59 | a column's west edge maps back to that column |
| TerrainTiles.Mod256 | scripts/generate-terrain-tiles.py:48 | numpy's float `% 256` lies in [0, 256) |
| TerrainTiles.Mod1 | scripts/generate-terrain-tiles.py:49 | numpy's float `% 1` lies in [0, 1) |
| TerrainTiles.Encoded | scripts/generate-terrain-tiles.py:40-44 | NaN becomes 0, infinities become the float extremes, then `e + 32768` is clipped into [0, 65535] |
| TerrainTiles.ElevationToTerrarium | scripts/generate-terrain-tiles.py:34-53 | R, G and B each lie in 0..255 |
| TerrainTiles.DecodeEncoded | scripts/generate-terrain-tiles.py:34-53 | decoding `R*256 + G + B/256 - 32768` gives the clipped value rounded down to a 1/256 step |
| TerrainTiles.DecodeInRange | scripts/generate-terrain-tiles.py:34-53 | for `e` in [-32768, 32767], `d <= e < d + 1/256` |
| TerrainTiles.DecodeInteger | scripts/generate-terrain-tiles.py:34-53 | an integer elevation in range decodes exactly |
| TerrainTiles.DecodeOutOfRange | scripts/generate-terrain-tiles.py:40-49 | out-of-range elevations and infinities decode as the clip bound, NaN as 0 |
| TerrainTiles.OverlapsIff | scripts/generate-terrain-tiles.py:146-147 | the skip test fails exactly when the tile and the DEM share a point as closed boxes |
| TerrainTiles.ClipWindow | scripts/generate-terrain-tiles.py:151-160 | the clamped window lies inside the DEM |
| TerrainTiles.TileStep | scripts/generate-terrain-tiles.py:143-163 | a tile is written only when it overlaps the DEM and its window is non-empty inside the DEM; it raises exactly when it overlaps a DEM whose bounds have zero longitude or latitude extent (`east == west` or `north == south`) |
| TerrainTiles.ScanColumn | scripts/generate-terrain-tiles.py:141-187 | the row loop adds the column's count of written tiles, or raises with it |
| TerrainTiles.GenerateZoom | scripts/generate-terrain-tiles.py:134-187 | the column loop computes the zoom's count over its tile range |
| TerrainTiles.GenerateTilesForDem | scripts/generate-terrain-tiles.py:131-194 | the total is the sum of the zoom counts for zooms 5 to 15 |
| TerrainTiles.ColumnBound | scripts/generate-terrain-tiles.py:141-187 | a column writes at most one tile per row |
| TerrainTiles.ZoomBound | scripts/generate-terrain-tiles.py:140-187 | a zoom writes at most `(x_max - x_min + 1) * (y_max - y_min + 1)` tiles |
| TerrainTiles.ColumnNoRaise | scripts/generate-terrain-tiles.py:151-154 | a DEM whose bounds have non-zero longitude and latitude extent (`east != west` and `north != south`) never makes a column raise |
| TerrainTiles.ZoomNoRaise | scripts/generate-terrain-tiles.py:151-154 | a DEM whose bounds have non-zero longitude and latitude extent never makes a zoom raise |
| TerrainTiles.TotalNoRaise | scripts/generate-terrain-tiles.py:151-154 | a DEM whose bounds have non-zero longitude and latitude extent never makes the zoom loop raise |
| QuantizedMesh.FlipInvolution | scripts/generate-terrain-quantized-mesh.py:143-145 | `y -> n-1-y` is an involution that maps [0, n) onto itself and reverses order |
| QuantizedMesh.TransformAll | scripts/generate-terrain-quantized-mesh.py:97-101 | the corner loop succeeds exactly when every corner transforms, and gives each corner's image in order |
| QuantizedMesh.MinOf | scripts/generate-terrain-quantized-mesh.py:104 | `min` is a lower bound that occurs in the list |
| QuantizedMesh.MaxOf | scripts/generate-terrain-quantized-mesh.py:104 | `max` is an upper bound that occurs in the list |
| QuantizedMesh.BoxOf | scripts/generate-terrain-quantized-mesh.py:104 | the bounds hold every corner, with `west <= east` and `south <= north` |
| QuantizedMesh.WgsBounds | scripts/generate-terrain-quantized-mesh.py:69-108 | the bounds exist exactly when there is a dataset and all four corners transform |
| QuantizedMesh.ColumnCountsSuccesses | scripts/generate-terrain-quantized-mesh.py:149-151 | a column's count is the number of its rows for which `_generate_tile` succeeded |
| QuantizedMesh.ZoomCountsSuccesses | scripts/generate-terrain-quantized-mesh.py:147-153 | `tile_count` is the number of `(x, y_tms)` pairs for which `_generate_tile` succeeded |
| QuantizedMesh.ColumnBound | scripts/generate-terrain-quantized-mesh.py:149-151 | a column writes at most one tile per row of its range |
| QuantizedMesh.ZoomBound | scripts/generate-terrain-quantized-mesh.py:147-153 | `tile_count` is at most the number of loop iterations |
| QuantizedMesh.RowRangeAtMostOnce | scripts/generate-terrain-quantized-mesh.py:139-145 | as written, `y_min_tms = n-1-row(north)` and `y_max_tms = n-1-row(south)`; when row(north) <= row(south), as for XYZ rows, `y_max_tms <= y_min_tms`, so the y loop covers at most one row |
| QuantizedMesh.ZoomAtMostOnePerColumn | scripts/generate-terrain-quantized-mesh.py:134-153 | hence a zoom writes at most one tile per column |
| QuantizedMesh.TerrainTileGenerator.constructor | scripts/generate-terrain-quantized-mesh.py:29-33 | the generator stores its input, output directory and name, with no dataset yet |
| QuantizedMesh.TerrainTileGenerator.GetBoundsWgs84 | scripts/generate-terrain-quantized-mesh.py:69-108 | the corner loop and min/max give the WGS84 box of the dataset's corners, or `None` |
| QuantizedMesh.TerrainTileGenerator.GenerateZoomLevel | scripts/generate-terrain-quantized-mesh.py:134-153 | the flip and the two loops count the tiles written over the zoom's range |
| QuantizedMesh.TerrainTileGenerator.Generate | scripts/generate-terrain-quantized-mesh.py:35-67 | sets `dataset` to the opened file; succeeds exactly when the bounds exist; the total is the sum of the zoom counts for zooms 0 to max_zoom, which defaults to 14 |

## Left out

- File and directory I/O are left out: `open`, `shutil.copy`, `os.rename`, `os.listdir`, `mkdir` and the writing of tiles. Files are byte sequences and a directory is a set of names. `process_b3dm`'s copy of the input is modelled as an output equal to the input.
- JSON text is left out: `json.loads` and `json.dumps` are the parameters `decode` and `encode`, and the glTF JSON is a record of `images`, `bufferViews` and `buffers`. Members of other JSON types (a string `byteOffset`, a negative `byteOffset`) are not modelled.
- `optimize_image` and all PIL decoding, resizing and encoding are the parameter `optimize`. The analyser's size and format reporting is the parameter `probe`.
- Everything that only prints, `process_b3dm`'s file-size report and the `main` drivers are left out. That covers the process pool, the directory globbing, and the per-DEM sum in `generate-terrain-tiles.py`.
- GDAL, osr, rasterio and numpy reprojection and resampling are left out, as are `_read_heights` and `quantized_mesh_encoder.encode`. Together with writing the file, they form the parameter `emit` of the quantized-mesh loops.
- `_create_layer_json` and the `mkdir` before it (`scripts/generate-terrain-quantized-mesh.py:54-57`) run once in `generate` and are left out, including the exception either raises when the directory or `layer.json` cannot be written.
- The latitude trigonometry is left uninterpreted: `lat_to_tile_y`, the `y` of `_deg_to_tile`, and the latitudes of `tile_bounds` / `_tile_to_deg`.
- The `math.log` domain error of `lat_to_tile_y` (`scripts/generate-terrain-tiles.py:75`) and of `_deg_to_tile` (`scripts/generate-terrain-quantized-mesh.py:159`, called at lines 139-140 outside any `try`) is not modelled: the parameters `latToTileY` and `latToRow` always return a row. At a pole the scripts raise where the model goes on.
- Floating point is modelled as exact reals: rounding and overflow are not, and NaN only as a DEM sample.
- `urllib.parse.quote` is the parameter `quote`.
- The test `tile_dem.size == 0` (`scripts/generate-terrain-tiles.py:169`) is not modelled. A window that reaches it is already non-empty, so the test never fires.
- The numpy array shapes of `elevation_to_terrarium` are left out: the encoding is stated per sample.
- `scripts/nspd-fetcher.py` and `scripts/tile-server.py` are not part of this model (a network client and an HTTP endpoint).
- Sanitize.PlanSound: does not itself state that the directory holds each new name after the whole plan. That is true only until a later rename removes it; `StepRecords` states the per-step fact.
- Optimize.WrittenReadsBack: states the chunk-level round trip only for chunks with 4-byte types. A GLB whose last chunk is cut short can have a shorter type, and then the rebuilt file does not parse back to the same chunks.
