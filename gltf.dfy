/** The part of a glTF 2.0 JSON document that the texture optimiser and the
    analyser read and write: `images`, `bufferViews` and `buffers`. A member
    that may be absent from the JSON object is an `Option`; `json.loads` and
    `json.dumps` themselves are parameters of the operations that use them. */
module GltfJson {
  import opened Wrappers

  /** An entry of `bufferViews`: `byteOffset` defaults to 0 when absent,
      `byteLength` is required (reading it raises `KeyError` when absent).
      `byteStride` stands for the members the repack leaves alone. */
  datatype BufferView = BufferView(byteOffset: Option<nat>, byteLength: Option<nat>, byteStride: Option<nat>)

  /** An entry of `images`. `bufferView` is an index into `bufferViews`;
      Python indexing also accepts negative indices. */
  datatype Image = Image(name: Option<string>, bufferView: Option<int>, mimeType: Option<string>)

  /** An entry of `buffers`; the GLB's BIN chunk is buffer 0. */
  datatype Buffer = Buffer(byteLength: Option<nat>)

  datatype Gltf = Gltf(images: Option<seq<Image>>, bufferViews: Option<seq<BufferView>>, buffers: Option<seq<Buffer>>)

  /** `bv.get('byteOffset', 0)`. */
  function OffsetOrZero(v: BufferView): nat {
    if v.byteOffset.Some? then v.byteOffset.value else 0
  }
}
