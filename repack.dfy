/** The BIN buffer repack of `process_b3dm` in
    scripts/optimize-b3dm-textures.py: the bufferViews are visited in stable
    order of their old byteOffset, each image view is replaced by its
    re-encoded image, every view is appended to the new buffer padded with
    zeros to a multiple of 4, and the views' byteOffset/byteLength and
    buffer 0's byteLength are rewritten. The image re-encoder (`optimize_image`
    with its size and quality settings) is the parameter `optimize`; `None`
    stands for any exception it raises. */
module Repack {
  import opened Wrappers
  import opened Bytes
  import opened GltfJson
  import opened StableSort

  const DEFAULT_MIME: string := "image/jpeg"

  /** What one view contributes: the bytes it puts in the new buffer (before
      padding), the byteLength recorded for it, whether it is an image and,
      for an image, the size of the bytes it was re-encoded from. */
  datatype Placement = Placement(data: seq<byte>, length: nat, image: bool, oldSize: nat)

  /** What the repack reads: the bufferViews and images of the glTF JSON,
      the old BIN chunk data and the image re-encoder. */
  datatype Source = Source(views: seq<BufferView>, images: seq<Image>, bin: seq<byte>,
                           optimize: (seq<byte>, string) -> Option<seq<byte>>)

  /** An entry of `bv_updates`: view index, new offset, new length. */
  datatype Update = Update(index: nat, offset: nat, length: nat)

  predicate IndicesIn(order: seq<nat>, n: nat) {
    forall t :: 0 <= t < |order| ==> order[t] < n
  }

  /** The lookup `for i, img in enumerate(images): if img.get('bufferView') == idx: break`. */
  function FirstImage(images: seq<Image>, idx: nat): (r: Option<nat>)
    ensures r.Some? ==> r.value < |images| && images[r.value].bufferView == Some(idx as int)
    ensures r.Some? ==> forall i :: 0 <= i < r.value ==> images[i].bufferView != Some(idx as int)
    ensures r.None? ==> forall i :: 0 <= i < |images| ==> images[i].bufferView != Some(idx as int)
  {
    if images == [] then None
    else if images[0].bufferView == Some(idx as int) then Some(0)
    else
      match FirstImage(images[1..], idx)
      case None => None
      case Some(i) => Some(i + 1)
  }

  /** The lookup loop itself. */
  method FindImage(images: seq<Image>, idx: nat) returns (r: Option<nat>)
    ensures r == FirstImage(images, idx)
  {
    for i := 0 to |images|
      invariant forall k :: 0 <= k < i ==> images[k].bufferView != Some(idx as int)
    {
      if images[i].bufferView == Some(idx as int) {
        return Some(i);
      }
    }
    return None;
  }

  /** `gltf_json['images'][img_idx].get('mimeType', 'image/jpeg')`. */
  function MimeOf(img: Image): string {
    if img.mimeType.Some? then img.mimeType.value else DEFAULT_MIME
  }

  /** The bytes of view `v` in the old buffer, `old_binary[off:off + len]`. */
  function OldBytes(bin: seq<byte>, v: BufferView): seq<byte>
    requires v.byteLength.Some?
  {
    Slice(bin, OffsetOrZero(v), OffsetOrZero(v) + v.byteLength.value)
  }

  /** One iteration of the repack loop for view `idx`: a missing byteLength
      raises, an image view is re-encoded (which may raise), any other view
      is copied with its byteLength kept. */
  function Place(src: Source, idx: nat): Result<Placement>
    requires idx < |src.views|
  {
    var v := src.views[idx];
    if v.byteLength.None? then Err
    else
      var before := OldBytes(src.bin, v);
      match FirstImage(src.images, idx)
      case None => Ok(Placement(before, v.byteLength.value, false, |before|))
      case Some(i) =>
        match src.optimize(before, MimeOf(src.images[i]))
        case None => Err
        case Some(d) => Ok(Placement(d, |d|, true, |before|))
  }

  /** The placements of the views in `order`, or an error if any raises. */
  function Placements(src: Source, order: seq<nat>): (r: Result<seq<Placement>>)
    requires IndicesIn(order, |src.views|)
    ensures r.Ok? ==> |r.value| == |order|
    decreases |order|
  {
    if order == [] then Ok([])
    else
      var init := order[..|order| - 1];
      assert forall t :: 0 <= t < |init| ==> init[t] == order[t];
      match Placements(src, init)
      case Err => Err
      case Ok(ps) =>
        match Place(src, order[|order| - 1])
        case Err => Err
        case Ok(p) => Ok(ps + [p])
  }

  /** Placements that succeed are, in order, the placement of every view,
      each of which succeeded. */
  lemma {:induction false} PlacementsOk(src: Source, order: seq<nat>)
    requires IndicesIn(order, |src.views|) && Placements(src, order).Ok?
    ensures forall t :: 0 <= t < |order| ==>
              Place(src, order[t]).Ok? && Placements(src, order).value[t] == Place(src, order[t]).value
    decreases |order|
  {
    if order != [] {
      var n := |order| - 1;
      var init := order[..n];
      assert forall t :: 0 <= t < |init| ==> init[t] == order[t];
      PlacementsOk(src, init);
      var ps := Placements(src, init).value;
      var p := Place(src, order[n]).value;
      assert Placements(src, order).value == ps + [p];
    }
  }

  /** When every view's placement succeeds, so do the placements. */
  lemma {:induction false} PlacementsComplete(src: Source, order: seq<nat>)
    requires IndicesIn(order, |src.views|)
    requires forall t :: 0 <= t < |order| ==> Place(src, order[t]).Ok?
    ensures Placements(src, order).Ok?
    decreases |order|
  {
    if order != [] {
      var n := |order| - 1;
      var init := order[..n];
      assert forall t :: 0 <= t < |init| ==> init[t] == order[t];
      PlacementsComplete(src, init);
      assert Place(src, order[n]).Ok?;
    }
  }

  /** The placements succeed exactly when every view's does, and then hold
      each view's placement in order. */
  lemma PlacementsSpec(src: Source, order: seq<nat>)
    requires IndicesIn(order, |src.views|)
    ensures Placements(src, order).Ok? <==> forall t :: 0 <= t < |order| ==> Place(src, order[t]).Ok?
    ensures Placements(src, order).Ok? ==>
              forall t :: 0 <= t < |order| ==> Placements(src, order).value[t] == Place(src, order[t]).value
  {
    if Placements(src, order).Ok? {
      PlacementsOk(src, order);
    }
    if forall t :: 0 <= t < |order| ==> Place(src, order[t]).Ok? {
      PlacementsComplete(src, order);
    }
  }

  /** A view whose placement raises makes the placements raise. */
  lemma PlacementsRaise(src: Source, order: seq<nat>, t: nat)
    requires IndicesIn(order, |src.views|) && t < |order| && Place(src, order[t]).Err?
    ensures Placements(src, order).Err?
  {
    if Placements(src, order).Ok? {
      PlacementsOk(src, order);
    }
  }

  /** `data + b'\x00' * padding`. */
  function PadZero(d: seq<byte>): (r: seq<byte>)
    ensures |r| == Padded(|d|) && r[..|d|] == d
  {
    d + Repeat(0, Pad4(|d|))
  }

  /** The list `buffer_parts`. */
  function Parts(ps: seq<Placement>): (r: seq<seq<byte>>)
    ensures |r| == |ps| && forall k :: 0 <= k < |ps| ==> r[k] == PadZero(ps[k].data)
  {
    seq(|ps|, k requires 0 <= k < |ps| => PadZero(ps[k].data))
  }

  /** `b''.join(parts)`. */
  function Join(parts: seq<seq<byte>>): seq<byte> {
    if parts == [] then [] else Join(parts[..|parts| - 1]) + parts[|parts| - 1]
  }

  /** The padded sizes of the placements, added up. */
  function SumPadded(ps: seq<Placement>): nat {
    if ps == [] then 0 else SumPadded(ps[..|ps| - 1]) + Padded(|ps[|ps| - 1].data|)
  }

  /** The new byteOffset of the `t`-th view placed. */
  function Start(ps: seq<Placement>, t: nat): nat
    requires t <= |ps|
  {
    SumPadded(ps[..t])
  }

  /** `images_processed`: images whose re-encoding is smaller. */
  function Shrunk(ps: seq<Placement>): nat {
    if ps == [] then 0
    else
      var p := ps[|ps| - 1];
      Shrunk(ps[..|ps| - 1]) + if p.image && |p.data| < p.oldSize then 1 else 0
  }

  /** `total_saved`: the bytes those images gave up. */
  function Saved(ps: seq<Placement>): nat {
    if ps == [] then 0
    else
      var p := ps[|ps| - 1];
      Saved(ps[..|ps| - 1]) + if p.image && |p.data| < p.oldSize then p.oldSize - |p.data| else 0
  }

  lemma SnocPrefix(ps: seq<Placement>, p: Placement)
    ensures (ps + [p])[..|ps|] == ps && (ps + [p])[|ps|] == p
  {
    assert |(ps + [p])[..|ps|]| == |ps|;
  }

  /** One more placement extends the placements of the prefix. */
  lemma PlacementsSnoc(src: Source, order: seq<nat>, t: nat, ps: seq<Placement>, p: Placement)
    requires IndicesIn(order, |src.views|) && t < |order|
    requires Placements(src, order[..t]) == Ok(ps) && Place(src, order[t]) == Ok(p)
    ensures Placements(src, order[..t + 1]) == Ok(ps + [p])
  {
    assert order[..t + 1][..t] == order[..t];
  }

  lemma PartsSnoc(ps: seq<Placement>, p: Placement)
    ensures Parts(ps + [p]) == Parts(ps) + [PadZero(p.data)]
  {
    SnocPrefix(ps, p);
    assert |Parts(ps + [p])| == |Parts(ps) + [PadZero(p.data)]|;
  }

  /** Placing one more view does not move the views placed before it. */
  lemma StartSnoc(ps: seq<Placement>, p: Placement, k: nat)
    requires k <= |ps|
    ensures Start(ps + [p], k) == Start(ps, k)
  {
    assert (ps + [p])[..k] == ps[..k];
  }

  /** The `bv_updates` entries for the placements so far: each view's index
      with its new offset and length. */
  function UpdatesOf(order: seq<nat>, ps: seq<Placement>): (r: seq<Update>)
    requires |ps| <= |order|
    ensures |r| == |ps|
    ensures forall k :: 0 <= k < |ps| ==> r[k] == Update(order[k], Start(ps, k), ps[k].length)
  {
    seq(|ps|, k requires 0 <= k < |ps| => Update(order[k], Start(ps, k), ps[k].length))
  }

  /** The `bv_updates` entries after one more placement. */
  lemma UpdatesSnoc(order: seq<nat>, ps: seq<Placement>, p: Placement)
    requires |ps| < |order|
    ensures UpdatesOf(order, ps + [p]) == UpdatesOf(order, ps) + [Update(order[|ps|], SumPadded(ps), p.length)]
  {
    var a := UpdatesOf(order, ps + [p]);
    var b := UpdatesOf(order, ps) + [Update(order[|ps|], SumPadded(ps), p.length)];
    forall k | 0 <= k < |ps| + 1 ensures a[k] == b[k] {
      UpdatesSnocAt(order, ps, p, k);
    }
  }

  lemma UpdatesSnocAt(order: seq<nat>, ps: seq<Placement>, p: Placement, k: nat)
    requires |ps| < |order| && k <= |ps|
    ensures UpdatesOf(order, ps + [p])[k] == (UpdatesOf(order, ps) + [Update(order[|ps|], SumPadded(ps), p.length)])[k]
  {
    SnocPrefix(ps, p);
    StartSnoc(ps, p, k);
    if k == |ps| {
      assert ps[..k] == ps;
    }
  }

  /** The loop's bookkeeping after one more view is placed. */
  lemma PlaceAdvance(src: Source, order: seq<nat>, t: nat, ps: seq<Placement>, p: Placement, update: Update)
    requires IndicesIn(order, |src.views|) && t < |order| && |ps| == t
    requires Placements(src, order[..t]) == Ok(ps) && Place(src, order[t]) == Ok(p)
    requires update == Update(order[t], SumPadded(ps), p.length)
    ensures Placements(src, order[..t + 1]) == Ok(ps + [p])
    ensures Parts(ps + [p]) == Parts(ps) + [PadZero(p.data)]
    ensures SumPadded(ps + [p]) == SumPadded(ps) + Padded(|p.data|)
    ensures UpdatesOf(order, ps + [p]) == UpdatesOf(order, ps) + [update]
    ensures Shrunk(ps + [p]) == Shrunk(ps) + if p.image && |p.data| < p.oldSize then 1 else 0
    ensures Saved(ps + [p]) == Saved(ps) + if p.image && |p.data| < p.oldSize then p.oldSize - |p.data| else 0
  {
    PlacementsSnoc(src, order, t, ps, p);
    PartsSnoc(ps, p);
    SnocPrefix(ps, p);
    UpdatesSnoc(order, ps, p);
  }

  /** The body of the first loop for view `idx`: the padded bytes for
      `buffer_parts`, the `bv_updates` entry at `current` and the
      placement. */
  method PlaceOne(src: Source, idx: nat, current: nat) returns (r: Result<(seq<byte>, Update, Placement)>)
    requires idx < |src.views|
    ensures r.Err? ==> Place(src, idx).Err?
    ensures r.Ok? ==> && Place(src, idx) == Ok(r.value.2)
                      && r.value.0 == PadZero(r.value.2.data)
                      && r.value.1 == Update(idx, current, r.value.2.length)
  {
    var bv := src.views[idx];
    var oldOffset := OffsetOrZero(bv);
    if bv.byteLength.None? {
      return Err;
    }
    var oldLength := bv.byteLength.value;
    var imgIdx := FindImage(src.images, idx);
    if imgIdx.Some? {
      var imgData := Slice(src.bin, oldOffset, oldOffset + oldLength);
      var mime := MimeOf(src.images[imgIdx.value]);
      var optimized := src.optimize(imgData, mime);
      if optimized.None? {
        return Err;
      }
      var newData := optimized.value;
      var padded := newData + Repeat(0, Pad4(|newData|));
      return Ok((padded, Update(idx, current, |newData|), Placement(newData, |newData|, true, |imgData|)));
    } else {
      var data := Slice(src.bin, oldOffset, oldOffset + oldLength);
      var padded := data + Repeat(0, Pad4(|data|));
      return Ok((padded, Update(idx, current, oldLength), Placement(data, oldLength, false, |data|)));
    }
  }

  /** The first loop: appends each view's padded bytes to `buffer_parts`,
      records its new offset and length in `bv_updates` and advances
      `current_offset`; counts the images that got smaller and the bytes
      saved. */
  method PlaceViews(src: Source, order: seq<nat>) returns (r: Result<(seq<seq<byte>>, seq<Update>, nat, nat)>)
    requires IndicesIn(order, |src.views|)
    ensures r.Ok? <==> Placements(src, order).Ok?
    ensures r.Ok? ==>
              var ps := Placements(src, order).value;
              && r.value.0 == Parts(ps)
              && |r.value.1| == |order|
              && (forall t :: 0 <= t < |order| ==> r.value.1[t] == Update(order[t], Start(ps, t), ps[t].length))
              && r.value.2 == Shrunk(ps) && r.value.3 == Saved(ps)
  {
    var parts: seq<seq<byte>> := [];
    var updates: seq<Update> := [];
    var current: nat := 0;
    var saved: nat := 0;
    var processed: nat := 0;
    ghost var ps: seq<Placement> := [];
    for t := 0 to |order|
      invariant |ps| == t && Placements(src, order[..t]) == Ok(ps)
      invariant parts == Parts(ps) && current == SumPadded(ps)
      invariant updates == UpdatesOf(order, ps)
      invariant processed == Shrunk(ps) && saved == Saved(ps)
    {
      var step := PlaceOne(src, order[t], current);
      if step.Err? {
        PlacementsRaise(src, order, t);
        return Err;
      }
      var (padded, update, p) := step.value;
      PlaceAdvance(src, order, t, ps, p, update);
      parts := parts + [padded];
      updates := updates + [update];
      current := current + |padded|;
      if p.image && |p.data| < p.oldSize {
        saved := saved + (p.oldSize - |p.data|);
        processed := processed + 1;
      }
      ps := ps + [p];
    }
    assert order[..|order|] == order;
    return Ok((parts, updates, processed, saved));
  }

  /** The indices of `bv_updates` are distinct: it is a dict keyed by them. */
  predicate DistinctIndices(updates: seq<Update>) {
    forall u, w :: 0 <= u < w < |updates| ==> updates[u].index != updates[w].index
  }

  function Rewritten(v: BufferView, up: Update): BufferView {
    v.(byteOffset := Some(up.offset), byteLength := Some(up.length))
  }

  /** The second loop: writes each update's offset and length into its view,
      in place; every other member of the view is left alone. */
  method ApplyUpdates(views: seq<BufferView>, updates: seq<Update>) returns (vs: seq<BufferView>)
    requires forall u :: 0 <= u < |updates| ==> updates[u].index < |views|
    requires DistinctIndices(updates)
    ensures |vs| == |views|
    ensures forall u :: 0 <= u < |updates| ==> vs[updates[u].index] == Rewritten(views[updates[u].index], updates[u])
    ensures forall i :: 0 <= i < |views| && (forall u :: 0 <= u < |updates| ==> updates[u].index != i) ==> vs[i] == views[i]
  {
    vs := views;
    for u := 0 to |updates|
      invariant |vs| == |views|
      invariant forall w :: 0 <= w < u ==> vs[updates[w].index] == Rewritten(views[updates[w].index], updates[w])
      invariant forall i :: 0 <= i < |views| && (forall w :: 0 <= w < u ==> updates[w].index != i) ==> vs[i] == views[i]
    {
      var up := updates[u];
      vs := vs[up.index := Rewritten(vs[up.index], up)];
    }
  }

  /** The indices of the bufferViews sorted by `byteOffset` (default 0), stably. */
  function Order(views: seq<BufferView>): (r: seq<nat>)
    ensures IndicesIn(r, |views|)
  {
    SortByKey(seq(|views|, i requires 0 <= i < |views| => OffsetOrZero(views[i]) as int))
  }

  /** What the repack produces: the updated glTF JSON, the new BIN data, the
      number of images that got smaller and the bytes they saved. */
  datatype Repacked = Repacked(gltf: Gltf, binary: seq<byte>, processed: nat, saved: nat)

  /** `buffers[0]['byteLength'] = n` when there is a buffer 0. */
  function SetFirstLength(buffers: Option<seq<Buffer>>, n: nat): Option<seq<Buffer>> {
    if buffers.Some? && |buffers.value| > 0 then Some(buffers.value[0 := buffers.value[0].(byteLength := Some(n))])
    else buffers
  }

  /** The repack's promise for a glTF with `images` and `bufferViews`: the
      new buffer is the placed views in stable byteOffset order, every view
      gets its new offset and length, buffer 0 gets the new length, and the
      counts are those of the images that got smaller. */
  predicate RepackedAs(g: Gltf, bin: seq<byte>, optimize: (seq<byte>, string) -> Option<seq<byte>>, r: Repacked)
    requires g.images.Some? && g.bufferViews.Some?
  {
    var views := g.bufferViews.value;
    var order := Order(views);
    var src := Source(views, g.images.value, bin, optimize);
    && Placements(src, order).Ok?
    && var ps := Placements(src, order).value;
    && r.binary == Join(Parts(ps))
    && r.gltf.images == g.images
    && r.gltf.buffers == SetFirstLength(g.buffers, |r.binary|)
    && r.gltf.bufferViews.Some? && |r.gltf.bufferViews.value| == |views|
    && (forall t :: 0 <= t < |order| ==>
          r.gltf.bufferViews.value[order[t]] == Rewritten(views[order[t]], Update(order[t], Start(ps, t), ps[t].length)))
    && r.processed == Shrunk(ps) && r.saved == Saved(ps)
  }

  /** Two view lists that agree at every index the order names are equal
      when the order names every index. */
  lemma AgreeOnOrder(a: seq<BufferView>, b: seq<BufferView>, order: seq<nat>)
    requires |a| == |b|
    requires forall i :: 0 <= i < |a| ==> i in order
    requires forall t :: 0 <= t < |order| && order[t] < |a| ==> a[order[t]] == b[order[t]]
    ensures a == b
  {
    forall i | 0 <= i < |a| ensures a[i] == b[i] {
      assert i in order;
      var t :| 0 <= t < |order| && order[t] == i;
    }
  }

  /** The promise determines the result: the order names every view, so
      every view of the new JSON is fixed. */
  lemma RepackedUnique(g: Gltf, bin: seq<byte>, optimize: (seq<byte>, string) -> Option<seq<byte>>, r1: Repacked, r2: Repacked)
    requires g.images.Some? && g.bufferViews.Some?
    requires RepackedAs(g, bin, optimize, r1) && RepackedAs(g, bin, optimize, r2)
    ensures r1 == r2
  {
    var views := g.bufferViews.value;
    SortPermutation(seq(|views|, i requires 0 <= i < |views| => OffsetOrZero(views[i]) as int));
    AgreeOnOrder(r1.gltf.bufferViews.value, r2.gltf.bufferViews.value, Order(views));
  }

  /** Lines 210-276 of `process_b3dm`, for a glTF that has both `images` and
      `bufferViews`. */
  method RepackBuffer(g: Gltf, bin: seq<byte>, optimize: (seq<byte>, string) -> Option<seq<byte>>)
    returns (r: Result<Repacked>)
    requires g.images.Some? && g.bufferViews.Some?
    ensures r.Ok? <==> Placements(Source(g.bufferViews.value, g.images.value, bin, optimize), Order(g.bufferViews.value)).Ok?
    ensures r.Ok? ==> RepackedAs(g, bin, optimize, r.value)
  {
    var views := g.bufferViews.value;
    var src := Source(views, g.images.value, bin, optimize);
    var order := Order(views);
    var placed := PlaceViews(src, order);
    if placed.Err? {
      return Err;
    }
    var (parts, updates, processed, saved) := placed.value;
    ghost var ps := Placements(src, order).value;
    UpdatesDistinct(views, ps, updates);
    var newViews := ApplyUpdates(views, updates);
    var newBinary := Join(parts);
    var buffers := SetFirstLength(g.buffers, |newBinary|);
    var out := Repacked(Gltf(g.images, Some(newViews), buffers), newBinary, processed, saved);
    RepackedHolds(g, bin, optimize, ps, updates, out);
    return Ok(out);
  }

  /** The updates name each view at most once, since the order lists every
      index once. */
  lemma UpdatesDistinct(views: seq<BufferView>, ps: seq<Placement>, updates: seq<Update>)
    requires |ps| == |Order(views)| && |updates| == |Order(views)|
    requires forall t :: 0 <= t < |updates| ==> updates[t] == Update(Order(views)[t], Start(ps, t), ps[t].length)
    ensures forall u :: 0 <= u < |updates| ==> updates[u].index < |views|
    ensures DistinctIndices(updates)
  {
    var order := Order(views);
    SortPermutation(seq(|views|, i requires 0 <= i < |views| => OffsetOrZero(views[i]) as int));
    forall u | 0 <= u < |updates| ensures updates[u].index == order[u] {
    }
  }

  /** The pieces the method assembles meet the repack's promise. */
  lemma RepackedHolds(g: Gltf, bin: seq<byte>, optimize: (seq<byte>, string) -> Option<seq<byte>>,
                      ps: seq<Placement>, updates: seq<Update>, r: Repacked)
    requires g.images.Some? && g.bufferViews.Some?
    requires var src := Source(g.bufferViews.value, g.images.value, bin, optimize);
             Placements(src, Order(g.bufferViews.value)) == Ok(ps)
    requires |ps| == |Order(g.bufferViews.value)| && |updates| == |ps|
    requires forall t :: 0 <= t < |updates| ==>
               updates[t] == Update(Order(g.bufferViews.value)[t], Start(ps, t), ps[t].length)
    requires r.binary == Join(Parts(ps)) && r.gltf.images == g.images
    requires r.gltf.buffers == SetFirstLength(g.buffers, |r.binary|)
    requires r.gltf.bufferViews.Some? && |r.gltf.bufferViews.value| == |g.bufferViews.value|
    requires forall u :: 0 <= u < |updates| && updates[u].index < |g.bufferViews.value| ==>
               r.gltf.bufferViews.value[updates[u].index] == Rewritten(g.bufferViews.value[updates[u].index], updates[u])
    requires r.processed == Shrunk(ps) && r.saved == Saved(ps)
    ensures RepackedAs(g, bin, optimize, r)
  {
    var views := g.bufferViews.value;
    var order := Order(views);
    forall t | 0 <= t < |order|
      ensures r.gltf.bufferViews.value[order[t]] == Rewritten(views[order[t]], Update(order[t], Start(ps, t), ps[t].length))
    {
      assert updates[t].index == order[t];
    }
  }

  lemma {:induction false} JoinLength(ps: seq<Placement>)
    ensures |Join(Parts(ps))| == SumPadded(ps)
    decreases |ps|
  {
    if ps != [] {
      var init := ps[..|ps| - 1];
      PartsPrefix(ps, |ps| - 1);
      JoinLength(init);
    }
  }

  lemma {:induction false} SumAligned(ps: seq<Placement>)
    ensures Aligned(SumPadded(ps))
    decreases |ps|
  {
    if ps != [] {
      SumAligned(ps[..|ps| - 1]);
      AlignedSum(SumPadded(ps[..|ps| - 1]), Padded(|ps[|ps| - 1].data|));
    }
  }

  /** The views follow each other without gaps: each starts on a 4-byte
      boundary where the previous one's padding ends, and the buffer is as
      long as all the padded views together. */
  lemma LayoutStarts(ps: seq<Placement>, t: nat)
    requires t < |ps|
    ensures Aligned(Start(ps, t))
    ensures Start(ps, t + 1) == Start(ps, t) + Padded(|ps[t].data|)
    ensures |Join(Parts(ps))| == Start(ps, |ps|)
  {
    SumAligned(ps[..t]);
    assert ps[..t + 1][..t] == ps[..t];
    JoinLength(ps);
    assert ps[..|ps|] == ps;
  }

  /** Placed views do not overlap. */
  lemma {:induction false} LayoutDisjoint(ps: seq<Placement>, t: nat, u: nat)
    requires t < u < |ps|
    ensures Start(ps, t) + Padded(|ps[t].data|) <= Start(ps, u)
    decreases u - t
  {
    LayoutStarts(ps, t);
    if t + 1 < u {
      LayoutDisjoint(ps, t + 1, u);
      LayoutStarts(ps, t + 1);
    }
  }

  lemma {:induction false} JoinConcat(a: seq<seq<byte>>, b: seq<seq<byte>>)
    ensures Join(a + b) == Join(a) + Join(b)
    decreases |b|
  {
    if b == [] {
      assert a + b == a;
    } else {
      var init := b[..|b| - 1];
      assert (a + b)[..|a + b| - 1] == a + init;
      JoinConcat(a, init);
    }
  }

  lemma JoinSplit(parts: seq<seq<byte>>, t: nat)
    requires t < |parts|
    ensures Join(parts) == Join(parts[..t]) + parts[t] + Join(parts[t + 1..])
  {
    var upto, rest := parts[..t + 1], parts[t + 1..];
    JoinPrefix(parts, t);
    SplitJoins(parts, t + 1);
    JoinConcat(upto, rest);
  }

  lemma SplitJoins(parts: seq<seq<byte>>, n: nat)
    requires n <= |parts|
    ensures parts[..n] + parts[n..] == parts
  {
    assert |parts[..n] + parts[n..]| == |parts|;
  }

  lemma JoinPrefix(parts: seq<seq<byte>>, t: nat)
    requires t < |parts|
    ensures Join(parts[..t + 1]) == Join(parts[..t]) + parts[t]
  {
    assert parts[..t + 1][..t] == parts[..t];
  }

  /** The new buffer holds each view's bytes at its new offset. */
  lemma LayoutContents(ps: seq<Placement>, t: nat)
    requires t < |ps|
    ensures Start(ps, t) + |ps[t].data| <= |Join(Parts(ps))|
    ensures Join(Parts(ps))[Start(ps, t)..Start(ps, t) + |ps[t].data|] == ps[t].data
  {
    var parts := Parts(ps);
    var d := ps[t].data;
    JoinSplit(parts, t);
    PartsPrefix(ps, t);
    JoinLength(ps[..t]);
    var a := Join(parts[..t]);
    var c := Join(parts[t + 1..]);
    assert parts[t] == PadZero(d);
    MiddleSlice(a, PadZero(d), c, |d|);
  }

  lemma PartsPrefix(ps: seq<Placement>, t: nat)
    requires t <= |ps|
    ensures Parts(ps)[..t] == Parts(ps[..t])
  {
    assert |Parts(ps)[..t]| == |Parts(ps[..t])|;
  }

  lemma MiddleSlice(a: seq<byte>, b: seq<byte>, c: seq<byte>, n: nat)
    requires n <= |b|
    ensures |a| + n <= |a + b + c| && (a + b + c)[|a|..|a| + n] == b[..n]
  {
    assert |(a + b + c)[|a|..|a| + n]| == n;
  }

  /** A view that no image refers to keeps its byteLength, and its bytes are
      its old slice: equal to the old bytes when the view lay inside the old
      buffer, cut short by the end of the buffer otherwise. */
  lemma PlaceCopy(src: Source, idx: nat)
    requires idx < |src.views| && Place(src, idx).Ok? && FirstImage(src.images, idx).None?
    ensures var v := src.views[idx];
            var p := Place(src, idx).value;
            && !p.image && Some(p.length) == v.byteLength
            && p.data == Slice(src.bin, OffsetOrZero(v), OffsetOrZero(v) + p.length)
            && (OffsetOrZero(v) + p.length <= |src.bin| ==>
                  |p.data| == p.length && p.data == src.bin[OffsetOrZero(v)..OffsetOrZero(v) + p.length])
  {
  }

  /** An image view is replaced by the re-encoding of its old bytes, under the
      first image's mime type, and its byteLength is the new length. */
  lemma PlaceImage(src: Source, idx: nat)
    requires idx < |src.views| && Place(src, idx).Ok? && FirstImage(src.images, idx).Some?
    ensures var v := src.views[idx];
            var p := Place(src, idx).value;
            var img := src.images[FirstImage(src.images, idx).value];
            && p.image && p.length == |p.data|
            && src.optimize(OldBytes(src.bin, v), MimeOf(img)) == Some(p.data)
            && p.oldSize == |OldBytes(src.bin, v)|
  {
  }

  /** Only images that got smaller are counted, and never more than the
      placements there are. */
  lemma {:induction false} ShrunkBound(ps: seq<Placement>)
    ensures Shrunk(ps) <= |ps|
    ensures Shrunk(ps) > 0 <==> exists t :: 0 <= t < |ps| && ps[t].image && |ps[t].data| < ps[t].oldSize
    decreases |ps|
  {
    if ps != [] {
      var init := ps[..|ps| - 1];
      ShrunkBound(init);
      if Shrunk(init) > 0 {
        var t :| 0 <= t < |init| && init[t].image && |init[t].data| < init[t].oldSize;
        assert ps[t] == init[t];
      }
      if exists t :: 0 <= t < |ps| && ps[t].image && |ps[t].data| < ps[t].oldSize {
        var t :| 0 <= t < |ps| && ps[t].image && |ps[t].data| < ps[t].oldSize;
        if t < |init| {
          assert init[t] == ps[t];
        }
      }
    }
  }
}
