/** Byte sequences, Python slicing and the little-endian u32 fields
    (`struct.pack('<I')` / `struct.unpack('<I')`) used by the b3dm and GLB
    containers. */
module Bytes {
  import opened Wrappers

  type byte = x: int | 0 <= x < 0x100

  const U32_LIMIT: int := 0x1_0000_0000

  predicate IsU32(n: int) {
    0 <= n < U32_LIMIT
  }

  /** Python's `s[lo:hi]` for non-negative bounds: both ends are clamped to
      the length, and an inverted range is empty. */
  function Slice(s: seq<byte>, lo: nat, hi: nat): (r: seq<byte>)
    ensures |r| <= |s|
    ensures lo <= hi <= |s| ==> r == s[lo..hi]
    ensures lo < |s| < hi ==> r == s[lo..]
    ensures hi <= lo || |s| <= lo ==> r == []
  {
    var a := if lo < |s| then lo else |s|;
    var b := if hi < |s| then hi else |s|;
    if b <= a then [] else s[a..b]
  }

  /** Python's `s[lo:]` for a non-negative start. */
  function Drop(s: seq<byte>, lo: nat): (r: seq<byte>)
    ensures |r| == if lo < |s| then |s| - lo else 0
  {
    if lo < |s| then s[lo..] else []
  }

  /** `struct.pack('<I', n)`: raises `struct.error` unless `n` is a u32. */
  function PackU32(n: int): (r: Result<seq<byte>>)
    ensures r.Ok? <==> IsU32(n)
    ensures r.Ok? ==> |r.value| == 4
  {
    if IsU32(n) then
      Ok([n % 0x100, n / 0x100 % 0x100, n / 0x1_0000 % 0x100, n / 0x100_0000])
    else
      Err
  }

  /** The value of four little-endian bytes. */
  function ValueLE(b0: byte, b1: byte, b2: byte, b3: byte): int {
    b0 + 0x100 * b1 + 0x1_0000 * b2 + 0x100_0000 * b3
  }

  /** `struct.unpack('<I', s)[0]`: raises unless `s` is exactly 4 bytes. */
  function UnpackU32(s: seq<byte>): (r: Result<nat>)
    ensures r.Ok? <==> |s| == 4
    ensures r.Ok? ==> IsU32(r.value)
  {
    if |s| == 4 then Ok(ValueLE(s[0], s[1], s[2], s[3])) else Err
  }

  /** `struct.unpack('<I', data[off:off+4])[0]`, the way every header and chunk
      length field is read. */
  function ReadU32At(data: seq<byte>, off: nat): (r: Result<nat>)
    ensures r.Ok? <==> off + 4 <= |data|
    ensures r.Ok? ==> IsU32(r.value)
  {
    UnpackU32(Slice(data, off, off + 4))
  }

  /** Little-endian u32 fields one after another, as a header is written. */
  function PackFields(ns: seq<int>): (r: seq<byte>)
    requires forall i :: 0 <= i < |ns| ==> IsU32(ns[i])
    ensures |r| == 4 * |ns|
  {
    if ns == [] then [] else PackU32(ns[0]).value + PackFields(ns[1..])
  }

  /** Reading field `i` of packed fields gives back the value packed there. */
  lemma {:induction false} ReadPackedField(pre: seq<byte>, ns: seq<int>, post: seq<byte>, i: nat, off: nat)
    requires forall j :: 0 <= j < |ns| ==> IsU32(ns[j])
    requires i < |ns| && off == |pre| + 4 * i
    ensures ReadU32At(pre + PackFields(ns) + post, off) == Ok(ns[i])
    decreases i
  {
    var head := PackU32(ns[0]).value;
    assert forall j :: 0 <= j < |ns| - 1 ==> ns[1..][j] == ns[j + 1];
    var rest := PackFields(ns[1..]);
    assert PackFields(ns) == head + rest;
    if i == 0 {
      ConcatAssoc(pre, head, rest);
      ConcatAssoc(pre + head, rest, post);
      ReadPacked(pre, ns[0], rest + post);
    } else {
      ConcatAssoc(pre, head, rest);
      ReadPackedField(pre + head, ns[1..], post, i - 1, off);
    }
  }

  lemma ConcatAssoc(a: seq<byte>, b: seq<byte>, c: seq<byte>)
    ensures a + (b + c) == a + b + c
  {
    assert |a + (b + c)| == |a + b + c|;
  }

  /** The middle piece of a three-way concatenation is its slice. */
  lemma SliceOfCat(a: seq<byte>, b: seq<byte>, c: seq<byte>)
    ensures Slice(a + b + c, |a|, |a| + |b|) == b
  {
    assert (a + b + c)[|a|..|a| + |b|] == b;
  }

  /** A packed u32 inside a byte sequence reads back as the value packed. */
  lemma ReadPacked(pre: seq<byte>, n: int, post: seq<byte>)
    requires IsU32(n)
    ensures ReadU32At(pre + PackU32(n).value + post, |pre|) == Ok(n)
  {
    var s := pre + PackU32(n).value + post;
    assert Slice(s, |pre|, |pre| + 4) == PackU32(n).value;
    UnpackPack(n);
  }

  lemma UnpackPack(n: int)
    requires IsU32(n)
    ensures PackU32(n).Ok? && UnpackU32(PackU32(n).value) == Ok(n)
  {
    var q1 := n / 0x100;
    var q2 := q1 / 0x100;
    var q3 := q2 / 0x100;
    assert n == n % 0x100 + 0x100 * q1;
    assert q1 == q1 % 0x100 + 0x100 * q2;
    assert q2 == q2 % 0x100 + 0x100 * q3;
    assert n / 0x1_0000 == q2;
    assert n / 0x100_0000 == q3;
  }

  /** `(4 - n % 4) % 4`: the number of padding bytes that bring a chunk of
      length `n` up to a 4-byte boundary. */
  function Pad4(n: nat): (p: nat)
    ensures p < 4
    ensures (n + p) % 4 == 0
    ensures n % 4 == 0 <==> p == 0
  {
    (4 - n % 4) % 4
  }

  /** A multiple of 4: every chunk and buffer view boundary. */
  predicate Aligned(n: int) {
    n % 4 == 0
  }

  lemma AlignedSum(a: int, b: int)
    ensures Aligned(a) && Aligned(b) ==> Aligned(a + b)
  {
  }

  /** `n` rounded up to a multiple of 4. */
  function Padded(n: nat): (m: nat)
    ensures n <= m < n + 4
    ensures Aligned(m)
  {
    n + Pad4(n)
  }

  function Repeat(b: byte, n: nat): (r: seq<byte>)
    ensures |r| == n
    ensures forall i :: 0 <= i < n ==> r[i] == b
  {
    seq(n, _ => b)
  }
}
