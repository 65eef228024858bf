/** Flattening of an image stack into one raw buffer, as SpatialImage's
    `setRawImage` does it: plane `i` (1-based, as ImageJ numbers slices)
    is copied, `width*height` bytes of it, to offset `(i-1)*width*height`
    of a buffer of `width*height*depth` bytes. */
module Flatten {
  import opened Wrappers

  /** One pixel of an 8-bit image. */
  type byte = bv8

  /** One slice of the stack: its pixels, row by row. */
  type Plane = seq<byte>

  /** Why flattening stops: the exception the copy loop raises, and at
      which (1-based) plane. */
  datatype StackError =
    | PlaneOutOfRange(plane: nat) // the stack has no slice with this number
    | ShortPlane(plane: nat)      // the slice holds fewer than width*height pixels

  /** Slice `i` (1-based) exists and holds at least `n` pixels, so the copy
      of its first `n` pixels succeeds. */
  predicate PlaneReadable(planes: seq<Plane>, n: nat, i: nat)
  {
    1 <= i <= |planes| && |planes[i - 1]| >= n
  }

  /** Slices 1 to `count` are all readable. */
  predicate AllReadable(planes: seq<Plane>, n: nat, count: nat)
  {
    count <= |planes| && forall p :: 0 <= p < count ==> |planes[p]| >= n
  }

  /** `e` is the exception raised at the first slice, among 1 to `count`,
      that cannot be copied. */
  predicate IsFirstFailure(planes: seq<Plane>, n: nat, count: nat, e: StackError)
  {
    && 1 <= e.plane <= count
    && AllReadable(planes, n, e.plane - 1)
    && !PlaneReadable(planes, n, e.plane)
    && (e.PlaneOutOfRange? <==> e.plane > |planes|)
  }

  /** `raw` is the flattened buffer of the first `count` slices: exactly
      `n*count` bytes, pixel `k` of slice `p` (0-based) at `p*n + k`. */
  predicate Placed(raw: seq<byte>, planes: seq<Plane>, n: nat, count: nat)
    requires AllReadable(planes, n, count)
  {
    && |raw| == count * n
    && forall p: nat, k: nat :: p < count && k < n ==> PixelAt(raw, planes, n, p, k)
  }

  /** The buffer the copy loop builds from slices 1 to `count`, or the
      exception it raises. */
  function CopyPlanes(planes: seq<Plane>, n: nat, count: nat): (r: Result<seq<byte>, StackError>)
    ensures r.Success? <==> AllReadable(planes, n, count)
    ensures r.Success? ==> |r.value| == count * n
    ensures r.Failure? ==> IsFirstFailure(planes, n, count, r.error)
    decreases count
  {
    if count == 0 then Success([])
    else
      match CopyPlanes(planes, n, count - 1)
      case Failure(e) => Failure(e)
      case Success(prefix) =>
        if count > |planes| then Failure(PlaneOutOfRange(count))
        else if |planes[count - 1]| < n then Failure(ShortPlane(count))
        else Success(prefix + planes[count - 1][..n])
  }

  /** Slice `p` lies inside the buffer of the first `c` slices. */
  lemma PlaneInPlanes(p: nat, n: nat, c: nat)
    requires p < c
    ensures p * n + n <= c * n
  {
    assert (p + 1) * n <= c * n;
  }

  /** Pixel `k` of slice `p` lies inside the buffer of the first `c` slices. */
  lemma IndexInPlanes(p: nat, k: nat, n: nat, c: nat)
    requires p < c && k < n
    ensures p * n + k < c * n
  {
    PlaneInPlanes(p, n, c);
  }

  /** The copy is byte-exact and in order: every copied pixel sits at its
      plane-major, row-major offset. */
  lemma CopyPlanesPlaced(planes: seq<Plane>, n: nat, count: nat)
    requires AllReadable(planes, n, count)
    ensures Placed(CopyPlanes(planes, n, count).value, planes, n, count)
  {
    forall p: nat, k: nat | p < count && k < n
      ensures PixelAt(CopyPlanes(planes, n, count).value, planes, n, p, k)
    {
      PixelPlaced(planes, n, count, p, k);
    }
  }

  /** Pixel `k` of slice `p` sits at offset `p*n + k` of `raw`. */
  predicate PixelAt(raw: seq<byte>, planes: seq<Plane>, n: nat, p: nat, k: nat)
    requires p < |planes| && k < |planes[p]|
  {
    p * n + k < |raw| && raw[p * n + k] == planes[p][k]
  }

  /** Pixel `k` of slice `p` ends up at offset `p*n + k`, by induction on
      the number of slices copied. */
  lemma {:induction false} PixelPlaced(planes: seq<Plane>, n: nat, count: nat, p: nat, k: nat)
    requires AllReadable(planes, n, count)
    requires p < count && k < n
    ensures p * n + k < |CopyPlanes(planes, n, count).value|
    ensures CopyPlanes(planes, n, count).value[p * n + k] == planes[p][k]
    decreases count
  {
    var prefix := CopyPlanes(planes, n, count - 1).value;
    assert CopyPlanes(planes, n, count).value == prefix + planes[count - 1][..n];
    AppendPlaneIndex(prefix, planes[count - 1], n, count - 1, p, k);
    if p < count - 1 {
      PixelPlaced(planes, n, count - 1, p, k);
    }
  }

  /** Appending slice `c` to the buffer of slices 0 to `c-1` leaves their
      pixels where they were and puts the new slice's pixels after them. */
  lemma AppendPlaneIndex(prefix: seq<byte>, plane: Plane, n: nat, c: nat, p: nat, k: nat)
    requires |prefix| == c * n && |plane| >= n
    requires p <= c && k < n
    ensures p * n + k < |prefix| + n
    ensures p < c ==> p * n + k < |prefix| && (prefix + plane[..n])[p * n + k] == prefix[p * n + k]
    ensures p == c ==> (prefix + plane[..n])[p * n + k] == plane[k]
  {
    if p < c {
      IndexInPlanes(p, k, n, c);
    }
  }

  /** Slice `p` (0-based) read back out of a buffer of `count` slices. */
  function PlaneOf(raw: seq<byte>, n: nat, count: nat, p: nat): (plane: Plane)
    requires |raw| == count * n && p < count
    ensures |plane| == n
    ensures forall k :: 0 <= k < n ==> p * n + k < |raw| && plane[k] == raw[p * n + k]
  {
    PlaneInPlanes(p, n, count);
    raw[p * n..p * n + n]
  }

  /** Cuts a buffer of `count` slices of `n` pixels back into slices. */
  function Unflatten(raw: seq<byte>, n: nat, count: nat): (planes: seq<Plane>)
    requires |raw| == count * n
    ensures |planes| == count
    ensures forall p :: 0 <= p < count ==> |planes[p]| == n
  {
    seq(count, p requires 0 <= p < count => PlaneOf(raw, n, count, p))
  }

  /** The first `n` pixels of each of the first `count` slices. */
  function Truncated(planes: seq<Plane>, n: nat, count: nat): (r: seq<Plane>)
    requires AllReadable(planes, n, count)
    ensures |r| == count
  {
    seq(count, p requires 0 <= p < count => planes[p][..n])
  }

  /** Round trip: cutting the flattened buffer gives back each slice's
      first `n` pixels, byte for byte. */
  lemma UnflattenCopyPlanes(planes: seq<Plane>, n: nat, count: nat)
    requires AllReadable(planes, n, count)
    ensures Unflatten(CopyPlanes(planes, n, count).value, n, count) == Truncated(planes, n, count)
  {
    var raw := CopyPlanes(planes, n, count).value;
    var back := Unflatten(raw, n, count);
    var want := Truncated(planes, n, count);
    forall p | 0 <= p < count
      ensures back[p] == want[p]
    {
      forall k | 0 <= k < n
        ensures back[p][k] == planes[p][k]
      {
        PixelPlaced(planes, n, count, p, k);
        UnflattenPixel(raw, n, count, p, k);
      }
    }
  }

  /** Round trip the other way: a buffer of `count` slices of exactly `n`
      pixels each is its own flattening once cut into slices. */
  lemma CopyPlanesUnflatten(raw: seq<byte>, n: nat, count: nat)
    requires |raw| == count * n
    ensures AllReadable(Unflatten(raw, n, count), n, count)
    ensures CopyPlanes(Unflatten(raw, n, count), n, count) == Success(raw)
  {
    var planes := Unflatten(raw, n, count);
    var out := CopyPlanes(planes, n, count).value;
    forall j | 0 <= j < |raw|
      ensures out[j] == raw[j]
    {
      var p, k := SplitIndex(j, n, count);
      PixelPlaced(planes, n, count, p, k);
      UnflattenPixel(raw, n, count, p, k);
    }
    assert out == raw;
  }

  /** Pixel `k` of slice `p` of the cut buffer is the buffer's byte at
      `p*n + k`. */
  lemma UnflattenPixel(raw: seq<byte>, n: nat, count: nat, p: nat, k: nat)
    requires |raw| == count * n && p < count && k < n
    ensures p * n + k < |raw| && Unflatten(raw, n, count)[p][k] == raw[p * n + k]
  {
    IndexInPlanes(p, k, n, count);
    assert Unflatten(raw, n, count)[p] == PlaneOf(raw, n, count, p);
  }

  /** Every offset of a buffer of `count` slices of `n` pixels names one
      pixel of one slice. */
  lemma SplitIndex(j: nat, n: nat, count: nat) returns (p: nat, k: nat)
    requires j < count * n
    ensures p < count && k < n && j == p * n + k
  {
    assert n > 0;
    p, k := j / n, j % n;
    if p >= count {
      IndexInPlanes(count, k, n, p + 1);
    }
  }

  /** `System.arraycopy(src, 0, dest, destPos, length)` for a source that
      holds at least `length` elements: the destination keeps its first
      `destPos` elements, receives the source's first `length` after them,
      and keeps everything after those. */
  method ArrayCopy(src: seq<byte>, dest: array<byte>, destPos: nat, length: nat)
    requires length <= |src| && destPos + length <= dest.Length
    modifies dest
    ensures dest[..destPos + length] == old(dest[..destPos]) + src[..length]
    ensures dest[destPos + length..] == old(dest[destPos + length..])
  {
    var k := 0;
    while k < length
      invariant 0 <= k <= length
      invariant dest[..destPos + k] == old(dest[..destPos]) + src[..k]
      invariant dest[destPos + length..] == old(dest[destPos + length..])
    {
      dest[destPos + k] := src[k];
      k := k + 1;
    }
  }

  /** The copy loop of `setRawImage`, over a mutable array as the source
      does it: allocates `width*height*depth` bytes, then copies each slice
      with one `System.arraycopy`. */
  method SetRawImage(planes: seq<Plane>, width: nat, height: nat, depth: nat)
    returns (r: Result<seq<byte>, StackError>)
    ensures r == CopyPlanes(planes, width * height, depth)
  {
    var n := width * height;
    var raw := new byte[n * depth];
    assert raw.Length == depth * n;
    var i := 1;
    while i <= depth
      invariant 1 <= i <= depth + 1
      invariant raw.Length == depth * n
      invariant CopyPlanes(planes, n, i - 1).Success?
      invariant (i - 1) * n <= raw.Length
      invariant raw[..(i - 1) * n] == CopyPlanes(planes, n, i - 1).value
    {
      if i > |planes| {
        return Failure(PlaneOutOfRange(i));
      }
      var slice := planes[i - 1];
      if |slice| < n {
        return Failure(ShortPlane(i));
      }
      var offset := (i - 1) * n;
      PlaneInPlanes(i - 1, n, depth);
      ArrayCopy(slice, raw, offset, n);
      CopyPlanesStep(planes, n, i);
      i := i + 1;
    }
    assert raw[..] == raw[..depth * n];
    return Success(raw[..]);
  }

  /** Copying slice `i` appends its first `n` pixels to the buffer of the
      slices before it. */
  lemma CopyPlanesStep(planes: seq<Plane>, n: nat, i: nat)
    requires 1 <= i <= |planes| && |planes[i - 1]| >= n
    requires CopyPlanes(planes, n, i - 1).Success?
    ensures CopyPlanes(planes, n, i) == Success(CopyPlanes(planes, n, i - 1).value + planes[i - 1][..n])
    ensures (i - 1) * n + n == i * n
  {
  }
}
