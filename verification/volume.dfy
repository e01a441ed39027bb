/** The raw YUV dump (dump_yuv.c): fill_volume writes the luma pattern into
    one flat WIDTH * HEIGHT * DEPTH array, main fills U and V with 128 and
    writes the volume frame by frame, luma plane first, then U, then V. */
module Volume {
  import opened Common
  import opened Pattern

  /** The configured volume: WIDTH, HEIGHT and DEPTH. */
  datatype Dims = Dims(width: nat, height: nat, depth: nat) {
    /** pixels_per_frame: the bytes of one luma plane. */
    function FramePixels(): nat { width * height }
    /** num_elements: the bytes of the whole luma volume. */
    function Elements(): nat { width * height * depth }
    /** The bytes of one chroma plane of one frame, pixels_per_frame / 4. */
    function ChromaPlane(): nat { FramePixels() / 4 }
    /** The bytes one frame occupies in the dumped stream. */
    function FrameBytes(): nat { FramePixels() + 2 * ChromaPlane() }
    /** YUV 4:2:0 needs both dimensions even. */
    predicate Subsamplable() { width % 2 == 0 && height % 2 == 0 }
  }

  /** The dimensions dump_yuv.c is compiled with. */
  const SourceDims: Dims := Dims(352, 288, 25)

  /** A position in the volume: frame z, row y, column x. */
  datatype Coord = Coord(z: nat, y: nat, x: nat)

  predicate InVolume(d: Dims, c: Coord)
  {
    c.z < d.depth && c.y < d.height && c.x < d.width
  }

  /** The linear index fill_volume computes for (z, y, x). */
  function Index(d: Dims, z: nat, y: nat, x: nat): nat
  {
    z * d.FramePixels() + y * d.width + x
  }

  /** The coordinate a linear index stands for: frame, then row, then column. */
  function Decompose(d: Dims, j: nat): Coord
  {
    if d.width == 0 || d.height == 0 then Coord(0, 0, 0)
    else
      var r := j % d.FramePixels();
      Coord(j / d.FramePixels(), r / d.width, r % d.width)
  }

  /** Every in-volume coordinate has an index inside the array. */
  lemma IndexInBounds(d: Dims, c: Coord)
    requires InVolume(d, c)
    ensures Index(d, c.z, c.y, c.x) < d.Elements()
  {
    RowMajorBound(c.y, c.x, d.width, d.height);
    assert d.height * d.width == d.FramePixels();
    RowMajorBound(c.z, c.y * d.width + c.x, d.FramePixels(), d.depth);
    assert d.depth * d.FramePixels() == d.Elements();
  }

  /** Decomposing the index of an in-volume coordinate gives it back. */
  lemma DecomposeIndex(d: Dims, c: Coord)
    requires InVolume(d, c)
    ensures Decompose(d, Index(d, c.z, c.y, c.x)) == c
  {
    var fp := d.FramePixels();
    var inFrame := c.y * d.width + c.x;
    RowMajorBound(c.y, c.x, d.width, d.height);
    assert d.height * d.width == fp;
    assert 0 < fp;
    DivModUnique(Index(d, c.z, c.y, c.x), fp, c.z, inFrame);
    DivModUnique(inFrame, d.width, c.y, c.x);
  }

  /** Every array position is the index of exactly one in-volume coordinate:
      the one Decompose gives. */
  lemma IndexDecompose(d: Dims, j: nat)
    requires j < d.Elements()
    ensures InVolume(d, Decompose(d, j))
    ensures var c := Decompose(d, j); Index(d, c.z, c.y, c.x) == j
  {
    var fp := d.FramePixels();
    assert d.Elements() == fp * d.depth;
    assert 0 < d.width && 0 < d.height by {
      if d.width == 0 || d.height == 0 {
        assert false;
      }
    }
    assert 0 < fp;
    var c := Decompose(d, j);
    var r := j % fp;
    assert j == c.z * fp + r;
    assert r == c.y * d.width + c.x;
    if c.z >= d.depth {
      MulMonotone(d.depth, c.z, fp);
      assert false;
    }
    if c.y >= d.height {
      MulMonotone(d.height, c.y, d.width);
      assert false;
    }
  }

  /** fill_volume writes every element exactly once: distinct in-volume
      coordinates have distinct indices. */
  lemma IndexInjective(d: Dims, c: Coord, c': Coord)
    requires InVolume(d, c) && InVolume(d, c')
    requires Index(d, c.z, c.y, c.x) == Index(d, c'.z, c'.y, c'.x)
    ensures c == c'
  {
    DecomposeIndex(d, c);
    DecomposeIndex(d, c');
  }

  /** The luma byte fill_volume leaves at (z, y, x). The stripe's extent test
      compares the column with 5 * (i + 1) where i is the uint32 linear index
      of the sample, not the frame number. */
  function DumpLuma(d: Dims, z: nat, y: nat, x: nat): (b: Byte)
    ensures b == 16 || b == BaseLuma(x, y, z)
    ensures !InBand(d.height, Group(z), y) || x % 4 >= 2 ==> b == BaseLuma(x, y, z)
    ensures b != BaseLuma(x, y, z) ==> x <= U32(5 * (U32(Index(d, z, y, x)) + 1))
  {
    var i := U32(Index(d, z, y, x));
    if InBand(d.height, Group(z), y) && x % 4 < 2 && x <= U32(5 * (i + 1)) then 16
    else BaseLuma(x, y, z)
  }

  /** As long as 5 * WIDTH * HEIGHT * DEPTH fits a uint32 (it does for
      352 x 288 x 25), the extent test of dump_yuv never fails, because the
      linear index is at least the column: the stripe spans the full width. */
  lemma DumpExtentHolds(d: Dims, c: Coord)
    requires InVolume(d, c)
    requires 5 * d.Elements() < U32_MODULUS
    ensures c.x <= U32(5 * (U32(Index(d, c.z, c.y, c.x)) + 1))
  {
    var i := Index(d, c.z, c.y, c.x);
    IndexInBounds(d, c);
    assert c.z * d.FramePixels() >= 0 && c.y * d.width >= 0;
    assert c.x <= i < d.Elements();
    assert U32(i) == i;
    assert 5 * (i + 1) <= 5 * d.Elements();
  }

  /** Under the same bound, outside the band every sample is the ramp value;
      inside it, columns with x % 4 < 2 are 16 and the others keep the ramp
      value. */
  lemma DumpLumaRule(d: Dims, c: Coord)
    requires InVolume(d, c)
    requires 5 * d.Elements() < U32_MODULUS
    ensures !InBand(d.height, Group(c.z), c.y) ==> DumpLuma(d, c.z, c.y, c.x) == BaseLuma(c.x, c.y, c.z)
    ensures InBand(d.height, Group(c.z), c.y) && c.x % 4 < 2 ==> DumpLuma(d, c.z, c.y, c.x) == 16
    ensures InBand(d.height, Group(c.z), c.y) && c.x % 4 >= 2 ==> DumpLuma(d, c.z, c.y, c.x) == BaseLuma(c.x, c.y, c.z)
  {
    DumpExtentHolds(d, c);
  }

  /** Every in-volume coordinate has an index inside the array, and that
      index decomposes back to it. */
  lemma IndexDecomposeAll(d: Dims)
    ensures forall z: nat, y: nat, x: nat | z < d.depth && y < d.height && x < d.width ::
      Index(d, z, y, x) < d.Elements() && Decompose(d, Index(d, z, y, x)) == Coord(z, y, x)
  {
    forall z: nat, y: nat, x: nat | z < d.depth && y < d.height && x < d.width
      ensures Index(d, z, y, x) < d.Elements() && Decompose(d, Index(d, z, y, x)) == Coord(z, y, x)
    {
      IndexInBounds(d, Coord(z, y, x));
      DecomposeIndex(d, Coord(z, y, x));
    }
  }

  /** The luma array fill_volume produces: one byte per element, holding at
      the index of (z, y, x) the sample DumpLuma gives that coordinate. */
  function LumaVolume(d: Dims): (v: seq<Byte>)
    ensures |v| == d.Elements()
    ensures forall z: nat, y: nat, x: nat | z < d.depth && y < d.height && x < d.width ::
      Index(d, z, y, x) < |v| && v[Index(d, z, y, x)] == DumpLuma(d, z, y, x)
  {
    IndexDecomposeAll(d);
    seq(d.Elements(), j requires 0 <= j < d.Elements() =>
      var c := Decompose(d, j); DumpLuma(d, c.z, c.y, c.x))
  }

  /** The first n positions of r already hold their final luma value. */
  ghost predicate FilledUpTo(d: Dims, r: seq<Byte>, n: nat)
  {
    |r| == d.Elements() && n <= d.Elements() &&
    forall j :: 0 <= j < n ==> r[j] == LumaVolume(d)[j]
  }

  /** One iteration of the column loop, as dump_yuv writes it: the ramp value,
      then 16 over it when the stripe test passes. It extends a filled prefix
      by one position. */
  lemma FillStep(d: Dims, r: seq<Byte>, z: nat, y: nat, x: nat)
    requires z < d.depth && y < d.height && x < d.width
    requires d.Elements() < U32_MODULUS
    requires FilledUpTo(d, r, Index(d, z, y, x))
    ensures U32(Index(d, z, y, x)) < |r|
    ensures var i := U32(Index(d, z, y, x));
            var ramp := r[i := BaseLuma(x, y, z)];
            FilledUpTo(d, if InBand(d.height, Group(z), y) && x % 4 < 2 && x <= U32(5 * (i + 1))
                          then ramp[i := 16] else ramp, Index(d, z, y, x) + 1)
  {
    var i := Index(d, z, y, x);
    IndexInBounds(d, Coord(z, y, x));
    assert U32(i) == i;
    var ramp := r[i := BaseLuma(x, y, z)];
    var r' := if InBand(d.height, Group(z), y) && x % 4 < 2 && x <= U32(5 * (i + 1))
              then ramp[i := 16] else ramp;
    assert r'[i] == DumpLuma(d, z, y, x);
    assert LumaVolume(d)[i] == DumpLuma(d, z, y, x);
    assert forall j | 0 <= j < i :: r'[j] == r[j];
  }

  /** The innermost loop of fill_volume: row y of frame z, column by column. */
  method FillRow(d: Dims, r0: seq<Byte>, z: nat, y: nat) returns (r: seq<Byte>)
    requires z < d.depth && y < d.height
    requires d.Elements() < U32_MODULUS
    requires FilledUpTo(d, r0, Index(d, z, y, 0))
    ensures FilledUpTo(d, r, Index(d, z, y, 0) + d.width)
  {
    r := r0;
    var x: nat := 0;
    while x < d.width
      invariant x <= d.width
      invariant FilledUpTo(d, r, Index(d, z, y, x))
    {
      FillStep(d, r, z, y, x);
      var i := U32(Index(d, z, y, x));
      r := r[i := BaseLuma(x, y, z)];
      if InBand(d.height, Group(z), y) && x % 4 < 2 && x <= U32(5 * (i + 1)) {
        r := r[i := 16];
      }
      x := x + 1;
    }
  }

  /** The middle loop of fill_volume: the rows of frame z. */
  method FillFrame(d: Dims, r0: seq<Byte>, z: nat) returns (r: seq<Byte>)
    requires z < d.depth
    requires d.Elements() < U32_MODULUS
    requires FilledUpTo(d, r0, Index(d, z, 0, 0))
    ensures FilledUpTo(d, r, Index(d, z + 1, 0, 0))
  {
    r := r0;
    var y: nat := 0;
    while y < d.height
      invariant y <= d.height
      invariant FilledUpTo(d, r, Index(d, z, y, 0))
    {
      r := FillRow(d, r, z, y);
      assert Index(d, z, y, 0) + d.width == Index(d, z, y + 1, 0);
      y := y + 1;
    }
    assert Index(d, z, d.height, 0) == Index(d, z + 1, 0, 0);
  }

  /** fill_volume: the nested loops over frames, rows and columns. The result
      does not depend on what the array held before, so the zero fill main
      performs first has no effect on the dumped bytes. */
  method FillVolume(d: Dims, volume: seq<Byte>) returns (r: seq<Byte>)
    requires |volume| == d.Elements()
    requires d.Elements() < U32_MODULUS
    ensures r == LumaVolume(d)
  {
    r := volume;
    var z: nat := 0;
    while z < d.depth
      invariant z <= d.depth
      invariant FilledUpTo(d, r, Index(d, z, 0, 0))
    {
      r := FillFrame(d, r, z);
      z := z + 1;
    }
    assert Index(d, d.depth, 0, 0) == d.Elements();
  }

  /** Where frame z's luma plane starts in the luma array: z * pixels_per_frame. */
  function LumaOffset(d: Dims, z: nat): (o: nat)
    requires z < d.depth
    ensures o + d.FramePixels() <= d.Elements()
  {
    MulMonotone(z + 1, d.depth, d.FramePixels());
    assert d.depth * d.FramePixels() == d.Elements();
    z * d.FramePixels()
  }

  /** Where frame z's slice starts in the U and V arrays, z * pixels_per_frame / 4
      in C's evaluation order. The slice stays inside the num_elements / 4
      array even when pixels_per_frame is not a multiple of four. */
  function ChromaOffset(d: Dims, z: nat): (o: nat)
    requires z < d.depth
    ensures o + d.ChromaPlane() <= d.Elements() / 4
  {
    var fp := d.FramePixels();
    MulMonotone(z + 1, d.depth, fp);
    assert d.depth * fp == d.Elements();
    assert (z + 1) * fp == z * fp + fp;
    FloorQuarterAdd(z * fp, fp);
    (z * fp) / 4
  }

  /** floor(a / 4) + floor(b / 4) never exceeds floor((a + b) / 4). */
  lemma FloorQuarterAdd(a: nat, b: nat)
    ensures a / 4 + b / 4 <= (a + b) / 4
  {
    DivModUnique(a + b, 4, a / 4 + b / 4 + (a % 4 + b % 4) / 4, (a % 4 + b % 4) % 4);
  }

  /** Where frame z's bytes start in the dumped stream. */
  function FrameStart(d: Dims, z: nat): (p: nat)
    requires z < d.depth
    ensures p + d.FrameBytes() <= d.depth * d.FrameBytes()
  {
    MulMonotone(z + 1, d.depth, d.FrameBytes());
    z * d.FrameBytes()
  }

  /** The number of bytes of channel c in one frame. */
  function PlaneBytes(d: Dims, c: Channel): nat
  {
    if c == Y then d.FramePixels() else d.ChromaPlane()
  }

  /** Where channel c starts within a frame's bytes: luma first, then U, then V. */
  function PlaneStart(d: Dims, c: Channel): (p: nat)
    ensures p + PlaneBytes(d, c) <= d.FrameBytes()
  {
    match c
    case Y => 0
    case U => d.FramePixels()
    case V => d.FramePixels() + d.ChromaPlane()
  }

  /** The position in the dumped stream of byte k of channel c of frame z. */
  function StreamPos(d: Dims, z: nat, c: Channel, k: nat): (p: nat)
    requires z < d.depth && k < PlaneBytes(d, c)
    ensures p < d.depth * d.FrameBytes()
  {
    FrameStart(d, z) + PlaneStart(d, c) + k
  }

  /** The stream position of the luma sample at column x, row y of frame z. */
  function LumaPos(d: Dims, c: Coord): (p: nat)
    requires InVolume(d, c)
    ensures p < d.depth * d.FrameBytes()
  {
    RowMajorBound(c.y, c.x, d.width, d.height);
    assert d.height * d.width == d.FramePixels();
    StreamPos(d, c.z, Y, c.y * d.width + c.x)
  }

  /** The arrays main hands to its write loop. */
  predicate Planes(d: Dims, y: seq<Byte>, u: seq<Byte>, v: seq<Byte>)
  {
    |y| == d.Elements() && |u| == d.Elements() / 4 && |v| == d.Elements() / 4
  }

  /** The bytes one iteration of main's write loop emits for frame z. */
  function FrameRecord(d: Dims, y: seq<Byte>, u: seq<Byte>, v: seq<Byte>, z: nat): (f: seq<Byte>)
    requires z < d.depth && Planes(d, y, u, v)
    ensures |f| == d.FrameBytes()
  {
    var lo, co := LumaOffset(d, z), ChromaOffset(d, z);
    y[lo..lo + d.FramePixels()] + u[co..co + d.ChromaPlane()] + v[co..co + d.ChromaPlane()]
  }

  /** Reading one frame's record back: byte k of its luma plane is
      y[z * pixels_per_frame + k]. */
  lemma FrameLumaAt(d: Dims, y: seq<Byte>, u: seq<Byte>, v: seq<Byte>, out: seq<Byte>, z: nat, k: nat)
    requires z < d.depth && Planes(d, y, u, v) && k < d.FramePixels()
    requires |out| == d.depth * d.FrameBytes()
    requires out[FrameStart(d, z)..FrameStart(d, z) + d.FrameBytes()] == FrameRecord(d, y, u, v, z)
    ensures out[StreamPos(d, z, Y, k)] == y[LumaOffset(d, z) + k]
  {
    var fp, cp := d.FramePixels(), d.ChromaPlane();
    var lo, co := LumaOffset(d, z), ChromaOffset(d, z);
    ThreeSlicesAt(out, FrameStart(d, z), y[lo..lo + fp], u[co..co + cp], v[co..co + cp], k);
  }

  /** Byte k of frame z's U and V planes is u[z * pixels_per_frame / 4 + k]
      and v[z * pixels_per_frame / 4 + k]. */
  lemma FrameChromaAt(d: Dims, y: seq<Byte>, u: seq<Byte>, v: seq<Byte>, out: seq<Byte>, z: nat, k: nat)
    requires z < d.depth && Planes(d, y, u, v) && k < d.ChromaPlane()
    requires |out| == d.depth * d.FrameBytes()
    requires out[FrameStart(d, z)..FrameStart(d, z) + d.FrameBytes()] == FrameRecord(d, y, u, v, z)
    ensures out[StreamPos(d, z, U, k)] == u[ChromaOffset(d, z) + k]
    ensures out[StreamPos(d, z, V, k)] == v[ChromaOffset(d, z) + k]
  {
    var fp, cp := d.FramePixels(), d.ChromaPlane();
    var lo, co := LumaOffset(d, z), ChromaOffset(d, z);
    var ys, us, vs := y[lo..lo + fp], u[co..co + cp], v[co..co + cp];
    ThreeSlicesAt(out, FrameStart(d, z), ys, us, vs, fp + k);
    ThreeSlicesAt(out, FrameStart(d, z), ys, us, vs, fp + cp + k);
  }

  /** The records of the first n frames, in frame order. */
  function Records(d: Dims, y: seq<Byte>, u: seq<Byte>, v: seq<Byte>, n: nat): (rs: seq<seq<Byte>>)
    requires n <= d.depth && Planes(d, y, u, v)
    ensures |rs| == n
    ensures forall k | 0 <= k < n :: rs[k] == FrameRecord(d, y, u, v, k)
  {
    seq(n, k requires 0 <= k < n => FrameRecord(d, y, u, v, k))
  }

  /** The whole stream is DEPTH records long. */
  lemma StreamLength(d: Dims, y: seq<Byte>, u: seq<Byte>, v: seq<Byte>)
    requires Planes(d, y, u, v)
    ensures |Flatten(Records(d, y, u, v, d.depth))| == d.depth * d.FrameBytes()
  {
    var rs := Records(d, y, u, v, d.depth);
    FlattenLength(rs);
    SizeBeforeUniform(rs, d.FrameBytes(), d.depth);
  }

  /** Frame z's record sits at FrameStart(z) in the stream. */
  lemma StreamFrame(d: Dims, y: seq<Byte>, u: seq<Byte>, v: seq<Byte>, z: nat)
    requires z < d.depth && Planes(d, y, u, v)
    ensures FrameStart(d, z) + d.FrameBytes() <= |Flatten(Records(d, y, u, v, d.depth))|
    ensures Flatten(Records(d, y, u, v, d.depth))[FrameStart(d, z)..FrameStart(d, z) + d.FrameBytes()]
            == FrameRecord(d, y, u, v, z)
  {
    var rs := Records(d, y, u, v, d.depth);
    FlattenLayout(rs, z);
    SizeBeforeUniform(rs, d.FrameBytes(), z);
    SizeBeforeUniform(rs, d.FrameBytes(), z + 1);
    var s := FrameStart(d, z);
    assert (z + 1) * d.FrameBytes() == s + d.FrameBytes();
    assert SizeBefore(rs, z) == s && SizeBefore(rs, z + 1) == s + d.FrameBytes();
    assert Flatten(rs)[s..s + d.FrameBytes()] == rs[z] == FrameRecord(d, y, u, v, z);
  }

  /** main's write loop: for each frame in order, pixels_per_frame luma bytes
      from z * pixels_per_frame, then pixels_per_frame / 4 bytes of U and of V
      from z * pixels_per_frame / 4. */
  method WriteFrames(d: Dims, y: seq<Byte>, u: seq<Byte>, v: seq<Byte>) returns (out: seq<Byte>)
    requires Planes(d, y, u, v)
    ensures |out| == d.depth * d.FrameBytes()
    ensures forall z: nat | z < d.depth ::
              out[FrameStart(d, z)..FrameStart(d, z) + d.FrameBytes()] == FrameRecord(d, y, u, v, z)
  {
    out := [];
    var z: nat := 0;
    while z < d.depth
      invariant z <= d.depth
      invariant out == Flatten(Records(d, y, u, v, z))
    {
      assert Records(d, y, u, v, z + 1) == Records(d, y, u, v, z) + [FrameRecord(d, y, u, v, z)];
      FlattenAppend(Records(d, y, u, v, z), FrameRecord(d, y, u, v, z));
      out := out + FrameRecord(d, y, u, v, z);
      z := z + 1;
    }
    StreamLength(d, y, u, v);
    forall z: nat | z < d.depth
      ensures out[FrameStart(d, z)..FrameStart(d, z) + d.FrameBytes()] == FrameRecord(d, y, u, v, z)
    {
      StreamFrame(d, y, u, v, z);
    }
  }

  /** dump_yuv's main: zero the luma array, run fill_volume, fill U and V
      with 128, and write the frames. Every luma byte of the output is the
      pattern sample and every chroma byte is 128. */
  method DumpYuv(d: Dims) returns (out: seq<Byte>)
    requires d.Elements() < U32_MODULUS
    ensures |out| == d.depth * d.FrameBytes()
    ensures forall c | InVolume(d, c) :: out[LumaPos(d, c)] == DumpLuma(d, c.z, c.y, c.x)
    ensures forall z: nat, k: nat | z < d.depth && k < d.ChromaPlane() ::
              out[StreamPos(d, z, U, k)] == 128 && out[StreamPos(d, z, V, k)] == 128
  {
    var n := d.Elements();
    var y: seq<Byte> := seq(n, _ => 0);
    y := FillVolume(d, y);
    var u: seq<Byte> := seq(n / 4, _ => 128);
    var v: seq<Byte> := seq(n / 4, _ => 128);
    out := WriteFrames(d, y, u, v);
    forall z: nat, k: nat | z < d.depth && k < d.ChromaPlane()
      ensures out[StreamPos(d, z, U, k)] == 128 && out[StreamPos(d, z, V, k)] == 128
    {
      FrameChromaAt(d, y, u, v, out, z, k);
    }
    forall c | InVolume(d, c)
      ensures out[LumaPos(d, c)] == DumpLuma(d, c.z, c.y, c.x)
    {
      DumpedLumaAt(d, y, u, v, out, c);
    }
  }

  /** The luma byte of sample c in the written stream is the luma array's
      byte at c's linear index. */
  lemma StreamLumaIndex(d: Dims, y: seq<Byte>, u: seq<Byte>, v: seq<Byte>, out: seq<Byte>, c: Coord)
    requires InVolume(d, c) && Planes(d, y, u, v)
    requires |out| == d.depth * d.FrameBytes()
    requires out[FrameStart(d, c.z)..FrameStart(d, c.z) + d.FrameBytes()] == FrameRecord(d, y, u, v, c.z)
    ensures Index(d, c.z, c.y, c.x) < |y|
    ensures out[LumaPos(d, c)] == y[Index(d, c.z, c.y, c.x)]
  {
    var k := c.y * d.width + c.x;
    RowMajorBound(c.y, c.x, d.width, d.height);
    assert d.height * d.width == d.FramePixels();
    FrameLumaAt(d, y, u, v, out, c.z, k);
    assert LumaPos(d, c) == StreamPos(d, c.z, Y, k);
    assert out[StreamPos(d, c.z, Y, k)] == y[LumaOffset(d, c.z) + k];
    assert LumaOffset(d, c.z) + k == Index(d, c.z, c.y, c.x);
  }

  /** The luma byte of sample c in the written stream is the one fill_volume
      put at its linear index. */
  lemma DumpedLumaAt(d: Dims, y: seq<Byte>, u: seq<Byte>, v: seq<Byte>, out: seq<Byte>, c: Coord)
    requires InVolume(d, c) && d.Elements() < U32_MODULUS
    requires Planes(d, y, u, v) && y == LumaVolume(d)
    requires |out| == d.depth * d.FrameBytes()
    requires out[FrameStart(d, c.z)..FrameStart(d, c.z) + d.FrameBytes()] == FrameRecord(d, y, u, v, c.z)
    ensures out[LumaPos(d, c)] == DumpLuma(d, c.z, c.y, c.x)
  {
    StreamLumaIndex(d, y, u, v, out, c);
  }

  /** With even width and height the stream holds DEPTH * WIDTH * HEIGHT * 3 / 2
      bytes: a full luma plane and two quarter-size chroma planes per frame. */
  lemma StreamLength420(d: Dims)
    requires d.Subsamplable()
    ensures d.ChromaPlane() * 4 == d.FramePixels()
    ensures d.depth * d.FrameBytes() == d.Elements() * 3 / 2
  {
    var hw, hh := d.width / 2, d.height / 2;
    assert d.FramePixels() == 4 * (hw * hh);
    assert d.ChromaPlane() == hw * hh;
    assert d.FrameBytes() == 6 * (hw * hh);
    assert d.Elements() == 4 * (hw * hh) * d.depth;
    assert d.depth * d.FrameBytes() == 6 * (hw * hh * d.depth);
    assert d.Elements() * 3 == 12 * (hw * hh * d.depth);
  }

  /** The compiled-in volume: 176 x 144 = 25344 bytes per chroma plane,
      152064 bytes per frame, 3801600 bytes in all, and 5 * num_elements still
      fits a uint32, so the stripe test always passes its extent bound. */
  lemma SourceDimsFacts()
    ensures SourceDims.Subsamplable()
    ensures SourceDims.ChromaPlane() == 25344
    ensures SourceDims.FrameBytes() == 152064
    ensures SourceDims.depth * SourceDims.FrameBytes() == 3801600
    ensures 5 * SourceDims.Elements() < U32_MODULUS
  {
  }
}
