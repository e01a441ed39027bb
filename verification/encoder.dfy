/** The dummy-image preparation of the encoder examples (video_encode_example
    in h264enc.c and roundtrip.cpp, video_encode_to_buffer in roundtrip.cpp):
    per frame i, the Y plane gets the ramp with the moving stripe, the
    half-size Cb and Cr planes get their ramps, and the frame is stamped
    with pts = i before it goes to the encoder. */
module Encoder {
  import opened Common
  import opened Pattern
  import opened Frames

  /** The picture size and frame count of both encoder programs. */
  const Width: nat := 352
  const Height: nat := 288
  const Depth: nat := 25

  /** Offset k has been written once a fill loop has finished the rows above
      row y and the columns left of column x in row y. */
  predicate Drawn(linesize: nat, w: nat, y: nat, x: nat, k: nat)
  {
    0 < linesize &&
    ((k / linesize < y && k % linesize < w) || (k / linesize == y && k % linesize < x))
  }

  /** A plane part-way through a fill loop: offsets already drawn hold the
      sample of their column and row, every other offset its old byte. */
  function PartlyPainted(p: Plane, c: Channel, height: nat, i: nat, w: nat, y: nat, x: nat): (r: seq<Byte>)
    ensures |r| == |p.data|
  {
    seq(|p.data|, k requires 0 <= k < |p.data| =>
      if Drawn(p.linesize, w, y, x, k) then EncoderSample(c, height, i, k % p.linesize, k / p.linesize)
      else p.data[k])
  }

  /** The plane after a fill loop wrote channel c of frame i (of a picture
      `height` rows tall) over the whole w x h window. */
  function Painted(p: Plane, c: Channel, height: nat, i: nat, w: nat, h: nat): (r: Plane)
    requires p.Holds(w, h)
    ensures r.linesize == p.linesize && |r.data| == |p.data| && r.Holds(w, h)
    ensures forall k | 0 <= k < |p.data| && !Covered(p.linesize, w, h, k) :: r.data[k] == p.data[k]
  {
    Plane(PartlyPainted(p, c, height, i, w, h, 0), p.linesize)
  }

  /** Every sample of the window of a painted plane is the pattern sample. */
  lemma PaintedSamples(p: Plane, c: Channel, height: nat, i: nat, w: nat, h: nat)
    requires p.Holds(w, h)
    ensures forall x: nat, y: nat | x < w && y < h ::
              At(Painted(p, c, height, i, w, h), w, h, x, y) == EncoderSample(c, height, i, x, y)
  {
    forall x: nat, y: nat | x < w && y < h
      ensures At(Painted(p, c, height, i, w, h), w, h, x, y) == EncoderSample(c, height, i, x, y)
    {
      PosRoundTrip(p.linesize, w, h, x, y);
    }
  }

  /** Painting depends only on the channel, frame and window, not on what
      the window held before: painting twice leaves the second frame's
      samples and the first plane's padding. */
  lemma RepaintForgets(p: Plane, c: Channel, height: nat, i: nat, i': nat, w: nat, h: nat)
    requires p.Holds(w, h)
    ensures Painted(Painted(p, c, height, i, w, h), c, height, i', w, h) == Painted(p, c, height, i', w, h)
  {
  }

  /** One step of the column loop draws exactly the offset of (x, y). */
  lemma DrawnStep(linesize: nat, w: nat, h: nat, y: nat, x: nat, k: nat)
    requires w <= linesize && x < w && y < h
    ensures Drawn(linesize, w, y, x + 1, k) <==> Drawn(linesize, w, y, x, k) || k == Pos(linesize, x, y)
  {
    PosRoundTrip(linesize, w, h, x, y);
    if k == Pos(linesize, x, y) {
    } else if 0 < linesize && k / linesize == y && k % linesize == x {
      CoveredIsPos(linesize, w, h, k);
    }
  }

  /** Writing the sample of (x, y) advances the fill by one column. */
  lemma PaintStep(p: Plane, c: Channel, height: nat, i: nat, w: nat, h: nat, y: nat, x: nat)
    requires p.Holds(w, h) && x < w && y < h
    ensures Pos(p.linesize, x, y) < |p.data|
    ensures PartlyPainted(p, c, height, i, w, y, x)[Pos(p.linesize, x, y) := EncoderSample(c, height, i, x, y)]
            == PartlyPainted(p, c, height, i, w, y, x + 1)
  {
    var ls := p.linesize;
    PosRoundTrip(ls, w, h, x, y);
    var before := PartlyPainted(p, c, height, i, w, y, x);
    var after := PartlyPainted(p, c, height, i, w, y, x + 1);
    forall k | 0 <= k < |p.data|
      ensures before[Pos(ls, x, y) := EncoderSample(c, height, i, x, y)][k] == after[k]
    {
      DrawnStep(ls, w, h, y, x, k);
    }
  }

  /** Before the first row nothing has been drawn. */
  lemma NothingDrawn(p: Plane, c: Channel, height: nat, i: nat, w: nat)
    ensures PartlyPainted(p, c, height, i, w, 0, 0) == p.data
  {
    var start := PartlyPainted(p, c, height, i, w, 0, 0);
    forall k | 0 <= k < |p.data| ensures start[k] == p.data[k] {
      if 0 < p.linesize {
        assert 0 <= k / p.linesize && 0 <= k % p.linesize;
      }
    }
  }

  /** Finishing row y is starting row y + 1. */
  lemma RowStep(p: Plane, c: Channel, height: nat, i: nat, w: nat, y: nat)
    ensures PartlyPainted(p, c, height, i, w, y, w) == PartlyPainted(p, c, height, i, w, y + 1, 0)
  {
    var before := PartlyPainted(p, c, height, i, w, y, w);
    var after := PartlyPainted(p, c, height, i, w, y + 1, 0);
    forall k | 0 <= k < |p.data| ensures before[k] == after[k] {
    }
  }

  /** The luma loop of one frame: rows y < height, columns x < width, the
      ramp first, then 16 where the stripe test holds. */
  method FillLuma(p: Plane, width: nat, height: nat, i: nat) returns (r: Plane)
    requires p.Holds(width, height)
    ensures r == Painted(p, Y, height, i, width, height)
    ensures forall x: nat, y: nat | x < width && y < height ::
              At(r, width, height, x, y) == EncoderLuma(height, i, x, y)
  {
    var ls := p.linesize;
    var data := p.data;
    NothingDrawn(p, Y, height, i, width);
    var y: nat := 0;
    while y < height
      invariant y <= height
      invariant data == PartlyPainted(p, Y, height, i, width, y, 0)
    {
      var x: nat := 0;
      while x < width
        invariant x <= width
        invariant data == PartlyPainted(p, Y, height, i, width, y, x)
      {
        PaintStep(p, Y, height, i, width, height, y, x);
        ghost var before := data;
        data := data[Pos(ls, x, y) := BaseLuma(x, y, i)];
        if InBand(height, Group(i), y) && x % 4 < 2 && x <= 5 * (i + 1) {
          data := data[Pos(ls, x, y) := 16];
        }
        assert data == before[Pos(ls, x, y) := EncoderLuma(height, i, x, y)];
        x := x + 1;
      }
      RowStep(p, Y, height, i, width, y);
      y := y + 1;
    }
    r := Plane(data, ls);
    PaintedSamples(p, Y, height, i, width, height);
  }

  /** One row of the Cb/Cr loop: columns x < width / 2 of row y, in both
      chroma planes. */
  method FillChromaRow(cb: Plane, cr: Plane, u0: seq<Byte>, v0: seq<Byte>, width: nat, height: nat, i: nat, y: nat)
    returns (u: seq<Byte>, v: seq<Byte>)
    requires cb.Holds(width / 2, height / 2) && cr.Holds(width / 2, height / 2) && y < height / 2
    requires u0 == PartlyPainted(cb, U, height, i, width / 2, y, 0)
    requires v0 == PartlyPainted(cr, V, height, i, width / 2, y, 0)
    ensures u == PartlyPainted(cb, U, height, i, width / 2, y + 1, 0)
    ensures v == PartlyPainted(cr, V, height, i, width / 2, y + 1, 0)
  {
    var cw, ch := width / 2, height / 2;
    u, v := u0, v0;
    var x: nat := 0;
    while x < cw
      invariant x <= cw
      invariant u == PartlyPainted(cb, U, height, i, cw, y, x)
      invariant v == PartlyPainted(cr, V, height, i, cw, y, x)
    {
      PaintStep(cb, U, height, i, cw, ch, y, x);
      PaintStep(cr, V, height, i, cw, ch, y, x);
      u := u[Pos(cb.linesize, x, y) := ToByte(128 + y + i * 2)];
      v := v[Pos(cr.linesize, x, y) := ToByte(64 + x + i * 5)];
      x := x + 1;
    }
    RowStep(cb, U, height, i, cw, y);
    RowStep(cr, V, height, i, cw, y);
  }

  /** The Cb/Cr loop of one frame: rows y < height / 2, columns x < width / 2,
      Cb = 128 + y + 2i and Cr = 64 + x + 5i. */
  method FillChroma(cb: Plane, cr: Plane, width: nat, height: nat, i: nat) returns (cb': Plane, cr': Plane)
    requires cb.Holds(width / 2, height / 2) && cr.Holds(width / 2, height / 2)
    ensures cb' == Painted(cb, U, height, i, width / 2, height / 2)
    ensures cr' == Painted(cr, V, height, i, width / 2, height / 2)
    ensures forall x: nat, y: nat | x < width / 2 && y < height / 2 ::
              At(cb', width / 2, height / 2, x, y) == ToByte(128 + y + 2 * i) &&
              At(cr', width / 2, height / 2, x, y) == ToByte(64 + x + 5 * i)
  {
    var u, v := cb.data, cr.data;
    NothingDrawn(cb, U, height, i, width / 2);
    NothingDrawn(cr, V, height, i, width / 2);
    var y: nat := 0;
    while y < height / 2
      invariant y <= height / 2
      invariant u == PartlyPainted(cb, U, height, i, width / 2, y, 0)
      invariant v == PartlyPainted(cr, V, height, i, width / 2, y, 0)
    {
      u, v := FillChromaRow(cb, cr, u, v, width, height, i, y);
      y := y + 1;
    }
    cb', cr' := Plane(u, cb.linesize), Plane(v, cr.linesize);
    PaintedSamples(cb, U, height, i, width / 2, height / 2);
    PaintedSamples(cr, V, height, i, width / 2, height / 2);
  }

  /** The picture has room for a width x height luma window and
      width / 2 x height / 2 chroma windows. */
  predicate Fits(pic: Picture, width: nat, height: nat)
  {
    pic.luma.Holds(width, height) &&
    pic.cb.Holds(width / 2, height / 2) && pic.cr.Holds(width / 2, height / 2)
  }

  /** Everything outside the three windows is as in `orig`, and the buffers
      keep their sizes and line sizes. */
  ghost predicate PaddingKept(pic: Picture, orig: Picture, width: nat, height: nat)
  {
    && pic.luma.linesize == orig.luma.linesize && |pic.luma.data| == |orig.luma.data|
    && pic.cb.linesize == orig.cb.linesize && |pic.cb.data| == |orig.cb.data|
    && pic.cr.linesize == orig.cr.linesize && |pic.cr.data| == |orig.cr.data|
    && (forall k | 0 <= k < |orig.luma.data| && !Covered(orig.luma.linesize, width, height, k) ::
          pic.luma.data[k] == orig.luma.data[k])
    && (forall k | 0 <= k < |orig.cb.data| && !Covered(orig.cb.linesize, width / 2, height / 2, k) ::
          pic.cb.data[k] == orig.cb.data[k])
    && (forall k | 0 <= k < |orig.cr.data| && !Covered(orig.cr.linesize, width / 2, height / 2, k) ::
          pic.cr.data[k] == orig.cr.data[k])
  }

  /** The pattern frame i of a width x height picture. */
  ghost predicate ShowsFrame(pic: Picture, width: nat, height: nat, i: nat)
    requires Fits(pic, width, height)
  {
    && (forall x: nat, y: nat | x < width && y < height ::
          At(pic.luma, width, height, x, y) == EncoderLuma(height, i, x, y))
    && (forall x: nat, y: nat | x < width / 2 && y < height / 2 ::
          At(pic.cb, width / 2, height / 2, x, y) == ToByte(128 + y + 2 * i) &&
          At(pic.cr, width / 2, height / 2, x, y) == ToByte(64 + x + 5 * i))
  }

  /** The body of the frame loop before the encoder call: fill Y, fill Cb and
      Cr, then set pts = i. */
  method PrepareFrame(pic: Picture, width: nat, height: nat, i: nat) returns (r: Picture)
    requires Fits(pic, width, height)
    ensures Fits(r, width, height)
    ensures r.pts == i
    ensures ShowsFrame(r, width, height, i)
    ensures PaddingKept(r, pic, width, height)
  {
    var luma := FillLuma(pic.luma, width, height, i);
    var cb, cr := FillChroma(pic.cb, pic.cr, width, height, i);
    r := Picture(luma, cb, cr, i);
  }

  /** The frame loop: frames 0 .. depth - 1 are prepared in the same reused
      picture and each is handed over in turn. The result lists the pictures
      as the encoder receives them. */
  method EncodeFrames(pic: Picture, width: nat, height: nat, depth: nat) returns (frames: seq<Picture>)
    requires Fits(pic, width, height)
    ensures |frames| == depth
    ensures forall n | 0 <= n < depth :: frames[n].pts == n
    ensures forall n | 0 <= n < depth :: Fits(frames[n], width, height)
    ensures forall n | 0 <= n < depth :: ShowsFrame(frames[n], width, height, n)
    ensures forall n | 0 <= n < depth :: PaddingKept(frames[n], pic, width, height)
  {
    frames := [];
    var current := pic;
    var i: nat := 0;
    while i < depth
      invariant i <= depth && |frames| == i
      invariant Fits(current, width, height) && PaddingKept(current, pic, width, height)
      invariant forall n | 0 <= n < i :: frames[n].pts == n
      invariant forall n | 0 <= n < i :: Fits(frames[n], width, height)
      invariant forall n | 0 <= n < i :: ShowsFrame(frames[n], width, height, n)
      invariant forall n | 0 <= n < i :: PaddingKept(frames[n], pic, width, height)
    {
      current := PrepareFrame(current, width, height, i);
      frames := frames + [current];
      i := i + 1;
    }
  }

  /** Both example programs prepare exactly 25 frames of 352 x 288, frame i
      stamped pts = i, given buffers as av_image_alloc lays them out. */
  method EncodeExampleFrames(pic: Picture) returns (frames: seq<Picture>)
    requires Fits(pic, Width, Height)
    ensures |frames| == 25
    ensures forall n | 0 <= n < 25 :: frames[n].pts == n && Fits(frames[n], Width, Height)
    ensures forall n | 0 <= n < 25 :: ShowsFrame(frames[n], Width, Height, n)
  {
    frames := EncodeFrames(pic, Width, Height, Depth);
  }
}
