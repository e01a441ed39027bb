/** Pictures as libav hands them around: each plane is a byte buffer whose
    rows are `linesize` bytes apart, possibly with padding after the visible
    samples of a row. */
module Frames {
  import opened Common

  /** One plane of an AVFrame: data[c] and linesize[c]. */
  datatype Plane = Plane(data: seq<Byte>, linesize: nat) {
    /** The plane has room for w x h samples: a row of w fits in one
        linesize, and h full rows fit in the buffer. */
    predicate Holds(w: nat, h: nat)
    {
      w <= linesize && h * linesize <= |data|
    }
  }

  /** A YUV 4:2:0 picture with its presentation timestamp. */
  datatype Picture = Picture(luma: Plane, cb: Plane, cr: Plane, pts: int)

  /** The buffer offset of column x, row y: y * linesize + x. */
  function Pos(linesize: nat, x: nat, y: nat): nat
  {
    y * linesize + x
  }

  /** The sample the plane holds at column x, row y. */
  function At(p: Plane, w: nat, h: nat, x: nat, y: nat): Byte
    requires p.Holds(w, h) && x < w && y < h
  {
    RowMajorBound(y, x, p.linesize, h);
    p.data[Pos(p.linesize, x, y)]
  }

  /** Offset k belongs to the visible w x h window of a plane with the given
      linesize: its column is below w and its row below h. */
  predicate Covered(linesize: nat, w: nat, h: nat, k: nat)
  {
    0 < linesize && k % linesize < w && k / linesize < h
  }

  /** Column x, row y of the window sits at an in-buffer offset that is
      covered, and the offset gives the column and row back. */
  lemma PosRoundTrip(linesize: nat, w: nat, h: nat, x: nat, y: nat)
    requires w <= linesize && x < w && y < h
    ensures Pos(linesize, x, y) < h * linesize
    ensures Pos(linesize, x, y) / linesize == y && Pos(linesize, x, y) % linesize == x
    ensures Covered(linesize, w, h, Pos(linesize, x, y))
  {
    RowMajorBound(y, x, linesize, h);
    DivModUnique(Pos(linesize, x, y), linesize, y, x);
  }

  /** Covered offsets are exactly the positions of the window's samples:
      a covered offset is the position of its own column and row. */
  lemma CoveredIsPos(linesize: nat, w: nat, h: nat, k: nat)
    requires Covered(linesize, w, h, k)
    ensures k == Pos(linesize, k % linesize, k / linesize)
  {
  }

  /** Distinct samples of the window never share a buffer offset, provided
      the row length is at least the window width. */
  lemma PosInjective(linesize: nat, w: nat, h: nat, x: nat, y: nat, x': nat, y': nat)
    requires w <= linesize && x < w && y < h && x' < w && y' < h
    requires Pos(linesize, x, y) == Pos(linesize, x', y')
    ensures x == x' && y == y'
  {
    PosRoundTrip(linesize, w, h, x, y);
    PosRoundTrip(linesize, w, h, x', y');
  }

  /** The first h rows of the plane, `width` bytes each, read at multiples of
      the line size. */
  function Rows(p: Plane, width: nat, h: nat): (r: seq<Byte>)
    requires p.Holds(width, h)
    ensures |r| == width * h
  {
    if h == 0 then []
    else
      var start := (h - 1) * p.linesize;
      assert start + p.linesize == h * p.linesize;
      Rows(p, width, h - 1) + p.data[start..start + width]
  }

  /** Sample (x, y) of the window is byte y * width + x of the rows. */
  lemma {:induction false} RowsAt(p: Plane, width: nat, h: nat, x: nat, y: nat)
    requires p.Holds(width, h) && x < width && y < h
    ensures y * width + x < |Rows(p, width, h)|
    ensures Rows(p, width, h)[y * width + x] == At(p, width, h, x, y)
  {
    RowMajorBound(y, x, width, h);
    if y < h - 1 {
      MulMonotone(h - 1, h, p.linesize);
      assert p.Holds(width, h - 1);
      RowsAt(p, width, h - 1, x, y);
      assert At(p, width, h - 1, x, y) == At(p, width, h, x, y);
      RowsKeepsEarlier(p, width, h, y * width + x);
    } else {
      LastRowAt(p, width, h, x);
    }
  }

  /** Adding a row leaves the bytes of the earlier rows in place. */
  lemma RowsKeepsEarlier(p: Plane, width: nat, h: nat, k: nat)
    requires 0 < h && p.Holds(width, h) && k < |Rows(p, width, h - 1)|
    ensures k < |Rows(p, width, h)| && Rows(p, width, h)[k] == Rows(p, width, h - 1)[k]
  {
  }

  /** The last row added sits at (h - 1) * width. */
  lemma LastRowAt(p: Plane, width: nat, h: nat, x: nat)
    requires 0 < h && p.Holds(width, h) && x < width
    ensures (h - 1) * width + x < |Rows(p, width, h)|
    ensures Rows(p, width, h)[(h - 1) * width + x] == At(p, width, h, x, h - 1)
  {
    var start := (h - 1) * p.linesize;
    assert start + p.linesize == h * p.linesize;
    assert |Rows(p, width, h - 1)| == (h - 1) * width;
  }
}
