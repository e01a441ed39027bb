/** The synthetic test pattern shared by the three frame generators: a
    diagonal luma ramp, a horizontal stripe of value 16 that moves down every
    five frames, and the two chroma ramps of the encoder paths. */
module Pattern {
  import opened Common

  /** The colour planes of a YUV 4:2:0 picture, in the order they are stored. */
  datatype Channel = Y | U | V

  /** Frames are grouped in fives; the stripe moves once per group. */
  function Group(z: nat): nat
  {
    z / 5
  }

  /** The stripe rows of frame group g as the source states them: y lies
      strictly between ymin = 0.10 * height + offset and
      ymax = 0.13 * height + offset, where offset = 0.05 * g * height. The
      source computes these bounds in floating point; here they are exact. */
  predicate InBandReal(height: nat, g: nat, y: nat)
  {
    var offset := 0.05 * (g as real) * (height as real);
    var ymin := 0.1 * (height as real) + offset;
    var ymax := 0.13 * (height as real) + offset;
    ymin < y as real < ymax
  }

  /** The band test with both bounds scaled by 100, in integers. */
  predicate InBand(height: nat, g: nat, y: nat)
  {
    10 * height + 5 * g * height < 100 * y < 13 * height + 5 * g * height
  }

  /** The integer test accepts exactly the rows the real-valued bounds do. */
  lemma InBandIntegerForm(height: nat, g: nat, y: nat)
    ensures InBandReal(height, g, y) <==> InBand(height, g, y)
  {
    var gh := (g as real) * (height as real);
    assert (g * height) as real == gh;
    assert 0.05 * (g as real) * (height as real) == 0.05 * gh;
    assert (5 * g * height) as real == 5.0 * gh;
  }

  /** The ramp value stored before the stripe test: (x + y + 3z) truncated to
      a byte. */
  function BaseLuma(x: nat, y: nat, z: nat): Byte
  {
    ToByte(x + y + 3 * z)
  }

  /** The stripe test of the encoder paths, for frame i: the row is in the
      band of i's group, the column is in the first half of each group of
      four, and the column is at most 5 * (i + 1). */
  predicate EncoderStripe(height: nat, i: nat, x: nat, y: nat): (b: bool)
    ensures b <==> InBandReal(height, i / 5, y) && x % 4 < 2 && x <= 5 * (i + 1)
  {
    InBandIntegerForm(height, Group(i), y);
    InBand(height, Group(i), y) && x % 4 < 2 && x <= 5 * (i + 1)
  }

  /** The luma sample the encoder paths write at column x, row y of frame i. */
  function EncoderLuma(height: nat, i: nat, x: nat, y: nat): (s: Byte)
    ensures EncoderStripe(height, i, x, y) ==> s == 16
    ensures !EncoderStripe(height, i, x, y) ==> (s - (x + y + 3 * i)) % 256 == 0
  {
    if EncoderStripe(height, i, x, y) then 16 else BaseLuma(x, y, i)
  }

  /** The sample the encoder paths write into channel c at column x, row y of
      frame i: luma as above, Cb = 128 + y + 2i and Cr = 64 + x + 5i, each
      truncated to a byte. */
  function EncoderSample(c: Channel, height: nat, i: nat, x: nat, y: nat): (s: Byte)
    ensures c == U ==> (s - (128 + y + 2 * i)) % 256 == 0
    ensures c == V ==> (s - (64 + x + 5 * i)) % 256 == 0
  {
    match c
    case Y => EncoderLuma(height, i, x, y)
    case U => ToByte(128 + y + 2 * i)
    case V => ToByte(64 + x + 5 * i)
  }

  /** Frames of one group of five share their stripe rows exactly. */
  lemma BandFixedWithinGroup(height: nat, z: nat, z': nat, y: nat)
    requires z / 5 == z' / 5
    ensures InBand(height, Group(z), y) <==> InBand(height, Group(z'), y)
  {
  }

  /** The band moves strictly downwards from one group to the next: every
      row above the band of group g is also above the band of group g + 1. */
  lemma BandMovesDown(height: nat, g: nat, y: nat)
    requires 0 < height
    ensures 100 * y <= 10 * height + 5 * g * height ==> !InBand(height, g + 1, y)
    ensures InBand(height, g + 1, y) ==> 100 * y > 10 * height + 5 * g * height + 5 * height
  {
    assert 5 * (g + 1) * height == 5 * g * height + 5 * height;
  }

  /** The visible stripe only widens within a group: a column that is part of
      the stripe in frame i is part of it in frame i + 1 too, as long as both
      frames are in the same group of five. */
  lemma StripeWidensWithinGroup(height: nat, i: nat, x: nat, y: nat)
    requires Group(i) == Group(i + 1)
    requires EncoderStripe(height, i, x, y)
    ensures EncoderStripe(height, i + 1, x, y)
    ensures EncoderLuma(height, i + 1, x, y) == 16
  {
  }

  /** The two worked examples for a 288-row frame: frame 0 row 40 is below the
      band (28.8, 37.44) and keeps its ramp value 40; frame 6 row 45 lies in the
      band (43.2, 51.84) of group 1, column 0 is within the stripe, so the
      sample is 16. */
  lemma WorkedExamples()
    ensures EncoderLuma(288, 0, 0, 40) == 40
    ensures EncoderLuma(288, 6, 0, 45) == 16
  {
  }
}
