/** saveFrame (utils.hpp): each decoded frame goes to `<base>-slice<N>.ppm`
    as a binary greyscale image built from the luma plane alone, one row of
    `width` bytes per line of the plane. */
module FrameDump {
  import opened Common
  import opened Frames
  import opened Pgm

  /** The output name for frame `frameNumber`: base, "-slice", the number in
      decimal, ".ppm". */
  function FrameFileName(base: string, frameNumber: int): (name: string)
    ensures |name| == |base| + 6 + |Decimal(frameNumber)| + 4
    ensures name[..|base|] == base
    ensures name[|base|..|base| + 6] == "-slice"
    ensures name[|base| + 6..|name| - 4] == Decimal(frameNumber)
    ensures name[|name| - 4..] == ".ppm"
  {
    base + "-slice" + Decimal(frameNumber) + ".ppm"
  }

  /** With one base name, every frame number gets a file of its own. */
  lemma FileNamesDistinct(base: string, m: int, n: int)
    requires m != n
    ensures FrameFileName(base, m) != FrameFileName(base, n)
  {
    if FrameFileName(base, m) == FrameFileName(base, n) {
      assert |Decimal(m)| == |Decimal(n)|;
      DecimalInjective(m, n);
    }
  }

  /** The file saveFrame writes: its name and its bytes. */
  datatype SavedFile = SavedFile(name: string, contents: seq<Byte>)

  /** saveFrame: name the file after the frame number, write the header, then
      each of the `height` rows of plane 0, `width` bytes from
      data[0] + i * linesize[0]. The chroma planes are never read. */
  function SaveFrame(frame: Picture, width: nat, height: nat, frameNumber: int, base: string): (f: SavedFile)
    requires frame.luma.Holds(width, height)
    ensures f.name == FrameFileName(base, frameNumber)
  {
    SavedFile(FrameFileName(base, frameNumber), Header(width, height) + Rows(frame.luma, width, height))
  }

  /** The file opens with the header and holds width * height samples after
      it. */
  lemma SaveFrameHeader(frame: Picture, width: nat, height: nat, frameNumber: int, base: string)
    requires frame.luma.Holds(width, height)
    ensures |SaveFrame(frame, width, height, frameNumber, base).contents| == |Header(width, height)| + width * height
    ensures SaveFrame(frame, width, height, frameNumber, base).contents[..|Header(width, height)|] == Header(width, height)
  {
    var header := Header(width, height);
    assert (header + Rows(frame.luma, width, height))[..|header|] == header;
  }

  /** Byte |header| + y * width + x of the file is luma sample (x, y). */
  lemma SaveFrameAt(frame: Picture, width: nat, height: nat, frameNumber: int, base: string, x: nat, y: nat)
    requires frame.luma.Holds(width, height) && x < width && y < height
    ensures var contents, k := SaveFrame(frame, width, height, frameNumber, base).contents,
                               |Header(width, height)| + Pos(width, x, y);
            k < |contents| && contents[k] == At(frame.luma, width, height, x, y)
  {
    RowsAt(frame.luma, width, height, x, y);
  }

  /** Two frames that share their luma plane are saved identically, whatever
      their chroma planes hold. */
  lemma SaveFrameIgnoresChroma(f1: Picture, f2: Picture, width: nat, height: nat, frameNumber: int, base: string)
    requires f1.luma == f2.luma && f1.luma.Holds(width, height)
    ensures SaveFrame(f1, width, height, frameNumber, base) == SaveFrame(f2, width, height, frameNumber, base)
  {
  }

  /** Reading a saved file gives back the frame's dimensions and its luma
      window, row by row without the line padding. */
  lemma SaveFrameRoundTrip(frame: Picture, width: nat, height: nat, frameNumber: int, base: string)
    requires frame.luma.Holds(width, height)
    ensures ParsePgm(SaveFrame(frame, width, height, frameNumber, base).contents)
            == Some(Image(width, height, Rows(frame.luma, width, height)))
  {
    ParseRoundTrip(width, height, Rows(frame.luma, width, height));
  }
}
