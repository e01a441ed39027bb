# A Dafny model of the libav-h26x-sandbox test-pattern, layout and buffer logic

libav-h26x-sandbox is a set of small C and C++ programs. They generate a synthetic
YUV 4:2:0 video, encode it to H.264 or HEVC with libav, and decode it again.
Almost all of the work happens inside libav. This project models the
self-contained logic around those calls:

- **The test pattern** (`Pattern`, `Volume`, `Encoder`). Luma is the ramp
  `(x + y + 3z) mod 256`. A horizontal stripe of value 16 lies between rows
  `0.10 H + 0.05 H floor(z/5)` and `0.13 H + 0.05 H floor(z/5)` and covers the
  columns with `x % 4 < 2` and `x <= 5 (i + 1)`. In `dump_yuv.c`, `i` is the
  uint32 linear index of the sample. In the encoder programs it is the frame
  number. The encoder chroma is `(128 + y + 2i) mod 256` for Cb and
  `(64 + x + 5i) mod 256` for Cr. `dump_yuv.c` writes 128 into both chroma
  planes.
- **The raw YUV dump** (`Volume`). `fill_volume` has three nested loops over
  one flat luma array. `main` fills the chroma planes. The frame-major write
  loop emits, for each frame, the luma plane, then U, then V.
- **The encoder frame loop** (`Frames`, `Encoder`). Each frame is painted into
  a reused picture whose rows are `linesize` bytes apart. The picture is
  stamped with `pts = i`, and the packets the encoder returns are appended to a
  byte vector (`Roundtrip`).
- **Codec selection** in `roundtrip.cpp`'s `main` (`Roundtrip`).
- **The in-memory read callback** `read_packet` with its `buffer_data` cursor
  (`MemoryReader`).
- **`saveFrame`** (`Pgm`, `FrameDump`). It builds the output file name and the
  binary greyscale "P5" image made from the luma plane.

Bytes are `int`s in `0 .. 255`. The model writes out every truncation the
C code performs: storing into an `unsigned char` (`Common.ToByte`) and uint32
arithmetic (`Common.U32`). In `read_packet`, the int `buf_size` is converted
to size_t for the `min`, and the result is stored back into the int. That
narrowed count then drives the copy, both cursor updates and the return value.

## Model

| member | source | states |
|---|---|---|
| Pattern.InBandIntegerForm | roundtrip.cpp:121-123 | The band test with real-valued bounds `0.1H + 0.05 g H < y < 0.13H + 0.05 g H` accepts exactly the rows the integer test `10H + 5gH < 100y < 13H + 5gH` accepts. |
| Pattern.EncoderStripe | roundtrip.cpp:121-129 | The encoder's stripe test holds exactly when the row lies strictly between the bounds `0.10 H + 0.05 H floor(i/5)` and `0.13 H + 0.05 H floor(i/5)` taken as exact reals, the column has `x % 4 < 2`, and the column is at most `5 (i + 1)` for frame number i. |
| Pattern.EncoderLuma | roundtrip.cpp:127-130 | A luma sample of the encoder paths is 16 when the stripe test holds, and otherwise it is congruent to `x + y + 3i` modulo 256. |
| Pattern.EncoderSample | roundtrip.cpp:127-139 | The Cb sample is congruent to `128 + y + 2i` modulo 256, and the Cr sample to `64 + x + 5i`. |
| Pattern.BandFixedWithinGroup | h264enc.c:106-108 | Two frames in the same group of five (`z / 5 == z' / 5`) have the same stripe rows. |
| Pattern.BandMovesDown | roundtrip.cpp:121-123 | A row at or above the lower edge of group g's band is not in group g + 1's band. Every row in group g + 1's band lies more than 0.05 H further down. |
| Pattern.StripeWidensWithinGroup | roundtrip.cpp:128-130 | Within a group, a stripe sample of frame i is still a stripe sample of frame i + 1, with value 16. The visible stripe only grows. |
| Pattern.WorkedExamples | h264enc.c:104-115 | For a 288-row frame, frame 0 row 40 keeps its ramp value 40, and frame 6 row 45, column 0, is 16. |
| Volume.IndexInBounds | dump_yuv.c:22-32 | Every in-volume (z, y, x) has linear index `z W H + y W + x` below `W H D`. |
| Volume.DecomposeIndex | dump_yuv.c:22-32 | Decomposing the linear index of an in-volume coordinate returns that coordinate. |
| Volume.IndexDecompose | dump_yuv.c:22-32 | Every array position below `W H D` is the linear index of an in-volume coordinate, so no element is skipped. |
| Volume.IndexInjective | dump_yuv.c:22-32 | Distinct in-volume coordinates have distinct linear indices, so no element is written twice. |
| Volume.DumpExtentHolds | dump_yuv.c:32-37 | When `5 W H D < 2^32`, the column is at most the uint32 value `5 (i + 1)` of the linear index i. The extent test never fails. |
| Volume.DumpLumaRule | dump_yuv.c:26-38 | When `5 W H D < 2^32`, a sample outside the band is `(x + y + 3z) mod 256`. An in-band sample is 16 if `x % 4 < 2` and keeps its ramp value if `x % 4 >= 2`. |
| Volume.DumpLuma | dump_yuv.c:32-38 | A dumped luma sample is 16 or its ramp value `(x + y + 3z) mod 256`. It can differ from the ramp only inside the band, on a column with `x % 4 < 2`, and only when the column passes the extent test against the uint32 value `5 (i + 1)` of the sample's linear index i, not of the frame number. |
| Volume.LumaVolume | dump_yuv.c:22-38 | The reference luma array has `W H D` bytes and holds, at the linear index of every in-volume (z, y, x), the sample DumpLuma gives that coordinate. |
| Volume.FillStep | dump_yuv.c:32-38 | One column iteration, which stores the ramp value and then 16 over it when the stripe test passes, leaves the sample's final luma value at its index. A filled prefix grows by one position. |
| Volume.FillRow | dump_yuv.c:30-40 | After the column loop of row y of frame z, every position up to the end of that row holds its final luma value. |
| Volume.FillFrame | dump_yuv.c:24-43 | After the row loop of frame z, every position up to the end of frame z holds its final luma value. |
| Volume.FillVolume | dump_yuv.c:22-47 | fill_volume leaves exactly the pattern array, whatever the array held before. The zero fill in main therefore has no effect. |
| Volume.LumaOffset | dump_yuv.c:77 | Frame z's luma slice `z * pixels_per_frame .. + pixels_per_frame` lies inside the `num_elements` array. |
| Volume.ChromaOffset | dump_yuv.c:79-81 | Frame z's chroma slice from `z * pixels_per_frame / 4` lies inside the `num_elements / 4` array, including when `pixels_per_frame` is not a multiple of 4. |
| Volume.FrameStart | dump_yuv.c:75-83 | Frame z's bytes end no later than the end of the stream. |
| Volume.PlaneStart | dump_yuv.c:77-81 | Each plane of a frame ends no later than the end of the frame's bytes. |
| Volume.LumaPos | dump_yuv.c:77 | The stream position of every in-volume luma sample lies inside the stream. |
| Volume.FrameRecord | dump_yuv.c:77-81 | One iteration of the write loop emits `pixels_per_frame + 2 (pixels_per_frame / 4)` bytes. |
| Volume.FrameLumaAt | dump_yuv.c:77 | Byte k of frame z's luma plane in the stream is `y[z * pixels_per_frame + k]`. |
| Volume.FrameChromaAt | dump_yuv.c:79-81 | Byte k of frame z's U and V planes is `u[z * pixels_per_frame / 4 + k]` and `v[...]` at the same offset. |
| Volume.StreamLength | dump_yuv.c:75-83 | The records of all DEPTH frames together are `DEPTH * FrameBytes` long. |
| Volume.StreamFrame | dump_yuv.c:75-83 | Frame z's record sits at `z * FrameBytes` in the concatenated stream. |
| Volume.WriteFrames | dump_yuv.c:75-83 | The write loop produces `DEPTH * FrameBytes` bytes. Each frame's record occupies its slot. |
| Volume.DumpedLumaAt | dump_yuv.c:63-77 | The stream byte of luma sample (z, y, x) is the byte fill_volume stored at that sample's linear index. |
| Volume.DumpYuv | dump_yuv.c:51-83 | The dumped file has `DEPTH * FrameBytes` bytes. Every luma byte is the pattern sample of its coordinate, and every U and V byte is 128. |
| Volume.StreamLength420 | dump_yuv.c:51-83 | With even W and H, a chroma plane is a quarter of the luma plane, and the file holds `D W H * 3 / 2` bytes. |
| Volume.SourceDimsFacts | dump_yuv.c:7-9 | For 352 x 288 x 25: 25344 bytes per chroma plane, 152064 per frame, 3801600 in all, and `5 W H D` fits a uint32. |
| Frames.PosRoundTrip | roundtrip.cpp:127 | With `linesize >= width`, the offset `y * linesize + x` of a window sample lies inside the window's rows, and division by linesize returns (x, y). |
| Frames.PosInjective | roundtrip.cpp:127 | With `linesize >= width`, distinct window samples write distinct offsets. |
| Frames.Rows | utils.hpp:32-35 | The rows saveFrame writes are `width * height` bytes together. |
| Frames.RowsAt | utils.hpp:32-35 | Byte `y * width + x` of the written rows is the plane's sample at (x, y), read at `y * linesize + x`. |
| Encoder.Painted | roundtrip.cpp:119-147 | A fill keeps the plane's size and line size, and it leaves every offset outside the w x h window unchanged. |
| Encoder.PaintedSamples | roundtrip.cpp:119-147 | Every sample inside the window of a painted plane is the pattern sample of its channel. |
| Encoder.RepaintForgets | roundtrip.cpp:116-147 | Painting frame i' over frame i gives the same plane as painting frame i' alone, so the reused picture carries nothing over. |
| Encoder.DrawnStep | roundtrip.cpp:125-130 | One step of the column loop adds exactly the offset of (x, y) to the drawn set. |
| Encoder.PaintStep | roundtrip.cpp:127-130 | Writing the sample of (x, y) advances the partial fill by exactly one column. |
| Encoder.NothingDrawn | roundtrip.cpp:119 | Before the first row of a fill, the plane is unchanged. |
| Encoder.RowStep | roundtrip.cpp:119-125 | Finishing row y is the same state as starting row y + 1. |
| Encoder.FillLuma | roundtrip.cpp:119-133 | The luma loop paints exactly the luma window. Every sample is 16 under the stripe test and the byte-truncated ramp otherwise. |
| Encoder.FillChromaRow | roundtrip.cpp:137-146 | One row of the chroma loop advances both chroma fills by one row. |
| Encoder.FillChroma | roundtrip.cpp:136-147 | In the `W/2 x H/2` windows, Cb is `(128 + y + 2i) mod 256` and Cr is `(64 + x + 5i) mod 256`. Everything else is unchanged. |
| Encoder.PrepareFrame | roundtrip.cpp:116-149 | The prepared picture shows frame i in all three planes, is stamped `pts = i`, and keeps every padding byte. |
| Encoder.EncodeFrames | roundtrip.cpp:263-304 | The frame loop hands over `depth` pictures. Picture n shows frame n, has `pts = n`, and keeps the original padding. |
| Encoder.EncodeExampleFrames | h264enc.c:93-133 | Exactly 25 frames of 352 x 288 are prepared. Frame n shows pattern frame n and has `pts = n`. |
| Roundtrip.AppendPacket | roundtrip.cpp:315 | Appending a packet grows the buffer by the packet's size, keeps the old bytes in front, and puts the packet's bytes right after them. |
| Roundtrip.BufferPackets | roundtrip.cpp:313-337 | After the encode and drain loops, the buffer is its old content followed by every packet, in order. |
| Common.FlattenLength | roundtrip.cpp:313-337 | The packets laid end to end are as long as all packets together, so the buffer grows by exactly the packets' total size. |
| Common.FlattenLayout | dump_yuv.c:75-83 | In parts laid end to end, part j occupies exactly the range from the combined length of the parts before it to that length plus its own. |
| Roundtrip.FindFrom | roundtrip.cpp:631 | `find` returns the first occurrence at or after the start position, or npos when there is none. |
| Roundtrip.FindIffMentions | roundtrip.cpp:631 | `find(pat) != npos` holds exactly when pat occurs in the string. |
| Roundtrip.SelectCodec | roundtrip.cpp:619-645 | With no argument, main returns 1. An argument containing "h264" selects H.264 and `test.h264`, and that test comes first. Otherwise "hevc" selects HEVC and `test.hevc`. Anything else returns 1. |
| Roundtrip.SelectionExamples | roundtrip.cpp:630-645 | "hevc-or-h264" selects H.264, "x-hevc" selects HEVC, and "vp9" or a missing argument return 1. |
| MemoryReader.Start | roundtrip.cpp:369-371 | The initial cursor, at offset 0 with the whole vector left, accounts for every byte. |
| MemoryReader.ReadPacket | utils.hpp:47-57 | A read copies exactly the next bytes at the cursor, and returns as many as it copied. Consumed plus remaining stays the vector's length. For `buf_size >= 0` the count is `min(buf_size, size)`, and 0 is returned only when nothing is left. A negative `buf_size` wraps to a huge size_t, and the min is then narrowed back to int, so the call takes `size mod 2^32` bytes. That is the whole rest only when at most INT_MAX bytes are left. An empty cursor stays unchanged. |
| MemoryReader.MovedCount | utils.hpp:50 | The count after the `min` and the narrowing back to int is at most what is left. It is `min(buf_size, size)` for `buf_size >= 0`, and `size mod 2^32` for a negative `buf_size`. |
| MemoryReader.DefinedExactly | utils.hpp:50-54 | The narrowed count handed to memcpy is negative, so memcpy would get a wrapped huge length, exactly when `buf_size` is negative and the bytes left modulo 2^32 exceed INT_MAX. |
| MemoryReader.NonNegativeSizesDefined | utils.hpp:48-57 | Any sequence of calls with non-negative `buf_size`, as the demuxer makes them, stays inside the vector from any cursor. |
| MemoryReader.ReadAll | utils.hpp:47-57 | Successive reads never move the cursor backwards. The bytes copied so far are as many as the cursor has advanced. |
| MemoryReader.ReadAllConsecutive | utils.hpp:53-55 | The bytes of successive reads, concatenated, are exactly the vector between the first and the final cursor. |
| MemoryReader.ReadFromStart | utils.hpp:47-57 | Reading from the start, the bytes delivered are a prefix of the vector. They equal the whole vector exactly when nothing is left, which is exactly when a read of positive size returns 0. |
| Pgm.DigitChar | utils.hpp:30 | A digit is printed as a character between '0' and '9'. |
| Pgm.Digits | utils.hpp:30 | A natural number prints as a non-empty string of decimal digits with no leading zero. |
| Pgm.Decimal | utils.hpp:18 | An int prints with a leading '-' exactly when it is negative, followed by the digits of its magnitude. |
| Pgm.DigitsRoundTrip | utils.hpp:30 | Reading back the decimal digits of n gives n. |
| Pgm.DigitsInjective | utils.hpp:18 | Distinct naturals print differently. |
| Pgm.DecimalInjective | utils.hpp:18 | Distinct ints print differently. |
| Pgm.DigitRun | utils.hpp:30 | The digit run at the front of a byte string is all digits, and the byte after it is not a digit. |
| Pgm.DigitRunStops | utils.hpp:30 | A printed number's digit run ends where the following newline begins. |
| Pgm.Header | utils.hpp:30 | The header opens with "P5\n". Reading a newline-ended decimal number after it gives back the width, and reading the next one gives back the height, followed by exactly the "255\n" line. |
| Pgm.ReadNumberRoundTrip | utils.hpp:30 | A number printed by saveFrame, followed by its newline, reads back as that number and the rest of the bytes. |
| Pgm.ParseRoundTrip | utils.hpp:30-35 | The header followed by `width * height` samples parses back to exactly that width, height and those samples. |
| FrameDump.FrameFileName | utils.hpp:17-18 | The name is the base, then "-slice", then the frame number in decimal, then ".ppm". |
| FrameDump.FileNamesDistinct | utils.hpp:17-18 | With one base name, distinct frame numbers give distinct file names. |
| FrameDump.SaveFrameHeader | utils.hpp:30-35 | The file starts with the P5 header and then holds exactly `width * height` sample bytes. |
| FrameDump.SaveFrameAt | utils.hpp:30-35 | Byte `h + y * width + x` of the file, where h is the header length, is the luma sample at (x, y). Line padding is skipped. |
| FrameDump.SaveFrameIgnoresChroma | utils.hpp:32-35 | Two frames with the same luma plane are saved identically, whatever their chroma planes hold. |
| FrameDump.SaveFrameRoundTrip | utils.hpp:30-35 | Parsing a saved file returns the frame's width, its height and its luma window, row by row. |

## Left out

- All libav calls are left out: codec lookup and opening, `avcodec_encode_video2`, `avcodec_decode_video2`, avformat/avio setup, and frame allocation and freeing. This is foreign code whose behaviour is not visible here. The packets the encoder returns are a parameter of `Roundtrip.BufferPackets`.
- `h26xdec.cpp`, `decode_video_file` and `decode_buffer_to_files` are left out. They are demux/decode plumbing around libav. From `decode_buffer_to_files`, only the cursor setup (`MemoryReader.Start`) is modelled.
- The delayed-frame drain loops depend on encoder output, so they are left out. Their packets are appended like the others and are included in the packet list of `Roundtrip.BufferPackets`.
- File opening, `fwrite`, `fclose`, `printf`, `fflush`, the usage and error messages, and the read-back of the encoded file in `main` are I/O. Only the byte sequences they would write are modelled: the dumped stream of `Volume.WriteFrames` and the contents of `FrameDump.SavedFile`.
- Pattern.InBandIntegerForm: the stripe bounds are computed in double and stored in a float. The model uses exact reals and their integer form, so it does not capture rows where a rounded bound lands on or next to an integer. For example, H = 288 in group 3 gives ymin = 72.0.
- Volume.DumpYuv: requires `W H D < 2^32` because the source indexes with a uint32. Its stack arrays `y[num_elements]`, `u[num_elements / 4]` and `v[num_elements / 4]` are taken to exist.
- Volume.DumpExtentHolds: proves that the extent test always passes only when `5 W H D < 2^32`. `Volume.DumpLuma` still models the uint32 wrap of `5 * (i + 1)` for larger volumes.
- Encoder.FillLuma: the encoder's `5 * (i + 1)` and `x + y + 3i` are uint32 expressions that cannot wrap for the 25 frames used. They are modelled as unbounded before the byte truncation.
- Encoder.PrepareFrame: the 32-byte row alignment chosen by `av_image_alloc` is not modelled. Instead, each plane must hold its window (`linesize >= width` and room for `height` rows).
- FrameDump.SaveFrame: width and height are taken as naturals. The C ints could be negative, in which case the header would print a minus sign and no rows would be written. saveFrame always receives the codec context's positive dimensions.
- FrameDump.SaveFrame: an `std::ofstream` that fails to open throws `runtime_error`. The model has no file system, so it returns the file's name and contents.
- Volume.WriteFrames: the three `fwrite` calls of one iteration are modelled as appending a single frame record made of the three slices.
- MemoryReader.ReadPacket: the `printf` trace in the callback is left out.
- MemoryReader.ReadPacket: requires the narrowed count to be non-negative (`MemoryReader.Defined`). Otherwise `memcpy` is handed a wrapped length near 2^64, reads past the vector, and the behaviour is undefined. This can happen only for a negative `buf_size` with more than INT_MAX bytes left, modulo 2^32. `MemoryReader.DefinedExactly` characterises the case. `MemoryReader.ReadAll` likewise requires every call of its sequence to be defined.
