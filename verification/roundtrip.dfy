/** The glue of roundtrip.cpp around the codec calls: collecting encoded
    packets into an in-memory buffer, and choosing the codec and output file
    from the command line. */
module Roundtrip {
  import opened Common

  /** std::copy of a packet's bytes through a back_inserter: one push_back
      per byte. */
  method AppendPacket(buffer: seq<Byte>, pkt: seq<Byte>) returns (r: seq<Byte>)
    ensures |r| == |buffer| + |pkt|
    ensures r[..|buffer|] == buffer
    ensures r[|buffer|..] == pkt
  {
    r := buffer;
    var k := 0;
    while k < |pkt|
      invariant k <= |pkt|
      invariant r == buffer + pkt[..k]
    {
      r := r + [pkt[k]];
      k := k + 1;
    }
  }

  /** The encode loop of video_encode_to_buffer: every packet the encoder
      hands back, the per-frame ones and then the delayed ones, is appended
      to the caller's buffer in order. The existing content stays in front
      and each packet lands right after the previous one. */
  method BufferPackets(buffer: seq<Byte>, packets: seq<seq<Byte>>) returns (r: seq<Byte>)
    ensures r == buffer + Flatten(packets)
  {
    r := buffer;
    var j := 0;
    while j < |packets|
      invariant j <= |packets|
      invariant r == buffer + Flatten(packets[..j])
    {
      r := AppendPacket(r, packets[j]);
      assert packets[..j + 1][..j] == packets[..j];
      j := j + 1;
    }
    assert packets[..j] == packets;
  }

  /** pat occurs in s starting at position k. */
  predicate OccursAt(s: string, pat: string, k: nat)
  {
    k + |pat| <= |s| && s[k..k + |pat|] == pat
  }

  /** pat occurs somewhere in s. */
  ghost predicate Mentions(s: string, pat: string)
  {
    exists k: nat :: OccursAt(s, pat, k)
  }

  /** std::string::find from position `from`: the first occurrence at or
      after it, or None for npos. */
  function FindFrom(s: string, pat: string, from: nat): (r: Option<nat>)
    decreases |s| - from
    ensures r.Some? ==> from <= r.value && OccursAt(s, pat, r.value)
    ensures r.Some? ==> forall k: nat | from <= k < r.value :: !OccursAt(s, pat, k)
    ensures r.None? ==> forall k: nat | from <= k :: !OccursAt(s, pat, k)
  {
    if from + |pat| > |s| then None
    else if s[from..from + |pat|] == pat then Some(from)
    else FindFrom(s, pat, from + 1)
  }

  /** `s.find(pat) != npos` holds exactly when pat occurs in s. */
  lemma FindIffMentions(s: string, pat: string)
    ensures FindFrom(s, pat, 0).Some? <==> Mentions(s, pat)
  {
    var r := FindFrom(s, pat, 0);
    if r.Some? {
      assert OccursAt(s, pat, r.value);
    }
  }

  datatype Codec = H264 | Hevc

  /** What main goes on to do: encode with a codec into a file, or return a
      status at once. */
  datatype Launch = Encode(codec: Codec, outputName: string) | Exit(status: int)

  /** main's argument handling: without an argument it prints the usage and
      returns 1; an argument containing "h264" selects H.264 and test.h264,
      checked first; otherwise one containing "hevc" selects HEVC and
      test.hevc; anything else returns 1. */
  function SelectCodec(argv: seq<string>): (r: Launch)
    ensures |argv| < 2 ==> r == Exit(1)
    ensures |argv| >= 2 && Mentions(argv[1], "h264") ==> r == Encode(H264, "test.h264")
    ensures |argv| >= 2 && !Mentions(argv[1], "h264") && Mentions(argv[1], "hevc") ==>
              r == Encode(Hevc, "test.hevc")
    ensures |argv| >= 2 && !Mentions(argv[1], "h264") && !Mentions(argv[1], "hevc") ==> r == Exit(1)
  {
    if |argv| < 2 then Exit(1)
    else
      FindIffMentions(argv[1], "h264");
      FindIffMentions(argv[1], "hevc");
      if FindFrom(argv[1], "h264", 0).Some? then Encode(H264, "test.h264")
      else if FindFrom(argv[1], "hevc", 0).Some? then Encode(Hevc, "test.hevc")
      else Exit(1)
  }

  /** An argument naming both codecs selects H.264, since that test comes
      first; the codec name may sit anywhere inside the argument. */
  lemma SelectionExamples()
    ensures SelectCodec(["roundtrip", "hevc-or-h264"]) == Encode(H264, "test.h264")
    ensures SelectCodec(["roundtrip", "x-hevc"]) == Encode(Hevc, "test.hevc")
    ensures SelectCodec(["roundtrip", "vp9"]) == Exit(1)
    ensures SelectCodec(["roundtrip"]) == Exit(1)
  {
    assert OccursAt("hevc-or-h264", "h264", 8);
    assert OccursAt("x-hevc", "hevc", 2);
    forall k: nat | k + 4 <= 6 ensures !OccursAt("x-hevc", "h264", k) {
      assert "x-hevc"[k..k + 4][2] == "x-hevc"[k + 2] != '2';
    }
    forall k: nat | OccursAt("vp9", "h264", k) ensures false {
    }
  }
}
