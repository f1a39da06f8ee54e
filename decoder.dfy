/** Frame-size inference for a decoded H.263 picture
    (`decode_h263_bytes_to_bgr`): the raw BGR output of the external decoder
    has no header, so the frame's dimensions are guessed from its length by
    trying a fixed list of sizes in order. The decoder process itself is an
    input: whether it is available, and what it wrote (None when running it
    raised). */
module Decoder {
  import opened Wire

  /** A candidate frame size, width by height. */
  datatype Size = Size(width: nat, height: nat)

  /** Bytes per pixel of `bgr24`. */
  const Channels: nat := 3

  /** The sizes tried, in order. */
  const Candidates: seq<Size> := [Size(640, 480), Size(320, 240), Size(1280, 720), Size(480, 360)]

  function FrameBytes(s: Size): nat {
    s.width * s.height * Channels
  }

  /** A picture: `rows` by `cols` by `channels`, with its bytes row-major. */
  datatype Picture = Picture(rows: nat, cols: nat, channels: nat, pixels: seq<byte>)

  /** The position of the first size in `cands` whose frame has exactly `n`
      bytes, or None when there is none. */
  function FirstFit(cands: seq<Size>, n: nat): (r: Option<nat>)
    ensures r.Some? ==> r.value < |cands| && FrameBytes(cands[r.value]) == n
    ensures r.Some? ==> forall j :: 0 <= j < r.value ==> FrameBytes(cands[j]) != n
    ensures r.None? <==> forall j :: 0 <= j < |cands| ==> FrameBytes(cands[j]) != n
  {
    if cands == [] then None
    else if FrameBytes(cands[0]) == n then Some(0)
    else
      var t := FirstFit(cands[1..], n);
      if t.None? then
        assert forall j :: 1 <= j < |cands| ==> cands[j] == cands[1..][j - 1];
        None
      else
        assert forall j :: 1 <= j <= t.value ==> cands[j] == cands[1..][j - 1];
        Some(t.value + 1)
  }

  /** `decode_h263_bytes_to_bgr`, given whether the decoder is installed and
      its standard output. */
  function Decode(available: bool, out: Option<seq<byte>>): (r: Option<Picture>)
    ensures r.Some? ==> available && out.Some? && r.value.pixels == out.value != [] && r.value.channels == Channels
  {
    if !available || out.None? || out.value == [] then None
    else
      var k := FirstFit(Candidates, |out.value|);
      if k.None? then None
      else
        var s := Candidates[k.value];
        Some(Picture(s.height, s.width, Channels, out.value))
  }

  /** The candidate frame lengths, and the fact that they are pairwise
      distinct, so at most one candidate can fit any output. */
  lemma CandidateBytes()
    ensures FrameBytes(Candidates[0]) == 921600 && FrameBytes(Candidates[1]) == 230400
    ensures FrameBytes(Candidates[2]) == 2764800 && FrameBytes(Candidates[3]) == 518400
    ensures forall i, j :: 0 <= i < j < |Candidates| ==> FrameBytes(Candidates[i]) != FrameBytes(Candidates[j])
  {
    assert FrameBytes(Candidates[0]) == 921600;
    assert FrameBytes(Candidates[1]) == 230400;
    assert FrameBytes(Candidates[2]) == 2764800;
    assert FrameBytes(Candidates[3]) == 518400;
  }

  /** The decoder yields a picture exactly when it is available, wrote
      something, and the length fits one of the candidates; the picture is
      then that candidate, height by width by three, carrying the output
      unchanged. */
  lemma DecodeSpec(available: bool, out: Option<seq<byte>>)
    ensures Decode(available, out).Some? <==>
      available && out.Some? && out.value != [] &&
      exists i :: 0 <= i < |Candidates| && FrameBytes(Candidates[i]) == |out.value|
    ensures Decode(available, out).Some? ==>
      var p := Decode(available, out).value;
      && p.channels == Channels && p.pixels == out.value
      && p.rows * p.cols * p.channels == |out.value|
      && Size(p.cols, p.rows) in Candidates
  {
    if available && out.Some? && out.value != [] {
      var k := FirstFit(Candidates, |out.value|);
      if k.Some? {
        var s := Candidates[k.value];
        assert s.height * s.width * Channels == s.width * s.height * Channels;
      }
    }
  }

  /** Whichever candidate fits, it is the only one that does. */
  lemma FitIsUnique(n: nat, i: nat)
    requires i < |Candidates| && FrameBytes(Candidates[i]) == n
    ensures FirstFit(Candidates, n) == Some(i)
  {
    CandidateBytes();
  }

  /** A VGA frame is recognised as 480 rows of 640 pixels; a length that no
      candidate has is not recognised. */
  lemma DecodeExamples(px: seq<byte>, odd: seq<byte>)
    requires |px| == 921600 && |odd| == 1000
    ensures Decode(true, Some(px)) == Some(Picture(480, 640, 3, px))
    ensures Decode(true, Some(odd)) == None
    ensures Decode(false, Some(px)) == None
  {
    CandidateBytes();
  }
}
