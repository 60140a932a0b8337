/**
 The data movement of `render_audio` in src/main.rs: the rendered block,
 stored channel by channel, is copied into the playback buffer frame by frame,
 and each 16-bit sample is packed into little-endian bytes, written twice into
 a 4-byte buffer.
 */
module Render {
  import opened RandomWalk

  /** Channel `c` of the block has a sample at frame `f`. */
  predicate Readable(block: seq<seq<real>>, c: int, f: int) {
    0 <= c < |block| && 0 <= f < |block[c]|
  }

  /** Every read `block[c][f]` the copy makes is within bounds. */
  predicate Covers(block: seq<seq<real>>, frameCount: nat, channelCount: nat) {
    forall c, f | 0 <= c < channelCount && 0 <= f < frameCount :: Readable(block, c, f)
  }

  /** A buffer of frames, each holding one sample per channel. */
  predicate Framed(frames: seq<seq<real>>, channelCount: nat) {
    forall f :: 0 <= f < |frames| ==> |frames[f]| == channelCount
  }

  /** The copy loop of `render_audio`: frame `f`, channel `c` of the playback
      buffer receives `block[c][f]`. A read past the end of the block is an
      index panic. */
  function Interleave(block: seq<seq<real>>, frameCount: nat, channelCount: nat): (r: Outcome<seq<seq<real>>>)
    ensures r.Ok? <==> Covers(block, frameCount, channelCount)
    ensures r.Ok? ==> |r.value| == frameCount && Framed(r.value, channelCount)
    ensures r.Ok? ==> forall f, c :: 0 <= f < frameCount && 0 <= c < channelCount ==>
                        Readable(block, c, f) && r.value[f][c] == block[c][f]
  {
    if Covers(block, frameCount, channelCount) then
      Ok(seq(frameCount, f requires 0 <= f < frameCount =>
        seq(channelCount, c requires 0 <= c < channelCount && Readable(block, c, f) => block[c][f])))
    else
      Panicked
  }

  /** The inverse reading: channel `c` collects sample `c` of every frame. */
  function Deinterleave(frames: seq<seq<real>>, channelCount: nat): (block: seq<seq<real>>)
    requires Framed(frames, channelCount)
    ensures |block| == channelCount
    ensures forall c :: 0 <= c < channelCount ==> |block[c]| == |frames|
  {
    seq(channelCount, c requires 0 <= c < channelCount =>
      seq(|frames|, f requires 0 <= f < |frames| => frames[f][c]))
  }

  /** Interleaving loses nothing: reading the frames back channel by channel
      gives the first `frameCount` samples of each copied channel. */
  lemma InterleaveRoundTrip(block: seq<seq<real>>, frameCount: nat, channelCount: nat)
    requires channelCount <= |block|
    requires forall c :: 0 <= c < channelCount ==> frameCount <= |block[c]|
    ensures Interleave(block, frameCount, channelCount).Ok?
    ensures forall c :: 0 <= c < channelCount ==>
              Deinterleave(Interleave(block, frameCount, channelCount).value, channelCount)[c] == block[c][..frameCount]
  {
    assert Covers(block, frameCount, channelCount);
    var frames := Interleave(block, frameCount, channelCount).value;
    var back := Deinterleave(frames, channelCount);
    forall c | 0 <= c < channelCount
      ensures back[c] == block[c][..frameCount]
    {
      assert |back[c]| == |block[c][..frameCount]|;
      forall f | 0 <= f < frameCount
        ensures back[c][f] == block[c][..frameCount][f]
      {
        assert Readable(block, c, f);
      }
    }
  }

  /** Frames read back channel by channel and interleaved again are the same frames. */
  lemma DeinterleaveRoundTrip(frames: seq<seq<real>>, channelCount: nat)
    requires Framed(frames, channelCount)
    ensures Interleave(Deinterleave(frames, channelCount), |frames|, channelCount) == Ok(frames)
  {
    var block := Deinterleave(frames, channelCount);
    assert Covers(block, |frames|, channelCount);
    var r := Interleave(block, |frames|, channelCount).value;
    assert |r| == |frames|;
    forall f | 0 <= f < |frames|
      ensures r[f] == frames[f]
    {
      assert |r[f]| == |frames[f]|;
      forall c | 0 <= c < channelCount
        ensures r[f][c] == frames[f][c]
      {
        assert Readable(block, c, f);
      }
    }
    assert r == frames;
  }

  /** A noise block, which holds the same walk on every channel, reaches the
      playback buffer with every frame carrying one walk value on all its channels. */
  lemma NoiseFramesAreUniform(block: seq<seq<real>>, walk: seq<real>, channelCount: nat)
    requires channelCount <= |block|
    requires forall c :: 0 <= c < |block| ==> block[c] == walk
    ensures Interleave(block, |walk|, channelCount).Ok?
    ensures forall f, c :: 0 <= f < |walk| && 0 <= c < channelCount ==>
              Interleave(block, |walk|, channelCount).value[f][c] == walk[f]
  {
    forall c, f | 0 <= c < channelCount && 0 <= f < |walk|
      ensures Readable(block, c, f)
    {
      assert block[c] == walk;
    }
  }

  /** The byte packing of `render_audio`: the low byte then the high byte of the
      16-bit value, written twice into a 4-byte buffer. */
  function PackSample(value: bv16): (bytes: seq<bv8>)
    ensures |bytes| == 4
    ensures (bytes[1] as bv16 << 8) | bytes[0] as bv16 == value
    ensures bytes[2] == bytes[0] && bytes[3] == bytes[1]
  {
    var low := (value & 0x00ff) as bv8;
    var high := ((value & 0xff00) >> 8) as bv8;
    [low, high, low, high]
  }

  /** Reassembling a 16-bit value from its little-endian bytes. */
  function UnpackSample(low: bv8, high: bv8): (value: bv16)
    ensures value & 0x00ff == low as bv16 && value >> 8 == high as bv16
  {
    (high as bv16 << 8) | low as bv16
  }

  /** Read as numbers, the two bytes are the value in base 256, low digit first
      (the sum cannot wrap: the high byte times 256 plus a byte is below 65536). */
  lemma PackSampleDigits(value: bv16)
    ensures PackSample(value)[0] as bv16 + 256 * PackSample(value)[1] as bv16 == value
  {
  }

  /** Packing then unpacking gives back the value, and unpacking then packing
      gives back the two bytes (in both halves of the buffer). */
  lemma PackRoundTrip(value: bv16, low: bv8, high: bv8)
    ensures UnpackSample(PackSample(value)[0], PackSample(value)[1]) == value
    ensures PackSample(UnpackSample(low, high)) == [low, high, low, high]
  {
  }
}
