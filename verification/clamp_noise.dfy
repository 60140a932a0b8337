/**
 The later revision of the noise node (src/sound/brownish_noise.rs):
 `BrownishNoise::new_with_scale` and `process` with the clamp boundary, which
 keeps every sample in [-1, 1] for every finite scale, starting value and draw
 sequence (`real` has no NaN or infinity).
 */
module ClampNoise {
  import opened RandomWalk

  /** `BrownishNoise::new_with_scale(scale)`: the given scale, starting value 0. */
  function NewWithScale(scale: real): (node: BrownishNoise)
    ensures node.walkScale == scale && node.previous == 0.0
    ensures InRange(node.previous)
  {
    BrownishNoise(scale, 0.0)
  }

  function Min(x: real, y: real): real {
    if x <= y then x else y
  }

  function Max(x: real, y: real): real {
    if x <= y then y else x
  }

  function Distance(x: real, y: real): real {
    if x <= y then y - x else x - y
  }

  /** The clamp boundary agrees with the textbook clamp max(-1, min(1, c)), and
      it returns the point of [-1, 1] nearest to the candidate. */
  lemma ClampIsNearestInRange(c: real, y: real)
    requires InRange(y)
    ensures ClampStep(c) == Max(-1.0, Min(1.0, c))
    ensures Distance(c, ClampStep(c)) <= Distance(c, y)
  {
  }

  /** Clamping twice is clamping once. */
  lemma ClampIdempotent(c: real)
    ensures ClampStep(ClampStep(c)) == ClampStep(c)
  {
  }

  /** The clamp never reorders two candidates. */
  lemma ClampMonotone(c: real, d: real)
    requires c <= d
    ensures ClampStep(c) <= ClampStep(d)
  {
  }

  /** Every sample of a clamped walk lies in [-1, 1], for any finite scale, any
      starting value and any draws; so does the value carried to the next block once at
      least one sample was written. */
  lemma {:induction false} ClampWalkBounded(scale: real, prev: real, draws: seq<real>)
    ensures forall k :: 0 <= k < |draws| ==> InRange(Walk(Clamp, scale, prev, draws)[k])
    ensures |draws| > 0 ==> InRange(Final(prev, Walk(Clamp, scale, prev, draws)))
    decreases |draws|
  {
    if |draws| > 0 {
      var front := draws[..|draws| - 1];
      var u := draws[|draws| - 1];
      assert draws == front + [u];
      ClampWalkBounded(scale, prev, front);
      WalkSnoc(Clamp, scale, prev, front, u);
    }
  }

  /** With scale 0 the clamped walk settles on the clamped starting value at the
      first sample and stays there. */
  lemma {:induction false} ClampZeroScaleConstant(prev: real, draws: seq<real>)
    ensures forall k :: 0 <= k < |draws| ==> Walk(Clamp, 0.0, prev, draws)[k] == ClampStep(prev)
    decreases |draws|
  {
    if |draws| > 0 {
      var front := draws[..|draws| - 1];
      var u := draws[|draws| - 1];
      assert draws == front + [u];
      ClampZeroScaleConstant(prev, front);
      WalkSnoc(Clamp, 0.0, prev, front, u);
      var w := Walk(Clamp, 0.0, prev, front);
      if |front| > 0 {
        ClampIdempotent(prev);
        assert Final(prev, w) == ClampStep(prev);
      }
    }
  }

  /** `process` of src/sound/brownish_noise.rs: the block contract of
      `ProcessBlock` with the clamp boundary, and the range guarantee, which holds for
      every finite scale. */
  method ProcessClamp(node: BrownishNoise, draws: seq<real>, buffers: seq<seq<real>>)
    returns (output: seq<seq<real>>, next: BrownishNoise)
    requires forall j :: 0 <= j < |buffers| ==> |buffers[j]| == |draws|
    ensures |output| == |buffers|
    ensures forall j :: 0 <= j < |output| ==> output[j] == Walk(Clamp, node.walkScale, node.previous, draws)
    ensures next.walkScale == node.walkScale
    ensures next.previous == Final(node.previous, Walk(Clamp, node.walkScale, node.previous, draws))
    ensures forall j, i :: 0 <= j < |output| && 0 <= i < |output[j]| ==> InRange(output[j][i])
    ensures |draws| > 0 ==> InRange(next.previous)
  {
    output, next := ProcessBlock(Clamp, node, draws, buffers);
    ClampWalkBounded(node.walkScale, node.previous, draws);
  }
}
