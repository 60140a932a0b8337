/**
 The first revision of the noise node (src/main.rs): `BrownishNoise::new`,
 `process` with the bounce boundary, and the conditions under which that
 boundary actually keeps the walk inside [-1, 1].
 */
module BounceNoise {
  import opened RandomWalk

  /** The walk scale from which one bounce step cannot leave [-1, 1]. */
  predicate SafeScale(scale: real) {
    -2.0 <= scale <= 2.0
  }

  /** A node whose next block is guaranteed to stay in [-1, 1]. */
  predicate SafeForBounce(node: BrownishNoise) {
    InRange(node.previous) && SafeScale(node.walkScale)
  }

  /** `BrownishNoise::new()`: scale 0.01, starting value 0, a state from which
      the bounce walk stays in range. */
  function New(): (node: BrownishNoise)
    ensures node.walkScale == 0.01 && node.previous == 0.0
    ensures SafeForBounce(node)
  {
    BrownishNoise(0.01, 0.0)
  }

  /** From a value in [-1, 1] with |scale| <= 2 the candidate lies in [-3, 3],
      which every reflecting boundary brings back into [-1, 1]. */
  lemma SafeStepInRange(b: Boundary, prev: real, scale: real, u: real)
    requires b != Clamp
    requires InRange(prev) && SafeScale(scale) && ValidDraw(u)
    ensures InRange(Step(b, Candidate(prev, scale, u)))
  {
    StepSizeBound(scale, u);
    var c := Candidate(prev, scale, u);
    assert -3.0 <= c <= 3.0;
  }

  /** One bounce step from a value in [-1, 1] stays in [-1, 1] for every draw
      exactly when |scale| <= 2: a larger scale lets the draw 0 push the
      candidate past -3 or 3. */
  lemma BounceStepSafeIff(scale: real)
    ensures (forall prev, u | InRange(prev) && ValidDraw(u) :: InRange(BounceStep(Candidate(prev, scale, u))))
            <==> SafeScale(scale)
  {
    if SafeScale(scale) {
      forall prev, u | InRange(prev) && ValidDraw(u)
        ensures InRange(BounceStep(Candidate(prev, scale, u)))
      {
        SafeStepInRange(Bounce, prev, scale, u);
      }
    } else if scale > 2.0 {
      assert Candidate(-1.0, scale, 0.0) == -1.0 - scale;
      assert !InRange(BounceStep(Candidate(-1.0, scale, 0.0)));
    } else {
      assert Candidate(1.0, scale, 0.0) == 1.0 - scale;
      assert !InRange(BounceStep(Candidate(1.0, scale, 0.0)));
    }
  }

  /** The claim of the comment in `process`: from a value in [-1, 1], with
      |scale| <= 2 and draws from [0, 1), every sample of the block and the value
      carried to the next block stay in [-1, 1]. */
  lemma {:induction false} BounceWalkBounded(scale: real, prev: real, draws: seq<real>)
    requires InRange(prev) && SafeScale(scale) && ValidDraws(draws)
    ensures forall k :: 0 <= k < |draws| ==> InRange(Walk(Bounce, scale, prev, draws)[k])
    ensures InRange(Final(prev, Walk(Bounce, scale, prev, draws)))
    decreases |draws|
  {
    if |draws| > 0 {
      var front := draws[..|draws| - 1];
      var u := draws[|draws| - 1];
      assert draws == front + [u];
      BounceWalkBounded(scale, prev, front);
      var w := Walk(Bounce, scale, prev, front);
      SafeStepInRange(Bounce, Final(prev, w), scale, u);
      WalkSnoc(Bounce, scale, prev, front, u);
    }
  }

  /** With scale 0 the bounce walk from a value in [-1, 1] never moves. */
  lemma {:induction false} BounceZeroScaleConstant(prev: real, draws: seq<real>)
    requires InRange(prev)
    ensures forall k :: 0 <= k < |draws| ==> Walk(Bounce, 0.0, prev, draws)[k] == prev
    ensures Final(prev, Walk(Bounce, 0.0, prev, draws)) == prev
    decreases |draws|
  {
    if |draws| > 0 {
      var front := draws[..|draws| - 1];
      var u := draws[|draws| - 1];
      assert draws == front + [u];
      BounceZeroScaleConstant(prev, front);
      WalkSnoc(Bounce, 0.0, prev, front, u);
    }
  }

  /** `process` of src/main.rs: the block contract of `ProcessBlock` with the
      bounce boundary, and the range guarantee that holds for a safe node. */
  method ProcessBounce(node: BrownishNoise, draws: seq<real>, buffers: seq<seq<real>>)
    returns (output: seq<seq<real>>, next: BrownishNoise)
    requires forall j :: 0 <= j < |buffers| ==> |buffers[j]| == |draws|
    ensures |output| == |buffers|
    ensures forall j :: 0 <= j < |output| ==> output[j] == Walk(Bounce, node.walkScale, node.previous, draws)
    ensures next.walkScale == node.walkScale
    ensures next.previous == Final(node.previous, Walk(Bounce, node.walkScale, node.previous, draws))
    ensures SafeForBounce(node) && ValidDraws(draws) ==>
              SafeForBounce(next) && forall j, i :: 0 <= j < |output| && 0 <= i < |output[j]| ==> InRange(output[j][i])
  {
    output, next := ProcessBlock(Bounce, node, draws, buffers);
    if SafeForBounce(node) && ValidDraws(draws) {
      BounceWalkBounded(node.walkScale, node.previous, draws);
    }
  }

  /** The user interface sends `settings.frequency`, initially 440, as the walk
      scale. Accepted by `send_msg`, it makes the very first sample of the next
      block leave [-1, 1]: from 0 with the draw 0 the candidate is -440 and the
      lower branch turns it into -438. */
  lemma UiScaleEscapesRange()
    ensures SendMsg(New(), SetParam(0, Number(440.0))).Ok?
    ensures Walk(Bounce, SendMsg(New(), SetParam(0, Number(440.0))).value.walkScale, New().previous, [0.0]) == [-438.0]
  {
    var node := SendMsg(New(), SetParam(0, Number(440.0))).value;
    WalkSnoc(Bounce, node.walkScale, node.previous, [], 0.0);
    assert [0.0] == [] + [0.0];
  }

  /** The lower branch wraps: -1.3 becomes 0.7, where a mirror image of the
      upper branch would give -0.7, so the bounce boundary is not symmetric. */
  lemma LowerBranchWraps()
    ensures BounceStep(-1.3) == 0.7 && BounceStep(1.3) == 0.7
    ensures MirrorStep(-1.3) == -0.7
  {
  }

  /** The mirror boundary treats both ends alike: negating the candidate negates the result. */
  lemma MirrorStepOdd(c: real)
    ensures MirrorStep(-c) == -MirrorStep(c)
  {
  }

  /** The mirror walk keeps the same range guarantee as the bounce walk. */
  lemma {:induction false} MirrorWalkBounded(scale: real, prev: real, draws: seq<real>)
    requires InRange(prev) && SafeScale(scale) && ValidDraws(draws)
    ensures forall k :: 0 <= k < |draws| ==> InRange(Walk(Mirror, scale, prev, draws)[k])
    ensures InRange(Final(prev, Walk(Mirror, scale, prev, draws)))
    decreases |draws|
  {
    if |draws| > 0 {
      var front := draws[..|draws| - 1];
      var u := draws[|draws| - 1];
      assert draws == front + [u];
      MirrorWalkBounded(scale, prev, front);
      var w := Walk(Mirror, scale, prev, front);
      SafeStepInRange(Mirror, Final(prev, w), scale, u);
      WalkSnoc(Mirror, scale, prev, front, u);
    }
  }
}
