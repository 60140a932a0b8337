/**
 The bounded random walk behind the "brownish" noise node, shared by both
 revisions of the node: the per-sample step, the walk over a block of random
 draws, the block-processing loop that writes every sample to every output
 channel, and the parameter message that changes the walk scale.

 The random source `fastrand::f32()` is modelled as a sequence of draws, each
 in [0, 1); `f32` arithmetic is modelled with `real`.
 */
module RandomWalk {

  /** The state of one noise node: the walk scale and the walk's memory. */
  datatype BrownishNoise = BrownishNoise(walkScale: real, previous: real)

  /** How a candidate that left [-1, 1] is brought back.
      Bounce: the policy of src/main.rs (reflect above, shift by 2 below).
      Clamp: the policy of src/sound/brownish_noise.rs.
      Mirror: a symmetric reflection at both ends. */
  datatype Boundary = Bounce | Clamp | Mirror

  /** The parameter payload of a glicol message; `OtherPara` stands for every
      non-numeric payload. */
  datatype Para = Number(n: real) | OtherPara

  /** A glicol message as the node sees it; `OtherMessage` stands for every
      message kind other than `SetParam`. */
  datatype Message = SetParam(slot: nat, para: Para) | OtherMessage

  /** The result of an operation that may panic (`todo!()`, an index out of bounds). */
  datatype Outcome<T> = Ok(value: T) | Panicked

  /** One value of `fastrand::f32()`. */
  predicate ValidDraw(u: real) {
    0.0 <= u < 1.0
  }

  predicate ValidDraws(draws: seq<real>) {
    forall k :: 0 <= k < |draws| ==> ValidDraw(draws[k])
  }

  /** The range every emitted sample is meant to stay in. */
  predicate InRange(x: real) {
    -1.0 <= x <= 1.0
  }

  function Abs(x: real): real {
    if x < 0.0 then -x else x
  }

  /** A draw moves the walk by at most |scale|. */
  lemma StepSizeBound(scale: real, u: real)
    requires ValidDraw(u)
    ensures -Abs(scale) <= scale * (u * 2.0 - 1.0) <= Abs(scale)
  {
  }

  /** The value before the boundary is applied: the previous value plus the
      scale times the draw mapped onto [-1, 1). A valid draw moves it at most
      |scale| away from the previous value. */
  function Candidate(prev: real, scale: real, u: real): (c: real)
    ensures ValidDraw(u) ==> prev - Abs(scale) <= c <= prev + Abs(scale)
  {
    var c := prev + scale * (u * 2.0 - 1.0);
    assert ValidDraw(u) ==> prev - Abs(scale) <= c <= prev + Abs(scale) by {
      if ValidDraw(u) {
        StepSizeBound(scale, u);
      }
    }
    c
  }

  /** The boundary of src/main.rs. Above 1 the excess is reflected back below 1;
      below -1 the excess is added to 1, so the value wraps to the top half. */
  function BounceStep(c: real): (v: real)
    ensures v <= 1.0
    ensures InRange(v) <==> -3.0 <= c <= 3.0
    ensures c > 1.0 ==> 1.0 - v == c - 1.0
    ensures c < -1.0 ==> v - 1.0 == c + 1.0 && v < 1.0
    ensures InRange(c) ==> v == c
  {
    if c > 1.0 then
      var bounce := c - 1.0;
      1.0 - bounce
    else if c < -1.0 then
      var bounce := c + 1.0;
      1.0 + bounce
    else
      c
  }

  /** The boundary of src/sound/brownish_noise.rs: saturate at the nearest end. */
  function ClampStep(c: real): (v: real)
    ensures InRange(v)
    ensures v == c <==> InRange(c)
    ensures c > 1.0 ==> v == 1.0
    ensures c < -1.0 ==> v == -1.0
  {
    if c > 1.0 then 1.0 else if c < -1.0 then -1.0 else c
  }

  /** A reflection at both ends: the excess past -1 is mirrored back above -1. */
  function MirrorStep(c: real): (v: real)
    ensures InRange(v) <==> -3.0 <= c <= 3.0
    ensures c > 1.0 ==> 1.0 - v == c - 1.0
    ensures c < -1.0 ==> v + 1.0 == -1.0 - c
    ensures InRange(c) ==> v == c
  {
    if c > 1.0 then 1.0 - (c - 1.0) else if c < -1.0 then -1.0 - (c + 1.0) else c
  }

  function Step(b: Boundary, c: real): real {
    match b
    case Bounce => BounceStep(c)
    case Clamp => ClampStep(c)
    case Mirror => MirrorStep(c)
  }

  /** The value the walk holds after `values`: the last one, or `prev` if there is none. */
  function Final(prev: real, values: seq<real>): real {
    if |values| == 0 then prev else values[|values| - 1]
  }

  /** The samples a walk starting after `prev` emits for `draws`, one per draw. */
  function Walk(b: Boundary, scale: real, prev: real, draws: seq<real>): (values: seq<real>)
    ensures |values| == |draws|
    decreases |draws|
  {
    if |draws| == 0 then []
    else
      var front := Walk(b, scale, prev, draws[..|draws| - 1]);
      front + [Step(b, Candidate(Final(prev, front), scale, draws[|draws| - 1]))]
  }

  /** Extending the draws by one appends exactly one step from the current value. */
  lemma WalkSnoc(b: Boundary, scale: real, prev: real, draws: seq<real>, u: real)
    ensures Walk(b, scale, prev, draws + [u])
         == Walk(b, scale, prev, draws) + [Step(b, Candidate(Final(prev, Walk(b, scale, prev, draws)), scale, u))]
  {
    assert (draws + [u])[..|draws|] == draws;
  }

  /** The walk continues across blocks: processing `d1` and then `d2` from the
      carried value emits the same samples as processing `d1 + d2` at once. */
  lemma {:induction false} WalkAppend(b: Boundary, scale: real, prev: real, d1: seq<real>, d2: seq<real>)
    ensures Walk(b, scale, prev, d1 + d2)
         == Walk(b, scale, prev, d1) + Walk(b, scale, Final(prev, Walk(b, scale, prev, d1)), d2)
    decreases |d2|
  {
    var w1 := Walk(b, scale, prev, d1);
    var mid := Final(prev, w1);
    if |d2| == 0 {
      assert d1 + d2 == d1;
    } else {
      var front := d2[..|d2| - 1];
      var u := d2[|d2| - 1];
      assert d2 == front + [u];
      assert d1 + d2 == (d1 + front) + [u];
      WalkAppend(b, scale, prev, d1, front);
      var wf := Walk(b, scale, mid, front);
      WalkSnoc(b, scale, prev, d1 + front, u);
      WalkSnoc(b, scale, mid, front, u);
      assert Final(prev, w1 + wf) == Final(mid, wf);
    }
  }

  /** The inner loop of `process`: write `value` at index `i` of every channel,
      leaving every other index of every channel as it was. */
  method WriteColumn(buffers: seq<seq<real>>, i: nat, value: real) returns (output: seq<seq<real>>)
    requires forall j :: 0 <= j < |buffers| ==> i < |buffers[j]|
    ensures |output| == |buffers|
    ensures forall j :: 0 <= j < |output| ==> output[j] == buffers[j][i := value]
  {
    output := buffers;
    var j := 0;
    while j < |output|
      invariant 0 <= j <= |output| == |buffers|
      invariant forall j' :: 0 <= j' < j ==> output[j'] == buffers[j'][i := value]
      invariant forall j' :: j <= j' < |output| ==> output[j'] == buffers[j']
    {
      output := output[j := output[j][i := value]];
      j := j + 1;
    }
  }

  /** One block of `process`: for each of the N draws the value takes one step,
      is written at that index of every output channel, and is carried into
      `previous` at the end. `buffers` are the node's output buffers of N
      samples each; whatever they held before is overwritten. */
  method ProcessBlock(b: Boundary, node: BrownishNoise, draws: seq<real>, buffers: seq<seq<real>>)
    returns (output: seq<seq<real>>, next: BrownishNoise)
    requires forall j :: 0 <= j < |buffers| ==> |buffers[j]| == |draws|
    ensures |output| == |buffers|
    ensures forall j :: 0 <= j < |output| ==> output[j] == Walk(b, node.walkScale, node.previous, draws)
    ensures next.walkScale == node.walkScale
    ensures next.previous == Final(node.previous, Walk(b, node.walkScale, node.previous, draws))
  {
    ghost var walked: seq<real> := [];
    output := buffers;
    var value := node.previous;
    var i := 0;
    while i < |draws|
      invariant 0 <= i <= |draws|
      invariant walked == Walk(b, node.walkScale, node.previous, draws[..i])
      invariant value == Final(node.previous, walked)
      invariant |output| == |buffers|
      invariant forall j :: 0 <= j < |output| ==> |output[j]| == |draws|
      invariant forall j, k :: 0 <= j < |output| && 0 <= k < i ==> output[j][k] == walked[k]
    {
      value := Step(b, Candidate(value, node.walkScale, draws[i]));
      output := WriteColumn(output, i, value);
      assert draws[..i + 1] == draws[..i] + [draws[i]];
      WalkSnoc(b, node.walkScale, node.previous, draws[..i], draws[i]);
      walked := walked + [value];
      i := i + 1;
    }
    assert draws[..i] == draws;
    next := node.(previous := value);
  }

  /** `send_msg`: `SetParam(0, Number(s))` replaces the walk scale and keeps the
      walk's memory; every other message reaches `todo!()` and panics. */
  function SendMsg(node: BrownishNoise, msg: Message): (r: Outcome<BrownishNoise>)
    ensures r.Ok? <==> msg.SetParam? && msg.slot == 0 && msg.para.Number?
    ensures r.Ok? ==> r.value.walkScale == msg.para.n && r.value.previous == node.previous
  {
    match msg
    case SetParam(0, Number(scale)) => Ok(node.(walkScale := scale))
    case _ => Panicked
  }

  /** Of two accepted scale messages with no block between them, only the last
      one has an effect. */
  lemma SendMsgLastWins(node: BrownishNoise, first: Message, second: Message)
    requires SendMsg(node, first).Ok?
    ensures SendMsg(SendMsg(node, first).value, second) == SendMsg(node, second)
  {
  }
}
