/** The audio worklet: two queues of PCM samples fed by messages from the
    main thread and drained one render quantum at a time into the left and
    right output channels. */
module Audio {
  import opened Outcomes

  /** Frames per `process` call: the Web Audio render quantum. */
  const QUANTUM: int := 128

  datatype Queues = Queues(left: seq<int>, right: seq<int>)

  /** A message to the worklet: "reset", or a batch of samples per channel. */
  datatype Message = ResetQueues | Samples(left: seq<int>, right: seq<int>)

  /** An output frame: the PCM value `pcm` scaled by 1/32767, or NaN where
      the right queue ran out before the left one. */
  datatype Frame = Scaled(pcm: int) | NaN

  function Empty(): Queues
  {
    Queues([], [])
  }

  /** `port.onmessage`: "reset" empties both queues; samples are appended. */
  function OnMessage(q: Queues, msg: Message): (r: Queues)
    ensures msg.ResetQueues? ==> r == Empty()
    ensures msg.Samples? ==>
      |r.left| == |q.left| + |msg.left| && r.left[..|q.left|] == q.left && r.left[|q.left|..] == msg.left &&
      |r.right| == |q.right| + |msg.right| && r.right[..|q.right|] == q.right && r.right[|q.right|..] == msg.right
  {
    match msg
    case ResetQueues => Empty()
    case Samples(left, right) => Queues(q.left + left, q.right + right)
  }

  function MinQuantum(n: int): int
  {
    if n < QUANTUM then n else QUANTUM
  }

  /** `process(inputs, [[outputLeft, outputRight]])`: takes up to a quantum
      from the front of each queue and writes one frame per sample taken
      from the left queue to both channels; frames past that are left as
      they were.  Always asks to be kept alive. */
  function Process(q: Queues, outLeft: seq<Frame>, outRight: seq<Frame>): (res: (Queues, seq<Frame>, seq<Frame>, bool))
    requires |outLeft| == QUANTUM && |outRight| == QUANTUM
    ensures var (q', left, right, alive) := res;
      var n := MinQuantum(|q.left|);
      alive && |left| == QUANTUM && |right| == QUANTUM &&
      // the queues lose exactly what was taken from their fronts
      q.left == q.left[..n] + q'.left &&
      q.right == q.right[..MinQuantum(|q.right|)] + q'.right &&
      (forall i | 0 <= i < QUANTUM ::
        left[i] == (if i < n then Scaled(q.left[i]) else outLeft[i])) &&
      (forall i | 0 <= i < QUANTUM ::
        right[i] == (if i < n then (if i < |q.right| then Scaled(q.right[i]) else NaN) else outRight[i]))
  {
    var pcmLeft := q.left[..MinQuantum(|q.left|)];
    var pcmRight := q.right[..MinQuantum(|q.right|)];
    var left := seq(QUANTUM, i requires 0 <= i < QUANTUM =>
      if i < |pcmLeft| then Scaled(pcmLeft[i]) else outLeft[i]);
    var right := seq(QUANTUM, i requires 0 <= i < QUANTUM =>
      if i < |pcmLeft| then (if i < |pcmRight| then Scaled(pcmRight[i]) else NaN) else outRight[i]);
    (Queues(q.left[|pcmLeft|..], q.right[|pcmRight|..]), left, right, true)
  }

  predicate Balanced(q: Queues)
  {
    |q.left| == |q.right|
  }

  /** Queues fed in matching batches stay the same length, and their frames
      are never NaN. */
  lemma BalancedStaysBalanced(q: Queues, msg: Message, outLeft: seq<Frame>, outRight: seq<Frame>)
    requires Balanced(q) && (msg.Samples? ==> |msg.left| == |msg.right|)
    requires |outLeft| == QUANTUM && |outRight| == QUANTUM
    requires forall i | 0 <= i < QUANTUM :: outRight[i] != NaN
    ensures Balanced(OnMessage(q, msg))
    ensures var (q', _, right, _) := Process(OnMessage(q, msg), outLeft, outRight);
      Balanced(q') && forall i | 0 <= i < QUANTUM :: right[i] != NaN
  {
  }

  /** Samples come out in the order they were queued: two quanta drain the
      first 2 * QUANTUM samples of a batch, in order. */
  lemma {:induction false} FirstInFirstOut(left: seq<int>, right: seq<int>, outLeft: seq<Frame>, outRight: seq<Frame>)
    requires |left| >= 2 * QUANTUM && |outLeft| == QUANTUM && |outRight| == QUANTUM
    ensures var q := OnMessage(Empty(), Samples(left, right));
      var (q1, l1, _, _) := Process(q, outLeft, outRight);
      var (_, l2, _, _) := Process(q1, outLeft, outRight);
      forall i | 0 <= i < QUANTUM :: l1[i] == Scaled(left[i]) && l2[i] == Scaled(left[QUANTUM + i])
  {
    var q := OnMessage(Empty(), Samples(left, right));
    assert q.left == left;
    var (q1, _, _, _) := Process(q, outLeft, outRight);
    assert q1.left == left[QUANTUM..];
  }
}
