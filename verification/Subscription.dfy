/**
 Handing a subscriber over from replay to live output. The subscription is registered first; the
 replay is computed afterwards from two reads, of the history and of the counter, and sent later
 still, while the session's reader counts chunks and publishes them in two separate steps. Writing
 the screen and counting are one step here.
 */
module Subscription {
  import opened Bytes
  import opened Replay
  import ByteRing

  /** Capacity of a client's send channel. */
  const SEND_QUEUE := 256

  datatype Frame = Frame(sequence: nat, data: seq<Byte>)

  /** What the replay of a subscription came to; written and at are the bytes counted at the two reads. */
  datatype Phase =
    | Unsubscribed
    | Registered(from: nat)
    | HistoryRead(from: nat, written: nat)
    | Answered(from: nat, written: nat, at: nat, reply: Reply)
    | Replayed(from: nat, written: nat, at: nat, gap: bool)

  datatype State = State(
    stream: seq<Byte>,               // the generation's counted output
    unpublished: Option<Frame>,      // counted, not yet handed to the clients
    phase: Phase,
    frames: seq<Frame>,              // output frames accepted by the channel for this subscription
    replay: Option<nat>,             // which of them is the replay
    depth: nat,                      // frames waiting in the channel
    overflowed: bool)

  datatype Action =
    | Count(chunk: seq<Byte>)
    | Publish
    | Register(from: nat)
    | ReadHistory
    | ReadCounter
    | SendReplay         // the replay's data, if any, into the channel
    | Drain              // the connection writer takes one frame
    | Other              // the client is sent something else

  /** A frame is accepted while there is room. */
  function Enqueue(s: State, f: Frame): State {
    if s.depth < SEND_QUEUE then s.(frames := s.frames + [f], depth := s.depth + 1)
    else s.(overflowed := true)
  }

  function EnqueueReplay(s: State, f: Frame): State {
    if s.depth < SEND_QUEUE then Enqueue(s, f).(replay := Some(|s.frames|)) else Enqueue(s, f)
  }

  function Step(s: State, a: Action): State {
    match a
    case Count(chunk) =>
      if s.unpublished.None? && chunk != [] && |s.stream| + |chunk| < WORD then
        s.(stream := s.stream + chunk, unpublished := Some(Frame(|s.stream|, chunk)))
      else s
    case Publish =>
      if s.unpublished.None? then s
      else
        var done := s.(unpublished := None);
        if s.phase == Unsubscribed then done else Enqueue(done, s.unpublished.value)
    case Register(from) =>
      if s.phase == Unsubscribed && from < WORD then s.(phase := Registered(from)) else s
    case ReadHistory =>
      if s.phase.Registered? then s.(phase := HistoryRead(s.phase.from, |s.stream|)) else s
    case ReadCounter =>
      if s.phase.HistoryRead? && s.phase.written <= |s.stream| < WORD && s.phase.from < WORD then
        var reply := ReplyAt(s.stream, s.phase.written, |s.stream|, s.phase.from);
        s.(phase := Answered(s.phase.from, s.phase.written, |s.stream|, reply))
      else s
    case SendReplay =>
      if s.phase.Answered? then
        var t := s.(phase := Replayed(s.phase.from, s.phase.written, s.phase.at, s.phase.reply.Gap?));
        match s.phase.reply
        case Data(sequence, data) => if data == [] then t else EnqueueReplay(t, Frame(sequence, data))
        case _ => t
      else s
    case Drain => if s.depth > 0 then s.(depth := s.depth - 1) else s
    case Other => if s.depth < SEND_QUEUE then s.(depth := s.depth + 1) else s
  }

  function Run(s: State, acts: seq<Action>): State
    decreases acts
  {
    if acts == [] then s else Run(Step(s, acts[0]), acts[1..])
  }

  /** Any moment before the subscription: some output counted, at most one chunk of it unpublished. */
  ghost predicate Before(s: State) {
    && s.phase == Unsubscribed && s.frames == [] && s.replay == None && |s.stream| < WORD
    && (s.unpublished.Some? ==> Truthful(s, s.unpublished.value) && End(s.unpublished.value) == |s.stream|)
  }

  function End(f: Frame): nat {
    f.sequence + |f.data|
  }

  /** A frame carries exactly the bytes of the stream its number says. */
  ghost predicate Truthful(s: State, f: Frame) {
    End(f) <= |s.stream| && f.data == s.stream[f.sequence..End(f)]
  }

  ghost predicate CoversByte(f: Frame, k: nat) {
    f.sequence <= k < End(f)
  }

  /** Byte k has reached the subscriber, in a frame that carries what it says. */
  ghost predicate Covered(s: State, k: nat) {
    exists i :: 0 <= i < |s.frames| && CoversByte(s.frames[i], k) && Truthful(s, s.frames[i])
  }

  /** Up to here everything has been offered to the subscriptions registered at the time. */
  function Published(s: State): nat {
    if s.unpublished.Some? then s.unpublished.value.sequence else |s.stream|
  }

  /** The first byte the subscriber can count on: the requested one only if the two reads saw the same stream. */
  function Promised(p: Phase): nat
    requires p.Replayed?
  {
    if p.gap || p.from > p.at || p.written != p.at then p.at else p.from
  }

  /** The two reads saw the same stream. */
  predicate ReadsAgree(p: Phase) {
    (p.Answered? || p.Replayed?) && p.written == p.at
  }

  // ---- What every step keeps ----

  /** Everything in [from, to) has reached the subscriber. */
  ghost predicate AllCovered(s: State, from: nat, to: nat) {
    forall k | from <= k < to :: Covered(s, k)
  }

  ghost predicate ReadsOk(s: State, from: nat, written: nat) {
    from < WORD && written <= |s.stream|
  }

  /** The answer is what the two reads gave, and what was published since is covered. */
  ghost predicate AnswerOk(s: State, from: nat, written: nat, at: nat, reply: Reply) {
    && ReadsOk(s, from, written) && written <= at <= |s.stream| && at < WORD
    && reply == ReplyAcross(s.stream[..at], written, at, from)
    && (!s.overflowed ==> AllCovered(s, at, Published(s)))
  }

  ghost predicate ReplayOk(s: State, p: Phase)
    requires p.Replayed?
  {
    && p.written <= p.at <= |s.stream|
    && (!s.overflowed ==> AllCovered(s, Promised(p), p.at) && AllCovered(s, p.at, Published(s)))
  }

  /** The live frames are truthful. */
  ghost predicate LiveTruthful(s: State) {
    forall i | 0 <= i < |s.frames| && s.replay != Some(i) :: Truthful(s, s.frames[i])
  }

  /** The replay frame is numbered from the requested byte, and carries the bytes that end at the first read. */
  ghost predicate ReplayFrameOk(s: State) {
    s.replay.Some? ==>
      && s.phase.Replayed? && s.replay.value < |s.frames|
      && s.phase.written <= s.phase.at <= |s.stream| && s.phase.at - s.phase.written <= s.phase.from <= s.phase.at
      && s.frames[s.replay.value] ==
         Frame(s.phase.from, s.stream[s.phase.written - (s.phase.at - s.phase.from)..s.phase.written])
  }

  ghost predicate Inv(s: State) {
    && |s.stream| < WORD
    && LiveTruthful(s) && ReplayFrameOk(s)
    && (s.unpublished.Some? ==> Truthful(s, s.unpublished.value) && End(s.unpublished.value) == |s.stream|)
    && match s.phase
       case Unsubscribed => true
       case Registered(from) => from < WORD
       case HistoryRead(from, written) =>
         ReadsOk(s, from, written) && (!s.overflowed ==> AllCovered(s, written, Published(s)))
       case Answered(from, written, at, reply) => AnswerOk(s, from, written, at, reply)
       case Replayed(_, _, _, _) => ReplayOk(s, s.phase)
  }

  lemma EnqueueKeepsCover(s: State, f: Frame)
    requires Truthful(s, f)
    ensures var t := Enqueue(s, f);
            && (forall k | Covered(s, k) :: Covered(t, k))
            && (!t.overflowed ==> forall k | CoversByte(f, k) :: Covered(t, k))
  {
    var t := Enqueue(s, f);
    forall k | Covered(s, k)
      ensures Covered(t, k)
    {
      var i :| 0 <= i < |s.frames| && CoversByte(s.frames[i], k) && Truthful(s, s.frames[i]);
      assert t.frames[i] == s.frames[i];
    }
    if !t.overflowed {
      assert t.frames[|s.frames|] == f && Truthful(t, f);
    }
  }

  lemma SameFrames(s: State, t: State)
    requires t.stream == s.stream && t.frames == s.frames
    ensures forall f :: Truthful(s, f) <==> Truthful(t, f)
    ensures forall k :: Covered(s, k) <==> Covered(t, k)
  {
  }

  lemma CountKeepsInv(s: State, chunk: seq<Byte>)
    requires Inv(s)
    ensures Inv(Step(s, Count(chunk)))
  {
    var t := Step(s, Count(chunk));
    if t != s {
      assert forall f | Truthful(s, f) :: Truthful(t, f);
      assert LiveTruthful(t);
      assert Published(t) == Published(s) == |s.stream|;
      forall k | Covered(s, k)
        ensures Covered(t, k)
      {
        var i :| 0 <= i < |s.frames| && CoversByte(s.frames[i], k) && Truthful(s, s.frames[i]);
        assert t.frames[i] == s.frames[i];
      }
      if s.phase.Answered? { assert t.stream[..s.phase.at] == s.stream[..s.phase.at]; }
    }
  }

  lemma PublishKeepsInv(s: State)
    requires Inv(s)
    ensures Inv(Step(s, Publish))
  {
    if s.unpublished.Some? && s.phase != Unsubscribed {
      var done := s.(unpublished := None);
      var f := s.unpublished.value;
      var t := Enqueue(done, f);
      assert Truthful(done, f);
      EnqueueKeepsCover(done, f);
      SameFrames(s, done);
      forall k | f.sequence <= k < Published(t)
        ensures CoversByte(f, k)
      {
      }
    }
  }

  lemma ReadKeepsInv(s: State, a: Action)
    requires Inv(s) && (a == ReadHistory || a == ReadCounter)
    ensures Inv(Step(s, a))
  {
    var t := Step(s, a);
    SameFrames(s, t);
    hide Covered, Truthful;
    if t.phase.Answered? && t != s {
      assert s.stream[..|s.stream|] == s.stream;
      ReplyIsAcross(s.stream, s.phase.written, |s.stream|, s.phase.from);
    }
  }

  lemma ReplayFrameKeepsCover(s: State, f: Frame)
    ensures var t := EnqueueReplay(s, f);
            && (forall k | Covered(s, k) :: Covered(t, k))
            && (!t.overflowed && Truthful(s, f) ==> forall k | CoversByte(f, k) :: Covered(t, k))
  {
    var t := EnqueueReplay(s, f);
    forall k | Covered(s, k)
      ensures Covered(t, k)
    {
      var i :| 0 <= i < |s.frames| && CoversByte(s.frames[i], k) && Truthful(s, s.frames[i]);
      assert t.frames[i] == s.frames[i];
    }
    if !t.overflowed {
      assert t.frames[|s.frames|] == f && Truthful(s, f) ==> Truthful(t, f);
    }
  }

  /** A replay that read the same stream twice is truthful; otherwise nothing before the counter is promised. */
  lemma DataReplayKeepsInv(s: State)
    requires Inv(s) && s.phase.Answered? && s.phase.reply.Data? && s.phase.reply.data != []
    ensures Inv(Step(s, SendReplay))
  {
    var from, written, at := s.phase.from, s.phase.written, s.phase.at;
    var mid := s.(phase := Replayed(from, written, at, false));
    var f := Frame(from, s.stream[written - (at - from)..written]);
    SameFrames(s, mid);
    hide Covered, Published;
    assert s.phase.reply == Data(f.sequence, f.data);
    assert forall k | from <= k < at :: CoversByte(f, k);
    assert written == at ==> Truthful(mid, f);
    hide Truthful;
    ReplayFrameKeepsCover(mid, f);
  }

  lemma SendReplayKeepsInv(s: State)
    requires Inv(s)
    ensures Inv(Step(s, SendReplay))
  {
    if s.phase.Answered? && s.phase.reply.Data? && s.phase.reply.data != [] {
      DataReplayKeepsInv(s);
    } else {
      SameFrames(s, Step(s, SendReplay));
      hide Covered, Truthful;
    }
  }

  lemma OtherKeepsInv(s: State, a: Action)
    requires Inv(s) && (a.Register? || a == Drain || a == Other)
    ensures Inv(Step(s, a))
  {
    SameFrames(s, Step(s, a));
    hide Covered, Truthful;
  }

  lemma StepKeepsInv(s: State, a: Action)
    requires Inv(s)
    ensures Inv(Step(s, a))
  {
    hide Step, Inv;
    match a
    case Count(chunk) => CountKeepsInv(s, chunk);
    case Publish => PublishKeepsInv(s);
    case ReadHistory => ReadKeepsInv(s, a);
    case ReadCounter => ReadKeepsInv(s, a);
    case SendReplay => SendReplayKeepsInv(s);
    case _ => OtherKeepsInv(s, a);
  }

  lemma {:induction false} RunKeepsInv(s: State, acts: seq<Action>)
    requires Inv(s)
    ensures Inv(Run(s, acts))
    decreases acts
  {
    if acts != [] {
      StepKeepsInv(s, acts[0]);
      RunKeepsInv(Step(s, acts[0]), acts[1..]);
    }
  }

  /**
   From any moment before subscribing and over every interleaving, while the channel has not
   overflowed: once the replay has been sent, every byte from the promised one on that was counted
   before the counter was read, or has been published since, is in a frame that carries what it says.
   The promise starts at the requested byte when the two reads saw the same stream. After a gap
   report, a request beyond the output, or a count between the reads it starts at the counter.
   */
  lemma NothingIsLost(s: State, acts: seq<Action>, k: nat)
    requires Before(s)
    requires var t := Run(s, acts);
             && t.phase.Replayed? && !t.overflowed
             && Promised(t.phase) <= k && (k < t.phase.at || k < Published(t))
    ensures Covered(Run(s, acts), k)
  {
    RunKeepsInv(s, acts);
  }

  /** Every live frame is truthful, overflow or not, and so is the replay when the two reads saw the same stream. */
  lemma FramesAreTruthful(s: State, acts: seq<Action>)
    requires Before(s)
    ensures var t := Run(s, acts);
            forall i | 0 <= i < |t.frames| && (t.replay != Some(i) || ReadsAgree(t.phase)) :: Truthful(t, t.frames[i])
  {
    RunKeepsInv(s, acts);
    var t := Run(s, acts);
    assert LiveTruthful(t) && ReplayFrameOk(t);
  }

  // ---- When the counter moves between the two reads ----

  /**
   In every run: the replay frame is numbered `from` and carries the bytes that lie as far before it
   as was counted between the reads. So it is truthful exactly when those two stretches are alike.
   */
  lemma ReplayFrameIsShifted(s: State, acts: seq<Action>)
    requires Before(s)
    ensures var t := Run(s, acts);
            t.replay.Some? ==>
              && t.phase.Replayed? && t.replay.value < |t.frames|
              && var p, f := t.phase, t.frames[t.replay.value];
                 && p.written <= p.at <= |t.stream| && p.at - p.written <= p.from <= p.at
                 && var d := p.at - p.written;
                    && f == Frame(p.from, t.stream[p.from - d..p.at - d])
                    && (Truthful(t, f) <==> t.stream[p.from - d..p.at - d] == t.stream[p.from..p.at])
  {
    RunKeepsInv(s, acts);
    assert ReplayFrameOk(Run(s, acts));
  }

  lemma {:induction false} RunConcat(s: State, x: seq<Action>, y: seq<Action>)
    ensures Run(s, x + y) == Run(Run(s, x), y)
    decreases x
  {
    if x == [] {
      assert x + y == y;
    } else {
      hide Step;
      assert (x + y)[1..] == x[1..] + y;
      RunConcat(Step(s, x[0]), x[1..], y);
    }
  }

  /** Nothing is counted, and the counter is not read yet. */
  predicate Still(acts: seq<Action>) {
    forall a | a in acts :: !a.Count? && a != ReadCounter
  }

  lemma {:induction false} StillKeepsStream(s: State, acts: seq<Action>)
    requires Still(acts) && s.phase.HistoryRead?
    ensures Run(s, acts).stream == s.stream && Run(s, acts).phase == s.phase
    decreases acts
  {
    if acts != [] {
      assert acts[0] in acts && forall a | a in acts[1..] :: a in acts;
      StillKeepsStream(Step(s, acts[0]), acts[1..]);
    }
  }

  lemma {:induction false} AgreementLasts(s: State, acts: seq<Action>)
    requires ReadsAgree(s.phase)
    ensures ReadsAgree(Run(s, acts).phase)
    decreases acts
  {
    if acts != [] { AgreementLasts(Step(s, acts[0]), acts[1..]); }
  }

  /** So in a run with no count between the two reads every frame is truthful, and the promise is the request. */
  lemma NoCountBetweenReads(s: State, first: seq<Action>, mid: seq<Action>, last: seq<Action>)
    requires Before(s) && Still(mid) && Run(s, first).phase.Registered?
    ensures var t := Run(s, first + [ReadHistory] + mid + [ReadCounter] + last);
            && ReadsAgree(t.phase)
            && (forall i | 0 <= i < |t.frames| :: Truthful(t, t.frames[i]))
            && (t.phase.Replayed? && !t.phase.gap && t.phase.from <= t.phase.at ==> Promised(t.phase) == t.phase.from)
  {
    var s0 := Run(s, first);
    var s1 := Step(s0, ReadHistory);
    var s2 := Run(s1, mid);
    var s3 := Step(s2, ReadCounter);
    RunKeepsInv(s, first);
    StepKeepsInv(s0, ReadHistory);
    StillKeepsStream(s1, mid);
    RunKeepsInv(s1, mid);
    AgreementLasts(s3, last);
    hide Step;
    assert [ReadHistory][1..] == [] && [ReadCounter][1..] == [];
    assert Run(s0, [ReadHistory]) == s1 && Run(s2, [ReadCounter]) == s3;
    RunConcat(s, first, [ReadHistory]);
    RunConcat(s, first + [ReadHistory], mid);
    RunConcat(s, first + [ReadHistory] + mid, [ReadCounter]);
    RunConcat(s, first + [ReadHistory] + mid + [ReadCounter], last);
    FramesAreTruthful(s, first + [ReadHistory] + mid + [ReadCounter] + last);
  }

  /** The run in which d bytes are counted between the two reads of a session with h bytes of output. */
  function CrossedRun(d: nat, from: nat): seq<Action> {
    [Register(from), ReadHistory, Count(seq(d, _ => 1)), ReadCounter, SendReplay]
  }

  lemma RunFive(s: State, a: Action, b: Action, c: Action, d: Action, e: Action)
    ensures Run(s, [a, b, c, d, e]) == Step(Step(Step(Step(Step(s, a), b), c), d), e)
  {
    hide Step;
    assert [a, b, c, d, e] == [a] + ([b] + ([c] + ([d] + [e])));
    RunConcat(s, [a], [b] + ([c] + ([d] + [e])));
    RunConcat(Step(s, a), [b], [c] + ([d] + [e]));
    RunConcat(Step(Step(s, a), b), [c], [d] + [e]);
    RunConcat(Step(Step(Step(s, a), b), c), [d], [e]);
    assert [a][1..] == [] && [b][1..] == [] && [c][1..] == [] && [d][1..] == [] && [e][1..] == [];
  }

  /**
   And whatever was written and however much is counted between the reads, it can go wrong: a request
   for the last byte counted gets a replay frame with another byte in it.
   */
  lemma CountBetweenReadsMisleads(h: nat, d: nat)
    requires h > 0 && d > 0 && h + d < WORD
    ensures var s := State(seq(h, _ => 0), None, Unsubscribed, [], None, 0, false);
            var t := Run(s, CrossedRun(d, h + d - 1));
            && Before(s) && t.replay == Some(0) && t.frames == [Frame(h + d - 1, [0])]
            && t.stream == seq(h, _ => 0) + seq(d, _ => 1) && !Truthful(t, t.frames[0])
  {
    var s := State(seq(h, _ => 0), None, Unsubscribed, [], None, 0, false);
    var from, chunk: seq<Byte> := h + d - 1, seq(d, _ => 1);
    RunFive(s, Register(from), ReadHistory, Count(chunk), ReadCounter, SendReplay);
    var stream := s.stream + chunk;
    ReplyIsAcross(stream, h, h + d, from);
    assert stream[h - 1..h] == [0] && stream[from..h + d] == [1];
  }
}
