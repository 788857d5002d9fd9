/** When a subscriber's channel overflows, and that every handover can be brought to its end. */
module SubscriptionFlow {
  import opened Bytes
  import opened Replay
  import opened Subscription

  // ---- Overflow ----

  /** The step offers the subscription a frame: a published chunk, or the replay's data. */
  predicate Offers(s: State, a: Action) {
    || (a == Publish && s.unpublished.Some? && s.phase != Unsubscribed)
    || (a == SendReplay && s.phase.Answered? && s.phase.reply.Data? && s.phase.reply.data != [])
  }

  /** A frame is lost exactly when it is offered while 256 frames are waiting. */
  lemma StepOverflows(s: State, a: Action)
    ensures Step(s, a).overflowed <==> s.overflowed || (Offers(s, a) && s.depth >= 256)
    ensures |Step(s, a).frames| == |s.frames| + if Offers(s, a) && s.depth < 256 then 1 else 0
  {
  }

  /** One more for a frame taken in, this subscription's or another, one less for a frame written out. */
  lemma StepDepth(s: State, a: Action)
    ensures Step(s, a).depth == s.depth + (if (Offers(s, a) || a == Other) && s.depth < 256 then 1 else 0)
                                - (if a == Drain && s.depth > 0 then 1 else 0)
  {
  }

  lemma {:induction false} DepthIsBounded(s: State, acts: seq<Action>)
    requires s.depth <= 256
    ensures Run(s, acts).depth <= 256
    decreases acts
  {
    if acts != [] {
      StepDepth(s, acts[0]);
      hide Step;
      DepthIsBounded(Step(s, acts[0]), acts[1..]);
    }
  }

  /** At step i of the run a frame is offered to a full channel. */
  ghost predicate OfferedToFull(s: State, acts: seq<Action>, i: nat) {
    i < |acts| && Offers(Run(s, acts[..i]), acts[i]) && Run(s, acts[..i]).depth >= 256
  }

  /** In every run: the subscription overflows if and only if a frame was offered to a full channel on the way. */
  lemma {:induction false} OverflowIff(s: State, acts: seq<Action>)
    ensures Run(s, acts).overflowed <==> s.overflowed || exists i: nat :: OfferedToFull(s, acts, i)
  {
    if acts != [] {
      var n := |acts| - 1;
      var front, a := acts[..n], acts[n];
      OverflowIff(s, front);
      assert acts == front + [a] && [a][1..] == [];
      RunConcat(s, front, [a]);
      StepOverflows(Run(s, front), a);
      hide Step, Offers;
      assert forall i | 0 <= i <= n :: front[..i] == acts[..i];
      forall i: nat | i < n
        ensures OfferedToFull(s, acts, i) <==> OfferedToFull(s, front, i)
      {
        assert front[..i] == acts[..i];
      }
      assert OfferedToFull(s, acts, n) <==> Offers(Run(s, front), a) && Run(s, front).depth >= 256;
      if i: nat :| OfferedToFull(s, acts, i) && i < n { assert OfferedToFull(s, front, i); }
    }
  }

  /** Steps that may add a frame to the channel. */
  function Additions(acts: seq<Action>): nat {
    if acts == [] then 0
    else (if acts[0] == Publish || acts[0] == SendReplay || acts[0] == Other then 1 else 0) + Additions(acts[1..])
  }

  /** So a client that is sent no more frames than its channel holds loses none, however slowly it reads. */
  lemma {:induction false} FewFramesNeverOverflow(s: State, acts: seq<Action>)
    requires !s.overflowed && s.depth + Additions(acts) <= 256
    ensures !Run(s, acts).overflowed
    decreases acts
  {
    if acts != [] {
      StepOverflows(s, acts[0]);
      StepDepth(s, acts[0]);
      hide Step;
      FewFramesNeverOverflow(Step(s, acts[0]), acts[1..]);
    }
  }

  // ---- To the end ----

  /** Publish what was counted, and take the steps of the handover that are still missing. */
  function Finishing(from: nat): seq<Action> {
    [Drain, Publish, Register(from), ReadHistory, ReadCounter, Drain, SendReplay]
  }

  lemma RunSeven(s: State, a: Action, b: Action, c: Action, d: Action, e: Action, f: Action, g: Action)
    ensures Run(s, [a, b, c, d, e, f, g]) ==
            Step(Step(Step(Step(Step(Step(Step(s, a), b), c), d), e), f), g)
  {
    hide Step;
    var x := Step(Step(s, a), b);
    assert [a, b, c, d, e, f, g] == [a, b] + [c, d, e, f, g] && [a, b][1..] == [b] && [b][1..] == [];
    RunConcat(s, [a, b], [c, d, e, f, g]);
    RunFive(x, c, d, e, f, g);
  }

  lemma RoomAfterDrain(s: State)
    requires s.depth <= 256
    ensures Step(s, Drain).depth < 256 && Step(s, Drain) == s.(depth := Step(s, Drain).depth)
  {
  }

  /** Whatever the handover is in the middle of, the steps of it that are missing complete it. */
  lemma HandoverSteps(s: State, from: nat)
    requires Inv(s) && s.unpublished == None && from < WORD
    ensures var t := Step(Step(Step(s, Register(from)), ReadHistory), ReadCounter);
            && Inv(t) && (t.phase.Answered? || t.phase.Replayed?)
            && t.stream == s.stream && t.overflowed == s.overflowed && t.depth == s.depth && t.unpublished == None
  {
    var a := Step(s, Register(from));
    var b := Step(a, ReadHistory);
    StepKeepsInv(s, Register(from));
    StepKeepsInv(a, ReadHistory);
    StepKeepsInv(b, ReadCounter);
    hide ReplyAt, AllCovered, AnswerOk, ReplayOk, LiveTruthful, ReplayFrameOk;
  }

  lemma PublishSteps(s: State)
    requires Inv(s) && s.depth <= 256
    ensures var t := Step(Step(s, Drain), Publish);
            && Inv(t) && t.unpublished == None && t.stream == s.stream && t.overflowed == s.overflowed
            && t.depth <= 256
  {
    var a := Step(s, Drain);
    RoomAfterDrain(s);
    StepKeepsInv(s, Drain);
    StepKeepsInv(a, Publish);
    StepOverflows(a, Publish);
    StepDepth(a, Publish);
    hide Inv;
  }

  lemma ReplaySteps(s: State)
    requires Inv(s) && s.depth <= 256 && (s.phase.Answered? || s.phase.Replayed?) && s.unpublished == None
    ensures var t := Step(Step(s, Drain), SendReplay);
            t.phase.Replayed? && t.stream == s.stream && t.overflowed == s.overflowed && t.unpublished == None
  {
    RoomAfterDrain(s);
    StepOverflows(Step(s, Drain), SendReplay);
    hide Inv;
  }

  /**
   From every moment of every run the handover can be finished: no byte is added, nothing overflows
   that had not, and if nothing had, every byte from the promised one to the last one counted has
   reached the subscriber.
   */
  lemma EveryHandoverFinishes(s: State, acts: seq<Action>, from: nat)
    requires Subscription.Before(s) && s.depth <= 256 && from < WORD
    ensures var t := Run(s, acts);
            var u := Run(t, Finishing(from));
            && u.phase.Replayed? && u.stream == t.stream && u.overflowed == t.overflowed
            && (!t.overflowed ==> forall k | Promised(u.phase) <= k < |u.stream| :: Covered(u, k))
  {
    RunKeepsInv(s, acts);
    DepthIsBounded(s, acts);
    var t := Run(s, acts);
    hide Run, Inv, Step, Covered;
    PublishSteps(t);
    var a := Step(Step(t, Drain), Publish);
    HandoverSteps(a, from);
    var b := Step(Step(Step(a, Register(from)), ReadHistory), ReadCounter);
    ReplaySteps(b);
    RunSeven(t, Drain, Publish, Register(from), ReadHistory, ReadCounter, Drain, SendReplay);
    var u := Run(t, Finishing(from));
    RunConcat(s, acts, Finishing(from));
    assert Published(u) == |u.stream|;
    if !t.overflowed {
      forall k | Promised(u.phase) <= k < |u.stream|
        ensures Covered(u, k)
      {
        NothingIsLost(s, acts + Finishing(from), k);
      }
    }
  }
}
