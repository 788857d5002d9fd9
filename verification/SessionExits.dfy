/** How often the end of a session is reported, and that a current reader loses nothing. */
module SessionExits {
  import opened Bytes
  import opened SessionRun

  // ---- Until the end of output ----

  lemma ExitSnoc(sent: seq<Message>, m: Message, g: nat)
    ensures ExitCount(sent + [m], g) == ExitCount(sent, g) + if m == Exit(g) then 1 else 0
  {
    assert (sent + [m])[..|sent|] == sent;
  }

  /** A step other than a reader's own exit message leaves the number of its exit messages alone. */
  lemma ExitCountFrame(s: State, a: Action, r: nat)
    requires a != SendExit(r)
    ensures ExitCount(Step(s, a).sent, r + 1) == ExitCount(s.sent, r + 1)
  {
    var t := Step(s, a);
    if t.sent != s.sent { ExitSnoc(s.sent, t.sent[|s.sent|], r + 1); }
  }

  /** The reader has recorded the end of output: its exit message is on its way or has been sent, once. */
  ghost predicate Reporting(s: State, r: nat) {
    r < |s.readers| &&
    ((s.readers[r].pc == Exiting && ExitCount(s.sent, r + 1) == 0) ||
     (s.readers[r].pc == Stopped([]) && ExitCount(s.sent, r + 1) == 1))
  }

  /** The reader has returned without an exit message. */
  ghost predicate Silent(s: State, r: nat) {
    r < |s.readers| && s.readers[r].pc.Stopped? && ExitCount(s.sent, r + 1) == 0
  }

  lemma StepKeepsReporting(s: State, a: Action, r: nat)
    requires r < |s.readers|
    ensures Reporting(s, r) ==> Reporting(Step(s, a), r)
    ensures Silent(s, r) ==> Silent(Step(s, a), r)
  {
    hide ExitCount;
    if a == SendExit(r) {
      ExitSnoc(s.sent, Exit(r + 1), r + 1);
    } else {
      ExitCountFrame(s, a, r);
    }
  }

  lemma {:induction false} RunKeepsReporting(s: State, acts: seq<Action>, r: nat)
    requires Reporting(s, r) || Silent(s, r)
    ensures Reporting(s, r) ==> Reporting(Run(s, acts), r)
    ensures Silent(s, r) ==> Silent(Run(s, acts), r)
    decreases acts
  {
    if acts != [] {
      hide Step, Reporting, Silent;
      assert r < |s.readers| by { Listed(s, r); }
      StepKeepsReporting(s, acts[0], r);
      RunKeepsReporting(Step(s, acts[0]), acts[1..], r);
    }
  }

  lemma Listed(s: State, r: nat)
    requires Reporting(s, r) || Silent(s, r)
    ensures r < |s.readers|
  {
  }

  /**
   Whatever happens before and after: a reader that meets the end of output sends one exit message if
   it holds the token and the session had not exited, and no exit message otherwise. Until it is
   sent, sending it is the reader's next step.
   */
  lemma ExitFollowsEnd(acts: seq<Action>, r: nat, more: seq<Action>)
    requires var s := Run(Initial(), acts); r < |s.readers| && s.readers[r].pc == Reading
    ensures var s := Run(Initial(), acts);
            var t := Run(Step(s, EndOfOutput(r)), more);
            if s.token == s.readers[r].token && !s.exited
            then Reporting(t, r) && ExitCount(Step(t, SendExit(r)).sent, r + 1) == 1
            else Silent(t, r)
  {
    hide *;
    var s := Run(Initial(), acts);
    InitialIsOk();
    RunKeepsInv(Initial(), acts);
    EndIsRecorded(s, r);
    var e := Step(s, EndOfOutput(r));
    RunKeepsReporting(e, more, r);
    if Reporting(e, r) { ReportIsSent(Run(e, more), r); }
  }

  lemma InitialIsOk()
    ensures Inv(Initial())
  {
  }

  lemma EndIsRecorded(s: State, r: nat)
    requires Inv(s) && r < |s.readers| && s.readers[r].pc == Reading
    ensures var e := Step(s, EndOfOutput(r));
            if s.token == s.readers[r].token && !s.exited then Reporting(e, r) else Silent(e, r)
  {
    assert ReaderOk(s, r);
  }

  lemma ReportIsSent(s: State, r: nat)
    requires Reporting(s, r)
    ensures ExitCount(Step(s, SendExit(r)).sent, r + 1) == 1
  {
    ExitSnoc(s.sent, Exit(r + 1), r + 1);
  }

  // ---- Whether the session had exited ----

  /** A close since the last respawn. */
  function Closed(acts: seq<Action>, closed: bool): bool
    decreases acts
  {
    if acts == [] then closed
    else Closed(acts[1..], if acts[0] == Close then true else if acts[0] == Reset then false else closed)
  }

  function NextClosed(a: Action, closed: bool): bool {
    if a == Close then true else if a == Reset then false else closed
  }

  /** The newest reader's generation number, and its program counter. */
  function NewestPc(s: State): Pc
    requires s.readers != []
  {
    s.readers[|s.readers| - 1].pc
  }

  ghost predicate ExitsOk(s: State, closed: bool, unstarted: bool) {
    && (closed ==> s.exited)
    && (s.exited && !closed ==> !unstarted && s.readers != [] && (NewestPc(s) == Exiting || NewestPc(s).Stopped?))
    && (s.readers != [] && s.readers[|s.readers| - 1].token == s.token ==>
          (NewestPc(s) == Exiting ==> !closed) &&
          (NewestPc(s).Stopped? ==> ExitCount(s.sent, |s.readers|) == if closed then 0 else 1))
  }

  /** Only the newest reader can hold the token, and only once it has been started. */
  lemma HolderIsNewest(s: State, unstarted: bool, r: nat)
    requires OneReaderEach(s, unstarted) && r < |s.readers| && s.readers[r].token == s.token
    ensures r == |s.readers| - 1 && !unstarted
  {
    assert ReaderOk(s, |s.readers| - 1);
  }

  /** The newest reader's own steps. */
  lemma NewestKeepsExitsOk(s: State, a: Action, closed: bool, unstarted: bool)
    requires s.readers != [] && ExitsOk(s, closed, unstarted)
    requires a.WriteScreen? || a.Count? || a.Send? || a.EndOfOutput? || a.SendExit?
    requires var last: nat := |s.readers| - 1;
             a.r == last && (s.readers[last].token == s.token ==> !unstarted) &&
             (!s.readers[last].pc.Stopped? ==> ExitCount(s.sent, last + 1) == 0)
    ensures ExitsOk(Step(s, a), closed, unstarted)
  {
    var last: nat := |s.readers| - 1;
    if a == SendExit(last) { ExitSnoc(s.sent, Exit(last + 1), last + 1); } else { ExitCountFrame(s, a, last); }
  }

  /** An older reader has lost the token: it changes nothing that matters here. */
  lemma OlderKeepsExitsOk(s: State, a: Action, closed: bool, unstarted: bool)
    requires s.readers != [] && ExitsOk(s, closed, unstarted)
    requires a.WriteScreen? || a.Count? || a.Send? || a.EndOfOutput? || a.SendExit?
    requires a.r < |s.readers| - 1 && s.readers[a.r].token != s.token
    ensures ExitsOk(Step(s, a), closed, unstarted)
  {
    ExitCountFrame(s, a, |s.readers| - 1);
  }

  lemma ReaderKeepsExitsOk(s: State, a: Action, closed: bool, unstarted: bool)
    requires OneReaderEach(s, unstarted) && ExitsOk(s, closed, unstarted)
    requires a.WriteScreen? || a.Count? || a.Send? || a.EndOfOutput? || a.SendExit?
    ensures ExitsOk(Step(s, a), closed, unstarted)
  {
    hide ExitsOk;
    if a.r < |s.readers| {
      var last: nat := |s.readers| - 1;
      assert ReaderOk(s, last);
      if s.readers[a.r].token == s.token { HolderIsNewest(s, unstarted, a.r); }
      hide Step, OneReaderEach;
      if a.r == last { NewestKeepsExitsOk(s, a, closed, unstarted); } else { OlderKeepsExitsOk(s, a, closed, unstarted); }
    } else {
      assert Step(s, a) == s;
    }
  }

  lemma ControlKeepsExitsOk(s: State, a: Action, closed: bool, unstarted: bool)
    requires OneReaderEach(s, unstarted) && ExitsOk(s, closed, unstarted)
    requires a == Start || a == Close || a == Reset
    requires a == Start ==> unstarted
    ensures ExitsOk(Step(s, a), NextClosed(a, closed), Next(a, unstarted))
  {
    if s.readers != [] { assert ReaderOk(s, |s.readers| - 1); }
  }

  lemma {:induction false} RunKeepsExitsOk(s: State, acts: seq<Action>, closed: bool, unstarted: bool)
    requires OneReaderEach(s, unstarted) && ExitsOk(s, closed, unstarted) && Paired(acts, unstarted)
    ensures ExitsOk(Run(s, acts), Closed(acts, closed), NextAll(acts, unstarted))
    decreases acts
  {
    if acts != [] {
      var a := acts[0];
      StepKeepsOneReader(s, a, unstarted);
      hide Step, OneReaderEach, ExitsOk;
      if a == Start || a == Close || a == Reset {
        ControlKeepsExitsOk(s, a, closed, unstarted);
      } else {
        ReaderKeepsExitsOk(s, a, closed, unstarted);
      }
      RunKeepsExitsOk(Step(s, a), acts[1..], NextClosed(a, closed), Next(a, unstarted));
    }
  }

  /**
   In every paired run, while the newest reader holds the token: before it meets the end of output
   the session has exited exactly when it was closed before the start; and once the reader has
   returned, its end was reported exactly once if the session was not closed, and else not at all.
   */
  lemma EndIsReportedOnce(acts: seq<Action>)
    requires Paired(acts, true)
    requires var s := Run(Initial(), acts); s.readers != [] && s.readers[|s.readers| - 1].token == s.token
    ensures var s, closed := Run(Initial(), acts), Closed(acts, false);
            && (NewestPc(s) != Exiting && !NewestPc(s).Stopped? ==> (s.exited <==> closed))
            && (NewestPc(s) == Exiting ==> !closed)
            && (NewestPc(s).Stopped? ==> ExitCount(s.sent, |s.readers|) == if closed then 0 else 1)
  {
    RunKeepsExitsOk(Initial(), acts, false, true);
  }

  // ---- What is lost ----

  /** A chunk is only lost by a reader that lost the token. */
  ghost predicate HolderLosesNothing(s: State) {
    forall r | 0 <= r < |s.readers| :: s.readers[r].token == s.token && s.readers[r].pc.Stopped? ==>
      s.readers[r].pc.lost == []
  }

  lemma StepLosesNothing(s: State, a: Action)
    requires Inv(s) && HolderLosesNothing(s)
    ensures HolderLosesNothing(Step(s, a))
  {
    var t := Step(s, a);
    forall r | 0 <= r < |t.readers| && t.readers[r].token == t.token && t.readers[r].pc.Stopped?
      ensures t.readers[r].pc.lost == []
    {
      if r < |s.readers| { assert ReaderOk(s, r); }
    }
  }

  lemma {:induction false} RunLosesNothing(s: State, acts: seq<Action>)
    requires Inv(s) && HolderLosesNothing(s)
    ensures HolderLosesNothing(Run(s, acts)) && Inv(Run(s, acts))
    decreases acts
  {
    if acts != [] {
      hide Step, Inv, HolderLosesNothing;
      StepKeepsInv(s, acts[0]);
      StepLosesNothing(s, acts[0]);
      RunLosesNothing(Step(s, acts[0]), acts[1..]);
    }
  }

  /** The chunk that a reader has in hand: on the screen, or counted, and not yet sent. */
  function InHand(pc: Pc): seq<Byte> {
    if pc.Wrote? || pc.Counted? then pc.chunk else []
  }

  /**
   In every run each byte a reader has read was sent, in order, or is in the chunk in hand, or was in
   the one chunk it lost when it found the token gone; a reader that holds the token has lost nothing.
   */
  lemma EveryByteIsSent(acts: seq<Action>, r: nat)
    requires r < |Run(Initial(), acts).readers|
    ensures var s := Run(Initial(), acts); var x := s.readers[r];
            && (x.token == s.token ==> x.read == DataOf(s.sent, r + 1) + InHand(x.pc))
            && x.read == DataOf(s.sent, r + 1) + InHand(x.pc) + if x.pc.Stopped? then x.pc.lost else []
  {
    RunLosesNothing(Initial(), acts);
    var s := Run(Initial(), acts);
    assert ReaderOk(s, r);
  }

  /**
   And from every moment of every run, two steps of a reader that holds the token, counting and
   sending what it has in hand, bring out every byte it has read.
   */
  lemma CurrentReaderFinishes(acts: seq<Action>, r: nat)
    requires var s := Run(Initial(), acts); r < |s.readers| && s.readers[r].token == s.token
    ensures var s := Run(Initial(), acts); var t := Step(Step(s, Count(r)), Send(r));
            && t.readers[r].read == s.readers[r].read == DataOf(t.sent, r + 1)
            && (InHand(s.readers[r].pc) != [] ==> t.readers[r].pc == Reading)
  {
    EveryByteIsSent(acts, r);
    TwoStepsSend(Run(Initial(), acts), r);
  }

  lemma SendSends(s: State, r: nat)
    requires r < |s.readers| && s.readers[r].pc.Counted?
    ensures var x, t := s.readers[r], Step(s, Send(r));
            && |t.readers| == |s.readers| && t.readers[r] == x.(pc := Reading)
            && DataOf(t.sent, r + 1) == DataOf(s.sent, r + 1) + x.pc.chunk
  {
    var t := Step(s, Send(r));
    assert t.sent[..|t.sent| - 1] == s.sent;
  }

  lemma TwoStepsSend(s: State, r: nat)
    requires r < |s.readers| && s.readers[r].token == s.token
    ensures var x, t := s.readers[r], Step(Step(s, Count(r)), Send(r));
            && |t.readers| == |s.readers| && t.readers[r].read == x.read
            && DataOf(t.sent, r + 1) == DataOf(s.sent, r + 1) + InHand(x.pc)
            && t.readers[r].pc == if InHand(x.pc) != [] || x.pc.Wrote? || x.pc.Counted? then Reading else x.pc
  {
    var x, m := s.readers[r], Step(s, Count(r));
    if x.pc.Wrote? {
      assert m.readers[r] == x.(pc := Counted(s.sequence, x.pc.chunk)) && m.sent == s.sent;
      SendSends(m, r);
    } else {
      assert m == s;
      if x.pc.Counted? { SendSends(s, r); } else { assert DataOf(s.sent, r + 1) + [] == DataOf(s.sent, r + 1); }
    }
  }
}
