/**
 A session's reader goroutines against Start, Close and Respawn. Each action is one critical section
 (or one write outside it); a run is any sequence of actions, and an action that is not enabled does
 nothing, so every interleaving is a run.
 */
module SessionRun {
  import opened Bytes
  import opened Replay
  import ByteRing

  /** Where a reader stands inside its loop. */
  datatype Pc =
    | Reading                                   // about to read from the child
    | Wrote(chunk: seq<Byte>)                   // chunk is on the screen, not yet counted
    | Counted(sequence: nat, chunk: seq<Byte>)  // counted, message not yet sent
    | Exiting                                   // end of output recorded, exit message not yet sent
    | Stopped(lost: seq<Byte>)                  // returned; lost was on the screen and never counted

  /** Reader i serves generation i + 1. */
  datatype Reader = Reader(screen: nat, token: nat, base: nat, read: seq<Byte>, pc: Pc)

  datatype Message =
    | Output(generation: nat, sequence: nat, data: seq<Byte>)
    | Exit(generation: nat)

  datatype State = State(
    token: nat, generation: nat, sequence: nat, exited: bool,
    screens: seq<seq<Byte>>,   // what was written to each screen; the last one is current
    readers: seq<Reader>,
    sent: seq<Message>)

  datatype Action =
    | Start
    | Close
    | Reset                                // Respawn up to its call of Start
    | WriteScreen(r: nat, chunk: seq<Byte>)
    | Count(r: nat)
    | Send(r: nat)
    | EndOfOutput(r: nat)
    | SendExit(r: nat)

  /** The index of the current screen. */
  function Current(s: State): int {
    |s.screens| - 1
  }

  function CurrentScreen(s: State): seq<Byte> {
    if s.screens == [] then [] else s.screens[Current(s)]
  }

  function Initial(): State {
    State(0, 0, 0, false, [[]], [], [])
  }

  function SetPc(s: State, r: nat, pc: Pc): State
    requires r < |s.readers|
  {
    s.(readers := s.readers[r := s.readers[r].(pc := pc)])
  }

  function Step(s: State, a: Action): State {
    match a
    case Start =>
      if s.screens == [] then s
      else s.(generation := s.generation + 1, token := s.token + 1,
              readers := s.readers + [Reader(Current(s), s.token + 1, s.sequence, [], Reading)])
    case Close => s.(exited := true, token := s.token + 1)
    case Reset => s.(token := s.token + 1, exited := false, sequence := 0, screens := s.screens + [[]])
    case WriteScreen(r, chunk) =>
      if r < |s.readers| && s.readers[r].pc == Reading && chunk != [] && s.readers[r].screen < |s.screens| then
        var x := s.readers[r];
        s.(screens := s.screens[x.screen := s.screens[x.screen] + chunk],
           readers := s.readers[r := x.(read := x.read + chunk, pc := Wrote(chunk))])
      else s
    case Count(r) =>
      if r < |s.readers| && s.readers[r].pc.Wrote? then
        var x := s.readers[r];
        if s.token != x.token then SetPc(s, r, Stopped(x.pc.chunk))
        else SetPc(s, r, Counted(s.sequence, x.pc.chunk)).(sequence := s.sequence + |x.pc.chunk|)
      else s
    case Send(r) =>
      if r < |s.readers| && s.readers[r].pc.Counted? then
        var x := s.readers[r];
        SetPc(s, r, Reading).(sent := s.sent + [Output(r + 1, x.pc.sequence, x.pc.chunk)])
      else s
    case EndOfOutput(r) =>
      if r < |s.readers| && s.readers[r].pc == Reading then
        if s.token != s.readers[r].token then SetPc(s, r, Stopped([]))
        else SetPc(s, r, if s.exited then Stopped([]) else Exiting).(exited := true)
      else s
    case SendExit(r) =>
      if r < |s.readers| && s.readers[r].pc == Exiting then
        SetPc(s, r, Stopped([])).(sent := s.sent + [Exit(r + 1)])
      else s
  }

  function Run(s: State, acts: seq<Action>): State
    decreases acts
  {
    if acts == [] then s else Run(Step(s, acts[0]), acts[1..])
  }

  // ---- What a generation has sent ----

  /** The bytes of the output messages of generation g. */
  function DataOf(sent: seq<Message>, g: nat): seq<Byte> {
    if sent == [] then []
    else
      var m := sent[|sent| - 1];
      DataOf(sent[..|sent| - 1], g) + if m.Output? && m.generation == g then m.data else []
  }

  /** Each output message of generation g is numbered by what was sent before it, from base on. */
  predicate Contiguous(sent: seq<Message>, g: nat, base: nat) {
    sent == [] ||
    var before, m := sent[..|sent| - 1], sent[|sent| - 1];
    Contiguous(before, g, base) && (m.Output? && m.generation == g ==> m.sequence == base + |DataOf(before, g)|)
  }

  function ExitCount(sent: seq<Message>, g: nat): nat {
    if sent == [] then 0
    else ExitCount(sent[..|sent| - 1], g) + if sent[|sent| - 1] == Exit(g) then 1 else 0
  }

  // ---- What every step keeps ----

  /** The part of a reader's input that is not in its messages yet, or never will be. */
  function Outside(pc: Pc): seq<Byte> {
    match pc
    case Wrote(c) => c
    case Counted(_, c) => c
    case Stopped(c) => c
    case _ => []
  }

  ghost predicate ReaderOk(s: State, r: nat)
    requires r < |s.readers|
  {
    var x := s.readers[r];
    var done := DataOf(s.sent, r + 1);
    && x.token <= s.token && x.screen < |s.screens|
    && x.read == done + Outside(x.pc)
    && Contiguous(s.sent, r + 1, x.base)
    && (x.pc.Counted? ==> x.pc.sequence == x.base + |done|)
    && (x.token == s.token ==> s.sequence == x.base + |done| + if x.pc.Counted? then |x.pc.chunk| else 0)
    && ExitCount(s.sent, r + 1) <= (if x.pc.Stopped? then 1 else 0)
  }

  ghost predicate Inv(s: State) {
    && s.screens != []
    && s.generation == |s.readers|
    && (forall r | 0 <= r < |s.readers| :: ReaderOk(s, r))
    && (forall q, r | 0 <= q < r < |s.readers| :: s.readers[q].token < s.readers[r].token)
    && (forall m | m in s.sent :: 1 <= m.generation <= |s.readers|)
  }

  lemma {:induction false} NothingSentYet(sent: seq<Message>, g: nat, base: nat)
    requires forall m | m in sent :: m.generation != g
    ensures DataOf(sent, g) == [] && ExitCount(sent, g) == 0 && Contiguous(sent, g, base)
  {
    if sent != [] {
      var front, m := sent[..|sent| - 1], sent[|sent| - 1];
      assert m in sent;
      assert forall x | x in front :: x in sent;
      NothingSentYet(front, g, base);
    }
  }

  lemma StartKeepsInv(s: State)
    requires Inv(s)
    ensures Inv(Step(s, Start))
  {
    var t := Step(s, Start);
    NothingSentYet(s.sent, |s.readers| + 1, s.sequence);
    forall r | 0 <= r < |t.readers|
      ensures ReaderOk(t, r)
    {
      if r < |s.readers| { assert ReaderOk(s, r); assert t.readers[r] == s.readers[r]; }
    }
    forall q, r | 0 <= q < r < |t.readers|
      ensures t.readers[q].token < t.readers[r].token
    {
      assert ReaderOk(s, q);
    }
  }

  /** Nothing was sent, or one message of generation g was. */
  ghost predicate Extends(sent: seq<Message>, more: seq<Message>, g: nat) {
    more == sent || (more != [] && more[..|more| - 1] == sent && more[|more| - 1].generation == g)
  }

  lemma OtherReaderOk(s: State, t: State, r: nat, q: nat)
    requires r < |s.readers| && q < |s.readers| == |t.readers| && q != r && ReaderOk(s, q)
    requires |t.screens| == |s.screens| && t.token == s.token && t.readers[q] == s.readers[q]
    requires t.sequence == s.sequence || s.readers[q].token != s.token
    requires Extends(s.sent, t.sent, r + 1)
    ensures ReaderOk(t, q)
  {
  }

  /** A step of one reader that keeps its own facts keeps everyone's. */
  lemma ReaderStepKeepsInv(s: State, t: State, r: nat)
    requires Inv(s) && r < |s.readers| == |t.readers| && ReaderOk(t, r)
    requires |t.screens| == |s.screens| && t.generation == s.generation && t.token == s.token
    requires forall q | 0 <= q < |s.readers| && q != r :: t.readers[q] == s.readers[q]
    requires t.readers[r].token == s.readers[r].token
    requires t.sequence == s.sequence || s.readers[r].token == s.token
    requires Extends(s.sent, t.sent, r + 1)
    ensures Inv(t)
  {
    forall q | 0 <= q < |t.readers|
      ensures ReaderOk(t, q)
    {
      if q != r { OtherReaderOk(s, t, r, q); }
    }
    if t.sent != s.sent { assert t.sent == s.sent + [t.sent[|s.sent|]]; }
  }

  lemma ControlKeepsInv(s: State, a: Action)
    requires Inv(s) && (a == Close || a == Reset)
    ensures Inv(Step(s, a))
  {
    var t := Step(s, a);
    forall r | 0 <= r < |t.readers|
      ensures ReaderOk(t, r)
    {
      assert ReaderOk(s, r);
    }
  }

  lemma SendKeepsReader(s: State, r: nat)
    requires r < |s.readers| && s.readers[r].pc.Counted? && ReaderOk(s, r)
    ensures ReaderOk(Step(s, Send(r)), r)
  {
  }

  lemma SendExitKeepsReader(s: State, r: nat)
    requires r < |s.readers| && s.readers[r].pc == Exiting && ReaderOk(s, r)
    ensures ReaderOk(Step(s, SendExit(r)), r)
  {
  }

  lemma SendKeepsInv(s: State, r: nat)
    requires Inv(s)
    ensures Inv(Step(s, Send(r)))
  {
    var t := Step(s, Send(r));
    if t != s {
      SendKeepsReader(s, r);
      assert t.sent[..|t.sent| - 1] == s.sent;
      ReaderStepKeepsInv(s, t, r);
    }
  }

  lemma SendExitKeepsInv(s: State, r: nat)
    requires Inv(s)
    ensures Inv(Step(s, SendExit(r)))
  {
    var t := Step(s, SendExit(r));
    if t != s {
      SendExitKeepsReader(s, r);
      assert t.sent[..|t.sent| - 1] == s.sent;
      ReaderStepKeepsInv(s, t, r);
    }
  }

  lemma WriteKeepsInv(s: State, a: Action)
    requires Inv(s) && a.WriteScreen?
    ensures Inv(Step(s, a))
  {
    var t := Step(s, a);
    if a.r < |s.readers| && t != s {
      assert ReaderOk(s, a.r);
      assert ReaderOk(t, a.r);
      ReaderStepKeepsInv(s, t, a.r);
    }
  }

  lemma CountKeepsInv(s: State, a: Action)
    requires Inv(s) && a.Count?
    ensures Inv(Step(s, a))
  {
    var t := Step(s, a);
    if a.r < |s.readers| && t != s {
      assert ReaderOk(s, a.r);
      assert ReaderOk(t, a.r);
      ReaderStepKeepsInv(s, t, a.r);
    }
  }

  lemma EndKeepsInv(s: State, a: Action)
    requires Inv(s) && a.EndOfOutput?
    ensures Inv(Step(s, a))
  {
    var t := Step(s, a);
    if a.r < |s.readers| && t != s {
      assert ReaderOk(s, a.r);
      assert ReaderOk(t, a.r);
      ReaderStepKeepsInv(s, t, a.r);
    }
  }

  lemma StepKeepsInv(s: State, a: Action)
    requires Inv(s)
    ensures Inv(Step(s, a))
  {
    match a
    case Start => StartKeepsInv(s);
    case Close => ControlKeepsInv(s, a);
    case Reset => ControlKeepsInv(s, a);
    case WriteScreen(_, _) => WriteKeepsInv(s, a);
    case Count(_) => CountKeepsInv(s, a);
    case Send(r) => SendKeepsInv(s, r);
    case EndOfOutput(_) => EndKeepsInv(s, a);
    case SendExit(r) => SendExitKeepsInv(s, r);
  }

  lemma {:induction false} RunKeepsInv(s: State, acts: seq<Action>)
    requires Inv(s)
    ensures Inv(Run(s, acts))
    decreases acts
  {
    if acts != [] {
      StepKeepsInv(s, acts[0]);
      RunKeepsInv(Step(s, acts[0]), acts[1..]);
    }
  }

  ghost predicate HoldsToken(s: State, r: nat) {
    r < |s.readers| && s.readers[r].token == s.token
  }

  /**
   What generation r + 1 has sent: output numbered without gap or overlap from base on, together a
   prefix of the bytes its reader read, and at most one exit message.
   */
  ghost predicate SentInOrder(s: State, r: nat, base: nat)
    requires r < |s.readers|
  {
    && Contiguous(s.sent, r + 1, base)
    && DataOf(s.sent, r + 1) <= s.readers[r].read
    && ExitCount(s.sent, r + 1) <= 1
  }

  lemma InvMeansInOrder(s: State)
    requires Inv(s)
    ensures forall r | 0 <= r < |s.readers| :: SentInOrder(s, r, s.readers[r].base)
  {
    forall r | 0 <= r < |s.readers|
      ensures SentInOrder(s, r, s.readers[r].base)
    {
      assert ReaderOk(s, r);
    }
  }

  /** In every run at most one reader holds the current token, and every generation's messages are in order. */
  lemma RunIsolation(acts: seq<Action>)
    ensures var s := Run(Initial(), acts);
            && (forall q, r | HoldsToken(s, q) && HoldsToken(s, r) :: q == r)
            && (forall r | 0 <= r < |s.readers| :: SentInOrder(s, r, s.readers[r].base))
  {
    RunKeepsInv(Initial(), acts);
    InvMeansInOrder(Run(Initial(), acts));
  }

  // ---- Every start after the first belongs to a respawn ----

  /** No two starts without a reset between them; unstarted tells whether a start may come next. */
  predicate Paired(acts: seq<Action>, unstarted: bool)
    decreases acts
  {
    acts == [] ||
    match acts[0]
    case Start => unstarted && Paired(acts[1..], false)
    case Reset => Paired(acts[1..], true)
    case _ => Paired(acts[1..], unstarted)
  }

  ghost predicate OwnScreen(s: State, r: nat)
    requires r < |s.readers|
  {
    var x := s.readers[r];
    x.base == 0 && x.screen < |s.screens| && s.screens[x.screen] == x.read
  }

  ghost predicate Untouched(s: State) {
    && s.sequence == 0 && CurrentScreen(s) == []
    && forall r | 0 <= r < |s.readers| :: s.readers[r].screen < Current(s) && s.readers[r].token < s.token
  }

  /** Each screen holds what its one reader read; until a start, the newest screen and the counter are untouched. */
  ghost predicate OneReaderEach(s: State, unstarted: bool) {
    && Inv(s)
    && (forall q, r | 0 <= q < r < |s.readers| :: s.readers[q].screen < s.readers[r].screen)
    && (forall r | 0 <= r < |s.readers| :: OwnScreen(s, r))
    && (if unstarted then Untouched(s)
        else s.readers != [] && s.readers[|s.readers| - 1].screen == Current(s))
  }

  function Next(a: Action, unstarted: bool): bool {
    match a
    case Start => false
    case Reset => true
    case _ => unstarted
  }

  function NextAll(acts: seq<Action>, unstarted: bool): bool
    decreases acts
  {
    if acts == [] then unstarted else NextAll(acts[1..], Next(acts[0], unstarted))
  }

  lemma WriteKeepsOneReader(s: State, a: Action, unstarted: bool)
    requires OneReaderEach(s, unstarted) && a.WriteScreen?
    ensures OneReaderEach(Step(s, a), unstarted)
  {
    var t := Step(s, a);
    StepKeepsInv(s, a);
    if t != s {
      forall r | 0 <= r < |t.readers|
        ensures OwnScreen(t, r)
      {
        assert OwnScreen(s, r);
        if a.r != r {
          assert s.readers[a.r].screen != s.readers[r].screen;
        }
      }
    }
  }

  lemma ResetKeepsOneReader(s: State, unstarted: bool)
    requires OneReaderEach(s, unstarted)
    ensures OneReaderEach(Step(s, Reset), true)
  {
    var t := Step(s, Reset);
    StepKeepsInv(s, Reset);
    forall r | 0 <= r < |t.readers|
      ensures OwnScreen(t, r) && t.readers[r].screen < Current(t) && t.readers[r].token < t.token
    {
      assert OwnScreen(s, r) && ReaderOk(s, r);
    }
  }

  lemma StartKeepsOneReader(s: State)
    requires OneReaderEach(s, true)
    ensures OneReaderEach(Step(s, Start), false)
  {
    var t := Step(s, Start);
    StepKeepsInv(s, Start);
    forall r | 0 <= r < |t.readers|
      ensures OwnScreen(t, r)
    {
      if r < |s.readers| { assert OwnScreen(s, r); }
    }
  }

  /** The other steps leave every screen and every input alone, and only a current reader moves the counter. */
  lemma OtherStepsFrame(s: State, a: Action)
    requires !a.WriteScreen? && a != Reset && a != Start
    ensures var t := Step(s, a);
            && t.screens == s.screens && |t.readers| == |s.readers| && t.token >= s.token
            && (forall q | 0 <= q < |s.readers| :: t.readers[q].(pc := Reading) == s.readers[q].(pc := Reading))
            && (t.sequence == s.sequence ||
                exists q :: 0 <= q < |s.readers| && s.readers[q].token == s.token)
  {
  }

  lemma OtherKeepsOneReader(s: State, a: Action, unstarted: bool)
    requires OneReaderEach(s, unstarted) && !a.WriteScreen? && a != Reset && a != Start
    ensures OneReaderEach(Step(s, a), unstarted)
  {
    var t := Step(s, a);
    StepKeepsInv(s, a);
    OtherStepsFrame(s, a);
    forall r | 0 <= r < |t.readers|
      ensures OwnScreen(t, r) && t.readers[r].screen == s.readers[r].screen && t.readers[r].token == s.readers[r].token
    {
      assert OwnScreen(s, r);
      assert t.readers[r].(pc := Reading) == s.readers[r].(pc := Reading);
    }
  }

  lemma StepKeepsOneReader(s: State, a: Action, unstarted: bool)
    requires OneReaderEach(s, unstarted) && (a == Start ==> unstarted)
    ensures OneReaderEach(Step(s, a), Next(a, unstarted))
  {
    match a
    case Start => StartKeepsOneReader(s);
    case Reset => ResetKeepsOneReader(s, unstarted);
    case WriteScreen(_, _) => WriteKeepsOneReader(s, a, unstarted);
    case _ => OtherKeepsOneReader(s, a, unstarted);
  }

  lemma {:induction false} RunKeepsOneReader(s: State, acts: seq<Action>, unstarted: bool)
    requires OneReaderEach(s, unstarted) && Paired(acts, unstarted)
    ensures OneReaderEach(Run(s, acts), NextAll(acts, unstarted))
    decreases acts
  {
    if acts != [] {
      StepKeepsOneReader(s, acts[0], unstarted);
      RunKeepsOneReader(Step(s, acts[0]), acts[1..], Next(acts[0], unstarted));
    }
  }

  /** Then every generation's messages start from zero, and no two readers share a screen. */
  lemma GenerationsStartFromZero(acts: seq<Action>)
    requires Paired(acts, true)
    ensures var s := Run(Initial(), acts);
            && (forall r | 0 <= r < |s.readers| :: SentInOrder(s, r, 0))
            && (forall q, r | 0 <= q < r < |s.readers| :: s.readers[q].screen != s.readers[r].screen)
  {
    RunKeepsOneReader(Initial(), acts, true);
    var s := Run(Initial(), acts);
    InvMeansInOrder(s);
    forall r | 0 <= r < |s.readers|
      ensures SentInOrder(s, r, 0)
    {
      assert OwnScreen(s, r);
    }
  }

  /** The pairing is needed: a second start without a reset goes on counting where the first stopped. */
  lemma UnpairedStartCountsOn(c: seq<Byte>)
    requires c != []
    ensures var s := Run(Initial(), [Start, WriteScreen(0, c), Count(0), Send(0), Start]);
            |s.readers| == 2 && s.readers[1].base == |c| && s.readers[1].screen == s.readers[0].screen
  {
    var a0 := [Start, WriteScreen(0, c), Count(0), Send(0), Start];
    assert a0[1..] == [WriteScreen(0, c), Count(0), Send(0), Start];
    assert a0[1..][1..] == [Count(0), Send(0), Start];
    assert [Count(0), Send(0), Start][1..] == [Send(0), Start] && [Send(0), Start][1..] == [Start];
    assert [Start][1..] == [];
    var s1 := Step(Initial(), Start);
    var s2 := Step(s1, WriteScreen(0, c));
    var s3 := Step(s2, Count(0));
    var s4 := Step(s3, Send(0));
    assert Run(Initial(), a0) == Run(s1, a0[1..]) == Run(s2, a0[1..][1..]) == Run(s3, [Send(0), Start]);
    assert Run(s3, [Send(0), Start]) == Run(s4, [Start]) == Step(s4, Start);
  }

  lemma OldScreenMeansOldToken(s: State, unstarted: bool, r: nat)
    requires OneReaderEach(s, unstarted) && r < |s.readers| && s.readers[r].screen != Current(s)
    ensures s.readers[r].token < s.token && s.readers[r].screen < Current(s)
  {
    assert ReaderOk(s, r) && ReaderOk(s, |s.readers| - 1);
  }

  lemma StaleStep(s: State, r: nat, a: Action)
    requires r < |s.readers| && s.readers[r].token != s.token && s.readers[r].screen < Current(s)
    requires a in [Count(r), Send(r), EndOfOutput(r), SendExit(r)] || (a.WriteScreen? && a.r == r)
    ensures var t := Step(s, a);
            && Current(t) == Current(s) && CurrentScreen(t) == CurrentScreen(s)
            && t.sequence == s.sequence && t.exited == s.exited
            && t.token == s.token && t.generation == s.generation
  {
  }

  /** A reader left over from before a respawn changes neither the new screen nor the counter nor the exit flag. */
  lemma StaleReaderIsHarmless(acts: seq<Action>, r: nat, a: Action)
    requires Paired(acts, true)
    requires var s := Run(Initial(), acts); r < |s.readers| && s.readers[r].screen != Current(s)
    requires a in [Count(r), Send(r), EndOfOutput(r), SendExit(r)] || (a.WriteScreen? && a.r == r)
    ensures var s := Run(Initial(), acts); var t := Step(s, a);
            && Current(t) == Current(s) && CurrentScreen(t) == CurrentScreen(s)
            && t.sequence == s.sequence && t.exited == s.exited
            && t.token == s.token && t.generation == s.generation
  {
    RunKeepsOneReader(Initial(), acts, true);
    OldScreenMeansOldToken(Run(Initial(), acts), NextAll(acts, true), r);
    StaleStep(Run(Initial(), acts), r, a);
  }

  // ---- Replay in a running session ----

  /** The bytes on the current screen are the counted stream and, between two steps, one uncounted chunk. */
  function Uncounted(s: State): seq<Byte> {
    if s.readers == [] then []
    else
      var pc := s.readers[|s.readers| - 1].pc;
      if pc.Wrote? then pc.chunk else if pc.Stopped? then pc.lost else []
  }

  function CountedStream(s: State): seq<Byte> {
    if s.readers == [] then []
    else
      var last := s.readers[|s.readers| - 1];
      DataOf(s.sent, |s.readers|) + if last.pc.Counted? then last.pc.chunk else []
  }

  /** A session whose newest reader writes the newest screen. */
  ghost predicate Started(s: State) {
    s.readers != [] && s.readers[|s.readers| - 1].screen == Current(s)
  }

  /** Once started, what the newest reader has read is in the counter, but for the chunk that is not counted. */
  ghost predicate Accounted(s: State, unstarted: bool) {
    !unstarted && s.readers != [] ==> s.sequence + |Uncounted(s)| == |s.readers[|s.readers| - 1].read|
  }

  /** Only the newest reader can move the counter; a close stops it from doing so and changes nothing else here. */
  lemma CountKeepsAccounted(s: State, r: nat)
    requires OneReaderEach(s, false) && Accounted(s, false)
    ensures Accounted(Step(s, Count(r)), false)
  {
    assert ReaderOk(s, |s.readers| - 1);
    hide ReaderOk, OwnScreen;
  }

  lemma OtherKeepsAccounted(s: State, a: Action, unstarted: bool)
    requires OneReaderEach(s, unstarted) && Accounted(s, unstarted) && !a.Count? && (a == Start ==> unstarted)
    ensures Accounted(Step(s, a), Next(a, unstarted))
  {
    hide ReaderOk, OwnScreen;
  }

  lemma StepKeepsAccounted(s: State, a: Action, unstarted: bool)
    requires OneReaderEach(s, unstarted) && Accounted(s, unstarted) && (a == Start ==> unstarted)
    ensures Accounted(Step(s, a), Next(a, unstarted))
  {
    hide OneReaderEach, Step;
    if !a.Count? {
      OtherKeepsAccounted(s, a, unstarted);
    } else if !unstarted {
      CountKeepsAccounted(s, a.r);
    }
  }

  lemma {:induction false} RunKeepsAccounted(s: State, acts: seq<Action>, unstarted: bool)
    requires OneReaderEach(s, unstarted) && Accounted(s, unstarted) && Paired(acts, unstarted)
    ensures Accounted(Run(s, acts), NextAll(acts, unstarted))
    decreases acts
  {
    if acts != [] {
      StepKeepsOneReader(s, acts[0], unstarted);
      StepKeepsAccounted(s, acts[0], unstarted);
      RunKeepsAccounted(Step(s, acts[0]), acts[1..], Next(acts[0], unstarted));
    }
  }

  lemma CurrentReaderCounts(s: State, unstarted: bool)
    requires OneReaderEach(s, unstarted) && Accounted(s, unstarted)
    requires s.readers != [] && s.readers[|s.readers| - 1].screen == Current(s)
    ensures CurrentScreen(s) == CountedStream(s) + Uncounted(s)
    ensures s.sequence == |CountedStream(s)|
  {
    var last := |s.readers| - 1;
    assert ReaderOk(s, last) && OwnScreen(s, last);
    assert last + 1 == |s.readers|;
  }

  /** In every paired run a started session's screen and counter describe the same stream, closed or not. */
  lemma ScreenIsCountedStream(acts: seq<Action>)
    requires Paired(acts, true) && Started(Run(Initial(), acts))
    ensures var s := Run(Initial(), acts);
            CurrentScreen(s) == CountedStream(s) + Uncounted(s) && s.sequence == |CountedStream(s)|
  {
    RunKeepsOneReader(Initial(), acts, true);
    RunKeepsAccounted(Initial(), acts, true);
    CurrentReaderCounts(Run(Initial(), acts), NextAll(acts, true));
  }

  // ---- A replay takes two reads ----

  lemma {:induction false} RunConcat(s: State, x: seq<Action>, y: seq<Action>)
    ensures Run(s, x + y) == Run(Run(s, x), y)
    decreases x
  {
    if x == [] {
      assert x + y == y;
    } else {
      hide Step;
      assert (x + y)[1..] == x[1..] + y;
      RunConcat(Step(s, x[0]), x[1..], y);
    }
  }

  lemma {:induction false} PairedConcat(x: seq<Action>, y: seq<Action>, unstarted: bool)
    requires Paired(x + y, unstarted)
    ensures Paired(x, unstarted) && Paired(y, NextAll(x, unstarted))
    decreases x
  {
    if x == [] {
      assert x + y == y;
    } else {
      assert (x + y)[1..] == x[1..] + y;
      PairedConcat(x[1..], y, Next(x[0], unstarted));
    }
  }

  lemma StepExtendsScreen(s: State, a: Action)
    requires a != Reset && a != Start && s.screens != []
    ensures var t := Step(s, a);
            && |t.screens| == |s.screens| && |t.readers| == |s.readers| && CurrentScreen(s) <= CurrentScreen(t)
            && forall r | 0 <= r < |s.readers| :: t.readers[r].screen == s.readers[r].screen
  {
  }

  /** Without a reset a started session keeps its reader, and its screen only grows. */
  lemma {:induction false} ScreenOnlyGrows(s: State, acts: seq<Action>)
    requires Paired(acts, false) && Reset !in acts && s.screens != []
    ensures var t := Run(s, acts);
            && |t.screens| == |s.screens| && |t.readers| == |s.readers| && CurrentScreen(s) <= CurrentScreen(t)
            && forall r | 0 <= r < |s.readers| :: t.readers[r].screen == s.readers[r].screen
    decreases acts
  {
    if acts != [] {
      assert acts[0] in acts && forall a | a in acts[1..] :: a in acts;
      StepExtendsScreen(s, acts[0]);
      hide Step;
      ScreenOnlyGrows(Step(s, acts[0]), acts[1..]);
    }
  }

  lemma StartedRun(acts: seq<Action>)
    requires Paired(acts, true) && Started(Run(Initial(), acts))
    ensures OneReaderEach(Run(Initial(), acts), false) && Accounted(Run(Initial(), acts), false) && !NextAll(acts, true)
    ensures Run(Initial(), acts).screens != []
  {
    RunKeepsOneReader(Initial(), acts, true);
    RunKeepsAccounted(Initial(), acts, true);
    hide Run, Step;
  }

  /** What is known of two moments of one generation. */
  lemma TwoMoments(acts: seq<Action>, more: seq<Action>)
    requires Paired(acts + more, true) && Reset !in more && Started(Run(Initial(), acts))
    ensures var s, t := Run(Initial(), acts), Run(Run(Initial(), acts), more);
            && CurrentScreen(s) <= CurrentScreen(t)
            && CurrentScreen(t) == CountedStream(t) + Uncounted(t)
            && t.sequence == |CountedStream(t)|
            && CurrentScreen(s) == CountedStream(s) + Uncounted(s)
            && s.sequence == |CountedStream(s)|
  {
    PairedConcat(acts, more, true);
    StartedRun(acts);
    var s := Run(Initial(), acts);
    hide Step, Inv, OwnScreen, OneReaderEach, Accounted;
    CurrentReaderCounts(s, false);
    ScreenOnlyGrows(s, more);
    RunKeepsOneReader(s, more, false);
    RunKeepsAccounted(s, more, false);
    StillStarted(more);
    CurrentReaderCounts(Run(s, more), false);
  }

  lemma {:induction false} StillStarted(acts: seq<Action>)
    requires Paired(acts, false) && Reset !in acts
    ensures !NextAll(acts, false)
  {
    if acts != [] {
      assert acts[0] in acts && forall a | a in acts[1..] :: a in acts;
      StillStarted(acts[1..]);
    }
  }

  /** The reply to a replay request that reads the history in state s and the counter in state t. */
  function LiveReply(s: State, t: State, from: nat): Reply
    requires t.sequence < WORD && from < WORD
  {
    ReplyFrom(Tail(CurrentScreen(s), ByteRing.MAX_SCROLLBACK), t.sequence, from)
  }

  /**
   With any steps of one generation between the two reads: the reply carries the bytes that end where
   the screen ended at the first read. It is exact when the counter of the second read is that end,
   so in particular when the counter does not move and no chunk was between writing and counting.
   */
  lemma LiveReplayIsExact(acts: seq<Action>, more: seq<Action>, from: nat)
    requires Paired(acts + more, true) && Reset !in more && Started(Run(Initial(), acts))
    requires var t := Run(Run(Initial(), acts), more);
             |CurrentScreen(t)| < WORD && from < WORD
    ensures var s, t := Run(Initial(), acts), Run(Run(Initial(), acts), more);
            && t.sequence < WORD && |CurrentScreen(s)| <= |CurrentScreen(t)|
            && LiveReply(s, t, from) == ReplyAcross(CurrentScreen(t), |CurrentScreen(s)|, t.sequence, from)
            && (t.sequence == |CurrentScreen(s)| ==> LiveReply(s, t, from) == ExactReply(CountedStream(t), from))
            && (Uncounted(s) == [] && t.sequence == s.sequence ==>
                  t.sequence == |CurrentScreen(s)|)
  {
    TwoMoments(acts, more);
    var s, t := Run(Initial(), acts), Run(Run(Initial(), acts), more);
    hide Run;
    var screen, h := CurrentScreen(t), |CurrentScreen(s)|;
    assert screen[..h] == CurrentScreen(s) && screen[..t.sequence] == CountedStream(t);
    ReplyIsAcross(screen, h, t.sequence, from);
    if t.sequence == h { SameTailAgrees(screen, h, h, from); }
    assert Uncounted(s) == [] ==> CurrentScreen(s) == CountedStream(s);
  }

  /** And every request is answered exactly if and only if the ring held the same bytes at both reads. */
  lemma LiveReplayIffRingUnchanged(acts: seq<Action>, more: seq<Action>)
    requires Paired(acts + more, true) && Reset !in more && Started(Run(Initial(), acts))
    requires var t := Run(Run(Initial(), acts), more);
             |CurrentScreen(t)| < WORD
    ensures var s, t := Run(Initial(), acts), Run(Run(Initial(), acts), more);
            && t.sequence < WORD
            && ((forall from: nat | from < WORD :: LiveReply(s, t, from) == ExactReply(CountedStream(t), from))
                <==> Tail(CurrentScreen(s), ByteRing.MAX_SCROLLBACK)
                     == Tail(CountedStream(t), ByteRing.MAX_SCROLLBACK))
  {
    TwoMoments(acts, more);
    var s, t := Run(Initial(), acts), Run(Run(Initial(), acts), more);
    hide Run;
    var screen, h := CurrentScreen(t), |CurrentScreen(s)|;
    assert screen[..h] == CurrentScreen(s) && screen[..t.sequence] == CountedStream(t);
    ExactIffSameTail(screen, h, t.sequence);
    assert forall from: nat | from < WORD ::
      Agrees(screen, h, t.sequence, from) <==> LiveReply(s, t, from) == ExactReply(CountedStream(t), from);
  }

  // ---- A chunk that a close leaves uncounted ----

  /** A session closed between the writing and the counting of its first chunk. */
  function ClosedMidChunk(chunk: seq<Byte>): seq<Action> {
    [Start, WriteScreen(0, chunk), Close, Count(0)]
  }

  /** The chunk is on the screen, its reader has returned, and the counter stands at zero. */
  ghost predicate Lost(s: State, chunk: seq<Byte>) {
    && s.screens == [chunk] && s.sequence == 0
    && |s.readers| == 1 && s.readers[0].pc == Stopped(chunk) && s.readers[0].screen == 0
  }

  lemma CloseLosesChunk(chunk: seq<Byte>)
    requires chunk != []
    ensures Lost(Run(Initial(), ClosedMidChunk(chunk)), chunk)
  {
    var s1 := Step(Initial(), Start);
    var s2 := Step(s1, WriteScreen(0, chunk));
    assert s1.screens == [[]] && [] + chunk == chunk;
    assert s2.screens == [chunk] && s2.readers[0].pc == Wrote(chunk) && s2.token == s2.readers[0].token;
    var s3 := Step(s2, Close);
    assert Lost(Step(s3, Count(0)), chunk);
    RunFour(Initial(), Start, WriteScreen(0, chunk), Close, Count(0));
  }

  lemma RunFour(s: State, a: Action, b: Action, c: Action, d: Action)
    ensures Run(s, [a, b, c, d]) == Step(Step(Step(Step(s, a), b), c), d)
  {
    hide Step;
    assert [a, b, c, d] == [a] + ([b] + ([c] + [d]));
    RunConcat(s, [a], [b] + ([c] + [d]));
    RunConcat(Step(s, a), [b], [c] + [d]);
    RunConcat(Step(Step(s, a), b), [c], [d]);
    assert [a][1..] == [] && [b][1..] == [] && [c][1..] == [] && [d][1..] == [];
  }

  lemma {:induction false} LostStaysLost(s: State, acts: seq<Action>, chunk: seq<Byte>)
    requires Lost(s, chunk) && Paired(acts, false) && Reset !in acts
    ensures Lost(Run(s, acts), chunk)
    decreases acts
  {
    if acts != [] {
      assert acts[0] in acts && forall a | a in acts[1..] :: a in acts;
      assert Lost(Step(s, acts[0]), chunk);
      LostStaysLost(Step(s, acts[0]), acts[1..], chunk);
    }
  }

  /** From then until a respawn every request for that output is answered with a gap, for good. */
  lemma ClosedSessionReplaysNothing(chunk: seq<Byte>, more: seq<Action>, from: nat)
    requires chunk != [] && Paired(more, false) && Reset !in more
    requires from <= |chunk| && |chunk| < WORD - ByteRing.MAX_SCROLLBACK
    ensures var t := Run(Run(Initial(), ClosedMidChunk(chunk)), more);
            t.sequence == 0 && CurrentScreen(t) == chunk && LiveReply(t, t, from).Gap?
  {
    CloseLosesChunk(chunk);
    LostStaysLost(Run(Initial(), ClosedMidChunk(chunk)), more, chunk);
    hide Run;
    assert chunk[..|chunk|] == chunk;
    ReplyIsAcross(chunk, |chunk|, 0, from);
  }
}
