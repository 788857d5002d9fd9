/** What becomes of output once the readers pause: everything comes to rest, and what has been scanned by then. */
module CoalescingRest {
  import opened Coalescing
  import opened CoalescingMoves

  // ---- Once the readers pause, everything is scanned ----

  /** Nothing left for readers or loop to do. */
  predicate Quiet(s: State) {
    && s.written == {} && s.bound.Keys == {} && s.sending.Keys == {} && s.notes == multiset{}
    && s.ticks == 0 && s.loop == Waiting
  }

  /** No frame is owed, and no shown connection's flag is stuck. */
  ghost predicate NothingStuck(s: State) {
    !s.renderPending && forall c | c in s.listed :: c !in s.pending
  }

  ghost predicate AllScanned(s: State) {
    forall x | x in s.dirty && x in s.home :: s.home[x] !in s.listed
  }

  lemma QuietMeansScanned(s: State)
    requires Inv(s) && Quiet(s)
    ensures NothingStuck(s) && (AllRemembered(s) ==> AllScanned(s))
  {
    forall c | c in s.listed
      ensures c !in s.pending
    {
      assert c in s.pending ==> Attended(s, c);
    }
    if AllRemembered(s) {
      forall x | x in s.dirty && x in s.home
        ensures s.home[x] !in s.listed
      {
        assert Remembered(s, x);
      }
    }
  }

  /** A step that only works off what is already there. */
  predicate Internal(a: Action) {
    !a.Write? && !a.Schedule? && !a.Delist? && !a.Transfer?
  }

  /** The work left, most significant first. */
  datatype Work = Work(written: nat, bound: nat, sending: nat, notes: nat, ticks: nat, rest: nat, todo: nat)

  function WorkLeft(s: State): Work {
    Work(|s.written|, |s.bound.Keys|, |s.sending.Keys|, 2 * |s.notes| + (if s.loop.Visible? then 1 else 0), s.ticks,
         if s.loop.Ticking? then |s.loop.rest| else 0,
         if s.loop.Waiting? then 0 else 1 + |s.loop.todo|)
  }

  predicate Less(v: Work, w: Work) {
    || v.written < w.written
    || (v.written == w.written && v.bound < w.bound)
    || (v.written == w.written && v.bound == w.bound && v.sending < w.sending)
    || (v.written == w.written && v.bound == w.bound && v.sending == w.sending &&
        (|| v.notes < w.notes
         || (v.notes == w.notes && v.ticks < w.ticks)
         || (v.notes == w.notes && v.ticks == w.ticks && (v.rest < w.rest || (v.rest == w.rest && v.todo < w.todo)))))
  }

  lemma BindEnds(s: State, x: nat)
    requires Step(s, Bind(x)) != s
    ensures Less(WorkLeft(Step(s, Bind(x))), WorkLeft(s))
  {
  }

  lemma TryFlagEnds(s: State, x: nat)
    requires Step(s, TryFlag(x)) != s
    ensures Less(WorkLeft(Step(s, TryFlag(x))), WorkLeft(s))
  {
    assert (s.bound - {x}).Keys == s.bound.Keys - {x};
  }

  lemma SendEnds(s: State, x: nat)
    requires Step(s, Send(x)) != s
    ensures Less(WorkLeft(Step(s, Send(x))), WorkLeft(s))
  {
    assert (s.sending - {x}).Keys == s.sending.Keys - {x};
  }

  lemma ReceiveEnds(s: State, a: Action)
    requires a.Receive? && Step(s, a) != s
    ensures Less(WorkLeft(Step(s, a)), WorkLeft(s))
  {
    hide Members;
    assert |s.notes - multiset{a.c}| == |s.notes| - 1;
  }

  lemma LoopStepsEnd(s: State, a: Action)
    requires (a.Scan? || a.Finish? || a.TakeTick? || a.Rearm?) && Step(s, a) != s
    ensures Less(WorkLeft(Step(s, a)), WorkLeft(s))
  {
    hide Members;
  }

  /** Each internal step either changes nothing or leaves less work, so readers and loop cannot run on forever. */
  lemma InternalStepsEnd(s: State, a: Action)
    requires Internal(a) && Step(s, a) != s
    ensures Less(WorkLeft(Step(s, a)), WorkLeft(s))
  {
    hide Step, Less, WorkLeft;
    match a
    case Bind(x) => BindEnds(s, x);
    case TryFlag(x) => TryFlagEnds(s, x);
    case Send(x) => SendEnds(s, x);
    case Receive(_, _, _) => ReceiveEnds(s, a);
    case _ => LoopStepsEnd(s, a);
  }

  lemma Occupied(a: set<nat>)
    ensures a == {} || exists x :: x in a
  {
  }

  /** Internal, and a notification is served as output in view with nothing under its index to scan. */
  predicate Gentle(s: State, a: Action) {
    match a
    case Scan(x) => x in Todo(s.loop)
    case Finish(extra) => extra == {}
    case Receive(_, inView, focused) => inView && focused == {}
    case _ => Internal(a)
  }

  lemma ReaderStepIsEnabled(s: State) returns (a: Action)
    requires s.written <= s.home.Keys && (s.written != {} || s.bound.Keys != {} || s.sending.Keys != {})
    ensures Gentle(s, a) && Step(s, a) != s
  {
    hide Received, Rearmed, Finished;
    Occupied(s.written);
    Occupied(s.bound.Keys);
    Occupied(s.sending.Keys);
    if x :| x in s.written {
      a := Bind(x);
      assert x !in Step(s, a).written;
    } else if x :| x in s.bound.Keys {
      a := TryFlag(x);
      assert x !in Step(s, a).bound;
    } else {
      var x :| x in s.sending.Keys;
      a := Send(x);
      assert x !in Step(s, a).sending;
    }
  }

  lemma LoopStepIsEnabled(s: State) returns (a: Action)
    requires s.written == {} && s.bound.Keys == {} && s.sending.Keys == {} && !Quiet(s)
    ensures Gentle(s, a) && Step(s, a) != s
  {
    hide Members;
    Occupied(Todo(s.loop));
    if x :| x in Todo(s.loop) {
      a := Scan(x);
      assert x !in Todo(Step(s, a).loop);
    } else if s.loop.Ticking? {
      Occupied(s.loop.rest);
      if c :| c in s.loop.rest {
        a := Rearm(c);
        assert c !in Step(s, a).loop.rest;
      } else {
        a := Finish({});
      }
    } else if s.loop != Waiting {
      a := Finish({});
    } else if c :| c in s.notes {
      a := Receive(c, true, {});
      assert Step(s, a).notes[c] == s.notes[c] - 1;
    } else {
      a := TakeTick;
    }
  }

  /** While not all is quiet, some internal step does something. */
  lemma SomeStepIsEnabled(s: State) returns (a: Action)
    requires Inv(s) && !Quiet(s)
    ensures Gentle(s, a) && Internal(a) && Step(s, a) != s
  {
    if s.written == {} && s.bound.Keys == {} && s.sending.Keys == {} {
      a := LoopStepIsEnabled(s);
    } else {
      a := ReaderStepIsEnabled(s);
    }
  }

  // ---- A session forgotten ----

  /** Output of session 0 is announced for its connection 0. */
  function Announced(): State {
    State(map[0 := 0], {0, 1}, {0}, {0}, {}, map[], map[], multiset{0}, false, 0, Waiting)
  }

  /**
   And a move that is not safe can be forgotten: the session moves to connection 1, the loop scans
   connection 0 as announced, and all comes to rest with the session changed, shown and unscanned.
   */
  lemma MovedSessionForgotten()
    ensures Announced() == Run(Initial(map[0 := 0], {0, 1}), [Write(0), Bind(0), TryFlag(0), Send(0)])
    ensures Movable(Announced(), 0, 1) && !SafeMove(Announced(), 0, 1)
    ensures var s := Run(Announced(), [Transfer(0, 1), Receive(0, false, {}), Finish({})]);
            Quiet(s) && 0 in s.dirty && s.home == map[0 := 1] && 1 in s.listed
  {
    var s0 := Announced();
    var s1 := s0.(home := map[0 := 1]);
    var s2 := s1.(notes := multiset{}, pending := {}, loop := Scanning({}));
    assert Step(s0, Transfer(0, 1)) == s1;
    assert Step(s1, Receive(0, false, {})) == s2 by {
      assert Members(s1, 0) == {} && s1.pending - {0} == {} && s1.notes - multiset{0} == multiset{};
    }
    assert Step(s2, Finish({})) == s2.(loop := Waiting);
    RunThree(s0, Transfer(0, 1), Receive(0, false, {}), Finish({}));
  }

  lemma RunThree(s: State, a: Action, b: Action, c: Action)
    ensures Run(s, [a, b, c]) == Step(Step(Step(s, a), b), c)
  {
    hide Step;
    assert [a, b, c][1..] == [b, c] && [b, c][1..] == [c] && [c][1..] == [];
    assert Run(Step(s, a), [b, c]) == Run(Step(Step(s, a), b), [c]);
  }

  lemma RunFour(s: State, a: Action, b: Action, c: Action, d: Action)
    ensures Run(s, [a, b, c, d]) == Step(Step(Step(Step(s, a), b), c), d)
  {
    hide Step;
    assert [a, b, c, d][1..] == [b, c, d];
    RunThree(Step(s, a), b, c, d);
  }

  // ---- What comes of a changed session ----

  ghost predicate AllInternal(acts: seq<Action>) {
    forall i | 0 <= i < |acts| :: Internal(acts[i])
  }

  /** Internal steps alone bring everything to rest with session x changed and unscanned. */
  ghost predicate EndsUnscanned(s: State, x: nat, acts: seq<Action>) {
    AllInternal(acts) && Quiet(Run(s, acts)) && x in Run(s, acts).dirty
  }

  /** A session that will be scanned has been, once internal steps alone have brought everything to rest. */
  lemma {:induction false} ScannedAtRest(s: State, x: nat, acts: seq<Action>)
    requires Inv(s) && x in s.home && s.home[x] in s.listed && Remembered(s, x)
    requires AllInternal(acts) && Quiet(Run(s, acts))
    ensures x !in Run(s, acts).dirty
    decreases acts
  {
    if acts == [] {
      assert s.home[x] in s.pending ==> Attended(s, s.home[x]);
    } else {
      assert Internal(acts[0]) && forall i | 0 <= i < |acts[1..]| :: acts[1..][i] == acts[i + 1];
      StepKeepsInv(s, acts[0]);
      StepRemembersOne(s, acts[0], x);
      hide Step, Remembered;
      ScannedAtRest(Step(s, acts[0]), x, acts[1..]);
    }
  }

  /** Session x has changed, and nothing is due to scan it. */
  ghost predicate Forgotten(s: State, x: nat) {
    x in s.dirty && x in s.home && !WillBeScanned(s, x)
  }

  lemma ReaderStepKeepsForgotten(s: State, a: Action, x: nat)
    requires Forgotten(s, x) && (a.Bind? || a.TryFlag? || a.Send?)
    ensures Forgotten(Step(s, a), x)
  {
  }

  lemma ReceiveKeepsForgotten(s: State, c: nat, x: nat)
    requires Forgotten(s, x)
    ensures Forgotten(Received(s, c, true, {}), x)
  {
    hide Members;
    SameWay(s, Received(s, c, true, {}), s.home[x]);
    assert {} * Members(s, c) == {} && {} * Members(s.(notes := s.notes - multiset{c}), c) == {};
    hide OnItsWay;
  }

  lemma RearmKeepsForgotten(s: State, c: nat, x: nat)
    requires Forgotten(s, x)
    ensures Forgotten(Rearmed(s, c), x)
  {
    SameWay(s, Rearmed(s, c), s.home[x]);
    hide OnItsWay;
  }

  lemma FinishKeepsForgotten(s: State, x: nat)
    requires Forgotten(s, x)
    ensures Forgotten(Finished(s, {}), x)
  {
    SameWay(s, Finished(s, {}), s.home[x]);
    hide OnItsWay;
  }

  lemma LoopStepKeepsForgotten(s: State, a: Action, x: nat)
    requires Forgotten(s, x) && ((a.Scan? && a.x in Todo(s.loop)) || a == TakeTick)
    ensures Forgotten(Step(s, a), x)
  {
    hide Received, Rearmed, Finished;
    SameWay(s, Step(s, a), s.home[x]);
    hide OnItsWay;
  }

  /** Gentle steps do not scan a forgotten session. */
  lemma GentleKeepsForgotten(s: State, a: Action, x: nat)
    requires Forgotten(s, x) && Gentle(s, a)
    ensures Forgotten(Step(s, a), x)
  {
    hide Forgotten, Received, Rearmed, Finished;
    match a
    case Bind(_) => ReaderStepKeepsForgotten(s, a, x);
    case TryFlag(_) => ReaderStepKeepsForgotten(s, a, x);
    case Send(_) => ReaderStepKeepsForgotten(s, a, x);
    case Receive(c, _, _) => ReceiveKeepsForgotten(s, c, x);
    case Rearm(c) => RearmKeepsForgotten(s, c, x);
    case Finish(_) => FinishKeepsForgotten(s, x);
    case Scan(_) => LoopStepKeepsForgotten(s, a, x);
    case TakeTick => LoopStepKeepsForgotten(s, a, x);
  }

  lemma {:induction false} StaysForgotten(s: State, x: nat) returns (acts: seq<Action>)
    requires Inv(s) && Forgotten(s, x)
    ensures EndsUnscanned(s, x, acts)
    decreases WorkLeft(s).written, WorkLeft(s).bound, WorkLeft(s).sending, WorkLeft(s).notes,
              WorkLeft(s).ticks, WorkLeft(s).rest, WorkLeft(s).todo
  {
    if Quiet(s) {
      acts := [];
    } else {
      var a := SomeStepIsEnabled(s);
      GentleKeepsForgotten(s, a, x);
      InternalStepsEnd(s, a);
      StepKeepsInv(s, a);
      hide Step, Forgotten, Quiet;
      var more := StaysForgotten(Step(s, a), x);
      acts := [a] + more;
      assert acts[1..] == more;
    }
  }

  /**
   What the state says about a changed session is what comes of it: it can be left unscanned by
   internal steps that bring everything to rest if and only if nothing is due to scan it.
   */
  lemma LeftUnscannedIff(s: State, x: nat)
    requires Inv(s) && x in s.dirty && x in s.home && s.home[x] in s.listed
    ensures (exists acts :: EndsUnscanned(s, x, acts)) <==> !WillBeScanned(s, x)
  {
    if WillBeScanned(s, x) {
      forall acts | AllInternal(acts) && Quiet(Run(s, acts))
        ensures x !in Run(s, acts).dirty
      {
        ScannedAtRest(s, x, acts);
      }
    } else {
      var acts := StaysForgotten(s, x);
    }
  }

  /**
   So a changed session that is moved can be left unscanned if and only if its new connection's flag
   is not set and no reader, its own or another, is on its way to that flag.
   */
  lemma MovedIsForgottenIff(s: State, x: nat, c: nat)
    requires Inv(s) && Movable(s, x, c) && x in s.dirty
    ensures var t := Step(s, Transfer(x, c));
            (exists acts :: EndsUnscanned(t, x, acts)) <==> c !in s.pending && x !in s.written && !OnItsWay(s, c)
  {
    StepKeepsInv(s, Transfer(x, c));
    LeftUnscannedIff(Step(s, Transfer(x, c)), x);
    WayAfterMove(s, x, c, c);
  }

  // ---- Every run comes to rest ----

  lemma {:induction false} ComesToRest(s: State) returns (acts: seq<Action>)
    requires Inv(s)
    ensures forall i | 0 <= i < |acts| :: Internal(acts[i])
    ensures Quiet(Run(s, acts)) && NothingStuck(Run(s, acts)) && (AllRemembered(s) ==> AllScanned(Run(s, acts)))
    decreases WorkLeft(s).written, WorkLeft(s).bound, WorkLeft(s).sending, WorkLeft(s).notes,
              WorkLeft(s).ticks, WorkLeft(s).rest, WorkLeft(s).todo
  {
    if Quiet(s) {
      acts := [];
      QuietMeansScanned(s);
    } else {
      var a := SomeStepIsEnabled(s);
      InternalStepsEnd(s, a);
      StepKeepsInv(s, a);
      if AllRemembered(s) { StepRemembers(s, a); }
      var more := ComesToRest(Step(s, a));
      acts := [a] + more;
      assert acts[1..] == more;
    }
  }

  /**
   So every run can be finished by internal steps alone, and then no flag is stuck; and if its moves
   were safe, every shown session has been scanned.
   */
  lemma EveryRunComesToRest(home: map<nat, nat>, listed: set<nat>, acts: seq<Action>) returns (more: seq<Action>)
    ensures forall i | 0 <= i < |more| :: Internal(more[i])
    ensures var s := Run(Run(Initial(home, listed), acts), more);
            Quiet(s) && NothingStuck(s) && (Careful(Initial(home, listed), acts) ==> AllScanned(s))
  {
    RunKeepsInv(Initial(home, listed), acts);
    more := ComesToRest(Run(Initial(home, listed), acts));
  }
}
