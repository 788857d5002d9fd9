/** Which changed sessions have a scan to come, and which moves between connections let none be forgotten. */
module CoalescingMoves {
  import opened Coalescing

  // ---- A scan to come ----

  /** Some reader has written for connection c, or read its callback, and has yet to try its flag. */
  ghost predicate OnItsWay(s: State, c: nat) {
    || (exists y :: y in s.written && y in s.home && s.home[y] == c)
    || (exists y :: y in s.bound && s.bound[y] == c)
  }

  /**
   A changed session will be scanned: its scan is due, its connection's flag is set, or some reader,
   its own or another of that connection, will yet try the flag.
   */
  ghost predicate WillBeScanned(s: State, x: nat)
    requires x in s.home
  {
    x in Todo(s.loop) || s.home[x] in s.pending || OnItsWay(s, s.home[x])
  }

  ghost predicate Remembered(s: State, x: nat) {
    x in s.dirty && x in s.home && s.home[x] in s.listed ==> WillBeScanned(s, x)
  }

  ghost predicate AllRemembered(s: State) {
    forall x :: Remembered(s, x)
  }

  /** A reader other than that of x is on its way to the flag of connection c. */
  ghost predicate AnotherOnItsWay(s: State, x: nat, c: nat) {
    || (exists y :: y in s.written && y != x && y in s.home && s.home[y] == c)
    || (exists y :: y in s.bound && s.bound[y] == c)
  }

  /**
   A move that forgets nothing. The session moved was scanned, or its new connection's flag is set or
   will be tried. And if its reader was to try the flag of the old connection, that flag is set, or
   another reader will try it, or no session that stays behind has changed.
   */
  ghost predicate SafeMove(s: State, x: nat, c: nat)
    requires x in s.home
  {
    var d := s.home[x];
    && (x in s.dirty ==> c in s.pending || x in s.written || OnItsWay(s, c))
    && (x in s.written && d in s.listed ==>
          d in s.pending || AnotherOnItsWay(s, x, d) ||
          forall y | y in s.dirty && y in s.home && s.home[y] == d :: y == x)
  }

  /** Every move in the run that happens is safe when it happens. */
  ghost predicate Careful(s: State, acts: seq<Action>)
    decreases acts
  {
    acts == [] ||
    ((acts[0].Transfer? && Movable(s, acts[0].x, acts[0].c) ==> SafeMove(s, acts[0].x, acts[0].c)) &&
     Careful(Step(s, acts[0]), acts[1..]))
  }

  // ---- What every step keeps ----

  /** Only trying the flag ends a reader's way to it. */
  lemma WayIsKept(s: State, a: Action, c: nat)
    requires Inv(s) && OnItsWay(s, c) && (a.Write? || a.Bind? || a.TryFlag? || a.Send?)
    ensures var t := Step(s, a); c in t.pending || OnItsWay(t, c)
  {
    var t := Step(s, a);
    if y :| y in s.written && y in s.home && s.home[y] == c {
      if a == Bind(y) { assert y in t.bound && t.bound[y] == c; } else { assert y in t.written && y in t.home; }
    } else if y :| y in s.bound && s.bound[y] == c {
      if a != TryFlag(y) { assert y in t.bound && t.bound[y] == c; }
    }
  }

  lemma ReaderRemembers(s: State, a: Action, x: nat)
    requires Inv(s) && Remembered(s, x) && (a.Write? || a.Bind? || a.TryFlag? || a.Send?)
    ensures Remembered(Step(s, a), x)
  {
    var t := Step(s, a);
    if x in s.dirty && x in s.home && OnItsWay(s, s.home[x]) { WayIsKept(s, a, s.home[x]); }
    if x in t.dirty && x !in s.dirty { assert x in t.written && x in t.home; }
  }

  lemma SameWay(s: State, t: State, c: nat)
    requires t.written == s.written && t.bound == s.bound && t.home == s.home
    ensures OnItsWay(t, c) == OnItsWay(s, c)
  {
  }

  lemma ReceiveRemembers(s: State, c: nat, inView: bool, focused: set<nat>, x: nat)
    requires Remembered(s, x)
    ensures Remembered(Received(s, c, inView, focused), x)
  {
    if s.loop == Waiting && c in s.notes {
      var t := s.(notes := s.notes - multiset{c});
      if x in s.home { SameWay(s, t, s.home[x]); }
    }
  }

  lemma RearmRemembers(s: State, c: nat, x: nat)
    requires Remembered(s, x)
    ensures Remembered(Rearmed(s, c), x)
  {
    if x in s.home { SameWay(s, Rearmed(s, c), s.home[x]); }
    hide OnItsWay;
  }

  lemma FinishRemembers(s: State, extra: set<nat>, x: nat)
    requires Remembered(s, x)
    ensures Remembered(Finished(s, extra), x)
  {
    if x in s.home { SameWay(s, Finished(s, extra), s.home[x]); }
    hide OnItsWay;
  }

  lemma LoopRemembers(s: State, a: Action, x: nat)
    requires Remembered(s, x) && (a.Scan? || a.TakeTick? || a.Schedule? || a.Delist?)
    ensures Remembered(Step(s, a), x)
  {
    hide Received, Rearmed, Finished;
    if x in s.home { SameWay(s, Step(s, a), s.home[x]); }
    hide OnItsWay;
  }

  lemma StepRemembersOne(s: State, a: Action, x: nat)
    requires Inv(s) && Remembered(s, x) && !a.Transfer?
    ensures Remembered(Step(s, a), x)
  {
    hide Inv, Remembered, Received, Rearmed, Finished;
    match a
    case Write(_) => ReaderRemembers(s, a, x);
    case Bind(_) => ReaderRemembers(s, a, x);
    case TryFlag(_) => ReaderRemembers(s, a, x);
    case Send(_) => ReaderRemembers(s, a, x);
    case Receive(c, inView, focused) => ReceiveRemembers(s, c, inView, focused, x);
    case Rearm(c) => RearmRemembers(s, c, x);
    case Finish(extra) => FinishRemembers(s, extra, x);
    case _ => LoopRemembers(s, a, x);
  }

  lemma StepRemembers(s: State, a: Action)
    requires Inv(s) && AllRemembered(s)
    requires a.Transfer? && Movable(s, a.x, a.c) ==> SafeMove(s, a.x, a.c)
    ensures AllRemembered(Step(s, a))
  {
    if a.Transfer? {
      if Movable(s, a.x, a.c) { MoveRemembersIff(s, a.x, a.c); }
    } else {
      forall x
        ensures Remembered(Step(s, a), x)
      {
        assert Remembered(s, x);
        StepRemembersOne(s, a, x);
      }
    }
  }

  // ---- Moving a session ----

  /** Who is on the way to which flag after a move: a reader that has not read its callback goes along. */
  lemma WayAfterMove(s: State, x: nat, c: nat, d: nat)
    requires Movable(s, x, c)
    ensures var t := Step(s, Transfer(x, c));
            OnItsWay(t, d) <==>
            if d == c then x in s.written || OnItsWay(s, c)
            else if d == s.home[x] then AnotherOnItsWay(s, x, d)
            else OnItsWay(s, d)
  {
    var t := Step(s, Transfer(x, c));
    if x in s.written && d == c { assert x in t.written && t.home[x] == c; }
    if y :| y in t.written && y in t.home && t.home[y] == d { assert y != x ==> y in s.home && s.home[y] == d; }
    if y :| y in s.written && y != x && y in s.home && s.home[y] == d { assert y in t.home && t.home[y] == d; }
  }

  lemma MoveForgetsNone(s: State, x: nat, c: nat)
    requires Movable(s, x, c) && AllRemembered(s) && SafeMove(s, x, c)
    ensures AllRemembered(Step(s, Transfer(x, c)))
  {
    var t := Step(s, Transfer(x, c));
    forall y
      ensures Remembered(t, y)
    {
      assert Remembered(s, y);
      if y in t.dirty && y in t.home {
        WayAfterMove(s, x, c, t.home[y]);
        if y != x && s.home[y] == s.home[x] && OnItsWay(s, s.home[x]) && !AnotherOnItsWay(s, x, s.home[x]) {
          OnlyOne(s, x, s.home[x]);
        }
      }
    }
  }

  lemma OnlyOne(s: State, x: nat, d: nat)
    requires OnItsWay(s, d) && !AnotherOnItsWay(s, x, d)
    ensures x in s.written
  {
    if y :| y in s.written && y in s.home && s.home[y] == d { assert y == x; }
  }

  /** Exactly the safe moves leave every changed session with a scan to come. */
  lemma MoveRemembersIff(s: State, x: nat, c: nat)
    requires Movable(s, x, c) && AllRemembered(s)
    ensures AllRemembered(Step(s, Transfer(x, c))) <==> SafeMove(s, x, c)
  {
    var t := Step(s, Transfer(x, c));
    if SafeMove(s, x, c) {
      MoveForgetsNone(s, x, c);
    }
    if AllRemembered(t) {
      assert Remembered(t, x);
      WayAfterMove(s, x, c, c);
      WayAfterMove(s, x, c, s.home[x]);
      forall y | y in s.dirty && y in s.home && s.home[y] == s.home[x] && y != x
        ensures s.home[x] !in s.listed || s.home[x] in s.pending || AnotherOnItsWay(s, x, s.home[x])
      {
        assert Remembered(t, y);
      }
    }
  }

  lemma {:induction false} RunKeepsInv(s: State, acts: seq<Action>)
    requires Inv(s)
    ensures Inv(Run(s, acts))
    ensures AllRemembered(s) && Careful(s, acts) ==> AllRemembered(Run(s, acts))
    decreases acts
  {
    if acts != [] {
      StepKeepsInv(s, acts[0]);
      if AllRemembered(s) && Careful(s, acts) { StepRemembers(s, acts[0]); }
      RunKeepsInv(Step(s, acts[0]), acts[1..]);
    }
  }

  /**
   In every run, moves between connections included: a frame is marked pending exactly while one
   render tick is in flight, and every listed connection with its flag set is attended to. In every
   run whose moves are safe, every changed session will be scanned.
   */
  lemma CoalescingNeverSticks(home: map<nat, nat>, listed: set<nat>, acts: seq<Action>)
    ensures var s := Run(Initial(home, listed), acts);
            && s.ticks == (if s.renderPending then 1 else 0)
            && (forall c | c in s.listed && c in s.pending :: Attended(s, c))
            && (Careful(Initial(home, listed), acts) ==> AllRemembered(s))
  {
    RunKeepsInv(Initial(home, listed), acts);
  }
}
