/** What the flag is for: however much is written, one notification for each time it is raised. */
module CoalescingCounts {
  import opened Coalescing

  /** The readers that have raised the flag of connection c and not yet sent the notification. */
  function Senders(s: State, c: nat): set<nat> {
    set x | x in s.sending && s.sending[x] == c
  }

  /** Notifications of connection c on their way to the loop or in its queue. */
  function InFlight(s: State, c: nat): nat {
    |Senders(s, c)| + s.notes[c]
  }

  /** The step takes a notification of connection c out of the loop's queue. */
  predicate Takes(s: State, a: Action, c: nat) {
    a.Receive? && a.c == c && s.loop == Waiting && s.notes[c] > 0
  }

  predicate Clears(s: State, a: Action, c: nat) {
    c in s.pending && c !in Step(s, a).pending
  }

  function TakenIn(s: State, acts: seq<Action>, c: nat): nat
    decreases acts
  {
    if acts == [] then 0 else (if Takes(s, acts[0], c) then 1 else 0) + TakenIn(Step(s, acts[0]), acts[1..], c)
  }

  function ClearedIn(s: State, acts: seq<Action>, c: nat): nat
    decreases acts
  {
    if acts == [] then 0 else (if Clears(s, acts[0], c) then 1 else 0) + ClearedIn(Step(s, acts[0]), acts[1..], c)
  }

  function Raised(s: State, c: nat): nat {
    if c in s.pending then 1 else 0
  }

  lemma SenderJoins(s: State, t: State, x: nat, d: nat, c: nat)
    requires x !in s.sending && t.sending == s.sending[x := d]
    ensures |Senders(t, c)| == |Senders(s, c)| + if c == d then 1 else 0
  {
    assert Senders(t, c) == if c == d then Senders(s, c) + {x} else Senders(s, c);
  }

  lemma SenderLeaves(s: State, t: State, x: nat, c: nat)
    requires x in s.sending && t.sending == s.sending - {x}
    ensures |Senders(t, c)| + (if c == s.sending[x] then 1 else 0) == |Senders(s, c)|
  {
    assert Senders(t, c) == Senders(s, c) - {x};
    assert x in Senders(s, c) <==> s.sending[x] == c;
  }

  lemma TryFlagCounts(s: State, x: nat, c: nat)
    requires s.bound.Keys !! s.sending.Keys
    ensures var t := Step(s, TryFlag(x)); InFlight(t, c) + Raised(s, c) == InFlight(s, c) + Raised(t, c)
    ensures s.pending <= Step(s, TryFlag(x)).pending
  {
    var t := Step(s, TryFlag(x));
    if x in s.bound && s.bound[x] !in s.pending {
      assert x !in s.sending.Keys;
      SenderJoins(s, t, x, s.bound[x], c);
    }
    hide Senders;
  }

  lemma SendCounts(s: State, x: nat, c: nat)
    ensures var t := Step(s, Send(x)); InFlight(t, c) == InFlight(s, c) && t.pending == s.pending
  {
    var t := Step(s, Send(x));
    if x in s.sending { SenderLeaves(s, t, x, c); }
    hide Senders;
  }

  lemma ReceiveFrame(s: State, a: Action, c: nat)
    requires a.Receive?
    ensures var t := Step(s, a);
            && t.sending == s.sending && t.pending <= s.pending
            && t.notes[c] + (if Takes(s, a, c) then 1 else 0) == s.notes[c]
  {
    hide Members, Rearmed, Finished;
  }

  lemma OtherFrame(s: State, a: Action)
    requires !a.TryFlag? && !a.Send? && !a.Receive?
    ensures var t := Step(s, a); t.sending == s.sending && t.pending <= s.pending && t.notes == s.notes
  {
    hide Members, Received;
  }

  lemma OtherCounts(s: State, a: Action, c: nat)
    requires !a.TryFlag? && !a.Send?
    ensures var t := Step(s, a);
            && InFlight(t, c) + (if Takes(s, a, c) then 1 else 0) == InFlight(s, c)
            && Raised(t, c) + (if Clears(s, a, c) then 1 else 0) == Raised(s, c)
  {
    if a.Receive? { ReceiveFrame(s, a, c); } else { OtherFrame(s, a); }
    hide Step;
    assert Senders(Step(s, a), c) == Senders(s, c);
  }

  lemma StepCounts(s: State, a: Action, c: nat)
    requires Inv(s)
    ensures var t := Step(s, a);
            InFlight(t, c) + (if Takes(s, a, c) then 1 else 0) + Raised(s, c)
            == InFlight(s, c) + (if Clears(s, a, c) then 1 else 0) + Raised(t, c)
  {
    if a.TryFlag? {
      TryFlagCounts(s, a.x, c);
    } else if a.Send? {
      SendCounts(s, a.x, c);
    } else {
      OtherCounts(s, a, c);
    }
  }

  lemma {:induction false} RunCounts(s: State, acts: seq<Action>, c: nat)
    requires Inv(s)
    ensures InFlight(Run(s, acts), c) + TakenIn(s, acts, c) + Raised(s, c)
            == InFlight(s, c) + ClearedIn(s, acts, c) + Raised(Run(s, acts), c)
    decreases acts
  {
    if acts != [] {
      hide Step, InFlight, Raised, Takes, Clears, Inv;
      StepKeepsInv(s, acts[0]);
      StepCounts(s, acts[0], c);
      RunCounts(Step(s, acts[0]), acts[1..], c);
    }
  }

  /**
   In every run, for each connection: as many notifications were sent, taken in or still on their way,
   as its flag was cleared, and one more while it is set. So a burst of output between two clearings
   costs the loop one notification.
   */
  lemma OneNotificationPerFlag(home: map<nat, nat>, listed: set<nat>, acts: seq<Action>, c: nat)
    ensures var s0 := Initial(home, listed);
            var s := Run(s0, acts);
            InFlight(s, c) + TakenIn(s0, acts, c) == ClearedIn(s0, acts, c) + if c in s.pending then 1 else 0
  {
    RunCounts(Initial(home, listed), acts, c);
    assert Senders(Initial(home, listed), c) == {};
  }

  /** A notification of a connection no longer shown only clears its flag. */
  lemma StaleNotification(s: State, c: nat, inView: bool, focused: set<nat>)
    requires s.loop == Waiting && c in s.notes && c !in s.listed
    ensures Step(s, Receive(c, inView, focused)) == s.(notes := s.notes - multiset{c}, pending := s.pending - {c})
  {
  }

  /** One out of view clears the flag and scans every session of the connection; one in view keeps the flag. */
  lemma LiveNotification(s: State, c: nat, inView: bool, focused: set<nat>)
    requires s.loop == Waiting && c in s.notes && c in s.listed
    ensures var t := Step(s, Receive(c, inView, focused));
            && t.pending == (if inView then s.pending else s.pending - {c})
            && forall x :: x in Todo(t.loop) <==> x in s.home && s.home[x] == c && (inView ==> x in focused)
  {
  }

  /** Asking for a frame leaves exactly one tick in flight, and a connection taken off the list is gone from it. */
  lemma OtherMessages(s: State, c: nat)
    requires s.loop == Waiting && Inv(s)
    ensures Step(s, Schedule).renderPending && Step(s, Schedule).ticks == 1
    ensures Step(s, Delist(c)).listed == s.listed - {c}
  {
  }
}
