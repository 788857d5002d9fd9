/**
 Waking the event loop for output: readers set a connection's flag and send one notification, the
 loop scans sessions for agent activity and re-arms flags at notifications and render ticks, and
 moves sessions between connections in between. Each action is one atomic step of a reader or of the
 loop; an action that is not enabled does nothing.
 */
module Coalescing {
  /** What the event loop is in the middle of. */
  datatype Loop =
    | Waiting
    | Scanning(todo: set<nat>)               // a background notification: flag cleared, sessions to scan
    | Visible(todo: set<nat>)                // output in view: a session to scan, then a frame to schedule
    | Ticking(rest: set<nat>, todo: set<nat>)  // a render tick: connections to re-arm, sessions to scan

  datatype State = State(
    home: map<nat, nat>,       // the connection of each session
    listed: set<nat>,          // connections shown
    pending: set<nat>,         // connections whose outputPending flag is set
    dirty: set<nat>,           // sessions changed since their last scan
    written: set<nat>,         // sessions whose reader has written and not yet read its callback
    bound: map<nat, nat>,      // ... has read the callback, and will try the flag of that connection
    sending: map<nat, nat>,    // ... has set that flag, and not yet sent the notification
    notes: multiset<nat>,      // notifications in the loop's queue, by connection
    renderPending: bool,
    ticks: nat,                // render ticks in flight
    loop: Loop)

  datatype Action =
    | Write(x: nat)                      // a reader puts bytes on its session's screen
    | Bind(x: nat)                       // it counts them and reads the session's callback
    | TryFlag(x: nat)
    | Send(x: nat)
    | Receive(c: nat, inView: bool, focused: set<nat>)  // focused: the session at the message's index, if any
    | Scan(x: nat)
    | Finish(extra: set<nat>)            // extra: the focused session scanned at the end of a tick
    | TakeTick
    | Rearm(c: nat)
    | Schedule                           // some other message asks for a frame
    | Delist(c: nat)
    | Transfer(x: nat, c: nat)           // a session handed to another connection

  function Todo(l: Loop): set<nat> {
    if l.Waiting? then {} else l.todo
  }

  /** The sessions of connection c. */
  function Members(s: State, c: nat): set<nat> {
    set x | x in s.home && s.home[x] == c
  }

  function ScheduleRender(s: State): State {
    if s.renderPending then s else s.(renderPending := true, ticks := s.ticks + 1)
  }

  /** The reader of session x is on its way from the screen to the loop. */
  predicate Busy(s: State, x: nat) {
    x in s.written || x in s.bound || x in s.sending
  }

  predicate Movable(s: State, x: nat, c: nat) {
    s.loop == Waiting && x in s.home && c in s.listed && s.home[x] != c
  }

  /** What the loop does with a notification of connection c. */
  function Served(s: State, c: nat, inView: bool, focused: set<nat>): State {
    if c !in s.listed then s.(pending := s.pending - {c})
    else if !inView then s.(pending := s.pending - {c}, loop := Scanning(Members(s, c)))
    else s.(loop := Visible(focused * Members(s, c)))
  }

  /** A notification taken from the queue. */
  function Received(s: State, c: nat, inView: bool, focused: set<nat>): State {
    if s.loop != Waiting || c !in s.notes then s
    else Served(s.(notes := s.notes - multiset{c}), c, inView, focused)
  }

  /** The end of what the loop was in the middle of. */
  function Finished(s: State, extra: set<nat>): State {
    if s.loop.Waiting? || Todo(s.loop) != {} then s
    else if s.loop.Visible? then ScheduleRender(s.(loop := Waiting))
    else if s.loop.Ticking? && s.loop.rest == {} then s.(loop := Waiting, dirty := s.dirty - extra)
    else if s.loop.Scanning? then s.(loop := Waiting)
    else s
  }

  /** One connection's turn in a render tick. */
  function Rearmed(s: State, c: nat): State {
    if s.loop.Ticking? && c in s.loop.rest && s.loop.todo == {} then
      var found := if c in s.pending then Members(s, c) else {};
      s.(pending := s.pending - {c}, loop := Ticking(s.loop.rest - {c}, found))
    else s
  }

  function Step(s: State, a: Action): State {
    match a
    case Write(x) =>
      if x in s.home && !Busy(s, x) then s.(dirty := s.dirty + {x}, written := s.written + {x}) else s
    case Bind(x) =>
      if x in s.written && x in s.home then s.(written := s.written - {x}, bound := s.bound[x := s.home[x]]) else s
    case TryFlag(x) =>
      if x !in s.bound then s
      else
        var c, t := s.bound[x], s.(bound := s.bound - {x});
        if c in s.pending then t else t.(pending := s.pending + {c}, sending := s.sending[x := c])
    case Send(x) =>
      if x in s.sending then s.(sending := s.sending - {x}, notes := s.notes + multiset{s.sending[x]}) else s
    case Receive(c, inView, focused) => Received(s, c, inView, focused)
    case Scan(x) =>
      if x !in Todo(s.loop) then s
      else s.(dirty := s.dirty - {x}, loop := s.loop.(todo := s.loop.todo - {x}))
    case Finish(extra) => Finished(s, extra)
    case TakeTick =>
      if s.loop == Waiting && s.ticks > 0
      then s.(renderPending := false, ticks := s.ticks - 1, loop := Ticking(s.listed, {})) else s
    case Rearm(c) => Rearmed(s, c)
    case Schedule => if s.loop == Waiting then ScheduleRender(s) else s
    case Delist(c) => if s.loop == Waiting then s.(listed := s.listed - {c}) else s
    case Transfer(x, c) => if Movable(s, x, c) then s.(home := s.home[x := c]) else s
  }

  function Run(s: State, acts: seq<Action>): State
    decreases acts
  {
    if acts == [] then s else Run(Step(s, acts[0]), acts[1..])
  }

  function Initial(home: map<nat, nat>, listed: set<nat>): State {
    State(home, listed, {}, {}, {}, map[], map[], multiset{}, false, 0, Waiting)
  }

  // ---- What every step keeps ----

  /** The notification of connection c is with the loop, on its way, or about to be covered by a tick. */
  ghost predicate Attended(s: State, c: nat) {
    || c in s.notes
    || (exists x :: x in s.sending && s.sending[x] == c)
    || s.ticks > 0
    || s.loop.Visible?
    || (s.loop.Ticking? && c in s.loop.rest)
  }

  ghost predicate Inv(s: State) {
    && s.dirty <= s.home.Keys && s.written <= s.home.Keys
    && s.written !! s.bound.Keys && s.written !! s.sending.Keys && s.bound.Keys !! s.sending.Keys
    && s.ticks == (if s.renderPending then 1 else 0)
    && (s.loop.Ticking? ==> s.loop.rest <= s.listed)
    && (forall c | c in s.listed && c in s.pending :: Attended(s, c))
  }

  lemma ReaderKeepsInv(s: State, a: Action)
    requires Inv(s) && (a.Write? || a.Bind? || a.TryFlag?)
    ensures Inv(Step(s, a))
  {
    var t := Step(s, a);
    forall c | c in t.listed && c in t.pending
      ensures Attended(t, c)
    {
      if c in s.pending {
        assert Attended(s, c);
        if y :| y in s.sending && s.sending[y] == c { assert y in t.sending && t.sending[y] == c; }
      } else {
        assert a.x in t.sending && t.sending[a.x] == c;
      }
    }
  }

  lemma SendKeepsInv(s: State, x: nat)
    requires Inv(s)
    ensures Inv(Step(s, Send(x)))
  {
    var t := Step(s, Send(x));
    forall c | c in t.listed && c in t.pending
      ensures Attended(t, c)
    {
      assert Attended(s, c);
      if y :| y in s.sending && s.sending[y] == c {
        assert y != x ==> y in t.sending && t.sending[y] == c;
      }
    }
  }

  lemma ReceiveKeepsInv(s: State, a: Action)
    requires Inv(s) && a.Receive?
    ensures Inv(Step(s, a))
  {
    hide Members, Rearmed, Finished;
    var t := Step(s, a);
    forall c | c in t.listed && c in t.pending
      ensures Attended(t, c)
    {
      assert Attended(s, c);
    }
  }

  lemma LoopKeepsInv(s: State, a: Action)
    requires Inv(s) && !a.Write? && !a.Bind? && !a.TryFlag? && !a.Send? && !a.Receive?
    ensures Inv(Step(s, a))
  {
    hide Members;
    var t := Step(s, a);
    forall c | c in t.listed && c in t.pending
      ensures Attended(t, c)
    {
      assert Attended(s, c);
    }
  }

  lemma StepKeepsInv(s: State, a: Action)
    requires Inv(s)
    ensures Inv(Step(s, a))
  {
    hide Step, Inv;
    match a
    case Write(_) => ReaderKeepsInv(s, a);
    case Bind(_) => ReaderKeepsInv(s, a);
    case TryFlag(_) => ReaderKeepsInv(s, a);
    case Send(x) => SendKeepsInv(s, x);
    case Receive(_, _, _) => ReceiveKeepsInv(s, a);
    case _ => LoopKeepsInv(s, a);
  }
}
