/** What happens to a session list, as a value: order, focus, and many lists at once. */
module Roster {
  // ---- Lists ----

  function RemoveAt<T>(s: seq<T>, i: nat): (r: seq<T>)
    requires i < |s|
    ensures |r| == |s| - 1
  {
    s[..i] + s[i + 1..]
  }

  function InsertAt<T>(s: seq<T>, i: nat, x: T): (r: seq<T>)
    requires i <= |s|
    ensures |r| == |s| + 1
  {
    s[..i] + [x] + s[i..]
  }

  function MoveItem<T>(s: seq<T>, from: nat, to: nat): (r: seq<T>)
    requires from < |s| && to < |s|
    ensures |r| == |s|
  {
    InsertAt(RemoveAt(s, from), to, s[from])
  }

  /** Where the item at index i is after a move. */
  function Relocate(i: int, from: int, to: int): int {
    if i == from then to
    else if from < to && from < i <= to then i - 1
    else if from > to && to <= i < from then i + 1
    else i
  }

  predicate Distinct<T(==)>(s: seq<T>) {
    forall i, j | 0 <= i < j < |s| :: s[i] != s[j]
  }

  /** Every item is found at its relocated index, and relocation is undone by the move back. */
  lemma MoveRelocates<T>(s: seq<T>, from: nat, to: nat)
    requires from < |s| && to < |s|
    ensures forall i | 0 <= i < |s| ::
              0 <= Relocate(i, from, to) < |s| && MoveItem(s, from, to)[Relocate(i, from, to)] == s[i]
  {
  }

  lemma RelocateBack(i: int, from: int, to: int)
    ensures Relocate(Relocate(i, from, to), to, from) == i
  {
  }

  lemma MoveNowhere<T>(s: seq<T>, i: nat)
    requires i < |s|
    ensures MoveItem(s, i, i) == s
  {
  }

  /** Cutting an item out and splicing it back in is a move. */
  lemma SplicesMove<T>(s: seq<T>, from: nat, to: nat)
    requires from < |s| && to < |s|
    ensures var r := s[..from] + s[from + 1..]; r[..to] + ([s[from]] + r[to..]) == MoveItem(s, from, to)
    ensures forall x | x in MoveItem(s, from, to) :: x in s
  {
  }

  lemma RemoveAtMultiset<T>(s: seq<T>, i: nat)
    requires i < |s|
    ensures multiset(RemoveAt(s, i)) + multiset{s[i]} == multiset(s)
  {
    assert s == s[..i] + [s[i]] + s[i + 1..];
  }

  lemma InsertAtMultiset<T>(s: seq<T>, i: nat, x: T)
    requires i <= |s|
    ensures multiset(InsertAt(s, i, x)) == multiset(s) + multiset{x}
  {
    assert s == s[..i] + s[i..];
  }

  /** A move is a permutation. */
  lemma MoveIsPermutation<T>(s: seq<T>, from: nat, to: nat)
    requires from < |s| && to < |s|
    ensures multiset(MoveItem(s, from, to)) == multiset(s)
  {
    RemoveAtMultiset(s, from);
    InsertAtMultiset(RemoveAt(s, from), to, s[from]);
  }

  lemma MoveKeepsDistinct<T>(s: seq<T>, from: nat, to: nat)
    requires from < |s| && to < |s| && Distinct(s)
    ensures Distinct(MoveItem(s, from, to))
  {
  }

  lemma RemovedIsGone<T>(s: seq<T>, i: nat)
    requires i < |s| && Distinct(s)
    ensures s[i] !in RemoveAt(s, i) && forall x :: x in RemoveAt(s, i) <==> x in s && x != s[i]
  {
  }

  lemma InsertedIsThere<T>(s: seq<T>, i: nat, x: T)
    requires i <= |s|
    ensures forall y :: y in InsertAt(s, i, x) <==> y in s || y == x
  {
  }

  // ---- One list ----

  datatype Roster<T> = Roster(sessions: seq<T>, focused: int)

  /** No session is listed twice, and the focus is in range: 0 when the list is empty. */
  ghost predicate RosterOk<T>(r: Roster<T>) {
    && Distinct(r.sessions)
    && (if r.sessions == [] then r.focused == 0 else 0 <= r.focused < |r.sessions|)
  }

  /** The focus after a removal: the old number, kept in range. */
  function Shrunk(focus: int, count: nat): int {
    if count == 0 then 0 else if focus >= count then count - 1 else focus
  }

  /** A position off the list means its end. */
  function Slot(position: int, count: nat): nat {
    if position < 0 || position > count then count else position
  }

  function Detached<T>(r: Roster<T>, index: int): Roster<T> {
    if 0 <= index < |r.sessions| then Roster(RemoveAt(r.sessions, index), Shrunk(r.focused, |r.sessions| - 1)) else r
  }

  /** The interactive removal never empties the list. */
  function Killed<T>(r: Roster<T>, index: int): Roster<T> {
    if |r.sessions| <= 1 then r else Detached(r, index)
  }

  function Adopted<T>(r: Roster<T>, s: T, position: int): Roster<T> {
    r.(sessions := InsertAt(r.sessions, Slot(position, |r.sessions|), s))
  }

  /** A destination off the list means its nearest end. */
  function Target(to: int, n: int): (t: int)
    ensures n > 0 ==> 0 <= t < n
  {
    if to < 0 then 0 else if to >= n then n - 1 else to
  }

  function Moved<T>(r: Roster<T>, from: int, to: int): Roster<T> {
    var n := |r.sessions|;
    if n <= 1 || from < 0 || from >= n then r
    else Roster(MoveItem(r.sessions, from, Target(to, n)), Relocate(r.focused, from, Target(to, n)))
  }

  /** A session appended; one whose backend does not come up is taken out again. */
  function Created<T>(r: Roster<T>, s: T, starts: bool, focuses: bool): Roster<T> {
    var n := |r.sessions|;
    if starts then Roster(r.sessions + [s], if focuses then n else r.focused) else CreatedNone(r, focuses)
  }

  /** What a failed start leaves behind: a creation that takes the focus does not give it back. */
  function CreatedNone<T>(r: Roster<T>, focuses: bool): Roster<T> {
    var n := |r.sessions|;
    r.(focused := if !focuses then r.focused else if n == 0 then 0 else n - 1)
  }

  function FocusedOn<T>(r: Roster<T>, index: int): Roster<T> {
    if 0 <= index < |r.sessions| then r.(focused := index) else r
  }

  /** The cases of a move, with the target clamped to the list. */
  lemma MovedIs<T>(r: Roster<T>, from: int, to: int)
    ensures var n := |r.sessions|; var target := Target(to, n);
            Moved(r, from, to) ==
            if n <= 1 || from < 0 || from >= n || from == target then r
            else Roster(MoveItem(r.sessions, from, target), Relocate(r.focused, from, target))
  {
    if 0 <= from < |r.sessions| { MoveNowhere(r.sessions, from); }
  }

  lemma MoveKeepsOk<T>(r: Roster<T>, from: int, to: int)
    requires RosterOk(r)
    ensures var q := Moved(r, from, to);
            && RosterOk(q) && Distinct(q.sessions) && |q.sessions| == |r.sessions|
            && (r.sessions != [] ==> 0 <= r.focused < |r.sessions| && 0 <= q.focused < |q.sessions| &&
                                     q.sessions[q.focused] == r.sessions[r.focused])
  {
    hide MoveItem, Distinct;
    var n := |r.sessions|;
    if n > 1 && 0 <= from < n {
      var target := Target(to, n);
      MoveRelocates(r.sessions, from, target);
      MoveKeepsDistinct(r.sessions, from, target);
    }
  }

  /** Moving permutes the list, keeps it in order otherwise, and keeps the same session focused. */
  lemma MoveKeepsFocus<T>(r: Roster<T>, from: int, to: int)
    requires RosterOk(r)
    ensures var q := Moved(r, from, to);
            && RosterOk(q) && multiset(q.sessions) == multiset(r.sessions)
            && (r.sessions != [] ==> q.sessions[q.focused] == r.sessions[r.focused])
  {
    MoveKeepsOk(r, from, to);
    MovedIs(r, from, to);
    var n := |r.sessions|;
    if n > 1 && 0 <= from < n {
      MoveIsPermutation(r.sessions, from, Target(to, n));
    }
  }

  lemma DetachKeepsOk<T>(r: Roster<T>, index: int)
    requires RosterOk(r)
    ensures RosterOk(Detached(r, index)) && Distinct(Detached(r, index).sessions)
  {
  }

  lemma AdoptKeepsOk<T>(r: Roster<T>, s: T, position: int)
    requires RosterOk(r) && s !in r.sessions
    ensures RosterOk(Adopted(r, s, position))
  {
  }

  // ---- Where things end up ----

  /** The session moved is found at the destination, brought onto the list, and the others keep their order. */
  lemma MoveLands<T>(r: Roster<T>, from: int, to: int)
    ensures var n, q := |r.sessions|, Moved(r, from, to);
            if 0 <= from < n then
              var at := if to < 0 then 0 else if to > n - 1 then n - 1 else to;
              && |q.sessions| == n && q.sessions[at] == r.sessions[from]
              && q.sessions[..at] + q.sessions[at + 1..] == r.sessions[..from] + r.sessions[from + 1..]
            else q == r
  {
    var n := |r.sessions|;
    if 0 <= from < n {
      var s, at := r.sessions, Target(to, n);
      MovedIs(r, from, to);
      var rest := s[..from] + s[from + 1..];
      var moved := rest[..at] + [s[from]] + rest[at..];
      assert moved[at] == s[from] && moved[..at] + moved[at + 1..] == rest;
      if from == at { assert moved == s; }
    }
  }

  /** The session at a valid index goes; a focus that falls off the end goes to the new last one. */
  lemma RemovalIs<T>(r: Roster<T>, index: int)
    requires RosterOk(r)
    ensures var n, q := |r.sessions|, Detached(r, index);
            if 0 <= index < n then
              && q.sessions == r.sessions[..index] + r.sessions[index + 1..]
              && q.focused == if r.focused == n - 1 && n > 1 then n - 2 else r.focused
            else q == r
    ensures Killed(r, index) == if |r.sessions| >= 2 then Detached(r, index) else r
  {
  }

  /** A session taken in is found at the position asked for, or last when that is off the list. */
  lemma AdoptionIs<T>(r: Roster<T>, s: T, position: int)
    ensures var n, q := |r.sessions|, Adopted(r, s, position);
            var at := if 0 <= position <= n then position else n;
            && |q.sessions| == n + 1 && q.sessions[at] == s && q.focused == r.focused
            && q.sessions[..at] == r.sessions[..at] && q.sessions[at + 1..] == r.sessions[at..]
  {
  }

  /** A new session comes last and, if it takes the focus, has it; a failed one leaves the list, the focus at its end. */
  lemma CreationIs<T>(r: Roster<T>, s: T, focuses: bool)
    ensures Created(r, s, true, focuses) == Roster(r.sessions + [s], if focuses then |r.sessions| else r.focused)
    ensures Created(r, s, false, focuses).sessions == r.sessions
    ensures Created(r, s, false, focuses).focused ==
            if !focuses then r.focused else if r.sessions == [] then 0 else |r.sessions| - 1
    ensures CreatedNone(r, focuses) == Created(r, s, false, focuses)
  {
  }

  // ---- All lists ----

  /** The managers of all connections; sessions are numbered as they are created, and gone ones were closed. */
  datatype World = World(rosters: seq<Roster<nat>>, created: nat, gone: set<nat>)

  datatype Op =
    | New(m: nat, starts: bool, focuses: bool)
    | Kill(m: nat, index: int)
    | Remove(m: nat, index: int)
    | Move(m: nat, from: int, to: int)
    | Focus(m: nat, index: int)
    | Transfer(m: nat, index: int, target: nat, position: int)

  function Apply(w: World, op: Op): World {
    if op.m >= |w.rosters| then w
    else
      var r := w.rosters[op.m];
      match op
      case New(m, starts, focuses) =>
        World(w.rosters[m := Created(r, w.created, starts, focuses)], w.created + 1,
              if starts then w.gone else w.gone + {w.created})
      case Kill(m, index) =>
        if |r.sessions| > 1 && 0 <= index < |r.sessions|
        then w.(rosters := w.rosters[m := Killed(r, index)], gone := w.gone + {r.sessions[index]}) else w
      case Remove(m, index) =>
        if 0 <= index < |r.sessions|
        then w.(rosters := w.rosters[m := Detached(r, index)], gone := w.gone + {r.sessions[index]}) else w
      case Move(m, from, to) => w.(rosters := w.rosters[m := Moved(r, from, to)])
      case Focus(m, index) => w.(rosters := w.rosters[m := FocusedOn(r, index)])
      case Transfer(m, index, to, position) =>
        if to < |w.rosters| && to != m && 0 <= index < |r.sessions|
        then w.(rosters := w.rosters[m := Detached(r, index)]
                                   [to := Adopted(w.rosters[to], r.sessions[index], position)]) else w
  }

  function ApplyAll(w: World, ops: seq<Op>): World
    decreases ops
  {
    if ops == [] then w else ApplyAll(Apply(w, ops[0]), ops[1..])
  }

  ghost predicate Lists(w: World, m: nat, s: nat) {
    m < |w.rosters| && s in w.rosters[m].sessions
  }

  /** Every session ever created is in exactly one list, or was closed and is in none. */
  ghost predicate Conserved(w: World) {
    && (forall m | 0 <= m < |w.rosters| :: RosterOk(w.rosters[m]))
    && (forall m: nat, n: nat, s: nat | Lists(w, m, s) && Lists(w, n, s) :: m == n)
    && (forall s: nat | s < w.created :: s in w.gone || exists m: nat :: Lists(w, m, s))
    && (forall m: nat, s: nat | Lists(w, m, s) :: s < w.created && s !in w.gone)
    && (forall s | s in w.gone :: s < w.created)
  }

  lemma RemovalConserves(w: World, m: nat, index: nat, r: Roster<nat>)
    requires Conserved(w) && m < |w.rosters| && index < |w.rosters[m].sessions|
    requires r == Detached(w.rosters[m], index)
    ensures Conserved(w.(rosters := w.rosters[m := r], gone := w.gone + {w.rosters[m].sessions[index]}))
  {
    var s := w.rosters[m].sessions[index];
    var w' := w.(rosters := w.rosters[m := r], gone := w.gone + {s});
    assert Lists(w, m, s);
    RemovedIsGone(w.rosters[m].sessions, index);
    DetachKeepsOk(w.rosters[m], index);
    forall n: nat, x: nat | Lists(w', n, x)
      ensures Lists(w, n, x) && x != s
    {
      if n != m { assert !Lists(w, n, s); }
    }
    forall x: nat | x < w'.created
      ensures x in w'.gone || exists n: nat :: Lists(w', n, x)
    {
      if x !in w'.gone {
        var n: nat :| Lists(w, n, x);
        assert Lists(w', n, x);
      }
    }
  }

  lemma CreationConserves(w: World, m: nat, starts: bool, focuses: bool)
    requires Conserved(w) && m < |w.rosters|
    ensures Conserved(Apply(w, New(m, starts, focuses)))
  {
    var w' := Apply(w, New(m, starts, focuses));
    forall n: nat, x: nat | Lists(w', n, x)
      ensures Lists(w, n, x) || (starts && n == m && x == w.created)
    {
    }
    forall x: nat | x < w'.created
      ensures x in w'.gone || exists n: nat :: Lists(w', n, x)
    {
      if x == w.created {
        if starts { assert w'.rosters[m].sessions[|w.rosters[m].sessions|] == x; assert Lists(w', m, x); }
      } else if x !in w.gone {
        var n: nat :| Lists(w, n, x);
        assert Lists(w', n, x);
      }
    }
    assert forall n: nat, x: nat | Lists(w, n, x) :: x < w.created;
    assert forall i | 0 <= i < |w.rosters[m].sessions| :: Lists(w, m, w.rosters[m].sessions[i]);
    assert RosterOk(w.rosters[m]);
  }

  lemma SameMembersConserve(w: World, m: nat, r: Roster<nat>)
    requires Conserved(w) && m < |w.rosters| && RosterOk(r)
    requires multiset(r.sessions) == multiset(w.rosters[m].sessions)
    ensures Conserved(w.(rosters := w.rosters[m := r]))
  {
    var w' := w.(rosters := w.rosters[m := r]);
    forall n: nat, x: nat
      ensures Lists(w', n, x) <==> Lists(w, n, x)
    {
      assert x in r.sessions <==> x in multiset(r.sessions);
      assert x in w.rosters[m].sessions <==> x in multiset(w.rosters[m].sessions);
    }
    forall x: nat | x < w'.created && x !in w'.gone
      ensures exists n: nat :: Lists(w', n, x)
    {
      var n: nat :| Lists(w, n, x);
      assert Lists(w', n, x);
    }
  }

  lemma TransferConserves(w: World, m: nat, index: nat, to: nat, position: int)
    requires Conserved(w) && m < |w.rosters| && to < |w.rosters| && to != m && index < |w.rosters[m].sessions|
    ensures Conserved(Apply(w, Transfer(m, index, to, position)))
    ensures Lists(Apply(w, Transfer(m, index, to, position)), to, w.rosters[m].sessions[index])
  {
    var w' := Apply(w, Transfer(m, index, to, position));
    var s := w.rosters[m].sessions[index];
    var there := w.rosters[to].sessions;
    assert Lists(w, m, s);
    assert !Lists(w, to, s);
    RemovedIsGone(w.rosters[m].sessions, index);
    InsertedIsThere(there, Slot(position, |there|), s);
    DetachKeepsOk(w.rosters[m], index);
    AdoptKeepsOk(w.rosters[to], s, position);
    forall n: nat, x: nat
      ensures Lists(w', n, x) <==> if x == s then n == to else Lists(w, n, x)
    {
      if n != m { assert !Lists(w, n, s); }
    }
    forall x: nat | x < w'.created && x !in w'.gone
      ensures exists n: nat :: Lists(w', n, x)
    {
      var n: nat :| Lists(w, n, x);
      assert Lists(w', if x == s then to else n, x);
    }
  }

  /**
   Each operation acts: a new session that starts is listed, one that does not is gone; a session
   removed, or killed while another is left, is gone; nothing else goes, and no other list changes.
   */
  lemma OperationsAct(w: World, op: Op)
    requires Conserved(w) && op.m < |w.rosters|
    ensures var w', r := Apply(w, op), w.rosters[op.m];
            && w'.created == w.created + (if op.New? then 1 else 0)
            && (op.New? && op.starts ==> Lists(w', op.m, w.created))
            && w'.gone == w.gone +
               (if op.New? && !op.starts then {w.created}
                else if (op.Remove? || (op.Kill? && |r.sessions| >= 2)) && 0 <= op.index < |r.sessions|
                then {r.sessions[op.index]} else {})
            && |w'.rosters| == |w.rosters|
            && (forall n | 0 <= n < |w.rosters| && n != op.m && !(op.Transfer? && n == op.target) ::
                  w'.rosters[n] == w.rosters[n])
  {
    if op.New? && op.starts {
      assert Apply(w, op).rosters[op.m].sessions[|w.rosters[op.m].sessions|] == w.created;
    }
  }

  lemma ApplyConserves(w: World, op: Op)
    requires Conserved(w)
    ensures Conserved(Apply(w, op))
  {
    if op.m < |w.rosters| {
      var r := w.rosters[op.m];
      match op
      case New(m, starts, focuses) => CreationConserves(w, m, starts, focuses);
      case Kill(m, index) =>
        if |r.sessions| > 1 && 0 <= index < |r.sessions| { RemovalConserves(w, m, index, Killed(r, index)); }
      case Remove(m, index) =>
        if 0 <= index < |r.sessions| { RemovalConserves(w, m, index, Detached(r, index)); }
      case Move(m, from, to) =>
        MoveKeepsFocus(r, from, to);
        SameMembersConserve(w, m, Moved(r, from, to));
      case Focus(m, index) => SameMembersConserve(w, m, FocusedOn(r, index));
      case Transfer(m, index, to, position) =>
        if to < |w.rosters| && to != m && 0 <= index < |r.sessions| { TransferConserves(w, m, index, to, position); }
    }
  }

  /** Over every sequence of operations, failed starts included, no session is lost, doubled or listed after closing. */
  lemma {:induction false} SessionsAreConserved(w: World, ops: seq<Op>)
    requires Conserved(w)
    ensures Conserved(ApplyAll(w, ops))
    decreases ops
  {
    if ops != [] {
      ApplyConserves(w, ops[0]);
      SessionsAreConserved(Apply(w, ops[0]), ops[1..]);
    }
  }
}
