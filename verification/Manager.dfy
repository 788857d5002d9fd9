/** Session managers: lists of live sessions with their indexes, and the caches kept under those indexes. */
module Manager {
  import opened Bytes
  import opened Roster

  // ---- Index-keyed caches ----

  /** A cache after a move: each entry under the new index of the session it belongs to. */
  function Rekeyed<V>(values: map<int, V>, from: int, to: int): map<int, V> {
    map k | k in (set i | i in values :: Relocate(i, from, to)) && Relocate(k, to, from) in values
      :: values[Relocate(k, to, from)]
  }

  lemma EmptyOrHasKey(todo: set<int>)
    ensures todo == {} || exists i :: i in todo
  {
    if forall i :: i !in todo {
      assert todo == {};
    }
  }

  /** Some key that has not been visited; the map's order is not fixed. */
  method NextKey(todo: set<int>) returns (index: int)
    requires todo != {}
    ensures index in todo
  {
    EmptyOrHasKey(todo);
    index :| index in todo;
  }

  /** The same by a loop over the entries, whatever order the map yields them in. */
  method MoveIndexedMap<V>(values: map<int, V>, from: int, to: int) returns (moved: map<int, V>)
    ensures moved == Rekeyed(values, from, to)
    ensures forall i | i in values :: Relocate(i, from, to) in moved && moved[Relocate(i, from, to)] == values[i]
    ensures |moved| == |values|
  {
    moved := map[];
    var todo := values.Keys;
    while todo != {}
      invariant todo <= values.Keys
      invariant forall i | i in values.Keys - todo ::
        Relocate(i, from, to) in moved && moved[Relocate(i, from, to)] == values[i]
      invariant forall k | k in moved :: Relocate(k, to, from) in values.Keys - todo
      invariant |moved| + |todo| == |values|
      decreases todo
    {
      var index := NextKey(todo);
      var next := index;
      if index == from {
        next := to;
      } else if from < to && index > from && index <= to {
        next := next - 1;
      } else if from > to && index >= to && index < from {
        next := next + 1;
      }
      assert next == Relocate(index, from, to);
      RelocateBack(index, from, to);
      forall i | i in values.Keys - todo
        ensures Relocate(i, from, to) != next
      {
        RelocateBack(i, from, to);
      }
      assert next !in moved;
      moved := moved[next := values[index]];
      todo := todo - {index};
    }
    RekeyedIs(values, from, to, moved);
  }

  /** A map is the rekeyed one when it has each entry at its new key and nothing else. */
  lemma RekeyedIs<V>(values: map<int, V>, from: int, to: int, moved: map<int, V>)
    requires forall i | i in values :: Relocate(i, from, to) in moved && moved[Relocate(i, from, to)] == values[i]
    requires forall k | k in moved :: Relocate(k, to, from) in values
    ensures moved == Rekeyed(values, from, to)
  {
    forall k: int
      ensures Relocate(Relocate(k, to, from), from, to) == k && Relocate(Relocate(k, from, to), to, from) == k
    {
      RelocateBack(k, to, from);
      RelocateBack(k, from, to);
    }
    var r := Rekeyed(values, from, to);
    forall k | k in r
      ensures k in moved && moved[k] == r[k]
    {
    }
    forall k | k in moved
      ensures k in r
    {
      var i := Relocate(k, to, from);
      assert i in values && Relocate(i, from, to) == k;
    }
  }

  // ---- Managers ----

  /** The destination brought onto a list of n sessions. */
  method ClampTarget(to: int, n: int) returns (target: int)
    requires n > 0
    ensures target == Target(to, n)
  {
    target := to;
    if target < 0 {
      target := 0;
    }
    if target >= n {
      target := n - 1;
    }
  }

  /** An item cut out of a list and spliced in again. */
  method Splice<T>(s: seq<T>, from: nat, to: nat) returns (r: seq<T>)
    requires from < |s| && to < |s|
    ensures r == MoveItem(s, from, to) && forall x | x in r :: x in s
  {
    r := s[..from] + s[from + 1..];
    r := r[..to] + ([s[from]] + r[to..]);
    SplicesMove(s, from, to);
  }

  class Session {
    var index: int
    var closed: bool
    var callbacks: nat  // the manager that its output and exit are reported to

    constructor (index: int, callbacks: nat)
      ensures this.index == index && this.callbacks == callbacks && !closed
    {
      this.index, this.callbacks := index, callbacks;
      closed := false;
    }
  }

  class SessionManager {
    var sessions: seq<Session>
    var focused: int
    const callbacks: nat

    ghost function View(): Roster<Session>
      reads this
    {
      Roster(sessions, focused)
    }

    /** Every session's index is its position, and it reports to this manager. */
    ghost predicate Valid()
      reads this, sessions
    {
      RosterOk(View()) && forall i | 0 <= i < |sessions| :: sessions[i].index == i && sessions[i].callbacks == callbacks
    }

    constructor (callbacks: nat)
      ensures Valid() && sessions == [] && this.callbacks == callbacks
    {
      sessions, focused := [], 0;
      this.callbacks := callbacks;
    }

    /** setIndex on every listed session. */
    method Reindex()
      requires Distinct(sessions)
      modifies sessions`index
      ensures forall i | 0 <= i < |sessions| :: sessions[i].index == i
    {
      for i := 0 to |sessions|
        invariant forall k | 0 <= k < i :: sessions[k].index == k
      {
        sessions[i].index := i;
      }
    }

    method Focus(index: int)
      requires Valid()
      modifies this`focused
      ensures Valid() && View() == FocusedOn(old(View()), index)
    {
      if index >= 0 && index < |sessions| {
        focused := index;
      }
    }

    /** A session relocated in the list; the same session stays focused. */
    method Move(from: int, to: int)
      requires Valid()
      modifies this, sessions`index
      ensures Valid() && View() == Moved(old(View()), from, to)
      ensures sessions != [] ==> sessions[focused] == old(sessions)[old(focused)]
    {
      ghost var moved := Moved(View(), from, to);
      MoveKeepsOk(View(), from, to);
      MovedIs(View(), from, to);
      hide Moved, MoveItem, Relocate, RosterOk, Distinct, Target;
      var n := |sessions|;
      if n <= 1 || from < 0 || from >= n {
        return;
      }
      var target := ClampTarget(to, n);
      if from == target {
        return;
      }
      var focusedSess := sessions[focused];
      sessions := Splice(sessions, from, target);
      assert forall i | 0 <= i < |sessions| :: sessions[i] in old(sessions);
      Refocus(focusedSess, moved.focused);
    }

    /** Renumbering that makes the focus follow a session. */
    method Refocus(focusedSess: Session, ghost at: nat)
      requires Distinct(sessions) && at < |sessions| && sessions[at] == focusedSess
      modifies this`focused, sessions`index
      ensures forall i | 0 <= i < |sessions| :: sessions[i].index == i
      ensures focused == at
    {
      for i := 0 to |sessions|
        invariant forall k | 0 <= k < i :: sessions[k].index == k
        invariant at < i ==> focused == at
      {
        sessions[i].index := i;
        if sessions[i] == focusedSess {
          focused := i;
        }
      }
    }

    /** A session taken out of the list without stopping it. */
    method Detach(index: int) returns (detached: Session?)
      requires Valid()
      modifies this, sessions`index
      ensures Valid() && View() == Detached(old(View()), index)
      ensures detached == if 0 <= index < |old(sessions)| then old(sessions)[index] else null
    {
      if index < 0 || index >= |sessions| {
        return null;
      }
      detached := sessions[index];
      ghost var was := sessions;
      DetachKeepsOk(View(), index);
      hide RosterOk, Distinct;
      sessions := sessions[..index] + sessions[index + 1..];
      assert sessions == RemoveAt(was, index) && forall s | s in sessions :: s in was;
      Reindex();
      if |sessions| == 0 {
        focused := 0;
      } else if focused >= |sessions| {
        focused := |sessions| - 1;
      }
    }

    /** A session stopped and taken out of the list, the last one included. */
    method Remove(index: int) returns (ok: bool)
      requires Valid()
      modifies this, sessions
      ensures Valid() && View() == Detached(old(View()), index)
      ensures ok == (0 <= index < |old(sessions)|) && (ok ==> old(sessions)[index].closed)
      ensures forall s | s in sessions :: s.closed == old(s.closed)
    {
      ghost var was := sessions;
      var removed := Detach(index);
      if removed == null {
        return false;
      }
      RemovedIsGone(was, index);
      removed.closed := true;
      return true;
    }

    /** The interactive form, which never empties the list. */
    method Kill(index: int)
      requires Valid()
      modifies this, sessions
      ensures Valid() && View() == Killed(old(View()), index)
      ensures |old(sessions)| > 1 && 0 <= index < |old(sessions)| ==> old(sessions)[index].closed
      ensures forall s | s in sessions :: s.closed == old(s.closed)
    {
      if |sessions| <= 1 || index < 0 || index >= |sessions| {
        return;
      }
      var ok := Remove(index);
    }

    /** A running session put into the list; a position off the list means its end. */
    method Adopt(s: Session?, position: int)
      requires Valid() && (s != null ==> s !in sessions)
      modifies this, sessions`index
      modifies (if s == null then {} else {s})`index, (if s == null then {} else {s})`callbacks
      ensures Valid()
      ensures View() == if s == null then old(View()) else Adopted(old(View()), s, position)
      ensures s != null ==> var n := |old(sessions)|; var at := if 0 <= position <= n then position else n;
                            |sessions| == n + 1 && sessions[at] == s
    {
      if s == null {
        return;
      }
      var at := position;
      if at < 0 || at > |sessions| {
        at := |sessions|;
      }
      s.callbacks := callbacks;
      ghost var was := sessions;
      AdoptKeepsOk(View(), s, position);
      assert Distinct(Adopted(View(), s, position).sessions);
      hide RosterOk, Distinct;
      sessions := sessions[..at] + [s] + sessions[at..];
      assert sessions == InsertAt(was, at, s);
      InsertedIsThere(was, at, s);
      assert forall i | 0 <= i < |sessions| ::
        sessions[i] == if i < at then was[i] else if i == at then s else was[i - 1];
      Reindex();
    }

    /** A session whose backend did not come up is looked up, taken out again and closed. */
    method Withdraw(created: Session, ghost was: seq<Session>)
      requires sessions == was + [created] && created !in was && Distinct(was)
      modifies this`sessions, sessions`index, created`closed
      ensures sessions == was && forall i | 0 <= i < |sessions| :: sessions[i].index == i
      ensures created.closed
    {
      var i := 0;
      while sessions[i] != created
        invariant i <= |was|
        decreases |was| - i
      {
        i := i + 1;
      }
      sessions := sessions[..i] + sessions[i + 1..];
      assert sessions == was;
      Reindex();
      created.closed := true;
    }

    /** starts: whether the backend comes up. */
    method New(starts: bool) returns (s: Session?)
      requires Valid()
      modifies this, sessions`index
      ensures Valid() && (s != null) == starts && (starts ==> fresh(s))
      ensures View() == if s != null then Created(old(View()), s, true, true)
                        else CreatedNone(old(View()), true)
    {
      var idx := |sessions|;
      var created := new Session(idx, callbacks);
      ghost var was := sessions;
      sessions := sessions + [created];
      focused := idx;
      if !starts {
        Withdraw(created, was);
        focused := if |sessions| == 0 then 0 else if idx > 0 then idx - 1 else 0;
        return null;
      }
      s := created;
    }

    /** The same without touching the focus. */
    method NewConfigured(starts: bool) returns (s: Session?)
      requires Valid()
      modifies this, sessions`index
      ensures Valid() && (s != null) == starts && (starts ==> fresh(s))
      ensures View() == if s != null then Created(old(View()), s, true, false)
                        else CreatedNone(old(View()), false)
    {
      var idx := |sessions|;
      var created := new Session(idx, callbacks);
      ghost var was := sessions;
      sessions := sessions + [created];
      if !starts {
        Withdraw(created, was);
        return null;
      }
      s := created;
    }
  }

  // ---- Moving with caches and connections ----

  function Entry<V>(cache: map<int, V>, index: int): Option<V> {
    if index in cache then Some(cache[index]) else None
  }

  lemma EntryFollows<V>(cache: map<int, V>, from: int, to: int, i: int)
    ensures Entry(Rekeyed(cache, from, to), Relocate(i, from, to)) == Entry(cache, i)
  {
  }

  /**
   A session moved in the list together with a cache keyed by index: whatever was cached for a
   session is cached for it afterwards, under its new index, and the same session stays focused.
   */
  method MoveSession<V>(manager: SessionManager, cache: map<int, V>, from: int, to: int) returns (cache': map<int, V>)
    requires manager.Valid()
    modifies manager, manager.sessions`index
    ensures manager.Valid()
    ensures forall i | 0 <= i < |old(manager.sessions)| ::
      var s := old(manager.sessions)[i];
      s in manager.sessions && Entry(cache', s.index) == Entry(cache, old(s.index))
    ensures old(manager.sessions) != [] ==>
              manager.sessions != [] &&
              manager.sessions[manager.focused] == old(manager.sessions)[old(manager.focused)]
  {
    hide Moved, MoveItem, Rekeyed, Relocate, Distinct, Entry;
    var n := |manager.sessions|;
    if from < 0 || to < 0 || from >= n || to >= n || from == to {
      return cache;
    }
    ghost var was := manager.sessions;
    cache' := MoveIndexedMap(cache, from, to);
    MoveRelocates(was, from, to);
    MovedIs(manager.View(), from, to);
    manager.Move(from, to);
    forall i | 0 <= i < |was|
      ensures was[i] in manager.sessions && Entry(cache', was[i].index) == Entry(cache, i)
    {
      var j := Relocate(i, from, to);
      assert manager.sessions[j] == was[i] && manager.sessions[j].index == j;
      EntryFollows(cache, from, to, i);
    }
  }

  /** The connection list of the user interface. */
  class ConnectionList<T> {
    var connections: seq<T>
    var activeConn: int

    constructor (connections: seq<T>, activeConn: int)
      ensures this.connections == connections && this.activeConn == activeConn
    {
      this.connections, this.activeConn := connections, activeConn;
    }

    /** Dragging a connection to another place keeps the same connection active. */
    method MoveConnection(from: int, to: int)
      requires 0 <= activeConn < |connections|
      modifies this
      ensures 0 <= activeConn < |connections| && connections[activeConn] == old(connections[activeConn])
      ensures var n := |old(connections)|;
              connections == if 0 <= from < n && 0 <= to < n && from != to
                             then MoveItem(old(connections), from, to) else old(connections)
    {
      var n := |connections|;
      if from < 0 || from >= n || to < 0 || to >= n || from == to {
        return;
      }
      ghost var was := connections;
      MoveRelocates(was, from, to);
      connections := Splice(connections, from, to);
      if activeConn == from {
        activeConn := to;
      } else if from < activeConn && to >= activeConn {
        activeConn := activeConn - 1;
      } else if from > activeConn && to <= activeConn {
        activeConn := activeConn + 1;
      }
      assert activeConn == Relocate(old(activeConn), from, to);
    }
  }

  // ---- Between connections ----

  /** No session is in two managers. */
  ghost predicate Apart(a: SessionManager, b: SessionManager)
    reads a, b
  {
    a != b && forall s | s in a.sessions :: s !in b.sessions
  }

  /** A session handed to another connection: gone from one list, at its slot in the other, still running. */
  method HandOver(source: SessionManager, target: SessionManager, index: int, position: int)
    requires source.Valid() && target.Valid() && Apart(source, target)
    requires 0 <= index < |source.sessions|
    modifies source, target, source.sessions`index, target.sessions`index, source.sessions`callbacks
    ensures source.Valid() && target.Valid() && Apart(source, target)
    ensures source.sessions == RemoveAt(old(source.sessions), index)
    ensures target.sessions ==
            InsertAt(old(target.sessions), Slot(position, |old(target.sessions)|), old(source.sessions[index]))
    ensures multiset(source.sessions) + multiset(target.sessions)
            == old(multiset(source.sessions) + multiset(target.sessions))
  {
    ghost var was, there := source.sessions, target.sessions;
    RemoveAtMultiset(was, index);
    InsertAtMultiset(there, Slot(position, |there|), was[index]);
    RemovedIsGone(was, index);
    InsertedIsThere(there, Slot(position, |there|), was[index]);
    assert was[index] in was && was[index] !in there;
    assert forall i | 0 <= i < |there| :: there[i] in there && there[i] !in was;
    var detached := source.Detach(index);
    assert target.sessions == there && detached == was[index];
    target.Adopt(detached, position);
  }

  /** A session moved to a position of a connection, which may be its own. */
  method ControlMoveSession(source: SessionManager, target: SessionManager, sess: Session, position: int)
    requires source.Valid() && target.Valid() && (source == target || Apart(source, target))
    requires sess in source.sessions
    modifies source, target, source.sessions`index, target.sessions`index, source.sessions`callbacks
    ensures source.Valid() && target.Valid() && (source == target || Apart(source, target))
    ensures source == target ==> source.View() == Moved(old(source.View()), old(sess.index), position)
    ensures source != target ==>
              && source.sessions == RemoveAt(old(source.sessions), old(sess.index))
              && target.sessions == InsertAt(old(target.sessions), Slot(position, |old(target.sessions)|), sess)
    ensures 0 <= sess.index < |target.sessions| && target.sessions[sess.index] == sess
    ensures sess.callbacks == target.callbacks
    ensures sess.index == var n := |target.sessions| - 1; if 0 <= position <= n then position
                          else if source == target && position < 0 then 0 else n
  {
    var index := sess.index;
    assert source.sessions[index] == sess;
    if source == target {
      ghost var was := source.sessions;
      MovedIs(source.View(), index, position);
      MoveLands(source.View(), index, position);
      source.Move(index, position);
    } else {
      ghost var there := target.sessions;
      HandOver(source, target, index, position);
      assert target.sessions[Slot(position, |there|)] == sess;
    }
  }

  /** Removing a connection with its sessions moved: they end up, in order, behind the target's own. */
  method ControlRemoveConnectionMove(conn: SessionManager, target: SessionManager)
    requires conn.Valid() && target.Valid() && Apart(conn, target)
    modifies conn, target, conn.sessions`index, target.sessions`index, conn.sessions`callbacks
    ensures conn.Valid() && target.Valid() && Apart(conn, target)
    ensures conn.sessions == [] && target.sessions == old(target.sessions) + old(conn.sessions)
  {
    hide RosterOk;
    ghost var was, there := conn.sessions, target.sessions;
    ghost var k := 0;
    assert was[0..] == was && there + was[..0] == there;
    while |conn.sessions| > 0
      invariant conn.Valid() && target.Valid() && Apart(conn, target)
      invariant k <= |was| && conn.sessions == was[k..] && target.sessions == there + was[..k]
      decreases |conn.sessions|
    {
      ghost var n := |target.sessions|;
      assert conn.sessions[0] == was[k];
      assert RemoveAt(conn.sessions, 0) == was[k + 1..];
      assert InsertAt(target.sessions, n, was[k]) == there + was[..k + 1];
      HandOver(conn, target, 0, -1);
      k := k + 1;
    }
    assert was[..k] == was;
  }
}
