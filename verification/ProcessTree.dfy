/** Looking for a process below a root in a process table that need not be a tree. */
module ProcessTree {
  import opened Bytes

  datatype Process = Process(pid: int, parentPid: int, name: string)

  /** The last entry with this PID, as a map filled in table order keeps it. */
  function ByPid(table: seq<Process>, pid: int): Option<Process> {
    if table == [] then None
    else if table[|table| - 1].pid == pid then Some(table[|table| - 1])
    else ByPid(table[..|table| - 1], pid)
  }

  /** The entry found is the last one with the PID, and none is found only where there is none. */
  lemma {:induction false} LastEntryWins(table: seq<Process>, pid: int, i: nat)
    requires i < |table| && table[i].pid == pid && forall j | i < j < |table| :: table[j].pid != pid
    ensures ByPid(table, pid) == Some(table[i])
  {
    if i < |table| - 1 { LastEntryWins(table[..|table| - 1], pid, i); }
  }

  lemma {:induction false} UnlistedIsNotFound(table: seq<Process>, pid: int)
    requires forall i | 0 <= i < |table| :: table[i].pid != pid
    ensures ByPid(table, pid) == None
  {
    if table != [] { UnlistedIsNotFound(table[..|table| - 1], pid); }
  }

  /** The entries whose parent is pid, in table order. */
  function Children(table: seq<Process>, pid: int): seq<Process> {
    if table == [] then []
    else Children(table[..|table| - 1], pid) +
         if table[|table| - 1].parentPid == pid then [table[|table| - 1]] else []
  }

  ghost predicate Edge(table: seq<Process>, from: int, to: int) {
    exists i :: 0 <= i < |table| && table[i].parentPid == from && table[i].pid == to
  }

  /** A chain of child edges. */
  ghost predicate IsPath(table: seq<Process>, path: seq<int>) {
    path != [] && forall i | 0 <= i < |path| - 1 :: Edge(table, path[i], path[i + 1])
  }

  ghost predicate PathTo(table: seq<Process>, root: int, pid: int, path: seq<int>) {
    IsPath(table, path) && path[0] == root && path[|path| - 1] == pid
  }

  ghost predicate Reachable(table: seq<Process>, root: int, pid: int) {
    exists path :: PathTo(table, root, pid, path)
  }

  /** Some listed process reachable from the root matches; a PID listed twice means its last entry. */
  ghost predicate TreeContains(table: seq<Process>, root: int, wanted: Process -> bool) {
    exists pid :: Reachable(table, root, pid) && Matches(table, pid, wanted)
  }

  ghost predicate Matches(table: seq<Process>, pid: int, wanted: Process -> bool) {
    ByPid(table, pid).Some? && wanted(ByPid(table, pid).value)
  }

  function Pids(table: seq<Process>): set<int> {
    set i | 0 <= i < |table| :: table[i].pid
  }

  lemma {:induction false} ChildrenAreEdges(table: seq<Process>, pid: int)
    ensures forall c | c in Children(table, pid) :: Edge(table, pid, c.pid) && c.pid in Pids(table)
    ensures forall to | Edge(table, pid, to) :: exists c :: c in Children(table, pid) && c.pid == to
  {
    if table != [] {
      var front, last := table[..|table| - 1], table[|table| - 1];
      ChildrenAreEdges(front, pid);
      forall c | c in Children(table, pid)
        ensures Edge(table, pid, c.pid) && c.pid in Pids(table)
      {
        if c in Children(front, pid) {
          var i :| 0 <= i < |front| && front[i].parentPid == pid && front[i].pid == c.pid;
          assert table[i] == front[i];
        } else {
          assert c == table[|table| - 1];
        }
      }
      forall to | Edge(table, pid, to)
        ensures exists c :: c in Children(table, pid) && c.pid == to
      {
        var i :| 0 <= i < |table| && table[i].parentPid == pid && table[i].pid == to;
        if i < |front| {
          assert front[i] == table[i];
          assert Edge(front, pid, to);
          var c :| c in Children(front, pid) && c.pid == to;
          assert c in Children(table, pid);
        } else {
          assert last in Children(table, pid);
        }
      }
    }
  }

  lemma ReachStep(table: seq<Process>, root: int, from: int, to: int)
    requires Reachable(table, root, from) && Edge(table, from, to)
    ensures Reachable(table, root, to)
  {
    var path :| PathTo(table, root, from, path);
    assert PathTo(table, root, to, path + [to]);
  }

  /** A set that holds the root and every child of its members holds all that is reachable. */
  lemma {:induction false} ClosedSetHoldsPath(table: seq<Process>, seen: set<int>, path: seq<int>)
    requires IsPath(table, path) && path[0] in seen
    requires forall p, q | p in seen && Edge(table, p, q) :: q in seen
    ensures path[|path| - 1] in seen
  {
    if |path| > 1 {
      var front := path[..|path| - 1];
      assert forall i | 0 <= i < |front| - 1 :: Edge(table, path[i], path[i + 1]);
      ClosedSetHoldsPath(table, seen, front);
      assert Edge(table, path[|path| - 2], path[|path| - 1]);
    }
  }

  /** Every child of a visited process is visited or waiting. */
  ghost predicate Explored(table: seq<Process>, seen: set<int>, stack: seq<int>) {
    forall p, q | p in seen && Edge(table, p, q) :: q in seen || q in stack
  }

  /** reach is the set of what the root reaches. */
  ghost predicate IsReach(table: seq<Process>, root: int, reach: set<int>) {
    forall p {:trigger Reachable(table, root, p)} :: Reachable(table, root, p) <==> p in reach
  }

  lemma {:induction false} PathStaysListed(table: seq<Process>, root: int, pid: int, path: seq<int>)
    requires PathTo(table, root, pid, path)
    ensures pid == root || pid in Pids(table)
  {
    if |path| > 1 {
      assert Edge(table, path[|path| - 2], path[|path| - 1]);
    }
  }

  lemma ReachSet(table: seq<Process>, root: int) returns (reach: set<int>)
    ensures IsReach(table, root, reach) && root in reach
  {
    reach := set p | p in Pids(table) + {root} && Reachable(table, root, p);
    assert PathTo(table, root, root, [root]);
    forall p | Reachable(table, root, p)
      ensures p in reach
    {
      var path :| PathTo(table, root, p, path);
      PathStaysListed(table, root, p, path);
    }
  }

  /** The state between two turns of the search. */
  ghost predicate Searching(table: seq<Process>, root: int, wanted: Process -> bool,
                            reach: set<int>, seen: set<int>, stack: seq<int>) {
    && seen <= reach && (forall p | p in stack :: p in reach)
    && (root in seen || root in stack)
    && Explored(table, seen, stack)
    && (forall p | p in seen :: !Matches(table, p, wanted))
  }

  lemma SearchVisits(table: seq<Process>, root: int, wanted: Process -> bool,
                     reach: set<int>, seen: set<int>, stack: seq<int>, pid: int)
    requires IsReach(table, root, reach)
    requires Searching(table, root, wanted, reach, seen, stack + [pid])
    requires !Matches(table, pid, wanted) && pid !in seen
    ensures Searching(table, root, wanted, reach, seen + {pid}, stack + PidsOf(Children(table, pid)))
    ensures |reach - (seen + {pid})| < |reach - seen|
  {
    var kids := Children(table, pid);
    var next := stack + PidsOf(kids);
    ChildrenAreEdges(table, pid);
    PidsOfMembers(kids);
    assert pid in stack + [pid];
    assert reach - seen == (reach - (seen + {pid})) + {pid};
    assert Reachable(table, root, pid);
    forall p | p in next
      ensures p in reach
    {
      if p in stack {
        assert p in stack + [pid];
      } else {
        var c :| c in kids && c.pid == p;
        ReachStep(table, root, pid, p);
      }
    }
    forall p, q | p in seen + {pid} && Edge(table, p, q)
      ensures q in seen + {pid} || q in next
    {
      if p == pid {
        var c :| c in kids && c.pid == q;
      } else {
        assert q in seen || q in stack + [pid];
      }
    }
  }

  lemma SearchFinds(table: seq<Process>, root: int, wanted: Process -> bool,
                    reach: set<int>, seen: set<int>, stack: seq<int>, pid: int)
    requires IsReach(table, root, reach)
    requires Searching(table, root, wanted, reach, seen, stack + [pid])
    requires Matches(table, pid, wanted)
    ensures TreeContains(table, root, wanted)
  {
  }

  /** When nothing waits, everything reachable was visited and nothing matched. */
  lemma SearchEnds(table: seq<Process>, root: int, wanted: Process -> bool, reach: set<int>, seen: set<int>)
    requires Searching(table, root, wanted, reach, seen, [])
    ensures !TreeContains(table, root, wanted)
  {
    forall pid | Reachable(table, root, pid)
      ensures !Matches(table, pid, wanted)
    {
      var path :| PathTo(table, root, pid, path);
      ClosedSetHoldsPath(table, seen, path);
    }
  }

  function PidsOf(procs: seq<Process>): seq<int> {
    seq(|procs|, i requires 0 <= i < |procs| => procs[i].pid)
  }

  lemma PidsOfMembers(procs: seq<Process>)
    ensures forall p :: p in PidsOf(procs) <==> exists c :: c in procs && c.pid == p
  {
    forall p | p in PidsOf(procs)
      ensures exists c :: c in procs && c.pid == p
    {
      var i :| 0 <= i < |procs| && PidsOf(procs)[i] == p;
      assert procs[i] in procs;
    }
    forall c | c in procs
      ensures c.pid in PidsOf(procs)
    {
      var i :| 0 <= i < |procs| && procs[i] == c;
      assert PidsOf(procs)[i] == c.pid;
    }
  }

  /** The two lookup maps of the search. */
  method IndexTable(table: seq<Process>) returns (children: map<int, seq<Process>>, byPid: map<int, Process>)
    ensures forall pid :: ByPid(table, pid) == if pid in byPid then Some(byPid[pid]) else None
    ensures forall pid :: Children(table, pid) == if pid in children then children[pid] else []
  {
    children, byPid := map[], map[];
    for i := 0 to |table|
      invariant forall pid :: ByPid(table[..i], pid) == if pid in byPid then Some(byPid[pid]) else None
      invariant forall pid :: Children(table[..i], pid) == if pid in children then children[pid] else []
    {
      var p := table[i];
      assert table[..i + 1][..i] == table[..i];
      byPid := byPid[p.pid := p];
      var siblings := if p.parentPid in children then children[p.parentPid] else [];
      children := children[p.parentPid := siblings + [p]];
    }
    assert table[..|table|] == table;
  }

  method PushAll(stack: seq<int>, kids: seq<Process>) returns (pushed: seq<int>)
    ensures pushed == stack + PidsOf(kids)
  {
    pushed := stack;
    for i := 0 to |kids|
      invariant pushed == stack + PidsOf(kids[..i])
    {
      pushed := pushed + [kids[i].pid];
      assert PidsOf(kids[..i + 1]) == PidsOf(kids[..i]) + [kids[i].pid];
    }
    assert kids[..|kids|] == kids;
  }

  /** The search over the table; it ends on any table, parent cycles and repeated entries included. */
  method ProcessTreeContains(root: int, table: seq<Process>, wanted: Process -> bool) returns (found: bool)
    ensures found <==> TreeContains(table, root, wanted)
  {
    var children, byPid := IndexTable(table);
    var stack := [root];
    var seen: set<int> := {};
    ghost var reach := ReachSet(table, root);
    while |stack| > 0
      invariant Searching(table, root, wanted, reach, seen, stack)
      decreases |reach - seen|, |stack|
    {
      var pid := stack[|stack| - 1];
      ghost var waiting := stack;
      stack := stack[..|stack| - 1];
      assert waiting == stack + [pid];
      if pid in seen {
        continue;
      }
      if pid in byPid && wanted(byPid[pid]) {
        SearchFinds(table, root, wanted, reach, seen, stack, pid);
        return true;
      }
      SearchVisits(table, root, wanted, reach, seen, stack, pid);
      seen := seen + {pid};
      if pid in children {
        stack := PushAll(stack, children[pid]);
      } else {
        assert stack + PidsOf([]) == stack;
      }
    }
    assert stack == [];
    SearchEnds(table, root, wanted, reach, seen);
    return false;
  }
}
