// The SchedOS scheduling algorithms as functions of the process table, and
// what whole runs of them give to each process.
module Schedules {
  import opened RoundRobin

  datatype ProcState = Empty | Runnable | Blocked | Zombie

  datatype Process = Process(state: ProcState, priority: int, share: int, count: int)

  datatype Sched = Sched(procs: seq<Process>, current: nat)

  predicate IsRunnable(procs: seq<Process>, j: int) {
    0 <= j < |procs| && procs[j].state == Runnable
  }

  function Max(a: int, b: int): int {
    if a >= b then a else b
  }

  // ----- algorithm 0: round robin

  function Ready(procs: seq<Process>): (r: seq<bool>)
    ensures |r| == |procs| && forall j :: 0 <= j < |procs| ==> r[j] == (procs[j].state == Runnable)
  {
    seq(|procs|, j requires 0 <= j < |procs| => procs[j].state == Runnable)
  }

  /** Some process is runnable if and only if the scan ends; it picks a runnable one. */
  lemma RoundRobinPicks(procs: seq<Process>, pid: nat)
    requires pid < |procs|
    ensures Scan(Ready(procs), pid, |procs|).Picked? <==> exists j :: 0 <= j < |procs| && procs[j].state == Runnable
    ensures Scan(Ready(procs), pid, |procs|).Picked? ==> IsRunnable(procs, Scan(Ready(procs), pid, |procs|).pid)
  {
    ScanIsComplete(Ready(procs), pid);
    if j :| 0 <= j < |procs| && procs[j].state == Runnable {
      assert Ready(procs)[j];
    }
  }

  // ----- algorithm 4A: priorities

  /** The top priority among runnable processes below slot n, and at least 0. */
  function TopPriority(procs: seq<Process>, n: nat): (top: int)
    requires n <= |procs|
    ensures top >= 0
  {
    if n <= 1 then 0
    else
      var top := TopPriority(procs, n - 1);
      if procs[n - 1].state == Runnable then Max(top, procs[n - 1].priority) else top
  }

  function InTopClass(procs: seq<Process>): (r: seq<bool>)
    ensures |r| == |procs|
    ensures forall j :: 0 <= j < |procs| ==>
              r[j] == (procs[j].state == Runnable && procs[j].priority == TopPriority(procs, |procs|))
  {
    seq(|procs|, j requires 0 <= j < |procs| =>
      procs[j].state == Runnable && procs[j].priority == TopPriority(procs, |procs|))
  }

  lemma {:induction false} TopBounds(procs: seq<Process>, n: nat, j: nat)
    requires 1 <= j < n <= |procs| && procs[j].state == Runnable
    ensures procs[j].priority <= TopPriority(procs, n)
    decreases n
  {
    if j < n - 1 {
      TopBounds(procs, n - 1, j);
    }
  }

  lemma {:induction false} TopIsTaken(procs: seq<Process>, n: nat) returns (j: nat)
    requires n <= |procs| && TopPriority(procs, n) > 0
    ensures 1 <= j < n && procs[j].state == Runnable && procs[j].priority == TopPriority(procs, n)
  {
    if procs[n - 1].state == Runnable && procs[n - 1].priority == TopPriority(procs, n) {
      j := n - 1;
    } else {
      j := TopIsTaken(procs, n - 1);
    }
  }

  /** Algorithm 4A picks a process if and only if some runnable one has a priority of at least 0, and then the one
      picked has the highest priority of all runnable processes. With negative priorities only, it spins. */
  lemma PriorityPicks(procs: seq<Process>, pid: nat)
    requires pid < |procs| && procs[0].state == Empty
    ensures Scan(InTopClass(procs), pid, |procs|).Picked? <==>
            exists j :: 0 <= j < |procs| && procs[j].state == Runnable && procs[j].priority >= 0
    ensures var c := Scan(InTopClass(procs), pid, |procs|);
      c.Picked? ==> IsRunnable(procs, c.pid) && forall j :: IsRunnable(procs, j) ==>
          procs[j].priority <= procs[c.pid].priority
  {
    var top, n := TopPriority(procs, |procs|), |procs|;
    ScanIsComplete(InTopClass(procs), pid);
    forall j | IsRunnable(procs, j) ensures procs[j].priority <= top {
      TopBounds(procs, n, j);
    }
    if j :| 0 <= j < |procs| && procs[j].state == Runnable && procs[j].priority >= 0 {
      if top > 0 {
        var k := TopIsTaken(procs, n);
        assert InTopClass(procs)[k];
      } else {
        assert InTopClass(procs)[j];
      }
    }
  }

  function TopClasses(tables: seq<seq<Process>>): (views: seq<seq<bool>>)
    ensures |views| == |tables| && forall i :: 0 <= i < |tables| ==> views[i] == InTopClass(tables[i])
  {
    seq(|tables|, i requires 0 <= i < |tables| => InTopClass(tables[i]))
  }

  /** Ties alternate: a process that is in the top class at as many decisions in a row as there are slots between it
      and the current one is picked at one of them, whatever else changes meanwhile. */
  lemma TopClassTakesTurns(tables: seq<seq<Process>>, pid: nat, picks: seq<nat>, n: nat, p: nat)
    requires |picks| == |tables| && pid < n && p < n && Picks(TopClasses(tables), pid, picks, n)
    requires forall i :: 0 <= i < |tables| ==> |tables[i]| == n && InTopClass(tables[i])[p]
    requires |tables| >= Distance(n, pid, p)
    ensures p in picks[..Distance(n, pid, p)]
  {
    BoundedWaiting(TopClasses(tables), pid, picks, n, p);
  }

  /** Two runnable processes with priority -1: the scheduler never comes back. */
  lemma NegativePrioritiesSpin()
    ensures var p := Process(Runnable, -1, 1, 1);
      Scan(InTopClass([Process(Empty, 0, 0, 0), p, p]), 1, 3) == NoneReady
  {
    var p := Process(Runnable, -1, 1, 1);
    PriorityPicks([Process(Empty, 0, 0, 0), p, p], 1);
  }

  // ----- algorithm 4B: proportional share

  /** Not yet served in this cycle, as the code tells. */
  predicate Waiting(p: Process) {
    p.state == Runnable && (p.count > 1 || (p.share == 1 && p.count == 1))
  }

  /** The largest share of the waiting processes below slot n, or -1. */
  function LargestWaiting(procs: seq<Process>, n: nat): int
    requires n <= |procs|
  {
    if n <= 1 then -1
    else
      var largest := LargestWaiting(procs, n - 1);
      if Waiting(procs[n - 1]) then Max(largest, procs[n - 1].share) else largest
  }

  function LargestRunnable(procs: seq<Process>, n: nat): int
    requires n <= |procs|
  {
    if n <= 1 then -1
    else
      var largest := LargestRunnable(procs, n - 1);
      if procs[n - 1].state == Runnable then Max(largest, procs[n - 1].share) else largest
  }

  /** Every runnable process has its share before it again. */
  function Reset(procs: seq<Process>): (r: seq<Process>)
    ensures |r| == |procs|
  {
    seq(|procs|, j requires 0 <= j < |procs| =>
      if j >= 1 && procs[j].state == Runnable then procs[j].(count := procs[j].share) else procs[j])
  }

  /** The first runnable process from slot j on with this share; the number of slots when there is none. */
  function WithShare(procs: seq<Process>, share: int, j: nat): (r: nat)
    requires j <= |procs|
    ensures j <= r <= |procs|
    ensures r < |procs| ==> procs[r].state == Runnable && procs[r].share == share
    ensures forall i :: j <= i < r ==> !(procs[i].state == Runnable && procs[i].share == share)
    decreases |procs| - j
  {
    if j == |procs| || (procs[j].state == Runnable && procs[j].share == share) then j
    else WithShare(procs, share, j + 1)
  }

  // Whether a new cycle was started, and the new state. A current number past the table is what the C code computes
  // when no process is runnable; it then runs whatever lies behind the table.
  datatype Turn = Turn(reset: bool, next: Sched)

  /** One call of schedule() under algorithm 4B. */
  function ShareTurn(s: Sched): Turn
    requires s.current < |s.procs|
  {
    var me := s.procs[s.current].(count := s.procs[s.current].count - 1);
    var procs := s.procs[s.current := me];
    if me.state == Runnable && me.count > 0 then Turn(false, Sched(procs, s.current))
    else
      var largest := LargestWaiting(procs, |procs|);
      if largest != -1 then Turn(false, Sched(procs, WithShare(procs, largest, 1)))
      else
        var renewed := Reset(procs);
        Turn(true, Sched(renewed, WithShare(renewed, LargestRunnable(renewed, |renewed|), 1)))
  }

  /** INT_SYS_EXIT marks the current process; then schedule() runs as at a clock interrupt. */
  function Quantum(s: Sched, exits: bool): Turn
    requires s.current < |s.procs|
  {
    ShareTurn(if exits then s.(procs := s.procs[s.current := s.procs[s.current].(state := Zombie)]) else s)
  }

  /** Different runnable processes have different, positive shares. */
  ghost predicate SharesOk(procs: seq<Process>) {
    SharesOkAfter(1 + |procs|, procs)
  }

  // The countdown keeps the pairs of processes out of proofs that only pass this on; SharesOkIs opens it.
  ghost predicate SharesOkAfter(n: nat, procs: seq<Process>)
    decreases n
  {
    if n == 0 then DifferentShares(procs) else SharesOkAfter(n - 1, procs)
  }

  ghost predicate DifferentShares(procs: seq<Process>) {
    && |procs| >= 2 && procs[0].state == Empty
    && (forall j :: IsRunnable(procs, j) ==> procs[j].share >= 1)
    && (forall i, j :: IsRunnable(procs, i) && IsRunnable(procs, j) && i != j ==> procs[i].share != procs[j].share)
  }

  lemma SharesOkIs(procs: seq<Process>)
    ensures SharesOk(procs) <==> DifferentShares(procs)
  {
    SharesOkAfterIs(1 + |procs|, procs);
  }

  lemma {:induction false} SharesOkAfterIs(n: nat, procs: seq<Process>)
    ensures SharesOkAfter(n, procs) <==> DifferentShares(procs)
    decreases n
  {
    if n > 0 {
      SharesOkAfterIs(n - 1, procs);
    }
  }

  /** Counting and exiting change no share. */
  lemma SharesKept(procs: seq<Process>, procs': seq<Process>)
    requires SharesOk(procs) && 0 < |procs'| == |procs| && procs'[0].state == procs[0].state
    requires forall j :: IsRunnable(procs', j) ==> IsRunnable(procs, j) && procs'[j].share == procs[j].share
    ensures SharesOk(procs')
  {
    SharesOkIs(procs);
    SharesOkIs(procs');
  }

  ghost predicate DiffersFromOthers(procs: seq<Process>, k: nat) {
    forall j :: IsRunnable(procs, j) ==>
      1 <= j && procs[j].share >= 1 && (j != k && k < |procs| ==> procs[j].share != procs[k].share)
  }

  /** The process with a given share is found. */
  lemma OneWithShare(procs: seq<Process>, k: nat)
    requires SharesOk(procs) && IsRunnable(procs, k)
    ensures DiffersFromOthers(procs, k) && WithShare(procs, procs[k].share, 1) == k
  {
    SharesOkIs(procs);
    var r := WithShare(procs, procs[k].share, 1);
    assert r < |procs| ==> IsRunnable(procs, r);
  }

  /** In the middle of a cycle: larger shares have been served, smaller ones are to come. */
  ghost predicate InCycle(s: Sched) {
    && SharesOk(s.procs) && IsRunnable(s.procs, s.current) && DiffersFromOthers(s.procs, s.current)
    && s.procs[0].state == Empty
    && 1 <= s.procs[s.current].count <= s.procs[s.current].share
    && (forall j :: IsRunnable(s.procs, j) ==>
          && (s.procs[j].share > s.procs[s.current].share ==> s.procs[j].count == 0)
          && (s.procs[j].share < s.procs[s.current].share ==> s.procs[j].count == s.procs[j].share))
  }

  // The processes that had a quantum in this cycle, one entry for each quantum, in order.
  function Quanta(trace: seq<nat>, j: nat): nat {
    if trace == [] then 0 else Quanta(trace[..|trace| - 1], j) + if trace[|trace| - 1] == j then 1 else 0
  }

  /** The shares along the trace go down: each process has its quanta together, larger shares first. */
  ghost predicate Descending(procs: seq<Process>, trace: seq<nat>) {
    && (forall a :: 0 <= a < |trace| ==> trace[a] < |procs|)
    && (forall a, b :: 0 <= a < b < |trace| ==>
          trace[a] == trace[b] || procs[trace[a]].share > procs[trace[b]].share)
  }

  /** Nobody else, whatever became of it since, has a quantum between two quanta of the same process. */
  ghost predicate InOnePiece(trace: seq<nat>) {
    forall a, b, c :: 0 <= a < b < c < |trace| && trace[a] == trace[c] ==> trace[b] == trace[a]
  }

  /** Everyone who is runnable has had the quanta that its count says it has had; who exited had no more than its
      share. */
  ghost predicate Accounted(s: Sched, trace: seq<nat>) {
    && (forall j :: IsRunnable(s.procs, j) ==> Quanta(trace, j) == s.procs[j].share - s.procs[j].count)
    && (forall j :: 0 <= j < |s.procs| && Quanta(trace, j) > 0 ==> Quanta(trace, j) <= s.procs[j].share)
    && Descending(s.procs, trace)
    && (forall a :: 0 <= a < |trace| ==>
          s.current < |s.procs| && (trace[a] == s.current || s.procs[trace[a]].share > s.procs[s.current].share))
  }

  /** A cycle that is over: every process still runnable has had exactly its share, and one that exited at most its
      share; all in one piece, larger shares first. */
  ghost predicate CycleComplete(procs: seq<Process>, trace: seq<nat>) {
    && (forall j :: IsRunnable(procs, j) ==> Quanta(trace, j) == procs[j].share)
    && (forall j :: 0 <= j < |procs| && Quanta(trace, j) > 0 ==> Quanta(trace, j) <= procs[j].share)
    && Descending(procs, trace) && InOnePiece(trace)
  }

  lemma {:induction false} LargestWaitingBounds(procs: seq<Process>, n: nat, j: nat)
    requires 1 <= j < n <= |procs| && Waiting(procs[j])
    ensures procs[j].share <= LargestWaiting(procs, n)
    decreases n
  {
    if j < n - 1 {
      LargestWaitingBounds(procs, n - 1, j);
    }
  }

  lemma {:induction false} LargestWaitingIsTaken(procs: seq<Process>, n: nat) returns (j: nat)
    requires n <= |procs| && LargestWaiting(procs, n) != -1
    ensures 1 <= j < n && Waiting(procs[j]) && procs[j].share == LargestWaiting(procs, n)
  {
    if Waiting(procs[n - 1]) && procs[n - 1].share == LargestWaiting(procs, n) {
      j := n - 1;
    } else {
      j := LargestWaitingIsTaken(procs, n - 1);
    }
  }

  lemma {:induction false} LargestRunnableBounds(procs: seq<Process>, n: nat, j: nat)
    requires 1 <= j < n <= |procs| && procs[j].state == Runnable
    ensures procs[j].share <= LargestRunnable(procs, n)
    decreases n
  {
    if j < n - 1 {
      LargestRunnableBounds(procs, n - 1, j);
    }
  }

  lemma {:induction false} LargestRunnableIsTaken(procs: seq<Process>, n: nat) returns (j: nat)
    requires n <= |procs| && LargestRunnable(procs, n) != -1
    ensures 1 <= j < n && procs[j].state == Runnable && procs[j].share == LargestRunnable(procs, n)
  {
    if procs[n - 1].state == Runnable && procs[n - 1].share == LargestRunnable(procs, n) {
      j := n - 1;
    } else {
      j := LargestRunnableIsTaken(procs, n - 1);
    }
  }

  /** The table with the current process's quantum counted, and with its exit if it ends. */
  function Charged(s: Sched, exits: bool): seq<Process>
    requires s.current < |s.procs|
  {
    var p := s.procs[s.current];
    s.procs[s.current := p.(state := if exits then Zombie else p.state, count := p.count - 1)]
  }

  lemma QuantumIs(s: Sched, exits: bool)
    requires s.current < |s.procs|
    ensures var procs := Charged(s, exits);
      Quantum(s, exits) ==
      if procs[s.current].state == Runnable && procs[s.current].count > 0 then Turn(false, Sched(procs, s.current))
      else if LargestWaiting(procs, |procs|) != -1
      then Turn(false, Sched(procs, WithShare(procs, LargestWaiting(procs, |procs|), 1)))
      else Turn(true, Sched(Reset(procs), WithShare(Reset(procs), LargestRunnable(Reset(procs), |procs|), 1)))
  {
    var s1 := if exits then s.(procs := s.procs[s.current := s.procs[s.current].(state := Zombie)]) else s;
    var me := s1.procs[s1.current].(count := s1.procs[s1.current].count - 1);
    assert s1.procs[s1.current := me] == Charged(s, exits);
  }

  // The waiting processes are exactly the runnable ones with smaller shares.
  lemma WaitingAreSmaller(s: Sched, exits: bool, j: nat)
    requires InCycle(s) && j < |s.procs| && (exits || s.procs[s.current].count == 1)
    ensures Waiting(Charged(s, exits)[j]) <==> IsRunnable(s.procs, j) && s.procs[j].share < s.procs[s.current].share
  {
  }

  /** The turn passes to the process with the next smaller share. */
  lemma NextIsSmaller(s: Sched, exits: bool)
    requires InCycle(s) && (exits || s.procs[s.current].count == 1)
    requires LargestWaiting(Charged(s, exits), |s.procs|) != -1
    ensures !Quantum(s, exits).reset && InCycle(Quantum(s, exits).next)
            && Quantum(s, exits).next.procs == Charged(s, exits)
    ensures var next := Quantum(s, exits).next;
      && s.procs[next.current].share < s.procs[s.current].share
      && next.procs[next.current].count == next.procs[next.current].share
  {
    QuantumIs(s, exits);
    var procs := Charged(s, exits);
    var k := LargestWaitingIsTaken(procs, |procs|);
    var next := Quantum(s, exits).next;
    WaitingAreSmaller(s, exits, k);
    SharesKept(s.procs, procs);
    OneWithShare(procs, k);
    forall j | IsRunnable(procs, j)
      ensures procs[j].share > procs[k].share ==> procs[j].count == 0
      ensures procs[j].share < procs[k].share ==> procs[j].count == procs[j].share
    {
      WaitingAreSmaller(s, exits, j);
      if Waiting(procs[j]) {
        LargestWaitingBounds(procs, |procs|, j);
      }
    }
  }

  // When nobody is waiting, everyone still runnable has been served.
  lemma NobodyWaiting(s: Sched, exits: bool, j: nat)
    requires InCycle(s) && (exits || s.procs[s.current].count == 1)
    requires LargestWaiting(Charged(s, exits), |s.procs|) == -1 && IsRunnable(Charged(s, exits), j)
    ensures Charged(s, exits)[j].count == 0 && Charged(s, exits)[j].share >= s.procs[s.current].share
  {
    WaitingAreSmaller(s, exits, j);
    if Waiting(Charged(s, exits)[j]) {
      LargestWaitingBounds(Charged(s, exits), |s.procs|, j);
    }
  }

  /** When nobody is waiting a new cycle starts, with the largest share of all. */
  lemma NewCycle(s: Sched, exits: bool)
    requires InCycle(s) && (exits || s.procs[s.current].count == 1)
    requires LargestWaiting(Charged(s, exits), |s.procs|) == -1
    requires exists j :: IsRunnable(Charged(s, exits), j)
    ensures Quantum(s, exits).reset && InCycle(Quantum(s, exits).next)
    ensures Quantum(s, exits).next.procs == Reset(Charged(s, exits))
    ensures forall j :: IsRunnable(Charged(s, exits), j) ==>
              Charged(s, exits)[j].count == 0 && Charged(s, exits)[j].share >= s.procs[s.current].share
  {
    QuantumIs(s, exits);
    var procs := Charged(s, exits);
    forall j | IsRunnable(procs, j) ensures procs[j].count == 0 && procs[j].share >= s.procs[s.current].share {
      NobodyWaiting(s, exits, j);
    }
    var renewed := Reset(procs);
    var r :| IsRunnable(procs, r);
    SharesKept(s.procs, renewed);
    OneWithShare(renewed, r);
    LargestRunnableBounds(renewed, |renewed|, r);
    var k := LargestRunnableIsTaken(renewed, |renewed|);
    OneWithShare(renewed, k);
    forall j | IsRunnable(renewed, j) ensures renewed[j].share <= renewed[k].share {
      LargestRunnableBounds(renewed, |renewed|, j);
    }
  }

  lemma QuantaOfMore(trace: seq<nat>, x: nat, j: nat)
    ensures Quanta(trace + [x], j) == Quanta(trace, j) + if x == j then 1 else 0
  {
    assert (trace + [x])[..|trace|] == trace;
  }

  // What a quantum adds to the accounts, whoever is next.
  lemma Charge(s: Sched, trace: seq<nat>, exits: bool)
    requires InCycle(s) && Accounted(s, trace)
    ensures var procs, trace' := Charged(s, exits), trace + [s.current];
      && (forall j :: IsRunnable(procs, j) ==> Quanta(trace', j) == procs[j].share - procs[j].count)
      && (forall j :: 0 <= j < |procs| && Quanta(trace', j) > 0 ==> Quanta(trace', j) <= procs[j].share)
      && Descending(procs, trace')
      && (forall a :: 0 <= a < |trace'| ==>
            trace'[a] == s.current || procs[trace'[a]].share > s.procs[s.current].share)
  {
    var procs, trace' := Charged(s, exits), trace + [s.current];
    forall j | IsRunnable(procs, j) ensures Quanta(trace', j) == procs[j].share - procs[j].count {
      QuantaOfMore(trace, s.current, j);
      assert IsRunnable(s.procs, j);
    }
    forall j | 0 <= j < |procs| && Quanta(trace', j) > 0 ensures Quanta(trace', j) <= procs[j].share {
      QuantaOfMore(trace, s.current, j);
    }
  }

  lemma SameProcess(s: Sched, trace: seq<nat>)
    requires InCycle(s) && Accounted(s, trace) && s.procs[s.current].count > 1
    ensures var t := Quantum(s, false); !t.reset && InCycle(t.next) && Accounted(t.next, trace + [s.current])
  {
    var next := Sched(Charged(s, false), s.current);
    assert Quantum(s, false) == Turn(false, next) by {
      QuantumIs(s, false);
    }
    assert InCycle(next) by {
      SharesKept(s.procs, next.procs);
    }
    assert Accounted(next, trace + [s.current]) by {
      Charge(s, trace, false);
    }
  }

  lemma NextProcess(s: Sched, trace: seq<nat>, exits: bool)
    requires InCycle(s) && Accounted(s, trace) && (exits || s.procs[s.current].count == 1)
    requires LargestWaiting(Charged(s, exits), |s.procs|) != -1
    ensures var t := Quantum(s, exits); !t.reset && InCycle(t.next) && Accounted(t.next, trace + [s.current])
  {
    Charge(s, trace, exits);
    NextIsSmaller(s, exits);
  }

  lemma CycleEnds(s: Sched, trace: seq<nat>, exits: bool)
    requires InCycle(s) && Accounted(s, trace) && (exits || s.procs[s.current].count == 1)
    requires LargestWaiting(Charged(s, exits), |s.procs|) == -1
    requires exists j :: IsRunnable(Charged(s, exits), j)
    ensures var t := Quantum(s, exits);
      t.reset && InCycle(t.next) && CycleComplete(t.next.procs, trace + [s.current]) && Accounted(t.next, [])
  {
    var procs := Charged(s, exits);
    assert CycleComplete(Reset(procs), trace + [s.current]) by {
      Charge(s, trace, exits);
      NewCycle(s, exits);
      AllServed(procs, trace + [s.current]);
    }
    NewCycle(s, exits);
    NothingUsed(procs, Quantum(s, exits).next);
  }

  lemma AllServed(procs: seq<Process>, trace: seq<nat>)
    requires forall j :: IsRunnable(procs, j) ==> Quanta(trace, j) == procs[j].share
    requires forall j :: 0 <= j < |procs| && Quanta(trace, j) > 0 ==> Quanta(trace, j) <= procs[j].share
    requires Descending(procs, trace)
    ensures CycleComplete(Reset(procs), trace)
  {
    var renewed := Reset(procs);
    forall j | IsRunnable(renewed, j) ensures Quanta(trace, j) == renewed[j].share {
      assert IsRunnable(procs, j);
    }
  }

  lemma NothingUsed(procs: seq<Process>, s: Sched)
    requires s.procs == Reset(procs) && |procs| > 0 && procs[0].state == Empty
    ensures Accounted(s, [])
  {
  }

  /** Proportional share: every quantum, with or without an exit, keeps the order of the cycle, and when a cycle ends
      every process still runnable has had exactly p_share quanta, with no other process in between, larger shares
      first. */
  lemma QuantumKeepsCycle(s: Sched, trace: seq<nat>, exits: bool)
    requires InCycle(s) && Accounted(s, trace) && exists j :: IsRunnable(Charged(s, exits), j)
    ensures var t := Quantum(s, exits);
      && InCycle(t.next)
      && (!t.reset ==> Accounted(t.next, trace + [s.current]))
      && (t.reset ==> CycleComplete(t.next.procs, trace + [s.current]) && Accounted(t.next, []))
  {
    if !exits && s.procs[s.current].count > 1 {
      SameProcess(s, trace);
    } else if LargestWaiting(Charged(s, exits), |s.procs|) != -1 {
      NextProcess(s, trace, exits);
    } else {
      CycleEnds(s, trace, exits);
    }
  }

  /** start() calls schedule() without setting 'current'. If the slot charged with a quantum is not a runnable process,
      a process with the largest share comes first. */
  lemma FirstPick(s: Sched)
    requires SharesOk(s.procs) && s.current < |s.procs| && !IsRunnable(s.procs, s.current)
    requires exists j :: IsRunnable(s.procs, j)
    requires forall j :: IsRunnable(s.procs, j) ==> s.procs[j].count == s.procs[j].share
    ensures s.procs != [] && s.procs[0].state == Empty
    ensures var t := ShareTurn(s);
      && t == Turn(false, Sched(Charged(s, false), t.next.current)) && IsRunnable(s.procs, t.next.current)
      && forall j :: IsRunnable(s.procs, j) ==> s.procs[j].share <= s.procs[t.next.current].share
  {
    SharesOkIs(s.procs);
    QuantumIs(s, false);
    var procs := Charged(s, false);
    forall j | IsRunnable(s.procs, j) ensures s.procs[j].share <= LargestWaiting(procs, |procs|) {
      LargestWaitingBounds(procs, |procs|, j);
    }
    var k := LargestWaitingIsTaken(procs, |procs|);
    assert WithShare(procs, procs[k].share, 1) < |procs|;
  }

  /** With full counts that first call begins a cycle if and only if it does not charge a runnable process, or charges
      the only one there is, with share 1. */
  lemma FirstCycle(s: Sched)
    requires SharesOk(s.procs) && s.current < |s.procs| && exists j :: IsRunnable(s.procs, j)
    requires forall j :: IsRunnable(s.procs, j) ==> s.procs[j].count == s.procs[j].share
    ensures Fair(ShareTurn(s).next, []) <==>
            (IsRunnable(s.procs, s.current) ==>
              s.procs[s.current].share == 1 && forall j :: IsRunnable(s.procs, j) ==> j == s.current)
    ensures !IsRunnable(s.procs, s.current) ==> !ShareTurn(s).reset
  {
    var t := ShareTurn(s);
    FairIs(t.next, []);
    if !IsRunnable(s.procs, s.current) {
      FirstPick(s);
      SharesKept(s.procs, t.next.procs);
      OneWithShare(t.next.procs, t.next.current);
    } else if s.procs[s.current].share == 1 && forall j :: IsRunnable(s.procs, j) ==> j == s.current {
      OnlyOne(s);
    } else {
      FirstIsShort(s);
    }
  }

  lemma OnlyOne(s: Sched)
    requires SharesOk(s.procs) && IsRunnable(s.procs, s.current)
    requires forall j :: IsRunnable(s.procs, j) ==> j == s.current
    requires s.procs[s.current].share == 1 && s.procs[s.current].count == 1
    ensures InCycle(ShareTurn(s).next) && Accounted(ShareTurn(s).next, [])
  {
    SharesOkIs(s.procs);
    QuantumIs(s, false);
    var procs := Charged(s, false);
    if LargestWaiting(procs, |procs|) != -1 {
      var k := LargestWaitingIsTaken(procs, |procs|);
      assert IsRunnable(s.procs, k);
    }
    var renewed := Reset(procs);
    SharesKept(s.procs, renewed);
    LargestRunnableBounds(renewed, |renewed|, s.current);
    var k := LargestRunnableIsTaken(renewed, |renewed|);
    assert IsRunnable(s.procs, k);
    OneWithShare(renewed, s.current);
  }

  // A process that was charged before it ran has had fewer quanta than it was charged for.
  lemma FirstIsShort(s: Sched)
    requires SharesOk(s.procs) && IsRunnable(s.procs, s.current)
    requires forall j :: IsRunnable(s.procs, j) ==> s.procs[j].count == s.procs[j].share
    requires s.procs[s.current].share != 1 || exists j :: IsRunnable(s.procs, j) && j != s.current
    ensures !Accounted(ShareTurn(s).next, [])
  {
    SharesOkIs(s.procs);
    QuantumIs(s, false);
    var procs, c := Charged(s, false), s.current;
    if s.procs[c].share == 1 {
      var j :| IsRunnable(s.procs, j) && j != c;
      assert s.procs[j].share != 1 && Waiting(procs[j]);
      LargestWaitingBounds(procs, |procs|, j);
    }
    assert ShareTurn(s).next.procs == procs && IsRunnable(procs, c) && procs[c].count == procs[c].share - 1;
  }

  // ----- whole runs under algorithm 4B

  // A completed cycle: the processes at its end, and its trace.
  datatype Cycle = Cycle(procs: seq<Process>, trace: seq<nat>)

  /** The run goes through these quanta (true for one that ends in an exit) and completes these cycles; 'trace' and
      'trace'' are those of the unfinished cycle at its start and at its end. */
  ghost predicate Runs(s: Sched, trace: seq<nat>, exits: seq<bool>, cycles: seq<Cycle>, s': Sched, trace': seq<nat>)
    decreases |exits|
  {
    if exits == [] then s' == s && trace' == trace && cycles == []
    else
      && s.current < |s.procs| && (exists j :: IsRunnable(Charged(s, exits[0]), j))
      && var t, more := Quantum(s, exits[0]), trace + [s.current];
         if t.reset
         then cycles != [] && cycles[0] == Cycle(t.next.procs, more)
              && Runs(t.next, [], exits[1..], cycles[1..], s', trace')
         else Runs(t.next, more, exits[1..], cycles, s', trace')
  }

  /** The unfinished cycle is in order and everyone's quanta are accounted for. */
  ghost predicate Fair(s: Sched, trace: seq<nat>) {
    FairAfter(1 + |trace|, s, trace)
  }

  // The countdown keeps the definition out of the induction over runs; FairIs opens it.
  ghost predicate FairAfter(n: nat, s: Sched, trace: seq<nat>)
    decreases n
  {
    if n == 0 then InCycle(s) && Accounted(s, trace) else FairAfter(n - 1, s, trace)
  }

  lemma FairIs(s: Sched, trace: seq<nat>)
    ensures Fair(s, trace) <==> InCycle(s) && Accounted(s, trace)
  {
    FairAfterIs(1 + |trace|, s, trace);
  }

  lemma {:induction false} FairAfterIs(n: nat, s: Sched, trace: seq<nat>)
    ensures FairAfter(n, s, trace) <==> InCycle(s) && Accounted(s, trace)
    decreases n
  {
    if n > 0 {
      FairAfterIs(n - 1, s, trace);
    }
  }

  lemma QuantumIsFair(s: Sched, trace: seq<nat>, exits: bool)
    requires Fair(s, trace) && s.current < |s.procs| && exists j :: IsRunnable(Charged(s, exits), j)
    ensures var t, more := Quantum(s, exits), trace + [s.current];
      && (!t.reset ==> Fair(t.next, more))
      && (t.reset ==> CycleComplete(t.next.procs, more) && Fair(t.next, []))
  {
    var t, more := Quantum(s, exits), trace + [s.current];
    FairIs(s, trace);
    FairIs(t.next, more);
    FairIs(t.next, []);
    QuantumKeepsCycle(s, trace, exits);
  }

  /** In every run, with exits at any time, every completed cycle gave each process still runnable exactly its share,
      in one piece and in descending order of shares, and the unfinished cycle is on the way to it. */
  lemma {:induction false} RunsAreFair(s: Sched, trace: seq<nat>, exits: seq<bool>, cycles: seq<Cycle>,
                                       s': Sched, trace': seq<nat>)
    requires Fair(s, trace) && Runs(s, trace, exits, cycles, s', trace')
    ensures Fair(s', trace')
    ensures forall c :: c in cycles ==> CycleComplete(c.procs, c.trace)
    decreases |exits|
  {
    if exits != [] {
      QuantumIsFair(s, trace, exits[0]);
      var t, more := Quantum(s, exits[0]), trace + [s.current];
      if t.reset {
        RunsAreFair(t.next, [], exits[1..], cycles[1..], s', trace');
        assert cycles == [cycles[0]] + cycles[1..];
      } else {
        RunsAreFair(t.next, more, exits[1..], cycles, s', trace');
      }
    }
  }

  /** Who is runnable at the end of a run was runnable after its first quantum. */
  lemma {:induction false} RunnableAllAlong(s: Sched, trace: seq<nat>, exits: seq<bool>, cycles: seq<Cycle>,
                                            s': Sched, trace': seq<nat>, i: nat)
    requires Runs(s, trace, exits, cycles, s', trace') && 1 <= i && IsRunnable(s'.procs, i)
    ensures IsRunnable(s.procs, i) && (exits != [] ==> IsRunnable(Charged(s, exits[0]), i))
    decreases |exits|
  {
    if exits != [] {
      QuantumIs(s, exits[0]);
      var t, more := Quantum(s, exits[0]), trace + [s.current];
      RunnableAllAlong(t.next, if t.reset then [] else more, exits[1..], if t.reset then cycles[1..] else cycles,
                       s', trace', i);
    }
  }

  // ----- how long a cycle is, and how long a process waits

  /** The shares of the processes below slot n together. */
  function TotalShares(procs: seq<Process>, n: nat): (total: nat)
    requires n <= |procs|
  {
    if n == 0 then 0 else TotalShares(procs, n - 1) + Max(procs[n - 1].share, 0)
  }

  function QuantaBelow(trace: seq<nat>, n: nat): nat {
    if n == 0 then 0 else QuantaBelow(trace, n - 1) + Quanta(trace, n - 1)
  }

  lemma {:induction false} QuantaBelowOfMore(trace: seq<nat>, x: nat, n: nat)
    ensures QuantaBelow(trace + [x], n) == QuantaBelow(trace, n) + if x < n then 1 else 0
  {
    if n > 0 {
      QuantaBelowOfMore(trace, x, n - 1);
      QuantaOfMore(trace, x, n - 1);
    }
  }

  lemma {:induction false} LengthIsQuanta(trace: seq<nat>, n: nat)
    requires forall a :: 0 <= a < |trace| ==> trace[a] < n
    ensures |trace| == QuantaBelow(trace, n)
  {
    if trace == [] {
      NoQuanta(n);
    } else {
      var init, x := trace[..|trace| - 1], trace[|trace| - 1];
      LengthIsQuanta(init, n);
      QuantaBelowOfMore(init, x, n);
      assert trace == init + [x];
    }
  }

  lemma {:induction false} NoQuanta(n: nat)
    ensures QuantaBelow([], n) == 0
  {
    if n > 0 {
      NoQuanta(n - 1);
    }
  }

  lemma {:induction false} QuantaWithinShares(procs: seq<Process>, trace: seq<nat>, n: nat)
    requires n <= |procs|
    requires forall j :: 0 <= j < |procs| && Quanta(trace, j) > 0 ==> Quanta(trace, j) <= procs[j].share
    ensures QuantaBelow(trace, n) <= TotalShares(procs, n)
  {
    if n > 0 {
      QuantaWithinShares(procs, trace, n - 1);
    }
  }

  /** A cycle takes at most as many quanta as all shares together, whether it is over or not. */
  lemma CyclesAreShort(s: Sched, trace: seq<nat>)
    requires Fair(s, trace) || CycleComplete(s.procs, trace)
    ensures |trace| <= TotalShares(s.procs, |s.procs|)
  {
    FairIs(s, trace);
    LengthIsQuanta(trace, |s.procs|);
    QuantaWithinShares(s.procs, trace, |s.procs|);
  }

  /** The quanta that 'other' still has before 'mine' has its next one: the rest of its count, and its share if it comes
      first in the next cycle. */
  function Due(other: Process, mine: Process): int {
    if other.state != Runnable then 0
    else if other.share > mine.share then (if mine.count == 0 then other.share else other.count)
    else if other.share < mine.share && mine.count == 0 then other.count
    else 0
  }

  function Ahead(procs: seq<Process>, j: nat, n: nat): int
    requires n <= |procs| && j < |procs|
  {
    if n == 0 then 0 else Ahead(procs, j, n - 1) + Due(procs[n - 1], procs[j])
  }

  /** The shares of the other runnable processes together. */
  function OtherShares(procs: seq<Process>, j: nat, n: nat): int
    requires n <= |procs|
  {
    if n == 0 then 0
    else OtherShares(procs, j, n - 1) + if n - 1 != j && IsRunnable(procs, n - 1) then procs[n - 1].share else 0
  }

  lemma {:induction false} AheadBounds(s: Sched, j: nat, n: nat)
    requires InCycle(s) && n <= |s.procs| && IsRunnable(s.procs, j)
    ensures 0 <= Ahead(s.procs, j, n) <= OtherShares(s.procs, j, n)
  {
    if n > 0 {
      AheadBounds(s, j, n - 1);
      assert IsRunnable(s.procs, n - 1) ==> 0 <= s.procs[n - 1].count <= s.procs[n - 1].share;
    }
  }

  lemma {:induction false} AheadLess(procs: seq<Process>, procs': seq<Process>, j: nat, c: nat, n: nat)
    requires n <= |procs| == |procs'| && j < |procs|
    requires forall i :: 0 <= i < |procs| ==>
               Due(procs'[i], procs'[j]) + (if i == c then 1 else 0) <= Due(procs[i], procs[j])
    ensures Ahead(procs', j, n) + (if c < n then 1 else 0) <= Ahead(procs, j, n)
  {
    if n > 0 {
      AheadLess(procs, procs', j, c, n - 1);
    }
  }

  /** Every quantum of another process brings the next one of process j closer. */
  lemma QuantumBringsCloser(s: Sched, exits: bool, j: nat)
    requires InCycle(s) && IsRunnable(Charged(s, exits), j) && s.current != j
    ensures var next := Quantum(s, exits).next;
      |next.procs| == |s.procs| && Ahead(next.procs, j, |s.procs|) < Ahead(s.procs, j, |s.procs|)
  {
    var procs, next := Charged(s, exits), Quantum(s, exits).next;
    QuantumIs(s, exits);
    assert IsRunnable(s.procs, j) && procs[j] == s.procs[j];
    if next.procs != procs {
      assert LargestWaiting(procs, |procs|) == -1;
      NewCycle(s, exits);
    }
    AheadLess(s.procs, next.procs, j, s.current, |s.procs|);
  }

  /** The processes that have the quanta of a run, in order. */
  function Given(s: Sched, exits: seq<bool>): seq<nat>
    decreases |exits|
  {
    if exits == [] || s.current >= |s.procs| then []
    else [s.current] + Given(Quantum(s, exits[0]).next, exits[1..])
  }

  /** A process that stays runnable waits for no more quanta than the shares of the others together. */
  lemma {:induction false} NobodyWaitsLong(s: Sched, trace: seq<nat>, exits: seq<bool>, cycles: seq<Cycle>,
                                           s': Sched, trace': seq<nat>, j: nat)
    requires Fair(s, trace) && Runs(s, trace, exits, cycles, s', trace')
    requires 1 <= j && IsRunnable(s'.procs, j) && j !in Given(s, exits)
    ensures IsRunnable(s.procs, j) && |exits| <= Ahead(s.procs, j, |s.procs|) <= OtherShares(s.procs, j, |s.procs|)
    decreases |exits|
  {
    FairIs(s, trace);
    RunnableAllAlong(s, trace, exits, cycles, s', trace', j);
    AheadBounds(s, j, |s.procs|);
    if exits != [] {
      var t, more := Quantum(s, exits[0]), trace + [s.current];
      QuantumIsFair(s, trace, exits[0]);
      QuantumBringsCloser(s, exits[0], j);
      NobodyWaitsLong(t.next, if t.reset then [] else more, exits[1..], if t.reset then cycles[1..] else cycles,
                      s', trace', j);
    }
  }

  /** And so it is from the start, where every count is full, if the slot charged first is not a runnable process; and
      nobody who stays runnable waits for more quanta than the shares of the others together. */
  lemma StartedRunsAreFair(s: Sched, exits: seq<bool>, cycles: seq<Cycle>, s': Sched, trace': seq<nat>)
    requires SharesOk(s.procs) && s.current < |s.procs| && !IsRunnable(s.procs, s.current)
    requires exists j :: IsRunnable(s.procs, j)
    requires forall j :: IsRunnable(s.procs, j) ==> s.procs[j].count == s.procs[j].share
    requires Runs(ShareTurn(s).next, [], exits, cycles, s', trace')
    ensures Fair(s', trace')
    ensures forall c :: c in cycles ==> CycleComplete(c.procs, c.trace)
    ensures var first := ShareTurn(s).next;
      forall j: nat :: 1 <= j && IsRunnable(s'.procs, j) && j !in Given(first, exits) ==>
        |exits| <= OtherShares(first.procs, j, |first.procs|)
  {
    FirstCycle(s);
    var first := ShareTurn(s).next;
    RunsAreFair(first, [], exits, cycles, s', trace');
    forall j: nat | 1 <= j && IsRunnable(s'.procs, j) && j !in Given(first, exits)
      ensures |exits| <= OtherShares(first.procs, j, |first.procs|)
    {
      NobodyWaitsLong(first, [], exits, cycles, s', trace', j);
    }
  }

  // ----- equal shares

  /** Of two runnable processes with the same share, the one in the later slot is not the next one. */
  lemma LaterIsPassedOver(s: Sched, exits: bool, i: nat, j: nat)
    requires s.current < |s.procs| && s.current != j && 1 <= i < j
    requires IsRunnable(Charged(s, exits), i) && IsRunnable(s.procs, j) && s.procs[i].share == s.procs[j].share
    ensures var next := Quantum(s, exits).next;
      && next.current != j && IsRunnable(next.procs, j) && IsRunnable(s.procs, i)
      && next.procs[i].share == s.procs[i].share && next.procs[j].share == s.procs[j].share
  {
    QuantumIs(s, exits);
    var procs := Charged(s, exits);
    assert procs[i].state == Runnable && procs[i].share == procs[j].share;
    assert Reset(procs)[i].state == Runnable && Reset(procs)[i].share == Reset(procs)[j].share;
  }

  /** Two runnable processes with the same share: as long as the one in the earlier slot stays runnable, no run ever
      gives the other one a quantum, although it stays runnable too. */
  lemma {:induction false} EqualSharesStarve(s: Sched, trace: seq<nat>, exits: seq<bool>, cycles: seq<Cycle>,
                                             s': Sched, trace': seq<nat>, i: nat, j: nat)
    requires Runs(s, trace, exits, cycles, s', trace') && IsRunnable(s'.procs, i)
    requires 1 <= i < j && IsRunnable(s.procs, j) && s.current < |s.procs| && s.current != j && j !in trace
    requires IsRunnable(s.procs, i) && s.procs[i].share == s.procs[j].share
    ensures j !in trace' && s'.current != j && IsRunnable(s'.procs, j)
    ensures forall c :: c in cycles ==> j !in c.trace
    decreases |exits|
  {
    if exits != [] {
      RunnableAllAlong(s, trace, exits, cycles, s', trace', i);
      LaterIsPassedOver(s, exits[0], i, j);
      var t, more := Quantum(s, exits[0]), trace + [s.current];
      RunnableAllAlong(t.next, if t.reset then [] else more, exits[1..], if t.reset then cycles[1..] else cycles,
                       s', trace', i);
      if exits[1..] == [] {
      } else if t.reset {
        EqualSharesStarve(t.next, [], exits[1..], cycles[1..], s', trace', i, j);
        assert cycles == [cycles[0]] + cycles[1..];
      } else {
        EqualSharesStarve(t.next, more, exits[1..], cycles, s', trace', i, j);
      }
    }
  }

  /** So it is from the very start, unless the later one is the slot charged first. */
  lemma StarvedFromTheStart(s: Sched, exits: seq<bool>, cycles: seq<Cycle>, s': Sched, trace': seq<nat>, i: nat, j: nat)
    requires s.current < |s.procs| && s.current != j && 1 <= i < j
    requires IsRunnable(s.procs, i) && IsRunnable(s.procs, j)
    requires s.procs[i].share == s.procs[j].share
    requires Runs(ShareTurn(s).next, [], exits, cycles, s', trace') && IsRunnable(s'.procs, i)
    ensures j !in trace' && s'.current != j && IsRunnable(s'.procs, j)
    ensures forall c :: c in cycles ==> j !in c.trace
  {
    LaterIsPassedOver(s, false, i, j);
    RunnableAllAlong(ShareTurn(s).next, [], exits, cycles, s', trace', i);
    if exits != [] {
      EqualSharesStarve(ShareTurn(s).next, [], exits, cycles, s', trace', i, j);
    }
  }

  // Two processes with share 2, of which the first has 'count' quanta left.
  function Pair(count: int): Sched {
    Sched([Process(Empty, 0, 0, -1), Process(Runnable, 0, 2, count), Process(Runnable, 0, 2, 2)], 1)
  }

  function Quiet(n: nat): (exits: seq<bool>)
    ensures |exits| == n
  {
    if n == 0 then [] else [false] + Quiet(n - 1)
  }

  function Ones(n: nat): seq<nat> {
    if n == 0 then [] else Ones(n - 1) + [1]
  }

  lemma PairTurn(count: int)
    ensures Quantum(Pair(count), false) == Turn(false, Pair(count - 1))
  {
    var s := Pair(count);
    QuantumIs(s, false);
    var procs := Charged(s, false);
    assert procs == Pair(count - 1).procs;
    assert LargestWaiting(procs, 1) == -1;
    assert LargestWaiting(procs, 2) in {-1, 2};
    assert Waiting(procs[2]) && LargestWaiting(procs, 3) == Max(LargestWaiting(procs, 2), 2) == 2;
    assert WithShare(procs, 2, 1) == 1;
  }

  /** With two such processes the first one has every quantum of a cycle that never ends. */
  lemma {:induction false} PairNeverTurns(count: int, n: nat, trace: seq<nat>)
    ensures Runs(Pair(count), trace, Quiet(n), [], Pair(count - n), trace + Ones(n))
    decreases n
  {
    if n == 0 {
      assert trace + Ones(0) == trace;
    } else {
      PairTurn(count);
      assert IsRunnable(Charged(Pair(count), false), 1);
      PairNeverTurns(count - 1, n - 1, trace + [1]);
      OnesFirst(n - 1);
      assert trace + [1] + Ones(n - 1) == trace + Ones(n);
    }
  }

  lemma {:induction false} OnesFirst(n: nat)
    ensures [1] + Ones(n) == Ones(n + 1)
  {
    if n > 0 {
      OnesFirst(n - 1);
      assert [1] + Ones(n) == [1] + Ones(n - 1) + [1];
    }
  }
}
