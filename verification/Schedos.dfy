// The SchedOS kernel's schedule() and the state changes of its interrupts, on
// the process table in place.
module Schedos {
  import opened RoundRobin
  import opened Schedules

  class Machine {
    const procs: array<Process>
    var current: nat

    ghost function Now(): Sched
      reads this, procs
    {
      Sched(procs[..], current)
    }

    constructor (procs: array<Process>, current: nat)
      ensures this.procs == procs && this.current == current
    {
      this.procs, this.current := procs, current;
    }

    /** Algorithm 0. False stands for spinning for ever. */
    method RoundRobin() returns (found: bool)
      requires current < procs.Length
      modifies this
      ensures Scan(Ready(procs[..]), old(current), procs.Length) == if found then Picked(current) else NoneReady
    {
      ghost var ready := Ready(procs[..]);
      var pid: nat, tries: nat := current, procs.Length;
      while tries > 0
        invariant pid < procs.Length && current == old(current)
        invariant Scan(ready, current, procs.Length) == Scan(ready, pid, tries)
      {
        pid := (pid + 1) % procs.Length;
        if procs[pid].state == Runnable {
          current := pid;
          return true;
        }
        tries := tries - 1;
      }
      return false;
    }

    /** Algorithm 4A: the next one of those with the top priority. */
    method Priority() returns (found: bool)
      requires current < procs.Length
      modifies this
      ensures Scan(InTopClass(procs[..]), old(current), procs.Length) == if found then Picked(current) else NoneReady
    {
      var topPriority, j := 0, 1;
      while j < procs.Length
        invariant 1 <= j <= procs.Length && current == old(current)
        invariant topPriority == TopPriority(procs[..], j)
      {
        if procs[j].state == Runnable {
          topPriority := if topPriority >= procs[j].priority then topPriority else procs[j].priority;
        }
        j := j + 1;
      }
      ghost var ready := InTopClass(procs[..]);
      var pid: nat, tries: nat := current, procs.Length;
      while tries > 0
        invariant pid < procs.Length && current == old(current)
        invariant Scan(ready, current, procs.Length) == Scan(ready, pid, tries)
      {
        pid := (pid + 1) % procs.Length;
        if procs[pid].state == Runnable && procs[pid].priority == topPriority {
          current := pid;
          return true;
        }
        tries := tries - 1;
      }
      return false;
    }

    /** INT_SYS_PRIORITY under algorithm 4A: the new priority counts at once. */
    method SetPriority(priority: int) returns (found: bool)
      requires current < procs.Length
      modifies this, procs
      ensures procs[..] == old(procs[..])[old(current) := old(procs[current]).(priority := priority)]
      ensures Scan(InTopClass(procs[..]), old(current), procs.Length) == if found then Picked(current) else NoneReady
    {
      procs[current] := procs[current].(priority := priority);
      found := Priority();
    }

    // The first loop of algorithm 4B.
    method FindLargest() returns (largest: int)
      requires procs.Length >= 1
      ensures largest == LargestWaiting(procs[..], procs.Length)
    {
      largest := -1;
      var j := 1;
      while j < procs.Length
        invariant 1 <= j <= procs.Length && largest == LargestWaiting(procs[..], j)
      {
        if procs[j].state == Runnable && (procs[j].count > 1 || (procs[j].share == 1 && procs[j].count == 1)) {
          largest := if largest >= procs[j].share then largest else procs[j].share;
        }
        j := j + 1;
      }
    }

    // The second loop: all counts back to the shares.
    method ResetCounts() returns (largest: int)
      requires procs.Length >= 1
      modifies procs
      ensures procs[..] == Reset(old(procs[..])) && largest == LargestRunnable(procs[..], procs.Length)
    {
      ghost var was := procs[..];
      largest := -1;
      var j := 1;
      while j < procs.Length
        invariant 1 <= j <= procs.Length && largest == LargestRunnable(Reset(was), j)
        invariant forall i :: 0 <= i < j ==> procs[i] == Reset(was)[i]
        invariant forall i :: j <= i < procs.Length ==> procs[i] == was[i]
      {
        if procs[j].state == Runnable {
          procs[j] := procs[j].(count := procs[j].share);
          largest := if largest >= procs[j].share then largest else procs[j].share;
        }
        j := j + 1;
      }
      assert procs[..] == Reset(was);
    }

    // The third loop: the process with that share.
    method FindShare(share: int) returns (j: nat)
      requires procs.Length >= 1
      ensures j == WithShare(procs[..], share, 1)
    {
      j := 1;
      while j < procs.Length
        invariant 1 <= j <= procs.Length && WithShare(procs[..], share, 1) == WithShare(procs[..], share, j)
      {
        if procs[j].state == Runnable && procs[j].share == share {
          break;
        }
        j := j + 1;
      }
    }

    /** Algorithm 4B. */
    method ProportionalShare() returns (ghost reset: bool)
      requires current < procs.Length
      modifies this, procs
      ensures Turn(reset, Now()) == ShareTurn(old(Now()))
    {
      reset := false;
      procs[current] := procs[current].(count := procs[current].count - 1);
      if procs[current].state == Runnable && procs[current].count > 0 {
        return;
      }
      var largest := FindLargest();
      if largest == -1 {
        largest := ResetCounts();
        reset := true;
      }
      current := FindShare(largest);
    }

    /** INT_SYS_EXIT and INT_CLOCK or INT_SYS_YIELD under algorithm 4B. */
    method EndQuantum(exits: bool) returns (ghost reset: bool)
      requires current < procs.Length
      modifies this, procs
      ensures Turn(reset, Now()) == Quantum(old(Now()), exits)
    {
      if exits {
        procs[current] := procs[current].(state := Zombie);
      }
      reset := ProportionalShare();
    }
  }
}
