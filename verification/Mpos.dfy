// The MiniprocOS kernel: interrupt, do_fork, copy_stack, create_thread and
// schedule, working on the process table and on memory in place.
module Mpos {
  import opened Words
  import opened RoundRobin
  import opened MposCalls

  class Machine {
    const procs: array<Process>
    const memory: array<byte>
    var current: nat

    ghost function Now(): Kernel
      reads this, procs, memory
    {
      Kernel(procs[..], current, memory[..])
    }

    constructor (procs: array<Process>, memory: array<byte>, current: nat)
      ensures this.procs == procs && this.memory == memory && this.current == current
    {
      this.procs, this.memory, this.current := procs, memory, current;
    }

    /** schedule: runs the next runnable process; false stands for spinning for ever. */
    method Schedule() returns (found: bool)
      requires current < procs.Length
      modifies this
      ensures (Now(), if found then Running else Idle) == Scheduled(old(Now()))
    {
      ghost var ready := Ready(procs[..]);
      var pid: nat, tries: nat := current, procs.Length;
      while tries > 0
        invariant pid < procs.Length && current == old(current)
        invariant Scan(ready, current, procs.Length) == Scan(ready, pid, tries)
      {
        pid := (pid + 1) % procs.Length;
        if procs[pid].state == Runnable {
          current := pid;
          return true;
        }
        tries := tries - 1;
      }
      // After one round nothing has changed, and nothing will.
      return false;
    }

    // The search of do_fork and create_thread for an empty slot.
    method FindEmpty() returns (j: nat)
      requires procs.Length >= 1
      ensures j == FirstEmpty(procs[..], 1)
    {
      j := 1;
      while j != procs.Length
        invariant 1 <= j <= procs.Length && FirstEmpty(procs[..], 1) == FirstEmpty(procs[..], j)
      {
        if procs[j].state == Empty {
          return;
        }
        j := j + 1;
      }
    }

    // memcpy, of the kernel's own library: byte by byte, upwards.
    method CopyBytes(dest: nat, src: nat, n: nat)
      requires src + n <= memory.Length && dest + n <= memory.Length
      modifies memory
      ensures memory[..] == Copied(old(memory[..]), dest, src, n)
    {
      var i := 0;
      while i < n
        invariant i <= n && memory[..] == Copied(old(memory[..]), dest, src, i)
      {
        memory[dest + i] := memory[src + i];
        i := i + 1;
      }
    }

    /** copy_stack: memcpy from the parent's stack, and the child's stack pointer. */
    method CopyStack(dest: nat, src: nat)
      requires 1 <= dest < procs.Length && 1 <= src < procs.Length && procs.Length <= MAXPROCS
      requires CopySafe(dest, src, procs[src].regs.esp)
      requires StackTop(src) <= memory.Length && StackTop(dest) <= memory.Length
      modifies procs, memory
      ensures var bottom := StackTop(dest) - (StackTop(src) - old(procs[src].regs.esp));
        && procs[dest] == old(procs[dest]).(regs := old(procs[dest]).regs.(esp := ToWord(bottom)))
        && memory[..] == Copied(old(memory[..]), bottom, old(procs[src].regs.esp), StackTop(dest) - bottom)
      ensures forall p :: 0 <= p < procs.Length && p != dest ==> procs[p] == old(procs[p])
    {
      var srcTop := PROC1_STACK_ADDR + PROC_STACK_SIZE * src;
      var srcBottom := procs[src].regs.esp;
      var destTop := PROC1_STACK_ADDR + PROC_STACK_SIZE * dest;
      var offset := Sub32(srcTop, srcBottom);
      var destBottom := Sub32(destTop, offset);
      CopyBytes(destBottom, srcBottom, offset);
      assert destBottom == StackTop(dest) - (StackTop(src) - srcBottom) == ToWord(destBottom);
      procs[dest] := procs[dest].(regs := procs[dest].regs.(esp := destBottom));
    }

    // The part of do_fork after the search: slot j becomes the child.
    method FillChild(j: nat)
      requires Shaped(Now()) && 1 <= j < procs.Length && j != current
      requires CopySafe(j, current, procs[current].regs.esp)
      requires StackTop(j) <= memory.Length && StackTop(current) <= memory.Length
      modifies procs, memory
      ensures Now() == Forked(old(Now()), j)
    {
      ghost var k := Now();
      procs[j] := procs[j].(regs := procs[current].regs);
      CopyStack(j, current);
      procs[j] := procs[j].(regs := procs[j].regs.(eax := 0));
      procs[j] := procs[j].(state := Runnable);
      assert procs[..] == Forked(k, j).procs;
    }

    /** do_fork; false when copy_stack is about to leave the memory of applications. */
    method DoFork() returns (pid: int, tame: bool)
      requires Shaped(Now()) && procs[current].state != Empty
      modifies procs, memory
      ensures var j := FirstEmpty(old(procs[..]), 1);
        && (tame <==> j < procs.Length ==> CopySafe(j, current, old(procs[current].regs.esp)))
        && (tame ==> if j < procs.Length then pid == j && Now() == Forked(old(Now()), j)
                     else pid == -1 && Now() == old(Now()))
        && (!tame ==> Now() == old(Now()))
    {
      var j := FindEmpty();
      if j == procs.Length {
        return -1, true;
      }
      if !CopySafe(j, current, procs[current].regs.esp) {
        return j, false;
      }
      FillChild(j);
      return j, true;
    }

    /** create_thread */
    method CreateThread(start: uint32) returns (pid: int)
      requires Shaped(Now()) && procs[current].state != Empty
      modifies procs
      ensures var j := FirstEmpty(old(procs[..]), 1);
        if j < procs.Length then pid == j && Now() == Threaded(old(Now()), j, start)
        else pid == -1 && Now() == old(Now())
    {
      var j := FindEmpty();
      if j == procs.Length {
        return -1;
      }
      procs[j] := procs[j].(regs := procs[current].regs);
      procs[j] := procs[j].(regs := procs[j].regs.(eip := start));
      procs[j] := procs[j].(regs := procs[j].regs.(eax := 0));
      procs[j] := procs[j].(state := Runnable);
      assert Now() == Threaded(old(Now()), j, start);
      return j;
    }

    // The loops of exit and kill over those who wait; only exit passes on a status.
    method Wake(pid: int, passStatus: bool, status: int)
      requires procs.Length >= 1
      modifies procs
      ensures procs[..] == if passStatus then WokenByExit(old(procs[..]), pid, status)
                           else WokenByKill(old(procs[..]), pid)
    {
      ghost var was := procs[..];
      var p := 1;
      while p != procs.Length
        invariant 1 <= p <= procs.Length
        invariant forall i :: p <= i < procs.Length ==> procs[i] == was[i]
        invariant forall i :: 0 <= i < p ==>
          procs[i] == if passStatus then WokenByExit(was, pid, status)[i] else WokenByKill(was, pid)[i]
      {
        if procs[p].state == Blocked && procs[p].waitOn == pid {
          procs[p] := procs[p].(state := Runnable);
          if passStatus {
            procs[p] := procs[p].(regs := procs[p].regs.(eax := ToWord(status)));
          }
        }
        p := p + 1;
      }
    }

    method SetEax(eax: int)
      requires current < procs.Length
      modifies procs
      ensures Now() == Answer(old(Now()), eax)
    {
      procs[current] := procs[current].(regs := procs[current].regs.(eax := ToWord(eax)));
    }

    // INT_SYS_EXIT, up to the call of schedule.
    method Exit()
      requires 1 <= current < procs.Length
      modifies procs
      ensures Now() == Exited(old(Now()))
    {
      procs[current] := procs[current].(state := Zombie);
      procs[current] := procs[current].(exitStatus := ToPid(procs[current].regs.eax));
      Wake(current, true, procs[current].exitStatus);
    }

    // INT_SYS_WAIT, up to the call of schedule.
    method Wait()
      requires 1 <= current < procs.Length
      modifies procs
      ensures Now() == Waited(old(Now()))
    {
      var p := ToPid(procs[current].regs.eax);
      if p <= 0 || p >= procs.Length || p == current || procs[p].state == Empty {
        SetEax(-1);
      } else if procs[p].state == Zombie {
        SetEax(procs[p].exitStatus);
        procs[p] := procs[p].(state := Empty);
      } else {
        procs[current] := procs[current].(state := Blocked);
        procs[current] := procs[current].(waitOn := p);
      }
    }

    // INT_SYS_KILL.
    method Kill()
      requires 1 <= current < procs.Length
      modifies procs
      ensures Now() == Killed(old(Now()))
    {
      var pid := ToPid(procs[current].regs.eax);
      if pid < 1 || pid >= procs.Length || procs[pid].state == Empty {
        SetEax(-1);
      } else {
        procs[pid] := procs[pid].(state := Zombie);
        Wake(pid, false, 0);
        procs[pid] := procs[pid].(exitStatus := 1);
        SetEax(0);
      }
    }

    /** interrupt: saves the registers and does the system call. */
    method Interrupt(reg: Registers) returns (out: Outcome)
      requires KernelOk(Now())
      modifies this, procs, memory
      ensures (Now(), out) == Handle(old(Now()), reg)
    {
      procs[current] := procs[current].(regs := reg);
      assert Now() == Saved(old(Now()), reg);
      var found, pid;
      out := Running;
      if reg.intno == INT_SYS_GETPID {
        SetEax(current);
      } else if reg.intno == INT_SYS_FORK {
        pid, found := DoFork();
        if !found {
          return Wild;
        }
        SetEax(pid);
      } else if reg.intno == INT_SYS_YIELD {
        found := Schedule();
        out := if found then Running else Idle;
      } else if reg.intno == INT_SYS_EXIT {
        Exit();
        found := Schedule();
        out := if found then Running else Idle;
      } else if reg.intno == INT_SYS_WAIT {
        Wait();
        found := Schedule();
        out := if found then Running else Idle;
      } else if reg.intno == INT_SYS_KILL {
        Kill();
      } else if reg.intno == INT_SYS_NEWTHREAD {
        pid := CreateThread(procs[current].regs.eax);
        SetEax(pid);
      } else {
        out := Stuck;
      }
    }
  }
}
