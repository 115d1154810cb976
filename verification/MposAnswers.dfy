// What the system calls of MiniprocOS answer, register by register and slot by
// slot, and what becomes of an exit status on its way to the process that
// waits for it.
module MposAnswers {
  import opened Words
  import opened RoundRobin
  import opened MposCalls

  /** The pid_t in a register: two's complement. */
  function Signed(w: uint32): int {
    if w >= 0x8000_0000 then w - 0x1_0000_0000 else w
  }

  /** The call was to name a process; pid_t p in eax. */
  predicate Asks(reg: Registers, intno: uint32, p: int) {
    reg.intno == intno && Signed(reg.eax) == p
  }

  /** Slot j is the lowest one to be empty, slot 0 aside. */
  predicate Lowest(procs: seq<Process>, j: nat) {
    1 <= j < |procs| && procs[j].state == Empty && forall i :: 1 <= i < j ==> procs[i].state != Empty
  }

  predicate Full(procs: seq<Process>) {
    forall i :: 1 <= i < |procs| ==> procs[i].state != Empty
  }

  /** Who runs next: the nearest runnable process behind the one that ran; the kernel spins only if there is none. */
  ghost predicate NearestRuns(k: Kernel, k': Kernel, out: Outcome) {
    var n := |k'.procs|;
    && k.current < n && k'.current < n
    && (out == Idle || out == Running)
    && (out == Idle <==> forall q :: 0 <= q < n ==> k'.procs[q].state != Runnable)
    && (out == Running ==>
          && k'.procs[k'.current].state == Runnable
          && forall q :: 0 <= q < n && k'.procs[q].state == Runnable ==>
               Distance(n, k.current, k'.current) <= Distance(n, k.current, q))
  }

  lemma ScheduledNearest(k: Kernel)
    requires 1 <= k.current < |k.procs|
    ensures NearestRuns(k, Scheduled(k).0, Scheduled(k).1)
    ensures Scheduled(k).0.procs == k.procs && Scheduled(k).0.memory == k.memory
  {
    var ready, n := Ready(k.procs), |k.procs|;
    assert forall q :: 0 <= q < n ==> ready[q] == (k.procs[q].state == Runnable);
    ScanIsComplete(ready, k.current);
    forall q | 0 <= q < n && ready[q] ensures Scan(ready, k.current, n).Picked? &&
      Distance(n, k.current, Scan(ready, k.current, n).pid) <= Distance(n, k.current, q) {
      ScanPicksNearest(ready, k.current, n, q);
    }
  }

  /** Only the caller's slot changes: it has the registers of the call with this answer. */
  ghost predicate OnlyAnswers(k: Kernel, reg: Registers, k': Kernel, eax: uint32)
    requires k.current < |k.procs|
  {
    k' == k.(procs := k.procs[k.current := k.procs[k.current].(regs := reg.(eax := eax))])
  }

  /** getpid answers the process ID of the caller. */
  lemma GetpidAnswers(k: Kernel, reg: Registers)
    requires Shaped(k) && reg.intno == INT_SYS_GETPID
    ensures Handle(k, reg).1 == Running && OnlyAnswers(k, reg, Handle(k, reg).0, k.current)
  {
  }

  /** yield changes no slot; the caller's registers are kept for the next time. */
  lemma YieldKeeps(k: Kernel, reg: Registers)
    requires Shaped(k) && reg.intno == INT_SYS_YIELD
    ensures var (k', out) := Handle(k, reg);
      NearestRuns(k, k', out) && OnlyAnswers(k, reg, k'.(current := k.current), reg.eax)
  {
    ScheduledNearest(Saved(k, reg));
  }

  /** wait answers -1 for a process ID out of range, the caller's own, or that of an empty slot. */
  lemma WaitRefuses(k: Kernel, reg: Registers, p: int)
    requires Shaped(k) && Asks(reg, INT_SYS_WAIT, p)
    requires p <= 0 || p >= |k.procs| || p == k.current || k.procs[p].state == Empty
    ensures var (k', out) := Handle(k, reg);
      NearestRuns(k, k', out) && OnlyAnswers(k, reg, k'.(current := k.current), 0xffff_ffff)
  {
    ScheduledNearest(Waited(Saved(k, reg)));
  }

  /** wait for a zombie answers its status and empties its slot; nothing else changes. */
  lemma WaitReaps(k: Kernel, reg: Registers, p: int)
    requires Shaped(k) && Asks(reg, INT_SYS_WAIT, p)
    requires 1 <= p < |k.procs| && p != k.current && k.procs[p].state == Zombie
    requires -0x8000_0000 <= k.procs[p].exitStatus < 0x8000_0000
    ensures var (k', out) := Handle(k, reg);
      && NearestRuns(k, k', out) && k'.memory == k.memory && |k'.procs| == |k.procs|
      && var eax := k'.procs[k.current].regs.eax;
      && Signed(eax) == k.procs[p].exitStatus
      && k'.procs[k.current] == k.procs[k.current].(regs := reg.(eax := eax))
      && k'.procs[p] == k.procs[p].(state := Empty)
      && forall i :: 0 <= i < |k.procs| && i != p && i != k.current ==> k'.procs[i] == k.procs[i]
  {
    ScheduledNearest(Waited(Saved(k, reg)));
  }

  /** wait for a live process blocks the caller, which keeps the registers of the call. */
  lemma WaitBlocks(k: Kernel, reg: Registers, p: int)
    requires Shaped(k) && Asks(reg, INT_SYS_WAIT, p) && 1 <= p < |k.procs| && p != k.current
    requires k.procs[p].state == Runnable || k.procs[p].state == Blocked
    ensures var (k', out) := Handle(k, reg);
      && NearestRuns(k, k', out) && k'.memory == k.memory && |k'.procs| == |k.procs|
      && k'.procs[k.current] == k.procs[k.current].(regs := reg, state := Blocked, waitOn := p)
      && forall i :: 0 <= i < |k.procs| && i != k.current ==> k'.procs[i] == k.procs[i]
  {
    ScheduledNearest(Waited(Saved(k, reg)));
  }

  /** exit leaves a zombie with eax for its status. Those who wait for it can run again and have the status in eax;
      no other slot and no other register changes. */
  lemma ExitTells(k: Kernel, reg: Registers)
    requires KernelOk(k) && reg.intno == INT_SYS_EXIT
    ensures var (k', out) := Handle(k, reg);
      && NearestRuns(k, k', out) && k'.memory == k.memory && |k'.procs| == |k.procs|
      && k'.procs[k.current] == k.procs[k.current].(regs := reg, state := Zombie, exitStatus := Signed(reg.eax))
      && forall i :: 0 <= i < |k.procs| && i != k.current ==>
           k'.procs[i] == if WaitsFor(k.procs[i], k.current) then
               k.procs[i].(state := Runnable, regs := k.procs[i].regs.(eax := reg.eax))
             else k.procs[i]
  {
    ScheduledNearest(Exited(Saved(k, reg)));
  }

  /** kill answers -1 for a process ID out of range or an empty slot. */
  lemma KillRefuses(k: Kernel, reg: Registers, p: int)
    requires Shaped(k) && Asks(reg, INT_SYS_KILL, p) && (p < 1 || p >= |k.procs| || k.procs[p].state == Empty)
    ensures Handle(k, reg).1 == Running && OnlyAnswers(k, reg, Handle(k, reg).0, 0xffff_ffff)
  {
  }

  /** kill leaves a zombie with status 1, a zombie's own status overwritten, and answers 0. Those who wait for it can
      run again, with the registers they had; the caller runs on, even if it killed itself. */
  lemma KillEnds(k: Kernel, reg: Registers, p: int)
    requires KernelOk(k) && Asks(reg, INT_SYS_KILL, p) && 1 <= p < |k.procs| && k.procs[p].state != Empty
    ensures var (k', out) := Handle(k, reg);
      && out == Running && k'.current == k.current && k'.memory == k.memory && |k'.procs| == |k.procs|
      && k'.procs[p].state == Zombie && k'.procs[p].exitStatus == 1
      && k'.procs[k.current].regs == reg.(eax := 0)
      && (forall i :: 0 <= i < |k.procs| && i != k.current ==> k'.procs[i].regs == k.procs[i].regs)
      && (forall i :: 0 <= i < |k.procs| ==> k'.procs[i].waitOn == k.procs[i].waitOn)
      && forall i :: 0 <= i < |k.procs| && i != p ==>
           && k'.procs[i].exitStatus == k.procs[i].exitStatus
           && k'.procs[i].state == if WaitsFor(k.procs[i], p) then Runnable else k.procs[i].state
  {
  }

  /** mpos-app.h wants -1 for process 1 as well: the answer is the one documented if and only if another process is
      asked for or slot 1 is empty. */
  lemma KillAsDocumented(k: Kernel, reg: Registers, p: int)
    requires KernelOk(k) && Asks(reg, INT_SYS_KILL, p)
    ensures var documented: uint32 :=
        if p <= 1 || p >= |k.procs| || k.procs[p].state == Empty then 0xffff_ffff else 0;
      Handle(k, reg).0.procs[k.current].regs.eax == documented <==> p != 1 || k.procs[1].state == Empty
  {
    if p < 1 || p >= |k.procs| || k.procs[p].state == Empty {
      KillRefuses(k, reg, p);
    } else {
      KillEnds(k, reg, p);
    }
  }

  /** newthread makes a process in the lowest empty slot that starts at the address asked for, with 0 in eax and the
      caller's other registers, and answers the slot; with no slot left it answers -1. */
  lemma NewthreadAnswers(k: Kernel, reg: Registers, j: nat)
    requires KernelOk(k) && reg.intno == INT_SYS_NEWTHREAD
    ensures Handle(k, reg).1 == Running
    ensures Lowest(k.procs, j) ==>
      OnlyAnswers(k.(procs := k.procs[j := k.procs[j].(regs := reg.(eip := reg.eax, eax := 0), state := Runnable)]),
                  reg, Handle(k, reg).0, j)
    ensures Full(k.procs) ==> OnlyAnswers(k, reg, Handle(k, reg).0, 0xffff_ffff)
  {
    LowestFound(Saved(k, reg).procs, j);
  }

  // What the search from slot 1 on finds.
  lemma LowestFound(procs: seq<Process>, j: nat)
    requires |procs| >= 1
    ensures Lowest(procs, j) ==> FirstEmpty(procs, 1) == j
    ensures Full(procs) ==> FirstEmpty(procs, 1) == |procs|
  {
  }

  /** fork makes a process in the lowest empty slot that has the caller's registers but for its own stack pointer, and
      0 in eax, and answers the slot to the caller; with no slot left it answers -1. */
  lemma ForkAnswers(k: Kernel, reg: Registers, j: nat)
    requires KernelOk(k) && reg.intno == INT_SYS_FORK
    ensures Full(k.procs) ==> Handle(k, reg).1 == Running && OnlyAnswers(k, reg, Handle(k, reg).0, 0xffff_ffff)
    ensures var (k', out) := Handle(k, reg);
      Lowest(k.procs, j) ==>
        && (out == Running <==> CopySafe(j, k.current, reg.esp))
        && (out == Running ==>
              && |k'.procs| == |k.procs| && k'.current == k.current
              && k'.procs[j].state == Runnable && k'.procs[j].regs.eax == 0
              && k'.procs[j].regs == reg.(esp := k'.procs[j].regs.esp, eax := 0)
              && k'.procs[k.current] == k.procs[k.current].(regs := reg.(eax := j))
              && forall i :: 0 <= i < |k.procs| && i != j && i != k.current ==> k'.procs[i] == k.procs[i])
  {
    LowestFound(Saved(k, reg).procs, j);
    if Lowest(k.procs, j) && CopySafe(j, k.current, reg.esp) {
      ForkPlace(Saved(k, reg), j);
    }
  }

  // ----- the way of an exit status

  /** The step ends process p: p exits, or somebody kills it. */
  predicate Ends(k: Kernel, u: UserStep, p: nat) {
    (u.reg.intno == INT_SYS_EXIT && k.current == p) || Asks(u.reg, INT_SYS_KILL, p)
  }

  /** The run goes on from k through these steps, which end no process of 'unended' and do not wait for one of
      'unasked'. */
  ghost predicate RunsPast(k: Kernel, steps: seq<UserStep>, k': Kernel, unended: set<nat>, unasked: set<nat>)
    decreases |steps|
  {
    if steps == [] then k' == k
    else
      && Shaped(k) && |steps[0].memory| == |k.memory| && Turn(k, steps[0]).1 == Running
      && (forall p :: p in unended ==> !Ends(k, steps[0], p))
      && (forall p :: p in unasked ==> !Asks(steps[0].reg, INT_SYS_WAIT, p))
      && RunsPast(Turn(k, steps[0]).0, steps[1..], k', unended, unasked)
  }

  /** p has exited with this in eax. */
  ghost predicate HasStatus(k: Kernel, p: nat, eax: uint32) {
    p < |k.procs| && p != k.current && k.procs[p].state == Zombie && k.procs[p].exitStatus == Signed(eax)
  }

  /** p is blocked in a call of wait, made with these registers. */
  ghost predicate Awaits(k: Kernel, p: nat, q: nat, reg: Registers) {
    1 <= p < |k.procs| && p != k.current && WaitsFor(k.procs[p], q) && k.procs[p].regs == reg
  }

  lemma SlotChoice(procs: seq<Process>) returns (j: nat)
    requires |procs| >= 1
    ensures Lowest(procs, j) || Full(procs)
  {
    j := FirstEmpty(procs, 1);
  }

  lemma ForkKeeps(k: Kernel, reg: Registers, p: nat)
    requires KernelOk(k) && p < |k.procs| && p != k.current && k.procs[p].state != Empty
    requires reg.intno == INT_SYS_FORK && Handle(k, reg).1 == Running
    ensures Handle(k, reg).0.procs[p] == k.procs[p] && Handle(k, reg).0.current == k.current
  {
    var j := SlotChoice(k.procs);
    ForkAnswers(k, reg, j);
  }

  lemma NewthreadKeeps(k: Kernel, reg: Registers, p: nat)
    requires KernelOk(k) && p < |k.procs| && p != k.current && k.procs[p].state != Empty
    requires reg.intno == INT_SYS_NEWTHREAD
    ensures Handle(k, reg).0.procs[p] == k.procs[p] && Handle(k, reg).0.current == k.current
  {
    var j := SlotChoice(k.procs);
    NewthreadAnswers(k, reg, j);
  }

  lemma WaitKeeps(k: Kernel, reg: Registers, p: nat)
    requires KernelOk(k) && p < |k.procs| && p != k.current && reg.intno == INT_SYS_WAIT && Signed(reg.eax) != p
    ensures var (k', out) := Handle(k, reg);
      |k'.procs| == |k.procs| && k'.procs[p] == k.procs[p] && NearestRuns(k, k', out)
  {
    ScheduledNearest(Waited(Saved(k, reg)));
  }

  lemma KillKeeps(k: Kernel, reg: Registers, p: nat)
    requires KernelOk(k) && p < |k.procs| && p != k.current && reg.intno == INT_SYS_KILL
    requires Signed(reg.eax) != p && !WaitsFor(k.procs[p], Signed(reg.eax))
    ensures Handle(k, reg).0.procs[p] == k.procs[p] && Handle(k, reg).0.current == k.current
  {
    var q := Signed(reg.eax);
    if q < 1 || q >= |k.procs| || k.procs[q].state == Empty {
      KillRefuses(k, reg, q);
    } else {
      KillEnds(k, reg, q);
    }
  }

  /** Where a slot that is not the caller's can change at all. */
  lemma OthersKept(k: Kernel, reg: Registers, p: nat)
    requires KernelOk(k) && p < |k.procs| && p != k.current && k.procs[p].state != Empty
    requires Handle(k, reg).1 == Running
    requires !Asks(reg, INT_SYS_KILL, p) && !Asks(reg, INT_SYS_WAIT, p)
    requires !(reg.intno == INT_SYS_EXIT && WaitsFor(k.procs[p], k.current))
    requires reg.intno == INT_SYS_KILL ==> !WaitsFor(k.procs[p], Signed(reg.eax))
    ensures var k' := Handle(k, reg).0;
      && KernelOk(k') && |k'.procs| == |k.procs| && k'.procs[p] == k.procs[p]
      && (k.procs[p].state != Runnable ==> k'.current != p)
  {
    HandleOk(k, reg);
    if reg.intno == INT_SYS_GETPID {
      GetpidAnswers(k, reg);
    } else if reg.intno == INT_SYS_FORK {
      ForkKeeps(k, reg, p);
    } else if reg.intno == INT_SYS_YIELD {
      YieldKeeps(k, reg);
    } else if reg.intno == INT_SYS_EXIT {
      ExitTells(k, reg);
    } else if reg.intno == INT_SYS_WAIT {
      WaitKeeps(k, reg, p);
    } else if reg.intno == INT_SYS_KILL {
      KillKeeps(k, reg, p);
    } else if reg.intno == INT_SYS_NEWTHREAD {
      NewthreadKeeps(k, reg, p);
    }
  }

  /** The status stays in the slot for as long as nobody waits for the zombie or kills it, whatever else goes on. */
  lemma {:induction false} StatusStays(k: Kernel, steps: seq<UserStep>, k': Kernel, p: nat, eax: uint32)
    requires KernelOk(k) && HasStatus(k, p, eax) && RunsPast(k, steps, k', {p}, {p})
    ensures KernelOk(k') && HasStatus(k', p, eax)
    decreases |steps|
  {
    if steps != [] {
      OthersKept(k.(memory := steps[0].memory), steps[0].reg, p);
      StatusStays(Turn(k, steps[0]).0, steps[1..], k', p, eax);
    }
  }

  /** A waiter stays as it is for as long as neither it nor the process it waits for is ended. */
  lemma {:induction false} WaiterStays(k: Kernel, steps: seq<UserStep>, k': Kernel, p: nat, q: nat, reg: Registers)
    requires KernelOk(k) && Awaits(k, p, q, reg) && RunsPast(k, steps, k', {p, q}, {})
    ensures KernelOk(k') && Awaits(k', p, q, reg) && |k'.procs| == |k.procs|
    decreases |steps|
  {
    if steps != [] {
      var u := steps[0];
      assert !Ends(k, u, p) && !Ends(k, u, q);
      if Asks(u.reg, INT_SYS_WAIT, p) {
        WaitBlocksOn(k.(memory := u.memory), u.reg, p);
      } else {
        OthersKept(k.(memory := u.memory), u.reg, p);
      }
      WaiterStays(Turn(k, u).0, steps[1..], k', p, q, reg);
    }
  }

  // To wait for a waiter is to block.
  lemma WaitBlocksOn(k: Kernel, reg: Registers, p: nat)
    requires KernelOk(k) && Asks(reg, INT_SYS_WAIT, p) && 1 <= p < |k.procs| && p != k.current
    requires k.procs[p].state == Blocked && Handle(k, reg).1 == Running
    ensures var k' := Handle(k, reg).0;
      KernelOk(k') && |k'.procs| == |k.procs| && k'.procs[p] == k.procs[p] && k'.current != p
  {
    HandleOk(k, reg);
    WaitBlocks(k, reg, p);
  }

  /** A wait that comes after the exit: the process exits with this eax, any run follows that does not wait for it or
      kill it, and the wait answers this eax and empties the slot. */
  lemma ExitThenWait(k: Kernel, exit: UserStep, steps: seq<UserStep>, k2: Kernel, wait: UserStep)
    requires KernelOk(k) && |exit.memory| == |k.memory| && exit.reg.intno == INT_SYS_EXIT && Turn(k, exit).1 == Running
    requires RunsPast(Turn(k, exit).0, steps, k2, {k.current}, {k.current})
    requires |wait.memory| == |k2.memory| && Asks(wait.reg, INT_SYS_WAIT, k.current)
    ensures KernelOk(k2) && k.current < |k2.procs| && k.current != k2.current
    ensures var k3 := Turn(k2, wait).0;
      && |k3.procs| == |k2.procs| && k3.procs[k2.current].regs == wait.reg.(eax := exit.reg.eax)
      && k3.procs[k.current].state == Empty
  {
    var k0, p := k.(memory := exit.memory), k.current;
    HandleOk(k0, exit.reg);
    ExitTells(k0, exit.reg);
    StatusStays(Turn(k, exit).0, steps, k2, p, exit.reg.eax);
    WaitReaps(k2.(memory := wait.memory), wait.reg, p);
  }

  /** A wait that comes before the exit: the caller blocks, any run follows that ends neither of the two, and the exit
      wakes the caller with the exit's eax as its answer. */
  lemma WaitThenExit(k: Kernel, wait: UserStep, p: nat, steps: seq<UserStep>, k2: Kernel, exit: UserStep)
    requires KernelOk(k) && |wait.memory| == |k.memory| && Asks(wait.reg, INT_SYS_WAIT, p) && Turn(k, wait).1 == Running
    requires 1 <= p < |k.procs| && p != k.current && (k.procs[p].state == Runnable || k.procs[p].state == Blocked)
    requires RunsPast(Turn(k, wait).0, steps, k2, {k.current, p}, {})
    requires |exit.memory| == |k2.memory| && exit.reg.intno == INT_SYS_EXIT && k2.current == p
    ensures KernelOk(k2)
    ensures var k3 := Turn(k2, exit).0;
      && |k3.procs| == |k.procs| && k3.procs[k.current].state == Runnable
      && k3.procs[k.current].regs == wait.reg.(eax := exit.reg.eax)
  {
    Waiting(k, wait, p, steps, k2);
    ExitTells(k2.(memory := exit.memory), exit.reg);
  }

  /** A wait that a kill ends gets no status: its answer is the process ID that it asked for. */
  lemma WaitThenKill(k: Kernel, wait: UserStep, p: nat, steps: seq<UserStep>, k2: Kernel, kill: UserStep)
    requires KernelOk(k) && |wait.memory| == |k.memory| && Asks(wait.reg, INT_SYS_WAIT, p) && Turn(k, wait).1 == Running
    requires 1 <= p < |k.procs| && p != k.current && (k.procs[p].state == Runnable || k.procs[p].state == Blocked)
    requires RunsPast(Turn(k, wait).0, steps, k2, {k.current, p}, {})
    requires |kill.memory| == |k2.memory| && Asks(kill.reg, INT_SYS_KILL, p)
    ensures KernelOk(k2)
    ensures var k3 := Turn(k2, kill).0;
      && |k3.procs| == |k.procs| && k3.procs[k.current].state == Runnable
      && k3.procs[k.current].regs == wait.reg && k3.procs[k.current].regs.eax == p
  {
    Waiting(k, wait, p, steps, k2);
    WaitsForLive(k2.procs, k.current, p);
    KillEnds(k2.(memory := kill.memory), kill.reg, p);
  }

  lemma Waiting(k: Kernel, wait: UserStep, p: nat, steps: seq<UserStep>, k2: Kernel)
    requires KernelOk(k) && |wait.memory| == |k.memory| && Asks(wait.reg, INT_SYS_WAIT, p) && Turn(k, wait).1 == Running
    requires 1 <= p < |k.procs| && p != k.current && (k.procs[p].state == Runnable || k.procs[p].state == Blocked)
    requires RunsPast(Turn(k, wait).0, steps, k2, {k.current, p}, {})
    ensures KernelOk(k2) && Awaits(k2, k.current, p, wait.reg) && |k2.procs| == |k.procs|
  {
    var k0 := k.(memory := wait.memory);
    HandleOk(k0, wait.reg);
    WaitBlocks(k0, wait.reg, p);
    WaiterStays(Turn(k, wait).0, steps, k2, k.current, p, wait.reg);
  }

  // ----- how often a status is given out

  /** All waiters are told the status at the exit, and the zombie is left for one wait more. Only one process is told if
      and only if no other one was waiting. */
  lemma AllWaitersTold(k: Kernel, reg: Registers, i: nat)
    requires KernelOk(k) && reg.intno == INT_SYS_EXIT && i < |k.procs| && WaitsFor(k.procs[i], k.current)
    ensures var k' := Handle(k, reg).0;
      && |k'.procs| == |k.procs| && k'.procs[k.current].state == Zombie
      && ((forall j :: 0 <= j < |k.procs| && j != i && j != k.current ==> k'.procs[j] == k.procs[j]) <==>
          forall j :: 0 <= j < |k.procs| && WaitsFor(k.procs[j], k.current) ==> j == i)
  {
    ExitTells(k, reg);
    forall j | 0 <= j < |k.procs| && WaitsFor(k.procs[j], k.current)
      ensures j != k.current && Handle(k, reg).0.procs[j] != k.procs[j]
    {
      assert Handle(k, reg).0.procs[j].state == Runnable;
    }
  }

  // The first processes are in these states, and there are no others.
  ghost predicate Trio(k: Kernel, current: nat, a: ProcState, b: ProcState, c: ProcState) {
    && KernelOk(k) && |k.procs| >= 4 && k.current == current
    && k.procs[1].state == a && k.procs[2].state == b && k.procs[3].state == c
    && forall i :: 4 <= i < |k.procs| ==> k.procs[i].state == Empty
  }

  function Request(k: Kernel, intno: uint32, eax: uint32): UserStep {
    UserStep(Registers(eax, 0, 0, intno, []), k.memory)
  }

  lemma MakeThread(k: Kernel, j: nat, b: ProcState) returns (u: UserStep, k': Kernel)
    requires 2 <= j <= 3 && Trio(k, 1, Runnable, b, Empty) && b == if j == 2 then Empty else Runnable
    ensures |u.memory| == |k.memory| && Turn(k, u) == (k', Running) && |k'.memory| == |k.memory|
    ensures Trio(k', 1, Runnable, Runnable, if j == 2 then Empty else Runnable)
  {
    u := Request(k, INT_SYS_NEWTHREAD, 0);
    HandleOk(k, u.reg);
    NewthreadAnswers(k, u.reg, j);
    k' := Handle(k, u.reg).0;
  }

  lemma WaitForThird(k: Kernel, i: nat) returns (u: UserStep, k': Kernel)
    requires 1 <= i <= 2 && Trio(k, i, if i == 1 then Runnable else Blocked, Runnable, Runnable)
    ensures |u.memory| == |k.memory| && Turn(k, u) == (k', Running) && |k'.memory| == |k.memory|
    ensures Trio(k', i + 1, Blocked, if i == 1 then Runnable else Blocked, Runnable)
    ensures k'.procs[i].waitOn == 3 && (i == 2 ==> k'.procs[1] == k.procs[1])
  {
    u := Request(k, INT_SYS_WAIT, 3);
    HandleOk(k, u.reg);
    WaitBlocks(k, u.reg, 3);
    k' := Handle(k, u.reg).0;
    assert k'.procs[i + 1].state == Runnable;
    assert Distance(|k.procs|, i, i + 1) == 1;
  }

  lemma ThirdExits(k: Kernel, status: uint32) returns (u: UserStep, k': Kernel)
    requires Trio(k, 3, Blocked, Blocked, Runnable) && k.procs[1].waitOn == 3 && k.procs[2].waitOn == 3
    ensures |u.memory| == |k.memory| && Turn(k, u) == (k', Running)
    ensures Trio(k', 1, Runnable, Runnable, Zombie) && k'.procs[3].exitStatus == Signed(status)
    ensures k'.procs[1].regs.eax == status && k'.procs[2].regs.eax == status
  {
    u := Request(k, INT_SYS_EXIT, status);
    HandleOk(k, u.reg);
    ExitTells(k, u.reg);
    k' := Handle(k, u.reg).0;
    assert k'.procs[1].state == Runnable;
    assert Distance(|k.procs|, 3, 1) == |k.procs| - 2 && Distance(|k.procs|, 3, 2) == |k.procs| - 1;
  }

  lemma Prepend(k: Kernel, u: UserStep, mid: Kernel, steps: seq<UserStep>, k': Kernel)
    requires Shaped(k) && |u.memory| == |k.memory| && Turn(k, u) == (mid, Running) && RunsAny(mid, steps, k')
    ensures RunsAny(k, [u] + steps, k')
  {
    assert ([u] + steps)[1..] == steps;
  }

  /** A run from the start: two processes wait for a third one, it exits, both get its status, and one of them gets it a
      second time when it waits again. */
  lemma StatusThrice(k: Kernel, status: uint32) returns (steps: seq<UserStep>, k': Kernel)
    requires Booted(k) && |k.procs| >= 4
    ensures RunsAny(k, steps, k') && KernelOk(k') && |k'.procs| >= 4 && k'.current == 1
    ensures k'.procs[1].regs.eax == status && k'.procs[2].regs.eax == status
    ensures var k2 := Turn(k', Request(k', INT_SYS_WAIT, 3)).0;
      |k2.procs| >= 4 && k2.procs[1].regs.eax == status && k2.procs[3].state == Empty
  {
    StartOk(k);
    var u1, k1 := MakeThread(k, 2, Empty);
    var u2, k2 := MakeThread(k1, 3, Runnable);
    var u3, k3 := WaitForThird(k2, 1);
    var u4, k4 := WaitForThird(k3, 2);
    var u5, k5 := ThirdExits(k4, status);
    assert RunsAny(k5, [], k5);
    Prepend(k4, u5, k5, [], k5);
    Prepend(k3, u4, k4, [u5] + [], k5);
    Prepend(k2, u3, k3, [u4] + ([u5] + []), k5);
    Prepend(k1, u2, k2, [u3] + ([u4] + ([u5] + [])), k5);
    Prepend(k, u1, k1, [u2] + ([u3] + ([u4] + ([u5] + []))), k5);
    steps, k' := [u1] + ([u2] + ([u3] + ([u4] + ([u5] + [])))), k5;
    WaitReaps(k5, Request(k5, INT_SYS_WAIT, 3).reg, 3);
  }
}
