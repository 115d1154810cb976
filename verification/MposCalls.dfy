// The MiniprocOS kernel as a state machine: what each system call does to the
// process table and to memory, and what every run of system calls keeps.
module MposCalls {
  import opened Words
  import opened RoundRobin

  const INT_SYS_GETPID: uint32 := 48
  const INT_SYS_FORK: uint32 := 49
  const INT_SYS_YIELD: uint32 := 50
  const INT_SYS_EXIT: uint32 := 51
  const INT_SYS_WAIT: uint32 := 52
  const INT_SYS_KILL: uint32 := 53
  const INT_SYS_NEWTHREAD: uint32 := 54

  // The kernel and its stack are below this address, the applications and the stacks of processes above.
  const USER_START := 0x200000
  const PROC1_STACK_ADDR := 0x280000
  const PROC_STACK_SIZE := 0x040000

  // The kernel has 16 slots; any number with room for the stacks below 2^32 will do here.
  const MAXPROCS := 16000

  datatype ProcState = Empty | Runnable | Blocked | Zombie

  // 'others' are the registers that the kernel saves and restores but does not look at.
  datatype Registers = Registers(eax: uint32, esp: uint32, eip: uint32, intno: uint32, others: seq<uint32>)

  // The process ID is the index in the table.
  datatype Process = Process(regs: Registers, state: ProcState, exitStatus: int, waitOn: int)

  datatype Kernel = Kernel(procs: seq<Process>, current: nat, memory: seq<byte>)

  // After an interrupt a process runs, or the kernel spins with nothing to run, or it got an unknown interrupt, or a
  // fork is about to copy past the memory of the applications.
  datatype Outcome = Running | Idle | Stuck | Wild

  /** An unsigned word in a pid_t. */
  function ToPid(w: uint32): int {
    if w < 0x8000_0000 then w else w - TWO32
  }

  function ToWord(i: int): uint32 {
    if 0 <= i < TWO32 then i else i % TWO32
  }

  /** The end of the stack of process pid; it starts PROC_STACK_SIZE below. */
  function StackTop(pid: nat): nat {
    PROC1_STACK_ADDR + PROC_STACK_SIZE * pid
  }

  predicate InStack(pid: nat, esp: nat) {
    StackTop(pid) - PROC_STACK_SIZE <= esp <= StackTop(pid)
  }

  /** copy_stack from process src to process dest keeps to the memory of applications: its offset does not wrap, and the
      copy does not start in the kernel. */
  predicate CopySafe(dest: nat, src: nat, esp: nat) {
    esp <= StackTop(src) && USER_START <= StackTop(dest) - (StackTop(src) - esp)
  }

  /** memcpy: n bytes, the lowest address first. Nothing is said about ranges that overlap. */
  function Copied(m: seq<byte>, dest: nat, src: nat, n: nat): (r: seq<byte>)
    requires src + n <= |m| && dest + n <= |m|
    ensures |r| == |m|
    ensures forall a :: 0 <= a < |m| && !(dest <= a < dest + n) ==> r[a] == m[a]
  {
    if n == 0 then m
    else
      var r := Copied(m, dest, src, n - 1);
      r[dest + n - 1 := r[src + n - 1]]
  }

  /** A copy to a lower address has the bytes that were there before, and one to a higher address those that are there
      in the end: where the ranges overlap, bytes repeat. */
  lemma {:induction false} CopiedByte(m: seq<byte>, dest: nat, src: nat, n: nat, i: nat)
    requires src + n <= |m| && dest + n <= |m| && i < n
    ensures Copied(m, dest, src, n)[dest + i] == if dest <= src then m[src + i] else Copied(m, dest, src, n)[src + i]
    decreases n
  {
    if i < n - 1 {
      CopiedByte(m, dest, src, n - 1, i);
    }
  }

  ghost predicate Shaped(k: Kernel) {
    && 2 <= |k.procs| <= MAXPROCS && 1 <= k.current < |k.procs|
    && StackTop(|k.procs| - 1) <= |k.memory| <= TWO32
  }

  // ----- the system calls

  /** The interrupt saves the registers of the process that was running. */
  function Saved(k: Kernel, reg: Registers): Kernel
    requires k.current < |k.procs|
  {
    k.(procs := k.procs[k.current := k.procs[k.current].(regs := reg)])
  }

  function Answer(k: Kernel, eax: int): Kernel
    requires k.current < |k.procs|
  {
    var p := k.procs[k.current];
    k.(procs := k.procs[k.current := p.(regs := p.regs.(eax := ToWord(eax)))])
  }

  /** The first empty slot from j on; the number of slots when there is none. */
  function FirstEmpty(procs: seq<Process>, j: nat): (r: nat)
    requires j <= |procs|
    ensures j <= r <= |procs|
    ensures r < |procs| ==> procs[r].state == Empty
    ensures forall i :: j <= i < r ==> procs[i].state != Empty
    decreases |procs| - j
  {
    if j == |procs| || procs[j].state == Empty then j else FirstEmpty(procs, j + 1)
  }

  /** do_fork, for the slot found: the parent's registers with another stack pointer and 0 in eax, and a copy of its
      stack. */
  function Forked(k: Kernel, j: nat): (k': Kernel)
    requires 1 <= k.current < |k.procs| && j < |k.procs| && StackTop(j) <= |k.memory|
    requires StackTop(k.current) <= |k.memory| && CopySafe(j, k.current, k.procs[k.current].regs.esp)
    ensures |k'.memory| == |k.memory|
  {
    var parent := k.procs[k.current];
    var offset := StackTop(k.current) - parent.regs.esp;
    var bottom := StackTop(j) - offset;
    var child := k.procs[j].(regs := parent.regs.(esp := ToWord(bottom), eax := 0), state := Runnable);
    k.(procs := k.procs[j := child], memory := Copied(k.memory, bottom, parent.regs.esp, offset))
  }

  /** create_thread, for the slot found: the parent's registers, stack pointer included, at another instruction. */
  function Threaded(k: Kernel, j: nat, start: uint32): Kernel
    requires k.current < |k.procs| && j < |k.procs|
  {
    var parent := k.procs[k.current];
    k.(procs := k.procs[j := k.procs[j].(regs := parent.regs.(eip := start, eax := 0), state := Runnable)])
  }

  predicate WaitsFor(p: Process, pid: int) {
    p.state == Blocked && p.waitOn == pid
  }

  /** Exit wakes those who wait, with the exit status in eax. */
  function WokenByExit(procs: seq<Process>, pid: int, status: int): (r: seq<Process>)
    ensures |r| == |procs|
  {
    seq(|procs|, i requires 0 <= i < |procs| =>
      var p := procs[i];
      if i >= 1 && WaitsFor(p, pid) then p.(state := Runnable, regs := p.regs.(eax := ToWord(status))) else p)
  }

  function WokenByKill(procs: seq<Process>, pid: int): (r: seq<Process>)
    ensures |r| == |procs|
  {
    seq(|procs|, i requires 0 <= i < |procs| =>
      if i >= 1 && WaitsFor(procs[i], pid) then procs[i].(state := Runnable) else procs[i])
  }

  function Exited(k: Kernel): Kernel
    requires k.current < |k.procs|
  {
    var p := k.procs[k.current];
    var status := ToPid(p.regs.eax);
    k.(procs := WokenByExit(k.procs[k.current := p.(state := Zombie, exitStatus := status)], k.current, status))
  }

  function Waited(k: Kernel): Kernel
    requires k.current < |k.procs|
  {
    var me := k.procs[k.current];
    var p := ToPid(me.regs.eax);
    if p <= 0 || p >= |k.procs| || p == k.current || k.procs[p].state == Empty then
      Answer(k, -1)
    else if k.procs[p].state == Zombie then
      var k' := Answer(k, k.procs[p].exitStatus);
      k'.(procs := k'.procs[p := k'.procs[p].(state := Empty)])
    else
      k.(procs := k.procs[k.current := me.(state := Blocked, waitOn := p)])
  }

  function Killed(k: Kernel): Kernel
    requires k.current < |k.procs|
  {
    var pid := ToPid(k.procs[k.current].regs.eax);
    if pid < 1 || pid >= |k.procs| || k.procs[pid].state == Empty then
      Answer(k, -1)
    else
      var woken := WokenByKill(k.procs[pid := k.procs[pid].(state := Zombie)], pid);
      Answer(k.(procs := woken[pid := woken[pid].(exitStatus := 1)]), 0)
  }

  function Ready(procs: seq<Process>): (r: seq<bool>)
    ensures |r| == |procs|
  {
    seq(|procs|, i requires 0 <= i < |procs| => procs[i].state == Runnable)
  }

  /** schedule: the next runnable process becomes current. */
  function Scheduled(k: Kernel): (Kernel, Outcome)
    requires k.current < |k.procs|
  {
    match Scan(Ready(k.procs), k.current, |k.procs|)
    case Picked(pid) => (k.(current := pid), Running)
    case NoneReady => (k, Idle)
  }

  /** Fork, for the slot that the search finds. */
  function ForkInto(k: Kernel, j: nat): (Kernel, Outcome)
    requires Shaped(k) && 1 <= j <= |k.procs|
  {
    if j == |k.procs| then (Answer(k, -1), Running)
    else if CopySafe(j, k.current, k.procs[k.current].regs.esp) then (Answer(Forked(k, j), j), Running)
    else (k, Wild)
  }

  /** One interrupt. */
  function Handle(k: Kernel, reg: Registers): (Kernel, Outcome)
    requires Shaped(k)
  {
    var k1 := Saved(k, reg);
    if reg.intno == INT_SYS_GETPID then (Answer(k1, k.current), Running)
    else if reg.intno == INT_SYS_FORK then ForkInto(k1, FirstEmpty(k1.procs, 1))
    else if reg.intno == INT_SYS_YIELD then Scheduled(k1)
    else if reg.intno == INT_SYS_EXIT then Scheduled(Exited(k1))
    else if reg.intno == INT_SYS_WAIT then Scheduled(Waited(k1))
    else if reg.intno == INT_SYS_KILL then (Killed(k1), Running)
    else if reg.intno == INT_SYS_NEWTHREAD then
      var j := FirstEmpty(k1.procs, 1);
      (if j < |k.procs| then Answer(Threaded(k1, j, reg.eax), j) else Answer(k1, -1), Running)
    else (k1, Stuck)
  }

  // ----- the wait invariant

  /** A blocked process waits for another one that can still exit or be killed. */
  predicate WaitOk(procs: seq<Process>, i: nat)
    requires i < |procs|
  {
    var p := procs[i];
    p.state == Blocked ==>
      && 1 <= p.waitOn < |procs| && p.waitOn != i
      && (procs[p.waitOn].state == Runnable || procs[p.waitOn].state == Blocked)
  }

  ghost predicate TableOk(procs: seq<Process>) {
    |procs| >= 2 && procs[0].state == Empty && forall i :: 0 <= i < |procs| ==> WaitOk(procs, i)
  }

  /** While a process runs it is runnable, or a zombie that killed itself. */
  ghost predicate KernelOk(k: Kernel) {
    Shaped(k) && TableOk(k.procs) && k.procs[k.current].state != Empty && k.procs[k.current].state != Blocked
  }

  /** Only registers changed, or a slot that nobody can wait for. */
  lemma KeepsTable(procs: seq<Process>, procs': seq<Process>, j: nat)
    requires TableOk(procs) && |procs'| == |procs| && 1 <= j < |procs|
    requires forall i :: 0 <= i < |procs| && i != j ==>
               procs'[i].state == procs[i].state && procs'[i].waitOn == procs[i].waitOn
    requires procs'[j].state == Runnable || procs'[j].state == procs[j].state || procs[j].state == Zombie
    requires procs'[j].state != Blocked
    ensures TableOk(procs')
  {
    forall i | 0 <= i < |procs'| ensures WaitOk(procs', i) {
      assert WaitOk(procs, i);
    }
  }

  /** Ending a process and waking those who wait for it strands nobody. */
  lemma EndKeepsTable(procs: seq<Process>, procs': seq<Process>, pid: nat)
    requires TableOk(procs) && |procs'| == |procs| && 1 <= pid < |procs| && procs'[pid].state == Zombie
    requires forall i :: 0 <= i < |procs| && i != pid ==>
      && procs'[i].waitOn == procs[i].waitOn
      && procs'[i].state == if i >= 1 && WaitsFor(procs[i], pid) then Runnable else procs[i].state
    ensures TableOk(procs')
  {
    forall i | 0 <= i < |procs'| ensures WaitOk(procs', i) {
      assert WaitOk(procs, i);
    }
  }

  lemma ScheduledOk(k: Kernel)
    requires Shaped(k) && TableOk(k.procs)
    ensures var (k', out) := Scheduled(k);
      && k'.procs == k.procs && k'.memory == k.memory
      && (out == Running ==> KernelOk(k') && k'.procs[k'.current].state == Runnable)
      && (out == Idle <==> forall p :: 0 <= p < |k.procs| ==> k.procs[p].state != Runnable)
  {
    ScanIsComplete(Ready(k.procs), k.current);
    assert forall p :: 0 <= p < |k.procs| ==> Ready(k.procs)[p] == (k.procs[p].state == Runnable);
  }

  lemma ExitedOk(k: Kernel)
    requires KernelOk(k)
    ensures Shaped(Exited(k)) && TableOk(Exited(k).procs)
  {
    EndKeepsTable(k.procs, Exited(k).procs, k.current);
  }

  lemma WaitedOk(k: Kernel)
    requires KernelOk(k)
    ensures Shaped(Waited(k)) && TableOk(Waited(k).procs)
  {
    var p := ToPid(k.procs[k.current].regs.eax);
    var k' := Waited(k);
    if p <= 0 || p >= |k.procs| || p == k.current || k.procs[p].state == Empty {
      KeepsTable(k.procs, k'.procs, k.current);
    } else if k.procs[p].state == Zombie {
      KeepsTable(k.procs, k'.procs, p);
    } else {
      forall i | 0 <= i < |k'.procs| ensures WaitOk(k'.procs, i) {
        assert WaitOk(k.procs, i);
      }
    }
  }

  lemma KilledOk(k: Kernel)
    requires KernelOk(k)
    ensures KernelOk(Killed(k))
  {
    var pid := ToPid(k.procs[k.current].regs.eax);
    if pid < 1 || pid >= |k.procs| || k.procs[pid].state == Empty {
      KeepsTable(k.procs, Killed(k).procs, k.current);
    } else {
      EndKeepsTable(k.procs, Killed(k).procs, pid);
    }
  }

  /** Every interrupt keeps the wait invariant, and after it a live process runs unless there is none to run. */
  lemma HandleOk(k: Kernel, reg: Registers)
    requires KernelOk(k)
    ensures var (k', out) := Handle(k, reg);
      && Shaped(k') && TableOk(k'.procs) && |k'.procs| == |k.procs|
      && (out == Running ==> KernelOk(k'))
      && (out == Idle ==> forall p :: 0 <= p < |k'.procs| ==> k'.procs[p].state != Runnable)
  {
    var k1 := Saved(k, reg);
    KeepsTable(k.procs, k1.procs, k.current);
    if reg.intno == INT_SYS_GETPID {
      KeepsTable(k1.procs, Answer(k1, k.current).procs, k.current);
    } else if reg.intno == INT_SYS_FORK || reg.intno == INT_SYS_NEWTHREAD {
      CreatedOk(k1, reg);
    } else if reg.intno == INT_SYS_YIELD {
      ScheduledOk(k1);
    } else if reg.intno == INT_SYS_EXIT {
      ExitedOk(k1);
      ScheduledOk(Exited(k1));
    } else if reg.intno == INT_SYS_WAIT {
      WaitedOk(k1);
      ScheduledOk(Waited(k1));
    } else if reg.intno == INT_SYS_KILL {
      KilledOk(k1);
    }
  }

  lemma CreatedOk(k: Kernel, reg: Registers)
    requires KernelOk(k) && k.procs[k.current].regs == reg
    ensures KernelOk(Answer(k, -1))
    ensures var j := FirstEmpty(k.procs, 1);
      j < |k.procs| ==>
        && KernelOk(Answer(Threaded(k, j, reg.eax), j))
        && (CopySafe(j, k.current, reg.esp) && StackTop(j) <= |k.memory| && StackTop(k.current) <= |k.memory| ==>
              KernelOk(Answer(Forked(k, j), j)))
  {
    KeepsTable(k.procs, Answer(k, -1).procs, k.current);
    var j := FirstEmpty(k.procs, 1);
    if j < |k.procs| {
      KeepsTable(k.procs, Threaded(k, j, reg.eax).procs, j);
      KeepsTable(Threaded(k, j, reg.eax).procs, Answer(Threaded(k, j, reg.eax), j).procs, k.current);
      if CopySafe(j, k.current, reg.esp) && StackTop(j) <= |k.memory| && StackTop(k.current) <= |k.memory| {
        KeepsTable(k.procs, Forked(k, j).procs, j);
        KeepsTable(Forked(k, j).procs, Answer(Forked(k, j), j).procs, k.current);
      }
    }
  }

  // ----- stacks

  /** Every live process has its stack pointer in its own stack. */
  ghost predicate StacksOk(procs: seq<Process>) {
    forall i :: 1 <= i < |procs| && procs[i].state != Empty ==> InStack(i, procs[i].regs.esp)
  }

  /** Address a belongs to the stack of process pid. */
  predicate InStackOf(pid: nat, a: nat) {
    StackTop(pid) - PROC_STACK_SIZE <= a < StackTop(pid)
  }

  lemma StacksDisjoint(p: nat, q: nat, a: nat)
    requires InStackOf(p, a) && InStackOf(q, a)
    ensures p == q
  {
  }

  // Where a stack is copied from and to.
  predicate Copyable(procs: seq<Process>, current: nat, j: nat, m: seq<byte>) {
    && 1 <= current < |procs| <= MAXPROCS && 1 <= j < |procs| && j != current
    && StackTop(|procs| - 1) <= |m| <= TWO32 && CopySafe(j, current, procs[current].regs.esp)
  }

  /** After the fork the child's stack has what the parent's had, and so has the parent's. */
  ghost predicate BothHave(procs: seq<Process>, current: nat, j: nat, m: seq<byte>)
    requires Copyable(procs, current, j, m)
  {
    var m', lo, hi := Forked(Kernel(procs, current, m), j).memory, procs[current].regs.esp, StackTop(current);
    m'[StackTop(j) - (hi - lo)..StackTop(j)] == m[lo..hi] && m'[lo..hi] == m[lo..hi]
  }

  /** The fork changes no memory but the child's own stack. */
  ghost predicate OwnStackOnly(procs: seq<Process>, current: nat, j: nat, m: seq<byte>)
    requires Copyable(procs, current, j, m)
  {
    var m' := Forked(Kernel(procs, current, m), j).memory;
    forall a :: 0 <= a < |m| && !InStackOf(j, a) ==> m'[a] == m[a]
  }

  /** Where fork puts the child's stack: as far below the top of the child's stack as the parent's stack pointer is
      below the top of its own. Memory outside of that range, and the other slots, stay as they are. */
  lemma ForkPlace(k: Kernel, j: nat)
    requires Copyable(k.procs, k.current, j, k.memory)
    ensures var k', lo, hi := Forked(k, j), k.procs[k.current].regs.esp, StackTop(k.current);
      var esp := k'.procs[j].regs.esp;
      && USER_START <= esp <= StackTop(j) <= |k.memory| && hi <= |k.memory| && StackTop(j) - esp == hi - lo
      && (InStack(k.current, lo) <==> InStack(j, esp))
      && (forall a :: 0 <= a < |k.memory| && !(esp <= a < StackTop(j)) ==> k'.memory[a] == k.memory[a])
      && k'.procs[j].state == Runnable && k'.procs[j].regs == k.procs[k.current].regs.(esp := esp, eax := 0)
      && forall p :: 0 <= p < |k.procs| && p != j ==> k'.procs[p] == k.procs[p]
  {
    assert StackTop(j) <= StackTop(|k.procs| - 1) && StackTop(k.current) <= StackTop(|k.procs| - 1);
  }

  /** What a byte of the child's stack is: a copy downwards has the parent's byte from before the fork, and a copy
      upwards the one from after it. Overlapping ranges included. */
  lemma ForkCopies(k: Kernel, j: nat, a: nat)
    requires Copyable(k.procs, k.current, j, k.memory)
    requires Forked(k, j).procs[j].regs.esp <= a < StackTop(j)
    ensures var b := a + StackTop(k.current) - StackTop(j);
      && 0 <= b < |k.memory| && a < |k.memory|
      && Forked(k, j).memory[a] == if j < k.current then k.memory[b] else Forked(k, j).memory[b]
  {
    ForkPlace(k, j);
    var lo, n := k.procs[k.current].regs.esp, StackTop(k.current) - k.procs[k.current].regs.esp;
    CopiedByte(k.memory, StackTop(j) - n, lo, n, a - (StackTop(j) - n));
  }

  // All zeros but for one byte.
  function Marked(n: nat, a: nat): (m: seq<byte>)
    ensures |m| == n && forall b :: 0 <= b < n ==> m[b] == if b == a then 1 else 0
  {
    seq(n, b => if b == a then 1 else 0)
  }

  // How far apart two stacks are.
  function Apart(p: nat, q: nat): nat {
    PROC_STACK_SIZE * if p > q then p - q else q - p
  }

  /** Who can fork: parent and child both have the parent's stack, whatever it holds, if and only if the stack is no
      longer than its distance from the child's. */
  lemma WhoCanFork(procs: seq<Process>, current: nat, j: nat, m: seq<byte>)
    requires Copyable(procs, current, j, m)
    ensures (forall m': seq<byte> :: |m'| == |m| ==> BothHave(procs, current, j, m')) <==>
            StackTop(current) - procs[current].regs.esp <= Apart(current, j)
  {
    var lo, hi := procs[current].regs.esp, StackTop(current);
    if hi - lo <= Apart(current, j) {
      forall m': seq<byte> | |m'| == |m| ensures BothHave(procs, current, j, m') {
        DisjointCopy(procs, current, j, m');
      }
    } else {
      var m' := Marked(|m|, if j > current then lo else lo + Apart(current, j));
      OverlapSpoils(procs, current, j, m');
      assert !BothHave(procs, current, j, m');
    }
  }

  lemma DisjointCopy(procs: seq<Process>, current: nat, j: nat, m: seq<byte>)
    requires Copyable(procs, current, j, m)
    requires StackTop(current) - procs[current].regs.esp <= Apart(current, j)
    ensures BothHave(procs, current, j, m)
  {
    var k := Kernel(procs, current, m);
    ForkPlace(k, j);
    var m', lo, hi := Forked(k, j).memory, procs[current].regs.esp, StackTop(current);
    var esp := StackTop(j) - (hi - lo);
    forall i | 0 <= i < hi - lo ensures m'[esp..StackTop(j)][i] == m[lo..hi][i] {
      ForkCopies(k, j, esp + i);
    }
    assert forall a :: lo <= a < hi ==> m'[a] == m[a];
    assert m'[esp..StackTop(j)] == m[lo..hi] && m'[lo..hi] == m[lo..hi];
  }

  // The first byte that the copy changes in the parent's stack.
  lemma OverlapSpoils(procs: seq<Process>, current: nat, j: nat, m: seq<byte>)
    requires Copyable(procs, current, j, m)
    requires StackTop(current) - procs[current].regs.esp > Apart(current, j)
    requires m == Marked(|m|, if j > current then procs[current].regs.esp
                              else procs[current].regs.esp + Apart(current, j))
    ensures !BothHave(procs, current, j, m)
  {
    var k := Kernel(procs, current, m);
    ForkPlace(k, j);
    var m', lo, hi := Forked(k, j).memory, procs[current].regs.esp, StackTop(current);
    if j > current {
      ForkCopies(k, j, lo + Apart(current, j));
      assert m'[lo..hi][Apart(current, j)] == 1 && m[lo..hi][Apart(current, j)] == 0;
    } else {
      ForkCopies(k, j, lo);
      assert m'[lo..hi][0] == 1 && m[lo..hi][0] == 0;
    }
  }

  /** Fork keeps to the child's own stack, whatever memory holds, if and only if the parent keeps to its own. */
  lemma ForkConfined(procs: seq<Process>, current: nat, j: nat, m: seq<byte>)
    requires Copyable(procs, current, j, m)
    ensures (forall m': seq<byte> :: |m'| == |m| ==> OwnStackOnly(procs, current, j, m')) <==>
            InStack(current, procs[current].regs.esp)
  {
    var lo, hi := procs[current].regs.esp, StackTop(current);
    if InStack(current, lo) {
      forall m': seq<byte> | |m'| == |m| ensures OwnStackOnly(procs, current, j, m') {
        ForkPlace(Kernel(procs, current, m'), j);
      }
    } else {
      StrayCopy(procs, current, j, Marked(|m|, lo));
      assert !OwnStackOnly(procs, current, j, Marked(|m|, lo));
    }
  }

  // The first byte of a copy that starts below the child's stack.
  lemma StrayCopy(procs: seq<Process>, current: nat, j: nat, m: seq<byte>)
    requires Copyable(procs, current, j, m) && !InStack(current, procs[current].regs.esp)
    requires m == Marked(|m|, procs[current].regs.esp)
    ensures !OwnStackOnly(procs, current, j, m)
  {
    var k := Kernel(procs, current, m);
    ForkPlace(k, j);
    var esp := Forked(k, j).procs[j].regs.esp;
    ForkCopies(k, j, esp);
    assert !InStackOf(j, esp) && m[esp] == 0;
  }

  // ----- runs

  // What user code does before its next interrupt: new registers, and new memory.
  datatype UserStep = UserStep(reg: Registers, memory: seq<byte>)

  /** User code that keeps its stack pointer in its own stack, writes only there and below the stacks, and makes no
      threads. */
  ghost predicate Polite(k: Kernel, u: UserStep) {
    && InStack(k.current, u.reg.esp) && u.reg.intno != INT_SYS_NEWTHREAD
    && |u.memory| == |k.memory|
    && forall a :: PROC1_STACK_ADDR <= a < |k.memory| && !InStackOf(k.current, a) ==> u.memory[a] == k.memory[a]
  }

  function Turn(k: Kernel, u: UserStep): (Kernel, Outcome)
    requires Shaped(k) && |u.memory| == |k.memory|
  {
    Handle(k.(memory := u.memory), u.reg)
  }

  /** The stacks of processes that neither ran nor were just created keep every byte. */
  lemma TurnIsolates(k: Kernel, u: UserStep, p: nat, a: nat)
    requires KernelOk(k) && Polite(k, u) && 1 <= p < |k.procs| && p != k.current && k.procs[p].state != Empty
    requires InStackOf(p, a) && a < |k.memory|
    ensures var k' := Turn(k, u).0; |k'.memory| == |k.memory| && k'.memory[a] == k.memory[a]
  {
    if InStackOf(k.current, a) {
      StacksDisjoint(p, k.current, a);
    }
    var k1 := Saved(k.(memory := u.memory), u.reg);
    if u.reg.intno == INT_SYS_FORK {
      var j := FirstEmpty(k1.procs, 1);
      if j < |k.procs| {
        ForkPlace(k1, j);
        if InStackOf(j, a) {
          StacksDisjoint(p, j, a);
        }
      }
    } else if u.reg.intno == INT_SYS_YIELD {
      ScheduledKeeps(k1);
    } else if u.reg.intno == INT_SYS_EXIT {
      ScheduledKeeps(Exited(k1));
    } else if u.reg.intno == INT_SYS_WAIT {
      ScheduledKeeps(Waited(k1));
    }
  }

  lemma ScheduledKeeps(k: Kernel)
    requires k.current < |k.procs|
    ensures Scheduled(k).0.memory == k.memory && Scheduled(k).0.procs == k.procs
  {
  }

  /** Stack pointers stay where they belong. */
  lemma TurnKeepsStacks(k: Kernel, u: UserStep)
    requires KernelOk(k) && Polite(k, u) && StacksOk(k.procs)
    ensures StacksOk(Turn(k, u).0.procs)
  {
    var k1 := Saved(k.(memory := u.memory), u.reg);
    assert StacksOk(k1.procs);
    if u.reg.intno == INT_SYS_FORK {
      var j := FirstEmpty(k1.procs, 1);
      if j < |k.procs| {
        ForkPlace(k1, j);
      }
    } else if u.reg.intno == INT_SYS_YIELD {
      ScheduledKeeps(k1);
    } else if u.reg.intno == INT_SYS_EXIT {
      ScheduledKeeps(Exited(k1));
    } else if u.reg.intno == INT_SYS_WAIT {
      ScheduledKeeps(Waited(k1));
    }
  }

  /** The run goes on from k through these steps of any user code. */
  ghost predicate RunsAny(k: Kernel, steps: seq<UserStep>, k': Kernel)
    decreases |steps|
  {
    if steps == [] then k' == k
    else
      && Shaped(k) && |steps[0].memory| == |k.memory| && Turn(k, steps[0]).1 == Running
      && RunsAny(Turn(k, steps[0]).0, steps[1..], k')
  }

  /** The wait invariant over every run of all system calls: blocked processes wait for live ones, and slot 0 stays
      empty. */
  lemma {:induction false} WaitInvariantHolds(k: Kernel, steps: seq<UserStep>, k': Kernel)
    requires KernelOk(k) && RunsAny(k, steps, k')
    ensures KernelOk(k') && k'.procs[0].state == Empty
    ensures forall i :: 0 <= i < |k'.procs| ==> WaitOk(k'.procs, i)
    decreases |steps|
  {
    if steps != [] {
      HandleOk(k.(memory := steps[0].memory), steps[0].reg);
      WaitInvariantHolds(Turn(k, steps[0]).0, steps[1..], k');
    }
  }

  /** The run goes on from k through these steps of polite user code. */
  ghost predicate Runs(k: Kernel, steps: seq<UserStep>, k': Kernel)
    decreases |steps|
  {
    if steps == [] then k' == k
    else
      KernelOk(k) && Polite(k, steps[0]) && Turn(k, steps[0]).1 == Running && Runs(Turn(k, steps[0]).0, steps[1..], k')
  }

  /** Over every run: the wait invariant, slot 0 empty, and every live process's stack pointer in its own stack. */
  lemma {:induction false} RunsAreSafe(k: Kernel, steps: seq<UserStep>, k': Kernel)
    requires KernelOk(k) && StacksOk(k.procs) && Runs(k, steps, k')
    ensures KernelOk(k') && StacksOk(k'.procs)
    decreases |steps|
  {
    if steps != [] {
      HandleOk(k.(memory := steps[0].memory), steps[0].reg);
      TurnKeepsStacks(k, steps[0]);
      RunsAreSafe(Turn(k, steps[0]).0, steps[1..], k');
    }
  }

  /** What start() sets up: one runnable process with an empty stack. */
  ghost predicate Booted(k: Kernel) {
    && 2 <= |k.procs| <= MAXPROCS && StackTop(|k.procs| - 1) <= |k.memory| <= TWO32 && k.current == 1
    && (forall i :: 0 <= i < |k.procs| ==> k.procs[i].state == if i == 1 then Runnable else Empty)
    && k.procs[1].regs.esp == StackTop(1)
  }

  lemma StartOk(k: Kernel)
    requires Booted(k)
    ensures KernelOk(k) && StacksOk(k.procs)
  {
    assert forall i :: 0 <= i < |k.procs| ==> WaitOk(k.procs, i);
  }

  // Whoever waits, waits for a live process.
  lemma WaitsForLive(procs: seq<Process>, i: nat, p: nat)
    requires TableOk(procs) && i < |procs| && p < |procs| && WaitsFor(procs[i], p)
    ensures procs[p].state == Runnable || procs[p].state == Blocked
  {
    assert WaitOk(procs, i);
  }

  /** No waiter is stranded: in no run from the start does anybody wait for a process that has ended, or for an empty
      slot, whoever gets it next. */
  lemma NobodyStranded(k: Kernel, steps: seq<UserStep>, k': Kernel, i: nat, p: nat)
    requires Booted(k) && RunsAny(k, steps, k') && i < |k'.procs| && p < |k'.procs|
    ensures k'.procs[p].state == Zombie || k'.procs[p].state == Empty ==> !WaitsFor(k'.procs[i], p)
  {
    StartOk(k);
    WaitInvariantHolds(k, steps, k');
    if WaitsFor(k'.procs[i], p) {
      WaitsForLive(k'.procs, i, p);
    }
  }

  // ----- a thread that forks

  function Call(intno: uint32, esp: uint32): Registers {
    Registers(0, esp, 0, intno, [])
  }

  // From the start: process 1 makes a thread, in slot 2, and yields to it.
  lemma ThreadRuns(k: Kernel, esp: uint32) returns (steps: seq<UserStep>, k': Kernel)
    requires Booted(k) && |k.procs| >= 4
    ensures RunsAny(k, steps, k') && KernelOk(k') && k'.current == 2 && |k'.procs| == |k.procs|
    ensures |k'.memory| == |k.memory| && k'.procs[2].regs.esp == esp
    ensures forall i :: 3 <= i < |k'.procs| ==> k'.procs[i].state == Empty
    ensures k'.procs[1].state == Runnable && k'.procs[2].state == Runnable
  {
    StartOk(k);
    var u1, u2 := UserStep(Call(INT_SYS_NEWTHREAD, esp), k.memory), UserStep(Call(INT_SYS_YIELD, esp), k.memory);
    var k1 := ThreadMade(k, u1);
    k' := ThreadChosen(k1, u2);
    steps := [u1, u2];
    OneStep(k1, u2, k');
    assert steps[1..] == [u2];
  }

  lemma OneStep(k: Kernel, u: UserStep, k': Kernel)
    requires Shaped(k) && |u.memory| == |k.memory| && Turn(k, u) == (k', Running)
    ensures RunsAny(k, [u], k')
  {
    assert [u][1..] == [] && RunsAny(k', [], k');
  }

  lemma ThreadMade(k: Kernel, u: UserStep) returns (k': Kernel)
    requires KernelOk(k) && Booted(k) && |k.procs| >= 4 && |u.memory| == |k.memory| && u.reg.intno == INT_SYS_NEWTHREAD
    ensures Turn(k, u) == (k', Running) && KernelOk(k') && k'.current == 1 && |k'.procs| == |k.procs|
    ensures |k'.memory| == |k.memory| && k'.procs[2].regs.esp == u.reg.esp
    ensures forall i :: 0 <= i < |k'.procs| ==> k'.procs[i].state == if i == 1 || i == 2 then Runnable else Empty
  {
    var k0 := k.(memory := u.memory);
    HandleOk(k0, u.reg);
    var procs := Saved(k0, u.reg).procs;
    assert FirstEmpty(procs, 1) == FirstEmpty(procs, 2) == 2;
    k' := Turn(k, u).0;
  }

  lemma ThreadChosen(k: Kernel, u: UserStep) returns (k': Kernel)
    requires KernelOk(k) && |k.procs| >= 4 && |u.memory| == |k.memory| && u.reg.intno == INT_SYS_YIELD && k.current == 1
    requires k.procs[2].state == Runnable
    ensures Turn(k, u) == (k', Running) && KernelOk(k') && k'.current == 2 && k'.memory == u.memory
    ensures |k'.procs| == |k.procs| && k'.procs[1].state == k.procs[1].state
    ensures forall i :: 2 <= i < |k.procs| ==> k'.procs[i] == k.procs[i]
  {
    HandleOk(k.(memory := u.memory), u.reg);
    k' := Yielded(k.(memory := u.memory), u.reg);
  }

  lemma Yielded(k: Kernel, reg: Registers) returns (k': Kernel)
    requires Shaped(k) && |k.procs| >= 4 && k.current == 1 && k.procs[2].state == Runnable
    requires reg.intno == INT_SYS_YIELD
    ensures Handle(k, reg) == (k', Running) && k' == Saved(k, reg).(current := 2)
  {
    NextReady(Ready(Saved(k, reg).procs));
    k' := Saved(k, reg).(current := 2);
  }

  lemma NextReady(ready: seq<bool>)
    requires |ready| >= 4 && ready[2]
    ensures Scan(ready, 1, |ready|) == Picked(2)
  {
    Unwrapped(2, |ready|);
  }

  lemma Unwrapped(a: nat, n: nat)
    requires a < n
    ensures a % n == a
  {
  }

  /** The first process, with one word on its stack, makes a thread, and the thread forks: it runs on the first stack,
      and what it copies overlaps what it copies from. The thread's own stack area is written, and the child's stack
      pointer lies in it. */
  lemma ThreadForkFails(k: Kernel) returns (steps: seq<UserStep>, k': Kernel, fork: UserStep)
    requires Booted(k) && |k.procs| >= 4
    ensures RunsAny(k, steps, k') && Shaped(k') && k'.current == 2 && |fork.memory| == |k'.memory|
    ensures fork.reg == k'.procs[2].regs.(intno := INT_SYS_FORK) && InStack(1, fork.reg.esp)
    ensures var procs := Saved(k', fork.reg).procs;
      && FirstEmpty(procs, 1) == 3 && Copyable(procs, 2, 3, fork.memory) && Turn(k', fork).1 == Running
      && !BothHave(procs, 2, 3, fork.memory) && InStack(2, Turn(k', fork).0.procs[3].regs.esp)
  {
    var esp := StackTop(1) - 4;
    steps, k' := ThreadRuns(k, esp);
    fork := UserStep(k'.procs[2].regs.(intno := INT_SYS_FORK), Marked(|k'.memory|, esp));
    var procs := Saved(k', fork.reg).procs;
    assert FirstEmpty(procs, 1) == FirstEmpty(procs, 2) == FirstEmpty(procs, 3) == 3;
    assert StackTop(3) <= StackTop(|procs| - 1);
    OverlapSpoils(procs, 2, 3, fork.memory);
    ForkPlace(Kernel(procs, 2, fork.memory), 3);
  }
}
