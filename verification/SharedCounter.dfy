// Threads that raise a shared counter and lower it again, under a lock (mutex
// or spinlock) or by compare-and-swap: every interleaving of any number of them.
module SharedCounter {

  // Each thread adds 1 'iterations' times and then -1 as often; its updates are numbered from 0.
  datatype Config = Config(threads: nat, iterations: nat) {
    function Updates(): nat {
      2 * iterations
    }

    function Delta(n: nat): int {
      if n < iterations then 1 else -1
    }

    /** What a thread's first n updates add up to. */
    function Net(n: nat): int {
      if n <= iterations then n else 2 * iterations - n
    }
  }

  /** Completed increments minus completed decrements, given how many updates each thread has completed. */
  function Balance(c: Config, done: seq<nat>): int {
    if done == [] then 0 else Balance(c, done[..|done| - 1]) + c.Net(done[|done| - 1])
  }

  lemma {:induction false} BalanceOfUpdate(c: Config, done: seq<nat>, t: nat, n: nat)
    requires t < |done|
    ensures Balance(c, done[t := n]) == Balance(c, done) + c.Net(n) - c.Net(done[t])
  {
    var last := |done| - 1;
    if t < last {
      BalanceOfUpdate(c, done[..last], t, n);
      assert done[t := n][..last] == done[..last][t := n];
    } else {
      assert done[t := n][..last] == done[..last];
    }
  }

  /** The counter stays between 0 and what all threads together can raise it to. */
  lemma {:induction false} BalanceInRange(c: Config, done: seq<nat>)
    requires forall t :: 0 <= t < |done| ==> done[t] <= c.Updates()
    ensures 0 <= Balance(c, done) <= |done| * c.iterations
  {
    if done != [] {
      BalanceInRange(c, done[..|done| - 1]);
      assert |done| * c.iterations == (|done| - 1) * c.iterations + c.iterations;
    }
  }

  /** While a thread has increments to come, the counter is below its maximum. */
  lemma {:induction false} BalanceBelowMaximum(c: Config, done: seq<nat>, t: nat)
    requires (forall u :: 0 <= u < |done| ==> done[u] <= c.Updates()) && t < |done| && done[t] < c.iterations
    ensures Balance(c, done) < |done| * c.iterations
  {
    var last := |done| - 1;
    assert |done| * c.iterations == last * c.iterations + c.iterations;
    if t < last {
      BalanceBelowMaximum(c, done[..last], t);
    } else {
      BalanceInRange(c, done[..last]);
    }
  }

  lemma {:induction false} AllDoneIsZero(c: Config, done: seq<nat>)
    requires forall t :: 0 <= t < |done| ==> done[t] == c.Updates()
    ensures Balance(c, done) == 0
  {
    if done != [] {
      AllDoneIsZero(c, done[..|done| - 1]);
    }
  }

  // ----- under a lock

  // n is the update a thread is at. A thread may yield between Read and Write.
  datatype LockPc = Acquire(n: nat) | Read(n: nat) | Write(n: nat, sum: int) | Release(n: nat) | Finished

  datatype Owner = Free | Held(t: nat)

  datatype LockState = LockState(pcs: seq<LockPc>, lock: Owner, counter: int)

  predicate LockPcOk(c: Config, pc: LockPc) {
    pc.Finished? || pc.n < c.Updates()
  }

  function LockDone(c: Config, pc: LockPc): nat {
    match pc
    case Release(n) => n + 1
    case Finished => c.Updates()
    case _ => pc.n
  }

  function LockDones(c: Config, pcs: seq<LockPc>): (done: seq<nat>)
    ensures |done| == |pcs| && forall t :: 0 <= t < |pcs| ==> done[t] == LockDone(c, pcs[t])
  {
    seq(|pcs|, t requires 0 <= t < |pcs| => LockDone(c, pcs[t]))
  }

  function LockNext(c: Config, n: nat): LockPc {
    if n < c.Updates() then Acquire(n) else Finished
  }

  ghost predicate LockInit(c: Config, s: LockState) {
    s == LockState(seq(c.threads, _ => LockNext(c, 0)), Free, 0)
  }

  predicate LockEnabled(s: LockState, t: nat)
    requires t < |s.pcs|
  {
    match s.pcs[t]
    case Acquire(_) => s.lock == Free
    case Finished => false
    case _ => true
  }

  /** pthread_mutex_lock or a successful test-and-set; the two halves of add; unlock or release. */
  function LockStep(c: Config, s: LockState, t: nat): LockState
    requires t < |s.pcs| && LockEnabled(s, t)
  {
    match s.pcs[t]
    case Acquire(n) => s.(pcs := s.pcs[t := Read(n)], lock := Held(t))
    case Read(n) => s.(pcs := s.pcs[t := Write(n, s.counter + c.Delta(n))])
    case Write(n, sum) => s.(pcs := s.pcs[t := Release(n)], counter := sum)
    case Release(n) => s.(pcs := s.pcs[t := LockNext(c, n + 1)], lock := Free)
  }

  /** The lock is held by the thread in the critical section; a sum about to be written is up to date; the counter is
      exact. */
  ghost predicate LockInv(c: Config, s: LockState) {
    && |s.pcs| == c.threads
    && (forall t :: 0 <= t < |s.pcs| ==>
          && LockPcOk(c, s.pcs[t])
          && (s.pcs[t].Read? || s.pcs[t].Write? || s.pcs[t].Release? <==> s.lock == Held(t))
          && (s.pcs[t].Write? ==> s.pcs[t].sum == s.counter + c.Delta(s.pcs[t].n)))
    && (s.lock.Held? ==> s.lock.t < |s.pcs|)
    && s.counter == Balance(c, LockDones(c, s.pcs))
  }

  lemma LockInitInv(c: Config, s: LockState)
    requires LockInit(c, s)
    ensures LockInv(c, s)
  {
    NothingDone(c, LockDones(c, s.pcs));
  }

  lemma {:induction false} NothingDone(c: Config, done: seq<nat>)
    requires forall t :: 0 <= t < |done| ==> done[t] == 0
    ensures Balance(c, done) == 0
  {
    if done != [] {
      NothingDone(c, done[..|done| - 1]);
    }
  }

  lemma LockStepInv(c: Config, s: LockState, t: nat)
    requires LockInv(c, s) && t < |s.pcs| && LockEnabled(s, t)
    ensures LockInv(c, LockStep(c, s, t))
  {
    var s' := LockStep(c, s, t);
    BalanceOfUpdate(c, LockDones(c, s.pcs), t, LockDone(c, s'.pcs[t]));
    assert LockDones(c, s'.pcs) == LockDones(c, s.pcs)[t := LockDone(c, s'.pcs[t])];
  }

  predicate InSection(pc: LockPc) {
    pc.Read? || pc.Write?
  }

  // No two threads are in the critical section.
  lemma LockExcludes(c: Config, s: LockState, t: nat, u: nat)
    requires LockInv(c, s) && t < |s.pcs| && u < |s.pcs| && InSection(s.pcs[t]) && InSection(s.pcs[u])
    ensures t == u
  {
    assert s.lock == Held(t) && s.lock == Held(u);
  }

  // The counter is the updates completed; at the end it is 0.
  lemma LockCounts(c: Config, s: LockState)
    requires LockInv(c, s)
    ensures s.counter == Balance(c, LockDones(c, s.pcs)) && 0 <= s.counter <= c.threads * c.iterations
    ensures (forall t :: 0 <= t < |s.pcs| ==> s.pcs[t].Finished?) ==> s.counter == 0
  {
    BalanceInRange(c, LockDones(c, s.pcs));
    if forall t :: 0 <= t < |s.pcs| ==> s.pcs[t].Finished? {
      AllDoneIsZero(c, LockDones(c, s.pcs));
    }
  }

  /** Some unfinished thread can always move. */
  lemma LockMoves(c: Config, s: LockState, t: nat) returns (u: nat)
    requires LockInv(c, s) && t < |s.pcs| && !s.pcs[t].Finished?
    ensures u < |s.pcs| && LockEnabled(s, u)
  {
    u := if LockEnabled(s, t) then t else s.lock.t;
  }

  // ----- by compare-and-swap

  datatype CasPc = Load(n: nat) | Swap(n: nat, orig: int) | Over

  datatype CasState = CasState(pcs: seq<CasPc>, counter: int)

  /** A long long value assigned to an int. */
  function ToInt(x: int): (r: int)
    ensures -0x8000_0000 <= r < 0x8000_0000
    ensures r == x <==> -0x8000_0000 <= x < 0x8000_0000
  {
    (x + 0x8000_0000) % 0x1_0000_0000 - 0x8000_0000
  }

  predicate CasPcOk(c: Config, pc: CasPc) {
    pc.Over? || pc.n < c.Updates()
  }

  function CasDone(c: Config, pc: CasPc): nat {
    if pc.Over? then c.Updates() else pc.n
  }

  function CasDones(c: Config, pcs: seq<CasPc>): (done: seq<nat>)
    ensures |done| == |pcs| && forall t :: 0 <= t < |pcs| ==> done[t] == CasDone(c, pcs[t])
  {
    seq(|pcs|, t requires 0 <= t < |pcs| => CasDone(c, pcs[t]))
  }

  function CasNext(c: Config, n: nat): CasPc {
    if n < c.Updates() then Load(n) else Over
  }

  ghost predicate CasInit(c: Config, s: CasState) {
    s == CasState(seq(c.threads, _ => CasNext(c, 0)), 0)
  }

  /** orig = *pointer; then the compare-and-swap of orig and orig + 1 or orig - 1, which starts over when it fails. */
  function CasStep(c: Config, s: CasState, t: nat): CasState
    requires t < |s.pcs| && !s.pcs[t].Over?
  {
    match s.pcs[t]
    case Load(n) => s.(pcs := s.pcs[t := Swap(n, ToInt(s.counter))])
    case Swap(n, orig) =>
      if s.counter == orig then CasState(s.pcs[t := CasNext(c, n + 1)], orig + c.Delta(n))
      else s.(pcs := s.pcs[t := Load(n)])
  }

  ghost predicate CasInv(c: Config, s: CasState) {
    && |s.pcs| == c.threads
    && (forall t :: 0 <= t < |s.pcs| ==> CasPcOk(c, s.pcs[t]))
    && s.counter == Balance(c, CasDones(c, s.pcs))
  }

  lemma CasInitInv(c: Config, s: CasState)
    requires CasInit(c, s)
    ensures CasInv(c, s)
  {
    NothingDone(c, CasDones(c, s.pcs));
  }

  /** A successful swap never loses another thread's update: it adds to what is there. */
  lemma CasStepInv(c: Config, s: CasState, t: nat)
    requires CasInv(c, s) && t < |s.pcs| && !s.pcs[t].Over?
    ensures CasInv(c, CasStep(c, s, t))
    ensures CasDone(c, CasStep(c, s, t).pcs[t]) == CasDone(c, s.pcs[t]) + 1 ==>
              CasStep(c, s, t).counter == s.counter + c.Delta(s.pcs[t].n)
    ensures CasDone(c, CasStep(c, s, t).pcs[t]) == CasDone(c, s.pcs[t]) ==> CasStep(c, s, t).counter == s.counter
  {
    var s' := CasStep(c, s, t);
    BalanceOfUpdate(c, CasDones(c, s.pcs), t, CasDone(c, s'.pcs[t]));
    assert CasDones(c, s'.pcs) == CasDones(c, s.pcs)[t := CasDone(c, s'.pcs[t])];
  }

  lemma CasCounts(c: Config, s: CasState)
    requires CasInv(c, s)
    ensures 0 <= s.counter <= c.threads * c.iterations
    ensures (forall t :: 0 <= t < |s.pcs| ==> s.pcs[t].Over?) ==> s.counter == 0
  {
    BalanceInRange(c, CasDones(c, s.pcs));
    if forall t :: 0 <= t < |s.pcs| ==> s.pcs[t].Over? {
      AllDoneIsZero(c, CasDones(c, s.pcs));
    }
  }

  /** An undisturbed load and swap succeeds if and only if the counter fits an int. */
  lemma CasSucceeds(c: Config, s: CasState, t: nat)
    requires t < |s.pcs| && s.pcs[t].Load?
    ensures var s1 := CasStep(c, s, t);
      CasStep(c, s1, t).pcs[t] == CasNext(c, s.pcs[t].n + 1) <==> -0x8000_0000 <= s.counter < 0x8000_0000
  {
  }

  /** Below 2^31 updates the counter always fits, and so does the int sum that is computed from it. */
  lemma CasFits(c: Config, s: CasState, t: nat)
    requires CasInv(c, s) && c.threads * c.iterations < 0x8000_0000 && t < |s.pcs| && s.pcs[t].Load?
    ensures ToInt(s.counter) == s.counter && -0x8000_0000 <= s.counter + c.Delta(s.pcs[t].n) < 0x8000_0000
  {
    BalanceInRange(c, CasDones(c, s.pcs));
    if s.pcs[t].n < c.iterations {
      BalanceBelowMaximum(c, CasDones(c, s.pcs), t);
    }
  }

  // ----- every run ends

  /** Steps a thread may take until its next update, if no other thread updates before: a stale load has to be
      repeated. */
  function CasAhead(counter: int, pc: CasPc): nat {
    match pc
    case Load(_) => 2
    case Swap(_, orig) => if orig == counter then 1 else 3
    case Over => 0
  }

  function CasPotential(c: Config, pcs: seq<CasPc>, counter: int): int {
    if pcs == [] then 0
    else
      var pc := pcs[|pcs| - 1];
      CasPotential(c, pcs[..|pcs| - 1], counter) + CasAhead(counter, pc)
        + 2 * c.threads * (c.Updates() - CasDone(c, pc))
  }

  lemma Product(a: nat, b: nat)
    ensures 2 * a * b >= 0
  {
  }

  lemma {:induction false} PotentialNotNegative(c: Config, pcs: seq<CasPc>, counter: int)
    requires forall t :: 0 <= t < |pcs| ==> CasPcOk(c, pcs[t])
    ensures CasPotential(c, pcs, counter) >= 0
  {
    if pcs != [] {
      PotentialNotNegative(c, pcs[..|pcs| - 1], counter);
      Product(c.threads, c.Updates() - CasDone(c, pcs[|pcs| - 1]));
    }
  }

  lemma {:induction false} PotentialOfUpdate(c: Config, pcs: seq<CasPc>, counter: int, t: nat, pc: CasPc)
    requires t < |pcs|
    ensures CasPotential(c, pcs[t := pc], counter) == CasPotential(c, pcs, counter)
              + CasAhead(counter, pc) - CasAhead(counter, pcs[t])
              + 2 * c.threads * (CasDone(c, pcs[t]) - CasDone(c, pc))
  {
    var last := |pcs| - 1;
    if t < last {
      PotentialOfUpdate(c, pcs[..last], counter, t, pc);
      assert pcs[t := pc][..last] == pcs[..last][t := pc];
    } else {
      assert pcs[t := pc][..last] == pcs[..last];
      var k: int, a: int, b: int := 2 * c.threads, CasDone(c, pcs[t]), CasDone(c, pc);
      assert k * (c.Updates() - b) == k * (c.Updates() - a) + k * (a - b);
    }
  }

  /** An update makes at most the loads of the other threads stale. */
  lemma {:induction false} PotentialOfChange(c: Config, pcs: seq<CasPc>, counter: int, counter': int)
    ensures CasPotential(c, pcs, counter') <= CasPotential(c, pcs, counter) + 2 * |pcs|
  {
    if pcs != [] {
      PotentialOfChange(c, pcs[..|pcs| - 1], counter, counter');
    }
  }

  /** Every step lowers the potential, failing swaps included: a swap fails only because another one succeeded. */
  lemma CasStepComesCloser(c: Config, s: CasState, t: nat)
    requires CasInv(c, s) && c.threads * c.iterations < 0x8000_0000 && t < |s.pcs| && !s.pcs[t].Over?
    ensures var s' := CasStep(c, s, t);
      CasPotential(c, s'.pcs, s'.counter) < CasPotential(c, s.pcs, s.counter)
  {
    var s' := CasStep(c, s, t);
    PotentialOfUpdate(c, s.pcs, s.counter, t, s'.pcs[t]);
    if s.pcs[t].Load? {
      CasFits(c, s, t);
    } else if s.counter == s.pcs[t].orig {
      OneUpdate(c, s, t);
    }
  }

  lemma OneUpdate(c: Config, s: CasState, t: nat)
    requires |s.pcs| == c.threads && t < |s.pcs| && s.pcs[t].Swap? && s.counter == s.pcs[t].orig && CasPcOk(c, s.pcs[t])
    ensures var s' := CasStep(c, s, t);
      CasPotential(c, s'.pcs, s'.counter) < CasPotential(c, s.pcs, s.counter)
  {
    var s' := CasStep(c, s, t);
    var n: int := s.pcs[t].n;
    // Seen from the new counter value, this thread had a stale load before the step.
    PotentialOfUpdate(c, s.pcs, s'.counter, t, s'.pcs[t]);
    PotentialOfChange(c, s.pcs, s.counter, s'.counter);
    assert CasAhead(s'.counter, s.pcs[t]) == 3;
    assert CasDone(c, s'.pcs[t]) == n + 1;
    assert 2 * c.threads * (n - (n + 1)) == -2 * c.threads;
  }

  ghost predicate CasLeads(c: Config, s: CasState, schedule: seq<nat>, s': CasState)
    decreases |schedule|
  {
    if schedule == [] then s' == s
    else
      && schedule[0] < |s.pcs| && !s.pcs[schedule[0]].Over?
      && CasLeads(c, CasStep(c, s, schedule[0]), schedule[1..], s')
  }

  lemma {:induction false} CasRunsFrom(c: Config, s: CasState, schedule: seq<nat>, s': CasState)
    requires CasInv(c, s) && c.threads * c.iterations < 0x8000_0000 && CasLeads(c, s, schedule, s')
    ensures CasInv(c, s') && |schedule| <= CasPotential(c, s.pcs, s.counter)
    decreases |schedule|
  {
    if schedule == [] {
      PotentialNotNegative(c, s.pcs, s.counter);
    } else {
      CasStepInv(c, s, schedule[0]);
      CasStepComesCloser(c, s, schedule[0]);
      CasRunsFrom(c, CasStep(c, s, schedule[0]), schedule[1..], s');
    }
  }

  lemma {:induction false} PotentialAtStart(c: Config, pcs: seq<CasPc>)
    requires forall t :: 0 <= t < |pcs| ==> pcs[t] == CasNext(c, 0)
    ensures CasPotential(c, pcs, 0) <= |pcs| * (2 + 2 * c.threads * c.Updates())
  {
    if pcs != [] {
      var k := 2 + 2 * c.threads * c.Updates();
      PotentialAtStart(c, pcs[..|pcs| - 1]);
      assert |pcs| * k == (|pcs| - 1) * k + k;
      assert c.Updates() == 0 ==> 2 * c.threads * c.Updates() == 0;
    }
  }

  /** Below 2^31 updates, in every run of the compare-and-swap version, the counter is at all times the increments
      completed minus the decrements completed; the run is no longer than the number of threads and updates allows,
      and it ends with the counter back at 0. */
  lemma CasRuns(c: Config, s: CasState, schedule: seq<nat>, s': CasState)
    requires CasInit(c, s) && c.threads * c.iterations < 0x8000_0000 && CasLeads(c, s, schedule, s')
    ensures |s'.pcs| == c.threads && s'.counter == Balance(c, CasDones(c, s'.pcs))
    ensures |schedule| <= c.threads * (2 + 2 * c.threads * c.Updates())
    ensures (forall t :: 0 <= t < |s'.pcs| ==> s'.pcs[t].Over?) ==> s'.counter == 0
  {
    CasInitInv(c, s);
    CasRunsFrom(c, s, schedule, s');
    PotentialAtStart(c, s.pcs);
    CasCounts(c, s');
  }

  // ----- too many updates for an int

  // Every thread is about to load, and has no decrement behind it.
  ghost predicate Raising(c: Config, s: CasState) {
    CasInv(c, s) && c.iterations > 0 && forall t :: 0 <= t < |s.pcs| ==> s.pcs[t].Load? && s.pcs[t].n <= c.iterations
  }

  lemma {:induction false} AllRaised(c: Config, done: seq<nat>)
    requires forall t :: 0 <= t < |done| ==> done[t] == c.iterations
    ensures Balance(c, done) == |done| * c.iterations
  {
    if done != [] {
      AllRaised(c, done[..|done| - 1]);
      assert |done| * c.iterations == (|done| - 1) * c.iterations + c.iterations;
    }
  }

  lemma SomeoneRaises(c: Config, s: CasState) returns (t: nat)
    requires Raising(c, s) && s.counter < c.threads * c.iterations
    ensures t < |s.pcs| && s.pcs[t].n < c.iterations
  {
    if forall t :: 0 <= t < |s.pcs| ==> s.pcs[t].n == c.iterations {
      AllRaised(c, CasDones(c, s.pcs));
    }
    t :| t < |s.pcs| && s.pcs[t].n < c.iterations;
  }

  // Undisturbed increments take the counter to any value that an int can have.
  lemma {:induction false} CanRaise(c: Config, s: CasState, goal: int) returns (schedule: seq<nat>, s': CasState)
    requires Raising(c, s) && s.counter <= goal <= c.threads * c.iterations && goal < 0x8000_0000
    ensures CasLeads(c, s, schedule, s') && Raising(c, s') && s'.counter == goal
    decreases goal - s.counter
  {
    if s.counter == goal {
      return [], s;
    }
    var t := SomeoneRaises(c, s);
    CasStepInv(c, s, t);
    BalanceInRange(c, CasDones(c, s.pcs));
    var s1 := CasStep(c, s, t);
    CasStepInv(c, s1, t);
    var s2 := CasStep(c, s1, t);
    schedule, s' := CanRaise(c, s2, goal);
    assert ([t] + schedule)[1..] == schedule && ([t, t] + schedule)[1..] == [t] + schedule;
    assert CasLeads(c, s1, [t] + schedule, s');
    schedule := [t, t] + schedule;
  }

  /** From 2^31 increments on there is a run in which the int sum overflows, so the bound is exact. */
  lemma CasCanOverflow(c: Config, s: CasState) returns (schedule: seq<nat>, s': CasState, t: nat)
    requires CasInit(c, s) && c.threads * c.iterations >= 0x8000_0000
    ensures CasLeads(c, s, schedule, s') && t < |s'.pcs| && s'.pcs[t].Load? && ToInt(s'.counter) == s'.counter
    ensures s'.counter + c.Delta(s'.pcs[t].n) == 0x8000_0000
  {
    CasInitInv(c, s);
    assert c.iterations > 0 by {
      assert c.iterations == 0 ==> c.threads * c.iterations == 0;
    }
    schedule, s' := CanRaise(c, s, 0x7FFF_FFFF);
    t := SomeoneRaises(c, s');
  }

  // ----- runs under a lock

  ghost predicate LockLeads(c: Config, s: LockState, schedule: seq<nat>, s': LockState)
    decreases |schedule|
  {
    if schedule == [] then s' == s
    else
      && schedule[0] < |s.pcs| && LockEnabled(s, schedule[0])
      && LockLeads(c, LockStep(c, s, schedule[0]), schedule[1..], s')
  }

  /** How many steps a thread has before it. */
  function LockAhead(c: Config, pc: LockPc): int {
    match pc
    case Acquire(n) => 4 * (c.Updates() - n)
    case Read(n) => 4 * (c.Updates() - n) - 1
    case Write(n, _) => 4 * (c.Updates() - n) - 2
    case Release(n) => 4 * (c.Updates() - n) - 3
    case Finished => 0
  }

  function AheadOfAll(c: Config, pcs: seq<LockPc>): int {
    if pcs == [] then 0 else AheadOfAll(c, pcs[..|pcs| - 1]) + LockAhead(c, pcs[|pcs| - 1])
  }

  lemma {:induction false} AheadOfUpdate(c: Config, pcs: seq<LockPc>, t: nat, pc: LockPc)
    requires t < |pcs|
    ensures AheadOfAll(c, pcs[t := pc]) == AheadOfAll(c, pcs) + LockAhead(c, pc) - LockAhead(c, pcs[t])
  {
    var last := |pcs| - 1;
    if t < last {
      AheadOfUpdate(c, pcs[..last], t, pc);
      assert pcs[t := pc][..last] == pcs[..last][t := pc];
    } else {
      assert pcs[t := pc][..last] == pcs[..last];
    }
  }

  lemma {:induction false} AheadInRange(c: Config, pcs: seq<LockPc>)
    requires forall t :: 0 <= t < |pcs| ==> LockPcOk(c, pcs[t])
    ensures 0 <= AheadOfAll(c, pcs) <= |pcs| * (4 * c.Updates())
  {
    if pcs != [] {
      var k := 4 * c.Updates();
      AheadInRange(c, pcs[..|pcs| - 1]);
      assert |pcs| * k == (|pcs| - 1) * k + k;
    }
  }

  lemma {:induction false} LockRunsFrom(c: Config, s: LockState, schedule: seq<nat>, s': LockState)
    requires LockInv(c, s) && LockLeads(c, s, schedule, s')
    ensures LockInv(c, s') && |schedule| <= AheadOfAll(c, s.pcs)
    decreases |schedule|
  {
    if schedule == [] {
      AheadInRange(c, s.pcs);
    } else {
      var t, next := schedule[0], LockStep(c, s, schedule[0]);
      LockStepInv(c, s, t);
      AheadOfUpdate(c, s.pcs, t, next.pcs[t]);
      LockRunsFrom(c, next, schedule[1..], s');
    }
  }

  /** In every run of the mutex and spinlock versions, however large the counts, no two threads are in the critical
      section, and the counter is at all times the increments completed minus the decrements completed. The run is no
      longer than the threads have steps to do, and when it cannot go on all threads have finished with the counter
      back at 0. */
  lemma LockRuns(c: Config, s: LockState, schedule: seq<nat>, s': LockState)
    requires LockInit(c, s) && LockLeads(c, s, schedule, s')
    ensures |s'.pcs| == c.threads && s'.counter == Balance(c, LockDones(c, s'.pcs))
    ensures forall t, u :: 0 <= t < |s'.pcs| && 0 <= u < |s'.pcs| && InSection(s'.pcs[t]) && InSection(s'.pcs[u]) ==>
            t == u
    ensures |schedule| <= c.threads * (4 * c.Updates())
    ensures (forall t :: 0 <= t < |s'.pcs| ==> !LockEnabled(s', t)) ==>
      s'.counter == 0 && forall t :: 0 <= t < |s'.pcs| ==> s'.pcs[t].Finished?
  {
    LockInitInv(c, s);
    LockRunsFrom(c, s, schedule, s');
    AheadInRange(c, s.pcs);
    LockCounts(c, s');
    forall t, u | 0 <= t < |s'.pcs| && 0 <= u < |s'.pcs| && InSection(s'.pcs[t]) && InSection(s'.pcs[u])
      ensures t == u
    {
      LockExcludes(c, s', t, u);
    }
    forall t | 0 <= t < |s'.pcs| && !s'.pcs[t].Finished? ensures exists u :: 0 <= u < |s'.pcs| && LockEnabled(s', u) {
      var u := LockMoves(c, s', t);
    }
  }
}
