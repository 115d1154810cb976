// The scan that both kernels use to pick the next process, and why nobody
// waits for it longer than one turn of all the others.
module RoundRobin {

  // The result of a scan of n slots: none ready means that the kernel spins for ever.
  datatype Choice = Picked(pid: nat) | NoneReady

  /** pid = (pid + 1) % n until a ready slot comes up, for at most 'tries' rounds. */
  function Scan(ready: seq<bool>, pid: nat, tries: nat): Choice
    requires pid < |ready|
    decreases tries
  {
    if tries == 0 then NoneReady
    else
      var next := (pid + 1) % |ready|;
      if ready[next] then Picked(next) else Scan(ready, next, tries - 1)
  }

  /** How many slots the scan looks at from 'pid' until it comes to p: 1 for the next slot, n for pid itself. */
  function Distance(n: nat, pid: nat, p: nat): (d: nat)
    requires pid < n && p < n
    ensures 1 <= d <= n
    ensures d == n <==> p == pid
  {
    if p > pid then p - pid else p + n - pid
  }

  lemma DistanceNext(n: nat, pid: nat, p: nat)
    requires pid < n && p < n
    ensures (pid + 1) % n < n
    ensures Distance(n, pid, p) == if p == (pid + 1) % n then 1 else 1 + Distance(n, (pid + 1) % n, p)
  {
    if pid + 1 < n {
      assert (pid + 1) % n == pid + 1;
    } else {
      assert (pid + 1) % n == 0;
    }
  }

  /** The scan picks the ready slot that is nearest, if one is within reach. */
  lemma {:induction false} ScanPicksNearest(ready: seq<bool>, pid: nat, tries: nat, p: nat)
    requires pid < |ready| && p < |ready| && ready[p]
    ensures Distance(|ready|, pid, p) <= tries ==> Scan(ready, pid, tries).Picked?
    ensures var c := Scan(ready, pid, tries);
      c.Picked? ==> c.pid < |ready| && ready[c.pid] && Distance(|ready|, pid, c.pid) <= Distance(|ready|, pid, p)
    decreases tries
  {
    var next := (pid + 1) % |ready|;
    DistanceNext(|ready|, pid, p);
    if tries > 0 && !ready[next] {
      ScanPicksNearest(ready, next, tries - 1, p);
      var c := Scan(ready, next, tries - 1);
      if c.Picked? {
        DistanceNext(|ready|, pid, c.pid);
      }
    } else if tries > 0 {
      DistanceNext(|ready|, pid, next);
    }
  }

  /** One round of all slots is enough, and spinning on means that none is ready. */
  lemma ScanIsComplete(ready: seq<bool>, pid: nat)
    requires pid < |ready|
    ensures Scan(ready, pid, |ready|).NoneReady? <==> forall p :: 0 <= p < |ready| ==> !ready[p]
    ensures Scan(ready, pid, |ready|).Picked? ==>
              Scan(ready, pid, |ready|).pid < |ready| && ready[Scan(ready, pid, |ready|).pid]
  {
    if p :| 0 <= p < |ready| && ready[p] {
      ScanPicksNearest(ready, pid, |ready|, p);
    } else {
      ScanNothing(ready, pid, |ready|);
    }
  }

  lemma {:induction false} ScanNothing(ready: seq<bool>, pid: nat, tries: nat)
    requires pid < |ready| && forall p :: 0 <= p < |ready| ==> !ready[p]
    ensures Scan(ready, pid, tries).NoneReady?
    decreases tries
  {
    if tries > 0 {
      ScanNothing(ready, (pid + 1) % |ready|, tries - 1);
    }
  }

  /** Every decision that does not pick a ready slot p brings the scan closer to it. */
  lemma ComesCloser(ready: seq<bool>, pid: nat, p: nat)
    requires pid < |ready| && p < |ready| && ready[p]
    ensures Scan(ready, pid, |ready|).Picked? && Scan(ready, pid, |ready|).pid < |ready|
    ensures var q := Scan(ready, pid, |ready|).pid;
            q == p || Distance(|ready|, q, p) < Distance(|ready|, pid, p)
  {
    ScanPicksNearest(ready, pid, |ready|, p);
  }

  // What the scheduler sees at successive decisions; between them anything may become ready or stop being ready.
  /** The slots picked at the decisions, starting from 'pid'. */
  ghost predicate Picks(views: seq<seq<bool>>, pid: nat, picks: seq<nat>, n: nat)
    requires |picks| == |views|
    decreases |views|
  {
    views == [] ||
    (&& |views[0]| == n && pid < n && Scan(views[0], pid, n) == Picked(picks[0])
     && Picks(views[1..], picks[0], picks[1..], n))
  }

  /** Bounded waiting: a slot that is ready at n decisions in a row is picked at one of them. */
  lemma {:induction false} BoundedWaiting(views: seq<seq<bool>>, pid: nat, picks: seq<nat>, n: nat, p: nat)
    requires |picks| == |views| && pid < n && p < n && Picks(views, pid, picks, n)
    requires forall i :: 0 <= i < |views| ==> |views[i]| == n && views[i][p]
    requires |views| >= Distance(n, pid, p)
    ensures p in picks[..Distance(n, pid, p)]
    decreases |views|
  {
    ComesCloser(views[0], pid, p);
    var q := picks[0];
    if q != p {
      BoundedWaiting(views[1..], q, picks[1..], n, p);
      var d := Distance(n, q, p);
      assert picks[1..][..d] == picks[1..1 + d];
      var i :| 0 <= i < d && picks[1..][i] == p;
      assert picks[..Distance(n, pid, p)][1 + i] == p;
    } else {
      assert picks[..Distance(n, pid, p)][0] == p;
    }
  }
}
