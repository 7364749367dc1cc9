/** Round robin: who is picked, and how soon. */
module Scheduling {
  import opened Words
  import opened Processes
  import opened ProcessTree
  import opened ProcessRuns

  /** How many steps of the cycle lead from just after `c` to `p`. */
  function Distance(n: int, c: int, p: int): int { if p > c then p - c else p - c + n }

  /** The pick is the first runnable slot in cyclic order after the current one. */
  lemma PicksFirst(procs: seq<Proc>, c: int)
    requires 0 <= c < |procs| && exists i :: 0 <= i < |procs| && Runnable(procs[i])
    ensures var x := Next(procs, c, 1);
            && 0 <= x < |procs| && Runnable(procs[x])
            && forall p :: 0 <= p < |procs| && Runnable(procs[p]) ==> Distance(|procs|, c, x) <= Distance(|procs|, c, p)
  {
    NextExists(procs, c);
    NextFinds(procs, c, 1);
    forall p | 0 <= p < |procs| && Runnable(procs[p])
      ensures Distance(|procs|, c, Next(procs, c, 1)) <= Distance(|procs|, c, p)
    {
      Round(|procs|, c, p);
    }
  }

  /** Each pick that passes over a runnable slot comes closer to it. */
  lemma Nearer(procs: seq<Proc>, c: int, p: int)
    requires 0 <= c < |procs| && 0 <= p < |procs| && Runnable(procs[p])
    ensures var x := Next(procs, c, 1);
            0 <= x < |procs| && (x == p || Distance(|procs|, x, p) < Distance(|procs|, c, p))
  {
    PicksFirst(procs, c);
  }

  /** A step that schedules runs `p` or brings its turn nearer; any other leaves it as near. */
  lemma NearerStep(s: Kern, e: Event, s': Kern, p: int)
    requires Step(s, e, s') && Slot(s', p) && Runnable(s'.procs[p])
    ensures |s'.procs| == |s.procs| && Slot(s', s'.current)
    ensures var n := |s.procs|;
            if Schedules(e) then s'.current == p || Distance(n, s'.current, p) < Distance(n, s.current, p)
            else s'.current == s.current
  {
    if Schedules(e) { Nearer(s'.procs, s.current, p); }
  }

  /** How many steps from `k` up to `m` run `schedule`. */
  function Turns(es: seq<Event>, k: nat, m: nat): nat
    requires k <= m <= |es|
    decreases m - k
  {
    if k == m then 0 else (if Schedules(es[k]) then 1 else 0) + Turns(es, k + 1, m)
  }

  /** No starvation: a process that can run from step `k` on is run before `schedule` has been
      called as often as its distance from the process current then, at most the number of slots. */
  lemma {:induction false} PickedWithin(ss: seq<Kern>, es: seq<Event>, p: int, k: nat, m: nat)
    requires Run(ss, es) && k <= m <= |es| && Slot(ss[k], ss[k].current) && Slot(ss[k], p)
    requires forall t :: k < t <= m ==> Slot(ss[t], p) && Runnable(ss[t].procs[p])
    requires Turns(es, k, m) >= Distance(|ss[k].procs|, ss[k].current, p)
    ensures 1 <= Distance(|ss[k].procs|, ss[k].current, p) <= |ss[k].procs|
    ensures exists t :: k <= t < m && Schedules(es[t]) && ss[t + 1].current == p
    decreases m - k
  {
    assert Step(ss[k], es[k], ss[k + 1]);
    NearerStep(ss[k], es[k], ss[k + 1], p);
    if ss[k + 1].current != p || !Schedules(es[k]) {
      PickedWithin(ss, es, p, k + 1, m);
    }
  }
}
