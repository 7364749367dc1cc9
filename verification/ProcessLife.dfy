/** The lives of processes over whole runs: a child from its fork to its parent's `waitpid`, a
    sleeper from its pause to its signal, and the clock. */
module ProcessLife {
  import opened Words
  import opened Processes
  import opened ProcessTree
  import opened FileAccounts
  import opened ProcessRuns
  import opened StepLaws
  import opened KernelTables

  predicate Exits(s: Kern, e: Event, p: int) { e.SysExit? && s.current == p }

  // ----- children

  /** The parent after any sequence of steps: the one that forked, or process 0 once that one is gone. */
  lemma {:induction false} ChildRun(ss: seq<Kern>, es: seq<Event>, p: int, c: int, k: nat, m: nat)
    requires Run(ss, es) && Inv(ss[0]) && k <= m <= |es| && c in Kids(ss[k].procs, p)
    requires forall t :: k <= t < m ==> !Reaps(es[t], c)
    ensures c in Kids(ss[m].procs, if forall t :: k <= t < m ==> !Exits(ss[t], es[t], p) then p else 0)
    decreases m
  {
    if m > k {
      var t := m - 1;
      ChildRun(ss, es, p, c, k, t);
      RunKeeps(ss, es, t);
      assert Step(ss[t], es[t], ss[m]);
      UseLaw(ss[t], es[t], ss[m], c);
      ParentLaw(ss[t], es[t], ss[m], c);
    }
  }

  /** A forked child is a child of the process that forked it until that process exits, and from
      then on of process 0, as long as nobody has reaped it. */
  lemma ForkedChild(ss: seq<Kern>, es: seq<Event>, c: int, k: nat, m: nat)
    requires Run(ss, es) && Inv(ss[0]) && k < m <= |es| && es[k] == SysFork(c)
    requires forall t :: k < t < m ==> !Reaps(es[t], c)
    ensures var p := ss[k].current;
            c in Kids(ss[m].procs, if forall t :: k < t < m ==> !Exits(ss[t], es[t], p) then p else 0)
  {
    RunKeeps(ss, es, k);
    assert Step(ss[k], es[k], ss[k + 1]);
    ForkLaw(ss[k], c, ss[k + 1]);
    ChildRun(ss, es, ss[k].current, c, k + 1, m);
  }

  /** The fork makes the child of somebody else. */
  lemma ForkedApart(ss: seq<Kern>, es: seq<Event>, c: int, k: nat)
    requires Run(ss, es) && Inv(ss[0]) && k < |es| && es[k] == SysFork(c)
    ensures c != ss[k].current
  {
    RunKeeps(ss, es, k);
    assert Step(ss[k], es[k], ss[k + 1]);
    ForkLaw(ss[k], c, ss[k + 1]);
  }

  /** A child forked in step `k` that exited in step `j` is found dead by its parent, with its
      status modulo 256, until it is reaped or the parent exits. */
  lemma ChildDead(ss: seq<Kern>, es: seq<Event>, p: int, c: int, status: int, k: nat, j: nat, m: nat)
    requires Run(ss, es) && Inv(ss[0]) && k < j < m <= |es|
    requires ss[k].current == p && es[k] == SysFork(c)
    requires ss[j].current == c && es[j] == SysExit(status)
    requires forall t :: k < t < m ==> !Reaps(es[t], c) && !Exits(ss[t], es[t], p)
    ensures Matches(ss[m].procs, p, -1, c) && Matches(ss[m].procs, p, c, c)
    ensures IsZombie(ss[m], c) && ss[m].procs[c].exitCode == status % 256
  {
    ForkedApart(ss, es, c, k);
    ForkedChild(ss, es, c, k, m);
    BecomesZombie(ss, es, j, status);
    ZombieRun(ss, es, c, j + 1, m);
  }

  /** A scan beside a dead child that it waits for reaps, and when it waits for that child alone,
      it reaps that one. */
  lemma DeadIsReaped(s: Kern, pid: int, c: int, noHang: bool, r: Waited, s': Kern)
    requires Slot(s, s.current) && Outcome(s, pid, noHang, r, s')
    requires Matches(s.procs, s.current, pid, c) && IsZombie(s, c)
    ensures r.Reaped? && exists i ::
              && IsFirstDead(s.procs, s.current, pid, i) && i <= c
              && r == Reaped(i % 256, s.procs[i].exitCode) && !InUse(s', i)
    ensures pid == c ==> r == Reaped(c % 256, s.procs[c].exitCode) && !InUse(s', c)
  {
    assert !NoneDead(s.procs, s.current, pid);
    var i :| Slot(s, i) && Step(s, SysReap(pid, i), s') && r == Reaped(i % 256, s.procs[i].exitCode);
    assert IsFirstDead(s.procs, s.current, pid, i) && !InUse(s', i) && i <= c;
  }

  /** Whatever `waitpid` the parent then calls, for any child or for this one, with or without
      WNOHANG, it reaps a child; asked for this one, it returns this one and its status. */
  lemma ChildReported(ss: seq<Kern>, es: seq<Event>, p: int, c: int, status: int, k: nat, j: nat, m: nat,
                      pid: int, noHang: bool, r: Waited, s': Kern)
    requires Run(ss, es) && Inv(ss[0]) && k < j < m <= |es|
    requires ss[k].current == p && es[k] == SysFork(c)
    requires ss[j].current == c && es[j] == SysExit(status)
    requires forall t :: k < t < m ==> !Reaps(es[t], c) && !Exits(ss[t], es[t], p)
    requires ss[m].current == p && Slot(ss[m], p) && (pid == -1 || pid == c) && Outcome(ss[m], pid, noHang, r, s')
    ensures r.Reaped? && (pid == c ==> r == Reaped(c % 256, status % 256) && !InUse(s', c))
  {
    ChildDead(ss, es, p, c, status, k, j, m);
    DeadIsReaped(ss[m], pid, c, noHang, r, s');
  }

  // ----- a wait from its pause to its return

  /** The slot is as it was to a scan of `waitpid`. */
  predicate Rested(s: Kern, t: Kern, i: int)
    requires Slot(s, i) && Slot(t, i)
  {
    var p, q := s.procs[i], t.procs[i];
    q.inUse == p.inUse && q.parent == p.parent && q.status == p.status && q.exitCode == p.exitCode
  }

  lemma SameMatches(s: Kern, t: Kern, p: int, pid: int)
    requires |t.procs| == |s.procs| && forall i :: InUse(t, i) <==> InUse(s, i)
    requires forall i :: InUse(s, i) ==> Rested(s, t, i)
    ensures forall i :: Matches(t.procs, p, pid, i) <==> Matches(s.procs, p, pid, i)
    ensures forall i :: IsFirstDead(t.procs, p, pid, i) <==> IsFirstDead(s.procs, p, pid, i)
  {
    forall i ensures Matches(t.procs, p, pid, i) <==> Matches(s.procs, p, pid, i) {
      if 0 <= i < |s.procs| { assert InUse(t, i) <==> InUse(s, i); }
    }
    forall i | Matches(s.procs, p, pid, i) ensures t.procs[i].status == s.procs[i].status { assert InUse(s, i); }
  }

  /** A waiter that runs again beside an awaited dead child: signals other than SIGCHLD stay
      pending, and when there is none, the scan that follows reaps. */
  lemma WaitReturns(ss: seq<Kern>, es: seq<Event>, p: int, pid: int, c: int, k: nat, m: nat,
                    noHang: bool, r: Waited, s': Kern)
    requires Run(ss, es) && Inv(ss[0]) && k < m < |es|
    requires ss[k].current == p && es[k] == SysBlock(pid)
    requires forall t :: k < t < m ==> !Returns(ss[t], es[t], p)
    requires Returns(ss[m], es[m], p) && Matches(ss[m].procs, p, pid, c) && IsZombie(ss[m], c)
    requires Slot(ss[m + 1], ss[m + 1].current) && Outcome(ss[m + 1], pid, noHang, r, s')
    ensures ss[m + 1].current == p && InUse(ss[m], p) && InUse(ss[m + 1], p) && ss[m + 1].procs[p].control == User
    ensures ss[m].procs[p].control.InWait? && ss[m].procs[p].control.pid == pid
    ensures ss[m + 1].procs[p].signal == ss[m].procs[p].signal - {SIGCHLD}
    ensures r.Reaped? && exists i ::
              && IsFirstDead(ss[m].procs, p, pid, i) && i <= c
              && r == Reaped(i % 256, ss[m].procs[i].exitCode) && !InUse(s', i)
    ensures pid == c ==> r == Reaped(c % 256, ss[m].procs[c].exitCode) && !InUse(s', c)
  {
    WaitRun(ss, es, p, pid, k, m);
    RunKeeps(ss, es, m);
    var s, t := ss[m], ss[m + 1];
    assert Step(s, es[m], t);
    CurrentLaw(s, es[m], t);
    ResumeLaw(s, t);
    forall i | InUse(s, i) ensures Slot(t, i) && Rested(s, t, i) {
      UseLaw(s, es[m], t, i);
      ParentLaw(s, es[m], t, i);
      StatusLaw(s, es[m], t, i);
      RestLaw(s, es[m], t, i);
    }
    forall i { UseLaw(s, es[m], t, i); }
    SameMatches(s, t, p, pid);
    DeadIsReaped(t, pid, c, noHang, r, s');
  }

  /** The child is there to wait for when its parent pauses. */
  lemma WaitedFor(ss: seq<Kern>, es: seq<Event>, p: int, c: int, f: nat, k: nat)
    requires Run(ss, es) && Inv(ss[0]) && f < k < |es|
    requires ss[f].current == p && es[f] == SysFork(c)
    requires forall t :: f < t < k ==> !Reaps(es[t], c) && !Exits(ss[t], es[t], p)
    ensures Matches(ss[k].procs, p, c, c)
  {
    ForkedApart(ss, es, c, f);
    ForkedChild(ss, es, c, f, k);
  }

  /** An ordinary wait, whole: a process forks a child and pauses in `waitpid` for it; the child
      exits; from then on the parent can run, and when it does with no signal but SIGCHLD
      pending, nothing interrupts it and `waitpid` returns that child with its status modulo 256. */
  lemma ForkExitWait(ss: seq<Kern>, es: seq<Event>, p: int, c: int, status: int, f: nat, k: nat, j: nat, m: nat,
                     noHang: bool, r: Waited, s': Kern)
    requires Run(ss, es) && Inv(ss[0]) && f < k < j < m < |es|
    requires ss[f].current == p && es[f] == SysFork(c)
    requires ss[k].current == p && es[k] == SysBlock(c)
    requires ss[j].current == c && es[j] == SysExit(status)
    requires forall t :: f < t < m ==> !Reaps(es[t], c) && !Exits(ss[t], es[t], p)
    requires forall t :: k < t < m ==> !Returns(ss[t], es[t], p)
    requires Returns(ss[m], es[m], p) && Slot(ss[m], p) && ss[m].procs[p].signal <= {SIGCHLD}
    requires Slot(ss[m + 1], ss[m + 1].current) && Outcome(ss[m + 1], c, noHang, r, s')
    ensures forall t :: j < t <= m ==> InUse(ss[t], p) && Runnable(ss[t].procs[p])
    ensures ss[m + 1].current == p && InUse(ss[m + 1], p) && ss[m + 1].procs[p].signal == {}
    ensures r == Reaped(c % 256, status % 256) && !InUse(s', c)
  {
    forall t | j < t <= m ensures InUse(ss[t], p) && Runnable(ss[t].procs[p]) {
      ChildDead(ss, es, p, c, status, f, j, t);
      WaitedFor(ss, es, p, c, f, k);
      NoLostWakeUp(ss, es, p, c, c, k, t);
    }
    ChildDead(ss, es, p, c, status, f, j, m);
    WaitReturns(ss, es, p, c, c, k, m, noHang, r, s');
  }

  // ----- sleepers

  /** The step runs `schedule` and leaves `p` with a signal pending. */
  predicate Roused(e: Event, s': Kern, p: int) { Schedules(e) && Slot(s', p) && s'.procs[p].signal != {} }

  /** A step leaves a sleeper asleep exactly when it does not rouse it. */
  lemma SleepStep(s: Kern, e: Event, s': Kern, p: int)
    requires TreeInv(s) && Step(s, e, s') && InUse(s, p)
    requires s.procs[p].status == Interruptible || (s.current == p && e.SysPause?)
    ensures InUse(s', p) && s'.procs[p].status == if Roused(e, s', p) then Running else Interruptible
  {
    UseLaw(s, e, s', p);
    StatusLaw(s, e, s', p);
    if e.SysExit? && Cur(s).parent == p { SignalLaw(s, e, s', p, SIGCHLD); }
  }

  lemma SleepNext(ss: seq<Kern>, es: seq<Event>, p: int, t: nat)
    requires Run(ss, es) && Inv(ss[0]) && t < |es| && InUse(ss[t], p)
    requires ss[t].procs[p].status == Interruptible || (ss[t].current == p && es[t].SysPause?)
    ensures InUse(ss[t + 1], p)
    ensures ss[t + 1].procs[p].status == if Roused(es[t], ss[t + 1], p) then Running else Interruptible
    ensures ss[t + 1].current == p ==> Roused(es[t], ss[t + 1], p)
  {
    RunKeeps(ss, es, t);
    RunKeeps(ss, es, t + 1);
    assert Step(ss[t], es[t], ss[t + 1]);
    SleepStep(ss[t], es[t], ss[t + 1], p);
  }

  predicate Sleeping(s: Kern, p: int) { InUse(s, p) && s.procs[p].status == Interruptible && s.current != p }

  predicate KeepsSleeping(s: Kern, t: Kern, p: int) { Sleeping(s, p) ==> Sleeping(t, p) }

  lemma {:induction false} SleepsAlong(ss: seq<Kern>, p: int, k: nat, m: nat)
    requires k <= m < |ss| && Sleeping(ss[k], p) && forall t :: k <= t < m ==> KeepsSleeping(ss[t], ss[t + 1], p)
    ensures Sleeping(ss[m], p)
    decreases m
  {
    if m > k {
      SleepsAlong(ss, p, k, m - 1);
      assert KeepsSleeping(ss[m - 1], ss[m], p);
    }
  }

  lemma PausedRun(ss: seq<Kern>, es: seq<Event>, p: int, k: nat, m: nat)
    requires Run(ss, es) && Inv(ss[0]) && k < m <= |es| && ss[k].current == p && es[k] == SysPause
    requires forall t :: k <= t < m ==> !Roused(es[t], ss[t + 1], p)
    ensures Sleeping(ss[m], p)
  {
    RunKeeps(ss, es, k);
    SleepNext(ss, es, p, k);
    forall t | k < t < m ensures KeepsSleeping(ss[t], ss[t + 1], p) {
      if Sleeping(ss[t], p) { SleepNext(ss, es, p, t); }
    }
    SleepsAlong(ss, p, k + 1, m);
  }

  /** A process that pauses sleeps, and does not run, until the first `schedule` that finds a
      signal of its pending, be it the one in its own pause; that one makes it run. */
  lemma PauseEnds(ss: seq<Kern>, es: seq<Event>, p: int, k: nat, m: nat)
    requires Run(ss, es) && Inv(ss[0]) && k <= m < |es| && ss[k].current == p && es[k] == SysPause
    requires forall t :: k <= t < m ==> !Roused(es[t], ss[t + 1], p)
    ensures forall t :: k < t <= m ==> ss[t].current != p
    ensures InUse(ss[m + 1], p) && (Runnable(ss[m + 1].procs[p]) <==> Roused(es[m], ss[m + 1], p))
  {
    forall t | k < t <= m ensures ss[t].current != p { PausedRun(ss, es, p, k, t); }
    if m > k { PausedRun(ss, es, p, k, m); }
    RunKeeps(ss, es, m);
    SleepNext(ss, es, p, m);
  }

  /** `alarm(0)` never rings: until the process sets another, its alarm stays off and no SIGALRM
      comes that was not pending before. */
  lemma {:induction false} AlarmOff(ss: seq<Kern>, es: seq<Event>, p: int, k: nat, m: nat)
    requires Run(ss, es) && Inv(ss[0]) && k < m <= |es| && ss[k].current == p && es[k] == SysAlarm(0)
    requires forall t :: k < t < m ==> !SetsAlarm(ss[t], es[t], p) && !Reaps(es[t], p)
    ensures InUse(ss[k], p) && InUse(ss[m], p) && ss[m].procs[p].alarm == 0
    ensures SIGALRM in ss[m].procs[p].signal <==> SIGALRM in ss[k].procs[p].signal
    decreases m
  {
    var t := m - 1;
    RunKeeps(ss, es, k);
    RunKeeps(ss, es, t);
    if t > k { AlarmOff(ss, es, p, k, t); }
    assert Step(ss[t], es[t], ss[m]);
    UseLaw(ss[t], es[t], ss[m], p);
    AlarmLaw(ss[t], es[t], ss[m], p);
    SignalLaw(ss[t], es[t], ss[m], p, SIGALRM);
  }

  // ----- open files

  predicate LetsGo(s: Kern, e: Event, p: int, g: int) { s.current == p && (e.SysExit? || e == SysClose(g)) }

  ghost predicate Opened(s: Kern, p: int, g: int) {
    InUse(s, p) && 0 <= g < |s.procs[p].files| && s.procs[p].files[g] != -1
  }

  /** In both states slot `g` of process `p` names the same descriptor, on the same inode and at the same place. */
  ghost predicate SameFile(s: Kern, t: Kern, p: int, g: int) {
    && InUse(s, p) && InUse(t, p) && |t.procs[p].files| == |s.procs[p].files| && 0 <= g < |s.procs[p].files|
    && t.procs[p].files[g] == s.procs[p].files[g] && 0 <= s.procs[p].files[g] < |s.descs| == |t.descs|
    && var d := s.procs[p].files[g]; t.descs[d].inode == s.descs[d].inode && t.descs[d].pos == s.descs[d].pos
  }

  lemma FileNext(ss: seq<Kern>, es: seq<Event>, p: int, g: int, t: nat)
    requires Run(ss, es) && Inv(ss[0]) && t < |es| && Opened(ss[t], p, g)
    requires !Reaps(es[t], p) && !LetsGo(ss[t], es[t], p, g)
    ensures SameFile(ss[t], ss[t + 1], p, g)
  {
    var s, e, s' := ss[t], es[t], ss[t + 1];
    RunKeeps(ss, es, t);
    assert Step(s, e, s');
    UseLaw(s, e, s', p);
    FilesLaw(s, e, s', p);
    assert SlotOk(s, s.procs[p].files[g]);
    DescLaw(s, e, s', s.procs[p].files[g]);
  }

  lemma FileHere(ss: seq<Kern>, es: seq<Event>, p: int, g: int, k: nat)
    requires Run(ss, es) && Inv(ss[0]) && k <= |es| && Opened(ss[k], p, g)
    ensures SameFile(ss[k], ss[k], p, g)
  {
    RunKeeps(ss, es, k);
    assert SlotOk(ss[k], ss[k].procs[p].files[g]);
  }

  ghost predicate KeepsFile(s: Kern, t: Kern, p: int, g: int) { Opened(s, p, g) ==> SameFile(s, t, p, g) }

  lemma {:induction false} SameAlong(ss: seq<Kern>, p: int, g: int, k: nat, m: nat)
    requires k <= m < |ss| && Opened(ss[k], p, g) && SameFile(ss[k], ss[k], p, g)
    requires forall t :: k <= t < m ==> KeepsFile(ss[t], ss[t + 1], p, g)
    ensures SameFile(ss[k], ss[m], p, g)
    decreases m
  {
    if m > k {
      SameAlong(ss, p, g, k, m - 1);
      assert KeepsFile(ss[m - 1], ss[m], p, g);
    }
  }

  /** An open file slot names the same descriptor, on the same inode and at the same place, until
      its process closes it or exits, whatever anybody opens, closes or dups besides. */
  lemma FileStays(ss: seq<Kern>, es: seq<Event>, p: int, g: int, k: nat, m: nat)
    requires Run(ss, es) && Inv(ss[0]) && k <= m <= |es| && Opened(ss[k], p, g)
    requires forall t :: k <= t < m ==> !Reaps(es[t], p) && !LetsGo(ss[t], es[t], p, g)
    ensures SameFile(ss[k], ss[m], p, g)
  {
    FileHere(ss, es, p, g, k);
    forall t | k <= t < m ensures KeepsFile(ss[t], ss[t + 1], p, g) {
      if Opened(ss[t], p, g) { FileNext(ss, es, p, g, t); }
    }
    SameAlong(ss, p, g, k, m);
  }

  // ----- the clock

  predicate Beat(e: Event) { e.Clock? || e.KernelClock? }

  /** The clock interrupts among the first `m` steps. */
  ghost function Clocks(es: seq<Event>, m: nat): set<int>
    requires m <= |es|
  {
    set k | 0 <= k < m && Beat(es[k])
  }

  /** A count that starts over before the top. */
  predicate Beats(t: Count, e: Event, t': Count) {
    t' == if !Beat(e) then t else if t < 0xFFFF_FFFE then t + 1 else 0
  }

  /** Every beat is counted, but for whole rounds. */
  lemma {:induction false} CountRun(ts: seq<Count>, es: seq<Event>, m: nat) returns (rounds: nat)
    requires m <= |es| && |ts| == |es| + 1 && ts[0] < 0xFFFF_FFFF
    requires forall k :: 0 <= k < |es| ==> Beats(ts[k], es[k], ts[k + 1])
    ensures ts[m] < 0xFFFF_FFFF && ts[m] + 0xFFFF_FFFF * rounds == ts[0] + |Clocks(es, m)|
    decreases m
  {
    if m == 0 {
      assert Clocks(es, 0) == {};
      rounds := 0;
    } else {
      rounds := CountRun(ts, es, m - 1);
      assert Beats(ts[m - 1], es[m - 1], ts[m]);
      assert Clocks(es, m) == Clocks(es, m - 1) + if Beat(es[m - 1]) then {m - 1} else {};
      if Beat(es[m - 1]) && ts[m] == 0 { rounds := rounds + 1; }
    }
  }

  lemma TicksBeat(ss: seq<Kern>, es: seq<Event>) returns (ts: seq<Count>)
    requires Run(ss, es)
    ensures |ts| == |ss| && forall k :: 0 <= k < |ss| ==> ts[k] == ss[k].ticks
    ensures forall k :: 0 <= k < |es| ==> Beats(ts[k], es[k], ts[k + 1])
  {
    ts := seq(|ss|, i requires 0 <= i < |ss| => ss[i].ticks);
    forall k | 0 <= k < |es| ensures Beats(ts[k], es[k], ts[k + 1]) {
      TicksLaw(ss[k], es[k], ss[k + 1]) by { assert Step(ss[k], es[k], ss[k + 1]); }
    }
  }

  /** `ticks` counts the clock interrupts of a run, inside the kernel or not, modulo 2^32 - 1. */
  lemma TicksRun(ss: seq<Kern>, es: seq<Event>, m: nat)
    requires Run(ss, es) && ss[0].ticks < 0xFFFF_FFFF && m <= |es|
    ensures ss[m].ticks == (ss[0].ticks + |Clocks(es, m)|) % 0xFFFF_FFFF
  {
    var ts := TicksBeat(ss, es);
    var rounds := CountRun(ts, es, m);
    assert ts[m] == ss[m].ticks;
  }
}
