/** Whole runs of the kernel: any sequence of system calls and clock interrupts, in user code or
    inside the kernel. */
module ProcessRuns {
  import opened Words
  import opened Processes
  import opened ProcessTree
  import opened FileAccounts

  /** What the current process, or the clock, does next. Calls that give up the processor
      include the `schedule` that ends them. A call runs with interrupts on, so a clock interrupt
      can fall inside it: `KernelClock`, in which `schedule` returns at once. */
  datatype Event =
    | Clock
    | KernelClock
    | SysPause
    | SysAlarm(seconds: Count)
    | SysFork(pid: int)
    | SysExit(status: int)
    | SysReap(pid: int, child: int)
    | SysBlock(pid: int)
    | Resumed
    | SysOpen(fd: int, d: int, inode: int)
    | SysDup(fd: int, oldfd: int)
    | SysClose(fd: int)

  ghost predicate FreeFd(s: Kern, fd: int) { Slot(s, s.current) && 0 <= fd < |Cur(s).files| && Cur(s).files[fd] == -1 }

  ghost predicate OpenFd(s: Kern, fd: int) { Slot(s, s.current) && 0 <= fd < |Cur(s).files| && Cur(s).files[fd] != -1 }

  ghost predicate Step(s: Kern, e: Event, s': Kern) {
    && Slot(s, s.current)
    && (Cur(s).control == User || e == Resumed || e == KernelClock)
    && match e
       case Clock => CanSchedule(Tick(s)) && s' == Schedule(Tick(s))
       case KernelClock => s' == Tick(s)
       case SysPause => CanSchedule(Pause(s)) && s' == Schedule(Pause(s))
       case SysAlarm(seconds) => s' == Alarm(s, seconds)
       case SysFork(pid) => IsFirstFree(s.procs, pid) && s' == Fork(s, pid)
       case SysExit(status) =>
         && s.current != 0 && 0 <= Cur(s).parent < |s.procs|
         && CanSchedule(Exit(s, status)) && s' == Schedule(Exit(s, status))
       case SysReap(pid, child) => IsFirstDead(s.procs, s.current, pid, child) && s' == Reap(s, child)
       case SysBlock(pid) =>
         && NoneDead(s.procs, s.current, pid) && (exists j :: Matches(s.procs, s.current, pid, j))
         && CanSchedule(Block(s, pid)) && s' == Schedule(Block(s, pid))
       case Resumed => Cur(s).control.InWait? && s' == Resume(s)
       case SysOpen(fd, d, inode) =>
         && FreeFd(s, fd) && 0 <= d < |s.descs| && s.descs[d].inode == -1 && 0 <= inode < |s.inodes|
         && s' == Open(s, fd, d, inode)
       case SysDup(fd, oldfd) =>
         && FreeFd(s, fd) && OpenFd(s, oldfd) && SlotOk(s, Cur(s).files[oldfd]) && s' == Dup(s, fd, oldfd)
       case SysClose(fd) =>
         OpenFd(s, fd) && SlotOk(s, Cur(s).files[fd]) && s' == Close(s, fd)
  }

  ghost predicate Inv(s: Kern) { TreeInv(s) && FileInv(s) }

  lemma StepKeepsTree(s: Kern, e: Event, s': Kern)
    requires TreeInv(s) && Step(s, e, s')
    ensures TreeInv(s')
  {
    assert RestOk(s.procs, s.current);
    match e
    case Clock => ScheduleKeeps(Tick(s));
    case KernelClock =>
    case SysPause => SelfKeeps(s, Cur(s).(status := Interruptible)); ScheduleKeeps(Pause(s));
    case SysAlarm(seconds) => SelfKeeps(s, Alarm(s, seconds).procs[s.current]);
    case SysFork(pid) => ForkKeeps(s, pid);
    case SysExit(status) => ExitKeeps(s, status); ScheduleKeeps(Exit(s, status));
    case SysReap(pid, child) => ReapKeeps(s, pid, child);
    case SysBlock(pid) => BlockKeeps(s, pid); ScheduleKeeps(Block(s, pid));
    case Resumed => ResumeKeeps(s);
    case SysOpen(fd, d, inode) => SelfKeeps(s, s'.procs[s.current]);
    case SysDup(fd, oldfd) => SelfKeeps(s, s'.procs[s.current]);
    case SysClose(fd) => SelfKeeps(s, s'.procs[s.current]);
  }

  predicate MovesFiles(e: Event) { e.SysFork? || e.SysExit? || e.SysOpen? || e.SysDup? || e.SysClose? }

  ghost predicate SameAccounts(s: Kern, s': Kern) {
    && |s'.procs| == |s.procs| && s'.descs == s.descs && s'.inodes == s.inodes
    && forall p :: 0 <= p < |s.procs| ==> s'.procs[p].files == s.procs[p].files
  }

  lemma QuietSchedule(s: Kern)
    requires Slot(s, s.current)
    ensures SameAccounts(s, Schedule(s))
  {
  }

  lemma QuietStep(s: Kern, e: Event, s': Kern)
    requires Step(s, e, s') && !MovesFiles(e)
    ensures SameAccounts(s, s')
  {
    match e
    case Clock => QuietSchedule(Tick(s));
    case SysPause => QuietSchedule(Pause(s));
    case SysBlock(pid) => QuietSchedule(Block(s, pid));
    case _ =>
  }

  lemma StepKeepsFiles(s: Kern, e: Event, s': Kern)
    requires Inv(s) && Step(s, e, s')
    ensures FileInv(s')
  {
    if !MovesFiles(e) {
      QuietStep(s, e, s');
      SameFiles(s, s');
    } else if e.SysFork? {
      ForkKeepsFiles(s, e.pid);
    } else if e.SysExit? {
      ExitKeepsFiles(s, e.status);
      SameFiles(Exit(s, e.status), s');
    } else if e.SysOpen? {
      OpenKeeps(s, e.fd, e.d, e.inode);
    } else if e.SysDup? {
      DupKeeps(s, e.fd, e.oldfd);
    } else {
      CloseKeeps(s, e.fd);
    }
  }

  ghost predicate Run(ss: seq<Kern>, es: seq<Event>) {
    && |ss| == |es| + 1
    && forall k :: 0 <= k < |es| ==> Step(ss[k], es[k], ss[k + 1])
  }

  /** In every reachable state the processes form a tree rooted at 0, and every count equals
      the references it stands for. */
  lemma {:induction false} RunKeeps(ss: seq<Kern>, es: seq<Event>, m: nat)
    requires Run(ss, es) && Inv(ss[0]) && m <= |es|
    ensures Inv(ss[m])
    decreases m
  {
    if m > 0 {
      RunKeeps(ss, es, m - 1);
      assert Step(ss[m - 1], es[m - 1], ss[m]);
      StepKeepsTree(ss[m - 1], es[m - 1], ss[m]);
      StepKeepsFiles(ss[m - 1], es[m - 1], ss[m]);
    }
  }

  // ----- zombies

  predicate Reaps(e: Event, z: int) { e.SysReap? && e.child == z }

  lemma ExitBesideZombie(s: Kern, status: int, z: int)
    requires TreeInv(s) && s.current != 0 && IsZombie(s, z)
    ensures 0 <= Cur(s).parent < |s.procs|
    ensures IsZombie(Exit(s, status), z) && Exit(s, status).procs[z].exitCode == s.procs[z].exitCode
  {
    ExitParent(s, status);
    ExitSlots(s, status);
  }

  predicate StillZombie(s: Kern, s': Kern, z: int) {
    IsZombie(s, z) && IsZombie(s', z) && s'.procs[z].exitCode == s.procs[z].exitCode
  }

  lemma ScheduleBesideZombie(s: Kern, z: int)
    requires Slot(s, s.current) && IsZombie(s, z)
    ensures StillZombie(s, Schedule(s), z)
  {
  }

  /** One step leaves a zombie exactly as it is and does not run it, unless its parent reaps
      it, which frees the slot. */
  lemma ZombieStep(s: Kern, e: Event, s': Kern, z: int)
    requires TreeInv(s) && Step(s, e, s') && IsZombie(s, z)
    ensures if Reaps(e, z) then !InUse(s', z) && s.procs[z].parent == s.current
            else IsZombie(s', z) && s'.procs[z].exitCode == s.procs[z].exitCode
    ensures s.current != z && e != SysFork(z)
  {
    match e
    case Clock => ScheduleBesideZombie(Tick(s), z);
    case SysPause => ScheduleBesideZombie(Pause(s), z);
    case SysBlock(pid) => ScheduleBesideZombie(Block(s, pid), z);
    case SysExit(status) =>
      ExitBesideZombie(s, status, z);
      ScheduleBesideZombie(Exit(s, status), z);
    case _ =>
  }

  lemma ZombieNext(ss: seq<Kern>, es: seq<Event>, z: int, t: nat)
    requires Run(ss, es) && Inv(ss[0]) && t < |es| && IsZombie(ss[t], z) && !Reaps(es[t], z)
    ensures IsZombie(ss[t + 1], z) && ss[t + 1].procs[z].exitCode == ss[t].procs[z].exitCode
  {
    RunKeeps(ss, es, t);
    assert Step(ss[t], es[t], ss[t + 1]);
    ZombieStep(ss[t], es[t], ss[t + 1], z);
  }

  /** A zombie that nobody reaps during a run never runs, keeps its exit code, and its slot is
      not taken by any fork. */
  lemma {:induction false} ZombieRun(ss: seq<Kern>, es: seq<Event>, z: int, k: nat, m: nat)
    requires Run(ss, es) && Inv(ss[0]) && k <= m <= |es| && IsZombie(ss[k], z)
    requires forall t :: k <= t < m ==> !Reaps(es[t], z)
    ensures IsZombie(ss[m], z) && ss[m].procs[z].exitCode == ss[k].procs[z].exitCode
    ensures ss[m].current != z && (m < |es| ==> es[m] != SysFork(z))
    decreases m
  {
    RunKeeps(ss, es, m);
    if m > k {
      ZombieRun(ss, es, z, k, m - 1);
      ZombieNext(ss, es, z, m - 1);
    }
    if m < |es| { assert Step(ss[m], es[m], ss[m + 1]); }
  }

  lemma BecomesZombie(ss: seq<Kern>, es: seq<Event>, k: nat, status: int)
    requires Run(ss, es) && Inv(ss[0]) && k < |es| && es[k] == SysExit(status)
    ensures IsZombie(ss[k + 1], ss[k].current) && ss[k + 1].procs[ss[k].current].exitCode == status % 256
  {
    RunKeeps(ss, es, k);
    assert Step(ss[k], es[k], ss[k + 1]);
    ExitKeeps(ss[k], status);
  }

  /** From exit to reaping: the process never runs again, no fork takes its slot, the status
      delivered to its parent is the exit status modulo 256, and reaping frees the slot, so
      the same death cannot be reported twice. */
  lemma ExitThenReap(ss: seq<Kern>, es: seq<Event>, z: int, k: nat, m: nat, status: int)
    requires Run(ss, es) && Inv(ss[0]) && k < m < |es|
    requires ss[k].current == z && es[k] == SysExit(status)
    requires Reaps(es[m], z) && forall t :: k < t < m ==> !Reaps(es[t], z)
    ensures Slot(ss[m], z) && ss[m].procs[z].exitCode == status % 256
    ensures ss[m].procs[z].parent == ss[m].current && !InUse(ss[m + 1], z)
    ensures forall t :: k < t <= m ==> ss[t].current != z && es[t] != SysFork(z)
  {
    BecomesZombie(ss, es, k, status);
    forall t | k < t <= m
      ensures IsZombie(ss[t], z) && ss[t].procs[z].exitCode == status % 256 && ss[t].current != z && es[t] != SysFork(z)
    {
      ZombieRun(ss, es, z, k + 1, t);
    }
    RunKeeps(ss, es, m);
    assert Step(ss[m], es[m], ss[m + 1]);
    ZombieStep(ss[m], es[m], ss[m + 1], z);
  }

  // ----- waiters

  /** Everything that `schedule` leaves to a slot. */
  lemma SchedulePlace(s: Kern, p: int)
    requires Slot(s, s.current) && Slot(s, p)
    ensures var q := Schedule(s).procs[p];
            |Schedule(s).procs| == |s.procs| && q.inUse == s.procs[p].inUse && q.control == s.procs[p].control
    ensures Kids(Schedule(s).procs, p) == Kids(s.procs, p)
  {
  }

  /** The children of a process other than 0 survive the exit of somebody else. */
  lemma ExitKids(s: Kern, status: int, p: int)
    requires TreeInv(s) && s.current != 0 && p != 0 && p != s.current && Slot(s, p)
    ensures 0 <= Cur(s).parent < |s.procs| && Kids(Exit(s, status).procs, p) == Kids(s.procs, p)
  {
    ExitParent(s, status);
    ExitSlots(s, status);
  }

  predicate Returns(s: Kern, e: Event, p: int) { e == Resumed && s.current == p }

  /** A step leaves a waiter in its wait, with its children, unless it resumes. */
  lemma WaitStep(s: Kern, e: Event, s': Kern, p: int)
    requires TreeInv(s) && Step(s, e, s') && InUse(s, p) && s.procs[p].control.InWait? && !Returns(s, e, p)
    ensures InUse(s', p) && s'.procs[p].control == s.procs[p].control
    ensures p != 0 ==> Kids(s'.procs, p) == Kids(s.procs, p)
  {
    assert WaiterOk(s.procs, p) && (p != s.current || e == KernelClock);
    match e
    case Clock => SchedulePlace(Tick(s), p);
    case SysPause => SchedulePlace(Pause(s), p);
    case SysBlock(pid) => SchedulePlace(Block(s, pid), p);
    case SysExit(status) =>
      ExitParent(s, status);
      ExitSlots(s, status);
      if p != 0 { ExitKids(s, status, p); }
      SchedulePlace(Exit(s, status), p);
    case _ =>
  }

  lemma {:induction false} WaitRun(ss: seq<Kern>, es: seq<Event>, p: int, pid: int, k: nat, m: nat)
    requires Run(ss, es) && Inv(ss[0]) && k < m <= |es|
    requires ss[k].current == p && es[k] == SysBlock(pid)
    requires forall t :: k < t < m ==> !Returns(ss[t], es[t], p)
    ensures InUse(ss[m], p) && ss[m].procs[p].control == InWait(pid, Kids(ss[k].procs, p))
    ensures p != 0 ==> Kids(ss[m].procs, p) == Kids(ss[k].procs, p)
    decreases m
  {
    var t := m - 1;
    RunKeeps(ss, es, t);
    assert Step(ss[t], es[t], ss[m]);
    if t == k {
      assert Kids(Block(ss[k], pid).procs, p) == Kids(ss[k].procs, p);
      SchedulePlace(Block(ss[k], pid), p);
    } else {
      WaitRun(ss, es, p, pid, k, t);
      WaitStep(ss[t], es[t], ss[m], p);
    }
  }

  /** No lost wake-up: from the step in which a process pauses in `waitpid` until it resumes,
      it can run whenever a child it waits for is dead. For process 0, which adopts
      children in its sleep, these are the children it had when it paused. */
  lemma NoLostWakeUp(ss: seq<Kern>, es: seq<Event>, p: int, pid: int, c: int, k: nat, m: nat)
    requires Run(ss, es) && Inv(ss[0]) && k < m <= |es|
    requires ss[k].current == p && es[k] == SysBlock(pid)
    requires forall t :: k < t < m ==> !Returns(ss[t], es[t], p)
    requires Matches(ss[k].procs, p, pid, c) || (p != 0 && Matches(ss[m].procs, p, pid, c))
    requires IsZombie(ss[m], c)
    ensures InUse(ss[m], p) && Runnable(ss[m].procs[p])
  {
    WaitRun(ss, es, p, pid, k, m);
    RunKeeps(ss, es, m);
    assert p != 0 && Matches(ss[m].procs, p, pid, c) ==> c in Kids(ss[m].procs, p);
    assert Matches(ss[k].procs, p, pid, c) ==> c in Kids(ss[k].procs, p);
    DeadWakesWaiter(ss[m], p, c);
  }

  // ----- alarms

  predicate SetsAlarm(s: Kern, e: Event, p: int) { e.SysAlarm? && s.current == p }

  predicate Schedules(e: Event) { e.Clock? || e.SysPause? || e.SysExit? || e.SysBlock? }

  /** The step runs `schedule` at a tick past `due`. */
  predicate RunsPast(s: Kern, e: Event, due: Count) {
    Schedules(e) && (if e.Clock? then Tick(s).ticks else s.ticks) > due
  }

  lemma ScheduleRings(s: Kern, p: int)
    requires Slot(s, s.current) && InUse(s, p)
    ensures var a, q := s.procs[p].alarm, Schedule(s).procs[p];
            && InUse(Schedule(s), p) && q.alarm == (if a < s.ticks then 0 else a)
            && (a != 0 && a < s.ticks ==> SIGALRM in q.signal && q.status != Interruptible)
  {
  }

  /** A step rings exactly the alarms that are due at its `schedule`, if it has one. */
  lemma AlarmStep(s: Kern, e: Event, s': Kern, p: int)
    requires TreeInv(s) && Step(s, e, s') && InUse(s, p) && !SetsAlarm(s, e, p) && !Reaps(e, p)
    ensures var a := s.procs[p].alarm;
            && InUse(s', p) && s'.procs[p].alarm == (if RunsPast(s, e, a) then 0 else a)
            && (a != 0 && RunsPast(s, e, a) ==> SIGALRM in s'.procs[p].signal && s'.procs[p].status != Interruptible)
  {
    match e
    case Clock => ScheduleRings(Tick(s), p);
    case SysPause => ScheduleRings(Pause(s), p);
    case SysBlock(pid) => ScheduleRings(Block(s, pid), p);
    case SysExit(status) =>
      ExitParent(s, status);
      ExitSlots(s, status);
      ScheduleRings(Exit(s, status), p);
    case _ =>
  }

  /** When the alarm set in step `k` is due; the sum of unsigned integers wraps. */
  function Due(s: Kern, seconds: Count): Count { (s.ticks + 100 * seconds) % COUNT_LIMIT }

  lemma {:induction false} AlarmPending(ss: seq<Kern>, es: seq<Event>, p: int, seconds: Count, k: nat, m: nat)
    requires Run(ss, es) && Inv(ss[0]) && k < m <= |es| && 0 < seconds
    requires ss[k].current == p && es[k] == SysAlarm(seconds)
    requires forall t :: k < t < m ==>
               !SetsAlarm(ss[t], es[t], p) && !Reaps(es[t], p) && !RunsPast(ss[t], es[t], Due(ss[k], seconds))
    ensures InUse(ss[m], p) && ss[m].procs[p].alarm == Due(ss[k], seconds)
    decreases m
  {
    var t := m - 1;
    RunKeeps(ss, es, t);
    assert Step(ss[t], es[t], ss[m]);
    if t > k {
      AlarmPending(ss, es, p, seconds, k, t);
      AlarmStep(ss[t], es[t], ss[m], p);
    }
  }

  /** When an alarm rings: not before the first `schedule` that runs past its tick, and then
      without fail, whoever runs: the signal is pending and a sleeper can run. An alarm that
      wraps to 0 is off. */
  lemma AlarmWakes(ss: seq<Kern>, es: seq<Event>, p: int, seconds: Count, k: nat, m: nat)
    requires Run(ss, es) && Inv(ss[0]) && k < m < |es| && 0 < seconds
    requires ss[k].current == p && es[k] == SysAlarm(seconds)
    requires forall t :: k < t < m ==>
               !SetsAlarm(ss[t], es[t], p) && !Reaps(es[t], p) && !RunsPast(ss[t], es[t], Due(ss[k], seconds))
    requires !SetsAlarm(ss[m], es[m], p) && !Reaps(es[m], p)
    ensures InUse(ss[m], p) && InUse(ss[m + 1], p) && ss[m].procs[p].alarm == Due(ss[k], seconds)
    ensures Due(ss[k], seconds) != 0 ==>
              (ss[m + 1].procs[p].alarm == 0 <==> RunsPast(ss[m], es[m], Due(ss[k], seconds)))
    ensures Due(ss[k], seconds) != 0 && RunsPast(ss[m], es[m], Due(ss[k], seconds)) ==>
              SIGALRM in ss[m + 1].procs[p].signal && ss[m + 1].procs[p].status != Interruptible
  {
    AlarmPending(ss, es, p, seconds, k, m);
    RunKeeps(ss, es, m);
    assert Step(ss[m], es[m], ss[m + 1]);
    AlarmStep(ss[m], es[m], ss[m + 1], p);
  }

  // ----- descriptors

  ghost function UnusedDescs(s: Kern): set<int> { set d | 0 <= d < |s.descs| && s.descs[d].inode == -1 }

  ghost function Opens(es: seq<Event>): nat {
    if es == [] then 0 else Opens(es[..|es| - 1]) + if es[|es| - 1].SysOpen? then 1 else 0
  }

  lemma DescsStep(s: Kern, e: Event, s': Kern)
    requires Step(s, e, s')
    ensures |UnusedDescs(s')| + (if e.SysOpen? then 1 else 0) == |UnusedDescs(s)|
  {
    if e.SysOpen? {
      assert UnusedDescs(s') == UnusedDescs(s) - {e.d};
    } else {
      assert UnusedDescs(s') == UnusedDescs(s);
    }
  }

  /** Closing never makes a descriptor available again: a run can open no more files than
      there were descriptors never used before it. */
  lemma {:induction false} OpensBounded(ss: seq<Kern>, es: seq<Event>)
    requires Run(ss, es)
    ensures |UnusedDescs(ss[|es|])| + Opens(es) == |UnusedDescs(ss[0])|
    decreases |es|
  {
    if |es| > 0 {
      var n := |es| - 1;
      var before := ss[..n + 1];
      assert Run(before, es[..n]);
      OpensBounded(before, es[..n]);
      assert Step(ss[n], es[n], ss[n + 1]);
      DescsStep(ss[n], es[n], ss[n + 1]);
    }
  }
}
