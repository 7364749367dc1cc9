/** What each step of the kernel does to every slot, one field at a time: who is in use, whose
    child, which signals, alarms and files, who runs. */
module StepLaws {
  import opened Words
  import opened Processes
  import opened ProcessTree
  import opened FileAccounts
  import opened ProcessRuns

  // ----- the clock and the processor

  /** Clock interrupts add one tick, starting over before the top; nothing else touches the count. */
  lemma TicksLaw(s: Kern, e: Event, s': Kern)
    requires Step(s, e, s')
    ensures if !e.Clock? && !e.KernelClock? then s'.ticks == s.ticks
            else if s.ticks < 0xFFFF_FFFE then s'.ticks == s.ticks + 1 else s'.ticks == 0
  {
  }

  /** The processor changes hands only in steps that schedule, and goes to a process that can run. */
  lemma CurrentLaw(s: Kern, e: Event, s': Kern)
    requires Step(s, e, s')
    ensures |s'.procs| == |s.procs|
    ensures if Schedules(e) then Slot(s', s'.current) && Runnable(s'.procs[s'.current]) else s'.current == s.current
  {
    if Schedules(e) { NextExists(s'.procs, s.current); }
  }

  // ----- the slots

  /** A slot comes into use by a fork and goes out of use by being reaped. */
  lemma UseLaw(s: Kern, e: Event, s': Kern, p: int)
    requires TreeInv(s) && Step(s, e, s')
    ensures InUse(s', p) <==> (InUse(s, p) && !Reaps(e, p)) || e == SysFork(p)
  {
    CurrentLaw(s, e, s');
    if Slot(s, p) {
      if e.Clock? {
        SchedulePlace(Tick(s), p);
      } else if e.SysPause? {
        SchedulePlace(Pause(s), p);
      } else if e.SysBlock? {
        SchedulePlace(Block(s, e.pid), p);
      } else if e.SysExit? {
        ExitSlots(s, e.status);
        SchedulePlace(Exit(s, e.status), p);
      }
    }
  }

  /** What `schedule` makes of a slot in use, field by field. */
  lemma WokenSlot(s: Kern, p: int)
    requires Slot(s, s.current) && InUse(s, p)
    ensures |Schedule(s).procs| == |s.procs| && Schedule(s).ticks == s.ticks
    ensures var q, q', rings := s.procs[p], Schedule(s).procs[p], 0 < s.procs[p].alarm < s.ticks;
            && q'.signal == (if rings then q.signal + {SIGALRM} else q.signal)
            && q'.inUse == q.inUse && q'.parent == q.parent && q'.exitCode == q.exitCode && q'.control == q.control
            && q'.alarm == (if rings then 0 else q.alarm)
            && q'.status == (if q.status == Interruptible && q'.signal != {} then Running else q.status)
  {
  }

  /** A process has the parent it had, until that parent exits: then it is a child of process 0. */
  lemma ParentLaw(s: Kern, e: Event, s': Kern, p: int)
    requires TreeInv(s) && Step(s, e, s') && InUse(s, p)
    ensures Slot(s', p)
    ensures s'.procs[p].parent == if e.SysExit? && s.procs[p].parent == s.current then 0 else s.procs[p].parent
  {
    match e
    case Clock => WokenSlot(Tick(s), p);
    case SysPause => WokenSlot(Pause(s), p);
    case SysBlock(pid) => WokenSlot(Block(s, pid), p);
    case SysExit(status) =>
      ExitParent(s, status);
      ExitSlots(s, status);
      WokenSlot(Exit(s, status), p);
    case _ =>
  }

  /** The step runs `schedule` with the alarm of `p` set and due. */
  predicate Rings(s: Kern, e: Event, s': Kern, p: int)
    requires Slot(s, p)
  {
    Schedules(e) && 0 < s.procs[p].alarm < s'.ticks
  }

  lemma WokenSignal(s: Kern, p: int, x: int)
    requires Slot(s, s.current) && InUse(s, p)
    ensures Slot(Schedule(s), p)
    ensures x in Schedule(s).procs[p].signal <==>
              x in s.procs[p].signal || (x == SIGALRM && 0 < s.procs[p].alarm < s.ticks)
  {
  }

  lemma ExitSignal(s: Kern, status: int, p: int, x: int)
    requires TreeInv(s) && s.current != 0 && InUse(s, p)
    ensures 0 <= Cur(s).parent < |s.procs| && Slot(Exit(s, status), s.current) && InUse(Exit(s, status), p)
    ensures x in Exit(s, status).procs[p].signal <==> x in s.procs[p].signal || (x == SIGCHLD && Cur(s).parent == p)
    ensures Exit(s, status).procs[p].alarm == s.procs[p].alarm
  {
    ExitParent(s, status);
    ExitSlots(s, status);
  }

  /** Signals come from an alarm that rings and from a child that exits, and go when a wait ends. */
  lemma SignalLaw(s: Kern, e: Event, s': Kern, p: int, x: int)
    requires TreeInv(s) && Step(s, e, s') && InUse(s, p)
    ensures Slot(s', p)
    ensures x in s'.procs[p].signal <==>
              || (x in s.procs[p].signal && !(e == Resumed && p == s.current && x == SIGCHLD))
              || (x == SIGALRM && Rings(s, e, s', p))
              || (x == SIGCHLD && e.SysExit? && Cur(s).parent == p)
  {
    if e.Clock? {
      WokenSignal(Tick(s), p, x);
    } else if e.SysPause? {
      WokenSignal(Pause(s), p, x);
    } else if e.SysBlock? {
      WokenSignal(Block(s, e.pid), p, x);
    } else if e.SysExit? {
      ExitSignal(s, e.status, p, x);
      WokenSignal(Exit(s, e.status), p, x);
    }
  }

  /** An alarm is as its process set it last, until it rings. */
  lemma AlarmLaw(s: Kern, e: Event, s': Kern, p: int)
    requires TreeInv(s) && Step(s, e, s') && InUse(s, p)
    ensures Slot(s', p)
    ensures s'.procs[p].alarm ==
            if SetsAlarm(s, e, p) then (if e.seconds == 0 then 0 else (s.ticks + 100 * e.seconds) % COUNT_LIMIT)
            else if Rings(s, e, s', p) then 0 else s.procs[p].alarm
  {
    match e
    case Clock => WokenSlot(Tick(s), p);
    case SysPause => WokenSlot(Pause(s), p);
    case SysBlock(pid) => WokenSlot(Block(s, pid), p);
    case SysExit(status) =>
      ExitParent(s, status);
      ExitSlots(s, status);
      WokenSlot(Exit(s, status), p);
    case _ =>
  }

  /** What the step makes of a status before `schedule` wakes anybody. */
  function Posed(s: Kern, e: Event, p: int): Status
    requires Slot(s, p) && Slot(s, s.current)
  {
    if p == s.current then
      if e.SysPause? || e.SysBlock? then Interruptible else if e.SysExit? then Zombie else s.procs[p].status
    else if e.SysExit? && Cur(s).parent == p then Running
    else s.procs[p].status
  }

  /** A process that pauses can be interrupted; `schedule` makes it run again exactly when a
      signal is pending. Only an exit makes a zombie, and it makes the parent run. */
  lemma StatusLaw(s: Kern, e: Event, s': Kern, p: int)
    requires TreeInv(s) && Step(s, e, s') && InUse(s, p)
    ensures Slot(s', p)
    ensures s'.procs[p].status ==
            if Schedules(e) && Posed(s, e, p) == Interruptible && s'.procs[p].signal != {} then Running else Posed(s, e, p)
  {
    match e
    case Clock => WokenSlot(Tick(s), p);
    case SysPause => WokenSlot(Pause(s), p);
    case SysBlock(pid) => WokenSlot(Block(s, pid), p);
    case SysExit(status) =>
      ExitParent(s, status);
      ExitSlots(s, status);
      WokenSlot(Exit(s, status), p);
    case _ =>
  }

  /** The exit status is kept modulo 256, and a wait is remembered with its children. */
  lemma RestLaw(s: Kern, e: Event, s': Kern, p: int)
    requires TreeInv(s) && Step(s, e, s') && InUse(s, p)
    ensures Slot(s', p)
    ensures s'.procs[p].exitCode == if e.SysExit? && p == s.current then e.status % 256 else s.procs[p].exitCode
    ensures s'.procs[p].control ==
            if e.SysBlock? && p == s.current then InWait(e.pid, Kids(s.procs, p))
            else if e == Resumed && p == s.current then User else s.procs[p].control
  {
    match e
    case Clock => WokenSlot(Tick(s), p);
    case SysPause => WokenSlot(Pause(s), p);
    case SysBlock(pid) => WokenSlot(Block(s, pid), p);
    case SysExit(status) =>
      ExitParent(s, status);
      ExitSlots(s, status);
      WokenSlot(Exit(s, status), p);
    case _ =>
  }

  // ----- fork

  /** Whose child a fork makes, and of what: a running copy of the caller with its files, signals
      and alarm, below the caller. Nobody else changes. */
  lemma ForkLaw(s: Kern, pid: int, s': Kern)
    requires TreeInv(s) && Step(s, SysFork(pid), s')
    ensures !InUse(s, pid) && forall q :: 0 <= q < pid ==> InUse(s, q)
    ensures InUse(s', pid) && Runnable(s'.procs[pid]) && s'.procs[pid].parent == s.current
    ensures s'.procs[pid].files == Cur(s).files && s'.procs[pid].signal == Cur(s).signal
    ensures s'.procs[pid].alarm == Cur(s).alarm && s'.procs[pid].control == User
    ensures forall q :: Slot(s, q) && q != pid ==> s'.procs[q] == s.procs[q]
    ensures Kids(s'.procs, s.current) == Kids(s.procs, s.current) + {pid} && pid !in Kids(s.procs, s.current)
    ensures forall q :: q != s.current ==> Kids(s'.procs, q) == Kids(s.procs, q)
  {
    assert s'.procs[pid].inUse && s'.procs[pid].parent == s.current;
    forall q | q != s.current ensures Kids(s'.procs, q) == Kids(s.procs, q) {}
  }

  // ----- waitpid

  /** Reaping takes the first child that is dead and asked for out of the table, and no other. */
  lemma ReapLaw(s: Kern, pid: int, i: int, s': Kern)
    requires TreeInv(s) && Step(s, SysReap(pid, i), s')
    ensures IsZombie(s, i) && s.procs[i].parent == s.current && (pid == -1 || i == pid)
    ensures forall j :: 0 <= j < i && IsZombie(s, j) && s.procs[j].parent == s.current ==> pid != -1 && j != pid
    ensures !InUse(s', i) && |s'.procs| == |s.procs| && forall q :: Slot(s, q) && q != i ==> s'.procs[q] == s.procs[q]
    ensures Kids(s'.procs, s.current) == Kids(s.procs, s.current) - {i}
    ensures s'.current == s.current && s'.ticks == s.ticks && s'.descs == s.descs && s'.inodes == s.inodes
  {
    forall j | 0 <= j < i && IsZombie(s, j) && s.procs[j].parent == s.current ensures pid != -1 && j != pid {
      assert ParentOk(s.procs, j);
    }
  }

  /** Leaving the pause drops SIGCHLD and keeps every other signal. */
  lemma ResumeLaw(s: Kern, s': Kern)
    requires Step(s, Resumed, s')
    ensures Slot(s', s.current) && s'.procs[s.current].signal == Cur(s).signal - {SIGCHLD}
    ensures s' == s.(procs := s'.procs) && |s'.procs| == |s.procs|
    ensures forall q :: Slot(s, q) && q != s.current ==> s'.procs[q] == s.procs[q]
  {
  }

  // ----- open files

  /** Which file slot a call changes, and to what: open and dup fill an empty one, close empties
      one, exit empties all. */
  lemma FilesLaw(s: Kern, e: Event, s': Kern, p: int)
    requires TreeInv(s) && Step(s, e, s') && InUse(s, p)
    ensures Slot(s', p) && |s'.procs[p].files| == |s.procs[p].files|
    ensures forall g :: 0 <= g < |s.procs[p].files| ==>
              s'.procs[p].files[g] ==
              if p != s.current then s.procs[p].files[g]
              else if e.SysExit? then -1
              else if e.SysClose? && g == e.fd then -1
              else if e.SysOpen? && g == e.fd then e.d
              else if e.SysDup? && g == e.fd && 0 <= e.oldfd < |Cur(s).files| then Cur(s).files[e.oldfd]
              else s.procs[p].files[g]
  {
    if !MovesFiles(e) {
      QuietStep(s, e, s');
    } else if e.SysExit? {
      ExitSlots(s, e.status);
      QuietSchedule(Exit(s, e.status));
    }
  }

  /** A descriptor's inode and position are set when it is opened, and not by dup, close, fork or exit. */
  lemma DescLaw(s: Kern, e: Event, s': Kern, d: int)
    requires Step(s, e, s') && 0 <= d < |s.descs|
    ensures |s'.descs| == |s.descs| && |s'.inodes| == |s.inodes|
    ensures if e.SysOpen? && d == e.d then s'.descs[d].inode == e.inode && s'.descs[d].pos == 0 && s'.descs[d].used == 1
            else s'.descs[d].inode == s.descs[d].inode && s'.descs[d].pos == s.descs[d].pos
  {
  }

  /** The new slot of a dup names the old slot's descriptor. Its count and its inode's rise by
      one, and nothing else changes. */
  lemma DupLaw(s: Kern, fd: int, oldfd: int, s': Kern)
    requires TreeInv(s) && Step(s, SysDup(fd, oldfd), s')
    ensures OpenFd(s, oldfd) && FreeFd(s, fd) && SlotOk(s, Cur(s).files[oldfd])
    ensures var d := Cur(s).files[oldfd]; var x := s.descs[d].inode;
            && s'.current == s.current && s'.ticks == s.ticks && Slot(s', s.current)
            && Cur(s').files == Cur(s).files[fd := d]
            && (forall q :: Slot(s, q) && q != s.current ==> s'.procs[q] == s.procs[q])
            && |s'.descs| == |s.descs| && |s'.inodes| == |s.inodes|
            && (forall e :: 0 <= e < |s.descs| ==>
                  s'.descs[e].used == s.descs[e].used + if e == d then 1 else 0)
            && (forall y :: 0 <= y < |s.inodes| ==> s'.inodes[y] == s.inodes[y] + if y == x then 1 else 0)
  {
  }

  /** So the old slot may be closed afterwards: the new one stays open on the same descriptor. */
  lemma DupThenClose(s: Kern, fd: int, oldfd: int, s': Kern, s'': Kern)
    requires TreeInv(s) && Step(s, SysDup(fd, oldfd), s') && Step(s', SysClose(oldfd), s'')
    ensures OpenFd(s, oldfd) && OpenFd(s'', fd) && FreeFd(s'', oldfd)
    ensures s''.current == s.current && Cur(s'').files[fd] == Cur(s).files[oldfd]
    ensures s''.inodes == s.inodes && |s''.descs| == |s.descs|
    ensures forall d :: 0 <= d < |s.descs| ==> s''.descs[d] == s.descs[d]
  {
    DupLaw(s, fd, oldfd, s');
  }

  /** Opening makes the slot name a descriptor of its own, at the start of the file. */
  lemma OpenLaw(s: Kern, fd: int, d: int, inode: int, s': Kern)
    requires Inv(s) && Step(s, SysOpen(fd, d, inode), s')
    ensures FreeFd(s, fd) && OpenFd(s', fd) && Cur(s').files[fd] == d
    ensures 0 <= d < |s'.descs| && s'.descs[d] == FileDesc(inode, 1, 0)
    ensures forall p, g :: 0 <= p < |s'.procs| && 0 <= g < |s'.procs[p].files| && (p, g) != (s.current, fd) ==>
              s'.procs[p].files[g] != d
    ensures |s'.inodes| == |s.inodes| && forall y :: 0 <= y < |s.inodes| ==>
              s'.inodes[y] == s.inodes[y] + if y == inode then 1 else 0
  {
    forall p, g | 0 <= p < |s.procs| && 0 <= g < |s.procs[p].files| ensures s.procs[p].files[g] != d {
      assert SlotOk(s, s.procs[p].files[g]);
    }
  }

  /** Closing lowers two counts by one, and leaves everybody else's slots alone. */
  lemma CloseLaw(s: Kern, fd: int, s': Kern)
    requires TreeInv(s) && Step(s, SysClose(fd), s')
    ensures OpenFd(s, fd) && FreeFd(s', fd) && SlotOk(s, Cur(s).files[fd])
    ensures var d := Cur(s).files[fd]; var x := s.descs[d].inode;
            && (forall q :: Slot(s, q) && q != s.current ==> s'.procs[q] == s.procs[q])
            && |s'.descs| == |s.descs| && |s'.inodes| == |s.inodes|
            && (forall e :: 0 <= e < |s.descs| ==>
                  s'.descs[e].used == s.descs[e].used - if e == d then 1 else 0)
            && (forall y :: 0 <= y < |s.inodes| ==> s'.inodes[y] == s.inodes[y] - if y == x then 1 else 0)
  {
  }
}
