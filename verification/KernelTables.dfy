/** The kernel's process and file tables as the source keeps them, arrays that system calls
    update in place. Every call, and every clock interrupt, is shown to be one step of the machine
    in `ProcessRuns`. */
module KernelTables {
  import opened Words
  import opened Processes
  import opened ProcessTree
  import opened FileAccounts
  import opened ProcessRuns

  /** What `waitpid` returns, or that its caller now sleeps inside it. */
  datatype Waited = Reaped(pid: int, status: int) | NotYet | NoChild | Interrupted | Asleep

  /** How a call of `waitpid` with no wait pending ends: it reaps the first matching dead
      child; or there is none dead, and it reports that, sleeps, or reports no child at all. */
  ghost predicate Outcome(s: Kern, pid: int, noHang: bool, r: Waited, s': Kern)
    requires Slot(s, s.current)
  {
    var some := exists j :: Matches(s.procs, s.current, pid, j);
    match r
    case Reaped(ret, status) =>
      exists i :: Slot(s, i) && Step(s, SysReap(pid, i), s') && ret == i % 256 && status == s.procs[i].exitCode
    case NotYet => NoneDead(s.procs, s.current, pid) && some && noHang && s' == s
    case Asleep => NoneDead(s.procs, s.current, pid) && some && !noHang && Step(s, SysBlock(pid), s')
    case NoChild => !some && s' == s
    case Interrupted => false
  }

  lemma StepKeeps(s: Kern, e: Event, s': Kern)
    requires Inv(s) && Step(s, e, s')
    ensures Inv(s')
  {
    StepKeepsTree(s, e, s');
    StepKeepsFiles(s, e, s');
  }

  lemma BootInv(s: Kern)
    requires |s.procs| > 0 && s.current == 0
    requires forall p :: 0 <= p < |s.procs| ==>
               s.procs[p] == Proc(p == 0, Running, {}, -1, 0, 0, seq(FILES, _ => -1), User)
    requires forall d :: 0 <= d < |s.descs| ==> s.descs[d].used == 0
    requires forall x :: 0 <= x < |s.inodes| ==> s.inodes[x] == 0
    ensures Inv(s)
  {
    forall d | 0 <= d < |s.descs| ensures Slots(s.procs, d) == {} {}
    forall x ensures InodeSlots(s.procs, s.descs, x) == {} {}
  }

  // ----- the counts after part of a file table

  lemma MovedNone(s: Kern, files: seq<int>, up: bool)
    ensures Moved(s, files, 0, up) == s
  {
    forall d ensures Naming(files, 0, d) == {} {}
    forall x ensures Reaching(s.descs, files, 0, x) == {} {}
  }

  lemma NamingOne(files: seq<int>, fd: int, d: int)
    requires 0 <= fd < |files|
    ensures |Naming(files, fd + 1, d)| == |Naming(files, fd, d)| + if files[fd] == d then 1 else 0
  {
    assert Naming(files, fd + 1, d) == Naming(files, fd, d) + if files[fd] == d then {fd} else {};
  }

  lemma ReachingOne(descs: seq<FileDesc>, files: seq<int>, fd: int, x: int)
    requires 0 <= fd < |files|
    ensures var more := files[fd] != -1 && InodeOf(descs, files[fd]) == x;
            |Reaching(descs, files, fd + 1, x)| == |Reaching(descs, files, fd, x)| + if more then 1 else 0
  {
    var more := files[fd] != -1 && InodeOf(descs, files[fd]) == x;
    assert Reaching(descs, files, fd + 1, x) == Reaching(descs, files, fd, x) + if more then {fd} else {};
  }

  /** The next slot moves the two counts behind it, or nothing. */
  lemma MovedOne(s: Kern, files: seq<int>, fd: int, up: bool)
    requires 0 <= fd < |files| && SlotOk(s, files[fd])
    ensures files[fd] == -1 ==> Moved(s, files, fd + 1, up) == Moved(s, files, fd, up)
    ensures files[fd] != -1 ==> SlotOk(Moved(s, files, fd, up), files[fd])
                                && Moved(s, files, fd + 1, up) == Touched(Moved(s, files, fd, up), files[fd], up)
  {
    var was, now := Moved(s, files, fd, up), Moved(s, files, fd + 1, up);
    forall d | 0 <= d < |s.descs| { NamingOne(files, fd, d); }
    forall x | 0 <= x < |s.inodes| { ReachingOne(s.descs, files, fd, x); }
    if files[fd] == -1 {
      assert now.descs == was.descs && now.inodes == was.inodes;
    } else {
      assert now.descs == Touched(was, files[fd], up).descs;
      assert now.inodes == Touched(was, files[fd], up).inodes;
    }
  }

  /** The first `n` slots closed. */
  function Below(files: seq<int>, n: int): seq<int> {
    seq(|files|, i requires 0 <= i < |files| => if i < n then -1 else files[i])
  }

  ghost function ClosedTo(s: Kern, n: int): Kern
    requires Slot(s, s.current)
  {
    var files := Cur(s).files;
    Moved(s, files, n, false).(procs := s.procs[s.current := Cur(s).(files := Below(files, n))])
  }

  ghost function ClosedAll(s: Kern): Kern
    requires Slot(s, s.current)
  {
    var files := Cur(s).files;
    Moved(s, files, |files|, false).(procs := s.procs[s.current := Closed(Cur(s))])
  }

  lemma ClosedBelow(files: seq<int>, n: int)
    requires n <= 0
    ensures Below(files, n) == files
  {
  }

  lemma ClosedNext(s: Kern, fd: int)
    requires Slot(s, s.current) && 0 <= fd < |Cur(s).files| && SlotOk(s, Cur(s).files[fd])
    ensures Slot(ClosedTo(s, fd), s.current) && |Cur(ClosedTo(s, fd)).files| == |Cur(s).files|
    ensures Cur(ClosedTo(s, fd)).files[fd] == Cur(s).files[fd]
    ensures SlotOk(ClosedTo(s, fd), Cur(s).files[fd])
    ensures ClosedTo(s, fd + 1) == if Cur(s).files[fd] == -1 then ClosedTo(s, fd) else Close(ClosedTo(s, fd), fd)
  {
    var files, t := Cur(s).files, ClosedTo(s, fd);
    MovedOne(s, files, fd, false);
    assert Below(files, fd + 1) == Below(files, fd)[fd := -1];
    if files[fd] == -1 {
      assert Below(files, fd + 1) == Below(files, fd);
    } else {
      assert Close(t, fd).procs == ClosedTo(s, fd + 1).procs;
    }
  }

  lemma ClosedFully(p: Proc)
    ensures p.(files := Below(p.files, |p.files|)) == Closed(p)
  {
    assert Below(p.files, |p.files|) == Closed(p).files;
  }

  /** Leaving the pause changes nothing that the scan looks at. */
  lemma SameDead(s: Kern)
    requires Slot(s, s.current)
    ensures forall me, pid, i :: Matches(Resume(s).procs, me, pid, i) <==> Matches(s.procs, me, pid, i)
    ensures forall pid, i :: IsFirstDead(Resume(s).procs, s.current, pid, i) <==> IsFirstDead(s.procs, s.current, pid, i)
    ensures forall pid :: NoneDead(Resume(s).procs, s.current, pid) <==> NoneDead(s.procs, s.current, pid)
  {
    forall pid, i ensures IsFirstDead(Resume(s).procs, s.current, pid, i) <==> IsFirstDead(s.procs, s.current, pid, i) {
      assert forall j :: Matches(Resume(s).procs, s.current, pid, j) <==> Matches(s.procs, s.current, pid, j);
    }
    forall pid ensures NoneDead(Resume(s).procs, s.current, pid) <==> NoneDead(s.procs, s.current, pid) {
      assert forall j :: Matches(Resume(s).procs, s.current, pid, j) <==> Matches(s.procs, s.current, pid, j);
    }
  }

  lemma OtherSignals(signal: set<int>)
    ensures signal - {SIGCHLD} != {} <==> exists x :: x in signal && x != SIGCHLD
  {
    if forall x :: x in signal ==> x == SIGCHLD {
      assert signal - {SIGCHLD} == {};
    } else {
      var x :| x in signal && x != SIGCHLD;
      assert x in signal - {SIGCHLD};
    }
  }

  class Kernel {
    const table: array<Proc>
    const descs: array<FileDesc>
    const inodes: array<int>
    var current: int
    var ticks: Count

    /** Depth of interrupts taken while already in the kernel. */
    var inRing0: int

    ghost function Snap(): Kern
      reads this, table, descs, inodes
    {
      Kern(table[..], current, ticks, descs[..], inodes[..])
    }

    ghost predicate Valid()
      reads this, table, descs, inodes
    {
      Inv(Snap())
    }

    /** The tables as `kernel_main` leaves them: process 0 alone, nothing open. */
    constructor (procs: nat, files: nat, inodeCount: nat)
      requires procs > 0
      ensures Valid() && fresh(table) && fresh(descs) && fresh(inodes)
      ensures table.Length == procs && descs.Length == files && inodes.Length == inodeCount
      ensures current == 0 && inRing0 == 0 && Cur(Snap()).control == User
      ensures forall p :: 0 < p < procs ==> !InUse(Snap(), p)
    {
      var none := seq(FILES, _ => -1);
      var blank := Proc(false, Running, {}, -1, 0, 0, none, User);
      table := new Proc[procs](_ => blank);
      descs := new FileDesc[files](_ => FileDesc(-1, 0, 0));
      inodes := new int[inodeCount](_ => 0);
      current, ticks, inRing0 := 0, 0, 0;
      new;
      table[0] := table[0].(inUse := true);
      BootInv(Snap());
    }

    // ----- kernel/schedule.c

    /** The alarm and signal pass of `schedule`. */
    method WakePass()
      modifies table
      ensures table[..] == AllWoken(old(table[..]), ticks)
    {
      for i := 0 to table.Length
        invariant forall j :: 0 <= j < i ==> table[j] == Woken(old(table[j]), ticks)
        invariant forall j :: i <= j < table.Length ==> table[j] == old(table[j])
      {
        if table[i].inUse {
          if table[i].alarm != 0 && table[i].alarm < ticks {
            table[i] := table[i].(signal := table[i].signal + {SIGALRM});
            table[i] := table[i].(alarm := 0);
          }
          if table[i].signal != {} && table[i].status == Interruptible {
            table[i] := table[i].(status := Running);
          }
        }
      }
    }

    /** From kernel code entered by an interrupt of the kernel itself, nothing; otherwise wake
        and select. */
    method Schedule()
      requires Slot(Snap(), current) && (inRing0 == 0 ==> CanSchedule(Snap()))
      modifies this`current, table
      ensures Snap() == if inRing0 != 0 then old(Snap()) else Processes.Schedule(old(Snap()))
    {
      if inRing0 != 0 { return; }
      var n := table.Length;
      WakePass();
      ghost var procs, prev := table[..], current;
      NextExists(procs, prev);
      NextFinds(procs, prev, 1);
      ghost var d := 1;
      current := if current + 1 >= n then 0 else current + 1;
      while !table[current].inUse || table[current].status != Running
        invariant 1 <= d <= n && current == Cycle(n, prev, d) && 0 <= current < n
        invariant table[..] == procs && Next(procs, prev, 1) == Next(procs, prev, d)
        decreases n - d
      {
        assert Next(procs, prev, d) == Next(procs, prev, d + 1);
        d := d + 1;
        current := if current + 1 >= n then 0 else current + 1;
      }
    }

    method ClockHandler()
      requires Valid() && (inRing0 == 0 ==> Cur(Snap()).control == User && CanSchedule(Tick(Snap())))
      modifies this`current, this`ticks, table
      ensures Valid()
      ensures Step(old(Snap()), if inRing0 == 0 then Clock else KernelClock, Snap())
    {
      ghost var s := Snap();
      ticks := if ticks + 1 >= 0xFFFF_FFFF then 0 else ticks + 1;
      assert Snap() == Tick(s);
      SameFiles(s, Snap());
      Schedule();
      StepKeeps(s, if inRing0 == 0 then Clock else KernelClock, Snap());
    }

    method SysPause()
      requires Valid() && inRing0 == 0 && Cur(Snap()).control == User && CanSchedule(Pause(Snap()))
      modifies this`current, table
      ensures Valid() && Step(old(Snap()), Event.SysPause, Snap())
    {
      ghost var s := Snap();
      table[current] := table[current].(status := Interruptible);
      assert Snap() == Pause(s);
      Schedule();
      StepKeeps(s, Event.SysPause, Snap());
    }

    method SysAlarm(seconds: Count) returns (r: Count)
      requires Valid() && Cur(Snap()).control == User
      modifies table
      ensures Valid() && r == seconds && Step(old(Snap()), Event.SysAlarm(seconds), Snap())
    {
      ghost var s := Snap();
      table[current] := table[current].(alarm := if seconds > 0 then (ticks + HZ * seconds) % COUNT_LIMIT else 0);
      r := seconds;
      assert Snap() == Alarm(s, seconds);
      StepKeeps(s, Event.SysAlarm(seconds), Snap());
    }

    // ----- kernel/process.c

    method FindFreeSlot() returns (pid: int)
      ensures pid == -1 ==> forall q :: 0 <= q < table.Length ==> table[q].inUse
      ensures pid != -1 ==> IsFirstFree(table[..], pid)
    {
      for i := 0 to table.Length
        invariant forall q :: 0 <= q < i ==> table[q].inUse
      {
        if !table[i].inUse { return i; }
      }
      return -1;
    }

    method CountSlot(d: int)
      requires 0 <= d < descs.Length && 0 <= descs[d].inode < inodes.Length
      modifies descs, inodes
      ensures Snap() == Touched(old(Snap()), d, true)
    {
      inodes[descs[d].inode] := inodes[descs[d].inode] + 1;
      descs[d] := descs[d].(used := descs[d].used + 1);
    }

    /** Raises the counts behind every open file of `files`. */
    method CountUp(files: seq<int>)
      requires forall fd :: 0 <= fd < |files| ==> SlotOk(Snap(), files[fd])
      modifies descs, inodes
      ensures Snap() == Moved(old(Snap()), files, |files|, true)
    {
      ghost var s := Snap();
      MovedNone(s, files, true);
      for fd := 0 to |files|
        invariant Snap() == Moved(s, files, fd, true)
      {
        assert SlotOk(s, files[fd]);
        MovedOne(s, files, fd, true);
        if files[fd] != -1 {
          CountSlot(files[fd]);
        }
      }
    }

    /** A copy of the caller in the first free slot, or -1 when the table is full. */
    method SysFork() returns (pid: int)
      requires Valid() && Cur(Snap()).control == User
      modifies table, descs, inodes
      ensures Valid()
      ensures pid == -1 <==> forall q :: 0 <= q < table.Length ==> InUse(old(Snap()), q)
      ensures if pid == -1 then Snap() == old(Snap()) else Step(old(Snap()), Event.SysFork(pid), Snap())
    {
      ghost var s := Snap();
      pid := FindFreeSlot();
      if pid == -1 {
        assert forall q :: 0 <= q < table.Length ==> s.procs[q] == table[q];
        return;
      }
      table[pid] := table[current];
      table[pid] := table[pid].(parent := current);
      table[pid] := table[pid].(status := Running);
      var files := table[pid].files;
      forall fd | 0 <= fd < |files| ensures SlotOk(Snap(), files[fd]) {
        assert SlotOk(s, s.procs[s.current].files[fd]);
      }
      CountUp(files);
      assert Snap() == Fork(s, pid);
      StepKeeps(s, Event.SysFork(pid), Snap());
      assert !InUse(s, pid);
    }

    /** `sys_close` on one slot of the current process. */
    method CloseSlot(fd: int)
      requires Slot(Snap(), current) && 0 <= fd < |Cur(Snap()).files|
      requires Cur(Snap()).files[fd] != -1 && SlotOk(Snap(), Cur(Snap()).files[fd])
      modifies table, descs, inodes
      ensures Snap() == Close(old(Snap()), fd)
    {
      var d := table[current].files[fd];
      descs[d] := descs[d].(used := descs[d].used - 1);
      inodes[descs[d].inode] := inodes[descs[d].inode] - 1;
      table[current] := table[current].(files := table[current].files[fd := -1]);
    }

    method CloseAll()
      requires Slot(Snap(), current) && forall fd :: 0 <= fd < |Cur(Snap()).files| ==> SlotOk(Snap(), Cur(Snap()).files[fd])
      modifies table, descs, inodes
      ensures Snap() == ClosedAll(old(Snap()))
    {
      ghost var s := Snap();
      var n := |table[current].files|;
      MovedNone(s, Cur(s).files, false);
      ClosedBelow(Cur(s).files, 0);
      for fd := 0 to n
        invariant |Cur(s).files| == n && Snap() == ClosedTo(s, fd)
      {
        assert SlotOk(s, Cur(s).files[fd]);
        ClosedNext(s, fd);
        if table[current].files[fd] != -1 {
          CloseSlot(fd);
        }
      }
      ClosedFully(Cur(s));
    }

    method Orphan(me: int)
      modifies table
      ensures table[..] == Orphaned(old(table[..]), me)
    {
      for i := 0 to table.Length
        invariant table[..i] == Orphaned(old(table[..]), me)[..i]
        invariant forall j :: i <= j < table.Length ==> table[j] == old(table[j])
      {
        if table[i].parent == me {
          table[i] := table[i].(parent := 0);
        }
      }
    }

    /** Exit, and the `schedule` on the way out of the system call. */
    method SysExit(status: int)
      requires Valid() && inRing0 == 0 && Cur(Snap()).control == User && current != 0
      modifies this`current, table, descs, inodes
      ensures Valid() && Step(old(Snap()), Event.SysExit(status), Snap())
    {
      ghost var s := Snap();
      ExitParent(s, status);
      table[current] := table[current].(exitCode := status % 256);
      Orphan(current);
      forall fd | 0 <= fd < |Cur(s).files| ensures SlotOk(Snap(), Cur(s).files[fd]) {
        assert SlotOk(s, s.procs[s.current].files[fd]);
      }
      CloseAll();
      table[current] := table[current].(status := Zombie);
      table[table[current].parent] := table[table[current].parent].(status := Running);
      table[table[current].parent] := table[table[current].parent].(signal := table[table[current].parent].signal + {SIGCHLD});
      assert Snap() == Exit(s, status);
      ExitKeeps(s, status);
      Schedule();
      StepKeeps(s, Event.SysExit(status), Snap());
    }

    /** One scan of `waitpid`: reap the first dead child that matches; `seen` tells whether
        any child matched, on top of what it told before. */
    method Scan(pid: int, seen: bool) returns (found: bool, r: Waited)
      requires Valid() && Cur(Snap()).control == User
      modifies table
      ensures Valid()
      ensures r.Reaped? <==> !NoneDead(old(Snap()).procs, current, pid)
      ensures r.Reaped? ==> exists i :: Step(old(Snap()), SysReap(pid, i), Snap()) && Slot(old(Snap()), i)
                                        && r == Reaped(i % 256, old(Snap()).procs[i].exitCode)
      ensures !r.Reaped? ==> r == NotYet && Snap() == old(Snap())
      ensures found <==> seen || exists j :: Matches(old(Snap()).procs, current, pid, j)
    {
      ghost var s := Snap();
      found := seen;
      for i := 0 to table.Length
        invariant Snap() == s
        invariant found <==> seen || exists j :: 0 <= j < i && Matches(s.procs, current, pid, j)
        invariant forall j :: 0 <= j < i && Matches(s.procs, current, pid, j) ==> s.procs[j].status != Zombie
      {
        if i != current && (pid == -1 || i == pid) {
          if table[i].parent == current && table[i].inUse {
            assert Matches(s.procs, current, pid, i);
            found := true;
            if table[i].status == Zombie {
              r := Reaped(i % 256, table[i].exitCode);
              table[i] := table[i].(inUse := false);
              assert IsFirstDead(s.procs, current, pid, i);
              assert Snap() == Reap(s, i);
              StepKeeps(s, SysReap(pid, i), Snap());
              return;
            }
          }
        }
      }
      r := NotYet;
    }

    /** Pauses inside `waitpid`. */
    method Sleep(pid: int)
      requires Valid() && inRing0 == 0 && Cur(Snap()).control == User
      requires NoneDead(Snap().procs, current, pid) && exists j :: Matches(Snap().procs, current, pid, j)
      requires CanSchedule(Block(Snap(), pid))
      modifies this`current, table
      ensures Valid() && Step(old(Snap()), SysBlock(pid), Snap())
    {
      ghost var s := Snap();
      var kids := set i | 0 <= i < table.Length && table[i].parent == current && table[i].inUse;
      table[current] := table[current].(control := InWait(pid, kids));
      table[current] := table[current].(status := Interruptible);
      assert kids == Kids(s.procs, s.current);
      assert Snap() == Block(s, pid);
      Schedule();
      StepKeeps(s, SysBlock(pid), Snap());
    }

    /** `waitpid` up to its return, or up to the pause inside it. */
    method SysWaitpid(pid: int, noHang: bool) returns (r: Waited)
      requires Valid() && inRing0 == 0 && Cur(Snap()).control == User
      requires !noHang && NoneDead(Snap().procs, current, pid) && (exists j :: Matches(Snap().procs, current, pid, j)) ==>
                 CanSchedule(Block(Snap(), pid))
      modifies this`current, table
      ensures Valid()
      ensures Outcome(old(Snap()), pid, noHang, r, Snap())
      ensures r.Reaped? <==> !NoneDead(old(Snap()).procs, old(current), pid)
      ensures r.NoChild? <==> forall j :: !Matches(old(Snap()).procs, old(current), pid, j)
      ensures r.NotYet? || r.Asleep? ==> (r.NotYet? <==> noHang)
    {
      var found;
      found, r := Scan(pid, false);
      if r.Reaped? { return; }
      if found {
        if noHang { return NotYet; }
        Sleep(pid);
        return Asleep;
      }
      r := NoChild;
    }

    /** `waitpid` from where its pause ends: the child signal is dropped, and either another
        signal ends the wait or the scan starts again, with its flag still set. */
    method ResumeWaitpid(noHang: bool) returns (r: Waited)
      requires Valid() && inRing0 == 0 && Cur(Snap()).control.InWait?
      requires var s, pid := Resume(Snap()), Cur(Snap()).control.pid;
               !noHang && Cur(s).signal == {} && NoneDead(s.procs, s.current, pid) ==> CanSchedule(Block(s, pid))
      modifies this`current, table
      ensures Valid()
      ensures var s := Resume(old(Snap()));
              && Step(old(Snap()), Resumed, s)
              && (if Cur(s).signal != {} then r == Interrupted && Snap() == s
                  else Outcome(s, Cur(old(Snap())).control.pid, noHang, r, Snap()) && !r.NoChild?)
      ensures r == Interrupted <==> exists x :: x in old(Cur(Snap()).signal) && x != SIGCHLD
      ensures r == Interrupted ==>
                && current == old(current) && Cur(Snap()).signal == old(Cur(Snap()).signal) - {SIGCHLD}
                && forall q :: 0 <= q < table.Length && q != current ==> table[q] == old(table[q])
      ensures var pid := old(Cur(Snap()).control.pid);
              r.Reaped? <==> r != Interrupted && !NoneDead(old(Snap()).procs, old(current), pid)
      ensures r.Reaped? ==> exists i ::
                IsFirstDead(old(Snap()).procs, old(current), old(Cur(Snap()).control.pid), i)
                && r == Reaped(i % 256, old(Snap()).procs[i].exitCode) && !InUse(Snap(), i)
    {
      ghost var s := Snap();
      var pid := table[current].control.pid;
      table[current] := table[current].(signal := table[current].signal - {SIGCHLD}, control := User);
      assert Snap() == Resume(s);
      StepKeeps(s, Resumed, Snap());
      StillHasChild(s);
      SameDead(s);
      OtherSignals(Cur(s).signal);
      if table[current].signal != {} { return Interrupted; }
      var found;
      found, r := Scan(pid, true);
      if r.Reaped? { return; }
      if noHang { return NotYet; }
      Sleep(pid);
      r := Asleep;
    }

    // ----- fs/fs.c

    method FindFreeFd() returns (fd: int)
      requires Slot(Snap(), current)
      ensures fd == -1 ==> forall g :: 0 <= g < |table[current].files| ==> table[current].files[g] != -1
      ensures fd != -1 ==> FreeFd(Snap(), fd) && forall g :: 0 <= g < fd ==> table[current].files[g] != -1
    {
      for i := 0 to |table[current].files|
        invariant forall g :: 0 <= g < i ==> table[current].files[g] != -1
      {
        if table[current].files[i] == -1 { return i; }
      }
      return -1;
    }

    method FindFreeDesc() returns (d: int)
      ensures d == -1 ==> forall e :: 0 <= e < descs.Length ==> descs[e].inode != -1
      ensures d != -1 ==> 0 <= d < descs.Length && descs[d].inode == -1 && forall e :: 0 <= e < d ==> descs[e].inode != -1
    {
      for i := 0 to descs.Length
        invariant forall e :: 0 <= e < i ==> descs[e].inode != -1
      {
        if descs[i].inode == -1 { return i; }
      }
      return -1;
    }

    /** `inode` is what path resolution found, -1 for nothing. */
    method SysOpen(inode: int) returns (fd: int)
      requires Valid() && Cur(Snap()).control == User && -1 <= inode < inodes.Length
      modifies table, descs, inodes
      ensures Valid()
      ensures fd == -1 <==> inode == -1 || (forall g :: 0 <= g < FILES ==> !FreeFd(old(Snap()), g))
                            || forall e :: 0 <= e < descs.Length ==> old(descs[e].inode) != -1
      ensures if fd == -1 then Snap() == old(Snap())
              else exists d :: Step(old(Snap()), Event.SysOpen(fd, d, inode), Snap())
      ensures forall g :: 0 <= g < fd ==> !FreeFd(old(Snap()), g)
    {
      ghost var s := Snap();
      assert RestOk(s.procs, s.current);
      fd := FindFreeFd();
      if fd == -1 { return; }
      var d := FindFreeDesc();
      if d == -1 { return -1; }
      if inode == -1 { return -1; }
      table[current] := table[current].(files := table[current].files[fd := d]);
      descs[d] := descs[d].(pos := 0);
      descs[d] := descs[d].(inode := inode);
      descs[d] := descs[d].(used := 1);
      inodes[inode] := inodes[inode] + 1;
      assert Snap() == Open(s, fd, d, inode);
      StepKeeps(s, Event.SysOpen(fd, d, inode), Snap());
      assert FreeFd(s, fd);
    }

    method SysClose(fd: int) returns (r: int)
      requires Valid() && Cur(Snap()).control == User && OpenFd(Snap(), fd)
      modifies table, descs, inodes
      ensures Valid() && r == 0 && Step(old(Snap()), Event.SysClose(fd), Snap())
    {
      ghost var s := Snap();
      assert SlotOk(s, s.procs[s.current].files[fd]);
      CloseSlot(fd);
      r := 0;
      StepKeeps(s, Event.SysClose(fd), Snap());
    }

    method SysDup(oldfd: int) returns (fd: int)
      requires Valid() && Cur(Snap()).control == User
      requires (exists g :: 0 <= g < FILES && FreeFd(Snap(), g)) ==> OpenFd(Snap(), oldfd)
      modifies table, descs, inodes
      ensures Valid()
      ensures fd == -1 <==> forall g :: 0 <= g < FILES ==> !FreeFd(old(Snap()), g)
      ensures if fd == -1 then Snap() == old(Snap()) else Step(old(Snap()), Event.SysDup(fd, oldfd), Snap())
      ensures forall g :: 0 <= g < fd ==> !FreeFd(old(Snap()), g)
    {
      ghost var s := Snap();
      assert RestOk(s.procs, s.current);
      fd := FindFreeFd();
      if fd == -1 { return; }
      assert FreeFd(s, fd);
      assert SlotOk(s, s.procs[s.current].files[oldfd]);
      table[current] := table[current].(files := table[current].files[fd := table[current].files[oldfd]]);
      var d := table[current].files[oldfd];
      inodes[descs[d].inode] := inodes[descs[d].inode] + 1;
      descs[d] := descs[d].(used := descs[d].used + 1);
      assert Snap() == Dup(s, fd, oldfd);
      StepKeeps(s, Event.SysDup(fd, oldfd), Snap());
    }
  }
}
