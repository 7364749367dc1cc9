/** What every system call keeps about the process table: the parent relation is a tree
    rooted at process 0, zombies wait unreaped and hold nothing, and no paused waiter has
    missed a dead child. */
module ProcessTree {
  import opened Words
  import opened Processes

  /** Following parents from `p` reaches process 0 in at most `k` steps, through slots in use. */
  ghost predicate Climbs(procs: seq<Proc>, p: int, k: nat)
    decreases k
  {
    && 0 <= p < |procs| && procs[p].inUse
    && (p == 0 || (k > 0 && Climbs(procs, procs[p].parent, k - 1)))
  }

  ghost predicate ReachesRoot(procs: seq<Proc>, p: int) { exists k: nat :: Climbs(procs, p, k) }

  predicate Empty(files: seq<int>) { forall fd :: 0 <= fd < |files| ==> files[fd] == -1 }

  /** A slot in use other than 0 has a live parent: in use and not a zombie. */
  ghost predicate ParentOk(procs: seq<Proc>, p: int)
    requires 0 <= p < |procs|
  {
    p != 0 && procs[p].inUse ==>
      && 0 <= procs[p].parent < |procs| && procs[p].parent != p
      && procs[procs[p].parent].inUse && procs[procs[p].parent].status != Zombie
      && ReachesRoot(procs, p)
  }

  /** Free slots and zombies hold no open files; zombies are not inside a system call. */
  ghost predicate RestOk(procs: seq<Proc>, p: int)
    requires 0 <= p < |procs|
  {
    && |procs[p].files| == FILES && 0 <= procs[p].exitCode < 256
    && (!procs[p].inUse || procs[p].status == Zombie ==> Empty(procs[p].files) && procs[p].control == User)
  }

  /** A process inside `waitpid` still has all the children it paused with, one of them waited
      for; and while it is paused, none of those it waits for is dead. */
  ghost predicate WaiterOk(procs: seq<Proc>, p: int)
    requires 0 <= p < |procs|
  {
    procs[p].inUse && procs[p].control.InWait? ==>
      var w := procs[p].control;
      && (forall c :: c in w.kids ==> 0 <= c < |procs| && c != p && procs[c].inUse && procs[c].parent == p)
      && (exists c :: c in w.kids && (w.pid == -1 || c == w.pid))
      && (procs[p].status == Running || procs[p].status == Interruptible)
      && (procs[p].status == Interruptible ==>
            forall c :: c in w.kids && 0 <= c < |procs| && (w.pid == -1 || c == w.pid) ==> procs[c].status != Zombie)
  }

  ghost predicate TableOk(procs: seq<Proc>) {
    && |procs| > 0 && procs[0].inUse && procs[0].status != Zombie && procs[0].parent == -1
    && (forall p :: 0 <= p < |procs| ==> ParentOk(procs, p) && RestOk(procs, p) && WaiterOk(procs, p))
  }

  /** The invariant between system calls: the table is sound and the current process runs. */
  ghost predicate TreeInv(s: Kern) {
    TableOk(s.procs) && Slot(s, s.current) && Runnable(s.procs[s.current])
  }

  // ----- schedule

  lemma {:induction false} RootInUse(procs: seq<Proc>, p: int, k: nat)
    requires Climbs(procs, p, k)
    ensures |procs| > 0 && procs[0].inUse
    decreases k
  {
    if p != 0 { RootInUse(procs, procs[p].parent, k - 1); }
  }

  lemma {:induction false} ClimbsKept(procs: seq<Proc>, procs': seq<Proc>, p: int, k: nat)
    requires |procs'| == |procs| && Climbs(procs, p, k)
    requires forall q :: 0 <= q < |procs| && procs[q].inUse ==>
               procs'[q].inUse && (procs'[q].parent == procs[q].parent || procs'[q].parent == 0)
    ensures Climbs(procs', p, k)
    decreases k
  {
    if p != 0 {
      ClimbsKept(procs, procs', procs[p].parent, k - 1);
      if procs'[p].parent == 0 { assert procs[0].inUse by { RootInUse(procs, p, k); } }
    }
  }

  lemma ReachesKept(procs: seq<Proc>, procs': seq<Proc>, p: int)
    requires |procs'| == |procs| && ReachesRoot(procs, p)
    requires forall q :: 0 <= q < |procs| && procs[q].inUse ==>
               procs'[q].inUse && (procs'[q].parent == procs[q].parent || procs'[q].parent == 0)
    ensures ReachesRoot(procs', p)
  {
    var k: nat :| Climbs(procs, p, k);
    ClimbsKept(procs, procs', p, k);
  }

  /** A change that at most wakes the process: use, parent, files and control stay. */
  ghost predicate Mild(p: Proc, q: Proc) {
    && q.inUse == p.inUse && q.parent == p.parent && q.files == p.files && q.control == p.control && q.exitCode == p.exitCode
    && (q.status == p.status || (p.status == Interruptible && q.status == Running))
  }

  lemma MildKeeps(procs: seq<Proc>, procs': seq<Proc>)
    requires TableOk(procs) && |procs'| == |procs|
    requires forall i :: 0 <= i < |procs| ==> Mild(procs[i], procs'[i])
    ensures TableOk(procs')
  {
    forall p | 0 <= p < |procs| ensures ParentOk(procs', p) && RestOk(procs', p) && WaiterOk(procs', p) {
      assert ParentOk(procs, p) && RestOk(procs, p) && WaiterOk(procs, p);
      if p != 0 && procs[p].inUse { ReachesKept(procs, procs', p); }
    }
  }

  lemma NextFinds(procs: seq<Proc>, c: int, d: int)
    requires 0 <= c < |procs| && 1 <= d
    ensures Next(procs, c, d) == -1 ==> forall e :: d <= e <= |procs| ==> !Runnable(procs[Cycle(|procs|, c, e)])
    ensures Next(procs, c, d) != -1 ==>
              exists e :: d <= e <= |procs| && Next(procs, c, d) == Cycle(|procs|, c, e)
                && Runnable(procs[Cycle(|procs|, c, e)])
                && forall g :: d <= g < e ==> !Runnable(procs[Cycle(|procs|, c, g)])
    decreases |procs| - d
  {
    if d <= |procs| && !Runnable(procs[Cycle(|procs|, c, d)]) {
      NextFinds(procs, c, d + 1);
    }
  }

  /** One round of the cycle visits every slot. */
  lemma Round(n: int, c: int, i: int)
    requires 0 <= c < n && 0 <= i < n
    ensures var e := if i > c then i - c else i - c + n; 1 <= e <= n && Cycle(n, c, e) == i
  {
  }

  /** The selection loop of `schedule` stops exactly when some slot is runnable. */
  lemma NextExists(procs: seq<Proc>, c: int)
    requires 0 <= c < |procs|
    ensures Next(procs, c, 1) != -1 <==> exists i :: 0 <= i < |procs| && Runnable(procs[i])
    ensures Next(procs, c, 1) != -1 ==> 0 <= Next(procs, c, 1) < |procs| && Runnable(procs[Next(procs, c, 1)])
  {
    NextFinds(procs, c, 1);
    if i :| 0 <= i < |procs| && Runnable(procs[i]) {
      Round(|procs|, c, i);
    }
  }

  lemma ScheduleKeeps(s: Kern)
    requires TableOk(s.procs) && CanSchedule(s)
    ensures TreeInv(Schedule(s))
  {
    var procs := AllWoken(s.procs, s.ticks);
    MildKeeps(s.procs, procs);
    NextExists(procs, s.current);
  }

  /** Pausing outside `waitpid`, setting an alarm, opening and closing files: the running
      process changes itself, keeping its place in the tree. */
  lemma SelfKeeps(s: Kern, q: Proc)
    requires TreeInv(s) && Cur(s).control == User
    requires q.inUse && q.parent == Cur(s).parent && |q.files| == FILES && q.control == User
    requires q.exitCode == Cur(s).exitCode && q.status != Zombie
    ensures TableOk(Set(s, s.current, q).procs)
  {
    var procs, procs' := s.procs, Set(s, s.current, q).procs;
    forall p | 0 <= p < |procs| ensures ParentOk(procs', p) && RestOk(procs', p) && WaiterOk(procs', p) {
      assert ParentOk(procs, p) && RestOk(procs, p) && WaiterOk(procs, p);
      if p != 0 && procs[p].inUse { ReachesKept(procs, procs', p); }
    }
  }

  // ----- fork

  lemma {:induction false} ClimbsBeside(procs: seq<Proc>, procs': seq<Proc>, p: int, k: nat, free: int)
    requires |procs'| == |procs| && Climbs(procs, p, k) && 0 <= free < |procs| && !procs[free].inUse
    requires forall q :: 0 <= q < |procs| && q != free ==> procs'[q] == procs[q]
    ensures Climbs(procs', p, k)
    decreases k
  {
    if p != 0 { ClimbsBeside(procs, procs', procs[p].parent, k - 1, free); }
  }

  /** The child hangs below the forking process; nobody else moves. */
  lemma ForkKeeps(s: Kern, pid: int)
    requires TreeInv(s) && Cur(s).control == User && IsFirstFree(s.procs, pid)
    ensures TreeInv(Fork(s, pid))
  {
    var procs, procs' := s.procs, Fork(s, pid).procs;
    var me := s.current;
    assert procs'[me] == procs[me];
    forall p | 0 <= p < |procs| ensures ParentOk(procs', p) && RestOk(procs', p) && WaiterOk(procs', p) {
      assert ParentOk(procs, p) && RestOk(procs, p) && WaiterOk(procs, p);
      assert RestOk(procs, me) && ParentOk(procs, me);
      if p == pid {
        assert ReachesRoot(procs, me) by { if me == 0 { assert Climbs(procs, 0, 0); } }
        var k: nat :| Climbs(procs, me, k);
        ClimbsBeside(procs, procs', me, k, pid);
        assert Climbs(procs', pid, k + 1);
      } else if p != 0 && procs[p].inUse {
        var k: nat :| Climbs(procs, p, k);
        ClimbsBeside(procs, procs', p, k, pid);
      }
    }
  }

  // ----- exit

  /** The parent that exit wakes is a live process, never a zombie and never the one that exits. */
  lemma ExitParent(s: Kern, status: int)
    requires TreeInv(s) && s.current != 0
    ensures 0 <= Cur(s).parent < |s.procs| && Cur(s).parent != s.current
    ensures InUse(s, Cur(s).parent) && !IsZombie(s, Cur(s).parent)
  {
    assert ParentOk(s.procs, s.current);
  }

  lemma ExitSlots(s: Kern, status: int)
    requires TreeInv(s) && s.current != 0
    ensures 0 <= Cur(s).parent < |s.procs|
    ensures var s', x := Exit(s, status), s.current; var up := Cur(s).parent;
            && |s'.procs| == |s.procs|
            && s'.procs[x] == Closed(s.procs[x]).(exitCode := status % 256, status := Zombie)
            && (forall i :: 0 <= i < |s.procs| && i != x && i != up ==>
                  s'.procs[i] == s.procs[i].(parent := if s.procs[i].parent == x then 0 else s.procs[i].parent))
            && s'.procs[up] == s.procs[up].(parent := if s.procs[up].parent == x then 0 else s.procs[up].parent,
                                            status := Running, signal := s.procs[up].signal + {SIGCHLD})
  {
    ExitParent(s, status);
  }

  /** After an exit the parent can be scheduled. */
  lemma ExitWakes(s: Kern, status: int)
    requires TreeInv(s) && s.current != 0
    ensures 0 <= Cur(s).parent < |s.procs| && CanSchedule(Exit(s, status))
  {
    ExitParent(s, status);
    ExitSlots(s, status);
    assert Runnable(AllWoken(Exit(s, status).procs, s.ticks)[Cur(s).parent]);
  }

  lemma ExitSlotOk(s: Kern, status: int, p: int)
    requires TreeInv(s) && s.current != 0 && Cur(s).control == User && 0 <= p < |s.procs|
    ensures 0 <= Cur(s).parent < |s.procs| && |Exit(s, status).procs| == |s.procs|
    ensures var procs := Exit(s, status).procs; ParentOk(procs, p) && RestOk(procs, p) && WaiterOk(procs, p)
  {
    ExitParent(s, status);
    ExitSlots(s, status);
    var procs, procs' := s.procs, Exit(s, status).procs;
    assert ParentOk(procs, p) && RestOk(procs, p) && WaiterOk(procs, p);
    if p != 0 && procs[p].inUse { ReachesKept(procs, procs', p); }
  }

  /** Exit orphans every child before the process becomes a zombie, so the tree stays a tree. */
  lemma ExitKeeps(s: Kern, status: int)
    requires TreeInv(s) && s.current != 0 && Cur(s).control == User
    ensures 0 <= Cur(s).parent < |s.procs|
    ensures TableOk(Exit(s, status).procs) && CanSchedule(Exit(s, status))
    ensures IsZombie(Exit(s, status), s.current) && Exit(s, status).procs[s.current].exitCode == status % 256
    ensures !IsZombie(Exit(s, status), Cur(s).parent)
  {
    ExitParent(s, status);
    ExitSlots(s, status);
    forall p | 0 <= p < |s.procs|
      ensures ParentOk(Exit(s, status).procs, p) && RestOk(Exit(s, status).procs, p) && WaiterOk(Exit(s, status).procs, p)
    {
      ExitSlotOk(s, status, p);
    }
    ExitWakes(s, status);
  }

  // ----- waitpid

  lemma {:induction false} ClimbsWithout(procs: seq<Proc>, p: int, k: nat, dead: int)
    requires Climbs(procs, p, k) && p != dead && dead != 0 && 0 <= dead < |procs|
    requires forall q :: 0 <= q < |procs| ==> ParentOk(procs, q)
    requires procs[dead].status == Zombie
    ensures Climbs(procs[dead := procs[dead].(inUse := false)], p, k)
    decreases k
  {
    if p != 0 {
      assert ParentOk(procs, p);
      ClimbsWithout(procs, procs[p].parent, k - 1, dead);
    }
  }

  /** Reaping removes a leaf of the tree: a zombie has no children left. */
  lemma ReapKeeps(s: Kern, pid: int, i: int)
    requires TreeInv(s) && Cur(s).control == User && IsFirstDead(s.procs, s.current, pid, i)
    ensures TreeInv(Reap(s, i))
  {
    var procs, procs' := s.procs, Reap(s, i).procs;
    forall p | 0 <= p < |procs| ensures ParentOk(procs', p) && RestOk(procs', p) && WaiterOk(procs', p) {
      assert ParentOk(procs, p) && RestOk(procs, p) && WaiterOk(procs, p);
      if p != 0 && p != i && procs[p].inUse {
        var k: nat :| Climbs(procs, p, k);
        ClimbsWithout(procs, p, k, i);
      }
    }
  }

  /** The process pauses inside `waitpid`, after a scan that found a child but no dead one. */
  function Block(s: Kern, pid: int): Kern
    requires Slot(s, s.current)
  {
    Set(s, s.current, Cur(s).(control := InWait(pid, Kids(s.procs, s.current)), status := Interruptible))
  }

  lemma BlockKeeps(s: Kern, pid: int)
    requires TreeInv(s) && Cur(s).control == User && NoneDead(s.procs, s.current, pid)
    requires exists j :: Matches(s.procs, s.current, pid, j)
    ensures TableOk(Block(s, pid).procs)
  {
    var procs, procs' := s.procs, Block(s, pid).procs;
    var me := s.current;
    forall c | c in Kids(procs, me) ensures c != me {
      assert ParentOk(procs, c);
      assert ParentOk(procs, me);
    }
    forall p | 0 <= p < |procs| ensures ParentOk(procs', p) && RestOk(procs', p) && WaiterOk(procs', p) {
      assert ParentOk(procs, p) && RestOk(procs, p) && WaiterOk(procs, p);
      if p != 0 && procs[p].inUse { ReachesKept(procs, procs', p); }
      if p == me {
        var j :| Matches(procs, me, pid, j);
        assert j in Kids(procs, me);
        forall c | c in Kids(procs, me) && (pid == -1 || c == pid) ensures procs'[c].status != Zombie {
          assert Matches(procs, me, pid, c);
        }
      }
    }
  }

  /** A waiter that runs again leaves `waitpid`'s pause with its pending SIGCHLD cleared. */
  function Resume(s: Kern): Kern
    requires Slot(s, s.current)
  {
    Set(s, s.current, Cur(s).(signal := Cur(s).signal - {SIGCHLD}, control := User))
  }

  lemma ResumeKeeps(s: Kern)
    requires TreeInv(s)
    ensures TreeInv(Resume(s))
  {
    var procs, procs' := s.procs, Resume(s).procs;
    forall p | 0 <= p < |procs| ensures ParentOk(procs', p) && RestOk(procs', p) && WaiterOk(procs', p) {
      assert ParentOk(procs, p) && RestOk(procs, p) && WaiterOk(procs, p);
      if p != 0 && procs[p].inUse { ReachesKept(procs, procs', p); }
    }
  }

  /** A waiter that resumes still has a child to wait for, so the scan flag left set from
      before the pause never hides the absence of children. */
  lemma StillHasChild(s: Kern)
    requires TreeInv(s) && Cur(s).control.InWait?
    ensures exists j :: Matches(Resume(s).procs, s.current, Cur(s).control.pid, j)
  {
    assert WaiterOk(s.procs, s.current);
    var w := Cur(s).control;
    var c :| c in w.kids && (w.pid == -1 || c == w.pid);
    assert Matches(Resume(s).procs, s.current, w.pid, c);
  }

  /** A zombie that process 0 waits for and that is its child now, or will be once `x` is gone. */
  ghost predicate Adoptable(s: Kern, x: int, pid: int, z: int) {
    && 0 < z < |s.procs| && IsZombie(s, z) && (pid == -1 || z == pid)
    && (s.procs[z].parent == 0 || s.procs[z].parent == x)
  }

  /** After an exit, the children of process 0 that are dead are those it had and those it adopts. */
  lemma AdoptedDead(s: Kern, status: int, pid: int, z: int)
    requires TreeInv(s) && s.current != 0 && Cur(s).control == User && Cur(s).parent != 0
    ensures 0 <= Cur(s).parent < |s.procs|
    ensures var procs := Schedule(Exit(s, status)).procs;
            Matches(procs, 0, pid, z) && procs[z].status == Zombie <==> Adoptable(s, s.current, pid, z)
  {
    ExitParent(s, status);
    ExitSlots(s, status);
    if 0 <= z < |s.procs| { assert ParentOk(s.procs, z); }
  }

  /** The wake-up that is missed: an exit leaves process 0 asleep in `waitpid` beside a dead
      child it waits for if and only if the parent that exit wakes is somebody else, nothing
      else wakes process 0, and it has adopted, or now adopts, such a zombie. */
  lemma AdoptedUnnoticed(s: Kern, status: int)
    requires TreeInv(s) && s.current != 0 && Cur(s).control == User
    requires s.procs[0].status == Interruptible && s.procs[0].control.InWait?
    ensures 0 <= Cur(s).parent < |s.procs| && CanSchedule(Exit(s, status))
    ensures var s', pid := Schedule(Exit(s, status)), s.procs[0].control.pid;
            s'.procs[0].status == Interruptible && !NoneDead(s'.procs, 0, pid) <==>
              && Cur(s).parent != 0 && s.procs[0].signal == {}
              && (s.procs[0].alarm == 0 || s.procs[0].alarm >= s.ticks)
              && exists z :: Adoptable(s, s.current, pid, z)
  {
    ExitKeeps(s, status);
    ExitSlots(s, status);
    ExitParent(s, status);
    var s', pid := Schedule(Exit(s, status)), s.procs[0].control.pid;
    if Cur(s).parent != 0 {
      forall z ensures Matches(s'.procs, 0, pid, z) && s'.procs[z].status == Zombie <==> Adoptable(s, s.current, pid, z) {
        AdoptedDead(s, status, pid, z);
      }
    }
  }

  /** Five slots: process 0 waits for its child 1; process 2, a child of 1, runs, and its own
      child 3 is a zombie; slot 4 is free. */
  function Forsaken(): Kern {
    var none := seq(FILES, _ => -1);
    Kern([Proc(true, Interruptible, {}, -1, 0, 0, none, InWait(-1, {1})), Proc(true, Running, {}, 0, 0, 0, none, User),
          Proc(true, Running, {}, 1, 0, 0, none, User), Proc(true, Zombie, {}, 2, 0, 0, none, User),
          Proc(false, Running, {}, -1, 0, 0, none, User)],
         2, 0, [], [])
  }

  lemma ForsakenOk()
    ensures TreeInv(Forsaken())
  {
    var procs := Forsaken().procs;
    assert Climbs(procs, 0, 0);
    assert Climbs(procs, 1, 1);
    assert Climbs(procs, 2, 2);
    assert Climbs(procs, 3, 3);
    assert 1 in procs[0].control.kids;
  }

  /** The miss happens: when process 2 exits there, process 0 sleeps on beside zombie 3. */
  lemma WakeUpMissed(status: int)
    ensures var s := Forsaken();
            && TreeInv(s) && 0 <= Cur(s).parent < |s.procs|
            && Schedule(Exit(s, status)).procs[0].status == Interruptible
            && !NoneDead(Schedule(Exit(s, status)).procs, 0, -1)
  {
    ForsakenOk();
    assert Adoptable(Forsaken(), 2, -1, 3);
    AdoptedUnnoticed(Forsaken(), status);
  }

  /** In a sound table a waiter one of whose awaited children is dead can run. */
  lemma DeadWakesWaiter(s: Kern, p: int, c: int)
    requires TableOk(s.procs) && InUse(s, p) && s.procs[p].control.InWait?
    requires c in s.procs[p].control.kids && (s.procs[p].control.pid == -1 || c == s.procs[p].control.pid)
    requires IsZombie(s, c)
    ensures Runnable(s.procs[p])
  {
    assert WaiterOk(s.procs, p);
  }
}
