/** The process table, the scheduler and the open-file tables as values: what each system
    call does to them (kernel/process.c, kernel/schedule.c, fs/fs.c). */
module Processes {
  import opened Words

  const SIGALRM := 14
  const SIGCHLD := 17
  const HZ := 100
  const FILES := 1024

  datatype Status = Running | Interruptible | Uninterruptible | Zombie | Stopped

  /** Where a process continues when it next runs: in user code, or inside a `waitpid` that
      paused, having at that time the children `kids`. */
  datatype Control = User | InWait(pid: int, kids: set<int>)

  /** A slot of `process_table`. `files[fd]` is an index into the descriptor table, -1 for none;
      `signal` is the set of pending signal numbers; `exitCode` is an unsigned char. */
  datatype Proc = Proc(inUse: bool, status: Status, signal: set<int>, parent: int, exitCode: int,
                       alarm: Count, files: seq<int>, control: Control)

  /** `struct file_descriptor`; inode -1 marks a descriptor that was never opened. */
  datatype FileDesc = FileDesc(inode: int, used: int, pos: int)

  /** `inodes[n]` is the used count of inode `n`. */
  datatype Kern = Kern(procs: seq<Proc>, current: int, ticks: Count, descs: seq<FileDesc>, inodes: seq<int>)

  predicate Slot(s: Kern, p: int) { 0 <= p < |s.procs| }

  predicate InUse(s: Kern, p: int) { Slot(s, p) && s.procs[p].inUse }

  predicate IsZombie(s: Kern, p: int) { InUse(s, p) && s.procs[p].status == Zombie }

  predicate Runnable(p: Proc) { p.inUse && p.status == Running }

  // ----- schedule

  /** The alarm and signal pass of `schedule` on one slot. */
  function Woken(p: Proc, ticks: Count): Proc {
    if !p.inUse then p else
      var q := if p.alarm != 0 && p.alarm < ticks then p.(signal := p.signal + {SIGALRM}, alarm := 0) else p;
      if q.signal != {} && q.status == Interruptible then q.(status := Running) else q
  }

  function AllWoken(procs: seq<Proc>, ticks: Count): seq<Proc> {
    seq(|procs|, i requires 0 <= i < |procs| => Woken(procs[i], ticks))
  }

  /** The slot `d` places after `c` in cyclic order, for `d` up to one round. */
  function Cycle(n: int, c: int, d: int): int { if c + d < n then c + d else c + d - n }

  /** The first runnable slot at distance `d` or more after `c`; -1 if there is none in one round. */
  function Next(procs: seq<Proc>, c: int, d: int): int
    requires 0 <= c < |procs| && 1 <= d
    decreases |procs| - d
  {
    if d > |procs| then -1
    else if Runnable(procs[Cycle(|procs|, c, d)]) then Cycle(|procs|, c, d)
    else Next(procs, c, d + 1)
  }

  function Schedule(s: Kern): Kern
    requires Slot(s, s.current)
  {
    var procs := AllWoken(s.procs, s.ticks);
    s.(procs := procs, current := Next(procs, s.current, 1))
  }

  ghost predicate CanSchedule(s: Kern) {
    Slot(s, s.current) && exists i :: Slot(s, i) && Runnable(AllWoken(s.procs, s.ticks)[i])
  }

  function Set(s: Kern, p: int, q: Proc): Kern
    requires Slot(s, p)
  {
    s.(procs := s.procs[p := q])
  }

  function Cur(s: Kern): Proc
    requires Slot(s, s.current)
  {
    s.procs[s.current]
  }

  /** `sys_pause`, up to its call of `schedule`. */
  function Pause(s: Kern): Kern
    requires Slot(s, s.current)
  {
    Set(s, s.current, Cur(s).(status := Interruptible))
  }

  /** `sys_alarm`: unsigned arithmetic, so the sum wraps. */
  function Alarm(s: Kern, seconds: Count): Kern
    requires Slot(s, s.current)
  {
    Set(s, s.current, Cur(s).(alarm := if seconds > 0 then (s.ticks + HZ * seconds) % COUNT_LIMIT else 0))
  }

  /** `clock_handler`, up to its call of `schedule`. */
  function Tick(s: Kern): Kern {
    s.(ticks := if s.ticks + 1 >= 0xFFFF_FFFF then 0 else s.ticks + 1)
  }

  // ----- open files

  /** How many of the file slots below `n` name descriptor `d`. */
  ghost function Naming(files: seq<int>, n: int, d: int): set<int> {
    set fd | 0 <= fd < n && fd < |files| && files[fd] == d
  }

  function InodeOf(descs: seq<FileDesc>, d: int): int {
    if 0 <= d < |descs| then descs[d].inode else -1
  }

  /** The file slots below `n` that reach inode `x`. */
  ghost function Reaching(descs: seq<FileDesc>, files: seq<int>, n: int, x: int): set<int> {
    set fd | 0 <= fd < n && fd < |files| && files[fd] != -1 && InodeOf(descs, files[fd]) == x
  }

  function Shift(count: int, n: int, up: bool): int { if up then count + n else count - n }

  /** Every count raised, or lowered, by the slots of `files` below `n` that lead to it. */
  ghost function Moved(s: Kern, files: seq<int>, n: int, up: bool): Kern {
    s.(descs := seq(|s.descs|, d requires 0 <= d < |s.descs| =>
                      s.descs[d].(used := Shift(s.descs[d].used, |Naming(files, n, d)|, up))),
       inodes := seq(|s.inodes|, x requires 0 <= x < |s.inodes| =>
                       Shift(s.inodes[x], |Reaching(s.descs, files, n, x)|, up)))
  }

  /** The two counts behind descriptor `d` moved by one. */
  function Touched(s: Kern, d: int, up: bool): Kern
    requires 0 <= d < |s.descs| && 0 <= s.descs[d].inode < |s.inodes|
  {
    var x := s.descs[d].inode;
    s.(descs := s.descs[d := s.descs[d].(used := Shift(s.descs[d].used, 1, up))],
       inodes := s.inodes[x := Shift(s.inodes[x], 1, up)])
  }

  // ----- fork

  predicate IsFirstFree(procs: seq<Proc>, p: int) {
    0 <= p < |procs| && !procs[p].inUse && forall q :: 0 <= q < p ==> procs[q].inUse
  }

  /** `sys_fork` into free slot `pid`. */
  ghost function Fork(s: Kern, pid: int): Kern
    requires Slot(s, s.current) && Slot(s, pid)
  {
    var files := Cur(s).files;
    Moved(s, files, |files|, true).(procs := s.procs[pid := Cur(s).(parent := s.current, status := Running)])
  }

  // ----- exit

  function Orphaned(procs: seq<Proc>, x: int): seq<Proc> {
    seq(|procs|, i requires 0 <= i < |procs| => if procs[i].parent == x then procs[i].(parent := 0) else procs[i])
  }

  function Closed(p: Proc): Proc { p.(files := seq(|p.files|, _ => -1)) }

  /** `sys_exit`, up to the `schedule` on the way out of the system call. */
  ghost function Exit(s: Kern, status: int): Kern
    requires Slot(s, s.current) && 0 <= Cur(s).parent < |s.procs|
  {
    var x, files := s.current, Cur(s).files;
    var procs := Orphaned(s.procs[x := Cur(s).(exitCode := status % 256)], x);
    var gone := procs[x := Closed(procs[x]).(status := Zombie)];
    var up := gone[x].parent;
    var woken := gone[up := gone[up].(status := Running)];
    var told := woken[up := woken[up].(signal := woken[up].signal + {SIGCHLD})];
    Moved(s, files, |files|, false).(procs := told)
  }

  // ----- waitpid

  /** Slot `i` is a child the caller waits for. */
  predicate Matches(procs: seq<Proc>, me: int, pid: int, i: int) {
    0 <= i < |procs| && i != me && (pid == -1 || i == pid) && procs[i].parent == me && procs[i].inUse
  }

  /** The first waited-for child that is a zombie. */
  ghost predicate IsFirstDead(procs: seq<Proc>, me: int, pid: int, i: int) {
    && Matches(procs, me, pid, i) && procs[i].status == Zombie
    && forall j :: 0 <= j < i && Matches(procs, me, pid, j) ==> procs[j].status != Zombie
  }

  ghost predicate NoneDead(procs: seq<Proc>, me: int, pid: int) {
    forall j :: Matches(procs, me, pid, j) ==> procs[j].status != Zombie
  }

  function Kids(procs: seq<Proc>, me: int): set<int> {
    set i | 0 <= i < |procs| && procs[i].parent == me && procs[i].inUse
  }

  function Reap(s: Kern, i: int): Kern
    requires Slot(s, i)
  {
    Set(s, i, s.procs[i].(inUse := false))
  }

  // ----- files: open, dup, close

  function Open(s: Kern, fd: int, d: int, inode: int): Kern
    requires Slot(s, s.current) && 0 <= fd < |Cur(s).files| && 0 <= d < |s.descs| && 0 <= inode < |s.inodes|
  {
    s.(procs := s.procs[s.current := Cur(s).(files := Cur(s).files[fd := d])],
       descs := s.descs[d := FileDesc(inode, 1, 0)],
       inodes := s.inodes[inode := s.inodes[inode] + 1])
  }

  function Dup(s: Kern, fd: int, oldfd: int): Kern
    requires Slot(s, s.current) && 0 <= fd < |Cur(s).files| && 0 <= oldfd < |Cur(s).files|
    requires 0 <= Cur(s).files[oldfd] < |s.descs| && 0 <= s.descs[Cur(s).files[oldfd]].inode < |s.inodes|
  {
    var d := Cur(s).files[oldfd];
    Touched(s, d, true).(procs := s.procs[s.current := Cur(s).(files := Cur(s).files[fd := d])])
  }

  function Close(s: Kern, fd: int): Kern
    requires Slot(s, s.current) && 0 <= fd < |Cur(s).files|
    requires 0 <= Cur(s).files[fd] < |s.descs| && 0 <= s.descs[Cur(s).files[fd]].inode < |s.inodes|
  {
    Touched(s, Cur(s).files[fd], false).(procs := s.procs[s.current := Cur(s).(files := Cur(s).files[fd := -1])])
  }
}
