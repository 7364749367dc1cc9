/** What fork and exit together do to reference counts: exit gives back no page, so counts
    only rise (mm/page.c:65, 210-226). */
module CountLeak {
  import opened Counting
  import opened Words
  import opened Frames
  import opened AddressSpaces
  import opened AddressSteps
  import opened ForkSteps
  import opened CopyOnWrite

  /** How many entries of process `c` name frame `f`. */
  ghost function Naming(s: Sys, c: int, f: int): nat {
    if 0 <= c < |s.procs| && s.procs[c].dir.Some? then |Named(s.phys, s.procs[c].dir.value, USER_DIRS, f)| else 0
  }

  /** The parent's entries name the same frames after a fork. */
  lemma NamedSame(s: Sys, role: seq<Role>, fk: Fork, f: int)
    requires Forked(s, role, fk)
    ensures Named(fk.phys, fk.d, USER_DIRS, f) == Named(s.phys, fk.d, USER_DIRS, f)
  {
    var s' := AfterFork(s, fk);
    forall i, j | 0 <= i < USER_DIRS && 0 <= j < ENTRIES
      ensures (Pte(fk.phys, fk.d, i, j) == ZERO <==> Pte(s.phys, fk.d, i, j) == ZERO)
              && Pte(fk.phys, fk.d, i, j).frame == Pte(s.phys, fk.d, i, j).frame
    {
      ForkEntry(s, role, fk, fk.c, i, j);
      ClearedEntry(role, Entry(s, fk.c, i, j));
      assert Entry(s', fk.c, i, j) == Pte(fk.phys, fk.d, i, j);
    }
  }

  /** Parent and child have the same directory slots in use. */
  lemma SlotsSame(s: Sys, role: seq<Role>, fk: Fork)
    requires Forked(s, role, fk)
    ensures TableSlots(fk.phys, fk.d, USER_DIRS) == TableSlots(s.phys, fk.d, USER_DIRS)
    ensures TableSlots(fk.phys, fk.r, USER_DIRS) == TableSlots(s.phys, fk.d, USER_DIRS)
  {
    assert SlotOk(s, role, fk.c) && SlotOk(s, role, fk.ch);
    ForkFrame(s, role, fk, fk.d);
    forall i | 0 <= i < USER_DIRS ensures At(fk.phys, fk.r, i) == ZERO <==> At(s.phys, fk.d, i) == ZERO {
      assert RowCopied(s, role, fk.d, fk.r, fk.ch, i, fk.phys, fk.role);
    }
  }

  /** Exit gives back a frame for each table, and the kernel stack, none of them free before. */
  lemma ExitCard(s: Sys, role: seq<Role>, p: int)
    requires Shape(s, role) && Live(s, p)
    ensures s.procs[p].dir.Some?
    ensures |ExitFrames(s, p)| == |TableSlots(s.phys, s.procs[p].dir.value, USER_DIRS)| + 1
    ensures ExitFrames(s, p) !! FreeFrames(s.mem)
  {
    assert SlotOk(s, role, p);
    var d, ks: int := s.procs[p].dir.value, s.procs[p].kstack;
    var slots, tables := TableSlots(s.phys, d, USER_DIRS), TableFrames(s.phys, d, USER_DIRS);
    var frame := (i: int) => At(s.phys, d, i).frame as int;
    forall i | i in slots ensures frame(i) < |role| && role[frame(i)] == Table(p, i) {
      assert TableOk(s.phys, role, d, p, i);
    }
    forall y ensures y in tables <==> exists i :: i in slots && frame(i) == y {
      if y in tables {
        var i :| 0 <= i < USER_DIRS && At(s.phys, d, i) != ZERO && At(s.phys, d, i).frame == y;
        assert i in slots && frame(i) == y;
      }
    }
    ImageCard(slots, frame, tables);
    assert ks !in tables;
    forall f | f in ExitFrames(s, p) ensures f !in FreeFrames(s.mem) { ExitFramesRole(s, role, p, f); }
  }

  /** Slot `ch` can be forked into again and again: it was used before, and enough frames are free. */
  ghost predicate Ready(s: Sys, c: int, ch: int) {
    && Live(s, c) && s.procs[c].dir.Some?
    && 0 <= ch < |s.procs| && !s.procs[ch].live && s.procs[ch].dir.Some?
    && |FreeFrames(s.mem)| > |TableSlots(s.phys, s.procs[c].dir.value, USER_DIRS)|
  }

  /** `n` more forks of process `c` leave every page's count below the top of an unsigned int. */
  ghost predicate Room(s: Sys, role: seq<Role>, c: int, n: nat) {
    |role| <= |s.mem| &&
    forall f :: 0 <= f < |role| && role[f] == Data ==> s.mem[f].count + n * Naming(s, c, f) < COUNT_LIMIT
  }

  /** After `n` children of `c` have come and gone nobody sees a difference, but each page's
      count has risen by `n` for each entry of the parent that names it. */
  ghost predicate Gone(s: Sys, role: seq<Role>, c: int, n: nat, s': Sys, role': seq<Role>) {
    && Abs(s') == Abs(s) && |role'| == |role| && |s'.mem| == |s.mem| && |role| <= |s.mem|
    && (forall f :: Naming(s', c, f) == Naming(s, c, f))
    && (forall f :: 0 <= f < |role| ==> (role'[f] == Data <==> role[f] == Data))
    && (forall f :: 0 <= f < |role| && role[f] == Data ==> s'.mem[f].count == s.mem[f].count + n * Naming(s, c, f))
  }

  /** Counts of frames that no entry names always fit. */
  lemma FitsFromData(s: Sys, role: seq<Role>, c: int)
    requires Shape(s, role) && Live(s, c) && s.procs[c].dir.Some?
    requires Room(s, role, c, 1)
    ensures CountsFit(s, s.procs[c].dir.value)
  {
    var d := s.procs[c].dir.value;
    forall f | 0 <= f < |s.mem| && Used(s.mem[f]) ensures s.mem[f].count + |Named(s.phys, d, USER_DIRS, f)| < COUNT_LIMIT {
      if role[f] != Data {
        OnlyDataNamed(s, role, f);
        forall x | x in Named(s.phys, d, USER_DIRS, f) ensures (c, x.0, x.1) in Refs(s, f) {}
        assert Named(s.phys, d, USER_DIRS, f) == {};
      }
    }
  }

  lemma RoundCount(s: Sys, role: seq<Role>, fk: Fork, f: int)
    requires Forked(s, role, fk) && Inv(s, role) && Room(s, role, fk.c, 1) && 0 <= f < |role|
    requires Live(AfterFork(s, fk), fk.ch)
    ensures var s1, role1 := AfterFork(s, fk), fk.role[fk.ks := Stack(fk.ch)];
            var s2, role2 := AfterExit(s1, fk.ch), ExitRole(s1, role1, fk.ch);
            && |s2.mem| == |role2| == |role| && (role2[f] == Data <==> role[f] == Data)
            && (role[f] == Data ==> s2.mem[f].count == s.mem[f].count + Naming(s, fk.c, f))
  {
    var s1, role1 := AfterFork(s, fk), fk.role[fk.ks := Stack(fk.ch)];
    ForkShape(s, role, fk);
    ExitFramesRole(s1, role1, fk.ch, f);
    if role[f] == Data {
      assert Used(fk.mem[f]) by { SharedUse(s.mem[f], Naming(s, fk.c, f)); }
      AdvanceWraps(s.mem[f].count, Naming(s, fk.c, f));
    }
  }

  lemma RoundNaming(s: Sys, role: seq<Role>, fk: Fork, f: int)
    requires Forked(s, role, fk) && Live(AfterFork(s, fk), fk.ch)
    ensures Naming(AfterExit(AfterFork(s, fk), fk.ch), fk.c, f) == Naming(s, fk.c, f)
  {
    NamedSame(s, role, fk, f);
  }

  /** Copying an address space to a new process and dropping it again changes nothing. */
  lemma ComeAndGo(a: map<int, Space>, p: int, child: int)
    requires p in a && child !in a
    ensures EagerExit(EagerFork(a, p, child), child) == a
  {
  }

  /** One child comes and goes. */
  lemma RoundGone(s: Sys, role: seq<Role>, fk: Fork, s1: Sys, s2: Sys, role2: seq<Role>)
    requires Forked(s, role, fk) && Inv(s, role) && Room(s, role, fk.c, 1)
    requires s1 == AfterFork(s, fk) && Live(s1, fk.ch) && s2 == AfterExit(s1, fk.ch)
    requires role2 == ExitRole(s1, fk.role[fk.ks := Stack(fk.ch)], fk.ch)
    requires Abs(s1) == EagerFork(Abs(s), fk.c, fk.ch) && Abs(s2) == EagerExit(Abs(s1), fk.ch)
    ensures Gone(s, role, fk.c, 1, s2, role2)
  {
    forall f ensures Naming(s2, fk.c, f) == Naming(s, fk.c, f) { RoundNaming(s, role, fk, f); }
    forall f | 0 <= f < |role|
      ensures |s2.mem| == |role2| == |role| && (role2[f] == Data <==> role[f] == Data)
      ensures role[f] == Data ==> s2.mem[f].count == s.mem[f].count + 1 * Naming(s, fk.c, f)
    {
      RoundCount(s, role, fk, f);
    }
    assert Abs(s2) == Abs(s) by { ComeAndGo(Abs(s), fk.c, fk.ch); }
  }

  /** The frames the child took are free again. */
  lemma RoundReady(s: Sys, role: seq<Role>, fk: Fork)
    requires Forked(s, role, fk) && Ready(s, fk.c, fk.ch)
    requires var s1, role1 := AfterFork(s, fk), fk.role[fk.ks := Stack(fk.ch)];
             Shape(s1, role1) && Live(s1, fk.ch) && s1.procs[fk.ch].dir.Some?
             && |FreeFrames(s1.mem)| == |FreeFrames(s.mem)| - |TableSlots(s.phys, fk.d, USER_DIRS)| - 1
             && FreeFrames(AfterExit(s1, fk.ch).mem) == FreeFrames(s1.mem) + ExitFrames(s1, fk.ch)
    ensures Ready(AfterExit(AfterFork(s, fk), fk.ch), fk.c, fk.ch)
  {
    SlotsSame(s, role, fk);
    ExitCard(AfterFork(s, fk), fk.role[fk.ks := Stack(fk.ch)], fk.ch);
  }

  /** A fork and the child's exit: one round. */
  method ForkThenExit(m: Memory, c: int, ch: int)
    requires m.Valid() && Ready(m.Snap(), c, ch) && Room(m.Snap(), m.role, c, 1)
    modifies m, m.memMap, m.phys, m.procs
    ensures m.Valid() && Ready(m.Snap(), c, ch)
    ensures Gone(old(m.Snap()), old(m.role), c, 1, m.Snap(), m.role)
  {
    ghost var s, role := m.Snap(), m.role;
    FitsFromData(s, role, c);
    ghost var fk := m.ShareWith(c, m.procs[c].dir.value, ch, m.procs[ch].dir.value);
    ghost var s1 := m.Snap();
    m.Exit(ch);
    RoundGone(s, role, fk, s1, m.Snap(), m.role);
    RoundReady(s, role, fk);
  }

  lemma OneRound(n: nat, x: nat)
    ensures (n + 1) * x == n * x + x
  {
  }

  lemma MoreRounds(m: nat, n: nat, x: nat)
    requires m <= n
    ensures m * x <= n * x
  {
    assert (n - m) * x >= 0;
  }

  lemma GoneNone(s: Sys, role: seq<Role>, c: int)
    requires |role| <= |s.mem|
    ensures Gone(s, role, c, 0, s, role)
  {
  }

  /** Rounds add up. */
  lemma GoneNext(s: Sys, role: seq<Role>, c: int, n: nat, s1: Sys, role1: seq<Role>, s2: Sys, role2: seq<Role>)
    requires Gone(s, role, c, n, s1, role1) && Gone(s1, role1, c, 1, s2, role2)
    ensures Gone(s, role, c, n + 1, s2, role2)
  {
    forall f | 0 <= f < |role| && role[f] == Data
      ensures s2.mem[f].count == s.mem[f].count + (n + 1) * Naming(s, c, f)
    {
      assert s2.mem[f].count == s1.mem[f].count + 1 * Naming(s1, c, f);
      OneRound(n, Naming(s, c, f));
    }
  }

  /** After `i` rounds there is room for one more if and only if there was room for `i + 1`. */
  lemma RoomLeft(s: Sys, role: seq<Role>, c: int, i: nat, s1: Sys, role1: seq<Role>)
    requires Gone(s, role, c, i, s1, role1)
    ensures Room(s1, role1, c, 1) <==> Room(s, role, c, i + 1)
  {
    forall f | 0 <= f < |role| && role[f] == Data
      ensures s1.mem[f].count + 1 * Naming(s1, c, f) == s.mem[f].count + (i + 1) * Naming(s, c, f)
    {
      OneRound(i, Naming(s, c, f));
    }
    if Room(s1, role1, c, 1) {
      forall f | 0 <= f < |role| && role[f] == Data ensures s.mem[f].count + (i + 1) * Naming(s, c, f) < COUNT_LIMIT {
        assert s1.mem[f].count + 1 * Naming(s1, c, f) < COUNT_LIMIT;
      }
    }
    if Room(s, role, c, i + 1) {
      forall f | 0 <= f < |role1| && role1[f] == Data ensures s1.mem[f].count + 1 * Naming(s1, c, f) < COUNT_LIMIT {
        assert s.mem[f].count + (i + 1) * Naming(s, c, f) < COUNT_LIMIT;
      }
    }
  }

  lemma RoomFewer(s: Sys, role: seq<Role>, c: int, i: nat, n: nat)
    requires Room(s, role, c, n) && i <= n
    ensures Room(s, role, c, i)
  {
    forall f | 0 <= f < |role| && role[f] == Data ensures s.mem[f].count + i * Naming(s, c, f) < COUNT_LIMIT {
      MoreRounds(i, n, Naming(s, c, f));
    }
  }

  /** `n` children come and go. */
  method ForkThenExitTimes(m: Memory, c: int, ch: int, n: nat)
    requires m.Valid() && Ready(m.Snap(), c, ch) && Room(m.Snap(), m.role, c, n)
    modifies m, m.memMap, m.phys, m.procs
    ensures m.Valid() && Ready(m.Snap(), c, ch)
    ensures Gone(old(m.Snap()), old(m.role), c, n, m.Snap(), m.role)
  {
    ghost var s, role := m.Snap(), m.role;
    GoneNone(s, role, c);
    var i := 0;
    while i < n
      invariant 0 <= i <= n && m.Valid() && Ready(m.Snap(), c, ch)
      invariant Gone(s, role, c, i, m.Snap(), m.role)
    {
      ghost var s1, role1 := m.Snap(), m.role;
      RoomFewer(s, role, c, i + 1, n);
      RoomLeft(s, role, c, i, s1, role1);
      ForkThenExit(m, c, ch);
      GoneNext(s, role, c, i, s1, role1, m.Snap(), m.role);
      i := i + 1;
    }
  }

  lemma MoreThan(n: nat, x: nat)
    requires x > 0
    ensures n * x >= n
  {
    assert n * x == n + n * (x - 1);
  }

  /** If the parent has a page mapped, some number of rounds leaves no room for another. */
  lemma {:induction false} TopInReach(s: Sys, role: seq<Role>, c: int, f: int, n: nat)
    requires 0 <= f < |role| && role[f] == Data && Naming(s, c, f) > 0 && Room(s, role, c, n)
    ensures exists m: nat :: Room(s, role, c, m) && !Room(s, role, c, m + 1)
    decreases COUNT_LIMIT - n
  {
    if Room(s, role, c, n + 1) {
      MoreThan(n + 1, Naming(s, c, f));
      TopInReach(s, role, c, f, n + 1);
    }
  }

  /** Without room, the next fork leaves some page with a count below its entries. */
  lemma NextForkWraps(s: Sys, role: seq<Role>, fk: Fork)
    requires Forked(s, role, fk) && Inv(s, role) && !Room(s, role, fk.c, 1)
    ensures exists f :: 0 <= f < |AfterFork(s, fk).mem| && !CountOk(AfterFork(s, fk), f)
  {
    var f :| 0 <= f < |role| && role[f] == Data && s.mem[f].count + 1 * Naming(s, fk.c, f) >= COUNT_LIMIT;
    ForkCountExact(s, role, fk, f);
  }

  /** When no more than `n` children fit, `n` of them and one more fork leave a page with a count
      below its entries. */
  method ForkUntilWrap(m: Memory, c: int, ch: int, n: nat)
    requires m.Valid() && Ready(m.Snap(), c, ch) && Room(m.Snap(), m.role, c, n) && !Room(m.Snap(), m.role, c, n + 1)
    modifies m, m.memMap, m.phys, m.procs
    ensures Shape(m.Snap(), m.role)
    ensures exists f :: 0 <= f < m.memMap.Length && !CountOk(m.Snap(), f)
  {
    ghost var s, role := m.Snap(), m.role;
    ForkThenExitTimes(m, c, ch, n);
    ghost var s1, role1 := m.Snap(), m.role;
    RoomLeft(s, role, c, n, s1, role1);
    ghost var fk := m.ShareFrames(c, m.procs[c].dir.value, ch, m.procs[ch].dir.value);
    ForkShape(s1, role1, fk);
    NextForkWraps(s1, role1, fk);
  }
}
