/** The paging code itself (mm/page.c, and the parts of kernel/process.c that drive it):
    it works in place on the frame table and on physical memory. */
module CopyOnWrite {
  import opened Words
  import opened Frames
  import opened AddressSpaces
  import opened AddressSteps
  import opened ForkSteps
  import opened UncountedPages

  lemma OneTable(phys: seq<Contents>, d: int, i: int)
    requires 0 <= i < USER_DIRS && At(phys, d, i) != ZERO
    requires forall k :: 0 <= k < USER_DIRS && k != i ==> At(phys, d, k) == ZERO
    ensures TableSlots(phys, d, USER_DIRS) == {i}
  {
  }

  class Memory {
    const memMap: array<Page>
    const phys: array<Contents>
    const procs: array<Proc>
    ghost var role: seq<Role>

    ghost function Snap(): Sys
      reads this, memMap, phys, procs
    {
      Sys(memMap[..], phys[..], procs[..])
    }

    ghost predicate Distinct() {
      memMap as object != phys && memMap as object != procs && phys as object != procs
    }

    ghost predicate Valid()
      reads this, memMap, phys, procs
    {
      Distinct() && Inv(Snap(), role)
    }

    /** The reference count of the frame an entry names. */
    ghost function CountAt(e: Word): int
      reads memMap
    {
      if e.frame < memMap.Length then memMap[e.frame].count else 0
    }

    /** Memory as `init_paging` leaves it: the first `kernel` frames are in use, the kernel's
        directory is filled in, nothing is mapped for users, and the other frames are blank. */
    constructor (frames: nat, kernel: nat, slots: nat, swapper: Contents)
      requires SWAPPER < kernel <= frames <= MAX_FRAMES
      ensures Valid() && Abs(Snap()) == map[] && fresh(memMap) && fresh(phys) && fresh(procs)
      ensures memMap.Length == frames && procs.Length == slots
      ensures forall f :: 0 <= f < frames ==> memMap[f] == Page(Word(f, if f < kernel then MP_USE else 0), 1)
      ensures forall f :: 0 <= f < frames ==> phys[f] == if f == SWAPPER then swapper else seq(1024, _ => ZERO)
      ensures forall p :: 0 <= p < slots ==> procs[p] == Proc(false, None, 0)
    {
      memMap := new Page[frames](f requires 0 <= f < frames => Page(Word(f, if f < kernel then MP_USE else 0), 1));
      phys := new Contents[frames](f => if f == SWAPPER then swapper else seq(1024, _ => ZERO));
      procs := new Proc[slots](_ => Proc(false, None, 0));
      role := seq(frames, f => if f < kernel then Kernel else Free);
      new;
      assert Shape(Snap(), role);
    }

    // ----- copying a directory

    /** The inner loop of `copy_page`: table `u` becomes a copy of table `t`, both read-only. */
    method CopyTable(t: nat, u: nat)
      requires Distinct()
      requires t < phys.Length && u < phys.Length && t != u && memMap.Length == phys.Length
      requires forall j :: 0 <= j < ENTRIES && phys[t][j] != ZERO ==>
                 phys[t][j].frame < memMap.Length && Has(phys[t][j], PG_P)
      modifies memMap, phys
      ensures phys[..] == old(phys[..])[t := Cleared(old(phys[t]))][u := Cleared(old(phys[t]))]
      ensures forall f :: 0 <= f < memMap.Length ==>
                memMap[f] == Shared(old(memMap[f]), |NamedIn(old(phys[t]), ENTRIES, f)|)
    {
      ghost var t0 := phys[t];
      var j := 0;
      forall f ensures NamedIn(t0, 0, f) == {} {}
      while j < ENTRIES
        invariant 0 <= j <= ENTRIES
        invariant forall f :: 0 <= f < phys.Length && f != t && f != u ==> phys[f] == old(phys[f])
        invariant forall k :: 0 <= k < j ==> phys[t][k] == Clear(t0[k], PG_RWW)
        invariant forall k :: j <= k < ENTRIES ==> phys[t][k] == t0[k]
        invariant forall k :: 0 <= k < j ==> phys[u][k] == Clear(t0[k], PG_RWW)
        invariant forall f :: 0 <= f < memMap.Length ==> memMap[f] == Shared(old(memMap[f]), |NamedIn(t0, j, f)|)
      {
        ghost var before := memMap[..];
        if phys[t][j] != ZERO {
          phys[t] := phys[t][j := Clear(phys[t][j], PG_RWW)];
          phys[u] := phys[u][j := phys[t][j]];
          var f := phys[t][j].frame;
          memMap[f] := memMap[f].(count := Increment(memMap[f].count));
          memMap[f] := memMap[f].(addr := Or(memMap[f].addr, MP_COW));
        } else {
          phys[u] := phys[u][j := ZERO];
          assert Clear(ZERO, PG_RWW) == ZERO;
        }
        forall f | 0 <= f < memMap.Length ensures memMap[f] == Shared(old(memMap[f]), |NamedIn(t0, j + 1, f)|) {
          NamedInStep(t0, j, f);
          SharedStep(old(memMap[f]), |NamedIn(t0, j, f)|);
        }
        j := j + 1;
      }
      assert phys[t] == Cleared(t0) && phys[u] == Cleared(t0);
      assert phys[..] == old(phys[..])[t := Cleared(t0)][u := Cleared(t0)];
    }

    /** `copy_page`, one non-empty directory entry: a fresh table, filled by the inner loop. */
    method CopyEntry(d: nat, r: nat, i: nat, ghost c: int, ghost ch: int, ghost s: Sys, ghost role0: seq<Role>)
      requires Distinct() && CanCopy(s, role0, c, d, ch, r) && i < USER_DIRS && AddressesOk(memMap[..])
      requires CopiedTo(s, role0, d, r, ch, i, phys[..], memMap[..], role)
      requires At(s.phys, d, i) != ZERO && |FreeFrames(memMap[..])| > 0
      modifies this, memMap, phys
      ensures CopiedTo(s, role0, d, r, ch, i + 1, phys[..], memMap[..], role)
      ensures |FreeFrames(memMap[..])| == |FreeFrames(old(memMap[..]))| - 1
      ensures AddressesOk(memMap[..])
    {
      ghost var phys0, mem0 := phys[..], memMap[..];
      NextTable(s, role0, c, d, ch, r, i, phys0, mem0, role);
      FreeExists(mem0);
      assert phys[d] == phys0[d];
      var t := phys[d][i].frame;
      assert phys[t] == phys0[t];
      var a := GetFreePage(memMap);
      NewFrameFresh(s, role0, d, r, ch, i, phys0, mem0, role, a.frame);
      phys[r] := phys[r][i := Or(a, USER_RW)];
      ghost var mem1 := memMap[..];
      CopyTable(t, phys[r][i].frame);
      SharedFree(mem1, memMap[..], phys0[t]);
      TakenFree(mem0, a.frame);
      assert TableWritten(s, phys0, mem0, t, a.frame, r, i, phys[..], memMap[..]);
      CopyTableStep(s, role0, c, d, ch, r, i, phys0, mem0, role, a.frame, phys[..], memMap[..]);
      role := role[a.frame := Table(ch, i)];
    }

    /** `copy_page`, one empty directory entry. */
    method ClearEntry(d: nat, r: nat, i: nat, ghost c: int, ghost ch: int, ghost s: Sys, ghost role0: seq<Role>)
      requires Distinct() && CanCopy(s, role0, c, d, ch, r) && i < USER_DIRS
      requires CopiedTo(s, role0, d, r, ch, i, phys[..], memMap[..], role)
      requires At(s.phys, d, i) == ZERO
      modifies phys
      ensures CopiedTo(s, role0, d, r, ch, i + 1, phys[..], memMap[..], role)
    {
      ghost var phys0 := phys[..];
      phys[r] := phys[r][i := ZERO];
      CopyEmpty(s, role0, c, d, ch, r, i, phys0, memMap[..], role, phys[..]);
    }

    /** `copy_page`, the body of its outer loop. */
    method CopyDirEntry(d: nat, r: nat, i: nat, ghost c: int, ghost ch: int, ghost s: Sys, ghost role0: seq<Role>)
      requires Distinct() && CanCopy(s, role0, c, d, ch, r) && i < USER_DIRS
      requires CopyInv(s, role0, d, r, ch, i, phys[..], memMap[..], role)
      requires |FreeFrames(s.mem)| >= |TableSlots(s.phys, d, USER_DIRS)|
      modifies this, memMap, phys
      ensures CopyInv(s, role0, d, r, ch, i + 1, phys[..], memMap[..], role)
    {
      NextTable(s, role0, c, d, ch, r, i, phys[..], memMap[..], role);
      CopyBudget(s, role0, d, r, ch, i, phys[..], memMap[..], role);
      assert phys[d] == phys[..][d];
      if phys[d][i] != ZERO {
        CopyEntry(d, r, i, c, ch, s, role0);
      } else {
        ClearEntry(d, r, i, c, ch, s, role0);
      }
    }

    /** The last loop of `copy_page`: the kernel's directory entries are shared by everyone. */
    method KernelHalf(d: nat, r: nat, ghost c: int, ghost ch: int, ghost s: Sys, ghost role0: seq<Role>)
      requires Distinct() && CanCopy(s, role0, c, d, ch, r)
      requires CopiedTo(s, role0, d, r, ch, USER_DIRS, phys[..], memMap[..], role)
      modifies phys
      ensures CopiedTo(s, role0, d, r, ch, USER_DIRS, phys[..], memMap[..], role)
      ensures forall k :: USER_DIRS <= k < ENTRIES ==> At(phys[..], r, k) == At(s.phys, SWAPPER, k)
    {
      assert SlotOk(s, role0, ch);
      var i := USER_DIRS;
      while i < ENTRIES
        invariant USER_DIRS <= i <= ENTRIES
        invariant CopiedTo(s, role0, d, r, ch, USER_DIRS, phys[..], memMap[..], role)
        invariant forall k :: USER_DIRS <= k < i ==> At(phys[..], r, k) == At(s.phys, SWAPPER, k)
      {
        ghost var phys0 := phys[..];
        SwapperKept(s, role0, c, d, ch, r, phys0, memMap[..], role);
        assert phys[SWAPPER] == phys0[SWAPPER];
        phys[r] := phys[r][i := phys[SWAPPER][i]];
        KernelEntry(s, role0, c, d, ch, r, phys0, memMap[..], role, i, phys0[SWAPPER][i], phys[..]);
        i := i + 1;
      }
    }

    /** `copy_page`: directory `r` of slot `ch` becomes a read-only shared copy of directory `d` of `c`. */
    method CopyPage(d: nat, r: nat, ghost c: int, ghost ch: int)
      requires Distinct() && CanCopy(Snap(), role, c, d, ch, r)
      requires |FreeFrames(memMap[..])| >= |TableSlots(phys[..], d, USER_DIRS)|
      modifies this, memMap, phys
      ensures CopyInv(old(Snap()), old(role), d, r, ch, USER_DIRS, phys[..], memMap[..], role)
      ensures forall k :: USER_DIRS <= k < ENTRIES ==> At(phys[..], r, k) == At(old(phys[..]), SWAPPER, k)
    {
      ghost var s, role0 := Snap(), role;
      CopyInvStart(s, role0, d, r, ch);
      var i := 0;
      while i < USER_DIRS
        invariant 0 <= i <= USER_DIRS
        invariant CopyInv(s, role0, d, r, ch, i, phys[..], memMap[..], role)
      {
        CopyDirEntry(d, r, i, c, ch, s, role0);
        i := i + 1;
      }
      KernelHalf(d, r, c, ch, s, role0);
    }

    // ----- fork

    /** `create_dir`, for a slot that never had a directory. */
    method CreateDir(ch: int) returns (f: FrameNo)
      requires Valid() && 0 <= ch < procs.Length && !procs[ch].live && procs[ch].dir == None
      requires HasFree(memMap[..])
      modifies this, memMap, procs
      ensures Valid() && f < memMap.Length && IsFirstFree(old(memMap[..]), f)
      ensures Snap() == AfterDir(old(Snap()), ch, f) && role == old(role)[f := Directory(ch)]
    {
      ghost var s, role0 := Snap(), role;
      var a := GetFreePage(memMap);
      f := a.frame;
      procs[ch] := procs[ch].(dir := Some(f));
      role := role[f := Directory(ch)];
      assert Snap() == AfterDir(s, ch, f);
      DirKeeps(s, role0, ch, f);
    }

    /** The rest of `sys_fork`, once the child has a directory, whether or not the counts are true. */
    method ShareFrames(c: int, d: FrameNo, ch: int, r: FrameNo) returns (ghost fk: ForkSteps.Fork)
      requires Distinct() && Shape(Snap(), role) && 0 <= c < procs.Length && procs[c].live && procs[c].dir == Some(d)
      requires 0 <= ch < procs.Length && !procs[ch].live && procs[ch].dir == Some(r)
      requires |FreeFrames(memMap[..])| > |TableSlots(phys[..], d, USER_DIRS)|
      modifies this, memMap, phys, procs
      ensures fk.c == c && fk.ch == ch && Forked(old(Snap()), old(role), fk) && Snap() == AfterFork(old(Snap()), fk)
      ensures |FreeFrames(memMap[..])| == |FreeFrames(old(memMap[..]))| - |TableSlots(old(phys[..]), d, USER_DIRS)| - 1
      ensures role == fk.role[fk.ks := Stack(ch)]
    {
      ghost var s, role0 := Snap(), role;
      assert SlotOk(s, role0, c) && SlotOk(s, role0, ch);
      CopyPage(d, r, c, ch);
      FreeExists(memMap[..]);
      ghost var mem1, role1 := memMap[..], role;
      var a := GetFreePage(memMap);
      TakenFree(mem1, a.frame);
      procs[ch] := Proc(true, Some(r), a.frame);
      role := role[a.frame := Stack(ch)];
      fk := ForkSteps.Fork(c, d, ch, r, phys[..], mem1, role1, a.frame);
      assert Forked(s, role0, fk);
      assert Snap() == AfterFork(s, fk);
    }

    /** With true counts that do not wrap, it is a fork of the eager machine. */
    method ShareWith(c: int, d: FrameNo, ch: int, r: FrameNo) returns (ghost fk: ForkSteps.Fork)
      requires Valid() && 0 <= c < procs.Length && procs[c].live && procs[c].dir == Some(d)
      requires 0 <= ch < procs.Length && !procs[ch].live && procs[ch].dir == Some(r)
      requires |FreeFrames(memMap[..])| > |TableSlots(phys[..], d, USER_DIRS)|
      requires CountsFit(Snap(), d)
      modifies this, memMap, phys, procs
      ensures Valid()
      ensures fk.c == c && fk.ch == ch && Forked(old(Snap()), old(role), fk) && Snap() == AfterFork(old(Snap()), fk)
      ensures Abs(Snap()) == EagerFork(old(Abs(Snap())), c, ch)
      ensures |FreeFrames(memMap[..])| == |FreeFrames(old(memMap[..]))| - |TableSlots(old(phys[..]), d, USER_DIRS)| - 1
      ensures role == fk.role[fk.ks := Stack(ch)]
    {
      ghost var s, role0 := Snap(), role;
      fk := ShareFrames(c, d, ch, r);
      ForkKeeps(s, role0, fk);
    }

    /** The memory part of `sys_fork`: slot `ch` becomes a child of the live process `c`.
        On the eager machine the child would get its own copy of every page. */
    method Fork(c: int, ch: int)
      requires Valid() && 0 <= c < procs.Length && procs[c].live && procs[c].dir.Some?
      requires 0 <= ch < procs.Length && !procs[ch].live
      requires |FreeFrames(memMap[..])| >
                 |TableSlots(phys[..], procs[c].dir.value, USER_DIRS)| + if procs[ch].dir == None then 1 else 0
      requires CountsFit(Snap(), procs[c].dir.value)
      modifies this, memMap, phys, procs
      ensures Valid()
      ensures Abs(Snap()) == EagerFork(old(Abs(Snap())), c, ch)
    {
      var d := procs[c].dir.value;
      if procs[ch].dir == None {
        ghost var s, role0 := Snap(), role;
        FreeExists(memMap[..]);
        var f := CreateDir(ch);
        DirKeeps(s, role0, ch, f);
        DirCountsFit(s, role0, ch, f, c, d);
      }
      ghost var fk := ShareWith(c, d, ch, procs[ch].dir.value);
    }

    // ----- write-protection fault

    /** The two branches of `do_wp_page`, for entry `j` of table `t`, which names frame `o`. */
    method Unshare(t: nat, j: nat, o: FrameNo) returns (ghost n: int)
      requires Distinct() && AddressesOk(memMap[..]) && phys.Length == memMap.Length
      requires t < phys.Length && j < ENTRIES && o < memMap.Length && o != t && Used(memMap[o]) && Used(memMap[t])
      requires memMap[o].count == 1 || HasFree(memMap[..])
      modifies memMap, phys
      ensures old(memMap[o].count) == 1 ==>
                && phys[..] == old(phys[..])[t := old(phys[t])[j := Word(o, USER_RW)]]
                && memMap[..] == old(memMap[..])[o := old(memMap[o]).(addr := Or(PageBase(old(memMap[o].addr)), MP_USE))]
      ensures old(memMap[o].count) != 1 ==>
                && 0 <= n < memMap.Length && !Used(old(memMap[..])[n])
                && phys[..] == old(phys[..])[t := old(phys[t])[j := Word(n, USER_RW)]][n := old(phys[o])]
                && memMap[..] == old(memMap[..])[n := Page(Word(n, MP_USE), 1)]
                                                [o := old(memMap[o]).(count := Decrement(old(memMap[o].count)))]
    {
      n := 0;
      assert memMap[o] == memMap[..][o] && memMap[t] == memMap[..][t];
      if memMap[o].count == 1 {
        phys[t] := phys[t][j := Or(Word(o, 0), USER_RW)];
        memMap[o] := memMap[o].(addr := PageBase(memMap[o].addr));
        memMap[o] := memMap[o].(addr := Or(memMap[o].addr, MP_USE));
      } else {
        var a := GetFreePage(memMap);
        n := a.frame;
        assert memMap[o] == memMap[..][o] && memMap[n] == memMap[..][n];
        phys[t] := phys[t][j := Or(a, USER_RW)];
        phys[a.frame] := phys[o];
        memMap[a.frame] := memMap[a.frame].(count := Increment(memMap[a.frame].count));
        memMap[o] := memMap[o].(count := Decrement(memMap[o].count));
      }
    }

    /** `do_wp_page` on the page (i, j) of process `p`: whatever it does to frames, nobody sees it. */
    method DoWpPage(p: int, i: int, j: int) returns (ghost n: int)
      requires Valid() && 0 <= p < procs.Length && procs[p].live && Mapped(Snap(), p, i, j)
      requires CountAt(Entry(Snap(), p, i, j)) == 1 || HasFree(memMap[..])
      modifies this, memMap, phys
      ensures Valid() && procs[..] == old(procs[..])
      ensures Abs(Snap()) == old(Abs(Snap()))
      ensures Mapped(Snap(), p, i, j) && Has(Entry(Snap(), p, i, j), PG_RWW)
      ensures CanFault(old(Snap()), old(role), p, i, j, n) && Snap() == AfterFault(old(Snap()), old(role), p, i, j, n)
    {
      ghost var s, role0 := Snap(), role;
      MappedFrame(s, role0, p, i, j);
      var d := procs[p].dir.value;
      var t := phys[d][i].frame;
      assert s.phys[d] == phys[d] && s.phys[t] == phys[t];
      n := Unshare(t, j, phys[t][j].frame);
      assert CanFault(s, role0, p, i, j, n);
      assert Snap() == AfterFault(s, role0, p, i, j, n);
      role := FaultRole(s, role0, p, i, j, n);
      FaultKeeps(s, role0, p, i, j, n);
    }

    /** A user store: the paging unit faults on a read-only page, the handler runs, the store is retried. */
    method UserWrite(p: int, i: int, j: int, o: int, w: Word)
      requires Valid() && 0 <= p < procs.Length && procs[p].live && Mapped(Snap(), p, i, j)
      requires 0 <= o < ENTRIES
      requires Has(Entry(Snap(), p, i, j), PG_RWW) || CountAt(Entry(Snap(), p, i, j)) == 1 || HasFree(memMap[..])
      modifies this, memMap, phys
      ensures Valid() && procs[..] == old(procs[..])
      ensures Abs(Snap()) == EagerWrite(old(Abs(Snap())), p, (i, j), o, w)
    {
      MappedFrame(Snap(), role, p, i, j);
      var d := procs[p].dir.value;
      var t := phys[d][i].frame;
      if !Has(phys[t][j], PG_RWW) {
        ghost var n := DoWpPage(p, i, j);
      }
      ghost var s := Snap();
      MappedFrame(s, role, p, i, j);
      var f := phys[phys[d][i].frame][j].frame;
      phys[f] := phys[f][o := w];
      assert Snap() == AfterStore(s, p, i, j, o, w);
      StoreKeeps(s, role, p, i, j, o, w);
    }

    // ----- new pages

    /** A new page in an existing table, counted the way the stack page is, over whatever the
        entry held. */
    method MapPage(p: int, i: int, j: int) returns (n: FrameNo)
      requires Valid() && 0 <= p < procs.Length && procs[p].live && procs[p].dir.Some?
      requires 0 <= i < USER_DIRS && 0 <= j < ENTRIES
      requires At(phys[..], procs[p].dir.value, i) != ZERO && HasFree(memMap[..])
      modifies this, memMap, phys
      ensures Valid() && procs[..] == old(procs[..])
      ensures n < phys.Length && IsFirstFree(old(memMap[..]), n)
      ensures CanMap(old(Snap()), old(role), p, i, j, n) && Snap() == AfterMap(old(Snap()), old(role), p, i, j, n)
      ensures Abs(Snap()) == EagerMap(old(Abs(Snap())), p, (i, j), old(phys[..])[n])
    {
      ghost var s, role0 := Snap(), role;
      assert SlotOk(s, role0, p) && TableOk(s.phys, role0, s.procs[p].dir.value, p, i);
      var t := phys[procs[p].dir.value][i].frame;
      var a := GetFreePage(memMap);
      n := a.frame;
      phys[t] := phys[t][j := Or(a, USER_RW)];
      memMap[n] := memMap[n].(count := Increment(memMap[n].count));
      assert Or(a, USER_RW) == Word(n, USER_RW);
      assert CanMap(s, role0, p, i, j, n);
      assert Snap() == AfterMap(s, role0, p, i, j, n);
      role := role[n := Data];
      MapKeeps(s, role0, p, i, j, n);
    }

    /** A program page of `sys_execve`: mapped like the others, but never counted, so its count
        is below its entries. */
    method MapProgramPage(p: int, i: int, j: int) returns (n: FrameNo)
      requires Distinct() && Shape(Snap(), role) && 0 <= p < procs.Length && procs[p].live && procs[p].dir.Some?
      requires 0 <= i < USER_DIRS && 0 <= j < ENTRIES
      requires At(phys[..], procs[p].dir.value, i) != ZERO && HasFree(memMap[..])
      modifies this, memMap, phys
      ensures CanMap(old(Snap()), old(role), p, i, j, n) && |old(memMap[..])| <= MAX_FRAMES
      ensures Snap() == AfterBareMap(old(Snap()), old(role), p, i, j, n) && role == old(role)[n := Data]
      ensures n < memMap.Length && Shape(Snap(), role) && !CountOk(Snap(), n)
      ensures Abs(Snap()) == EagerMap(old(Abs(Snap())), p, (i, j), old(phys[..])[n])
      ensures |FreeFrames(memMap[..])| == |FreeFrames(old(memMap[..]))| - 1
    {
      ghost var s, role0 := Snap(), role;
      assert SlotOk(s, role0, p) && TableOk(s.phys, role0, s.procs[p].dir.value, p, i);
      var t := phys[procs[p].dir.value][i].frame;
      var a := GetFreePage(memMap);
      n := a.frame;
      TakenFree(s.mem, n);
      phys[t] := phys[t][j := Or(a, USER_RW)];
      assert Or(a, USER_RW) == Word(n, USER_RW);
      assert CanMap(s, role0, p, i, j, n);
      role := role[n := Data];
      BareMapViews(s, role0, p, i, j, n);
      assert Snap() == AfterBareMap(s, role0, p, i, j, n);
    }

    /** A program page, and then a fork: each of the two processes reads what the other stores. */
    method ProgramThenFork(c: int, i: int, j: int, ch: int) returns (ghost fk: ForkSteps.Fork)
      requires Distinct() && Shape(Snap(), role) && 0 <= c < procs.Length && procs[c].live && procs[c].dir.Some?
      requires 0 <= i < USER_DIRS && 0 <= j < ENTRIES && At(phys[..], procs[c].dir.value, i) != ZERO
      requires 0 <= ch < procs.Length && !procs[ch].live && procs[ch].dir.Some?
      requires |FreeFrames(memMap[..])| > |TableSlots(phys[..], procs[c].dir.value, USER_DIRS)| + 1
      modifies this, memMap, phys, procs
      ensures Shape(Snap(), role)
      ensures forall o, w :: 0 <= o < ENTRIES ==>
                StoreLeaks(Snap(), role, c, ch, i, j, o, w) && StoreLeaks(Snap(), role, ch, c, i, j, o, w)
    {
      ghost var s, role0 := Snap(), role;
      var d := procs[c].dir.value;
      FreeExists(memMap[..]);
      var n := MapProgramPage(c, i, j);
      BareMapSlots(s, role0, c, i, j, n);
      fk := ShareFrames(c, d, ch, procs[ch].dir.value);
      ForkShape(AfterBareMap(s, role0, c, i, j, n), role0[n := Data], fk);
      forall o, w | 0 <= o < ENTRIES
        ensures StoreLeaks(Snap(), role, c, ch, i, j, o, w) && StoreLeaks(Snap(), role, ch, c, i, j, o, w)
      {
        ProgramPageShared(s, role0, c, i, j, n, fk, o, w);
      }
    }

    /** The stack page of `sys_execve` and `init_fork`: a new table, which is not cleared, in place of the
        row's old one if it had one, and a page in it. */
    method MapStackPage(p: int, i: int, j: int) returns (t: FrameNo, n: FrameNo)
      requires Valid() && 0 <= p < procs.Length && procs[p].live && procs[p].dir.Some?
      requires 0 <= i < USER_DIRS && 0 <= j < ENTRIES
      requires |FreeFrames(memMap[..])| >= 2
      modifies this, memMap, phys
      ensures procs[..] == old(procs[..])
      ensures IsFirstFree(old(memMap[..]), t) && n < phys.Length
      ensures |FreeFrames(memMap[..])| == |FreeFrames(old(memMap[..]))| - 2
      ensures CanMapTable(old(Snap()), old(role), p, i, j, t, n)
      ensures Snap() == AfterMapTable(old(Snap()), old(role), p, i, j, t, n)
      ensures View(Snap(), p) == WithoutRow(View(old(Snap()), p), i)[(i, j) := old(phys[..])[n]] <==>
                BlankBut(old(phys[..]), t, j)
      ensures BlankBut(old(phys[..]), t, j) ==>
                Valid() && Abs(Snap()) == EagerMapTable(old(Abs(Snap())), p, (i, j), old(phys[..])[n])
    {
      ghost var s, role0 := Snap(), role;
      assert SlotOk(s, role0, p);
      var d := procs[p].dir.value;
      FreeExists(memMap[..]);
      var a := GetFreePage(memMap);
      t := a.frame;
      TakenFree(s.mem, t);
      FreeExists(memMap[..]);
      ghost var mem1 := memMap[..];
      phys[d] := phys[d][i := Or(a, USER_RW)];
      var b := GetFreePage(memMap);
      n := b.frame;
      TakenTwice(s.mem, t, n);
      var u := phys[d][i].frame;
      phys[u] := phys[u][j := Or(b, USER_RW)];
      memMap[n] := memMap[n].(count := Increment(memMap[n].count));
      assert Or(a, USER_RW) == Word(t, USER_RW) && Or(b, USER_RW) == Word(n, USER_RW);
      assert CanMapTable(s, role0, p, i, j, t, n);
      assert Snap() == AfterMapTable(s, role0, p, i, j, t, n);
      role := MapTableRole(role, p, i, t, n);
      MapTableExact(s, role0, p, i, j, t, n);
      if BlankBut(s.phys, t, j) {
        MapTableKeeps(s, role0, p, i, j, t, n);
      }
    }

    // ----- process 0

    /** The loop of `init_fork`: the kernel half of process 0's directory. */
    method KernelEntries(d: FrameNo)
      requires Distinct() && d < phys.Length && SWAPPER < phys.Length
      modifies phys
      ensures forall f :: 0 <= f < phys.Length && f != d ==> phys[f] == old(phys[f])
      ensures forall k :: 0 <= k < USER_DIRS ==> phys[d][k] == old(phys[d])[k]
      ensures forall k :: USER_DIRS <= k < ENTRIES ==> phys[d][k] == old(phys[SWAPPER])[k]
    {
      var i := USER_DIRS;
      while i < ENTRIES
        invariant USER_DIRS <= i <= ENTRIES
        invariant forall f :: 0 <= f < phys.Length && f != d ==> phys[f] == old(phys[f])
        invariant forall k :: 0 <= k < USER_DIRS ==> phys[d][k] == old(phys[d])[k]
        invariant forall k :: USER_DIRS <= k < i ==> phys[d][k] == old(phys[SWAPPER])[k]
        invariant forall k :: i <= k < ENTRIES ==> phys[d][k] == old(phys[d])[k]
      {
        phys[d] := phys[d][i := phys[SWAPPER][i]];
        i := i + 1;
      }
    }

    /** Process 0 with its directory and a kernel stack, and no pages yet. */
    method StartFirst(d: FrameNo)
      requires Valid() && procs.Length > 0 && procs[0] == Proc(false, Some(d), 0) && d < phys.Length && HasFree(memMap[..])
      requires forall k :: 0 <= k < USER_DIRS ==> phys[d][k] == ZERO
      modifies this, memMap, phys, procs
      ensures Valid() && Abs(Snap()) == old(Abs(Snap()))[0 := map[]]
      ensures procs[0].live && procs[0].dir == Some(d) && procs[1..] == old(procs[1..])
      ensures phys[..] == old(phys[..])[d := phys[d]] && forall k :: 0 <= k < USER_DIRS ==> phys[d][k] == ZERO
      ensures |FreeFrames(memMap[..])| == |FreeFrames(old(memMap[..]))| - 1
      ensures forall f :: 0 <= f < memMap.Length && !Used(memMap[f]) ==> !Used(old(memMap[f]))
    {
      ghost var s, role0 := Snap(), role;
      KernelEntries(d);
      var a := GetFreePage(memMap);
      TakenFree(s.mem, a.frame);
      procs[0] := Proc(true, Some(d), a.frame);
      role := role[a.frame := Stack(0)];
      StartKeeps(s, role0, 0, d, phys[d], a.frame);
      assert Snap() == AfterStart(s, 0, d, phys[d], a.frame);
    }

    /** `init_fork`: process 0 gets a directory, a kernel stack and one stack page. */
    method InitFork()
      requires Valid() && procs.Length > 0 && procs[0] == Proc(false, None, 0)
      requires |FreeFrames(memMap[..])| >= 4
      requires forall f :: 0 <= f < memMap.Length && !Used(memMap[f]) ==> phys[f] == seq(1024, _ => ZERO)
      modifies this, memMap, phys, procs
      ensures Valid()
      ensures Abs(Snap()) == EagerMap(old(Abs(Snap()))[0 := map[]], 0, (511, 1023), seq(1024, _ => ZERO))
      ensures procs[0].live && procs[0].dir.Some? && procs[1..] == old(procs[1..])
      ensures TableSlots(phys[..], procs[0].dir.value, USER_DIRS) == {511}
      ensures |FreeFrames(memMap[..])| == |FreeFrames(old(memMap[..]))| - 4
    {
      ghost var s0 := Snap();
      FreeExists(memMap[..]);
      var d := CreateDir(0);
      DirKeeps(s0, old(role), 0, d);
      StartFirst(d);
      var t, n := MapStackPage(0, 511, 1023);
      assert WithoutRow(map[], 511) == map[];
      OneTable(phys[..], d, 511);
    }

    // ----- exit

    /** `clear_page_tables`: gives back the tables of directory `d`, but not the pages they map. */
    method ClearPageTables(d: FrameNo)
      requires Distinct() && AddressesOk(memMap[..]) && d < phys.Length
      requires forall i :: 0 <= i < USER_DIRS && phys[d][i] != ZERO ==> phys[d][i].frame < memMap.Length
      modifies memMap
      ensures memMap[..] == ReleasedAll(old(memMap[..]), TableFrames(phys[..], d, USER_DIRS))
      ensures AddressesOk(memMap[..])
    {
      var i := 0;
      assert TableFrames(phys[..], d, 0) == {};
      assert memMap[..] == ReleasedAll(old(memMap[..]), TableFrames(phys[..], d, 0));
      while i < USER_DIRS
        invariant 0 <= i <= USER_DIRS && AddressesOk(memMap[..])
        invariant memMap[..] == ReleasedAll(old(memMap[..]), TableFrames(phys[..], d, i))
      {
        if phys[d][i] != ZERO {
          FreePage(memMap, PageBase(phys[d][i]));
        }
        TableFramesStep(phys[..], d, i);
        i := i + 1;
        assert memMap[..] == ReleasedAll(old(memMap[..]), TableFrames(phys[..], d, i));
      }
    }

    /** The memory part of `sys_exit`. The slot keeps its directory frame. */
    method Exit(p: int)
      requires Valid() && 0 <= p < procs.Length && procs[p].live && procs[p].dir.Some?
      modifies this, memMap, procs
      ensures Valid()
      ensures Snap() == AfterExit(old(Snap()), p) && role == ExitRole(old(Snap()), old(role), p)
      ensures Abs(Snap()) == EagerExit(old(Abs(Snap())), p)
      ensures FreeFrames(memMap[..]) == FreeFrames(old(memMap[..])) + ExitFrames(old(Snap()), p)
    {
      ghost var s, role0 := Snap(), role;
      var d := procs[p].dir.value;
      assert SlotOk(s, role0, p);
      forall i | 0 <= i < USER_DIRS ensures phys[d][i] != ZERO ==> phys[d][i].frame < memMap.Length {
        assert TableOk(s.phys, role0, d, p, i);
      }
      ClearPageTables(d);
      FreePage(memMap, Word(procs[p].kstack, 0));
      procs[p] := procs[p].(live := false);
      role := ExitRole(s, role0, p);
      assert memMap[..] == AfterExit(s, p).mem;
      assert Snap() == AfterExit(s, p);
      ExitKeeps(s, role0, p);
      forall f | f in ExitFrames(s, p) ensures 0 <= f < memMap.Length {
        ExitFramesRole(s, role0, p, f);
      }
    }
  }

  lemma BootFrames(m: seq<Page>, kernel: nat)
    requires kernel <= |m| && forall f :: 0 <= f < |m| ==> (Used(m[f]) <==> f < kernel)
    ensures |FreeFrames(m)| == |m| - kernel
    decreases |m| - kernel
  {
    if kernel < |m| {
      var m' := m[kernel := Page(Word(0, MP_USE), 0)];
      BootFrames(m', kernel + 1);
      assert FreeFrames(m) == FreeFrames(m') + {kernel};
    } else {
      assert FreeFrames(m) == {};
    }
  }

  /** From boot: process 0 is started, maps one program page and forks, and the page is shared. */
  method ProgramLeaksFromBoot(frames: nat, kernel: nat, swapper: Contents) returns (m: Memory)
    requires SWAPPER < kernel && kernel + 8 <= frames <= MAX_FRAMES
    ensures fresh(m) && Shape(m.Snap(), m.role)
    ensures forall o, w :: 0 <= o < ENTRIES ==>
              StoreLeaks(m.Snap(), m.role, 0, 1, 511, 0, o, w) && StoreLeaks(m.Snap(), m.role, 1, 0, 511, 0, o, w)
  {
    m := new Memory(frames, kernel, 2, swapper);
    BootFrames(m.memMap[..], kernel);
    m.InitFork();
    ghost var s, role := m.Snap(), m.role;
    assert m.procs[1..][0] == m.procs[1];
    FreeExists(m.memMap[..]);
    var r := m.CreateDir(1);
    DirKeeps(s, role, 1, r);
    assert 511 in TableSlots(m.phys[..], m.procs[0].dir.value, USER_DIRS);
    ghost var fk := m.ProgramThenFork(0, 511, 0, 1);
  }
}
