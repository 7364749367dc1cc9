/** Reference counts of open files: each descriptor's and each inode's count is the number
    of file slots, over all processes, that lead to it. */
module FileAccounts {
  import opened Counting
  import opened Words
  import opened Processes
  import opened ProcessTree

  /** The (process, fd) pairs naming descriptor `d`. */
  ghost function Slots(procs: seq<Proc>, d: int): set<(int, int)> {
    set p, fd | 0 <= p < |procs| && 0 <= fd < |procs[p].files| && procs[p].files[fd] == d :: (p, fd)
  }

  /** The (process, fd) pairs whose descriptor is open on inode `x`. */
  ghost function InodeSlots(procs: seq<Proc>, descs: seq<FileDesc>, x: int): set<(int, int)> {
    set p, fd | 0 <= p < |procs| && 0 <= fd < |procs[p].files| && procs[p].files[fd] != -1
                && InodeOf(descs, procs[p].files[fd]) == x :: (p, fd)
  }

  /** A slot names nothing, or an opened descriptor on an existing inode. */
  predicate SlotOk(s: Kern, d: int) {
    d != -1 ==> 0 <= d < |s.descs| && 0 <= s.descs[d].inode < |s.inodes|
  }

  /** Conservation: counts equal references, at both levels. */
  ghost predicate FileInv(s: Kern) {
    && (forall p, fd :: 0 <= p < |s.procs| && 0 <= fd < |s.procs[p].files| ==> SlotOk(s, s.procs[p].files[fd]))
    && (forall d :: 0 <= d < |s.descs| ==> s.descs[d].used == |Slots(s.procs, d)|)
    && (forall x :: 0 <= x < |s.inodes| ==> s.inodes[x] == |InodeSlots(s.procs, s.descs, x)|)
  }

  /** Whatever leaves files alone leaves the accounts alone. */
  lemma SameFiles(s: Kern, s': Kern)
    requires FileInv(s) && |s'.procs| == |s.procs| && s'.descs == s.descs && s'.inodes == s.inodes
    requires forall p :: 0 <= p < |s.procs| ==> s'.procs[p].files == s.procs[p].files
    ensures FileInv(s')
  {
    forall d ensures Slots(s'.procs, d) == Slots(s.procs, d) {}
    forall x ensures InodeSlots(s'.procs, s'.descs, x) == InodeSlots(s.procs, s.descs, x) {}
    forall p, fd | 0 <= p < |s'.procs| && 0 <= fd < |s'.procs[p].files| ensures SlotOk(s', s'.procs[p].files[fd]) {
      assert SlotOk(s, s.procs[p].files[fd]);
    }
  }

  // ----- one slot changes: dup, close

  ghost predicate OneSlot(s: Kern, s': Kern, me: int, fd: int, d: int) {
    && |s'.procs| == |s.procs| && 0 <= me < |s.procs| && 0 <= fd < |s.procs[me].files|
    && s'.procs[me].files == s.procs[me].files[fd := d]
    && forall p :: 0 <= p < |s.procs| && p != me ==> s'.procs[p].files == s.procs[p].files
  }

  lemma SlotAdded(s: Kern, s': Kern, me: int, fd: int, d: int, e: int)
    requires OneSlot(s, s', me, fd, d) && s.procs[me].files[fd] == -1 && d != -1 && e != -1
    ensures Slots(s'.procs, e) == Slots(s.procs, e) + if e == d then {(me, fd)} else {}
    ensures (me, fd) !in Slots(s.procs, e)
  {
  }

  lemma SlotGone(s: Kern, s': Kern, me: int, fd: int, e: int)
    requires OneSlot(s, s', me, fd, -1) && e != -1
    ensures Slots(s'.procs, e) == Slots(s.procs, e) - {(me, fd)}
    ensures (me, fd) in Slots(s.procs, e) <==> s.procs[me].files[fd] == e
  {
  }

  /** Descriptors that some slot names keep their inode. */
  ghost predicate SameInodes(s: Kern, s': Kern) {
    forall p, g :: 0 <= p < |s.procs| && 0 <= g < |s.procs[p].files| && s.procs[p].files[g] != -1 ==>
      InodeOf(s'.descs, s.procs[p].files[g]) == InodeOf(s.descs, s.procs[p].files[g])
  }

  lemma InodeSlotAdded(s: Kern, s': Kern, me: int, fd: int, d: int, y: int)
    requires OneSlot(s, s', me, fd, d) && s.procs[me].files[fd] == -1 && d != -1 && SameInodes(s, s')
    ensures InodeSlots(s'.procs, s'.descs, y) ==
            InodeSlots(s.procs, s.descs, y) + if InodeOf(s'.descs, d) == y then {(me, fd)} else {}
    ensures (me, fd) !in InodeSlots(s.procs, s.descs, y)
  {
    var before, after := InodeSlots(s.procs, s.descs, y), InodeSlots(s'.procs, s'.descs, y);
    forall z: (int, int) ensures z in after <==> z in before || (z == (me, fd) && InodeOf(s'.descs, d) == y) {
      if 0 <= z.0 < |s.procs| && 0 <= z.1 < |s.procs[z.0].files| && z != (me, fd) {
        assert s'.procs[z.0].files[z.1] == s.procs[z.0].files[z.1];
      }
    }
  }

  lemma InodeSlotGone(s: Kern, s': Kern, me: int, fd: int, y: int)
    requires OneSlot(s, s', me, fd, -1) && SameInodes(s, s') && s.procs[me].files[fd] != -1
    ensures InodeSlots(s'.procs, s'.descs, y) == InodeSlots(s.procs, s.descs, y) - {(me, fd)}
    ensures (me, fd) in InodeSlots(s.procs, s.descs, y) <==> InodeOf(s.descs, s.procs[me].files[fd]) == y
  {
    var before, after := InodeSlots(s.procs, s.descs, y), InodeSlots(s'.procs, s'.descs, y);
    forall z: (int, int) ensures z in after <==> z in before && z != (me, fd) {
      if 0 <= z.0 < |s.procs| && 0 <= z.1 < |s.procs[z.0].files| && z != (me, fd) {
        assert s'.procs[z.0].files[z.1] == s.procs[z.0].files[z.1];
      }
    }
  }

  lemma SlotsStayOk(s: Kern, s': Kern, me: int, fd: int, d: int)
    requires FileInv(s) && OneSlot(s, s', me, fd, d) && SlotOk(s', d)
    requires |s'.inodes| == |s.inodes| && |s'.descs| == |s.descs| && SameInodes(s, s')
    ensures forall p, g :: 0 <= p < |s'.procs| && 0 <= g < |s'.procs[p].files| ==> SlotOk(s', s'.procs[p].files[g])
  {
    forall p, g | 0 <= p < |s'.procs| && 0 <= g < |s'.procs[p].files| ensures SlotOk(s', s'.procs[p].files[g]) {
      assert SlotOk(s, s.procs[p].files[g]);
    }
  }

  lemma DupUsed(s: Kern, fd: int, oldfd: int, e: int)
    requires FileInv(s) && Slot(s, s.current) && 0 <= fd < |Cur(s).files| && 0 <= oldfd < |Cur(s).files|
    requires Cur(s).files[fd] == -1 && Cur(s).files[oldfd] != -1 && 0 <= e < |s.descs|
    ensures SlotOk(s, Cur(s).files[oldfd]) && Dup(s, fd, oldfd).descs[e].used == |Slots(Dup(s, fd, oldfd).procs, e)|
  {
    assert SlotOk(s, Cur(s).files[oldfd]);
    SlotAdded(s, Dup(s, fd, oldfd), s.current, fd, Cur(s).files[oldfd], e);
  }

  lemma DupKeeps(s: Kern, fd: int, oldfd: int)
    requires FileInv(s) && Slot(s, s.current) && 0 <= fd < |Cur(s).files| && 0 <= oldfd < |Cur(s).files|
    requires Cur(s).files[fd] == -1 && Cur(s).files[oldfd] != -1
    ensures SlotOk(s, Cur(s).files[oldfd]) && FileInv(Dup(s, fd, oldfd))
  {
    var me, d := s.current, Cur(s).files[oldfd];
    assert SlotOk(s, d);
    var s' := Dup(s, fd, oldfd);
    assert SameInodes(s, s');
    SlotsStayOk(s, s', me, fd, d);
    forall e | 0 <= e < |s.descs| ensures s'.descs[e].used == |Slots(s'.procs, e)| {
      DupUsed(s, fd, oldfd, e);
    }
    forall y | 0 <= y < |s.inodes| ensures s'.inodes[y] == |InodeSlots(s'.procs, s'.descs, y)| {
      InodeSlotAdded(s, s', me, fd, d, y);
    }
  }

  lemma CloseKeeps(s: Kern, fd: int)
    requires FileInv(s) && Slot(s, s.current) && 0 <= fd < |Cur(s).files| && Cur(s).files[fd] != -1
    ensures SlotOk(s, Cur(s).files[fd]) && FileInv(Close(s, fd))
  {
    var me, d := s.current, Cur(s).files[fd];
    assert SlotOk(s, d);
    var s' := Close(s, fd);
    assert SameInodes(s, s');
    SlotsStayOk(s, s', me, fd, -1);
    forall e | 0 <= e < |s.descs| ensures s'.descs[e].used == |Slots(s'.procs, e)| {
      SlotGone(s, s', me, fd, e);
    }
    forall y | 0 <= y < |s.inodes| ensures s'.inodes[y] == |InodeSlots(s'.procs, s'.descs, y)| {
      InodeSlotGone(s, s', me, fd, y);
    }
  }

  lemma Unnamed(s: Kern, d: int)
    requires FileInv(s) && 0 <= d < |s.descs| && s.descs[d].inode == -1
    ensures forall p, g :: 0 <= p < |s.procs| && 0 <= g < |s.procs[p].files| ==> s.procs[p].files[g] != d
    ensures Slots(s.procs, d) == {}
  {
    forall p, g | 0 <= p < |s.procs| && 0 <= g < |s.procs[p].files| ensures s.procs[p].files[g] != d {
      assert SlotOk(s, s.procs[p].files[g]);
    }
  }

  predicate CanOpen(s: Kern, fd: int, d: int, inode: int) {
    && Slot(s, s.current) && 0 <= fd < |Cur(s).files| && Cur(s).files[fd] == -1
    && 0 <= d < |s.descs| && s.descs[d].inode == -1 && 0 <= inode < |s.inodes|
  }

  lemma OpenSlots(s: Kern, fd: int, d: int, inode: int)
    requires FileInv(s) && CanOpen(s, fd, d, inode)
    ensures var s' := Open(s, fd, d, inode);
            OneSlot(s, s', s.current, fd, d) && SameInodes(s, s') && SlotOk(s', d) && Slots(s.procs, d) == {}
  {
    Unnamed(s, d);
  }

  /** Opening takes a descriptor no slot names. */
  lemma OpenKeeps(s: Kern, fd: int, d: int, inode: int)
    requires FileInv(s) && CanOpen(s, fd, d, inode)
    ensures FileInv(Open(s, fd, d, inode))
  {
    var me, s' := s.current, Open(s, fd, d, inode);
    OpenSlots(s, fd, d, inode);
    SlotsStayOk(s, s', me, fd, d);
    forall e | 0 <= e < |s.descs| ensures s'.descs[e].used == |Slots(s'.procs, e)| {
      SlotAdded(s, s', me, fd, d, e);
    }
    forall y | 0 <= y < |s.inodes| ensures s'.inodes[y] == |InodeSlots(s'.procs, s'.descs, y)| {
      InodeSlotAdded(s, s', me, fd, d, y);
    }
  }

  // ----- a whole file table changes: fork, exit

  ghost function Pairs(p: int, fds: set<int>): set<(int, int)> { set fd | fd in fds :: (p, fd) }

  lemma PairsCard(p: int, fds: set<int>)
    ensures |Pairs(p, fds)| == |fds|
  {
    var pair := (fd: int) => (p, fd);
    assert forall fd :: fd in fds ==> pair(fd) in Pairs(p, fds);
    forall y ensures y in Pairs(p, fds) <==> exists fd :: fd in fds && pair(fd) == y {
      if y in Pairs(p, fds) { assert y.1 in fds && pair(y.1) == y; }
    }
    ImageCard(fds, pair, Pairs(p, fds));
  }

  /** Slot `p` had no files and now has `files`. */
  ghost predicate TableFilled(s: Kern, s': Kern, p: int, files: seq<int>) {
    && |s'.procs| == |s.procs| && 0 <= p < |s.procs| && Empty(s.procs[p].files)
    && s'.procs[p].files == files
    && forall q :: 0 <= q < |s.procs| && q != p ==> s'.procs[q].files == s.procs[q].files
  }

  lemma FilledSlots(s: Kern, s': Kern, p: int, files: seq<int>, d: int)
    requires TableFilled(s, s', p, files) && d != -1
    ensures |Slots(s'.procs, d)| == |Slots(s.procs, d)| + |Naming(files, |files|, d)|
  {
    var fds := Naming(files, |files|, d);
    PairsCard(p, fds);
    forall z: (int, int) ensures z in Slots(s'.procs, d) <==> z in Slots(s.procs, d) || z in Pairs(p, fds) {
      assert z in Pairs(p, fds) <==> z.0 == p && z.1 in fds;
    }
    assert Slots(s'.procs, d) == Slots(s.procs, d) + Pairs(p, fds);
    assert Slots(s.procs, d) !! Pairs(p, fds);
  }

  lemma FilledInodes(s: Kern, s': Kern, p: int, files: seq<int>, x: int)
    requires TableFilled(s, s', p, files) && forall d :: InodeOf(s'.descs, d) == InodeOf(s.descs, d)
    ensures |InodeSlots(s'.procs, s'.descs, x)| == |InodeSlots(s.procs, s.descs, x)| + |Reaching(s.descs, files, |files|, x)|
  {
    var fds := Reaching(s.descs, files, |files|, x);
    var before, after := InodeSlots(s.procs, s.descs, x), InodeSlots(s'.procs, s'.descs, x);
    PairsCard(p, fds);
    forall z: (int, int) ensures z in after <==> z in before || z in Pairs(p, fds) {
      assert z in Pairs(p, fds) <==> z.0 == p && z.1 in fds;
    }
    assert after == before + Pairs(p, fds);
    assert before !! Pairs(p, fds);
  }

  lemma ForkKeepsFiles(s: Kern, pid: int)
    requires TreeInv(s) && FileInv(s) && IsFirstFree(s.procs, pid)
    ensures FileInv(Fork(s, pid))
  {
    var s', files := Fork(s, pid), Cur(s).files;
    assert RestOk(s.procs, pid);
    assert TableFilled(s, s', pid, files);
    forall d | 0 <= d < |s.descs| ensures s'.descs[d].used == |Slots(s'.procs, d)| {
      FilledSlots(s, s', pid, files, d);
    }
    forall x | 0 <= x < |s.inodes| ensures s'.inodes[x] == |InodeSlots(s'.procs, s'.descs, x)| {
      FilledInodes(s, s', pid, files, x);
    }
    forall p, g | 0 <= p < |s'.procs| && 0 <= g < |s'.procs[p].files| ensures SlotOk(s', s'.procs[p].files[g]) {
      assert SlotOk(s, s.procs[if p == pid then s.current else p].files[g]);
    }
  }

  /** Exit is a fork backwards: the accounts before it are those after it with the table filled. */
  lemma ExitKeepsFiles(s: Kern, status: int)
    requires TreeInv(s) && FileInv(s) && s.current != 0
    ensures 0 <= Cur(s).parent < |s.procs| && FileInv(Exit(s, status))
  {
    ExitSlots(s, status);
    ExitParent(s, status);
    var s', files, me := Exit(s, status), Cur(s).files, s.current;
    assert TableFilled(s', s, me, files);
    forall d ensures InodeOf(s'.descs, d) == InodeOf(s.descs, d) {}
    forall d | 0 <= d < |s.descs| ensures s'.descs[d].used == |Slots(s'.procs, d)| {
      FilledSlots(s', s, me, files, d);
    }
    forall x | 0 <= x < |s.inodes| ensures s'.inodes[x] == |InodeSlots(s'.procs, s'.descs, x)| {
      FilledInodes(s', s, me, files, x);
      assert Reaching(s'.descs, files, |files|, x) == Reaching(s.descs, files, |files|, x);
    }
    forall p, g | 0 <= p < |s'.procs| && 0 <= g < |s'.procs[p].files| ensures SlotOk(s', s'.procs[p].files[g]) {
      assert p != me ==> SlotOk(s, s.procs[p].files[g]);
    }
  }
}
