/** The program pages of `sys_execve` are mapped without being counted (kernel/process.c:320-330).
    What a write fault does to a page whose count is too low, and that a fork after an
    `execve` leads there. */
module UncountedPages {
  import opened Words
  import opened Frames
  import opened AddressSpaces
  import opened AddressSteps
  import opened ForkSteps

  // ----- when a store is private

  /** A store through any entry, writable or not. */
  lemma StoreSeen(s: Sys, role: seq<Role>, p: int, i: int, j: int, o: int, w: Word, q: int, k: int, l: int)
    requires Shape(s, role) && Live(s, p) && Mapped(s, p, i, j) && 0 <= o < ENTRIES
    requires Entry(s, p, i, j).frame < |s.phys|
    requires Live(s, q) && Mapped(s, q, k, l)
    ensures var s', f := AfterStore(s, p, i, j, o, w), Entry(s, p, i, j).frame;
            && Mapped(s', q, k, l)
            && PageOf(s', q, k, l) == if Names(s, q, k, l, f) then s.phys[f][o := w] else PageOf(s, q, k, l)
  {
    StoreEntries(s, role, p, i, j, o, w);
  }

  lemma StorePrivate(s: Sys, role: seq<Role>, p: int, i: int, j: int, o: int, w: Word)
    requires Shape(s, role) && Live(s, p) && Mapped(s, p, i, j) && 0 <= o < ENTRIES
    requires Entry(s, p, i, j).frame < |s.phys|
    requires var f := Entry(s, p, i, j).frame; Refs(s, f) == {(p, i, j)} || s.phys[f][o] == w
    ensures Abs(AfterStore(s, p, i, j, o, w)) == EagerWrite(Abs(s), p, (i, j), o, w)
  {
    var s', f := AfterStore(s, p, i, j, o, w), Entry(s, p, i, j).frame;
    StoreEntries(s, role, p, i, j, o, w);
    var page: Contents := s.phys[f][o := w];
    forall q, k, l | Live(s, q) && 0 <= k < USER_DIRS && 0 <= l < ENTRIES && (q, k, l) != (p, i, j)
      ensures SamePage(s', q, s, q, k, l)
    {
      if Entry(s, q, k, l) != ZERO {
        StoreSeen(s, role, p, i, j, o, w, q, k, l);
        if Names(s, q, k, l, f) {
          assert (q, k, l) in Refs(s, f);
          assert page == s.phys[f];
        }
      }
    }
    AbsUpdated(s, s', p, i, j, page);
  }

  lemma PageSeen(s: Sys, q: int, pg: Page2)
    requires Live(s, q) && Mapped(s, q, pg.0, pg.1)
    ensures q in Abs(s) && pg in Abs(s)[q] && Abs(s)[q][pg] == PageOf(s, q, pg.0, pg.1)
  {
    assert pg in View(s, q);
  }

  lemma OtherUntouched(a: map<int, Space>, p: int, pg: Page2, o: int, w: Word, q: int, pg': Page2)
    requires p in a && pg in a[p] && 0 <= o < ENTRIES
    requires q in a && pg' in a[q] && (q, pg') != (p, pg)
    ensures var b := EagerWrite(a, p, pg, o, w); q in b && pg' in b[q] && b[q][pg'] == a[q][pg']
  {
  }

  /** A store through a frame that another entry names as well is seen there. */
  lemma StoreShared(s: Sys, role: seq<Role>, p: int, i: int, j: int, o: int, w: Word, x: (int, int, int))
    requires Shape(s, role) && Live(s, p) && Mapped(s, p, i, j) && 0 <= o < ENTRIES
    requires Entry(s, p, i, j).frame < |s.phys| && s.phys[Entry(s, p, i, j).frame][o] != w
    requires x in Refs(s, Entry(s, p, i, j).frame) && x != (p, i, j)
    ensures Abs(AfterStore(s, p, i, j, o, w)) != EagerWrite(Abs(s), p, (i, j), o, w)
  {
    PageSeen(s, p, (i, j));
    var s', q, pg := AfterStore(s, p, i, j, o, w), x.0, (x.1, x.2);
    StoreSeen(s, role, p, i, j, o, w, x.0, x.1, x.2);
    PageSeen(s', q, pg);
    PageSeen(s, q, pg);
    OtherUntouched(Abs(s), p, (i, j), o, w, q, pg);
  }

  lemma AnotherRef(s: Sys, f: int, x: (int, int, int))
    requires x in Refs(s, f) && Refs(s, f) != {x}
    ensures exists y :: y in Refs(s, f) && y != x
  {
    assert exists y :: y in Refs(s, f) - {x} by {
      assert Refs(s, f) == Refs(s, f) - {x} + {x};
      assert Refs(s, f) - {x} != {};
    }
  }

  /** A store changes its own process's page and nothing else anyone can see if and only if no
      other entry names the frame, or the word stored was there already. */
  lemma StoreExact(s: Sys, role: seq<Role>, p: int, i: int, j: int, o: int, w: Word)
    requires Shape(s, role) && Live(s, p) && Mapped(s, p, i, j) && 0 <= o < ENTRIES
    requires Entry(s, p, i, j).frame < |s.phys|
    ensures Abs(AfterStore(s, p, i, j, o, w)) == EagerWrite(Abs(s), p, (i, j), o, w) <==>
            var f := Entry(s, p, i, j).frame; Refs(s, f) == {(p, i, j)} || s.phys[f][o] == w
  {
    var f := Entry(s, p, i, j).frame;
    if Refs(s, f) == {(p, i, j)} || s.phys[f][o] == w {
      StorePrivate(s, role, p, i, j, o, w);
    } else {
      RefsMember(s, f, p, i, j);
      AnotherRef(s, f, (p, i, j));
      var x :| x in Refs(s, f) && x != (p, i, j);
      StoreShared(s, role, p, i, j, o, w, x);
    }
  }

  /** The fault handler and the retried store together change just the writer's page if and only
      if a count of 1 was the truth: with more entries than that, someone else sees the store. */
  lemma FaultExact(s: Sys, role: seq<Role>, p: int, i: int, j: int, n: int, o: int, w: Word)
    requires CanFault(s, role, p, i, j, n) && 0 <= o < ENTRIES
    ensures var f := Entry(s, p, i, j).frame; var s1 := AfterFault(s, role, p, i, j, n);
            && f < |s.phys| && Mapped(s1, p, i, j) && Entry(s1, p, i, j).frame < |s1.phys|
            && (Abs(AfterStore(s1, p, i, j, o, w)) == EagerWrite(Abs(s), p, (i, j), o, w) <==>
                  s.mem[f].count != 1 || Refs(s, f) == {(p, i, j)} || s.phys[f][o] == w)
  {
    MappedFrame(s, role, p, i, j);
    var s1, role1 := AfterFault(s, role, p, i, j, n), FaultRole(s, role, p, i, j, n);
    var f := Entry(s, p, i, j).frame;
    FaultShape(s, role, p, i, j, n);
    FaultEntries(s, role, p, i, j, n);
    FaultViews(s, role, p, i, j, n);
    FaultRefs(s, role, p, i, j, n, Entry(s1, p, i, j).frame);
    MappedFrame(s1, role1, p, i, j);
    StoreExact(s1, role1, p, i, j, o, w);
  }

  // ----- the way there

  /** A program page is mapped as any other page, but its count stays 0. */
  ghost function AfterBareMap(s: Sys, role: seq<Role>, p: int, i: int, j: int, n: int): Sys
    requires CanMap(s, role, p, i, j, n) && |s.mem| <= MAX_FRAMES
  {
    AfterMap(s, role, p, i, j, n).(mem := Taken(s.mem, n))
  }

  /** Counts play no part in what is mapped. */
  lemma CountsUnseen(s: Sys, role: seq<Role>, t: Sys)
    requires Shape(t, role) && s.phys == t.phys && s.procs == t.procs && FramesOk(s, role)
    ensures Shape(s, role) && Abs(s) == Abs(t) && forall f :: Refs(s, f) == Refs(t, f)
  {
    forall q, k, l ensures Entry(s, q, k, l) == Entry(t, q, k, l) {}
    forall q | 0 <= q < |s.procs| ensures SlotOk(s, role, q) { assert SlotOk(t, role, q); }
    forall q | Live(s, q) ensures View(s, q) == View(t, q) {}
  }

  /** The page is there and private, as it would be with a count. */
  lemma BareMapViews(s: Sys, role: seq<Role>, p: int, i: int, j: int, n: int)
    requires CanMap(s, role, p, i, j, n)
    ensures |s.mem| <= MAX_FRAMES
    ensures var s' := AfterBareMap(s, role, p, i, j, n);
            && Shape(s', role[n := Data]) && Refs(s', n) == {(p, i, j)} && s'.mem[n].count == 0
            && n < |s.phys| && Abs(s') == EagerMap(Abs(s), p, (i, j), s.phys[n])
  {
    var s', t := AfterBareMap(s, role, p, i, j, n), AfterMap(s, role, p, i, j, n);
    MapEntries(s, role, p, i, j, n);
    MapViews(s, role, p, i, j, n);
    CountsUnseen(s', role[n := Data], t);
    OnlyDataNamed(s, role, n);
    forall x ensures x in Refs(t, n) <==> x == (p, i, j) { RefsMember(t, n, x.0, x.1, x.2); RefsMember(s, n, x.0, x.1, x.2); }
  }

  /** No directory changes. */
  lemma BareMapSlots(s: Sys, role: seq<Role>, p: int, i: int, j: int, n: int)
    requires CanMap(s, role, p, i, j, n) && |s.mem| <= MAX_FRAMES
    ensures TableSlots(AfterBareMap(s, role, p, i, j, n).phys, s.procs[p].dir.value, USER_DIRS) ==
            TableSlots(s.phys, s.procs[p].dir.value, USER_DIRS)
  {
    assert SlotOk(s, role, p) && TableOk(s.phys, role, s.procs[p].dir.value, p, i);
  }

  /** A fork of the one process that maps frame `n`, once and uncounted, leaves two entries and
      a count of 1. */
  lemma ForkedBare(s: Sys, role: seq<Role>, i: int, j: int, n: int, fk: Fork)
    requires Forked(s, role, fk) && 0 <= n < |role| && role[n] == Data
    requires Refs(s, n) == {(fk.c, i, j)} && s.mem[n].count == 0
    ensures var s' := AfterFork(s, fk);
            n < |s'.mem| && s'.mem[n].count == 1 && Refs(s', n) == {(fk.c, i, j), (fk.ch, i, j)}
  {
    forall x ensures x in Named(s.phys, fk.d, USER_DIRS, n) <==> x == (i, j) { RefsMember(s, n, fk.c, x.0, x.1); }
    assert Named(s.phys, fk.d, USER_DIRS, n) == {(i, j)};
    ForkRefs(s, role, fk, n);
    assert ChildRefs(s, fk, n) == {(fk.ch, i, j)};
    assert fk.mem[n] == Shared(s.mem[n], 1);
    SharedUse(s.mem[n], 1);
    AdvanceWraps(0, 1);
  }

  /** What the other process reads once `q` has faulted on page (i, j) and stored: the word. */
  ghost predicate StoreLeaks(s: Sys, role: seq<Role>, q: int, other: int, i: int, j: int, o: int, w: Word)
    requires 0 <= o < ENTRIES
  {
    && CanFault(s, role, q, i, j, 0) && Entry(s, q, i, j).frame < |s.phys|
    && var s1, page := AfterFault(s, role, q, i, j, 0), s.phys[Entry(s, q, i, j).frame];
       && Mapped(s1, q, i, j) && Entry(s1, q, i, j).frame < |s1.phys|
       && var s2 := AfterStore(s1, q, i, j, o, w);
          && View(s2, other) == View(s, other)[(i, j) := page[o := w]]
          && Live(s, q) && (i, j) in View(s, q)
          && (Abs(s2) == EagerWrite(Abs(s), q, (i, j), o, w) <==> page[o] == w)
  }

  lemma OthersPage(s: Sys, role: seq<Role>, q: int, other: int, i: int, j: int, o: int, w: Word)
    requires CanFault(s, role, q, i, j, 0) && 0 <= o < ENTRIES && q != other
    requires var n := Entry(s, q, i, j).frame; s.mem[n].count == 1 && Refs(s, n) == {(q, i, j), (other, i, j)}
    ensures var n, s1 := Entry(s, q, i, j).frame, AfterFault(s, role, q, i, j, 0);
            && n < |s.phys| && Entry(s1, q, i, j).frame < |s1.phys|
            && View(AfterStore(s1, q, i, j, o, w), other) == View(s, other)[(i, j) := s.phys[n][o := w]]
  {
    MappedFrame(s, role, q, i, j);
    var n, s1, role1 := Entry(s, q, i, j).frame, AfterFault(s, role, q, i, j, 0), FaultRole(s, role, q, i, j, 0);
    FaultEntries(s, role, q, i, j, 0);
    FaultShape(s, role, q, i, j, 0);
    var s2 := AfterStore(s1, q, i, j, o, w);
    StoreEntries(s1, role1, q, i, j, o, w);
    RefsMember(s, n, other, i, j);
    forall k, l | 0 <= k < USER_DIRS && 0 <= l < ENTRIES && (k, l) != (i, j) ensures SamePage(s2, other, s, other, k, l) {
      if Entry(s, other, k, l) != ZERO {
        RefsMember(s, n, other, k, l);
        MappedFrame(s, role, other, k, l);
      }
    }
    ViewUpdated(s, s2, other, i, j, s.phys[n][o := w]);
  }

  /** Two entries, at the same place in two processes, and a count of 1. */
  lemma SeenByOther(s: Sys, role: seq<Role>, q: int, other: int, i: int, j: int, o: int, w: Word)
    requires Shape(s, role) && 0 <= o < ENTRIES && q != other && Live(s, q) && Mapped(s, q, i, j)
    requires var n := Entry(s, q, i, j).frame;
             n < |s.mem| && s.mem[n].count == 1 && Refs(s, n) == {(q, i, j), (other, i, j)}
    ensures StoreLeaks(s, role, q, other, i, j, o, w)
  {
    MappedFrame(s, role, q, i, j);
    var n, s1 := Entry(s, q, i, j).frame, AfterFault(s, role, q, i, j, 0);
    assert (other, i, j) in Refs(s, n);
    FaultExact(s, role, q, i, j, 0, o, w);
    assert Refs(s, n) != {(q, i, j)};
    OthersPage(s, role, q, other, i, j, o, w);
  }

  /** Either process, `q`, and the other one. */
  lemma LeaksFrom(s: Sys, role: seq<Role>, q: int, other: int, i: int, j: int, n: int, o: int, w: Word)
    requires Shape(s, role) && 0 <= n < |s.mem| && s.mem[n].count == 1 && 0 <= o < ENTRIES
    requires q != other && Refs(s, n) == {(q, i, j), (other, i, j)}
    ensures StoreLeaks(s, role, q, other, i, j, o, w)
  {
    RefsMember(s, n, q, i, j);
    SeenByOther(s, role, q, other, i, j, o, w);
  }

  lemma LeakPair(s: Sys, role: seq<Role>, q: int, other: int, i: int, j: int, n: int, o: int, w: Word)
    requires Shape(s, role) && 0 <= n < |s.mem| && s.mem[n].count == 1 && 0 <= o < ENTRIES
    requires q != other && Refs(s, n) == {(q, i, j), (other, i, j)}
    ensures StoreLeaks(s, role, q, other, i, j, o, w) && StoreLeaks(s, role, other, q, i, j, o, w)
  {
    LeaksFrom(s, role, q, other, i, j, n, o, w);
    assert {(q, i, j), (other, i, j)} == {(other, i, j), (q, i, j)};
    LeaksFrom(s, role, other, q, i, j, n, o, w);
  }

  lemma LeaksBoth(s: Sys, role: seq<Role>, i: int, j: int, n: int, fk: Fork, o: int, w: Word)
    requires Forked(s, role, fk) && 0 <= n < |role| && role[n] == Data && 0 <= o < ENTRIES
    requires Refs(s, n) == {(fk.c, i, j)} && s.mem[n].count == 0
    ensures var s2, role2 := AfterFork(s, fk), fk.role[fk.ks := Stack(fk.ch)];
            StoreLeaks(s2, role2, fk.c, fk.ch, i, j, o, w) && StoreLeaks(s2, role2, fk.ch, fk.c, i, j, o, w)
  {
    ForkedBare(s, role, i, j, n, fk);
    ForkShape(s, role, fk);
    LeakPair(AfterFork(s, fk), fk.role[fk.ks := Stack(fk.ch)], fk.c, fk.ch, i, j, n, o, w);
  }

  /** So copy on write fails for the program pages of a process that forks: the first store to
      such a page, by parent or child, is read by the other, whatever word it changes. */
  lemma ProgramPageShared(s: Sys, role: seq<Role>, p: int, i: int, j: int, n: int, fk: Fork, o: int, w: Word)
    requires CanMap(s, role, p, i, j, n) && |s.mem| <= MAX_FRAMES && fk.c == p && 0 <= o < ENTRIES
    requires Forked(AfterBareMap(s, role, p, i, j, n), role[n := Data], fk)
    ensures var s2, role2 := AfterFork(AfterBareMap(s, role, p, i, j, n), fk), fk.role[fk.ks := Stack(fk.ch)];
            StoreLeaks(s2, role2, p, fk.ch, i, j, o, w) && StoreLeaks(s2, role2, fk.ch, p, i, j, o, w)
  {
    BareMapViews(s, role, p, i, j, n);
    LeaksBoth(AfterBareMap(s, role, p, i, j, n), role[n := Data], i, j, n, fk, o, w);
  }
}
