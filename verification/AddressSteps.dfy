/** One lemma per memory operation: the invariant survives, and the address spaces
    change exactly as on the eager machine. */
module AddressSteps {
  import opened Counting
  import opened Words
  import opened Frames
  import opened AddressSpaces

  /** Frame of the page table holding entry (i, _) of process `p`. */
  function TableFrame(s: Sys, p: int, i: int): int {
    if 0 <= p < |s.procs| && s.procs[p].dir.Some? then At(s.phys, s.procs[p].dir.value, i).frame else 0
  }

  /** A physical memory that differs from `s` in at most one page-table word and in
      frames that are neither directories nor tables. */
  ghost predicate OneEntryChanged(s: Sys, role: seq<Role>, phys: seq<Contents>, t: int, j: int, e: Word) {
    && |phys| == |s.phys| == |role| && 0 <= t < |phys| && 0 <= j < ENTRIES
    && phys[t] == s.phys[t][j := e]
    && forall f :: 0 <= f < |role| && f != t && (role[f].Directory? || role[f].Table?) ==> phys[f] == s.phys[f]
  }

  lemma EntryAfter(s: Sys, role: seq<Role>, s': Sys, p: int, i: int, j: int, e: Word)
    requires Shape(s, role) && Live(s, p) && 0 <= i < USER_DIRS && 0 <= j < ENTRIES
    requires s.procs[p].dir.Some? && At(s.phys, s.procs[p].dir.value, i) != ZERO
    requires s'.procs == s.procs && OneEntryChanged(s, role, s'.phys, TableFrame(s, p, i), j, e)
    ensures forall q, k, l :: Live(s, q) && 0 <= k < USER_DIRS && 0 <= l < ENTRIES ==>
              Entry(s', q, k, l) == if (q, k, l) == (p, i, j) then e else Entry(s, q, k, l)
  {
    assert SlotOk(s, role, p);
    assert TableOk(s.phys, role, s.procs[p].dir.value, p, i);
    forall q, k, l | Live(s, q) && 0 <= k < USER_DIRS && 0 <= l < ENTRIES
      ensures Entry(s', q, k, l) == if (q, k, l) == (p, i, j) then e else Entry(s, q, k, l)
    {
      assert SlotOk(s, role, q);
      var d := s.procs[q].dir.value;
      assert TableOk(s.phys, role, d, q, k);
      assert At(s'.phys, d, k) == At(s.phys, d, k);
    }
  }

  /** Tables stay well formed when one entry is replaced by a sound one. */
  lemma ShapeAfter(s: Sys, role: seq<Role>, s': Sys, role': seq<Role>, p: int, i: int, j: int, e: Word)
    requires Shape(s, role) && Live(s, p) && 0 <= i < USER_DIRS && 0 <= j < ENTRIES
    requires s.procs[p].dir.Some? && At(s.phys, s.procs[p].dir.value, i) != ZERO
    requires s'.procs == s.procs && OneEntryChanged(s, role, s'.phys, TableFrame(s, p, i), j, e)
    requires FramesOk(s', role') && |role'| == |role|
    requires forall f :: 0 <= f < |role| && role[f] != Free ==> role'[f] == role[f]
    requires PteOk(role', e)
    ensures Shape(s', role')
  {
    EntryAfter(s, role, s', p, i, j, e);
    forall q | 0 <= q < |s'.procs| ensures SlotOk(s', role', q) {
      assert SlotOk(s, role, q);
      if s.procs[q].live {
        var d := s.procs[q].dir.value;
        assert SlotOk(s, role, p) && TableOk(s.phys, role, s.procs[p].dir.value, p, i);
        forall k | 0 <= k < USER_DIRS ensures TableOk(s'.phys, role', d, q, k) {
          assert TableOk(s.phys, role, d, q, k);
          assert At(s'.phys, d, k) == At(s.phys, d, k);
          var t := At(s.phys, d, k);
          if t != ZERO {
            forall l | 0 <= l < ENTRIES ensures PteOk(role', At(s'.phys, t.frame, l)) {
              assert Entry(s', q, k, l) == At(s'.phys, t.frame, l);
              assert PteOk(role, At(s.phys, t.frame, l));
            }
          }
        }
      }
    }
  }

  // ----- write-protection fault: do_wp_page

  ghost predicate CanFault(s: Sys, role: seq<Role>, p: int, i: int, j: int, n: int) {
    && Shape(s, role) && Live(s, p) && Mapped(s, p, i, j)
    && Entry(s, p, i, j).frame < |s.mem|
    && TableFrame(s, p, i) < |s.phys|
    && (s.mem[Entry(s, p, i, j).frame].count != 1 ==> 0 <= n < |s.mem| && !Used(s.mem[n]))
  }

  /** The system after the fault handler ran; `n` is the frame it takes if it has to copy. */
  ghost function AfterFault(s: Sys, role: seq<Role>, p: int, i: int, j: int, n: int): Sys
    requires CanFault(s, role, p, i, j, n)
  {
    var t := TableFrame(s, p, i);
    var o := Entry(s, p, i, j).frame;
    if s.mem[o].count == 1 then
      var table: Contents := s.phys[t][j := Word(o, USER_RW)];
      s.(phys := s.phys[t := table],
         mem := s.mem[o := s.mem[o].(addr := Or(PageBase(s.mem[o].addr), MP_USE))])
    else
      var table: Contents := s.phys[t][j := Word(n, USER_RW)];
      s.(phys := s.phys[t := table][n := s.phys[o]],
         mem := s.mem[n := Page(Word(n, MP_USE), 1)][o := s.mem[o].(count := Decrement(s.mem[o].count))])
  }

  ghost function FaultRole(s: Sys, role: seq<Role>, p: int, i: int, j: int, n: int): seq<Role>
    requires CanFault(s, role, p, i, j, n)
  {
    if s.mem[Entry(s, p, i, j).frame].count == 1 then role else role[n := Data]
  }

  lemma FaultEntries(s: Sys, role: seq<Role>, p: int, i: int, j: int, n: int)
    requires CanFault(s, role, p, i, j, n)
    ensures var s' := AfterFault(s, role, p, i, j, n);
            var o := Entry(s, p, i, j).frame;
            var e := Word(if s.mem[o].count == 1 then o else n, USER_RW);
            && |s'.phys| == |s.phys| && |s'.mem| == |s.mem|
            && OneEntryChanged(s, role, s'.phys, TableFrame(s, p, i), j, e)
            && (forall q, k, l :: Live(s, q) && 0 <= k < USER_DIRS && 0 <= l < ENTRIES ==>
                  Entry(s', q, k, l) == if (q, k, l) == (p, i, j) then e else Entry(s, q, k, l))
  {
    MappedFrame(s, role, p, i, j);
    var s' := AfterFault(s, role, p, i, j, n);
    var o := Entry(s, p, i, j).frame;
    var e := Word(if s.mem[o].count == 1 then o else n, USER_RW);
    EntryAfter(s, role, s', p, i, j, e);
  }

  lemma FaultShape(s: Sys, role: seq<Role>, p: int, i: int, j: int, n: int)
    requires CanFault(s, role, p, i, j, n)
    ensures Shape(AfterFault(s, role, p, i, j, n), FaultRole(s, role, p, i, j, n))
  {
    MappedFrame(s, role, p, i, j);
    FaultEntries(s, role, p, i, j, n);
    var s' := AfterFault(s, role, p, i, j, n);
    ShapeAfter(s, role, s', FaultRole(s, role, p, i, j, n), p, i, j, Entry(s', p, i, j));
  }

  lemma FaultRefs(s: Sys, role: seq<Role>, p: int, i: int, j: int, n: int, f: int)
    requires CanFault(s, role, p, i, j, n)
    ensures var s' := AfterFault(s, role, p, i, j, n); var o := Entry(s, p, i, j).frame;
            if s.mem[o].count == 1 then Refs(s', f) == Refs(s, f)
            else if f == n then Refs(s', f) == {(p, i, j)}
            else if f == o then Refs(s', f) == Refs(s, f) - {(p, i, j)}
            else Refs(s', f) == Refs(s, f)
  {
    MappedFrame(s, role, p, i, j);
    FaultEntries(s, role, p, i, j, n);
    var s' := AfterFault(s, role, p, i, j, n);
    var o := Entry(s, p, i, j).frame;
    if s.mem[o].count != 1 && f == n {
      OnlyDataNamed(s, role, n);
    }
    forall x: (int, int, int) ensures x in Refs(s', f) <==>
        if x == (p, i, j) then f == Entry(s', p, i, j).frame else x in Refs(s, f)
    {
      if Live(s, x.0) && 0 <= x.1 < USER_DIRS && 0 <= x.2 < ENTRIES {
        assert x != (p, i, j) ==> Entry(s', x.0, x.1, x.2) == Entry(s, x.0, x.1, x.2);
      }
    }
    assert (p, i, j) in Refs(s, o);
  }

  lemma FaultCounts(s: Sys, role: seq<Role>, p: int, i: int, j: int, n: int)
    requires CanFault(s, role, p, i, j, n) && Inv(s, role)
    ensures var s' := AfterFault(s, role, p, i, j, n);
            forall f :: 0 <= f < |role| && FaultRole(s, role, p, i, j, n)[f] == Data ==> CountOk(s', f)
  {
    MappedFrame(s, role, p, i, j);
    var s' := AfterFault(s, role, p, i, j, n);
    var o := Entry(s, p, i, j).frame;
    assert (p, i, j) in Refs(s, o);
    forall f | 0 <= f < |role| && FaultRole(s, role, p, i, j, n)[f] == Data ensures CountOk(s', f) {
      FaultRefs(s, role, p, i, j, n, f);
      assert f == n || CountOk(s, f);
    }
  }

  lemma FaultExclusive(s: Sys, role: seq<Role>, p: int, i: int, j: int, n: int)
    requires CanFault(s, role, p, i, j, n) && Inv(s, role)
    ensures var s' := AfterFault(s, role, p, i, j, n);
            forall q, k, l :: Live(s', q) && Mapped(s', q, k, l) ==> ExclusiveOk(s', q, k, l)
  {
    MappedFrame(s, role, p, i, j);
    FaultEntries(s, role, p, i, j, n);
    var s' := AfterFault(s, role, p, i, j, n);
    var o := Entry(s, p, i, j).frame;
    assert CountOk(s, o);
    assert (p, i, j) in Refs(s, o);
    if s.mem[o].count == 1 {
      Singleton(Refs(s, o), (p, i, j));
    } else {
      OnlyDataNamed(s, role, n);
    }
    forall q, k, l | Live(s', q) && Mapped(s', q, k, l) ensures ExclusiveOk(s', q, k, l) {
      if (q, k, l) == (p, i, j) {
        if s.mem[o].count == 1 {
          assert Refs(s', o) == Refs(s, o);
        } else {
          assert Refs(s', n) == {(p, i, j)};
        }
      } else {
        assert Entry(s', q, k, l) == Entry(s, q, k, l);
        assert ExclusiveOk(s, q, k, l);
        MappedFrame(s, role, q, k, l);
        var f := Entry(s, q, k, l).frame;
        if Has(Entry(s, q, k, l), PG_RWW) {
          assert (p, i, j) !in Refs(s, f);
          assert Refs(s', f) == Refs(s, f);
        }
      }
    }
  }

  lemma FaultViews(s: Sys, role: seq<Role>, p: int, i: int, j: int, n: int)
    requires CanFault(s, role, p, i, j, n)
    ensures Abs(AfterFault(s, role, p, i, j, n)) == Abs(s)
  {
    var s' := AfterFault(s, role, p, i, j, n);
    FaultEntries(s, role, p, i, j, n);
    MappedFrame(s, role, p, i, j);
    forall q | Live(s, q) ensures View(s', q) == View(s, q) {
      forall k, l | 0 <= k < USER_DIRS && 0 <= l < ENTRIES ensures SamePage(s', q, s, q, k, l) {
        if Entry(s, q, k, l) != ZERO {
          MappedFrame(s, role, q, k, l);
        }
      }
      SameView(s', q, s, q);
    }
    assert Abs(s') == Abs(s);
  }

  /** A fault is invisible: no process sees any page change, and the entry comes out writable. */
  lemma FaultKeeps(s: Sys, role: seq<Role>, p: int, i: int, j: int, n: int)
    requires CanFault(s, role, p, i, j, n) && Inv(s, role)
    ensures var s' := AfterFault(s, role, p, i, j, n);
            && Inv(s', FaultRole(s, role, p, i, j, n))
            && Abs(s') == Abs(s)
            && Mapped(s', p, i, j) && Has(Entry(s', p, i, j), PG_RWW)
  {
    FaultShape(s, role, p, i, j, n);
    FaultCounts(s, role, p, i, j, n);
    FaultExclusive(s, role, p, i, j, n);
    FaultEntries(s, role, p, i, j, n);
    FaultViews(s, role, p, i, j, n);
  }

  // ----- a store through a writable entry

  function AfterStore(s: Sys, p: int, i: int, j: int, o: int, w: Word): Sys
    requires Entry(s, p, i, j).frame < |s.phys| && 0 <= o < ENTRIES
  {
    var f := Entry(s, p, i, j).frame;
    var page: Contents := s.phys[f][o := w];
    s.(phys := s.phys[f := page])
  }

  lemma StoreEntries(s: Sys, role: seq<Role>, p: int, i: int, j: int, o: int, w: Word)
    requires Shape(s, role) && Live(s, p) && Mapped(s, p, i, j) && 0 <= o < ENTRIES
    requires Entry(s, p, i, j).frame < |s.phys|
    ensures var s' := AfterStore(s, p, i, j, o, w);
            && Shape(s', role)
            && forall q, k, l :: Live(s, q) && 0 <= k < USER_DIRS && 0 <= l < ENTRIES ==>
                  Entry(s', q, k, l) == Entry(s, q, k, l)
  {
    MappedFrame(s, role, p, i, j);
    var s' := AfterStore(s, p, i, j, o, w);
    var t, e := TableFrame(s, p, i), Entry(s, p, i, j);
    assert s.phys[t][j := e] == s.phys[t];
    EntryAfter(s, role, s', p, i, j, e);
    ShapeAfter(s, role, s', role, p, i, j, e);
  }

  lemma StorePages(s: Sys, role: seq<Role>, p: int, i: int, j: int, o: int, w: Word)
    requires Inv(s, role) && Live(s, p) && Mapped(s, p, i, j) && 0 <= o < ENTRIES
    requires Entry(s, p, i, j).frame < |s.phys| && Has(Entry(s, p, i, j), PG_RWW)
    ensures forall q, k, l :: Live(s, q) && 0 <= k < USER_DIRS && 0 <= l < ENTRIES && (q, k, l) != (p, i, j) ==>
              SamePage(AfterStore(s, p, i, j, o, w), q, s, q, k, l)
  {
    var s' := AfterStore(s, p, i, j, o, w);
    StoreEntries(s, role, p, i, j, o, w);
    assert ExclusiveOk(s, p, i, j);
    forall q, k, l | Live(s, q) && 0 <= k < USER_DIRS && 0 <= l < ENTRIES && (q, k, l) != (p, i, j)
      ensures SamePage(s', q, s, q, k, l)
    {
      if Entry(s, q, k, l) != ZERO {
        assert (q, k, l) !in Refs(s, Entry(s, p, i, j).frame);
      }
    }
  }

  lemma StoreViews(s: Sys, role: seq<Role>, p: int, i: int, j: int, o: int, w: Word)
    requires Inv(s, role) && Live(s, p) && Mapped(s, p, i, j) && 0 <= o < ENTRIES
    requires Entry(s, p, i, j).frame < |s.phys| && Has(Entry(s, p, i, j), PG_RWW)
    ensures Abs(AfterStore(s, p, i, j, o, w)) == EagerWrite(Abs(s), p, (i, j), o, w)
  {
    var s' := AfterStore(s, p, i, j, o, w);
    StoreEntries(s, role, p, i, j, o, w);
    StorePages(s, role, p, i, j, o, w);
    var page: Contents := s.phys[Entry(s, p, i, j).frame][o := w];
    AbsUpdated(s, s', p, i, j, page);
  }

  lemma StoreRefs(s: Sys, role: seq<Role>, p: int, i: int, j: int, o: int, w: Word)
    requires Inv(s, role) && Live(s, p) && Mapped(s, p, i, j) && 0 <= o < ENTRIES
    requires Entry(s, p, i, j).frame < |s.phys| && Has(Entry(s, p, i, j), PG_RWW)
    ensures forall f :: Refs(AfterStore(s, p, i, j, o, w), f) == Refs(s, f)
  {
    StoreEntries(s, role, p, i, j, o, w);
    forall f ensures Refs(AfterStore(s, p, i, j, o, w), f) == Refs(s, f) {}
  }

  /** The store touches the writer's own page and nothing else anyone can see. */
  lemma StoreKeeps(s: Sys, role: seq<Role>, p: int, i: int, j: int, o: int, w: Word)
    requires Inv(s, role) && Live(s, p) && Mapped(s, p, i, j) && 0 <= o < ENTRIES
    requires Entry(s, p, i, j).frame < |s.phys| && Has(Entry(s, p, i, j), PG_RWW)
    ensures Inv(AfterStore(s, p, i, j, o, w), role)
    ensures Abs(AfterStore(s, p, i, j, o, w)) == EagerWrite(Abs(s), p, (i, j), o, w)
  {
    var s' := AfterStore(s, p, i, j, o, w);
    StoreEntries(s, role, p, i, j, o, w);
    StoreRefs(s, role, p, i, j, o, w);
    StoreViews(s, role, p, i, j, o, w);
    forall f | 0 <= f < |role| && role[f] == Data ensures CountOk(s', f) {
      assert CountOk(s, f);
    }
    forall q, k, l | Live(s', q) && Mapped(s', q, k, l) ensures ExclusiveOk(s', q, k, l) {
      assert ExclusiveOk(s, q, k, l);
    }
  }

  // ----- mapping a new page in an existing table, over whatever the entry held

  ghost predicate CanMap(s: Sys, role: seq<Role>, p: int, i: int, j: int, n: int) {
    && Shape(s, role) && Live(s, p) && 0 <= i < USER_DIRS && 0 <= j < ENTRIES
    && s.procs[p].dir.Some? && At(s.phys, s.procs[p].dir.value, i) != ZERO
    && TableFrame(s, p, i) < |s.phys|
    && 0 <= n < |s.mem| && !Used(s.mem[n])
  }

  ghost function AfterMap(s: Sys, role: seq<Role>, p: int, i: int, j: int, n: int): Sys
    requires CanMap(s, role, p, i, j, n)
  {
    var t := TableFrame(s, p, i);
    var table: Contents := s.phys[t][j := Word(n, USER_RW)];
    s.(phys := s.phys[t := table], mem := s.mem[n := Page(Word(n, MP_USE), 1)])
  }

  lemma MapEntries(s: Sys, role: seq<Role>, p: int, i: int, j: int, n: int)
    requires CanMap(s, role, p, i, j, n)
    ensures var s' := AfterMap(s, role, p, i, j, n);
            && Shape(s', role[n := Data])
            && forall q, k, l :: Live(s, q) && 0 <= k < USER_DIRS && 0 <= l < ENTRIES ==>
                  Entry(s', q, k, l) == if (q, k, l) == (p, i, j) then Word(n, USER_RW) else Entry(s, q, k, l)
  {
    assert SlotOk(s, role, p) && TableOk(s.phys, role, s.procs[p].dir.value, p, i);
    var s' := AfterMap(s, role, p, i, j, n);
    EntryAfter(s, role, s', p, i, j, Word(n, USER_RW));
    ShapeAfter(s, role, s', role[n := Data], p, i, j, Word(n, USER_RW));
  }

  lemma MapViews(s: Sys, role: seq<Role>, p: int, i: int, j: int, n: int)
    requires CanMap(s, role, p, i, j, n)
    ensures n < |s.phys| && Abs(AfterMap(s, role, p, i, j, n)) == EagerMap(Abs(s), p, (i, j), s.phys[n])
  {
    var s' := AfterMap(s, role, p, i, j, n);
    MapEntries(s, role, p, i, j, n);
    assert SlotOk(s, role, p) && TableOk(s.phys, role, s.procs[p].dir.value, p, i);
    forall q, k, l | Live(s, q) && 0 <= k < USER_DIRS && 0 <= l < ENTRIES && (q, k, l) != (p, i, j)
      ensures SamePage(s', q, s, q, k, l)
    {
      if Entry(s, q, k, l) != ZERO { MappedFrame(s, role, q, k, l); }
    }
    AbsUpdated(s, s', p, i, j, s.phys[n]);
  }

  lemma MapRefs(s: Sys, role: seq<Role>, p: int, i: int, j: int, n: int)
    requires CanMap(s, role, p, i, j, n)
    ensures Refs(AfterMap(s, role, p, i, j, n), n) == {(p, i, j)}
    ensures forall f :: f != n ==> Refs(AfterMap(s, role, p, i, j, n), f) == Refs(s, f) - {(p, i, j)}
  {
    var s' := AfterMap(s, role, p, i, j, n);
    MapEntries(s, role, p, i, j, n);
    OnlyDataNamed(s, role, n);
    assert Refs(s', n) == {(p, i, j)};
    forall f | f != n ensures Refs(s', f) == Refs(s, f) - {(p, i, j)} {
      RefsMember(s, f, p, i, j);
    }
  }

  lemma MapExclusive(s: Sys, role: seq<Role>, p: int, i: int, j: int, n: int)
    requires Inv(s, role) && CanMap(s, role, p, i, j, n)
    ensures var s' := AfterMap(s, role, p, i, j, n);
            forall q, k, l :: Live(s', q) && Mapped(s', q, k, l) ==> ExclusiveOk(s', q, k, l)
  {
    var s' := AfterMap(s, role, p, i, j, n);
    MapEntries(s, role, p, i, j, n);
    MapRefs(s, role, p, i, j, n);
    forall q, k, l | Live(s', q) && Mapped(s', q, k, l) ensures ExclusiveOk(s', q, k, l) {
      if (q, k, l) != (p, i, j) {
        assert ExclusiveOk(s, q, k, l);
        MappedFrame(s, role, q, k, l);
      }
    }
  }

  /** A new page shows the mapper whatever its frame last held, and nobody else anything. */
  lemma MapKeeps(s: Sys, role: seq<Role>, p: int, i: int, j: int, n: int)
    requires Inv(s, role) && CanMap(s, role, p, i, j, n)
    ensures Inv(AfterMap(s, role, p, i, j, n), role[n := Data])
    ensures n < |s.phys| && Abs(AfterMap(s, role, p, i, j, n)) == EagerMap(Abs(s), p, (i, j), s.phys[n])
  {
    var s' := AfterMap(s, role, p, i, j, n);
    MapEntries(s, role, p, i, j, n);
    MapRefs(s, role, p, i, j, n);
    MapExclusive(s, role, p, i, j, n);
    forall f | 0 <= f < |role| && role[n := Data][f] == Data ensures CountOk(s', f) {
      if f != n {
        assert CountOk(s, f);
        SubsetCard(Refs(s', f), Refs(s, f));
      }
    }
    MapViews(s, role, p, i, j, n);
  }

  // ----- mapping a page in a new table, in place of the row's old one if it had one (init_fork, sys_execve)

  ghost predicate CanMapTable(s: Sys, role: seq<Role>, p: int, i: int, j: int, t: int, n: int) {
    && Shape(s, role) && Live(s, p) && 0 <= i < USER_DIRS && 0 <= j < ENTRIES
    && s.procs[p].dir.Some?
    && 0 <= t < |s.mem| && !Used(s.mem[t])
    && 0 <= n < |s.mem| && !Used(s.mem[n]) && n != t
  }

  /** The frame taken for the table is not cleared: it keeps its old words except entry `j`. */
  ghost function AfterMapTable(s: Sys, role: seq<Role>, p: int, i: int, j: int, t: int, n: int): Sys
    requires CanMapTable(s, role, p, i, j, t, n)
  {
    assert SlotOk(s, role, p);
    var d := s.procs[p].dir.value;
    var dir: Contents := s.phys[d][i := Word(t, USER_RW)];
    var table: Contents := s.phys[t][j := Word(n, USER_RW)];
    s.(phys := s.phys[d := dir][t := table],
       mem := s.mem[t := Page(Word(t, MP_USE), 0)][n := Page(Word(n, MP_USE), 1)])
  }

  ghost function MapTableRole(role: seq<Role>, p: int, i: int, t: int, n: int): seq<Role>
    requires 0 <= t < |role| && 0 <= n < |role|
  {
    role[t := Table(p, i)][n := Data]
  }

  /** The words of frame `t` other than word `j` are all zero. */
  ghost predicate BlankBut(phys: seq<Contents>, t: int, j: int) {
    forall l :: 0 <= l < ENTRIES && l != j ==> At(phys, t, l) == ZERO
  }

  lemma MapTableEntries(s: Sys, role: seq<Role>, p: int, i: int, j: int, t: int, n: int)
    requires CanMapTable(s, role, p, i, j, t, n)
    ensures var s' := AfterMapTable(s, role, p, i, j, t, n);
            forall q, k, l :: Live(s, q) && 0 <= k < USER_DIRS && 0 <= l < ENTRIES ==>
                  Entry(s', q, k, l) == if (q, k) != (p, i) then Entry(s, q, k, l)
                                        else if l == j then Word(n, USER_RW) else At(s.phys, t, l)
  {
    var s' := AfterMapTable(s, role, p, i, j, t, n);
    forall q, k, l | Live(s, q) && 0 <= k < USER_DIRS && 0 <= l < ENTRIES
      ensures Entry(s', q, k, l) == if (q, k) != (p, i) then Entry(s, q, k, l)
                                    else if l == j then Word(n, USER_RW) else At(s.phys, t, l)
    {
      assert SlotOk(s, role, q) && SlotOk(s, role, p);
      assert TableOk(s.phys, role, s.procs[q].dir.value, q, k);
      if (q, k) != (p, i) {
        assert At(s'.phys, s.procs[q].dir.value, k) == At(s.phys, s.procs[q].dir.value, k);
      }
    }
  }

  lemma MapTableShape(s: Sys, role: seq<Role>, p: int, i: int, j: int, t: int, n: int)
    requires CanMapTable(s, role, p, i, j, t, n) && BlankBut(s.phys, t, j)
    ensures Shape(AfterMapTable(s, role, p, i, j, t, n), MapTableRole(role, p, i, t, n))
  {
    var s' := AfterMapTable(s, role, p, i, j, t, n);
    var role' := MapTableRole(role, p, i, t, n);
    assert SlotOk(s, role, p);
    forall q | 0 <= q < |s'.procs| ensures SlotOk(s', role', q) {
      assert SlotOk(s, role, q);
      if s.procs[q].live {
        var d := s.procs[q].dir.value;
        forall k | 0 <= k < USER_DIRS ensures TableOk(s'.phys, role', d, q, k) {
          assert TableOk(s.phys, role, d, q, k);
          if (q, k) != (p, i) {
            var u := At(s.phys, d, k);
            assert At(s'.phys, d, k) == u;
            if u != ZERO {
              assert s'.phys[u.frame] == s.phys[u.frame];
              forall l | 0 <= l < ENTRIES ensures PteOk(role', At(s'.phys, u.frame, l)) {
                assert PteOk(role, At(s.phys, u.frame, l));
              }
            }
          } else {
            assert s'.phys[t] == s.phys[t][j := Word(n, USER_RW)];
            forall l | 0 <= l < ENTRIES ensures PteOk(role', At(s'.phys, t, l)) {
              assert l != j ==> At(s.phys, t, l) == ZERO;
            }
          }
        }
      }
    }
  }

  lemma MapTableRefs(s: Sys, role: seq<Role>, p: int, i: int, j: int, t: int, n: int)
    requires CanMapTable(s, role, p, i, j, t, n) && BlankBut(s.phys, t, j)
    ensures var s' := AfterMapTable(s, role, p, i, j, t, n);
            && Refs(s', n) == {(p, i, j)}
            && forall f :: f != n ==> Refs(s', f) == set x | x in Refs(s, f) && (x.0, x.1) != (p, i)
  {
    var s' := AfterMapTable(s, role, p, i, j, t, n);
    MapTableEntries(s, role, p, i, j, t, n);
    OnlyDataNamed(s, role, n);
    forall x ensures x in Refs(s', n) <==> x == (p, i, j) {
      RefsMember(s', n, x.0, x.1, x.2);
      RefsMember(s, n, x.0, x.1, x.2);
    }
    forall f | f != n ensures Refs(s', f) == set x | x in Refs(s, f) && (x.0, x.1) != (p, i) {
      forall x: (int, int, int) ensures x in Refs(s', f) <==> x in Refs(s, f) && (x.0, x.1) != (p, i) {
        RefsMember(s', f, x.0, x.1, x.2);
        RefsMember(s, f, x.0, x.1, x.2);
      }
    }
  }

  lemma MapTableExclusive(s: Sys, role: seq<Role>, p: int, i: int, j: int, t: int, n: int)
    requires Inv(s, role) && CanMapTable(s, role, p, i, j, t, n) && BlankBut(s.phys, t, j)
    ensures var s' := AfterMapTable(s, role, p, i, j, t, n);
            forall q, k, l :: Live(s', q) && Mapped(s', q, k, l) ==> ExclusiveOk(s', q, k, l)
  {
    var s' := AfterMapTable(s, role, p, i, j, t, n);
    MapTableEntries(s, role, p, i, j, t, n);
    MapTableRefs(s, role, p, i, j, t, n);
    forall q, k, l | Live(s', q) && Mapped(s', q, k, l) ensures ExclusiveOk(s', q, k, l) {
      if (q, k, l) != (p, i, j) {
        assert (q, k) != (p, i) && Mapped(s, q, k, l) && ExclusiveOk(s, q, k, l);
        MappedFrame(s, role, q, k, l);
      }
    }
  }

  lemma MapTableOtherViews(s: Sys, role: seq<Role>, p: int, i: int, j: int, t: int, n: int)
    requires CanMapTable(s, role, p, i, j, t, n)
    ensures var s' := AfterMapTable(s, role, p, i, j, t, n);
            && (forall q, k, l :: Live(s, q) && 0 <= k < USER_DIRS && 0 <= l < ENTRIES && (q, k) != (p, i) ==>
                      SamePage(s', q, s, q, k, l))
            && PageOf(s', p, i, j) == s.phys[n]
  {
    MapTableEntries(s, role, p, i, j, t, n);
    assert SlotOk(s, role, p);
    var s' := AfterMapTable(s, role, p, i, j, t, n);
    forall q, k, l | Live(s, q) && 0 <= k < USER_DIRS && 0 <= l < ENTRIES && (q, k) != (p, i)
      ensures SamePage(s', q, s, q, k, l)
    {
      if Entry(s, q, k, l) != ZERO { MappedFrame(s, role, q, k, l); }
    }
  }

  lemma RowReplaced(s: Sys, s': Sys, p: int, i: int, j: int, c: Contents)
    requires 0 <= i < USER_DIRS && 0 <= j < ENTRIES
    requires Entry(s', p, i, j) != ZERO && PageOf(s', p, i, j) == c
    requires forall l :: 0 <= l < ENTRIES && l != j ==> Entry(s', p, i, l) == ZERO
    requires forall k, l :: 0 <= k < USER_DIRS && 0 <= l < ENTRIES && k != i ==> SamePage(s', p, s, p, k, l)
    ensures View(s', p) == WithoutRow(View(s, p), i)[(i, j) := c]
  {
    var v: Space := WithoutRow(View(s, p), i)[(i, j) := c];
    var v' := View(s', p);
    forall pg: Page2 ensures pg in v <==> pg in v' {
      if 0 <= pg.0 < USER_DIRS && 0 <= pg.1 < ENTRIES && pg.0 != i {
        assert SamePage(s', p, s, p, pg.0, pg.1);
      }
    }
    forall pg: Page2 | pg in v ensures v[pg] == v'[pg] {
      if pg.0 != i {
        assert SamePage(s', p, s, p, pg.0, pg.1);
      }
    }
  }

  lemma MapTableViews(s: Sys, role: seq<Role>, p: int, i: int, j: int, t: int, n: int)
    requires CanMapTable(s, role, p, i, j, t, n) && BlankBut(s.phys, t, j)
    ensures Abs(AfterMapTable(s, role, p, i, j, t, n)) == EagerMapTable(Abs(s), p, (i, j), s.phys[n])
  {
    var s' := AfterMapTable(s, role, p, i, j, t, n);
    MapTableEntries(s, role, p, i, j, t, n);
    MapTableOtherViews(s, role, p, i, j, t, n);
    forall q | Live(s, q) && q != p ensures View(s', q) == View(s, q) {
      SameView(s', q, s, q);
    }
    RowReplaced(s, s', p, i, j, s.phys[n]);
    assert Abs(s').Keys == EagerMapTable(Abs(s), p, (i, j), s.phys[n]).Keys;
  }

  /** Over a blank frame, the new table adds exactly one page, in place of its row, and keeps
      the invariant. */
  lemma MapTableKeeps(s: Sys, role: seq<Role>, p: int, i: int, j: int, t: int, n: int)
    requires Inv(s, role) && CanMapTable(s, role, p, i, j, t, n) && BlankBut(s.phys, t, j)
    ensures Inv(AfterMapTable(s, role, p, i, j, t, n), MapTableRole(role, p, i, t, n))
    ensures Abs(AfterMapTable(s, role, p, i, j, t, n)) == EagerMapTable(Abs(s), p, (i, j), s.phys[n])
  {
    var s' := AfterMapTable(s, role, p, i, j, t, n);
    var role' := MapTableRole(role, p, i, t, n);
    MapTableShape(s, role, p, i, j, t, n);
    MapTableViews(s, role, p, i, j, t, n);
    MapTableExclusive(s, role, p, i, j, t, n);
    MapTableRefs(s, role, p, i, j, t, n);
    forall f | 0 <= f < |role| && role'[f] == Data ensures CountOk(s', f) {
      if f != n {
        assert CountOk(s, f);
        SubsetCard(Refs(s', f), Refs(s, f));
      }
    }
  }

  /** The new table adds exactly the one page it was made for, in place of its row, if and only
      if the frame it was given was blank: stale words in a recycled frame become live mappings. */
  lemma MapTableExact(s: Sys, role: seq<Role>, p: int, i: int, j: int, t: int, n: int)
    requires CanMapTable(s, role, p, i, j, t, n)
    ensures View(AfterMapTable(s, role, p, i, j, t, n), p) == WithoutRow(View(s, p), i)[(i, j) := s.phys[n]] <==>
            BlankBut(s.phys, t, j)
  {
    var s' := AfterMapTable(s, role, p, i, j, t, n);
    if BlankBut(s.phys, t, j) {
      MapTableViews(s, role, p, i, j, t, n);
      assert Abs(s')[p] == View(s', p);
    } else {
      MapTableEntries(s, role, p, i, j, t, n);
      var l :| 0 <= l < ENTRIES && l != j && At(s.phys, t, l) != ZERO;
      assert Entry(s', p, i, l) != ZERO;
      assert (i, l) in View(s', p);
      assert (i, l) !in WithoutRow(View(s, p), i);
    }
  }

  /** Where the directory had no table, there was no row to lose. */
  lemma NoRowLost(s: Sys, p: int, i: int)
    requires Live(s, p) && s.procs[p].dir.Some? && At(s.phys, s.procs[p].dir.value, i) == ZERO
    ensures WithoutRow(View(s, p), i) == View(s, p)
  {
    var v := View(s, p);
    forall pg | pg in v ensures pg.0 != i { assert Entry(s, p, pg.0, pg.1) != ZERO; }
  }

  // ----- exit

  /** Every frame in `gone` given back. */
  function ReleasedAll(m: seq<Page>, gone: set<int>): (r: seq<Page>) {
    seq(|m|, f requires 0 <= f < |m| => if f in gone then m[f].(addr := PageBase(m[f].addr)) else m[f])
  }

  /** The table frames in the first `n` entries of directory `d`. */
  ghost function TableFrames(phys: seq<Contents>, d: int, n: int): set<int> {
    set i | 0 <= i < n && At(phys, d, i) != ZERO :: At(phys, d, i).frame
  }

  lemma TableFramesStep(phys: seq<Contents>, d: int, n: nat)
    ensures TableFrames(phys, d, n + 1) ==
            TableFrames(phys, d, n) + if At(phys, d, n) != ZERO then {At(phys, d, n).frame as int} else {}
  {
    forall f
      ensures f in TableFrames(phys, d, n + 1) <==>
              f in TableFrames(phys, d, n) || (At(phys, d, n) != ZERO && f == At(phys, d, n).frame)
    {
      if f in TableFrames(phys, d, n + 1) {
        var i :| 0 <= i < n + 1 && At(phys, d, i) != ZERO && At(phys, d, i).frame == f;
        assert i < n ==> f in TableFrames(phys, d, n);
      }
    }
  }

  ghost function ExitFrames(s: Sys, p: int): set<int>
    requires 0 <= p < |s.procs| && s.procs[p].dir.Some?
  {
    TableFrames(s.phys, s.procs[p].dir.value, USER_DIRS) + {s.procs[p].kstack}
  }

  ghost function AfterExit(s: Sys, p: int): Sys
    requires 0 <= p < |s.procs| && s.procs[p].dir.Some?
  {
    s.(mem := ReleasedAll(s.mem, ExitFrames(s, p)), procs := s.procs[p := s.procs[p].(live := false)])
  }

  ghost function ExitRole(s: Sys, role: seq<Role>, p: int): seq<Role>
    requires 0 <= p < |s.procs| && s.procs[p].dir.Some?
  {
    seq(|role|, f requires 0 <= f < |role| => if f in ExitFrames(s, p) then Free else role[f])
  }

  lemma ExitFramesRole(s: Sys, role: seq<Role>, p: int, f: int)
    requires Shape(s, role) && Live(s, p)
    ensures s.procs[p].dir.Some?
    ensures f in ExitFrames(s, p) ==> 0 <= f < |role| && (role[f] == Stack(p) || exists i :: role[f] == Table(p, i))
  {
    assert SlotOk(s, role, p);
    if f in TableFrames(s.phys, s.procs[p].dir.value, USER_DIRS) {
      var i :| 0 <= i < USER_DIRS && At(s.phys, s.procs[p].dir.value, i) != ZERO
               && At(s.phys, s.procs[p].dir.value, i).frame == f;
      assert TableOk(s.phys, role, s.procs[p].dir.value, p, i);
    }
  }

  lemma ExitShape(s: Sys, role: seq<Role>, p: int)
    requires Shape(s, role) && Live(s, p)
    ensures s.procs[p].dir.Some? && Shape(AfterExit(s, p), ExitRole(s, role, p))
  {
    assert SlotOk(s, role, p);
    var s', role' := AfterExit(s, p), ExitRole(s, role, p);
    forall f ensures f in ExitFrames(s, p) ==> 0 <= f < |role| && (role[f] == Stack(p) || exists i :: role[f] == Table(p, i)) {
      ExitFramesRole(s, role, p, f);
    }
    forall q | 0 <= q < |s'.procs| ensures SlotOk(s', role', q) {
      assert SlotOk(s, role, q);
      if s'.procs[q].live {
        forall k | 0 <= k < USER_DIRS ensures TableOk(s'.phys, role', s.procs[q].dir.value, q, k) {
          assert TableOk(s.phys, role, s.procs[q].dir.value, q, k);
        }
      }
    }
  }

  lemma ExitRefs(s: Sys, p: int)
    requires Live(s, p) && s.procs[p].dir.Some?
    ensures forall f :: Refs(AfterExit(s, p), f) == set x | x in Refs(s, f) && x.0 != p
  {
    forall f ensures Refs(AfterExit(s, p), f) == set x | x in Refs(s, f) && x.0 != p {}
  }

  lemma ExitViews(s: Sys, role: seq<Role>, p: int)
    requires Shape(s, role) && Live(s, p)
    ensures s.procs[p].dir.Some? && Abs(AfterExit(s, p)) == EagerExit(Abs(s), p)
  {
    assert SlotOk(s, role, p);
    var s' := AfterExit(s, p);
    forall q | Live(s', q) ensures View(s', q) == View(s, q) {}
    assert Abs(s') == EagerExit(Abs(s), p);
  }

  /** Exit returns the tables and the kernel stack, and removes just that address space. */
  lemma ExitKeeps(s: Sys, role: seq<Role>, p: int)
    requires Inv(s, role) && Live(s, p)
    ensures s.procs[p].dir.Some? && Inv(AfterExit(s, p), ExitRole(s, role, p))
    ensures Abs(AfterExit(s, p)) == EagerExit(Abs(s), p)
  {
    assert SlotOk(s, role, p);
    ExitShape(s, role, p);
    var s', role' := AfterExit(s, p), ExitRole(s, role, p);
    ExitRefs(s, p);
    forall f | 0 <= f < |role| && role'[f] == Data ensures CountOk(s', f) {
      assert CountOk(s, f);
      assert s'.mem[f].count == s.mem[f].count;
      SubsetCard(Refs(s', f), Refs(s, f));
    }
    forall q, k, l | Live(s', q) && Mapped(s', q, k, l) ensures ExclusiveOk(s', q, k, l) {
      assert ExclusiveOk(s, q, k, l);
    }
    ExitViews(s, role, p);
  }

  /** A table given back by exit keeps its entries. It is the next frame handed out if and only
      if every frame below it stays in use, and a stack page mapped over it then would bring
      the dead process's pages back into view. */
  lemma ExitLeavesStaleTable(s: Sys, role: seq<Role>, p: int, i: int, j: int, l: int)
    requires Shape(s, role) && Live(s, p) && Mapped(s, p, i, j) && l != j
    ensures s.procs[p].dir.Some?
    ensures var s' := AfterExit(s, p); var t := TableFrame(s, p, i);
            && 0 <= t < |s'.mem| && !Used(s'.mem[t]) && !BlankBut(s'.phys, t, l)
            && (IsFirstFree(s'.mem, t) <==> forall f :: 0 <= f < t ==> Used(s.mem[f]) && f !in ExitFrames(s, p))
  {
    MappedFrame(s, role, p, i, j);
    var s', t := AfterExit(s, p), TableFrame(s, p, i);
    assert t in ExitFrames(s, p);
    assert At(s'.phys, t, j) != ZERO;
    forall f | 0 <= f < t ensures Used(s'.mem[f]) <==> Used(s.mem[f]) && f !in ExitFrames(s, p) {}
  }

  /** Six frames: two of the kernel, and a directory, a table, a kernel stack and one page of process 1. */
  ghost function OnePage(): Moment {
    var blank: Contents := seq(1024, _ => ZERO);
    Moment(Sys(seq(6, f requires 0 <= f < 6 => Page(Word(f, MP_USE), 1)),
               [blank, blank, blank[0 := Word(3, USER_RW)], blank[0 := Word(5, USER_RW)], blank, blank],
               [Proc(false, None, 0), Proc(true, Some(2), 4)]),
           [Kernel, Kernel, Directory(1), Table(1, 0), Stack(1), Data])
  }

  lemma OnePageEntries(i: int, j: int)
    requires 0 <= i < USER_DIRS && 0 <= j < ENTRIES
    ensures Entry(OnePage().sys, 1, i, j) == if i == 0 && j == 0 then Word(5, USER_RW) else ZERO
  {
  }

  lemma OnePageShape()
    ensures Shape(OnePage().sys, OnePage().role)
  {
    var s, role := OnePage().sys, OnePage().role;
    forall f | 0 <= f < 6 ensures Used(s.mem[f]) {}
    forall i | 0 <= i < USER_DIRS ensures TableOk(s.phys, role, 2, 1, i) {}
    assert SlotOk(s, role, 0) && SlotOk(s, role, 1);
  }

  lemma OnePageRefs()
    ensures Refs(OnePage().sys, 5) == {(1, 0, 0)}
  {
    var s := OnePage().sys;
    forall x ensures x in Refs(s, 5) <==> x == (1, 0, 0) {
      RefsMember(s, 5, x.0, x.1, x.2);
      if x.0 == 1 && 0 <= x.1 < USER_DIRS && 0 <= x.2 < ENTRIES { OnePageEntries(x.1, x.2); }
    }
  }

  lemma OnePageOk()
    ensures Inv(OnePage().sys, OnePage().role)
  {
    OnePageShape();
    OnePageRefs();
    var s := OnePage().sys;
    forall p, i, j | Live(s, p) && Mapped(s, p, i, j) ensures ExclusiveOk(s, p, i, j) {
      OnePageEntries(i, j);
    }
  }

  /** It happens: in a sound state, exit makes a table that is not blank the next frame out. */
  lemma StaleTableNext()
    ensures var s := OnePage().sys;
            && Inv(s, OnePage().role) && Live(s, 1) && s.procs[1].dir.Some?
            && IsFirstFree(AfterExit(s, 1).mem, 3) && !BlankBut(AfterExit(s, 1).phys, 3, 1023)
  {
    OnePageOk();
    OnePageEntries(0, 0);
    var s := OnePage().sys;
    assert TableFrames(s.phys, 2, USER_DIRS) == {3};
    ExitLeavesStaleTable(s, OnePage().role, 1, 0, 0, 1023);
  }

  // ----- frames the kernel takes for itself (kmalloc)

  /** Frame `f`, which no process has, may change in use, role and contents. */
  ghost predicate KernelFrame(s: Sys, role: seq<Role>, s': Sys, role': seq<Role>, f: int)
    requires 0 <= f < |role| == |s.mem| == |s'.mem| == |role'|
  {
    && f != SWAPPER && (role[f] == Free || role[f] == Kernel) && (role'[f] == Free || role'[f] == Kernel)
    && s'.mem[f].addr.frame == f && (role'[f] == Free <==> !Used(s'.mem[f]))
  }

  /** Nothing changes but frames that no process has. */
  ghost predicate KernelChange(s: Sys, role: seq<Role>, s': Sys, role': seq<Role>) {
    && Shape(s, role) && s'.procs == s.procs && |s'.mem| == |s'.phys| == |role'| == |role|
    && forall f :: 0 <= f < |role| ==>
         || (s'.mem[f] == s.mem[f] && s'.phys[f] == s.phys[f] && role'[f] == role[f])
         || KernelFrame(s, role, s', role', f)
  }

  lemma KernelTable(s: Sys, role: seq<Role>, s': Sys, role': seq<Role>, p: int, i: int)
    requires KernelChange(s, role, s', role') && Live(s, p) && 0 <= i < USER_DIRS
    ensures s.procs[p].dir.Some? && TableOk(s'.phys, role', s.procs[p].dir.value, p, i)
    ensures forall j :: 0 <= j < ENTRIES ==> Entry(s', p, i, j) == Entry(s, p, i, j)
  {
    assert SlotOk(s, role, p);
    var d := s.procs[p].dir.value;
    assert TableOk(s.phys, role, d, p, i);
    assert At(s'.phys, d, i) == At(s.phys, d, i);
    var t := At(s.phys, d, i);
    if t != ZERO {
      assert s'.phys[t.frame] == s.phys[t.frame];
      forall j | 0 <= j < ENTRIES ensures PteOk(role', At(s'.phys, t.frame, j)) {
        assert PteOk(role, At(s.phys, t.frame, j));
      }
    }
  }

  lemma KernelShape(s: Sys, role: seq<Role>, s': Sys, role': seq<Role>)
    requires KernelChange(s, role, s', role')
    ensures Shape(s', role')
    ensures forall p, i, j :: Live(s, p) && 0 <= i < USER_DIRS && 0 <= j < ENTRIES ==> Entry(s', p, i, j) == Entry(s, p, i, j)
  {
    forall p | 0 <= p < |s.procs| ensures SlotOk(s', role', p) {
      assert SlotOk(s, role, p);
      if s.procs[p].live {
        forall i | 0 <= i < USER_DIRS ensures TableOk(s'.phys, role', s.procs[p].dir.value, p, i) {
          KernelTable(s, role, s', role', p, i);
        }
      }
    }
    forall p, i, j | Live(s, p) && 0 <= i < USER_DIRS && 0 <= j < ENTRIES ensures Entry(s', p, i, j) == Entry(s, p, i, j) {
      KernelTable(s, role, s', role', p, i);
    }
  }

  lemma KernelViews(s: Sys, role: seq<Role>, s': Sys, role': seq<Role>)
    requires KernelChange(s, role, s', role')
    ensures Abs(s') == Abs(s)
  {
    KernelShape(s, role, s', role');
    forall p | Live(s, p) ensures View(s', p) == View(s, p) {
      forall i, j | 0 <= i < USER_DIRS && 0 <= j < ENTRIES ensures SamePage(s', p, s, p, i, j) {
        if Entry(s, p, i, j) != ZERO { MappedFrame(s, role, p, i, j); }
      }
      SameView(s', p, s, p);
    }
  }

  /** What the kernel does with its own frames, processes do not see. */
  lemma KernelKeeps(s: Sys, role: seq<Role>, s': Sys, role': seq<Role>)
    requires Inv(s, role) && KernelChange(s, role, s', role')
    ensures Inv(s', role') && Abs(s') == Abs(s)
  {
    KernelShape(s, role, s', role');
    forall f ensures Refs(s', f) == Refs(s, f) {}
    forall f | 0 <= f < |role'| && role'[f] == Data ensures CountOk(s', f) { assert CountOk(s, f); }
    forall p, i, j | Live(s', p) && Mapped(s', p, i, j) ensures ExclusiveOk(s', p, i, j) {
      assert Mapped(s, p, i, j) && ExclusiveOk(s, p, i, j);
    }
    KernelViews(s, role, s', role');
  }
}
