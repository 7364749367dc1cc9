/** How far reference counts are off, exactly: every step of memory keeps a page's count equal to
    its entries plus the entries that exits and overwritten mappings have dropped. So a count
    is exact as long as nothing was dropped, and then a fault copies a page only if it is shared. */
module ExactCounts {
  import opened Counting
  import opened Words
  import opened Frames
  import opened AddressSpaces
  import opened AddressSteps
  import opened ForkSteps
  import opened UncountedPages
  import opened MemoryRuns

  /** By how much frame `f` is counted too high. */
  ghost function Slack(s: Sys, f: int): int
    requires 0 <= f < |s.mem|
  {
    s.mem[f].count - |Refs(s, f)|
  }

  /** The step ends the entry `x` without lowering the count of the frame it names: its process
      exits, or a new page or table is mapped over it. */
  predicate Drops(e: Event, x: (int, int, int)) {
    match e
    case Exit(p) => x.0 == p
    case Map(p, i, j, _, _) => x == (p, i, j)
    case MapTable(p, i, _, _, _, _) => x.0 == p && x.1 == i
    case _ => false
  }

  ghost function Dropped(s: Sys, e: Event, f: int): set<(int, int, int)> { set x | x in Refs(s, f) && Drops(e, x) }

  lemma SplitCard<T>(whole: set<T>, part: set<T>, rest: set<T>)
    requires part <= whole && rest == whole - part
    ensures |whole| == |part| + |rest|
  {
  }

  lemma SlackFault(s: Sys, role: seq<Role>, p: int, i: int, j: int, n: int, f: int)
    requires Inv(s, role) && CanFault(s, role, p, i, j, n) && 0 <= f < |role| && role[f] == Data
    ensures var s' := AfterFault(s, role, p, i, j, n); f < |s'.mem| && Slack(s', f) == Slack(s, f)
  {
    MappedFrame(s, role, p, i, j);
    FaultRefs(s, role, p, i, j, n, f);
    var o := Entry(s, p, i, j).frame;
    assert (p, i, j) in Refs(s, o) && CountOk(s, o);
    if s.mem[o].count != 1 && f == o {
      SplitCard(Refs(s, o), {(p, i, j)}, Refs(s, o) - {(p, i, j)});
    }
  }

  lemma SlackFork(s: Sys, role: seq<Role>, fk: Fork, f: int)
    requires Inv(s, role) && Forked(s, role, fk) && CountsFit(s, fk.d) && 0 <= f < |role| && role[f] == Data
    ensures f < |AfterFork(s, fk).mem| && Slack(AfterFork(s, fk), f) == Slack(s, f)
  {
    var n := |Named(s.phys, fk.d, USER_DIRS, f)|;
    ForkRefs(s, role, fk, f);
    assert AfterFork(s, fk).mem[f] == Shared(s.mem[f], n) by { SharedUse(s.mem[f], n); }
    AdvanceWraps(s.mem[f].count, n);
  }

  lemma SlackMap(s: Sys, role: seq<Role>, p: int, i: int, j: int, n: int, c: Contents, f: int)
    requires Inv(s, role) && CanMap(s, role, p, i, j, n) && 0 <= f < |role| && role[f] == Data
    ensures var s' := AfterMap(s, role, p, i, j, n);
            f < |s'.mem| && Slack(s', f) == Slack(s, f) + |Dropped(s, Map(p, i, j, n, c), f)|
  {
    var s' := AfterMap(s, role, p, i, j, n);
    var gone := Dropped(s, Map(p, i, j, n, c), f);
    MapEntries(s, role, p, i, j, n);
    forall x ensures x in Refs(s', f) <==> x in Refs(s, f) - gone {
      RefsMember(s, f, x.0, x.1, x.2);
      RefsMember(s', f, x.0, x.1, x.2);
    }
    SplitCard(Refs(s, f), gone, Refs(s', f));
  }

  lemma SlackMapTable(s: Sys, role: seq<Role>, p: int, i: int, j: int, t: int, n: int, c: Contents, f: int)
    requires Inv(s, role) && CanMapTable(s, role, p, i, j, t, n) && BlankBut(s.phys, t, j)
    requires 0 <= f < |role| && role[f] == Data
    ensures var s' := AfterMapTable(s, role, p, i, j, t, n);
            f < |s'.mem| && Slack(s', f) == Slack(s, f) + |Dropped(s, MapTable(p, i, j, t, n, c), f)|
  {
    var s' := AfterMapTable(s, role, p, i, j, t, n);
    var gone := Dropped(s, MapTable(p, i, j, t, n, c), f);
    MapTableRefs(s, role, p, i, j, t, n);
    assert Refs(s', f) == Refs(s, f) - gone;
    SplitCard(Refs(s, f), gone, Refs(s', f));
  }

  lemma SlackExit(s: Sys, role: seq<Role>, p: int, f: int)
    requires Inv(s, role) && Live(s, p) && s.procs[p].dir.Some? && 0 <= f < |role| && role[f] == Data
    ensures var s' := AfterExit(s, p); f < |s'.mem| && Slack(s', f) == Slack(s, f) + |Dropped(s, Exit(p), f)|
  {
    var s' := AfterExit(s, p);
    ExitRefs(s, p);
    assert Refs(s', f) == Refs(s, f) - Dropped(s, Exit(p), f);
    SplitCard(Refs(s, f), Dropped(s, Exit(p), f), Refs(s', f));
  }

  lemma SlackKernel(s: Sys, role: seq<Role>, s': Sys, role': seq<Role>, f: int)
    requires Inv(s, role) && KernelChange(s, role, s', role') && 0 <= f < |role| && role[f] == Data
    ensures f < |s'.mem| && Slack(s', f) == Slack(s, f)
  {
    KernelShape(s, role, s', role');
    assert Refs(s', f) == Refs(s, f);
  }

  lemma SlackElse(a: Moment, e: Event, b: Moment, f: int)
    requires Inv(a.sys, a.role) && Step(a, e, b) && 0 <= f < |a.role| && a.role[f] == Data
    requires e.TakeDir? || e.Store? || e.KernelTake? || e.KernelStore? || e.KernelRelease?
    ensures f < |b.sys.mem| && Slack(b.sys, f) == Slack(a.sys, f)
  {
    if e.TakeDir? {
      assert Refs(b.sys, f) == Refs(a.sys, f);
    } else if e.Store? {
      StoreRefs(a.sys, a.role, e.p, e.i, e.j, e.o, e.w);
    } else {
      KernelStep(a, e, b, e.f);
      SlackKernel(a.sys, a.role, b.sys, b.role, f);
    }
  }

  /** No step takes a page's frame away. */
  lemma PageStays(a: Moment, e: Event, b: Moment, f: int)
    requires Shape(a.sys, a.role) && Step(a, e, b) && 0 <= f < |a.role| && a.role[f] == Data
    ensures f < |b.role| && b.role[f] == Data
  {
    var s, role := a.sys, a.role;
    match e
    case DoFork(fk) => SharedUse(s.mem[f], |Named(s.phys, fk.d, USER_DIRS, f)|);
    case Exit(p) => ExitFramesRole(s, role, p, f);
    case _ =>
  }

  /** A page's count is off by exactly what the step drops. */
  lemma StepSlack(a: Moment, e: Event, b: Moment, f: int)
    requires Inv(a.sys, a.role) && Step(a, e, b) && Clean(a, e) && 0 <= f < |a.role| && a.role[f] == Data
    ensures f < |a.sys.mem| && f < |b.sys.mem| && Slack(b.sys, f) == Slack(a.sys, f) + |Dropped(a.sys, e, f)|
  {
    var s, role := a.sys, a.role;
    if e.DoFork? {
      SlackFork(s, role, e.fk, f);
    } else if e.Fault? {
      SlackFault(s, role, e.p, e.i, e.j, e.n, f);
    } else if e.Map? {
      SlackMap(s, role, e.p, e.i, e.j, e.n, e.c, f);
    } else if e.MapTable? {
      SlackMapTable(s, role, e.p, e.i, e.j, e.t, e.n, e.c, f);
    } else if e.Exit? {
      SlackExit(s, role, e.p, f);
    } else {
      SlackElse(a, e, b, f);
    }
  }

  /** Pages come from faults and mappings. */
  lemma NewPage(a: Moment, e: Event, b: Moment, f: int)
    requires Shape(a.sys, a.role) && Step(a, e, b)
    requires 0 <= f < |a.role| && a.role[f] != Data && f < |b.role| && b.role[f] == Data
    ensures (e.Fault? || e.Map? || e.MapBare? || e.MapTable?) && f == e.n
    ensures e.Fault? ==> var o := Entry(a.sys, e.p, e.i, e.j).frame; o < |a.sys.mem| && a.sys.mem[o].count != 1
  {
  }

  /** A frame that becomes a page is counted exactly. */
  lemma NewSlack(a: Moment, e: Event, b: Moment, f: int)
    requires Inv(a.sys, a.role) && Step(a, e, b) && Clean(a, e)
    requires 0 <= f < |a.role| && a.role[f] != Data && f < |b.role| && b.role[f] == Data
    ensures f < |b.sys.mem| && Slack(b.sys, f) == 0 && |Refs(b.sys, f)| == 1
  {
    var s, role := a.sys, a.role;
    NewPage(a, e, b, f);
    if e.Fault? {
      MappedFrame(s, role, e.p, e.i, e.j);
      FaultRefs(s, role, e.p, e.i, e.j, e.n, f);
      assert Refs(b.sys, f) == {(e.p, e.i, e.j)};
    } else if e.Map? {
      MapEntries(s, role, e.p, e.i, e.j, e.n);
      OnlyDataNamed(s, role, e.n);
      assert Refs(b.sys, f) == {(e.p, e.i, e.j)};
    } else {
      MapTableRefs(s, role, e.p, e.i, e.j, e.t, e.n);
      assert Refs(b.sys, f) == {(e.p, e.i, e.j)};
    }
  }

  /** The entries for frame `f` that the first `n` steps drop. */
  ghost function Lost(ms: seq<Moment>, es: seq<Event>, f: int, n: nat): nat
    requires n <= |es| && n <= |ms|
  {
    if n == 0 then 0 else Lost(ms, es, f, n - 1) + |Dropped(ms[n - 1].sys, es[n - 1], f)|
  }

  lemma InvAt(ms: seq<Moment>, es: seq<Event>, n: nat)
    requires Run(ms, es) && Inv(ms[0].sys, ms[0].role) && n <= |es| && CleanTo(ms, es, n)
    ensures Inv(ms[n].sys, ms[n].role)
  {
    assert CleanTo(ms[..n + 1], es[..n], n);
    RunRefinesEager(ms[..n + 1], es[..n]);
  }

  /** Conservation: over a clean run, what a page's count is too high by grows by exactly the
      entries that exits and new mappings dropped. Counts never come down again. */
  lemma {:induction false} RunSlack(ms: seq<Moment>, es: seq<Event>, f: int, n: nat)
    requires Run(ms, es) && Inv(ms[0].sys, ms[0].role) && n <= |es| && CleanTo(ms, es, n)
    requires 0 <= f < |ms[0].role| && ms[0].role[f] == Data
    ensures f < |ms[n].role| && ms[n].role[f] == Data && f < |ms[n].sys.mem| && f < |ms[0].sys.mem|
    ensures Slack(ms[n].sys, f) == Slack(ms[0].sys, f) + Lost(ms, es, f, n)
    decreases n
  {
    if n > 0 {
      RunSlack(ms, es, f, n - 1);
      InvAt(ms, es, n - 1);
      assert Step(ms[n - 1], es[n - 1], ms[n]) && Clean(ms[n - 1], es[n - 1]);
      StepSlack(ms[n - 1], es[n - 1], ms[n], f);
      PageStays(ms[n - 1], es[n - 1], ms[n], f);
    }
  }

  ghost predicate Exact(a: Moment) {
    |a.role| <= |a.sys.mem| && forall f :: 0 <= f < |a.role| && a.role[f] == Data ==> Slack(a.sys, f) == 0
  }

  /** Nothing is dropped: no exit, and no mapping over a page. */
  ghost predicate Gentle(s: Sys, e: Event) {
    && !e.Exit?
    && (e.Map? ==> Entry(s, e.p, e.i, e.j) == ZERO)
    && (e.MapTable? ==> forall j :: 0 <= j < ENTRIES ==> Entry(s, e.p, e.i, j) == ZERO)
  }

  lemma StepExactly(a: Moment, e: Event, b: Moment)
    requires Inv(a.sys, a.role) && Step(a, e, b) && Clean(a, e) && Exact(a) && Gentle(a.sys, e)
    ensures Exact(b)
  {
    StepKeeps(a, e, b);
    assert |b.role| == |a.role|;
    forall f | 0 <= f < |b.role| && b.role[f] == Data ensures Slack(b.sys, f) == 0 {
      if a.role[f] == Data {
        StepSlack(a, e, b, f);
        assert Dropped(a.sys, e, f) == {};
      } else {
        NewSlack(a, e, b, f);
      }
    }
  }

  /** While no process exits and nothing is mapped over a page, counts are exact. */
  lemma {:induction false} RunExactly(ms: seq<Moment>, es: seq<Event>, n: nat)
    requires Run(ms, es) && Inv(ms[0].sys, ms[0].role) && Exact(ms[0]) && n <= |es| && CleanTo(ms, es, n)
    requires forall k :: 0 <= k < n ==> Gentle(ms[k].sys, es[k])
    ensures Exact(ms[n])
    decreases n
  {
    if n > 0 {
      RunExactly(ms, es, n - 1);
      InvAt(ms, es, n - 1);
      assert Step(ms[n - 1], es[n - 1], ms[n]) && Clean(ms[n - 1], es[n - 1]);
      StepExactly(ms[n - 1], es[n - 1], ms[n]);
    }
  }

  /** Where the count is exact, a write fault takes a new frame if and only if another entry
      names the old one; the last one left to write takes it over in place. */
  lemma CopiesOnlyShared(s: Sys, role: seq<Role>, p: int, i: int, j: int, n: int)
    requires Inv(s, role) && CanFault(s, role, p, i, j, n) && Slack(s, Entry(s, p, i, j).frame) == 0
    ensures var s', o := AfterFault(s, role, p, i, j, n), Entry(s, p, i, j).frame;
            Entry(s', p, i, j).frame == o <==> Refs(s, o) == {(p, i, j)}
  {
    MappedFrame(s, role, p, i, j);
    FaultEntries(s, role, p, i, j, n);
    var o := Entry(s, p, i, j).frame;
    assert (p, i, j) in Refs(s, o);
    if s.mem[o].count == 1 { Singleton(Refs(s, o), (p, i, j)); }
  }

  /** Two entries share a page: when one has faulted and got its copy, the other keeps the frame. */
  lemma LastSharer(s: Sys, role: seq<Role>, p: int, q: int, i: int, j: int, n: int, m: int)
    requires Inv(s, role) && CanFault(s, role, p, i, j, n) && p != q
    requires Refs(s, Entry(s, p, i, j).frame) == {(p, i, j), (q, i, j)} && Slack(s, Entry(s, p, i, j).frame) == 0
    ensures var s', role' := AfterFault(s, role, p, i, j, n), FaultRole(s, role, p, i, j, n);
            && CanFault(s', role', q, i, j, m)
            && Entry(AfterFault(s', role', q, i, j, m), q, i, j).frame == Entry(s, p, i, j).frame
  {
    var o := Entry(s, p, i, j).frame;
    var s', role' := AfterFault(s, role, p, i, j, n), FaultRole(s, role, p, i, j, n);
    MappedFrame(s, role, p, i, j);
    assert (q, i, j) in Refs(s, o);
    FaultRefs(s, role, p, i, j, n, o);
    SlackFault(s, role, p, i, j, n, o);
    FaultEntries(s, role, p, i, j, n);
    FaultKeeps(s, role, p, i, j, n);
    assert s.mem[o].count == 2;
    assert Refs(s', o) == {(q, i, j)};
    RefsMember(s', o, q, i, j);
    MappedFrame(s', role', q, i, j);
    FaultEntries(s', role', q, i, j, m);
  }

  // ----- the mark of shared frames

  ghost predicate Marked(a: Moment) {
    |a.role| <= |a.sys.mem| &&
    forall f :: 0 <= f < |a.role| && a.role[f] == Data && |Refs(a.sys, f)| > 1 ==> Has(a.sys.mem[f].addr, MP_COW)
  }

  lemma SharedMark(pg: Page, n: nat)
    ensures n > 0 || Has(pg.addr, MP_COW) ==> Has(Shared(pg, n).addr, MP_COW)
  {
    var b := pg.addr.low;
    assert (b | 2) & 2 == 2;
  }

  lemma MarkFork(s: Sys, role: seq<Role>, fk: Fork, f: int)
    requires Forked(s, role, fk) && 0 <= f < |role| && role[f] == Data
    requires |Refs(s, f)| > 1 ==> Has(s.mem[f].addr, MP_COW)
    ensures f < |AfterFork(s, fk).mem|
    ensures |Refs(AfterFork(s, fk), f)| > 1 ==> Has(AfterFork(s, fk).mem[f].addr, MP_COW)
  {
    var n := |Named(s.phys, fk.d, USER_DIRS, f)|;
    SharedMark(s.mem[f], n);
    SharedUse(s.mem[f], n);
    ForkRefs(s, role, fk, f);
    assert AfterFork(s, fk).mem[f] == Shared(s.mem[f], n);
  }

  /** Only a fork adds entries for a page, and only a fault of the one process left takes the mark. */
  lemma MarkElse(a: Moment, e: Event, b: Moment, f: int)
    requires Inv(a.sys, a.role) && Step(a, e, b) && Clean(a, e) && 0 <= f < |a.role| && a.role[f] == Data && !e.DoFork?
    ensures f < |a.sys.mem| && f < |b.sys.mem|
    ensures b.sys.mem[f].count <= a.sys.mem[f].count
    ensures a.sys.mem[f].count != 1 ==> Has(b.sys.mem[f].addr, MP_COW) == Has(a.sys.mem[f].addr, MP_COW)
  {
    var s, role := a.sys, a.role;
    if e.Fault? {
      MappedFrame(s, role, e.p, e.i, e.j);
      assert CountOk(s, Entry(s, e.p, e.i, e.j).frame) && (e.p, e.i, e.j) in Refs(s, Entry(s, e.p, e.i, e.j).frame);
    } else if e.Exit? {
      ExitFramesRole(s, role, e.p, f);
    }
  }

  lemma MarkKept(a: Moment, e: Event, b: Moment, f: int)
    requires Inv(a.sys, a.role) && Marked(a) && Step(a, e, b) && Clean(a, e) && 0 <= f < |a.role| && a.role[f] == Data
    requires f < |b.sys.mem| && |Refs(b.sys, f)| > 1
    ensures Has(b.sys.mem[f].addr, MP_COW)
  {
    var s, role := a.sys, a.role;
    if e.DoFork? {
      MarkFork(s, role, e.fk, f);
    } else {
      StepSlack(a, e, b, f);
      MarkElse(a, e, b, f);
      assert CountOk(s, f);
    }
  }

  /** Every page with more than one entry carries the copy-on-write mark. */
  lemma StepMarked(a: Moment, e: Event, b: Moment)
    requires Inv(a.sys, a.role) && Marked(a) && Step(a, e, b) && Clean(a, e)
    ensures Marked(b)
  {
    StepKeeps(a, e, b);
    forall f | 0 <= f < |b.role| && b.role[f] == Data && |Refs(b.sys, f)| > 1 ensures Has(b.sys.mem[f].addr, MP_COW) {
      if a.role[f] == Data { MarkKept(a, e, b, f); } else { NewSlack(a, e, b, f); }
    }
  }

  /** Entry (q, k, l) is not both writable and marked. */
  ghost predicate PlainIfWritable(s: Sys, q: int, k: int, l: int) {
    var e := Entry(s, q, k, l);
    Has(e, PG_RWW) && e.frame < |s.mem| ==> !Has(s.mem[e.frame].addr, MP_COW)
  }

  ghost predicate Unmarked(s: Sys) {
    forall q, k, l :: Live(s, q) && 0 <= k < USER_DIRS && 0 <= l < ENTRIES ==> PlainIfWritable(s, q, k, l)
  }

  lemma PlainFrame(f: FrameNo, base: Word)
    ensures !Has(Word(f, MP_USE), MP_COW) && !Has(Or(PageBase(base), MP_USE), MP_COW) && !Has(ZERO, PG_RWW)
  {
    assert (0 as bv12 | 1) & 2 == 0;
  }

  lemma UnmarkedFork(s: Sys, role: seq<Role>, fk: Fork, q: int, k: int, l: int)
    requires Inv(s, role) && Unmarked(s) && Forked(s, role, fk)
    requires (Live(s, q) || q == fk.ch) && 0 <= k < USER_DIRS && 0 <= l < ENTRIES
    ensures PlainIfWritable(AfterFork(s, fk), q, k, l)
  {
    ForkEntry(s, role, fk, q, k, l);
    if q == fk.c || q == fk.ch {
      ClearedEntry(role, Entry(s, fk.c, k, l));
    } else if Has(Entry(s, q, k, l), PG_RWW) {
      PlainFrame(0, ZERO);
      var f := Entry(s, q, k, l).frame;
      assert Mapped(s, q, k, l) && ExclusiveOk(s, q, k, l) && PlainIfWritable(s, q, k, l);
      MappedFrame(s, role, q, k, l);
      NamedAreRefs(s, role, fk, f);
      assert Named(s.phys, fk.d, USER_DIRS, f) == {};
      assert AfterFork(s, fk).mem[f] == s.mem[f];
    }
  }

  lemma UnmarkedFault(s: Sys, role: seq<Role>, p: int, i: int, j: int, n: int, q: int, k: int, l: int)
    requires Inv(s, role) && Unmarked(s) && CanFault(s, role, p, i, j, n)
    requires Live(s, q) && 0 <= k < USER_DIRS && 0 <= l < ENTRIES
    ensures PlainIfWritable(AfterFault(s, role, p, i, j, n), q, k, l)
  {
    FaultEntries(s, role, p, i, j, n);
    MappedFrame(s, role, p, i, j);
    PlainFrame(if 0 <= n < MAX_FRAMES then n else 0, s.mem[Entry(s, p, i, j).frame].addr);
    assert PlainIfWritable(s, q, k, l);
    if Entry(s, q, k, l) != ZERO { MappedFrame(s, role, q, k, l); }
  }

  lemma UnmarkedKernel(s: Sys, role: seq<Role>, s': Sys, role': seq<Role>, q: int, k: int, l: int)
    requires Inv(s, role) && Unmarked(s) && KernelChange(s, role, s', role')
    requires Live(s, q) && 0 <= k < USER_DIRS && 0 <= l < ENTRIES
    ensures PlainIfWritable(s', q, k, l)
  {
    KernelShape(s, role, s', role');
    PlainFrame(0, ZERO);
    assert PlainIfWritable(s, q, k, l);
    if Entry(s, q, k, l) != ZERO { MappedFrame(s, role, q, k, l); }
  }

  lemma UnmarkedMap(s: Sys, role: seq<Role>, p: int, i: int, j: int, n: int, q: int, k: int, l: int)
    requires Inv(s, role) && Unmarked(s) && CanMap(s, role, p, i, j, n)
    requires Live(s, q) && 0 <= k < USER_DIRS && 0 <= l < ENTRIES
    ensures PlainIfWritable(AfterMap(s, role, p, i, j, n), q, k, l)
  {
    MapEntries(s, role, p, i, j, n);
    PlainFrame(if n < MAX_FRAMES then n else 0, ZERO);
    assert PlainIfWritable(s, q, k, l);
    if Entry(s, q, k, l) != ZERO { MappedFrame(s, role, q, k, l); }
  }

  lemma UnmarkedMapTable(s: Sys, role: seq<Role>, p: int, i: int, j: int, t: int, n: int, q: int, k: int, l: int)
    requires Inv(s, role) && Unmarked(s) && CanMapTable(s, role, p, i, j, t, n) && BlankBut(s.phys, t, j)
    requires Live(s, q) && 0 <= k < USER_DIRS && 0 <= l < ENTRIES
    ensures PlainIfWritable(AfterMapTable(s, role, p, i, j, t, n), q, k, l)
  {
    MapTableEntries(s, role, p, i, j, t, n);
    PlainFrame(if n < MAX_FRAMES then n else 0, ZERO);
    assert PlainIfWritable(s, q, k, l);
    if Entry(s, q, k, l) != ZERO { MappedFrame(s, role, q, k, l); }
  }

  lemma UnmarkedElse(a: Moment, e: Event, b: Moment, q: int, k: int, l: int)
    requires Inv(a.sys, a.role) && Unmarked(a.sys) && Step(a, e, b) && (e.TakeDir? || e.Store? || e.Exit?)
    requires Live(a.sys, q) && Live(b.sys, q) && 0 <= k < USER_DIRS && 0 <= l < ENTRIES
    ensures PlainIfWritable(b.sys, q, k, l)
  {
    var s, role := a.sys, a.role;
    PlainFrame(0, ZERO);
    assert PlainIfWritable(s, q, k, l);
    if Entry(s, q, k, l) != ZERO { MappedFrame(s, role, q, k, l); }
    if e.Store? {
      StoreEntries(s, role, e.p, e.i, e.j, e.o, e.w);
    } else if e.Exit? && Entry(s, q, k, l) != ZERO {
      ExitFramesRole(s, role, e.p, Entry(s, q, k, l).frame);
    }
  }

  /** No page that a process may write carries the mark: a fault that takes a page over in
      place takes the mark off. */
  lemma StepUnmarked(a: Moment, e: Event, b: Moment)
    requires Inv(a.sys, a.role) && Unmarked(a.sys) && Step(a, e, b) && Clean(a, e)
    ensures Unmarked(b.sys)
  {
    forall q, k, l | Live(b.sys, q) && 0 <= k < USER_DIRS && 0 <= l < ENTRIES ensures PlainIfWritable(b.sys, q, k, l) {
      if e.DoFork? {
        UnmarkedFork(a.sys, a.role, e.fk, q, k, l);
      } else if e.Fault? {
        UnmarkedFault(a.sys, a.role, e.p, e.i, e.j, e.n, q, k, l);
      } else if e.Map? {
        UnmarkedMap(a.sys, a.role, e.p, e.i, e.j, e.n, q, k, l);
      } else if e.MapTable? {
        UnmarkedMapTable(a.sys, a.role, e.p, e.i, e.j, e.t, e.n, q, k, l);
      } else if e.TakeDir? || e.Store? || e.Exit? {
        UnmarkedElse(a, e, b, q, k, l);
      } else {
        KernelStep(a, e, b, e.f);
        UnmarkedKernel(a.sys, a.role, b.sys, b.role, q, k, l);
      }
    }
  }
}
