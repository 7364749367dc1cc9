/** Whole runs of memory operations, against the same run on the eager machine. */
module MemoryRuns {
  import opened Words
  import opened Frames
  import opened AddressSpaces
  import opened AddressSteps
  import opened ForkSteps
  import opened UncountedPages

  /** One memory operation, with the frames it happened to take. */
  datatype Event =
    | TakeDir(ch: int, f: FrameNo)
    | DoFork(fk: Fork)
    | Fault(p: int, i: int, j: int, n: int)
    | Store(p: int, i: int, j: int, o: int, w: Word)
    | Map(p: int, i: int, j: int, n: int, c: Contents)
    | MapBare(p: int, i: int, j: int, n: int, c: Contents)
    | MapTable(p: int, i: int, j: int, t: int, n: int, c: Contents)
    | Exit(p: int)
    | KernelTake(f: FrameNo)
    | KernelStore(f: FrameNo, o: int, w: Word)
    | KernelRelease(f: FrameNo)

  function StoredIn(phys: seq<Contents>, f: int, o: int, w: Word): seq<Contents>
    requires 0 <= f < |phys| && 0 <= o < ENTRIES
  {
    var c: Contents := phys[f][o := w];
    phys[f := c]
  }

  ghost predicate Step(a: Moment, e: Event, b: Moment) {
    var s, role := a.sys, a.role;
    match e
    case TakeDir(ch, f) =>
      CanTakeDir(s, role, ch, f) && b == Moment(AfterDir(s, ch, f), role[f := Directory(ch)])
    case DoFork(fk) =>
      Forked(s, role, fk) && b == Moment(AfterFork(s, fk), fk.role[fk.ks := Stack(fk.ch)])
    case Fault(p, i, j, n) =>
      CanFault(s, role, p, i, j, n) && b == Moment(AfterFault(s, role, p, i, j, n), FaultRole(s, role, p, i, j, n))
    case Store(p, i, j, o, w) =>
      && Live(s, p) && Mapped(s, p, i, j) && 0 <= o < ENTRIES && Entry(s, p, i, j).frame < |s.phys|
      && Has(Entry(s, p, i, j), PG_RWW) && b == Moment(AfterStore(s, p, i, j, o, w), role)
    case Map(p, i, j, n, c) =>
      && CanMap(s, role, p, i, j, n) && c == s.phys[n]
      && b == Moment(AfterMap(s, role, p, i, j, n), role[n := Data])
    case MapBare(p, i, j, n, c) =>
      && CanMap(s, role, p, i, j, n) && |s.mem| <= MAX_FRAMES && c == s.phys[n]
      && b == Moment(AfterBareMap(s, role, p, i, j, n), role[n := Data])
    case MapTable(p, i, j, t, n, c) =>
      && CanMapTable(s, role, p, i, j, t, n) && c == s.phys[n]
      && b == Moment(AfterMapTable(s, role, p, i, j, t, n), MapTableRole(role, p, i, t, n))
    case Exit(p) =>
      Live(s, p) && s.procs[p].dir.Some? && b == Moment(AfterExit(s, p), ExitRole(s, role, p))
    case KernelTake(f) =>
      && 0 <= f < |s.mem| == |role| && |s.mem| <= MAX_FRAMES && !Used(s.mem[f])
      && b == Moment(s.(mem := Taken(s.mem, f)), role[f := Kernel])
    case KernelStore(f, o, w) =>
      && 0 <= f < |s.phys| == |role| && f != SWAPPER && role[f] == Kernel && 0 <= o < ENTRIES
      && b == Moment(s.(phys := StoredIn(s.phys, f, o, w)), role)
    case KernelRelease(f) =>
      && 0 <= f < |s.mem| == |role| && f != SWAPPER && role[f] == Kernel
      && b == Moment(s.(mem := Released(s.mem, f)), role[f := Free])
  }

  /** The same operation with private memory: directories, faults and frames do not exist there. */
  ghost function EagerStep(a: map<int, Space>, e: Event): map<int, Space> {
    match e
    case TakeDir(_, _) => a
    case DoFork(fk) => if fk.c in a then EagerFork(a, fk.c, fk.ch) else a
    case Fault(_, _, _, _) => a
    case Store(p, i, j, o, w) =>
      if p in a && (i, j) in a[p] && 0 <= o < ENTRIES then EagerWrite(a, p, (i, j), o, w) else a
    case Map(p, i, j, _, c) => if p in a then EagerMap(a, p, (i, j), c) else a
    case MapBare(p, i, j, _, c) => if p in a then EagerMap(a, p, (i, j), c) else a
    case MapTable(p, i, j, _, _, c) => if p in a then EagerMapTable(a, p, (i, j), c) else a
    case Exit(p) => EagerExit(a, p)
    case _ => a
  }

  ghost function EagerRun(a: map<int, Space>, es: seq<Event>): map<int, Space> {
    if es == [] then a else EagerStep(EagerRun(a, es[..|es| - 1]), es[|es| - 1])
  }

  // ----- one step

  lemma KernelStep(a: Moment, e: Event, b: Moment, f: FrameNo)
    requires Shape(a.sys, a.role) && Step(a, e, b)
    requires e == KernelTake(f) || (e.KernelStore? && e.f == f) || e == KernelRelease(f)
    ensures KernelChange(a.sys, a.role, b.sys, b.role)
  {
  }

  /** What keeps the counts true: new tables over frames that are blank but for their one entry,
      forks in which no count wraps, and no uncounted page. */
  ghost predicate Clean(a: Moment, e: Event) {
    && (e.MapTable? ==> BlankBut(a.sys.phys, e.t, e.j))
    && (e.DoFork? ==> CountsFit(a.sys, e.fk.d))
    && !e.MapBare?
  }

  lemma StepKeeps(a: Moment, e: Event, b: Moment)
    requires Inv(a.sys, a.role) && Step(a, e, b) && Clean(a, e)
    ensures Inv(b.sys, b.role)
    ensures Abs(b.sys) == EagerStep(Abs(a.sys), e)
  {
    var s, role := a.sys, a.role;
    match e
    case TakeDir(ch, f) => DirKeeps(s, role, ch, f);
    case DoFork(fk) => ForkKeeps(s, role, fk);
    case Fault(p, i, j, n) => FaultKeeps(s, role, p, i, j, n);
    case Store(p, i, j, o, w) => StoreKeeps(s, role, p, i, j, o, w);
    case Map(p, i, j, n, c) => MapKeeps(s, role, p, i, j, n);
    case MapTable(p, i, j, t, n, c) => MapTableKeeps(s, role, p, i, j, t, n);
    case Exit(p) => ExitKeeps(s, role, p);
    case KernelTake(f) => KernelStep(a, e, b, f); KernelKeeps(s, role, b.sys, b.role);
    case KernelStore(f, o, w) => KernelStep(a, e, b, f); KernelKeeps(s, role, b.sys, b.role);
    case KernelRelease(f) => KernelStep(a, e, b, f); KernelKeeps(s, role, b.sys, b.role);
  }

  /** What keeps memory private, true counts or not: a store to a frame that no other entry
      names, or of a word that was there already, and new tables over blank frames. */
  ghost predicate Private(a: Moment, e: Event) {
    && (e.MapTable? ==> BlankBut(a.sys.phys, e.t, e.j))
    && (e.Store? && 0 <= e.o < ENTRIES && Entry(a.sys, e.p, e.i, e.j).frame < |a.sys.phys| ==>
          var f := Entry(a.sys, e.p, e.i, e.j).frame;
          Refs(a.sys, f) == {(e.p, e.i, e.j)} || a.sys.phys[f][e.o] == e.w)
  }

  /** Tables stay well formed even where counts do not. */
  lemma StepShape(a: Moment, e: Event, b: Moment)
    requires Shape(a.sys, a.role) && Step(a, e, b) && Private(a, e)
    ensures Shape(b.sys, b.role)
  {
    var s, role := a.sys, a.role;
    match e
    case TakeDir(ch, f) => DirShape(s, role, ch, f);
    case DoFork(fk) => ForkShape(s, role, fk);
    case Fault(p, i, j, n) => FaultShape(s, role, p, i, j, n);
    case Store(p, i, j, o, w) => StoreEntries(s, role, p, i, j, o, w);
    case Map(p, i, j, n, c) => MapEntries(s, role, p, i, j, n);
    case MapBare(p, i, j, n, c) => BareMapViews(s, role, p, i, j, n);
    case MapTable(p, i, j, t, n, c) => MapTableShape(s, role, p, i, j, t, n);
    case Exit(p) => ExitShape(s, role, p);
    case KernelTake(f) => KernelStep(a, e, b, f); KernelShape(s, role, b.sys, b.role);
    case KernelStore(f, o, w) => KernelStep(a, e, b, f); KernelShape(s, role, b.sys, b.role);
    case KernelRelease(f) => KernelStep(a, e, b, f); KernelShape(s, role, b.sys, b.role);
  }

  lemma TableStepExact(a: Moment, e: Event, b: Moment)
    requires Shape(a.sys, a.role) && Step(a, e, b) && e.MapTable?
    ensures Abs(b.sys) == EagerStep(Abs(a.sys), e) <==> Private(a, e)
  {
    MapTableExact(a.sys, a.role, e.p, e.i, e.j, e.t, e.n);
    if Private(a, e) {
      MapTableViews(a.sys, a.role, e.p, e.i, e.j, e.t, e.n);
    } else {
      assert Abs(b.sys)[e.p] == View(b.sys, e.p);
      assert EagerStep(Abs(a.sys), e)[e.p] == WithoutRow(View(a.sys, e.p), e.i)[(e.i, e.j) := a.sys.phys[e.n]];
    }
  }

  lemma StoreStepExact(a: Moment, e: Event, b: Moment)
    requires Shape(a.sys, a.role) && Step(a, e, b) && e.Store?
    ensures Abs(b.sys) == EagerStep(Abs(a.sys), e) <==> Private(a, e)
  {
    StoreExact(a.sys, a.role, e.p, e.i, e.j, e.o, e.w);
    PageSeen(a.sys, e.p, (e.i, e.j));
  }

  /** From any well-formed memory, whatever its counts, a step matches the eager machine if and
      only if it is private. */
  lemma StepExact(a: Moment, e: Event, b: Moment)
    requires Shape(a.sys, a.role) && Step(a, e, b)
    ensures Abs(b.sys) == EagerStep(Abs(a.sys), e) <==> Private(a, e)
  {
    var s, role := a.sys, a.role;
    match e
    case TakeDir(ch, f) => DirViews(s, role, ch, f);
    case DoFork(fk) => ForkViews(s, role, fk);
    case Fault(p, i, j, n) => FaultViews(s, role, p, i, j, n);
    case Store(p, i, j, o, w) => StoreStepExact(a, e, b);
    case Map(p, i, j, n, c) => MapViews(s, role, p, i, j, n);
    case MapBare(p, i, j, n, c) => BareMapViews(s, role, p, i, j, n);
    case MapTable(p, i, j, t, n, c) => TableStepExact(a, e, b);
    case Exit(p) => ExitViews(s, role, p);
    case KernelTake(f) => KernelStep(a, e, b, f); KernelViews(s, role, b.sys, b.role);
    case KernelStore(f, o, w) => KernelStep(a, e, b, f); KernelViews(s, role, b.sys, b.role);
    case KernelRelease(f) => KernelStep(a, e, b, f); KernelViews(s, role, b.sys, b.role);
  }

  /** Nobody but the process `p` sees a difference. */
  ghost predicate OthersSame(s: Sys, t: Sys, p: int) {
    forall q :: q != p ==> (Live(t, q) <==> Live(s, q)) && (Live(s, q) ==> View(t, q) == View(s, q))
  }

  lemma Shown(s: Sys, t: Sys, p: int)
    requires forall q :: q != p ==> (q in Abs(t) <==> q in Abs(s)) && (q in Abs(s) ==> Abs(t)[q] == Abs(s)[q])
    ensures OthersSame(s, t, p)
  {
    forall q | q != p ensures (Live(t, q) <==> Live(s, q)) && (Live(s, q) ==> View(t, q) == View(s, q)) {
      assert Live(s, q) <==> q in Abs(s);
      assert Live(t, q) <==> q in Abs(t);
    }
  }

  /** After a fork the child has the pages of its parent. */
  lemma ForkShows(a: Moment, fk: Fork, b: Moment)
    requires Shape(a.sys, a.role) && Step(a, DoFork(fk), b)
    ensures Live(a.sys, fk.c) && Live(b.sys, fk.ch) && View(b.sys, fk.ch) == View(a.sys, fk.c)
    ensures OthersSame(a.sys, b.sys, fk.ch)
  {
    StepExact(a, DoFork(fk), b);
    assert Abs(b.sys)[fk.ch] == View(b.sys, fk.ch);
    Shown(a.sys, b.sys, fk.ch);
  }

  /** Space `v` after the store of `w` at word `o` of page `pg`. */
  ghost predicate OneWord(v: Space, pg: Page2, o: int, w: Word, v': Space) {
    && pg in v && 0 <= o < ENTRIES && v'.Keys == v.Keys && v'[pg] == v[pg][o := w]
    && forall other :: other in v && other != pg ==> v'[other] == v[other]
  }

  lemma EagerWritten(a: map<int, Space>, p: int, pg: Page2, o: int, w: Word)
    requires p in a && pg in a[p] && 0 <= o < ENTRIES
    ensures var b := EagerWrite(a, p, pg, o, w);
            && p in b && OneWord(a[p], pg, o, w, b[p])
            && forall q :: q != p ==> (q in b <==> q in a) && (q in a ==> b[q] == a[q])
  {
  }

  /** A private store changes one word of one page of its process, to what was stored. */
  lemma StoreShows(a: Moment, p: int, i: int, j: int, o: int, w: Word, b: Moment)
    requires Shape(a.sys, a.role) && Step(a, Store(p, i, j, o, w), b) && Private(a, Store(p, i, j, o, w))
    ensures Live(b.sys, p) && OneWord(View(a.sys, p), (i, j), o, w, View(b.sys, p)) && OthersSame(a.sys, b.sys, p)
  {
    StepExact(a, Store(p, i, j, o, w), b);
    assert Abs(a.sys)[p] == View(a.sys, p);
    EagerWritten(Abs(a.sys), p, (i, j), o, w);
    assert Abs(b.sys)[p] == View(b.sys, p);
    Shown(a.sys, b.sys, p);
  }

  /** A fault shows nobody anything; an exit shows nobody but the process that is gone. */
  lemma FaultAndExitShow(a: Moment, e: Event, b: Moment)
    requires Shape(a.sys, a.role) && Step(a, e, b) && (e.Fault? || e.Exit?)
    ensures e.Fault? ==> OthersSame(a.sys, b.sys, -1)
    ensures e.Exit? ==> OthersSame(a.sys, b.sys, e.p) && !Live(b.sys, e.p)
  {
    StepExact(a, e, b);
    if e.Fault? { Shown(a.sys, b.sys, -1); } else { assert e.p !in Abs(b.sys); Shown(a.sys, b.sys, e.p); }
  }

  // ----- runs

  ghost predicate Run(ms: seq<Moment>, es: seq<Event>) {
    && |ms| == |es| + 1
    && forall k :: 0 <= k < |es| ==> Step(ms[k], es[k], ms[k + 1])
  }

  /** The first `n` steps are clean. */
  ghost predicate CleanTo(ms: seq<Moment>, es: seq<Event>, n: int)
    requires n <= |es| && n <= |ms|
  {
    forall k :: 0 <= k < n ==> Clean(ms[k], es[k])
  }

  /** The first `n` steps are private. */
  ghost predicate PrivateTo(ms: seq<Moment>, es: seq<Event>, n: int)
    requires n <= |es| && n <= |ms|
  {
    forall k :: 0 <= k < n ==> Private(ms[k], es[k])
  }

  lemma OneMore(a: map<int, Space>, es: seq<Event>, e: Event)
    ensures EagerRun(a, es + [e]) == EagerStep(EagerRun(a, es), e)
  {
    assert (es + [e])[..|es|] == es;
  }

  /** Copy on write refines private memory: after any clean run, every process reads what it
      would have read if fork had copied each page. */
  lemma {:induction false} RunRefinesEager(ms: seq<Moment>, es: seq<Event>)
    requires Run(ms, es) && Inv(ms[0].sys, ms[0].role) && CleanTo(ms, es, |es|)
    ensures Inv(ms[|es|].sys, ms[|es|].role)
    ensures Abs(ms[|es|].sys) == EagerRun(Abs(ms[0].sys), es)
    decreases |es|
  {
    if |es| > 0 {
      var n := |es| - 1;
      var ms', es' := ms[..n + 1], es[..n];
      assert CleanTo(ms', es', n);
      RunRefinesEager(ms', es');
      assert Step(ms[n], es[n], ms[n + 1]) && Clean(ms[n], es[n]);
      StepKeeps(ms[n], es[n], ms[n + 1]);
    }
  }

  /** True counts make every store private: a clean run from a sound memory is private. */
  lemma CleanIsPrivate(ms: seq<Moment>, es: seq<Event>)
    requires Run(ms, es) && Inv(ms[0].sys, ms[0].role) && CleanTo(ms, es, |es|)
    ensures PrivateTo(ms, es, |es|)
  {
    forall k | 0 <= k < |es| ensures Private(ms[k], es[k]) {
      var ms', es' := ms[..k + 1], es[..k];
      assert CleanTo(ms', es', k);
      RunRefinesEager(ms', es');
      assert Step(ms[k], es[k], ms[k + 1]) && Clean(ms[k], es[k]);
      StepKeeps(ms[k], es[k], ms[k + 1]);
      StepExact(ms[k], es[k], ms[k + 1]);
    }
  }

  /** Uncounted pages and wrapped counts included. */
  lemma {:induction false} RunBefore(ms: seq<Moment>, es: seq<Event>, n: nat)
    requires Run(ms, es) && Shape(ms[0].sys, ms[0].role) && n <= |es| && PrivateTo(ms, es, n)
    ensures Shape(ms[n].sys, ms[n].role) && Abs(ms[n].sys) == EagerRun(Abs(ms[0].sys), es[..n])
    decreases n
  {
    if n > 0 {
      var m := n - 1;
      RunBefore(ms, es, m);
      assert Step(ms[m], es[m], ms[m + 1]) && Private(ms[m], es[m]);
      StepShape(ms[m], es[m], ms[m + 1]);
      StepExact(ms[m], es[m], ms[m + 1]);
      assert es[..n] == es[..m] + [es[m]];
      OneMore(Abs(ms[0].sys), es[..m], es[m]);
    }
  }

  /** Any run at all, up to its first step that is not private, is a run of the eager machine,
      and that step is the first after which some process reads something else. */
  lemma RunExact(ms: seq<Moment>, es: seq<Event>, n: nat)
    requires Run(ms, es) && Shape(ms[0].sys, ms[0].role) && n < |es| && PrivateTo(ms, es, n)
    ensures Abs(ms[n].sys) == EagerRun(Abs(ms[0].sys), es[..n])
    ensures Abs(ms[n + 1].sys) == EagerRun(Abs(ms[0].sys), es[..n + 1]) <==> Private(ms[n], es[n])
  {
    assert EagerRun(Abs(ms[0].sys), es[..n + 1]) == EagerStep(EagerRun(Abs(ms[0].sys), es[..n]), es[n]) by {
      OneMore(Abs(ms[0].sys), es[..n], es[n]);
      assert es[..n] + [es[n]] == es[..n + 1];
    }
    RunBefore(ms, es, n);
    assert Step(ms[n], es[n], ms[n + 1]);
    StepExact(ms[n], es[n], ms[n + 1]);
  }

  // ----- isolation

  /** The process on whose behalf an event changes an address space. */
  predicate Touches(e: Event, q: int) {
    match e
    case TakeDir(_, _) => false
    case DoFork(fk) => fk.ch == q
    case Fault(_, _, _, _) => false
    case Store(p, _, _, _, _) => p == q
    case Map(p, _, _, _, _) => p == q
    case MapBare(p, _, _, _, _) => p == q
    case MapTable(p, _, _, _, _, _) => p == q
    case Exit(p) => p == q
    case _ => false
  }

  lemma {:induction false} EagerIsolation(a: map<int, Space>, es: seq<Event>, q: int)
    requires q in a && forall e :: e in es ==> !Touches(e, q)
    ensures q in EagerRun(a, es) && EagerRun(a, es)[q] == a[q]
    decreases |es|
  {
    if es != [] {
      var e := es[|es| - 1];
      assert !Touches(e, q);
      EagerIsolation(a, es[..|es| - 1], q);
    }
  }

  /** Isolation: whatever the others do, and however the frames are shared, a process that
      does nothing itself keeps exactly the pages it had. */
  lemma Isolation(ms: seq<Moment>, es: seq<Event>, q: int)
    requires Run(ms, es) && Shape(ms[0].sys, ms[0].role) && PrivateTo(ms, es, |es|)
    requires Live(ms[0].sys, q) && forall e :: e in es ==> !Touches(e, q)
    ensures Live(ms[|es|].sys, q)
    ensures View(ms[|es|].sys, q) == View(ms[0].sys, q)
  {
    RunBefore(ms, es, |es|);
    assert es[..|es|] == es;
    EagerIsolation(Abs(ms[0].sys), es, q);
    assert q in Abs(ms[|es|].sys);
  }
}
