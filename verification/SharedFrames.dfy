/** Page tables and the bucket allocator take their frames from one `mem_map` (mm/page.c:130,
    mm/malloc.c:90,158,249). Any interleaving of the two is sound for both. */
module SharedFrames {
  import opened Words
  import opened Frames
  import A = AddressSpaces
  import S = AddressSteps
  import F = ForkSteps
  import M = MemoryRuns
  import B = Buckets
  import opened BucketSteps

  /** The page tables' memory and the allocator's heap. */
  datatype World = World(pages: A.Moment, heap: B.Heap, shape: B.Shape)

  /** One step of kmalloc or kfree, or a store into a live block. */
  datatype HeapEvent =
    | Take(a: B.Addr, x: B.Block)
    | Put(a: B.Addr, k: int, x: B.Block)
    | NewPage(b: int, f: FrameNo, words: map<B.Addr, B.Ptr>)
    | InitPage(f: FrameNo, descs: map<B.Addr, B.Desc>)
    | Return(b: int, i: int, a: B.Addr, prev: B.Ptr, f: FrameNo)
    | Write(x: B.Block, at: B.Addr, n: int, words: map<B.Addr, B.Ptr>)

  ghost predicate HeapStep(h: B.Heap, sh: B.Shape, g: HeapEvent, h': B.Heap, sh': B.Shape) {
    match g
    case Take(a, x) =>
      && CanTake(h, sh, a) && a in sh.slots && sh.slots[a] != []
      && x == B.Block(h.descs[a].freeptr.value, h.descs[a].size) && h' == AfterTake(h, a) && sh' == TakeShape(sh, a)
    case Put(a, k, x) =>
      && B.LiveSlot(h, sh, a, k) && x == B.BlockOf(h.descs[a], k)
      && h' == AfterPut(h, a, k) && sh' == PutShape(sh, a, k)
    case NewPage(b, f, words) =>
      && CanNew(h, sh, b, f, words) && h.spare.Some? && h.spare.value in h.descs
      && h' == AfterNew(h, b, f, words) && sh' == NewShape(sh, b, f)
    case InitPage(f, descs) => CanInit(h, sh, f, descs) && h' == AfterInit(h, f, descs) && sh' == InitShape(sh, f)
    case Return(b, i, a, prev, f) =>
      && CanDrop(h, sh, b, i, a, prev) && f == B.FrameOf(h.descs[a]) && f < |h.mem| == |sh.owner|
      && (prev.Some? ==> prev.value in h.descs)
      && h' == AfterDrop(h, b, a, prev) && sh' == DropShape(sh, b, i, f)
    case Write(x, at, n, words) =>
      && x in B.Live(h, sh) && Within(x, at, n) && Stored(h.words, words, at, n)
      && h' == h.(words := words) && sh' == sh
  }

  /** The allocator's frames are kernel frames, and both sides see one frame table. */
  ghost predicate Joined(w: World) {
    && A.Shape(w.pages.sys, w.pages.role) && B.Inv(w.heap, w.shape)
    && w.heap.mem == w.pages.sys.mem && |w.shape.owner| == |w.pages.role|
    && forall f :: 0 <= f < |w.shape.owner| && HeapOwned(w.shape.owner[f]) ==> w.pages.role[f] == A.Kernel && f != A.SWAPPER
  }

  /** Before the first `kmalloc` the heap is empty, and every frame in use is somebody else's. */
  function EmptyHeap(mem: seq<Page>): B.Heap { B.Heap(mem, map[], map[], seq(B.BUCKETS, _ => None), None) }

  function EmptyShape(role: seq<A.Role>): B.Shape {
    B.Shape(seq(B.BUCKETS, _ => []), [], map[], map[],
            seq(|role|, f requires 0 <= f < |role| => if role[f] == A.Free then B.Nobody else B.Elsewhere))
  }

  /** Every well-formed memory, with the empty heap, is a world to start from. */
  lemma StartJoined(pages: A.Moment)
    requires A.Shape(pages.sys, pages.role)
    ensures Joined(World(pages, EmptyHeap(pages.sys.mem), EmptyShape(pages.role)))
    ensures B.Live(EmptyHeap(pages.sys.mem), EmptyShape(pages.role)) == {}
  {
    var h, sh := EmptyHeap(pages.sys.mem), EmptyShape(pages.role);
    forall b | 0 <= b < B.BUCKETS ensures B.ChainOk(h, sh, b) {}
    forall f | 0 <= f < |sh.owner| ensures B.OwnerOk(h, sh, f) {}
    assert B.SpareOk(h, sh);
  }

  datatype Act = PageAct(e: M.Event) | HeapAct(g: HeapEvent)

  /** The allocator's view of the frames after a step of the page tables. */
  function OwnerAfter(owner: seq<B.Owner>, role: seq<A.Role>): seq<B.Owner>
    requires |owner| <= |role|
  {
    seq(|owner|, f requires 0 <= f < |owner| =>
      if HeapOwned(owner[f]) then owner[f] else if role[f] == A.Free then B.Nobody else B.Elsewhere)
  }

  /** The page tables' view of the frames after a step of the allocator. */
  function RoleAfter(role: seq<A.Role>, owner: seq<B.Owner>, owner': seq<B.Owner>): seq<A.Role>
    requires |role| <= |owner| && |role| <= |owner'|
  {
    seq(|role|, f requires 0 <= f < |role| =>
      if HeapOwned(owner'[f]) then A.Kernel else if HeapOwned(owner[f]) then A.Free else role[f])
  }

  /** The rest of the kernel keeps its hands off the allocator's frames. */
  ghost predicate Decent(owner: seq<B.Owner>, e: M.Event) {
    (e.KernelStore? || e.KernelRelease?) && e.f < |owner| ==> !HeapOwned(owner[e.f])
  }

  /** The allocator wrote only to its own frames. */
  ghost predicate PagesFollow(w: World, w': World) {
    && w'.pages.sys.procs == w.pages.sys.procs && w'.pages.sys.mem == w'.heap.mem
    && |w'.shape.owner| == |w.shape.owner| == |w.pages.role| == |w.pages.sys.phys| == |w'.pages.sys.phys|
    && w'.pages.role == RoleAfter(w.pages.role, w.shape.owner, w'.shape.owner)
    && forall f :: 0 <= f < |w.shape.owner| && !HeapOwned(w.shape.owner[f]) && !HeapOwned(w'.shape.owner[f]) ==>
         w'.pages.sys.phys[f] == w.pages.sys.phys[f]
  }

  ghost predicate Joint(w: World, act: Act, w': World) {
    match act
    case PageAct(e) =>
      && M.Step(w.pages, e, w'.pages) && M.Private(w.pages, e) && Decent(w.shape.owner, e)
      && w'.heap == w.heap.(mem := w'.pages.sys.mem)
      && |w.shape.owner| <= |w'.pages.role| && w'.shape == w.shape.(owner := OwnerAfter(w.shape.owner, w'.pages.role))
    case HeapAct(g) => HeapStep(w.heap, w.shape, g, w'.heap, w'.shape) && PagesFollow(w, w')
  }

  // ----- a step of the page tables

  lemma SameSize(a: A.Moment, e: M.Event, b: A.Moment)
    requires A.Shape(a.sys, a.role) && M.Step(a, e, b) && M.Private(a, e)
    ensures |b.role| == |b.sys.mem| == |a.role| == |a.sys.mem|
  {
    M.StepShape(a, e, b);
  }

  lemma NotShared(s: A.Sys, role: seq<A.Role>, fk: F.Fork, f: int)
    requires F.Forked(s, role, fk) && 0 <= f < |role| && role[f] == A.Kernel
    ensures F.Named(s.phys, fk.d, A.USER_DIRS, f) == {}
  {
    A.OnlyDataNamed(s, role, f);
    F.NamedAreRefs(s, role, fk, f);
    forall x | x in F.Named(s.phys, fk.d, A.USER_DIRS, f) ensures (fk.c, x.0, x.1) in A.Refs(s, f) {}
  }

  /** No step of the page tables moves or counts an allocator frame. */
  lemma KernelFrameKept(a: A.Moment, e: M.Event, b: A.Moment, f: int)
    requires A.Shape(a.sys, a.role) && M.Step(a, e, b) && |b.role| == |b.sys.mem| == |a.role| == |a.sys.mem|
    requires 0 <= f < |a.role| && a.role[f] == A.Kernel && !((e.KernelStore? || e.KernelRelease?) && e.f == f)
    ensures b.role[f] == A.Kernel && b.sys.mem[f] == a.sys.mem[f]
  {
    match e
    case DoFork(fk) => NotShared(a.sys, a.role, fk, f);
    case Fault(p, i, j, n) => A.MappedFrame(a.sys, a.role, p, i, j);
    case Exit(p) => S.ExitFramesRole(a.sys, a.role, p, f);
    case _ =>
  }

  /** To the allocator it is a change in frames that are not the heap's. */
  lemma PagesOthers(w: World, e: M.Event, w': World)
    requires Joined(w) && Joint(w, PageAct(e), w')
    requires A.FramesOk(w'.pages.sys, w'.pages.role)
    ensures Others(w.heap, w.shape, w'.heap, w'.shape)
  {
    SameSize(w.pages, e, w'.pages);
    forall f | 0 <= f < |w.shape.owner| && HeapOwned(w.shape.owner[f])
      ensures w'.pages.role[f] == A.Kernel && w'.heap.mem[f] == w.heap.mem[f]
    {
      KernelFrameKept(w.pages, e, w'.pages, f);
    }
  }

  lemma PagesJoined(w: World, e: M.Event, w': World)
    requires Joined(w) && Joint(w, PageAct(e), w')
    ensures Joined(w') && B.Live(w'.heap, w'.shape) == B.Live(w.heap, w.shape)
    ensures A.Abs(w'.pages.sys) == M.EagerStep(A.Abs(w.pages.sys), e)
  {
    M.StepShape(w.pages, e, w'.pages);
    M.StepExact(w.pages, e, w'.pages);
    SameSize(w.pages, e, w'.pages);
    PagesOthers(w, e, w');
    OthersKeep(w.heap, w.shape, w'.heap, w'.shape);
    forall f | 0 <= f < |w'.shape.owner| && HeapOwned(w'.shape.owner[f])
      ensures w'.pages.role[f] == A.Kernel && f != A.SWAPPER
    {
      KernelFrameKept(w.pages, e, w'.pages, f);
    }
  }

  // ----- a step of the allocator

  function LiveAfter(live: set<B.Block>, g: HeapEvent): set<B.Block> {
    match g
    case Take(_, x) => live + {x}
    case Put(_, _, x) => live - {x}
    case _ => live
  }

  lemma HeapStepKeeps(h: B.Heap, sh: B.Shape, g: HeapEvent, h': B.Heap, sh': B.Shape)
    requires B.Inv(h, sh) && HeapStep(h, sh, g, h', sh')
    ensures B.Inv(h', sh') && B.Live(h', sh') == LiveAfter(B.Live(h, sh), g)
    ensures g.Take? ==> g.x !in B.Live(h, sh)
    ensures g.Put? ==> g.x in B.Live(h, sh)
  {
    match g
    case Take(a, x) => TakeInv(h, sh, a); TakeLive(h, sh, a);
    case Put(a, k, x) => PutInv(h, sh, a, k); PutLive(h, sh, a, k);
    case NewPage(b, f, words) => NewInv(h, sh, b, f, words); NewLive(h, sh, b, f, words);
    case InitPage(f, descs) => InitInv(h, sh, f, descs); InitLive(h, sh, f, descs);
    case Return(b, i, a, prev, f) => DropKeeps(h, sh, b, i, a, prev);
    case Write(x, at, n, words) => UserStore(h, sh, x, at, n, words);
  }

  /** Only frames that the allocator has before or after change; it takes free frames, and those
      it no longer has are nobody's. */
  ghost predicate FramesMoved(mem: seq<Page>, owner: seq<B.Owner>, mem': seq<Page>, owner': seq<B.Owner>) {
    && |owner'| == |owner| == |mem'| == |mem|
    && forall f :: 0 <= f < |owner| ==>
         && (!HeapOwned(owner[f]) && !HeapOwned(owner'[f]) ==> mem'[f] == mem[f])
         && (!HeapOwned(owner[f]) && HeapOwned(owner'[f]) ==> !Used(mem[f]))
         && (HeapOwned(owner[f]) && !HeapOwned(owner'[f]) ==> owner'[f] == B.Nobody)
  }

  lemma ReturnFrames(h: B.Heap, sh: B.Shape, g: HeapEvent, h': B.Heap, sh': B.Shape)
    requires B.Inv(h, sh) && HeapStep(h, sh, g, h', sh') && g.Return?
    ensures FramesMoved(h.mem, sh.owner, h'.mem, sh'.owner)
  {
    DropPre(h, sh, g.b, g.i, g.a, g.prev);
  }

  lemma HeapFrames(h: B.Heap, sh: B.Shape, g: HeapEvent, h': B.Heap, sh': B.Shape)
    requires B.Inv(h, sh) && HeapStep(h, sh, g, h', sh')
    ensures FramesMoved(h.mem, sh.owner, h'.mem, sh'.owner)
  {
    if g.Return? { ReturnFrames(h, sh, g, h', sh'); }
  }

  /** To the page tables a step of the allocator is a change in frames that no process has. */
  lemma HeapChange(w: World, w': World)
    requires Joined(w) && PagesFollow(w, w') && B.Inv(w'.heap, w'.shape)
    requires FramesMoved(w.heap.mem, w.shape.owner, w'.heap.mem, w'.shape.owner)
    ensures S.KernelChange(w.pages.sys, w.pages.role, w'.pages.sys, w'.pages.role)
    ensures forall f :: 0 <= f < |w'.shape.owner| && HeapOwned(w'.shape.owner[f]) ==>
              w'.pages.role[f] == A.Kernel && f != A.SWAPPER
  {
    var s, role, s', role' := w.pages.sys, w.pages.role, w'.pages.sys, w'.pages.role;
    forall f | 0 <= f < |role|
      ensures || (s'.mem[f] == s.mem[f] && s'.phys[f] == s.phys[f] && role'[f] == role[f])
              || S.KernelFrame(s, role, s', role', f)
    {
      assert B.OwnerOk(w'.heap, w'.shape, f);
    }
  }

  lemma HeapJoined(w: World, g: HeapEvent, w': World)
    requires Joined(w) && Joint(w, HeapAct(g), w')
    ensures Joined(w') && B.Live(w'.heap, w'.shape) == LiveAfter(B.Live(w.heap, w.shape), g)
    ensures A.Abs(w'.pages.sys) == A.Abs(w.pages.sys)
  {
    HeapStepKeeps(w.heap, w.shape, g, w'.heap, w'.shape);
    HeapFrames(w.heap, w.shape, g, w'.heap, w'.shape);
    HeapChange(w, w');
    S.KernelShape(w.pages.sys, w.pages.role, w'.pages.sys, w'.pages.role);
    S.KernelViews(w.pages.sys, w.pages.role, w'.pages.sys, w'.pages.role);
  }

  // ----- whole runs

  /** What the eager machine makes of a step. */
  ghost function EagerAct(a: map<int, A.Space>, act: Act): map<int, A.Space> {
    if act.PageAct? then M.EagerStep(a, act.e) else a
  }

  function LiveAct(live: set<B.Block>, act: Act): set<B.Block> {
    if act.HeapAct? then LiveAfter(live, act.g) else live
  }

  lemma JointKeeps(w: World, act: Act, w': World)
    requires Joined(w) && Joint(w, act, w')
    ensures Joined(w')
    ensures A.Abs(w'.pages.sys) == EagerAct(A.Abs(w.pages.sys), act)
    ensures B.Live(w'.heap, w'.shape) == LiveAct(B.Live(w.heap, w.shape), act)
  {
    match act
    case PageAct(e) => PagesJoined(w, e, w');
    case HeapAct(g) => HeapJoined(w, g, w');
  }

  ghost predicate Run(ws: seq<World>, acts: seq<Act>) {
    && |ws| == |acts| + 1
    && forall k :: 0 <= k < |acts| ==> Joint(ws[k], acts[k], ws[k + 1])
  }

  ghost function EagerRun(a: map<int, A.Space>, acts: seq<Act>): map<int, A.Space> {
    if acts == [] then a else EagerAct(EagerRun(a, acts[..|acts| - 1]), acts[|acts| - 1])
  }

  function LiveRun(live: set<B.Block>, acts: seq<Act>): set<B.Block> {
    if acts == [] then live else LiveAct(LiveRun(live, acts[..|acts| - 1]), acts[|acts| - 1])
  }

  /** However forks, faults, exits, kmallocs and kfrees follow each other, processes see private
      memory, exactly the blocks handed out and not returned are live, and no frame is both
      a process's and the heap's. */
  lemma {:induction false} RunKeeps(ws: seq<World>, acts: seq<Act>)
    requires Run(ws, acts) && Joined(ws[0])
    ensures Joined(ws[|acts|])
    ensures A.Abs(ws[|acts|].pages.sys) == EagerRun(A.Abs(ws[0].pages.sys), acts)
    ensures B.Live(ws[|acts|].heap, ws[|acts|].shape) == LiveRun(B.Live(ws[0].heap, ws[0].shape), acts)
    decreases |acts|
  {
    if acts != [] {
      var n := |acts| - 1;
      RunKeeps(ws[..n + 1], acts[..n]);
      JointKeeps(ws[n], acts[n], ws[n + 1]);
    }
  }

  /** No live block lies in a frame that holds a process's page. */
  lemma BlocksApart(w: World, x: B.Block, p: int, i: int, j: int)
    requires Joined(w) && x in B.Live(w.heap, w.shape)
    requires A.Live(w.pages.sys, p) && A.Mapped(w.pages.sys, p, i, j)
    ensures A.Entry(w.pages.sys, p, i, j).frame != x.at.frame
  {
    var a, k := B.LiveBlock(w.heap, w.shape, x);
    B.Chained(w.heap, w.shape, a);
    A.MappedFrame(w.pages.sys, w.pages.role, p, i, j);
  }
}
