/** Two-level page tables over physical frames, as plain values: what the tables
    mean, what keeps them sound, and the eager-copy machine they must imitate. */
module AddressSpaces {
  import opened Words
  import opened Frames

  const PG_P: bv12 := 1
  const PG_RWW: bv12 := 2
  const PG_USU: bv12 := 4
  const USER_RW: bv12 := 7
  const ENTRIES := 1024
  const USER_DIRS := 768

  /** Frame of `swapper_pg_dir`, the kernel's own directory. */
  const SWAPPER := 1

  /** The 1024 words of one frame. */
  type Contents = c: seq<Word> | |c| == 1024 witness seq(1024, _ => ZERO)

  /** The fields of a process slot that concern memory. A slot keeps its directory
      frame after the process is gone. */
  datatype Proc = Proc(live: bool, dir: Option<FrameNo>, kstack: FrameNo)

  datatype Sys = Sys(mem: seq<Page>, phys: seq<Contents>, procs: seq<Proc>)

  // ----- walking the tables

  function At(phys: seq<Contents>, f: int, k: int): Word {
    if 0 <= f < |phys| && 0 <= k < ENTRIES then phys[f][k] else ZERO
  }

  /** The page-table entry for user page (i, j) under directory `d`; zero if there is no table. */
  function Pte(phys: seq<Contents>, d: int, i: int, j: int): Word {
    var t := At(phys, d, i);
    if t == ZERO then ZERO else At(phys, t.frame, j)
  }

  predicate Live(s: Sys, p: int) { 0 <= p < |s.procs| && s.procs[p].live }

  function Entry(s: Sys, p: int, i: int, j: int): Word {
    if 0 <= p < |s.procs| && s.procs[p].dir.Some? then Pte(s.phys, s.procs[p].dir.value, i, j) else ZERO
  }

  function Frame(phys: seq<Contents>, f: int): Contents {
    if 0 <= f < |phys| then phys[f] else seq(1024, _ => ZERO)
  }

  // ----- what a process sees

  type Page2 = (int, int)

  type Space = map<Page2, Contents>

  ghost predicate Mapped(s: Sys, p: int, i: int, j: int) {
    0 <= i < USER_DIRS && 0 <= j < ENTRIES && Entry(s, p, i, j) != ZERO
  }

  /** The contents of each page process `p` has mapped. */
  ghost function View(s: Sys, p: int): Space {
    map i, j | 0 <= i < USER_DIRS && 0 <= j < ENTRIES && Entry(s, p, i, j) != ZERO ::
      (i, j) := Frame(s.phys, Entry(s, p, i, j).frame)
  }

  ghost function Abs(s: Sys): map<int, Space> {
    map p | 0 <= p < |s.procs| && s.procs[p].live :: View(s, p)
  }

  // ----- the invariant

  /** What a frame is used for. */
  datatype Role = Free | Kernel | Directory(p: int) | Table(p: int, i: int) | Stack(p: int) | Data

  /** Memory at one moment, with what its frames are used for. */
  datatype Moment = Moment(sys: Sys, role: seq<Role>)

  ghost predicate PteOk(role: seq<Role>, e: Word) {
    e != ZERO ==> e.frame < |role| && role[e.frame] == Data && Has(e, PG_P) && Has(e, PG_USU)
  }

  ghost predicate TableOk(phys: seq<Contents>, role: seq<Role>, d: int, p: int, i: int) {
    var t := At(phys, d, i);
    t != ZERO ==>
      && t.frame < |role| && role[t.frame] == Table(p, i)
      && forall j :: 0 <= j < ENTRIES ==> PteOk(role, At(phys, t.frame, j))
  }

  ghost predicate SlotOk(s: Sys, role: seq<Role>, p: int)
    requires 0 <= p < |s.procs|
  {
    var pr := s.procs[p];
    && (pr.dir.Some? ==> pr.dir.value < |role| && role[pr.dir.value] == Directory(p))
    && (pr.live ==>
          && pr.dir.Some?
          && pr.kstack < |role| && role[pr.kstack] == Stack(p)
          && forall i :: 0 <= i < USER_DIRS ==> TableOk(s.phys, role, pr.dir.value, p, i))
  }

  ghost predicate FramesOk(s: Sys, role: seq<Role>) {
    && AddressesOk(s.mem)
    && |s.phys| == |s.mem| == |role|
    && SWAPPER < |role| && role[SWAPPER] == Kernel
    && forall f :: 0 <= f < |role| ==> (role[f] == Free <==> !Used(s.mem[f]))
  }

  predicate Names(s: Sys, p: int, i: int, j: int, f: int) {
    Entry(s, p, i, j) != ZERO && Entry(s, p, i, j).frame == f
  }

  /** The page-table entries of live processes that name frame `f`. */
  ghost function Refs(s: Sys, f: int): set<(int, int, int)> {
    set p, i, j | 0 <= p < |s.procs| && s.procs[p].live && 0 <= i < USER_DIRS && 0 <= j < ENTRIES && Names(s, p, i, j, f) ::
      (p, i, j)
  }

  ghost predicate CountOk(s: Sys, f: int)
    requires 0 <= f < |s.mem|
  {
    |Refs(s, f)| <= s.mem[f].count
  }

  /** A writable entry is the only live entry for its frame. */
  ghost predicate ExclusiveOk(s: Sys, p: int, i: int, j: int) {
    Has(Entry(s, p, i, j), PG_RWW) ==> Refs(s, Entry(s, p, i, j).frame) == {(p, i, j)}
  }

  ghost predicate Shape(s: Sys, role: seq<Role>) {
    && FramesOk(s, role)
    && forall p :: 0 <= p < |s.procs| ==> SlotOk(s, role, p)
  }

  ghost predicate Inv(s: Sys, role: seq<Role>) {
    && Shape(s, role)
    && (forall f :: 0 <= f < |role| && role[f] == Data ==> CountOk(s, f))
    && (forall p, i, j :: Live(s, p) && Mapped(s, p, i, j) ==> ExclusiveOk(s, p, i, j))
  }

  // ----- consequences

  lemma MappedFrame(s: Sys, role: seq<Role>, p: int, i: int, j: int)
    requires Shape(s, role) && Live(s, p) && Mapped(s, p, i, j)
    ensures s.procs[p].dir.Some?
    ensures var d := s.procs[p].dir.value; var t := At(s.phys, d, i);
            && d < |role| && role[d] == Directory(p) && t != ZERO && t.frame < |role| && role[t.frame] == Table(p, i)
            && Entry(s, p, i, j) == s.phys[t.frame][j]
    ensures PteOk(role, Entry(s, p, i, j))
    ensures Entry(s, p, i, j).frame < |role| && role[Entry(s, p, i, j).frame] == Data
  {
    assert SlotOk(s, role, p);
    assert TableOk(s.phys, role, s.procs[p].dir.value, p, i);
  }

  lemma RefsMember(s: Sys, f: int, p: int, i: int, j: int)
    ensures (p, i, j) in Refs(s, f) <==> Live(s, p) && 0 <= i < USER_DIRS && 0 <= j < ENTRIES && Names(s, p, i, j, f)
  {
  }

  /** Only data frames are named by page-table entries. */
  lemma OnlyDataNamed(s: Sys, role: seq<Role>, f: int)
    requires Shape(s, role) && (0 <= f < |role| ==> role[f] != Data)
    ensures Refs(s, f) == {}
  {
    forall x | x in Refs(s, f) ensures false {
      MappedFrame(s, role, x.0, x.1, x.2);
    }
  }

  // ----- comparing views page by page

  function PageOf(s: Sys, p: int, i: int, j: int): Contents { Frame(s.phys, Entry(s, p, i, j).frame) }

  ghost predicate SamePage(s: Sys, p: int, s': Sys, p': int, i: int, j: int) {
    && (Entry(s, p, i, j) == ZERO <==> Entry(s', p', i, j) == ZERO)
    && (Entry(s, p, i, j) != ZERO ==> PageOf(s, p, i, j) == PageOf(s', p', i, j))
  }

  lemma SameView(s: Sys, p: int, s': Sys, p': int)
    requires forall i, j :: 0 <= i < USER_DIRS && 0 <= j < ENTRIES ==> SamePage(s, p, s', p', i, j)
    ensures View(s, p) == View(s', p')
  {
    var v, v' := View(s, p), View(s', p');
    forall pg: Page2 ensures pg in v <==> pg in v' {
      if 0 <= pg.0 < USER_DIRS && 0 <= pg.1 < ENTRIES {
        assert SamePage(s, p, s', p', pg.0, pg.1);
      }
    }
    forall pg: Page2 | pg in v ensures v[pg] == v'[pg] {
      assert SamePage(s, p, s', p', pg.0, pg.1);
    }
  }

  lemma ViewUpdated(s: Sys, s': Sys, p: int, i: int, j: int, c: Contents)
    requires 0 <= i < USER_DIRS && 0 <= j < ENTRIES
    requires Entry(s', p, i, j) != ZERO && PageOf(s', p, i, j) == c
    requires forall k, l :: 0 <= k < USER_DIRS && 0 <= l < ENTRIES && (k, l) != (i, j) ==> SamePage(s', p, s, p, k, l)
    ensures View(s', p) == View(s, p)[(i, j) := c]
  {
    var v: Space := View(s, p)[(i, j) := c];
    var v' := View(s', p);
    forall pg: Page2 ensures pg in v <==> pg in v' {
      if 0 <= pg.0 < USER_DIRS && 0 <= pg.1 < ENTRIES && pg != (i, j) {
        assert SamePage(s', p, s, p, pg.0, pg.1);
      }
    }
    forall pg: Page2 | pg in v ensures v[pg] == v'[pg] {
      if pg != (i, j) {
        assert SamePage(s', p, s, p, pg.0, pg.1);
      }
    }
  }

  // ----- the eager machine: every process owns private copies of its pages

  function EagerFork(a: map<int, Space>, p: int, child: int): map<int, Space>
    requires p in a
  {
    a[child := a[p]]
  }

  function EagerWrite(a: map<int, Space>, p: int, pg: Page2, o: int, w: Word): map<int, Space>
    requires p in a && pg in a[p] && 0 <= o < ENTRIES
  {
    var page: Contents := a[p][pg][o := w];
    var space: Space := a[p][pg := page];
    a[p := space]
  }

  function EagerMap(a: map<int, Space>, p: int, pg: Page2, c: Contents): map<int, Space>
    requires p in a
  {
    var space: Space := a[p][pg := c];
    a[p := space]
  }

  /** The pages of `v` outside row `i`. */
  function WithoutRow(v: Space, i: int): Space { map pg | pg in v && pg.0 != i :: v[pg] }

  /** A new table: its one page, in place of whatever the row held before. */
  function EagerMapTable(a: map<int, Space>, p: int, pg: Page2, c: Contents): map<int, Space>
    requires p in a
  {
    var space: Space := WithoutRow(a[p], pg.0)[pg := c];
    a[p := space]
  }

  function EagerExit(a: map<int, Space>, p: int): map<int, Space> { a - {p} }

  /** If all pages but one look the same to everyone, the eager machine remapped that page. */
  lemma AbsUpdated(s: Sys, s': Sys, p: int, i: int, j: int, c: Contents)
    requires Live(s, p) && s'.procs == s.procs && 0 <= i < USER_DIRS && 0 <= j < ENTRIES
    requires Entry(s', p, i, j) != ZERO && PageOf(s', p, i, j) == c
    requires forall q, k, l :: Live(s, q) && 0 <= k < USER_DIRS && 0 <= l < ENTRIES && (q, k, l) != (p, i, j) ==>
               SamePage(s', q, s, q, k, l)
    ensures Abs(s') == EagerMap(Abs(s), p, (i, j), c)
  {
    forall q | Live(s, q) && q != p ensures View(s', q) == View(s, q) {
      SameView(s', q, s, q);
    }
    ViewUpdated(s, s', p, i, j, c);
    var a := EagerMap(Abs(s), p, (i, j), c);
    assert Abs(s').Keys == a.Keys;
  }
}
