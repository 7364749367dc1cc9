/** Fork: both tables lose write permission, the frames gain references, and the child
    sees what the parent sees. */
module ForkSteps {
  import opened Counting
  import opened Words
  import opened Frames
  import opened AddressSpaces
  import opened AddressSteps

  // ----- counting the references one copy pass adds

  /** Entries of one table, below `n`, that name frame `f`. */
  ghost function NamedIn(t: Contents, n: int, f: int): set<int> {
    set j | 0 <= j < n && j < ENTRIES && t[j] != ZERO && t[j].frame == f
  }

  /** Entries in the first `n` tables of directory `d` that name frame `f`. */
  ghost function Named(phys: seq<Contents>, d: int, n: int, f: int): set<(int, int)> {
    set i, j | 0 <= i < n && 0 <= j < ENTRIES && Pte(phys, d, i, j) != ZERO && Pte(phys, d, i, j).frame == f :: (i, j)
  }

  /** `count++` and `|= MP_COW`, `n` times over. */
  function Shared(pg: Page, n: nat): Page {
    if n == 0 then pg else Page(Or(pg.addr, MP_COW), Advance(pg.count, n))
  }

  function Cleared(t: Contents): Contents {
    seq(1024, k requires 0 <= k < 1024 => Clear(t[k], PG_RWW))
  }

  lemma SharedStep(pg: Page, n: nat)
    ensures Page(Or(Shared(pg, n).addr, MP_COW), Increment(Shared(pg, n).count)) == Shared(pg, n + 1)
  {
    AdvanceStep(pg.count, n);
    assert (pg.addr.low | MP_COW) | MP_COW == pg.addr.low | MP_COW;
  }

  lemma SharedUse(pg: Page, n: nat)
    ensures Used(Shared(pg, n)) == Used(pg) && Shared(pg, n).addr.frame == pg.addr.frame
  {
    assert (pg.addr.low | MP_COW) & MP_USE == pg.addr.low & MP_USE;
  }

  lemma SharedSum(pg: Page, m: nat, n: nat)
    ensures Shared(Shared(pg, m), n) == Shared(pg, m + n)
  {
    AdvanceSum(pg.count, m, n);
    assert (pg.addr.low | MP_COW) | MP_COW == pg.addr.low | MP_COW;
  }

  lemma NamedInStep(t: Contents, n: nat, f: int)
    requires n < ENTRIES
    ensures |NamedIn(t, n + 1, f)| == |NamedIn(t, n, f)| + if t[n] != ZERO && t[n].frame == f then 1 else 0
  {
    assert NamedIn(t, n + 1, f) == NamedIn(t, n, f) + if t[n] != ZERO && t[n].frame == f then {n} else {};
  }

  ghost function Row(t: Contents, i: int, f: int): set<(int, int)> {
    set j | 0 <= j < ENTRIES && t[j] != ZERO && t[j].frame == f :: (i, j)
  }

  lemma RowCard(t: Contents, i: int, f: int)
    ensures |Row(t, i, f)| == |NamedIn(t, ENTRIES, f)|
  {
    var a, b := NamedIn(t, ENTRIES, f), Row(t, i, f);
    var pair := (j: int) => (i, j);
    forall y ensures y in b <==> exists x :: x in a && pair(x) == y {
      if y in b { assert y.1 in a && pair(y.1) == y; }
    }
    ImageCard(a, pair, b);
  }

  lemma NamedSplit(phys: seq<Contents>, d: int, n: nat, f: int)
    requires At(phys, d, n) != ZERO && At(phys, d, n).frame < |phys|
    ensures Named(phys, d, n + 1, f) == Named(phys, d, n, f) + Row(phys[At(phys, d, n).frame], n, f)
  {
    var t := phys[At(phys, d, n).frame];
    forall j | 0 <= j < ENTRIES ensures Pte(phys, d, n, j) == t[j] {}
  }

  lemma NamedStep(phys: seq<Contents>, d: int, n: nat, f: int)
    ensures At(phys, d, n) == ZERO ==> Named(phys, d, n + 1, f) == Named(phys, d, n, f)
    ensures At(phys, d, n) != ZERO && At(phys, d, n).frame < |phys| ==>
              |Named(phys, d, n + 1, f)| == |Named(phys, d, n, f)| + |NamedIn(phys[At(phys, d, n).frame], ENTRIES, f)|
  {
    if At(phys, d, n) != ZERO && At(phys, d, n).frame < |phys| {
      NamedSplit(phys, d, n, f);
      RowCard(phys[At(phys, d, n).frame], n, f);
    }
  }

  // ----- the copy itself

  /** The frames taken on the way are the child's tables. */
  ghost predicate TablesTaken(role: seq<Role>, ch: int, n: int, role': seq<Role>)
    requires |role| == |role'|
  {
    && (forall f :: 0 <= f < |role| && role[f] != Free ==> role'[f] == role[f])
    && (forall f :: 0 <= f < |role| && role[f] == Free ==>
              role'[f] == Free || exists i :: 0 <= i < n && role'[f] == Table(ch, i))
  }

  /** No frame changes but the child's directory, the parent's tables and the frames taken. */
  ghost predicate Untouched(s: Sys, role: seq<Role>, d: int, r: int, n: int, phys: seq<Contents>, role': seq<Role>)
    requires |phys| == |s.phys| == |role'| == |role|
  {
    && (forall f :: 0 <= f < |role| && role[f] != Free && f != r && f !in TableFrames(s.phys, d, n) ==> phys[f] == s.phys[f])
    && (forall f :: 0 <= f < |role| && role'[f] == Free ==> phys[f] == s.phys[f])
  }

  ghost predicate RowCopied(s: Sys, role: seq<Role>, d: int, r: int, ch: int, i: int, phys: seq<Contents>, role': seq<Role>) {
    var t, u := At(s.phys, d, i), At(phys, r, i);
    if t == ZERO then u == ZERO else
      && t.frame < |s.phys| == |phys| == |role'| == |role|
      && u == Word(u.frame, USER_RW) && u.frame < |role'| && role[u.frame] == Free && role'[u.frame] == Table(ch, i)
      && phys[t.frame] == Cleared(s.phys[t.frame])
      && phys[u.frame] == Cleared(s.phys[t.frame])
  }

  /** `copy_page` seen from outside, for the first `n` directory entries: parent directory `d`,
      child directory `r` of slot `ch`. */
  ghost predicate CopiedTo(s: Sys, role: seq<Role>, d: int, r: int, ch: int, n: int, phys: seq<Contents>,
                           mem: seq<Page>, role': seq<Role>) {
    && |phys| == |s.phys| == |mem| == |s.mem| == |role'| == |role|
    && 0 <= d < |phys| && 0 <= r < |phys|
    && TablesTaken(role, ch, n, role')
    && (forall f :: 0 <= f < |role| && role[f] == Free ==> (Used(mem[f]) <==> role'[f] != Free) && mem[f].addr.frame == f)
    && (forall f :: 0 <= f < |role| && role[f] != Free ==> mem[f] == Shared(s.mem[f], |Named(s.phys, d, n, f)|))
    && (forall i :: 0 <= i < n ==> RowCopied(s, role, d, r, ch, i, phys, role'))
    && Untouched(s, role, d, r, n, phys, role')
  }

  // ----- one more directory entry copied

  lemma CopyStart(s: Sys, role: seq<Role>, d: int, r: int, ch: int)
    requires Shape(s, role) && 0 <= d < |role| && 0 <= r < |role|
    ensures CopiedTo(s, role, d, r, ch, 0, s.phys, s.mem, role)
  {
    forall f ensures Named(s.phys, d, 0, f) == {} {}
  }

  /** What the parent's directory and the child's look like to the copying loop. */
  ghost predicate CanCopy(s: Sys, role: seq<Role>, c: int, d: int, ch: int, r: int) {
    && Shape(s, role) && Live(s, c) && s.procs[c].dir == Some(d)
    && 0 <= ch < |s.procs| && !s.procs[ch].live && s.procs[ch].dir == Some(r)
    && 0 <= d < |role| && 0 <= r < |role|
  }

  /** The parent's table `n` is still as it was when the loop reaches it. */
  lemma NextTable(s: Sys, role: seq<Role>, c: int, d: int, ch: int, r: int, n: nat, phys: seq<Contents>,
                  mem: seq<Page>, role': seq<Role>)
    requires CanCopy(s, role, c, d, ch, r) && n < USER_DIRS
    requires CopiedTo(s, role, d, r, ch, n, phys, mem, role')
    ensures d != r && phys[d] == s.phys[d]
    ensures At(s.phys, d, n) != ZERO ==>
              var t := At(s.phys, d, n).frame;
              && t < |role| && role[t] == Table(c, n) && t != r && phys[t] == s.phys[t] && t !in TableFrames(s.phys, d, n)
              && forall j :: 0 <= j < ENTRIES ==> PteOk(role, s.phys[t][j])
  {
    assert SlotOk(s, role, c) && SlotOk(s, role, ch);
    forall i | 0 <= i <= n
      ensures At(s.phys, d, i) != ZERO ==> At(s.phys, d, i).frame < |role| && role[At(s.phys, d, i).frame] == Table(c, i)
    {
      assert TableOk(s.phys, role, d, c, i);
    }
    assert TableOk(s.phys, role, d, c, n);
    var t := At(s.phys, d, n).frame;
    if At(s.phys, d, n) != ZERO {
      forall j | 0 <= j < ENTRIES ensures PteOk(role, s.phys[t][j]) {
        assert PteOk(role, At(s.phys, t, j));
      }
    }
  }

  /** Rows already copied stay copied while row `n` is written. */
  lemma RowKept(s: Sys, role: seq<Role>, c: int, d: int, ch: int, r: int, n: nat,
                phys: seq<Contents>, mem: seq<Page>, role': seq<Role>, phys': seq<Contents>, role1: seq<Role>, i: int)
    requires CanCopy(s, role, c, d, ch, r) && n < USER_DIRS && 0 <= i < n
    requires CopiedTo(s, role, d, r, ch, n, phys, mem, role')
    requires |phys'| == |phys| && |role1| == |role'|
    requires forall f :: 0 <= f < |role'| && role'[f] != Free ==> role1[f] == role'[f]
    requires phys'[r] == phys[r][n := phys'[r][n]]
    requires forall f :: 0 <= f < |role| && f != r && role'[f] != Free && !(role[f] == Table(c, n)) ==> phys'[f] == phys[f]
    ensures RowCopied(s, role, d, r, ch, i, phys', role1)
  {
    assert SlotOk(s, role, c) && SlotOk(s, role, ch);
    assert TableOk(s.phys, role, d, c, i);
    assert RowCopied(s, role, d, r, ch, i, phys, role');
  }

  /** An empty directory entry: the child's is cleared. */
  lemma CopyEmpty(s: Sys, role: seq<Role>, c: int, d: int, ch: int, r: int, n: nat,
                  phys: seq<Contents>, mem: seq<Page>, role': seq<Role>, phys': seq<Contents>)
    requires CanCopy(s, role, c, d, ch, r) && n < USER_DIRS && At(s.phys, d, n) == ZERO
    requires CopiedTo(s, role, d, r, ch, n, phys, mem, role')
    requires phys' == phys[r := phys[r][n := ZERO]]
    ensures CopiedTo(s, role, d, r, ch, n + 1, phys', mem, role')
  {
    assert SlotOk(s, role, ch);
    forall f ensures Named(s.phys, d, n + 1, f) == Named(s.phys, d, n, f) { NamedStep(s.phys, d, n, f); }
    assert TableFrames(s.phys, d, n + 1) == TableFrames(s.phys, d, n);
    forall i | 0 <= i < n + 1 ensures RowCopied(s, role, d, r, ch, i, phys', role') {
      if i < n { RowKept(s, role, c, d, ch, r, n, phys, mem, role', phys', role', i); }
    }
  }

  /** The effect of `create_table`, the directory store and the inner loop. */
  ghost predicate TableWritten(s: Sys, phys: seq<Contents>, mem: seq<Page>, t: int, u: FrameNo, r: int, n: int,
                               phys': seq<Contents>, mem': seq<Page>) {
    && 0 <= t < |phys| && u < |phys| == |mem| == |mem'| && 0 <= r < |phys| && 0 <= n < ENTRIES && |mem| <= MAX_FRAMES
    && phys' == phys[r := phys[r][n := Word(u, USER_RW)]][t := Cleared(phys[t])][u := Cleared(phys[t])]
    && forall f :: 0 <= f < |mem| ==> mem'[f] == Shared(Taken(mem, u)[f], |NamedIn(phys[t], ENTRIES, f)|)
  }

  lemma CopyTableRows(s: Sys, role: seq<Role>, c: int, d: int, ch: int, r: int, n: nat,
                      phys: seq<Contents>, mem: seq<Page>, role': seq<Role>, u: FrameNo, phys': seq<Contents>, mem': seq<Page>)
    requires CanCopy(s, role, c, d, ch, r) && n < USER_DIRS && At(s.phys, d, n) != ZERO
    requires CopiedTo(s, role, d, r, ch, n, phys, mem, role')
    requires u < |role| == |role'| && role[u] == Free && role'[u] == Free
    requires TableWritten(s, phys, mem, At(s.phys, d, n).frame, u, r, n, phys', mem')
    ensures var role1 := role'[u := Table(ch, n)];
            forall i :: 0 <= i < n + 1 ==> RowCopied(s, role, d, r, ch, i, phys', role1)
  {
    assert SlotOk(s, role, ch);
    NextTable(s, role, c, d, ch, r, n, phys, mem, role');
    var role1 := role'[u := Table(ch, n)];
    forall i | 0 <= i < n + 1 ensures RowCopied(s, role, d, r, ch, i, phys', role1) {
      if i < n { RowKept(s, role, c, d, ch, r, n, phys, mem, role', phys', role1, i); }
    }
  }

  lemma CopyTableUntouched(s: Sys, role: seq<Role>, c: int, d: int, ch: int, r: int, n: nat,
                           phys: seq<Contents>, mem: seq<Page>, role': seq<Role>, u: FrameNo,
                           phys': seq<Contents>, mem': seq<Page>)
    requires CanCopy(s, role, c, d, ch, r) && n < USER_DIRS && At(s.phys, d, n) != ZERO
    requires CopiedTo(s, role, d, r, ch, n, phys, mem, role')
    requires u < |role| == |role'| && role[u] == Free && role'[u] == Free
    requires TableWritten(s, phys, mem, At(s.phys, d, n).frame, u, r, n, phys', mem')
    ensures TablesTaken(role, ch, n + 1, role'[u := Table(ch, n)])
    ensures Untouched(s, role, d, r, n + 1, phys', role'[u := Table(ch, n)])
  {
    assert SlotOk(s, role, ch);
    NextTable(s, role, c, d, ch, r, n, phys, mem, role');
    var t := At(s.phys, d, n).frame;
    assert TableFrames(s.phys, d, n + 1) == TableFrames(s.phys, d, n) + {t};
    assert role'[u := Table(ch, n)][u] == Table(ch, n);
  }

  lemma CopyTableCounts(s: Sys, role: seq<Role>, c: int, d: int, ch: int, r: int, n: nat,
                        phys: seq<Contents>, mem: seq<Page>, role': seq<Role>, u: FrameNo,
                        phys': seq<Contents>, mem': seq<Page>)
    requires CanCopy(s, role, c, d, ch, r) && n < USER_DIRS && At(s.phys, d, n) != ZERO
    requires CopiedTo(s, role, d, r, ch, n, phys, mem, role')
    requires u < |mem| && !Used(mem[u])
    requires TableWritten(s, phys, mem, At(s.phys, d, n).frame, u, r, n, phys', mem')
    ensures role[u] == Free && role'[u] == Free
    ensures forall f :: 0 <= f < |role| && role[f] != Free ==> mem'[f] == Shared(s.mem[f], |Named(s.phys, d, n + 1, f)|)
    ensures forall f :: 0 <= f < |role| && role[f] == Free ==>
              (Used(mem'[f]) <==> role'[u := Table(ch, n)][f] != Free) && mem'[f].addr.frame == f
  {
    var t := At(s.phys, d, n).frame;
    NextTable(s, role, c, d, ch, r, n, phys, mem, role');
    SharedUse(s.mem[u], |Named(s.phys, d, n, u)|);
    assert role[u] == Free;
    forall f | 0 <= f < |role| && role[f] != Free ensures mem'[f] == Shared(s.mem[f], |Named(s.phys, d, n + 1, f)|) {
      NamedStep(s.phys, d, n, f);
      SharedSum(s.mem[f], |Named(s.phys, d, n, f)|, |NamedIn(phys[t], ENTRIES, f)|);
    }
    forall f | 0 <= f < |role| && role[f] == Free
      ensures (Used(mem'[f]) <==> role'[u := Table(ch, n)][f] != Free) && mem'[f].addr.frame == f
    {
      SharedUse(Taken(mem, u)[f], |NamedIn(phys[t], ENTRIES, f)|);
    }
  }

  /** A table: frame `u` becomes the child's table, and both tables end up read-only. */
  lemma CopyTableStep(s: Sys, role: seq<Role>, c: int, d: int, ch: int, r: int, n: nat,
                      phys: seq<Contents>, mem: seq<Page>, role': seq<Role>, u: FrameNo, phys': seq<Contents>, mem': seq<Page>)
    requires CanCopy(s, role, c, d, ch, r) && n < USER_DIRS && At(s.phys, d, n) != ZERO
    requires CopiedTo(s, role, d, r, ch, n, phys, mem, role')
    requires u < |mem| && !Used(mem[u])
    requires TableWritten(s, phys, mem, At(s.phys, d, n).frame, u, r, n, phys', mem')
    ensures CopiedTo(s, role, d, r, ch, n + 1, phys', mem', role'[u := Table(ch, n)])
  {
    CopyTableCounts(s, role, c, d, ch, r, n, phys, mem, role', u, phys', mem');
    CopyTableRows(s, role, c, d, ch, r, n, phys, mem, role', u, phys', mem');
    CopyTableUntouched(s, role, c, d, ch, r, n, phys, mem, role', u, phys', mem');
  }

  /** A frame that is still free during the copy is none of those the copy works on. */
  lemma NewFrameFresh(s: Sys, role: seq<Role>, d: int, r: int, ch: int, n: nat, phys: seq<Contents>,
                      mem: seq<Page>, role': seq<Role>, u: int)
    requires FramesOk(s, role) && CopiedTo(s, role, d, r, ch, n, phys, mem, role')
    requires 0 <= u < |mem| && !Used(mem[u])
    ensures role[u] == Free && role'[u] == Free
  {
    SharedUse(s.mem[u], |Named(s.phys, d, n, u)|);
  }

  // ----- how many frames a fork needs

  /** The used entries among the first `n` of directory `d`. */
  ghost function TableSlots(phys: seq<Contents>, d: int, n: int): set<int> {
    set i | 0 <= i < n && At(phys, d, i) != ZERO
  }

  lemma TableSlotsStep(phys: seq<Contents>, d: int, n: nat)
    ensures |TableSlots(phys, d, n + 1)| == |TableSlots(phys, d, n)| + if At(phys, d, n) != ZERO then 1 else 0
  {
    assert TableSlots(phys, d, n + 1) == TableSlots(phys, d, n) + if At(phys, d, n) != ZERO then {n} else {};
  }

  lemma TableSlotsMonotone(phys: seq<Contents>, d: int, n: nat)
    requires n < USER_DIRS
    ensures |TableSlots(phys, d, n + 1)| <= |TableSlots(phys, d, USER_DIRS)|
  {
    SubsetCard(TableSlots(phys, d, n + 1), TableSlots(phys, d, USER_DIRS));
  }

  /** Copied so far, with exactly one frame taken for each table met. */
  ghost predicate CopyInv(s: Sys, role: seq<Role>, d: int, r: int, ch: int, n: int, phys: seq<Contents>,
                          mem: seq<Page>, role': seq<Role>) {
    && CopiedTo(s, role, d, r, ch, n, phys, mem, role')
    && AddressesOk(mem)
    && |FreeFrames(mem)| == |FreeFrames(s.mem)| - |TableSlots(s.phys, d, n)|
  }

  lemma CopyInvStart(s: Sys, role: seq<Role>, d: int, r: int, ch: int)
    requires Shape(s, role) && 0 <= d < |role| && 0 <= r < |role|
    ensures CopyInv(s, role, d, r, ch, 0, s.phys, s.mem, role)
  {
    CopyStart(s, role, d, r, ch);
    assert TableSlots(s.phys, d, 0) == {};
  }

  /** A frame is left for the next table. */
  lemma CopyBudget(s: Sys, role: seq<Role>, d: int, r: int, ch: int, n: nat, phys: seq<Contents>,
                   mem: seq<Page>, role': seq<Role>)
    requires CopyInv(s, role, d, r, ch, n, phys, mem, role') && n < USER_DIRS
    requires |FreeFrames(s.mem)| >= |TableSlots(s.phys, d, USER_DIRS)|
    ensures |TableSlots(s.phys, d, n + 1)| == |TableSlots(s.phys, d, n)| + if At(s.phys, d, n) != ZERO then 1 else 0
    ensures At(s.phys, d, n) != ZERO ==> |FreeFrames(mem)| > 0
  {
    TableSlotsStep(s.phys, d, n);
    TableSlotsMonotone(s.phys, d, n);
  }

  /** Sharing pages hands out no frames. */
  lemma SharedFree(m: seq<Page>, m': seq<Page>, t: Contents)
    requires |m'| == |m| && forall f :: 0 <= f < |m| ==> m'[f] == Shared(m[f], |NamedIn(t, ENTRIES, f)|)
    ensures FreeFrames(m') == FreeFrames(m)
    ensures AddressesOk(m) ==> AddressesOk(m')
  {
    forall f | 0 <= f < |m| ensures Used(m'[f]) == Used(m[f]) && m'[f].addr.frame == m[f].addr.frame {
      SharedUse(m[f], |NamedIn(t, ENTRIES, f)|);
    }
  }

  // ----- the kernel half of the directory

  lemma KernelEntry(s: Sys, role: seq<Role>, c: int, d: int, ch: int, r: int, phys: seq<Contents>,
                    mem: seq<Page>, role': seq<Role>,
                    k: int, w: Word, phys': seq<Contents>)
    requires CanCopy(s, role, c, d, ch, r) && USER_DIRS <= k < ENTRIES
    requires CopiedTo(s, role, d, r, ch, USER_DIRS, phys, mem, role')
    requires phys' == phys[r := phys[r][k := w]]
    ensures CopiedTo(s, role, d, r, ch, USER_DIRS, phys', mem, role')
  {
    assert SlotOk(s, role, ch) && SlotOk(s, role, c);
    forall i | 0 <= i < USER_DIRS ensures RowCopied(s, role, d, r, ch, i, phys', role') {
      assert RowCopied(s, role, d, r, ch, i, phys, role');
      assert TableOk(s.phys, role, d, c, i);
    }
  }

  /** The frames a live directory reaches as tables are that process's tables by role. */
  lemma ReachedIsTable(s: Sys, role: seq<Role>, c: int, f: int)
    requires Shape(s, role) && Live(s, c) && s.procs[c].dir.Some?
    requires f in TableFrames(s.phys, s.procs[c].dir.value, USER_DIRS)
    ensures 0 <= f < |role| && role[f].Table? && role[f].p == c
  {
    var d := s.procs[c].dir.value;
    assert SlotOk(s, role, c);
    var i :| 0 <= i < USER_DIRS && At(s.phys, d, i) != ZERO && At(s.phys, d, i).frame == f;
    assert TableOk(s.phys, role, d, c, i);
  }

  lemma SwapperKept(s: Sys, role: seq<Role>, c: int, d: int, ch: int, r: int, phys: seq<Contents>,
                    mem: seq<Page>, role': seq<Role>)
    requires CanCopy(s, role, c, d, ch, r)
    requires CopiedTo(s, role, d, r, ch, USER_DIRS, phys, mem, role')
    ensures SWAPPER != r && SWAPPER < |phys| && phys[SWAPPER] == s.phys[SWAPPER]
  {
    assert SlotOk(s, role, ch);
    if SWAPPER in TableFrames(s.phys, d, USER_DIRS) {
      ReachedIsTable(s, role, c, SWAPPER);
    }
  }

  /** One fork: parent slot and directory, child slot and directory, the memory and frame
      table after the copy, and the frame taken for the child's kernel stack. */
  datatype Fork = Fork(c: int, d: FrameNo, ch: int, r: FrameNo, phys: seq<Contents>, mem: seq<Page>,
                       role: seq<Role>, ks: FrameNo)

  /** Everything `sys_fork` does to memory: the copy, the kernel half of the child's
      directory, and a fresh kernel stack. */
  ghost predicate Forked(s: Sys, role: seq<Role>, fk: Fork) {
    && Shape(s, role) && Live(s, fk.c) && s.procs[fk.c].dir == Some(fk.d)
    && 0 <= fk.ch < |s.procs| && !s.procs[fk.ch].live && s.procs[fk.ch].dir == Some(fk.r)
    && CopiedTo(s, role, fk.d, fk.r, fk.ch, USER_DIRS, fk.phys, fk.mem, fk.role)
    && (forall x :: USER_DIRS <= x < ENTRIES ==> At(fk.phys, fk.r, x) == At(s.phys, SWAPPER, x))
    && fk.ks < |fk.mem| && !Used(fk.mem[fk.ks])
  }

  ghost function AfterFork(s: Sys, fk: Fork): Sys
    requires 0 <= fk.ch < |s.procs| && fk.ks < |fk.mem| <= MAX_FRAMES
  {
    Sys(Taken(fk.mem, fk.ks), fk.phys, s.procs[fk.ch := Proc(true, Some(fk.r), fk.ks)])
  }

  /** The reference counts do not pass the top of an unsigned int in this fork. */
  ghost predicate CountsFit(s: Sys, d: int) {
    forall f :: 0 <= f < |s.mem| && Used(s.mem[f]) ==> s.mem[f].count + |Named(s.phys, d, USER_DIRS, f)| < COUNT_LIMIT
  }

  lemma ClearedEntry(role: seq<Role>, e: Word)
    requires PteOk(role, e)
    ensures Clear(e, PG_RWW) == ZERO <==> e == ZERO
    ensures Clear(e, PG_RWW).frame == e.frame
    ensures !Has(Clear(e, PG_RWW), PG_RWW)
    ensures PteOk(role, Clear(e, PG_RWW))
  {
    var b := e.low;
    assert (b & !2) & 2 == 0;
    assert (b & !2) & 1 == b & 1;
    assert (b & !2) & 4 == b & 4;
  }

  /** Fork leaves alone every used frame that is not the child's directory or one of the parent's tables. */
  lemma ForkFrame(s: Sys, role: seq<Role>, fk: Fork, f: int)
    requires Forked(s, role, fk)
    requires 0 <= f < |role| && role[f] != Free && role[f] != Directory(fk.ch) && !(role[f].Table? && role[f].p == fk.c)
    ensures fk.phys[f] == s.phys[f]
  {
    assert SlotOk(s, role, fk.ch);
    if f in TableFrames(s.phys, fk.d, USER_DIRS) {
      ReachedIsTable(s, role, fk.c, f);
    }
  }

  /** Entries after the fork: the parent's and child's are the parent's old ones made
      read-only, everybody else's are unchanged. */
  lemma ForkEntry(s: Sys, role: seq<Role>, fk: Fork, q: int, i: int, j: int)
    requires Forked(s, role, fk)
    requires 0 <= i < USER_DIRS && 0 <= j < ENTRIES && (Live(s, q) || q == fk.ch)
    ensures Entry(AfterFork(s, fk), q, i, j) ==
            if q == fk.c || q == fk.ch then Clear(Entry(s, fk.c, i, j), PG_RWW) else Entry(s, q, i, j)
    ensures Live(s, q) ==> PteOk(role, Entry(s, q, i, j))
    ensures PteOk(role, Entry(s, fk.c, i, j))
  {
    assert SlotOk(s, role, fk.c) && SlotOk(s, role, fk.ch);
    assert TableOk(s.phys, role, fk.d, fk.c, i);
    assert RowCopied(s, role, fk.d, fk.r, fk.ch, i, fk.phys, fk.role);
    ForkFrame(s, role, fk, fk.d);
    if q != fk.c && q != fk.ch {
      assert SlotOk(s, role, q);
      var d' := s.procs[q].dir.value;
      assert TableOk(s.phys, role, d', q, i);
      ForkFrame(s, role, fk, d');
      var t := At(s.phys, d', i);
      if t != ZERO {
        ForkFrame(s, role, fk, t.frame);
      }
    }
  }

  lemma ForkFrames(s: Sys, role: seq<Role>, fk: Fork)
    requires Forked(s, role, fk)
    ensures FramesOk(AfterFork(s, fk), fk.role[fk.ks := Stack(fk.ch)])
  {
    var s', role' := AfterFork(s, fk), fk.role[fk.ks := Stack(fk.ch)];
    forall f | 0 <= f < |role'| ensures (role'[f] == Free <==> !Used(s'.mem[f])) && s'.mem[f].addr.frame == f {
      SharedUse(s.mem[f], |Named(s.phys, fk.d, USER_DIRS, f)|);
      assert f == fk.ks || s'.mem[f] == fk.mem[f];
    }
  }

  lemma ForkSlot(s: Sys, role: seq<Role>, fk: Fork, q: int)
    requires Forked(s, role, fk) && 0 <= q < |s.procs|
    ensures var pr := AfterFork(s, fk).procs[q]; var role' := fk.role[fk.ks := Stack(fk.ch)];
            && (pr.dir.Some? ==> pr.dir.value < |role'| && role'[pr.dir.value] == Directory(q))
            && (pr.live ==> pr.dir.Some? && pr.kstack < |role'| && role'[pr.kstack] == Stack(q))
  {
    assert SlotOk(s, role, q) && SlotOk(s, role, fk.ch);
  }

  lemma ForkDirectory(s: Sys, role: seq<Role>, fk: Fork, q: int, i: int)
    requires Forked(s, role, fk)
    requires 0 <= i < USER_DIRS && (Live(s, q) || q == fk.ch)
    ensures var s' := AfterFork(s, fk); var role' := fk.role[fk.ks := Stack(fk.ch)];
            && s'.procs[q].dir.Some?
            && var t := At(fk.phys, s'.procs[q].dir.value, i);
               t != ZERO ==> t.frame < |role'| && role'[t.frame] == Table(q, i)
  {
    assert SlotOk(s, role, fk.c) && SlotOk(s, role, fk.ch) && SlotOk(s, role, q);
    if q != fk.ch {
      var d' := s.procs[q].dir.value;
      assert TableOk(s.phys, role, d', q, i);
      ForkFrame(s, role, fk, d');
    } else {
      assert RowCopied(s, role, fk.d, fk.r, fk.ch, i, fk.phys, fk.role);
    }
  }

  lemma ForkTable(s: Sys, role: seq<Role>, fk: Fork, q: int, i: int)
    requires Forked(s, role, fk)
    requires 0 <= i < USER_DIRS && (Live(s, q) || q == fk.ch)
    ensures var s' := AfterFork(s, fk);
            s'.procs[q].dir.Some? && TableOk(s'.phys, fk.role[fk.ks := Stack(fk.ch)], s'.procs[q].dir.value, q, i)
  {
    ForkDirectory(s, role, fk, q, i);
    var s', role' := AfterFork(s, fk), fk.role[fk.ks := Stack(fk.ch)];
    var t := At(fk.phys, s'.procs[q].dir.value, i);
    if t != ZERO {
      forall j | 0 <= j < ENTRIES ensures PteOk(role', At(fk.phys, t.frame, j)) {
        ForkEntry(s, role, fk, q, i, j);
        var e := if q == fk.c || q == fk.ch then Entry(s, fk.c, i, j) else Entry(s, q, i, j);
        ClearedEntry(role, e);
        assert At(fk.phys, t.frame, j) == Entry(s', q, i, j);
      }
    }
  }

  lemma ForkShape(s: Sys, role: seq<Role>, fk: Fork)
    requires Forked(s, role, fk)
    ensures Shape(AfterFork(s, fk), fk.role[fk.ks := Stack(fk.ch)])
  {
    var s', role' := AfterFork(s, fk), fk.role[fk.ks := Stack(fk.ch)];
    ForkFrames(s, role, fk);
    forall q | 0 <= q < |s'.procs| ensures SlotOk(s', role', q) {
      ForkSlot(s, role, fk, q);
      if s'.procs[q].live {
        forall i | 0 <= i < USER_DIRS ensures TableOk(s'.phys, role', s'.procs[q].dir.value, q, i) {
          ForkTable(s, role, fk, q, i);
        }
      }
    }
  }

  /** The child's references are the parent's, renamed. */
  ghost function ChildRefs(s: Sys, fk: Fork, f: int): set<(int, int, int)>
  {
    set x | x in Named(s.phys, fk.d, USER_DIRS, f) :: (fk.ch, x.0, x.1)
  }

  lemma ForkRefs(s: Sys, role: seq<Role>, fk: Fork, f: int)
    requires Forked(s, role, fk)
    ensures Refs(AfterFork(s, fk), f) == Refs(s, f) + ChildRefs(s, fk, f)
    ensures |Refs(AfterFork(s, fk), f)| == |Refs(s, f)| + |Named(s.phys, fk.d, USER_DIRS, f)|
  {
    var s' := AfterFork(s, fk);
    var named, kids := Named(s.phys, fk.d, USER_DIRS, f), ChildRefs(s, fk, f);
    forall x: (int, int, int) ensures x in Refs(s', f) <==> x in Refs(s, f) || x in kids {
      if 0 <= x.1 < USER_DIRS && 0 <= x.2 < ENTRIES && (Live(s, x.0) || x.0 == fk.ch) {
        ForkEntry(s, role, fk, x.0, x.1, x.2);
        ClearedEntry(role, Entry(s, fk.c, x.1, x.2));
        assert x in kids <==> x.0 == fk.ch && (x.1, x.2) in named;
      }
    }
    assert Refs(s', f) == Refs(s, f) + kids;
    var rename := (x: (int, int)) => (fk.ch, x.0, x.1);
    forall y ensures y in kids <==> exists x :: x in named && rename(x) == y {
      if y in kids { assert (y.1, y.2) in named && rename((y.1, y.2)) == y; }
    }
    ImageCard(named, rename, kids);
    assert Refs(s, f) !! kids;
  }

  /** The parent's own entries are among the references already counted. */
  lemma ParentRefs(s: Sys, role: seq<Role>, fk: Fork, f: int)
    requires Forked(s, role, fk)
    ensures |Named(s.phys, fk.d, USER_DIRS, f)| <= |Refs(s, f)|
  {
    var named := Named(s.phys, fk.d, USER_DIRS, f);
    var own := set x | x in Refs(s, f) && x.0 == fk.c;
    var rename := (x: (int, int)) => (fk.c, x.0, x.1);
    forall y ensures y in own <==> exists x :: x in named && rename(x) == y {
      if y in own { assert (y.1, y.2) in named && rename((y.1, y.2)) == y; }
    }
    ImageCard(named, rename, own);
    SubsetCard(own, Refs(s, f));
  }

  /** A frame's count still covers its references after the fork exactly when it did not
      wrap around: the counter is never decremented on exit, so it can reach the top. */
  lemma ForkCountExact(s: Sys, role: seq<Role>, fk: Fork, f: int)
    requires Forked(s, role, fk) && Inv(s, role)
    requires 0 <= f < |role| && role[f] == Data
    ensures f < |AfterFork(s, fk).mem|
    ensures CountOk(AfterFork(s, fk), f) <==> s.mem[f].count + |Named(s.phys, fk.d, USER_DIRS, f)| < COUNT_LIMIT
  {
    assert SlotOk(s, role, fk.ch);
    var s' := AfterFork(s, fk);
    var n := |Named(s.phys, fk.d, USER_DIRS, f)|;
    ForkRefs(s, role, fk, f);
    assert CountOk(s, f);
    assert s'.mem[f] == Shared(s.mem[f], n);
    ParentRefs(s, role, fk, f);
    AdvanceWraps(s.mem[f].count, n);
  }

  lemma NamedAreRefs(s: Sys, role: seq<Role>, fk: Fork, f: int)
    requires Forked(s, role, fk)
    ensures forall x :: x in Named(s.phys, fk.d, USER_DIRS, f) ==> (fk.c, x.0, x.1) in Refs(s, f)
  {
  }

  lemma ForkExclusive(s: Sys, role: seq<Role>, fk: Fork)
    requires Forked(s, role, fk) && Inv(s, role)
    ensures var s' := AfterFork(s, fk);
            forall q, i, j :: Live(s', q) && Mapped(s', q, i, j) ==> ExclusiveOk(s', q, i, j)
  {
    var s' := AfterFork(s, fk);
    forall q, i, j | Live(s', q) && Mapped(s', q, i, j) ensures ExclusiveOk(s', q, i, j) {
      ForkEntry(s, role, fk, q, i, j);
      if q == fk.c || q == fk.ch {
        ClearedEntry(role, Entry(s, fk.c, i, j));
      } else {
        assert ExclusiveOk(s, q, i, j);
        var f := Entry(s, q, i, j).frame;
        ForkRefs(s, role, fk, f);
        if Has(Entry(s, q, i, j), PG_RWW) {
          NamedAreRefs(s, role, fk, f);
          assert Named(s.phys, fk.d, USER_DIRS, f) == {};
        }
      }
    }
  }

  lemma ForkPage(s: Sys, role: seq<Role>, fk: Fork, q: int, i: int, j: int)
    requires Forked(s, role, fk)
    requires 0 <= i < USER_DIRS && 0 <= j < ENTRIES && (Live(s, q) || q == fk.ch)
    ensures SamePage(AfterFork(s, fk), q, s, if q == fk.ch then fk.c else q, i, j)
  {
    var p := if q == fk.ch then fk.c else q;
    ForkEntry(s, role, fk, q, i, j);
    ForkEntry(s, role, fk, p, i, j);
    ClearedEntry(role, Entry(s, p, i, j));
    if Entry(s, p, i, j) != ZERO {
      MappedFrame(s, role, p, i, j);
      ForkFrame(s, role, fk, Entry(s, p, i, j).frame);
    }
  }

  lemma ForkViews(s: Sys, role: seq<Role>, fk: Fork)
    requires Forked(s, role, fk)
    ensures Abs(AfterFork(s, fk)) == EagerFork(Abs(s), fk.c, fk.ch)
  {
    var s' := AfterFork(s, fk);
    forall q | Live(s', q) ensures View(s', q) == View(s, if q == fk.ch then fk.c else q) {
      var p := if q == fk.ch then fk.c else q;
      forall i, j | 0 <= i < USER_DIRS && 0 <= j < ENTRIES ensures SamePage(s', q, s, p, i, j) {
        ForkPage(s, role, fk, q, i, j);
      }
      SameView(s', q, s, p);
    }
    assert Abs(s').Keys == EagerFork(Abs(s), fk.c, fk.ch).Keys;
  }

  /** Sharing frames looks exactly like copying every page. */
  lemma ForkKeeps(s: Sys, role: seq<Role>, fk: Fork)
    requires Forked(s, role, fk) && Inv(s, role) && CountsFit(s, fk.d)
    ensures Inv(AfterFork(s, fk), fk.role[fk.ks := Stack(fk.ch)])
    ensures Abs(AfterFork(s, fk)) == EagerFork(Abs(s), fk.c, fk.ch)
  {
    var s', role' := AfterFork(s, fk), fk.role[fk.ks := Stack(fk.ch)];
    ForkShape(s, role, fk);
    ForkExclusive(s, role, fk);
    ForkViews(s, role, fk);
    forall f | 0 <= f < |role'| && role'[f] == Data ensures CountOk(s', f) {
      ForkCountExact(s, role, fk, f);
    }
  }

  // ----- a slot's first directory (create_dir)

  function AfterDir(s: Sys, ch: int, f: FrameNo): Sys
    requires 0 <= ch < |s.procs| && f < |s.mem| <= MAX_FRAMES
  {
    s.(mem := Taken(s.mem, f), procs := s.procs[ch := s.procs[ch].(dir := Some(f))])
  }

  ghost predicate CanTakeDir(s: Sys, role: seq<Role>, ch: int, f: FrameNo) {
    && Shape(s, role) && 0 <= ch < |s.procs| && !s.procs[ch].live && s.procs[ch].dir == None
    && f < |s.mem| && !Used(s.mem[f])
  }

  lemma DirShape(s: Sys, role: seq<Role>, ch: int, f: FrameNo)
    requires CanTakeDir(s, role, ch, f)
    ensures Shape(AfterDir(s, ch, f), role[f := Directory(ch)])
  {
    var s', role' := AfterDir(s, ch, f), role[f := Directory(ch)];
    forall q | 0 <= q < |s'.procs| ensures SlotOk(s', role', q) {
      assert SlotOk(s, role, q);
      if s'.procs[q].live {
        forall i | 0 <= i < USER_DIRS ensures TableOk(s'.phys, role', s'.procs[q].dir.value, q, i) {
          assert TableOk(s.phys, role, s.procs[q].dir.value, q, i);
        }
      }
    }
  }

  lemma DirViews(s: Sys, role: seq<Role>, ch: int, f: FrameNo)
    requires CanTakeDir(s, role, ch, f)
    ensures Abs(AfterDir(s, ch, f)) == Abs(s)
  {
    var s' := AfterDir(s, ch, f);
    forall q | Live(s', q) ensures View(s', q) == View(s, q) {}
  }

  lemma DirKeeps(s: Sys, role: seq<Role>, ch: int, f: FrameNo)
    requires Inv(s, role) && CanTakeDir(s, role, ch, f)
    ensures Inv(AfterDir(s, ch, f), role[f := Directory(ch)])
    ensures Abs(AfterDir(s, ch, f)) == Abs(s)
    ensures |FreeFrames(AfterDir(s, ch, f).mem)| == |FreeFrames(s.mem)| - 1
  {
    var s', role' := AfterDir(s, ch, f), role[f := Directory(ch)];
    DirShape(s, role, ch, f);
    TakenFree(s.mem, f);
    forall g ensures Refs(s', g) == Refs(s, g) {}
    forall g | 0 <= g < |role'| && role'[g] == Data ensures CountOk(s', g) { assert CountOk(s, g); }
    forall q, k, l | Live(s', q) && Mapped(s', q, k, l) ensures ExclusiveOk(s', q, k, l) {
      assert ExclusiveOk(s, q, k, l);
    }
    DirViews(s, role, ch, f);
  }

  lemma DirCountsFit(s: Sys, role: seq<Role>, ch: int, f: FrameNo, c: int, d: int)
    requires CanTakeDir(s, role, ch, f) && Live(s, c) && s.procs[c].dir == Some(d) && CountsFit(s, d)
    ensures CountsFit(AfterDir(s, ch, f), d)
  {
    OnlyDataNamed(s, role, f);
    var named := Named(s.phys, d, USER_DIRS, f);
    assert forall x :: x in named ==> (c, x.0, x.1) in Refs(s, f);
    assert named == {};
  }

  // ----- process 0 (init_fork)

  /** Slot `p` comes to life with a directory whose user half is empty. */
  function AfterStart(s: Sys, p: int, d: FrameNo, dir: Contents, ks: FrameNo): Sys
    requires 0 <= p < |s.procs| && d < |s.phys| && ks < |s.mem| <= MAX_FRAMES
  {
    Sys(Taken(s.mem, ks), s.phys[d := dir], s.procs[p := Proc(true, Some(d), ks)])
  }

  ghost predicate CanStart(s: Sys, role: seq<Role>, p: int, d: FrameNo, dir: Contents, ks: FrameNo) {
    && Shape(s, role) && 0 <= p < |s.procs| && !s.procs[p].live && s.procs[p].dir == Some(d)
    && d < |s.phys| && ks < |s.mem| && !Used(s.mem[ks])
    && forall i :: 0 <= i < USER_DIRS ==> dir[i] == ZERO
  }

  lemma StartEntries(s: Sys, role: seq<Role>, p: int, d: FrameNo, dir: Contents, ks: FrameNo)
    requires CanStart(s, role, p, d, dir, ks)
    ensures var s' := AfterStart(s, p, d, dir, ks);
            && Shape(s', role[ks := Stack(p)])
            && (forall q, i, j :: Live(s', q) && 0 <= i < USER_DIRS && 0 <= j < ENTRIES ==>
                  if q == p then Entry(s', q, i, j) == ZERO
                  else SamePage(s', q, s, q, i, j) && Entry(s', q, i, j) == Entry(s, q, i, j))
  {
    var s', role' := AfterStart(s, p, d, dir, ks), role[ks := Stack(p)];
    assert SlotOk(s, role, p);
    forall q | 0 <= q < |s'.procs| ensures SlotOk(s', role', q) {
      assert SlotOk(s, role, q);
      if s.procs[q].live {
        forall i | 0 <= i < USER_DIRS ensures TableOk(s'.phys, role', s.procs[q].dir.value, q, i) {
          assert TableOk(s.phys, role, s.procs[q].dir.value, q, i);
          var t := At(s.phys, s.procs[q].dir.value, i);
          if t != ZERO {
            forall j | 0 <= j < ENTRIES ensures PteOk(role', At(s'.phys, t.frame, j)) {
              assert PteOk(role, At(s.phys, t.frame, j));
            }
          }
        }
      }
    }
    forall q, i, j | Live(s', q) && q != p && 0 <= i < USER_DIRS && 0 <= j < ENTRIES
      ensures SamePage(s', q, s, q, i, j) && Entry(s', q, i, j) == Entry(s, q, i, j)
    {
      assert SlotOk(s, role, q) && TableOk(s.phys, role, s.procs[q].dir.value, q, i);
      if Entry(s, q, i, j) != ZERO { MappedFrame(s, role, q, i, j); }
    }
  }

  lemma StartKeeps(s: Sys, role: seq<Role>, p: int, d: FrameNo, dir: Contents, ks: FrameNo)
    requires Inv(s, role) && CanStart(s, role, p, d, dir, ks)
    ensures Inv(AfterStart(s, p, d, dir, ks), role[ks := Stack(p)])
    ensures Abs(AfterStart(s, p, d, dir, ks)) == Abs(s)[p := map[]]
  {
    var s', role' := AfterStart(s, p, d, dir, ks), role[ks := Stack(p)];
    StartEntries(s, role, p, d, dir, ks);
    forall g ensures Refs(s', g) == Refs(s, g) {}
    forall g | 0 <= g < |role'| && role'[g] == Data ensures CountOk(s', g) { assert CountOk(s, g); }
    forall q, k, l | Live(s', q) && Mapped(s', q, k, l) ensures ExclusiveOk(s', q, k, l) {
      assert Mapped(s, q, k, l) && ExclusiveOk(s, q, k, l);
    }
    assert View(s', p) == map[];
    forall q | Live(s, q) ensures View(s', q) == View(s, q) {
      SameView(s', q, s, q);
    }
    assert Abs(s') == Abs(s)[p := map[]];
  }

  lemma TakenTwice(m: seq<Page>, t: int, n: int)
    requires 0 <= t < |m| <= MAX_FRAMES && !Used(m[t]) && 0 <= n < |m| && !Used(Taken(m, t)[n])
    ensures n != t
    ensures |FreeFrames(m[t := Page(Word(t, MP_USE), 0)][n := Page(Word(n, MP_USE), 1)])| == |FreeFrames(m)| - 2
  {
    TakenFree(m, t);
    var m' := Taken(m, t);
    assert Used(m'[t]);
    TakenFree(m', n);
    assert FreeFrames(m'[n := Page(Word(n, MP_USE), 1)]) == FreeFrames(Taken(m', n));
  }
}
