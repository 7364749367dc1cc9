/** The first-fit heap of single bytes tracked by a bitmap (mm/mm.c:174-230). */
module BitmapHeap {
  import opened Words

  const MAX_SIZE := 128 * 1024
  const MAP_BYTES := 131072
  const UNITS := 8 * MAP_BYTES

  // ----- one byte of the map; unit 0 of a byte is its top bit

  predicate Bit(b: bv8, j: nat)
    requires j < 8
  {
    (b >> (7 - j)) & 1 == 1
  }

  /** `>>` on a `char`, which is signed: the sign bit comes in from the left. */
  function Asr(b: bv8, k: nat): bv8
    requires k < 8
  {
    if b & 0x80 == 0 then b >> k else (b >> k) | !(0xFF >> k)
  }

  /** The byte `vmalloc` writes back to mark its unit `j`. */
  function Marked(b: bv8, j: nat): bv8
    requires j < 8
  {
    var s1 := Asr(b, 7 - j);
    ((s1 | 1) << (7 - j)) | b
  }

  /** The byte `vfree` writes back to clear its unit `j`. */
  function Cleared(b: bv8, j: nat): bv8
    requires j < 8
  {
    var s1 := Asr(b, 7 - j);
    var s2 := b << (j + 1);
    ((s1 & 0xFE) << (7 - j)) | (s2 >> (j + 1))
  }

  lemma MarkedBits(b: bv8, j: nat)
    requires j < 8
    ensures Bit(Marked(b, j), 0) == (j == 0 || Bit(b, 0))
    ensures Bit(Marked(b, j), 1) == (j == 1 || Bit(b, 1))
    ensures Bit(Marked(b, j), 2) == (j == 2 || Bit(b, 2))
    ensures Bit(Marked(b, j), 3) == (j == 3 || Bit(b, 3))
    ensures Bit(Marked(b, j), 4) == (j == 4 || Bit(b, 4))
    ensures Bit(Marked(b, j), 5) == (j == 5 || Bit(b, 5))
    ensures Bit(Marked(b, j), 6) == (j == 6 || Bit(b, 6))
    ensures Bit(Marked(b, j), 7) == (j == 7 || Bit(b, 7))
  {
    if j == 0 {} else if j == 1 {} else if j == 2 {} else if j == 3 {}
    else if j == 4 {} else if j == 5 {} else if j == 6 {} else { assert j == 7; }
  }

  lemma MarkedBit(b: bv8, j: nat, k: nat)
    requires j < 8 && k < 8
    ensures Bit(Marked(b, j), k) == (k == j || Bit(b, k))
  {
    MarkedBits(b, j);
    if k == 0 {} else if k == 1 {} else if k == 2 {} else if k == 3 {}
    else if k == 4 {} else if k == 5 {} else if k == 6 {} else { assert k == 7; }
  }

  lemma ClearedBits(b: bv8, j: nat)
    requires j < 8
    ensures Bit(Cleared(b, j), 0) == (j != 0 && Bit(b, 0))
    ensures Bit(Cleared(b, j), 1) == (j != 1 && Bit(b, 1))
    ensures Bit(Cleared(b, j), 2) == (j != 2 && Bit(b, 2))
    ensures Bit(Cleared(b, j), 3) == (j != 3 && Bit(b, 3))
    ensures Bit(Cleared(b, j), 4) == (j != 4 && Bit(b, 4))
    ensures Bit(Cleared(b, j), 5) == (j != 5 && Bit(b, 5))
    ensures Bit(Cleared(b, j), 6) == (j != 6 && Bit(b, 6))
    ensures Bit(Cleared(b, j), 7) == (j != 7 && Bit(b, 7))
  {
    if j == 0 {} else if j == 1 {} else if j == 2 {} else if j == 3 {}
    else if j == 4 {} else if j == 5 {} else if j == 6 {} else { assert j == 7; }
  }

  lemma ClearedBit(b: bv8, j: nat, k: nat)
    requires j < 8 && k < 8
    ensures Bit(Cleared(b, j), k) == (k != j && Bit(b, k))
  {
    ClearedBits(b, j);
    if k == 0 {} else if k == 1 {} else if k == 2 {} else if k == 3 {}
    else if k == 4 {} else if k == 5 {} else if k == 6 {} else { assert k == 7; }
  }

  // ----- the map as a row of units

  predicate Used(bytes: seq<bv8>, i: int)
    requires 0 <= i < 8 * |bytes|
  {
    Bit(bytes[i / 8], i % 8)
  }

  function Units(bytes: seq<bv8>): (u: seq<bool>)
    ensures |u| == 8 * |bytes|
  {
    seq(8 * |bytes|, i requires 0 <= i < 8 * |bytes| => Used(bytes, i))
  }

  /** `n` units from `p` on, all free. */
  predicate FreeRun(u: seq<bool>, p: int, n: int) {
    0 <= p && 0 <= n && p + n <= |u| && forall i :: p <= i < p + n ==> !u[i]
  }

  ghost predicate LowestRun(u: seq<bool>, p: int, n: int) {
    FreeRun(u, p, n) && forall q :: 0 <= q < p ==> !FreeRun(u, q, n)
  }

  /** Units [p, p + n) set to `v`. */
  function Painted(u: seq<bool>, p: int, n: int, v: bool): (w: seq<bool>)
    ensures |w| == |u|
  {
    seq(|u|, i requires 0 <= i < |u| => if p <= i < p + n then v else u[i])
  }

  /** Where the search ends for a request of nothing: behind the first unit in use. */
  predicate BehindFirstUsed(u: seq<bool>, p: int) {
    if p == 0 then forall i :: 0 <= i < |u| ==> !u[i]
    else 0 < p <= |u| && u[p - 1] && forall i :: 0 <= i < p - 1 ==> !u[i]
  }

  /** Rewriting one byte so that only unit `i` of the map changes. */
  lemma UnitSet(bytes: seq<bv8>, i: int, b: bv8, v: bool)
    requires 0 <= i < 8 * |bytes|
    requires forall k {:trigger Bit(b, k)} :: 0 <= k < 8 ==> Bit(b, k) == if k == i % 8 then v else Bit(bytes[i / 8], k)
    ensures Units(bytes[i / 8 := b]) == Units(bytes)[i := v]
  {
    var was, now := Units(bytes), Units(bytes[i / 8 := b]);
    forall k | 0 <= k < |now| ensures now[k] == was[i := v][k] {
      if k / 8 == i / 8 {
        assert Bit(b, k % 8) == if k % 8 == i % 8 then v else Bit(bytes[i / 8], k % 8);
      }
    }
  }

  lemma MarkedUnit(bytes: seq<bv8>, i: int)
    requires 0 <= i < 8 * |bytes|
    ensures Units(bytes[i / 8 := Marked(bytes[i / 8], i % 8)]) == Units(bytes)[i := true]
  {
    var b, j := bytes[i / 8], i % 8;
    forall k | 0 <= k < 8 ensures Bit(Marked(b, j), k) == if k == j then true else Bit(b, k) { MarkedBit(b, j, k); }
    UnitSet(bytes, i, Marked(b, j), true);
  }

  lemma ClearedUnit(bytes: seq<bv8>, i: int)
    requires 0 <= i < 8 * |bytes|
    ensures Units(bytes[i / 8 := Cleared(bytes[i / 8], i % 8)]) == Units(bytes)[i := false]
  {
    var b, j := bytes[i / 8], i % 8;
    forall k | 0 <= k < 8 ensures Bit(Cleared(b, j), k) == if k == j then false else Bit(b, k) { ClearedBit(b, j, k); }
    UnitSet(bytes, i, Cleared(b, j), false);
  }

  lemma TestedBit(b: bv8, j: nat)
    requires j < 8
    ensures (Asr(b, 7 - j) & 1 == 1) == Bit(b, j)
  {
    if j == 0 {} else if j == 1 {} else if j == 2 {} else if j == 3 {}
    else if j == 4 {} else if j == 5 {} else if j == 6 {} else { assert j == 7; }
  }

  /** The bit the search tests is the unit's, whatever sign the byte has. */
  lemma TestedUnit(bytes: seq<bv8>, i: int)
    requires 0 <= i < 8 * |bytes|
    ensures (Asr(bytes[i / 8], 7 - i % 8) & 1 == 1) == Units(bytes)[i]
  {
    TestedBit(bytes[i / 8], i % 8);
  }

  class Heap {
    const mmap: array<bv8>

    /** The address of unit 0. */
    const start: int

    ghost predicate Valid() { mmap.Length == MAP_BYTES }

    /** `load_memory_size` and `init_paging`, taking the map to start out clear. */
    constructor (heapStart: int)
      ensures Valid() && fresh(mmap) && start == heapStart
      ensures forall i :: 0 <= i < UNITS ==> !Units(mmap[..])[i]
    {
      mmap := new bv8[MAP_BYTES](_ => 0);
      start := heapStart;
    }

    /** The search loop: the lowest free run of `size` units. */
    method Search(size: int) returns (p: int)
      requires Valid() && 0 <= size
      requires size > 0 ==> exists q :: FreeRun(Units(mmap[..]), q, size)
      ensures size > 0 ==> LowestRun(Units(mmap[..]), p, size)
      ensures size == 0 ==> BehindFirstUsed(Units(mmap[..]), p)
    {
      ghost var u := Units(mmap[..]);
      p := 0;
      var count, i := 0, 0;
      while i < 1024 * 1024
        invariant 0 <= p && 0 <= i <= UNITS && p + count == i
        invariant size > 0 ==> 0 <= count < size
        invariant size == 0 ==> p == 0
        invariant forall k :: p <= k < i ==> !u[k]
        invariant size > 0 ==> forall q :: 0 <= q < p ==> !FreeRun(u, q, size)
      {
        var j := i / 8;
        var tmp := Asr(mmap[j], 8 - (i - j * 8) - 1);
        TestedUnit(mmap[..], i);
        i := i + 1;
        if tmp & 1 == 1 {
          assert u[i - 1];
          assert size > 0 ==> forall q :: p <= q < i ==> !FreeRun(u, q, size);
          count := 0;
          p := i;
        } else {
          count := count + 1;
        }
        if count == size { break; }
      }
    }

    method MarkUnit(i: int)
      requires Valid() && 0 <= i < UNITS
      modifies mmap
      ensures Units(mmap[..]) == Units(old(mmap[..]))[i := true]
    {
      var j := i / 8;
      MarkedUnit(mmap[..], i);
      mmap[j] := Marked(mmap[j], i - j * 8);
    }

    method ClearUnit(i: int)
      requires Valid() && 0 <= i < UNITS
      modifies mmap
      ensures Units(mmap[..]) == Units(old(mmap[..]))[i := false]
    {
      var j := i / 8;
      ClearedUnit(mmap[..], i);
      mmap[j] := Cleared(mmap[j], i - j * 8);
    }

    /** `vmalloc`: the address of the lowest run of free bytes, now marked. */
    method Vmalloc(size: int) returns (r: Option<int>)
      requires Valid() && 0 <= size < COUNT_LIMIT
      requires 0 < size <= MAX_SIZE ==> exists q :: FreeRun(Units(mmap[..]), q, size)
      modifies mmap
      ensures size > MAX_SIZE ==> r == None && mmap[..] == old(mmap[..])
      ensures 0 < size <= MAX_SIZE ==>
                r.Some? && LowestRun(Units(old(mmap[..])), r.value - start, size)
                && Units(mmap[..]) == Painted(Units(old(mmap[..])), r.value - start, size, true)
      ensures size == 0 ==> mmap[..] == old(mmap[..])
                            && BehindFirstUsed(Units(mmap[..]), if r.None? then UNITS else r.value - start)
    {
      if size > MAX_SIZE { return None; }
      ghost var u := Units(mmap[..]);
      var p := Search(size);
      for i := p to p + size
        invariant Units(mmap[..]) == Painted(u, p, i - p, true)
        invariant size == 0 ==> mmap[..] == old(mmap[..])
      {
        MarkUnit(i);
      }
      var end := start + 1024 * 1024 - 1;
      if start + p > end { return None; }
      r := Some(start + p);
    }

    /** `vfree`: exactly the bytes handed in become free. */
    method Vfree(ptr: int, size: int)
      requires Valid() && start <= ptr && 0 <= size && ptr - start + size <= UNITS
      modifies mmap
      ensures Units(mmap[..]) == Painted(Units(old(mmap[..])), ptr - start, size, false)
    {
      ghost var u := Units(mmap[..]);
      var offset := ptr - start;
      for i := offset to offset + size
        invariant Units(mmap[..]) == Painted(u, offset, i - offset, false)
      {
        ClearUnit(i);
      }
    }
  }

  // ----- whole runs

  /** The units and the blocks handed out, each from its first unit with its size. */
  datatype Space = Space(units: seq<bool>, live: map<int, int>)

  datatype Event = Alloc(size: int, p: int) | Free(p: int)

  predicate Within(p: int, n: int, i: int) { p <= i < p + n }

  /** Live blocks lie in the map, apart from each other, and a unit is marked exactly when
      one of them covers it. */
  ghost predicate Ok(s: Space) {
    && (forall p :: p in s.live ==> 0 <= p && 0 < s.live[p] && p + s.live[p] <= |s.units|)
    && (forall p, q :: p in s.live && q in s.live && p < q ==> p + s.live[p] <= q)
    && (forall i :: 0 <= i < |s.units| ==> (s.units[i] <==> exists p :: p in s.live && Within(p, s.live[p], i)))
  }

  /** What the two methods of `Heap` do, a caller freeing only what it holds. */
  ghost predicate Step(s: Space, e: Event, s': Space) {
    match e
    case Alloc(size, p) =>
      && 0 < size <= MAX_SIZE && LowestRun(s.units, p, size)
      && s' == Space(Painted(s.units, p, size, true), s.live[p := size])
    case Free(p) =>
      p in s.live && s' == Space(Painted(s.units, p, s.live[p], false), s.live - {p})
  }

  /** A free run touches no live block. */
  lemma FreeApart(s: Space, size: int, p: int, q: int)
    requires Ok(s) && 0 < size && FreeRun(s.units, p, size) && q in s.live
    ensures q + s.live[q] <= p || p + size <= q
  {
    var i := if q < p then p else q;
    if Within(q, s.live[q], i) { assert s.units[i]; }
  }

  lemma AllocKeeps(s: Space, size: int, p: int)
    requires Ok(s) && 0 < size && FreeRun(s.units, p, size)
    ensures p !in s.live && Ok(Space(Painted(s.units, p, size, true), s.live[p := size]))
  {
    var s' := Space(Painted(s.units, p, size, true), s.live[p := size]);
    forall q | q in s.live ensures q + s.live[q] <= p || p + size <= q { FreeApart(s, size, p, q); }
    forall i | 0 <= i < |s'.units| ensures s'.units[i] <==> exists q :: q in s'.live && Within(q, s'.live[q], i) {
      if Within(p, size, i) {
        assert p in s'.live && Within(p, s'.live[p], i);
      } else {
        assert forall q :: q in s'.live && Within(q, s'.live[q], i) ==> q in s.live && s.live[q] == s'.live[q];
        assert forall q :: q in s.live && Within(q, s.live[q], i) ==> q in s'.live && s.live[q] == s'.live[q];
      }
    }
  }

  lemma FreeKeeps(s: Space, p: int)
    requires Ok(s) && p in s.live
    ensures Ok(Space(Painted(s.units, p, s.live[p], false), s.live - {p}))
  {
    var s' := Space(Painted(s.units, p, s.live[p], false), s.live - {p});
    forall i | 0 <= i < |s'.units| ensures s'.units[i] <==> exists q :: q in s'.live && Within(q, s'.live[q], i) {
      assert forall q :: q in s'.live ==> q in s.live && q != p && s'.live[q] == s.live[q];
      if !Within(p, s.live[p], i) && s.units[i] {
        var q :| q in s.live && Within(q, s.live[q], i);
        assert q in s'.live && Within(q, s'.live[q], i);
      }
    }
  }

  ghost predicate Run(ss: seq<Space>, es: seq<Event>) {
    && |ss| == |es| + 1
    && forall k :: 0 <= k < |es| ==> Step(ss[k], es[k], ss[k + 1])
  }

  /** Over any run, live blocks never overlap and the map marks exactly what they cover. */
  lemma {:induction false} RunKeeps(ss: seq<Space>, es: seq<Event>)
    requires Run(ss, es) && Ok(ss[0])
    ensures Ok(ss[|es|])
    decreases |es|
  {
    if |es| > 0 {
      var n := |es| - 1;
      RunKeeps(ss[..n + 1], es[..n]);
      assert Step(ss[n], es[n], ss[n + 1]);
      match es[n]
      case Alloc(size, p) => AllocKeeps(ss[n], size, p);
      case Free(p) => FreeKeeps(ss[n], p);
    }
  }

  /** Freeing what was just allocated restores the map, and the next request of that size is
      served from the same place. */
  lemma AllocThenFree(u: seq<bool>, p: int, n: int)
    requires 0 < n && LowestRun(u, p, n)
    ensures Painted(Painted(u, p, n, true), p, n, false) == u
    ensures forall q :: LowestRun(Painted(Painted(u, p, n, true), p, n, false), q, n) ==> q == p
  {
    assert Painted(Painted(u, p, n, true), p, n, false) == u;
  }
}
