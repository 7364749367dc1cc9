/** The shape of the kmalloc heap (mm/malloc.c): descriptor chains, the spare descriptor
    list, free lists threaded through the object pages, and the live blocks they stand for. */
module Buckets {
  import opened Words
  import opened Frames

  /** A kernel address, as page frame and offset within the page. */
  datatype Addr = Addr(frame: int, off: int)

  type Ptr = Option<Addr>

  /** `struct bucket_desc` */
  datatype Desc = Desc(page: Ptr, next: Ptr, freeptr: Ptr, refcnt: int, size: int)

  const BUCKETS := 9

  /** `bucket_dir[b].size`: 16, 32, ... 4096 */
  function Size(b: nat): nat { if b == 0 then 16 else 2 * Size(b - 1) }

  /** Objects in a page of bucket `b`: 256, 128, ... 1 */
  function PerPage(b: nat): nat
    decreases 8 - b
  {
    if b >= 8 then 1 else 2 * PerPage(b + 1)
  }

  const DESC_SIZE := 16
  const DESCS_PER_PAGE := 256

  /** `words` holds the pointer-sized word stored at an address; `chain[b]` is `bucket_dir[b].chain`. */
  datatype Heap = Heap(mem: seq<Page>, words: map<Addr, Ptr>, descs: map<Addr, Desc>, chain: seq<Ptr>, spare: Ptr)

  function WordAt(words: map<Addr, Ptr>, a: Addr): Ptr { if a in words then words[a] else None }

  // ----- ghost shape

  datatype Place = InBucket(b: int) | Spare

  datatype Owner = Nobody | Elsewhere | Descriptors | Objects(a: Addr)

  /** Where everything is: the chains and the spare list as sequences, the free slots of each
      chained descriptor, and, backwards, the place of a descriptor and the owner of a frame. */
  datatype Shape = Shape(chains: seq<seq<Addr>>, spare: seq<Addr>, slots: map<Addr, seq<int>>,
                         place: map<Addr, Place>, owner: seq<Owner>)

  function Nth(xs: seq<Addr>, i: int): Ptr { if 0 <= i < |xs| then Some(xs[i]) else None }

  /** Descriptor number `i` leads to the next one. */
  ghost predicate NextOk(descs: map<Addr, Desc>, xs: seq<Addr>, i: int)
    requires 0 <= i < |xs| && xs[i] in descs
  {
    descs[xs[i]].next == Nth(xs, i + 1)
  }

  /** `head` leads through the `next` fields to exactly the descriptors `xs`. */
  ghost predicate Linked(descs: map<Addr, Desc>, head: Ptr, xs: seq<Addr>) {
    && head == Nth(xs, 0)
    && (forall i :: 0 <= i < |xs| ==> xs[i] in descs)
    && (forall i :: 0 <= i < |xs| ==> NextOk(descs, xs, i))
  }

  function SlotAddr(f: int, size: int, k: int): Addr { Addr(f, k * size) }

  function SlotPtr(f: int, size: int, ks: seq<int>, i: int): Ptr {
    if 0 <= i < |ks| then Some(SlotAddr(f, size, ks[i])) else None
  }

  /** `head` leads through the first words of slots of page `f` to exactly the slots `ks`. */
  ghost predicate Threaded(words: map<Addr, Ptr>, f: int, size: int, head: Ptr, ks: seq<int>) {
    && head == SlotPtr(f, size, ks, 0)
    && forall i {:trigger WordAt(words, SlotAddr(f, size, ks[i]))} :: 0 <= i < |ks| ==>
         WordAt(words, SlotAddr(f, size, ks[i])) == SlotPtr(f, size, ks, i + 1)
  }

  ghost predicate Distinct<T>(xs: seq<T>) {
    forall i, j :: 0 <= i < j < |xs| ==> xs[i] != xs[j]
  }

  ghost predicate DistinctBelow(ks: seq<int>, n: int) {
    && (forall i :: 0 <= i < |ks| ==> 0 <= ks[i] < n)
    && Distinct(ks)
  }

  function FrameOf(d: Desc): int { if d.page.Some? then d.page.value.frame else -1 }

  /** A chained descriptor: its page is its own, its free list holds distinct slots of that
      page, and the slots not on the list are the `refcnt` objects handed out. */
  ghost predicate BucketOk(h: Heap, sh: Shape, b: int, a: Addr)
    requires 0 <= b < BUCKETS
  {
    && a in h.descs && a in sh.slots
    && var d := h.descs[a]; var f := FrameOf(d);
       && 0 <= f < |sh.owner| && sh.owner[f] == Objects(a) && d.page == Some(Addr(f, 0))
       && d.size == Size(b)
       && DistinctBelow(sh.slots[a], PerPage(b))
       && Threaded(h.words, f, Size(b), d.freeptr, sh.slots[a])
       && d.refcnt + |sh.slots[a]| == PerPage(b)
  }

  ghost predicate PlaceOk(sh: Shape, a: Addr)
    requires a in sh.place
  {
    && 0 <= a.frame < |sh.owner| && sh.owner[a.frame] == Descriptors
    && match sh.place[a]
       case InBucket(b) => 0 <= b < |sh.chains| && a in sh.chains[b]
       case Spare => a in sh.spare
  }

  ghost predicate OwnerOk(h: Heap, sh: Shape, f: int)
    requires 0 <= f < |sh.owner| == |h.mem|
  {
    && (sh.owner[f] == Nobody <==> !Used(h.mem[f]))
    && (sh.owner[f].Objects? ==>
          var a := sh.owner[f].a; a in sh.place && sh.place[a].InBucket? && a in h.descs && h.descs[a].page == Some(Addr(f, 0)))
  }

  ghost predicate ChainOk(h: Heap, sh: Shape, b: int)
    requires |sh.chains| == |h.chain| == BUCKETS && 0 <= b < BUCKETS
  {
    && Linked(h.descs, h.chain[b], sh.chains[b]) && Distinct(sh.chains[b])
    && forall a :: a in sh.chains[b] ==> a in sh.place && sh.place[a] == InBucket(b) && BucketOk(h, sh, b, a)
  }

  ghost predicate SpareOk(h: Heap, sh: Shape) {
    && Linked(h.descs, h.spare, sh.spare) && Distinct(sh.spare)
    && forall a :: a in sh.spare ==> a in sh.place && sh.place[a] == Spare
  }

  /** The heap is well formed: every descriptor ever carved is in exactly one chain or on the
      spare list, every chained descriptor is sound, and pages are not shared. */
  ghost predicate Inv(h: Heap, sh: Shape) {
    && AddressesOk(h.mem) && |sh.owner| == |h.mem|
    && |h.chain| == |sh.chains| == BUCKETS
    && h.descs.Keys == sh.place.Keys
    && (forall a :: a in sh.place ==> PlaceOk(sh, a))
    && (forall f :: 0 <= f < |sh.owner| ==> OwnerOk(h, sh, f))
    && (forall b :: 0 <= b < BUCKETS ==> ChainOk(h, sh, b))
    && SpareOk(h, sh)
  }

  /** No chained page is entirely free: empty pages have been given back. */
  ghost predicate Busy(h: Heap, sh: Shape) {
    forall a :: a in sh.place && sh.place[a].InBucket? && a in h.descs ==> h.descs[a].refcnt > 0
  }

  // ----- live blocks

  datatype Block = Block(at: Addr, size: int)

  predicate Overlap(x: Block, y: Block) {
    x.at.frame == y.at.frame && x.at.off < y.at.off + y.size && y.at.off < x.at.off + x.size
  }

  ghost predicate LiveSlot(h: Heap, sh: Shape, a: Addr, k: int) {
    && a in h.descs && a in sh.place && sh.place[a].InBucket? && 0 <= sh.place[a].b < BUCKETS && a in sh.slots
    && 0 <= k < PerPage(sh.place[a].b) && k !in sh.slots[a]
  }

  function BlockOf(d: Desc, k: int): Block { Block(SlotAddr(FrameOf(d), d.size, k), d.size) }

  /** The blocks handed out and not yet given back. */
  ghost function Live(h: Heap, sh: Shape): set<Block> {
    set a, k | a in h.descs && 0 <= k < 256 && LiveSlot(h, sh, a, k) :: BlockOf(h.descs[a], k)
  }

  /** The directory's sizes, and how many objects of each size fill a page. */
  lemma Tables(b: int)
    requires 0 <= b < BUCKETS
    ensures Size(b) == [16, 32, 64, 128, 256, 512, 1024, 2048, 4096][b]
    ensures Size(b) * PerPage(b) == 4096 && PerPage(b) == 4096 / Size(b)
    ensures Size(b) >= 16 && 1 <= PerPage(b) <= 256
  {
    assert Size(2) == 64 && Size(4) == 256 && Size(6) == 1024 && Size(8) == 4096;
    assert PerPage(6) == 4 && PerPage(4) == 16 && PerPage(2) == 64 && PerPage(0) == 256;
  }

  /** Different slots of one size do not reach into each other, and stay inside the page. */
  lemma SlotsApart(size: int, n: int, j: int, k: int)
    requires size > 0 && size * n == 4096 && 0 <= j < k < n
    ensures j * size + size <= k * size && k * size + size <= 4096
  {
    assert (k - j) * size >= size;
    assert (n - k) * size >= size;
  }

  lemma Chained(h: Heap, sh: Shape, a: Addr)
    requires Inv(h, sh) && a in sh.place && sh.place[a].InBucket?
    ensures 0 <= sh.place[a].b < BUCKETS && a in sh.chains[sh.place[a].b]
    ensures BucketOk(h, sh, sh.place[a].b, a)
  {
    assert PlaceOk(sh, a);
    assert ChainOk(h, sh, sh.place[a].b);
  }

  lemma LiveBlock(h: Heap, sh: Shape, x: Block) returns (a: Addr, k: int)
    requires x in Live(h, sh)
    ensures LiveSlot(h, sh, a, k) && x == BlockOf(h.descs[a], k)
  {
    a, k :| a in h.descs && 0 <= k < 256 && LiveSlot(h, sh, a, k) && x == BlockOf(h.descs[a], k);
  }

  lemma BlocksApart(b: int, f: int, j: int, k: int)
    requires 0 <= b < BUCKETS && 0 <= j < PerPage(b) && 0 <= k < PerPage(b) && j != k
    ensures !Overlap(Block(SlotAddr(f, Size(b), j), Size(b)), Block(SlotAddr(f, Size(b), k), Size(b)))
  {
    Tables(b);
    if j < k { SlotsApart(Size(b), PerPage(b), j, k); } else { SlotsApart(Size(b), PerPage(b), k, j); }
  }

  /** Two blocks that are both live are the same block or do not overlap. */
  lemma LiveApart(h: Heap, sh: Shape, x: Block, y: Block)
    requires Inv(h, sh) && x in Live(h, sh) && y in Live(h, sh) && x != y
    ensures !Overlap(x, y)
  {
    var a, j := LiveBlock(h, sh, x);
    var c, k := LiveBlock(h, sh, y);
    Chained(h, sh, a);
    Chained(h, sh, c);
    if x.at.frame == y.at.frame {
      BlocksApart(sh.place[a].b, x.at.frame, j, k);
    }
  }
}
