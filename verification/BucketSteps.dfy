/** One lemma per step of kmalloc and kfree: the heap stays well formed, and the live
    blocks change by exactly the block concerned. */
module BucketSteps {
  import opened Words
  import opened Frames
  import opened Buckets

  // ----- handing out the first free slot of descriptor `a`

  function AfterTake(h: Heap, a: Addr): Heap
    requires a in h.descs && h.descs[a].freeptr.Some?
  {
    var d := h.descs[a];
    h.(descs := h.descs[a := d.(freeptr := WordAt(h.words, d.freeptr.value), refcnt := d.refcnt + 1)])
  }

  function TakeShape(sh: Shape, a: Addr): Shape
    requires a in sh.slots && sh.slots[a] != []
  {
    sh.(slots := sh.slots[a := sh.slots[a][1..]])
  }

  ghost predicate CanTake(h: Heap, sh: Shape, a: Addr) {
    && Inv(h, sh) && a in sh.place && sh.place[a].InBucket? && a in h.descs && h.descs[a].freeptr.Some?
  }

  lemma TakeBucket(h: Heap, sh: Shape, a: Addr)
    requires CanTake(h, sh, a)
    ensures a in sh.slots && sh.slots[a] != []
    ensures BucketOk(AfterTake(h, a), TakeShape(sh, a), sh.place[a].b, a)
  {
    Chained(h, sh, a);
    var ks := sh.slots[a];
    var f, size := FrameOf(h.descs[a]), h.descs[a].size;
    assert WordAt(h.words, SlotAddr(f, size, ks[0])) == SlotPtr(f, size, ks, 1);
  }

  /** A chain whose own descriptors keep their `next` fields is still that chain. */
  lemma LinkKept(descs: map<Addr, Desc>, descs': map<Addr, Desc>, head: Ptr, xs: seq<Addr>)
    requires Linked(descs, head, xs)
    requires forall a :: a in xs ==> a in descs' && descs'[a].next == descs[a].next
    ensures Linked(descs', head, xs)
  {
    forall i | 0 <= i < |xs| ensures xs[i] in descs' && NextOk(descs', xs, i) {
      assert NextOk(descs, xs, i);
    }
  }

  lemma TakeInv(h: Heap, sh: Shape, a: Addr)
    requires CanTake(h, sh, a)
    ensures a in sh.slots && sh.slots[a] != []
    ensures Inv(AfterTake(h, a), TakeShape(sh, a))
  {
    Chained(h, sh, a);
    TakeBucket(h, sh, a);
    var h', sh' := AfterTake(h, a), TakeShape(sh, a);
    forall b | 0 <= b < BUCKETS ensures ChainOk(h', sh', b) {
      assert ChainOk(h, sh, b);
      LinkKept(h.descs, h'.descs, h.chain[b], sh.chains[b]);
      forall c | c in sh.chains[b] ensures BucketOk(h', sh', b, c) {
        if c != a { assert BucketOk(h, sh, b, c); }
      }
    }
    forall f | 0 <= f < |sh.owner| ensures OwnerOk(h', sh', f) { assert OwnerOk(h, sh, f); }
    forall c | c in sh'.place ensures PlaceOk(sh', c) { assert PlaceOk(sh, c); }
    assert SpareOk(h, sh);
    LinkKept(h.descs, h'.descs, h.spare, sh.spare);
  }

  lemma Less(j: int, k: int, size: int)
    requires size > 0 && j < k
    ensures j * size < k * size
  {
  }

  lemma Cancel(j: int, k: int, size: int)
    requires size > 0
    ensures j * size == k * size ==> j == k
  {
    if j < k { Less(j, k, size); } else if k < j { Less(k, j, size); }
  }

  /** A block address determines its descriptor and slot. */
  lemma SameBlock(h: Heap, sh: Shape, a: Addr, j: int, c: Addr, k: int)
    requires Inv(h, sh) && a in sh.place && sh.place[a].InBucket? && c in sh.place && sh.place[c].InBucket?
    requires a in h.descs && c in h.descs
    requires BlockOf(h.descs[a], j) == BlockOf(h.descs[c], k)
    ensures a == c && j == k
  {
    Chained(h, sh, a);
    Chained(h, sh, c);
    var size := Size(sh.place[a].b);
    Tables(sh.place[a].b);
    Cancel(j, k, size);
  }

  lemma TakeLive(h: Heap, sh: Shape, a: Addr)
    requires CanTake(h, sh, a)
    ensures a in sh.slots && sh.slots[a] != []
    ensures var x := Block(h.descs[a].freeptr.value, h.descs[a].size);
            && x == BlockOf(h.descs[a], sh.slots[a][0])
            && x !in Live(h, sh) && Live(AfterTake(h, a), TakeShape(sh, a)) == Live(h, sh) + {x}
  {
    Chained(h, sh, a);
    var h', sh' := AfterTake(h, a), TakeShape(sh, a);
    Tables(sh.place[a].b);
    var k0 := sh.slots[a][0];
    var x := BlockOf(h.descs[a], k0);
    forall c, k ensures LiveSlot(h', sh', c, k) <==> LiveSlot(h, sh, c, k) || (c, k) == (a, k0) {
      assert forall y :: y in sh.slots[a] <==> y == k0 || y in sh.slots[a][1..];
    }
    forall y: Block ensures y in Live(h', sh') <==> y in Live(h, sh) || y == x {
      if y in Live(h', sh') { var c, k := LiveBlock(h', sh', y); }
      if y in Live(h, sh) {
        var c, k := LiveBlock(h, sh, y);
        assert LiveSlot(h', sh', c, k) && BlockOf(h'.descs[c], k) == y;
      }
      assert LiveSlot(h', sh', a, k0) && BlockOf(h'.descs[a], k0) == x;
    }
    if x in Live(h, sh) {
      var c, k := LiveBlock(h, sh, x);
      SameBlock(h, sh, a, k0, c, k);
    }
  }

  // ----- putting slot `k` of descriptor `a` back on its free list

  function AfterPut(h: Heap, a: Addr, k: int): Heap
    requires a in h.descs
  {
    var d := h.descs[a];
    var obj := SlotAddr(FrameOf(d), d.size, k);
    h.(words := h.words[obj := d.freeptr],
       descs := h.descs[a := d.(freeptr := Some(obj), refcnt := d.refcnt - 1)])
  }

  function PutShape(sh: Shape, a: Addr, k: int): Shape
    requires a in sh.slots
  {
    sh.(slots := sh.slots[a := [k] + sh.slots[a]])
  }

  /** Writing one word outside every free slot's first word leaves all free lists threaded. */
  lemma ThreadKept(words: map<Addr, Ptr>, words': map<Addr, Ptr>, at: Addr, f: int, size: int, head: Ptr, ks: seq<int>)
    requires Threaded(words, f, size, head, ks)
    requires forall x :: x != at ==> WordAt(words', x) == WordAt(words, x)
    requires forall i :: 0 <= i < |ks| ==> at != SlotAddr(f, size, ks[i])
    ensures Threaded(words', f, size, head, ks)
  {
  }

  /** A slot whose word holds the head of a free list heads the list. */
  lemma ThreadPushed(words: map<Addr, Ptr>, f: int, size: int, head: Ptr, ks: seq<int>, k: int)
    requires Threaded(words, f, size, head, ks) && WordAt(words, SlotAddr(f, size, k)) == head
    ensures Threaded(words, f, size, Some(SlotAddr(f, size, k)), [k] + ks)
  {
    var ks' := [k] + ks;
    forall i | 0 <= i < |ks'| ensures WordAt(words, SlotAddr(f, size, ks'[i])) == SlotPtr(f, size, ks', i + 1) {
      if i > 0 { assert ks'[i] == ks[i - 1]; }
    }
  }

  lemma PutBucket(h: Heap, sh: Shape, a: Addr, k: int)
    requires Inv(h, sh) && LiveSlot(h, sh, a, k)
    ensures BucketOk(AfterPut(h, a, k), PutShape(sh, a, k), sh.place[a].b, a)
  {
    Chained(h, sh, a);
    var d := h.descs[a];
    var h', sh' := AfterPut(h, a, k), PutShape(sh, a, k);
    var f, size, ks := FrameOf(d), d.size, sh.slots[a];
    Tables(sh.place[a].b);
    forall i | 0 <= i < |ks| ensures SlotAddr(f, size, k) != SlotAddr(f, size, ks[i]) {
      Cancel(k, ks[i], size);
    }
    ThreadKept(h.words, h'.words, SlotAddr(f, size, k), f, size, d.freeptr, ks);
    ThreadPushed(h'.words, f, size, d.freeptr, ks, k);
  }

  lemma PutOther(h: Heap, sh: Shape, a: Addr, k: int, b: int, c: Addr)
    requires Inv(h, sh) && LiveSlot(h, sh, a, k) && 0 <= b < BUCKETS && c in sh.chains[b] && c != a
    ensures BucketOk(AfterPut(h, a, k), PutShape(sh, a, k), b, c)
  {
    Chained(h, sh, a);
    assert ChainOk(h, sh, b) && BucketOk(h, sh, b, c);
    assert FrameOf(h.descs[c]) != FrameOf(h.descs[a]);
    ThreadKept(h.words, AfterPut(h, a, k).words, SlotAddr(FrameOf(h.descs[a]), h.descs[a].size, k),
               FrameOf(h.descs[c]), Size(b), h.descs[c].freeptr, sh.slots[c]);
  }

  lemma PutInv(h: Heap, sh: Shape, a: Addr, k: int)
    requires Inv(h, sh) && LiveSlot(h, sh, a, k)
    ensures Inv(AfterPut(h, a, k), PutShape(sh, a, k))
  {
    Chained(h, sh, a);
    PutBucket(h, sh, a, k);
    var h', sh' := AfterPut(h, a, k), PutShape(sh, a, k);
    forall b | 0 <= b < BUCKETS ensures ChainOk(h', sh', b) {
      assert ChainOk(h, sh, b);
      LinkKept(h.descs, h'.descs, h.chain[b], sh.chains[b]);
      forall c | c in sh.chains[b] ensures BucketOk(h', sh', b, c) {
        if c != a { PutOther(h, sh, a, k, b, c); }
      }
    }
    forall f | 0 <= f < |sh.owner| ensures OwnerOk(h', sh', f) { assert OwnerOk(h, sh, f); }
    forall c | c in sh'.place ensures PlaceOk(sh', c) { assert PlaceOk(sh, c); }
    assert SpareOk(h, sh);
    LinkKept(h.descs, h'.descs, h.spare, sh.spare);
  }

  lemma PutLive(h: Heap, sh: Shape, a: Addr, k: int)
    requires Inv(h, sh) && LiveSlot(h, sh, a, k)
    ensures BlockOf(h.descs[a], k) in Live(h, sh)
    ensures Live(AfterPut(h, a, k), PutShape(sh, a, k)) == Live(h, sh) - {BlockOf(h.descs[a], k)}
  {
    Chained(h, sh, a);
    var h', sh' := AfterPut(h, a, k), PutShape(sh, a, k);
    var x := BlockOf(h.descs[a], k);
    Tables(sh.place[a].b);
    assert LiveSlot(h, sh, a, k) && 0 <= k < 256;
    forall c, j ensures LiveSlot(h', sh', c, j) <==> LiveSlot(h, sh, c, j) && (c, j) != (a, k) {}
    forall y: Block ensures y in Live(h', sh') <==> y in Live(h, sh) && y != x {
      if y in Live(h', sh') {
        var c, j := LiveBlock(h', sh', y);
        assert LiveSlot(h, sh, c, j) && BlockOf(h.descs[c], j) == y;
        if y == x { SameBlock(h, sh, a, k, c, j); }
      }
      if y in Live(h, sh) && y != x {
        var c, j := LiveBlock(h, sh, y);
        assert LiveSlot(h', sh', c, j) && BlockOf(h'.descs[c], j) == y;
      }
    }
  }

  // ----- a user's store into a live block

  /** Bytes in a pointer-sized word. */
  const WORD_SIZE := 4

  /** `n` bytes stored from `at` on: words that have no byte there are as they were. */
  ghost predicate Stored(words: map<Addr, Ptr>, words': map<Addr, Ptr>, at: Addr, n: int) {
    forall y: Addr :: y.frame != at.frame || y.off + WORD_SIZE <= at.off || at.off + n <= y.off ==>
      WordAt(words', y) == WordAt(words, y)
  }

  /** The stored bytes lie in block `x`. */
  predicate Within(x: Block, at: Addr, n: int) {
    at.frame == x.at.frame && x.at.off <= at.off && 0 <= n && at.off + n <= x.at.off + x.size
  }

  lemma ThreadUntouched(words: map<Addr, Ptr>, words': map<Addr, Ptr>, f: int, size: int, head: Ptr, ks: seq<int>)
    requires Threaded(words, f, size, head, ks)
    requires forall i :: 0 <= i < |ks| ==> WordAt(words', SlotAddr(f, size, ks[i])) == WordAt(words, SlotAddr(f, size, ks[i]))
    ensures Threaded(words', f, size, head, ks)
  {
  }

  /** Whatever a user writes inside a live block, no list and no other block is disturbed. */
  lemma UserStoreBucket(h: Heap, sh: Shape, a: Addr, k: int, at: Addr, n: int, words: map<Addr, Ptr>, b: int, c: Addr)
    requires Inv(h, sh) && LiveSlot(h, sh, a, k) && 0 <= b < BUCKETS && c in sh.chains[b]
    requires Within(BlockOf(h.descs[a], k), at, n) && Stored(h.words, words, at, n)
    ensures BucketOk(h.(words := words), sh, b, c)
  {
    assert ChainOk(h, sh, b) && BucketOk(h, sh, b, c);
    Chained(h, sh, a);
    Tables(b);
    var ks := sh.slots[c];
    forall i | 0 <= i < |ks|
      ensures var y := SlotAddr(FrameOf(h.descs[c]), Size(b), ks[i]); WordAt(words, y) == WordAt(h.words, y)
    {
      if c == a { BlocksApart(b, at.frame, k, ks[i]); }
    }
    ThreadUntouched(h.words, words, FrameOf(h.descs[c]), Size(b), h.descs[c].freeptr, ks);
  }

  lemma SameLive(h: Heap, sh: Shape, h': Heap, sh': Shape)
    requires forall c, k :: LiveSlot(h', sh', c, k) <==> LiveSlot(h, sh, c, k)
    requires forall c, k :: LiveSlot(h, sh, c, k) ==> c in h'.descs && BlockOf(h'.descs[c], k) == BlockOf(h.descs[c], k)
    ensures Live(h', sh') == Live(h, sh)
  {
    forall y: Block ensures y in Live(h', sh') <==> y in Live(h, sh) {
      if y in Live(h', sh') {
        var c, k := LiveBlock(h', sh', y);
        assert LiveSlot(h, sh, c, k) && BlockOf(h.descs[c], k) == y;
      }
      if y in Live(h, sh) {
        var c, k := LiveBlock(h, sh, y);
        assert LiveSlot(h', sh', c, k) && BlockOf(h'.descs[c], k) == y;
      }
    }
  }

  lemma UserStore(h: Heap, sh: Shape, x: Block, at: Addr, n: int, words: map<Addr, Ptr>)
    requires Inv(h, sh) && x in Live(h, sh) && Within(x, at, n) && Stored(h.words, words, at, n)
    ensures Inv(h.(words := words), sh) && Live(h.(words := words), sh) == Live(h, sh)
  {
    var a, k := LiveBlock(h, sh, x);
    Chained(h, sh, a);
    var h' := h.(words := words);
    forall b | 0 <= b < BUCKETS ensures ChainOk(h', sh, b) {
      assert ChainOk(h, sh, b);
      forall c | c in sh.chains[b] ensures BucketOk(h', sh, b, c) { UserStoreBucket(h, sh, a, k, at, n, words, b, c); }
    }
    forall f | 0 <= f < |sh.owner| ensures OwnerOk(h', sh, f) { assert OwnerOk(h, sh, f); }
    forall c, j ensures LiveSlot(h', sh, c, j) <==> LiveSlot(h, sh, c, j) {}
    SameLive(h, sh, h', sh);
  }

  // ----- a new page for bucket `b`, described by the first spare descriptor

  function Iota(n: nat): seq<int> { seq(n, k => k) }

  /** The page's slots threaded in order, and no other page written. */
  ghost predicate Carved(words: map<Addr, Ptr>, words': map<Addr, Ptr>, f: int, size: int, n: nat) {
    && Threaded(words', f, size, Some(Addr(f, 0)), Iota(n))
    && forall x: Addr :: x.frame != f ==> WordAt(words', x) == WordAt(words, x)
  }

  function AfterNew(h: Heap, b: int, f: int, words: map<Addr, Ptr>): Heap
    requires h.spare.Some? && h.spare.value in h.descs
    requires 0 <= b < BUCKETS && |h.chain| == BUCKETS && 0 <= f < |h.mem| <= MAX_FRAMES
  {
    var a := h.spare.value;
    Heap(Taken(h.mem, f), words,
         h.descs[a := Desc(Some(Addr(f, 0)), h.chain[b], Some(Addr(f, 0)), 0, Size(b))],
         h.chain[b := Some(a)], h.descs[a].next)
  }

  function NewShape(sh: Shape, b: int, f: int): Shape
    requires sh.spare != [] && 0 <= b < BUCKETS && |sh.chains| == BUCKETS && 0 <= f < |sh.owner|
  {
    var a := sh.spare[0];
    Shape(sh.chains[b := [a] + sh.chains[b]], sh.spare[1..], sh.slots[a := Iota(PerPage(b))],
          sh.place[a := InBucket(b)], sh.owner[f := Objects(a)])
  }

  ghost predicate CanNew(h: Heap, sh: Shape, b: int, f: int, words: map<Addr, Ptr>) {
    && Inv(h, sh) && 0 <= b < BUCKETS && sh.spare != [] && 0 <= f < |h.mem| && !Used(h.mem[f])
    && Carved(h.words, words, f, Size(b), PerPage(b))
  }

  lemma SpareHead(h: Heap, sh: Shape)
    requires Inv(h, sh) && sh.spare != []
    ensures h.spare == Some(sh.spare[0]) && sh.spare[0] in h.descs && sh.spare[0] in sh.place && sh.place[sh.spare[0]] == Spare
    ensures h.descs[sh.spare[0]].next == Nth(sh.spare, 1)
    ensures forall b :: 0 <= b < BUCKETS ==> sh.spare[0] !in sh.chains[b]
    ensures sh.spare[0] !in sh.spare[1..]
  {
    assert SpareOk(h, sh) && NextOk(h.descs, sh.spare, 0);
    forall b | 0 <= b < BUCKETS ensures sh.spare[0] !in sh.chains[b] {
      assert ChainOk(h, sh, b);
    }
  }

  lemma PushFront(descs: map<Addr, Desc>, head: Ptr, xs: seq<Addr>, a: Addr)
    requires Linked(descs, head, xs) && a in descs && descs[a].next == head
    ensures Linked(descs, Some(a), [a] + xs)
  {
    var ys := [a] + xs;
    forall i | 0 <= i < |ys| ensures ys[i] in descs && NextOk(descs, ys, i) {
      if i > 0 { assert ys[i] == xs[i - 1] && NextOk(descs, xs, i - 1); }
    }
  }

  /** A descriptor whose own fields, page and free slots are as before is still sound. */
  lemma BucketKept(h: Heap, sh: Shape, h': Heap, sh': Shape, c: int, x: Addr)
    requires 0 <= c < BUCKETS && BucketOk(h, sh, c, x) && |sh'.owner| == |sh.owner|
    requires x in h'.descs && h'.descs[x].(next := None) == h.descs[x].(next := None)
    requires x in sh'.slots && sh'.slots[x] == sh.slots[x]
    requires sh'.owner[FrameOf(h.descs[x])] == sh.owner[FrameOf(h.descs[x])]
    requires forall y: Addr :: y.frame == FrameOf(h.descs[x]) ==> WordAt(h'.words, y) == WordAt(h.words, y)
    ensures BucketOk(h', sh', c, x)
  {
  }

  lemma NewBucketOk(h: Heap, sh: Shape, b: int, f: int, words: map<Addr, Ptr>)
    requires CanNew(h, sh, b, f, words)
    ensures h.spare == Some(sh.spare[0]) && sh.spare[0] in h.descs
    ensures BucketOk(AfterNew(h, b, f, words), NewShape(sh, b, f), b, sh.spare[0])
  {
    SpareHead(h, sh);
    Tables(b);
  }

  lemma NewMember(h: Heap, sh: Shape, b: int, f: int, words: map<Addr, Ptr>, c: int, x: Addr)
    requires CanNew(h, sh, b, f, words) && 0 <= c < BUCKETS && x in sh.chains[c]
    ensures h.spare == Some(sh.spare[0]) && sh.spare[0] in h.descs
    ensures var sh' := NewShape(sh, b, f);
            x in sh'.place && sh'.place[x] == InBucket(c) && BucketOk(AfterNew(h, b, f, words), sh', c, x)
  {
    SpareHead(h, sh);
    assert ChainOk(h, sh, c) && BucketOk(h, sh, c, x) && OwnerOk(h, sh, f);
    BucketKept(h, sh, AfterNew(h, b, f, words), NewShape(sh, b, f), c, x);
  }

  lemma NewMembers(h: Heap, sh: Shape, b: int, f: int, words: map<Addr, Ptr>, c: int)
    requires CanNew(h, sh, b, f, words) && 0 <= c < BUCKETS
    ensures h.spare == Some(sh.spare[0]) && sh.spare[0] in h.descs
    ensures var h', sh' := AfterNew(h, b, f, words), NewShape(sh, b, f);
            forall x :: x in sh.chains[c] ==> x in sh'.place && sh'.place[x] == InBucket(c) && BucketOk(h', sh', c, x)
  {
    SpareHead(h, sh);
    var h', sh' := AfterNew(h, b, f, words), NewShape(sh, b, f);
    forall x | x in sh.chains[c] ensures x in sh'.place && sh'.place[x] == InBucket(c) && BucketOk(h', sh', c, x) {
      NewMember(h, sh, b, f, words, c, x);
    }
  }

  lemma NewChains(h: Heap, sh: Shape, b: int, f: int, words: map<Addr, Ptr>, c: int)
    requires CanNew(h, sh, b, f, words) && 0 <= c < BUCKETS
    ensures h.spare == Some(sh.spare[0]) && sh.spare[0] in h.descs
    ensures ChainOk(AfterNew(h, b, f, words), NewShape(sh, b, f), c)
  {
    NewBucketOk(h, sh, b, f, words);
    SpareHead(h, sh);
    NewMembers(h, sh, b, f, words, c);
    var a := sh.spare[0];
    var h' := AfterNew(h, b, f, words);
    assert ChainOk(h, sh, c);
    LinkKept(h.descs, h'.descs, h.chain[c], sh.chains[c]);
    if c == b {
      PushFront(h'.descs, h.chain[c], sh.chains[c], a);
    }
  }

  lemma NewSpare(h: Heap, sh: Shape, b: int, f: int, words: map<Addr, Ptr>)
    requires CanNew(h, sh, b, f, words)
    ensures h.spare == Some(sh.spare[0]) && sh.spare[0] in h.descs
    ensures SpareOk(AfterNew(h, b, f, words), NewShape(sh, b, f))
  {
    SpareHead(h, sh);
    var h', sh' := AfterNew(h, b, f, words), NewShape(sh, b, f);
    assert SpareOk(h, sh);
    var rest := sh.spare[1..];
    forall i | 0 <= i < |rest| ensures rest[i] in h.descs && NextOk(h.descs, rest, i) {
      assert rest[i] == sh.spare[i + 1] && NextOk(h.descs, sh.spare, i + 1);
    }
    assert Linked(h.descs, Nth(sh.spare, 1), rest);
    LinkKept(h.descs, h'.descs, Nth(sh.spare, 1), rest);
  }

  lemma NewPlaces(h: Heap, sh: Shape, b: int, f: int, words: map<Addr, Ptr>)
    requires CanNew(h, sh, b, f, words)
    ensures h.spare == Some(sh.spare[0]) && sh.spare[0] in h.descs
    ensures var h', sh' := AfterNew(h, b, f, words), NewShape(sh, b, f);
            && (forall x :: x in sh'.place ==> PlaceOk(sh', x))
            && (forall g :: 0 <= g < |sh'.owner| ==> OwnerOk(h', sh', g))
  {
    SpareHead(h, sh);
    var a := sh.spare[0];
    var h', sh' := AfterNew(h, b, f, words), NewShape(sh, b, f);
    assert OwnerOk(h, sh, f);
    forall x | x in sh'.place ensures PlaceOk(sh', x) {
      assert PlaceOk(sh, x);
      assert x != a && sh.place[x] == Spare ==> x in sh.spare[1..];
    }
    forall g | 0 <= g < |sh'.owner| ensures OwnerOk(h', sh', g) { assert OwnerOk(h, sh, g); }
  }

  lemma NewInv(h: Heap, sh: Shape, b: int, f: int, words: map<Addr, Ptr>)
    requires CanNew(h, sh, b, f, words)
    ensures h.spare == Some(sh.spare[0]) && sh.spare[0] in h.descs
    ensures Inv(AfterNew(h, b, f, words), NewShape(sh, b, f))
  {
    SpareHead(h, sh);
    var h', sh' := AfterNew(h, b, f, words), NewShape(sh, b, f);
    forall c | 0 <= c < BUCKETS ensures ChainOk(h', sh', c) { NewChains(h, sh, b, f, words, c); }
    NewPlaces(h, sh, b, f, words);
    NewSpare(h, sh, b, f, words);
    assert AddressesOk(h'.mem);
  }

  /** Preparing a page hands nothing out. */
  lemma NewLive(h: Heap, sh: Shape, b: int, f: int, words: map<Addr, Ptr>)
    requires CanNew(h, sh, b, f, words)
    ensures h.spare == Some(sh.spare[0]) && sh.spare[0] in h.descs
    ensures Live(AfterNew(h, b, f, words), NewShape(sh, b, f)) == Live(h, sh)
  {
    SpareHead(h, sh);
    var h', sh' := AfterNew(h, b, f, words), NewShape(sh, b, f);
    forall k | 0 <= k < PerPage(b) ensures k in Iota(PerPage(b)) { assert Iota(PerPage(b))[k] == k; }
    forall c, k ensures LiveSlot(h', sh', c, k) <==> LiveSlot(h, sh, c, k) {}
    SameLive(h, sh, h', sh');
  }

  // ----- a page of new descriptors (init_bucket_desc)

  function DescAddr(f: int, j: int): Addr { Addr(f, DESC_SIZE * j) }

  function DescAddrs(f: int, n: nat): seq<Addr> { seq(n, j => DescAddr(f, j)) }

  lemma DescAddrsStep(f: int, n: nat)
    ensures DescAddrs(f, n + 1) == DescAddrs(f, n) + [DescAddr(f, n)]
  {
  }

  /** The descriptors `xs` are linked in order, and the last one to `tail`. */
  ghost predicate LeadsTo(descs: map<Addr, Desc>, xs: seq<Addr>, tail: Ptr) {
    && (forall i :: 0 <= i < |xs| ==> xs[i] in descs)
    && (forall i {:trigger descs[xs[i]]} :: 0 <= i < |xs| ==>
              descs[xs[i]].next == if i + 1 < |xs| then Some(xs[i + 1]) else tail)
  }

  /** The page's descriptors, linked in order and on to `tail`; no other descriptor changed. */
  ghost predicate Carving(descs: map<Addr, Desc>, descs': map<Addr, Desc>, f: int, tail: Ptr) {
    && (forall x :: x in descs' <==> x in descs || x in DescAddrs(f, DESCS_PER_PAGE))
    && (forall x :: x in descs && x.frame != f ==> descs'[x] == descs[x])
    && LeadsTo(descs', DescAddrs(f, DESCS_PER_PAGE), tail)
  }

  lemma LinkAppend(descs: map<Addr, Desc>, xs: seq<Addr>, ys: seq<Addr>, tail: Ptr)
    requires xs != [] && LeadsTo(descs, xs, tail) && Linked(descs, tail, ys)
    ensures Linked(descs, Some(xs[0]), xs + ys)
  {
    var zs := xs + ys;
    forall i | 0 <= i < |zs| ensures zs[i] in descs && NextOk(descs, zs, i) {
      if i < |xs| {
        assert zs[i] == xs[i];
        if i + 1 < |xs| { assert zs[i + 1] == xs[i + 1]; } else { assert Nth(zs, i + 1) == Nth(ys, 0); }
      } else {
        assert zs[i] == ys[i - |xs|] && NextOk(descs, ys, i - |xs|);
        assert Nth(zs, i + 1) == Nth(ys, i - |xs| + 1);
      }
    }
  }

  function AfterInit(h: Heap, f: int, descs: map<Addr, Desc>): Heap
    requires 0 <= f < |h.mem| <= MAX_FRAMES
  {
    h.(mem := Taken(h.mem, f), descs := descs, spare := Some(Addr(f, 0)))
  }

  function InitShape(sh: Shape, f: int): Shape
    requires 0 <= f < |sh.owner|
  {
    sh.(spare := DescAddrs(f, DESCS_PER_PAGE) + sh.spare,
        place := sh.place + (map x | x in DescAddrs(f, DESCS_PER_PAGE) :: Spare),
        owner := sh.owner[f := Descriptors])
  }

  ghost predicate CanInit(h: Heap, sh: Shape, f: int, descs: map<Addr, Desc>) {
    Inv(h, sh) && 0 <= f < |h.mem| && !Used(h.mem[f]) && Carving(h.descs, descs, f, h.spare)
  }

  lemma FreshPage(h: Heap, sh: Shape, f: int)
    requires Inv(h, sh) && 0 <= f < |h.mem| && !Used(h.mem[f])
    ensures sh.owner[f] == Nobody
    ensures forall x :: x in sh.place ==> x.frame != f
    ensures forall x :: x in h.descs ==> x.frame != f
    ensures forall x :: x in DescAddrs(f, DESCS_PER_PAGE) ==> x.frame == f
  {
    assert OwnerOk(h, sh, f);
    forall x | x in sh.place ensures x.frame != f { assert PlaceOk(sh, x); }
  }

  lemma InitDistinct(sh: Shape, f: int)
    requires Distinct(sh.spare) && forall x :: x in sh.spare ==> x.frame != f
    ensures Distinct(DescAddrs(f, DESCS_PER_PAGE) + sh.spare)
  {
    var xs, n := DescAddrs(f, DESCS_PER_PAGE) + sh.spare, DESCS_PER_PAGE;
    forall i, j | 0 <= i < j < |xs| ensures xs[i] != xs[j] {
      if i < n { assert xs[i] == DescAddr(f, i); } else { assert xs[i] == sh.spare[i - n]; }
      if j < n { assert xs[j] == DescAddr(f, j); } else { assert xs[j] == sh.spare[j - n]; }
    }
  }

  lemma InitSpare(h: Heap, sh: Shape, f: int, descs: map<Addr, Desc>)
    requires CanInit(h, sh, f, descs)
    ensures SpareOk(AfterInit(h, f, descs), InitShape(sh, f))
  {
    FreshPage(h, sh, f);
    assert SpareOk(h, sh);
    var sh' := InitShape(sh, f);
    var xs := DescAddrs(f, DESCS_PER_PAGE);
    LinkKept(h.descs, descs, h.spare, sh.spare);
    LinkAppend(descs, xs, sh.spare, h.spare);
    forall x | x in sh'.spare ensures x in sh'.place && sh'.place[x] == Spare {
      assert x in xs || x in sh.spare;
    }
    InitDistinct(sh, f);
  }

  lemma InitChains(h: Heap, sh: Shape, f: int, descs: map<Addr, Desc>, b: int)
    requires CanInit(h, sh, f, descs) && 0 <= b < BUCKETS
    ensures ChainOk(AfterInit(h, f, descs), InitShape(sh, f), b)
  {
    FreshPage(h, sh, f);
    var h', sh' := AfterInit(h, f, descs), InitShape(sh, f);
    assert ChainOk(h, sh, b);
    LinkKept(h.descs, descs, h.chain[b], sh.chains[b]);
    forall x | x in sh.chains[b] ensures x in sh'.place && sh'.place[x] == InBucket(b) && BucketOk(h', sh', b, x) {
      assert BucketOk(h, sh, b, x);
      BucketKept(h, sh, h', sh', b, x);
    }
  }

  lemma InitPlaces(h: Heap, sh: Shape, f: int, descs: map<Addr, Desc>)
    requires CanInit(h, sh, f, descs)
    ensures var h', sh' := AfterInit(h, f, descs), InitShape(sh, f);
            && h'.descs.Keys == sh'.place.Keys
            && (forall x :: x in sh'.place ==> PlaceOk(sh', x))
            && (forall g :: 0 <= g < |sh'.owner| ==> OwnerOk(h', sh', g))
  {
    FreshPage(h, sh, f);
    var h', sh' := AfterInit(h, f, descs), InitShape(sh, f);
    forall x | x in sh'.place ensures PlaceOk(sh', x) {
      if x in sh.place { assert PlaceOk(sh, x); } else { assert x in DescAddrs(f, DESCS_PER_PAGE); }
    }
    forall g | 0 <= g < |sh'.owner| ensures OwnerOk(h', sh', g) { assert OwnerOk(h, sh, g); }
  }

  lemma InitInv(h: Heap, sh: Shape, f: int, descs: map<Addr, Desc>)
    requires CanInit(h, sh, f, descs)
    ensures Inv(AfterInit(h, f, descs), InitShape(sh, f))
  {
    var h', sh' := AfterInit(h, f, descs), InitShape(sh, f);
    assert AddressesOk(h'.mem) && |sh'.owner| == |h'.mem|;
    assert |h'.chain| == |sh'.chains| == BUCKETS;
    forall b | 0 <= b < BUCKETS ensures ChainOk(h', sh', b) { InitChains(h, sh, f, descs, b); }
    assert SpareOk(h', sh') by { InitSpare(h, sh, f, descs); }
    InitPlaces(h, sh, f, descs);
  }

  lemma InitLive(h: Heap, sh: Shape, f: int, descs: map<Addr, Desc>)
    requires CanInit(h, sh, f, descs)
    ensures Live(AfterInit(h, f, descs), InitShape(sh, f)) == Live(h, sh)
  {
    FreshPage(h, sh, f);
    var h', sh' := AfterInit(h, f, descs), InitShape(sh, f);
    forall c, k ensures LiveSlot(h', sh', c, k) <==> LiveSlot(h, sh, c, k) {}
    SameLive(h, sh, h', sh');
  }

  // ----- giving back the page of a descriptor with no objects left

  function Without<T>(xs: seq<T>, i: int): seq<T>
    requires 0 <= i < |xs|
  {
    xs[..i] + xs[i + 1..]
  }

  lemma WithoutDistinct<T>(xs: seq<T>, i: int)
    requires Distinct(xs) && 0 <= i < |xs|
    ensures |Without(xs, i)| == |xs| - 1 && Distinct(Without(xs, i))
    ensures forall x :: x in Without(xs, i) <==> x in xs && x != xs[i]
  {
    var ys := Without(xs, i);
    forall x | x in xs && x != xs[i] ensures x in ys {
      var m :| 0 <= m < |xs| && xs[m] == x;
      assert m != i && ys[if m < i then m else m - 1] == x;
    }
    forall m, n | 0 <= m < n < |ys| ensures ys[m] != ys[n] {
      assert ys[m] == xs[if m < i then m else m + 1] && ys[n] == xs[if n < i then n else n + 1];
    }
    forall m | 0 <= m < |ys| ensures ys[m] in xs && ys[m] != xs[i] {
      assert ys[m] == xs[if m < i then m else m + 1];
    }
  }

  function AfterDrop(h: Heap, b: int, a: Addr, prev: Ptr): Heap
    requires a in h.descs && (prev.Some? ==> prev.value in h.descs) && 0 <= b < |h.chain|
    requires 0 <= FrameOf(h.descs[a]) < |h.mem|
  {
    var d := h.descs[a];
    var unlinked := if prev.Some? then h.descs[prev.value := h.descs[prev.value].(next := d.next)] else h.descs;
    h.(mem := Released(h.mem, FrameOf(d)),
       descs := unlinked[a := d.(next := h.spare)],
       chain := if prev.Some? then h.chain else h.chain[b := d.next],
       spare := Some(a))
  }

  function DropShape(sh: Shape, b: int, i: int, f: int): Shape
    requires 0 <= b < |sh.chains| && 0 <= i < |sh.chains[b]| && 0 <= f < |sh.owner|
  {
    var a := sh.chains[b][i];
    sh.(chains := sh.chains[b := Without(sh.chains[b], i)], spare := [a] + sh.spare,
        place := sh.place[a := Spare], owner := sh.owner[f := Nobody])
  }

  /** Descriptor `a` is number `i` of chain `b`, after `prev`, and has no object out. */
  ghost predicate CanDrop(h: Heap, sh: Shape, b: int, i: int, a: Addr, prev: Ptr) {
    && Inv(h, sh) && 0 <= b < BUCKETS && 0 <= i < |sh.chains[b]| && sh.chains[b][i] == a
    && prev == (if i == 0 then None else Some(sh.chains[b][i - 1]))
    && a in h.descs && h.descs[a].refcnt == 0
  }

  lemma DropPre(h: Heap, sh: Shape, b: int, i: int, a: Addr, prev: Ptr)
    requires CanDrop(h, sh, b, i, a, prev)
    ensures a in sh.place && sh.place[a] == InBucket(b) && BucketOk(h, sh, b, a) && 0 <= FrameOf(h.descs[a]) < |h.mem|
    ensures h.descs[a].next == Nth(sh.chains[b], i + 1)
    ensures prev.Some? ==>
              prev.value in h.descs && prev.value != a && prev.value in sh.place && sh.place[prev.value] == InBucket(b)
    ensures a !in sh.spare
  {
    assert ChainOk(h, sh, b) && SpareOk(h, sh);
    assert sh.chains[b][i] in sh.chains[b];
    assert NextOk(h.descs, sh.chains[b], i);
    if i > 0 { assert sh.chains[b][i - 1] in sh.chains[b]; }
  }

  lemma WithoutNth(xs: seq<Addr>, i: int, m: int)
    requires 0 <= i < |xs| && 0 <= m < |xs| - 1
    ensures Without(xs, i)[m] == xs[if m < i then m else m + 1]
    ensures Nth(Without(xs, i), m + 1) == if m == i - 1 then Nth(xs, i + 1) else Nth(xs, (if m < i then m else m + 1) + 1)
  {
    var ys := Without(xs, i);
    if m + 1 < |ys| { assert ys[m + 1] == xs[if m + 1 < i then m + 1 else m + 2]; }
  }

  lemma WithoutHead(xs: seq<Addr>, i: int)
    requires 0 <= i < |xs|
    ensures Nth(Without(xs, i), 0) == if i == 0 then Nth(xs, 1) else Nth(xs, 0)
  {
  }

  /** Unlinking element `i` of a list: its predecessor, or the head, skips it. */
  lemma Unlinked(descs: map<Addr, Desc>, head: Ptr, xs: seq<Addr>, i: int, descs': map<Addr, Desc>, head': Ptr)
    requires Linked(descs, head, xs) && Distinct(xs) && 0 <= i < |xs|
    requires forall m :: 0 <= m < |xs| && m != i ==>
               xs[m] in descs' && descs'[xs[m]].next == if m == i - 1 then descs[xs[i]].next else descs[xs[m]].next
    requires head' == if i == 0 then descs[xs[i]].next else head
    ensures Linked(descs', head', Without(xs, i))
  {
    var ys := Without(xs, i);
    assert NextOk(descs, xs, i);
    forall m | 0 <= m < |ys| ensures ys[m] in descs' && NextOk(descs', ys, m) {
      var n := if m < i then m else m + 1;
      WithoutNth(xs, i, m);
      assert NextOk(descs, xs, n);
    }
    WithoutHead(xs, i);
  }

  lemma DropLinked(h: Heap, sh: Shape, b: int, i: int, a: Addr, prev: Ptr)
    requires CanDrop(h, sh, b, i, a, prev)
    requires 0 <= FrameOf(h.descs[a]) < |h.mem| && (prev.Some? ==> prev.value in h.descs)
    ensures var h' := AfterDrop(h, b, a, prev);
            Linked(h'.descs, h'.chain[b], Without(sh.chains[b], i))
  {
    DropPre(h, sh, b, i, a, prev);
    assert ChainOk(h, sh, b);
    var h' := AfterDrop(h, b, a, prev);
    var xs := sh.chains[b];
    forall m | 0 <= m < |xs| && m != i
      ensures xs[m] in h'.descs && h'.descs[xs[m]].next == if m == i - 1 then h.descs[a].next else h.descs[xs[m]].next
    {
      assert xs[m] != a;
      assert m != i - 1 ==> prev != Some(xs[m]);
    }
    Unlinked(h.descs, h.chain[b], xs, i, h'.descs, h'.chain[b]);
  }

  lemma DropMember(h: Heap, sh: Shape, b: int, i: int, a: Addr, prev: Ptr, c: int, x: Addr)
    requires CanDrop(h, sh, b, i, a, prev) && 0 <= c < BUCKETS && x in sh.chains[c] && x != a
    requires 0 <= FrameOf(h.descs[a]) < |h.mem| && (prev.Some? ==> prev.value in h.descs)
    ensures var h', sh' := AfterDrop(h, b, a, prev), DropShape(sh, b, i, FrameOf(h.descs[a]));
            x in sh'.place && sh'.place[x] == InBucket(c) && BucketOk(h', sh', c, x)
  {
    DropPre(h, sh, b, i, a, prev);
    var h', sh' := AfterDrop(h, b, a, prev), DropShape(sh, b, i, FrameOf(h.descs[a]));
    assert ChainOk(h, sh, c) && BucketOk(h, sh, c, x);
    BucketKept(h, sh, h', sh', c, x);
  }

  lemma DropChains(h: Heap, sh: Shape, b: int, i: int, a: Addr, prev: Ptr, c: int)
    requires CanDrop(h, sh, b, i, a, prev) && 0 <= c < BUCKETS
    requires 0 <= FrameOf(h.descs[a]) < |h.mem| && (prev.Some? ==> prev.value in h.descs)
    ensures ChainOk(AfterDrop(h, b, a, prev), DropShape(sh, b, i, FrameOf(h.descs[a])), c)
  {
    var h', sh' := AfterDrop(h, b, a, prev), DropShape(sh, b, i, FrameOf(h.descs[a]));
    assert ChainOk(h, sh, c) && ChainOk(h, sh, b);
    WithoutDistinct(sh.chains[b], i);
    if c == b {
      DropLinked(h, sh, b, i, a, prev);
    } else {
      DropPre(h, sh, b, i, a, prev);
      LinkKept(h.descs, h'.descs, h.chain[c], sh.chains[c]);
    }
    forall x | x in sh'.chains[c] ensures x in sh'.place && sh'.place[x] == InBucket(c) && BucketOk(h', sh', c, x) {
      DropMember(h, sh, b, i, a, prev, c, x);
    }
  }

  lemma DropSpare(h: Heap, sh: Shape, b: int, i: int, a: Addr, prev: Ptr)
    requires CanDrop(h, sh, b, i, a, prev)
    requires 0 <= FrameOf(h.descs[a]) < |h.mem| && (prev.Some? ==> prev.value in h.descs)
    ensures SpareOk(AfterDrop(h, b, a, prev), DropShape(sh, b, i, FrameOf(h.descs[a])))
  {
    DropPre(h, sh, b, i, a, prev);
    var h' := AfterDrop(h, b, a, prev);
    assert SpareOk(h, sh);
    LinkKept(h.descs, h'.descs, h.spare, sh.spare);
    PushFront(h'.descs, h.spare, sh.spare, a);
  }

  lemma DropPlace(sh: Shape, b: int, i: int, f: int, x: Addr)
    requires |sh.chains| == BUCKETS && 0 <= b < BUCKETS && 0 <= i < |sh.chains[b]| && 0 <= f < |sh.owner|
    requires Distinct(sh.chains[b]) && sh.chains[b][i] in sh.place && sh.place[sh.chains[b][i]] == InBucket(b)
    requires x in sh.place && PlaceOk(sh, x) && sh.owner[f] != Descriptors
    ensures PlaceOk(DropShape(sh, b, i, f), x)
  {
    WithoutDistinct(sh.chains[b], i);
  }

  lemma DropOwner(h: Heap, sh: Shape, b: int, i: int, a: Addr, prev: Ptr, g: int)
    requires CanDrop(h, sh, b, i, a, prev) && 0 <= g < |sh.owner|
    requires 0 <= FrameOf(h.descs[a]) < |h.mem| && (prev.Some? ==> prev.value in h.descs)
    ensures OwnerOk(AfterDrop(h, b, a, prev), DropShape(sh, b, i, FrameOf(h.descs[a])), g)
  {
    DropPre(h, sh, b, i, a, prev);
    assert OwnerOk(h, sh, g);
  }

  lemma DropPlaces(h: Heap, sh: Shape, b: int, i: int, a: Addr, prev: Ptr)
    requires CanDrop(h, sh, b, i, a, prev)
    requires 0 <= FrameOf(h.descs[a]) < |h.mem| && (prev.Some? ==> prev.value in h.descs)
    ensures var h', sh' := AfterDrop(h, b, a, prev), DropShape(sh, b, i, FrameOf(h.descs[a]));
            && (forall x :: x in sh'.place ==> PlaceOk(sh', x))
            && (forall g :: 0 <= g < |sh'.owner| ==> OwnerOk(h', sh', g))
  {
    DropPre(h, sh, b, i, a, prev);
    var f := FrameOf(h.descs[a]);
    var h', sh' := AfterDrop(h, b, a, prev), DropShape(sh, b, i, f);
    assert ChainOk(h, sh, b);
    forall x | x in sh'.place ensures PlaceOk(sh', x) { DropPlace(sh, b, i, f, x); }
    forall g | 0 <= g < |sh'.owner| ensures OwnerOk(h', sh', g) { DropOwner(h, sh, b, i, a, prev, g); }
  }

  /** Distinct numbers below `n` are at most `n`. */
  lemma {:induction false} Bounded(ks: seq<int>, n: nat)
    requires DistinctBelow(ks, n)
    ensures |ks| <= n
    decreases n
  {
    assert ks != [] ==> 0 <= ks[0] < n;
    if n > 0 {
      if m :| 0 <= m < |ks| && ks[m] == n - 1 {
        WithoutDistinct(ks, m);
        var rest := Without(ks, m);
        assert forall i :: 0 <= i < |rest| ==> rest[i] in rest;
        assert forall i :: 0 <= i < |ks| ==> ks[i] in ks;
        Bounded(rest, n - 1);
      } else {
        Bounded(ks, n - 1);
      }
    }
  }

  /** A free list as long as the page holds every slot. */
  lemma Pigeonhole(ks: seq<int>, n: nat, k: int)
    requires DistinctBelow(ks, n) && |ks| == n && 0 <= k < n
    ensures k in ks
  {
    if k !in ks {
      Bounded(ks + [k], n);
    }
  }

  /** The page given back held no live slot. */
  lemma DropSlots(h: Heap, sh: Shape, b: int, i: int, a: Addr, prev: Ptr)
    requires CanDrop(h, sh, b, i, a, prev)
    requires 0 <= FrameOf(h.descs[a]) < |h.mem| && (prev.Some? ==> prev.value in h.descs)
    ensures var h', sh' := AfterDrop(h, b, a, prev), DropShape(sh, b, i, FrameOf(h.descs[a]));
            forall c, k :: LiveSlot(h', sh', c, k) <==> LiveSlot(h, sh, c, k)
  {
    DropPre(h, sh, b, i, a, prev);
    var h', sh' := AfterDrop(h, b, a, prev), DropShape(sh, b, i, FrameOf(h.descs[a]));
    forall c, k ensures LiveSlot(h', sh', c, k) <==> LiveSlot(h, sh, c, k) {
      if c == a && 0 <= k < PerPage(b) { Pigeonhole(sh.slots[a], PerPage(b), k); }
    }
  }

  /** Giving back an empty page loses no live block. */
  lemma DropKeeps(h: Heap, sh: Shape, b: int, i: int, a: Addr, prev: Ptr)
    requires CanDrop(h, sh, b, i, a, prev)
    ensures 0 <= FrameOf(h.descs[a]) < |h.mem| && (prev.Some? ==> prev.value in h.descs)
    ensures var h', sh' := AfterDrop(h, b, a, prev), DropShape(sh, b, i, FrameOf(h.descs[a]));
            Inv(h', sh') && Live(h', sh') == Live(h, sh) && !Used(h'.mem[FrameOf(h.descs[a])])
  {
    DropPre(h, sh, b, i, a, prev);
    var h', sh' := AfterDrop(h, b, a, prev), DropShape(sh, b, i, FrameOf(h.descs[a]));
    forall c | 0 <= c < BUCKETS ensures ChainOk(h', sh', c) { DropChains(h, sh, b, i, a, prev, c); }
    DropSpare(h, sh, b, i, a, prev);
    DropPlaces(h, sh, b, i, a, prev);
    DropSlots(h, sh, b, i, a, prev);
    SameLive(h, sh, h', sh');
  }

  // ----- reading the reference count

  /** All `n` slots on the list means the list is that long. */
  lemma {:induction false} AllListed(ks: seq<int>, n: nat)
    requires Distinct(ks) && forall k :: 0 <= k < n ==> k in ks
    ensures |ks| >= n
    decreases n
  {
    if n > 0 {
      assert n - 1 in ks;
      var m :| 0 <= m < |ks| && ks[m] == n - 1;
      WithoutDistinct(ks, m);
      AllListed(Without(ks, m), n - 1);
    }
  }

  /** The reference count is zero exactly when no block of the page is live. */
  lemma CountZero(h: Heap, sh: Shape, a: Addr)
    requires Inv(h, sh) && a in sh.place && sh.place[a].InBucket? && a in h.descs
    ensures h.descs[a].refcnt >= 0
    ensures h.descs[a].refcnt == 0 <==> forall x :: x in Live(h, sh) ==> x.at.frame != FrameOf(h.descs[a])
  {
    Chained(h, sh, a);
    var b, ks := sh.place[a].b, sh.slots[a];
    Tables(b);
    Bounded(ks, PerPage(b));
    if h.descs[a].refcnt == 0 {
      forall x | x in Live(h, sh) ensures x.at.frame != FrameOf(h.descs[a]) {
        var c, k := LiveBlock(h, sh, x);
        Chained(h, sh, c);
        if c == a { Pigeonhole(ks, PerPage(b), k); }
      }
    } else {
      if forall k :: 0 <= k < PerPage(b) ==> k in ks { AllListed(ks, PerPage(b)); }
      var k :| 0 <= k < PerPage(b) && k !in ks;
      assert LiveSlot(h, sh, a, k) && BlockOf(h.descs[a], k) in Live(h, sh);
    }
  }

  /** A page found on a chain belongs to the block whose page it is. */
  lemma PageOwner(h: Heap, sh: Shape, a: Addr, c: Addr)
    requires Inv(h, sh) && a in sh.place && sh.place[a].InBucket? && c in sh.place && sh.place[c].InBucket?
    requires a in h.descs && c in h.descs && h.descs[c].page == Some(Addr(FrameOf(h.descs[a]), 0))
    ensures c == a
  {
    Chained(h, sh, a);
    Chained(h, sh, c);
  }

  lemma FreeListNonempty(h: Heap, sh: Shape, a: Addr)
    requires CanTake(h, sh, a)
    ensures a in sh.slots && sh.slots[a] != []
  {
    Chained(h, sh, a);
  }

  /** No page but possibly that of `a` is entirely free. */
  ghost predicate BusyBut(h: Heap, sh: Shape, a: Addr) {
    forall c :: c in sh.place && c != a && sh.place[c].InBucket? && c in h.descs ==> h.descs[c].refcnt > 0
  }

  /** Everything kmalloc's last step keeps; only `a` may have come in with no object out. */
  lemma TakeKeeps(h: Heap, sh: Shape, a: Addr, h': Heap)
    requires CanTake(h, sh, a) && BusyBut(h, sh, a) && h' == AfterTake(h, a)
    ensures a in sh.slots && sh.slots[a] != []
    ensures Inv(h', TakeShape(sh, a)) && Busy(h', TakeShape(sh, a))
    ensures 0 <= sh.place[a].b < BUCKETS
    ensures var x := Block(h.descs[a].freeptr.value, Size(sh.place[a].b));
            x !in Live(h, sh) && Live(h', TakeShape(sh, a)) == Live(h, sh) + {x}
  {
    Chained(h, sh, a);
    CountZero(h, sh, a);
    TakeInv(h, sh, a);
    TakeLive(h, sh, a);
  }

  // ----- threading a fresh page

  /** The words after the first `m` slots have been pointed at their successors. */
  function CarveWords(words: map<Addr, Ptr>, f: int, size: int, m: nat): map<Addr, Ptr> {
    if m == 0 then words
    else CarveWords(words, f, size, m - 1)[SlotAddr(f, size, m - 1) := Some(SlotAddr(f, size, m))]
  }

  lemma {:induction false} CarveWordsAt(words: map<Addr, Ptr>, f: int, size: int, m: nat)
    requires size > 0
    ensures forall x: Addr :: x.frame != f ==> WordAt(CarveWords(words, f, size, m), x) == WordAt(words, x)
    ensures forall k :: 0 <= k < m ==>
              WordAt(CarveWords(words, f, size, m), SlotAddr(f, size, k)) == Some(SlotAddr(f, size, k + 1))
  {
    if m > 0 {
      CarveWordsAt(words, f, size, m - 1);
      forall k | 0 <= k < m - 1 ensures SlotAddr(f, size, k) != SlotAddr(f, size, m - 1) {
        Cancel(k, m - 1, size);
      }
    }
  }

  lemma CarvedSlot(words: map<Addr, Ptr>, f: int, size: int, n: nat, k: int)
    requires size > 0 && 0 <= k < n
    ensures WordAt(CarveWords(words, f, size, n - 1)[SlotAddr(f, size, n - 1) := None], SlotAddr(f, size, k)) ==
            if k + 1 < n then Some(SlotAddr(f, size, k + 1)) else None
  {
    CarveWordsAt(words, f, size, n - 1);
    if k < n - 1 { Cancel(k, n - 1, size); }
  }

  lemma CarvedPage(words: map<Addr, Ptr>, f: int, size: int, n: nat)
    requires size > 0 && n > 0
    ensures Carved(words, CarveWords(words, f, size, n - 1)[SlotAddr(f, size, n - 1) := None], f, size, n)
  {
    CarveWordsAt(words, f, size, n - 1);
    var words' := CarveWords(words, f, size, n - 1)[SlotAddr(f, size, n - 1) := None];
    var ks := Iota(n);
    forall k | 0 <= k < n ensures WordAt(words', SlotAddr(f, size, ks[k])) == SlotPtr(f, size, ks, k + 1) {
      CarvedSlot(words, f, size, n, k);
      assert ks[k] == k && (k + 1 < n ==> ks[k + 1] == k + 1);
    }
  }

  /** Everything the new page keeps. */
  lemma NewKeeps(h: Heap, sh: Shape, b: int, f: int, words: map<Addr, Ptr>, h': Heap)
    requires CanNew(h, sh, b, f, words) && Busy(h, sh)
    requires h.spare.Some? && h.spare.value in h.descs && h' == AfterNew(h, b, f, words)
    ensures Inv(h', NewShape(sh, b, f)) && Live(h', NewShape(sh, b, f)) == Live(h, sh)
    ensures CanTake(h', NewShape(sh, b, f), h.spare.value) && NewShape(sh, b, f).place[h.spare.value] == InBucket(b)
    ensures BusyBut(h', NewShape(sh, b, f), h.spare.value)
  {
    SpareHead(h, sh);
    NewInv(h, sh, b, f, words);
    NewLive(h, sh, b, f, words);
  }

  /** Everything the page of descriptors keeps. */
  lemma InitKeeps(h: Heap, sh: Shape, f: int, descs: map<Addr, Desc>, h': Heap)
    requires CanInit(h, sh, f, descs) && Busy(h, sh) && h' == AfterInit(h, f, descs)
    ensures Inv(h', InitShape(sh, f)) && Busy(h', InitShape(sh, f))
    ensures Live(h', InitShape(sh, f)) == Live(h, sh)
    ensures |FreeFrames(h'.mem)| == |FreeFrames(h.mem)| - 1
  {
    FreshPage(h, sh, f);
    InitInv(h, sh, f, descs);
    InitLive(h, sh, f, descs);
    TakenFree(h.mem, f);
  }

  /** A descriptor of which only `next` has been set. */
  function Blank(next: Ptr): Desc { Desc(None, next, None, 0, 0) }

  /** The descriptors after the first `m` of page `f` have been linked to their successors. */
  function LinkDescs(descs: map<Addr, Desc>, f: int, m: nat): map<Addr, Desc> {
    if m == 0 then descs else LinkDescs(descs, f, m - 1)[DescAddr(f, m - 1) := Blank(Some(DescAddr(f, m)))]
  }

  lemma {:induction false} LinkDescsKeys(descs: map<Addr, Desc>, f: int, m: nat)
    ensures forall x :: x in LinkDescs(descs, f, m) <==> x in descs || x in DescAddrs(f, m)
    ensures forall x :: x in descs && x.frame != f ==> LinkDescs(descs, f, m)[x] == descs[x]
    decreases m
  {
    if m > 0 {
      LinkDescsKeys(descs, f, m - 1);
      DescAddrsStep(f, m - 1);
    }
  }

  lemma {:induction false} LinkDescsNext(descs: map<Addr, Desc>, f: int, m: nat, k: int)
    requires 0 <= k < m
    ensures DescAddr(f, k) in LinkDescs(descs, f, m)
    ensures LinkDescs(descs, f, m)[DescAddr(f, k)].next == Some(DescAddr(f, k + 1))
    decreases m
  {
    if k < m - 1 { LinkDescsNext(descs, f, m - 1, k); }
  }

  lemma LinkDescsAt(descs: map<Addr, Desc>, f: int, m: nat)
    ensures forall x :: x in LinkDescs(descs, f, m) <==> x in descs || x in DescAddrs(f, m)
    ensures forall x :: x in descs && x.frame != f ==> LinkDescs(descs, f, m)[x] == descs[x]
    ensures forall k :: 0 <= k < m ==> DescAddr(f, k) in LinkDescs(descs, f, m) &&
                                       LinkDescs(descs, f, m)[DescAddr(f, k)].next == Some(DescAddr(f, k + 1))
  {
    LinkDescsKeys(descs, f, m);
    forall k | 0 <= k < m
      ensures DescAddr(f, k) in LinkDescs(descs, f, m)
              && LinkDescs(descs, f, m)[DescAddr(f, k)].next == Some(DescAddr(f, k + 1))
    {
      LinkDescsNext(descs, f, m, k);
    }
  }

  lemma CarvedDescs(descs: map<Addr, Desc>, f: int, tail: Ptr)
    ensures Carving(descs, LinkDescs(descs, f, DESCS_PER_PAGE - 1)[DescAddr(f, DESCS_PER_PAGE - 1) := Blank(tail)], f, tail)
  {
    var n := DESCS_PER_PAGE;
    LinkDescsAt(descs, f, n - 1);
    DescAddrsStep(f, n - 1);
    var descs' := LinkDescs(descs, f, n - 1)[DescAddr(f, n - 1) := Blank(tail)];
    var xs := DescAddrs(f, n);
    forall i | 0 <= i < |xs| ensures xs[i] in descs' && descs'[xs[i]].next == if i + 1 < |xs| then Some(xs[i + 1]) else tail {
      assert xs[i] == DescAddr(f, i);
      assert i + 1 < |xs| ==> xs[i + 1] == DescAddr(f, i + 1);
    }
  }

  /** No other live block shares the page of `x`. */
  ghost predicate LastOnPage(h: Heap, sh: Shape, x: Block) {
    forall y :: y in Live(h, sh) && y != x ==> y.at.frame != x.at.frame
  }

  /** Everything a freed slot keeps; `a` may now have no object out. */
  lemma PutKeeps(h: Heap, sh: Shape, a: Addr, k: int, h': Heap)
    requires Inv(h, sh) && Busy(h, sh) && LiveSlot(h, sh, a, k) && h' == AfterPut(h, a, k)
    ensures Inv(h', PutShape(sh, a, k)) && BusyBut(h', PutShape(sh, a, k), a)
    ensures BlockOf(h.descs[a], k) in Live(h, sh)
    ensures Live(h', PutShape(sh, a, k)) == Live(h, sh) - {BlockOf(h.descs[a], k)}
    ensures h'.descs[a].refcnt == 0 <==> LastOnPage(h, sh, BlockOf(h.descs[a], k))
  {
    PutInv(h, sh, a, k);
    PutLive(h, sh, a, k);
    CountZero(h', PutShape(sh, a, k), a);
  }

  lemma DropBusy(h: Heap, sh: Shape, b: int, i: int, a: Addr, prev: Ptr)
    requires CanDrop(h, sh, b, i, a, prev) && BusyBut(h, sh, a)
    requires 0 <= FrameOf(h.descs[a]) < |h.mem| && (prev.Some? ==> prev.value in h.descs)
    ensures Busy(AfterDrop(h, b, a, prev), DropShape(sh, b, i, FrameOf(h.descs[a])))
  {
    var h' := AfterDrop(h, b, a, prev);
    forall c | c in h'.descs && c != a ensures c in h.descs && h'.descs[c].refcnt == h.descs[c].refcnt {}
  }

  lemma ReleasedFree(m: seq<Page>, f: int)
    requires 0 <= f < |m|
    ensures FreeFrames(Released(m, f)) == FreeFrames(m) + {f}
  {
    assert !Used(Released(m, f)[f]);
  }

  /** Everything the returned page keeps. */
  lemma ReturnKeeps(h: Heap, sh: Shape, b: int, i: int, a: Addr, prev: Ptr)
    requires CanDrop(h, sh, b, i, a, prev) && BusyBut(h, sh, a)
    ensures 0 <= FrameOf(h.descs[a]) < |h.mem| && (prev.Some? ==> prev.value in h.descs)
    ensures var h', sh' := AfterDrop(h, b, a, prev), DropShape(sh, b, i, FrameOf(h.descs[a]));
            && Inv(h', sh') && Live(h', sh') == Live(h, sh)
    ensures Busy(AfterDrop(h, b, a, prev), DropShape(sh, b, i, FrameOf(h.descs[a])))
    ensures FreeFrames(AfterDrop(h, b, a, prev).mem) == FreeFrames(h.mem) + {FrameOf(h.descs[a])}
  {
    DropKeeps(h, sh, b, i, a, prev);
    ReleasedFree(h.mem, FrameOf(h.descs[a]));
    DropBusy(h, sh, b, i, a, prev);
  }

  // ----- kfree as a whole

  /** Where kfree finds the descriptor of a live slot: number `i` of chain `b`, after `prev`. */
  ghost predicate Found(h: Heap, sh: Shape, b: int, i: int, a: Addr, prev: Ptr) {
    && 0 <= b < |sh.chains| == BUCKETS && 0 <= i < |sh.chains[b]| && sh.chains[b][i] == a
    && prev == (if i == 0 then None else Some(sh.chains[b][i - 1]))
  }

  /** The heap after one object is put back and, if it was the last, its page returned. */
  ghost predicate Freed(h: Heap, a: Addr, k: int, b: int, prev: Ptr, h': Heap)
    requires a in h.descs
  {
    var h1 := AfterPut(h, a, k);
    if h1.descs[a].refcnt != 0 then h' == h1 else
      && (prev.Some? ==> prev.value in h1.descs) && 0 <= b < |h1.chain| && 0 <= FrameOf(h1.descs[a]) < |h1.mem|
      && h' == AfterDrop(h1, b, a, prev)
  }

  ghost function FreedShape(h: Heap, sh: Shape, a: Addr, k: int, b: int, i: int): Shape
    requires a in h.descs && a in sh.slots && 0 <= b < |sh.chains| && 0 <= i < |sh.chains[b]|
    requires 0 <= FrameOf(h.descs[a]) < |sh.owner|
  {
    var sh1 := PutShape(sh, a, k);
    if h.descs[a].refcnt - 1 != 0 then sh1 else DropShape(sh1, b, i, FrameOf(h.descs[a]))
  }

  lemma FreeKeeps(h: Heap, sh: Shape, a: Addr, k: int, b: int, i: int, prev: Ptr, h': Heap)
    requires Inv(h, sh) && Busy(h, sh) && LiveSlot(h, sh, a, k) && Found(h, sh, b, i, a, prev)
    requires Freed(h, a, k, b, prev, h')
    ensures 0 <= FrameOf(h.descs[a]) < |sh.owner|
    ensures var sh' := FreedShape(h, sh, a, k, b, i);
            && Inv(h', sh') && Busy(h', sh')
            && Live(h', sh') == Live(h, sh) - {BlockOf(h.descs[a], k)}
            && FreeFrames(h'.mem) == FreeFrames(h.mem) +
                 if LastOnPage(h, sh, BlockOf(h.descs[a], k)) then {FrameOf(h.descs[a])} else {}
  {
    Chained(h, sh, a);
    var h1, sh1 := AfterPut(h, a, k), PutShape(sh, a, k);
    PutKeeps(h, sh, a, k, h1);
    if h1.descs[a].refcnt == 0 {
      ReturnKeeps(h1, sh1, b, i, a, prev);
    }
  }

  /** What the search of kfree relies on. */
  ghost predicate CanFind(h: Heap, sh: Shape, a: Addr, B: int) {
    && |h.chain| == |sh.chains| == BUCKETS && 0 <= B < BUCKETS && a in h.descs && h.descs[a].size == Size(B)
    && (forall c :: 0 <= c < BUCKETS ==> Linked(h.descs, h.chain[c], sh.chains[c]) && Distinct(sh.chains[c]))
    && (forall c :: 0 <= c < BUCKETS ==> (a in sh.chains[c] <==> c == B))
    && (forall c, d ::
          0 <= c < BUCKETS && d in sh.chains[c] && d in h.descs && h.descs[d].page == Some(Addr(FrameOf(h.descs[a]), 0)) ==>
          d == a)
    && h.descs[a].page == Some(Addr(FrameOf(h.descs[a]), 0)) && 0 <= FrameOf(h.descs[a]) < |h.mem| && AddressesOk(h.mem)
  }

  lemma FindReady(h: Heap, sh: Shape, x: Block) returns (a: Addr, k: int)
    requires Inv(h, sh) && x in Live(h, sh)
    ensures LiveSlot(h, sh, a, k) && x == BlockOf(h.descs[a], k)
    ensures CanFind(h, sh, a, sh.place[a].b)
  {
    a, k := LiveBlock(h, sh, x);
    Chained(h, sh, a);
    forall c | 0 <= c < BUCKETS
      ensures Linked(h.descs, h.chain[c], sh.chains[c]) && Distinct(sh.chains[c]) && (a in sh.chains[c] <==> c == sh.place[a].b)
    {
      assert ChainOk(h, sh, c);
    }
    forall c, d | 0 <= c < BUCKETS && d in sh.chains[c] && d in h.descs && h.descs[d].page == Some(Addr(FrameOf(h.descs[a]), 0))
      ensures d == a
    {
      assert ChainOk(h, sh, c);
      PageOwner(h, sh, a, d);
    }
  }

  // ----- frames that others take and give back

  predicate HeapOwned(o: Owner) { o.Descriptors? || o.Objects? }

  /** Others may do what they like with frames that are not the heap's. */
  ghost predicate Others(h: Heap, sh: Shape, h': Heap, sh': Shape) {
    && h' == h.(mem := h'.mem) && sh' == sh.(owner := sh'.owner) && AddressesOk(h'.mem)
    && |sh'.owner| == |h'.mem| == |sh.owner|
    && forall f :: 0 <= f < |sh.owner| ==>
         && (sh'.owner[f] == Nobody <==> !Used(h'.mem[f]))
         && (HeapOwned(sh.owner[f]) || HeapOwned(sh'.owner[f]) ==> sh'.owner[f] == sh.owner[f])
  }

  /** The heap does not notice. */
  lemma OthersKeep(h: Heap, sh: Shape, h': Heap, sh': Shape)
    requires Inv(h, sh) && Others(h, sh, h', sh')
    ensures Inv(h', sh') && Live(h', sh') == Live(h, sh) && (Busy(h', sh') <==> Busy(h, sh))
  {
    forall f | 0 <= f < |sh'.owner| ensures OwnerOk(h', sh', f) { assert OwnerOk(h, sh, f); }
    forall a | a in sh'.place ensures PlaceOk(sh', a) { assert PlaceOk(sh, a); }
    forall b | 0 <= b < BUCKETS ensures ChainOk(h', sh', b) {
      assert ChainOk(h, sh, b);
      forall a | a in sh.chains[b] ensures BucketOk(h', sh', b, a) { assert BucketOk(h, sh, b, a); }
    }
    assert SpareOk(h, sh);
    forall a, k ensures LiveSlot(h', sh', a, k) <==> LiveSlot(h, sh, a, k) {}
    SameLive(h, sh, h', sh');
  }

  lemma OthersTaken(h: Heap, sh: Shape, f: int)
    requires Inv(h, sh) && 0 <= f < |h.mem| && !Used(h.mem[f])
    ensures Others(h, sh, h.(mem := Taken(h.mem, f)), sh.(owner := sh.owner[f := Elsewhere]))
  {
    assert Used(Taken(h.mem, f)[f]);
    forall g | 0 <= g < |sh.owner| ensures sh.owner[g] == Nobody <==> !Used(h.mem[g]) { assert OwnerOk(h, sh, g); }
  }

  lemma OthersReleased(h: Heap, sh: Shape, f: int)
    requires Inv(h, sh) && 0 <= f < |h.mem| && sh.owner[f] == Elsewhere
    ensures Others(h, sh, h.(mem := Released(h.mem, f)), sh.(owner := sh.owner[f := Nobody]))
    ensures !Used(Released(h.mem, f)[f])
  {
    assert !Used(Released(h.mem, f)[f]);
    forall g | 0 <= g < |sh.owner| ensures sh.owner[g] == Nobody <==> !Used(h.mem[g]) { assert OwnerOk(h, sh, g); }
  }
}
