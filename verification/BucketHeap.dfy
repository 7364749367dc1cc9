/** kmalloc and kfree (mm/malloc.c), working in place on linked descriptors and on the
    free lists inside the pages. */
module BucketHeap {
  import opened Words
  import opened Frames
  import opened Buckets
  import opened BucketSteps

  const PAGE_SIZE := 4096

  /** Sizes grow along the directory, so nothing over a page fits. */
  lemma {:induction false} TablesRise(b: nat)
    requires b < BUCKETS
    ensures Size(b) <= 4096
  {
    Tables(b);
  }

  class Allocator {
    const memMap: array<Page>
    const chain: array<Ptr>
    var words: map<Addr, Ptr>
    var descs: map<Addr, Desc>
    var spare: Ptr
    ghost var shape: Shape

    ghost function Snap(): Heap
      reads this, memMap, chain
    {
      Heap(memMap[..], words, descs, chain[..], spare)
    }

    /** Well formed, and holding on to no page that is entirely free. */
    ghost predicate Valid()
      reads this, memMap, chain
    {
      memMap as object != chain && Inv(Snap(), shape) && Busy(Snap(), shape)
    }

    ghost function Blocks(): set<Block>
      reads this, memMap, chain
    {
      Live(Snap(), shape)
    }

    /** At boot no bucket exists; `kernel` frames are taken. */
    constructor (frames: nat, kernel: nat)
      requires kernel <= frames <= MAX_FRAMES
      ensures Valid() && Blocks() == {}
      ensures memMap.Length == frames
    {
      memMap := new Page[frames](f requires 0 <= f < frames => Page(Word(f, if f < kernel then MP_USE else 0), 1));
      chain := new Ptr[BUCKETS](_ => None);
      words, descs, spare := map[], map[], None;
      shape := Shape(seq(BUCKETS, _ => []), [], map[], map[], seq(frames, f => if f < kernel then Elsewhere else Nobody));
      new;
      forall b | 0 <= b < BUCKETS ensures ChainOk(Snap(), shape, b) {}
      forall f | 0 <= f < frames ensures OwnerOk(Snap(), shape, f) {}
      assert Blocks() == {};
    }

    /** The bucket of the smallest size that holds `len` bytes. */
    ghost predicate Fits(b: int, len: nat) {
      0 <= b < BUCKETS && len <= Size(b) && (b > 0 ==> Size(b - 1) < len)
    }

    ghost predicate HasSlot(b: int)
      requires 0 <= b < BUCKETS && |shape.chains| == BUCKETS
      reads this
    {
      exists i :: 0 <= i < |shape.chains[b]| && shape.chains[b][i] in descs && descs[shape.chains[b][i]].freeptr.Some?
    }

    /** Frames the request will take: none, a page of objects, or that and a page of descriptors. */
    ghost function FramesNeeded(b: int): nat
      requires 0 <= b < BUCKETS && |shape.chains| == BUCKETS
      reads this
    {
      if HasSlot(b) then 0 else if spare.Some? then 1 else 2
    }

    /** The loop of `init_bucket_desc`: only the `next` field of the new descriptors is set. */
    method ChainDescs(f: int)
      modifies this`descs
      ensures Carving(old(descs), descs, f, spare)
    {
      var bdesc, i := Addr(f, 0), PAGE_SIZE / DESC_SIZE;
      ghost var j := 0;
      while i > 1
        invariant 0 <= j < DESCS_PER_PAGE && i == DESCS_PER_PAGE - j && bdesc == DescAddr(f, j)
        invariant descs == LinkDescs(old(descs), f, j)
      {
        descs := descs[bdesc := Blank(Some(Addr(bdesc.frame, bdesc.off + DESC_SIZE)))];
        bdesc := Addr(bdesc.frame, bdesc.off + DESC_SIZE);
        j := j + 1;
        i := i - 1;
      }
      descs := descs[bdesc := Blank(spare)];
      CarvedDescs(old(descs), f, spare);
    }

    /** The stores of `init_bucket_desc`. */
    method FillDescPage() returns (ghost f: int)
      requires memMap as object != chain && AddressesOk(memMap[..]) && HasFree(memMap[..])
      modifies this, memMap
      ensures 0 <= f < memMap.Length && !Used(old(memMap[..])[f]) && memMap[..] == Taken(old(memMap[..]), f)
      ensures Carving(old(descs), descs, f, old(spare)) && spare == Some(Addr(f, 0))
      ensures words == old(words) && shape == old(shape)
    {
      var page := GetFreePage(memMap);
      f := page.frame;
      ChainDescs(page.frame);
      spare := Some(Addr(page.frame, 0));
    }

    /** `init_bucket_desc` */
    method InitBucketDesc()
      requires Valid() && HasFree(memMap[..]) && spare == None
      modifies this, memMap
      ensures Valid() && Blocks() == old(Blocks())
      ensures spare.Some? && shape.chains == old(shape.chains) && chain[..] == old(chain[..])
      ensures |FreeFrames(memMap[..])| == |FreeFrames(old(memMap[..]))| - 1
    {
      ghost var h, sh := Snap(), shape;
      ghost var f := FillDescPage();
      shape := InitShape(sh, f);
      InitKeeps(h, sh, f, descs, Snap());
    }

    /** Threads the free slots of a fresh page. */
    method Carve(f: int, b: nat)
      requires 0 <= b < BUCKETS
      modifies this`words
      ensures Carved(old(words), words, f, Size(b), PerPage(b))
    {
      Tables(b);
      var cp, i := Addr(f, 0), PAGE_SIZE / Size(b);
      ghost var m := 0;
      while i > 1
        invariant 0 <= m < PerPage(b) && i == PerPage(b) - m && cp == SlotAddr(f, Size(b), m)
        invariant words == CarveWords(old(words), f, Size(b), m)
      {
        words := words[cp := Some(Addr(cp.frame, cp.off + Size(b)))];
        cp := Addr(cp.frame, cp.off + Size(b));
        m := m + 1;
        i := i - 1;
      }
      words := words[cp := None];
      CarvedPage(old(words), f, Size(b), PerPage(b));
    }

    /** The stores that make spare descriptor `a` describe a fresh page of bucket `b`. */
    method FillBucket(b: nat, a: Addr) returns (ghost f: int)
      requires 0 <= b < BUCKETS && chain.Length == BUCKETS && memMap as object != chain
      requires spare == Some(a) && a in descs && AddressesOk(memMap[..]) && HasFree(memMap[..])
      modifies this, memMap, chain
      ensures 0 <= f < memMap.Length && !Used(old(memMap[..])[f]) && memMap[..] == Taken(old(memMap[..]), f)
      ensures Carved(old(words), words, f, Size(b), PerPage(b))
      ensures descs == old(descs)[a := Desc(Some(Addr(f, 0)), old(chain[b]), Some(Addr(f, 0)), 0, Size(b))]
      ensures chain[..] == old(chain[..])[b := Some(a)]
      ensures spare == old(descs[a].next) && shape == old(shape)
    {
      spare := descs[a].next;
      descs := descs[a := descs[a].(refcnt := 0)];
      descs := descs[a := descs[a].(size := Size(b))];
      var page := GetFreePage(memMap);
      f := page.frame;
      descs := descs[a := descs[a].(page := Some(Addr(page.frame, 0)), freeptr := Some(Addr(page.frame, 0)))];
      Carve(page.frame, b);
      descs := descs[a := descs[a].(next := chain[b])];
      chain[b] := Some(a);
    }

    /** A new page of objects for bucket `b`, put at the head of its chain. */
    method NewBucket(b: nat) returns (a: Addr)
      requires 0 <= b < BUCKETS && Valid() && spare.Some? && HasFree(memMap[..])
      modifies this, memMap, chain
      ensures memMap as object != chain && Inv(Snap(), shape) && Blocks() == old(Blocks())
      ensures CanTake(Snap(), shape, a) && shape.place[a] == InBucket(b)
      ensures BusyBut(Snap(), shape, a)
    {
      ghost var h, sh := Snap(), shape;
      assert SpareOk(h, sh) && sh.spare != [];
      SpareHead(h, sh);
      a := spare.value;
      ghost var f := FillBucket(b, a);
      shape := NewShape(sh, b, f);
      NewKeeps(h, sh, b, f, words, Snap());
    }

    /** The search along one chain for a descriptor with a free slot. */
    method FindRoom(b: nat, ghost xs: seq<Addr>) returns (bdesc: Ptr)
      requires 0 <= b < chain.Length && Linked(descs, chain[b], xs)
      ensures bdesc.None? ==> forall m :: 0 <= m < |xs| ==> xs[m] in descs && descs[xs[m]].freeptr.None?
      ensures bdesc.Some? ==> bdesc.value in xs && bdesc.value in descs && descs[bdesc.value].freeptr.Some?
    {
      ghost var i := 0;
      bdesc := chain[b];
      while bdesc.Some? && descs[bdesc.value].freeptr.None?
        invariant 0 <= i <= |xs| && bdesc == Nth(xs, i)
        invariant forall m :: 0 <= m < i ==> descs[xs[m]].freeptr.None?
        decreases |xs| - i
      {
        assert NextOk(descs, xs, i);
        bdesc := descs[bdesc.value].next;
        i := i + 1;
      }
    }

    /** Pops the free list of descriptor `a`. */
    method PopSlot(a: Addr) returns (retval: Addr)
      requires a in descs && descs[a].freeptr.Some?
      modifies this`descs
      ensures Snap() == AfterTake(old(Snap()), a) && Some(retval) == old(descs[a].freeptr)
    {
      retval := descs[a].freeptr.value;
      descs := descs[a := descs[a].(freeptr := WordAt(words, retval))];
      descs := descs[a := descs[a].(refcnt := descs[a].refcnt + 1)];
    }

    /** The last step of `kmalloc`: an object of descriptor `a` is handed out. */
    method TakeSlot(ghost b: int, a: Addr) returns (retval: Addr)
      requires memMap as object != chain && CanTake(Snap(), shape, a) && shape.place[a] == InBucket(b)
      requires BusyBut(Snap(), shape, a)
      modifies this
      ensures Valid() && 0 <= b < BUCKETS
      ensures Block(retval, Size(b)) !in old(Blocks())
      ensures Blocks() == old(Blocks()) + {Block(retval, Size(b))}
    {
      ghost var h, sh := Snap(), shape;
      retval := PopSlot(a);
      FreeListNonempty(h, sh, a);
      shape := TakeShape(sh, a);
      TakeKeeps(h, sh, a, Snap());
    }

    /** `kmalloc`. None stands for the panic on an impossible length. */
    method Kmalloc(len: nat) returns (r: Option<Addr>, ghost b: int)
      requires Valid()
      requires forall b :: Fits(b, len) ==> |FreeFrames(memMap[..])| >= FramesNeeded(b)
      modifies this, memMap, chain
      ensures Valid()
      ensures len > 4096 ==> r.None? && Snap() == old(Snap()) && shape == old(shape)
      ensures len <= 4096 ==>
                && r.Some? && Fits(b, len)
                && Block(r.value, Size(b)) !in old(Blocks())
                && Blocks() == old(Blocks()) + {Block(r.value, Size(b))}
                && forall x :: x in old(Blocks()) ==> !Overlap(x, Block(r.value, Size(b)))
    {
      var dir := 0;
      while dir < BUCKETS && Size(dir) < len
        invariant 0 <= dir <= BUCKETS
        invariant dir > 0 ==> Size(dir - 1) < len
      {
        dir := dir + 1;
      }
      b := dir;
      Tables(8);
      if dir == BUCKETS {
        return None, b;
      }
      Tables(dir);
      TablesRise(dir);
      assert Fits(dir, len);
      assert ChainOk(Snap(), shape, dir);
      var bdesc := FindRoom(dir, shape.chains[dir]);
      if bdesc.None? {
        if spare.None? {
          FreeExists(memMap[..]);
          InitBucketDesc();
        }
        FreeExists(memMap[..]);
        var a := NewBucket(dir);
        bdesc := Some(a);
      }
      var retval := TakeSlot(dir, bdesc.value);
      forall x | x in old(Blocks()) ensures !Overlap(x, Block(retval, Size(dir))) {
        LiveApart(Snap(), shape, x, Block(retval, Size(dir)));
      }
      r := Some(retval);
    }

    // ----- kfree

    /** `prev` is what points at `a` in chain `b`: a descriptor before it, or the directory. */
    ghost predicate Precedes(b: int, prev: Ptr, a: Addr)
      requires 0 <= b < chain.Length
      reads this, chain
    {
      if prev.Some? then prev.value in descs && descs[prev.value].next == Some(a) else chain[b] == Some(a)
    }

    /** The inner search loop of `kfree`, along one chain, remembering the previous descriptor. */
    method SearchChain(b: nat, page: Addr, ghost xs: seq<Addr>) returns (bdesc: Ptr, prev: Ptr, ghost i: int)
      requires 0 <= b < chain.Length && Linked(descs, chain[b], xs)
      ensures bdesc.None? ==> forall m :: 0 <= m < |xs| ==> descs[xs[m]].page != Some(page)
      ensures bdesc.Some? ==>
                && 0 <= i < |xs| && bdesc == Some(xs[i]) && descs[xs[i]].page == Some(page)
                && prev == (if i == 0 then None else Some(xs[i - 1])) && Precedes(b, prev, xs[i])
    {
      prev, i := None, 0;
      bdesc := chain[b];
      while bdesc.Some? && descs[bdesc.value].page != Some(page)
        invariant 0 <= i <= |xs| && bdesc == Nth(xs, i) && prev == (if i == 0 then None else Some(xs[i - 1]))
        invariant bdesc.Some? ==> Precedes(b, prev, bdesc.value)
        invariant forall m :: 0 <= m < i ==> descs[xs[m]].page != Some(page)
        decreases |xs| - i
      {
        assert NextOk(descs, xs, i);
        prev := bdesc;
        bdesc := descs[bdesc.value].next;
        i := i + 1;
      }
    }

    /** The search of `kfree`: buckets too small for the size hint are skipped. */
    method FindPage(page: Addr, size: nat, ghost a: Addr, ghost B: int) returns (b: int, bdesc: Ptr, prev: Ptr, ghost i: int)
      requires CanFind(Snap(), shape, a, B) && page == Addr(FrameOf(descs[a]), 0)
      ensures bdesc.Some? <==> size <= Size(B)
      ensures bdesc.Some? ==> bdesc == Some(a) && Found(Snap(), shape, b, i, a, prev) && Precedes(b, prev, a) && prev != Some(a)
    {
      b, bdesc, prev, i := 0, None, None, 0;
      while b < BUCKETS
        invariant 0 <= b <= BUCKETS && bdesc.None?
        invariant B < b ==> Size(B) < size
      {
        prev := None;
        if size <= Size(b) {
          bdesc, prev, i := SearchChain(b, page, shape.chains[b]);
          if bdesc.Some? {
            assert shape.chains[b][i] in shape.chains[b];
            return;
          }
        }
        b := b + 1;
      }
    }

    /** Puts a freed object at the head of its page's free list. */
    method PutSlot(obj: Addr, a: Addr, ghost k: int)
      requires a in descs && obj == SlotAddr(FrameOf(descs[a]), descs[a].size, k)
      modifies this`words, this`descs
      ensures Snap() == AfterPut(old(Snap()), a, k)
    {
      words := words[obj := descs[a].freeptr];
      descs := descs[a := descs[a].(freeptr := Some(obj))];
      descs := descs[a := descs[a].(refcnt := descs[a].refcnt - 1)];
    }

    /** Takes an empty page's descriptor out of its chain and gives the page back. */
    method ReturnPage(b: nat, a: Addr, prev: Ptr)
      requires memMap as object != chain && 0 <= b < chain.Length && AddressesOk(memMap[..])
      requires a in descs && descs[a].page.Some? && 0 <= FrameOf(descs[a]) < memMap.Length
      requires Precedes(b, prev, a) && prev != Some(a)
      modifies this`descs, this`spare, memMap, chain
      ensures Snap() == AfterDrop(old(Snap()), b, a, prev)
    {
      // The chain has not changed since the search, so `prev` is still the predecessor.
      if (prev.Some? && descs[prev.value].next != Some(a)) || (prev.None? && chain[b] != Some(a)) {
        assert false;
      }
      if prev.Some? {
        descs := descs[prev.value := descs[prev.value].(next := descs[a].next)];
      } else {
        chain[b] := descs[a].next;
      }
      FreePage(memMap, Word(descs[a].page.value.frame, 0));
      descs := descs[a := descs[a].(next := spare)];
      spare := Some(a);
    }

    /** The stores of `kfree` once the descriptor is found. */
    method Release(obj: Addr, b: nat, a: Addr, prev: Ptr, ghost k: int)
      requires memMap as object != chain && 0 <= b < chain.Length && AddressesOk(memMap[..])
      requires a in descs && descs[a].page.Some? && 0 <= FrameOf(descs[a]) < memMap.Length
      requires Precedes(b, prev, a) && prev != Some(a)
      requires obj == SlotAddr(FrameOf(descs[a]), descs[a].size, k)
      modifies this`words, this`descs, this`spare, memMap, chain
      ensures Freed(old(Snap()), a, k, b, prev, Snap())
    {
      PutSlot(obj, a, k);
      if descs[a].refcnt == 0 {
        ReturnPage(b, a, prev);
      }
    }

    /** `kfree` of the live block `x`. False stands for the panic on an address no chain owns. */
    method Kfree(obj: Addr, size: nat, ghost x: Block) returns (ok: bool)
      requires Valid() && x in Blocks() && x.at == obj
      modifies this, memMap, chain
      ensures Valid()
      ensures ok <==> size <= x.size
      ensures !ok ==> Snap() == old(Snap()) && shape == old(shape)
      ensures ok ==> Blocks() == old(Blocks()) - {x}
      ensures ok ==> FreeFrames(memMap[..]) ==
                       FreeFrames(old(memMap[..])) + if LastOnPage(old(Snap()), old(shape), x) then {obj.frame} else {}
    {
      ghost var h, sh := Snap(), shape;
      ghost var a, k := FindReady(h, sh, x);
      var b, bdesc, prev, i := FindPage(Addr(obj.frame, 0), size, a, sh.place[a].b);
      if bdesc.None? {
        return false;
      }
      Release(obj, b, bdesc.value, prev, k);
      shape := FreedShape(h, sh, a, k, b, i);
      FreeKeeps(h, sh, a, k, b, i, prev, Snap());
      ok := true;
    }

    /** A user's store of `n` bytes inside a live block, which leaves memory as `after`, disturbs
        nothing. */
    method Store(x: Block, at: Addr, n: int, after: map<Addr, Ptr>)
      requires Valid() && x in Blocks() && Within(x, at, n) && Stored(words, after, at, n)
      modifies this`words
      ensures Valid() && Blocks() == old(Blocks()) && words == after
    {
      UserStore(Snap(), shape, x, at, n, after);
      words := after;
    }

    // ----- the same frame table, used by others

    /** A frame handed out to the page tables or to another part of the kernel. */
    method OthersTake() returns (addr: Word)
      requires Valid() && HasFree(memMap[..])
      modifies this`shape, memMap
      ensures Valid() && Blocks() == old(Blocks())
      ensures IsFirstFree(old(memMap[..]), addr.frame) && shape == old(shape).(owner := old(shape).owner[addr.frame := Elsewhere])
    {
      ghost var h, sh := Snap(), shape;
      addr := GetFreePage(memMap);
      shape := sh.(owner := sh.owner[addr.frame := Elsewhere]);
      OthersTaken(h, sh, addr.frame);
      OthersKeep(h, sh, Snap(), shape);
    }

    /** And given back by them. */
    method OthersRelease(addr: Word)
      requires Valid() && addr.frame < memMap.Length && shape.owner[addr.frame] == Elsewhere
      modifies this`shape, memMap
      ensures Valid() && Blocks() == old(Blocks())
      ensures shape == old(shape).(owner := old(shape).owner[addr.frame := Nobody])
      ensures !Used(memMap[addr.frame])
    {
      ghost var h, sh := Snap(), shape;
      FreePage(memMap, addr);
      shape := sh.(owner := sh.owner[addr.frame := Nobody]);
      OthersReleased(h, sh, addr.frame);
      OthersKeep(h, sh, Snap(), shape);
    }
  }
}
