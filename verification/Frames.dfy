/** The physical frame table `mem_map` and its two operations (mm/page.c). */
module Frames {
  import opened Words

  const MP_USE: bv12 := 1
  const MP_COW: bv12 := 2

  /** `struct Page`: the frame's address with flag bits in the low twelve, and a count. */
  datatype Page = Page(addr: Word, count: Count)

  predicate Used(pg: Page) { Has(pg.addr, MP_USE) }

  /** Every entry still carries the address of its own frame. */
  ghost predicate AddressesOk(m: seq<Page>) {
    |m| <= MAX_FRAMES && forall f :: 0 <= f < |m| ==> m[f].addr.frame == f
  }

  ghost predicate HasFree(m: seq<Page>) {
    exists f :: 0 <= f < |m| && !Used(m[f])
  }

  ghost predicate IsFirstFree(m: seq<Page>, f: int) {
    0 <= f < |m| && !Used(m[f]) && forall k :: 0 <= k < f ==> Used(m[k])
  }

  ghost function FreeFrames(m: seq<Page>): (s: set<int>)
  {
    set f | 0 <= f < |m| && !Used(m[f])
  }

  lemma FreeExists(m: seq<Page>)
    ensures |FreeFrames(m)| > 0 ==> HasFree(m)
  {
    assert !HasFree(m) ==> FreeFrames(m) == {};
  }

  /** The table once frame `f` has been handed out. */
  function Taken(m: seq<Page>, f: int): seq<Page>
    requires 0 <= f < |m| <= MAX_FRAMES
  {
    m[f := Page(Word(f, MP_USE), 0)]
  }

  /** The table once frame `f` has been given back. */
  function Released(m: seq<Page>, f: int): seq<Page>
    requires 0 <= f < |m|
  {
    m[f := m[f].(addr := PageBase(m[f].addr))]
  }

  method GetFreePage(memMap: array<Page>) returns (addr: Word)
    requires AddressesOk(memMap[..])
    modifies memMap
    ensures AddressesOk(memMap[..])
    ensures !HasFree(old(memMap[..])) ==> addr == MINUS_ONE && memMap[..] == old(memMap[..])
    ensures HasFree(old(memMap[..])) ==>
              addr == Word(addr.frame, 0) &&
              IsFirstFree(old(memMap[..]), addr.frame) &&
              memMap[..] == Taken(old(memMap[..]), addr.frame)
  {
    var i := 0;
    while i < memMap.Length
      invariant 0 <= i <= memMap.Length
      invariant memMap[..] == old(memMap[..])
      invariant forall k :: 0 <= k < i ==> Used(memMap[..][k])
    {
      assert memMap[i] == memMap[..][i];
      if !Used(memMap[i]) {
        memMap[i] := memMap[i].(addr := PageBase(memMap[i].addr));
        memMap[i] := memMap[i].(addr := Or(memMap[i].addr, MP_USE));
        memMap[i] := memMap[i].(count := 0);
        addr := PageBase(memMap[i].addr);
        assert memMap[..] == Taken(old(memMap[..]), i);
        return;
      }
      i := i + 1;
    }
    addr := MINUS_ONE;
  }

  method FreePage(memMap: array<Page>, addr: Word)
    requires AddressesOk(memMap[..])
    requires addr.frame < memMap.Length
    modifies memMap
    ensures AddressesOk(memMap[..])
    ensures memMap[..] == Released(old(memMap[..]), addr.frame)
  {
    var f := addr.frame;
    assert memMap[f] == memMap[..][f];
    memMap[f] := memMap[f].(addr := PageBase(memMap[f].addr));
    assert memMap[..] == Released(old(memMap[..]), f);
  }

  /** Handing out a free frame removes exactly that frame from the free ones. */
  lemma TakenFree(m: seq<Page>, f: int)
    requires 0 <= f < |m| <= MAX_FRAMES && !Used(m[f])
    ensures FreeFrames(Taken(m, f)) == FreeFrames(m) - {f}
    ensures |FreeFrames(Taken(m, f))| == |FreeFrames(m)| - 1
  {
    assert Used(Taken(m, f)[f]);
    assert FreeFrames(Taken(m, f)) == FreeFrames(m) - {f};
  }

  /** A frame that is handed out and given back is free again, and is the next one out. */
  lemma TakeRelease(m: seq<Page>, f: int)
    requires AddressesOk(m) && IsFirstFree(m, f)
    ensures FreeFrames(Released(Taken(m, f), f)) == FreeFrames(m)
    ensures IsFirstFree(Released(Taken(m, f), f), f)
  {
    assert !Used(Released(Taken(m, f), f)[f]);
  }
}
