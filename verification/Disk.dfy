/** The disk driver: one sector per interrupt when writing, and byte-range writes built from
    whole sectors (kernel/hd.c). */
module Disk {

  const SECTOR_SIZE := 512

  type Byte = b: int | 0 <= b < 256

  /** `d` with `data` laid over it from byte `at` on. */
  function Overwritten(d: seq<Byte>, at: int, data: seq<Byte>): (r: seq<Byte>)
    requires 0 <= at && at + |data| <= |d|
    ensures |r| == |d|
    ensures forall i :: 0 <= i < |d| ==> r[i] == if at <= i < at + |data| then data[i - at] else d[i]
  {
    d[..at] + data + d[at + |data|..]
  }

  lemma OverwrittenTwice(d: seq<Byte>, at: int, x: seq<Byte>, y: seq<Byte>)
    requires 0 <= at && at + |x| + |y| <= |d|
    ensures Overwritten(Overwritten(d, at, x), at + |x|, y) == Overwritten(d, at, x + y)
  {
  }

  /** Changing part of a stretch that was read and writing the stretch back changes just that
      part. */
  lemma WrittenBack(d: seq<Byte>, at: int, n: int, offset: int, data: seq<Byte>)
    requires 0 <= at && 0 <= offset && offset + |data| <= n && at + n <= |d|
    ensures Overwritten(d, at, Overwritten(d[at..at + n], offset, data)) == Overwritten(d, at + offset, data)
  {
  }

  function SectorsFor(bytes: int): int { (bytes + SECTOR_SIZE - 1) / SECTOR_SIZE }

  function Zeros(n: int): (z: seq<Byte>)
    ensures |z| == if n > 0 then n else 0
    ensures forall i :: 0 <= i < |z| ==> z[i] == 0
  {
    if n <= 0 then [] else Zeros(n - 1) + [0]
  }

  /** The data filled up to whole sectors. */
  function Padded(data: seq<Byte>): (p: seq<Byte>)
    ensures |p| == SECTOR_SIZE * SectorsFor(|data|)
    ensures forall i :: 0 <= i < |p| ==> p[i] == if i < |data| then data[i] else 0
  {
    data + Zeros(SECTOR_SIZE * SectorsFor(|data|) - |data|)
  }

  lemma WholeSectors(data: seq<Byte>, count: int)
    requires |data| == SECTOR_SIZE * count
    ensures SectorsFor(|data|) == count && Padded(data) == data
  {
  }

  function Min(a: int, b: int): int { if a < b then a else b }

  /** What is left of the data after `k` sectors. */
  function After(data: seq<Byte>, k: int): seq<Byte>
    requires k >= 0
  {
    data[Min(SECTOR_SIZE * k, |data|)..]
  }

  /** The sector that goes out next. */
  function Chunk(rest: seq<Byte>): (c: seq<Byte>)
    ensures |c| == SECTOR_SIZE
  {
    rest[..Min(SECTOR_SIZE, |rest|)] + Zeros(SECTOR_SIZE - Min(SECTOR_SIZE, |rest|))
  }

  lemma NextChunk(data: seq<Byte>, k: int)
    requires 0 <= k < SectorsFor(|data|)
    ensures Padded(data)[..SECTOR_SIZE * k] + Chunk(After(data, k)) == Padded(data)[..SECTOR_SIZE * (k + 1)]
    ensures After(data, k)[Min(SECTOR_SIZE, |After(data, k)|)..] == After(data, k + 1)
  {
  }

  /** A request of one sector at most, or of whole sectors, takes the same from every sector. */
  lemma ReadStep(n: int, k: int)
    requires 0 <= n && 0 <= k < SectorsFor(n) && (n <= SECTOR_SIZE || n % SECTOR_SIZE == 0)
    ensures Min(SECTOR_SIZE * k, n) == SECTOR_SIZE * k
    ensures Min(SECTOR_SIZE * k, n) + Min(SECTOR_SIZE, n) == Min(SECTOR_SIZE * (k + 1), n)
  {
  }

  class Drive {
    /** The medium, and the sector that the drive transfers next. */
    var disk: seq<Byte>
    var lba: int

    /** The outstanding `struct blk_request`; its buffer is what is still to be written. */
    var active: bool
    var buffer: seq<Byte>
    var sector: int
    var bytes: int
    var sectors: int

    /** The requesting process sleeps. */
    var waiting: bool
    const hdbuf: array<Byte>

    /** How many sectors went out, and how many requests were completed. */
    ghost var written: int
    ghost var completed: int

    constructor (medium: seq<Byte>)
      ensures disk == medium && !active && !waiting && hdbuf.Length == SECTOR_SIZE * 2 && fresh(hdbuf)
    {
      disk, lba, active, buffer, sector, bytes, sectors, waiting := medium, 0, false, [], 0, 0, 0, false;
      hdbuf := new Byte[SECTOR_SIZE * 2](_ => 0);
      written, completed := 0, 0;
    }

    // ----- the drive

    method PortWrite(data: seq<Byte>)
      requires |data| == SECTOR_SIZE && 0 <= lba && SECTOR_SIZE * (lba + 1) <= |disk|
      modifies this`disk, this`lba, this`written
      ensures disk == Overwritten(old(disk), SECTOR_SIZE * old(lba), data) && lba == old(lba) + 1 && written == old(written) + 1
    {
      disk := Overwritten(disk, SECTOR_SIZE * lba, data);
      lba, written := lba + 1, written + 1;
    }

    method PortRead() returns (data: seq<Byte>)
      requires 0 <= lba && SECTOR_SIZE * (lba + 1) <= |disk|
      modifies this`lba
      ensures data == disk[SECTOR_SIZE * old(lba)..SECTOR_SIZE * (old(lba) + 1)] && lba == old(lba) + 1
    {
      data := disk[SECTOR_SIZE * lba..SECTOR_SIZE * (lba + 1)];
      lba := lba + 1;
    }

    // ----- writing

    /** `k` sectors of `data` are on the medium, the rest is in the request. */
    ghost predicate Writing(was: seq<Byte>, at: int, data: seq<Byte>, k: int)
      reads this
    {
      && 0 <= at && SECTOR_SIZE * (at + SectorsFor(|data|)) <= |was| && hdbuf.Length == SECTOR_SIZE * 2
      && active && 0 <= k <= SectorsFor(|data|) && sectors == SectorsFor(|data|) - k
      && buffer == After(data, k) && bytes == |buffer| && sector == at + k && lba == at + k
      && disk == Overwritten(was, SECTOR_SIZE * at, Padded(data)[..SECTOR_SIZE * k])
    }

    /** `memset` and `memcpy` of one sector's worth. */
    method FillBuffer(data: seq<Byte>, n: int)
      requires hdbuf.Length == SECTOR_SIZE * 2 && 0 <= n <= |data| && n == Min(SECTOR_SIZE, |data|)
      modifies hdbuf
      ensures hdbuf[..SECTOR_SIZE] == Chunk(data)
    {
      for i := 0 to SECTOR_SIZE
        invariant forall j :: 0 <= j < i ==> hdbuf[j] == 0
      {
        hdbuf[i] := 0;
      }
      for i := 0 to n
        invariant forall j :: 0 <= j < i ==> hdbuf[j] == data[j]
        invariant forall j :: i <= j < SECTOR_SIZE ==> hdbuf[j] == 0
      {
        hdbuf[i] := data[i];
      }
    }

    /** `do_write`: one more sector, padded with zeros, or the end of the request. */
    method DoWrite(ghost was: seq<Byte>, ghost at: int, ghost data: seq<Byte>, ghost k: int)
      requires Writing(was, at, data, k)
      modifies this, hdbuf
      ensures if k < SectorsFor(|data|) then
                Writing(was, at, data, k + 1) && waiting == old(waiting)
                && written == old(written) + 1 && completed == old(completed)
              else
                disk == Overwritten(was, SECTOR_SIZE * at, Padded(data)) && !active && !waiting
                && written == old(written) && completed == old(completed) + 1
    {
      var bytesLeft := if SECTOR_SIZE < bytes then SECTOR_SIZE else bytes;
      var left := sectors;
      sectors := sectors - 1;
      if left != 0 {
        NextChunk(data, k);
        OverwrittenTwice(was, SECTOR_SIZE * at, Padded(data)[..SECTOR_SIZE * k], Chunk(buffer));
        FillBuffer(buffer, bytesLeft);
        buffer := buffer[bytesLeft..];
        sector := sector + 1;
        bytes := bytes - bytesLeft;
        PortWrite(hdbuf[..SECTOR_SIZE]);
        return;
      }
      assert Padded(data)[..SECTOR_SIZE * k] == Padded(data);
      waiting := false;
      active := false;
      completed := completed + 1;
    }

    /** A write request, from `add_request` to the last interrupt: `do_write` runs once at issue
        and once per interrupt until it wakes the requester. */
    method WriteSectors(at: int, data: seq<Byte>)
      requires !active && hdbuf.Length == SECTOR_SIZE * 2
      requires 0 <= at && SECTOR_SIZE * (at + SectorsFor(|data|)) <= |disk| && SectorsFor(|data|) <= 255
      modifies this, hdbuf
      ensures disk == Overwritten(old(disk), SECTOR_SIZE * at, Padded(data)) && !active && !waiting
      ensures written == old(written) + SectorsFor(|data|) && completed == old(completed) + 1
    {
      active, buffer, bytes, sectors, sector := true, data, |data|, SectorsFor(|data|), at;
      waiting := true;
      lba := at;
      ghost var was, k := disk, 0;
      assert Padded(data)[..0] == [] && Overwritten(was, SECTOR_SIZE * at, []) == was;
      DoWrite(was, at, data, 0);
      while waiting
        invariant hdbuf.Length == SECTOR_SIZE * 2 && 0 <= k <= SectorsFor(|data|)
        invariant waiting ==> k < SectorsFor(|data|) && Writing(was, at, data, k + 1)
                              && written == old(written) + k + 1 && completed == old(completed)
        invariant !waiting ==> !active && disk == Overwritten(was, SECTOR_SIZE * at, Padded(data))
                               && written == old(written) + SectorsFor(|data|) && completed == old(completed) + 1
        decreases SectorsFor(|data|) - k, waiting
      {
        k := k + 1;
        DoWrite(was, at, data, k);
      }
    }

    // ----- reading

    /** One sector from the drive, as much of it as is wanted. */
    method ReadOne(dest: array<Byte>, at: int, n: int)
      requires 0 <= lba && SECTOR_SIZE * (lba + 1) <= |disk|
      requires 0 <= at && 0 <= n <= SECTOR_SIZE && at + n <= dest.Length
      modifies this`lba, dest
      ensures lba == old(lba) + 1
      ensures forall i :: 0 <= i < dest.Length ==>
                dest[i] == if at <= i < at + n then disk[SECTOR_SIZE * old(lba) + i - at] else old(dest[i])
    {
      var data := PortRead();
      for i := 0 to n
        invariant lba == old(lba) + 1
        invariant forall j :: 0 <= j < dest.Length ==>
                    dest[j] == if at <= j < at + i then disk[SECTOR_SIZE * old(lba) + j - at] else old(dest[j])
      {
        dest[at + i] := data[i];
      }
    }

    /** A read request of one sector at most, or of whole sectors: all of them at the interrupt. */
    method ReadSectors(at: int, dest: array<Byte>, n: int)
      requires !active && hdbuf.Length == SECTOR_SIZE * 2 && dest != hdbuf
      requires 0 <= at && 0 <= n <= dest.Length && SECTOR_SIZE * (at + SectorsFor(n)) <= |disk| && SectorsFor(n) <= 255
      requires n <= SECTOR_SIZE || n % SECTOR_SIZE == 0
      modifies this, hdbuf, dest
      ensures disk == old(disk) && !active && !waiting && written == old(written) && completed == old(completed) + 1
      ensures dest[..n] == disk[SECTOR_SIZE * at..SECTOR_SIZE * at + n] && dest[n..] == old(dest[n..])
    {
      active, bytes, sectors, sector := true, n, SectorsFor(n), at;
      waiting := true;
      lba := at;
      var bytesLeft := if SECTOR_SIZE < bytes then SECTOR_SIZE else bytes;
      ghost var k := 0;
      while sectors != 0
        invariant 0 <= k <= SectorsFor(n) && sectors == SectorsFor(n) - k && lba == at + k && disk == old(disk)
        invariant bytes == n - Min(SECTOR_SIZE * k, n) && written == old(written) && completed == old(completed)
        invariant forall i :: 0 <= i < n - bytes ==> dest[i] == disk[SECTOR_SIZE * at + i]
        invariant forall i :: n - bytes <= i < dest.Length ==> dest[i] == old(dest[i])
        decreases sectors
      {
        sectors := sectors - 1;
        ReadStep(n, k);
        ReadOne(dest, n - bytes, bytesLeft);
        sector := sector + 1;
        bytes := bytes - bytesLeft;
        k := k + 1;
      }
      waiting := false;
      active := false;
      completed := completed + 1;
    }

    method CopyIn(dest: array<Byte>, at: int, data: seq<Byte>, n: int)
      requires 0 <= at && 0 <= n <= |data| && at + n <= dest.Length
      modifies dest
      ensures dest[..] == Overwritten(old(dest[..]), at, data[..n])
    {
      for i := 0 to n
        invariant forall j :: 0 <= j < dest.Length ==> dest[j] == if at <= j < at + i then data[j - at] else old(dest[j])
      {
        dest[at + i] := data[i];
      }
    }

    // ----- a range of bytes

    /** Reads `count` sectors, replaces bytes from `offset` on, and writes the sectors back. */
    method UpdateSectors(at: int, count: int, offset: int, data: seq<Byte>)
      requires !active && hdbuf.Length == SECTOR_SIZE * 2
      requires 0 <= at && 0 <= count <= 255 && SECTOR_SIZE * (at + count) <= |disk|
      requires 0 <= offset && offset + |data| <= SECTOR_SIZE * count
      modifies this, hdbuf
      ensures disk == Overwritten(old(disk), SECTOR_SIZE * at + offset, data) && !active && !waiting
    {
      var len := SECTOR_SIZE * count;
      var rbuf := new Byte[len](_ => 0);
      assert SectorsFor(len) == count && len % SECTOR_SIZE == 0;
      ReadSectors(at, rbuf, len);
      assert rbuf[..len] == rbuf[..] && data[..|data|] == data;
      CopyIn(rbuf, offset, data, |data|);
      WrittenBack(disk, SECTOR_SIZE * at, len, offset, data);
      WholeSectors(rbuf[..], count);
      WriteSectors(at, rbuf[..]);
    }

    /** `dev_do_write`: bytes [pos, pos + |data|) of the partition that begins at sector `base`
        are replaced, and no others. */
    method DevDoWrite(base: int, pos: int, data: seq<Byte>) returns (r: int)
      requires !active && hdbuf.Length == SECTOR_SIZE * 2 && 0 <= base && 0 <= pos
      requires var first, last := pos / SECTOR_SIZE, (pos + |data|) / SECTOR_SIZE;
               SECTOR_SIZE * (base + last + 1) <= |disk| && last - first + 1 <= 255
      modifies this, hdbuf
      ensures SECTOR_SIZE * base + pos + |data| <= |old(disk)|
      ensures disk == Overwritten(old(disk), SECTOR_SIZE * base + pos, data) && r == |data|
      ensures !active && !waiting
    {
      var start := pos / SECTOR_SIZE;
      var end := (pos + |data|) / SECTOR_SIZE;
      UpdateSectors(base + start, end - start + 1, pos - start * SECTOR_SIZE, data);
      r := |data|;
    }
  }
}
