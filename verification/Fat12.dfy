/** FAT12: where things lie on the volume, table entries of one and a half bytes, and the
    cluster chain of a file (fs/fat/fat.c:63-135, 236-326). */
module Fat12 {
  import opened Words

  const ROOT_DIR_ENTRY_SIZE := 32
  const FAT12_FAT_ENTRY_SIZE := 12
  const FAT16_FAT_ENTRY_SIZE := 16
  const FAT32_FAT_ENTRY_SIZE := 32

  type Byte = b: int | 0 <= b < 256

  /** The fields of the mounted volume that matter here, and the bytes of the device. */
  datatype Volume = Volume(bytesPerSec: int, rsvdSecCnt: int, secPerClus: int, dataStart: int, disk: seq<Byte>)

  predicate VolumeOk(v: Volume) { v.bytesPerSec > 0 && v.rsvdSecCnt >= 0 && v.secPerClus > 0 && v.dataStart >= 0 }

  // ----- division

  lemma MulSign(k: int, d: int)
    requires d > 0
    ensures k >= 1 ==> k * d >= d
    ensures k <= -1 ==> k * d <= -d
  {
    if k >= 1 { assert (k - 1) * d >= 0; } else if k <= -1 { assert (-k - 1) * d >= 0; }
  }

  lemma DivEquation(x: int, d: int)
    requires d > 0
    ensures x == x / d * d + x % d && 0 <= x % d < d
  {
  }

  lemma Distribute(a: int, b: int, d: int)
    ensures (a - b) * d == a * d - b * d
  {
  }

  lemma DivUnique(x: int, d: int, q: int, r: int)
    requires d > 0 && 0 <= r < d && x == q * d + r
    ensures x / d == q && x % d == r
  {
    DivEquation(x, d);
    Distribute(q, x / d, d);
    MulSign(q - x / d, d);
  }

  // ----- one entry

  /** The byte where entry `n` begins, counted from the start of the table. */
  function EntryOffset(n: int): int { n + n / 2 }

  /** Entry `n` of the table at byte `start`: the upper or lower twelve bits of the 16-bit word
      at its offset (FAT specification v1.03, section "FAT Data Structure"). */
  function EntryAt(disk: seq<Byte>, start: int, n: int): (e: int)
    requires 0 <= start && 0 <= n && start + EntryOffset(n) + 1 < |disk|
    ensures 0 <= e < 4096
  {
    var p := start + EntryOffset(n);
    var low: int, high: int := disk[p], disk[p + 1];
    var word := low + 256 * high;
    if n % 2 == 1 then word / 16 else word % 4096
  }

  lemma Scale(k: int, b: int, m: int, half: int)
    ensures 8 * (k * b + m) + half == k * (b * 8) + (8 * m + half)
  {
    assert k * (b * 8) == 8 * (k * b);
  }

  /** The bit arithmetic of `read_fat12_entry` finds the sector of the entry's first byte, and
      its place there. */
  lemma BitOffset(n: int, b: int)
    requires 0 <= n && b > 0
    ensures n * 12 / (b * 8) == EntryOffset(n) / b
    ensures n * 12 % (b * 8) / 8 == EntryOffset(n) % b
  {
    var o := EntryOffset(n);
    var half := if n % 2 == 1 then 4 else 0;
    DivEquation(o, b);
    var k, m := o / b, o % b;
    assert n * 12 == 8 * o + half;
    Scale(k, b, m, half);
    DivUnique(n * 12, b * 8, k, 8 * m + half);
  }

  /** The sector that holds the first byte of an entry and the one after it. */
  function Window(v: Volume, n: int): int
    requires v.bytesPerSec > 0
  {
    (v.rsvdSecCnt + EntryOffset(n) / v.bytesPerSec) * v.bytesPerSec
  }

  lemma WindowHolds(v: Volume, n: int)
    requires VolumeOk(v) && 0 <= n
    ensures Window(v, n) >= 0
    ensures Window(v, n) + EntryOffset(n) % v.bytesPerSec == v.rsvdSecCnt * v.bytesPerSec + EntryOffset(n)
  {
    DivEquation(EntryOffset(n), v.bytesPerSec);
    Distribute(v.rsvdSecCnt, -(EntryOffset(n) / v.bytesPerSec), v.bytesPerSec);
  }

  /** The two sectors around entry `n` are on the device. */
  predicate Readable(v: Volume, n: int) {
    VolumeOk(v) && 0 <= n && Window(v, n) + 2 * v.bytesPerSec <= |v.disk| && Window(v, n) >= 0
  }

  function FatEntry(v: Volume, n: int): (e: int)
    requires Readable(v, n)
    ensures 0 <= e < 4096
  {
    WindowHolds(v, n);
    DivEquation(EntryOffset(n), v.bytesPerSec);
    MulSign(v.rsvdSecCnt, v.bytesPerSec);
    EntryAt(v.disk, v.rsvdSecCnt * v.bytesPerSec, n)
  }

  lemma TwelveBits(low: Byte, high: Byte)
    ensures (low + 256 * high) / 16 == high * 16 + low / 16
    ensures (low + 256 * high) % 4096 == low + high % 16 * 256
  {
    DivUnique(low + 256 * high, 16, high * 16 + low / 16, low % 16);
    DivUnique(low + 256 * high, 4096, high / 16, low + high % 16 * 256);
  }

  /** Where `read_fat12_entry` looks: in the window, at the entry's offset in its sector. */
  lemma Located(v: Volume, n: int)
    requires Readable(v, n)
    ensures var offset := n * 12 % (v.bytesPerSec * 8) / 8;
            && Window(v, n) == (v.rsvdSecCnt + n * 12 / (v.bytesPerSec * 8)) * v.bytesPerSec
            && 0 <= offset < v.bytesPerSec && Window(v, n) + offset == v.rsvdSecCnt * v.bytesPerSec + EntryOffset(n)
  {
    BitOffset(n, v.bytesPerSec);
    WindowHolds(v, n);
    DivEquation(EntryOffset(n), v.bytesPerSec);
  }

  /** The device's read request, for bytes that it has. */
  method ReadBytes(disk: seq<Byte>, start: int, n: int) returns (buf: seq<int>)
    requires 0 <= start && 0 <= n && start + n <= |disk|
    ensures |buf| == n && forall i :: 0 <= i < n ==> buf[i] == disk[start + i]
  {
    buf := disk[start..start + n];
  }

  /** `read_fat12_entry`: two sectors are read, in case the entry lies in both. */
  method ReadFat12Entry(v: Volume, clus: int) returns (r: int)
    requires Readable(v, clus)
    ensures r == FatEntry(v, clus)
  {
    Located(v, clus);
    var offset := clus * FAT12_FAT_ENTRY_SIZE % (v.bytesPerSec * 8) / 8;
    var sector := v.rsvdSecCnt + clus * FAT12_FAT_ENTRY_SIZE / (v.bytesPerSec * 8);
    var start := sector * v.bytesPerSec;
    var buf := ReadBytes(v.disk, start, v.bytesPerSec * 2);
    if clus % 2 == 1 {
      r := buf[offset + 1] * 16;
      r := r + buf[offset] / 16;
    } else {
      r := buf[offset];
      r := r + buf[offset + 1] % 16 * 256;
    }
    TwelveBits(buf[offset], buf[offset + 1]);
  }

  // ----- a packed table

  predicate Entries(es: seq<int>) { forall i :: 0 <= i < |es| ==> 0 <= es[i] < 4096 }

  function EntryOr0(es: seq<int>, i: int): int
    requires 0 <= i
  {
    if i < |es| then es[i] else 0
  }

  /** Byte `p` of a table in which two entries share three bytes. */
  function PackedByte(es: seq<int>, p: int): Byte
    requires 0 <= p && Entries(es)
  {
    var a, b := EntryOr0(es, p / 3 * 2), EntryOr0(es, p / 3 * 2 + 1);
    if p % 3 == 0 then a % 256 else if p % 3 == 1 then a / 256 + b % 16 * 16 else b / 16
  }

  predicate PackedHere(disk: seq<Byte>, start: int, es: seq<int>, p: int) {
    0 <= p && 0 <= start + p < |disk| && Entries(es) && disk[start + p] == PackedByte(es, p)
  }

  /** The device holds the packed table `es` from the first reserved-area boundary on. */
  predicate HoldsTable(v: Volume, es: seq<int>) {
    && VolumeOk(v) && Entries(es)
    && forall i :: 0 <= i < |es| ==>
         Readable(v, i) && PackedHere(v.disk, v.rsvdSecCnt * v.bytesPerSec, es, EntryOffset(i))
         && PackedHere(v.disk, v.rsvdSecCnt * v.bytesPerSec, es, EntryOffset(i) + 1)
  }

  lemma Unpack(es: seq<int>, n: int)
    requires Entries(es) && 0 <= n < |es|
    ensures var w := PackedByte(es, EntryOffset(n)) + 256 * PackedByte(es, EntryOffset(n) + 1);
            es[n] == if n % 2 == 1 then w / 16 else w % 4096
  {
    var k := n / 2;
    if n % 2 == 0 {
      assert n == 2 * k && EntryOffset(n) == 3 * k;
    } else {
      assert n == 2 * k + 1 && EntryOffset(n) == 3 * k + 1;
    }
  }

  /** Reading entry `n` of a packed table gives entry `n`, also where it straddles sectors. */
  lemma ReadsPacked(v: Volume, es: seq<int>, n: int)
    requires HoldsTable(v, es) && 0 <= n < |es|
    ensures Readable(v, n) && FatEntry(v, n) == es[n]
  {
    Unpack(es, n);
  }

  // ----- the chain

  function And0xFF8(c: int): int { c / 8 % 512 * 8 }

  function And0xFF7(c: int): int { c / 16 % 256 * 16 + c % 8 }

  function And0xFF0(c: int): int { c / 16 % 256 * 16 }

  function And0xFF6(c: int): int { c / 16 % 256 * 16 + c % 8 / 2 * 2 }

  lemma TopMask(c: int)
    requires 0 <= c < 4096
    ensures And0xFF8(c) < 0xFF8 <==> c < 0xFF8
  {
    DivUnique(c / 8, 512, 0, c / 8);
  }

  lemma LowBits(c: int)
    requires 0 <= c
    ensures c % 8 == 7 <==> c % 16 == 7 || c % 16 == 15
    ensures c % 8 <= 7 && c % 8 / 2 * 2 <= 6
  {
    var q, r := c / 16, c % 16;
    DivEquation(c, 16);
    if r < 8 { DivUnique(c, 8, 2 * q, r); } else { DivUnique(c, 8, 2 * q + 1, r - 8); }
  }

  /** What the masks say about a table entry. */
  lemma Masks(c: int)
    requires 0 <= c < 4096
    ensures And0xFF8(c) < 0xFF8 <==> c < 0xFF8
    ensures And0xFF7(c) == 0xFF7 <==> c == 0xFF7 || c == 0xFFF
    ensures And0xFF0(c) >= 0xFF0 <==> c >= 0xFF0
    ensures And0xFF6(c) <= 0xFF6
  {
    TopMask(c);
    DivUnique(c / 16, 256, 0, c / 16);
    LowBits(c);
  }

  predicate IsData(c: int) { 2 <= c < 0xFF0 }

  /** Following entries from `c` passes the data clusters `cs` and then stops at `mark`. */
  ghost predicate Chain(v: Volume, c: int, cs: seq<int>, mark: int)
    decreases |cs|
  {
    if cs == [] then c == mark && 0xFF0 <= mark < 4096
    else c == cs[0] && IsData(c) && Readable(v, c) && Chain(v, FatEntry(v, c), cs[1..], mark)
  }

  lemma {:induction false} ChainFrom(v: Volume, c: int, cs: seq<int>, mark: int, i: nat)
    requires Chain(v, c, cs, mark) && i < |cs|
    ensures Chain(v, cs[i], cs[i..], mark)
    decreases i
  {
    if i > 0 {
      ChainFrom(v, FatEntry(v, c), cs[1..], mark, i - 1);
      assert cs[1..][i - 1..] == cs[i..];
    }
  }

  lemma {:induction false} OneChain(v: Volume, c: int, as_: seq<int>, bs: seq<int>, m: int, n: int)
    requires Chain(v, c, as_, m) && Chain(v, c, bs, n)
    ensures as_ == bs && m == n
    decreases |as_|
  {
    if as_ != [] && bs != [] {
      OneChain(v, FatEntry(v, c), as_[1..], bs[1..], m, n);
      assert as_ == [c] + as_[1..] && bs == [c] + bs[1..];
    }
  }

  /** A chain that comes to a mark never passes a cluster twice. */
  lemma ChainDistinct(v: Volume, c: int, cs: seq<int>, mark: int, i: nat, j: nat)
    requires Chain(v, c, cs, mark) && i < |cs| && j < |cs|
    ensures cs[i] == cs[j] <==> i == j
  {
    ChainFrom(v, c, cs, mark, i);
    ChainFrom(v, c, cs, mark, j);
    if cs[i] == cs[j] { OneChain(v, cs[i], cs[i..], cs[j..], mark, mark); }
  }

  // ----- chains that end and chains that do not

  /** The walk from `c` passes at least `n` data clusters. */
  ghost predicate Goes(v: Volume, c: int, n: nat)
    decreases n
  {
    n == 0 || (IsData(c) && Readable(v, c) && Goes(v, FatEntry(v, c), n - 1))
  }

  /** Where it is after `n` of them. */
  ghost function After(v: Volume, c: int, n: nat): int
    requires Goes(v, c, n)
    decreases n
  {
    if n == 0 then c else After(v, FatEntry(v, c), n - 1)
  }

  lemma {:induction false} GoesOn(v: Volume, c: int, m: nat, n: nat)
    ensures Goes(v, c, m + n) <==> Goes(v, c, m) && Goes(v, After(v, c, m), n)
    ensures Goes(v, c, m + n) ==> After(v, c, m + n) == After(v, After(v, c, m), n)
    decreases m
  {
    if m > 0 && IsData(c) && Readable(v, c) { GoesOn(v, FatEntry(v, c), m - 1, n); }
  }

  lemma DataAfter(v: Volume, c: int, m: nat, n: nat)
    requires Goes(v, c, n) && m < n
    ensures Goes(v, c, m) && 2 <= After(v, c, m) < 0xFF0
  {
    GoesOn(v, c, m, n - m);
  }

  lemma {:induction false} DistinctCard(xs: seq<int>)
    requires forall i, j :: 0 <= i < j < |xs| ==> xs[i] != xs[j]
    ensures |set x | x in xs| == |xs|
    decreases |xs|
  {
    if xs == [] {
      assert (set x | x in xs) == {};
    } else {
      var n := |xs| - 1;
      DistinctCard(xs[..n]);
      assert (set x | x in xs) == (set x | x in xs[..n]) + {xs[n]} by { assert xs == xs[..n] + [xs[n]]; }
      assert xs[n] !in xs[..n];
    }
  }

  lemma {:induction false} RangeCard(lo: int, hi: int, s: set<int>)
    requires lo <= hi && forall x :: x in s ==> lo <= x < hi
    ensures |s| <= hi - lo
    decreases hi - lo
  {
    if lo == hi {
      assert forall x :: x !in s;
      assert s == {};
    } else {
      RangeCard(lo, hi - 1, s - {hi - 1});
    }
  }

  /** More numbers than there are to choose from: two are equal. */
  lemma Pigeonhole(xs: seq<int>, lo: int, hi: int) returns (i: nat, j: nat)
    requires lo <= hi && hi - lo < |xs| && forall k :: 0 <= k < |xs| ==> lo <= xs[k] < hi
    ensures i < j < |xs| && xs[i] == xs[j]
  {
    if forall k, l :: 0 <= k < l < |xs| ==> xs[k] != xs[l] {
      DistinctCard(xs);
      RangeCard(lo, hi, set x | x in xs);
      assert false;
    } else {
      i, j :| i < j < |xs| && xs[i] == xs[j];
    }
  }

  /** More steps than there are data clusters come to some cluster twice. */
  lemma PassedTwice(v: Volume, c: int, n: nat) returns (i: nat, j: nat)
    requires Goes(v, c, n) && n > 0xFEE
    ensures i < j < n && Goes(v, c, i) && Goes(v, c, j) && After(v, c, i) == After(v, c, j)
  {
    forall k: nat | k < n ensures Goes(v, c, k) && 2 <= After(v, c, k) < 0xFF0 { DataAfter(v, c, k, n); }
    var passed := seq(n, k requires 0 <= k < n && Goes(v, c, k) => After(v, c, k));
    i, j := Pigeonhole(passed, 2, 0xFF0);
  }

  /** A walk that comes back to where it was goes on for ever. */
  lemma {:induction false} RoundAndRound(v: Volume, x: int, d: nat, m: nat)
    requires d > 0 && Goes(v, x, d) && After(v, x, d) == x
    ensures Goes(v, x, m)
    decreases m
  {
    if m < d {
      GoesOn(v, x, m, d - m);
    } else {
      RoundAndRound(v, x, d, m - d);
      GoesOn(v, x, d, m - d);
    }
  }

  lemma {:induction false} ChainGoes(v: Volume, c: int, cs: seq<int>, mark: int)
    requires Chain(v, c, cs, mark)
    ensures Goes(v, c, |cs|) && !Goes(v, c, |cs| + 1)
    decreases |cs|
  {
    if cs != [] { ChainGoes(v, FatEntry(v, c), cs[1..], mark); }
  }

  /** A walk that passes more than 4078 clusters goes round for ever: a chain that ends has at
      most so many, and whether one ends shows within that many steps. */
  lemma EndsSoonOrNever(v: Volume, c: int)
    ensures Goes(v, c, 0xFEF) ==> forall m: nat :: Goes(v, c, m)
    ensures forall cs, mark :: Chain(v, c, cs, mark) ==> |cs| <= 0xFEE && !Goes(v, c, 0xFEF)
  {
    if Goes(v, c, 0xFEF) {
      var i, j := PassedTwice(v, c, 0xFEF);
      GoesOn(v, c, i, j - i);
      forall m: nat ensures Goes(v, c, m) {
        RoundAndRound(v, After(v, c, i), j - i, m);
        GoesOn(v, c, i, m);
        GoesOn(v, c, m, i);
      }
    }
    forall cs, mark | Chain(v, c, cs, mark) ensures |cs| <= 0xFEE && !Goes(v, c, 0xFEF) {
      ChainGoes(v, c, cs, mark);
      if |cs| >= 0xFEF { GoesOn(v, c, 0xFEF, |cs| - 0xFEF); }
    }
  }

  function FirstSector(v: Volume, c: int): int { (c - 2) * v.secPerClus + v.dataStart }

  function Sectors(v: Volume, cs: seq<int>): (s: seq<int>)
    ensures |s| == |cs| && forall i :: 0 <= i < |cs| ==> s[i] == FirstSector(v, cs[i])
  {
    if cs == [] then [] else [FirstSector(v, cs[0])] + Sectors(v, cs[1..])
  }

  /** No two clusters of a chain share a sector, and all lie in the data area. */
  lemma SectorsApart(v: Volume, c: int, cs: seq<int>, mark: int, i: nat, j: nat)
    requires VolumeOk(v) && Chain(v, c, cs, mark) && i < |cs| && j < |cs| && i != j
    ensures v.dataStart <= Sectors(v, cs)[i]
    ensures Sectors(v, cs)[i] + v.secPerClus <= Sectors(v, cs)[j] || Sectors(v, cs)[j] + v.secPerClus <= Sectors(v, cs)[i]
  {
    ChainFrom(v, c, cs, mark, i);
    ChainDistinct(v, c, cs, mark, i, j);
    Distribute(cs[i] - 2, cs[j] - 2, v.secPerClus);
    MulSign(cs[i] - cs[j], v.secPerClus);
    MulSign(cs[i] - 2, v.secPerClus);
  }

  /** Where the clusters of a chain lie: cluster 2 at the start of the data area, and every
      other one right behind the one numbered before it. */
  lemma ClustersTile(v: Volume, cs: seq<int>, i: nat, j: nat)
    requires i < |cs| && j < |cs|
    ensures cs[i] == 2 ==> Sectors(v, cs)[i] == v.dataStart
    ensures cs[j] == cs[i] + 1 ==> Sectors(v, cs)[j] == Sectors(v, cs)[i] + v.secPerClus
  {
    if cs[j] == cs[i] + 1 { Distribute(cs[i] - 2, -1, v.secPerClus); }
  }

  lemma Listed(v: Volume, cs: seq<int>, list: seq<int>)
    requires |cs| <= |list| && forall k :: 0 <= k < |cs| ==> list[k] == Sectors(v, cs)[k]
    ensures forall i :: 0 <= i < |cs| && cs[i] == 2 ==> list[i] == v.dataStart
    ensures forall i, j :: 0 <= i < |cs| && 0 <= j < |cs| && cs[j] == cs[i] + 1 ==> list[j] == list[i] + v.secPerClus
  {
    forall i, j | 0 <= i < |cs| && 0 <= j < |cs|
      ensures cs[i] == 2 ==> list[i] == v.dataStart
      ensures cs[j] == cs[i] + 1 ==> list[j] == list[i] + v.secPerClus
    {
      ClustersTile(v, cs, i, j);
    }
  }

  /** `get_sector_list`: the first sectors of the file's clusters in order, and -1 exactly when
      the chain stops at the bad-cluster mark. */
  method GetSectorList(v: Volume, first: int, list: array<int>, ghost cs: seq<int>, ghost mark: int) returns (r: int)
    requires VolumeOk(v) && Chain(v, first, cs, mark) && |cs| <= list.Length
    modifies list
    ensures r == if mark == 0xFF7 then -1 else 0
    ensures list[..] == Sectors(v, cs) + old(list[..])[|cs|..]
    ensures forall i :: 0 <= i < |cs| && cs[i] == 2 ==> list[i] == v.dataStart
    ensures forall i, j :: 0 <= i < |cs| && 0 <= j < |cs| && cs[j] == cs[i] + 1 ==> list[j] == list[i] + v.secPerClus
  {
    var clus, i := first, 0;
    ghost var sectors := Sectors(v, cs);
    Masks(clus);
    while And0xFF8(clus) < 0xFF8
      invariant 0 <= i <= |cs| && 0 <= clus < 4096 && Chain(v, clus, cs[i..], mark)
      invariant forall k :: 0 <= k < i ==> list[k] == sectors[k]
      invariant forall k :: i <= k < list.Length ==> list[k] == old(list[k])
      decreases |cs| - i
    {
      Masks(clus);
      if And0xFF7(clus) == 0xFF7 {
        assert cs[i..] == [];
        Listed(v, cs, list[..]);
        return -1;
      }
      if And0xFF0(clus) >= 0xFF0 && And0xFF6(clus) <= 0xFF6 { break; }
      assert cs[i..][1..] == cs[i + 1..];
      list[i] := (clus - 2) * v.secPerClus + v.dataStart;
      clus := ReadFat12Entry(v, clus);
      i := i + 1;
    }
    Masks(clus);
    assert cs[i..] == [];
    Listed(v, cs, list[..]);
    r := 0;
  }

  // ----- the layout computed at mount

  /** The boot-sector fields that `fat_mount` uses for FAT12. */
  datatype Boot = Boot(bytesPerSec: int, secPerClus: int, rsvdSecCnt: int, numFats: int, rootEntCnt: int,
                       totSec16: int, totSec32: int, fatSz16: int, fatSz32: int)

  datatype Layout = Layout(fatStart: int, fatSize: int, rootStart: int, rootStartSector: int, rootSize: int,
                           rootSectors: int, dataStart: int, clusters: int)

  predicate BootOk(b: Boot) {
    && 0 < b.bytesPerSec && 0 < b.secPerClus && 0 <= b.rsvdSecCnt && 0 <= b.numFats && 0 <= b.rootEntCnt
    && 0 <= b.totSec16 && 0 <= b.totSec32 && 0 <= b.fatSz16 && 0 <= b.fatSz32
  }

  function TotalSectors(b: Boot): int { if b.totSec16 != 0 then b.totSec16 else b.totSec32 }

  function TableSectors(b: Boot): int { if b.fatSz16 != 0 then b.fatSz16 else b.fatSz32 }

  lemma Turn(a: int, b: int, c: int)
    ensures a * b * c == c * b * a
  {
    assert a * b * c == a * (b * c);
  }

  /** Whole sectors are not rounded. */
  lemma Whole(rsvd: int, fats: int, table: int, b: int)
    requires b > 0
    ensures b * rsvd + b * table * fats == (rsvd + fats * table) * b
    ensures (b * rsvd + b * table * fats + b - 1) / b == rsvd + fats * table
  {
    assert b * table * fats == fats * table * b by { Turn(b, table, fats); }
    Distribute(rsvd, -(fats * table), b);
    DivUnique((rsvd + fats * table) * b + b - 1, b, rsvd + fats * table, b - 1);
  }

  lemma RoundedUp(x: int, d: int)
    requires d > 0
    ensures x <= (x + d - 1) / d * d < x + d
  {
    DivEquation(x + d - 1, d);
  }

  /** The areas of the volume follow each other without gaps: reserved sectors, tables, root
      directory rounded up to sectors, and as many whole clusters as the rest holds. */
  predicate LaidOut(b: Boot, l: Layout) {
    && l.fatStart == b.rsvdSecCnt * b.bytesPerSec && l.fatSize == TableSectors(b) * b.bytesPerSec
    && l.rootStartSector == b.rsvdSecCnt + b.numFats * TableSectors(b)
    && l.rootStart == l.rootStartSector * b.bytesPerSec
    && l.rootSize <= l.rootSectors * b.bytesPerSec < l.rootSize + b.bytesPerSec
    && l.rootSize == b.rootEntCnt * ROOT_DIR_ENTRY_SIZE
    && l.dataStart == l.rootStartSector + l.rootSectors
    && (TotalSectors(b) >= l.dataStart ==>
          l.dataStart + l.clusters * b.secPerClus <= TotalSectors(b) < l.dataStart + (l.clusters + 1) * b.secPerClus)
  }

  /** The arithmetic of `fat_mount`, on fields small enough not to overflow. */
  method ComputeLayout(b: Boot) returns (l: Layout)
    requires BootOk(b)
    ensures LaidOut(b, l)
  {
    var total, table := b.totSec32, b.fatSz32;
    if b.totSec16 != 0 { total := b.totSec16; }
    if b.fatSz16 != 0 { table := b.fatSz16; }
    var fatStart := b.bytesPerSec * b.rsvdSecCnt;
    var fatSize := b.bytesPerSec * table;
    var rootStart := b.bytesPerSec * b.rsvdSecCnt + fatSize * b.numFats;
    var rootStartSector := (rootStart + b.bytesPerSec - 1) / b.bytesPerSec;
    var rootSize := b.rootEntCnt * ROOT_DIR_ENTRY_SIZE;
    var rootSectors := (rootSize + b.bytesPerSec - 1) / b.bytesPerSec;
    var dataStart := rootSectors + rootStartSector;
    var dataSectors := total - b.rsvdSecCnt - b.numFats * table - rootSectors;
    var clusters := dataSectors / b.secPerClus;
    l := Layout(fatStart, fatSize, rootStart, rootStartSector, rootSize, rootSectors, dataStart, clusters);
    Whole(b.rsvdSecCnt, b.numFats, table, b.bytesPerSec);
    RoundedUp(rootSize, b.bytesPerSec);
    DivEquation(dataSectors, b.secPerClus);
    Distribute(clusters, -1, b.secPerClus);
  }

  lemma AtLeastOnce(k: int, t: int)
    requires k >= 1 && t >= 0
    ensures k * t >= t
  {
    assert (k - 1) * t >= 0;
  }

  lemma Monotone(a: int, b: int, d: int)
    requires a <= b && d > 0
    ensures a * d <= b * d
  {
    Distribute(b, a, d);
    if b > a { MulSign(b - a, d); }
  }

  /** Every cluster of the mounted volume lies in its data area. */
  lemma ClusterInside(b: Boot, l: Layout, v: Volume, c: int)
    requires BootOk(b) && LaidOut(b, l) && TotalSectors(b) >= l.dataStart
    requires v.secPerClus == b.secPerClus && v.dataStart == l.dataStart && 2 <= c < l.clusters + 2
    ensures l.dataStart <= FirstSector(v, c) && FirstSector(v, c) + v.secPerClus <= TotalSectors(b)
  {
    Distribute(c - 2, -1, v.secPerClus);
    Monotone(0, c - 2, v.secPerClus);
    Monotone(c - 1, l.clusters, v.secPerClus);
  }

  /** Sector `x` is one of those of cluster `c`. */
  predicate HasSector(v: Volume, c: int, x: int) { FirstSector(v, c) <= x < FirstSector(v, c) + v.secPerClus }

  /** Every sector that the clusters take up belongs to exactly one of them, and at most one
      cluster's worth of sectors is left over at the end of the volume. */
  lemma SectorHasCluster(b: Boot, l: Layout, v: Volume, x: int)
    requires BootOk(b) && LaidOut(b, l) && TotalSectors(b) >= l.dataStart
    requires v.secPerClus == b.secPerClus && v.dataStart == l.dataStart
    requires l.dataStart <= x < l.dataStart + l.clusters * v.secPerClus
    ensures exists c :: 2 <= c < l.clusters + 2 && HasSector(v, c, x) && forall d :: HasSector(v, d, x) ==> d == c
    ensures TotalSectors(b) - (l.dataStart + l.clusters * v.secPerClus) < v.secPerClus
  {
    var c := (x - l.dataStart) / v.secPerClus + 2;
    DivEquation(x - l.dataStart, v.secPerClus);
    Distribute(l.clusters, -1, v.secPerClus);
    forall d | HasSector(v, d, x) ensures d == c {
      DivUnique(x - l.dataStart, v.secPerClus, d - 2, x - FirstSector(v, d));
    }
    if c >= l.clusters + 2 { Monotone(l.clusters, c - 2, v.secPerClus); }
    assert HasSector(v, c, x);
  }

  /** A volume that fills in one of two fields, as the specification asks, is read by that one. */
  lemma OneField(b: Boot)
    requires (b.totSec16 == 0 || b.totSec32 == 0) && (b.fatSz16 == 0 || b.fatSz32 == 0)
    ensures TotalSectors(b) == b.totSec16 + b.totSec32 && TableSectors(b) == b.fatSz16 + b.fatSz32
  {
  }

  /** The reserved area, the tables, the root directory and the clusters follow each other:
      an entry of the first table lies before the root directory. */
  lemma EntryInTable(b: Boot, n: int)
    requires BootOk(b) && b.numFats >= 1 && 0 <= n && EntryOffset(n) + 1 < TableSectors(b) * b.bytesPerSec
    ensures b.rsvdSecCnt * b.bytesPerSec + EntryOffset(n) + 1 < (b.rsvdSecCnt + b.numFats * TableSectors(b)) * b.bytesPerSec
  {
    var t, d := TableSectors(b), b.bytesPerSec;
    Distribute(b.rsvdSecCnt, -(b.numFats * t), d);
    AtLeastOnce(b.numFats, t);
    Monotone(t, b.numFats * t, d);
  }

  /** The kind of table `fat_mount` derives from the number of clusters; none is refused. */
  function FatType(clusters: int): Option<int> {
    if clusters < 4085 then Some(FAT12_FAT_ENTRY_SIZE)
    else if clusters >= 4085 && clusters < 65525 then Some(FAT16_FAT_ENTRY_SIZE)
    else if clusters > 65525 then Some(FAT32_FAT_ENTRY_SIZE)
    else None
  }

  /** The specification's rule (FAT specification v1.03, "FAT Type Determination"). */
  function SpecifiedType(clusters: int): int {
    if clusters < 4085 then FAT12_FAT_ENTRY_SIZE
    else if clusters < 65525 then FAT16_FAT_ENTRY_SIZE
    else FAT32_FAT_ENTRY_SIZE
  }

  /** They agree except at the first FAT32 size. */
  lemma TypeAgrees(clusters: int)
    ensures FatType(clusters) == Some(SpecifiedType(clusters)) <==> clusters != 65525
  {
  }
}
