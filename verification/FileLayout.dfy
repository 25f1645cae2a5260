/** Where the bytes of a file are: the sectors of its cluster chain, and the bytes of those sectors. */
module FileLayout {
  import opened Sequences
  import opened Sectors
  import opened FatGeometry
  import opened ClusterHeap

  // ---- division by the number of sectors per cluster ----

  lemma DivUnique(i: int, d: int, k: int, j: int)
    requires d > 0 && 0 <= j < d && i == k * d + j
    ensures i / d == k && i % d == j
  {
    var q, r := i / d, i % d;
    assert i == q * d + r;
    if q < k {
      MulGap(q, k, d);
    } else if k < q {
      MulGap(k, q, d);
    }
  }

  lemma MulGap(a: int, b: int, d: int)
    requires a < b && d > 0
    ensures a * d + d <= b * d
  {
    var m := b - a - 1;
    assert (a + 1 + m) * d == a * d + d + m * d;
    assert m * d >= 0;
  }

  lemma DivBelow(i: nat, n: nat, d: nat)
    requires d > 0 && i < n * d
    ensures 0 <= i / d < n && 0 <= i % d < d && i == i / d * d + i % d
  {
    if i / d >= n {
      MulGap(n - 1, i / d, d);
    }
  }

  /** The next sector is in the same cluster, or the first of the next one. */
  lemma DivNext(i: nat, d: nat)
    requires d > 0
    ensures i % d + 1 < d ==> (i + 1) / d == i / d && (i + 1) % d == i % d + 1
    ensures i % d + 1 == d ==> (i + 1) / d == i / d + 1 && (i + 1) % d == 0
  {
    var k, j := i / d, i % d;
    if j + 1 < d {
      DivUnique(i + 1, d, k, j + 1);
    } else {
      assert (k + 1) * d == k * d + d;
      DivUnique(i + 1, d, k + 1, 0);
    }
  }

  lemma DivWithin(i: nat, m: nat, d: nat)
    requires d > 0 && i % d + m < d
    ensures (i + m) / d == i / d && (i + m) % d == i % d + m
  {
    DivUnique(i + m, d, i / d, i % d + m);
  }

  // ---- sectors of a chain ----

  ghost predicate InData(g: Geometry, chain: seq<nat>) {
    1 <= g.sectsClust && forall k :: 0 <= k < |chain| ==> 2 <= chain[k] < g.maxClust
  }

  function SectorOf(g: Geometry, chain: seq<nat>, i: nat): nat
    requires 1 <= g.sectsClust && i < |chain| * g.sectsClust
  {
    DivBelow(i, |chain|, g.sectsClust);
    g.ClustToSect(chain[i / g.sectsClust]) + i % g.sectsClust
  }

  /** The sectors of a chain in file order. */
  ghost function SectorsOf(g: Geometry, chain: seq<nat>): (ss: seq<nat>)
    requires 1 <= g.sectsClust
    ensures |ss| == |chain| * g.sectsClust
    ensures forall i :: 0 <= i < |ss| ==> ss[i] == SectorOf(g, chain, i)
  {
    seq(|chain| * g.sectsClust, i requires 0 <= i < |chain| * g.sectsClust => SectorOf(g, chain, i))
  }

  /** Sectors of the clusters c and d overlap only when c == d. */
  lemma ClustersApart(g: Geometry, c: nat, d: nat, i: nat, j: nat)
    requires 2 <= c < g.maxClust && 2 <= d < g.maxClust && i < g.sectsClust && j < g.sectsClust
    requires g.ClustToSect(c) + i == g.ClustToSect(d) + j
    ensures c == d && i == j
  {
    if c < d {
      MulGap(c - 2, d - 2, g.sectsClust);
    } else if d < c {
      MulGap(d - 2, c - 2, g.sectsClust);
    }
  }

  lemma ClusterInData(g: Geometry, c: nat, i: nat)
    requires 2 <= c < g.maxClust && i < g.sectsClust && g.DataEnd(g.maxClust) <= g.total
    ensures g.database <= g.ClustToSect(c) + i < g.total
  {
    MulGap(c - 2, g.maxClust - 2, g.sectsClust);
  }

  lemma SectorsInData(g: Geometry, chain: seq<nat>, i: nat)
    requires 2 <= g.maxClust && g.DataEnd(g.maxClust) <= g.total && InData(g, chain) && i < |SectorsOf(g, chain)|
    ensures g.database <= SectorsOf(g, chain)[i] < g.total
  {
    DivBelow(i, |chain|, g.sectsClust);
    ClusterInData(g, chain[i / g.sectsClust], i % g.sectsClust);
  }

  /** No sector occurs twice in a file. */
  lemma SectorsDistinct(g: Geometry, chain: seq<nat>, a: nat, b: nat)
    requires InData(g, chain) && forall i, j :: 0 <= i < j < |chain| ==> chain[i] != chain[j]
    requires a < |SectorsOf(g, chain)| && b < |SectorsOf(g, chain)| && SectorsOf(g, chain)[a] == SectorsOf(g, chain)[b]
    ensures a == b
  {
    var d := g.sectsClust;
    DivBelow(a, |chain|, d);
    DivBelow(b, |chain|, d);
    ClustersApart(g, chain[a / d], chain[b / d], a % d, b % d);
  }

  /** Files on disjoint chains share no sector. */
  lemma SectorsDisjoint(g: Geometry, cs: seq<nat>, ds: seq<nat>, a: nat, b: nat)
    requires InData(g, cs) && InData(g, ds) && Disjoint(cs, ds)
    requires a < |SectorsOf(g, cs)| && b < |SectorsOf(g, ds)|
    ensures SectorsOf(g, cs)[a] != SectorsOf(g, ds)[b]
  {
    var d := g.sectsClust;
    DivBelow(a, |cs|, d);
    DivBelow(b, |ds|, d);
    if SectorsOf(g, cs)[a] == SectorsOf(g, ds)[b] {
      ClustersApart(g, cs[a / d], ds[b / d], a % d, b % d);
    }
  }

  /** Growing a chain leaves the sectors it had. */
  lemma SectorsPrefix(g: Geometry, chain: seq<nat>, more: seq<nat>, i: nat)
    requires 1 <= g.sectsClust && i < |SectorsOf(g, chain)|
    ensures i < |SectorsOf(g, chain + more)| && SectorsOf(g, chain + more)[i] == SectorsOf(g, chain)[i]
  {
    DivBelow(i, |chain|, g.sectsClust);
    assert |chain + more| * g.sectsClust == |chain| * g.sectsClust + |more| * g.sectsClust;
  }

  lemma SectorsGrow(g: Geometry, chain: seq<nat>, more: seq<nat>)
    requires 1 <= g.sectsClust
    ensures SectorsOf(g, chain) <= SectorsOf(g, chain + more)
  {
    var ss, ss' := SectorsOf(g, chain), SectorsOf(g, chain + more);
    assert |chain + more| * g.sectsClust == |chain| * g.sectsClust + |more| * g.sectsClust;
    forall i | 0 <= i < |ss|
      ensures i < |ss'| && ss'[i] == ss[i]
    {
      SectorsPrefix(g, chain, more, i);
    }
  }

  /** Within a cluster sectors are contiguous. */
  lemma SectorsContiguous(g: Geometry, chain: seq<nat>, i: nat, m: nat)
    requires 1 <= g.sectsClust && i < |SectorsOf(g, chain)| && i % g.sectsClust + m < g.sectsClust
    ensures i + m < |SectorsOf(g, chain)| && SectorsOf(g, chain)[i + m] == SectorsOf(g, chain)[i] + m
    ensures (i + m) / g.sectsClust == i / g.sectsClust && (i + m) % g.sectsClust == i % g.sectsClust + m
  {
    var d := g.sectsClust;
    DivBelow(i, |chain|, d);
    DivWithin(i, m, d);
    if i / d < |chain| - 1 {
      MulGap(i / d, |chain|, d);
    }
    assert (i / d + 1) * d == i / d * d + d <= |chain| * d;
  }

  // ---- bytes of a file ----

  ghost predicate OnDisk(ss: seq<nat>, disk: Disk) {
    forall i :: 0 <= i < |ss| ==> ss[i] in disk
  }

  ghost function ByteAt(ss: seq<nat>, disk: Disk, b: nat): byte
    requires OnDisk(ss, disk) && b < SECTOR_SIZE * |ss|
  {
    disk[ss[b / SECTOR_SIZE]][b % SECTOR_SIZE]
  }

  /** All bytes of the sectors of a file, past its end as well. */
  ghost function Bytes(ss: seq<nat>, disk: Disk): (r: seq<byte>)
    requires OnDisk(ss, disk)
    ensures |r| == SECTOR_SIZE * |ss|
    ensures forall b :: 0 <= b < |r| ==> r[b] == ByteAt(ss, disk, b)
  {
    seq(SECTOR_SIZE * |ss|, b requires 0 <= b < SECTOR_SIZE * |ss| => ByteAt(ss, disk, b))
  }

  lemma BytesFrame(ss: seq<nat>, disk: Disk, disk': Disk)
    requires OnDisk(ss, disk) && OnDisk(ss, disk') && forall i :: 0 <= i < |ss| ==> disk'[ss[i]] == disk[ss[i]]
    ensures Bytes(ss, disk') == Bytes(ss, disk)
  {
  }

  lemma ByteInSector(i: nat, r: nat, n: nat)
    requires r < SECTOR_SIZE && i < n
    ensures (SECTOR_SIZE * i + r) / SECTOR_SIZE == i && (SECTOR_SIZE * i + r) % SECTOR_SIZE == r
    ensures SECTOR_SIZE * i + r < SECTOR_SIZE * n
  {
  }

  /** Byte o of sector i of the file. */
  lemma ByteOfSector(ss: seq<nat>, disk: Disk, i: nat, o: nat)
    requires OnDisk(ss, disk) && i < |ss| && o < SECTOR_SIZE
    ensures SECTOR_SIZE * i + o < SECTOR_SIZE * |ss| && Bytes(ss, disk)[SECTOR_SIZE * i + o] == disk[ss[i]][o]
  {
    ByteInSector(i, o, |ss|);
  }

  /** Replacing sector i of the file replaces its bytes and no others. */
  lemma BytesAfterSector(ss: seq<nat>, disk: Disk, i: nat, data: Sector, b: nat)
    requires OnDisk(ss, disk) && Distinct(ss) && i < |ss| && b < SECTOR_SIZE * |ss|
    ensures OnDisk(ss, disk[ss[i] := data])
    ensures Bytes(ss, disk[ss[i] := data])[b] ==
      if SECTOR_SIZE * i <= b < SECTOR_SIZE * i + SECTOR_SIZE then data[b - SECTOR_SIZE * i] else Bytes(ss, disk)[b]
  {
    var j := b / SECTOR_SIZE;
    assert SECTOR_SIZE * i <= b < SECTOR_SIZE * i + SECTOR_SIZE <==> j == i;
    assert j == i ==> b % SECTOR_SIZE == b - SECTOR_SIZE * i;
  }

  /** Consecutive sectors s, s + 1, ... of the disk, and of the file from sector i on. */
  ghost predicate Contiguous(ss: seq<nat>, i: nat, n: nat, s: nat) {
    i + n <= |ss| && forall j :: i <= j < i + n ==> ss[j] == s + (j - i)
  }

  /** A sector of the file is in the run of disk sectors exactly when it is in the run of file sectors. */
  lemma InRun(ss: seq<nat>, i: nat, n: nat, s: nat, j: nat)
    requires Distinct(ss) && Contiguous(ss, i, n, s) && j < |ss|
    ensures s <= ss[j] < s + n <==> i <= j < i + n
  {
    if s <= ss[j] < s + n {
      assert ss[i + (ss[j] - s)] == ss[j];
    }
  }
}
