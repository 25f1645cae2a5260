/** The layout of a mounted FAT volume and the FAT read out of its sectors (kern/fs/fat/fat_base.c:1005-1067). */
module FatGeometry {
  import opened Sectors
  import opened FatEntries

  /** The constant part of FATBase_SuperBlock, with the number of sectors of the drive. */
  datatype Geometry = Geometry(fatType: FatType, fatbase: nat, sectsFat: nat, nFats: nat, maxClust: nat, database: nat,
                               sectsClust: nat, total: nat)
  {
    /** "FAT Type Determination": the type follows from the number of clusters. */
    ghost predicate Valid() {
      0 < fatbase && 0 < sectsFat && 1 <= nFats < 256 && 2 <= maxClust <= 0xFFF_FFF7 && 1 <= sectsClust <= 128 &&
      fatType == (if maxClust >= 0xFFF7 then Fat32 else if maxClust >= 0xFF7 then Fat16 else Fat12) &&
      Offset(fatType, maxClust - 1) + Length(fatType) <= SECTOR_SIZE * sectsFat &&
      Copies() && DataEnd(maxClust) <= total
    }

    ghost predicate Copies() {
      1 <= nFats && Copy(fatbase, nFats) <= database <= total
    }

    /** The sector after the data of the clusters below c. */
    ghost function DataEnd(c: nat): nat
      requires 2 <= c
    {
      database + (c - 2) * sectsClust
    }

    /** Where sector s of the first FAT is repeated in FAT number n. */
    ghost function Copy(s: nat, n: nat): nat {
      if n == 0 then s else Copy(s, n - 1) + sectsFat
    }

    ghost predicate InFat(s: nat) {
      fatbase <= s < fatbase + sectsFat
    }

    /** Sectors of the second and later FATs, which are written but never read. */
    ghost predicate InCopies(s: nat) {
      fatbase + sectsFat <= s < Copy(fatbase, nFats)
    }

    ghost predicate Visible(s: nat) {
      s < total && !InCopies(s)
    }

    /** clust2sect: the first sector of a cluster, 0 for an invalid one. */
    function ClustToSect(c: nat): nat {
      if 2 <= c < maxClust then (c - 2) * sectsClust + database else 0
    }
  }

  /** The clusters lie one behind the other from the start of the data area on; there are none below 2. */
  lemma ClustersInOrder(g: Geometry, c: nat)
    ensures 2 < g.maxClust ==> g.ClustToSect(2) == g.database
    ensures 2 <= c && c + 1 < g.maxClust ==> g.ClustToSect(c + 1) == g.ClustToSect(c) + g.sectsClust
    ensures c < 2 || g.maxClust <= c ==> g.ClustToSect(c) == 0
    ensures 2 <= c < g.maxClust ==> g.DataEnd(c + 1) == g.ClustToSect(c) + g.sectsClust
  {
    assert (c + 1 - 2) * g.sectsClust == (c - 2) * g.sectsClust + g.sectsClust;
  }

  type Disk = map<nat, Sector>

  ghost predicate Readable(g: Geometry, disk: Disk) {
    forall s :: s in disk <==> g.Visible(s)
  }

  lemma FatIsVisible(g: Geometry)
    requires g.Copies()
    ensures forall s :: g.InFat(s) ==> g.Visible(s)
  {
    CopyGrows(g, g.fatbase, 1, g.nFats);
    assert g.Copy(g.fatbase, 1) == g.fatbase + g.sectsFat;
  }

  lemma {:induction false} CopyGrows(g: Geometry, s: nat, m: nat, n: nat)
    requires m <= n
    ensures g.Copy(s, m) <= g.Copy(s, n) && (m < n ==> g.Copy(s, m) + g.sectsFat <= g.Copy(s, n))
    decreases n
  {
    if m < n {
      CopyGrows(g, s, m, n - 1);
    }
  }

  lemma {:induction false} CopyShift(g: Geometry, s: nat, n: nat)
    requires g.fatbase <= s
    ensures g.Copy(s, n) == g.Copy(g.fatbase, n) + (s - g.fatbase)
  {
    if n > 0 {
      CopyShift(g, s, n - 1);
    }
  }

  /** Copies of different sectors, and different copies, never share a sector; all lie in the copy area. */
  lemma CopiesApart(g: Geometry, s: nat, m: nat, t: nat, n: nat)
    requires g.InFat(s) && g.InFat(t) && (s != t || m != n)
    ensures g.Copy(s, m) != g.Copy(t, n)
  {
    CopyShift(g, s, m);
    CopyShift(g, t, n);
    if m < n {
      CopyGrows(g, g.fatbase, m, n);
    } else if n < m {
      CopyGrows(g, g.fatbase, n, m);
    }
  }

  lemma CopyInCopies(g: Geometry, s: nat, n: nat)
    requires g.Copies() && g.InFat(s) && 1 <= n < g.nFats
    ensures g.InCopies(g.Copy(s, n)) && g.Copy(s, n) < g.total
  {
    CopyShift(g, s, n);
    CopyGrows(g, g.fatbase, 1, n);
    assert g.Copy(g.fatbase, 1) == g.fatbase + g.sectsFat;
    CopyGrows(g, g.fatbase, n, g.nFats);
  }

  /** The bytes of the FAT. */
  ghost function FatOf(g: Geometry, disk: Disk): seq<byte>
    requires g.Valid() && Readable(g, disk)
  {
    FatIsVisible(g);
    seq(SECTOR_SIZE * g.sectsFat, b requires 0 <= b < SECTOR_SIZE * g.sectsFat =>
      assert g.InFat(g.fatbase + b / SECTOR_SIZE); disk[g.fatbase + b / SECTOR_SIZE][b % SECTOR_SIZE])
  }

  /** The FAT begins with the first byte of its first sector, and its sectors follow one another. */
  lemma FatByte(g: Geometry, disk: Disk, n: nat, i: nat)
    requires g.Valid() && Readable(g, disk) && n < g.sectsFat && i < SECTOR_SIZE
    ensures SECTOR_SIZE * n + i < |FatOf(g, disk)| == SECTOR_SIZE * g.sectsFat && g.fatbase + n in disk
    ensures FatOf(g, disk)[SECTOR_SIZE * n + i] == disk[g.fatbase + n][i]
  {
    FatIsVisible(g);
    assert g.InFat(g.fatbase + n);
  }

  /** 16 bits from 4085 clusters on, and 32 bits from 65525 on; there are no clusters 0 and 1. */
  lemma TypeByClusters(g: Geometry)
    requires g.Valid()
    ensures g.fatType == Fat12 <==> g.maxClust - 2 < 4085
    ensures g.fatType == Fat32 <==> g.maxClust - 2 >= 65525
  {
  }

  /** Changing one byte of one FAT sector changes one byte of the FAT. */
  lemma FatPoke(g: Geometry, disk: Disk, s: nat, i: nat, v: byte)
    requires g.Valid() && Readable(g, disk) && g.InFat(s) && i < SECTOR_SIZE && s in disk
    ensures var b := SECTOR_SIZE * (s - g.fatbase) + i;
      b < SECTOR_SIZE * g.sectsFat && FatOf(g, disk[s := disk[s][i := v]]) == FatOf(g, disk)[b := v]
  {
    var b := SECTOR_SIZE * (s - g.fatbase) + i;
    var disk' := disk[s := disk[s][i := v]];
    forall a | 0 <= a < SECTOR_SIZE * g.sectsFat
      ensures FatOf(g, disk')[a] == FatOf(g, disk)[b := v][a]
    {
      if a / SECTOR_SIZE == s - g.fatbase && a % SECTOR_SIZE == i {
        assert a == b;
      }
    }
  }

  /** Sectors outside the FAT do not matter to it. */
  lemma FatFrame(g: Geometry, disk: Disk, disk': Disk)
    requires g.Valid() && Readable(g, disk) && Readable(g, disk')
    requires forall s :: s in disk && g.InFat(s) ==> disk'[s] == disk[s]
    ensures FatOf(g, disk') == FatOf(g, disk)
  {
    FatIsVisible(g);
    forall b | 0 <= b < SECTOR_SIZE * g.sectsFat
      ensures FatOf(g, disk')[b] == FatOf(g, disk)[b]
    {
      assert g.InFat(g.fatbase + b / SECTOR_SIZE);
    }
  }

  /** The FAT has room for every cluster's entry. */
  lemma FatCovers(g: Geometry, c: nat)
    requires g.Valid() && c < g.maxClust
    ensures Offset(g.fatType, c) + Length(g.fatType) <= SECTOR_SIZE * g.sectsFat
  {
    if g.fatType == Fat12 {
      Offset12Split(c);
      Offset12Split(g.maxClust - 1);
    }
  }

  /** The FAT as what it stands for: one number per cluster. */
  ghost function TableOf(g: Geometry, disk: Disk): (t: seq<nat>)
    requires g.Valid() && Readable(g, disk)
    ensures |t| == g.maxClust
  {
    seq(g.maxClust, c requires 0 <= c < g.maxClust =>
      FatCovers(g, c); Entry(g.fatType, FatOf(g, disk), c))
  }

  /** Storing an entry in the bytes is updating the table. */
  lemma TableStore(g: Geometry, disk: Disk, disk': Disk, c: nat, v: nat)
    requires g.Valid() && Readable(g, disk) && Readable(g, disk')
    requires c < g.maxClust && v < 0x1_0000_0000
    requires Offset(g.fatType, c) + Length(g.fatType) <= SECTOR_SIZE * g.sectsFat
    requires FatOf(g, disk') == Store(g.fatType, FatOf(g, disk), c, v)
    ensures TableOf(g, disk') == TableOf(g, disk)[c := Truncated(g.fatType, v)]
  {
    FatCovers(g, c);
    forall d | 0 <= d < g.maxClust
      ensures TableOf(g, disk')[d] == TableOf(g, disk)[c := Truncated(g.fatType, v)][d]
    {
      FatCovers(g, d);
      EntryStore(g.fatType, FatOf(g, disk), c, v, d);
    }
  }
}
