/** A mounted FAT volume: the one-sector window over the block cache and the FAT seen through it
    (kern/fs/fat/fat_base.c:331-487). */
module FatVolume {
  import opened Sectors
  import opened BlockCache
  import opened FatEntries
  import opened FatGeometry
  import opened ClusterHeap

  /** free_clust before the free clusters have been counted. */
  const UNKNOWN := 0xFFFF_FFFF

  /** Nothing outside the FAT has changed. */
  ghost predicate DataKept(g: Geometry, before: Disk, after: Disk) {
    after.Keys == before.Keys && forall s :: s in after && !g.InFat(s) ==> after[s] == before[s]
  }

  /** Sectors sect to sect + n - 1 hold the data, all others are as before. */
  ghost predicate DiskWritten(before: Disk, after: Disk, sect: nat, n: nat, data: seq<byte>)
    requires |data| == SECTOR_SIZE * n
  {
    after.Keys == before.Keys &&
    forall s :: s in after ==> after[s] == if sect <= s < sect + n then Chunk(data, s - sect) else before[s]
  }

  ghost function Overwritten(disk: Disk, sect: nat, n: nat, data: seq<byte>): (r: Disk)
    requires |data| == SECTOR_SIZE * n
    ensures DiskWritten(disk, r, sect, n, data)
  {
    map s: nat | s in disk :: NewSector(disk, sect, n, data, s)
  }

  ghost function NewSector(disk: Disk, sect: nat, n: nat, data: seq<byte>, s: nat): Sector
    requires |data| == SECTOR_SIZE * n && s in disk
  {
    if sect <= s < sect + n then Chunk(data, s - sect) else disk[s]
  }

  lemma WriteShows(g: Geometry, drive: nat, view: map<Key, Sector>, view': map<Key, Sector>, disk: Disk, winflag: bool,
                   winsect: nat, sect: nat, n: nat, data: seq<byte>)
    requires Backed(g, drive, view) && Readable(g, disk) && |data| == SECTOR_SIZE * n
    requires forall s :: s in disk && !(winflag && s == winsect) ==> disk[s] == view[Key(drive, s)]
    requires Written(view, view', drive, sect, n, data)
    ensures forall s :: s in disk && !(winflag && s == winsect) ==>
      Key(drive, s) in view' && Overwritten(disk, sect, n, data)[s] == view'[Key(drive, s)]
  {
    forall s | s in disk && !(winflag && s == winsect)
      ensures Key(drive, s) in view' && Overwritten(disk, sect, n, data)[s] == view'[Key(drive, s)]
    {
      assert InRange(Key(drive, s), drive, sect, n) <==> sect <= s < sect + n;
    }
  }

  lemma WriteKeepsFat(g: Geometry, disk: Disk, disk': Disk, sect: nat, n: nat, data: seq<byte>)
    requires g.Valid() && Readable(g, disk) && Readable(g, disk') && |data| == SECTOR_SIZE * n
    requires DiskWritten(disk, disk', sect, n, data) && forall s :: sect <= s < sect + n ==> !g.InFat(s)
    ensures TableOf(g, disk') == TableOf(g, disk)
  {
    hide Geometry.Valid;
    FatFrame(g, disk, disk');
  }

  lemma WriteKeepsCopies(g: Geometry, drive: nat, view: map<Key, Sector>, view': map<Key, Sector>, sect: nat, n: nat,
                         data: seq<byte>)
    requires g.Copies() && Backed(g, drive, view) && CopiesAgree(g, drive, view) && |data| == SECTOR_SIZE * n
    requires g.database <= sect && Written(view, view', drive, sect, n, data)
    ensures Backed(g, drive, view') && CopiesAgree(g, drive, view')
  {
    FatIsVisible(g);
    forall s, m | g.InFat(s) && 1 <= m < g.nFats
      ensures Key(drive, g.Copy(s, m)) in view' && Key(drive, s) in view' &&
        view'[Key(drive, g.Copy(s, m))] == view'[Key(drive, s)]
    {
      CopyInCopies(g, s, m);
      assert !InRange(Key(drive, s), drive, sect, n) && !InRange(Key(drive, g.Copy(s, m)), drive, sect, n) by {
        CopyGrows(g, g.fatbase, 1, g.nFats);
        assert g.Copy(g.fatbase, 1) == g.fatbase + g.sectsFat;
      }
    }
  }

  lemma DataSame(g: Geometry, disk: Disk)
    ensures DataKept(g, disk, disk)
  {
  }

  ghost predicate Backed(g: Geometry, drive: nat, view: map<Key, Sector>) {
    forall k: Key :: k.dev == drive && k.sec < g.total ==> k in view
  }

  /** On the drive, every FAT copy equals the first FAT. */
  ghost predicate CopiesAgree(g: Geometry, drive: nat, view: map<Key, Sector>)
    requires g.Copies() && Backed(g, drive, view)
  {
    forall s, n :: g.InFat(s) && 1 <= n < g.nFats ==> (
      FatIsVisible(g); CopyInCopies(g, s, n);
      view[Key(drive, g.Copy(s, n))] == view[Key(drive, s)])
  }

  /** The drive after writing a FAT sector and its first n - 1 copies. */
  ghost function Mirrored(g: Geometry, drive: nat, view: map<Key, Sector>, s: nat, n: nat, data: Sector): map<Key,
                          Sector> {
    if n == 0 then view else Mirrored(g, drive, view, s, n - 1, data)[Key(drive, g.Copy(s, n - 1)) := data]
  }

  lemma {:induction false} MirroredAt(g: Geometry, drive: nat, view: map<Key, Sector>, s: nat, n: nat, data: Sector,
                                      k: Key)
    requires k in view
    ensures k in Mirrored(g, drive, view, s, n, data)
    ensures (exists m :: 0 <= m < n && k == Key(drive, g.Copy(s, m))) ==>
      Mirrored(g, drive, view, s, n, data)[k] == data
    ensures (forall m :: 0 <= m < n ==> k != Key(drive, g.Copy(s, m))) ==>
      Mirrored(g, drive, view, s, n, data)[k] == view[k]
  {
    if n > 0 {
      MirroredAt(g, drive, view, s, n - 1, data, k);
    }
  }

  lemma {:induction false} MirroredKeys(g: Geometry, drive: nat, view: map<Key, Sector>, s: nat, n: nat, data: Sector)
    requires g.Copies() && Backed(g, drive, view) && g.InFat(s) && n <= g.nFats
    ensures Mirrored(g, drive, view, s, n, data).Keys == view.Keys
  {
    if n > 0 {
      MirroredKeys(g, drive, view, s, n - 1, data);
      FatIsVisible(g);
      if n > 1 {
        CopyInCopies(g, s, n - 1);
      }
    }
  }

  /** Writing a FAT sector with all its copies changes no other visible sector. */
  lemma MirroredFrame(g: Geometry, drive: nat, view: map<Key, Sector>, s: nat, data: Sector, k: Key)
    requires g.Copies() && g.InFat(s) && k in view
    requires k.dev == drive ==> !g.InCopies(k.sec)
    ensures k in Mirrored(g, drive, view, s, g.nFats, data)
    ensures Mirrored(g, drive, view, s, g.nFats, data)[k] == if k == Key(drive, s) then data else view[k]
  {
    MirroredAt(g, drive, view, s, g.nFats, data, k);
    if k == Key(drive, s) {
      assert k == Key(drive, g.Copy(s, 0));
    } else {
      forall m | 0 <= m < g.nFats
        ensures k != Key(drive, g.Copy(s, m))
      {
        if m > 0 {
          CopyInCopies(g, s, m);
        }
      }
    }
  }

  /** Writing a FAT sector with all its copies keeps the copies equal. */
  lemma MirroredAgree(g: Geometry, drive: nat, view: map<Key, Sector>, s: nat, data: Sector)
    requires g.Copies() && Backed(g, drive, view) && CopiesAgree(g, drive, view) && g.InFat(s)
    ensures Backed(g, drive, Mirrored(g, drive, view, s, g.nFats, data))
    ensures CopiesAgree(g, drive, Mirrored(g, drive, view, s, g.nFats, data))
  {
    var after := Mirrored(g, drive, view, s, g.nFats, data);
    MirroredKeys(g, drive, view, s, g.nFats, data);
    FatIsVisible(g);
    forall t, n | g.InFat(t) && 1 <= n < g.nFats
      ensures Key(drive, g.Copy(t, n)) in after && after[Key(drive, g.Copy(t, n))] == after[Key(drive, t)]
    {
      var k := Key(drive, g.Copy(t, n));
      CopyInCopies(g, t, n);
      MirroredFrame(g, drive, view, s, data, Key(drive, t));
      MirroredAt(g, drive, view, s, g.nFats, data, k);
      if t != s {
        forall m | 0 <= m < g.nFats
          ensures k != Key(drive, g.Copy(s, m))
        {
          CopiesApart(g, t, n, s, m);
        }
      }
    }
  }

  class Volume {
    const cache: Cache
    const drive: nat
    const g: Geometry
    var win: Sector
    var winsect: nat
    var winflag: bool
    var lastClust: nat
    var freeClust: uint32
    var fsiFlag: bool
    // The drive as the file system sees it, through the window.
    ghost var disk: Disk

    /** The window over the drive: where it is dirty it hides the drive, elsewhere the two agree. */
    ghost predicate Windowed()
      reads this`win, this`winsect, this`winflag, this`disk, cache
    {
      Backed(g, drive, cache.view) && Readable(g, disk) &&
      (forall s :: s in disk && !(winflag && s == winsect) ==> disk[s] == cache.view[Key(drive, s)]) &&
      (winsect != 0 ==> winsect in disk && win == disk[winsect]) &&
      (winflag ==> g.fatbase <= winsect)
    }

    ghost predicate Valid()
      reads this`win, this`winsect, this`winflag, this`disk, cache, cache.slots
    {
      cache.Valid() && g.Valid() && Windowed() && CopiesAgree(g, drive, cache.view)
    }

    /** A volume just mounted; the window shows nothing yet. */
    constructor (cache: Cache, drive: nat, g: Geometry)
      requires cache.Valid() && g.Valid() && Backed(g, drive, cache.view) && CopiesAgree(g, drive, cache.view)
      ensures Valid() && this.cache == cache && this.drive == drive && this.g == g
      ensures forall s :: s in disk ==> disk[s] == cache.view[Key(drive, s)]
      ensures winsect == 0 && !winflag && lastClust == 0 && freeClust == 0xFFFF_FFFF && !fsiFlag
    {
      this.cache, this.drive, this.g := cache, drive, g;
      win, winsect, winflag := ZERO_SECTOR, 0, false;
      lastClust, freeClust, fsiFlag := 0, UNKNOWN, false;
      disk := map s: nat | s < g.total && g.Visible(s) :: cache.view[Key(drive, s)];
    }

    /** Write back the dirty window, and its copies when it is a FAT sector. */
    method Flush()
      requires Valid() && winflag
      modifies `winflag, cache, cache.slots
      ensures Valid() && !winflag
    {
      hide Cache.Valid;
      winflag := false;
      ghost var view := cache.view;
      if winsect < g.fatbase + g.sectsFat {
        WriteWithCopies(cache, drive, g, winsect, win);
        FlushedFat(g, drive, view, cache.view, disk, winsect, win);
      } else {
        var _ := cache.ReadWrite(Key(drive, winsect), true, win);
        FlushedData(g, drive, view, disk, winsect, win);
      }
    }

    /** move_window: show a sector; sector 0 only writes back. What the file system sees does not change. */
    method MoveWindow(sector: nat)
      requires Valid() && (sector == 0 || sector in disk)
      modifies `win, `winsect, `winflag, cache, cache.slots
      ensures Valid()
      ensures sector != 0 ==> winsect == sector
      ensures sector == 0 && old(winsect) != 0 ==> !winflag && winsect == old(winsect)
    {
      hide Cache.Valid;
      hide CopiesAgree;
      if winsect != sector {
        if winflag {
          Flush();
        }
        if sector != 0 {
          win := cache.ReadWrite(Key(drive, sector), false, ZERO_SECTOR);
          winsect := sector;
        }
      }
    }

    /** Data sectors are visible and lie outside the FAT. */
    lemma DataVisible()
      requires Valid()
      ensures 1 <= g.sectsClust && 2 <= g.maxClust && g.DataEnd(g.maxClust) <= g.total
      ensures forall s :: g.database <= s < g.total ==> s in disk && !g.InFat(s)
      ensures forall s: nat :: g.InFat(s) ==> s < g.database
    {
      hide Cache.Valid;
      hide CopiesAgree;
      CopyGrows(g, g.fatbase, 1, g.nFats);
      assert g.Copy(g.fatbase, 1) == g.fatbase + g.sectsFat;
    }

    /** Once the window is written back, every FAT copy on the drive is the FAT the file system sees. */
    lemma CopiesHoldFat(s: nat, n: nat)
      requires Valid() && !winflag && g.InFat(s) && n < g.nFats
      ensures s in disk && Key(drive, g.Copy(s, n)) in cache.view && cache.view[Key(drive, g.Copy(s, n))] == disk[s]
    {
      hide Cache.Valid;
      FatIsVisible(g);
      if n > 0 {
        CopyInCopies(g, s, n);
      }
    }

    /** fatbase_disk_read of data sectors, which goes past the window. */
    method ReadData(sect: nat, n: nat) returns (data: seq<byte>)
      requires Valid() && g.database <= sect && sect + n <= g.total
      requires !(winflag && sect <= winsect < sect + n)
      modifies cache, cache.slots
      ensures Valid() && |data| == SECTOR_SIZE * n
      ensures forall s :: sect <= s < sect + n ==> s in disk && disk[s] == Chunk(data, s - sect)
    {
      hide Cache.Valid;
      hide CopiesAgree;
      data := cache.ReadSectors(drive, sect, n);
      forall s | sect <= s < sect + n
        ensures s in disk && disk[s] == Chunk(data, s - sect)
      {
        assert InRange(Key(drive, s), drive, sect, n);
      }
    }

    /** fatbase_disk_write of data sectors. */
    method WriteData(sect: nat, n: nat, data: seq<byte>)
      requires Valid() && g.database <= sect && sect + n <= g.total && |data| == SECTOR_SIZE * n
      requires !(sect <= winsect < sect + n)
      modifies `disk, cache, cache.slots
      ensures Valid() && DiskWritten(old(disk), disk, sect, n, data) && Table() == old(Table())
    {
      hide Cache.Valid;
      hide Overwritten;
      hide Written;
      DataVisible();
      ghost var view, disk0 := cache.view, disk;
      cache.WriteSectors(drive, sect, n, data);
      WriteKeepsCopies(g, drive, view, cache.view, sect, n, data);
      disk := Overwritten(disk, sect, n, data);
      WriteShows(g, drive, view, cache.view, disk0, winflag, winsect, sect, n, data);
      WriteKeepsFat(g, disk0, disk, sect, n, data);
    }

    /** The bytes of the FAT. */
    ghost function Fat(): (fat: seq<byte>)
      requires Valid()
      reads this`win, this`winsect, this`winflag, this`disk, cache, cache.slots
      ensures |fat| == SECTOR_SIZE * g.sectsFat
    {
      hide Cache.Valid;
      FatOf(g, disk)
    }

    /** The FAT as one number per cluster. */
    ghost function Table(): (t: seq<nat>)
      requires Valid()
      reads this`win, this`winsect, this`winflag, this`disk, cache, cache.slots
      ensures |t| == g.maxClust >= 2
    {
      hide Cache.Valid;
      TableOf(g, disk)
    }

    lemma TableEntry(c: nat)
      requires Valid() && c < g.maxClust
      ensures Offset(g.fatType, c) + Length(g.fatType) <= |Fat()|
      ensures Table()[c] == Entry(g.fatType, Fat(), c)
    {
      hide Cache.Valid;
      FatCovers(g, c);
    }

    /** Byte i of the window is the byte of the FAT at offset b. */
    ghost predicate Shown(i: nat, b: nat)
      reads this
    {
      i < SECTOR_SIZE && g.InFat(winsect) && b == SECTOR_SIZE * (winsect - g.fatbase) + i
    }

    method Peek(i: nat, ghost b: nat) returns (v: byte)
      requires Valid() && Shown(i, b)
      ensures b < |Fat()| && v == Fat()[b]
    {
      hide Cache.Valid;
      hide CopiesAgree;
      v := win[i];
    }

    method Poke(i: nat, ghost b: nat, v: byte)
      requires Valid() && Shown(i, b)
      modifies `win, `winflag, `disk
      ensures Valid() && winflag
      ensures b < |Fat()| && Fat() == old(Fat())[b := v]
      ensures DataKept(g, old(disk), disk)
    {
      hide Cache.Valid;
      hide CopiesAgree;
      FatPoke(g, disk, winsect, i, v);
      win := win[i := v];
      winflag := true;
      disk := disk[winsect := win];
    }

    /** Show sector n of the FAT. */
    method ShowFat(n: nat)
      requires Valid() && n < g.sectsFat
      modifies `win, `winsect, `winflag, cache, cache.slots
      ensures Valid() && winsect == g.fatbase + n
    {
      hide Cache.Valid;
      hide CopiesAgree;
      FatIsVisible(g);
      assert g.InFat(g.fatbase + n);
      MoveWindow(g.fatbase + n);
    }

    /** The byte, LD_WORD and LD_DWORD at byte i of sector n of the FAT. */
    method LoadByte(n: nat, i: nat, ghost b: nat) returns (v: byte)
      requires Valid() && n < g.sectsFat && i < SECTOR_SIZE && b == SECTOR_SIZE * n + i
      modifies `win, `winsect, `winflag, cache, cache.slots
      ensures Valid() && g.InFat(winsect) && b < |Fat()| && v == Fat()[b]
    {
      hide Valid;
      ShowFat(n);
      v := Peek(i, b);
    }

    method LoadWord(n: nat, i: nat, ghost b: nat) returns (v: nat)
      requires Valid() && n < g.sectsFat && i + 1 < SECTOR_SIZE && b == SECTOR_SIZE * n + i
      modifies `win, `winsect, `winflag, cache, cache.slots
      ensures Valid() && g.InFat(winsect) && b + 1 < |Fat()| && v == Word(Fat()[b], Fat()[b + 1])
    {
      hide Valid;
      ShowFat(n);
      var b0 := Peek(i, b);
      var b1 := Peek(i + 1, b + 1);
      v := Word(b0, b1);
    }

    method LoadDword(n: nat, i: nat, ghost b: nat) returns (v: nat)
      requires Valid() && n < g.sectsFat && i + 3 < SECTOR_SIZE && b == SECTOR_SIZE * n + i
      modifies `win, `winsect, `winflag, cache, cache.slots
      ensures Valid() && g.InFat(winsect) && b + 3 < |Fat()|
      ensures v == Dword(Fat()[b], Fat()[b + 1], Fat()[b + 2], Fat()[b + 3])
    {
      hide Valid;
      ShowFat(n);
      var b0 := Peek(i, b);
      var b1 := Peek(i + 1, b + 1);
      var b2 := Peek(i + 2, b + 2);
      var b3 := Peek(i + 3, b + 3);
      v := Dword(b0, b1, b2, b3);
    }

    method Get12(clust: nat) returns (r: nat)
      requires Valid() && g.fatType == Fat12 && clust < g.maxClust
      modifies `win, `winsect, `winflag, cache, cache.slots
      ensures Valid() && g.InFat(winsect) && r == Table()[clust]
    {
      hide Valid;
      TableEntry(clust);
      var bc := clust * 3 / 2;
      SectorAndByte(bc, g.sectsFat);
      SectorAndByte(bc + 1, g.sectsFat);
      var lo := LoadByte(bc / SECTOR_SIZE, bc % SECTOR_SIZE, bc);
      bc := bc + 1;
      var hi := LoadByte(bc / SECTOR_SIZE, bc % SECTOR_SIZE, bc);
      var wc := Word(lo, hi);
      r := if clust % 2 == 1 then wc / 16 else wc % 0x1000;
    }

    method Get16(clust: nat) returns (r: nat)
      requires Valid() && g.fatType == Fat16 && clust < g.maxClust
      modifies `win, `winsect, `winflag, cache, cache.slots
      ensures Valid() && g.InFat(winsect) && r == Table()[clust]
    {
      hide Valid;
      TableEntry(clust);
      Place16(clust, g.sectsFat);
      r := LoadWord(clust / 256, clust % 256 * 2, 2 * clust);
    }

    method Get32(clust: nat) returns (r: nat)
      requires Valid() && g.fatType == Fat32 && clust < g.maxClust
      modifies `win, `winsect, `winflag, cache, cache.slots
      ensures Valid() && g.InFat(winsect) && r == Table()[clust]
    {
      hide Valid;
      hide Entry;
      TableEntry(clust);
      Entry32Masked(Fat(), clust);
      Place32(clust, g.sectsFat);
      r := LoadDword(clust / 128, clust % 128 * 4, 4 * clust);
      r := r % 0x1000_0000;
    }

    /** get_cluster: the entry of a cluster, 1 for an invalid cluster. */
    method GetCluster(clust: nat) returns (r: nat)
      requires Valid()
      modifies `win, `winsect, `winflag, cache, cache.slots
      ensures Valid() && (if 2 <= clust < g.maxClust then g.InFat(winsect) else winsect == old(winsect))
      ensures r == if 2 <= clust < g.maxClust then Table()[clust] else 1
    {
      hide Valid;
      if 2 <= clust < g.maxClust {
        match g.fatType
        case Fat12 => r := Get12(clust);
        case Fat16 => r := Get16(clust);
        case Fat32 => r := Get32(clust);
      } else {
        r := 1;
      }
    }

    /** One byte, ST_WORD and ST_DWORD at byte i of sector n of the FAT. */
    method StoreByte(n: nat, i: nat, ghost b: nat, v: byte)
      requires Valid() && n < g.sectsFat && i < SECTOR_SIZE && b == SECTOR_SIZE * n + i
      modifies `win, `winsect, `winflag, `disk, cache, cache.slots
      ensures Valid() && g.InFat(winsect) && b < |Fat()| && Fat() == old(Fat())[b := v]
      ensures DataKept(g, old(disk), disk)
    {
      hide Valid;
      ShowFat(n);
      Poke(i, b, v);
    }

    method StoreWord(n: nat, i: nat, ghost b: nat, b0: byte, b1: byte)
      requires Valid() && n < g.sectsFat && i + 1 < SECTOR_SIZE && b == SECTOR_SIZE * n + i
      modifies `win, `winsect, `winflag, `disk, cache, cache.slots
      ensures Valid() && g.InFat(winsect) && b + 1 < |Fat()| && Fat() == old(Fat())[b := b0][b + 1 := b1]
      ensures DataKept(g, old(disk), disk)
    {
      hide Valid;
      ShowFat(n);
      Poke(i, b, b0);
      Poke(i + 1, b + 1, b1);
    }

    method StoreDword(n: nat, i: nat, ghost b: nat, b0: byte, b1: byte, b2: byte, b3: byte)
      requires Valid() && n < g.sectsFat && i + 3 < SECTOR_SIZE && b == SECTOR_SIZE * n + i
      modifies `win, `winsect, `winflag, `disk, cache, cache.slots
      ensures Valid() && g.InFat(winsect) && b + 3 < |Fat()|
      ensures Fat() == old(Fat())[b := b0][b + 1 := b1][b + 2 := b2][b + 3 := b3]
      ensures DataKept(g, old(disk), disk)
    {
      hide Valid;
      StoreWord(n, i, b, b0, b1);
      StoreWord(n, i + 2, b + 2, b2, b3);
    }

    method Put12(clust: nat, val: nat)
      requires Valid() && g.fatType == Fat12 && clust < g.maxClust
      modifies `win, `winsect, `winflag, `disk, cache, cache.slots
      ensures Valid() && g.InFat(winsect) && Offset(Fat12, clust) + 2 <= |Fat()|
      ensures Fat() == Store(Fat12, old(Fat()), clust, val)
      ensures DataKept(g, old(disk), disk)
    {
      hide Valid;
      TableEntry(clust);
      var bc := clust * 3 / 2;
      SectorAndByte(bc, g.sectsFat);
      SectorAndByte(bc + 1, g.sectsFat);
      var b := LoadByte(bc / SECTOR_SIZE, bc % SECTOR_SIZE, bc);
      StoreByte(bc / SECTOR_SIZE, bc % SECTOR_SIZE, bc, LowByte12(clust, b, val));
      bc := bc + 1;
      b := LoadByte(bc / SECTOR_SIZE, bc % SECTOR_SIZE, bc);
      StoreByte(bc / SECTOR_SIZE, bc % SECTOR_SIZE, bc, HighByte12(clust, b, val));
    }

    method Put16(clust: nat, val: nat)
      requires Valid() && g.fatType == Fat16 && clust < g.maxClust
      modifies `win, `winsect, `winflag, `disk, cache, cache.slots
      ensures Valid() && g.InFat(winsect) && Offset(Fat16, clust) + 2 <= |Fat()|
      ensures Fat() == Store(Fat16, old(Fat()), clust, val)
      ensures DataKept(g, old(disk), disk)
    {
      hide Valid;
      TableEntry(clust);
      Place16(clust, g.sectsFat);
      StoreWord(clust / 256, clust % 256 * 2, 2 * clust, val % 256, val / 256 % 256);
    }

    method Put32(clust: nat, val: nat)
      requires Valid() && g.fatType == Fat32 && clust < g.maxClust
      modifies `win, `winsect, `winflag, `disk, cache, cache.slots
      ensures Valid() && g.InFat(winsect) && Offset(Fat32, clust) + 4 <= |Fat()|
      ensures Fat() == Store(Fat32, old(Fat()), clust, val)
      ensures DataKept(g, old(disk), disk)
    {
      hide Valid;
      TableEntry(clust);
      Place32(clust, g.sectsFat);
      StoreDword(clust / 128, clust % 128 * 4, 4 * clust,
        val % 256, val / 256 % 256, val / 0x1_0000 % 256, val / 0x100_0000 % 256);
    }

    /** put_cluster: change the entry of a cluster. */
    method PutCluster(clust: nat, val: nat)
      requires Valid() && 2 <= clust < g.maxClust && val < 0x1_0000_0000
      modifies `win, `winsect, `winflag, `disk, cache, cache.slots
      ensures Valid() && g.InFat(winsect)
      ensures Table() == old(Table())[clust := Truncated(g.fatType, val)]
      ensures DataKept(g, old(disk), disk)
    {
      hide Cache.Valid;
      hide CopiesAgree;
      ghost var disk0 := disk;
      match g.fatType {
        case Fat12 => Put12(clust, val);
        case Fat16 => Put16(clust, val);
        case Fat32 => Put32(clust, val);
      }
      TableStore(g, disk0, disk, clust, val);
    }

    /** Cluster numbers fit in entries, and the "in use" mark is no cluster number. */
    lemma EntryFits(v: nat)
      requires Valid() && (v == 0 || v < g.maxClust)
      ensures Truncated(g.fatType, v) == v
    {
      hide Cache.Valid;
      hide Windowed;
    }

    lemma EocFits()
      requires Valid()
      ensures Eoc(g) >= g.maxClust > 0
      ensures Eoc(g) == match g.fatType case Fat12 => 0xFFF case Fat16 => 0xFFFF case Fat32 => 0x0FFF_FFFF
    {
      hide Cache.Valid;
      hide Windowed;
    }

    /** remove_chain: free the clusters of a chain. */
    method RemoveChain(start: nat) returns (ok: bool)
      requires Valid()
      modifies `win, `winsect, `winflag, `disk, `freeClust, `fsiFlag, cache, cache.slots
      ensures Valid() && (g.InFat(winsect) || winsect == old(winsect))
      ensures Table() == Removed(old(Table()), start)
      ensures ok <==> !MeetsOne(old(Table()), start)
      ensures old(freeClust) == UNKNOWN ==> freeClust == UNKNOWN
      ensures old(freeClust) + Steps(old(Table()), start) < UNKNOWN ==>
        freeClust == old(freeClust) + Steps(old(Table()), start)
      ensures fsiFlag == (old(fsiFlag) || (old(freeClust) != UNKNOWN && Steps(old(Table()), start) > 0))
      ensures DataKept(g, old(disk), disk)
    {
      hide Valid;
      hide Removed;
      hide Steps;
      hide InUse;
      hide MeetsOne;
      var clust: nat := start;
      while 2 <= clust < g.maxClust
        invariant Valid() && (MeetsOne(Table(), clust) <==> MeetsOne(old(Table()), start))
        invariant g.InFat(winsect) || winsect == old(winsect)
        invariant Removed(Table(), clust) == Removed(old(Table()), start)
        invariant old(freeClust) == UNKNOWN ==> freeClust == UNKNOWN
        invariant old(freeClust) + Steps(old(Table()), start) < UNKNOWN ==>
          freeClust + Steps(Table(), clust) == old(freeClust) + Steps(old(Table()), start)
        invariant Steps(Table(), clust) <= Steps(old(Table()), start)
        invariant Steps(Table(), clust) == Steps(old(Table()), start) ==> freeClust == old(freeClust)
        invariant fsiFlag ==
          (old(fsiFlag) || (old(freeClust) != UNKNOWN && Steps(old(Table()), start) > Steps(Table(), clust)))
        invariant DataKept(g, old(disk), disk)
        decreases InUse(Table()), if IsCluster(Table(), clust) then 1 else 0
      {
        MeetsOneStep(Table(), clust);
        var nxt := GetCluster(clust);
        if nxt == 1 {
          RemovedAtEnd(Table(), clust);
          return false;
        }
        RemovedStep(Table(), clust);
        EntryFits(0);
        PutCluster(clust, 0);
        if freeClust != UNKNOWN {
          freeClust := freeClust + 1;
          fsiFlag := true;
        }
        clust := nxt;
      }
      RemovedAtEnd(Table(), clust);
      MeetsOneStep(Table(), clust);
      ok := true;
    }

    /** The search of create_chain: the clusters behind scl, then from 2 up to scl. */
    method FindFree(scl: nat) returns (ncl: nat)
      requires Valid() && 1 <= scl < g.maxClust
      modifies `win, `winsect, `winflag, cache, cache.slots
      ensures Valid() && (g.InFat(winsect) || winsect == old(winsect)) && (ncl >= 2 ==> g.InFat(winsect))
      ensures ncl == 0 ==> NoFree(Table())
      ensures ncl == 1 ==> !NoOnes(Table())
      ensures ncl >= 2 ==> IsCluster(Table(), ncl) && Table()[ncl] == 0
      ensures ncl >= 2 ==> FirstOpen(Table(), scl, ncl)
      ensures ncl == 1 ==> exists c: nat :: FirstOpen(Table(), scl, c) && Table()[c] == 1
      ensures ncl == 0 ==> forall c: nat :: IsCluster(Table(), c) ==> Table()[c] >= 2
    {
      hide Valid;
      ncl := scl;
      ghost var t, wrapped := Table(), false;
      while true
        invariant Valid() && 1 <= ncl < g.maxClust && Table() == t
        invariant g.InFat(winsect) || winsect == old(winsect)
        invariant if wrapped then ncl < scl else scl <= ncl
        invariant forall c: nat :: IsCluster(t, c) && Passed(scl, c, ncl, wrapped) ==> t[c] >= 2
        decreases if wrapped then scl - ncl else g.maxClust + scl - ncl
      {
        ncl := ncl + 1;
        if ncl >= g.maxClust {
          ncl := 2;
          wrapped := true;
          if ncl > scl {
            return 0;
          }
        }
        var cstat := GetCluster(ncl);
        if cstat == 0 {
          return;
        }
        if cstat == 1 {
          assert FirstOpen(t, scl, ncl);
          return 1;
        }
        if ncl == scl {
          return 0;
        }
      }
    }

    /** Where create_chain starts looking, or the answer it gives without looking. */
    method SearchStart(clust: nat) returns (done: bool, r: nat)
      requires Valid()
      modifies `win, `winsect, `winflag, cache, cache.slots
      ensures Valid() && (g.InFat(winsect) || winsect == old(winsect)) && (done && r >= 2 ==> g.InFat(winsect))
      ensures clust == 0 ==> !done
      ensures clust != 0 && (!IsCluster(Table(), clust) || Table()[clust] < 2) ==> done && r == 1
      ensures clust != 0 && IsCluster(Table(), clust) && 2 <= Table()[clust] < g.maxClust ==> done
      ensures clust != 0 && IsCluster(Table(), clust) && 2 <= Table()[clust] < g.maxClust ==> r == Table()[clust]
      ensures clust != 0 && IsCluster(Table(), clust) && Table()[clust] >= g.maxClust ==> !done
      ensures !done ==> 1 <= r < g.maxClust
      ensures !done ==> r == if clust != 0 then clust else if 1 <= lastClust < g.maxClust then lastClust else 1
    {
      hide Valid;
      assert |Table()| >= 2;
      if clust == 0 {
        done, r := false, lastClust;
        if r == 0 || r >= g.maxClust {
          r := 1;
        }
      } else {
        var cstat := GetCluster(clust);
        if cstat < 2 {
          done, r := true, 1;
        } else if cstat < g.maxClust {
          done, r := true, cstat;
        } else {
          done, r := false, clust;
        }
      }
    }

    /** Mark a free cluster as the end of a chain and link it behind clust, if there is one. */
    method Link(clust: nat, ncl: nat)
      requires Valid() && IsCluster(Table(), ncl) && Table()[ncl] == 0
      requires clust == 0 || (IsCluster(Table(), clust) && Table()[clust] >= g.maxClust)
      modifies `win, `winsect, `winflag, `disk, cache, cache.slots
      ensures Valid() && g.InFat(winsect)
      ensures Table() == Linked(old(Table()), clust, ncl, Eoc(g))
      ensures CountFree(Table()) + 1 == CountFree(old(Table()))
      ensures DataKept(g, old(disk), disk)
    {
      hide Valid;
      EocFits();
      EntryFits(ncl);
      ghost var t := Table();
      PutCluster(ncl, 0x0FFF_FFFF);
      CountFreeUpdate(t, ncl, Eoc(g));
      if clust != 0 {
        PutCluster(clust, ncl);
        CountFreeUpdate(t[ncl := Eoc(g)], clust, ncl);
      }
    }

    /** create_chain: stretch the chain ending in clust, or start a new one when clust is 0. */
    method CreateChain(clust: nat) returns (r: nat)
      requires Valid()
      modifies `win, `winsect, `winflag, `disk, `lastClust, `freeClust, `fsiFlag, cache, cache.slots
      ensures Valid() && (g.InFat(winsect) || winsect == old(winsect)) && (r >= 2 ==> g.InFat(winsect))
      ensures Created(old(Table()), Table(), clust, r, Eoc(g))
      ensures r == 0 ==> forall c: nat :: IsCluster(Table(), c) ==> Table()[c] >= 2
      ensures r == 1 && (clust == 0 || (IsCluster(Table(), clust) && Table()[clust] >= 2)) ==>
        var last := old(lastClust);
        var start := if clust != 0 then clust else if 1 <= last < g.maxClust then last else 1;
        exists c: nat :: FirstOpen(Table(), start, c) && Table()[c] == 1
      ensures Table() != old(Table()) ==>
        var last := old(lastClust);
        var start := if clust != 0 then clust else if 1 <= last < g.maxClust then last else 1;
        r >= 2 && FirstOpen(old(Table()), start, r)
      ensures lastClust == if Table() != old(Table()) then r else old(lastClust)
      ensures fsiFlag == (old(fsiFlag) || (Table() != old(Table()) && old(freeClust) != UNKNOWN))
      ensures freeClust ==
        if Table() == old(Table()) || old(freeClust) == UNKNOWN then old(freeClust)
        else if old(freeClust) == 0 then UNKNOWN
        else old(freeClust) - 1
      ensures old(ExactFree()) ==> ExactFree()
      ensures DataKept(g, old(disk), disk)
    {
      hide Valid;
      hide Linked;
      hide NoFree;
      hide NoOnes;
      hide CountFree;
      hide DataKept;
      DataSame(g, disk);
      var done, scl := SearchStart(clust);
      if done {
        return scl;
      }
      r := FindFree(scl);
      if r >= 2 {
        Link(clust, r);
        lastClust := r;
        if freeClust != UNKNOWN {
          freeClust := if freeClust == 0 then UNKNOWN else freeClust - 1;
          fsiFlag := true;
        }
      }
    }

    lemma FreeBound()
      requires Valid()
      ensures CountFree(Table()) <= g.maxClust - 2 && g.maxClust < UNKNOWN
    {
      hide Cache.Valid;
      hide Windowed;
      hide CopiesAgree;
      CountFromBound(Table(), 2);
    }

    /** The scan of fatbase_getfree over 16-bit entries, with its 8-bit position counter. */
    method Scan16() returns (n: nat)
      requires Valid() && g.fatType == Fat16
      modifies `win, `winsect, `winflag, cache, cache.slots
      ensures Valid() && n == CountFrom(Table(), 0) && n <= g.maxClust
    {
      hide Valid;
      hide CountFrom;
      CountFromBound(Table(), 0);
      ghost var t := Table();
      var clust, sect, f, p := g.maxClust, 0, 0, 0;
      n := 0;
      ghost var done := 0;
      while clust > 0
        invariant Valid() && Table() == t && done + clust == g.maxClust
        invariant 0 <= f < 256 && (f != 0 ==> sect >= 1 && p == 2 * f && winsect == g.fatbase + sect - 1)
        invariant done == if f == 0 then 256 * sect else 256 * (sect - 1) + f
        invariant n + CountFrom(t, done) == CountFrom(t, 0)
        decreases clust
      {
        TableEntry(done);
        Place16(done, g.sectsFat);
        CountFromStep(t, done);
        Stand16(done, sect, f);
        if f == 0 {
          ShowFat(sect);
          sect := sect + 1;
          p := 0;
        }
        assert Shown(p, 2 * done) && Shown(p + 1, 2 * done + 1);
        var b0 := Peek(p, 2 * done);
        var b1 := Peek(p + 1, 2 * done + 1);
        if Word(b0, b1) == 0 {
          n := n + 1;
        }
        p := p + 2;
        f := if f + 1 == 256 then 0 else f + 1;
        clust := clust - 1;
        done := done + 1;
      }
      CountFromEnd(t);
    }

    /** 32-bit entries with their four reserved bits. */
    ghost function RawTable(): (t: seq<nat>)
      requires Valid() && g.fatType == Fat32
      reads this`win, this`winsect, this`winflag, this`disk, cache, cache.slots
      ensures |t| == g.maxClust
    {
      hide Valid;
      RawFits();
      RawEntries32(Fat(), g.maxClust)
    }

    lemma RawFits()
      requires Valid() && g.fatType == Fat32
      ensures 4 * g.maxClust <= |Fat()|
    {
      hide Cache.Valid;
      hide Windowed;
      TableEntry(g.maxClust - 1);
    }

    /** The same scan over 32-bit entries: the counter advances by two and so wraps at the same place. */
    method Scan32() returns (n: nat)
      requires Valid() && g.fatType == Fat32
      modifies `win, `winsect, `winflag, cache, cache.slots
      ensures Valid() && n == CountFrom(RawTable(), 0) && n <= g.maxClust
    {
      hide Valid;
      hide RawTable;
      hide CountFrom;
      CountFromBound(RawTable(), 0);
      ghost var t := RawTable();
      var clust, sect, f, p := g.maxClust, 0, 0, 0;
      n := 0;
      ghost var done, j := 0, 0;
      while clust > 0
        invariant Valid() && RawTable() == t && done + clust == g.maxClust
        invariant 0 <= j < 128 && f == 2 * j
        invariant j != 0 ==> sect >= 1 && p == 4 * j && winsect == g.fatbase + sect - 1
        invariant done == if j == 0 then 128 * sect else 128 * (sect - 1) + j
        invariant n + CountFrom(t, done) == CountFrom(t, 0)
        decreases clust
      {
        var v;
        v, sect, p := NextRaw(f == 0, sect, p, done);
        CountFromStep(t, done);
        if v == 0 {
          n := n + 1;
        }
        p := p + 4;
        f, j := if f + 2 == 256 then 0 else f + 2, if j + 1 == 128 then 0 else j + 1;
        clust := clust - 1;
        done := done + 1;
      }
      CountFromEnd(t);
    }

    /** The next 32-bit entry of the scan, after showing the next sector if asked to. */
    method NextRaw(show: bool, sect: nat, p: nat, ghost c: nat) returns (v: nat, sect': nat, p': nat)
      requires Valid() && g.fatType == Fat32 && c < g.maxClust
      requires if show then c == 128 * sect else
        sect >= 1 && winsect == g.fatbase + sect - 1 && p < 512 && p % 4 == 0 && 4 * c == 512 * (sect - 1) + p
      modifies `win, `winsect, `winflag, cache, cache.slots
      ensures Valid() && RawTable() == old(RawTable()) && v == RawTable()[c]
      ensures winsect == g.fatbase + sect' - 1 && sect' == (if show then sect + 1 else sect)
      ensures p' == (if show then 0 else p)
    {
      hide Valid;
      hide Entry;
      RawFits();
      sect', p' := sect, p;
      if show {
        ShowFat(sect);
        sect', p' := sect + 1, 0;
      }
      v := PeekDword(p', 4 * c);
    }

    method PeekDword(i: nat, ghost b: nat) returns (v: nat)
      requires Valid() && i + 3 < SECTOR_SIZE && Shown(i, b)
      ensures b + 3 < |Fat()| && v == Dword(Fat()[b], Fat()[b + 1], Fat()[b + 2], Fat()[b + 3])
    {
      hide Valid;
      var b0 := Peek(i, b);
      var b1 := Peek(i + 1, b + 1);
      var b2 := Peek(i + 2, b + 2);
      var b3 := Peek(i + 3, b + 3);
      v := Dword(b0, b1, b2, b3);
    }

    /** 12-bit entries are read one by one. */
    method Scan12() returns (n: nat)
      requires Valid()
      modifies `win, `winsect, `winflag, cache, cache.slots
      ensures Valid() && n == CountFree(Table())
    {
      hide Valid;
      ghost var t := Table();
      var clust := 2;
      n := 0;
      while clust < g.maxClust
        invariant Valid() && Table() == t && 2 <= clust <= g.maxClust
        invariant n + CountFrom(t, clust) == CountFree(t)
      {
        var v := GetCluster(clust);
        if v == 0 {
          n := n + 1;
        }
        clust := clust + 1;
      }
    }

    /** The entries as the scan compares them with zero. */
    ghost function Scanned(): (t: seq<nat>)
      requires Valid()
      reads this`win, this`winsect, this`winflag, this`disk, cache, cache.slots
      ensures |t| == |Table()| >= 2 && forall c :: 0 <= c < |t| && t[c] == 0 ==> Table()[c] == 0
    {
      hide Valid;
      if g.fatType == Fat32 then
        RawMasked();
        RawTable()
      else Table()
    }

    lemma RawMasked()
      requires Valid() && g.fatType == Fat32
      ensures forall c :: 0 <= c < |RawTable()| && RawTable()[c] == 0 ==> Table()[c] == 0
    {
      hide Valid;
      RawFits();
      forall c | 0 <= c < |RawTable()| && RawTable()[c] == 0
        ensures Table()[c] == 0
      {
        TableEntry(c);
        Entry32Masked(Fat(), c);
      }
    }

    /** The entries the scan looks at mean what get_cluster makes of them: as many of entries 0 and 1 are zero, which it
        counts although they are no clusters, as free clusters have reserved bits set, which it does not count. */
    ghost predicate Scannable()
      requires Valid()
      reads this`win, this`winsect, this`winflag, this`disk, cache, cache.slots
    {
      hide Valid;
      g.fatType == Fat12 || HeadZeros(Scanned()) == Masked(Table(), Scanned(), 2)
    }

    /** fatbase_getfree: the number of free clusters, counted if it is not known yet. */
    method GetFree() returns (n: nat)
      requires Valid()
      modifies `win, `winsect, `winflag, `freeClust, `fsiFlag, cache, cache.slots
      ensures Valid() && Table() == old(Table()) && freeClust == n
      ensures fsiFlag == (old(fsiFlag) || (g.fatType == Fat32 && old(freeClust) > g.maxClust - 2))
      ensures old(ExactFree()) && old(Scannable()) ==> n == CountFree(Table())
      ensures old(freeClust) <= g.maxClust - 2 ==> n == old(freeClust)
      ensures old(freeClust) > g.maxClust - 2 ==> (n == CountFree(Table()) <==> old(Scannable()))
      ensures old(freeClust) > g.maxClust - 2 && g.fatType != Fat12 ==>
        n + Masked(Table(), old(Scanned()), 2) == CountFree(Table()) + HeadZeros(old(Scanned()))
    {
      hide Valid;
      hide Scanned;
      hide Masked;
      hide HeadZeros;
      hide CountFrom;
      FreeBound();
      if freeClust <= g.maxClust - 2 {
        return freeClust;
      }
      ScanCounts(Table(), Scanned());
      ScannedIs();
      match g.fatType {
        case Fat12 => n := Scan12();
        case Fat16 => n := Scan16();
        case Fat32 => n := Scan32();
      }
      freeClust := n;
      if g.fatType == Fat32 {
        fsiFlag := true;
      }
    }

    lemma ScannedIs()
      requires Valid()
      ensures g.fatType == Fat32 ==> Scanned() == RawTable()
      ensures g.fatType != Fat32 ==> Scanned() == Table()
    {
      hide Valid;
    }

    /** free_clust, when known, is the number of free clusters. */
    ghost predicate ExactFree()
      requires Valid()
      reads this, cache, cache.slots
    {
      freeClust == UNKNOWN || freeClust == CountFree(Table())
    }
  }

  /** How many of entries 0 and 1 are zero. */
  function HeadZeros(t: Table): nat
    requires |t| >= 2
  {
    (if t[0] == 0 then 1 else 0) + (if t[1] == 0 then 1 else 0)
  }

  /** How many entries of t from c on are zero but not so in raw. */
  function Masked(t: Table, raw: Table, c: nat): nat
    requires |raw| == |t| && c <= |t|
    decreases |t| - c
  {
    if c == |t| then 0 else (if t[c] == 0 && raw[c] != 0 then 1 else 0) + Masked(t, raw, c + 1)
  }

  lemma {:induction false} MaskedCounts(t: Table, raw: Table, c: nat)
    requires |raw| == |t| && c <= |t| && forall d :: c <= d < |t| && raw[d] == 0 ==> t[d] == 0
    ensures CountFrom(raw, c) + Masked(t, raw, c) == CountFrom(t, c)
    decreases |t| - c
  {
    if c < |t| {
      MaskedCounts(t, raw, c + 1);
    }
  }

  /** What the sector scan counts, from entry 0 on, and exactly when that is the number of free clusters. */
  lemma ScanCounts(t: Table, raw: Table)
    requires |raw| == |t| >= 2 && forall c :: 0 <= c < |t| && raw[c] == 0 ==> t[c] == 0
    ensures CountFrom(raw, 0) + Masked(t, raw, 2) == CountFree(t) + HeadZeros(raw)
    ensures CountFrom(raw, 0) == CountFree(t) <==> HeadZeros(raw) == Masked(t, raw, 2)
  {
    assert CountFrom(raw, 0) == (if raw[0] == 0 then 1 else 0) + CountFrom(raw, 1);
    MaskedCounts(t, raw, 2);
  }

  /** On every 16-bit volume there is a FAT counted one too high: all clusters are in use, and entry 0 is zero. */
  lemma Miscounts16(g: Geometry)
    requires g.Valid() && g.fatType == Fat16
    ensures var t := seq(g.maxClust, c => if c == 0 then 0 else 0xFFFF);
      CountFrom(t, 0) == 1 && CountFree(t) == 0 && HeadZeros(t) != Masked(t, t, 2)
  {
    hide CountFrom;
    hide Masked;
    var t: Table := seq(g.maxClust, c => if c == 0 then 0 else 0xFFFF);
    CountFromNone(t, 1);
    CountFromNone(t, 2);
    CountFromStep(t, 0);
    ScanCounts(t, t);
  }

  /** On every 32-bit volume there is a FAT counted one too low: cluster 2 alone is free, with a reserved bit set. */
  lemma Miscounts32(g: Geometry)
    requires g.Valid() && g.fatType == Fat32
    ensures var raw := seq(g.maxClust, c => if c == 2 then 0x1000_0000 else 0x0FFF_FFFF);
      var t := seq(g.maxClust, c => if c == 2 then 0 else 0x0FFF_FFFF);
      (forall c :: 0 <= c < g.maxClust ==> t[c] == raw[c] % 0x1000_0000) && CountFrom(raw, 0) == 0 && CountFree(t) == 1
  {
    hide CountFrom;
    var raw: Table := seq(g.maxClust, c => if c == 2 then 0x1000_0000 else 0x0FFF_FFFF);
    var t: Table := seq(g.maxClust, c => if c == 2 then 0 else 0x0FFF_FFFF);
    CountFromNone(raw, 0);
    CountFromNone(t, 3);
    CountFromStep(t, 2);
  }

  /** Where the window may be after the FAT was looked at. */
  ghost predicate WindowOn(g: Geometry, before: nat, after: nat) {
    g.InFat(after) || after == before
  }

  lemma NoFreeCount(t: Table)
    ensures NoFree(t) <==> CountFree(t) == 0
  {
    if |t| >= 2 {
      CountFromNone(t, 2);
      assert forall c: nat :: IsCluster(t, c) <==> 2 <= c < |t|;
    }
  }

  ghost predicate NoOnes(t: Table) {
    forall c: nat :: IsCluster(t, c) ==> t[c] != 1
  }

  ghost predicate NoFree(t: Table) {
    forall c: nat :: IsCluster(t, c) ==> t[c] != 0
  }

  /** Going up from a and around, c comes before b. */
  ghost predicate Between(a: nat, c: nat, b: nat) {
    if a < b then a < c < b else a < c || c < b
  }

  /** Going up from a and around, c is the first cluster that is free or marked 1. */
  ghost predicate FirstOpen(t: Table, a: nat, c: nat) {
    IsCluster(t, c) && t[c] < 2 && forall d: nat :: IsCluster(t, d) && Between(a, d, c) ==> t[d] >= 2
  }

  /** Clusters the search has looked at when it stands at ncl. */
  ghost predicate Passed(scl: nat, c: nat, ncl: nat, wrapped: bool) {
    if wrapped then c > scl || c <= ncl else scl < c <= ncl
  }

  /** The "in use" mark 0x0FFFFFFF as stored in an entry. */
  ghost function Eoc(g: Geometry): nat {
    Truncated(g.fatType, 0x0FFF_FFFF)
  }

  /** What create_chain answers and does to the table. */
  ghost predicate Created(t: Table, u: Table, clust: nat, r: nat, eoc: nat) {
    if clust != 0 && (!IsCluster(t, clust) || t[clust] < 2) then
      r == 1 && u == t                      // not a cluster in use
    else if clust != 0 && t[clust] < |t| then
      r == t[clust] && u == t               // already followed by another cluster
    else if r == 0 then
      NoFree(t) && u == t                   // no free cluster
    else if r == 1 then
      !NoOnes(t) && u == t                  // a cluster marked 1 is in the way
    else
      IsCluster(t, r) && t[r] == 0 && u == Linked(t, clust, r, eoc)
  }

  /** The table once the free cluster n ends a chain, behind clust unless that is 0. */
  ghost function Linked(t: Table, clust: nat, n: nat, eoc: nat): Table
    requires n < |t| && (clust == 0 || clust < |t|)
  {
    if clust == 0 then t[n := eoc] else t[n := eoc][clust := n]
  }

  /** A new cluster from create_chain, for a new chain or at the end of chain i, is an operation of the cluster heap, so
      every state that create_chain, remove_chain and truncation lead to is one of its runs. */
  lemma CreatedApplies(h: Heap, u: Table, i: nat, clust: nat, r: nat, eoc: nat)
    requires Sound(h) && eoc >= |h.table| && Created(h.table, u, clust, r, eoc) && r >= 2
    requires clust == 0 || (i < |h.chains| && h.chains[i] != [] && clust == h.chains[i][|h.chains[i]| - 1])
    ensures var op := if clust == 0 then Op.Create(r) else Op.Stretch(i, r);
      ClusterHeap.Enabled(h, op) && Apply(h, op, eoc).table == u && Sound(Apply(h, op, eoc))
  {
    var op := if clust == 0 then Op.Create(r) else Op.Stretch(i, r);
    if clust != 0 {
      assert IsChain(h.table, h.chains[i]);
    }
    hide CountFree;
    ApplySound(h, op, eoc);
  }

  /** What remove_chain and truncation leave of the table is what the operations of the heap leave. */
  lemma RemovedApplies(h: Heap, i: nat, k: nat, eoc: nat)
    requires Sound(h) && eoc >= |h.table| && i < |h.chains| && 0 < k <= |h.chains[i]|
    ensures Apply(h, Op.Remove(i), eoc).table == Removed(h.table, h.chains[i][0])
    ensures k < |h.chains[i]| ==>
      var cs := h.chains[i];
      IsCluster(h.table, cs[k - 1]) &&
      Apply(h, Op.Truncate(i, k), eoc).table == Removed(h.table[cs[k - 1] := eoc], cs[k])
  {
    assert IsChain(h.table, h.chains[i]);
  }

  /** Without entries equal to 1, a new cluster is refused exactly when none is free. */
  lemma CreatedIffFree(t: Table, u: Table, clust: nat, r: nat, eoc: nat)
    requires Created(t, u, clust, r, eoc) && NoOnes(t)
    requires clust == 0 || (IsCluster(t, clust) && t[clust] >= |t|)
    ensures r == 0 <==> NoFree(t)
    ensures r != 0 ==> IsCluster(t, r) && t[r] == 0
  {
  }

  lemma SectorAndByte(b: nat, n: nat)
    requires b < SECTOR_SIZE * n
    ensures b / SECTOR_SIZE < n && b == SECTOR_SIZE * (b / SECTOR_SIZE) + b % SECTOR_SIZE
  {
  }

  lemma Stand16(done: nat, sect: nat, f: nat)
    requires f < 256 && (f != 0 ==> sect >= 1) && done == if f == 0 then 256 * sect else 256 * (sect - 1) + f
    ensures done % 256 == f && done / 256 == if f == 0 then sect else sect - 1
  {
  }

  lemma Place16(c: nat, n: nat)
    requires 2 * c + 2 <= SECTOR_SIZE * n
    ensures c / 256 < n && 2 * c == SECTOR_SIZE * (c / 256) + c % 256 * 2 && c % 256 * 2 + 1 < SECTOR_SIZE
  {
  }

  lemma Place32(c: nat, n: nat)
    requires 4 * c + 4 <= SECTOR_SIZE * n
    ensures c / 128 < n && 4 * c == SECTOR_SIZE * (c / 128) + c % 128 * 4 && c % 128 * 4 + 3 < SECTOR_SIZE
  {
  }

  /** The drive shows the file system's sectors, except that sector s is yet to be written. */
  ghost predicate Shows(g: Geometry, drive: nat, view: map<Key, Sector>, disk: Disk, s: nat) {
    Backed(g, drive, view) && Readable(g, disk) && forall t :: t in disk && t != s ==> disk[t] == view[Key(drive, t)]
  }

  lemma FlushedFat(g: Geometry, drive: nat, view: map<Key, Sector>, view': map<Key, Sector>, disk: Disk, s: nat,
                   data: Sector)
    requires g.Copies() && Shows(g, drive, view, disk, s) && CopiesAgree(g, drive, view)
    requires g.InFat(s) && s in disk && disk[s] == data && view' == Mirrored(g, drive, view, s, g.nFats, data)
    ensures Backed(g, drive, view') && CopiesAgree(g, drive, view')
    ensures forall t :: t in disk ==> disk[t] == view'[Key(drive, t)]
  {
    MirroredAgree(g, drive, view, s, data);
    forall t | t in disk
      ensures disk[t] == view'[Key(drive, t)]
    {
      MirroredFrame(g, drive, view, s, data, Key(drive, t));
    }
  }

  lemma FlushedData(g: Geometry, drive: nat, view: map<Key, Sector>, disk: Disk, s: nat, data: Sector)
    requires g.Copies() && Shows(g, drive, view, disk, s) && CopiesAgree(g, drive, view)
    requires g.fatbase + g.sectsFat <= s && s in disk && disk[s] == data
    ensures Backed(g, drive, view[Key(drive, s) := data]) && CopiesAgree(g, drive, view[Key(drive, s) := data])
    ensures forall t :: t in disk ==> disk[t] == view[Key(drive, s) := data][Key(drive, t)]
  {
    FatIsVisible(g);
    var view' := view[Key(drive, s) := data];
    forall t, n | g.InFat(t) && 1 <= n < g.nFats
      ensures Key(drive, g.Copy(t, n)) in view' && view'[Key(drive, g.Copy(t, n))] == view'[Key(drive, t)]
    {
      CopyInCopies(g, t, n);
    }
  }

  /** Write a sector of the first FAT and its copies. */
  method WriteWithCopies(cache: Cache, drive: nat, g: Geometry, s: nat, data: Sector)
    requires cache.Valid() && g.Copies() && Backed(g, drive, cache.view) && g.InFat(s)
    modifies cache, cache.slots
    ensures cache.Valid() && cache.view == Mirrored(g, drive, old(cache.view), s, g.nFats, data)
  {
    hide Cache.Valid;
    FatIsVisible(g);
    ghost var view := cache.view;
    var wsect := s;
    var _ := cache.ReadWrite(Key(drive, wsect), true, data);
    assert cache.view == Mirrored(g, drive, view, s, 1, data) by {
      assert g.Copy(s, 0) == s && Mirrored(g, drive, view, s, 0, data) == view;
    }
    var n := g.nFats;
    while n >= 2
      invariant 1 <= n <= g.nFats && wsect == g.Copy(s, g.nFats - n)
      invariant cache.Valid() && cache.view == Mirrored(g, drive, view, s, g.nFats - n + 1, data)
    {
      CopyInCopies(g, s, g.nFats - n + 1);
      MirroredKeys(g, drive, view, s, g.nFats - n + 1, data);
      wsect := wsect + g.sectsFat;
      var _ := cache.ReadWrite(Key(drive, wsect), true, data);
      n := n - 1;
    }
  }
}
