/** fsync on a FAT volume: the file's buffer, its directory entry, the window and the block cache go to the device
    (kern/fs/fat/fat_base.c:370-395, 1394-1426, kern/fs/fat/fat_inode.c:624-643). */
module FatSync {
  import opened Sectors
  import opened BlockCache
  import opened FatEntries
  import opened FatGeometry
  import opened ClusterHeap
  import opened FatVolume
  import opened FileLayout
  import opened FatFile

  /** ST_WORD and LD_WORD at byte p of a sector. */
  function StoreWord(s: Sector, p: nat, v: nat): Sector
    requires p + 2 <= SECTOR_SIZE
  {
    s[p := v % 256][p + 1 := v / 256 % 256]
  }

  function LoadWord(s: Sector, p: nat): nat
    requires p + 2 <= SECTOR_SIZE
  {
    Word(s[p], s[p + 1])
  }

  /** ST_DWORD at byte p of a sector: two words, the lower one first. */
  function StoreDword(s: Sector, p: nat, v: nat): Sector
    requires p + 4 <= SECTOR_SIZE
  {
    StoreWord(StoreWord(s, p, v), p + 2, v / 0x1_0000)
  }

  function LoadDword(s: Sector, p: nat): nat
    requires p + 4 <= SECTOR_SIZE
  {
    LoadWord(s, p) + 0x1_0000 * LoadWord(s, p + 2)
  }

  // ---- the directory entry ----

  const ENTRY_SIZE := 32

  /** |= AM_ARC */
  function Archived(attr: byte): byte {
    if attr / 32 % 2 == 1 then attr else attr + 32
  }

  /** The size and the first cluster that a directory entry at byte p tells of. */
  function EntryFileSize(s: Sector, p: nat): nat
    requires p + ENTRY_SIZE <= SECTOR_SIZE
  {
    LoadDword(s, p + 28)
  }

  function EntryCluster(s: Sector, p: nat): nat
    requires p + ENTRY_SIZE <= SECTOR_SIZE
  {
    LoadWord(s, p + 26) + 0x1_0000 * LoadWord(s, p + 20)
  }

  /** The directory entry brought up to date. */
  function Updated(s: Sector, p: nat, size: nat, clust: nat, time: nat): Sector
    requires p + ENTRY_SIZE <= SECTOR_SIZE
  {
    var s1 := s[p + 11 := Archived(s[p + 11])];
    var s2 := StoreDword(s1, p + 28, size);
    var s3 := StoreWord(s2, p + 26, clust);
    var s4 := StoreWord(s3, p + 20, clust / 0x1_0000);
    StoreDword(s4, p + 22, time)
  }

  /** The entry tells of the file as it is; of the attribute bit 5 (AM_ARC) is set and no other changes, and no byte but
      attribute, first cluster, time and size. */
  lemma UpdatedEntry(s: Sector, p: nat, size: nat, clust: nat, time: nat)
    requires p + 32 <= SECTOR_SIZE
    ensures EntryFileSize(Updated(s, p, size, clust, time), p) == size % 0x1_0000_0000
    ensures EntryCluster(Updated(s, p, size, clust, time), p) == clust % 0x1_0000_0000
    ensures var u := Updated(s, p, size, clust, time);
      LoadDword(u, p + 22) == time % 0x1_0000_0000 && LoadDword(u, p + 28) == size % 0x1_0000_0000 &&
      LoadWord(u, p + 26) == clust % 0x1_0000 && LoadWord(u, p + 20) == clust / 0x1_0000 % 0x1_0000
    ensures var attr: int, attr': int := s[p + 11], Updated(s, p, size, clust, time)[p + 11];
      attr' / 32 % 2 == 1 && attr' % 32 == attr % 32 && attr' / 64 == attr / 64
    ensures forall b :: 0 <= b < SECTOR_SIZE && !(p + 20 <= b < p + 32) && b != p + 11 ==>
      Updated(s, p, size, clust, time)[b] == s[b]
  {
    var u := Updated(s, p, size, clust, time);
    assert u[p + 28] == size % 256 && u[p + 29] == size / 256 % 256;
    assert u[p + 30] == size / 0x1_0000 % 256 && u[p + 31] == size / 0x1_0000 / 256 % 256;
    assert u[p + 26] == clust % 256 && u[p + 27] == clust / 256 % 256;
    assert u[p + 20] == clust / 0x1_0000 % 256 && u[p + 21] == clust / 0x1_0000 / 256 % 256;
    assert u[p + 22] == time % 256 && u[p + 23] == time / 256 % 256;
    assert u[p + 24] == time / 0x1_0000 % 256 && u[p + 25] == time / 0x1_0000 / 256 % 256;
    TwoBytes(clust);
    TwoBytes(clust / 0x1_0000);
    TwoWords(u[p + 22], u[p + 23], u[p + 24], u[p + 25], time);
    TwoWords(u[p + 28], u[p + 29], u[p + 30], u[p + 31], size);
    TwoWords(u[p + 26], u[p + 27], u[p + 20], u[p + 21], clust);
  }

  lemma TwoWords(b0: nat, b1: nat, b2: nat, b3: nat, v: nat)
    requires b0 == v % 256 && b1 == v / 256 % 256 && b2 == v / 0x1_0000 % 256 && b3 == v / 0x1_0000 / 256 % 256
    ensures Word(b0, b1) + 0x1_0000 * Word(b2, b3) == v % 0x1_0000_0000
  {
    hide Word;
    TwoBytes(v);
    TwoBytes(v / 0x1_0000);
    SplitDword(v);
  }

  lemma SplitDword(v: nat)
    ensures v % 0x1_0000 + 0x1_0000 * (v / 0x1_0000 % 0x1_0000) == v % 0x1_0000_0000
  {
    var q := v / 0x1_0000_0000;
    var r := v % 0x1_0000_0000;
    assert v == 0x1_0000 * (0x1_0000 * q) + r;
    assert v / 0x1_0000 == 0x1_0000 * q + r / 0x1_0000;
  }

  // ---- the volume ----

  /** The FSInfo sector, on a blank one: signatures, the number of free clusters and the last one allocated. */
  function InfoSector(blank: Sector, free: nat, last: nat): Sector {
    var s1 := StoreDword(StoreWord(blank, 510, 0xAA55), 0, 0x4161_5252);
    StoreDword(StoreDword(StoreDword(s1, 484, 0x6141_7272), 488, free), 492, last)
  }

  lemma InfoHolds(blank: Sector, free: nat, last: nat)
    ensures LoadDword(InfoSector(blank, free, last), 488) == free % 0x1_0000_0000
    ensures LoadDword(InfoSector(blank, free, last), 492) == last % 0x1_0000_0000
    ensures LoadDword(InfoSector(blank, free, last), 0) == 0x4161_5252
    ensures LoadDword(InfoSector(blank, free, last), 484) == 0x6141_7272
    ensures LoadWord(InfoSector(blank, free, last), 510) == 0xAA55
    ensures forall b :: 4 <= b < 484 || 496 <= b < 510 ==> InfoSector(blank, free, last)[b] == blank[b]
  {
    var s := InfoSector(blank, free, last);
    TwoWords(s[0], s[1], s[2], s[3], 0x4161_5252);
    TwoWords(s[484], s[485], s[486], s[487], 0x6141_7272);
    TwoBytes(0xAA55);
    assert s[488] == free % 256 && s[489] == free / 256 % 256;
    TwoWords(s[488], s[489], s[490], s[491], free);
    TwoWords(s[492], s[493], s[494], s[495], last);
  }

  /** Change the sector in the window, which is none of the FAT. */
  method EditWindow(vol: Volume, data: Sector)
    requires vol.Valid() && vol.g.fatbase + vol.g.sectsFat <= vol.winsect
    modifies vol`win, vol`winflag, vol`disk
    ensures vol.Valid() && vol.winflag && vol.winsect in old(vol.disk)
    ensures vol.disk == old(vol.disk)[vol.winsect := data] && vol.Table() == old(vol.Table())
  {
    hide Cache.Valid;
    hide CopiesAgree;
    ghost var disk0 := vol.disk;
    vol.win, vol.winflag := data, true;
    vol.disk := vol.disk[vol.winsect := data];
    FatFrame(vol.g, disk0, vol.disk);
  }

  lemma InfoKeepsCopies(g: Geometry, drive: nat, view: map<Key, Sector>, fsi: nat, data: Sector)
    requires g.Copies() && Backed(g, drive, view) && CopiesAgree(g, drive, view) && fsi < g.fatbase
    ensures Backed(g, drive, view[Key(drive, fsi) := data]) && CopiesAgree(g, drive, view[Key(drive, fsi) := data])
  {
    FatIsVisible(g);
    var view' := view[Key(drive, fsi) := data];
    forall t, n | g.InFat(t) && 1 <= n < g.nFats
      ensures Key(drive, g.Copy(t, n)) in view' && view'[Key(drive, g.Copy(t, n))] == view'[Key(drive, t)]
    {
      CopyInCopies(g, t, n);
    }
  }

  lemma InfoVisible(g: Geometry, fsi: nat)
    requires g.Copies() && fsi < g.fatbase
    ensures g.Visible(fsi)
  {
    CopyGrows(g, g.fatbase, 0, g.nFats);
  }

  /** Write the FSInfo sector with the window as its buffer. */
  method WriteInfo(vol: Volume, fsi: nat)
    requires vol.Valid() && !vol.winflag && 0 < fsi < vol.g.fatbase
    modifies vol`win, vol`winsect, vol`fsiFlag, vol`disk, vol.cache, vol.cache.slots
    ensures vol.Valid() && !vol.winflag && vol.winsect == 0 && !vol.fsiFlag && fsi in old(vol.disk)
    ensures vol.disk == old(vol.disk)[fsi := InfoSector(ZERO_SECTOR, vol.freeClust, vol.lastClust)]
    ensures vol.Table() == old(vol.Table()) && forall b :: 0 <= b < SECTOR_SIZE ==> ZERO_SECTOR[b] == 0
  {
    hide Cache.Valid;
    hide CopiesAgree;
    hide InfoSector;
    ghost var disk0 := vol.disk;
    InfoVisible(vol.g, fsi);
    vol.winsect := 0;
    vol.win := InfoSector(ZERO_SECTOR, vol.freeClust, vol.lastClust);
    InfoKeepsCopies(vol.g, vol.drive, vol.cache.view, fsi, vol.win);
    var _ := vol.cache.ReadWrite(Key(vol.drive, fsi), true, vol.win);
    vol.fsiFlag := false;
    vol.disk := vol.disk[fsi := vol.win];
    FatFrame(vol.g, disk0, vol.disk);
  }

  /** sync: the window goes to the drive, dirty or not, and then the FSInfo sector if the counts have changed. */
  method SyncVolume(vol: Volume, fsi: nat)
    requires vol.Valid() && vol.g.fatbase <= vol.winsect && 0 < fsi < vol.g.fatbase
    modifies vol`win, vol`winsect, vol`winflag, vol`fsiFlag, vol`disk, vol.cache, vol.cache.slots
    ensures vol.Valid() && !vol.winflag && (vol.winsect == 0 || vol.winsect == old(vol.winsect))
    ensures fsi in old(vol.disk) && vol.Table() == old(vol.Table())
    ensures vol.disk ==
      if vol.g.fatType == Fat32 && old(vol.fsiFlag) then
        old(vol.disk)[fsi := InfoSector(ZERO_SECTOR, vol.freeClust, vol.lastClust)]
      else old(vol.disk)
  {
    hide Cache.Valid;
    hide CopiesAgree;
    hide InfoSector;
    InfoVisible(vol.g, fsi);
    vol.winflag := true;
    vol.MoveWindow(0);
    if vol.g.fatType == Fat32 && vol.fsiFlag {
      WriteInfo(vol, fsi);
    }
  }

  // ---- the file ----

  /** Where the directory entry of an open file is: behind the FATs and in none of the file's own sectors. */
  ghost predicate EntryPlace(f: File, dirSect: nat, dirPtr: nat)
    reads f`chain, f.vol`disk
  {
    dirPtr + ENTRY_SIZE <= SECTOR_SIZE && f.vol.g.fatbase + f.vol.g.sectsFat <= dirSect && dirSect in f.vol.disk &&
    1 <= f.vol.g.sectsClust && dirSect !in SectorsOf(f.vol.g, f.chain)
  }

  /** A handle stays what it is when sectors of the disk other than its own change and the window leaves it alone. */
  lemma HandleUnmoved(g: Geometry, k: Handle, t: Table, disk: Disk, w: nat, disk': Disk, w': nat)
    requires HandleOn(g, k, t, disk, w) && disk'.Keys == disk.Keys && w' !in SectorsOf(g, k.chain)
    requires forall s :: s in disk && s in SectorsOf(g, k.chain) ==> disk'[s] == disk[s]
    ensures HandleOn(g, k, t, disk', w')
    ensures var ss := SectorsOf(g, k.chain);
      OnDisk(ss, Shown(k, disk)) && OnDisk(ss, Shown(k, disk')) &&
      Bytes(ss, Shown(k, disk')) == Bytes(ss, Shown(k, disk))
  {
    hide SectorsOf;
    hide IsChain;
    hide InData;
    hide Standing;
    var ss := SectorsOf(g, k.chain);
    if k.fptr > 0 {
      StandingFacts(g, k.chain, (k.fptr - 1) / SECTOR_SIZE, k.currClust, k.currSect, k.sectClust);
    }
    BytesFrame(ss, Shown(k, disk), Shown(k, disk'));
  }

  /** The file's buffer goes to the disk. */
  method FlushFile(f: File)
    requires f.Valid()
    modifies f`dirty, f`currSect, f.vol`disk, f.vol.cache, f.vol.cache.slots
    ensures f.Valid() && !f.dirty && f.Content() == old(f.Content()) && f.vol.Table() == old(f.vol.Table())
    ensures f.vol.disk.Keys == old(f.vol.disk.Keys)
  {
    hide Volume.Valid;
    hide IsChain;
    hide SectorsOf;
    hide InData;
    f.FlushBuffer();
  }

  lemma FatBelowData(vol: Volume)
    requires vol.Valid()
    ensures 0 < vol.g.fatbase < vol.g.database
  {
    hide Cache.Valid;
    hide CopiesAgree;
    hide Volume.Windowed;
    vol.DataVisible();
    assert vol.g.InFat(vol.g.fatbase);
  }

  /** The file's sectors lie behind the reserved ones. */
  lemma SectorsBehind(f: File)
    requires f.Valid()
    ensures f.vol.Valid() && 0 < f.vol.g.fatbase
    ensures forall s: nat :: s in SectorsOf(f.vol.g, f.chain) ==> f.vol.g.fatbase < s
  {
    hide Volume.Valid;
    hide IsChain;
    hide InData;
    hide SectorsOf;
    hide File.Raw;
    FatBelowData(f.vol);
  }

  /** fatbase_sync once the buffer is clean: the directory entry through the window, then the window itself. */
  method SyncEntry(f: File, dirSect: nat, dirPtr: nat, time: nat, fsi: nat)
    requires f.Valid() && !f.dirty && EntryPlace(f, dirSect, dirPtr) && 0 < fsi < f.vol.g.fatbase
    modifies f`written
    modifies f.vol`win, f.vol`winsect, f.vol`winflag, f.vol`fsiFlag, f.vol`disk, f.vol.cache, f.vol.cache.slots
    ensures f.Valid() && f.Content() == old(f.Content()) && !f.written && !f.vol.winflag && dirSect in f.vol.disk
    ensures EntryPlace(f, dirSect, dirPtr)
    ensures EntryFileSize(f.vol.disk[dirSect], dirPtr) == f.fsize % 0x1_0000_0000
    ensures EntryCluster(f.vol.disk[dirSect], dirPtr) == f.orgClust % 0x1_0000_0000
    ensures f.vol.g.fatType == Fat32 && old(f.vol.fsiFlag) ==>
      fsi in f.vol.disk && LoadDword(f.vol.disk[fsi], 488) == f.vol.freeClust
  {
    hide Volume.Valid;
    hide File.Valid;
    hide File.Content;
    hide SectorsOf;
    hide HandleOn;
    hide Shown;
    hide Updated;
    hide EntryFileSize;
    hide EntryCluster;
    hide InfoSector;
    hide LoadDword;
    SectorsBehind(f);
    HandleStands(f);
    ghost var k, t, disk, w := HandleOf(f), f.vol.Table(), f.vol.disk, f.vol.winsect;
    f.vol.MoveWindow(dirSect);
    var data := Updated(f.vol.win, dirPtr, f.fsize, f.orgClust, time);
    UpdatedEntry(f.vol.win, dirPtr, f.fsize, f.orgClust, time);
    EditWindow(f.vol, data);
    f.written := false;
    InfoHolds(ZERO_SECTOR, f.vol.freeClust, f.vol.lastClust);
    SyncVolume(f.vol, fsi);
    HandleUnmoved(f.vol.g, k, t, disk, w, f.vol.disk, f.vol.winsect);
    HandleOpen(f);
  }

  /** fatbase_sync: buffer, directory entry and window go to the drive. */
  method SyncFile(f: File, dirSect: nat, dirPtr: nat, time: nat, fsi: nat)
    requires f.Valid() && EntryPlace(f, dirSect, dirPtr) && 0 < fsi < f.vol.g.fatbase
    modifies f`written, f`dirty, f`currSect
    modifies f.vol`win, f.vol`winsect, f.vol`winflag, f.vol`fsiFlag, f.vol`disk, f.vol.cache, f.vol.cache.slots
    ensures f.Valid() && f.Content() == old(f.Content())
    ensures old(f.written) ==> !f.dirty && !f.written && !f.vol.winflag && dirSect in f.vol.disk
    ensures old(f.written) ==> EntryFileSize(f.vol.disk[dirSect], dirPtr) == f.fsize % 0x1_0000_0000
    ensures old(f.written) ==> EntryCluster(f.vol.disk[dirSect], dirPtr) == f.orgClust % 0x1_0000_0000
    ensures old(f.written) && f.vol.g.fatType == Fat32 && old(f.vol.fsiFlag) ==>
      fsi in f.vol.disk && LoadDword(f.vol.disk[fsi], 488) == f.vol.freeClust
  {
    hide Volume.Valid;
    hide File.Valid;
    hide File.Content;
    hide SectorsOf;
    hide EntryFileSize;
    hide EntryCluster;
    hide LoadDword;
    if f.written {
      FlushFile(f);
      SyncEntry(f, dirSect, dirPtr, time, fsi);
    }
  }

  /** The device alone holds every sector as the file system sees it, and the FAT in all copies. */
  ghost predicate OnDevice(vol: Volume, device: map<Key, Sector>)
    reads vol`disk
  {
    (forall s: nat :: s in vol.disk ==> Key(vol.drive, s) in device && device[Key(vol.drive, s)] == vol.disk[s]) &&
    (forall s: nat, n: nat :: vol.g.InFat(s) && n < vol.g.nFats ==> CopyHeld(vol, device, s, n))
  }

  ghost predicate CopyHeld(vol: Volume, device: map<Key, Sector>, s: nat, n: nat)
    reads vol`disk
  {
    s in vol.disk && Key(vol.drive, vol.g.Copy(s, n)) in device &&
    device[Key(vol.drive, vol.g.Copy(s, n))] == vol.disk[s]
  }

  lemma CleanOnDevice(vol: Volume)
    requires vol.Valid() && !vol.winflag && vol.cache.device == vol.cache.view
    ensures OnDevice(vol, vol.cache.device)
  {
    hide Cache.Valid;
    hide CopiesAgree;
    forall s: nat, n: nat | vol.g.InFat(s) && n < vol.g.nFats
      ensures CopyHeld(vol, vol.cache.device, s, n)
    {
      vol.CopiesHoldFat(s, n);
    }
    hide CopyHeld;
    assert forall s: nat :: s in vol.disk ==> Key(vol.drive, s).sec < vol.g.total;
  }

  /** fat_sync: fatbase_sync, then the block cache goes to the devices. */
  method FatSync(f: File, dirSect: nat, dirPtr: nat, time: nat, fsi: nat)
    requires f.Valid() && EntryPlace(f, dirSect, dirPtr) && 0 < fsi < f.vol.g.fatbase
    modifies f`written, f`dirty, f`currSect
    modifies f.vol`win, f.vol`winsect, f.vol`winflag, f.vol`fsiFlag, f.vol`disk, f.vol.cache, f.vol.cache.slots
    ensures f.Valid() && f.Content() == old(f.Content()) && f.vol.cache.device == f.vol.cache.view
    ensures old(f.written) ==> !f.dirty && !f.written && !f.vol.winflag && OnDevice(f.vol, f.vol.cache.device)
    ensures old(f.written) ==> dirSect in f.vol.disk
    ensures old(f.written) ==> EntryFileSize(f.vol.disk[dirSect], dirPtr) == f.fsize % 0x1_0000_0000
    ensures old(f.written) ==> EntryCluster(f.vol.disk[dirSect], dirPtr) == f.orgClust % 0x1_0000_0000
    ensures old(f.written) && f.vol.g.fatType == Fat32 && old(f.vol.fsiFlag) ==>
      fsi in f.vol.disk && LoadDword(f.vol.disk[fsi], 488) == f.vol.freeClust
  {
    hide Volume.Valid;
    hide File.Valid;
    hide File.Content;
    hide HandleOn;
    hide Shown;
    hide SectorsOf;
    hide EntryFileSize;
    hide EntryCluster;
    hide LoadDword;
    SyncFile(f, dirSect, dirPtr, time, fsi);
    HandleStands(f);
    SyncCache(f.vol);
    HandleOpen(f);
    if !f.vol.winflag {
      CleanOnDevice(f.vol);
    }
  }

  method SyncCache(vol: Volume)
    requires vol.Valid()
    modifies vol.cache
    ensures vol.Valid() && vol.cache.device == vol.cache.view == old(vol.cache.view)
  {
    hide Cache.Valid;
    hide CopiesAgree;
    vol.cache.SyncAll();
  }

  /** What was on the device when the machine stopped is mounted again: a volume with the same sectors. */
  method Remount(vol: Volume) returns (again: Volume)
    requires vol.Valid() && !vol.winflag && vol.cache.device == vol.cache.view
    ensures again.Valid() && fresh(again) && fresh(again.cache) && fresh(again.cache.slots)
    ensures again.g == vol.g && again.drive == vol.drive && again.disk == vol.disk && again.Table() == vol.Table()
  {
    hide Cache.Valid;
    hide CopiesAgree;
    var cache := new Cache(vol.cache.device);
    again := new Volume(cache, vol.drive, vol.g);
    assert again.disk == vol.disk;
  }

  lemma WindowShows(vol: Volume)
    requires vol.Valid() && vol.winsect != 0
    ensures vol.winsect in vol.disk && vol.win == vol.disk[vol.winsect]
  {
    hide Cache.Valid;
    hide CopiesAgree;
  }

  lemma ReadyToOpen(f: File)
    requires f.Valid()
    ensures f.vol.Valid() && f.orgClust < 0x1_0000_0000 && EntryChain(f.vol.Table(), f.orgClust, f.chain)
  {
    hide Cache.Valid;
    hide CopiesAgree;
    hide Volume.Windowed;
    hide SectorsOf;
    hide File.Raw;
  }

  /** The chain in the FAT that a directory entry points to. */
  ghost predicate EntryChain(t: Table, clust: nat, chain: seq<nat>) {
    if clust == 0 then chain == [] else IsChain(t, chain) && chain[0] == clust
  }

  /** Open the file of a directory entry. */
  method OpenEntry(vol: Volume, dirSect: nat, dirPtr: nat, ghost chain: seq<nat>) returns (h: File)
    requires vol.Valid() && 0 < dirSect && dirSect in vol.disk && dirPtr + ENTRY_SIZE <= SECTOR_SIZE
    requires EntryChain(vol.Table(), EntryCluster(vol.disk[dirSect], dirPtr), chain)
    requires 1 <= vol.g.sectsClust && dirSect !in SectorsOf(vol.g, chain) && OnDisk(SectorsOf(vol.g, chain), vol.disk)
    requires EntryFileSize(vol.disk[dirSect], dirPtr) <= SECTOR_SIZE * |SectorsOf(vol.g, chain)|
    modifies vol`win, vol`winsect, vol`winflag, vol.cache, vol.cache.slots
    ensures fresh(h) && h.vol == vol && h.Valid() && h.canRead && h.canWrite
    ensures h.Content() == Bytes(SectorsOf(vol.g, chain), vol.disk)[..EntryFileSize(vol.disk[dirSect], dirPtr)]
  {
    hide Volume.Valid;
    hide File.Valid;
    hide File.Content;
    hide HandleOn;
    hide IsChain;
    hide EntryFileSize;
    hide EntryCluster;
    vol.MoveWindow(dirSect);
    WindowShows(vol);
    h := new File(vol, true, true, EntryCluster(vol.win, dirPtr), EntryFileSize(vol.win, dirPtr), chain);
    HandleStands(h);
  }

  /** A file synchronised, with nothing left of the memory, mounted and opened again from its directory entry, is the
      file it was. */
  method SurvivesRestart(f: File, dirSect: nat, dirPtr: nat, time: nat, fsi: nat) returns (h: File)
    requires f.Valid() && f.written && f.fsize < 0x1_0000_0000
    requires EntryPlace(f, dirSect, dirPtr) && 0 < fsi < f.vol.g.fatbase
    modifies f`written, f`dirty, f`currSect
    modifies f.vol`win, f.vol`winsect, f.vol`winflag, f.vol`fsiFlag, f.vol`disk, f.vol.cache, f.vol.cache.slots
    ensures fresh(h) && fresh(h.vol) && fresh(h.vol.cache) && h.Valid() && h.Content() == old(f.Content())
  {
    hide Volume.Valid;
    hide File.Valid;
    hide File.Content;
    hide HandleOn;
    hide SectorsOf;
    hide EntryFileSize;
    hide EntryCluster;
    hide EntryChain;
    hide LoadDword;
    hide OnDevice;
    hide Bytes;
    FatSync(f, dirSect, dirPtr, time, fsi);
    HandleStands(f);
    ReadyToOpen(f);
    var vol := Remount(f.vol);
    h := OpenEntry(vol, dirSect, dirPtr, f.chain);
  }

  /** A shorter chain leaves the directory entry where it is. */
  lemma PlaceShrinks(f: File, chain: seq<nat>, disk: Disk, dirSect: nat, dirPtr: nat)
    requires dirPtr + ENTRY_SIZE <= SECTOR_SIZE && f.vol.g.fatbase + f.vol.g.sectsFat <= dirSect && dirSect in disk
    requires 1 <= f.vol.g.sectsClust && dirSect !in SectorsOf(f.vol.g, chain)
    requires f.chain <= chain && DataKept(f.vol.g, disk, f.vol.disk)
    ensures EntryPlace(f, dirSect, dirPtr)
  {
    SectorsGrow(f.vol.g, f.chain, chain[|f.chain|..]);
    assert f.chain + chain[|f.chain|..] == chain;
    hide SectorsOf;
    forall i | 0 <= i < |SectorsOf(f.vol.g, f.chain)|
      ensures SectorsOf(f.vol.g, f.chain)[i] != dirSect
    {
      assert SectorsOf(f.vol.g, f.chain)[i] == SectorsOf(f.vol.g, chain)[i];
    }
  }

  /** The directory entry is in a root directory before the clusters, or in a cluster in use by another file. */
  ghost predicate InDirectory(g: Geometry, t: Table, chain: seq<nat>, dirSect: nat) {
    dirSect < g.database || exists c: nat :: DirCluster(g, t, chain, c, dirSect)
  }

  ghost predicate DirCluster(g: Geometry, t: Table, chain: seq<nat>, c: nat, dirSect: nat) {
    IsCluster(t, c) && t[c] != 0 && c !in chain && g.ClustToSect(c) <= dirSect < g.ClustToSect(c) + g.sectsClust
  }

  /** A chain that grows takes free clusters, so the directory entry stays outside. */
  lemma PlaceGrows(f: File, t: Table, chain: seq<nat>, disk: Disk, dirSect: nat, dirPtr: nat)
    requires dirPtr + ENTRY_SIZE <= SECTOR_SIZE && f.vol.g.fatbase + f.vol.g.sectsFat <= dirSect && dirSect in disk
    requires f.vol.Valid() && InData(f.vol.g, f.chain) && |t| == f.vol.g.maxClust && f.vol.disk.Keys == disk.Keys
    requires InDirectory(f.vol.g, t, chain, dirSect) && Grew(t, f.vol.Table(), chain, f.chain)
    ensures EntryPlace(f, dirSect, dirPtr)
  {
    hide Volume.Valid;
    hide CountFree;
    f.vol.DataVisible();
    var g, ss := f.vol.g, SectorsOf(f.vol.g, f.chain);
    forall i | 0 <= i < |ss|
      ensures ss[i] != dirSect
    {
      SectorsInData(g, f.chain, i);
      if ss[i] == dirSect {
        var c: nat :| DirCluster(g, t, chain, c, dirSect);
        DivBelow(i, |f.chain|, g.sectsClust);
        assert ss[i] == SectorOf(g, f.chain, i);
        ClustersApart(g, f.chain[i / g.sectsClust], c, i % g.sectsClust, dirSect - g.ClustToSect(c));
      }
    }
  }

  /** A file cut at its position and synchronised comes back cut. */
  method TruncateSurvives(f: File, dirSect: nat, dirPtr: nat, time: nat, fsi: nat) returns (h: File)
    requires f.Valid() && f.canWrite && f.fptr < f.fsize && f.fptr < 0x1_0000_0000
    requires EntryPlace(f, dirSect, dirPtr) && 0 < fsi < f.vol.g.fatbase
    modifies f
    modifies f.vol`win, f.vol`winsect, f.vol`winflag, f.vol`freeClust, f.vol`fsiFlag, f.vol`disk
    modifies f.vol.cache, f.vol.cache.slots
    ensures fresh(h) && fresh(h.vol) && fresh(h.vol.cache) && h.Valid()
    ensures h.Content() == old(f.Content())[..old(f.fptr)]
  {
    hide Volume.Valid;
    hide File.Valid;
    hide File.Content;
    hide SectorsOf;
    hide DataKept;
    hide Shrunk;
    hide File.Fits;
    ghost var chain, disk := f.chain, f.vol.disk;
    var _ := f.Truncate();
    PlaceShrinks(f, chain, disk, dirSect, dirPtr);
    h := SurvivesRestart(f, dirSect, dirPtr, time, fsi);
  }

  /** Data written to a file and synchronised comes back. */
  method WriteSurvives(f: File, data: seq<byte>, dirSect: nat, dirPtr: nat, time: nat, fsi: nat)
    returns (r: Outcome, h: File?)
    requires f.Valid() && f.canWrite && f.fsize + |data| < 0x1_0000_0000
    requires EntryPlace(f, dirSect, dirPtr) && 0 < fsi < f.vol.g.fatbase
    requires f.vol.Valid() && InDirectory(f.vol.g, f.vol.Table(), f.chain, dirSect)
    modifies f
    modifies f.vol`win, f.vol`winsect, f.vol`winflag, f.vol`lastClust, f.vol`freeClust, f.vol`fsiFlag, f.vol`disk
    modifies f.vol.cache, f.vol.cache.slots
    ensures old(f.fptr) + |data| <= |old(f.Raw())| ==> r == Done
    ensures r == Done ==> h != null && fresh(h) && fresh(h.vol) && fresh(h.vol.cache) && h.Valid()
    ensures r == Done ==> h.Content() == Splice(old(f.Content()), old(f.fptr), data)
  {
    hide Volume.Valid;
    hide File.Valid;
    hide File.Content;
    hide File.Stuck;
    hide File.Stands;
    hide File.Raw;
    hide File.Room;
    hide SectorsOf;
    hide OutsideKept;
    hide Grew;
    hide InData;
    hide NoOnes;
    hide Splice;
    hide InDirectory;
    hide WindowOn;
    ghost var t, chain, disk := f.vol.Table(), f.chain, f.vol.disk;
    PositionInside(f);
    var bw;
    r, bw := f.Write(data);
    h := null;
    if r == Done {
      OutsideKeys(f, disk);
      SpliceLength(old(f.Content()), old(f.fptr), data);
      PlaceGrows(f, t, chain, disk, dirSect, dirPtr);
      h := SurvivesRestart(f, dirSect, dirPtr, time, fsi);
    }
  }

  lemma SpliceLength(s: seq<byte>, p: nat, d: seq<byte>)
    requires p <= |s|
    ensures |Splice(s, p, d)| == if p + |d| > |s| then p + |d| else |s|
  {
  }

  lemma PositionInside(f: File)
    requires f.Valid()
    ensures f.fptr <= f.fsize
  {
  }

  lemma OutsideKeys(f: File, disk: Disk)
    requires 1 <= f.vol.g.sectsClust && OutsideKept(f.vol.g, SectorsOf(f.vol.g, f.chain), disk, f.vol.disk)
    ensures f.vol.disk.Keys == disk.Keys
  {
  }
}
