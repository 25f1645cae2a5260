/** An open file: a cursor over the sectors of its chain, with a one-sector buffer (kern/fs/fat/fat_base.c:1218-1388,
    1454-1545, 1660-1700). */
module FatFile {
  import opened Sequences
  import opened Sectors
  import opened BlockCache
  import opened FatGeometry
  import opened ClusterHeap
  import opened FatVolume
  import opened FileLayout

  /** The cursor stands in sector i of the file. */
  ghost predicate Standing(g: Geometry, chain: seq<nat>, i: nat, currClust: nat, currSect: nat, sectClust: nat) {
    1 <= g.sectsClust && i < |SectorsOf(g, chain)| && i / g.sectsClust < |chain| &&
    currClust == chain[i / g.sectsClust] && currSect == SectorsOf(g, chain)[i] &&
    sectClust == g.sectsClust - i % g.sectsClust
  }

  /** The one place of the cursor for a position in the file: in the sector of the byte before it. */
  ghost predicate CursorAt(g: Geometry, chain: seq<nat>, fptr: nat, currClust: nat, currSect: nat, sectClust: nat) {
    if fptr == 0 then sectClust == 1
    else Standing(g, chain, (fptr - 1) / SECTOR_SIZE, currClust, currSect, sectClust)
  }

  /** How an operation that may need a new cluster ends: done; no cluster is free; an entry equal to 1, which the code
      takes for an error, was met; or the access mode forbids it. */
  datatype Outcome = Done | Full | Failed | Denied

  /** What create_chain answers when it gives no cluster. */
  function Trouble(clust: nat): Outcome {
    if clust == 0 then Full else if clust == 1 then Failed else Done
  }

  /** Why there is no cluster. */
  ghost predicate Reason(r: Outcome, t: Table) {
    r != Denied && (r == Full ==> NoFree(t)) && (r == Failed ==> !NoOnes(t))
  }

  /** What a write changes of a file: the FAT, its chain, the disk with its buffer, and its bytes. */
  datatype Stage = Stage(table: Table, chain: seq<nat>, image: Disk, raw: seq<byte>)

  /** From a to b the data was put at start into a file of that size: its chain grew, its bytes are spliced, and what is
      on the disk outside of it was kept. */
  ghost predicate Wrote(g: Geometry, a: Stage, b: Stage, size: nat, start: nat, data: seq<byte>) {
    1 <= g.sectsClust && Grew(a.table, b.table, a.chain, b.chain) &&
    SectorsOf(g, a.chain) <= SectorsOf(g, b.chain) && OutsideKept(g, SectorsOf(g, b.chain), a.image, b.image) &&
    Spliced(a.raw, b.raw, size, start, data)
  }

  lemma WroteNothing(g: Geometry, a: Stage, size: nat, start: nat)
    requires 1 <= g.sectsClust && size <= |a.raw| && start <= |a.raw|
    ensures Wrote(g, a, a, size, start, [])
  {
    hide CountFree;
  }

  lemma WroteTwice(g: Geometry, a: Stage, b: Stage, c: Stage, size: nat, start: nat, data: seq<byte>, more: seq<byte>)
    requires Wrote(g, a, b, size, start, data) && Wrote(g, b, c, size, start + |data|, more)
    ensures Wrote(g, a, c, size, start, data + more)
  {
    hide Grew;
    hide OutsideKept;
    hide Spliced;
    GrewTwice(a.table, b.table, c.table, a.chain, b.chain, c.chain);
    OutsideTwice(g, SectorsOf(g, b.chain), SectorsOf(g, c.chain), a.image, b.image, c.image);
    SplicedTwice(a.raw, b.raw, c.raw, size, start, data, more);
  }

  lemma WroteFacts(g: Geometry, a: Stage, b: Stage, size: nat, start: nat, data: seq<byte>)
    requires Wrote(g, a, b, size, start, data)
    ensures size <= |b.raw| && start + |data| <= |b.raw| && a.chain <= b.chain
  {
    hide CountFree;
  }

  class File {
    const vol: Volume
    const canRead: bool
    const canWrite: bool
    var written: bool
    var dirty: bool
    var fptr: nat
    var fsize: nat
    var orgClust: nat
    var currClust: nat
    var currSect: nat
    var sectClust: nat
    var buffer: Sector
    // The clusters of the file.
    ghost var chain: seq<nat>

    /** The chain of the file in the FAT. */
    ghost predicate Chained()
      requires vol.Valid()
      reads this`orgClust, this`chain, vol`win, vol`winsect, vol`winflag, vol`disk, vol.cache, vol.cache.slots
    {
      if orgClust == 0 then chain == [] else IsChain(vol.Table(), chain) && chain[0] == orgClust
    }

    ghost function Sects(): seq<nat>
      requires 1 <= vol.g.sectsClust
      reads this`chain
    {
      SectorsOf(vol.g, chain)
    }

    /** The disk with the dirty buffer written back. */
    ghost function Image(): Disk
      reads this`dirty, this`currSect, this`buffer, vol`disk
    {
      if dirty then vol.disk[currSect := buffer] else vol.disk
    }

    /** The volume and the chain are sound, the file's sectors are data sectors, and the window shows none of them. */
    ghost predicate Placed()
      reads this`orgClust, this`chain, vol`win, vol`winsect, vol`winflag, vol`disk, vol.cache, vol.cache.slots
    {
      vol.Valid() && 1 <= vol.g.sectsClust && Chained() && InData(vol.g, chain) &&
      (forall i, j :: 0 <= i < j < |chain| ==> chain[i] != chain[j]) &&
      forall i :: 0 <= i < |Sects()| ==>
        vol.g.database <= Sects()[i] < vol.g.total && Sects()[i] in vol.disk && Sects()[i] != vol.winsect
    }

    /** All bytes of the file's sectors, with the dirty buffer written back. */
    ghost function Raw(): seq<byte>
      requires Placed()
      reads this`orgClust, this`chain, this`dirty, this`currSect, this`buffer
      reads vol`win, vol`winsect, vol`winflag, vol`disk, vol.cache, vol.cache.slots
    {
      hide Volume.Valid;
      Bytes(Sects(), Image())
    }

    ghost function Now(): Stage
      requires Placed()
      reads this`orgClust, this`chain, this`dirty, this`currSect, this`buffer
      reads vol`win, vol`winsect, vol`winflag, vol`disk, vol.cache, vol.cache.slots
    {
      hide Volume.Valid;
      Stage(vol.Table(), chain, Image(), Raw())
    }

    /** The cursor and the buffer are where the position says. */
    ghost predicate Positioned()
      reads this`orgClust, this`chain, this`dirty, this`currSect, this`buffer, this`fptr, this`currClust, this`sectClust
      reads vol`win, vol`winsect, vol`winflag, vol`disk, vol.cache, vol.cache.slots
    {
      Placed() && fptr <= SECTOR_SIZE * |Sects()| &&
      CursorAt(vol.g, chain, fptr, currClust, currSect, sectClust) &&
      (dirty ==> fptr > 0) &&
      (fptr % SECTOR_SIZE != 0 && !dirty ==> currSect in vol.disk && buffer == vol.disk[currSect])
    }

    ghost predicate Valid()
      reads this, vol`win, vol`winsect, vol`winflag, vol`disk, vol.cache, vol.cache.slots
    {
      Positioned() && fptr <= fsize <= |Raw()|
    }

    /** On the disk, byte b stands where position q of the file is: in the sectors of one cluster of the chain after the
        other, cluster 2 being the first of the data area. */
    ghost predicate StandsAt(q: nat, b: byte)
      reads this`chain, this`dirty, this`currSect, this`buffer, vol`disk
    {
      1 <= vol.g.sectsClust &&
      var n := q / SECTOR_SIZE;
      n / vol.g.sectsClust < |chain| && 2 <= chain[n / vol.g.sectsClust] &&
      var s := vol.g.database + (chain[n / vol.g.sectsClust] - 2) * vol.g.sectsClust + n % vol.g.sectsClust;
      s in Image() && Image()[s][q % SECTOR_SIZE] == b
    }

    lemma RawStands(q: nat)
      requires Placed() && q < |Raw()|
      ensures StandsAt(q, Raw()[q])
    {
      hide Volume.Valid;
      hide IsChain;
      var n := q / SECTOR_SIZE;
      DivBelow(n, |chain|, vol.g.sectsClust);
      assert Sects()[n] == SectorOf(vol.g, chain, n);
    }

    /** On the disk, the data stands where the file is from position p on. */
    ghost predicate Stands(p: nat, data: seq<byte>)
      reads this`chain, this`dirty, this`currSect, this`buffer, vol`disk
    {
      forall i: nat :: i < |data| ==> StandsAt(p + i, data[i])
    }

    lemma PieceStands(p: nat, data: seq<byte>)
      requires Placed() && p + |data| <= |Raw()| && Raw()[p..p + |data|] == data
      ensures Stands(p, data)
    {
      hide Volume.Valid;
      hide Placed;
      hide StandsAt;
      hide Raw;
      forall i: nat | i < |data|
        ensures StandsAt(p + i, data[i])
      {
        RawStands(p + i);
        assert Raw()[p..p + |data|][i] == Raw()[p + i];
      }
    }

    /** The file as what it stands for: a sequence of bytes. */
    ghost function Content(): (bytes: seq<byte>)
      requires Valid()
      reads this, vol`win, vol`winsect, vol`winflag, vol`disk, vol.cache, vol.cache.slots
      ensures |bytes| == fsize
    {
      Raw()[..fsize]
    }

    constructor (vol: Volume, canRead: bool, canWrite: bool, orgClust: nat, fsize: nat, ghost chain: seq<nat>)
      requires vol.Valid()
      requires (if orgClust == 0 then chain == [] else IsChain(vol.Table(), chain) && chain[0] == orgClust)
      requires fsize <= SECTOR_SIZE * (|chain| * vol.g.sectsClust)
      requires 1 <= vol.g.sectsClust
      requires forall i :: 0 <= i < |SectorsOf(vol.g, chain)| ==> SectorsOf(vol.g, chain)[i] != vol.winsect
      ensures Valid() && fptr == 0 && !dirty && !written && this.fsize == fsize && this.vol == vol
      ensures this.canRead == canRead && this.canWrite == canWrite && this.orgClust == orgClust && this.chain == chain
    {
      this.vol, this.canRead, this.canWrite := vol, canRead, canWrite;
      this.orgClust, this.fsize, this.chain := orgClust, fsize, chain;
      fptr, sectClust, currClust, currSect := 0, 1, 0, 0;
      written, dirty, buffer := false, false, ZERO_SECTOR;
      new;
      hide Volume.Valid;
      hide Valid;
      hide Placed;
      hide IsChain;
      hide SectorsOf;
      ChainPlaced();
      PlacedSize();
      AtStart();
      OpenedAtStart();
    }

    lemma OpenedAtStart()
      requires Positioned() && fptr == 0 && fsize <= |Raw()|
      ensures Valid()
    {
    }

    /** A chain of the FAT has its sectors in the data area. */
    lemma ChainPlaced()
      requires vol.Valid() && Chained()
      requires 1 <= vol.g.sectsClust && forall i :: 0 <= i < |Sects()| ==> Sects()[i] != vol.winsect
      ensures Placed()
    {
      hide Volume.Valid;
      vol.DataVisible();
      assert |vol.Table()| == vol.g.maxClust;
      forall i | 0 <= i < |Sects()|
        ensures vol.g.database <= Sects()[i] < vol.g.total && Sects()[i] in vol.disk
      {
        SectorsInData(vol.g, chain, i);
      }
    }

    /** With the window on the FAT, no sector of the file is in it. */
    lemma ChainPlacedFat()
      requires vol.Valid() && Chained() && vol.g.InFat(vol.winsect)
      ensures Placed()
    {
      hide Volume.Valid;
      vol.DataVisible();
      assert |vol.Table()| == vol.g.maxClust;
      forall i | 0 <= i < |Sects()|
        ensures Sects()[i] != vol.winsect
      {
        SectorsInData(vol.g, chain, i);
      }
      ChainPlaced();
    }

    /** Looking at the FAT moves the window at most there. */
    lemma PlacedAgain(w: nat)
      requires vol.Valid() && Chained() && WindowOn(vol.g, w, vol.winsect)
      requires 1 <= vol.g.sectsClust && forall i :: 0 <= i < |Sects()| ==> Sects()[i] != w
      ensures Placed()
    {
      hide Volume.Valid;
      if vol.winsect == w {
        ChainPlaced();
      } else {
        ChainPlacedFat();
      }
    }

    lemma PlacedVolume()
      requires Placed()
      ensures vol.Valid() && vol.g.sectsClust >= 1
    {
    }

    /** The end of stepping to another sector: write back the buffer if it is dirty. */
    method MoveTo(sect: nat, ghost i: nat, ghost was: nat)
      requires Placed() && i < |Sects()| && sect == Sects()[i]
      requires dirty ==> was < |Sects()| && currSect == Sects()[was]
      modifies `dirty, `currSect, vol`disk, vol.cache, vol.cache.slots
      ensures Placed() && !dirty && currSect == sect
      ensures vol.disk == old(Image()) && vol.Table() == old(vol.Table())
    {
      hide Volume.Valid;
      hide IsChain;
      if dirty {
        vol.WriteData(currSect, 1, buffer);
        assert Chunk(buffer, 0) == buffer;
        assert vol.disk == old(Image());
        dirty := false;
      }
      currSect := sect;
    }

    /** The sector behind the one the cursor stands in, when both are in one cluster. */
    lemma NextInCluster(i: nat)
      requires 1 <= vol.g.sectsClust && i < |Sects()| && i / vol.g.sectsClust < |chain|
      requires Standing(vol.g, chain, i, currClust, currSect, sectClust) && sectClust > 1
      ensures Standing(vol.g, chain, i + 1, currClust, currSect + 1, sectClust - 1)
    {
      SectorsContiguous(vol.g, chain, i, 1);
    }

    /** The first sector of the cluster behind the one the cursor stands in. */
    lemma NextCluster(i: nat)
      requires Standing(vol.g, chain, i, currClust, currSect, sectClust) && sectClust == 1 && i + 1 < |Sects()|
      ensures i / vol.g.sectsClust + 1 < |chain| && (i + 1) / vol.g.sectsClust == i / vol.g.sectsClust + 1
      ensures var c := chain[i / vol.g.sectsClust + 1];
        Standing(vol.g, chain, i + 1, c, vol.g.ClustToSect(c), vol.g.sectsClust)
    {
      DivNext(i, vol.g.sectsClust);
      DivBelow(i + 1, |chain|, vol.g.sectsClust);
    }

    lemma FirstCluster()
      requires 1 <= vol.g.sectsClust && 0 < |Sects()|
      ensures |chain| > 0 && Standing(vol.g, chain, 0, chain[0], vol.g.ClustToSect(chain[0]), vol.g.sectsClust)
    {
      DivBelow(0, |chain|, vol.g.sectsClust);
      DivUnique(0, vol.g.sectsClust, 0, 0);
    }

    /** The cluster behind the one the cursor stands in, looked up in the FAT. */
    method FollowChain(ghost k: nat) returns (clust: nat)
      requires Placed() && k + 1 < |chain| && currClust == chain[k]
      modifies vol`win, vol`winsect, vol`winflag, vol.cache, vol.cache.slots
      ensures Placed() && clust == chain[k + 1] >= 2 && WindowOn(vol.g, old(vol.winsect), vol.winsect)
    {
      hide Volume.Valid;
      assert IsCluster(vol.Table(), chain[k]) && IsCluster(vol.Table(), chain[k + 1]);
      assert vol.Table()[chain[k]] == chain[k + 1];
      clust := vol.GetCluster(currClust);
      vol.DataVisible();
      ChainPlaced();
    }

    /** The next sector of a read at a sector boundary, along the chain. */
    method SectorForRead() returns (sect: nat)
      requires Positioned() && fptr % SECTOR_SIZE == 0 && fptr < SECTOR_SIZE * |Sects()|
      modifies `currClust, `sectClust
      modifies vol`win, vol`winsect, vol`winflag, vol.cache, vol.cache.slots
      ensures Placed() && Standing(vol.g, chain, fptr / SECTOR_SIZE, currClust, sect, sectClust)
      ensures WindowOn(vol.g, old(vol.winsect), vol.winsect)
    {
      hide Volume.Valid;
      hide IsChain;
      hide Standing;
      Boundary(fptr);
      ghost var was := if fptr == 0 then 0 else fptr / SECTOR_SIZE - 1;
      StandingFacts(vol.g, chain, was, currClust, currSect, sectClust);
      if fptr == 0 {
        FirstCluster();
      } else if sectClust > 1 {
        NextInCluster(was);
      } else {
        NextCluster(was);
      }
      sectClust := sectClust - 1;
      if sectClust != 0 {
        sect := currSect + 1;
      } else {
        var clust: nat := orgClust;
        if fptr != 0 {
          clust := FollowChain(was / vol.g.sectsClust);
        }
        currClust := clust;
        sect := vol.g.ClustToSect(clust);
        sectClust := vol.g.sectsClust;
      }
    }

    /** A read at a sector boundary: step to the next sector. */
    method NextForRead()
      requires Positioned() && fptr % SECTOR_SIZE == 0 && fptr < SECTOR_SIZE * |Sects()|
      modifies `currClust, `sectClust, `dirty, `currSect
      modifies vol`win, vol`winsect, vol`winflag, vol`disk, vol.cache, vol.cache.slots
      ensures Placed() && !dirty && Standing(vol.g, chain, fptr / SECTOR_SIZE, currClust, currSect, sectClust)
      ensures vol.disk == old(Image()) && vol.Table() == old(vol.Table())
      ensures WindowOn(vol.g, old(vol.winsect), vol.winsect)
    {
      hide Volume.Valid;
      hide IsChain;
      ghost var was := if fptr == 0 then 0 else (fptr - 1) / SECTOR_SIZE;
      var sect := SectorForRead();
      MoveTo(sect, fptr / SECTOR_SIZE, was);
    }

    /** The buffer holds the sector of the byte at the position. */
    ghost predicate Loaded()
      reads this`orgClust, this`chain, this`dirty, this`currSect, this`buffer, this`fptr, this`currClust, this`sectClust
      reads vol`win, vol`winsect, vol`winflag, vol`disk, vol.cache, vol.cache.slots
    {
      Placed() && Standing(vol.g, chain, fptr / SECTOR_SIZE, currClust, currSect, sectClust) &&
      currSect in vol.disk && Image()[currSect] == buffer && (dirty ==> fptr > 0)
    }

    /** Read whole sectors past the buffer. */
    method ReadDirect(cc: nat) returns (data: seq<byte>)
      requires Placed() && !dirty && fptr % SECTOR_SIZE == 0 && 1 <= cc <= sectClust
      requires Standing(vol.g, chain, fptr / SECTOR_SIZE, currClust, currSect, sectClust)
      modifies `fptr, `sectClust, `currSect, vol.cache, vol.cache.slots
      ensures Positioned() && Raw() == old(Raw())
      ensures |data| == SECTOR_SIZE * cc && fptr == old(fptr) + |data| <= |Raw()| && data == Raw()[old(fptr)..fptr]
    {
      hide Volume.Valid;
      hide IsChain;
      hide Standing;
      hide CursorAt;
      StandingFacts(vol.g, chain, fptr / SECTOR_SIZE, currClust, currSect, sectClust);
      ghost var i := fptr / SECTOR_SIZE;
      Boundary(fptr);
      data := FetchRun(i, cc);
      LastOfRun(vol.g, chain, i, cc, currClust, currSect, sectClust);
      sectClust := sectClust - (cc - 1);
      currSect := currSect + (cc - 1);
      fptr := fptr + cc * SECTOR_SIZE;
    }

    method FetchRun(ghost i: nat, cc: nat) returns (data: seq<byte>)
      requires Placed() && !dirty && 1 <= cc <= sectClust
      requires Standing(vol.g, chain, i, currClust, currSect, sectClust)
      modifies vol.cache, vol.cache.slots
      ensures Placed() && |data| == SECTOR_SIZE * cc && SECTOR_SIZE * (i + cc) <= |Raw()| && Raw() == old(Raw())
      ensures data == Raw()[SECTOR_SIZE * i..SECTOR_SIZE * (i + cc)]
    {
      hide Volume.Valid;
      hide IsChain;
      hide SectorsOf;
      hide Standing;
      hide Contiguous;
      RunInData(i, cc);
      data := vol.ReadData(currSect, cc);
      BytesOfRun(Sects(), vol.disk, i, cc, currSect, data);
    }

    /** Read from the buffer. */
    method ReadBuffer(rcnt: nat) returns (data: seq<byte>)
      requires Loaded() && 0 < rcnt && fptr % SECTOR_SIZE + rcnt <= SECTOR_SIZE
      modifies `fptr
      ensures Positioned() && Raw() == old(Raw())
      ensures |data| == rcnt && fptr == old(fptr) + rcnt <= |Raw()| && data == Raw()[old(fptr)..fptr]
    {
      hide Volume.Valid;
      hide IsChain;
      ghost var i, o := fptr / SECTOR_SIZE, fptr % SECTOR_SIZE;
      BytesOfBuffer(Sects(), Image(), i, o, rcnt);
      data := buffer[fptr % SECTOR_SIZE..fptr % SECTOR_SIZE + rcnt];
      fptr := fptr + rcnt;
      SameSector(i, o, rcnt);
    }

    /** The cluster behind cluster k of the chain, a new one if k is the last. */
    method Stretch(ghost k: nat) returns (clust: nat)
      requires Placed() && k < |chain| && currClust == chain[k]
      modifies `chain
      modifies vol`win, vol`winsect, vol`winflag, vol`disk, vol`lastClust, vol`freeClust, vol`fsiFlag
      modifies vol.cache, vol.cache.slots
      ensures vol.Valid() && Reason(Trouble(clust), vol.Table()) && DataKept(vol.g, old(vol.disk), vol.disk)
      ensures (old(vol.ExactFree()) ==> vol.ExactFree()) && WindowOn(vol.g, old(vol.winsect), vol.winsect)
      ensures clust < 2 ==> k + 1 == |chain| && chain == old(chain) && vol.Table() == old(vol.Table())
      ensures Placed() && old(chain) <= chain && (clust >= 2 ==> k + 1 < |chain| && clust == chain[k + 1])
      ensures clust >= 2 ==> Grew(old(vol.Table()), vol.Table(), old(chain), chain)
    {
      hide Volume.Valid;
      hide Grew;
      hide DataKept;
      hide Created;
      hide CountFree;
      vol.EocFits();
      assert |vol.Table()| == vol.g.maxClust;
      ghost var t := vol.Table();
      ghost var w := vol.winsect;
      clust := vol.CreateChain(currClust);
      StretchResult(t, vol.Table(), chain, k, clust, Eoc(vol.g));
      GrewNot(t, chain);
      if k + 1 == |chain| && clust >= 2 {
        chain := chain + [clust];
      }
      if clust >= 2 {
        ChainPlacedFat();
      } else {
        PlacedAgain(w);
      }
    }

    /** The first cluster, a new one if the file has none. */
    method FirstForWrite() returns (clust: nat)
      requires Placed()
      modifies `orgClust, `chain
      modifies vol`win, vol`winsect, vol`winflag, vol`disk, vol`lastClust, vol`freeClust, vol`fsiFlag
      modifies vol.cache, vol.cache.slots
      ensures vol.Valid() && Reason(Trouble(clust), vol.Table()) && DataKept(vol.g, old(vol.disk), vol.disk)
      ensures (old(vol.ExactFree()) ==> vol.ExactFree()) && WindowOn(vol.g, old(vol.winsect), vol.winsect)
      ensures clust < 2 ==> chain == old(chain) == [] && vol.Table() == old(vol.Table()) && (clust == 0 ==> Placed())
      ensures clust >= 2 ==> Placed() && old(chain) <= chain && 0 < |chain| && clust == chain[0]
      ensures clust >= 2 ==> Grew(old(vol.Table()), vol.Table(), old(chain), chain)
    {
      hide Volume.Valid;
      hide Grew;
      hide DataKept;
      hide Created;
      hide CountFree;
      vol.EocFits();
      assert |vol.Table()| == vol.g.maxClust;
      ghost var t := vol.Table();
      GrewNot(t, chain);
      DataSame(vol.g, vol.disk);
      clust := orgClust;
      if clust == 0 {
        clust := vol.CreateChain(0);
        orgClust := clust;
        CreateResult(t, vol.Table(), clust, Eoc(vol.g));
        if clust >= 2 {
          chain := [clust];
          ChainPlacedFat();
        } else if clust == 0 {
          ChainPlaced();
        }
      } else {
        assert IsCluster(vol.Table(), chain[0]);
      }
    }

    /** The first sector of the next cluster, taken from the chain or newly linked to it. */
    method ClusterForWrite() returns (r: Outcome, sect: nat)
      requires Positioned() && fptr % SECTOR_SIZE == 0 && sectClust == 1
      modifies `currClust, `sectClust, `orgClust, `chain
      modifies vol`win, vol`winsect, vol`winflag, vol`disk, vol`lastClust, vol`freeClust, vol`fsiFlag
      modifies vol.cache, vol.cache.slots
      ensures vol.Valid() && Reason(r, vol.Table()) && DataKept(vol.g, old(vol.disk), vol.disk)
      ensures (old(vol.ExactFree()) ==> vol.ExactFree()) && WindowOn(vol.g, old(vol.winsect), vol.winsect)
      ensures r != Done ==> chain == old(chain) && vol.Table() == old(vol.Table()) && fptr == SECTOR_SIZE * |Sects()|
      ensures r == Full ==> Placed() && old(sectClust) == 1 && sectClust == 0 && currClust == old(currClust)
      ensures r == Done ==> Placed() && Standing(vol.g, chain, fptr / SECTOR_SIZE, currClust, sect, sectClust)
      ensures r == Done ==>
        fptr > 0 ==> (fptr - 1) / SECTOR_SIZE < |Sects()| && currSect == Sects()[(fptr - 1) / SECTOR_SIZE]
      ensures r == Done ==> Grew(old(vol.Table()), vol.Table(), old(chain), chain)
    {
      hide Volume.Valid;
      hide IsChain;
      hide InData;
      hide SectorsOf;
      hide Standing;
      hide Grew;
      hide DataKept;
      hide Placed;
      hide IsIndex;
      hide Reason;
      PlacedVolume();
      Boundary(fptr);
      ghost var was: nat := if fptr == 0 then 0 else fptr / SECTOR_SIZE - 1;
      ghost var chain0, cl, k := chain, currClust, 0;
      var clust: nat;
      if fptr == 0 {
        clust := FirstForWrite();
      } else {
        k := WhereStands(vol.g, chain, was, currClust, currSect, sectClust);
        clust := Stretch(k);
      }
      r, sect := Trouble(clust), 0;
      if r == Done {
        currClust := clust;
        sect := vol.g.ClustToSect(clust);
        StandAfterGrowth(chain0, was, k, cl, 1);
        sectClust := vol.g.sectsClust;
      } else {
        EndOfChain(vol.g, chain, fptr, was, k, cl, currSect);
        sectClust := 0;
      }
    }

    /** The next sector of a write at a sector boundary. */
    method SectorForWrite() returns (r: Outcome, sect: nat)
      requires Positioned() && fptr % SECTOR_SIZE == 0
      modifies `currClust, `sectClust, `orgClust, `chain
      modifies vol`win, vol`winsect, vol`winflag, vol`disk, vol`lastClust, vol`freeClust, vol`fsiFlag
      modifies vol.cache, vol.cache.slots
      ensures vol.Valid() && Reason(r, vol.Table()) && DataKept(vol.g, old(vol.disk), vol.disk)
      ensures (old(vol.ExactFree()) ==> vol.ExactFree()) && WindowOn(vol.g, old(vol.winsect), vol.winsect)
      ensures r != Done ==> chain == old(chain) && vol.Table() == old(vol.Table()) && fptr == SECTOR_SIZE * |Sects()|
      ensures r == Full ==> Placed() && old(sectClust) == 1 && sectClust == 0 && currClust == old(currClust)
      ensures r == Done ==> Placed() && Standing(vol.g, chain, fptr / SECTOR_SIZE, currClust, sect, sectClust)
      ensures r == Done ==>
        fptr > 0 ==> (fptr - 1) / SECTOR_SIZE < |Sects()| && currSect == Sects()[(fptr - 1) / SECTOR_SIZE]
      ensures r == Done ==> Grew(old(vol.Table()), vol.Table(), old(chain), chain)
    {
      hide Volume.Valid;
      hide IsChain;
      hide Standing;
      hide Grew;
      hide DataKept;
      hide SectorsOf;
      if sectClust == 1 {
        r, sect := ClusterForWrite();
      } else {
        Boundary(fptr);
        PlacedVolume();
        GrewNot(vol.Table(), chain);
        DataSame(vol.g, vol.disk);
        ghost var was := fptr / SECTOR_SIZE - 1;
        StandingFacts(vol.g, chain, was, currClust, currSect, sectClust);
        NextInCluster(was);
        sectClust := sectClust - 1;
        r, sect := Done, currSect + 1;
      }
    }

    /** The cursor, moved on to the cluster behind, after the chain may have grown. */
    lemma StandAfterGrowth(chain0: seq<nat>, was: nat, k: nat, cl: nat, sc: nat)
      requires 1 <= vol.g.sectsClust && chain0 <= chain && fptr % SECTOR_SIZE == 0 && 0 < |chain|
      requires was == if fptr == 0 then 0 else fptr / SECTOR_SIZE - 1
      requires fptr > 0 ==> Standing(vol.g, chain0, was, cl, currSect, sc) && sc == 1
      requires fptr > 0 ==> IsIndex(vol.g, was, k) && k + 1 < |chain| && currClust == chain[k + 1]
      requires fptr == 0 ==> currClust == chain[0]
      ensures Standing(vol.g, chain, fptr / SECTOR_SIZE, currClust, vol.g.ClustToSect(currClust), vol.g.sectsClust)
      ensures fptr > 0 ==> was < |Sects()| && currSect == Sects()[was]
    {
      if fptr == 0 {
        StandAtHead(vol.g, chain);
      } else {
        StandNext(vol.g, chain0, chain, was, cl, currSect, sc);
      }
    }

    /** At the end of the last cluster, with no other to be had: everything is as for a sound position, except that the
        counter of the sectors left is 0 instead of 1. */
    ghost predicate Stuck()
      reads this`orgClust, this`chain, this`dirty, this`currSect, this`fptr, this`currClust, this`sectClust
      reads vol`win, vol`winsect, vol`winflag, vol`disk, vol.cache, vol.cache.slots
    {
      Placed() && fptr == SECTOR_SIZE * |Sects()| && sectClust == 0 &&
      CursorAt(vol.g, chain, fptr, currClust, currSect, 1) && (dirty ==> fptr > 0)
    }

    /** This is no position of a sound file, and the sector that a counter run past 0 would lead to is the one behind
        the current cluster. */
    lemma StuckUnsound()
      requires Stuck()
      ensures !Positioned()
      ensures fptr > 0 ==> currSect + 1 == vol.g.ClustToSect(currClust) + vol.g.sectsClust
    {
      hide Volume.Valid;
      hide IsChain;
    }

    /** A change confined to the FAT keeps the bytes of the file. */
    lemma RawKept(disk0: Disk)
      requires Placed() && DataKept(vol.g, disk0, vol.disk) && OnDisk(Sects(), disk0)
      ensures var image := if dirty then disk0[currSect := buffer] else disk0;
        OnDisk(Sects(), image) && Raw() == Bytes(Sects(), image)
    {
      hide Volume.Valid;
      hide IsChain;
      hide SectorsOf;
      hide DataKept;
      vol.DataVisible();
      ImageData(vol.g, Sects(), disk0, vol.disk, dirty, currSect, buffer);
      BytesFrame(Sects(), if dirty then disk0[currSect := buffer] else disk0, Image());
    }

    /** A write at a sector boundary: step to the next sector. */
    method NextForWrite() returns (r: Outcome)
      requires Positioned() && fptr % SECTOR_SIZE == 0
      modifies `currClust, `sectClust, `orgClust, `chain, `dirty, `currSect
      modifies vol`win, vol`winsect, vol`winflag, vol`disk, vol`lastClust, vol`freeClust, vol`fsiFlag
      modifies vol.cache, vol.cache.slots
      ensures vol.Valid() && Reason(r, vol.Table())
      ensures (old(vol.ExactFree()) ==> vol.ExactFree()) && WindowOn(vol.g, old(vol.winsect), vol.winsect)
      ensures r != Done ==> chain == old(chain) && vol.Table() == old(vol.Table()) && fptr == SECTOR_SIZE * |Sects()|
      ensures r != Done ==> DataKept(vol.g, old(vol.disk), vol.disk)
      ensures r == Full ==> Stuck() && Raw() == old(Raw())
      ensures r == Done ==> Placed() && !dirty
      ensures r == Done ==> Standing(vol.g, chain, fptr / SECTOR_SIZE, currClust, currSect, sectClust)
      ensures r == Done ==> Grew(old(vol.Table()), vol.Table(), old(chain), chain)
      ensures r == Done ==> DataKept(vol.g, old(Image()), vol.disk)
    {
      hide Volume.Valid;
      hide IsChain;
      hide Grew;
      hide Reason;
      hide DataKept;
      hide SectorsOf;
      hide InData;
      SectsDistinct();
      ghost var disk0, raw := vol.disk, Raw();
      var sect;
      r, sect := SectorForWrite();
      if r == Full {
        RawKept(disk0);
      }
      if r == Done {
        ShownKept(vol.g, disk0, vol.disk, dirty, currSect, buffer);
        ghost var was := if fptr == 0 then 0 else (fptr - 1) / SECTOR_SIZE;
        MoveTo(sect, fptr / SECTOR_SIZE, was);
      }
    }

    /** Read the current sector into the buffer. */
    method LoadSector(ghost i: nat)
      requires Placed() && !dirty && i < |Sects()| && currSect == Sects()[i]
      modifies `buffer, vol.cache, vol.cache.slots
      ensures Placed() && currSect in vol.disk && buffer == vol.disk[currSect]
    {
      hide Volume.Valid;
      hide IsChain;
      hide InData;
      hide SectorsOf;
      buffer := vol.ReadData(currSect, 1);
      assert Chunk(buffer, 0) == buffer;
    }

    /** At a sector boundary with less than a sector to go: load the sector. */
    method Load()
      requires Placed() && !dirty && Standing(vol.g, chain, fptr / SECTOR_SIZE, currClust, currSect, sectClust)
      modifies `buffer, vol.cache, vol.cache.slots
      ensures Loaded()
    {
      hide Volume.Valid;
      hide Placed;
      hide SectorsOf;
      LoadSector(fptr / SECTOR_SIZE);
    }

    /** One round of the loop of fatbase_read: whole sectors directly, else what is left in the buffer. */
    method ReadStep(btr: nat) returns (data: seq<byte>)
      requires Positioned() && 0 < btr && fptr + btr <= |Raw()|
      modifies `currClust, `sectClust, `dirty, `currSect, `buffer, `fptr
      modifies vol`win, vol`winsect, vol`winflag, vol`disk, vol.cache, vol.cache.slots
      ensures Positioned() && Image() == old(Image()) && Raw() == old(Raw())
      ensures vol.Valid() && vol.Table() == old(vol.Table())
      ensures 0 < |data| <= btr && fptr == old(fptr) + |data| && data == Raw()[old(fptr)..fptr]
      ensures (!old(dirty) ==> !dirty) && WindowOn(vol.g, old(vol.winsect), vol.winsect)
    {
      hide Volume.Valid;
      hide IsChain;
      hide SectorsOf;
      hide Standing;
      MidSector(fptr);
      StandingFacts(vol.g, chain, fptr / SECTOR_SIZE, currClust, currSect, sectClust);
      if fptr % SECTOR_SIZE == 0 {
        NextForRead();
        StandingFacts(vol.g, chain, fptr / SECTOR_SIZE, currClust, currSect, sectClust);
        var cc := btr / SECTOR_SIZE;
        if cc != 0 {
          if cc > sectClust {
            cc := sectClust;
          }
          data := ReadDirect(cc);
          return;
        }
        Load();
      }
      var rcnt := SECTOR_SIZE - fptr % SECTOR_SIZE;
      if rcnt > btr {
        rcnt := btr;
      }
      data := ReadBuffer(rcnt);
    }

    lemma SectsDistinct()
      requires Placed()
      ensures Distinct(Sects()) && OnDisk(Sects(), vol.disk)
    {
      hide Volume.Valid;
      hide IsChain;
      hide SectorsOf;
      forall i, j | 0 <= i < j < |Sects()|
        ensures Sects()[i] != Sects()[j]
      {
        if Sects()[i] == Sects()[j] {
          SectorsDistinct(vol.g, chain, i, j);
        }
      }
    }

    /** Put the data on the run of sectors from the current one on. */
    method StoreRun(ghost i: nat, cc: nat, data: seq<byte>)
      requires Placed() && !dirty && 1 <= cc <= sectClust && |data| == SECTOR_SIZE * cc
      requires Standing(vol.g, chain, i, currClust, currSect, sectClust)
      modifies vol`disk, vol.cache, vol.cache.slots
      ensures Placed() && vol.Table() == old(vol.Table()) && OutsideKept(vol.g, Sects(), old(vol.disk), vol.disk)
      ensures Spliced(old(Raw()), Raw(), |old(Raw())|, SECTOR_SIZE * i, data)
    {
      hide Volume.Valid;
      hide IsChain;
      hide SectorsOf;
      hide Standing;
      hide Contiguous;
      hide Distinct;
      hide OutsideKept;
      hide Spliced;
      RunInData(i, cc);
      ghost var disk0 := vol.disk;
      SectsDistinct();
      vol.WriteData(currSect, cc, data);
      SplicedRun(Sects(), disk0, vol.disk, i, cc, currSect, data);
      OutsideRun(vol.g, Sects(), disk0, vol.disk, i, cc, currSect, data);
    }

    /** The rest of the cluster the cursor stands in: contiguous data sectors, none of them in the window. */
    lemma RunInData(i: nat, cc: nat)
      requires Placed() && 1 <= cc <= sectClust && Standing(vol.g, chain, i, currClust, currSect, sectClust)
      ensures Contiguous(Sects(), i, cc, currSect) && OnDisk(Sects(), vol.disk)
      ensures vol.g.database <= currSect && currSect + cc <= vol.g.total && !(currSect <= vol.winsect < currSect + cc)
    {
      hide Volume.Valid;
      hide IsChain;
      hide SectorsOf;
      RunFits(vol.g, chain, i, cc);
      assert Sects()[i + (cc - 1)] == currSect + (cc - 1);
      RunHits(Sects(), i, cc, currSect, vol.winsect);
    }

    /** Write whole sectors past the buffer. */
    method WriteDirect(cc: nat, data: seq<byte>)
      requires Placed() && !dirty && fptr % SECTOR_SIZE == 0 && 1 <= cc <= sectClust && |data| == SECTOR_SIZE * cc
      requires Standing(vol.g, chain, fptr / SECTOR_SIZE, currClust, currSect, sectClust)
      modifies `fptr, `sectClust, `currSect, vol`disk, vol.cache, vol.cache.slots
      ensures Positioned() && vol.Table() == old(vol.Table()) && OutsideKept(vol.g, Sects(), old(Image()), Image())
      ensures fptr == old(fptr) + |data| && Spliced(old(Raw()), Raw(), |old(Raw())|, old(fptr), data)
    {
      hide Volume.Valid;
      hide IsChain;
      hide InData;
      hide Standing;
      hide CursorAt;
      hide Spliced;
      hide OutsideKept;
      ghost var i := fptr / SECTOR_SIZE;
      StandingFacts(vol.g, chain, i, currClust, currSect, sectClust);
      Boundary(fptr);
      StoreRun(i, cc, data);
      LastOfRun(vol.g, chain, i, cc, currClust, currSect, sectClust);
      sectClust := sectClust - (cc - 1);
      currSect := currSect + (cc - 1);
      fptr := fptr + cc * SECTOR_SIZE;
    }

    /** Write into the buffer, which holds the sector or, at the end of the file, need not. */
    method WriteBuffer(data: seq<byte>)
      requires Placed() && Standing(vol.g, chain, fptr / SECTOR_SIZE, currClust, currSect, sectClust)
      requires 0 < |data| && fptr % SECTOR_SIZE + |data| <= SECTOR_SIZE && fsize <= |Raw()|
      requires (currSect in vol.disk && Image()[currSect] == buffer) || (fptr % SECTOR_SIZE == 0 && fsize <= fptr)
      modifies `buffer, `dirty, `fptr
      ensures Positioned() && OutsideKept(vol.g, Sects(), old(Image()), Image())
      ensures fptr == old(fptr) + |data| && Spliced(old(Raw()), Raw(), fsize, old(fptr), data)
    {
      hide Volume.Valid;
      hide IsChain;
      hide SectorsOf;
      hide InData;
      hide Spliced;
      hide Standing;
      hide Distinct;
      hide OutsideKept;
      ghost var i, o, image := fptr / SECTOR_SIZE, fptr % SECTOR_SIZE, Image();
      SectsDistinct();
      StandingFacts(vol.g, chain, i, currClust, currSect, sectClust);
      SplicedBuffer(Sects(), image, i, o, data, buffer, fsize);
      SameSector(i, o, |data|);
      var p := fptr % SECTOR_SIZE;
      buffer := buffer[..p] + data + buffer[p + |data|..];
      dirty := true;
      assert Image() == image[currSect := buffer];
      OutsideSector(vol.g, Sects(), image, i, buffer);
      fptr := fptr + |data|;
    }

    /** After a step to the next sector the file's bytes are what they were. */
    lemma StepKeepsBytes(chain0: seq<nat>, image: Disk, size: nat, start: nat)
      requires Placed() && !dirty && chain0 <= chain && OnDisk(SectorsOf(vol.g, chain0), image)
      requires DataKept(vol.g, image, vol.disk) && size <= SECTOR_SIZE * |SectorsOf(vol.g, chain0)|
      requires start <= SECTOR_SIZE * |SectorsOf(vol.g, chain0)|
      ensures SectorsOf(vol.g, chain0) <= Sects() && OutsideKept(vol.g, Sects(), image, Image())
      ensures Spliced(Bytes(SectorsOf(vol.g, chain0), image), Raw(), size, start, [])
    {
      hide Volume.Valid;
      hide IsChain;
      hide Spliced;
      vol.DataVisible();
      var ss, ss' := SectorsOf(vol.g, chain0), Sects();
      assert chain == chain0 + chain[|chain0|..];
      SectorsGrow(vol.g, chain0, chain[|chain0|..]);
      SplicedNothing(ss, ss', image, vol.disk, size, start);
    }

    /** One round of the loop of fatbase_write: whole sectors directly, else what fits in the buffer. */
    method WriteStep(data: seq<byte>) returns (r: Outcome, wcnt: nat)
      requires Positioned() && 0 < |data| && fsize <= |Raw()|
      modifies `currClust, `sectClust, `orgClust, `chain, `dirty, `currSect, `buffer, `fptr
      modifies vol`win, vol`winsect, vol`winflag, vol`disk, vol`lastClust, vol`freeClust, vol`fsiFlag
      modifies vol.cache, vol.cache.slots
      ensures vol.Valid() && Reason(r, vol.Table())
      ensures (old(vol.ExactFree()) ==> vol.ExactFree()) && WindowOn(vol.g, old(vol.winsect), vol.winsect)
      ensures r != Done ==> chain == old(chain) && vol.Table() == old(vol.Table()) && fptr == SECTOR_SIZE * |Sects()|
      ensures r != Done ==> fptr == old(fptr) && DataKept(vol.g, old(vol.disk), vol.disk)
      ensures r == Full ==> Stuck() && Raw() == old(Raw())
      ensures r == Done ==> Positioned() && 0 < wcnt <= |data| && fptr == old(fptr) + wcnt
      ensures r == Done ==> Wrote(vol.g, old(Now()), Now(), fsize, old(fptr), data[..wcnt])
    {
      hide Volume.Valid;
      hide IsChain;
      hide SectorsOf;
      hide Standing;
      hide Grew;
      hide DataKept;
      hide OutsideKept;
      hide Spliced;
      hide Reason;
      r := Done;
      if fptr % SECTOR_SIZE == 0 {
        r, wcnt := WriteAtBoundary(data);
      } else {
        MidSector(fptr);
        StandingFacts(vol.g, chain, fptr / SECTOR_SIZE, currClust, currSect, sectClust);
        PlacedVolume();
        GrewNot(vol.Table(), chain);
        NoTrouble(vol.Table());
        wcnt := SECTOR_SIZE - fptr % SECTOR_SIZE;
        if wcnt > |data| {
          wcnt := |data|;
        }
        WriteBuffer(data[..wcnt]);
      }
    }

    method WriteAtBoundary(data: seq<byte>) returns (r: Outcome, wcnt: nat)
      requires Positioned() && 0 < |data| && fsize <= |Raw()| && fptr % SECTOR_SIZE == 0
      modifies `currClust, `sectClust, `orgClust, `chain, `dirty, `currSect, `buffer, `fptr
      modifies vol`win, vol`winsect, vol`winflag, vol`disk, vol`lastClust, vol`freeClust, vol`fsiFlag
      modifies vol.cache, vol.cache.slots
      ensures vol.Valid() && Reason(r, vol.Table())
      ensures (old(vol.ExactFree()) ==> vol.ExactFree()) && WindowOn(vol.g, old(vol.winsect), vol.winsect)
      ensures r != Done ==> chain == old(chain) && vol.Table() == old(vol.Table()) && fptr == SECTOR_SIZE * |Sects()|
      ensures r != Done ==> fptr == old(fptr) && DataKept(vol.g, old(vol.disk), vol.disk)
      ensures r == Full ==> Stuck() && Raw() == old(Raw())
      ensures r == Done ==> Positioned() && 0 < wcnt <= |data| && fptr == old(fptr) + wcnt
      ensures r == Done ==> Wrote(vol.g, old(Now()), Now(), fsize, old(fptr), data[..wcnt])
    {
      hide Volume.Valid;
      hide Placed;
      hide Raw;
      hide Image;
      hide SectorsOf;
      hide Standing;
      hide Grew;
      hide DataKept;
      hide Distinct;
      hide Reason;
      hide InData;
      hide CursorAt;
      hide CountFree;
      hide WindowOn;
      hide Wrote;
      ghost var was, start := Now(), fptr;
      StageBytes();
      wcnt := 0;
      r := NextForWrite();
      if r == Done {
        StepWrote(was, fsize, start);
        ghost var mid := Now();
        WroteFacts(vol.g, was, mid, fsize, start, []);
        wcnt := StoreAtBoundary(data);
        PlacedVolume();
        WroteTwice(vol.g, was, mid, Now(), fsize, start, [], data[..wcnt]);
        assert [] + data[..wcnt] == data[..wcnt];
      }
    }

    lemma StageBytes()
      requires Placed()
      ensures vol.g.sectsClust >= 1 && OnDisk(SectorsOf(vol.g, chain), Image())
      ensures Now().raw == Raw() == Bytes(SectorsOf(vol.g, chain), Image())
      ensures |Raw()| == SECTOR_SIZE * |Sects()|
    {
      hide Volume.Valid;
      hide IsChain;
      hide InData;
      hide SectorsOf;
      var ss := Sects();
      assert forall i :: 0 <= i < |ss| ==> ss[i] in vol.disk;
    }

    lemma StepWrote(was: Stage, size: nat, start: nat)
      requires Placed() && !dirty && Grew(was.table, vol.Table(), was.chain, chain)
      requires OnDisk(SectorsOf(vol.g, was.chain), was.image)
      requires was.raw == Bytes(SectorsOf(vol.g, was.chain), was.image)
      requires DataKept(vol.g, was.image, vol.disk) && size <= |was.raw| && start <= |was.raw|
      ensures Wrote(vol.g, was, Now(), size, start, [])
    {
      hide Volume.Valid;
      hide Placed;
      hide Raw;
      hide SectorsOf;
      hide DataKept;
      hide OutsideKept;
      hide Spliced;
      PlacedVolume();
      GrewPrefix(was.table, vol.Table(), was.chain, chain);
      StepKeepsBytes(was.chain, was.image, size, start);
    }

    /** The transfer at a sector boundary, once the cursor stands in the sector. */
    method StoreAtBoundary(data: seq<byte>) returns (wcnt: nat)
      requires Placed() && !dirty && 0 < |data| && fsize <= |Raw()| && fptr % SECTOR_SIZE == 0
      requires Standing(vol.g, chain, fptr / SECTOR_SIZE, currClust, currSect, sectClust)
      modifies `sectClust, `dirty, `currSect, `buffer, `fptr, vol`disk, vol.cache, vol.cache.slots
      ensures Positioned() && 0 < wcnt <= |data| && fptr == old(fptr) + wcnt && vol.Table() == old(vol.Table())
      ensures Wrote(vol.g, old(Now()), Now(), fsize, old(fptr), data[..wcnt])
    {
      hide Volume.Valid;
      hide IsChain;
      hide SectorsOf;
      hide Standing;
      hide OutsideKept;
      hide Grew;
      PlacedVolume();
      GrewNot(vol.Table(), chain);
      StandingFacts(vol.g, chain, fptr / SECTOR_SIZE, currClust, currSect, sectClust);
      var cc := |data| / SECTOR_SIZE;
      if cc != 0 {
        if cc > sectClust {
          cc := sectClust;
        }
        wcnt := cc * SECTOR_SIZE;
        WriteDirect(cc, data[..wcnt]);
      } else {
        if fptr < fsize {
          Load();
        }
        wcnt := |data|;
        WriteBuffer(data[..wcnt]);
      }
    }

    /** A dirty buffer is a sector of the file, so outside the file the disk is what it is. */
    lemma ImageOutside()
      requires Positioned()
      ensures OutsideKept(vol.g, Sects(), vol.disk, Image()) && OutsideKept(vol.g, Sects(), Image(), vol.disk)
    {
      hide Volume.Valid;
      hide IsChain;
    }

    /** The bytes that the file's clusters and all free clusters hold. */
    ghost function Room(): nat
      requires vol.Valid()
      reads this`chain, vol`win, vol`winsect, vol`winflag, vol`disk, vol.cache, vol.cache.slots
    {
      hide Volume.Valid;
      Capacity(vol.g, |chain| + CountFree(vol.Table()))
    }

    /** fatbase_write: the data replaces the bytes of the file from the position on, or extends it. It runs out of space
        exactly when the data does not fit in the clusters of the file and the free ones; it fills them with the first
        bytes of the data then, and leaves the counter of sectors at 0, where no other operation leaves it. */
    method Write(data: seq<byte>) returns (r: Outcome, bw: nat)
      requires Valid()
      modifies this
      modifies vol`win, vol`winsect, vol`winflag, vol`disk, vol`lastClust, vol`freeClust, vol`fsiFlag
      modifies vol.cache, vol.cache.slots
      ensures vol.Valid() && (r == Denied <==> !canWrite)
      ensures (old(vol.ExactFree()) ==> vol.ExactFree()) && WindowOn(vol.g, old(vol.winsect), vol.winsect)
      ensures r == Denied || old(fsize) + |data| >= 0x1_0000_0000 ==>
        (r == Denied || r == Done) && bw == 0 && fptr == old(fptr) && Valid() && Content() == old(Content())
      ensures written == (old(written) || ((r == Done || r == Full) && old(fsize) + |data| < 0x1_0000_0000))
      ensures r == Done && old(fsize) + |data| < 0x1_0000_0000 ==>
        bw == |data| && Valid() && fptr == old(fptr) + |data| &&
        Content() == Splice(old(Content()), old(fptr), data)
      ensures canWrite && old(fptr) + |data| <= |old(Raw())| ==> r == Done
      ensures r == Full ==> old(fptr) + |data| > old(Room()) == old(fptr) + bw && bw <= |data|
      ensures r == Full ==> Stuck() && fsize == fptr == |Raw()|
      ensures r == Full ==> Raw() == old(Content())[..old(fptr)] + data[..bw]
      ensures r == Done || r == Full ==> Stands(old(fptr), data[..bw])
      ensures r == Failed ==> !NoOnes(old(vol.Table()))
      ensures canWrite && old(fsize) + |data| < 0x1_0000_0000 && old(fptr) + |data| > old(Room()) ==>
        r == Full || r == Failed
      ensures Grew(old(vol.Table()), vol.Table(), old(chain), chain)
      ensures vol.g.sectsClust >= 1 && InData(vol.g, chain)
      ensures OutsideKept(vol.g, SectorsOf(vol.g, chain), old(vol.disk), vol.disk)
    {
      hide Volume.Valid;
      hide Placed;
      hide CursorAt;
      hide Raw;
      hide Image;
      hide Grew;
      hide OutsideKept;
      hide Spliced;
      hide CountFree;
      hide NoOnes;
      hide NoFree;
      hide InData;
      hide Capacity;
      hide WindowOn;
      hide Room;
      hide Stands;
      PieceStands(fptr, []);
      PlacedVolume();
      PlacedSize();
      GrewNot(vol.Table(), chain);
      WindowSame(vol.g, vol.winsect);
      OutsideSame(vol.g, Sects(), vol.disk);
      r, bw := if canWrite then Done else Denied, 0;
      if r == Done && fsize + |data| < 0x1_0000_0000 {
        r, bw := Store(data);
      }
    }

    /** fatbase_write once it may write. */
    method Store(data: seq<byte>) returns (r: Outcome, bw: nat)
      requires Valid()
      modifies this
      modifies vol`win, vol`winsect, vol`winflag, vol`disk, vol`lastClust, vol`freeClust, vol`fsiFlag
      modifies vol.cache, vol.cache.slots
      ensures vol.Valid() && r != Denied && bw <= |data| && written == (old(written) || r != Failed)
      ensures (old(vol.ExactFree()) ==> vol.ExactFree()) && WindowOn(vol.g, old(vol.winsect), vol.winsect)
      ensures r == Done ==>
        bw == |data| && Valid() && fptr == old(fptr) + |data| && Content() == Splice(old(Content()), old(fptr), data)
      ensures old(fptr) + |data| <= |old(Raw())| ==> r == Done
      ensures r == Full ==> old(fptr) + |data| > old(Room()) == old(fptr) + bw
      ensures r == Full ==> Stuck() && fsize == fptr == |Raw()|
      ensures r == Full ==> Raw() == old(Content())[..old(fptr)] + data[..bw]
      ensures r == Done || r == Full ==> Stands(old(fptr), data[..bw])
      ensures r == Failed ==> !NoOnes(old(vol.Table()))
      ensures old(fptr) + |data| > old(Room()) ==> r == Full || r == Failed
      ensures Grew(old(vol.Table()), vol.Table(), old(chain), chain)
      ensures vol.g.sectsClust >= 1 && InData(vol.g, chain) && OutsideKept(vol.g, Sects(), old(vol.disk), vol.disk)
    {
      hide Volume.Valid;
      hide Placed;
      hide CursorAt;
      hide Raw;
      hide Image;
      hide Grew;
      hide OutsideKept;
      hide Spliced;
      hide CountFree;
      hide NoOnes;
      hide NoFree;
      hide InData;
      hide Capacity;
      hide WindowOn;
      hide Room;
      hide Stands;
      hide Splice;
      hide Standing;
      hide SectorsOf;
      PlacedVolume();
      PlacedSize();
      RoomFits();
      ImageOutside();
      ghost var t, chain0, raw, start, image, disk0 := vol.Table(), chain, Raw(), fptr, Image(), vol.disk;
      r, bw := WriteLoop(data);
      RoomAfter(vol.g, t, vol.Table(), chain0, chain, r);
      OutsideTwice(vol.g, old(Sects()), Sects(), disk0, image, vol.disk);
      if r != Failed {
        PlacedSize();
        SplicedContent(raw, Raw(), old(fsize), start, data[..bw]);
        PieceStands(start, data[..bw]);
        assert r == Done ==> data[..bw] == data;
        UpdateSize();
      }
    }

    /** The size after a write. */
    method UpdateSize()
      modifies `fsize, `written
      ensures written && fsize == if fptr > old(fsize) then fptr else old(fsize)
      ensures old(Positioned()) && fsize <= |old(Raw())| ==> Valid() && Content() == old(Raw())[..fsize]
    {
      hide Placed;
      hide CursorAt;
      hide Raw;
      if fptr > fsize {
        fsize := fptr;
      }
      written := true;
    }

    /** The loop of fatbase_write. */
    method WriteLoop(data: seq<byte>) returns (r: Outcome, bw: nat)
      requires Positioned() && fptr <= fsize <= |Raw()|
      modifies `currClust, `sectClust, `orgClust, `chain, `dirty, `currSect, `buffer, `fptr
      modifies vol`win, vol`winsect, vol`winflag, vol`disk, vol`lastClust, vol`freeClust, vol`fsiFlag
      modifies vol.cache, vol.cache.slots
      ensures vol.Valid() && Reason(r, vol.Table()) && bw <= |data| && fptr == old(fptr) + bw
      ensures (old(vol.ExactFree()) ==> vol.ExactFree()) && WindowOn(vol.g, old(vol.winsect), vol.winsect)
      ensures r == Done ==> bw == |data| && Positioned()
      ensures r == Full ==> Stuck()
      ensures r == Done || r == Full ==> Spliced(old(Raw()), Raw(), fsize, old(fptr), data[..bw])
      ensures r != Done ==> bw < |data| && fptr == Capacity(vol.g, |chain|)
      ensures Grew(old(vol.Table()), vol.Table(), old(chain), chain) && vol.g.sectsClust >= 1 && old(Sects()) <= Sects()
      ensures InData(vol.g, chain) && OutsideKept(vol.g, Sects(), old(Image()), vol.disk)
    {
      hide Volume.Valid;
      hide Placed;
      hide CursorAt;
      hide Raw;
      hide Image;
      hide Grew;
      hide OutsideKept;
      hide Spliced;
      hide CountFree;
      hide Reason;
      hide DataKept;
      hide InData;
      hide Capacity;
      hide WindowOn;
      PlacedVolume();
      PlacedSize();
      WindowSame(vol.g, vol.winsect);
      NoTrouble(vol.Table());
      r, bw := Done, 0;
      ghost var was, start := Now(), fptr;
      WroteNothing(vol.g, was, fsize, start);
      while bw < |data|
        invariant bw <= |data| && fptr == start + bw && r == Done
        invariant Positioned() && vol.Valid() && fsize <= |Raw()| && Reason(r, vol.Table())
        invariant (old(vol.ExactFree()) ==> vol.ExactFree()) && WindowOn(vol.g, old(vol.winsect), vol.winsect)
        invariant Wrote(vol.g, was, Now(), fsize, start, data[..bw])
      {
        ghost var before, disk1, w1 := Now(), vol.disk, vol.winsect;
        ImageOutside();
        PlacedSize();
        var wcnt;
        r, wcnt := WriteStep(data[bw..]);
        WindowTwice(vol.g, old(vol.winsect), w1, vol.winsect);
        if r != Done {
          OutsideData(Sects(), disk1, vol.disk);
          OutsideTwice(vol.g, Sects(), Sects(), was.image, before.image, disk1);
          OutsideTwice(vol.g, Sects(), Sects(), was.image, disk1, vol.disk);
          return;
        }
        assert data[..bw] + data[bw..][..wcnt] == data[..bw + wcnt];
        WroteTwice(vol.g, was, before, Now(), fsize, start, data[..bw], data[bw..][..wcnt]);
        WroteFacts(vol.g, was, Now(), fsize, start, data[..bw + wcnt]);
        NoTrouble(vol.Table());
        bw := bw + wcnt;
      }
      PlacedSize();
      ImageOutside();
      OutsideTwice(vol.g, Sects(), Sects(), was.image, Image(), vol.disk);
    }

    /** fatbase_read: the bytes of the file from the position on, as many as asked for and there are. */
    method Read(n: nat) returns (ok: bool, data: seq<byte>)
      requires Valid()
      modifies `currClust, `sectClust, `dirty, `currSect, `buffer, `fptr
      modifies vol`win, vol`winsect, vol`winflag, vol`disk, vol.cache, vol.cache.slots
      ensures (ok <==> canRead) && Valid() && Content() == old(Content())
      ensures fptr == (if !ok then old(fptr) else if old(fptr) + n <= fsize then old(fptr) + n else fsize)
      ensures data == Content()[old(fptr)..fptr]
      ensures Stands(old(fptr), data)
      ensures Image() == old(Image()) && vol.Table() == old(vol.Table())
      ensures (!old(dirty) ==> !dirty) && WindowOn(vol.g, old(vol.winsect), vol.winsect)
    {
      hide Volume.Valid;
      hide Placed;
      hide CursorAt;
      hide Raw;
      hide Image;
      hide Stands;
      PlacedVolume();
      ok, data := canRead, [];
      PieceStands(fptr, []);
      if !ok {
        assert Content()[fptr..fptr] == [];
        return;
      }
      var remain := fsize - fptr;
      var btr: nat := n;
      if btr > remain {
        btr := remain;
      }
      ghost var raw, start, end := Raw(), fptr, fptr + btr;
      while btr > 0
        invariant Positioned() && Raw() == raw && fptr + btr == end <= |raw| && start <= fptr
        invariant Image() == old(Image()) && vol.Valid() && vol.Table() == old(vol.Table())
        invariant data == raw[start..fptr] && (!old(dirty) ==> !dirty) && WindowOn(vol.g, old(vol.winsect), vol.winsect)
        decreases btr
      {
        ghost var p := fptr;
        var piece := ReadStep(btr);
        SliceJoin(raw, start, p, fptr);
        assert piece == raw[p..fptr];
        data := data + piece;
        btr := btr - |piece|;
      }
      SliceOfPrefix(raw, start, fptr, fsize);
      PieceStands(start, data);
    }

    /** Write back the buffer if it is dirty. */
    method FlushBuffer()
      requires Positioned()
      modifies `dirty, `currSect, vol`disk, vol.cache, vol.cache.slots
      ensures Placed() && !dirty && currSect == old(currSect)
      ensures vol.disk == old(Image()) && vol.Table() == old(vol.Table())
    {
      hide Volume.Valid;
      hide IsChain;
      if dirty {
        MoveTo(currSect, (fptr - 1) / SECTOR_SIZE, (fptr - 1) / SECTOR_SIZE);
      }
    }

    /** The next cluster of a seek: a new one at the end of the chain in write mode, else only what there is. */
    method SeekNext(ghost k: nat) returns (clust: nat)
      requires Placed() && k < |chain| && currClust == chain[k] && (canWrite || k + 1 < |chain|)
      modifies `chain
      modifies vol`win, vol`winsect, vol`winflag, vol`disk, vol`lastClust, vol`freeClust, vol`fsiFlag
      modifies vol.cache, vol.cache.slots
      ensures vol.Valid() && Reason(Trouble(clust), vol.Table()) && DataKept(vol.g, old(vol.disk), vol.disk)
      ensures (old(vol.ExactFree()) ==> vol.ExactFree()) && WindowOn(vol.g, old(vol.winsect), vol.winsect)
      ensures clust < 2 ==> canWrite && k + 1 == |chain| && chain == old(chain) && vol.Table() == old(vol.Table())
      ensures Placed() && old(chain) <= chain && (clust >= 2 ==> k + 1 < |chain| && clust == chain[k + 1])
      ensures clust >= 2 ==> Grew(old(vol.Table()), vol.Table(), old(chain), chain)
    {
      hide Volume.Valid;
      hide Grew;
      hide DataKept;
      if canWrite {
        clust := Stretch(k);
      } else {
        PlacedVolume();
        GrewNot(vol.Table(), chain);
        DataSame(vol.g, vol.disk);
        clust := FollowChain(k);
      }
    }

    /** Skip the clusters before the one the position falls in; on a full disk stop at the last one, with no cluster in
        hand. */
    method SeekCluster(target: nat) returns (r: Outcome, clust: nat, ofs: nat, ghost k: nat)
      requires Placed() && !dirty && fptr == 0 && 0 < target
      requires 0 < |chain| && (canWrite || target <= SECTOR_SIZE * |Sects()|)
      modifies `fptr, `currClust, `chain
      modifies vol`win, vol`winsect, vol`winflag, vol`disk, vol`lastClust, vol`freeClust, vol`fsiFlag
      modifies vol.cache, vol.cache.slots
      ensures vol.Valid() && Reason(r, vol.Table()) && DataKept(vol.g, old(vol.disk), vol.disk)
      ensures (old(vol.ExactFree()) ==> vol.ExactFree()) && WindowOn(vol.g, old(vol.winsect), vol.winsect)
      ensures r != Done ==> canWrite && target > SECTOR_SIZE * |Sects()| && InData(vol.g, chain)
      ensures Placed() && k < |chain| && currClust == chain[k]
      ensures 0 < ofs && fptr == SECTOR_SIZE * (k * vol.g.sectsClust)
      ensures r == Done ==> clust == currClust && ofs <= vol.g.sectsClust * SECTOR_SIZE && fptr + ofs == target
      ensures r == Full ==> clust == 0 && ofs == vol.g.sectsClust * SECTOR_SIZE && k + 1 == |chain|
      ensures Grew(old(vol.Table()), vol.Table(), old(chain), chain)
    {
      hide Volume.Valid;
      hide IsChain;
      hide Grew;
      hide SectorsOf;
      hide DataKept;
      hide InData;
      hide Reason;
      hide WindowOn;
      hide CountFree;
      PlacedVolume();
      GrewNot(vol.Table(), chain);
      DataSame(vol.g, vol.disk);
      WindowSame(vol.g, vol.winsect);
      NoTrouble(vol.Table());
      ghost var t, chain0, disk0 := vol.Table(), chain, vol.disk;
      var csize := vol.g.sectsClust * SECTOR_SIZE;
      HeadOfChain();
      r, clust, ofs, k := Done, orgClust, target, 0;
      currClust := clust;
      while ofs > csize
        invariant Placed() && vol.Valid() && k < |chain| && currClust == chain[k] && Reason(r, vol.Table())
        invariant r == Done && clust == currClust
        invariant 0 < ofs && fptr == SECTOR_SIZE * (k * vol.g.sectsClust) && fptr + ofs == target && chain0 <= chain
        invariant Grew(t, vol.Table(), chain0, chain) && DataKept(vol.g, disk0, vol.disk)
        invariant (old(vol.ExactFree()) ==> vol.ExactFree()) && WindowOn(vol.g, old(vol.winsect), vol.winsect)
        decreases ofs
      {
        ghost var t1, chain1, disk1, w1 := vol.Table(), chain, vol.disk, vol.winsect;
        MoreClusters(vol.g.sectsClust, k, |chain0|, target);
        MoreClusters(vol.g.sectsClust, k, |chain|, target);
        PlacedSize();
        clust := SeekNext(k);
        WindowTwice(vol.g, old(vol.winsect), w1, vol.winsect);
        DataTwice(vol.g, disk0, disk1, vol.disk);
        if clust < 2 {
          r := Trouble(clust);
          if r == Full {
            ofs := csize;
          }
          return;
        }
        GrewTwice(t, t1, vol.Table(), chain0, chain1, chain);
        GrewPrefix(t, vol.Table(), chain0, chain);
        NoTrouble(vol.Table());
        currClust := clust;
        fptr := fptr + csize;
        ofs := ofs - csize;
        k := k + 1;
      }
    }

    /** At the end of the last cluster without a cluster behind it: the sector is not the last one of the file, which
        does no harm, since no sector is left in the cluster and the buffer is clean. */
    ghost predicate Clipped()
      reads this`orgClust, this`chain, this`dirty, this`fptr, this`currClust, this`sectClust
      reads vol`win, vol`winsect, vol`winflag, vol`disk, vol.cache, vol.cache.slots
    {
      Placed() && !dirty && fptr == SECTOR_SIZE * |Sects()| && sectClust == 1 &&
      (fptr > 0 ==> 0 < |chain| && currClust == chain[|chain| - 1])
    }

    /** The end of a seek: the sector in cluster k, loaded unless the position is at its end. */
    method SeekSector(clust: nat, ofs: nat, ghost k: nat)
      requires Placed() && !dirty && k < |chain| && currClust == chain[k]
      requires 0 < ofs <= vol.g.sectsClust * SECTOR_SIZE && fptr == SECTOR_SIZE * (k * vol.g.sectsClust)
      requires clust == currClust || (clust == 0 && ofs == vol.g.sectsClust * SECTOR_SIZE && k + 1 == |chain|)
      modifies `fptr, `currSect, `sectClust, `buffer, vol.cache, vol.cache.slots
      ensures !dirty && fptr == old(fptr) + ofs && if clust == currClust then Positioned() else Clipped()
    {
      hide Volume.Valid;
      hide Placed;
      hide Positioned;
      hide IsChain;
      hide SectorsOf;
      hide Standing;
      hide CursorAt;
      SeekStands(vol.g, chain, k, ofs);
      ClusterEnd(vol.g.sectsClust, k);
      PlacedVolume();
      PlacedSize();
      var csect := (ofs - 1) / SECTOR_SIZE;
      ghost var i := k * vol.g.sectsClust + csect;
      currSect := vol.g.ClustToSect(clust) + csect;
      sectClust := vol.g.sectsClust - csect;
      StandingFacts(vol.g, chain, i, currClust, currSect, sectClust);
      if ofs % SECTOR_SIZE != 0 {
        LoadSector(i);
      }
      fptr := fptr + ofs;
      if clust == currClust {
        Sought(i);
      }
    }

    lemma Sought(i: nat)
      requires Placed() && !dirty && fptr > 0 && i == (fptr - 1) / SECTOR_SIZE && fptr <= SECTOR_SIZE * |Sects()|
      requires Standing(vol.g, chain, i, currClust, currSect, sectClust)
      requires fptr % SECTOR_SIZE != 0 ==> currSect in vol.disk && buffer == vol.disk[currSect]
      ensures Positioned()
    {
      hide Volume.Valid;
      hide Placed;
    }

    /** fatbase_lseek: move the position, in write mode beyond the end of the file as well. It runs out of space exactly
        when the position lies beyond the clusters of the file and the free ones; the file then takes all of them, and
        the position is at their end. */
    method Lseek(ofs: nat) returns (r: Outcome)
      requires Valid()
      modifies this
      modifies vol`win, vol`winsect, vol`winflag, vol`disk, vol`lastClust, vol`freeClust, vol`fsiFlag
      modifies vol.cache, vol.cache.slots
      ensures vol.Valid() && r != Denied
      ensures (old(vol.ExactFree()) ==> vol.ExactFree()) && WindowOn(vol.g, old(vol.winsect), vol.winsect)
      ensures ofs <= |old(Raw())| || !canWrite ==> r == Done
      ensures r == Full ==> ofs > old(Room()) == fptr == fsize
      ensures r == Full ==> Clipped() && |Raw()| == fsize >= old(fsize) && Raw()[..old(fsize)] == old(Content())
      ensures r == Failed ==> !NoOnes(old(vol.Table()))
      ensures canWrite && ofs > old(Room()) ==> r == Full || r == Failed
      ensures r == Done ==> Valid() && fptr == (if canWrite || ofs <= old(fsize) then ofs else old(fsize))
      ensures r == Done ==> fsize == (if fptr > old(fsize) then fptr else old(fsize))
      ensures written == (old(written) || fsize > old(fsize))
      ensures r == Done ==> Content()[..old(fsize)] == old(Content())
      ensures Grew(old(vol.Table()), vol.Table(), old(chain), chain)
      ensures vol.g.sectsClust >= 1 && InData(vol.g, chain)
      ensures OutsideKept(vol.g, SectorsOf(vol.g, chain), old(vol.disk), vol.disk)
      ensures r == Done ==> !dirty && (!old(dirty) ==> DataKept(vol.g, old(vol.disk), vol.disk))
    {
      hide Volume.Valid;
      hide Placed;
      hide CursorAt;
      hide Raw;
      hide Image;
      hide Grew;
      hide DataKept;
      hide OutsideKept;
      hide CountFree;
      hide NoOnes;
      hide NoFree;
      hide InData;
      hide Capacity;
      hide WindowOn;
      PlacedVolume();
      PlacedSize();
      RoomFits();
      ghost var t, chain0, size := vol.Table(), chain, fsize;
      var target := ofs;
      if ofs > fsize && !canWrite {
        target := fsize;
      }
      r := FlushAndSeek(target);
      RoomAfter(vol.g, t, vol.Table(), chain0, chain, r);
      if r == Done || r == Full {
        PlacedSize();
        if canWrite && fptr > fsize {
          fsize := fptr;
          written := true;
        }
        assert Raw()[..fsize][..size] == Raw()[..size];
      }
    }

    /** Write back the buffer and go to a position: the bytes of the file and of others stay. */
    method FlushAndSeek(target: nat) returns (r: Outcome)
      requires Positioned() && fsize <= |Raw()| && (canWrite || target <= SECTOR_SIZE * |Sects()|)
      modifies `fptr, `currSect, `currClust, `sectClust, `buffer, `orgClust, `chain, `dirty
      modifies vol`win, vol`winsect, vol`winflag, vol`disk, vol`lastClust, vol`freeClust, vol`fsiFlag
      modifies vol.cache, vol.cache.slots
      ensures vol.Valid() && Reason(r, vol.Table())
      ensures (old(vol.ExactFree()) ==> vol.ExactFree()) && WindowOn(vol.g, old(vol.winsect), vol.winsect)
      ensures r != Done ==> target > Capacity(vol.g, |chain|)
      ensures r == Done ==> Positioned() && !dirty && fptr == target
      ensures r == Full ==> canWrite && Clipped()
      ensures r == Done || r == Full ==> fsize <= |Raw()| && Raw()[..fsize] == old(Raw()[..fsize])
      ensures Grew(old(vol.Table()), vol.Table(), old(chain), chain) && vol.g.sectsClust >= 1 && InData(vol.g, chain)
      ensures OutsideKept(vol.g, Sects(), old(vol.disk), vol.disk)
      ensures !old(dirty) ==> DataKept(vol.g, old(vol.disk), vol.disk)
    {
      hide Volume.Valid;
      hide IsChain;
      hide SectorsOf;
      hide Grew;
      hide DataKept;
      hide OutsideKept;
      hide CursorAt;
      hide Spliced;
      hide CountFree;
      hide Reason;
      hide InData;
      hide Capacity;
      hide WindowOn;
      SectsDistinct();
      ImageOutside();
      PlacedSize();
      ghost var t, chain0, raw, image, disk0 := vol.Table(), chain, Raw(), Image(), vol.disk;
      FlushBuffer();
      r := SeekTo(target);
      GrewPrefix(t, vol.Table(), chain0, chain);
      SectsPrefix(chain0);
      SizeOf(vol.g, chain);
      OutsideData(Sects(), image, vol.disk);
      OutsideTwice(vol.g, SectorsOf(vol.g, chain0), Sects(), disk0, image, vol.disk);
      if r == Done || r == Full {
        PlacedSize();
        StepKeepsBytes(chain0, image, fsize, 0);
        SplicedPrefix(raw, Raw(), fsize);
      }
    }

    /** Rewind, then go to a position, in the chain or with the chain growing to reach it. */
    method SeekTo(target: nat) returns (r: Outcome)
      requires Placed() && !dirty && (canWrite || target <= SECTOR_SIZE * |Sects()|)
      modifies `fptr, `currSect, `currClust, `sectClust, `buffer, `orgClust, `chain
      modifies vol`win, vol`winsect, vol`winflag, vol`disk, vol`lastClust, vol`freeClust, vol`fsiFlag
      modifies vol.cache, vol.cache.slots
      ensures vol.Valid() && Reason(r, vol.Table()) && DataKept(vol.g, old(vol.disk), vol.disk)
      ensures (old(vol.ExactFree()) ==> vol.ExactFree()) && WindowOn(vol.g, old(vol.winsect), vol.winsect)
      ensures r != Done ==> target > SECTOR_SIZE * |Sects()| && InData(vol.g, chain)
      ensures r == Done ==> Positioned() && !dirty && fptr == target
      ensures r == Full ==> canWrite && Clipped()
      ensures Grew(old(vol.Table()), vol.Table(), old(chain), chain)
    {
      hide Volume.Valid;
      hide Placed;
      hide Positioned;
      hide Clipped;
      hide SectorsOf;
      hide Grew;
      hide DataKept;
      hide InData;
      hide Reason;
      hide WindowOn;
      hide CountFree;
      PlacedVolume();
      GrewNot(vol.Table(), chain);
      DataSame(vol.g, vol.disk);
      WindowSame(vol.g, vol.winsect);
      NoTrouble(vol.Table());
      ghost var t, chain0, disk0, w0 := vol.Table(), chain, vol.disk, vol.winsect;
      fptr := 0;
      sectClust := 1;
      r := Done;
      AtStart();
      if target != 0 {
        var clust := FirstForWrite();
        if clust < 2 {
          SectorsNone(vol.g);
          if clust == 0 {
            AtStart();
          }
          return Trouble(clust);
        }
        ghost var t1, chain1, disk1, w1 := vol.Table(), chain, vol.disk, vol.winsect;
        GrewPrefix(t, t1, chain0, chain1);
        SectsGrown(chain0);
        r := SeekAlong(target);
        GrewTwice(t, t1, vol.Table(), chain0, chain1, chain);
        DataTwice(vol.g, disk0, disk1, vol.disk);
        WindowTwice(vol.g, w0, w1, vol.winsect);
      }
    }

    lemma AtStart()
      requires Placed() && !dirty && fptr == 0 && sectClust == 1
      ensures Positioned() && InData(vol.g, chain) && (chain == [] ==> Clipped())
    {
      hide Volume.Valid;
    }

    /** From the first cluster on to a position. */
    method SeekAlong(target: nat) returns (r: Outcome)
      requires Placed() && !dirty && fptr == 0 && 0 < target
      requires 0 < |chain| && (canWrite || target <= SECTOR_SIZE * |Sects()|)
      modifies `fptr, `currSect, `currClust, `sectClust, `buffer, `chain
      modifies vol`win, vol`winsect, vol`winflag, vol`disk, vol`lastClust, vol`freeClust, vol`fsiFlag
      modifies vol.cache, vol.cache.slots
      ensures vol.Valid() && Reason(r, vol.Table()) && DataKept(vol.g, old(vol.disk), vol.disk)
      ensures (old(vol.ExactFree()) ==> vol.ExactFree()) && WindowOn(vol.g, old(vol.winsect), vol.winsect)
      ensures r != Done ==> canWrite && target > SECTOR_SIZE * |Sects()| && InData(vol.g, chain)
      ensures r == Done ==> Positioned() && !dirty && fptr == target
      ensures r == Full ==> Clipped()
      ensures Grew(old(vol.Table()), vol.Table(), old(chain), chain)
    {
      hide Volume.Valid;
      hide Placed;
      hide CursorAt;
      hide SectorsOf;
      hide Grew;
      hide DataKept;
      hide InData;
      hide Reason;
      hide WindowOn;
      hide CountFree;
      PlacedVolume();
      var clust, ofs: nat;
      ghost var k: nat;
      r, clust, ofs, k := SeekCluster(target);
      if r == Done || r == Full {
        NotNone(k);
        SeekSector(clust, ofs, k);
        PlacedVolume();
      }
    }

    lemma NotNone(k: nat)
      requires Placed() && k < |chain|
      ensures chain[k] != 0
    {
      hide Volume.Valid;
    }

    /** Remove the whole chain of a file cut down to nothing. */
    method RemoveAll()
      requires Placed() && !dirty && fptr == 0 && sectClust == 1
      modifies `orgClust, `chain
      modifies vol`win, vol`winsect, vol`winflag, vol`disk, vol`freeClust, vol`fsiFlag
      modifies vol.cache, vol.cache.slots
      ensures Positioned() && chain == []
      ensures Shrunk(old(vol.Table()), vol.Table(), old(chain), chain) && DataKept(vol.g, old(vol.disk), vol.disk)
      ensures (old(vol.ExactFree()) ==> vol.ExactFree()) && WindowOn(vol.g, old(vol.winsect), vol.winsect)
    {
      hide Volume.Valid;
      hide DataKept;
      hide InData;
      hide CountFree;
      PlacedVolume();
      vol.FreeBound();
      ghost var t := vol.Table();
      ShrunkNot(t, chain);
      DataSame(vol.g, vol.disk);
      if chain == [] {
        RemovedAtEnd(t, orgClust);
        MeetsOneStep(t, orgClust);
      } else {
        RemovedChain(t, chain);
        StepsCount(t, chain[0]);
        ShrunkZeroed(t, chain);
      }
      var removed := vol.RemoveChain(orgClust);
      assert removed;
      vol.FreeBound();
      orgClust := 0;
      chain := [];
      ChainPlaced();
    }

    /** Remove the clusters behind the current one. */
    method RemoveTail(ghost k: nat)
      requires Placed() && k < |chain| && currClust == chain[k]
      modifies `chain
      modifies vol`win, vol`winsect, vol`winflag, vol`disk, vol`freeClust, vol`fsiFlag
      modifies vol.cache, vol.cache.slots
      ensures Placed() && chain == old(chain)[..k + 1]
      ensures Shrunk(old(vol.Table()), vol.Table(), old(chain), chain) && DataKept(vol.g, old(vol.disk), vol.disk)
      ensures (old(vol.ExactFree()) ==> vol.ExactFree()) && WindowOn(vol.g, old(vol.winsect), vol.winsect)
    {
      hide Volume.Valid;
      hide DataKept;
      hide InData;
      hide CountFree;
      hide IsChain;
      hide Removed;
      hide Shrunk;
      hide MeetsFree;
      hide MeetsOne;
      hide Steps;
      hide SectorsOf;
      hide Zeroed;
      PlacedVolume();
      vol.EocFits();
      vol.FreeBound();
      ghost var t, disk0, chain0 := vol.Table(), vol.disk, chain;
      ShrunkNot(t, chain);
      DataSame(vol.g, vol.disk);
      ChainAt(t, chain, k);
      var ncl := vol.GetCluster(currClust);
      assert ncl >= 2;
      if ncl < vol.g.maxClust {
        ChainTruncate(t, chain, k + 1, Eoc(vol.g));
        CountFreeUpdate(t, currClust, Eoc(vol.g));
        StepsCount(t[currClust := Eoc(vol.g)], ncl);
        ShrunkTail(t, chain, k + 1, Eoc(vol.g));
        CutTail(ncl);
      } else {
        assert chain[..k + 1] == chain && vol.Table() == t;
      }
      chain := chain[..k + 1];
      assert Shrunk(t, vol.Table(), chain0, chain) && DataKept(vol.g, disk0, vol.disk);
      ChainPlacedFat();
    }

    /** Make the current cluster the last one and free the chain from ncl on. */
    method CutTail(ncl: nat)
      requires vol.Valid() && IsCluster(vol.Table(), currClust) && vol.Table()[currClust] != 0
      requires !MeetsFree(vol.Table()[currClust := Eoc(vol.g)], ncl)
      requires !MeetsOne(vol.Table()[currClust := Eoc(vol.g)], ncl)
      modifies vol`win, vol`winsect, vol`winflag, vol`disk, vol`freeClust, vol`fsiFlag
      modifies vol.cache, vol.cache.slots
      ensures vol.Valid() && vol.g.InFat(vol.winsect) && DataKept(vol.g, old(vol.disk), vol.disk)
      ensures vol.Table() == Removed(old(vol.Table())[currClust := Eoc(vol.g)], ncl)
      ensures old(vol.ExactFree()) ==> vol.ExactFree()
    {
      hide Volume.Valid;
      hide DataKept;
      hide CountFree;
      hide Removed;
      hide Steps;
      hide MeetsFree;
      hide MeetsOne;
      vol.EocFits();
      ghost var t, disk0 := vol.Table(), vol.disk;
      CountFreeUpdate(t, currClust, Eoc(vol.g));
      vol.PutCluster(currClust, 0x0FFF_FFFF);
      ghost var disk1 := vol.disk;
      vol.FreeBound();
      StepsCount(vol.Table(), ncl);
      var removed := vol.RemoveChain(ncl);
      assert removed;
      vol.FreeBound();
      DataTwice(vol.g, disk0, disk1, vol.disk);
    }

    /** The chain has no cluster more than that many bytes need. */
    ghost predicate Fits(size: nat)
      reads this`chain
    {
      if size == 0 then chain == []
      else 0 < |chain| && Capacity(vol.g, |chain| - 1) < size <= Capacity(vol.g, |chain|)
    }

    lemma FitsCut(i: nat)
      requires Placed() && 0 < fptr <= |Raw()| && i == (fptr - 1) / SECTOR_SIZE && |chain| == i / vol.g.sectsClust + 1
      ensures Fits(fptr)
    {
      hide Volume.Valid;
      hide IsChain;
      PlacedSize();
      var k, d := i / vol.g.sectsClust, vol.g.sectsClust;
      assert i == k * d + i % d;
      assert SECTOR_SIZE * i < fptr;
    }

    /** Cut the chain behind the cluster the cursor stands in. */
    method CutHere()
      requires Positioned() && fptr > 0
      modifies `chain
      modifies vol`win, vol`winsect, vol`winflag, vol`disk, vol`freeClust, vol`fsiFlag
      modifies vol.cache, vol.cache.slots
      ensures Positioned() && fptr <= |Raw()| && Raw()[..fptr] == old(Raw()[..fptr]) && chain <= old(chain)
      ensures Fits(fptr)
      ensures Shrunk(old(vol.Table()), vol.Table(), old(chain), chain) && DataKept(vol.g, old(vol.disk), vol.disk)
      ensures (old(vol.ExactFree()) ==> vol.ExactFree()) && WindowOn(vol.g, old(vol.winsect), vol.winsect)
    {
      hide Volume.Valid;
      hide IsChain;
      hide DataKept;
      hide Shrunk;
      hide SectorsOf;
      hide Standing;
      SectsDistinct();
      vol.DataVisible();
      ghost var chain0, disk0, i := chain, vol.disk, (fptr - 1) / SECTOR_SIZE;
      ghost var k := i / vol.g.sectsClust;
      StandingFacts(vol.g, chain, i, currClust, currSect, sectClust);
      StandingCut(vol.g, chain, i, currClust, currSect, sectClust);
      RemoveTail(k);
      SectsDistinct();
      StandingFacts(vol.g, chain, i, currClust, currSect, sectClust);
      ImageData(vol.g, SectorsOf(vol.g, chain0), disk0, vol.disk, dirty, currSect, buffer);
      CutKeepsBytes(vol.g, chain0, k + 1, if dirty then disk0[currSect := buffer] else disk0, Image(), fptr);
      FitsCut(i);
    }

    /** fatbase_truncate: cut the file at the position. */
    method Truncate() returns (ok: bool)
      requires Valid()
      modifies `fsize, `written, `orgClust, `chain
      modifies vol`win, vol`winsect, vol`winflag, vol`disk, vol`freeClust, vol`fsiFlag
      modifies vol.cache, vol.cache.slots
      ensures (ok <==> canWrite) && Valid() && fptr == old(fptr) && chain <= old(chain)
      ensures Content() == if ok then old(Content())[..fptr] else old(Content())
      ensures written == (old(written) || (canWrite && fptr < old(fsize)))
      ensures if canWrite && fptr < old(fsize) then Fits(fptr) else chain == old(chain)
      ensures Shrunk(old(vol.Table()), vol.Table(), old(chain), chain) && DataKept(vol.g, old(vol.disk), vol.disk)
      ensures (old(vol.ExactFree()) ==> vol.ExactFree()) && WindowOn(vol.g, old(vol.winsect), vol.winsect)
    {
      hide Volume.Valid;
      hide IsChain;
      hide DataKept;
      hide Shrunk;
      hide SectorsOf;
      PlacedVolume();
      ShrunkNot(vol.Table(), chain);
      DataSame(vol.g, vol.disk);
      ok := canWrite;
      if ok && fsize > fptr {
        fsize := fptr;
        written := true;
        if fptr == 0 {
          RemoveAll();
        } else {
          CutHere();
        }
      }
    }

    /** The file's sectors hold whole clusters. */
    lemma PlacedSize()
      requires Placed()
      ensures InData(vol.g, chain) && |Raw()| == SECTOR_SIZE * |Sects()| == Capacity(vol.g, |chain|)
    {
      hide Volume.Valid;
      hide IsChain;
    }

    lemma RoomFits()
      requires Placed()
      ensures Capacity(vol.g, |chain|) <= Room() == Capacity(vol.g, |chain| + CountFree(vol.Table()))
    {
      hide Volume.Valid;
      hide IsChain;
      CapacityMore(vol.g, |chain|, |chain| + CountFree(vol.Table()));
    }

    /** A change confined to the FAT keeps the data area. */
    lemma OutsideData(ss: seq<nat>, disk: Disk, disk': Disk)
      requires vol.Valid() && DataKept(vol.g, disk, disk')
      ensures OutsideKept(vol.g, ss, disk, disk')
    {
      hide Volume.Valid;
      vol.DataVisible();
    }

    lemma SectsPrefix(chain0: seq<nat>)
      requires 1 <= vol.g.sectsClust && chain0 <= chain
      ensures SectorsOf(vol.g, chain0) <= Sects()
    {
      assert chain == chain0 + chain[|chain0|..];
      SectorsGrow(vol.g, chain0, chain[|chain0|..]);
    }

    lemma SectsGrown(chain0: seq<nat>)
      requires 1 <= vol.g.sectsClust && chain0 <= chain
      ensures |SectorsOf(vol.g, chain0)| <= |Sects()|
    {
      assert chain == chain0 + chain[|chain0|..];
      SectorsGrow(vol.g, chain0, chain[|chain0|..]);
    }

    lemma HeadOfChain()
      requires Placed() && 0 < |chain|
      ensures orgClust == chain[0]
    {
    }
  }

  /** What a file remembers of its position. */
  datatype Cursor = Cursor(fptr: nat, left: nat, clust: nat, sect: nat, buffer: Sector)

  /** The position in a chain determines cluster, sector and the sectors left in the cluster, in any longer chain,
      too. */
  lemma OneStanding(g: Geometry, chain: seq<nat>, chain': seq<nat>, i: nat, clust: nat, sect: nat, left: nat,
                    clust': nat, sect': nat, left': nat)
    requires Standing(g, chain, i, clust, sect, left) && Standing(g, chain', i, clust', sect', left') && chain <= chain'
    ensures clust' == clust && sect' == sect && left' == left
  {
    StandingPrefix(g, chain, chain'[|chain|..], i, clust, sect, left);
    assert chain + chain'[|chain|..] == chain';
  }

  /** Rewinding and reading up to a position, and then seeking to it, leaves the same cursor twice, full disk or not:
      the cluster and sector once it has left the start, and the buffer in the middle of a sector. */
  method SeekLikeReading(f: File, ofs: nat) returns (read: Cursor, sought: Cursor)
    requires f.Valid() && f.canRead && ofs <= f.fsize
    modifies f
    modifies f.vol`win, f.vol`winsect, f.vol`winflag, f.vol`disk, f.vol`lastClust, f.vol`freeClust, f.vol`fsiFlag
    modifies f.vol.cache, f.vol.cache.slots
    ensures f.Valid() && sought == Cursor(f.fptr, f.sectClust, f.currClust, f.currSect, f.buffer)
    ensures sought.fptr == read.fptr == ofs && sought.left == read.left
    ensures ofs > 0 ==> sought.clust == read.clust && sought.sect == read.sect
    ensures ofs % SECTOR_SIZE != 0 ==> sought.buffer == read.buffer
  {
    hide Volume.Valid;
    hide Standing;
    hide SectorsOf;
    hide Grew;
    hide OutsideKept;
    hide IsChain;
    hide InData;
    hide File.Raw;
    hide File.Image;
    hide File.Positioned;
    hide File.Placed;
    hide File.Valid;
    hide File.Content;
    hide File.Room;
    hide NoOnes;
    hide WindowOn;
    ValidVolume(f);
    ghost var t, chain0 := f.vol.Table(), f.chain;
    var rewound := f.Lseek(0);
    GrewPrefix(t, f.vol.Table(), chain0, f.chain);
    var ok, data := f.Read(ofs);
    ValidVolume(f);
    CursorFacts(f);
    read := Cursor(f.fptr, f.sectClust, f.currClust, f.currSect, f.buffer);
    ghost var t1, chain1, left, clust, sect := f.vol.Table(), f.chain, f.sectClust, f.currClust, f.currSect;
    var moved := f.Lseek(ofs);
    GrewPrefix(t1, f.vol.Table(), chain1, f.chain);
    CursorFacts(f);
    sought := Cursor(f.fptr, f.sectClust, f.currClust, f.currSect, f.buffer);
    if ofs > 0 {
      OneStanding(f.vol.g, chain1, f.chain, (ofs - 1) / SECTOR_SIZE, clust, sect, left, f.currClust, f.currSect,
                  f.sectClust);
    }
  }

  lemma ValidVolume(f: File)
    requires f.Valid()
    ensures f.vol.Valid() && f.Placed() && f.fsize <= |f.Raw()|
  {
  }

  lemma CursorFacts(f: File)
    requires f.Valid()
    ensures CursorAt(f.vol.g, f.chain, f.fptr, f.currClust, f.currSect, f.sectClust)
    ensures f.fptr % SECTOR_SIZE != 0 && !f.dirty ==> f.currSect in f.vol.disk && f.buffer == f.vol.disk[f.currSect]
    ensures f.fptr % SECTOR_SIZE != 0 && !f.dirty ==> !f.vol.g.InFat(f.currSect)
  {
    hide Volume.Valid;
    hide IsChain;
    hide InData;
    hide SectorsOf;
    f.vol.DataVisible();
    if f.fptr > 0 {
      StandingFacts(f.vol.g, f.chain, (f.fptr - 1) / SECTOR_SIZE, f.currClust, f.currSect, f.sectClust);
    }
  }

  /** Reading n contiguous sectors gives the bytes of the file there. */
  lemma BytesOfRun(ss: seq<nat>, disk: Disk, i: nat, n: nat, s: nat, data: seq<byte>)
    requires OnDisk(ss, disk) && Contiguous(ss, i, n, s) && |data| == SECTOR_SIZE * n
    requires forall t :: s <= t < s + n ==> t in disk && disk[t] == Chunk(data, t - s)
    ensures SECTOR_SIZE * (i + n) <= SECTOR_SIZE * |ss|
    ensures data == Bytes(ss, disk)[SECTOR_SIZE * i..SECTOR_SIZE * (i + n)]
  {
    hide Bytes;
    var run := Bytes(ss, disk)[SECTOR_SIZE * i..SECTOR_SIZE * (i + n)];
    forall b | 0 <= b < |data|
      ensures data[b] == run[b]
    {
      var m, o := b / SECTOR_SIZE, b % SECTOR_SIZE;
      assert ss[i + m] == s + m && disk[s + m] == Chunk(data, m);
      ByteOfSector(ss, disk, i + m, o);
      ByteOfChunk(data, n, b);
    }
  }

  lemma ByteOfChunk(data: seq<byte>, n: nat, b: nat)
    requires |data| == SECTOR_SIZE * n && b < |data|
    ensures b / SECTOR_SIZE < n && data[b] == Chunk(data, b / SECTOR_SIZE)[b % SECTOR_SIZE]
  {
  }

  /** A piece of a buffer holding sector i is a piece of the file. */
  lemma BytesOfBuffer(ss: seq<nat>, disk: Disk, i: nat, o: nat, n: nat)
    requires OnDisk(ss, disk) && i < |ss| && o + n <= SECTOR_SIZE
    ensures SECTOR_SIZE * i + o + n <= SECTOR_SIZE * |ss|
    ensures disk[ss[i]][o..o + n] == Bytes(ss, disk)[SECTOR_SIZE * i + o..SECTOR_SIZE * i + o + n]
  {
    ByteOfSector(ss, disk, i, SECTOR_SIZE - 1);
    var x, y := disk[ss[i]][o..o + n], Bytes(ss, disk)[SECTOR_SIZE * i + o..SECTOR_SIZE * i + o + n];
    forall b | 0 <= b < n
      ensures x[b] == y[b]
    {
      ByteOfSector(ss, disk, i, o + b);
    }
  }

  /** The rest of a cluster is contiguous. */
  lemma RunFits(g: Geometry, chain: seq<nat>, i: nat, n: nat)
    requires 1 <= g.sectsClust && i < |SectorsOf(g, chain)| && 1 <= n <= g.sectsClust - i % g.sectsClust
    ensures Contiguous(SectorsOf(g, chain), i, n, SectorsOf(g, chain)[i])
  {
    SectorsContiguous(g, chain, i, n - 1);
    var ss := SectorsOf(g, chain);
    forall j | i <= j < i + n
      ensures ss[j] == ss[i] + (j - i)
    {
      SectorsContiguous(g, chain, i, j - i);
    }
  }

  lemma RunHits(ss: seq<nat>, i: nat, n: nat, s: nat, w: nat)
    requires Contiguous(ss, i, n, s)
    ensures s <= w < s + n ==> exists j :: 0 <= j < |ss| && ss[j] == w
  {
    if s <= w < s + n {
      assert ss[i + (w - s)] == w;
    }
  }

  /** After n sectors of a cluster the cursor stands in the last of them. */
  lemma LastOfRun(g: Geometry, chain: seq<nat>, i: nat, n: nat, currClust: nat, currSect: nat, sectClust: nat)
    requires Standing(g, chain, i, currClust, currSect, sectClust) && 1 <= n <= sectClust
    ensures CursorAt(g, chain, SECTOR_SIZE * (i + n), currClust, currSect + (n - 1), sectClust - (n - 1))
    ensures SECTOR_SIZE * (i + n) <= SECTOR_SIZE * |SectorsOf(g, chain)| && SECTOR_SIZE * (i + n) % SECTOR_SIZE == 0
  {
    hide SectorsOf;
    SectorsContiguous(g, chain, i, n - 1);
    SeekArithmetic(i + n - 1, SECTOR_SIZE);
  }

  lemma SameSector(i: nat, o: nat, n: nat)
    requires 0 < n && o + n <= SECTOR_SIZE
    ensures (SECTOR_SIZE * i + o + n - 1) / SECTOR_SIZE == i
  {
  }

  lemma MidSector(fptr: nat)
    ensures fptr % SECTOR_SIZE != 0 ==> fptr > 0 && (fptr - 1) / SECTOR_SIZE == fptr / SECTOR_SIZE
  {
  }

  lemma Boundary(fptr: nat)
    requires fptr % SECTOR_SIZE == 0
    ensures fptr > 0 ==> (fptr - 1) / SECTOR_SIZE == fptr / SECTOR_SIZE - 1
    ensures fptr == SECTOR_SIZE * (fptr / SECTOR_SIZE)
  {
  }

  /** Sector i of a file lies in cluster k of its chain. */
  ghost predicate IsIndex(g: Geometry, i: nat, k: nat) {
    1 <= g.sectsClust && k == i / g.sectsClust
  }

  lemma WhereStands(g: Geometry, chain: seq<nat>, i: nat, currClust: nat, currSect: nat, sectClust: nat)
    returns (k: nat)
    requires Standing(g, chain, i, currClust, currSect, sectClust)
    ensures IsIndex(g, i, k) && k < |chain| && currClust == chain[k]
  {
    hide SectorsOf;
    k := i / g.sectsClust;
  }

  lemma StandingFacts(g: Geometry, chain: seq<nat>, i: nat, currClust: nat, currSect: nat, sectClust: nat)
    ensures Standing(g, chain, i, currClust, currSect, sectClust) ==>
      1 <= g.sectsClust && i < |SectorsOf(g, chain)| && i / g.sectsClust < |chain| &&
      currClust == chain[i / g.sectsClust] && currSect == SectorsOf(g, chain)[i] && 1 <= sectClust <= g.sectsClust
  {
  }

  // ---- growing a chain ----

  /** From t to u a file went from one chain to another: it only took free clusters, each once, and the entries of
      clusters in use outside it are as before. */
  ghost predicate Grew(t: Table, u: Table, chain: seq<nat>, chain': seq<nat>) {
    |u| == |t| && (NoOnes(t) ==> NoOnes(u)) && chain <= chain' && |chain'| + CountFree(u) == |chain| + CountFree(t) &&
    (forall c: nat :: c < |t| && t[c] != 0 && c !in chain ==> u[c] == t[c]) &&
    (forall c: nat :: c in chain' ==> c in chain || (c < |t| && t[c] == 0))
  }

  /** The bytes of n clusters. */
  function Capacity(g: Geometry, n: nat): nat {
    SECTOR_SIZE * (n * g.sectsClust)
  }

  lemma SizeOf(g: Geometry, chain: seq<nat>)
    requires 1 <= g.sectsClust
    ensures SECTOR_SIZE * |SectorsOf(g, chain)| == Capacity(g, |chain|)
  {
  }

  lemma CapacityMore(g: Geometry, m: nat, n: nat)
    requires m <= n
    ensures Capacity(g, m) <= Capacity(g, n)
  {
    assert n * g.sectsClust == m * g.sectsClust + (n - m) * g.sectsClust;
  }

  /** A chain that grew has at most the room there was, and all of it when no cluster is free any more. */
  lemma RoomAfter(g: Geometry, t: Table, u: Table, chain: seq<nat>, chain': seq<nat>, r: Outcome)
    requires Grew(t, u, chain, chain')
    ensures Capacity(g, |chain|) <= Capacity(g, |chain'|) <= Capacity(g, |chain| + CountFree(t))
    ensures NoFree(u) ==> Capacity(g, |chain'|) == Capacity(g, |chain| + CountFree(t))
    ensures NoOnes(t) ==> NoOnes(u)
  {
    hide Capacity;
    hide CountFree;
    NoFreeCount(u);
    CapacityMore(g, |chain|, |chain'|);
    CapacityMore(g, |chain'|, |chain| + CountFree(t));
  }

  lemma NoTrouble(t: Table)
    ensures Reason(Done, t)
  {
  }

  lemma WindowSame(g: Geometry, w: nat)
    ensures WindowOn(g, w, w)
  {
  }

  lemma WindowTwice(g: Geometry, a: nat, b: nat, c: nat)
    requires WindowOn(g, a, b) && WindowOn(g, b, c)
    ensures WindowOn(g, a, c)
  {
  }

  lemma SectorsNone(g: Geometry)
    requires 1 <= g.sectsClust
    ensures |SectorsOf(g, [])| == 0
  {
  }

  /** Sector i is the last one of the last cluster of the chain, and the cursor stands in it. */
  ghost predicate LastSector(g: Geometry, chain: seq<nat>, i: nat, k: nat, clust: nat, sect: nat) {
    Standing(g, chain, i, clust, sect, 1) && IsIndex(g, i, k) && k + 1 == |chain|
  }

  /** A cursor at the end of the last cluster is at the end of the chain. */
  lemma EndOfChain(g: Geometry, chain: seq<nat>, fptr: nat, was: nat, k: nat, clust: nat, sect: nat)
    requires 1 <= g.sectsClust && fptr % SECTOR_SIZE == 0
    requires if fptr == 0 then chain == []
      else was + 1 == fptr / SECTOR_SIZE && LastSector(g, chain, was, k, clust, sect)
    ensures fptr == SECTOR_SIZE * |SectorsOf(g, chain)|
  {
    if fptr > 0 {
      var d := g.sectsClust;
      assert was == k * d + was % d;
      assert (k + 1) * d == k * d + d;
      Boundary(fptr);
    }
  }

  lemma GrewTwice(t: Table, u: Table, v: Table, chain: seq<nat>, chain': seq<nat>, chain'': seq<nat>)
    requires Grew(t, u, chain, chain') && Grew(u, v, chain', chain'')
    ensures Grew(t, v, chain, chain'')
  {
    forall c: nat | c in chain''
      ensures c in chain || (c < |t| && t[c] == 0)
    {
      if c !in chain && c !in chain' {
        assert u[c] == 0;
      }
    }
  }

  /** Sectors of the data area outside the file hold what they held. */
  ghost predicate OutsideKept(g: Geometry, ss: seq<nat>, disk: Disk, disk': Disk) {
    disk'.Keys == disk.Keys && forall s :: s in disk && g.database <= s && s !in ss ==> disk'[s] == disk[s]
  }

  lemma OutsideTwice(g: Geometry, ss: seq<nat>, ss': seq<nat>, a: Disk, b: Disk, c: Disk)
    requires OutsideKept(g, ss, a, b) && OutsideKept(g, ss', b, c) && ss <= ss'
    ensures OutsideKept(g, ss', a, c)
  {
    assert forall s :: s !in ss' ==> s !in ss;
  }

  lemma OutsideSector(g: Geometry, ss: seq<nat>, disk: Disk, i: nat, data: Sector)
    requires OnDisk(ss, disk) && i < |ss|
    ensures OutsideKept(g, ss, disk, disk[ss[i] := data])
  {
  }

  lemma OutsideRun(g: Geometry, ss: seq<nat>, disk: Disk, disk': Disk, i: nat, n: nat, s: nat, data: seq<byte>)
    requires |data| == SECTOR_SIZE * n && DiskWritten(disk, disk', s, n, data) && Contiguous(ss, i, n, s)
    ensures OutsideKept(g, ss, disk, disk')
  {
    forall t | t in disk && t !in ss
      ensures disk'[t] == disk[t]
    {
      RunHits(ss, i, n, s, t);
    }
  }

  lemma OutsideSame(g: Geometry, ss: seq<nat>, disk: Disk)
    ensures OutsideKept(g, ss, disk, disk)
  {
  }

  /** From t to u a file went from one chain to another without touching the entries of others or taking their
      clusters. */
  ghost predicate Apart(t: Table, u: Table, chain: seq<nat>, chain': seq<nat>) {
    |u| == |t| &&
    (forall c: nat :: c < |t| && t[c] != 0 && c !in chain ==> u[c] == t[c]) &&
    (forall c: nat :: c in chain' ==> c in chain || (c < |t| && t[c] == 0))
  }

  lemma GrewApart(t: Table, u: Table, chain: seq<nat>, chain': seq<nat>)
    requires Grew(t, u, chain, chain')
    ensures Apart(t, u, chain, chain')
  {
    hide CountFree;
  }

  lemma ShrunkApart(t: Table, u: Table, chain: seq<nat>, chain': seq<nat>)
    requires Shrunk(t, u, chain, chain')
    ensures Apart(t, u, chain, chain')
  {
  }

  /** A file on another chain keeps its chain, stays apart from the one that changed, and keeps every byte. */
  lemma OtherFileKept(g: Geometry, t: Table, u: Table, chain: seq<nat>, chain': seq<nat>, other: seq<nat>, disk: Disk,
                      disk': Disk)
    requires Apart(t, u, chain, chain') && IsChain(t, other) && Disjoint(chain, other) && |t| == g.maxClust
    requires 1 <= g.sectsClust && g.DataEnd(g.maxClust) <= g.total && InData(g, chain')
    requires OutsideKept(g, SectorsOf(g, chain'), disk, disk') && OnDisk(SectorsOf(g, other), disk)
    ensures IsChain(u, other) && Disjoint(chain', other)
    ensures SameOn(SectorsOf(g, other), disk, disk')
    ensures OnDisk(SectorsOf(g, other), disk') && Bytes(SectorsOf(g, other), disk') == Bytes(SectorsOf(g, other), disk)
  {
    ChainInUse(t, other);
    forall i | 0 <= i < |other|
      ensures other[i] !in chain && other[i] !in chain'
    {
      assert t[other[i]] != 0;
    }
    ChainKept(t, u, other);
    var ss := SectorsOf(g, other);
    forall i | 0 <= i < |ss|
      ensures ss[i] in disk' && disk'[ss[i]] == disk[ss[i]]
    {
      SectorsInData(g, other, i);
      forall j | 0 <= j < |SectorsOf(g, chain')|
        ensures SectorsOf(g, chain')[j] != ss[i]
      {
        SectorsDisjoint(g, chain', other, j, i);
      }
    }
    BytesFrame(ss, disk, disk');
  }

  /** What an open file holds besides the volume. */
  datatype Handle = Handle(dirty: bool, fptr: nat, fsize: nat, orgClust: nat, currClust: nat, currSect: nat,
                           sectClust: nat, buffer: Sector, chain: seq<nat>)

  ghost function HandleOf(h: File): (k: Handle)
    reads h
    ensures k.chain == h.chain
  {
    Handle(h.dirty, h.fptr, h.fsize, h.orgClust, h.currClust, h.currSect, h.sectClust, h.buffer, h.chain)
  }

  /** The file's sectors as it shows them, with its dirty buffer. */
  ghost function Shown(k: Handle, disk: Disk): Disk {
    if k.dirty then disk[k.currSect := k.buffer] else disk
  }

  /** The handle is that of a sound open file on a volume with this table, disk and window. */
  ghost predicate HandleOn(g: Geometry, k: Handle, t: Table, disk: Disk, w: nat) {
    1 <= g.sectsClust && (if k.orgClust == 0 then k.chain == [] else IsChain(t, k.chain) && k.chain[0] == k.orgClust) &&
    InData(g, k.chain) && (forall i, j :: 0 <= i < j < |k.chain| ==> k.chain[i] != k.chain[j]) &&
    SectorsSeen(g, SectorsOf(g, k.chain), disk, w) &&
    k.fptr <= k.fsize <= SECTOR_SIZE * |SectorsOf(g, k.chain)| &&
    CursorAt(g, k.chain, k.fptr, k.currClust, k.currSect, k.sectClust) && (k.dirty ==> k.fptr > 0) &&
    (k.fptr % SECTOR_SIZE != 0 && !k.dirty ==> k.currSect in disk && k.buffer == disk[k.currSect])
  }

  /** All sectors lie in the data area and none is in the window. */
  ghost predicate SectorsSeen(g: Geometry, ss: seq<nat>, disk: Disk, w: nat) {
    forall i :: 0 <= i < |ss| ==> g.database <= ss[i] < g.total && ss[i] in disk && ss[i] != w
  }

  lemma HandleStands(h: File)
    requires h.Valid()
    ensures h.vol.Valid() && HandleOn(h.vol.g, HandleOf(h), h.vol.Table(), h.vol.disk, h.vol.winsect)
    ensures h.vol.g.sectsClust >= 1 && InData(h.vol.g, h.chain)
    ensures OnDisk(SectorsOf(h.vol.g, h.chain), Shown(HandleOf(h), h.vol.disk))
    ensures h.fsize <= SECTOR_SIZE * |SectorsOf(h.vol.g, h.chain)|
    ensures h.Content() == Bytes(SectorsOf(h.vol.g, h.chain), Shown(HandleOf(h), h.vol.disk))[..h.fsize]
  {
    hide Volume.Valid;
    hide IsChain;
    hide InData;
    hide SectorsOf;
    hide Standing;
  }

  lemma HandleOpen(h: File)
    requires h.vol.Valid() && HandleOn(h.vol.g, HandleOf(h), h.vol.Table(), h.vol.disk, h.vol.winsect)
    ensures h.Valid()
    ensures OnDisk(SectorsOf(h.vol.g, h.chain), Shown(HandleOf(h), h.vol.disk))
    ensures h.fsize <= SECTOR_SIZE * |SectorsOf(h.vol.g, h.chain)|
    ensures h.Content() == Bytes(SectorsOf(h.vol.g, h.chain), Shown(HandleOf(h), h.vol.disk))[..h.fsize]
  {
    hide Volume.Valid;
    hide IsChain;
    hide InData;
    hide SectorsOf;
    hide Standing;
  }

  /** Another open file on a disjoint chain, with its position and a dirty buffer of its own, is what it was. */
  lemma HandleKept(vol: Volume, k: Handle, t: Table, disk: Disk, w: nat, chain: seq<nat>, chain': seq<nat>)
    requires vol.Valid() && HandleOn(vol.g, k, t, disk, w) && Disjoint(chain, k.chain) && |t| == vol.g.maxClust
    requires Apart(t, vol.Table(), chain, chain') && InData(vol.g, chain') && WindowOn(vol.g, w, vol.winsect)
    requires OutsideKept(vol.g, SectorsOf(vol.g, chain'), disk, vol.disk)
    ensures HandleOn(vol.g, k, vol.Table(), vol.disk, vol.winsect) && Disjoint(chain', k.chain)
    ensures var ss := SectorsOf(vol.g, k.chain);
      OnDisk(ss, Shown(k, disk)) && OnDisk(ss, Shown(k, vol.disk)) &&
      Bytes(ss, Shown(k, vol.disk)) == Bytes(ss, Shown(k, disk))
  {
    hide Volume.Valid;
    hide SectorsOf;
    hide Apart;
    hide InData;
    hide IsChain;
    hide Standing;
    hide OutsideKept;
    var g, ss := vol.g, SectorsOf(vol.g, k.chain);
    vol.DataVisible();
    if k.orgClust == 0 {
      SectorsNone(g);
    } else {
      assert IsChain(t, k.chain);
      OtherFileKept(g, t, vol.Table(), chain, chain', k.chain, disk, vol.disk);
    }
    assert SectorsSeen(g, ss, vol.disk, vol.winsect);
    if k.fptr > 0 {
      StandingFacts(g, k.chain, (k.fptr - 1) / SECTOR_SIZE, k.currClust, k.currSect, k.sectClust);
    }
    BytesFrame(ss, Shown(k, disk), Shown(k, vol.disk));
  }

  /** Writing to one file leaves another one alone, also when the disk runs full. */
  method WriteBeside(f: File, h: File, data: seq<byte>) returns (r: Outcome, bw: nat)
    requires f.Valid() && h.Valid() && f != h && f.vol == h.vol && Disjoint(f.chain, h.chain)
    modifies f
    modifies f.vol`win, f.vol`winsect, f.vol`winflag, f.vol`disk, f.vol`lastClust, f.vol`freeClust, f.vol`fsiFlag
    modifies f.vol.cache, f.vol.cache.slots
    ensures h.Valid() && h.Content() == old(h.Content()) && Disjoint(f.chain, h.chain)
  {
    hide *;
    HandleStands(h);
    ghost var k, t, disk, w, chain := HandleOf(h), f.vol.Table(), f.vol.disk, f.vol.winsect, f.chain;
    r, bw := f.Write(data);
    GrewApart(t, f.vol.Table(), chain, f.chain);
    HandleKept(f.vol, k, t, disk, w, chain, f.chain);
    HandleOpen(h);
  }

  /** Seeking in one file leaves another one alone. */
  method LseekBeside(f: File, h: File, ofs: nat) returns (r: Outcome)
    requires f.Valid() && h.Valid() && f != h && f.vol == h.vol && Disjoint(f.chain, h.chain)
    modifies f
    modifies f.vol`win, f.vol`winsect, f.vol`winflag, f.vol`disk, f.vol`lastClust, f.vol`freeClust, f.vol`fsiFlag
    modifies f.vol.cache, f.vol.cache.slots
    ensures h.Valid() && h.Content() == old(h.Content()) && Disjoint(f.chain, h.chain)
  {
    hide *;
    HandleStands(h);
    ghost var k, t, disk, w, chain := HandleOf(h), f.vol.Table(), f.vol.disk, f.vol.winsect, f.chain;
    r := f.Lseek(ofs);
    GrewApart(t, f.vol.Table(), chain, f.chain);
    HandleKept(f.vol, k, t, disk, w, chain, f.chain);
    HandleOpen(h);
  }

  /** Truncating one file leaves another one alone. */
  method TruncateBeside(f: File, h: File) returns (ok: bool)
    requires f.Valid() && h.Valid() && f != h && f.vol == h.vol && Disjoint(f.chain, h.chain)
    modifies f
    modifies f.vol`win, f.vol`winsect, f.vol`winflag, f.vol`disk, f.vol`lastClust, f.vol`freeClust, f.vol`fsiFlag
    modifies f.vol.cache, f.vol.cache.slots
    ensures h.Valid() && h.Content() == old(h.Content()) && Disjoint(f.chain, h.chain)
  {
    hide *;
    HandleStands(h);
    ghost var k, t, disk, w, chain := HandleOf(h), f.vol.Table(), f.vol.disk, f.vol.winsect, f.chain;
    ok := f.Truncate();
    HandleStands(f);
    ShrunkApart(t, f.vol.Table(), chain, f.chain);
    f.OutsideData(SectorsOf(f.vol.g, f.chain), disk, f.vol.disk);
    HandleKept(f.vol, k, t, disk, w, chain, f.chain);
    HandleOpen(h);
  }

  /** Reading one file, which may write back its buffer, leaves another one alone. */
  method ReadBeside(f: File, h: File, n: nat) returns (ok: bool, data: seq<byte>)
    requires f.Valid() && h.Valid() && f != h && f.vol == h.vol && Disjoint(f.chain, h.chain)
    modifies f
    modifies f.vol`win, f.vol`winsect, f.vol`winflag, f.vol`disk, f.vol`lastClust, f.vol`freeClust, f.vol`fsiFlag
    modifies f.vol.cache, f.vol.cache.slots
    ensures h.Valid() && h.Content() == old(h.Content()) && Disjoint(f.chain, h.chain)
  {
    hide *;
    HandleStands(h);
    ghost var k, t, disk, w, chain := HandleOf(h), f.vol.Table(), f.vol.disk, f.vol.winsect, f.chain;
    ReadOutside(f);
    ghost var image := f.Image();
    ok, data := f.Read(n);
    ReadOutside(f);
    OutsideTwice(f.vol.g, SectorsOf(f.vol.g, f.chain), SectorsOf(f.vol.g, f.chain), disk, image, f.vol.disk);
    SameApart(t, f.chain);
    HandleKept(f.vol, k, t, disk, w, chain, f.chain);
    HandleOpen(h);
  }

  lemma ReadOutside(f: File)
    requires f.Valid()
    ensures f.vol.Valid() && InData(f.vol.g, f.chain) && f.vol.g.sectsClust >= 1
    ensures OutsideKept(f.vol.g, SectorsOf(f.vol.g, f.chain), f.vol.disk, f.Image())
    ensures OutsideKept(f.vol.g, SectorsOf(f.vol.g, f.chain), f.Image(), f.vol.disk)
  {
    hide Volume.Valid;
    f.ImageOutside();
  }

  lemma SameApart(t: Table, chain: seq<nat>)
    ensures Apart(t, t, chain, chain)
  {
  }

  lemma DataTwice(g: Geometry, a: Disk, b: Disk, c: Disk)
    requires DataKept(g, a, b) && DataKept(g, b, c)
    ensures DataKept(g, a, c)
  {
  }

  /** A position beyond cluster k lies in a later one, if it lies in the chain. */
  lemma MoreClusters(d: nat, k: nat, n: nat, target: nat)
    requires 0 < d && target > SECTOR_SIZE * (k * d) + d * SECTOR_SIZE
    ensures SECTOR_SIZE * (k * d) + d * SECTOR_SIZE == SECTOR_SIZE * ((k + 1) * d)
    ensures target <= SECTOR_SIZE * (n * d) ==> k + 1 < n
  {
    assert (k + 1) * d == k * d + d;
    if k + 1 >= n && target <= SECTOR_SIZE * (n * d) {
      if k + 1 > n {
        MulGap(n, k + 1, d);
      }
      assert false;
    }
  }

  lemma ClusterEnd(d: nat, k: nat)
    requires 0 < d
    ensures SECTOR_SIZE * (k * d) + d * SECTOR_SIZE == SECTOR_SIZE * ((k + 1) * d)
    ensures (d * SECTOR_SIZE - 1) / SECTOR_SIZE == d - 1 && d * SECTOR_SIZE % SECTOR_SIZE == 0
  {
    assert (k + 1) * d == k * d + d;
  }

  /** The cursor that a seek computes for a position in cluster k. */
  lemma SeekStands(g: Geometry, chain: seq<nat>, k: nat, ofs: nat)
    requires 1 <= g.sectsClust && k < |chain| && 0 < ofs <= g.sectsClust * SECTOR_SIZE
    ensures var csect := (ofs - 1) / SECTOR_SIZE;
      var i := k * g.sectsClust + csect;
      var fptr := SECTOR_SIZE * (k * g.sectsClust) + ofs;
      csect < g.sectsClust && (fptr - 1) / SECTOR_SIZE == i && fptr % SECTOR_SIZE == ofs % SECTOR_SIZE &&
      Standing(g, chain, i, chain[k], g.ClustToSect(chain[k]) + csect, g.sectsClust - csect) &&
      fptr <= SECTOR_SIZE * |SectorsOf(g, chain)|
  {
    var d, csect := g.sectsClust, (ofs - 1) / SECTOR_SIZE;
    var i := k * d + csect;
    MulGap(k, |chain|, d);
    DivUnique(i, d, k, csect);
    SeekArithmetic(k * d, ofs);
  }

  lemma SeekArithmetic(s: nat, ofs: nat)
    requires 0 < ofs
    ensures (SECTOR_SIZE * s + ofs - 1) / SECTOR_SIZE == s + (ofs - 1) / SECTOR_SIZE
    ensures (SECTOR_SIZE * s + ofs) % SECTOR_SIZE == ofs % SECTOR_SIZE
  {
  }

  /** From t to u only clusters of the chain changed. */
  ghost predicate Shrunk(t: Table, u: Table, chain: seq<nat>, chain': seq<nat>) {
    |u| == |t| && (NoOnes(t) ==> NoOnes(u)) && (forall c: nat :: c < |t| && c !in chain ==> u[c] == t[c]) &&
    chain' <= chain && |chain'| + CountFree(u) == |chain| + CountFree(t) &&
    (forall i :: |chain'| <= i < |chain| ==> chain[i] < |u| && u[chain[i]] == 0)
  }

  lemma ShrunkNot(t: Table, chain: seq<nat>)
    ensures Shrunk(t, t, chain, chain)
  {
  }

  lemma ShrunkZeroed(t: Table, chain: seq<nat>)
    requires forall i :: 0 <= i < |chain| ==> chain[i] < |t|
    requires CountFree(Zeroed(t, chain)) == CountFree(t) + |chain|
    ensures Shrunk(t, Zeroed(t, chain), chain, [])
  {
  }

  lemma ChainAt(t: Table, chain: seq<nat>, k: nat)
    requires IsChain(t, chain) && k < |chain|
    ensures IsCluster(t, chain[k]) && t[chain[k]] >= 2
    ensures if k + 1 < |chain| then t[chain[k]] == chain[k + 1] < |t| else t[chain[k]] >= |t|
  {
    ChainInUse(t, chain);
    assert k + 1 < |chain| ==> IsCluster(t, chain[k + 1]);
  }

  lemma ShrunkTail(t: Table, chain: seq<nat>, k: nat, eoc: nat)
    requires IsChain(t, chain) && 0 < k < |chain| && eoc > 1
    requires CountFree(Zeroed(t[chain[k - 1] := eoc], chain[k..])) == CountFree(t) + |chain| - k
    ensures Shrunk(t, Zeroed(t[chain[k - 1] := eoc], chain[k..]), chain, chain[..k])
  {
    hide CountFree;
    var u := Zeroed(t[chain[k - 1] := eoc], chain[k..]);
    forall c: nat | c < |t| && c !in chain
      ensures u[c] == t[c]
    {
      assert c !in chain[k..];
    }
    forall i | k <= i < |chain|
      ensures u[chain[i]] == 0
    {
      assert chain[i] == chain[k..][i - k];
    }
  }

  /** The cursor stands in the part of the chain up to its cluster. */
  lemma StandingCut(g: Geometry, chain: seq<nat>, i: nat, currClust: nat, currSect: nat, sectClust: nat)
    requires Standing(g, chain, i, currClust, currSect, sectClust)
    ensures Standing(g, chain[..i / g.sectsClust + 1], i, currClust, currSect, sectClust)
    ensures currClust == chain[i / g.sectsClust]
  {
    var k, d := i / g.sectsClust, g.sectsClust;
    DivBelow(i, |chain|, d);
    assert (k + 1) * d == k * d + d;
    assert chain[..k + 1] + chain[k + 1..] == chain;
    SectorsPrefix(g, chain[..k + 1], chain[k + 1..], i);
  }

  ghost predicate SameOn(ss: seq<nat>, disk: Disk, disk': Disk) {
    forall i :: 0 <= i < |ss| ==> ss[i] in disk && ss[i] in disk' && disk'[ss[i]] == disk[ss[i]]
  }

  lemma ShownKept(g: Geometry, disk: Disk, disk': Disk, dirty: bool, c: nat, b: Sector)
    requires DataKept(g, disk, disk')
    ensures DataKept(g, if dirty then disk[c := b] else disk, if dirty then disk'[c := b] else disk')
  {
  }

  /** A change confined to the FAT leaves the file's sectors, buffered or not. */
  lemma ImageData(g: Geometry, ss: seq<nat>, disk: Disk, disk': Disk, dirty: bool, c: nat, b: Sector)
    requires DataKept(g, disk, disk') && OnDisk(ss, disk) && forall i :: 0 <= i < |ss| ==> !g.InFat(ss[i])
    ensures SameOn(ss, if dirty then disk[c := b] else disk, if dirty then disk'[c := b] else disk')
  {
  }

  /** Cutting the chain keeps the bytes of the part that stays. */
  lemma CutKeepsBytes(g: Geometry, chain: seq<nat>, k: nat, disk: Disk, disk': Disk, n: nat)
    requires 1 <= g.sectsClust && k <= |chain| && OnDisk(SectorsOf(g, chain), disk)
    requires OnDisk(SectorsOf(g, chain[..k]), disk')
    requires SameOn(SectorsOf(g, chain), disk, disk')
    requires n <= SECTOR_SIZE * |SectorsOf(g, chain[..k])|
    ensures |SectorsOf(g, chain[..k])| <= |SectorsOf(g, chain)|
    ensures Bytes(SectorsOf(g, chain[..k]), disk')[..n] == Bytes(SectorsOf(g, chain), disk)[..n]
  {
    hide SectorsOf;
    assert chain[..k] + chain[k..] == chain;
    SectorsGrow(g, chain[..k], chain[k..]);
    var ss, cut := SectorsOf(g, chain), SectorsOf(g, chain[..k]);
    forall b | 0 <= b < n
      ensures Bytes(cut, disk')[b] == Bytes(ss, disk)[b]
    {
      assert cut[b / SECTOR_SIZE] == ss[b / SECTOR_SIZE];
    }
  }

  lemma GrewPrefix(t: Table, u: Table, chain: seq<nat>, chain': seq<nat>)
    requires Grew(t, u, chain, chain')
    ensures chain <= chain' && |u| == |t| && (NoOnes(t) ==> NoOnes(u))
  {
  }

  lemma GrewNot(t: Table, chain: seq<nat>)
    ensures Grew(t, t, chain, chain)
  {
  }

  /** create_chain on cluster k of a chain: the next cluster, or a free one linked behind the last. */
  lemma StretchResult(t: Table, u: Table, chain: seq<nat>, k: nat, r: nat, eoc: nat)
    requires IsChain(t, chain) && k < |chain| && eoc >= |t| && Created(t, u, chain[k], r, eoc)
    ensures k + 1 < |chain| ==> r == chain[k + 1] >= 2 && u == t
    ensures k + 1 == |chain| && r < 2 ==> Reason(Trouble(r), t) && u == t
    ensures k + 1 == |chain| && r >= 2 ==> IsCluster(t, r) && IsChain(u, chain + [r]) && Grew(t, u, chain, chain + [r])
  {
    hide CountFree;
    ChainAt(t, chain, k);
    if k + 1 < |chain| {
      assert t[chain[k]] == chain[k + 1] && IsCluster(t, chain[k + 1]);
    } else if r >= 2 {
      ChainStretch(t, chain, r, eoc);
      CountFreeUpdate(t, r, eoc);
      CountFreeUpdate(t[r := eoc], chain[k], r);
    }
  }

  /** create_chain for an empty file. */
  lemma CreateResult(t: Table, u: Table, r: nat, eoc: nat)
    requires eoc >= |t| && eoc > 1 && Created(t, u, 0, r, eoc)
    ensures r < 2 ==> Reason(Trouble(r), t) && u == t
    ensures r >= 2 ==> IsCluster(t, r) && IsChain(u, [r]) && Grew(t, u, [], [r])
  {
    hide CountFree;
    if r >= 2 {
      ChainCreate(t, r, eoc);
      CountFreeUpdate(t, r, eoc);
    }
  }

  lemma StandAtHead(g: Geometry, chain: seq<nat>)
    requires 1 <= g.sectsClust && 0 < |chain|
    ensures Standing(g, chain, 0, chain[0], g.ClustToSect(chain[0]), g.sectsClust)
  {
    MulGap(0, |chain|, g.sectsClust);
    DivUnique(0, g.sectsClust, 0, 0);
  }

  lemma StandNext(g: Geometry, chain0: seq<nat>, chain: seq<nat>, was: nat, cl: nat, sect: nat, sc: nat)
    requires 1 <= g.sectsClust && chain0 <= chain && Standing(g, chain0, was, cl, sect, sc) && sc == 1
    requires was / g.sectsClust + 1 < |chain|
    ensures var c := chain[was / g.sectsClust + 1]; Standing(g, chain, was + 1, c, g.ClustToSect(c), g.sectsClust)
    ensures was < |SectorsOf(g, chain)| && sect == SectorsOf(g, chain)[was]
  {
    var d := g.sectsClust;
    assert chain == chain0 + chain[|chain0|..];
    StandingPrefix(g, chain0, chain[|chain0|..], was, cl, sect, sc);
    DivNext(was, d);
    NextFits(was, d, |chain|);
  }

  lemma NextFits(i: nat, d: nat, n: nat)
    requires 0 < d && i / d + 1 < n && i % d + 1 == d
    ensures i + 1 < n * d
  {
    var k := i / d;
    assert i == k * d + i % d;
    assert (k + 1) * d == k * d + d;
    MulGap(k + 1, n, d);
  }

  lemma StandingPrefix(g: Geometry, chain: seq<nat>, more: seq<nat>, i: nat, currClust: nat, currSect: nat,
                       sectClust: nat)
    requires Standing(g, chain, i, currClust, currSect, sectClust)
    ensures Standing(g, chain + more, i, currClust, currSect, sectClust)
  {
    SectorsPrefix(g, chain, more, i);
  }

  lemma SliceOfPrefix(s: seq<byte>, a: nat, b: nat, n: nat)
    requires a <= b <= n <= |s|
    ensures s[..n][a..b] == s[a..b]
  {
  }

  lemma SliceJoin(s: seq<byte>, a: nat, b: nat, c: nat)
    requires a <= b <= c <= |s|
    ensures s[a..b] + s[b..c] == s[a..c]
  {
  }

  // ---- overwriting bytes ----

  /** The data stands at start; the bytes before it, and those behind it and below size, are as before. */
  ghost predicate Spliced(before: seq<byte>, after: seq<byte>, size: nat, start: nat, data: seq<byte>) {
    size <= |before| <= |after| && start <= |before| && start + |data| <= |after| &&
    (forall b :: start <= b < start + |data| ==> after[b] == data[b - start]) &&
    (forall b :: 0 <= b < start ==> after[b] == before[b]) &&
    (forall b :: start + |data| <= b < size ==> after[b] == before[b])
  }

  /** Replace the bytes from p on by d. */
  function Splice(s: seq<byte>, p: nat, d: seq<byte>): seq<byte>
    requires p <= |s|
  {
    s[..p] + d + if p + |d| < |s| then s[p + |d|..] else []
  }

  lemma SplicedContent(before: seq<byte>, after: seq<byte>, size: nat, start: nat, data: seq<byte>)
    requires Spliced(before, after, size, start, data) && start <= size
    ensures start + |data| <= |after|
    ensures var end := start + |data|; after[..if end > size then end else size] == Splice(before[..size], start, data)
    ensures start + |data| == |after| ==> after == before[..size][..start] + data
    ensures after[start..start + |data|] == data
  {
  }

  lemma SplicedPrefix(before: seq<byte>, after: seq<byte>, size: nat)
    requires Spliced(before, after, size, 0, [])
    ensures size <= |after| && after[..size] == before[..size]
  {
  }

  /** Two writes, the second where the first ended, are one. */
  lemma SplicedTwice(a: seq<byte>, b: seq<byte>, c: seq<byte>, size: nat, start: nat, data: seq<byte>, more: seq<byte>)
    requires Spliced(a, b, size, start, data) && Spliced(b, c, size, start + |data|, more)
    ensures Spliced(a, c, size, start, data + more)
  {
  }

  /** A longer list of sectors holding the same data begins with the same bytes. */
  lemma SplicedNothing(ss: seq<nat>, ss': seq<nat>, disk: Disk, disk': Disk, size: nat, start: nat)
    requires OnDisk(ss, disk) && OnDisk(ss', disk') && ss <= ss' && size <= SECTOR_SIZE * |ss|
    requires start <= SECTOR_SIZE * |ss|
    requires forall i :: 0 <= i < |ss| ==> disk'[ss[i]] == disk[ss[i]]
    ensures Spliced(Bytes(ss, disk), Bytes(ss', disk'), size, start, [])
  {
    var before, after := Bytes(ss, disk), Bytes(ss', disk');
    forall b | 0 <= b < |before|
      ensures after[b] == before[b]
    {
      assert ss'[b / SECTOR_SIZE] == ss[b / SECTOR_SIZE];
    }
  }

  /** Writing a run of sectors. */
  lemma SplicedRun(ss: seq<nat>, disk: Disk, disk': Disk, i: nat, n: nat, s: nat, data: seq<byte>)
    requires OnDisk(ss, disk) && OnDisk(ss, disk') && Distinct(ss) && Contiguous(ss, i, n, s)
    requires |data| == SECTOR_SIZE * n && DiskWritten(disk, disk', s, n, data)
    ensures Spliced(Bytes(ss, disk), Bytes(ss, disk'), SECTOR_SIZE * |ss|, SECTOR_SIZE * i, data)
  {
    var before, after := Bytes(ss, disk), Bytes(ss, disk');
    forall b | 0 <= b < SECTOR_SIZE * |ss|
      ensures after[b] ==
        if SECTOR_SIZE * i <= b < SECTOR_SIZE * i + |data| then data[b - SECTOR_SIZE * i] else before[b]
    {
      RunByte(ss, disk, disk', i, n, s, data, b);
    }
  }

  lemma RunByte(ss: seq<nat>, disk: Disk, disk': Disk, i: nat, n: nat, s: nat, data: seq<byte>, b: nat)
    requires OnDisk(ss, disk) && OnDisk(ss, disk') && Distinct(ss) && Contiguous(ss, i, n, s)
    requires |data| == SECTOR_SIZE * n && DiskWritten(disk, disk', s, n, data) && b < SECTOR_SIZE * |ss|
    ensures Bytes(ss, disk')[b] ==
      if SECTOR_SIZE * i <= b < SECTOR_SIZE * i + |data| then data[b - SECTOR_SIZE * i] else Bytes(ss, disk)[b]
  {
    var j, o := b / SECTOR_SIZE, b % SECTOR_SIZE;
    InRun(ss, i, n, s, j);
    assert SECTOR_SIZE * i <= b < SECTOR_SIZE * (i + n) <==> i <= j < i + n;
    if i <= j < i + n {
      assert disk'[ss[j]] == Chunk(data, j - i);
      assert Chunk(data, j - i)[o] == data[SECTOR_SIZE * (j - i) + o];
    }
  }

  /** Writing part of a buffer: the rest of it is the file's, or lies past its end. */
  lemma PatchedAt(buffer: Sector, o: nat, data: seq<byte>, r: nat)
    requires o + |data| <= SECTOR_SIZE && r < SECTOR_SIZE
    ensures |buffer[..o] + data + buffer[o + |data|..]| == SECTOR_SIZE
    ensures (buffer[..o] + data + buffer[o + |data|..])[r] == if o <= r < o + |data| then data[r - o] else buffer[r]
  {
  }

  lemma SplicedByte(ss: seq<nat>, disk: Disk, i: nat, o: nat, data: seq<byte>, buffer: Sector, buffer': Sector,
                    size: nat, b: nat)
    requires OnDisk(ss, disk) && Distinct(ss) && i < |ss| && o + |data| <= SECTOR_SIZE && b < SECTOR_SIZE * |ss|
    requires disk[ss[i]] == buffer || (o == 0 && size <= SECTOR_SIZE * i)
    requires buffer' == buffer[..o] + data + buffer[o + |data|..]
    ensures OnDisk(ss, disk[ss[i] := buffer'])
    ensures var p, after := SECTOR_SIZE * i + o, Bytes(ss, disk[ss[i] := buffer']);
      if p <= b < p + |data| then after[b] == data[b - p] else b < p || b < size ==> after[b] == Bytes(ss, disk)[b]
  {
    hide Bytes;
    BytesAfterSector(ss, disk, i, buffer', b);
    if SECTOR_SIZE * i <= b < SECTOR_SIZE * i + SECTOR_SIZE {
      var r := b - SECTOR_SIZE * i;
      PatchedAt(buffer, o, data, r);
      ByteOfSector(ss, disk, i, r);
    }
  }

  lemma SplicedBuffer(ss: seq<nat>, disk: Disk, i: nat, o: nat, data: seq<byte>, buffer: Sector, size: nat)
    requires OnDisk(ss, disk) && Distinct(ss) && i < |ss| && o + |data| <= SECTOR_SIZE && size <= SECTOR_SIZE * |ss|
    requires disk[ss[i]] == buffer || (o == 0 && size <= SECTOR_SIZE * i)
    ensures var buffer' := buffer[..o] + data + buffer[o + |data|..];
      OnDisk(ss, disk[ss[i] := buffer']) &&
      Spliced(Bytes(ss, disk), Bytes(ss, disk[ss[i] := buffer']), size, SECTOR_SIZE * i + o, data)
  {
    var buffer': Sector := buffer[..o] + data + buffer[o + |data|..];
    var p := SECTOR_SIZE * i + o;
    ByteOfSector(ss, disk, i, 0);
    SplicedByte(ss, disk, i, o, data, buffer, buffer', size, SECTOR_SIZE * i);
    hide Bytes;
    var before, after := Bytes(ss, disk), Bytes(ss, disk[ss[i] := buffer']);
    forall b | 0 <= b < SECTOR_SIZE * |ss|
      ensures if p <= b < p + |data| then after[b] == data[b - p] else b < p || b < size ==> after[b] == before[b]
    {
      SplicedByte(ss, disk, i, o, data, buffer, buffer', size, b);
    }
  }
}
