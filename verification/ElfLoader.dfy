/** Loading the segments of an ELF file (load_icode in kern/krnl/task/task.c; "Program Header" in chapter 5 of the
    System V ABI). */
module ElfLoader {
  import opened PageAllocator
  import opened PageTables
  import opened VmaList
  import opened AddressSpace

  const VMM_READ := 1
  const VMM_WRITE := 2
  const VMM_EXEC := 4

  /** The fields of a program header that the loader looks at. */
  datatype Phdr = Phdr(load: bool, offset: nat, va: nat, filesz: nat, memsz: nat, exec: bool, write: bool, read: bool)

  /** Bytes lo up to hi of the address space were written. */
  datatype Piece = Piece(lo: nat, hi: nat)

  function Zeros(n: nat): (r: Content)
    ensures |r| == n && forall i :: 0 <= i < n ==> r[i] == 0
  {
    seq(n, _ => 0)
  }

  /** What the segment is to hold: its bytes in the file, then zeros. */
  ghost function SegBytes(file: Content, ph: Phdr): (r: Content)
    requires ph.offset + ph.filesz <= |file| && ph.filesz <= ph.memsz
    ensures |r| == ph.memsz
  {
    file[ph.offset..ph.offset + ph.filesz] + Zeros(ph.memsz - ph.filesz)
  }

  /** Byte by byte: byte i of the segment is byte offset + i of the file, or zero behind the size in the file; the frame
      of page (va + i) / 4096 has it at (va + i) % 4096. */
  lemma ImageBytes(maps: Maps, data: Contents, d: nat, file: Content, ph: Phdr, i: nat)
    requires ph.offset + ph.filesz <= |file| && ph.filesz <= ph.memsz && i < ph.memsz
    requires Image(maps, data, d, ph.va, SegBytes(file, ph))
    ensures (d, (ph.va + i) / 4096) in maps
    ensures var f := maps[(d, (ph.va + i) / 4096)].frame;
      f in data && |data[f]| == 4096 &&
      data[f][(ph.va + i) % 4096] == if i < ph.filesz then file[ph.offset + i] else 0
  {
    assert Holds(maps, data, d, ph.va + i, SegBytes(file, ph)[i]);
  }

  /** The byte that directory d shows at address a. */
  ghost predicate Holds(maps: Maps, data: Contents, d: nat, a: nat, b: nat) {
    (d, a / PGSIZE) in maps &&
    var f := maps[(d, a / PGSIZE)].frame;
    f in data && |data[f]| == PGSIZE && data[f][a % PGSIZE] == b
  }

  /** Directory d shows the bytes bs from address va on. */
  ghost predicate Image(maps: Maps, data: Contents, d: nat, va: nat, bs: Content) {
    forall i :: 0 <= i < |bs| ==> Holds(maps, data, d, va + i, bs[i])
  }

  /** Directory d has new pages lo up to hi, in frames of their own; every other mapping and frame is as it was. */
  ghost predicate Filled(m: Maps, data: Contents, m': Maps, data': Contents, d: nat, write: bool, lo: nat, hi: nat) {
    (forall k :: k in m ==> k in m' && m'[k] == m[k]) &&
    (forall k :: k in m && k.0 == d ==> !(lo <= k.1 < hi)) &&
    (forall k :: k in m' ==> k in m || (k.0 == d && lo <= k.1 < hi)) &&
    (forall v :: lo <= v < hi ==> NewPage(data, m', data', d, write, v)) &&
    (forall j, k :: j in m' && k in m' && k !in m && m'[j].frame == m'[k].frame ==> j == k) &&
    (forall f :: f in data ==> f in data' && data'[f] == data[f])
  }

  ghost predicate NewPage(data: Contents, m': Maps, data': Contents, d: nat, write: bool, v: nat) {
    (d, v) in m' &&
    var e := m'[(d, v)];
    e == Entry(e.frame, true, write, true) && e.frame !in data && e.frame in data' && |data'[e.frame]| == PGSIZE
  }

  /** The pieces follow each other from lo to hi. */
  ghost predicate Tiles(log: seq<Piece>, lo: nat, hi: nat)
    decreases |log|
  {
    if log == [] then lo == hi
    else log[|log| - 1].hi == hi && log[|log| - 1].lo < hi && Tiles(log[..|log| - 1], lo, log[|log| - 1].lo)
  }

  ghost predicate Covers(p: Piece, a: nat) {
    p.lo <= a < p.hi
  }

  lemma {:induction false} TilesUp(log: seq<Piece>, lo: nat, hi: nat)
    requires Tiles(log, lo, hi)
    ensures lo <= hi && forall i :: 0 <= i < |log| ==> lo <= log[i].lo && log[i].hi <= hi
    decreases |log|
  {
    if log != [] {
      TilesUp(log[..|log| - 1], lo, log[|log| - 1].lo);
    }
  }

  /** Each byte of the range is written by exactly one piece, and no other byte is. */
  lemma {:induction false} WrittenOnce(log: seq<Piece>, lo: nat, hi: nat, a: nat)
    requires Tiles(log, lo, hi)
    ensures lo <= a < hi <==> exists i :: 0 <= i < |log| && Covers(log[i], a)
    ensures forall i, j :: 0 <= i < |log| && 0 <= j < |log| && Covers(log[i], a) && Covers(log[j], a) ==> i == j
    decreases |log|
  {
    if log != [] {
      var n := |log| - 1;
      TilesUp(log[..n], lo, log[n].lo);
      WrittenOnce(log[..n], lo, log[n].lo, a);
      assert forall i :: 0 <= i < n ==> log[..n][i] == log[i];
      assert Covers(log[n], a) <==> log[n].lo <= a < hi;
    }
  }

  lemma TilesMore(log: seq<Piece>, lo: nat, mid: nat, hi: nat)
    requires Tiles(log, lo, mid) && mid < hi
    ensures Tiles(log + [Piece(mid, hi)], lo, hi)
  {
    var l := log + [Piece(mid, hi)];
    assert l[..|l| - 1] == log;
  }

  /** Content c with bytes at off replaced. */
  function Patch(c: Content, off: nat, bytes: Content): (r: Content)
    requires off + |bytes| <= |c|
    ensures |r| == |c|
    ensures forall i :: 0 <= i < |c| ==> r[i] == if off <= i < off + |bytes| then bytes[i - off] else c[i]
  {
    c[..off] + bytes + c[off + |bytes|..]
  }

  /** Where a loading stands: pages lo up to hi are there and the first bytes bs of the segment are in place. */
  ghost predicate Loading(s: Snapshot, t: Snapshot, d: nat, ph: Phdr, hi: nat, bs: Content) {
    ph.va / PGSIZE <= hi &&
    Filled(s.maps, s.data, t.maps, t.data, d, ph.write, ph.va / PGSIZE, hi) &&
    Image(t.maps, t.data, d, ph.va, bs) &&
    Spent(s.free, t.free, Need(Range(ph.va / PGSIZE, hi), Pdes(s.dirs, d))) &&
    Pdes(t.dirs, d) == Pdes(s.dirs, d) + Tabs(Range(ph.va / PGSIZE, hi))
  }

  /** The state of the memory: mappings, frames with data, free frames and directories. */
  datatype Snapshot = Snapshot(maps: Maps, data: Contents, free: set<nat>, dirs: Dirs)

  ghost function Now(m: Machine): Snapshot
    reads m, m.alloc, m.alloc.pages
  {
    Snapshot(m.maps, m.data, m.alloc.FreePages(), m.dirs)
  }

  lemma FilledMore(m: Maps, data: Contents, m1: Maps, data1: Contents, d: nat, write: bool, lo: nat, hi: nat, f: nat,
                   junk: Content)
    requires Filled(m, data, m1, data1, d, write, lo, hi) && lo <= hi && (d, hi) !in m && |junk| == PGSIZE
    requires f !in data1 && Backed(m1, data1)
    ensures (d, hi) !in m1
    ensures Filled(m, data, m1[(d, hi) := Entry(f, true, write, true)], data1[f := junk], d, write, lo, hi + 1)
  {
    var m2, data2 := m1[(d, hi) := Entry(f, true, write, true)], data1[f := junk];
    forall v | lo <= v < hi + 1
      ensures NewPage(data, m2, data2, d, write, v)
    {
      assert v < hi ==> NewPage(data, m1, data1, d, write, v);
    }
  }

  lemma ImageMore(m1: Maps, data1: Contents, d: nat, va: nat, bs: Content, k: Key, e: Entry, junk: Content)
    requires Image(m1, data1, d, va, bs) && k !in m1 && e.frame !in data1
    ensures Image(m1[k := e], data1[e.frame := junk], d, va, bs)
  {
    forall i | 0 <= i < |bs|
      ensures Holds(m1[k := e], data1[e.frame := junk], d, va + i, bs[i])
    {
      assert Holds(m1, data1, d, va + i, bs[i]);
    }
  }

  /** Writing to a new page. */
  lemma FilledWrite(m: Maps, data: Contents, m1: Maps, data1: Contents, d: nat, write: bool, lo: nat, hi: nat, v: nat,
                    c: Content)
    requires Filled(m, data, m1, data1, d, write, lo, hi) && lo <= v < hi && |c| == PGSIZE
    ensures (d, v) in m1 && Filled(m, data, m1, data1[m1[(d, v)].frame := c], d, write, lo, hi)
  {
    assert NewPage(data, m1, data1, d, write, v);
    var data2 := data1[m1[(d, v)].frame := c];
    forall w | lo <= w < hi
      ensures NewPage(data, m1, data2, d, write, w)
    {
      assert NewPage(data, m1, data1, d, write, w);
    }
  }

  /** The bytes written follow those in place, in the same page. */
  lemma ImageWrite(m: Maps, data: Contents, m1: Maps, data1: Contents, d: nat, write: bool, lo: nat, hi: nat, va: nat,
                   bs: Content, v: nat, bytes: Content)
    requires Filled(m, data, m1, data1, d, write, lo, hi) && Image(m1, data1, d, va, bs) && lo <= v < hi
    requires (va + |bs|) / PGSIZE == v && (va + |bs|) % PGSIZE + |bytes| <= PGSIZE
    ensures NewPage(data, m1, data1, d, write, v)
    ensures var f := m1[(d, v)].frame;
      Image(m1, data1[f := Patch(data1[f], (va + |bs|) % PGSIZE, bytes)], d, va, bs + bytes)
  {
    assert NewPage(data, m1, data1, d, write, v);
    var f, off := m1[(d, v)].frame, (va + |bs|) % PGSIZE;
    var data2 := data1[f := Patch(data1[f], off, bytes)];
    forall i | 0 <= i < |bs + bytes|
      ensures Holds(m1, data2, d, va + i, (bs + bytes)[i])
    {
      if i < |bs| {
        assert Holds(m1, data1, d, va + i, bs[i]);
        Before(va + i, va + |bs|);
      } else {
        Within(va + |bs|, i - |bs|);
      }
    }
  }

  lemma Before(a: nat, b: nat)
    requires a < b
    ensures a / PGSIZE == b / PGSIZE ==> a % PGSIZE < b % PGSIZE
  {
  }

  lemma Within(a: nat, i: nat)
    requires a % PGSIZE + i < PGSIZE
    ensures (a + i) / PGSIZE == a / PGSIZE && (a + i) % PGSIZE == a % PGSIZE + i
  {
  }

  lemma RangeMore(lo: nat, hi: nat)
    requires lo <= hi
    ensures Range(lo, hi + 1) == Range(lo, hi) + {hi} && hi !in Range(lo, hi)
  {
  }

  lemma SpentBoth(free: set<nat>, free1: set<nat>, free2: set<nat>, a: int, b: int)
    requires Spent(free, free1, a) && Spent(free1, free2, b)
    ensures Spent(free, free2, a + b)
  {
  }

  lemma OpenedPdes(dirs: Dirs, dirs': Dirs, d: nat, ps: set<nat>)
    requires Opened(dirs, dirs', d, ps)
    ensures Pdes(dirs', d) == Pdes(dirs, d) + ps
  {
  }

  /** One more page. */
  lemma LoadingPage(s: Snapshot, t: Snapshot, u: Snapshot, d: nat, ph: Phdr, hi: nat, bs: Content, f: nat,
                    junk: Content)
    requires Loading(s, t, d, ph, hi, bs)
    requires (d, hi) !in s.maps && |junk| == PGSIZE && f !in t.data && Backed(t.maps, t.data)
    requires u.maps == t.maps[(d, hi) := Entry(f, true, ph.write, true)] && u.data == t.data[f := junk]
    requires Spent(t.free, u.free, PageNeed(t.dirs, d, hi)) && Opened(t.dirs, u.dirs, d, PdeOf(true, hi))
    ensures Loading(s, u, d, ph, hi + 1, bs)
  {
    hide Filled;
    hide Image;
    hide Range;
    hide Spent;
    hide Need;
    hide Tabs;
    hide Opened;
    hide Backed;
    hide Pdes;
    var lo := ph.va / PGSIZE;
    FilledMore(s.maps, s.data, t.maps, t.data, d, ph.write, lo, hi, f, junk);
    ImageMore(t.maps, t.data, d, ph.va, bs, (d, hi), Entry(f, true, ph.write, true), junk);
    RangeMore(lo, hi);
    NeedAdd(Range(lo, hi), Pdes(s.dirs, d), hi);
    SpentBoth(s.free, t.free, u.free, Need(Range(lo, hi), Pdes(s.dirs, d)), PageNeed(t.dirs, d, hi));
    OpenedPdes(t.dirs, u.dirs, d, PdeOf(true, hi));
  }

  /** pgdir_alloc_page for page v, the next of the segment. */
  method NextPage(m: Machine, d: nat, ph: Phdr, v: nat, junk: Content, ghost s: Snapshot, ghost bs: Content)
    returns (ok: bool, f: nat)
    requires m.Valid() && d in m.dirs && v < USER_PAGES && (d, v) !in s.maps && |junk| == PGSIZE
    requires Loading(s, Now(m), d, ph, v, bs)
    modifies m, m.alloc, m.alloc.pages
    ensures m.Valid() && m.dirs.Keys == old(m.dirs.Keys) && m.Pool() == old(m.Pool())
    ensures ok ==> LastFrame(m, d, v, f) && Loading(s, Now(m), d, ph, v + 1, bs)
    ensures !ok ==> m.maps == old(m.maps) && m.data == old(m.data)
    ensures !ok ==> |s.free| < Need(Range(ph.va / PGSIZE, v + 1), Pdes(s.dirs, d))
  {
    hide Machine.Valid;
    hide Machine.Pool;
    hide Allocator.FreePages;
    hide Spent;
    hide Need;
    hide Tabs;
    hide Range;
    hide Image;
    hide Filled;
    hide Opened;
    hide PdeOf;
    hide Orphans;
    hide Backed;
    hide Pdes;
    ghost var t := Now(m);
    AllBacked(m);
    FilledFresh(s.maps, s.data, t.maps, t.data, d, ph.write, ph.va / PGSIZE, v);
    OrphanNone(t.maps, (d, v), -1);
    RangeMore(ph.va / PGSIZE, v);
    NeedAdd(Range(ph.va / PGSIZE, v), Pdes(s.dirs, d), v);
    ok, f := m.PgdirAllocPage(d, v, ph.write, true, junk);
    if ok {
      assert m.data == t.data[f := junk];
      LoadingPage(s, t, Now(m), d, ph, v, bs, f, junk);
    } else {
      NotEnough(s.free, t.free, Need(Range(ph.va / PGSIZE, v), Pdes(s.dirs, d)), PageNeed(t.dirs, d, v),
                Need(Range(ph.va / PGSIZE, v + 1), Pdes(s.dirs, d)));
    }
  }

  /** The page that was allocated last. */
  ghost predicate LastFrame(m: Machine, d: nat, v: nat, f: nat)
    reads m
  {
    (d, v) in m.maps && m.maps[(d, v)].frame == f
  }

  lemma FilledFresh(m: Maps, data: Contents, m1: Maps, data1: Contents, d: nat, write: bool, lo: nat, hi: nat)
    requires Filled(m, data, m1, data1, d, write, lo, hi) && (d, hi) !in m
    ensures (d, hi) !in m1
  {
  }

  /** Write the next bytes of the segment to its last page, whose frame is f, and log the piece. */
  method WritePiece(m: Machine, d: nat, ph: Phdr, f: nat, off: nat, bytes: Content, ghost v: nat, ghost s: Snapshot,
                    ghost bs: Content, ghost log: seq<Piece>)
    returns (ghost log': seq<Piece>)
    requires m.Valid() && Loading(s, Now(m), d, ph, v + 1, bs) && LastFrame(m, d, v, f) && ph.va / PGSIZE <= v
    requires (ph.va + |bs|) / PGSIZE == v && (ph.va + |bs|) % PGSIZE == off && 0 < |bytes| <= PGSIZE - off
    requires Tiles(log, ph.va, ph.va + |bs|)
    modifies m
    ensures m.Valid() && m.maps == old(m.maps) && m.dirs == old(m.dirs) && m.Pool() == old(m.Pool())
    ensures LastFrame(m, d, v, f) && Loading(s, Now(m), d, ph, v + 1, bs + bytes)
    ensures f in old(m.data) && |old(m.data)[f]| == PGSIZE
    ensures m.data == old(m.data)[f := Patch(old(m.data)[f], off, bytes)]
    ensures log' == log + [Piece(ph.va + |bs|, ph.va + |bs| + |bytes|)] && Tiles(log', ph.va, ph.va + |bs| + |bytes|)
  {
    hide Machine.Valid;
    hide Machine.Pool;
    hide Allocator.FreePages;
    hide Spent;
    hide Need;
    hide Tabs;
    hide Range;
    hide Image;
    hide Filled;
    hide Pdes;
    hide Tiles;
    ghost var lo := ph.va / PGSIZE;
    ImageWrite(s.maps, s.data, m.maps, m.data, d, ph.write, lo, v + 1, ph.va, bs, v, bytes);
    FilledWrite(s.maps, s.data, m.maps, m.data, d, ph.write, lo, v + 1, v, Patch(m.data[f], off, bytes));
    m.WriteFrame(f, Patch(m.data[f], off, bytes));
    TilesMore(log, ph.va, ph.va + |bs|, ph.va + |bs| + |bytes|);
    log' := log + [Piece(ph.va + |bs|, ph.va + |bs| + |bytes|)];
  }

  /** The number of the first page that begins at or after address a. */
  function PageTop(a: nat): nat {
    (a + PGSIZE - 1) / PGSIZE
  }

  /** The pages of the segment are user pages not mapped before. */
  ghost predicate Fresh(s: Snapshot, d: nat, ph: Phdr) {
    0 < ph.filesz <= ph.memsz && ph.va + ph.memsz <= USER_TOP &&
    forall v :: ph.va / PGSIZE <= v < PageTop(ph.va + ph.memsz) ==> (d, v) !in s.maps
  }

  lemma FreshPage(s: Snapshot, d: nat, ph: Phdr, v: nat)
    requires Fresh(s, d, ph) && ph.va / PGSIZE <= v && v * PGSIZE < ph.va + ph.memsz
    ensures v < USER_PAGES && (d, v) !in s.maps && v < PageTop(ph.va + ph.memsz)
  {
  }

  /** Not enough frames for some of the pages is not enough for all. */
  lemma Short(s: Snapshot, d: nat, ph: Phdr, v: nat)
    requires |s.free| < Need(Range(ph.va / PGSIZE, v + 1), Pdes(s.dirs, d)) && v < PageTop(ph.va + ph.memsz)
    ensures |s.free| < Need(Range(ph.va / PGSIZE, PageTop(ph.va + ph.memsz)), Pdes(s.dirs, d))
  {
    hide Need;
    hide PageTop;
    assert Range(ph.va / PGSIZE, v + 1) <= Range(ph.va / PGSIZE, PageTop(ph.va + ph.memsz));
    NeedMono(Range(ph.va / PGSIZE, v + 1), Range(ph.va / PGSIZE, PageTop(ph.va + ph.memsz)), Pdes(s.dirs, d));
  }

  /** After page v was allocated the cursor lies in it. */
  lemma InPage(start: nat, v: nat)
    requires v * PGSIZE <= start < v * PGSIZE + PGSIZE
    ensures start / PGSIZE == v && start % PGSIZE == start - v * PGSIZE
  {
  }

  /** Where the cursor may stand between two pages: at the boundary la, in front of everything, or at the end. */
  ghost predicate At(start: nat, v: nat, ph: Phdr, end: nat) {
    ph.va <= start <= end && ph.va / PGSIZE <= v &&
    if v == ph.va / PGSIZE then start == ph.va && v * PGSIZE <= start < v * PGSIZE + PGSIZE
    else v * PGSIZE - PGSIZE < start <= v * PGSIZE && (start < v * PGSIZE ==> start == end)
  }

  /** The body of the first loop: allocate a page and read into it. */
  method FilePage(m: Machine, d: nat, file: Content, ph: Phdr, junk: Content, start: nat, la: nat, offset: nat,
                  ghost v: nat, ghost s: Snapshot, ghost bs: Content, ghost log: seq<Piece>)
    returns (ok: bool, size: nat, f: nat, ghost v': nat, ghost log': seq<Piece>)
    requires m.Valid() && d in m.dirs && Fresh(s, d, ph) && |junk| == PGSIZE
    requires At(start, v, ph, ph.va + ph.filesz) && start < ph.va + ph.filesz && la == v * PGSIZE
    requires offset == ph.offset + (start - ph.va)
    requires Loading(s, Now(m), d, ph, v, bs) && Read(file, ph, start - ph.va, bs) && Tiles(log, ph.va, start)
    modifies m, m.alloc, m.alloc.pages
    ensures m.Valid() && m.dirs.Keys == old(m.dirs.Keys) && m.Pool() == old(m.Pool())
    ensures ok ==> size == Min(la + PGSIZE, ph.va + ph.filesz) - start && offset + size <= |file| && v' == v + 1
    ensures ok ==> Tiles(log', ph.va, start + size) && LastFrame(m, d, v, f) && v < PageTop(ph.va + ph.memsz)
    ensures ok ==> Loading(s, Now(m), d, ph, v + 1, bs + file[offset..offset + size])
    ensures ok ==> Read(file, ph, start + size - ph.va, bs + file[offset..offset + size])
    ensures !ok ==> Failed(s, m, d, file, ph, v')
  {
    hide Machine.Valid;
    hide Machine.Pool;
    hide Allocator.FreePages;
    hide Loading;
    hide Fresh;
    hide Need;
    hide LastFrame;
    hide PageTop;
    hide Range;
    hide Pdes;
    hide Failed;
    hide Read;
    hide Filled;
    hide Tiles;
    FreshSizes(s, d, ph);
    FreshPage(s, d, ph, v);
    LoadingFilled(s, Now(m), d, ph, v, bs);
    ReadSize(file, ph, start - ph.va, bs);
    size, v', log' := 0, v, log;
    ok, f := NextPage(m, d, ph, la / PGSIZE, junk, s, bs);
    if !ok {
      Short(s, d, ph, v);
      FailedBy(s, m, d, file, ph, v);
      return;
    }
    v' := v + 1;
    InPage(start, v);
    var off, end := start - la, ph.va + ph.filesz;
    size := PGSIZE - off;
    if end < la + PGSIZE {
      size := size - (la + PGSIZE - end);
    }
    if offset + size > |file| {
      ok := false;
      LoadingFilled(s, Now(m), d, ph, v + 1, bs);
      FailedBy(s, m, d, file, ph, v + 1);
      return;
    }
    ReadMore(file, ph, start - ph.va, bs, size);
    log' := WritePiece(m, d, ph, f, off, file[offset..offset + size], v, s, bs, log);
  }

  /** The first loop: pages with bytes of the file. */
  method FilePages(m: Machine, d: nat, file: Content, ph: Phdr, junk: Content, ghost s: Snapshot)
    returns (ok: bool, start: nat, la: nat, f: nat, ghost v: nat, ghost log: seq<Piece>)
    requires m.Valid() && d in m.dirs && s == Now(m) && Fresh(s, d, ph) && |junk| == PGSIZE
    modifies m, m.alloc, m.alloc.pages
    ensures m.Valid() && m.dirs.Keys == old(m.dirs.Keys) && m.Pool() == old(m.Pool())
    ensures ok ==> ph.offset + ph.filesz <= |file| && start == ph.va + ph.filesz && la == v * PGSIZE
    ensures ok ==> At(start, v, ph, start)
    ensures ok ==> v > ph.va / PGSIZE && LastFrame(m, d, v - 1, f) && Tiles(log, ph.va, start)
    ensures ok ==> Loading(s, Now(m), d, ph, v, file[ph.offset..ph.offset + ph.filesz])
    ensures !ok ==> Failed(s, m, d, file, ph, v)
  {
    hide Machine.Valid;
    hide Machine.Pool;
    hide Allocator.FreePages;
    hide Loading;
    hide Fresh;
    hide Need;
    hide Tiles;
    hide LastFrame;
    hide PageTop;
    hide Range;
    hide Pdes;
    hide Failed;
    hide Read;
    ok, f := true, 0;
    var offset, end := ph.offset, ph.va + ph.filesz;
    start, la := ph.va, RoundDown(ph.va);
    v, log := ph.va / PGSIZE, [];
    ghost var bs: Content := [];
    LoadingStart(s, d, ph);
    FreshSizes(s, d, ph);
    TilesNone(ph.va);
    ReadNone(file, ph);
    while start < end
      invariant m.Valid() && m.dirs.Keys == old(m.dirs.Keys) && m.Pool() == old(m.Pool())
      invariant At(start, v, ph, end) && la == v * PGSIZE && offset == ph.offset + (start - ph.va)
      invariant Loading(s, Now(m), d, ph, v, bs) && Tiles(log, ph.va, start) && Read(file, ph, start - ph.va, bs)
      invariant v > ph.va / PGSIZE ==> LastFrame(m, d, v - 1, f)
      invariant v <= PageTop(ph.va + ph.memsz)
      decreases end - start
    {
      ghost var v0 := v;
      var size;
      ok, size, f, v, log := FilePage(m, d, file, ph, junk, start, la, offset, v, s, bs, log);
      if !ok {
        return;
      }
      la := la + PGSIZE;
      bs := bs + file[offset..offset + size];
      start, offset := start + size, offset + size;
    }
    ReadAll(file, ph, bs);
  }

  /** The first n bytes of the segment in the file were read. */
  ghost predicate Read(file: Content, ph: Phdr, n: nat, bs: Content) {
    |bs| == n && (n > 0 ==> ph.offset + n <= |file| && bs == file[ph.offset..ph.offset + n])
  }

  lemma ReadNone(file: Content, ph: Phdr)
    ensures Read(file, ph, 0, [])
  {
  }

  lemma ReadSize(file: Content, ph: Phdr, n: nat, bs: Content)
    requires Read(file, ph, n, bs)
    ensures |bs| == n
  {
  }

  lemma ReadMore(file: Content, ph: Phdr, n: nat, bs: Content, size: nat)
    requires Read(file, ph, n, bs) && ph.offset + n + size <= |file|
    ensures Read(file, ph, n + size, bs + file[ph.offset + n..ph.offset + n + size])
  {
    var a, b := ph.offset + n, ph.offset + n + size;
    assert n > 0 ==> file[ph.offset..b] == file[ph.offset..a] + file[a..b];
  }

  lemma ReadAll(file: Content, ph: Phdr, bs: Content)
    requires Read(file, ph, ph.filesz, bs) && 0 < ph.filesz
    ensures ph.offset + ph.filesz <= |file| && bs == file[ph.offset..ph.offset + ph.filesz]
  {
  }

  lemma TilesNone(a: nat)
    ensures Tiles([], a, a)
  {
  }

  lemma FreshSizes(s: Snapshot, d: nat, ph: Phdr)
    requires Fresh(s, d, ph)
    ensures 0 < ph.filesz <= ph.memsz && ph.va / PGSIZE < PageTop(ph.va + ph.memsz)
  {
  }

  lemma LoadingStart(s: Snapshot, d: nat, ph: Phdr)
    ensures Loading(s, s, d, ph, ph.va / PGSIZE, [])
  {
    var r := Range(ph.va / PGSIZE, ph.va / PGSIZE);
    assert r == {} && Tabs(r) == {};
    assert Tabs(r) - Pdes(s.dirs, d) == {};
  }

  lemma LoadingFilled(s: Snapshot, t: Snapshot, d: nat, ph: Phdr, v: nat, bs: Content)
    requires Loading(s, t, d, ph, v, bs)
    ensures ph.va / PGSIZE <= v && Filled(s.maps, s.data, t.maps, t.data, d, ph.write, ph.va / PGSIZE, v)
  {
  }

  lemma FailedBy(s: Snapshot, m: Machine, d: nat, file: Content, ph: Phdr, v: nat)
    requires Filled(s.maps, s.data, m.maps, m.data, d, ph.write, ph.va / PGSIZE, v)
    requires ph.va / PGSIZE <= v <= PageTop(ph.va + ph.memsz)
    requires !Loadable(file, ph, s.free, Pdes(s.dirs, d))
    ensures Failed(s, m, d, file, ph, v)
  {
  }

  /** Zeros for the rest of the page that holds the last bytes of the file, as far as the segment goes. */
  method RestOfPage(m: Machine, d: nat, ph: Phdr, start: nat, la: nat, f: nat, ghost v: nat, ghost log: seq<Piece>,
                    ghost s: Snapshot, ghost bs: Content)
    returns (start': nat, ghost log': seq<Piece>)
    requires m.Valid() && Loading(s, Now(m), d, ph, v, bs) && |bs| == start - ph.va
    requires ph.va <= start < ph.va + ph.memsz && la == v * PGSIZE && la - PGSIZE < start < la
    requires v > ph.va / PGSIZE && LastFrame(m, d, v - 1, f) && Tiles(log, ph.va, start)
    modifies m
    ensures m.Valid() && m.maps == old(m.maps) && m.dirs == old(m.dirs) && m.Pool() == old(m.Pool())
    ensures start < start' && Tiles(log', ph.va, start')
    ensures (ph.va + ph.memsz < la && start' == ph.va + ph.memsz) || (ph.va + ph.memsz >= la && start' == la)
    ensures Loading(s, Now(m), d, ph, v, bs + Zeros(start' - start))
  {
    hide Machine.Valid;
    hide Machine.Pool;
    hide Allocator.FreePages;
    hide Loading;
    hide Tiles;
    hide LastFrame;
    var end := ph.va + ph.memsz;
    var off := start + PGSIZE - la;
    var size := PGSIZE - off;
    if end < la {
      size := size - (la - end);
    }
    InPage(start, v - 1);
    log' := WritePiece(m, d, ph, f, off, Zeros(size), v - 1, s, bs, log);
    start' := start + size;
  }

  lemma MoreZeros(a: nat, b: nat)
    ensures Zeros(a) + Zeros(b) == Zeros(a + b)
  {
  }

  /** The last loop: pages of zeros. */
  method ZeroPages(m: Machine, d: nat, file: Content, ph: Phdr, junk: Content, start0: nat, la0: nat, ghost v0: nat,
                   ghost log0: seq<Piece>, ghost s: Snapshot, ghost bs0: Content)
    returns (ok: bool, ghost v: nat, ghost log: seq<Piece>)
    requires m.Valid() && d in m.dirs && Fresh(s, d, ph) && |junk| == PGSIZE && v0 <= PageTop(ph.va + ph.memsz)
    requires Loading(s, Now(m), d, ph, v0, bs0) && |bs0| == start0 - ph.va && Tiles(log0, ph.va, start0)
    requires At(start0, v0, ph, ph.va + ph.memsz) && la0 == v0 * PGSIZE && v0 > ph.va / PGSIZE
    modifies m, m.alloc, m.alloc.pages
    ensures m.Valid() && m.dirs.Keys == old(m.dirs.Keys) && m.Pool() == old(m.Pool())
    ensures ok ==> v == PageTop(ph.va + ph.memsz) && Tiles(log, ph.va, ph.va + ph.memsz)
    ensures ok ==> Loading(s, Now(m), d, ph, v, bs0 + Zeros(ph.va + ph.memsz - start0))
    ensures !ok ==> Failed(s, m, d, file, ph, v)
  {
    hide Machine.Valid;
    hide Machine.Pool;
    hide Allocator.FreePages;
    hide Loading;
    hide Fresh;
    hide Need;
    hide Tiles;
    hide LastFrame;
    hide Range;
    hide Pdes;
    hide Failed;
    hide PageTop;
    var start, la, end := start0, la0, ph.va + ph.memsz;
    v, log, ok := v0, log0, true;
    ghost var n := 0;
    assert bs0 + Zeros(0) == bs0;
    while start < end
      invariant m.Valid() && m.dirs.Keys == old(m.dirs.Keys) && m.Pool() == old(m.Pool()) && ok
      invariant At(start, v, ph, end) && la == v * PGSIZE && n == start - start0 && v > ph.va / PGSIZE
      invariant Loading(s, Now(m), d, ph, v, bs0 + Zeros(n)) && Tiles(log, ph.va, start)
      invariant v <= PageTop(ph.va + ph.memsz)
      decreases end - start
    {
      FreshPage(s, d, ph, v);
      LoadingFilled(s, Now(m), d, ph, v, bs0 + Zeros(n));
      var f;
      ok, f := NextPage(m, d, ph, la / PGSIZE, junk, s, bs0 + Zeros(n));
      if !ok {
        Short(s, d, ph, v);
        FailedBy(s, m, d, file, ph, v);
        return;
      }
      InPage(start, v);
      var off := start - la;
      var size := PGSIZE - off;
      la := la + PGSIZE;
      if end < la {
        size := size - (la - end);
      }
      log := WritePiece(m, d, ph, f, off, Zeros(size), v, s, bs0 + Zeros(n), log);
      MoreZeros(n, size);
      assert bs0 + Zeros(n) + Zeros(size) == bs0 + (Zeros(n) + Zeros(size));
      n := n + size;
      start, v := start + size, v + 1;
    }
    TopReached(start, v);
  }

  lemma TopReached(a: nat, v: nat)
    requires v * PGSIZE - PGSIZE < a <= v * PGSIZE
    ensures v == PageTop(a)
  {
  }

  /** The file has the bytes of the segment, and there are frames for its pages and their page tables. */
  ghost predicate Loadable(file: Content, ph: Phdr, free: set<nat>, ps: set<nat>) {
    ph.offset + ph.filesz <= |file| && |free| >= Need(Range(ph.va / PGSIZE, PageTop(ph.va + ph.memsz)), ps)
  }

  /** The three steps of loading a segment whose area was mapped: each byte of it is written once, with the bytes of the
      file and zeros after them, and each page is allocated once. */
  method LoadPages(m: Machine, d: nat, file: Content, ph: Phdr, junk: Content)
    returns (ok: bool, ghost v: nat, ghost log: seq<Piece>)
    requires m.Valid() && d in m.dirs && Fresh(Now(m), d, ph) && |junk| == PGSIZE
    modifies m, m.alloc, m.alloc.pages
    ensures m.Valid() && m.dirs.Keys == old(m.dirs.Keys) && m.Pool() == old(m.Pool())
    ensures ok <==> Loadable(file, ph, old(m.alloc.FreePages()), Pdes(old(m.dirs), d))
    ensures ph.va / PGSIZE <= v <= PageTop(ph.va + ph.memsz)
    ensures Filled(old(m.maps), old(m.data), m.maps, m.data, d, ph.write, ph.va / PGSIZE, v)
    ensures ok ==> v == PageTop(ph.va + ph.memsz) && Tiles(log, ph.va, ph.va + ph.memsz)
    ensures ok ==> ph.filesz <= ph.memsz && Image(m.maps, m.data, d, ph.va, SegBytes(file, ph))
    ensures ok ==>
      Spent(old(m.alloc.FreePages()), m.alloc.FreePages(), Need(Range(ph.va / PGSIZE, v), Pdes(old(m.dirs), d)))
    ensures ok ==> Pdes(m.dirs, d) == Pdes(old(m.dirs), d) + Tabs(Range(ph.va / PGSIZE, v))
  {
    hide Machine.Valid;
    hide Machine.Pool;
    hide Allocator.FreePages;
    hide Loading;
    hide Fresh;
    hide Need;
    hide Tiles;
    hide LastFrame;
    hide Range;
    hide Pdes;
    hide Failed;
    hide PageTop;
    hide Filled;
    hide Image;
    hide Spent;
    ghost var s := Now(m);
    FreshSizes(s, d, ph);
    var start, la, f;
    ok, start, la, f, v, log := FilePages(m, d, file, ph, junk, s);
    if !ok {
      FailedMeans(s, m, d, file, ph, v);
      return;
    }
    ghost var bs := file[ph.offset..ph.offset + ph.filesz];
    ghost var n := 0;
    var end := ph.va + ph.memsz;
    assert bs + Zeros(0) == bs;
    EndPage(start, v, end);
    if start < la {
      if start == end {
        LoadingDone(s, Now(m), d, file, ph, v);
        return;
      }
      var start';
      start', log := RestOfPage(m, d, ph, start, la, f, v, log, s, bs);
      n := start' - start;
      start := start';
    }
    ok, v, log := ZeroPages(m, d, file, ph, junk, start, la, v, log, s, bs + Zeros(n));
    if ok {
      MoreZeros(n, end - start);
      assert bs + Zeros(n) + Zeros(end - start) == bs + (Zeros(n) + Zeros(end - start));
      LoadingDone(s, Now(m), d, file, ph, v);
    } else {
      FailedMeans(s, m, d, file, ph, v);
    }
  }

  lemma EndPage(start: nat, v: nat, end: nat)
    requires v * PGSIZE - PGSIZE < start <= v * PGSIZE && start <= end
    ensures v <= PageTop(end) && (start == end ==> v == PageTop(end))
  {
  }

  lemma FailedMeans(s: Snapshot, m: Machine, d: nat, file: Content, ph: Phdr, v: nat)
    requires Failed(s, m, d, file, ph, v)
    ensures ph.va / PGSIZE <= v <= PageTop(ph.va + ph.memsz)
    ensures Filled(s.maps, s.data, m.maps, m.data, d, ph.write, ph.va / PGSIZE, v)
    ensures !Loadable(file, ph, s.free, Pdes(s.dirs, d))
  {
  }

  lemma LoadingDone(s: Snapshot, t: Snapshot, d: nat, file: Content, ph: Phdr, v: nat)
    requires ph.offset + ph.filesz <= |file| && ph.filesz <= ph.memsz && v == PageTop(ph.va + ph.memsz)
    requires Loading(s, t, d, ph, v, file[ph.offset..ph.offset + ph.filesz] + Zeros(ph.memsz - ph.filesz))
    ensures ph.va / PGSIZE <= v && Filled(s.maps, s.data, t.maps, t.data, d, ph.write, ph.va / PGSIZE, v)
    ensures Image(t.maps, t.data, d, ph.va, SegBytes(file, ph))
    ensures Spent(s.free, t.free, Need(Range(ph.va / PGSIZE, v), Pdes(s.dirs, d)))
    ensures |s.free| >= Need(Range(ph.va / PGSIZE, v), Pdes(s.dirs, d))
    ensures Pdes(t.dirs, d) == Pdes(s.dirs, d) + Tabs(Range(ph.va / PGSIZE, v))
  {
  }

  /** The load stopped: frames or bytes of the file were missing, and pages up to v are there. */
  ghost predicate Failed(s: Snapshot, m: Machine, d: nat, file: Content, ph: Phdr, v: nat)
    reads m
  {
    ph.va / PGSIZE <= v <= PageTop(ph.va + ph.memsz) &&
    Filled(s.maps, s.data, m.maps, m.data, d, ph.write, ph.va / PGSIZE, v) &&
    !Loadable(file, ph, s.free, Pdes(s.dirs, d))
  }

  datatype SegResult = Skipped | Loaded | BadHeader | Refused | Stopped | Overlap

  function Flags(ph: Phdr): nat {
    (if ph.exec then VMM_EXEC else 0) + (if ph.write then VMM_WRITE else 0) + (if ph.read then VMM_READ else 0)
  }

  /** A segment that load_icode puts into memory. */
  predicate Wanted(ph: Phdr) {
    ph.load && 0 < ph.filesz <= ph.memsz
  }

  /** The address space is consistent: areas are page ranges of user space, and mapped pages lie in them. */
  ghost predicate Sound(m: Machine, mm: MemMap)
    reads m, m.alloc, m.alloc.pages, mm
  {
    m.Valid() && mm.Valid() && mm.pgdir in m.dirs && UserAreas(mm.vmas) && Covered(m.maps, mm.pgdir, mm.vmas)
  }

  lemma AskedPages(ph: Phdr)
    requires ph.va + ph.memsz < WORD && UserRange(Asked(ph.va, ph.memsz, Flags(ph)))
    ensures var a := Asked(ph.va, ph.memsz, Flags(ph));
      UserArea(a) && First(a) == ph.va / PGSIZE && Last(a) == PageTop(ph.va + ph.memsz) && ph.va + ph.memsz <= USER_TOP
  {
    var a := Asked(ph.va, ph.memsz, Flags(ph));
    MapCovers(ph.va, ph.memsz, Flags(ph));
    assert a.start == RoundDown(ph.va) && a.end == RoundUp(ph.va + ph.memsz);
    TopOf(ph.va + ph.memsz);
  }

  lemma TopOf(a: nat)
    requires a < WORD && a <= RoundUp(a) <= USER_TOP
    ensures RoundUp(a) == PageTop(a) * PGSIZE
  {
    assert (a + PGSIZE - 1) % WORD == a + PGSIZE - 1;
  }

  /** A new area that overlaps none of the old ones has no mapped page. */
  lemma NewAreaFresh(m: Maps, d: nat, areas: seq<Vma>, a: Vma, v: nat)
    requires Covered(m, d, areas) && UserAreas(areas) && UserArea(a) && (forall b :: b in areas ==> Disjoint(a, b))
    requires InArea(a, v)
    ensures (d, v) !in m
  {
    forall i | 0 <= i < |areas|
      ensures !InArea(areas[i], v)
    {
      assert areas[i] in areas;
      DisjointPages(a, areas[i], v);
    }
    assert !InAreas(areas, v);
  }

  lemma DisjointPages(a: Vma, b: Vma, v: nat)
    requires Disjoint(a, b) && InArea(a, v)
    ensures !InArea(b, v)
  {
    if a.end <= b.start {
      PagesApart(a, b);
    } else {
      PagesApart(b, a);
    }
  }

  lemma InAreasInsert(areas: seq<Vma>, i: nat, a: Vma, v: nat)
    requires i <= |areas|
    ensures InAreas(InsertAt(areas, i, a), v) <==> InAreas(areas, v) || InArea(a, v)
    ensures UserAreas(areas) && UserArea(a) ==> UserAreas(InsertAt(areas, i, a))
  {
    var r := InsertAt(areas, i, a);
    assert forall j :: 0 <= j < |areas| ==> areas[j] == r[if j < i then j else j + 1];
    assert r[i] == a;
  }

  /** Nothing that was mapped changed. */
  ghost predicate Kept(m: Maps, data: Contents, m': Maps, data': Contents) {
    (forall k :: k in m ==> k in m' && m'[k] == m[k]) && forall f :: f in data ==> f in data' && data'[f] == data[f]
  }

  lemma FilledKept(m: Maps, data: Contents, m': Maps, data': Contents, d: nat, write: bool, lo: nat, hi: nat)
    requires Filled(m, data, m', data', d, write, lo, hi)
    ensures Kept(m, data, m', data')
  {
  }

  lemma KeptImage(m: Maps, data: Contents, m': Maps, data': Contents, d: nat, va: nat, bs: Content)
    requires Kept(m, data, m', data') && Image(m, data, d, va, bs)
    ensures Image(m', data', d, va, bs)
  {
    forall i | 0 <= i < |bs|
      ensures Holds(m', data', d, va + i, bs[i])
    {
      assert Holds(m, data, d, va + i, bs[i]);
    }
  }

  /** The pages of the new area are covered by the new list of areas. */
  lemma FilledCovered(m: Maps, data: Contents, m': Maps, data': Contents, d: nat, write: bool, hi: nat, areas: seq<Vma>,
                      i: nat, a: Vma)
    requires Filled(m, data, m', data', d, write, First(a), hi) && hi <= Last(a) && Covered(m, d, areas) && i <= |areas|
    ensures Covered(m', d, InsertAt(areas, i, a))
  {
    forall k | k in m' && k.0 == d
      ensures InAreas(InsertAt(areas, i, a), k.1)
    {
      InAreasInsert(areas, i, a, k.1);
      assert k !in m ==> InArea(a, k.1);
    }
  }

  lemma NewAreaSound(m: Maps, d: nat, areas: seq<Vma>, i: nat, a: Vma)
    requires i <= |areas| && UserAreas(areas) && UserArea(a)
    ensures UserAreas(InsertAt(areas, i, a))
    ensures Covered(m, d, areas) ==> Covered(m, d, InsertAt(areas, i, a))
  {
    InAreasInsert(areas, i, a, 0);
    forall k | k in m && k.0 == d && Covered(m, d, areas)
      ensures InAreas(InsertAt(areas, i, a), k.1)
    {
      InAreasInsert(areas, i, a, k.1);
    }
  }

  lemma SegmentFresh(s: Snapshot, d: nat, ph: Phdr, areas: seq<Vma>)
    requires Wanted(ph) && ph.va + ph.memsz < WORD && UserRange(Asked(ph.va, ph.memsz, Flags(ph)))
    requires Covered(s.maps, d, areas) && UserAreas(areas)
    requires forall b :: b in areas ==> Disjoint(Asked(ph.va, ph.memsz, Flags(ph)), b)
    ensures Fresh(s, d, ph)
  {
    hide PageTop;
    hide Covered;
    hide UserAreas;
    hide UserArea;
    AskedPages(ph);
    var a := Asked(ph.va, ph.memsz, Flags(ph));
    forall v | ph.va / PGSIZE <= v < PageTop(ph.va + ph.memsz)
      ensures (d, v) !in s.maps
    {
      NewAreaFresh(s.maps, d, areas, a, v);
    }
  }

  ghost function SegPages(ph: Phdr): set<nat> {
    Range(ph.va / PGSIZE, PageTop(ph.va + ph.memsz))
  }

  /** The conditions under which all segments are loaded: each in turn has a valid header, a range of user space apart
      from the areas so far, its bytes in the file, and frames for its pages and for the page tables not there yet. */
  ghost predicate AllLoadable(file: Content, phs: seq<Phdr>, areas: set<Vma>, free: int, ps: set<nat>)
    decreases |phs|
  {
    phs == [] ||
    var ph, rest := phs[0], phs[1..];
    if !ph.load || ph.filesz == 0 then AllLoadable(file, rest, areas, free, ps)
    else
      var a, need := Asked(ph.va, ph.memsz, Flags(ph)), Need(SegPages(ph), ps);
      ph.filesz <= ph.memsz && UserRange(a) && (forall b :: b in areas ==> Disjoint(a, b)) &&
      ph.offset + ph.filesz <= |file| && free >= need &&
      AllLoadable(file, rest, areas + {a}, free - need, ps + Tabs(SegPages(ph)))
  }

  ghost function Areas(areas: seq<Vma>): set<Vma> {
    set a | a in areas
  }

  lemma AreasInserted(areas: seq<Vma>, areas': seq<Vma>, a: Vma)
    requires Inserted(areas, areas', a)
    ensures Areas(areas') == Areas(areas) + {a}
  {
    var i: nat :| Splits(areas, a, i) && areas' == InsertAt(areas, i, a);
    assert areas == areas[..i] + areas[i..];
  }

  /** The conditions under which a segment is loaded. */
  ghost predicate Acceptable(file: Content, ph: Phdr, areas: seq<Vma>, free: set<nat>, ps: set<nat>) {
    var a := Asked(ph.va, ph.memsz, Flags(ph));
    Wanted(ph) && UserRange(a) && (forall b :: b in areas ==> Disjoint(a, b)) && Loadable(file, ph, free, ps)
  }

  /** The area of a segment: its whole pages, with VMM_READ 1, VMM_WRITE 2 and VMM_EXEC 4 as the header says. */
  ghost predicate SegmentArea(a: Vma, ph: Phdr) {
    a.start == ph.va / 4096 * 4096 && a.end % 4096 == 0 && ph.va + ph.memsz <= a.end < ph.va + ph.memsz + 4096 &&
    a.flags == (if ph.read then 1 else 0) + (if ph.write then 2 else 0) + (if ph.exec then 4 else 0)
  }

  lemma AskedFor(ph: Phdr)
    requires ph.va + ph.memsz < WORD && UserRange(Asked(ph.va, ph.memsz, Flags(ph)))
    ensures SegmentArea(Asked(ph.va, ph.memsz, Flags(ph)), ph)
  {
    var e := ph.va + ph.memsz;
    Rounded(e);
    assert e <= WORD - PGSIZE;
  }

  /** One program header of load_icode. */
  method LoadSegment(m: Machine, mm: MemMap, file: Content, ph: Phdr, junk: Content)
    returns (r: SegResult, ghost log: seq<Piece>)
    requires Sound(m, mm) && ph.va + ph.memsz < WORD && |junk| == PGSIZE
    modifies m, m.alloc, m.alloc.pages, mm
    ensures Sound(m, mm) && Kept(old(m.maps), old(m.data), m.maps, m.data) && m.Pool() == old(m.Pool())
    ensures r == Skipped <==> !ph.load || ph.filesz == 0
    ensures r == BadHeader <==> ph.load && ph.filesz > ph.memsz
    ensures r == Loaded <==> Acceptable(file, ph, old(mm.vmas), old(m.alloc.FreePages()), Pdes(old(m.dirs), mm.pgdir))
    ensures r == Refused || r == Overlap || r == Stopped ==> Wanted(ph)
    ensures Wanted(ph) ==> var a := Asked(ph.va, ph.memsz, Flags(ph));
      (r == Refused <==> !UserRange(a) || exists b :: b in old(mm.vmas) && Contains(b, a.start)) &&
      (r == Overlap <==> UserRange(a) && (forall b :: b in old(mm.vmas) ==> !Contains(b, a.start)) &&
                         exists b :: b in old(mm.vmas) && !Disjoint(a, b))
    ensures r == Loaded ==> Wanted(ph) && ph.offset + ph.filesz <= |file|
    ensures r == Loaded ==> Image(m.maps, m.data, mm.pgdir, ph.va, SegBytes(file, ph))
    ensures r == Loaded ==> Tiles(log, ph.va, ph.va + ph.memsz)
    ensures r == Loaded ==>
      Spent(old(m.alloc.FreePages()), m.alloc.FreePages(), Need(SegPages(ph), Pdes(old(m.dirs), mm.pgdir))) &&
      Pdes(m.dirs, mm.pgdir) == Pdes(old(m.dirs), mm.pgdir) + Tabs(SegPages(ph))
    ensures r != Loaded && r != Stopped ==> Now(m) == old(Now(m)) && mm.vmas == old(mm.vmas)
    ensures r == Loaded || r == Stopped ==>
      Inserted(old(mm.vmas), mm.vmas, Asked(ph.va, ph.memsz, Flags(ph))) &&
      SegmentArea(Asked(ph.va, ph.memsz, Flags(ph)), ph)
  {
    hide Machine.Valid;
    hide Machine.Pool;
    hide SegmentArea;
    hide Allocator.FreePages;
    hide MemMap.Valid;
    hide UserAreas;
    hide UserArea;
    hide Covered;
    hide Fresh;
    hide Filled;
    hide Image;
    hide Kept;
    hide Loadable;
    hide Spent;
    hide Tabs;
    hide Asked;
    hide UserRange;
    hide Disjoint;
    hide Pdes;
    hide Need;
    hide Range;
    hide PageTop;
    hide InsertAt;
    hide SegBytes;
    hide First;
    hide Last;
    hide Search;
    log := [];
    KeptSame(m.maps, m.data);
    if !ph.load {
      return Skipped, [];
    }
    if ph.filesz > ph.memsz {
      return BadHeader, [];
    }
    if ph.filesz == 0 {
      return Skipped, [];
    }
    ghost var s, areas, a := Now(m), mm.vmas, Asked(ph.va, ph.memsz, Flags(ph));
    SearchFails(areas, a.start);
    var mapped := mm.Map(ph.va, ph.memsz, Flags(ph));
    if mapped != Mapped {
      return (if mapped == Invalid then Refused else Overlap), [];
    }
    AskedFor(ph);
    SegmentFresh(s, mm.pgdir, ph, areas);
    AskedPages(ph);
    ghost var i :| Splits(areas, a, i) && mm.vmas == InsertAt(areas, i, a);
    NewAreaSound(m.maps, mm.pgdir, areas, i, a);
    ghost var v;
    var ok;
    ok, v, log := LoadPages(m, mm.pgdir, file, ph, junk);
    FilledKept(s.maps, s.data, m.maps, m.data, mm.pgdir, ph.write, ph.va / PGSIZE, v);
    FilledCovered(s.maps, s.data, m.maps, m.data, mm.pgdir, ph.write, v, areas, i, a);
    if ok {
      LoadableFile(file, ph, s.free, Pdes(s.dirs, mm.pgdir));
    }
    r := if ok then Loaded else Stopped;
  }

  /** A segment with no bytes in the file but with a size in memory is skipped: of its pages, those in no other area
      stay unmapped, and nothing else changes. */
  method BssSkipped(m: Machine, mm: MemMap, file: Content, ph: Phdr, junk: Content) returns (r: SegResult)
    requires Sound(m, mm) && ph.va + ph.memsz < WORD && |junk| == PGSIZE
    requires ph.load && ph.filesz == 0 && 0 < ph.memsz
    modifies m, m.alloc, m.alloc.pages, mm
    ensures r == Skipped && Now(m) == old(Now(m)) && mm.vmas == old(mm.vmas)
    ensures forall v :: ph.va / PGSIZE <= v < PageTop(ph.va + ph.memsz) && !InAreas(mm.vmas, v) ==>
      (mm.pgdir, v) !in m.maps
  {
    hide Machine.Valid;
    hide Machine.Pool;
    hide Allocator.FreePages;
    hide Acceptable;
    hide InAreas;
    hide PageTop;
    ghost var log;
    r, log := LoadSegment(m, mm, file, ph, junk);
  }

  lemma LoadableFile(file: Content, ph: Phdr, free: set<nat>, ps: set<nat>)
    requires Loadable(file, ph, free, ps)
    ensures ph.offset + ph.filesz <= |file|
  {
  }

  lemma KeptSame(m: Maps, data: Contents)
    ensures Kept(m, data, m, data)
  {
  }

  /** Segment ph is in place. */
  ghost predicate InPlace(m: Machine, d: nat, file: Content, ph: Phdr)
    reads m
  {
    Wanted(ph) && ph.offset + ph.filesz <= |file| && Image(m.maps, m.data, d, ph.va, SegBytes(file, ph))
  }

  /** All program headers: after a successful run every segment is in place, none disturbed by a later one. */
  method LoadSegments(m: Machine, mm: MemMap, file: Content, phs: seq<Phdr>, junk: Content) returns (ok: bool)
    requires Sound(m, mm) && |junk| == PGSIZE && forall i :: 0 <= i < |phs| ==> phs[i].va + phs[i].memsz < WORD
    modifies m, m.alloc, m.alloc.pages, mm
    ensures Sound(m, mm) && Kept(old(m.maps), old(m.data), m.maps, m.data) && m.Pool() == old(m.Pool())
    ensures ok <==>
      AllLoadable(file, phs, Areas(old(mm.vmas)), |old(m.alloc.FreePages())|, Pdes(old(m.dirs), mm.pgdir))
    ensures ok ==>
      forall i :: 0 <= i < |phs| ==> InPlace(m, mm.pgdir, file, phs[i]) || !phs[i].load || phs[i].filesz == 0
  {
    hide Sound;
    hide Kept;
    hide Acceptable;
    hide Image;
    hide SegBytes;
    hide Allocator.FreePages;
    hide Machine.Pool;
    hide AllLoadable;
    hide Areas;
    hide Spent;
    hide SegmentArea;
    hide Need;
    hide Tabs;
    hide SegPages;
    hide Pdes;
    ok := true;
    KeptSame(m.maps, m.data);
    ghost var all := AllLoadable(file, phs, Areas(mm.vmas), |m.alloc.FreePages()|, Pdes(m.dirs, mm.pgdir));
    assert phs[0..] == phs;
    for i := 0 to |phs|
      invariant all <==>
        AllLoadable(file, phs[i..], Areas(mm.vmas), |m.alloc.FreePages()|, Pdes(m.dirs, mm.pgdir))
      invariant Sound(m, mm) && Kept(old(m.maps), old(m.data), m.maps, m.data) && m.Pool() == old(m.Pool())
      invariant forall j :: 0 <= j < i ==> InPlace(m, mm.pgdir, file, phs[j]) || !phs[j].load || phs[j].filesz == 0
    {
      ghost var maps, data := m.maps, m.data;
      NextLoadable(file, phs, i, mm.vmas, m.alloc.FreePages(), Pdes(m.dirs, mm.pgdir));
      ghost var areas, free, ps := mm.vmas, m.alloc.FreePages(), Pdes(m.dirs, mm.pgdir);
      var r, _ := LoadSegment(m, mm, file, phs[i], junk);
      if r == Loaded {
        AreasInserted(areas, mm.vmas, Asked(phs[i].va, phs[i].memsz, Flags(phs[i])));
        SpentCount(free, m.alloc.FreePages(), Need(SegPages(phs[i]), ps));
      }
      KeptTwice(old(m.maps), old(m.data), maps, data, m.maps, m.data);
      if r != Skipped && r != Loaded {
        return false;
      }
      forall j | 0 <= j < i && Wanted(phs[j]) && phs[j].offset + phs[j].filesz <= |file|
        ensures Image(maps, data, mm.pgdir, phs[j].va, SegBytes(file, phs[j])) ==>
          Image(m.maps, m.data, mm.pgdir, phs[j].va, SegBytes(file, phs[j]))
      {
        if Image(maps, data, mm.pgdir, phs[j].va, SegBytes(file, phs[j])) {
          KeptImage(maps, data, m.maps, m.data, mm.pgdir, phs[j].va, SegBytes(file, phs[j]));
        }
      }
    }
    NoneLoadable(file, Areas(mm.vmas), |m.alloc.FreePages()|, Pdes(m.dirs, mm.pgdir));
    assert phs[|phs|..] == [];
  }

  /** What the next header makes of the rest. */
  lemma NextLoadable(file: Content, phs: seq<Phdr>, i: nat, areas: seq<Vma>, free: set<nat>, ps: set<nat>)
    requires i < |phs|
    ensures var ph := phs[i];
      AllLoadable(file, phs[i..], Areas(areas), |free|, ps) <==>
      if !ph.load || ph.filesz == 0 then AllLoadable(file, phs[i + 1..], Areas(areas), |free|, ps)
      else
        Acceptable(file, ph, areas, free, ps) &&
        AllLoadable(file, phs[i + 1..], Areas(areas) + {Asked(ph.va, ph.memsz, Flags(ph))},
                    |free| - Need(SegPages(ph), ps), ps + Tabs(SegPages(ph)))
  {
    hide Need;
    hide Tabs;
    hide Asked;
    hide UserRange;
    hide Disjoint;
    assert phs[i..][1..] == phs[i + 1..] && phs[i..][0] == phs[i];
    assert forall b :: b in Areas(areas) <==> b in areas;
  }

  lemma SpentCount(free: set<nat>, free': set<nat>, n: int)
    requires Spent(free, free', n)
    ensures |free'| == |free| - n
  {
  }

  lemma NoneLoadable(file: Content, areas: set<Vma>, free: int, ps: set<nat>)
    ensures AllLoadable(file, [], areas, free, ps)
  {
  }

  lemma KeptTwice(m: Maps, data: Contents, m1: Maps, data1: Contents, m2: Maps, data2: Contents)
    requires Kept(m, data, m1, data1) && Kept(m1, data1, m2, data2)
    ensures Kept(m, data, m2, data2)
  {
  }
}
