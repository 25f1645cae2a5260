/** Two-level page tables with counted page frames (kern/mm/page.c; 32-bit paging in section 4.3 of the Intel Software
    Developer's Manual, volume 3A). Only the user half of a page directory is modelled: the kernel half is a copy of the
    boot directory that these functions never change. Addresses are given by page number. */
module PageTables {
  import opened PageAllocator

  const ENTRIES := 1024
  const USER_PDES := 704
  const USER_PAGES := 720896

  /** A directory or table entry: the page frame and the PRESENT, WRITEABLE and USER bits. */
  datatype Entry = Entry(frame: nat, present: bool, write: bool, user: bool)

  const ZERO := Entry(0, false, false, false)

  type PageTable = seq<Entry>
  type Dirs = map<nat, seq<Entry>>
  type Tables = map<nat, PageTable>
  type Key = (nat, nat)
  type Maps = map<Key, Entry>

  /** Entry p of directory d is present and names frame f. */
  ghost predicate Owns(dirs: Dirs, d: nat, p: nat, f: nat) {
    d in dirs && p < |dirs[d]| && dirs[d][p].present && dirs[d][p].frame == f
  }

  /** Directories and tables have their sizes; each table belongs to exactly one directory entry. */
  ghost predicate Shaped(dirs: Dirs, tables: Tables) {
    (forall d :: d in dirs ==> |dirs[d]| == USER_PDES) &&
    (forall d, p :: d in dirs && 0 <= p < USER_PDES ==> dirs[d][p].present || dirs[d][p] == ZERO) &&
    (forall f :: f in tables ==> |tables[f]| == ENTRIES) &&
    (forall d, p, f :: Owns(dirs, d, p, f) ==> f in tables) &&
    (forall d, p, e, q, f :: Owns(dirs, d, p, f) && Owns(dirs, e, q, f) ==> d == e && p == q) &&
    (forall f :: f in tables ==> exists d, p :: Owns(dirs, d, p, f))
  }

  /** The page table entry of page v, zero when there is no table for it. */
  ghost function Pte(dirs: Dirs, tables: Tables, d: nat, v: nat): Entry
    requires Shaped(dirs, tables) && d in dirs && v < USER_PAGES
  {
    var pde := dirs[d][v / ENTRIES];
    if pde.present then
      assert Owns(dirs, d, v / ENTRIES, pde.frame);
      tables[pde.frame][v % ENTRIES]
    else ZERO
  }

  /** The ten bits above the lowest ten of a page number select the directory entry, the lowest ten the entry of its
      table. */
  lemma TwoLevels(dirs: Dirs, tables: Tables, d: nat, hi: nat, lo: nat)
    requires Shaped(dirs, tables) && d in dirs && hi < 704 && lo < 1024
    ensures var pde := dirs[d][hi];
      Pte(dirs, tables, d, 1024 * hi + lo) ==
      if pde.present && pde.frame in tables then tables[pde.frame][lo] else Entry(0, false, false, false)
  {
    assert (1024 * hi + lo) / ENTRIES == hi && (1024 * hi + lo) % ENTRIES == lo;
    if dirs[d][hi].present {
      assert Owns(dirs, d, hi, dirs[d][hi].frame);
    }
  }

  /** maps holds exactly the present page table entries, by directory and page; entries not present are zero. */
  ghost predicate Ties(dirs: Dirs, tables: Tables, maps: Maps)
    requires Shaped(dirs, tables)
  {
    (forall k :: k in maps ==> k.0 in dirs && k.1 < USER_PAGES && maps[k].present) &&
    (forall d, v :: d in dirs && 0 <= v < USER_PAGES ==> Pte(dirs, tables, d, v) == Looked(maps, d, v))
  }

  ghost function Looked(maps: Maps, d: nat, v: nat): Entry {
    if (d, v) in maps then maps[(d, v)] else ZERO
  }

  /** The mappings of a frame. */
  ghost function Users(maps: Maps, f: nat): set<Key> {
    set k | k in maps && maps[k].frame == f
  }

  lemma UsersAdd(maps: Maps, k: Key, e: Entry, f: nat)
    requires k !in maps
    ensures Users(maps[k := e], f) == Users(maps, f) + (if e.frame == f then {k} else {})
    ensures k !in Users(maps, f)
    ensures |Users(maps[k := e], f)| == |Users(maps, f)| + (if e.frame == f then 1 else 0)
  {
    assert Users(maps[k := e], f) == Users(maps, f) + (if e.frame == f then {k} else {});
  }

  lemma UsersRemove(maps: Maps, k: Key, f: nat)
    requires k in maps
    ensures Users(maps - {k}, f) == Users(maps, f) - {k}
    ensures |Users(maps - {k}, f)| == |Users(maps, f)| - (if maps[k].frame == f then 1 else 0)
  {
    assert Users(maps - {k}, f) == Users(maps, f) - {k};
    if maps[k].frame == f {
      assert k in Users(maps, f);
    } else {
      assert Users(maps, f) - {k} == Users(maps, f);
    }
  }

  lemma SplitPage(v: nat)
    requires v < USER_PAGES
    ensures v / ENTRIES < USER_PDES && v % ENTRIES < ENTRIES && v == v / ENTRIES * ENTRIES + v % ENTRIES
  {
  }

  // ---- writing one page table entry ----

  ghost function WithPte(dirs: Dirs, tables: Tables, d: nat, v: nat, e: Entry): Tables
    requires Shaped(dirs, tables) && d in dirs && v < USER_PAGES && dirs[d][v / ENTRIES].present
  {
    var f := dirs[d][v / ENTRIES].frame;
    assert Owns(dirs, d, v / ENTRIES, f);
    tables[f := tables[f][v % ENTRIES := e]]
  }

  lemma ShapedPte(dirs: Dirs, tables: Tables, d: nat, v: nat, e: Entry)
    requires Shaped(dirs, tables) && d in dirs && v < USER_PAGES && dirs[d][v / ENTRIES].present
    ensures Shaped(dirs, WithPte(dirs, tables, d, v, e)) && WithPte(dirs, tables, d, v, e).Keys == tables.Keys
  {
    assert Owns(dirs, d, v / ENTRIES, dirs[d][v / ENTRIES].frame);
  }

  /** No other page of any directory sees the change. */
  lemma PteSet(dirs: Dirs, tables: Tables, d: nat, v: nat, e: Entry, d': nat, v': nat)
    requires Shaped(dirs, tables) && d in dirs && v < USER_PAGES && dirs[d][v / ENTRIES].present
    requires d' in dirs && v' < USER_PAGES
    ensures Shaped(dirs, WithPte(dirs, tables, d, v, e))
    ensures Pte(dirs, WithPte(dirs, tables, d, v, e), d', v')
      == if d' == d && v' == v then e else Pte(dirs, tables, d', v')
  {
    ShapedPte(dirs, tables, d, v, e);
    SplitPage(v);
    SplitPage(v');
    var p, p' := v / ENTRIES, v' / ENTRIES;
    var f := dirs[d][p].frame;
    assert Owns(dirs, d, p, f);
    if dirs[d'][p'].present && dirs[d'][p'].frame == f {
      assert Owns(dirs, d', p', f);
    }
  }

  lemma TiesSet(dirs: Dirs, tables: Tables, maps: Maps, d: nat, v: nat, e: Entry)
    requires Shaped(dirs, tables) && Ties(dirs, tables, maps)
    requires d in dirs && v < USER_PAGES && dirs[d][v / ENTRIES].present && (e.present || e == ZERO)
    ensures Shaped(dirs, WithPte(dirs, tables, d, v, e))
    ensures Ties(dirs, WithPte(dirs, tables, d, v, e), if e.present then maps[(d, v) := e] else maps - {(d, v)})
  {
    ShapedPte(dirs, tables, d, v, e);
    var maps' := if e.present then maps[(d, v) := e] else maps - {(d, v)};
    forall d', v' | d' in dirs && 0 <= v' < USER_PAGES
      ensures Pte(dirs, WithPte(dirs, tables, d, v, e), d', v') == Looked(maps', d', v')
    {
      PteSet(dirs, tables, d, v, e, d', v');
      assert Pte(dirs, tables, d', v') == Looked(maps, d', v');
    }
  }

  // ---- adding and dropping page tables ----

  function EmptyTable(): PageTable {
    seq(ENTRIES, _ => ZERO)
  }

  ghost function WithPde(dirs: Dirs, d: nat, p: nat, e: Entry): Dirs
    requires d in dirs && p < |dirs[d]|
  {
    dirs[d := dirs[d][p := e]]
  }

  /** A new empty table changes no page. */
  lemma ShapedAdd(dirs: Dirs, tables: Tables, d: nat, p: nat, e: Entry)
    requires Shaped(dirs, tables) && d in dirs && p < USER_PDES && !dirs[d][p].present && e.present
    requires e.frame !in tables
    ensures Shaped(WithPde(dirs, d, p, e), tables[e.frame := EmptyTable()])
  {
    var dirs', tables' := WithPde(dirs, d, p, e), tables[e.frame := EmptyTable()];
    forall a, q, f
      ensures Owns(dirs', a, q, f) <==> Owns(dirs, a, q, f) || (a == d && q == p && f == e.frame)
    {
    }
    forall f | f in tables'
      ensures exists a, q :: Owns(dirs', a, q, f)
    {
      if f == e.frame {
        assert Owns(dirs', d, p, f);
      } else {
        var a, q :| Owns(dirs, a, q, f);
        assert Owns(dirs', a, q, f);
      }
    }
  }

  lemma TiesAdd(dirs: Dirs, tables: Tables, maps: Maps, d: nat, p: nat, e: Entry)
    requires Shaped(dirs, tables) && Ties(dirs, tables, maps)
    requires d in dirs && p < USER_PDES && !dirs[d][p].present && e.present && e.frame !in tables
    ensures Shaped(WithPde(dirs, d, p, e), tables[e.frame := EmptyTable()])
    ensures Ties(WithPde(dirs, d, p, e), tables[e.frame := EmptyTable()], maps)
  {
    ShapedAdd(dirs, tables, d, p, e);
    var dirs', tables' := WithPde(dirs, d, p, e), tables[e.frame := EmptyTable()];
    forall a, v | a in dirs' && 0 <= v < USER_PAGES
      ensures Pte(dirs', tables', a, v) == Looked(maps, a, v)
    {
      SplitPage(v);
      assert Pte(dirs, tables, a, v) == Looked(maps, a, v);
      if dirs[a][v / ENTRIES].present {
        assert Owns(dirs, a, v / ENTRIES, dirs[a][v / ENTRIES].frame);
      }
    }
  }

  /** No page of directory d is mapped through entry p. */
  ghost predicate Unused(maps: Maps, d: nat, p: nat) {
    forall k :: k in maps && k.0 == d ==> k.1 / ENTRIES != p
  }

  lemma ShapedDrop(dirs: Dirs, tables: Tables, d: nat, p: nat)
    requires Shaped(dirs, tables) && d in dirs && p < USER_PDES && dirs[d][p].present
    ensures Shaped(WithPde(dirs, d, p, ZERO), tables - {dirs[d][p].frame}) && dirs[d][p].frame in tables
  {
    var g := dirs[d][p].frame;
    var dirs', tables' := WithPde(dirs, d, p, ZERO), tables - {g};
    assert Owns(dirs, d, p, g);
    forall a, q, f
      ensures Owns(dirs', a, q, f) <==> Owns(dirs, a, q, f) && !(a == d && q == p)
    {
    }
    forall f | f in tables'
      ensures exists a, q :: Owns(dirs', a, q, f)
    {
      var a, q :| Owns(dirs, a, q, f);
      assert Owns(dirs', a, q, f);
    }
  }

  lemma TiesDrop(dirs: Dirs, tables: Tables, maps: Maps, d: nat, p: nat)
    requires Shaped(dirs, tables) && Ties(dirs, tables, maps)
    requires d in dirs && p < USER_PDES && dirs[d][p].present && Unused(maps, d, p)
    ensures Shaped(WithPde(dirs, d, p, ZERO), tables - {dirs[d][p].frame})
    ensures Ties(WithPde(dirs, d, p, ZERO), tables - {dirs[d][p].frame}, maps)
  {
    ShapedDrop(dirs, tables, d, p);
    var g := dirs[d][p].frame;
    var dirs', tables' := WithPde(dirs, d, p, ZERO), tables - {g};
    assert Owns(dirs, d, p, g);
    forall a, v | a in dirs' && 0 <= v < USER_PAGES
      ensures Pte(dirs', tables', a, v) == Looked(maps, a, v)
    {
      SplitPage(v);
      assert Pte(dirs, tables, a, v) == Looked(maps, a, v);
      if dirs[a][v / ENTRIES].present {
        assert Owns(dirs, a, v / ENTRIES, dirs[a][v / ENTRIES].frame);
      }
    }
  }

  // ---- counting ----

  type Content = seq<nat>

  /** Reference counts are exact: a frame with data is counted once for every entry naming it (and once more for x, if x
      is a frame just taken on by page_insert), and a page table once. */
  ghost predicate Counted(ps: Pages, maps: Maps, tables: set<nat>, data: set<nat>, x: int) {
    (forall f :: f in data ==> f < |ps| && ps[f].ref == |Users(maps, f)| + (if f == x then 1 else 0)) &&
    (forall f :: f in tables ==> f < |ps| && ps[f].ref == 1) &&
    (forall k :: k in maps ==> maps[k].frame in data)
  }

  /** Free frames, page tables and frames with data are different frames, none of them reserved; free frames are not
      counted. */
  ghost predicate Separate(ps: Pages, free: set<nat>, tables: set<nat>, data: set<nat>) {
    free !! tables && free !! data && tables !! data &&
    (forall f :: f in free ==> f < |ps| && ps[f].ref == 0) &&
    forall f :: f in tables || f in data ==> f < |ps| && !ps[f].reserved
  }

  lemma UsersKeep(maps: Maps, k: Key, e: Entry, f: nat)
    requires k in maps && maps[k].frame == e.frame
    ensures Users(maps[k := e], f) == Users(maps, f)
  {
  }

  /** Removing a mapping takes one count off its frame. */
  lemma CountedRemove(ps: Pages, qs: Pages, maps: Maps, tables: set<nat>, data: set<nat>, x: int, k: Key)
    requires Counted(ps, maps, tables, data, x) && k in maps && tables !! data
    requires var f := maps[k].frame; f < |ps| && qs == ps[f := ps[f].(ref := ps[f].ref - 1)]
    ensures Counted(qs, maps - {k}, tables, data, x)
  {
    forall f | f in data
      ensures f < |qs| && qs[f].ref == |Users(maps - {k}, f)| + (if f == x then 1 else 0)
    {
      UsersRemove(maps, k, f);
    }
  }

  /** A frame without mappings can leave. */
  lemma CountedLeave(ps: Pages, qs: Pages, maps: Maps, tables: set<nat>, data: set<nat>, x: int, f: nat)
    requires Counted(ps, maps, tables, data, x) && |qs| == |ps| && Users(maps, f) == {} && f in data && tables !! data
    requires forall i :: 0 <= i < |ps| && i != f ==> qs[i].ref == ps[i].ref
    ensures Counted(qs, maps, tables, data - {f}, x)
  {
    forall k | k in maps
      ensures maps[k].frame in data - {f}
    {
      assert maps[k].frame == f ==> k in Users(maps, f);
    }
  }

  lemma CountedAdd(ps: Pages, maps: Maps, tables: set<nat>, data: set<nat>, k: Key, e: Entry)
    requires Counted(ps, maps, tables, data, e.frame) && k !in maps && e.frame in data
    ensures Counted(ps, maps[k := e], tables, data, -1)
  {
    forall f | f in data
      ensures f < |ps| && ps[f].ref == |Users(maps[k := e], f)|
    {
      UsersAdd(maps, k, e, f);
    }
  }

  lemma CountedKeep(ps: Pages, maps: Maps, tables: set<nat>, data: set<nat>, k: Key, e: Entry)
    requires Counted(ps, maps, tables, data, -1) && k in maps && maps[k].frame == e.frame
    ensures Counted(ps, maps[k := e], tables, data, -1)
  {
    forall f | f in data
      ensures f < |ps| && ps[f].ref == |Users(maps[k := e], f)|
    {
      UsersKeep(maps, k, e, f);
    }
  }

  /** Counts and flags of all pages but f agree. */
  ghost predicate AlikeBut(ps: Pages, qs: Pages, f: nat) {
    |qs| == |ps| && f < |ps| && qs[f].reserved == ps[f].reserved &&
    forall i :: 0 <= i < |ps| && i != f ==> qs[i].ref == ps[i].ref && qs[i].reserved == ps[i].reserved
  }

  /** A free frame becomes a page table, counted once. */
  lemma BecomesTable(ps: Pages, qs: Pages, maps: Maps, free: set<nat>, tables: set<nat>, data: set<nat>, f: nat)
    requires Counted(ps, maps, tables, data, -1) && Separate(ps, free, tables, data)
    requires f in free && AlikeBut(ps, qs, f) && !qs[f].reserved && qs[f].ref == 1
    ensures Counted(qs, maps, tables + {f}, data, -1) && Separate(qs, free - {f}, tables + {f}, data)
  {
  }

  /** A page table becomes a free frame. */
  lemma TableBecomesFree(ps: Pages, qs: Pages, maps: Maps, free: set<nat>, tables: set<nat>, data: set<nat>, f: nat)
    requires Counted(ps, maps, tables, data, -1) && Separate(ps, free, tables, data)
    requires f in tables && AlikeBut(ps, qs, f) && qs[f].ref == 0
    ensures Counted(qs, maps, tables - {f}, data, -1) && Separate(qs, free + {f}, tables - {f}, data)
  {
  }

  class Machine {
    const alloc: Allocator
    var dirs: Dirs
    var tables: Tables
    var data: map<nat, Content>
    // The present page table entries of all directories.
    ghost var maps: Maps

    ghost predicate Ok(x: int)
      reads this, alloc, alloc.pages
    {
      alloc.Valid() && Shaped(dirs, tables) && Ties(dirs, tables, maps) &&
      Counted(alloc.pages[..], maps, tables.Keys, data.Keys, x) &&
      Separate(alloc.pages[..], alloc.FreePages(), tables.Keys, data.Keys)
    }

    ghost predicate Valid()
      reads this, alloc, alloc.pages
    {
      Ok(-1)
    }

    /** The frames that are free or in use by page tables and mappings. */
    ghost function Pool(): set<nat>
      reads this, alloc, alloc.pages
    {
      PoolOf(alloc.FreePages(), tables.Keys, data.Keys)
    }

    constructor (alloc: Allocator, dirs: Dirs)
      requires alloc.Valid() && forall f :: f in alloc.FreePages() ==> f < alloc.pages.Length && alloc.pages[f].ref == 0
      requires forall d :: d in dirs ==> |dirs[d]| == USER_PDES && forall p :: 0 <= p < USER_PDES ==> dirs[d][p] == ZERO
      ensures Valid() && this.alloc == alloc && this.dirs == dirs && maps == map[] && data == map[] && tables == map[]
    {
      this.alloc, this.dirs, tables, data, maps := alloc, dirs, map[], map[], map[];
    }

    /** get_pte: is there a page table for page v, made if asked for? */
    method GetPte(d: nat, v: nat, create: bool) returns (ok: bool)
      requires Valid() && d in dirs && v < USER_PAGES
      modifies `dirs, `tables, alloc, alloc.pages
      ensures Valid() && Pool() == old(Pool())
      ensures ok <==> v / ENTRIES in old(Pdes(dirs, d)) || (create && old(alloc.FreePages()) != {})
      ensures ok <==> v / ENTRIES in Pdes(dirs, d)
      ensures Opened(old(dirs), dirs, d, PdeOf(ok, v)) && dirs.Keys == old(dirs.Keys)
      ensures Spent(old(alloc.FreePages()), alloc.FreePages(),
                    if ok && v / ENTRIES !in old(Pdes(dirs, d)) then 1 else 0)
      ensures !create ==> dirs == old(dirs) && alloc.FreePages() == old(alloc.FreePages())
    {
      hide Allocator.Valid;
      hide Allocator.FreePages;
      hide Shaped;
      hide Ties;
      hide Counted;
      hide Separate;
      SplitPage(v);
      ShapedSize(dirs, tables);
      var p := v / ENTRIES;
      ok := true;
      OpenedNone(dirs, d, if dirs[d][p].present then {p} else {});
      if !dirs[d][p].present {
        ok := false;
        if create {
          ok := NewTable(d, p);
        }
      }
    }

    /** Frame f, counted once and no longer free, becomes an empty page table. */
    method AttachTable(d: nat, p: nat, f: nat)
      requires alloc.Valid() && Shaped(dirs, tables) && Ties(dirs, tables, maps)
      requires Counted(alloc.pages[..], maps, tables.Keys + {f}, data.Keys, -1)
      requires Separate(alloc.pages[..], alloc.FreePages(), tables.Keys + {f}, data.Keys)
      requires d in dirs && p < |dirs[d]| == USER_PDES && !dirs[d][p].present && f !in tables
      modifies `dirs, `tables
      ensures Valid() && dirs == WithPde(old(dirs), d, p, Entry(f, true, true, true))
      ensures tables.Keys == old(tables.Keys) + {f}
      ensures alloc.FreePages() == old(alloc.FreePages())
    {
      hide Allocator.Valid;
      hide Allocator.FreePages;
      hide Shaped;
      hide Ties;
      hide Counted;
      hide Separate;
      var e := Entry(f, true, true, true);
      TiesAdd(dirs, tables, maps, d, p, e);
      SetPde(d, p, e);
      tables := tables[f := EmptyTable()];
      assert tables.Keys == old(tables.Keys) + {f};
    }

    method SetPde(d: nat, p: nat, e: Entry)
      requires d in dirs && p < |dirs[d]|
      modifies `dirs
      ensures dirs == WithPde(old(dirs), d, p, e)
    {
      dirs := dirs[d := dirs[d][p := e]];
    }

    /** Take a frame for a page table. */
    method TableFrame() returns (ok: bool, f: nat)
      requires Valid()
      modifies alloc, alloc.pages
      ensures alloc.Valid() && (ok <==> old(alloc.FreePages()) != {})
      ensures !ok ==> Valid() && alloc.FreePages() == old(alloc.FreePages())
      ensures ok ==> f in old(alloc.FreePages()) && f !in tables && alloc.FreePages() == old(alloc.FreePages()) - {f}
      ensures ok ==> Counted(alloc.pages[..], maps, tables.Keys + {f}, data.Keys, -1)
      ensures ok ==> Separate(alloc.pages[..], alloc.FreePages(), tables.Keys + {f}, data.Keys)
    {
      hide Allocator.Valid;
      hide Allocator.FreePages;
      hide Shaped;
      hide Ties;
      hide Counted;
      hide Separate;
      ghost var ps, free := alloc.pages[..], alloc.FreePages();
      Apart3(ps, free, tables.Keys, data.Keys);
      ok, f := alloc.AllocOne();
      if ok {
        alloc.SetRef(f, 1);
        BecomesTable(ps, alloc.pages[..], maps, free, tables.Keys, data.Keys, f);
      } else {
        SameCounts(ps, alloc.pages[..], maps, free, tables.Keys, data.Keys);
      }
    }

    /** A fresh page table for entry p of directory d, if a frame is free. */
    method NewTable(d: nat, p: nat) returns (ok: bool)
      requires Valid() && d in dirs && p < |dirs[d]| == USER_PDES && !dirs[d][p].present
      modifies `dirs, `tables, alloc, alloc.pages
      ensures Valid() && Pool() == old(Pool()) && (ok <==> old(alloc.FreePages()) != {})
      ensures ok ==> p in Pdes(dirs, d)
      ensures Opened(old(dirs), dirs, d, if ok then {p} else {}) && dirs.Keys == old(dirs.Keys)
      ensures Spent(old(alloc.FreePages()), alloc.FreePages(), if ok then 1 else 0)
    {
      hide Allocator.Valid;
      hide Allocator.FreePages;
      hide Shaped;
      hide Ties;
      hide Counted;
      hide Separate;
      hide Opened;
      hide Pdes;
      hide PoolOf;
      ghost var free := alloc.FreePages();
      OpenedNone(dirs, d, {});
      var f;
      ok, f := TableFrame();
      if ok {
        OpenedOne(dirs, free, d, p, Entry(f, true, true, true));
        PoolMove(free, tables.Keys, data.Keys, f);
        AttachTable(d, p, f);
      }
    }

    /** Read the page table entry of page v, which has a table. */
    method GetEntry(d: nat, v: nat) returns (e: Entry)
      requires Shaped(dirs, tables) && Ties(dirs, tables, maps) && d in dirs && v < USER_PAGES
      requires v / ENTRIES in Pdes(dirs, d)
      ensures e == Looked(maps, d, v) && (e.present <==> (d, v) in maps)
    {
      assert Owns(dirs, d, v / ENTRIES, dirs[d][v / ENTRIES].frame);
      e := tables[dirs[d][v / ENTRIES].frame][v % ENTRIES];
      assert Pte(dirs, tables, d, v) == Looked(maps, d, v);
    }

    /** Store a page table entry: a mapping, or zero. */
    method SetEntry(d: nat, v: nat, e: Entry)
      requires Shaped(dirs, tables) && Ties(dirs, tables, maps) && d in dirs && v < USER_PAGES
      requires v / ENTRIES in Pdes(dirs, d)
      requires e.present || e == ZERO
      modifies `tables, `maps
      ensures Shaped(dirs, tables) && Ties(dirs, tables, maps) && tables.Keys == old(tables.Keys)
      ensures maps == if e.present then old(maps)[(d, v) := e] else old(maps) - {(d, v)}
    {
      hide Ties;
      TiesSet(dirs, tables, maps, d, v, e);
      ShapedPte(dirs, tables, d, v, e);
      assert Owns(dirs, d, v / ENTRIES, dirs[d][v / ENTRIES].frame);
      var f := dirs[d][v / ENTRIES].frame;
      tables := tables[f := tables[f][v % ENTRIES := e]];
      maps := if e.present then maps[(d, v) := e] else maps - {(d, v)};
    }

    /** pte_remove_page: unmap page v; its frame is freed when this was its last mapping. */
    method RemovePte(d: nat, v: nat, ghost x: int)
      requires Ok(x) && d in dirs && v < USER_PAGES && v / ENTRIES in Pdes(dirs, d)
      modifies `tables, `data, `maps, alloc, alloc.pages
      ensures Ok(x) && Pool() == old(Pool()) && tables.Keys == old(tables.Keys)
      ensures maps == old(maps) - {(d, v)}
      ensures data == old(data) - Orphans(old(maps), (d, v), x)
    {
      hide Allocator.Valid;
      hide Allocator.FreePages;
      hide Shaped;
      hide Ties;
      hide Counted;
      hide Separate;
      hide PoolOf;
      hide Pdes;
      hide Users;
      var e := GetEntry(d, v);
      if e.present {
        DropCount(e.frame, (d, v), x);
        SetEntry(d, v, ZERO);
      } else {
        assert maps - {(d, v)} == maps;
      }
    }

    /** Take a frame that holds c and that nothing maps yet. */
    method NewFrame(c: Content) returns (ok: bool, f: nat)
      requires Valid()
      modifies `data, alloc, alloc.pages
      ensures Valid() && Pool() == old(Pool()) && (ok <==> old(alloc.FreePages()) != {})
      ensures !ok ==> data == old(data) && alloc.FreePages() == old(alloc.FreePages())
      ensures ok ==> f in old(alloc.FreePages()) && alloc.FreePages() == old(alloc.FreePages()) - {f}
      ensures ok ==> f !in old(data) && data == old(data)[f := c] && Users(maps, f) == {}
    {
      hide Allocator.Valid;
      hide Allocator.FreePages;
      hide Shaped;
      hide Ties;
      hide Counted;
      hide Separate;
      hide PoolOf;
      hide Users;
      ghost var ps, free := alloc.pages[..], alloc.FreePages();
      Apart3(ps, free, tables.Keys, data.Keys);
      ok, f := alloc.AllocOne();
      if ok {
        BecomesData(ps, alloc.pages[..], maps, free, tables.Keys, data.Keys, f);
        PoolMove(free, tables.Keys, data.Keys, f);
        assert data[f := c].Keys == data.Keys + {f};
        data := data[f := c];
      } else {
        SameCounts(ps, alloc.pages[..], maps, free, tables.Keys, data.Keys);
      }
    }

    /** page_ref_inc for a frame about to be mapped. */
    method CountUp(f: nat)
      requires Valid() && f in data
      modifies alloc.pages
      ensures Ok(f) && alloc.FreePages() == old(alloc.FreePages())
    {
      hide Allocator.Valid;
      hide Allocator.FreePages;
      hide Shaped;
      hide Ties;
      ghost var ps := alloc.pages[..];
      alloc.SetRef(f, alloc.pages[f].ref + 1);
      SameSeparate(ps, alloc.pages[..], alloc.FreePages(), tables.Keys, data.Keys, f);
    }

    /** page_ref_dec for a frame that was mapped already. */
    method CountDown(f: nat)
      requires Ok(f) && f in data
      modifies alloc.pages
      ensures Valid() && alloc.FreePages() == old(alloc.FreePages())
    {
      hide Allocator.Valid;
      hide Allocator.FreePages;
      hide Shaped;
      hide Ties;
      ghost var ps := alloc.pages[..];
      alloc.SetRef(f, alloc.pages[f].ref - 1);
      SameSeparate(ps, alloc.pages[..], alloc.FreePages(), tables.Keys, data.Keys, f);
    }

    /** Make room for mapping frame f at page v: the frame is counted, and what v maps is uncounted. */
    method Displace(d: nat, v: nat, f: nat)
      requires Valid() && d in dirs && v < USER_PAGES && v / ENTRIES in Pdes(dirs, d) && f in data
      modifies `tables, `data, `maps, alloc, alloc.pages
      ensures alloc.Valid() && Shaped(dirs, tables) && Ties(dirs, tables, maps) && Pool() == old(Pool())
      ensures Separate(alloc.pages[..], alloc.FreePages(), tables.Keys, data.Keys)
      ensures if (d, v) in old(maps) && old(maps)[(d, v)].frame == f
        then maps == old(maps) && Counted(alloc.pages[..], maps, tables.Keys, data.Keys, -1)
        else maps == old(maps) - {(d, v)} && Counted(alloc.pages[..], maps, tables.Keys, data.Keys, f)
      ensures data == old(data) - Orphans(old(maps), (d, v), f) && f in data && tables.Keys == old(tables.Keys)
      ensures (d, v) !in old(maps) ==> alloc.FreePages() == old(alloc.FreePages())
    {
      hide Allocator.Valid;
      hide Allocator.FreePages;
      hide Shaped;
      hide Ties;
      hide Counted;
      hide Separate;
      hide PoolOf;
      hide Pdes;
      hide Users;
      var e := GetEntry(d, v);
      CountUp(f);
      if e.present && e.frame == f {
        CountDown(f);
      } else if e.present {
        RemovePte(d, v, f);
      } else {
        assert maps - {(d, v)} == maps;
      }
    }

    /** page_insert: map page v to frame f. It fails only when a page table is needed and no frame is free. */
    method PageInsert(d: nat, f: nat, v: nat, write: bool, user: bool) returns (ok: bool)
      requires Valid() && d in dirs && v < USER_PAGES && f in data
      modifies this, alloc, alloc.pages
      ensures Valid() && Pool() == old(Pool())
      ensures ok <==> v / ENTRIES in old(Pdes(dirs, d)) || old(alloc.FreePages()) != {}
      ensures !ok ==> maps == old(maps) && data == old(data)
      ensures ok ==> maps == old(maps)[(d, v) := Entry(f, true, write, user)]
      ensures ok ==> data == old(data) - Orphans(old(maps), (d, v), f)
      ensures Opened(old(dirs), dirs, d, PdeOf(ok, v)) && dirs.Keys == old(dirs.Keys)
      ensures (d, v) !in old(maps) ==>
        Spent(old(alloc.FreePages()), alloc.FreePages(), if ok && v / ENTRIES !in old(Pdes(dirs, d)) then 1 else 0)
    {
      hide Allocator.Valid;
      hide Allocator.FreePages;
      hide Shaped;
      hide Ties;
      hide Counted;
      hide Separate;
      hide PoolOf;
      hide Pdes;
      hide Users;
      hide Opened;
      ok := GetPte(d, v, true);
      if ok {
        ghost var free := alloc.FreePages();
        Displace(d, v, f);
        var e := Entry(f, true, write, user);
        if (d, v) in maps {
          CountedKeep(alloc.pages[..], maps, tables.Keys, data.Keys, (d, v), e);
        } else {
          CountedAdd(alloc.pages[..], maps, tables.Keys, data.Keys, (d, v), e);
        }
        SetEntry(d, v, e);
        assert maps == old(maps)[(d, v) := e];
      }
    }

    /** page_remove. */
    method PageRemove(d: nat, v: nat)
      requires Valid() && d in dirs && v < USER_PAGES
      modifies this, alloc, alloc.pages
      ensures Valid() && Pool() == old(Pool()) && dirs == old(dirs)
      ensures maps == old(maps) - {(d, v)} && data == old(data) - Orphans(old(maps), (d, v), -1)
    {
      hide Allocator.Valid;
      hide Allocator.FreePages;
      hide Shaped;
      hide Ties;
      hide Counted;
      hide Separate;
      hide PoolOf;
      hide Users;
      var ok := GetPte(d, v, false);
      if ok {
        RemovePte(d, v, -1);
      } else {
        NoTable(dirs, tables, maps, d, v);
        assert maps - {(d, v)} == maps;
      }
    }

    /** pgdir_alloc_page: map page v to a new frame, which holds junk; a frame that cannot be mapped goes back. */
    method PgdirAllocPage(d: nat, v: nat, write: bool, user: bool, junk: Content) returns (ok: bool, f: nat)
      requires Valid() && d in dirs && v < USER_PAGES
      modifies this, alloc, alloc.pages
      ensures Valid() && Pool() == old(Pool())
      ensures ok <==> |old(alloc.FreePages())| >= PageNeed(old(dirs), d, v)
      ensures !ok ==> maps == old(maps) && data == old(data)
      ensures ok ==> f in old(alloc.FreePages()) && maps == old(maps)[(d, v) := Entry(f, true, write, user)]
      ensures ok ==> data == (old(data) - Orphans(old(maps), (d, v), -1))[f := junk] && f !in old(data)
      ensures ok && (d, v) !in old(maps) ==> Spent(old(alloc.FreePages()), alloc.FreePages(), PageNeed(old(dirs), d, v))
      ensures Opened(old(dirs), dirs, d, PdeOf(ok, v)) && dirs.Keys == old(dirs.Keys)
    {
      hide Allocator.Valid;
      hide Allocator.FreePages;
      hide Shaped;
      hide Ties;
      hide Counted;
      hide Separate;
      hide PoolOf;
      hide Users;
      hide Pdes;
      hide Opened;
      hide Spent;
      hide Orphans;
      OpenedNone(dirs, d, {});
      ghost var free := alloc.FreePages();
      ok, f := NewFrame(junk);
      if ok {
        Spare(free, f);
        OrphanOther(maps, (d, v), f);
        AddThenDrop(old(data), f, junk, Orphans(maps, (d, v), -1));
        ok := PageInsert(d, f, v, write, user);
        if !ok {
          FreeData(f, maps, -1);
        } else if (d, v) !in old(maps) {
          SpentMore(free, f, alloc.FreePages(), if v / ENTRIES in old(Pdes(dirs, d)) then 0 else 1);
        }
      }
    }

    /** Write to a frame. */
    method WriteFrame(f: nat, c: Content)
      requires Valid() && f in data
      modifies `data
      ensures Valid() && data == old(data)[f := c] && Pool() == old(Pool())
      ensures alloc.FreePages() == old(alloc.FreePages())
    {
      hide Allocator.Valid;
      hide Shaped;
      hide Ties;
      hide Counted;
      hide Separate;
      assert data[f := c].Keys == data.Keys;
      data := data[f := c];
    }

    /** unmap_range: unmap the pages from s up to e, stepping over page tables that do not exist. */
    method UnmapRange(d: nat, s: nat, e: nat)
      requires Valid() && d in dirs && s < e <= USER_PAGES
      modifies this, alloc, alloc.pages
      ensures Valid() && Pool() == old(Pool()) && dirs == old(dirs)
      ensures maps == old(maps) - KeysIn(old(maps), d, s, e)
      ensures data == old(data) - Lost(old(maps), KeysIn(old(maps), d, s, e))
    {
      hide Allocator.Valid;
      hide Allocator.FreePages;
      hide Shaped;
      hide Ties;
      hide Counted;
      hide Separate;
      hide PoolOf;
      hide Users;
      hide Pdes;
      hide KeysIn;
      hide Lost;
      hide Orphans;
      var v := s;
      ghost var m := maps;
      KeysNone(m, d, s);
      while v < e
        invariant s <= v <= USER_PAGES && Valid() && Pool() == old(Pool()) && dirs == old(dirs)
        invariant maps == m - KeysIn(m, d, s, Min(v, e))
        invariant data == old(data) - Lost(m, KeysIn(m, d, s, Min(v, e)))
        decreases e - v
      {
        var ok := GetPte(d, v, false);
        if !ok {
          ghost var next := NextTable(v);
          NoneToNext(dirs, tables, maps, d, v);
          KeysSkip(m, d, s, v, Min(next, e));
          v := NextTable(v);
        } else {
          UnmapStep(m, d, s, v, old(data));
          RemovePte(d, v, -1);
          v := v + 1;
        }
      }
    }

    /** Free the page table behind entry p of directory d, through which nothing is mapped. */
    method DropTable(d: nat, p: nat)
      requires Valid() && d in dirs && p < |dirs[d]| == USER_PDES && dirs[d][p].present && Unused(maps, d, p)
      modifies `dirs, `tables, alloc, alloc.pages
      ensures Valid() && Pool() == old(Pool()) && dirs == WithPde(old(dirs), d, p, ZERO)
    {
      hide Allocator.Valid;
      hide Allocator.FreePages;
      hide Shaped;
      hide Ties;
      hide Counted;
      hide PoolOf;
      hide Range;
      hide Unused;
      hide WithPde;
      ghost var ps, free := alloc.pages[..], alloc.FreePages();
      var f := dirs[d][p].frame;
      ShapedDrop(dirs, tables, d, p);
      TiesDrop(dirs, tables, maps, d, p);
      RangeOne(f);
      alloc.Release(f, 1);
      TableBecomesFree(ps, alloc.pages[..], maps, free, tables.Keys, data.Keys, f);
      PoolBack(free, tables.Keys, data.Keys, f);
      assert (tables - {f}).Keys == tables.Keys - {f};
      hide Separate;
      SetPde(d, p, ZERO);
      tables := tables - {f};
    }

    /** exit_range: free the page tables that the pages from s up to e reach. */
    method ExitRange(d: nat, s: nat, e: nat)
      requires Valid() && d in dirs && s < e <= USER_PAGES
      requires forall p :: s / ENTRIES <= p < PdeTop(e) ==> Unused(maps, d, p)
      modifies `dirs, `tables, alloc, alloc.pages
      ensures Valid() && Pool() == old(Pool()) && Closed(old(dirs), dirs, d, s / ENTRIES, PdeTop(e))
    {
      hide Allocator.Valid;
      hide Allocator.FreePages;
      hide Shaped;
      hide Ties;
      hide Counted;
      hide Separate;
      hide PoolOf;
      hide Users;
      hide Pdes;
      hide Unused;
      ghost var dirs0 := dirs;
      ShapedSize(dirs, tables);
      var v := s / ENTRIES * ENTRIES;
      ghost var p := s / ENTRIES;
      while v < e
        invariant s / ENTRIES <= p <= PdeTop(e) && v == p * ENTRIES && Valid() && Pool() == old(Pool())
        invariant Closed(dirs0, dirs, d, s / ENTRIES, p)
        decreases e - v
      {
        PdeBelow(p, e);
        if dirs[d][v / ENTRIES].present {
          DropTable(d, v / ENTRIES);
        } else {
          ShapedZero(dirs, tables, d, p);
        }
        v := v + ENTRIES;
        p := p + 1;
      }
      PdeReached(p, e);
    }

    /** One page of copy_range: page v of directory from is copied to a new frame for directory to. */
    method CopyPage(to: nat, from: nat, v: nat) returns (ok: bool)
      requires Valid() && to in dirs && from in dirs && to != from && v < USER_PAGES && (from, v) in maps
      requires (to, v) !in maps
      requires v / ENTRIES in Pdes(dirs, from)
      modifies this, alloc, alloc.pages
      ensures Valid() && Pool() == old(Pool())
      ensures ok <==> |old(alloc.FreePages())| >= PageNeed(old(dirs), to, v)
      ensures !ok ==> maps == old(maps) && data == old(data)
      ensures ok ==> Copied(old(maps), old(data), old(alloc.FreePages()), maps, data, to, from, {v})
      ensures ok ==> Spent(old(alloc.FreePages()), alloc.FreePages(), PageNeed(old(dirs), to, v))
      ensures Grown(old(dirs), dirs, to, PdeOf(true, v)) && (ok ==> v / ENTRIES in Pdes(dirs, to))
      ensures dirs.Keys == old(dirs.Keys)
    {
      hide Allocator.Valid;
      hide Allocator.FreePages;
      hide Shaped;
      hide Ties;
      hide Counted;
      hide Separate;
      hide PoolOf;
      hide Users;
      hide Pdes;
      hide Opened;
      hide Orphans;
      hide Copied;
      hide Grown;
      hide PdeOf;
      ghost var free0, dirs0 := alloc.FreePages(), dirs;
      NeedMore(free0, dirs, to, v);
      MappedHasData(alloc.pages[..], maps, tables.Keys, data.Keys, (from, v));
      var e := GetEntry(from, v);
      ok := GetPte(to, v, true);
      OpenedGrown(dirs0, dirs, to, v, ok);
      if ok {
        ghost var free1 := alloc.FreePages();
        var f;
        ok, f := NewFrame(data[e.frame]);
        if ok {
          Spare(free1, f);
          OrphanNone(maps, (to, v), f);
          ghost var dirs1 := dirs;
          ok := PageInsert(to, f, v, e.write, e.user);
          OpenedSame(dirs1, dirs, to, v);
          CopiedOne(old(maps), old(data), free0, maps, data, to, from, v, f);
        }
      }
    }

    /** copy_range: copy the mapped pages from s up to e. It succeeds exactly when there are enough free frames. */
    method CopyRange(to: nat, from: nat, s: nat, e: nat) returns (ok: bool)
      requires Valid() && to in dirs && from in dirs && to != from && s < e <= USER_PAGES
      requires forall v :: s <= v < e ==> (to, v) !in maps
      modifies this, alloc, alloc.pages
      ensures Valid() && Pool() == old(Pool()) && dirs.Keys == old(dirs.Keys)
      ensures ok <==> |old(alloc.FreePages())| >= Need(PagesIn(old(maps), from, s, e), Pdes(old(dirs), to))
      ensures Copied(old(maps), old(data), old(alloc.FreePages()), maps, data, to, from, PagesIn(maps, to, s, e))
      ensures ok ==> PagesIn(maps, to, s, e) == PagesIn(old(maps), from, s, e)
      ensures ok ==>
        Spent(old(alloc.FreePages()), alloc.FreePages(), Need(PagesIn(old(maps), from, s, e), Pdes(old(dirs), to)))
      ensures ok ==> Pdes(dirs, to) == Pdes(old(dirs), to) + Tabs(PagesIn(old(maps), from, s, e))
      ensures Grown(old(dirs), dirs, to, Range(s / ENTRIES, PdeTop(e)))
    {
      hide Allocator.Valid;
      hide Allocator.FreePages;
      hide Shaped;
      hide Ties;
      hide Counted;
      hide Separate;
      hide PoolOf;
      hide Users;
      hide Pdes;
      hide Copied;
      hide Grown;
      hide PagesIn;
      hide Tabs;
      hide Need;
      hide Spent;
      hide Range;
      ghost var m, data0, free, dirs0, ps := maps, data, alloc.FreePages(), dirs, Pdes(dirs, to);
      var v := s;
      ok := true;
      CopyStart(m, data, free, dirs, to, from, s, e);
      CountedBacked(alloc.pages[..], maps, tables.Keys, data, -1);
      while v < e
        invariant s <= v <= USER_PAGES && Valid() && Pool() == old(Pool()) && dirs.Keys == dirs0.Keys && ok
        invariant Copying(m, data0, free, dirs0, maps, data, alloc.FreePages(), dirs, to, from, s, e,
                          PagesIn(m, from, s, Min(v, e)))
        decreases e - v
      {
        var has := GetPte(from, v, false);
        if !has {
          NoneToNext(dirs, tables, maps, from, v);
          CopySkip(m, data0, free, maps, data, to, from, s, v, e, PagesIn(m, from, s, v));
          v := NextTable(v);
        } else {
          var entry := GetEntry(from, v);
          ok := CopyStep(to, from, v, entry.present, m, data0, free, dirs0, s, e);
          if !ok {
            CopiedPages(m, data0, free, maps, data, to, from, s, v, e);
            return;
          }
          v := v + 1;
        }
      }
      CopiedPages(m, data0, free, maps, data, to, from, s, e, e);
      NeedEnough(free, alloc.FreePages(), Need(PagesIn(m, from, s, e), ps));
    }

    /** The loop body of copy_range where there is a page table. */
    method CopyStep(to: nat, from: nat, v: nat, present: bool, ghost m: Maps, ghost data0: Contents,
                    ghost free: set<nat>, ghost dirs0: Dirs, ghost s: nat, ghost e: nat) returns (ok: bool)
      requires Valid() && to in dirs && from in dirs && to != from && s <= v < e <= USER_PAGES
      requires v / ENTRIES in Pdes(dirs, from)
      requires forall w :: s <= w < e ==> (to, w) !in m
      requires Backed(m, data0) && (present <==> (from, v) in maps)
      requires Copying(m, data0, free, dirs0, maps, data, alloc.FreePages(), dirs, to, from, s, e,
                       PagesIn(m, from, s, v))
      modifies this, alloc, alloc.pages
      ensures Valid() && Pool() == old(Pool()) && dirs.Keys == old(dirs.Keys)
      ensures ok ==>
        Copying(m, data0, free, dirs0, maps, data, alloc.FreePages(), dirs, to, from, s, e, PagesIn(m, from, s, v + 1))
      ensures !ok ==> Copied(m, data0, free, maps, data, to, from, PagesIn(m, from, s, v))
      ensures !ok ==> Grown(dirs0, dirs, to, Range(s / ENTRIES, PdeTop(e)))
      ensures !ok ==> |free| < Need(PagesIn(m, from, s, e), Pdes(dirs0, to))
    {
      hide Allocator.Valid;
      hide Allocator.FreePages;
      hide Shaped;
      hide Ties;
      hide Counted;
      hide Separate;
      hide PoolOf;
      hide Users;
      hide Pdes;
      hide Copied;
      hide Grown;
      hide PagesIn;
      hide Tabs;
      hide Need;
      hide Spent;
      hide Range;
      hide PdeOf;
      hide Copying;
      ghost var vs, maps1, data1, free1, dirs1 := PagesIn(m, from, s, v), maps, data, alloc.FreePages(), dirs;
      CopyFacts(m, data0, free, dirs0, maps, data, free1, dirs, to, from, s, e, v);
      PagesStep(m, from, s, v);
      ok := true;
      if present {
        NeedAdd(vs, Pdes(dirs0, to), v);
        NeedMono(PagesIn(m, from, s, v + 1), PagesIn(m, from, s, e), Pdes(dirs0, to));
        PagesMono(m, from, s, v + 1, e);
        Apart3(alloc.pages[..], free1, tables.Keys, data.Keys);
        ok := CopyPage(to, from, v);
        CopyGrown(dirs0, dirs1, dirs, to, s, e, v);
        if ok {
          CopiedTrans(m, data0, free, maps1, data1, free1, maps, data, to, from, vs, {v});
          CopyNext(m, data0, free, dirs0, maps, data, free1, alloc.FreePages(), dirs1, dirs, to, from, s, e, vs, v);
        } else {
          NotEnough(free, free1, Need(vs, Pdes(dirs0, to)), PageNeed(dirs1, to, v),
                    Need(PagesIn(m, from, s, e), Pdes(dirs0, to)));
        }
      }
    }

    /** The counting half of pte_remove_page, for a page mapped to frame f. */
    method DropCount(f: nat, ghost k: Key, ghost x: int)
      requires Ok(x) && k in maps && maps[k].frame == f
      modifies `data, alloc, alloc.pages
      ensures alloc.Valid() && Pool() == old(Pool()) && data == old(data) - Orphans(maps, k, x)
      ensures Counted(alloc.pages[..], maps - {k}, tables.Keys, data.Keys, x)
      ensures Separate(alloc.pages[..], alloc.FreePages(), tables.Keys, data.Keys)
    {
      hide Allocator.Valid;
      hide Allocator.FreePages;
      hide Shaped;
      hide Ties;
      hide Counted;
      hide Separate;
      hide Users;
      ghost var ps, ts, ds := alloc.pages[..], tables.Keys, data.Keys;
      LastUser(maps, k);
      CountOf(ps, maps, ts, ds, x, k);
      Apart3(ps, alloc.FreePages(), ts, ds);
      var ref := alloc.pages[f].ref - 1;
      alloc.SetRef(f, ref);
      ghost var qs := alloc.pages[..];
      assert qs == ps[f := ps[f].(ref := ps[f].ref - 1)];
      CountedRemove(ps, qs, maps, ts, ds, x, k);
      SameSeparate(ps, qs, alloc.FreePages(), ts, ds, f);
      if ref <= 0 {
        FreeData(f, maps - {k}, x);
      }
    }

    /** Give frame f, which nothing maps, back to the allocator. */
    method FreeData(f: nat, ghost maps: Maps, ghost x: int)
      requires alloc.Valid() && f in data && Users(maps, f) == {}
      requires Counted(alloc.pages[..], maps, tables.Keys, data.Keys, x)
      requires Separate(alloc.pages[..], alloc.FreePages(), tables.Keys, data.Keys)
      modifies `data, alloc, alloc.pages
      ensures alloc.Valid() && Pool() == old(Pool()) && data == old(data) - {f}
      ensures Counted(alloc.pages[..], maps, tables.Keys, data.Keys, x)
      ensures Separate(alloc.pages[..], alloc.FreePages(), tables.Keys, data.Keys)
    {
      hide Allocator.Valid;
      hide Allocator.FreePages;
      hide Counted;
      hide Users;
      hide Range;
      ghost var qs, free := alloc.pages[..], alloc.FreePages();
      RangeOne(f);
      alloc.Release(f, 1);
      DataBecomesFree(qs, alloc.pages[..], maps, free, tables.Keys, data.Keys, x, f);
      data := data - {f};
      assert data.Keys == old(data.Keys) - {f};
    }
  }

  /** The frame that loses its last mapping when k goes, unless page_insert has just taken it on. */
  ghost function Orphans(maps: Maps, k: Key, x: int): set<nat> {
    if k in maps && maps[k].frame != x && Users(maps, maps[k].frame) == {k} then {maps[k].frame} else {}
  }

  lemma LastUser(maps: Maps, k: Key)
    requires k in maps
    ensures |Users(maps - {k}, maps[k].frame)| == |Users(maps, maps[k].frame)| - 1
    ensures |Users(maps, maps[k].frame)| == 1 <==> Users(maps, maps[k].frame) == {k}
  {
    var us := Users(maps, maps[k].frame);
    UsersRemove(maps, k, maps[k].frame);
    assert k in us;
    if |us| == 1 {
      assert |us - {k}| == 0;
      assert us == {k};
    }
  }

  lemma CountOf(ps: Pages, maps: Maps, tables: set<nat>, data: set<nat>, x: int, k: Key)
    requires Counted(ps, maps, tables, data, x) && k in maps
    ensures var f := maps[k].frame;
      f in data && f < |ps| && ps[f].ref == |Users(maps, f)| + (if f == x then 1 else 0)
  {
  }

  lemma Apart3(ps: Pages, free: set<nat>, tables: set<nat>, data: set<nat>)
    requires Separate(ps, free, tables, data)
    ensures free !! tables && free !! data && tables !! data
  {
  }

  lemma SameSeparate(ps: Pages, qs: Pages, free: set<nat>, tables: set<nat>, data: set<nat>, f: nat)
    requires Separate(ps, free, tables, data) && f in data && AlikeBut(ps, qs, f)
    ensures Separate(qs, free, tables, data)
  {
  }

  lemma DataBecomesFree(ps: Pages, qs: Pages, maps: Maps, free: set<nat>, tables: set<nat>, data: set<nat>, x: int,
                        f: nat)
    requires Counted(ps, maps, tables, data, x) && Separate(ps, free, tables, data)
    requires f in data && Users(maps, f) == {} && AlikeBut(ps, qs, f) && qs[f].ref == 0
    ensures Counted(qs, maps, tables, data - {f}, x) && Separate(qs, free + {f}, tables, data - {f})
  {
    CountedLeave(ps, qs, maps, tables, data, x, f);
  }

  ghost function KeysIn(maps: Maps, d: nat, s: nat, e: nat): set<Key> {
    set k | k in maps && k.0 == d && s <= k.1 < e
  }

  /** The frames all of whose mappings are among ks. */
  ghost function Lost(maps: Maps, ks: set<Key>): set<nat> {
    set k | k in maps && Users(maps, maps[k].frame) <= ks :: maps[k].frame
  }

  /** ROUNDDOWN(start + PGDE_MAP_NBYTE, PGDE_MAP_NBYTE), in pages. */
  function NextTable(v: nat): (r: nat)
    ensures v < r <= v + ENTRIES && r % ENTRIES == 0
    ensures v < USER_PAGES ==> r <= USER_PAGES
    ensures forall w :: v <= w < r ==> w / ENTRIES == v / ENTRIES
  {
    (v + ENTRIES) / ENTRIES * ENTRIES
  }

  function Min(a: nat, b: nat): nat {
    if a < b then a else b
  }

  lemma KeysNone(maps: Maps, d: nat, s: nat)
    ensures KeysIn(maps, d, s, s) == {} && Lost(maps, {}) == {}
  {
    forall f: nat
      ensures f !in Lost(maps, {})
    {
      InLost(maps, {}, f);
    }
  }

  lemma NoneToNext(dirs: Dirs, tables: Tables, maps: Maps, d: nat, v: nat)
    requires Shaped(dirs, tables) && Ties(dirs, tables, maps) && d in dirs && v < USER_PAGES
    requires v / ENTRIES !in Pdes(dirs, d)
    ensures forall w :: v <= w < NextTable(v) ==> (d, w) !in maps
  {
    forall w | v <= w < NextTable(v)
      ensures (d, w) !in maps
    {
      NoTable(dirs, tables, maps, d, w);
    }
  }

  lemma KeysSkip(maps: Maps, d: nat, s: nat, v: nat, u: nat)
    requires s <= v <= u && forall w :: v <= w < u ==> (d, w) !in maps - KeysIn(maps, d, s, v)
    ensures KeysIn(maps, d, s, u) == KeysIn(maps, d, s, v)
  {
    forall k | k in KeysIn(maps, d, s, u)
      ensures k in KeysIn(maps, d, s, v)
    {
      assert k == (d, k.1);
      assert v <= k.1 ==> k !in KeysIn(maps, d, s, v);
    }
  }

  /** Losing frames in two steps is losing them at once. */
  lemma LostTwice(maps: Maps, ks: set<Key>, js: set<Key>)
    ensures Lost(maps, ks) + Lost(maps - ks, js) == Lost(maps, ks + js)
  {
    forall f
      ensures f in Lost(maps, ks) || f in Lost(maps - ks, js) <==> f in Lost(maps, ks + js)
    {
      InLost(maps, ks, f);
      InLost(maps - ks, js, f);
      InLost(maps, ks + js, f);
      var us := Users(maps, f);
      assert Users(maps - ks, f) == us - ks;
      assert us <= ks + js <==> us - ks <= js;
      assert us - ks == {} ==> forall k :: k in us ==> k in us - ks || k in ks;
    }
  }

  lemma InLost(maps: Maps, ks: set<Key>, f: nat)
    ensures f in Lost(maps, ks) <==> Users(maps, f) != {} && Users(maps, f) <= ks
  {
    if Users(maps, f) != {} && Users(maps, f) <= ks {
      var k :| k in Users(maps, f);
      assert k in maps && Users(maps, maps[k].frame) <= ks;
    }
    if f in Lost(maps, ks) {
      var k :| k in maps && Users(maps, maps[k].frame) <= ks && maps[k].frame == f;
      assert k in Users(maps, f);
    }
  }

  lemma OrphansLost(maps: Maps, k: Key)
    ensures Orphans(maps, k, -1) == Lost(maps, {k})
  {
    forall f: nat
      ensures f in Orphans(maps, k, -1) <==> f in Lost(maps, {k})
    {
      InLost(maps, {k}, f);
      if Users(maps, f) != {} && Users(maps, f) <= {k} {
        assert Users(maps, f) == {k};
        assert k in Users(maps, f);
      }
    }
  }

  lemma UnmapStep<T>(maps: Maps, d: nat, s: nat, v: nat, data: map<nat, T>)
    requires s <= v
    ensures var ks := KeysIn(maps, d, s, v);
      maps - ks - {(d, v)} == maps - KeysIn(maps, d, s, v + 1) &&
      data - Lost(maps, ks) - Orphans(maps - ks, (d, v), -1) == data - Lost(maps, KeysIn(maps, d, s, v + 1))
  {
    var ks := KeysIn(maps, d, s, v);
    OrphansLost(maps - ks, (d, v));
    LostTwice(maps, ks, {(d, v)});
    var js := KeysIn(maps, d, s, v + 1);
    assert maps - ks - {(d, v)} == maps - js;
    LostSame(maps, ks + {(d, v)}, js);
  }

  lemma LostSame(maps: Maps, ks: set<Key>, js: set<Key>)
    requires forall k :: k in maps ==> (k in ks <==> k in js)
    ensures Lost(maps, ks) == Lost(maps, js)
  {
    forall f
      ensures f in Lost(maps, ks) <==> f in Lost(maps, js)
    {
      InLost(maps, ks, f);
      InLost(maps, js, f);
    }
  }

  lemma Spare(free: set<nat>, f: nat)
    requires f in free
    ensures |free - {f}| == |free| - 1
    ensures free - {f} != {} <==> |free| >= 2
  {
  }

  lemma SpentMore(free: set<nat>, f: nat, free': set<nat>, n: nat)
    requires f in free && Spent(free - {f}, free', n)
    ensures Spent(free, free', n + 1)
  {
  }

  lemma AddThenDrop<T>(data: map<nat, T>, f: nat, c: T, gone: set<nat>)
    requires f !in data && f !in gone
    ensures data[f := c] - gone == (data - gone)[f := c] && data[f := c] - {f} == data
  {
    assert data[f := c] - {f} == data;
  }

  /** A frame that nothing maps is not the one orphaned. */
  lemma OrphanOther(maps: Maps, k: Key, f: nat)
    requires Users(maps, f) == {}
    ensures Orphans(maps, k, f) == Orphans(maps, k, -1) && f !in Orphans(maps, k, -1)
  {
    assert k in maps ==> k in Users(maps, maps[k].frame);
  }

  /** The number of directory entries that the pages below e reach. */
  function PdeTop(e: nat): (r: nat)
    ensures forall v :: 0 <= v < e ==> v / ENTRIES < r
    ensures e <= USER_PAGES ==> r <= USER_PDES
  {
    (e + ENTRIES - 1) / ENTRIES
  }

  lemma PdeBelow(p: nat, e: nat)
    requires p * ENTRIES < e
    ensures p < PdeTop(e) && p * ENTRIES / ENTRIES == p && (p + 1) * ENTRIES == p * ENTRIES + ENTRIES
  {
  }

  lemma PdeReached(p: nat, e: nat)
    requires e <= p * ENTRIES && p <= PdeTop(e)
    ensures p == PdeTop(e)
  {
  }

  /** The entries lo up to hi of directory d are zero; nothing else changed. */
  ghost predicate Closed(dirs: Dirs, dirs': Dirs, d: nat, lo: nat, hi: nat) {
    dirs'.Keys == dirs.Keys && d in dirs && |dirs'[d]| == |dirs[d]| &&
    (forall e :: e in dirs && e != d ==> dirs'[e] == dirs[e]) &&
    forall p :: 0 <= p < |dirs[d]| ==> dirs'[d][p] == if lo <= p < hi then ZERO else dirs[d][p]
  }

  lemma ShapedZero(dirs: Dirs, tables: Tables, d: nat, p: nat)
    requires Shaped(dirs, tables) && d in dirs && p < USER_PDES
    ensures |dirs[d]| == USER_PDES && (dirs[d][p].present || dirs[d][p] == ZERO)
  {
  }

  lemma PoolBack(free: set<nat>, tables: set<nat>, data: set<nat>, f: nat)
    requires f in tables
    ensures PoolOf(free + {f}, tables - {f}, data) == PoolOf(free, tables, data)
  {
  }

  /** Entries of directory d among ps may have page tables now; no other entry changed. */
  ghost predicate Grown(dirs: Dirs, dirs': Dirs, d: nat, ps: set<nat>) {
    dirs'.Keys == dirs.Keys && (forall e :: e in dirs && e != d ==> dirs'[e] == dirs[e]) &&
    Pdes(dirs, d) <= Pdes(dirs', d) <= Pdes(dirs, d) + ps
  }

  lemma OpenedGrown(dirs: Dirs, dirs': Dirs, d: nat, v: nat, ok: bool)
    requires Opened(dirs, dirs', d, PdeOf(ok, v))
    ensures Grown(dirs, dirs', d, PdeOf(true, v))
  {
  }

  lemma OpenedSame(dirs: Dirs, dirs': Dirs, d: nat, v: nat)
    requires Opened(dirs, dirs', d, PdeOf(true, v)) && v / ENTRIES in Pdes(dirs, d) && v < USER_PAGES
    ensures dirs' == dirs
  {
    assert dirs'[d] == dirs[d];
  }

  /** The frames needed for one more page in directory d: one for it, and one for its page table if that is missing. */
  ghost function PageNeed(dirs: Dirs, d: nat, v: nat): nat {
    if v / ENTRIES in Pdes(dirs, d) then 1 else 2
  }

  lemma NeedMore(free: set<nat>, dirs: Dirs, d: nat, v: nat)
    ensures |free| >= PageNeed(dirs, d, v) ==> free != {}
    ensures free != {} ==> |free| >= 1
  {
  }

  lemma MappedHasData(ps: Pages, maps: Maps, tables: set<nat>, data: set<nat>, k: Key)
    requires Counted(ps, maps, tables, data, -1) && k in maps
    ensures maps[k].frame in data
  {
  }

  lemma OrphanNone(maps: Maps, k: Key, f: int)
    requires k !in maps
    ensures Orphans(maps, k, f) == {}
  {
  }

  type Contents = map<nat, Content>

  /** Page v of directory to is a copy of page v of directory from, in a frame that was free. */
  ghost predicate CopyOf(m: Maps, data: Contents, free: set<nat>, m': Maps, data': Contents, to: nat, from: nat,
                         v: nat) {
    (from, v) in m && (to, v) !in m && (to, v) in m' &&
    var e, e' := m[(from, v)], m'[(to, v)];
    e' == e.(frame := e'.frame) && e'.frame in free && e.frame in data && e'.frame in data' &&
    data'[e'.frame] == data[e.frame]
  }

  /** m' and data' are m and data with the pages vs of directory from copied to directory to, each in a frame of its
      own. */
  ghost predicate Copied(m: Maps, data: Contents, free: set<nat>, m': Maps, data': Contents, to: nat, from: nat,
                         vs: set<nat>) {
    (forall k :: k in m ==> k in m' && m'[k] == m[k]) &&
    (forall k :: k in m' ==> k in m || (k.0 == to && k.1 in vs)) &&
    (forall v :: v in vs ==> CopyOf(m, data, free, m', data', to, from, v)) &&
    (forall v, w :: v in vs && w in vs && v != w ==> m'[(to, v)].frame != m'[(to, w)].frame) &&
    (forall f :: f in data ==> f in data' && data'[f] == data[f]) &&
    (forall f :: f in data' ==> f in data || exists v :: v in vs && m'[(to, v)].frame == f)
  }

  lemma CopiedOne(m: Maps, data: Contents, free: set<nat>, m': Maps, data': Contents, to: nat, from: nat, v: nat,
                  f: nat)
    requires (from, v) in m && (to, v) !in m && m[(from, v)].frame in data && f in free && f !in data
    requires m' == m[(to, v) := m[(from, v)].(frame := f)] && data' == data[f := data[m[(from, v)].frame]]
    ensures Copied(m, data, free, m', data', to, from, {v})
  {
    assert m'[(to, v)].frame == f;
  }

  ghost function PagesIn(maps: Maps, d: nat, s: nat, e: nat): set<nat> {
    set k | k in maps && k.0 == d && s <= k.1 < e :: k.1
  }

  ghost function Tabs(vs: set<nat>): set<nat> {
    set v | v in vs :: v / ENTRIES
  }

  /** The frames needed to map the pages vs where the directory entries ps have page tables already. */
  ghost function Need(vs: set<nat>, ps: set<nat>): nat {
    |vs| + |Tabs(vs) - ps|
  }

  lemma NeedAdd(vs: set<nat>, ps: set<nat>, v: nat)
    requires v !in vs
    ensures Tabs(vs + {v}) == Tabs(vs) + PdeOf(true, v)
    ensures Need(vs + {v}, ps) == Need(vs, ps) + if v / ENTRIES in ps + Tabs(vs) then 1 else 2
  {
    assert Tabs(vs + {v}) == Tabs(vs) + PdeOf(true, v);
    hide Tabs;
    TabAdd(Tabs(vs), ps, v / ENTRIES);
  }

  lemma TabAdd(ts: set<nat>, ps: set<nat>, p: nat)
    ensures |ts + {p} - ps| == |ts - ps| + if p in ps + ts then 0 else 1
  {
    if p in ps + ts {
      assert ts + {p} - ps == ts - ps;
    } else {
      assert ts + {p} - ps == (ts - ps) + {p};
    }
  }

  lemma NeedMono(vs: set<nat>, ws: set<nat>, ps: set<nat>)
    ensures vs <= ws ==> Need(vs, ps) <= Need(ws, ps)
  {
    if vs <= ws {
      SubsetSize(vs, ws);
      assert Tabs(vs) <= Tabs(ws);
      SubsetSize(Tabs(vs) - ps, Tabs(ws) - ps);
    }
  }

  lemma NeedEnough(free: set<nat>, free': set<nat>, n: nat)
    requires Spent(free, free', n)
    ensures |free| >= n
  {
  }

  lemma NotEnough(free: set<nat>, free': set<nat>, n: nat, one: nat, all: nat)
    requires Spent(free, free', n) && |free'| < one && n + one <= all
    ensures |free| < all
  {
  }

  lemma PagesStep(m: Maps, d: nat, s: nat, v: nat)
    requires s <= v
    ensures PagesIn(m, d, s, v + 1) == if (d, v) in m then PagesIn(m, d, s, v) + {v} else PagesIn(m, d, s, v)
    ensures v !in PagesIn(m, d, s, v)
  {
    forall w: nat
      ensures w in PagesIn(m, d, s, v + 1) <==> w in PagesIn(m, d, s, v) || (w == v && (d, v) in m)
    {
      InPages(m, d, s, v, w);
      InPages(m, d, s, v + 1, w);
    }
    InPages(m, d, s, v, v);
  }

  lemma PagesMono(m: Maps, d: nat, s: nat, v: nat, e: nat)
    requires v <= e
    ensures PagesIn(m, d, s, v) <= PagesIn(m, d, s, e)
  {
  }

  lemma InPages(m: Maps, d: nat, s: nat, e: nat, v: nat)
    ensures v in PagesIn(m, d, s, e) <==> (d, v) in m && s <= v < e
  {
    if v in PagesIn(m, d, s, e) {
      var k :| k in m && k.0 == d && s <= k.1 < e && k.1 == v;
      assert k == (d, v);
    }
    if (d, v) in m && s <= v < e {
      assert (d, v).1 in PagesIn(m, d, s, e);
    }
  }

  /** Mapped frames hold data. */
  ghost predicate Backed(maps: Maps, data: Contents) {
    forall k :: k in maps ==> maps[k].frame in data
  }

  lemma CountedBacked(ps: Pages, maps: Maps, tables: set<nat>, data: Contents, x: int)
    requires Counted(ps, maps, tables, data.Keys, x)
    ensures Backed(maps, data)
  {
  }

  /** Halfway through copy_range: the pages vs are copied. */
  ghost predicate Copying(m: Maps, data: Contents, free: set<nat>, dirs: Dirs, m': Maps, data': Contents,
                          free': set<nat>, dirs': Dirs, to: nat, from: nat, s: nat, e: nat, vs: set<nat>) {
    Copied(m, data, free, m', data', to, from, vs) &&
    Spent(free, free', Need(vs, Pdes(dirs, to))) &&
    Pdes(dirs', to) == Pdes(dirs, to) + Tabs(vs) &&
    Grown(dirs, dirs', to, Range(s / ENTRIES, PdeTop(e)))
  }

  lemma CopyStart(m: Maps, data: Contents, free: set<nat>, dirs: Dirs, to: nat, from: nat, s: nat, e: nat)
    requires s <= e
    ensures Copying(m, data, free, dirs, m, data, free, dirs, to, from, s, e, PagesIn(m, from, s, s))
  {
    assert PagesIn(m, from, s, s) == {} && Tabs({}) == {};
    assert Tabs({}) - Pdes(dirs, to) == {};
  }

  /** Without a page table nothing is to be copied up to the next one. */
  lemma CopySkip(m: Maps, data: Contents, free: set<nat>, m': Maps, data': Contents, to: nat, from: nat, s: nat, v: nat,
                 e: nat, vs: set<nat>)
    requires Copied(m, data, free, m', data', to, from, vs) && to != from && s <= v < e
    requires forall w :: v <= w < NextTable(v) ==> (from, w) !in m'
    ensures PagesIn(m, from, s, Min(NextTable(v), e)) == PagesIn(m, from, s, v)
  {
    hide NextTable;
    assert v <= NextTable(v);
    var u := Min(NextTable(v), e);
    forall w: nat
      ensures w in PagesIn(m, from, s, u) <==> w in PagesIn(m, from, s, v)
    {
      InPages(m, from, s, u, w);
      InPages(m, from, s, v, w);
    }
  }

  lemma CopiedPages(m: Maps, data: Contents, free: set<nat>, m': Maps, data': Contents, to: nat, from: nat, s: nat,
                    v: nat, e: nat)
    requires Copied(m, data, free, m', data', to, from, PagesIn(m, from, s, v)) && to != from && s <= v <= e
    requires forall w :: s <= w < e ==> (to, w) !in m
    ensures PagesIn(m', to, s, e) == PagesIn(m, from, s, v)
  {
    forall w: nat
      ensures w in PagesIn(m', to, s, e) <==> w in PagesIn(m, from, s, v)
    {
      InPages(m, from, s, v, w);
      InPages(m', to, s, e, w);
      assert w in PagesIn(m, from, s, v) ==> CopyOf(m, data, free, m', data', to, from, w);
    }
  }

  lemma CopyFacts(m: Maps, data: Contents, free: set<nat>, dirs: Dirs, m': Maps, data': Contents, free': set<nat>,
                  dirs': Dirs, to: nat, from: nat, s: nat, e: nat, v: nat)
    requires Copying(m, data, free, dirs, m', data', free', dirs', to, from, s, e, PagesIn(m, from, s, v)) && to != from
    requires s <= v < e
    requires forall w :: s <= w < e ==> (to, w) !in m
    ensures (from, v) in m <==> (from, v) in m'
    ensures (to, v) !in m'
    ensures Copied(m, data, free, m', data', to, from, PagesIn(m, from, s, v))
    ensures Spent(free, free', Need(PagesIn(m, from, s, v), Pdes(dirs, to)))
    ensures Pdes(dirs', to) == Pdes(dirs, to) + Tabs(PagesIn(m, from, s, v))
    ensures Grown(dirs, dirs', to, Range(s / ENTRIES, PdeTop(e)))
  {
    InPages(m, from, s, v, v);
  }

  lemma CopyGrown(dirs: Dirs, dirs1: Dirs, dirs2: Dirs, to: nat, s: nat, e: nat, v: nat)
    requires Grown(dirs, dirs1, to, Range(s / ENTRIES, PdeTop(e))) && Grown(dirs1, dirs2, to, PdeOf(true, v))
    requires s <= v < e
    ensures Grown(dirs, dirs2, to, Range(s / ENTRIES, PdeTop(e)))
  {
    assert s / ENTRIES <= v / ENTRIES < PdeTop(e);
  }

  lemma CopyNext(m: Maps, data: Contents, free: set<nat>, dirs: Dirs, m': Maps, data': Contents, free1: set<nat>,
                 free2: set<nat>, dirs1: Dirs, dirs2: Dirs, to: nat, from: nat, s: nat, e: nat, vs: set<nat>, v: nat)
    requires Copied(m, data, free, m', data', to, from, vs + {v}) && v !in vs
    requires Spent(free, free1, Need(vs, Pdes(dirs, to))) && Spent(free1, free2, PageNeed(dirs1, to, v))
    requires Pdes(dirs1, to) == Pdes(dirs, to) + Tabs(vs) && Grown(dirs1, dirs2, to, PdeOf(true, v))
    requires v / ENTRIES in Pdes(dirs2, to)
    requires Grown(dirs, dirs2, to, Range(s / ENTRIES, PdeTop(e)))
    ensures Copying(m, data, free, dirs, m', data', free2, dirs2, to, from, s, e, vs + {v})
  {
    hide Copied;
    hide Range;
    NeedAdd(vs, Pdes(dirs, to), v);
  }

  /** Copying in two steps is copying at once: the second step uses none of the frames of the first. */
  lemma CopiedTrans(m0: Maps, data0: Contents, free0: set<nat>, m1: Maps, data1: Contents, free1: set<nat>, m2: Maps,
                    data2: Contents, to: nat, from: nat, vs: set<nat>, ws: set<nat>)
    requires Copied(m0, data0, free0, m1, data1, to, from, vs) && Copied(m1, data1, free1, m2, data2, to, from, ws)
    requires to != from && vs !! ws && free1 <= free0 && free1 !! data1.Keys
    requires Backed(m0, data0)
    ensures Copied(m0, data0, free0, m2, data2, to, from, vs + ws)
  {
    forall v | v in vs + ws
      ensures CopyOf(m0, data0, free0, m2, data2, to, from, v)
    {
      if v in vs {
        assert CopyOf(m0, data0, free0, m1, data1, to, from, v);
      } else {
        assert CopyOf(m1, data1, free1, m2, data2, to, from, v);
      }
    }
    CopiedApart(m0, data0, free0, m1, data1, free1, m2, data2, to, from, vs, ws);
    forall f | f in data2 && f !in data0
      ensures exists v :: v in vs + ws && m2[(to, v)].frame == f
    {
      if f in data1 {
        var v :| v in vs && m1[(to, v)].frame == f;
        assert CopyOf(m0, data0, free0, m1, data1, to, from, v);
        assert v in vs + ws && m2[(to, v)].frame == f;
      } else {
        var v :| v in ws && m2[(to, v)].frame == f;
        assert v in vs + ws;
      }
    }
  }

  lemma CopiedApart(m0: Maps, data0: Contents, free0: set<nat>, m1: Maps, data1: Contents, free1: set<nat>, m2: Maps,
                    data2: Contents, to: nat, from: nat, vs: set<nat>, ws: set<nat>)
    requires Copied(m0, data0, free0, m1, data1, to, from, vs) && Copied(m1, data1, free1, m2, data2, to, from, ws)
    requires vs !! ws && free1 !! data1.Keys
    ensures forall v, w :: v in vs + ws && w in vs + ws && v != w ==>
      (to, v) in m2 && (to, w) in m2 && m2[(to, v)].frame != m2[(to, w)].frame
  {
    forall v | v in vs
      ensures (to, v) in m2 && m2[(to, v)].frame == m1[(to, v)].frame && m2[(to, v)].frame in data1
    {
      assert CopyOf(m0, data0, free0, m1, data1, to, from, v);
    }
    forall w | w in ws
      ensures (to, w) in m2 && m2[(to, w)].frame in free1
    {
      assert CopyOf(m1, data1, free1, m2, data2, to, from, w);
    }
  }

  /** The entries of directory d that have a page table. */
  ghost function Pdes(dirs: Dirs, d: nat): set<nat> {
    if d in dirs then set p: nat | p < |dirs[d]| && dirs[d][p].present else {}
  }

  /** The directory entry of page v, if ok. */
  ghost function PdeOf(ok: bool, v: nat): set<nat> {
    if ok then {v / ENTRIES} else {}
  }

  /** The entries ps of directory d have page tables now; no other entry changed. */
  ghost predicate Opened(dirs: Dirs, dirs': Dirs, d: nat, ps: set<nat>) {
    dirs'.Keys == dirs.Keys && d in dirs && |dirs'[d]| == |dirs[d]| &&
    (forall e :: e in dirs && e != d ==> dirs'[e] == dirs[e]) &&
    (forall p :: 0 <= p < |dirs[d]| && (p !in ps || dirs[d][p].present) ==> dirs'[d][p] == dirs[d][p]) &&
    Pdes(dirs', d) == Pdes(dirs, d) + ps
  }

  /** n free frames were used up. */
  ghost predicate Spent(free: set<nat>, free': set<nat>, n: int) {
    free' <= free && |free'| == |free| - n
  }

  ghost function PoolOf(free: set<nat>, tables: set<nat>, data: set<nat>): set<nat> {
    free + tables + data
  }

  lemma PoolMove(free: set<nat>, tables: set<nat>, data: set<nat>, f: nat)
    requires f in free
    ensures PoolOf(free - {f}, tables + {f}, data) == PoolOf(free, tables, data)
    ensures PoolOf(free - {f}, tables, data + {f}) == PoolOf(free, tables, data)
  {
  }

  /** Pages without a page table are not mapped. */
  lemma NoTable(dirs: Dirs, tables: Tables, maps: Maps, d: nat, v: nat)
    requires Shaped(dirs, tables) && Ties(dirs, tables, maps) && d in dirs && v < USER_PAGES
    requires v / ENTRIES !in Pdes(dirs, d)
    ensures (d, v) !in maps
  {
    SplitPage(v);
    assert Pte(dirs, tables, d, v) == Looked(maps, d, v);
  }

  /** A free frame becomes one with data, not mapped yet. */
  lemma BecomesData(ps: Pages, qs: Pages, maps: Maps, free: set<nat>, tables: set<nat>, data: set<nat>, f: nat)
    requires Counted(ps, maps, tables, data, -1) && Separate(ps, free, tables, data)
    requires f in free && KeepsRefs(ps, qs) && !qs[f].reserved
    ensures Counted(qs, maps, tables, data + {f}, -1) && Separate(qs, free - {f}, tables, data + {f})
    ensures Users(maps, f) == {}
  {
    assert Users(maps, f) == {};
  }

  lemma OpenedOne(dirs: Dirs, free: set<nat>, d: nat, p: nat, e: Entry)
    requires d in dirs && p < |dirs[d]| && !dirs[d][p].present && e.present && e.frame in free
    ensures Opened(dirs, WithPde(dirs, d, p, e), d, {p}) && p in Pdes(WithPde(dirs, d, p, e), d)
    ensures Spent(free, free - {e.frame}, 1)
  {
    assert Pdes(WithPde(dirs, d, p, e), d) == Pdes(dirs, d) + {p};
  }

  lemma OpenedNone(dirs: Dirs, d: nat, ps: set<nat>)
    requires d in dirs && ps <= Pdes(dirs, d)
    ensures Opened(dirs, dirs, d, ps)
  {
  }

  lemma SameCounts(ps: Pages, qs: Pages, maps: Maps, free: set<nat>, tables: set<nat>, data: set<nat>)
    requires Counted(ps, maps, tables, data, -1) && Separate(ps, free, tables, data) && |qs| == |ps|
    requires forall i :: 0 <= i < |ps| ==> qs[i].ref == ps[i].ref && qs[i].reserved == ps[i].reserved
    ensures Counted(qs, maps, tables, data, -1) && Separate(qs, free, tables, data)
  {
  }

  lemma ShapedSize(dirs: Dirs, tables: Tables)
    requires Shaped(dirs, tables)
    ensures forall d :: d in dirs ==> |dirs[d]| == USER_PDES
  {
  }
}
