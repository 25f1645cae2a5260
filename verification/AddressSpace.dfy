/** Copying an address space on fork and tearing it down on exit (kern/mm/vmm.c, kern/krnl/task/task.c). */
module AddressSpace {
  import opened PageAllocator
  import opened PageTables
  import opened VmaList

  /** What the assertions of copy_range, unmap_range and exit_range demand of an area. */
  ghost predicate UserArea(a: Vma) {
    UserRange(a) && a.start % PGSIZE == 0 && a.end % PGSIZE == 0
  }

  ghost predicate UserAreas(areas: seq<Vma>) {
    forall i :: 0 <= i < |areas| ==> UserArea(areas[i])
  }

  function First(a: Vma): nat {
    a.start / PGSIZE
  }

  function Last(a: Vma): nat {
    a.end / PGSIZE
  }

  /** User space ends at 0xB0000000, the end of the user half of a page directory. */
  lemma UserHalf()
    ensures USER_PDES * 1024 * 4096 == USER_PAGES * 4096 == USER_TOP == 0xB000_0000 && USER_BASE == 0x20_0000
  {
  }

  lemma UserPages(a: Vma)
    requires UserArea(a)
    ensures First(a) < Last(a) <= USER_PAGES
  {
  }

  lemma PagesApart(a: Vma, b: Vma)
    requires a.end <= b.start
    ensures Last(a) <= First(b)
  {
  }

  ghost predicate InArea(a: Vma, v: nat) {
    First(a) <= v < Last(a)
  }

  ghost predicate InAreas(areas: seq<Vma>, v: nat) {
    exists i :: 0 <= i < |areas| && InArea(areas[i], v)
  }

  /** Directory entry p is reached by some page of the area. */
  ghost predicate PdeInArea(a: Vma, p: nat) {
    First(a) / ENTRIES <= p < PdeTop(Last(a))
  }

  ghost predicate PdeInAreas(areas: seq<Vma>, p: nat) {
    exists i :: 0 <= i < |areas| && PdeInArea(areas[i], p)
  }

  ghost function DirPages(m: Maps, d: nat): set<nat> {
    set k | k in m && k.0 == d :: k.1
  }

  /** The mapped pages of directory d that lie in the areas. */
  ghost function AreaPages(m: Maps, d: nat, areas: seq<Vma>): set<nat> {
    set k | k in m && k.0 == d && InAreas(areas, k.1) :: k.1
  }

  lemma InAreaPages(m: Maps, d: nat, areas: seq<Vma>, v: nat)
    ensures v in AreaPages(m, d, areas) <==> (d, v) in m && InAreas(areas, v)
  {
    if v in AreaPages(m, d, areas) {
      var k :| k in m && k.0 == d && InAreas(areas, k.1) && k.1 == v;
      assert k == (d, v);
    }
    if (d, v) in m && InAreas(areas, v) {
      assert (d, v).1 in AreaPages(m, d, areas);
    }
  }

  lemma InDirPages(m: Maps, d: nat, v: nat)
    ensures v in DirPages(m, d) <==> (d, v) in m
  {
    if v in DirPages(m, d) {
      var k :| k in m && k.0 == d && k.1 == v;
      assert k == (d, v);
    }
    if (d, v) in m {
      assert (d, v).1 in DirPages(m, d);
    }
  }

  lemma InAreasFront(areas: seq<Vma>, i: nat, v: nat)
    requires i < |areas|
    ensures InAreas(areas[i..], v) <==> InArea(areas[i], v) || InAreas(areas[i + 1..], v)
  {
    var xs, ys := areas[i..], areas[i + 1..];
    if InArea(areas[i], v) {
      assert xs[0] == areas[i];
    }
    if j :| 0 <= j < |ys| && InArea(ys[j], v) {
      assert xs[j + 1] == ys[j];
    }
    if j :| 0 <= j < |xs| && InArea(xs[j], v) {
      assert j > 0 ==> ys[j - 1] == xs[j];
    }
  }

  lemma PdeInAreasFront(areas: seq<Vma>, i: nat, p: nat)
    requires i < |areas|
    ensures PdeInAreas(areas[i..], p) <==> PdeInArea(areas[i], p) || PdeInAreas(areas[i + 1..], p)
  {
    var xs, ys := areas[i..], areas[i + 1..];
    if PdeInArea(areas[i], p) {
      assert xs[0] == areas[i];
    }
    if j :| 0 <= j < |ys| && PdeInArea(ys[j], p) {
      assert xs[j + 1] == ys[j];
    }
    if j :| 0 <= j < |xs| && PdeInArea(xs[j], p) {
      assert j > 0 ==> ys[j - 1] == xs[j];
    }
  }

  lemma Later(areas: seq<Vma>, i: nat, v: nat)
    requires Ordered(areas) && i < |areas| && InAreas(areas[i + 1..], v)
    ensures !InArea(areas[i], v)
  {
    var j :| 0 <= j < |areas[i + 1..]| && InArea(areas[i + 1..][j], v);
    PagesApart(areas[i], areas[i + 1 + j]);
  }

  /** One more area at the front: its pages are new. */
  lemma AreaPagesFront(m: Maps, d: nat, areas: seq<Vma>, i: nat)
    requires Ordered(areas) && i < |areas|
    ensures AreaPages(m, d, areas[i..]) ==
      AreaPages(m, d, areas[i + 1..]) + PagesIn(m, d, First(areas[i]), Last(areas[i]))
    ensures AreaPages(m, d, areas[i + 1..]) !! PagesIn(m, d, First(areas[i]), Last(areas[i]))
  {
    forall v: nat
      ensures v in AreaPages(m, d, areas[i..]) <==>
        v in AreaPages(m, d, areas[i + 1..]) || v in PagesIn(m, d, First(areas[i]), Last(areas[i]))
      ensures !(v in AreaPages(m, d, areas[i + 1..]) && v in PagesIn(m, d, First(areas[i]), Last(areas[i])))
    {
      InAreaPages(m, d, areas[i..], v);
      InAreaPages(m, d, areas[i + 1..], v);
      InPages(m, d, First(areas[i]), Last(areas[i]), v);
      InAreasFront(areas, i, v);
      if InAreas(areas[i + 1..], v) {
        Later(areas, i, v);
      }
    }
  }

  lemma NeedBoth(vs: set<nat>, ws: set<nat>, ps: set<nat>)
    requires vs !! ws
    ensures Need(vs + ws, ps) == Need(vs, ps) + Need(ws, ps + Tabs(vs))
    ensures Tabs(vs + ws) == Tabs(vs) + Tabs(ws)
  {
    assert Tabs(vs + ws) == Tabs(vs) + Tabs(ws);
    assert Tabs(vs + ws) - ps == (Tabs(vs) - ps) + (Tabs(ws) - (ps + Tabs(vs)));
  }

  /** Page tables of directory d were added in the areas only, and other directories did not change. */
  ghost predicate GrownIn(dirs: Dirs, dirs': Dirs, d: nat, areas: seq<Vma>) {
    dirs'.Keys == dirs.Keys && (forall e :: e in dirs && e != d ==> dirs'[e] == dirs[e]) &&
    Pdes(dirs, d) <= Pdes(dirs', d) &&
    forall p :: p in Pdes(dirs', d) ==> p in Pdes(dirs, d) || PdeInAreas(areas, p)
  }

  /** Halfway through dup_mm: the last areas are done. */
  ghost predicate Duping(m: Maps, data: Contents, free: set<nat>, dirs: Dirs, m': Maps, data': Contents,
                         free': set<nat>, dirs': Dirs, to: nat, from: nat, vs: set<nat>) {
    Copied(m, data, free, m', data', to, from, vs) &&
    Spent(free, free', Need(vs, Pdes(dirs, to))) &&
    Pdes(dirs', to) == Pdes(dirs, to) + Tabs(vs)
  }

  lemma DupStart(m: Maps, data: Contents, free: set<nat>, dirs: Dirs, to: nat, from: nat, areas: seq<Vma>)
    ensures Duping(m, data, free, dirs, m, data, free, dirs, to, from, AreaPages(m, from, areas[|areas|..]))
    ensures GrownIn(dirs, dirs, to, areas[|areas|..])
  {
    var vs := AreaPages(m, from, areas[|areas|..]);
    forall v: nat
      ensures v !in vs
    {
      InAreaPages(m, from, areas[|areas|..], v);
    }
    assert vs == {} && Tabs(vs) == {};
    assert Tabs(vs) - Pdes(dirs, to) == {};
  }

  /** The pages of area i: not mapped yet in the new directory, and in the old one as they were. */
  lemma DupFacts(m: Maps, data: Contents, free: set<nat>, m': Maps, data': Contents, to: nat, from: nat,
                 areas: seq<Vma>, i: nat)
    requires Ordered(areas) && UserAreas(areas) && i < |areas| && DirPages(m, to) == {}
    requires Copied(m, data, free, m', data', to, from, AreaPages(m, from, areas[i + 1..])) && to != from
    ensures First(areas[i]) < Last(areas[i]) <= USER_PAGES
    ensures forall v :: First(areas[i]) <= v < Last(areas[i]) ==> (to, v) !in m'
    ensures PagesIn(m', from, First(areas[i]), Last(areas[i])) == PagesIn(m, from, First(areas[i]), Last(areas[i]))
  {
    var s, e := First(areas[i]), Last(areas[i]);
    UserPages(areas[i]);
    forall v | s <= v < e
      ensures (to, v) !in m'
    {
      InDirPages(m, to, v);
      InAreaPages(m, from, areas[i + 1..], v);
      if InAreas(areas[i + 1..], v) {
        Later(areas, i, v);
      }
    }
    forall v: nat
      ensures v in PagesIn(m', from, s, e) <==> v in PagesIn(m, from, s, e)
    {
      InPages(m, from, s, e, v);
      InPages(m', from, s, e, v);
    }
  }

  lemma GrownFront(dirs: Dirs, dirs1: Dirs, dirs2: Dirs, d: nat, areas: seq<Vma>, i: nat)
    requires i < |areas| && GrownIn(dirs, dirs1, d, areas[i + 1..])
    requires Grown(dirs1, dirs2, d, Range(First(areas[i]) / ENTRIES, PdeTop(Last(areas[i]))))
    ensures GrownIn(dirs, dirs2, d, areas[i..])
  {
    forall p | p in Pdes(dirs2, d)
      ensures p in Pdes(dirs, d) || PdeInAreas(areas[i..], p)
    {
      PdeInAreasFront(areas, i, p);
      if p !in Pdes(dirs1, d) {
        assert p in Range(First(areas[i]) / ENTRIES, PdeTop(Last(areas[i])));
      }
    }
  }

  /** Whatever was copied of the new directory lies in its areas. */
  lemma CopiedCovered(m: Maps, data: Contents, free: set<nat>, m': Maps, data': Contents, to: nat, from: nat,
                      vs: set<nat>, areas: seq<Vma>)
    requires Copied(m, data, free, m', data', to, from, vs) && DirPages(m, to) == {}
    requires forall v :: v in vs ==> InAreas(areas, v)
    ensures DirPages(m', to) == vs && Covered(m', to, areas)
  {
    forall v: nat
      ensures v in DirPages(m', to) <==> v in vs
    {
      InDirPages(m, to, v);
      InDirPages(m', to, v);
      assert v in vs ==> CopyOf(m, data, free, m', data', to, from, v);
    }
    forall k | k in m' && k.0 == to
      ensures InAreas(areas, k.1)
    {
      assert k == (to, k.1);
      InDirPages(m', to, k.1);
    }
  }

  /** Every mapped page of directory d lies in one of the areas. */
  ghost predicate Covered(m: Maps, d: nat, areas: seq<Vma>) {
    forall k :: k in m && k.0 == d ==> InAreas(areas, k.1)
  }

  /** Copying area i continues the copy of the later ones. */
  lemma DupJoin(m: Maps, data: Contents, free: set<nat>, m1: Maps, data1: Contents, free1: set<nat>, m2: Maps,
                data2: Contents, to: nat, from: nat, areas: seq<Vma>, i: nat, ws: set<nat>)
    requires Ordered(areas) && i < |areas|
    requires Copied(m, data, free, m1, data1, to, from, AreaPages(m, from, areas[i + 1..])) && free1 <= free
    requires Copied(m1, data1, free1, m2, data2, to, from, ws) && to != from && Backed(m, data) && free1 !! data1.Keys
    ensures ws <= PagesIn(m, from, First(areas[i]), Last(areas[i])) ==>
      Copied(m, data, free, m2, data2, to, from, AreaPages(m, from, areas[i + 1..]) + ws)
  {
    hide Copied;
    AreaPagesFront(m, from, areas, i);
    if ws <= PagesIn(m, from, First(areas[i]), Last(areas[i])) {
      CopiedTrans(m, data, free, m1, data1, free1, m2, data2, to, from, AreaPages(m, from, areas[i + 1..]), ws);
    }
  }

  lemma CopiedFrom(m: Maps, data: Contents, free: set<nat>, m': Maps, data': Contents, to: nat, from: nat, s: nat,
                   e: nat)
    requires Copied(m, data, free, m', data', to, from, PagesIn(m', to, s, e))
    ensures PagesIn(m', to, s, e) <= PagesIn(m, from, s, e)
  {
    forall v | v in PagesIn(m', to, s, e)
      ensures v in PagesIn(m, from, s, e)
    {
      assert CopyOf(m, data, free, m', data', to, from, v);
      InPages(m', to, s, e, v);
      InPages(m, from, s, e, v);
    }
  }

  lemma InsertFront(areas: seq<Vma>, i: nat, j: nat)
    requires Ordered(areas) && i < |areas|
    ensures forall b :: b in areas[i + 1..] ==> Disjoint(areas[i], b)
    ensures Splits(areas[i + 1..], areas[i], j) ==> InsertAt(areas[i + 1..], j, areas[i]) == areas[i..]
  {
    var later := areas[i + 1..];
    assert later != [] ==> later[0] == areas[i + 1];
    assert Splits(later, areas[i], j) ==> j == 0;
  }

  lemma AllInAreas(m: Maps, d: nat, areas: seq<Vma>, i: nat, ws: set<nat>)
    requires Ordered(areas) && i < |areas| && ws <= PagesIn(m, d, First(areas[i]), Last(areas[i]))
    ensures forall v :: v in AreaPages(m, d, areas[i + 1..]) + ws ==> InAreas(areas[i..], v)
  {
    AreaPagesFront(m, d, areas, i);
    forall v | v in AreaPages(m, d, areas[i + 1..]) + ws
      ensures InAreas(areas[i..], v)
    {
      InAreaPages(m, d, areas[i..], v);
    }
  }

  lemma NeedPart(m: Maps, d: nat, areas: seq<Vma>, i: nat, ps: set<nat>)
    requires Ordered(areas) && i < |areas|
    ensures var vs, ws := AreaPages(m, d, areas[i + 1..]), PagesIn(m, d, First(areas[i]), Last(areas[i]));
      Need(vs, ps) + Need(ws, ps + Tabs(vs)) <= Need(AreaPages(m, d, areas), ps) &&
      Need(AreaPages(m, d, areas[i..]), ps) == Need(vs, ps) + Need(ws, ps + Tabs(vs)) &&
      Tabs(AreaPages(m, d, areas[i..])) == Tabs(vs) + Tabs(ws)
  {
    hide Need;
    var vs, ws := AreaPages(m, d, areas[i + 1..]), PagesIn(m, d, First(areas[i]), Last(areas[i]));
    AreaPagesFront(m, d, areas, i);
    NeedBoth(vs, ws, ps);
    forall v | v in vs + ws
      ensures v in AreaPages(m, d, areas)
    {
      InAreaPages(m, d, areas[i..], v);
      InAreaPages(m, d, areas, v);
      var j :| 0 <= j < |areas[i..]| && InArea(areas[i..][j], v);
      assert areas[i + j] == areas[i..][j];
    }
    NeedMono(vs + ws, AreaPages(m, d, areas), ps);
  }

  /** The area just copied and the later ones. */
  lemma DupNext(m: Maps, data: Contents, free: set<nat>, dirs: Dirs, m2: Maps, data2: Contents, free1: set<nat>,
                free2: set<nat>, dirs1: Dirs, dirs2: Dirs, to: nat, from: nat, areas: seq<Vma>, i: nat)
    requires Ordered(areas) && i < |areas|
    requires var vs, ws := AreaPages(m, from, areas[i + 1..]), PagesIn(m, from, First(areas[i]), Last(areas[i]));
      Copied(m, data, free, m2, data2, to, from, vs + ws) &&
      Spent(free, free1, Need(vs, Pdes(dirs, to))) && Spent(free1, free2, Need(ws, Pdes(dirs1, to))) &&
      Pdes(dirs1, to) == Pdes(dirs, to) + Tabs(vs) && Pdes(dirs2, to) == Pdes(dirs1, to) + Tabs(ws)
    ensures Duping(m, data, free, dirs, m2, data2, free2, dirs2, to, from, AreaPages(m, from, areas[i..]))
  {
    hide Copied;
    hide Need;
    hide Tabs;
    AreaPagesFront(m, from, areas, i);
    NeedPart(m, from, areas, i, Pdes(dirs, to));
  }

  /** The loop body of dup_mm for area i. */
  method DupArea(m: Machine, to: MemMap, from: MemMap, i: nat, ghost maps: Maps, ghost data: Contents,
                 ghost free: set<nat>, ghost dirs: Dirs)
    returns (ok: bool)
    requires m.Valid() && to.Valid() && from.Valid() && to != from && UserAreas(from.vmas) && i < |from.vmas|
    requires to.pgdir in m.dirs && from.pgdir in m.dirs && to.pgdir != from.pgdir
    requires to.vmas == from.vmas[i + 1..] && DirPages(maps, to.pgdir) == {} && Backed(maps, data)
    requires Duping(maps, data, free, dirs, m.maps, m.data, m.alloc.FreePages(), m.dirs, to.pgdir, from.pgdir,
                    AreaPages(maps, from.pgdir, from.vmas[i + 1..]))
    requires GrownIn(dirs, m.dirs, to.pgdir, from.vmas[i + 1..])
    modifies m, m.alloc, m.alloc.pages, to
    ensures m.Valid() && m.Pool() == old(m.Pool()) && to.Valid() && to.vmas == from.vmas[i..]
    ensures m.dirs.Keys == old(m.dirs.Keys)
    ensures ok ==> Duping(maps, data, free, dirs, m.maps, m.data, m.alloc.FreePages(), m.dirs, to.pgdir, from.pgdir,
                          AreaPages(maps, from.pgdir, from.vmas[i..]))
    ensures GrownIn(dirs, m.dirs, to.pgdir, from.vmas[i..])
    ensures !ok ==> Copied(maps, data, free, m.maps, m.data, to.pgdir, from.pgdir, DirPages(m.maps, to.pgdir))
    ensures !ok ==> Covered(m.maps, to.pgdir, from.vmas[i..])
    ensures !ok ==> |free| < Need(AreaPages(maps, from.pgdir, from.vmas), Pdes(dirs, to.pgdir))
  {
    hide Machine.Valid;
    hide Machine.Pool;
    hide Ordered;
    hide Copied;
    hide Covered;
    hide GrownIn;
    hide Grown;
    hide UserAreas;
    hide Need;
    hide Spent;
    hide Tabs;
    hide Pdes;
    hide PagesIn;
    hide DirPages;
    hide AreaPages;
    hide Backed;
    hide Range;
    hide Allocator.FreePages;
    hide Disjoint;
    hide Splits;
    hide InsertAt;
    var a := from.vmas[i];
    var s, e := First(a), Last(a);
    var t, f := to.pgdir, from.pgdir;
    ghost var areas := from.vmas;
    ghost var maps1, data1, free1, dirs1 := m.maps, m.data, m.alloc.FreePages(), m.dirs;
    DupFacts(maps, data, free, maps1, data1, t, f, areas, i);
    FreeApart(m);
    SpentSub(free, free1, Need(AreaPages(maps, f, areas[i + 1..]), Pdes(dirs, t)));
    var inserted, j := to.Insert(a);
    InsertFront(areas, i, j);
    assert m.Valid();
    ok := m.CopyRange(t, f, s, e);
    ghost var ws := PagesIn(m.maps, t, s, e);
    CopiedFrom(maps1, data1, free1, m.maps, m.data, t, f, s, e);
    DupJoin(maps, data, free, maps1, data1, free1, m.maps, m.data, t, f, areas, i, ws);
    GrownFront(dirs, dirs1, m.dirs, t, areas, i);
    if ok {
      DupNext(maps, data, free, dirs, m.maps, m.data, free1, m.alloc.FreePages(), dirs1, m.dirs, t, f, areas, i);
    } else {
      AllInAreas(maps, f, areas, i, ws);
      CopiedCovered(maps, data, free, m.maps, m.data, t, f, AreaPages(maps, f, areas[i + 1..]) + ws, areas[i..]);
      NeedPart(maps, f, areas, i, Pdes(dirs, t));
      NotEnough(free, free1, Need(AreaPages(maps, f, areas[i + 1..]), Pdes(dirs, t)),
                Need(PagesIn(maps, f, s, e), Pdes(dirs1, t)), Need(AreaPages(maps, f, areas), Pdes(dirs, t)));
    }
  }

  lemma FreeApart(m: Machine)
    requires m.Valid()
    ensures m.alloc.FreePages() !! m.data.Keys
  {
    hide Allocator.Valid;
    hide Allocator.FreePages;
    hide Shaped;
    hide Ties;
    hide Counted;
  }

  lemma SpentSub(free: set<nat>, free': set<nat>, n: int)
    requires Spent(free, free', n)
    ensures free' <= free
  {
  }

  /** dup_mm: the areas, from the last to the first, and their mapped pages are given to a new directory. It succeeds
      exactly when there are frames for the pages and their page tables. */
  method DupMm(m: Machine, to: MemMap, from: MemMap) returns (ok: bool)
    requires m.Valid() && to.Valid() && from.Valid() && to != from && UserAreas(from.vmas)
    requires to.pgdir in m.dirs && from.pgdir in m.dirs && to.pgdir != from.pgdir
    requires to.vmas == [] && DirPages(m.maps, to.pgdir) == {}
    modifies m, m.alloc, m.alloc.pages, to
    ensures m.Valid() && m.Pool() == old(m.Pool()) && to.Valid() && UserAreas(to.vmas)
    ensures ok <==>
      |old(m.alloc.FreePages())| >= Need(AreaPages(old(m.maps), from.pgdir, from.vmas), Pdes(old(m.dirs), to.pgdir))
    ensures ok ==> to.vmas == from.vmas && DirPages(m.maps, to.pgdir) == AreaPages(old(m.maps), from.pgdir, from.vmas)
    ensures Copied(old(m.maps), old(m.data), old(m.alloc.FreePages()), m.maps, m.data, to.pgdir, from.pgdir,
                   DirPages(m.maps, to.pgdir))
    ensures Covered(m.maps, to.pgdir, to.vmas) && GrownIn(old(m.dirs), m.dirs, to.pgdir, to.vmas)
  {
    hide Machine.Valid;
    hide Machine.Pool;
    hide Ordered;
    hide Copied;
    hide Covered;
    hide GrownIn;
    hide Need;
    hide Spent;
    hide Tabs;
    hide Pdes;
    hide DirPages;
    hide AreaPages;
    hide Backed;
    hide Allocator.FreePages;
    ghost var maps, data, free, dirs, t, f := m.maps, m.data, m.alloc.FreePages(), m.dirs, to.pgdir, from.pgdir;
    ghost var areas := from.vmas;
    var i := |from.vmas|;
    assert areas[i..] == [];
    ok := true;
    DupStart(maps, data, free, dirs, t, f, areas);
    AllBacked(m);
    while i > 0
      invariant i <= |areas| && ok && m.Valid() && m.Pool() == old(m.Pool()) && to.Valid() && m.dirs.Keys == dirs.Keys
      invariant to.vmas == areas[i..]
      invariant Duping(maps, data, free, dirs, m.maps, m.data, m.alloc.FreePages(), m.dirs, t, f,
                       AreaPages(maps, f, areas[i..]))
      invariant GrownIn(dirs, m.dirs, t, areas[i..])
    {
      i := i - 1;
      ok := DupArea(m, to, from, i, maps, data, free, dirs);
      if !ok {
        return;
      }
    }
    assert areas[0..] == areas;
    PagesInAreas(maps, f, areas);
    CopiedCovered(maps, data, free, m.maps, m.data, t, f, AreaPages(maps, f, areas), areas);
    NeedEnough(free, m.alloc.FreePages(), Need(AreaPages(maps, f, areas), Pdes(dirs, t)));
  }

  lemma AllBacked(m: Machine)
    requires m.Valid()
    ensures Backed(m.maps, m.data)
  {
    hide Allocator.Valid;
    hide Allocator.FreePages;
    hide Shaped;
    hide Ties;
    hide Separate;
    CountedBacked(m.alloc.pages[..], m.maps, m.tables.Keys, m.data, -1);
  }

  lemma PagesInAreas(m: Maps, d: nat, areas: seq<Vma>)
    ensures forall v :: v in AreaPages(m, d, areas) ==> InAreas(areas, v)
  {
    forall v | v in AreaPages(m, d, areas)
      ensures InAreas(areas, v)
    {
      InAreaPages(m, d, areas, v);
    }
  }

  // ---- teardown ----

  ghost function DirKeys(m: Maps, d: nat): set<Key> {
    set k | k in m && k.0 == d
  }

  ghost function AreaKeys(m: Maps, d: nat, areas: seq<Vma>): set<Key> {
    set k | k in m && k.0 == d && InAreas(areas, k.1)
  }

  lemma InAreasBack(areas: seq<Vma>, i: nat, v: nat)
    requires i < |areas|
    ensures InAreas(areas[..i + 1], v) <==> InAreas(areas[..i], v) || InArea(areas[i], v)
  {
    var xs, ys := areas[..i], areas[..i + 1];
    if InArea(areas[i], v) {
      assert ys[i] == areas[i];
    }
    if j :| 0 <= j < |xs| && InArea(xs[j], v) {
      assert ys[j] == xs[j];
    }
    if j :| 0 <= j < |ys| && InArea(ys[j], v) {
      assert j < i ==> xs[j] == ys[j];
    }
  }

  lemma PdeInAreasBack(areas: seq<Vma>, i: nat, p: nat)
    requires i < |areas|
    ensures PdeInAreas(areas[..i + 1], p) <==> PdeInAreas(areas[..i], p) || PdeInArea(areas[i], p)
  {
    var xs, ys := areas[..i], areas[..i + 1];
    if PdeInArea(areas[i], p) {
      assert ys[i] == areas[i];
    }
    if j :| 0 <= j < |xs| && PdeInArea(xs[j], p) {
      assert ys[j] == xs[j];
    }
    if j :| 0 <= j < |ys| && PdeInArea(ys[j], p) {
      assert j < i ==> xs[j] == ys[j];
    }
  }

  lemma KeysBack(m: Maps, d: nat, areas: seq<Vma>, i: nat)
    requires i < |areas|
    ensures var ks := AreaKeys(m, d, areas[..i]);
      AreaKeys(m, d, areas[..i + 1]) == ks + KeysIn(m - ks, d, First(areas[i]), Last(areas[i]))
  {
    var ks := AreaKeys(m, d, areas[..i]);
    forall k
      ensures k in AreaKeys(m, d, areas[..i + 1]) <==>
        k in ks || k in KeysIn(m - ks, d, First(areas[i]), Last(areas[i]))
    {
      InAreasBack(areas, i, k.1);
    }
  }

  /** Unmapping one more area. */
  lemma UnmapArea(m: Maps, data: Contents, d: nat, areas: seq<Vma>, i: nat)
    requires i < |areas|
    ensures var ks, ls := AreaKeys(m, d, areas[..i]), AreaKeys(m, d, areas[..i + 1]);
      var js := KeysIn(m - ks, d, First(areas[i]), Last(areas[i]));
      m - ks - js == m - ls && data - Lost(m, ks) - Lost(m - ks, js) == data - Lost(m, ls)
  {
    hide AreaKeys;
    hide KeysIn;
    hide Lost;
    var ks := AreaKeys(m, d, areas[..i]);
    var js := KeysIn(m - ks, d, First(areas[i]), Last(areas[i]));
    KeysBack(m, d, areas, i);
    LostTwice(m, ks, js);
  }

  lemma KeysAll(m: Maps, d: nat, areas: seq<Vma>)
    requires Covered(m, d, areas)
    ensures AreaKeys(m, d, areas) == DirKeys(m, d)
    ensures forall p :: Unused(m - DirKeys(m, d), d, p)
  {
  }

  lemma KeysStart(m: Maps, data: Contents, d: nat)
    ensures AreaKeys(m, d, []) == {} && m - AreaKeys(m, d, []) == m && data - Lost(m, AreaKeys(m, d, [])) == data
  {
    KeysNone(m, d, 0);
    assert AreaKeys(m, d, []) == {};
  }

  /** The page tables of directory d in the areas are gone; other directories did not change. */
  ghost predicate ClosedIn(dirs: Dirs, dirs': Dirs, d: nat, areas: seq<Vma>) {
    dirs'.Keys == dirs.Keys && (forall e :: e in dirs && e != d ==> dirs'[e] == dirs[e]) &&
    forall p: nat :: p in Pdes(dirs', d) <==> p in Pdes(dirs, d) && !PdeInAreas(areas, p)
  }

  lemma ClosedBack(dirs: Dirs, dirs1: Dirs, dirs2: Dirs, d: nat, areas: seq<Vma>, i: nat)
    requires i < |areas| && ClosedIn(dirs, dirs1, d, areas[..i])
    requires Closed(dirs1, dirs2, d, First(areas[i]) / ENTRIES, PdeTop(Last(areas[i])))
    ensures ClosedIn(dirs, dirs2, d, areas[..i + 1])
  {
    hide PdeTop;
    hide PdeInAreas;
    forall p: nat
      ensures p in Pdes(dirs2, d) <==> p in Pdes(dirs, d) && !PdeInAreas(areas[..i + 1], p)
    {
      PdeInAreasBack(areas, i, p);
    }
  }

  /** exit_mmap: unmap all areas, then free the page tables they reach. */
  method ExitMmap(m: Machine, mm: MemMap)
    requires m.Valid() && UserAreas(mm.vmas) && mm.pgdir in m.dirs && Covered(m.maps, mm.pgdir, mm.vmas)
    modifies m, m.alloc, m.alloc.pages
    ensures m.Valid() && m.Pool() == old(m.Pool())
    ensures m.maps == old(m.maps) - DirKeys(old(m.maps), mm.pgdir)
    ensures m.data == old(m.data) - Lost(old(m.maps), DirKeys(old(m.maps), mm.pgdir))
    ensures ClosedIn(old(m.dirs), m.dirs, mm.pgdir, mm.vmas)
  {
    hide Machine.Valid;
    hide Machine.Pool;
    hide AreaKeys;
    hide DirKeys;
    hide KeysIn;
    hide Lost;
    hide Covered;
    hide ClosedIn;
    hide Closed;
    hide Unused;
    hide PdeTop;
    hide First;
    hide Last;
    hide UserArea;
    ghost var maps, data, dirs := m.maps, m.data, m.dirs;
    var d, areas := mm.pgdir, mm.vmas;
    KeysStart(maps, data, d);
    for i := 0 to |areas|
      invariant m.Valid() && m.Pool() == old(m.Pool()) && m.dirs == dirs
      invariant m.maps == maps - AreaKeys(maps, d, areas[..i])
      invariant m.data == data - Lost(maps, AreaKeys(maps, d, areas[..i]))
    {
      UserPages(areas[i]);
      UnmapArea(maps, data, d, areas, i);
      m.UnmapRange(d, First(areas[i]), Last(areas[i]));
    }
    assert areas[..|areas|] == areas && areas[..0] == [];
    KeysAll(maps, d, areas);
    ClosedNone(dirs, d);
    for i := 0 to |areas|
      invariant m.Valid() && m.Pool() == old(m.Pool()) && m.dirs.Keys == dirs.Keys
      invariant m.maps == maps - DirKeys(maps, d) && m.data == data - Lost(maps, DirKeys(maps, d))
      invariant ClosedIn(dirs, m.dirs, d, areas[..i])
    {
      UserPages(areas[i]);
      ghost var dirs1 := m.dirs;
      m.ExitRange(d, First(areas[i]), Last(areas[i]));
      ClosedBack(dirs, dirs1, m.dirs, d, areas, i);
      ClosedKeys(dirs1, m.dirs, d, First(areas[i]) / ENTRIES, PdeTop(Last(areas[i])));
    }
  }

  lemma ClosedNone(dirs: Dirs, d: nat)
    ensures ClosedIn(dirs, dirs, d, [])
  {
  }

  lemma ClosedKeys(dirs: Dirs, dirs': Dirs, d: nat, lo: nat, hi: nat)
    requires Closed(dirs, dirs', d, lo, hi)
    ensures dirs'.Keys == dirs.Keys
  {
  }

  /** Free frames are those of the pool that are neither page tables nor frames with data; page tables are those of the
      directories. */
  lemma SameFree(m: Machine)
    requires m.Valid()
    ensures m.alloc.FreePages() == m.Pool() - m.tables.Keys - m.data.Keys
    ensures m.tables.Keys == Owned(m.dirs)
  {
    hide Allocator.Valid;
    hide Allocator.FreePages;
    hide Ties;
    hide Counted;
    forall f: nat
      ensures f in m.tables.Keys <==> f in Owned(m.dirs)
    {
      if f in m.tables {
        var d: nat, p: nat :| Owns(m.dirs, d, p, f);
        assert d in m.dirs && p in Pdes(m.dirs, d) && m.dirs[d][p].frame == f;
      }
      if f in Owned(m.dirs) {
        var d, p :| d in m.dirs && p in Pdes(m.dirs, d) && m.dirs[d][p].frame == f;
        assert Owns(m.dirs, d, p, f);
      }
    }
  }

  /** The frames that the directories name. */
  ghost function Owned(dirs: Dirs): set<nat> {
    set d, p | d in dirs && p in Pdes(dirs, d) :: dirs[d][p].frame
  }

  lemma GrownKeys(dirs: Dirs, dirs': Dirs, d: nat, areas: seq<Vma>)
    requires GrownIn(dirs, dirs', d, areas)
    ensures dirs'.Keys == dirs.Keys
  {
  }

  lemma GrownClosed(dirs: Dirs, dirs1: Dirs, dirs2: Dirs, d: nat, areas: seq<Vma>)
    requires GrownIn(dirs, dirs1, d, areas) && ClosedIn(dirs1, dirs2, d, areas) && Pdes(dirs, d) == {}
    ensures dirs2.Keys == dirs.Keys && Pdes(dirs2, d) == {} && forall e :: e in dirs && e != d ==> dirs2[e] == dirs[e]
  {
    hide PdeInAreas;
  }

  /** A directory without page tables is all zero. */
  lemma DirShape(m: Machine, d: nat)
    requires m.Valid() && d in m.dirs && Pdes(m.dirs, d) == {}
    ensures m.dirs[d] == seq(USER_PDES, _ => ZERO)
  {
    hide Allocator.Valid;
    hide Allocator.FreePages;
    hide Ties;
    hide Counted;
    hide Separate;
    forall p | 0 <= p < USER_PDES
      ensures m.dirs[d][p] == ZERO
    {
      ShapedZero(m.dirs, m.tables, d, p);
      assert p !in Pdes(m.dirs, d);
    }
  }

  lemma DirsBack(m: Machine, dirs: Dirs, d: nat)
    requires m.Valid() && d in m.dirs && Pdes(m.dirs, d) == {} && m.dirs.Keys == dirs.Keys
    requires dirs[d] == seq(USER_PDES, _ => ZERO) && forall e :: e in dirs && e != d ==> m.dirs[e] == dirs[e]
    ensures m.dirs == dirs
  {
    DirShape(m, d);
  }

  /** Forgetting the new directory undoes the copy: all its frames are lost, and no other. */
  lemma CopyUndone(m: Maps, data: Contents, free: set<nat>, m': Maps, data': Contents, to: nat, from: nat)
    requires Copied(m, data, free, m', data', to, from, DirPages(m', to)) && DirPages(m, to) == {}
    requires Backed(m, data) && free !! data.Keys
    ensures m' - DirKeys(m', to) == m && data' - Lost(m', DirKeys(m', to)) == data
  {
    var ks := DirKeys(m', to);
    forall k
      ensures k in m' && k !in ks <==> k in m
    {
      InDirPages(m, to, k.1);
      assert k.0 == to ==> k == (to, k.1);
    }
    assert m' - ks == m;
    forall f
      ensures f in data' && f !in Lost(m', ks) <==> f in data
    {
      InLost(m', ks, f);
      if f in data {
        OldFrameKept(m, data, free, m', data', to, from, f);
      } else if f in data' {
        NewFrameLost(m, data, free, m', data', to, from, f);
      }
    }
  }

  lemma OldFrameKept(m: Maps, data: Contents, free: set<nat>, m': Maps, data': Contents, to: nat, from: nat, f: nat)
    requires Copied(m, data, free, m', data', to, from, DirPages(m', to)) && DirPages(m, to) == {}
    requires free !! data.Keys && f in data
    ensures !(Users(m', f) != {} && Users(m', f) <= DirKeys(m', to))
  {
    forall k | k in m' && k.0 == to
      ensures m'[k].frame != f
    {
      assert k == (to, k.1);
      InDirPages(m', to, k.1);
      assert CopyOf(m, data, free, m', data', to, from, k.1);
    }
  }

  lemma NewFrameLost(m: Maps, data: Contents, free: set<nat>, m': Maps, data': Contents, to: nat, from: nat, f: nat)
    requires Copied(m, data, free, m', data', to, from, DirPages(m', to))
    requires Backed(m, data) && f in data' && f !in data
    ensures Users(m', f) != {} && Users(m', f) <= DirKeys(m', to)
  {
    var v :| v in DirPages(m', to) && m'[(to, v)].frame == f;
    InDirPages(m', to, v);
    assert (to, v) in Users(m', f);
    forall k | k in Users(m', f)
      ensures k in DirKeys(m', to)
    {
      assert k !in m;
    }
  }

  /** Fork and exit: whether or not the copy found enough memory, tearing the new directory down leaves every mapping,
      every frame, every page table and the set of free frames as they were. */
  method ForkThenExit(m: Machine, to: MemMap, from: MemMap)
    requires m.Valid() && to.Valid() && from.Valid() && to != from && UserAreas(from.vmas)
    requires to.pgdir in m.dirs && from.pgdir in m.dirs && to.pgdir != from.pgdir
    requires to.vmas == [] && DirPages(m.maps, to.pgdir) == {} && Pdes(m.dirs, to.pgdir) == {}
    modifies m, m.alloc, m.alloc.pages, to
    ensures m.Valid() && m.maps == old(m.maps) && m.data == old(m.data) && m.dirs == old(m.dirs)
    ensures m.tables.Keys == old(m.tables.Keys) && m.alloc.FreePages() == old(m.alloc.FreePages())
  {
    hide Machine.Valid;
    hide Machine.Pool;
    hide Copied;
    hide Covered;
    hide GrownIn;
    hide ClosedIn;
    hide Need;
    hide Pdes;
    hide DirPages;
    hide AreaPages;
    hide DirKeys;
    hide Lost;
    hide Allocator.FreePages;
    ghost var maps, data, free, dirs, d := m.maps, m.data, m.alloc.FreePages(), m.dirs, to.pgdir;
    DirShape(m, d);
    SameFree(m);
    FreeApart(m);
    ghost var tables := m.tables.Keys;
    AllBacked(m);
    var ok := DupMm(m, to, from);
    ghost var maps1, data1, dirs1 := m.maps, m.data, m.dirs;
    CopyUndone(maps, data, free, maps1, data1, d, from.pgdir);
    GrownKeys(dirs, dirs1, d, to.vmas);
    ExitMmap(m, to);
    GrownClosed(dirs, dirs1, m.dirs, d, to.vmas);
    DirsBack(m, dirs, d);
    SameFree(m);
  }
}
