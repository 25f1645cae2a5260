/** The areas of an address space and their lookup cache (kern/mm/vmm.c). */
module VmaList {
  /** VirtMemArea_t: addresses from start up to end. */
  datatype Vma = Vma(start: nat, end: nat, flags: nat)

  datatype Option<T> = None | Some(value: T)

  const PGSIZE := 4096
  const WORD := 0x1_0000_0000
  const USER_BASE := 0x0020_0000
  const USER_TOP := 0xB000_0000

  predicate Contains(a: Vma, addr: nat) {
    a.start <= addr < a.end
  }

  predicate Disjoint(a: Vma, b: Vma) {
    a.end <= b.start || b.end <= a.start
  }

  /** Areas are not empty, and each ends before the next begins. */
  ghost predicate Ordered(areas: seq<Vma>) {
    (forall i :: 0 <= i < |areas| ==> areas[i].start < areas[i].end) &&
    forall i, j :: 0 <= i < j < |areas| ==> areas[i].end <= areas[j].start
  }

  /** The first area that contains addr, found without a cache. */
  function Search(areas: seq<Vma>, addr: nat): Option<Vma> {
    if areas == [] then None
    else if Contains(areas[0], addr) then Some(areas[0])
    else Search(areas[1..], addr)
  }

  /** The containing area is unique, so any area that contains addr is the one found. */
  lemma {:induction false} SearchFinds(areas: seq<Vma>, addr: nat, a: Vma)
    requires Ordered(areas) && a in areas && Contains(a, addr)
    ensures Search(areas, addr) == Some(a)
  {
    var i :| 0 <= i < |areas| && areas[i] == a;
    if i > 0 {
      assert areas[0].end <= areas[i].start;
      assert areas[1..][i - 1] == a;
      SearchFinds(areas[1..], addr, a);
    }
  }

  lemma {:induction false} SearchFails(areas: seq<Vma>, addr: nat)
    ensures Search(areas, addr) == None <==> forall a :: a in areas ==> !Contains(a, addr)
  {
    if areas != [] {
      SearchFails(areas[1..], addr);
      assert areas == [areas[0]] + areas[1..];
    }
  }

  /** The list with a inserted at position i. */
  function InsertAt(areas: seq<Vma>, i: nat, a: Vma): seq<Vma>
    requires i <= |areas|
  {
    areas[..i] + [a] + areas[i..]
  }

  /** Position i separates the areas that start at or before a from those that start after it. */
  ghost predicate Splits(areas: seq<Vma>, a: Vma, i: nat) {
    i <= |areas| && (forall j :: 0 <= j < i ==> areas[j].start <= a.start) && (i < |areas| ==> a.start < areas[i].start)
  }

  /** The new list is the old one with a at its place. */
  ghost predicate Inserted(areas: seq<Vma>, areas': seq<Vma>, a: Vma) {
    exists i :: Splits(areas, a, i) && areas' == InsertAt(areas, i, a)
  }

  /** check_vma_overlap of both neighbours passes. */
  predicate NeighboursClear(areas: seq<Vma>, a: Vma, i: nat)
    requires i <= |areas|
  {
    (i > 0 ==> areas[i - 1].end <= a.start) && (i < |areas| ==> a.end <= areas[i].start)
  }

  /** An area clear of its neighbours lies between all areas before it and all areas after it. */
  lemma NeighboursReach(areas: seq<Vma>, a: Vma, i: nat, j: nat)
    requires Ordered(areas) && Splits(areas, a, i) && NeighboursClear(areas, a, i) && j < |areas|
    ensures if j < i then areas[j].end <= a.start else a.end <= areas[j].start
  {
    if j < i - 1 {
      assert areas[j].end <= areas[i - 1].start;
    }
    if i < j {
      assert areas[i].end <= areas[j].start;
    }
  }

  lemma InsertOrdered(areas: seq<Vma>, a: Vma, i: nat)
    requires Ordered(areas) && a.start < a.end && i <= |areas|
    requires forall j :: 0 <= j < |areas| ==> if j < i then areas[j].end <= a.start else a.end <= areas[j].start
    ensures Ordered(InsertAt(areas, i, a))
  {
    var r := InsertAt(areas, i, a);
    assert forall j :: 0 <= j < |r| ==> r[j] == if j < i then areas[j] else if j == i then a else areas[j - 1];
  }

  /** Looking at two neighbours is looking at all areas. */
  lemma NeighboursSuffice(areas: seq<Vma>, a: Vma, i: nat)
    requires Ordered(areas) && a.start < a.end && Splits(areas, a, i)
    ensures NeighboursClear(areas, a, i) <==> forall b :: b in areas ==> Disjoint(a, b)
    ensures NeighboursClear(areas, a, i) ==> Ordered(InsertAt(areas, i, a))
  {
    hide InsertAt;
    if NeighboursClear(areas, a, i) {
      forall j | 0 <= j < |areas|
        ensures if j < i then areas[j].end <= a.start else a.end <= areas[j].start
      {
        NeighboursReach(areas, a, i, j);
      }
      InsertOrdered(areas, a, i);
    } else if i > 0 && areas[i - 1].end > a.start {
      assert areas[i - 1] in areas && !Disjoint(a, areas[i - 1]);
    } else {
      assert areas[i] in areas && !Disjoint(a, areas[i]);
    }
  }

  function RoundDown(a: nat): (r: nat)
    ensures r <= a < r + PGSIZE && r % PGSIZE == 0
  {
    a - a % PGSIZE
  }

  /** ROUNDUP in 32-bit arithmetic. */
  function RoundUp(a: nat): (r: nat)
    ensures r % PGSIZE == 0
    ensures a <= WORD - PGSIZE ==> a <= r < a + PGSIZE
  {
    RoundDown((a + PGSIZE - 1) % WORD)
  }

  /** isUserCanAccess. */
  predicate UserRange(a: Vma) {
    USER_BASE <= a.start < a.end <= USER_TOP
  }

  datatype MapResult = Mapped | Invalid | Panic

  class MemMap {
    const pgdir: nat
    var vmas: seq<Vma>
    var cache: Option<Vma>
    var count: nat

    ghost predicate Valid()
      reads this
    {
      Ordered(vmas) && count == |vmas| && (cache.Some? ==> cache.value in vmas)
    }

    /** mm_create. */
    constructor (pgdir: nat)
      ensures Valid() && vmas == [] && cache == None && this.pgdir == pgdir
    {
      this.pgdir, vmas, cache, count := pgdir, [], None, 0;
    }

    /** find_vma: the cached area if it contains the address, else the first of the list that does. */
    method Find(addr: nat) returns (r: Option<Vma>)
      requires Valid()
      modifies `cache
      ensures Valid() && r == Search(vmas, addr)
      ensures r.Some? <==> exists i :: 0 <= i < |vmas| && vmas[i].start <= addr < vmas[i].end
      ensures r.Some? ==> r.value in vmas && r.value.start <= addr < r.value.end
      ensures r.Some? ==> cache == r
    {
      SearchFails(vmas, addr);
      r := cache;
      if cache.Some? && Contains(cache.value, addr) {
        SearchFinds(vmas, addr, cache.value);
        return;
      }
      r := None;
      for i := 0 to |vmas|
        invariant r == None && forall j :: 0 <= j < i ==> !Contains(vmas[j], addr)
      {
        if Contains(vmas[i], addr) {
          SearchFinds(vmas, addr, vmas[i]);
          r := Some(vmas[i]);
          break;
        }
      }
      if r.Some? {
        cache := r;
      }
    }

    /** Where the loop of insert_vma stops. */
    method Place(a: Vma) returns (i: nat)
      requires Valid()
      ensures Splits(vmas, a, i)
    {
      i := 0;
      while i < |vmas|
        invariant i <= |vmas| && forall j :: 0 <= j < i ==> vmas[j].start <= a.start
      {
        if vmas[i].start > a.start {
          break;
        }
        i := i + 1;
      }
    }

    /** insert_vma: it panics (ok is false) exactly when the area is empty or overlaps another. */
    method Insert(a: Vma) returns (ok: bool, ghost i: nat)
      requires Valid()
      modifies `vmas, `count
      ensures Valid()
      ensures ok <==> a.start < a.end && forall b :: b in old(vmas) ==> Disjoint(a, b)
      ensures ok ==> Splits(old(vmas), a, i) && vmas == InsertAt(old(vmas), i, a)
      ensures !ok ==> vmas == old(vmas)
    {
      ok, i := false, 0;
      if a.start < a.end {
        var p := Place(a);
        i := p;
        NeighboursSuffice(vmas, a, p);
        ok := NeighboursClear(vmas, a, p);
        if ok {
          vmas := InsertAt(vmas, p, a);
          count := count + 1;
        }
      }
    }

    /** mm_map: the pages of [addr, addr + len) become an area. Starting inside an area is refused; overlapping a later
        one only is caught by the panic of insert_vma. */
    method Map(addr: nat, len: nat, flags: nat) returns (r: MapResult)
      requires Valid() && addr < WORD && len < WORD
      modifies this
      ensures Valid()
      ensures r == Mapped <==>
        UserRange(Asked(addr, len, flags)) && forall b :: b in old(vmas) ==> Disjoint(Asked(addr, len, flags), b)
      ensures r == Invalid <==>
        !UserRange(Asked(addr, len, flags)) || Search(old(vmas), Asked(addr, len, flags).start).Some?
      ensures r == Mapped ==> Inserted(old(vmas), vmas, Asked(addr, len, flags))
      ensures r != Mapped ==> vmas == old(vmas)
    {
      hide RoundDown;
      hide RoundUp;
      hide Ordered;
      var area := Vma(RoundDown(addr), RoundUp((addr + len) % WORD), flags);
      if !UserRange(area) {
        return Invalid;
      }
      var found := Find(area.start);
      StartInside(vmas, area);
      if found.Some? && area.end > found.value.start {
        return Invalid;
      }
      var ok, i := Insert(area);
      r := if ok then Mapped else Panic;
    }
  }

  /** The pages that mm_map makes an area of. */
  function Asked(addr: nat, len: nat, flags: nat): Vma {
    Vma(RoundDown(addr), RoundUp((addr + len) % WORD), flags)
  }

  lemma StartInside(areas: seq<Vma>, a: Vma)
    requires Ordered(areas) && a.start < a.end
    ensures Search(areas, a.start).Some? ==> Search(areas, a.start).value.start < a.end
    ensures Search(areas, a.start).Some? ==> !forall b :: b in areas ==> Disjoint(a, b)
  {
    SearchFails(areas, a.start);
    if Search(areas, a.start).Some? {
      var b :| b in areas && Contains(b, a.start);
      SearchFinds(areas, a.start, b);
      assert !Disjoint(a, b);
    }
  }

  /** What mm_map accepts covers the range asked for exactly when that range does not wrap around. */
  lemma MapCovers(addr: nat, len: nat, flags: nat)
    requires addr < WORD && len < WORD && UserRange(Asked(addr, len, flags))
    ensures Asked(addr, len, flags).start <= addr
    ensures addr + len <= Asked(addr, len, flags).end <==> addr + len < 0x1_0000_0000
  {
    if addr + len < WORD {
      Rounded(addr + len);
    }
  }

  lemma Rounded(a: nat)
    requires a < WORD && RoundUp(a) > 0
    ensures a <= RoundUp(a)
  {
  }

  /** A range in front of an area that runs into it is not refused but ends in the panic of insert_vma. */
  method MapPanics() returns (mm: MemMap, r: MapResult)
    ensures mm.vmas == [Vma(0x1000_1000, 0x1000_2000, 0)] && r == Panic
  {
    hide Ordered;
    AskedHere();
    mm := new MemMap(0);
    var first := mm.Map(0x1000_1000, 0x1000, 0);
    assert first == Mapped && mm.vmas == [Vma(0x1000_1000, 0x1000_2000, 0)];
    assert !Disjoint(Vma(0x1000_0000, 0x1000_2000, 0), mm.vmas[0]);
    r := mm.Map(0x1000_0000, 0x2000, 0);
  }

  lemma AskedHere()
    ensures Asked(0x1000_1000, 0x1000, 0) == Vma(0x1000_1000, 0x1000_2000, 0)
    ensures Asked(0x1000_0000, 0x2000, 0) == Vma(0x1000_0000, 0x1000_2000, 0)
  {
  }

  /** An unaligned address and a length of almost 4 GB give a single page. */
  lemma MapWraps()
    ensures var a := Asked(0x1000_0800, 0xFFFF_FFFF, 0);
      UserRange(a) && a.end == a.start + PGSIZE
  {
    assert RoundDown(0x1000_0800) == 0x1000_0000;
  }
}
