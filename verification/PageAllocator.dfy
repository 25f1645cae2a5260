/** The first-fit physical page allocator (kern/mm/ff_mmanager.c). */
module PageAllocator {
  /** PhyPageBlock_t: the two flag bits, the block size of a list head, and the reference count. */
  datatype Page = Page(reserved: bool, property: bool, size: nat, ref: int)

  type Pages = seq<Page>

  /** Page i belongs to the free block with head h. */
  ghost predicate InBlock(ps: Pages, h: nat, i: nat) {
    h < |ps| && h <= i < h + ps[h].size
  }

  /** The blocks of h and k neither overlap nor touch. */
  ghost predicate Gap(ps: Pages, h: nat, k: nat) {
    h < |ps| && k < |ps| && (h + ps[h].size < k || k + ps[k].size < h)
  }

  ghost predicate IsBlock(ps: Pages, h: nat) {
    h < |ps| && ps[h].property && 0 < ps[h].size && h + ps[h].size <= |ps|
  }

  ghost predicate Apart(ps: Pages, free: seq<nat>) {
    forall a, b :: 0 <= a < |free| && 0 <= b < |free| && a != b ==> Gap(ps, free[a], free[b])
  }

  /** The free list: blocks with gaps between them, and the property bit set on their heads only. */
  ghost predicate Blocks(ps: Pages, free: seq<nat>) {
    (forall a :: 0 <= a < |free| ==> IsBlock(ps, free[a])) &&
    Apart(ps, free) &&
    (forall i :: 0 <= i < |ps| && ps[i].property ==> i in free)
  }

  /** Reserved pages are not free. */
  ghost predicate ReservedKept(ps: Pages, free: seq<nat>) {
    forall i :: 0 <= i < |ps| && Free(ps, free, i) ==> !ps[i].reserved
  }

  function SizeOf(ps: Pages, h: nat): nat {
    if h < |ps| then ps[h].size else 0
  }

  /** The sum of the block sizes. */
  function Total(ps: Pages, free: seq<nat>): nat {
    if free == [] then 0 else SizeOf(ps, free[0]) + Total(ps, free[1..])
  }

  /** The free pages. */
  ghost function FreeSet(ps: Pages, free: seq<nat>): set<nat> {
    set i: nat | i < |ps| && Free(ps, free, i)
  }

  ghost predicate Free(ps: Pages, free: seq<nat>, i: nat) {
    exists a :: 0 <= a < |free| && InBlock(ps, free[a], i)
  }

  ghost function Range(lo: nat, hi: nat): set<nat> {
    set i: nat | i < hi && From(lo, i)
  }

  ghost predicate From(lo: nat, i: nat) {
    lo <= i
  }

  lemma {:induction false} RangeSize(lo: nat, hi: nat)
    requires lo <= hi
    ensures |Range(lo, hi)| == hi - lo
    decreases hi - lo
  {
    if lo < hi {
      assert Range(lo, hi) == Range(lo + 1, hi) + {lo};
      RangeSize(lo + 1, hi);
    } else {
      assert Range(lo, hi) == {};
    }
  }

  /** The block sizes add up to the number of free pages. */
  lemma {:induction false} TotalIsCount(ps: Pages, free: seq<nat>)
    requires forall a :: 0 <= a < |free| ==> IsBlock(ps, free[a])
    requires Apart(ps, free)
    ensures Total(ps, free) == |FreeSet(ps, free)|
  {
    hide FreeSet;
    hide Range;
    if free == [] {
      FreeSetNil(ps);
    } else {
      TotalIsCount(ps, free[1..]);
      RangeSize(free[0], free[0] + ps[free[0]].size);
      FirstApart(ps, free);
    }
  }

  lemma FreeSetNil(ps: Pages)
    ensures FreeSet(ps, []) == {}
  {
  }

  /** The free pages are those of the first block and, apart from them, those of the others. */
  lemma FirstApart(ps: Pages, free: seq<nat>)
    requires free != [] && IsBlock(ps, free[0])
    requires Apart(ps, free)
    ensures var block := Range(free[0], free[0] + ps[free[0]].size);
      FreeSet(ps, free) == block + FreeSet(ps, free[1..]) && block !! FreeSet(ps, free[1..])
  {
    var block := Range(free[0], free[0] + ps[free[0]].size);
    forall i: nat
      ensures i in FreeSet(ps, free) <==> i in block || i in FreeSet(ps, free[1..])
      ensures !(i in block && i in FreeSet(ps, free[1..]))
    {
      FreeCons(ps, free, i);
      if InBlock(ps, free[0], i) {
        NotInRest(ps, free, i);
      }
    }
  }

  lemma FreeCons(ps: Pages, free: seq<nat>, i: nat)
    requires free != [] && IsBlock(ps, free[0])
    ensures Free(ps, free, i) <==> InBlock(ps, free[0], i) || Free(ps, free[1..], i)
  {
    if Free(ps, free[1..], i) {
      var a :| 0 <= a < |free[1..]| && InBlock(ps, free[1..][a], i);
      assert free[a + 1] == free[1..][a];
    }
    if Free(ps, free, i) && !InBlock(ps, free[0], i) {
      var a :| 0 <= a < |free| && InBlock(ps, free[a], i);
      assert free[1..][a - 1] == free[a];
    }
  }

  lemma NotInRest(ps: Pages, free: seq<nat>, i: nat)
    requires free != [] && InBlock(ps, free[0], i)
    requires Apart(ps, free)
    ensures !Free(ps, free[1..], i)
  {
    forall a | 0 <= a < |free[1..]|
      ensures !InBlock(ps, free[1..][a], i)
    {
      assert free[1..][a] == free[a + 1];
      assert Gap(ps, free[0], free[a + 1]);
    }
  }

  /** A run of free pages lies in one block: blocks cannot be merged any further. */
  lemma RunInOneBlock(ps: Pages, free: seq<nat>, lo: nat, n: nat) returns (a: nat)
    requires Blocks(ps, free) && 0 < n && forall i :: lo <= i < lo + n ==> Free(ps, free, i)
    ensures a < |free| && free[a] <= lo && lo + n <= free[a] + ps[free[a]].size
  {
    assert Free(ps, free, lo);
    a :| 0 <= a < |free| && InBlock(ps, free[a], lo);
    PastEnd(ps, free, a);
  }

  lemma PastEnd(ps: Pages, free: seq<nat>, a: nat)
    requires Blocks(ps, free) && a < |free|
    ensures !Free(ps, free, free[a] + ps[free[a]].size)
  {
    var end := free[a] + ps[free[a]].size;
    forall b | 0 <= b < |free|
      ensures !InBlock(ps, free[b], end)
    {
      if a != b {
        assert Gap(ps, free[a], free[b]);
      }
    }
  }

  // ---- allocation: the head of a block is split off ----

  /** The free list without its element a. */
  function Without(free: seq<nat>, a: nat): seq<nat>
    requires a < |free|
  {
    free[..a] + free[a + 1..]
  }

  /** The free list after n pages were taken off block a: its rest takes its place, if there is one. */
  function Carved(ps: Pages, free: seq<nat>, a: nat, n: nat): seq<nat>
    requires a < |free| && free[a] < |ps|
  {
    if ps[free[a]].size > n then free[a := free[a] + n] else Without(free, a)
  }

  /** The pages after n pages were taken off the block with head h. */
  function Taken(ps: Pages, h: nat, n: nat): (r: Pages)
    requires 0 < n && h < |ps| && n <= ps[h].size && h + ps[h].size <= |ps|
    ensures |r| == |ps|
  {
    var rest := if ps[h].size > n then ps[h + n := ps[h + n].(size := ps[h].size - n, property := true)] else ps;
    rest[h := rest[h].(property := false, size := n)]
  }

  lemma SplitBlocks(ps: Pages, free: seq<nat>, a: nat, n: nat)
    requires Blocks(ps, free) && a < |free| && 0 < n < ps[free[a]].size
    ensures Blocks(Taken(ps, free[a], n), free[a := free[a] + n])
  {
    var h, ps', free' := free[a], Taken(ps, free[a], n), free[a := free[a] + n];
    forall c | 0 <= c < |free| && c != a
      ensures free[c] != h && free[c] != h + n && ps'[free[c]] == ps[free[c]]
    {
      assert Gap(ps, free[a], free[c]);
    }
    assert forall i :: 0 <= i < |ps| && i != h && i != h + n ==> ps'[i] == ps[i];
    forall i | 0 <= i < |ps'| && ps'[i].property
      ensures i in free'
    {
      if i != h + n {
        var c :| 0 <= c < |free| && free[c] == i;
        assert free'[c] == i;
      } else {
        assert free'[a] == i;
      }
    }
  }

  lemma DropBlocks(ps: Pages, free: seq<nat>, a: nat, p: Page)
    requires Blocks(ps, free) && a < |free| && !p.property
    ensures Blocks(ps[free[a] := p], Without(free, a))
  {
    var h, ps', free' := free[a], ps[free[a] := p], Without(free, a);
    forall c | 0 <= c < |free| && c != a
      ensures free[c] != h && ps'[free[c]] == ps[free[c]]
    {
      assert Gap(ps, free[a], free[c]);
    }
    forall b | 0 <= b < |free'|
      ensures free'[b] == free[if b < a then b else b + 1]
    {
    }
    forall i | 0 <= i < |ps'| && ps'[i].property
      ensures i in free'
    {
      var c :| 0 <= c < |free| && free[c] == i;
      assert free'[if c < a then c else c - 1] == i;
    }
  }

  /** Blocks other than a are not touched by taking pages off a. */
  lemma OthersUntouched(ps: Pages, free: seq<nat>, a: nat, n: nat, c: nat)
    requires Blocks(ps, free) && a < |free| && c < |free| && c != a && 0 < n <= ps[free[a]].size
    ensures Taken(ps, free[a], n)[free[c]] == ps[free[c]]
    ensures forall i :: InBlock(ps, free[c], i) ==> !InBlock(ps, free[a], i)
  {
    assert Gap(ps, free[a], free[c]);
  }

  lemma SplitFree(ps: Pages, free: seq<nat>, a: nat, n: nat, i: nat)
    requires Blocks(ps, free) && a < |free| && 0 < n < ps[free[a]].size
    ensures Free(Taken(ps, free[a], n), free[a := free[a] + n], i) <==>
      Free(ps, free, i) && !(free[a] <= i < free[a] + n)
  {
    var ps', free' := Taken(ps, free[a], n), free[a := free[a] + n];
    forall c | 0 <= c < |free|
      ensures InBlock(ps', free'[c], i) <==> InBlock(ps, free[c], i) && !(free[a] <= i < free[a] + n)
    {
      if c != a {
        OthersUntouched(ps, free, a, n, c);
      }
    }
  }

  lemma DropFree(ps: Pages, free: seq<nat>, a: nat, i: nat)
    requires Blocks(ps, free) && a < |free|
    ensures Free(Taken(ps, free[a], ps[free[a]].size), Without(free, a), i) <==>
      Free(ps, free, i) && !InBlock(ps, free[a], i)
  {
    var n := ps[free[a]].size;
    var ps', free' := Taken(ps, free[a], n), Without(free, a);
    WithoutAt(free, a);
    forall c | 0 <= c < |free| && c != a
      ensures InBlock(ps', free[c], i) <==> InBlock(ps, free[c], i) && !InBlock(ps, free[a], i)
    {
      OthersUntouched(ps, free, a, n, c);
    }
    if c :| 0 <= c < |free| && c != a && InBlock(ps, free[c], i) {
      assert free'[if c < a then c else c - 1] == free[c];
    }
    if b :| 0 <= b < |free'| && InBlock(ps', free'[b], i) {
      assert free'[b] == free[if b < a then b else b + 1];
    }
  }

  /** Taking n pages off block a keeps the list sound and takes exactly these pages out of the free ones. */
  lemma TakeBlocks(ps: Pages, free: seq<nat>, a: nat, n: nat)
    requires Blocks(ps, free) && a < |free| && 0 < n <= ps[free[a]].size
    ensures Blocks(Taken(ps, free[a], n), Carved(ps, free, a, n))
    ensures FreeSet(Taken(ps, free[a], n), Carved(ps, free, a, n)) == FreeSet(ps, free) - Range(free[a], free[a] + n)
    ensures Range(free[a], free[a] + n) <= FreeSet(ps, free)
  {
    var ps', free' := Taken(ps, free[a], n), Carved(ps, free, a, n);
    if ps[free[a]].size > n {
      SplitBlocks(ps, free, a, n);
    } else {
      DropBlocks(ps, free, a, ps[free[a]].(property := false, size := n));
    }
    forall i: nat
      ensures Free(ps', free', i) <==> Free(ps, free, i) && !(free[a] <= i < free[a] + n)
    {
      if ps[free[a]].size > n {
        SplitFree(ps, free, a, n, i);
      } else {
        DropFree(ps, free, a, i);
      }
    }
    forall i: nat | i in Range(free[a], free[a] + n)
      ensures i in FreeSet(ps, free)
    {
      assert InBlock(ps, free[a], i);
    }
  }

  // ---- freeing: a floating block absorbs its neighbours ----

  /** The blocks of b and k do not overlap. */
  ghost predicate Clear(ps: Pages, b: nat, k: nat) {
    b < |ps| && k < |ps| && (b + ps[b].size <= k || k + ps[k].size <= b)
  }

  /** The block of b is about to join the list; of the list, the first j blocks do not touch it. */
  ghost predicate Floating(ps: Pages, free: seq<nat>, b: nat, j: nat) {
    j <= |free| && IsBlock(ps, b) &&
    (forall a :: 0 <= a < |free| ==> IsBlock(ps, free[a]) && Clear(ps, b, free[a])) &&
    (forall a :: 0 <= a < j ==> Gap(ps, b, free[a])) &&
    Apart(ps, free) &&
    (forall i :: 0 <= i < |ps| && ps[i].property ==> i == b || i in free)
  }

  ghost predicate FreeWith(ps: Pages, free: seq<nat>, b: nat, i: nat) {
    Free(ps, free, i) || InBlock(ps, b, i)
  }

  /** The block k is appended to the block of b, which it follows. */
  function Merged(ps: Pages, b: nat, k: nat): (r: Pages)
    requires b < |ps| && k < |ps|
    ensures |r| == |ps|
  {
    ps[b := ps[b].(size := ps[b].size + ps[k].size)][k := ps[k].(property := false)]
  }

  lemma WithoutAt(free: seq<nat>, a: nat)
    requires a < |free|
    ensures |Without(free, a)| == |free| - 1
    ensures forall c :: 0 <= c < |free| - 1 ==> Without(free, a)[c] == free[if c < a then c else c + 1]
    ensures forall x :: x in free && x != free[a] ==> x in Without(free, a)
  {
    forall x | x in free && x != free[a]
      ensures x in Without(free, a)
    {
      var c :| 0 <= c < |free| && free[c] == x;
      assert Without(free, a)[if c < a then c else c - 1] == x;
    }
  }

  /** Block j touches the floating block, above (b, k) or below (k, b): they become one floating block. */
  lemma MergeFloating(ps: Pages, free: seq<nat>, j: nat, lo: nat, hi: nat, b: nat)
    requires Floating(ps, free, b, j) && j < |free| && lo + SizeOf(ps, lo) == hi
    requires (lo == b && hi == free[j]) || (lo == free[j] && hi == b)
    ensures Floating(Merged(ps, lo, hi), Without(free, j), lo, j)
  {
    var ps', free' := Merged(ps, lo, hi), Without(free, j);
    WithoutAt(free, j);
    forall a | 0 <= a < |free| && a != j
      ensures IsBlock(ps', free[a]) && ps'[free[a]].size == ps[free[a]].size && Clear(ps', lo, free[a])
      ensures a < j ==> Gap(ps', lo, free[a])
    {
      assert Gap(ps, free[j], free[a]) && Clear(ps, b, free[a]);
    }
    forall x, y | 0 <= x < |free'| && 0 <= y < |free'| && x != y
      ensures Gap(ps', free'[x], free'[y])
    {
      assert Gap(ps, free'[x], free'[y]);
    }
  }

  lemma MergeSamePages(ps: Pages, free: seq<nat>, j: nat, lo: nat, hi: nat, b: nat, i: nat)
    requires Floating(ps, free, b, j) && j < |free| && lo + SizeOf(ps, lo) == hi
    requires (lo == b && hi == free[j]) || (lo == free[j] && hi == b)
    ensures FreeWith(Merged(ps, lo, hi), Without(free, j), lo, i) <==> FreeWith(ps, free, b, i)
  {
    var ps', free' := Merged(ps, lo, hi), Without(free, j);
    WithoutAt(free, j);
    forall a | 0 <= a < |free| && a != j
      ensures ps'[free[a]].size == ps[free[a]].size
    {
      assert Gap(ps, free[j], free[a]) && Clear(ps, b, free[a]);
    }
    if a :| 0 <= a < |free| && InBlock(ps, free[a], i) && a != j {
      assert InBlock(ps', free'[if a < j then a else a - 1], i);
    }
    if c :| 0 <= c < |free'| && InBlock(ps', free'[c], i) {
      assert InBlock(ps, free[if c < j then c else c + 1], i);
    }
  }

  /** Block j does not touch the floating block. */
  lemma SkipFloating(ps: Pages, free: seq<nat>, b: nat, j: nat)
    requires Floating(ps, free, b, j) && j < |free|
    requires b + ps[b].size != free[j] && free[j] + SizeOf(ps, free[j]) != b
    ensures Floating(ps, free, b, j + 1)
  {
    assert Clear(ps, b, free[j]) && IsBlock(ps, free[j]);
  }

  /** At the end of one pass nothing touches the floating block: it can join the list. */
  lemma JoinList(ps: Pages, free: seq<nat>, b: nat)
    requires Floating(ps, free, b, |free|)
    ensures Blocks(ps, [b] + free)
    ensures forall i: nat :: Free(ps, [b] + free, i) <==> FreeWith(ps, free, b, i)
  {
    forall i: nat
      ensures Free(ps, [b] + free, i) <==> FreeWith(ps, free, b, i)
    {
      assert ([b] + free)[1..] == free;
      FreeCons(ps, [b] + free, i);
    }
  }

  /** s is t with some elements left out. */
  ghost predicate Sub(s: seq<nat>, t: seq<nat>) {
    s == [] || (t != [] && if s[0] == t[0] then Sub(s[1..], t[1..]) else Sub(s, t[1..]))
  }

  lemma {:induction false} SubSame(s: seq<nat>)
    ensures Sub(s, s)
  {
    if s != [] {
      SubSame(s[1..]);
    }
  }

  lemma {:induction false} SubTail(s: seq<nat>, t: seq<nat>)
    requires s != [] && Sub(s, t)
    ensures Sub(s[1..], t)
    decreases |t|, 0
  {
    if s[0] == t[0] {
      SubMore(s[1..], t[1..], t[0]);
      assert [t[0]] + t[1..] == t;
    } else {
      SubTail(s, t[1..]);
      SubMore(s[1..], t[1..], t[0]);
      assert [t[0]] + t[1..] == t;
    }
  }

  lemma {:induction false} SubMore(s: seq<nat>, t: seq<nat>, x: nat)
    requires Sub(s, t)
    ensures Sub(s, [x] + t)
    decreases |t|, 1
  {
    assert ([x] + t)[1..] == t;
    if s != [] && s[0] == x {
      SubTail(s, t);
    }
  }

  lemma {:induction false} SubWithout(s: seq<nat>, t: seq<nat>, j: nat)
    requires j < |s| && Sub(s, t)
    ensures Sub(Without(s, j), t)
    decreases |t|
  {
    if j == 0 {
      SubTail(s, t);
      assert Without(s, 0) == s[1..];
    } else if s[0] == t[0] {
      SubWithout(s[1..], t[1..], j - 1);
      assert Without(s, j)[1..] == Without(s[1..], j - 1);
    } else {
      SubWithout(s, t[1..], j);
    }
  }

  /** n contiguous free pages. */
  ghost predicate FreeRun(ps: Pages, free: seq<nat>, lo: nat, n: nat) {
    Range(lo, lo + n) <= FreeSet(ps, free)
  }

  /** A block of at least n pages exists exactly when n contiguous free pages do. */
  lemma RunMeansBlock(ps: Pages, free: seq<nat>, lo: nat, n: nat) returns (a: nat)
    requires Blocks(ps, free) && 0 < n && FreeRun(ps, free, lo, n)
    ensures a < |free| && ps[free[a]].size >= n
  {
    forall i | lo <= i < lo + n
      ensures Free(ps, free, i)
    {
      assert i in Range(lo, lo + n);
    }
    a := RunInOneBlock(ps, free, lo, n);
  }

  class Allocator {
    const pages: array<Page>
    // FreeArea: the heads of the free blocks in list order.
    var free: seq<nat>
    var freeCount: nat

    ghost predicate Valid()
      reads this, pages
    {
      Blocks(pages[..], free) && ReservedKept(pages[..], free) && freeCount == |FreePages()|
    }

    ghost function FreePages(): set<nat>
      reads this, pages
    {
      FreeSet(pages[..], free)
    }

    /** pagesInit and ff_free_area_init: every page is reserved, the list is empty. */
    constructor (count: nat)
      ensures Valid() && pages.Length == count && free == [] && fresh(pages)
      ensures forall i :: 0 <= i < count ==> pages[i].reserved && !pages[i].property && pages[i].ref == 0
    {
      pages := new Page[count](_ => Page(true, false, 0, 0));
      free, freeCount := [], 0;
      new;
      FreeSetNil(pages[..]);
    }

    /** ff_memmap_init: n pages from base on become the first free block. */
    method MemmapInit(base: nat, n: nat)
      requires Valid() && free == [] && 0 < n && base + n <= pages.Length
      modifies this, pages
      ensures Valid() && FreePages() == Range(base, base + n)
      ensures forall i :: 0 <= i < pages.Length ==>
        pages[i].ref == if base <= i < base + n && (old(pages[i]).reserved || old(pages[i]).property) then 0
                        else old(pages[i]).ref
    {
      FreeSetNil(pages[..]);
      assert freeCount == 0;
      for p := base to base + n
        invariant freeCount == 0 && forall i :: 0 <= i < pages.Length ==> !pages[i].property
        invariant forall i :: base <= i < p ==> !pages[i].reserved
        invariant forall i :: 0 <= i < pages.Length ==>
          pages[i].ref == if base <= i < p && (old(pages[i]).reserved || old(pages[i]).property) then 0
                          else old(pages[i]).ref
        invariant forall i :: p <= i < pages.Length ==> pages[i] == old(pages[i])
      {
        if pages[p].reserved || pages[p].property {
          pages[p] := Page(false, false, 0, 0);
        }
      }
      pages[base] := pages[base].(size := n, property := true);
      free := [base];
      freeCount := freeCount + n;
      assert pages[..][base].property && IsBlock(pages[..], free[0]);
      FirstApart(pages[..], free);
      FreeSetNil(pages[..]);
      RangeSize(base, base + n);
      assert free[1..] == [];
      assert FreePages() == Range(base, base + n);
      forall i | 0 <= i < pages.Length && Free(pages[..], free, i)
        ensures !pages[..][i].reserved
      {
        assert InBlock(pages[..], free[0], i);
      }
    }

    /** The first block of the list with at least n pages, or the length of the list. */
    method FirstFit(n: nat) returns (a: nat)
      requires Valid() && 0 < n
      ensures a <= |free| && FirstBlock(pages[..], free, n, a)
    {
      a := 0;
      hide Free;
      hide FreeSet;
      if n > freeCount {
        a := |free|;
        TooMany(pages[..], free, n);
        return;
      }
      while a < |free|
        invariant a <= |free| && forall b :: 0 <= b < a ==> SizeOf(pages[..], free[b]) < n
      {
        if pages[free[a]].size >= n {
          break;
        }
        a := a + 1;
      }
    }

    /** Split n pages off block a, or take it off the list whole. */
    method Take(a: nat, n: nat)
      requires Valid() && a < |free| && 0 < n <= SizeOf(pages[..], free[a])
      modifies this, pages
      ensures Valid()
      ensures pages[..] == Taken(old(pages[..]), old(free)[a], n) && free == Carved(old(pages[..]), old(free), a, n)
      ensures var h := old(free)[a];
        h < pages.Length && pages[h].size == n && !pages[h].property &&
        free == if old(pages[h]).size > n then old(free)[a := h + n] else old(free)[..a] + old(free)[a + 1..]
      ensures FreePages() == old(FreePages()) - Range(old(free)[a], old(free)[a] + n)
      ensures Range(old(free)[a], old(free)[a] + n) <= old(FreePages())
    {
      hide Free;
      hide FreeSet;
      hide Range;
      ghost var ps, free0 := pages[..], free;
      var page := free[a];
      TakeBlocks(ps, free, a, n);
      TakeReserved(ps, free, a, n);
      RangeSize(page, page + n);
      SubsetSize(Range(page, page + n), FreePages());
      if pages[page].size > n {
        var p := page + n;
        pages[p] := pages[p].(size := pages[page].size - n, property := true);
        free := free[a := p];
      } else {
        free := Without(free, a);
      }
      freeCount := freeCount - n;
      pages[page] := pages[page].(property := false, size := n);
      assert pages[..] == Taken(ps, page, n);
    }

    /** ff_alloc_pages: the first block of the list that is large enough gives its first n pages. */
    method Alloc(n: nat) returns (found: bool, base: nat)
      requires Valid() && 0 < n
      modifies this, pages
      ensures Valid()
      ensures found <==> exists lo: nat :: FreeRun(old(pages[..]), old(free), lo, n)
      ensures found ==> Range(base, base + n) <= old(FreePages())
      ensures found ==> FreePages() == old(FreePages()) - Range(base, base + n)
      ensures found ==> base in old(free) && FirstBlock(old(pages[..]), old(free), n, Position(old(free), base))
      ensures !found ==> pages[..] == old(pages[..]) && free == old(free)
      ensures KeepsRefs(old(pages[..]), pages[..])
    {
      hide Free;
      hide FreeSet;
      hide Range;
      hide ReservedKept;
      var a := FirstFit(n);
      NotFound(pages[..], free, n);
      found, base := a < |free|, 0;
      if found {
        base := free[a];
        PositionUnique(pages[..], free, a);
        Take(a, n);
      }
    }

    /** Clear the flags and reference counts of pages about to be freed. Their flags are clear already: the panic of
        ff_free_pages is not reached. */
    method ClearPages(base: nat, n: nat)
      requires Valid() && base + n <= pages.Length
      requires forall i :: base <= i < base + n ==> !pages[i].reserved && !Free(pages[..], free, i)
      modifies pages
      ensures Valid() && pages[..] == Cleared(old(pages[..]), base, n) && FreePages() == old(FreePages())
    {
      hide Free;
      hide FreeSet;
      ghost var ps := pages[..];
      NoHeads(ps, free, base, n);
      for p := base to base + n
        invariant forall i :: 0 <= i < pages.Length ==> pages[i] == if base <= i < p then ps[i].(ref := 0) else ps[i]
      {
        assert !pages[p].reserved && !pages[p].property;
        pages[p] := pages[p].(reserved := false, property := false, ref := 0);
      }
      assert pages[..] == Cleared(ps, base, n);
      SameBlocks(ps, pages[..], free);
    }

    /** One pass over the list merges the floating block with the blocks it touches. */
    method Coalesce(start: nat) returns (b: nat)
      requires Floating(pages[..], free, start, 0)
      modifies `free, pages
      ensures Blocks(pages[..], [b] + free)
      ensures forall i: nat :: Free(pages[..], [b] + free, i) <==> FreeWith(old(pages[..]), old(free), start, i)
      ensures KeepsRefs(old(pages[..]), pages[..]) && Sub(free, old(free))
      ensures b <= start < b + SizeOf(pages[..], b)
    {
      hide Free;
      hide Clear;
      hide Gap;
      hide Sub;
      SubSame(free);
      b := start;
      var j := 0;
      while j < |free|
        invariant j <= |free| && Floating(pages[..], free, b, j) && KeepsRefs(old(pages[..]), pages[..])
        invariant Sub(free, old(free)) && b <= start < b + SizeOf(pages[..], b)
        invariant forall i: nat :: FreeWith(pages[..], free, b, i) <==> FreeWith(old(pages[..]), old(free), start, i)
        decreases |free| - j
      {
        var p := free[j];
        ghost var ps := pages[..];
        if b + pages[b].size == p {
          MergeFloating(ps, free, j, b, p, b);
          forall i: nat { MergeSamePages(ps, free, j, b, p, b, i); }
          pages[b] := pages[b].(size := pages[b].size + pages[p].size);
          pages[p] := pages[p].(property := false);
          assert pages[..] == Merged(ps, b, p);
          SubWithout(free, old(free), j);
          free := Without(free, j);
        } else if p + pages[p].size == b {
          MergeFloating(ps, free, j, p, b, b);
          forall i: nat { MergeSamePages(ps, free, j, p, b, b, i); }
          pages[p] := pages[p].(size := pages[p].size + pages[b].size);
          pages[b] := pages[b].(property := false);
          assert pages[..] == Merged(ps, p, b);
          b := p;
          SubWithout(free, old(free), j);
          free := Without(free, j);
        } else {
          SkipFloating(ps, free, b, j);
          j := j + 1;
        }
      }
      JoinList(pages[..], free, b);
    }

    /** set_page_ref, page_ref_inc and page_ref_dec. */
    method SetRef(f: nat, ref: int)
      requires Valid() && f < pages.Length
      modifies pages
      ensures Valid() && FreePages() == old(FreePages())
      ensures pages[f] == old(pages[f]).(ref := ref)
      ensures forall i :: 0 <= i < pages.Length && i != f ==> pages[i] == old(pages[i])
    {
      hide Free;
      hide FreeSet;
      hide ReservedKept;
      hide Blocks;
      ghost var ps := pages[..];
      pages[f] := pages[f].(ref := ref);
      assert pages[..] == ps[f := ps[f].(ref := ref)];
      SameBlocks(ps, pages[..], free);
    }

    /** One page, which can be had exactly when any page is free. */
    method AllocOne() returns (found: bool, f: nat)
      requires Valid()
      modifies this, pages
      ensures Valid() && (found <==> old(FreePages()) != {})
      ensures found ==> f in old(FreePages()) && f < pages.Length && !pages[f].reserved
      ensures found ==> FreePages() == old(FreePages()) - {f}
      ensures !found ==> FreePages() == old(FreePages())
      ensures forall i :: 0 <= i < pages.Length ==>
        pages[i].ref == old(pages[i].ref) && pages[i].reserved == old(pages[i].reserved)
    {
      hide Free;
      hide Blocks;
      hide FreeSet;
      hide Range;
      hide FreeRun;
      hide ReservedKept;
      hide FirstBlock;
      OnePage(pages[..], free);
      found, f := Alloc(1);
      if found {
        RangeOne(f);
        NotReserved(old(pages[..]), old(free), f);
      }
    }

    /** ff_free_pages: n pages from base on become free. */
    method Release(base: nat, n: nat)
      requires Valid() && 0 < n && base + n <= pages.Length
      requires forall i :: base <= i < base + n ==> !pages[i].reserved && i !in FreePages()
      modifies this, pages
      ensures Valid() && FreePages() == old(FreePages()) + Range(base, base + n)
      ensures free != [] && free[0] <= base < free[0] + SizeOf(pages[..], free[0]) && Sub(free[1..], old(free))
      ensures KeepsRefs(Cleared(old(pages[..]), base, n), pages[..])
    {
      hide Free;
      hide Blocks;
      hide Floating;
      hide Range;
      hide FreeSet;
      hide FreeWith;
      hide ReservedKept;
      hide Sub;
      hide Cleared;
      NotFreePages(pages[..], free, base, n);
      ClearPages(base, n);
      ghost var ps, free0 := pages[..], free;
      NotFreePages(ps, free, base, n);
      pages[base] := pages[base].(size := n, property := true);
      assert pages[..] == ps[base := ps[base].(size := n, property := true)];
      Float(ps, free, base, n);
      var b := Coalesce(base);
      free := [b] + free;
      freeCount := freeCount + n;
      RangeSize(base, base + n);
      ClearedFlags(old(pages[..]), base, n);
      Released(ps, free0, base, n, pages[..], free);
    }
  }

  /** Pages base to base + n - 1 with their reference counts cleared. */
  function Cleared(ps: Pages, base: nat, n: nat): (r: Pages)
    requires base + n <= |ps|
    ensures |r| == |ps|
  {
    seq(|ps|, i requires 0 <= i < |ps| => if base <= i < base + n then ps[i].(ref := 0) else ps[i])
  }

  lemma ClearedFlags(ps: Pages, base: nat, n: nat)
    requires base + n <= |ps|
    ensures forall i :: 0 <= i < |ps| ==> Cleared(ps, base, n)[i].reserved == ps[i].reserved
    ensures forall i :: 0 <= i < |ps| ==>
      Cleared(ps, base, n)[i].ref == if base <= i < base + n then 0 else ps[i].ref
  {
  }

  lemma RangeOne(f: nat)
    ensures Range(f, f + 1) == {f}
  {
  }

  /** Any free page is a run of one page. */
  lemma OnePage(ps: Pages, free: seq<nat>)
    ensures (exists lo: nat :: FreeRun(ps, free, lo, 1)) <==> FreeSet(ps, free) != {}
  {
    hide FreeSet;
    if lo: nat :| FreeRun(ps, free, lo, 1) {
      assert lo in Range(lo, lo + 1);
    }
    if FreeSet(ps, free) != {} {
      var lo :| lo in FreeSet(ps, free);
      assert FreeRun(ps, free, lo, 1) by {
        assert Range(lo, lo + 1) == {lo};
      }
    }
  }

  lemma NotReserved(ps: Pages, free: seq<nat>, i: nat)
    requires ReservedKept(ps, free) && i in FreeSet(ps, free)
    ensures i < |ps| && !ps[i].reserved
  {
  }

  lemma NotFreePages(ps: Pages, free: seq<nat>, base: nat, n: nat)
    requires base + n <= |ps| && forall i :: base <= i < base + n ==> i !in FreeSet(ps, free)
    ensures forall i :: base <= i < base + n ==> !Free(ps, free, i)
  {
    forall i | base <= i < base + n
      ensures !Free(ps, free, i)
    {
      assert i !in FreeSet(ps, free);
    }
  }

  lemma NoHeads(ps: Pages, free: seq<nat>, base: nat, n: nat)
    requires Blocks(ps, free) && base + n <= |ps| && forall i :: base <= i < base + n ==> !Free(ps, free, i)
    ensures forall i :: base <= i < base + n ==> !ps[i].property
  {
    forall i | base <= i < base + n
      ensures !ps[i].property
    {
      HeadFree(ps, free, i);
    }
  }

  lemma HeadFree(ps: Pages, free: seq<nat>, i: nat)
    requires Blocks(ps, free) && i < |ps|
    ensures ps[i].property ==> Free(ps, free, i)
  {
    if ps[i].property {
      var a :| 0 <= a < |free| && free[a] == i;
      assert InBlock(ps, free[a], i);
    }
  }

  /** Reference counts play no part in the free list. */
  lemma SameBlocks(ps: Pages, qs: Pages, free: seq<nat>)
    requires Blocks(ps, free) && ReservedKept(ps, free) && |qs| == |ps|
    requires forall i :: 0 <= i < |ps| ==> qs[i] == ps[i].(ref := qs[i].ref)
    ensures Blocks(qs, free) && ReservedKept(qs, free) && FreeSet(qs, free) == FreeSet(ps, free)
  {
    forall a, b | 0 <= a < |free| && 0 <= b < |free| && a != b
      ensures Gap(qs, free[a], free[b])
    {
      assert Gap(ps, free[a], free[b]);
    }
    forall i: nat
      ensures Free(qs, free, i) <==> Free(ps, free, i)
    {
      assert forall a :: 0 <= a < |free| ==> (InBlock(qs, free[a], i) <==> InBlock(ps, free[a], i));
    }
  }

  /** Pages outside the free blocks form a block that can float. */
  lemma Float(ps: Pages, free: seq<nat>, base: nat, n: nat)
    requires Blocks(ps, free) && 0 < n && base + n <= |ps| && forall i :: base <= i < base + n ==> !Free(ps, free, i)
    ensures var qs := ps[base := ps[base].(size := n, property := true)];
      Floating(qs, free, base, 0) &&
      forall i: nat :: FreeWith(qs, free, base, i) <==> Free(ps, free, i) || base <= i < base + n
  {
    var qs := ps[base := ps[base].(size := n, property := true)];
    forall a | 0 <= a < |free|
      ensures free[a] != base && Clear(qs, base, free[a]) && IsBlock(qs, free[a])
    {
      assert InBlock(ps, free[a], free[a]);
      if free[a] < base {
        assert InBlock(ps, free[a], base) ==> Free(ps, free, base);
      } else {
        assert Free(ps, free, free[a]);
      }
    }
    forall i: nat
      ensures FreeWith(qs, free, base, i) <==> Free(ps, free, i) || base <= i < base + n
    {
      assert forall a :: 0 <= a < |free| ==> (InBlock(qs, free[a], i) <==> InBlock(ps, free[a], i));
    }
    assert Apart(qs, free) by {
      forall a, b | 0 <= a < |free| && 0 <= b < |free| && a != b
        ensures Gap(qs, free[a], free[b])
      {
        assert Gap(ps, free[a], free[b]);
      }
    }
  }

  lemma Released(ps: Pages, free: seq<nat>, base: nat, n: nat, qs: Pages, free': seq<nat>)
    requires Blocks(ps, free) && ReservedKept(ps, free) && base + n <= |ps| && |qs| == |ps|
    requires forall i :: base <= i < base + n ==> !ps[i].reserved && !Free(ps, free, i)
    requires forall i :: 0 <= i < |ps| ==> qs[i].reserved == ps[i].reserved
    requires forall i: nat :: Free(qs, free', i) <==> Free(ps, free, i) || base <= i < base + n
    ensures ReservedKept(qs, free') && FreeSet(qs, free') == FreeSet(ps, free) + Range(base, base + n)
    ensures FreeSet(ps, free) !! Range(base, base + n)
  {
  }

  /** No block before block a has n pages, and block a has, if there is one. */
  ghost predicate FirstBlock(ps: Pages, free: seq<nat>, n: nat, a: nat) {
    a <= |free| && (forall b :: 0 <= b < a ==> SizeOf(ps, free[b]) < n) && (a < |free| ==> SizeOf(ps, free[a]) >= n)
  }

  ghost predicate KeepsRefs(ps: Pages, qs: Pages) {
    |qs| == |ps| && forall i :: 0 <= i < |ps| ==> qs[i].ref == ps[i].ref && qs[i].reserved == ps[i].reserved
  }

  /** Where a head stands in the list. */
  ghost function Position(free: seq<nat>, h: nat): (a: nat)
    requires h in free
    ensures a < |free| && free[a] == h
  {
    var a :| 0 <= a < |free| && free[a] == h;
    a
  }

  lemma PositionUnique(ps: Pages, free: seq<nat>, a: nat)
    requires Blocks(ps, free) && a < |free|
    ensures Position(free, free[a]) == a
  {
    assert a != Position(free, free[a]) ==> Gap(ps, free[a], free[Position(free, free[a])]);
  }

  lemma SubsetSize(a: set<nat>, b: set<nat>)
    requires a <= b
    ensures |a| <= |b|
  {
    assert b == a + (b - a);
  }

  /** No block is larger than the number of free pages. */
  lemma TooMany(ps: Pages, free: seq<nat>, n: nat)
    requires Blocks(ps, free) && n > |FreeSet(ps, free)|
    ensures forall a :: 0 <= a < |free| ==> SizeOf(ps, free[a]) < n
  {
    forall a | 0 <= a < |free|
      ensures SizeOf(ps, free[a]) < n
    {
      var m := ps[free[a]].size;
      TakeBlocks(ps, free, a, m);
      RangeSize(free[a], free[a] + m);
      SubsetSize(Range(free[a], free[a] + m), FreeSet(ps, free));
    }
  }

  lemma TakeReserved(ps: Pages, free: seq<nat>, a: nat, n: nat)
    requires Blocks(ps, free) && ReservedKept(ps, free) && a < |free| && 0 < n <= ps[free[a]].size
    ensures ReservedKept(Taken(ps, free[a], n), Carved(ps, free, a, n)) && KeepsRefs(ps, Taken(ps, free[a], n))
  {
    hide Free;
    TakeBlocks(ps, free, a, n);
    var ps', free' := Taken(ps, free[a], n), Carved(ps, free, a, n);
    forall i | 0 <= i < |ps'| && Free(ps', free', i)
      ensures !ps'[i].reserved
    {
      assert i in FreeSet(ps', free') && i in FreeSet(ps, free);
    }
  }

  lemma NotFound(ps: Pages, free: seq<nat>, n: nat)
    requires Blocks(ps, free) && 0 < n
    ensures (exists lo: nat :: FreeRun(ps, free, lo, n)) <==> exists a :: 0 <= a < |free| && SizeOf(ps, free[a]) >= n
  {
    if lo: nat :| FreeRun(ps, free, lo, n) {
      var a := RunMeansBlock(ps, free, lo, n);
    }
    if a :| 0 <= a < |free| && SizeOf(ps, free[a]) >= n {
      TakeBlocks(ps, free, a, n);
      assert FreeRun(ps, free, free[a], n);
    }
  }
}
