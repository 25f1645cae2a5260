/** The write-back sector cache shared by all block devices (kern/driver/bcache.c). */
module BlockCache {
  import opened Sectors
  import opened Sequences
  import opened Recency

  const N_BCACHE := 16
  const TIME_LIMIT := 0x1_0000_0000

  type uint32 = x: int | 0 <= x < TIME_LIMIT

  /** The 32-bit increment of a slot's age. */
  function Tick(t: uint32): uint32 {
    if t == TIME_LIMIT - 1 then 0 else t + 1
  }

  datatype Slot = Slot(occupied: bool, modified: bool, key: Key, time: uint32, data: Sector)

  function Older(s: Slot): Slot {
    if s.occupied then s.(time := Tick(s.time)) else s
  }

  ghost predicate Holds(s: Slot, k: Key) {
    s.occupied && s.key == k
  }

  /** No sector sits in two slots, cached sectors exist, and a clean slot equals the device. */
  ghost predicate Coherent(slots: seq<Slot>, device: map<Key, Sector>) {
    (forall i :: 0 <= i < |slots| && slots[i].occupied ==> slots[i].key in device) &&
    (forall i :: 0 <= i < |slots| && slots[i].occupied && !slots[i].modified ==>
      slots[i].data == device[slots[i].key]) &&
    (forall i, j :: 0 <= i < j < |slots| && slots[i].occupied && slots[j].occupied ==>
      slots[i].key != slots[j].key)
  }

  /** What clients see: the cached data where there is some, the device elsewhere. */
  ghost predicate IsView(slots: seq<Slot>, device: map<Key, Sector>, view: map<Key, Sector>) {
    view.Keys == device.Keys &&
    (forall i :: 0 <= i < |slots| && slots[i].occupied && slots[i].key in view ==>
      view[slots[i].key] == slots[i].data) &&
    (forall k :: k in view && (forall i :: 0 <= i < |slots| ==> !Holds(slots[i], k)) ==>
      view[k] == device[k])
  }

  /** When every slot equals the device, the device is what clients see. */
  lemma Synced(slots: seq<Slot>, device: map<Key, Sector>, view: map<Key, Sector>)
    requires IsView(slots, device, view)
    requires forall j :: 0 <= j < |slots| && slots[j].occupied ==>
      slots[j].key in device && device[slots[j].key] == slots[j].data
    ensures device == view
  {
    forall k | k in view
      ensures view[k] == device[k]
    {
      if j :| 0 <= j < |slots| && Holds(slots[j], k) {
        assert view[slots[j].key] == slots[j].data;
      }
    }
  }

  /** The view is determined by the slots and the devices. */
  lemma ViewUnique(slots: seq<Slot>, device: map<Key, Sector>, v: map<Key, Sector>, w: map<Key, Sector>)
    requires IsView(slots, device, v) && IsView(slots, device, w)
    ensures v == w
  {
    forall k | k in v
      ensures v[k] == w[k]
    {
      if i :| 0 <= i < |slots| && Holds(slots[i], k) {
        assert slots[i].key in v;
      }
    }
  }

  /** order lists the occupied slots by strictly increasing age. */
  ghost predicate Aged(slots: seq<Slot>, order: seq<int>) {
    Distinct(order) &&
    (forall p :: 0 <= p < |order| ==> 0 <= order[p] < |slots| && slots[order[p]].occupied) &&
    (forall i :: 0 <= i < |slots| && slots[i].occupied ==> i in order) &&
    (forall p, q :: 0 <= p < q < |order| ==> slots[order[p]].time < slots[order[q]].time)
  }

  /** The occupied slots, youngest first, hold the most recently used sectors. */
  ghost predicate HoldsMostRecent(slots: seq<Slot>, order: seq<int>, recent: seq<Key>) {
    |order| == (if |recent| < |slots| then |recent| else |slots|) &&
    (forall p :: 0 <= p < |order| ==> 0 <= order[p] < |slots| && slots[order[p]].key == recent[p])
  }

  /** Exact LRU, as long as no 32-bit age has wrapped around. */
  ghost predicate Lru(slots: seq<Slot>, order: seq<int>, history: seq<Key>, wrapped: bool) {
    !wrapped ==> Aged(slots, order) && HoldsMostRecent(slots, order, MostRecent(history)) && Timed(slots, history)
  }

  /** The age of a cached sector is the number of accesses since its last use, that one included. */
  ghost predicate Timed(slots: seq<Slot>, history: seq<Key>) {
    forall i :: 0 <= i < |slots| && slots[i].occupied ==>
      slots[i].key in history && slots[i].time == |history| - LastUse(history, slots[i].key)
  }

  /** Giving slot i to the sector used next wraps no other slot's age. */
  ghost predicate NoWrap(slots: seq<Slot>, i: nat) {
    forall j :: 0 <= j < |slots| && j != i && slots[j].occupied ==> slots[j].time < TIME_LIMIT - 1
  }

  /** No other slot than i holds the sector. */
  ghost predicate Sole(slots: seq<Slot>, i: nat, key: Key) {
    forall j :: 0 <= j < |slots| && j != i && slots[j].occupied ==> slots[j].key != key
  }

  lemma SoleHolder(slots: seq<Slot>, before: seq<Slot>, device: map<Key, Sector>, i: nat, key: Key)
    requires Coherent(slots, device) && i < |slots| == |before| && Holds(slots[i], key)
    requires slots == before[i := slots[i]]
    ensures Sole(before, i, key)
  {
    forall j | 0 <= j < |before| && j != i && before[j].occupied
      ensures before[j].key != key
    {
      assert slots[j] == before[j];
    }
  }

  /** Some cached sector other than key was last used 2^32 - 1 accesses ago: its age is about to wrap. */
  ghost predicate LongUnused(slots: seq<Slot>, history: seq<Key>, key: Key) {
    exists j :: 0 <= j < |slots| && slots[j].occupied && slots[j].key != key && slots[j].key in history &&
      |history| - LastUse(history, slots[j].key) == TIME_LIMIT - 1
  }

  /** The sector used at i was not used in the following 2^32 - 1 accesses. */
  ghost predicate IdledAt(history: seq<Key>, i: nat) {
    i + 0x1_0000_0000 <= |history| && forall j :: i < j < i + 0x1_0000_0000 ==> history[j] != history[i]
  }

  /** Some sector went unused for 2^32 - 1 accesses. In any other history exact LRU holds. */
  ghost predicate Idled(history: seq<Key>) {
    exists i :: IdledAt(history, i)
  }

  lemma UnusedMeansIdled(slots: seq<Slot>, history: seq<Key>, key: Key)
    requires LongUnused(slots, history, key)
    ensures Idled(history + [key])
  {
    hide LastUse;
    var j :| 0 <= j < |slots| && slots[j].occupied && slots[j].key != key && slots[j].key in history &&
      |history| - LastUse(history, slots[j].key) == TIME_LIMIT - 1;
    assert IdledAt(history + [key], LastUse(history, slots[j].key));
  }

  lemma StaysIdled(history: seq<Key>, key: Key)
    requires Idled(history)
    ensures Idled(history + [key])
  {
    var i :| IdledAt(history, i);
    assert IdledAt(history + [key], i);
  }

  /** Ages wrap only because of a sector that stayed cached but unused for 2^32 - 1 accesses. */
  lemma WrapMeansUnused(slots: seq<Slot>, history: seq<Key>, i: nat, key: Key)
    requires Timed(slots, history) && Sole(slots, i, key) && !NoWrap(slots, i)
    ensures LongUnused(slots, history, key)
  {
    var j :| 0 <= j < |slots| && j != i && slots[j].occupied && slots[j].time >= TIME_LIMIT - 1;
    assert slots[j].time == |history| - LastUse(history, slots[j].key);
  }

  /** The slots after slot i was given to key and every age advanced by one. */
  ghost predicate Advanced(before: seq<Slot>, after: seq<Slot>, i: nat, key: Key) {
    |after| == |before| && i < |before| && Holds(after[i], key) && after[i].time == 1 &&
    forall j :: 0 <= j < |before| && j != i ==>
      after[j].occupied == before[j].occupied && after[j].key == before[j].key &&
      (before[j].occupied ==> after[j].time == Tick(before[j].time))
  }

  lemma TimedAdvance(before: seq<Slot>, after: seq<Slot>, i: nat, key: Key, history: seq<Key>)
    requires Timed(before, history) && Advanced(before, after, i, key) && NoWrap(before, i) && Sole(before, i, key)
    ensures Timed(after, history + [key])
  {
    hide LastUse;
    LastUseNow(history, key);
    forall j | 0 <= j < |after| && after[j].occupied && j != i
      ensures after[j].key in history && LastUse(history + [key], after[j].key) == LastUse(history, after[j].key)
    {
      LastUseExtend(history, key, after[j].key);
    }
  }

  /** The slot just used is the youngest; two others keep their order. */
  lemma YoungerAfter(before: seq<Slot>, after: seq<Slot>, i: nat, key: Key, a: int, b: int)
    requires Positive(before) && Advanced(before, after, i, key) && NoWrap(before, i)
    requires 0 <= a < |before| && 0 <= b < |before| && b != i && before[b].occupied
    requires a == i || (before[a].occupied && before[a].time < before[b].time)
    ensures after[a].time < after[b].time
  {
  }

  ghost predicate Positive(slots: seq<Slot>) {
    forall i :: 0 <= i < |slots| && slots[i].occupied ==> slots[i].time >= 1
  }

  lemma TimedPositive(slots: seq<Slot>, history: seq<Key>)
    requires Timed(slots, history)
    ensures Positive(slots)
  {
    hide LastUse;
  }

  /** A slot already in use moves to the front: the ages stay strictly ordered. */
  lemma AgedMove(before: seq<Slot>, after: seq<Slot>, order: seq<int>, p: nat, key: Key)
    requires Aged(before, order) && p < |order| && Advanced(before, after, order[p], key)
    requires Positive(before) && NoWrap(before, order[p])
    ensures Aged(after, MoveFront(order, p))
  {
    var order' := MoveFront(order, p);
    assert forall q :: 0 <= q < |order'| ==> 0 <= order'[q] < |after| && after[order'[q]].occupied;
    forall a, b | 0 <= a < b < |order'|
      ensures after[order'[a]].time < after[order'[b]].time
    {
      var x, y := MoveFrontOrder(order, p, a, b);
      YoungerAfter(before, after, order[p], key, order[x], order[y]);
    }
    MoveFrontPermutes(order, p);
  }

  /** A slot comes into use. */
  lemma AgedAdd(before: seq<Slot>, after: seq<Slot>, order: seq<int>, i: nat, key: Key)
    requires Aged(before, order) && Advanced(before, after, i, key) && !before[i].occupied
    requires Positive(before) && NoWrap(before, i)
    ensures Aged(after, [i] + order)
  {
    var order' := [i] + order;
    forall a, b | 0 <= a < b < |order'|
      ensures order'[a] != order'[b] && after[order'[a]].time < after[order'[b]].time
    {
      assert order'[b] == order[b - 1];
      assert a > 0 ==> order'[a] == order[a - 1];
      YoungerAfter(before, after, i, key, order'[a], order'[b]);
    }
    forall j | 0 <= j < |after| && after[j].occupied
      ensures j in order'
    {
      if j != i {
        assert j in order;
      }
    }
  }

  /** A hit: the slot of the key moves to the front. */
  lemma RecentOnHit(before: seq<Slot>, after: seq<Slot>, order: seq<int>, recent: seq<Key>, p: nat, key: Key)
    requires HoldsMostRecent(before, order, recent) && Distinct(order) && p < |order|
    requires Advanced(before, after, order[p], key) && Holds(before[order[p]], key)
    ensures HoldsMostRecent(after, MoveFront(order, p), MoveFront(recent, p)) && recent[p] == key
  {
  }

  /** An empty slot is taken: everything used so far is still cached. */
  lemma RecentOnFill(before: seq<Slot>, after: seq<Slot>, order: seq<int>, recent: seq<Key>, i: nat, key: Key)
    requires Aged(before, order) && HoldsMostRecent(before, order, recent) && Advanced(before, after, i, key)
    requires !before[i].occupied && forall j :: 0 <= j < |before| ==> !Holds(before[j], key)
    ensures HoldsMostRecent(after, [i] + order, [key] + recent) && key !in recent
  {
    DistinctAtMost([i] + order, |before|);
    assert |order| == |recent|;
    forall p | 0 <= p < |recent|
      ensures recent[p] != key
    {
      assert before[order[p]].key == recent[p];
    }
  }

  /** A miss with every slot taken: the oldest slot is the one at the end of the order. */
  lemma VictimIsLast(slots: seq<Slot>, order: seq<int>, i: nat)
    requires Aged(slots, order) && i < |slots|
    requires forall j :: 0 <= j < |slots| ==> slots[j].occupied && slots[j].time <= slots[i].time
    ensures |order| == |slots| && order[|order| - 1] == i
  {
    CoversAtLeast(order, |slots|);
    DistinctAtMost(order, |slots|);
    assert slots[order[|order| - 1]].time <= slots[i].time;
    var p :| 0 <= p < |order| && order[p] == i;
  }

  lemma RecentOnEvict(before: seq<Slot>, after: seq<Slot>, order: seq<int>, recent: seq<Key>, recent': seq<Key>,
                      key: Key)
    requires HoldsMostRecent(before, order, recent) && Distinct(order) && |order| == |before| > 0
    requires Advanced(before, after, order[|order| - 1], key) && Pushed(recent, key, |order|, recent')
    ensures HoldsMostRecent(after, MoveFront(order, |order| - 1), recent')
  {
  }

  lemma LruOnHit(before: seq<Slot>, after: seq<Slot>, order: seq<int>, history: seq<Key>, p: nat, key: Key)
    requires Lru(before, order, history, false) && p < |order|
    requires Advanced(before, after, order[p], key) && Holds(before[order[p]], key)
    requires NoWrap(before, order[p]) && Sole(before, order[p], key)
    ensures Lru(after, MoveFront(order, p), history + [key], false)
  {
    hide MostRecent;
    hide Timed;
    TimedPositive(before, history);
    TimedAdvance(before, after, order[p], key, history);
    AgedMove(before, after, order, p, key);
    RecentOnHit(before, after, order, MostRecent(history), p, key);
    MostRecentAgain(history, p);
  }

  lemma LruOnFill(before: seq<Slot>, after: seq<Slot>, order: seq<int>, history: seq<Key>, i: nat, key: Key)
    requires Lru(before, order, history, false) && Advanced(before, after, i, key) && NoWrap(before, i)
    requires !before[i].occupied && forall j :: 0 <= j < |before| ==> !Holds(before[j], key)
    ensures Lru(after, [i] + order, history + [key], false)
  {
    hide MostRecent;
    hide Aged;
    hide Timed;
    TimedPositive(before, history);
    TimedAdvance(before, after, i, key, history);
    AgedAdd(before, after, order, i, key);
    RecentOnFill(before, after, order, MostRecent(history), i, key);
    MostRecentNew(history, key);
  }

  lemma NotRecent(slots: seq<Slot>, order: seq<int>, recent: seq<Key>, key: Key)
    requires HoldsMostRecent(slots, order, recent) && forall j :: 0 <= j < |slots| ==> slots[j].key != key
    ensures |order| <= |recent| && forall p :: 0 <= p < |order| ==> recent[p] != key
  {
    forall p | 0 <= p < |order|
      ensures recent[p] != key
    {
      assert slots[order[p]].key == recent[p];
    }
  }

  lemma LruOnEvict(before: seq<Slot>, after: seq<Slot>, order: seq<int>, history: seq<Key>, i: nat, key: Key)
    requires Lru(before, order, history, false) && Advanced(before, after, i, key) && NoWrap(before, i)
    requires forall j :: 0 <= j < |before| ==>
      before[j].occupied && before[j].time <= before[i].time && before[j].key != key
    ensures 0 < |order| && Lru(after, MoveFront(order, |order| - 1), history + [key], false)
  {
    hide MostRecent;
    hide Timed;
    hide HoldsMostRecent;
    VictimIsLast(before, order, i);
    TimedPositive(before, history);
    TimedAdvance(before, after, i, key, history);
    AgedMove(before, after, order, |order| - 1, key);
    NotRecent(before, order, MostRecent(history), key);
    MostRecentPush(history, key, |order|);
    RecentOnEvict(before, after, order, MostRecent(history), MostRecent(history + [key]), key);
  }

  /** Exact LRU is kept by an access to key through slot i, by whichever of the three ways, unless it wraps an age. */
  lemma LruStep(before: seq<Slot>, after: seq<Slot>, order: seq<int>, history: seq<Key>, i: nat, key: Key,
                wrapped: bool)
    returns (order': seq<int>)
    requires Lru(before, order, history, wrapped) && Advanced(before, after, i, key) && Sole(before, i, key)
    requires Holds(before[i], key)
      || (!before[i].occupied && forall j :: 0 <= j < |before| ==> !Holds(before[j], key))
      || forall j :: 0 <= j < |before| ==>
           before[j].occupied && before[j].time <= before[i].time && before[j].key != key
    ensures Lru(after, order', history + [key], wrapped || !NoWrap(before, i))
  {
    hide HoldsMostRecent;
    hide Timed;
    order' := [];
    if !wrapped && NoWrap(before, i) {
      if Holds(before[i], key) {
        var p :| 0 <= p < |order| && order[p] == i;
        LruOnHit(before, after, order, history, p, key);
        order' := MoveFront(order, p);
      } else if !before[i].occupied {
        LruOnFill(before, after, order, history, i, key);
        order' := [i] + order;
      } else {
        LruOnEvict(before, after, order, history, i, key);
        order' := MoveFront(order, |order| - 1);
      }
    }
  }

  /** The same, with the reason why an age wrapped. */
  lemma LruAccess(before: seq<Slot>, after: seq<Slot>, order: seq<int>, history: seq<Key>, i: nat, key: Key,
                  wrapped: bool)
    returns (order': seq<int>, wrapped': bool)
    requires Lru(before, order, history, wrapped) && Advanced(before, after, i, key) && Sole(before, i, key)
    requires Holds(before[i], key)
      || (!before[i].occupied && forall j :: 0 <= j < |before| ==> !Holds(before[j], key))
      || forall j :: 0 <= j < |before| ==>
           before[j].occupied && before[j].time <= before[i].time && before[j].key != key
    ensures Lru(after, order', history + [key], wrapped')
    ensures wrapped' && !wrapped ==> LongUnused(before, history, key)
  {
    hide Aged;
    hide Timed;
    hide HoldsMostRecent;
    hide Advanced;
    hide LongUnused;
    order' := LruStep(before, after, order, history, i, key, wrapped);
    wrapped' := wrapped || !NoWrap(before, i);
    if !wrapped && !NoWrap(before, i) {
      WrapMeansUnused(before, history, i, key);
    }
  }

  lemma AllOlder(before: seq<Slot>, placed: seq<Slot>, after: seq<Slot>, i: nat, key: Key)
    requires |before| == |placed| == |after| && i < |before| && placed == before[i := placed[i]]
    requires Holds(placed[i], key) && placed[i].time == 0
    requires forall j :: 0 <= j < |placed| ==> after[j] == Older(placed[j])
    ensures Advanced(before, after, i, key)
  {
  }

  /** Exact LRU, spelt out: every cached sector was used, more recently than any used sector that is not cached, and
      nothing is left out while a slot is empty. */
  lemma ExactLru(slots: seq<Slot>, order: seq<int>, history: seq<Key>, i: nat, x: Key)
    requires Lru(slots, order, history, false)
    requires i < |slots| && x in history && forall j :: 0 <= j < |slots| ==> !Holds(slots[j], x)
    ensures slots[i].occupied
    ensures slots[i].key in history && LastUse(history, x) < LastUse(history, slots[i].key)
  {
    var recent := MostRecent(history);
    var q :| 0 <= q < |recent| && recent[q] == x;
    if q < |order| {
      assert Holds(slots[order[q]], x);
    }
    assert |order| == |slots| <= q;
    DistinctCovers(order, |slots|, i);
    var p :| 0 <= p < |order| && order[p] == i;
    assert recent[p] in recent;
    MostRecentByLastUse(history);
  }

  /** The same for a history in which no sector went unused for 2^32 - 1 accesses. */
  lemma ExactUnlessIdled(cache: Cache, i: nat, x: Key)
    requires cache.Valid() && !Idled(cache.history)
    requires i < N_BCACHE && x in cache.history && forall j :: 0 <= j < N_BCACHE ==> !Holds(cache.slots[j], x)
    ensures cache.slots[i].occupied && cache.slots[i].key in cache.history
    ensures LastUse(cache.history, x) < LastUse(cache.history, cache.slots[i].key)
  {
    hide Lru;
    hide Idled;
    ExactLru(cache.slots[..], cache.order, cache.history, i, x);
  }

  /** Sector i of a buffer of several sectors. */
  function Chunk(buffer: seq<byte>, i: nat): Sector
    requires SECTOR_SIZE * (i + 1) <= |buffer|
  {
    buffer[SECTOR_SIZE * i..SECTOR_SIZE * (i + 1)]
  }

  ghost predicate InRange(k: Key, dev: nat, sec: nat, n: nat) {
    k.dev == dev && sec <= k.sec < sec + n
  }

  /** The first n sectors of the buffer have replaced the n sectors from sec on, and nothing else changed. */
  ghost predicate Written(before: map<Key, Sector>, after: map<Key, Sector>, dev: nat, sec: nat, n: nat,
                          buffer: seq<byte>)
    requires SECTOR_SIZE * n <= |buffer|
  {
    after.Keys == before.Keys &&
    (forall k :: InRange(k, dev, sec, n) ==> k in after && after[k] == Chunk(buffer, k.sec - sec)) &&
    (forall k :: k in after && !InRange(k, dev, sec, n) ==> after[k] == before[k])
  }

  /** The buffer holds the n sectors from sec on. */
  ghost predicate Fetched(view: map<Key, Sector>, dev: nat, sec: nat, n: nat, buffer: seq<byte>) {
    |buffer| == SECTOR_SIZE * n &&
    forall k :: InRange(k, dev, sec, n) ==> k in view && view[k] == Chunk(buffer, k.sec - sec)
  }

  /** The accesses that a request of n sectors makes. */
  function Requested(dev: nat, sec: nat, n: nat): (r: seq<Key>)
    ensures |r| == n
  {
    seq(n, i requires 0 <= i < n => Key(dev, sec + i))
  }

  lemma RequestedMore(dev: nat, sec: nat, n: nat)
    ensures Requested(dev, sec, n + 1) == Requested(dev, sec, n) + [Key(dev, sec + n)]
  {
  }

  lemma FetchedNothing(view: map<Key, Sector>, dev: nat, sec: nat)
    ensures Fetched(view, dev, sec, 0, [])
  {
  }

  lemma WrittenNothing(view: map<Key, Sector>, dev: nat, sec: nat, buffer: seq<byte>)
    ensures Written(view, view, dev, sec, 0, buffer)
  {
  }

  lemma WrittenKeys(before: map<Key, Sector>, after: map<Key, Sector>, dev: nat, sec: nat, n: nat, buffer: seq<byte>)
    requires SECTOR_SIZE * n <= |buffer| && Written(before, after, dev, sec, n, buffer)
    ensures after.Keys == before.Keys
  {
  }

  lemma FetchedOneMore(view: map<Key, Sector>, dev: nat, sec: nat, n: nat, buffer: seq<byte>)
    requires Fetched(view, dev, sec, n, buffer) && Key(dev, sec + n) in view
    ensures Fetched(view, dev, sec, n + 1, buffer + view[Key(dev, sec + n)])
  {
    var more := buffer + view[Key(dev, sec + n)];
    forall k | InRange(k, dev, sec, n + 1)
      ensures k in view && view[k] == Chunk(more, k.sec - sec)
    {
      if k.sec < sec + n {
        assert InRange(k, dev, sec, n);
        assert Chunk(more, k.sec - sec) == Chunk(buffer, k.sec - sec);
      } else {
        assert k == Key(dev, sec + n) && Chunk(more, n) == view[k];
      }
    }
  }

  lemma WrittenOneMore(before: map<Key, Sector>, after: map<Key, Sector>, dev: nat, sec: nat, n: nat, buffer: seq<byte>)
    requires SECTOR_SIZE * (n + 1) <= |buffer| && Written(before, after, dev, sec, n, buffer)
    requires Key(dev, sec + n) in after
    ensures Written(before, Accessed(after, Key(dev, sec + n), true, Chunk(buffer, n)), dev, sec, n + 1, buffer)
  {
  }

  /** The effect of one access on what clients see. */
  function Accessed(view: map<Key, Sector>, key: Key, write: bool, buffer: Sector): map<Key, Sector> {
    if write then view[key := buffer] else view
  }

  lemma HitKeepsView(slots: seq<Slot>, device: map<Key, Sector>, view: map<Key, Sector>, i: nat, key: Key, write: bool,
                     buffer: Sector, slot: Slot)
    requires Coherent(slots, device) && IsView(slots, device, view)
    requires i < |slots| && Holds(slots[i], key) && Holds(slot, key)
    requires slot.data == (if write then buffer else slots[i].data)
    requires slot.modified == (write || slots[i].modified)
    ensures Coherent(slots[i := slot], device)
    ensures IsView(slots[i := slot], device, Accessed(view, key, write, buffer))
    ensures view[key] == slots[i].data
  {
    var after, view' := slots[i := slot], Accessed(view, key, write, buffer);
    forall k | k in view' && forall j :: 0 <= j < |after| ==> !Holds(after[j], k)
      ensures view'[k] == device[k]
    {
      assert !Holds(after[i], k);
      forall j | 0 <= j < |slots|
        ensures !Holds(slots[j], k)
      {
        assert !Holds(after[j], k);
      }
    }
  }

  /** Writing a slot back to its device is invisible. */
  lemma WriteBackKeepsView(slots: seq<Slot>, device: map<Key, Sector>, view: map<Key, Sector>, i: nat)
    requires Coherent(slots, device) && IsView(slots, device, view)
    requires i < |slots| && slots[i].occupied
    ensures Coherent(slots, device[slots[i].key := slots[i].data])
    ensures IsView(slots, device[slots[i].key := slots[i].data], view)
  {
    var device' := device[slots[i].key := slots[i].data];
    forall k | k in view && forall j :: 0 <= j < |slots| ==> !Holds(slots[j], k)
      ensures view[k] == device'[k]
    {
      assert !Holds(slots[i], k);
    }
  }

  /** Replacing an empty slot, or one whose data is on its device, loses nothing. */
  lemma InstallKeepsView(slots: seq<Slot>, device: map<Key, Sector>, view: map<Key, Sector>, i: nat, key: Key,
                         write: bool, buffer: Sector, slot: Slot)
    requires Coherent(slots, device) && IsView(slots, device, view) && key in device
    requires i < |slots| && (slots[i].occupied ==> device[slots[i].key] == slots[i].data)
    requires forall j :: 0 <= j < |slots| ==> !Holds(slots[j], key)
    requires Holds(slot, key) && slot.modified == write && slot.data == if write then buffer else device[key]
    ensures Coherent(slots[i := slot], device)
    ensures IsView(slots[i := slot], device, Accessed(view, key, write, buffer))
    ensures view[key] == device[key]
  {
    var after, view' := slots[i := slot], Accessed(view, key, write, buffer);
    forall k | k in view' && forall j :: 0 <= j < |after| ==> !Holds(after[j], k)
      ensures view'[k] == device[k]
    {
      assert !Holds(after[i], k);
      if Holds(slots[i], k) {
      } else {
        forall j | 0 <= j < |slots|
          ensures !Holds(slots[j], k)
        {
          assert !Holds(after[j], k);
        }
      }
    }
  }

  /** Ages play no part in what clients see. */
  lemma AgesInvisible(slots: seq<Slot>, after: seq<Slot>, device: map<Key, Sector>, view: map<Key, Sector>)
    requires Coherent(slots, device) && IsView(slots, device, view)
    requires |slots| == |after| && forall i :: 0 <= i < |slots| ==> after[i] == slots[i].(time := after[i].time)
    ensures Coherent(after, device) && IsView(after, device, view)
  {
    forall k | k in view && forall i :: 0 <= i < |after| ==> !Holds(after[i], k)
      ensures view[k] == device[k]
    {
      forall j | 0 <= j < |slots|
        ensures !Holds(slots[j], k)
      {
        assert !Holds(after[j], k);
      }
    }
  }

  class Cache {
    const slots: array<Slot>
    var device: map<Key, Sector>
    // What clients see, the accesses so far, and the occupied slots by age.
    ghost var view: map<Key, Sector>
    ghost var history: seq<Key>
    ghost var order: seq<int>
    // Whether the age of a cached sector has wrapped around.
    ghost var wrapped: bool

    ghost predicate Valid()
      reads this, slots
    {
      slots.Length == N_BCACHE && Coherent(slots[..], device) && IsView(slots[..], device, view) &&
      Lru(slots[..], order, history, wrapped) && (wrapped ==> Idled(history))
    }

    constructor (device: map<Key, Sector>)
      ensures Valid() && fresh(slots) && slots.Length == 16
      ensures this.device == device && view == device && history == [] && !wrapped
    {
      slots := new Slot[N_BCACHE](_ => Slot(false, false, Key(0, 0), 0, ZERO_SECTOR));
      this.device := device;
      view := device;
      history := [];
      order := [];
      wrapped := false;
    }

    method Find(key: Key) returns (i: nat)
      requires Valid()
      ensures i <= N_BCACHE
      ensures i < N_BCACHE ==> Holds(slots[i], key)
      ensures i == N_BCACHE ==> forall j :: 0 <= j < N_BCACHE ==> !Holds(slots[j], key)
    {
      hide Coherent;
      hide IsView;
      hide Lru;
      i := 0;
      while i < N_BCACHE
        invariant i <= N_BCACHE
        invariant forall j :: 0 <= j < i ==> !Holds(slots[j], key)
      {
        if slots[i].occupied && slots[i].key == key {
          return;
        }
        i := i + 1;
      }
    }

    /** The first empty slot, or else the oldest one. */
    method Choose() returns (max: nat)
      requires Valid()
      ensures max < N_BCACHE
      ensures !slots[max].occupied ||
        forall j :: 0 <= j < N_BCACHE ==> slots[j].occupied && slots[j].time <= slots[max].time
    {
      hide Coherent;
      hide IsView;
      hide Lru;
      max := 0;
      for i := 0 to N_BCACHE
        invariant max < N_BCACHE
        invariant forall j :: 0 <= j < i ==> slots[j].occupied && slots[j].time <= slots[max].time
      {
        if !slots[i].occupied {
          return i;
        } else if slots[i].time > slots[max].time {
          max := i;
        }
      }
    }

    /** update_time: every occupied slot ages by one. */
    method Age()
      requires slots.Length == N_BCACHE
      modifies slots
      ensures forall i :: 0 <= i < N_BCACHE ==> slots[i] == Older(old(slots[i]))
      ensures forall i :: 0 <= i < N_BCACHE && slots[i].occupied ==>
        slots[i].time == (old(slots[i]).time as int + 1) % 0x1_0000_0000
    {
      for i := 0 to N_BCACHE
        invariant forall j :: i <= j < N_BCACHE ==> slots[j] == old(slots[j])
        invariant forall j :: 0 <= j < i ==> slots[j] == Older(old(slots[j]))
      {
        if slots[i].occupied {
          slots[i] := slots[i].(time := Tick(slots[i].time));
        }
      }
    }

    /** The tail common to all paths of an access: slot i now belongs to key. */
    method Finish(ghost before: seq<Slot>, i: nat, key: Key)
      requires slots.Length == N_BCACHE == |before| && i < N_BCACHE
      requires Coherent(slots[..], device) && IsView(slots[..], device, view)
      requires Lru(before, order, history, wrapped) && (wrapped ==> Idled(history))
      requires Holds(slots[i], key) && slots[i].time == 0
      requires slots[..] == before[i := slots[i]]
      requires Holds(before[i], key)
        || (!before[i].occupied && forall j :: 0 <= j < N_BCACHE ==> !Holds(before[j], key))
        || forall j :: 0 <= j < N_BCACHE ==>
             before[j].occupied && before[j].time <= before[i].time && before[j].key != key
      modifies slots, `order, `history, `wrapped
      ensures Valid() && history == old(history) + [key]
      ensures wrapped && !old(wrapped) ==> LongUnused(before, old(history), key)
    {
      hide IsView;
      hide Coherent;
      hide Lru;
      hide Advanced;
      hide Sole;
      hide LongUnused;
      ghost var placed := slots[..];
      SoleHolder(placed, before, device, i, key);
      Age();
      AgesInvisible(placed, slots[..], device, view);
      AllOlder(before, placed, slots[..], i, key);
      hide Idled;
      if wrapped {
        StaysIdled(history, key);
      }
      order, wrapped := LruAccess(before, slots[..], order, history, i, key, wrapped);
      if wrapped && !old(wrapped) {
        UnusedMeansIdled(before, history, key);
      }
      history := history + [key];
    }

    /** The sector is in slot i. */
    method Hit(i: nat, key: Key, write: bool, buffer: Sector) returns (result: Sector)
      requires Valid() && i < N_BCACHE && Holds(slots[i], key)
      modifies this, slots
      ensures Valid() && history == old(history) + [key]
      ensures view == Accessed(old(view), key, write, buffer) && key in view && result == view[key]
      ensures wrapped && !old(wrapped) ==> LongUnused(old(slots[..]), old(history), key)
    {
      hide Lru;
      hide LongUnused;
      ghost var before := slots[..];
      result := if write then buffer else slots[i].data;
      var slot := slots[i].(data := result, modified := write || slots[i].modified, time := 0);
      HitKeepsView(before, device, view, i, key, write, buffer, slot);
      slots[i] := slot;
      view := Accessed(view, key, write, buffer);
      assert slots[..] == before[i := slot];
      Finish(before, i, key);
    }

    /** Slot i, empty or the oldest, is written back if needed and loaded with the sector. */
    method Install(i: nat, key: Key, write: bool, buffer: Sector) returns (result: Sector)
      requires Valid() && key in view && i < N_BCACHE
      requires forall j :: 0 <= j < N_BCACHE ==> !Holds(slots[j], key)
      requires !slots[i].occupied ||
        forall j :: 0 <= j < N_BCACHE ==> slots[j].occupied && slots[j].time <= slots[i].time
      modifies this, slots
      ensures Valid() && history == old(history) + [key]
      ensures view == Accessed(old(view), key, write, buffer) && key in view && result == view[key]
      ensures wrapped && !old(wrapped) ==> LongUnused(old(slots[..]), old(history), key)
    {
      hide Lru;
      hide LongUnused;
      ghost var before := slots[..];
      if slots[i].occupied && slots[i].modified {
        WriteBackKeepsView(before, device, view, i);
        device := device[slots[i].key := slots[i].data];
      }
      result := if write then buffer else device[key];
      var slot := Slot(true, write, key, 0, result);
      InstallKeepsView(before, device, view, i, key, write, buffer, slot);
      slots[i] := slot;
      view := Accessed(view, key, write, buffer);
      assert slots[..] == before[i := slot];
      Finish(before, i, key);
    }

    /** bcache_rw: one access of one sector through the cache. */
    method ReadWrite(key: Key, write: bool, buffer: Sector) returns (result: Sector)
      requires Valid() && key in view
      modifies this, slots
      ensures Valid() && history == old(history) + [key]
      ensures view == Accessed(old(view), key, write, buffer) && key in view && result == view[key]
      ensures wrapped && !old(wrapped) ==> LongUnused(old(slots[..]), old(history), key)
    {
      var i := Find(key);
      if i < N_BCACHE {
        result := Hit(i, key, write, buffer);
      } else {
        i := Choose();
        result := Install(i, key, write, buffer);
      }
    }

    /** diskIO_BCache, reading n sectors. */
    method ReadSectors(dev: nat, sec: nat, n: nat) returns (result: seq<byte>)
      requires Valid() && forall k :: InRange(k, dev, sec, n) ==> k in view
      modifies this, slots
      ensures Valid() && view == old(view) && history == old(history) + Requested(dev, sec, n)
      ensures Fetched(view, dev, sec, n, result)
    {
      hide Valid;
      hide Fetched;
      hide Requested;
      result := [];
      FetchedNothing(view, dev, sec);
      for i := 0 to n
        invariant Valid() && view == old(view) && Fetched(view, dev, sec, i, result)
        invariant history == old(history) + Requested(dev, sec, i)
      {
        assert InRange(Key(dev, sec + i), dev, sec, n);
        RequestedMore(dev, sec, i);
        var data := ReadWrite(Key(dev, sec + i), false, ZERO_SECTOR);
        FetchedOneMore(view, dev, sec, i, result);
        result := result + data;
      }
    }

    /** diskIO_BCache, writing n sectors. */
    method WriteSectors(dev: nat, sec: nat, n: nat, buffer: seq<byte>)
      requires Valid() && |buffer| == SECTOR_SIZE * n
      requires forall k :: InRange(k, dev, sec, n) ==> k in view
      modifies this, slots
      ensures Valid() && Written(old(view), view, dev, sec, n, buffer)
      ensures history == old(history) + Requested(dev, sec, n)
    {
      hide Valid;
      hide Written;
      hide Requested;
      WrittenNothing(view, dev, sec, buffer);
      for i := 0 to n
        invariant Valid() && Written(old(view), view, dev, sec, i, buffer)
        invariant history == old(history) + Requested(dev, sec, i)
      {
        assert InRange(Key(dev, sec + i), dev, sec, n);
        RequestedMore(dev, sec, i);
        WrittenKeys(old(view), view, dev, sec, i, buffer);
        WrittenOneMore(old(view), view, dev, sec, i, buffer);
        var _ := ReadWrite(Key(dev, sec + i), true, Chunk(buffer, i));
      }
    }

    /** Every modified slot is written to its device; afterwards the devices are what clients see. */
    method SyncAll()
      requires Valid()
      modifies `device
      ensures Valid() && device == view == old(view)
    {
      hide IsView;
      hide Lru;
      for i := 0 to N_BCACHE
        invariant Coherent(slots[..], device) && IsView(slots[..], device, view)
        invariant forall j :: 0 <= j < i && slots[j].occupied ==> device[slots[j].key] == slots[j].data
      {
        if slots[i].occupied && slots[i].modified {
          WriteBackKeepsView(slots[..], device, view, i);
          device := device[slots[i].key := slots[i].data];
        }
      }
      Synced(slots[..], device, view);
    }
  }
}
