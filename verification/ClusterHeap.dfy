/** Cluster chains in a FAT, and what allocating, linking and freeing clusters does to them
    (kern/fs/fat/fat_base.c:495-575, 1660-1700). A table holds one number per cluster; clusters 0 and 1 do not exist. */
module ClusterHeap {
  type Table = seq<nat>

  ghost predicate IsCluster(t: Table, c: nat) {
    2 <= c < |t|
  }

  // ---- free clusters ----

  function CountFrom(t: Table, c: nat): nat
    requires c <= |t|
    decreases |t| - c
  {
    if c == |t| then 0 else (if t[c] == 0 then 1 else 0) + CountFrom(t, c + 1)
  }

  lemma CountFromEnd(t: Table)
    ensures CountFrom(t, |t|) == 0
  {
  }

  lemma CountFromStep(t: Table, c: nat)
    requires c < |t|
    ensures CountFrom(t, c) == (if t[c] == 0 then 1 else 0) + CountFrom(t, c + 1)
  {
  }

  /** The number of free clusters. */
  function CountFree(t: Table): nat {
    if |t| < 2 then 0 else CountFrom(t, 2)
  }

  lemma {:induction false} CountFromUpdate(t: Table, c: nat, d: nat, v: nat)
    requires c <= d < |t|
    ensures CountFrom(t[d := v], c) == CountFrom(t, c) - (if t[d] == 0 then 1 else 0) + (if v == 0 then 1 else 0)
    decreases |t| - c
  {
    if c == d {
      CountFromFrame(t, t[d := v], c + 1);
    } else {
      CountFromUpdate(t, c + 1, d, v);
    }
  }

  lemma {:induction false} CountFromFrame(t: Table, u: Table, c: nat)
    requires c <= |t| == |u| && t[c..] == u[c..]
    ensures CountFrom(t, c) == CountFrom(u, c)
    decreases |t| - c
  {
    if c < |t| {
      assert t[c] == t[c..][0] == u[c..][0] == u[c];
      assert t[c + 1..] == t[c..][1..] == u[c..][1..] == u[c + 1..];
      CountFromFrame(t, u, c + 1);
    }
  }

  lemma CountFreeUpdate(t: Table, d: nat, v: nat)
    requires IsCluster(t, d)
    ensures CountFree(t[d := v]) == CountFree(t) - (if t[d] == 0 then 1 else 0) + (if v == 0 then 1 else 0)
  {
    CountFromUpdate(t, 2, d, v);
  }

  lemma {:induction false} CountFromPositive(t: Table, c: nat, d: nat)
    requires c <= d < |t| && t[d] == 0
    ensures CountFrom(t, c) > 0
    decreases d - c
  {
    if c < d {
      CountFromPositive(t, c + 1, d);
    }
  }

  lemma {:induction false} CountFromBound(t: Table, c: nat)
    requires c <= |t|
    ensures CountFrom(t, c) <= |t| - c
    decreases |t| - c
  {
    if c < |t| {
      CountFromBound(t, c + 1);
    }
  }

  /** No cluster is free exactly when the count is 0. */
  lemma {:induction false} CountFromNone(t: Table, c: nat)
    requires c <= |t|
    ensures CountFrom(t, c) == 0 <==> forall d :: c <= d < |t| ==> t[d] != 0
    decreases |t| - c
  {
    if c < |t| {
      CountFromNone(t, c + 1);
    }
  }

  /** Entries in use: what a walk that zeroes entries can still consume. */
  ghost function InUse(t: Table): nat {
    CountFromBound(t, 0);
    |t| - CountFrom(t, 0)
  }

  // ---- remove_chain ----

  /** The table after remove_chain from c. It terminates on every table, cyclic ones included: each continuing step
      zeroes an entry in use. */
  ghost function Removed(t: Table, c: nat): (r: Table)
    ensures |r| == |t|
    decreases InUse(t), if IsCluster(t, c) then 1 else 0
  {
    if IsCluster(t, c) && t[c] != 1 then
      CountFromUpdate(t, 0, c, 0);
      Removed(t[c := 0], t[c])
    else t
  }

  /** How many entries remove_chain sets to zero, which is what it adds to free_clust. */
  ghost function Steps(t: Table, c: nat): nat
    decreases InUse(t), if IsCluster(t, c) then 1 else 0
  {
    if IsCluster(t, c) && t[c] != 1 then
      CountFromUpdate(t, 0, c, 0);
      1 + Steps(t[c := 0], t[c])
    else 0
  }

  lemma RemovedStep(t: Table, c: nat)
    requires IsCluster(t, c) && t[c] != 1
    ensures Removed(t, c) == Removed(t[c := 0], t[c]) && Steps(t, c) == 1 + Steps(t[c := 0], t[c])
    ensures if t[c] == 0 then t[c := 0] == t else InUse(t[c := 0]) < InUse(t)
  {
    CountFromUpdate(t, 0, c, 0);
  }

  lemma RemovedAtEnd(t: Table, c: nat)
    requires !IsCluster(t, c) || t[c] == 1
    ensures Removed(t, c) == t && Steps(t, c) == 0
  {
  }

  /** The walk from c runs into a cluster that is already free: a dangling link, or a cycle closing on itself. */
  ghost predicate MeetsFree(t: Table, c: nat)
    decreases InUse(t), if IsCluster(t, c) then 1 else 0
  {
    IsCluster(t, c) && t[c] != 1 && (
      CountFromUpdate(t, 0, c, 0);
      t[c] == 0 || MeetsFree(t[c := 0], t[c]))
  }

  /** The walk from c runs into an entry equal to 1, which remove_chain takes for a read error. */
  ghost predicate MeetsOne(t: Table, c: nat)
    decreases InUse(t), if IsCluster(t, c) then 1 else 0
  {
    IsCluster(t, c) && (
      CountFromUpdate(t, 0, c, 0);
      t[c] == 1 || MeetsOne(t[c := 0], t[c]))
  }

  lemma MeetsOneStep(t: Table, c: nat)
    ensures !IsCluster(t, c) ==> !MeetsOne(t, c)
    ensures IsCluster(t, c) && t[c] == 1 ==> MeetsOne(t, c)
    ensures IsCluster(t, c) && t[c] != 1 ==> (MeetsOne(t, c) <==> MeetsOne(t[c := 0], t[c]))
  {
  }

  /** remove_chain over-counts on a chain with a dangling link: 2 names 3, which is free. */
  lemma OverCounts()
    ensures var t := [8, 8, 3, 0];
      CountFree(t) == 1 && CountFree(Removed(t, 2)) == 2 && CountFree(t) + Steps(t, 2) == 3
  {
    var t: Table := [8, 8, 3, 0];
    var u: Table := [8, 8, 0, 0];
    assert t[2 := 0] == u && u[3 := 0] == u;
    RemovedStep(t, 2);
    RemovedStep(u, 3);
    RemovedAtEnd(u, 0);
    assert CountFrom(t, 4) == 0 && CountFrom(t, 3) == 1 && CountFrom(t, 2) == 1;
    assert CountFrom(u, 4) == 0 && CountFrom(u, 3) == 1 && CountFrom(u, 2) == 2;
  }

  /** What remove_chain adds to free_clust is the number of clusters it frees, if and only if its walk never meets a
      free cluster; otherwise it is one too many. */
  lemma {:induction false} StepsCount(t: Table, c: nat)
    ensures CountFree(Removed(t, c)) == CountFree(t) + Steps(t, c) - (if MeetsFree(t, c) then 1 else 0)
    decreases InUse(t), if IsCluster(t, c) then 1 else 0
  {
    if IsCluster(t, c) && t[c] != 1 {
      CountFromUpdate(t, 0, c, 0);
      CountFreeUpdate(t, c, 0);
      StepsCount(t[c := 0], t[c]);
      if t[c] == 0 {
        assert !IsCluster(t[c := 0], t[c]);
      }
    }
  }

  /** The walk takes at most one step more than there are entries in use. */
  lemma {:induction false} StepsBound(t: Table, c: nat)
    ensures Steps(t, c) <= InUse(t) + 1
    decreases InUse(t), if IsCluster(t, c) then 1 else 0
  {
    if IsCluster(t, c) && t[c] != 1 {
      CountFromUpdate(t, 0, c, 0);
      StepsBound(t[c := 0], t[c]);
    }
  }

  // ---- chains ----

  /** cs is the chain of a file: distinct clusters, each naming the next, the last one naming no cluster. */
  ghost predicate IsChain(t: Table, cs: seq<nat>) {
    0 < |cs| &&
    (forall i :: 0 <= i < |cs| ==> IsCluster(t, cs[i])) &&
    (forall i, j :: 0 <= i < j < |cs| ==> cs[i] != cs[j]) &&
    (forall i :: 0 <= i < |cs| - 1 ==> t[cs[i]] == cs[i + 1]) &&
    t[cs[|cs| - 1]] >= |t|
  }

  ghost predicate Disjoint(cs: seq<nat>, ds: seq<nat>) {
    forall i, j :: 0 <= i < |cs| && 0 <= j < |ds| ==> cs[i] != ds[j]
  }

  /** Zero the entries of all clusters of cs. */
  function Zeroed(t: Table, cs: seq<nat>): (r: Table)
    requires forall i :: 0 <= i < |cs| ==> cs[i] < |t|
    ensures |r| == |t|
    ensures forall c :: 0 <= c < |t| ==> r[c] == if c in cs then 0 else t[c]
    decreases |cs|
  {
    if cs == [] then t else Zeroed(t[cs[0] := 0], cs[1..])
  }

  /** A chain cut off its first cluster, once that is freed, is a chain. */
  lemma ChainTail(t: Table, cs: seq<nat>)
    requires IsChain(t, cs) && |cs| > 1
    ensures IsChain(t[cs[0] := 0], cs[1..])
  {
    var t', ds := t[cs[0] := 0], cs[1..];
    forall i | 0 <= i < |ds| - 1
      ensures t'[ds[i]] == ds[i + 1]
    {
      assert t[cs[i + 1]] == cs[i + 2];
    }
  }

  /** remove_chain on a chain frees exactly its clusters, in as many steps, and meets no free one. */
  lemma {:induction false} RemovedChain(t: Table, cs: seq<nat>)
    requires IsChain(t, cs)
    ensures Removed(t, cs[0]) == Zeroed(t, cs) && Steps(t, cs[0]) == |cs| && !MeetsFree(t, cs[0]) && !MeetsOne(t, cs[0])
    decreases |cs|
  {
    var t' := t[cs[0] := 0];
    if |cs| > 1 {
      assert t[cs[0]] == cs[1];
      ChainTail(t, cs);
      RemovedChain(t', cs[1..]);
    } else {
      assert !IsCluster(t', t[cs[0]]);
      assert Zeroed(t', cs[1..]) == t';
    }
  }

  /** A chain whose entries did not change is a chain still. */
  lemma ChainKept(t: Table, u: Table, cs: seq<nat>)
    requires IsChain(t, cs) && |u| == |t| && forall i :: 0 <= i < |cs| ==> u[cs[i]] == t[cs[i]]
    ensures IsChain(u, cs)
  {
  }

  lemma ChainInUse(t: Table, cs: seq<nat>)
    requires IsChain(t, cs)
    ensures forall i :: 0 <= i < |cs| ==> t[cs[i]] >= 2
  {
    forall i | 0 <= i < |cs|
      ensures t[cs[i]] >= 2
    {
      assert i < |cs| - 1 ==> IsCluster(t, cs[i + 1]);
    }
  }

  /** Create: a free cluster becomes a chain of its own. */
  lemma ChainCreate(t: Table, n: nat, eoc: nat)
    requires IsCluster(t, n) && eoc >= |t|
    ensures IsChain(t[n := eoc], [n])
  {
  }

  /** Stretch: a free cluster is linked behind the last one. */
  lemma ChainStretch(t: Table, cs: seq<nat>, n: nat, eoc: nat)
    requires IsChain(t, cs) && IsCluster(t, n) && t[n] == 0 && eoc >= |t|
    ensures IsChain(t[n := eoc][cs[|cs| - 1] := n], cs + [n])
  {
    var last := |cs| - 1;
    ChainInUse(t, cs);
    var u, ds := t[n := eoc][cs[last] := n], cs + [n];
    forall i | 0 <= i < |ds| - 1
      ensures u[ds[i]] == ds[i + 1]
    {
      if i < last {
        assert ds[i] == cs[i] != cs[last];
      }
    }
  }

  lemma ChainPrefix(t: Table, cs: seq<nat>, k: nat, eoc: nat)
    requires IsChain(t, cs) && 0 < k <= |cs| && eoc >= |t|
    ensures IsChain(t[cs[k - 1] := eoc], cs[..k])
  {
  }

  lemma ChainSuffix(t: Table, cs: seq<nat>, k: nat, eoc: nat)
    requires IsChain(t, cs) && 0 < k < |cs|
    ensures IsChain(t[cs[k - 1] := eoc], cs[k..])
  {
    var t', rest := t[cs[k - 1] := eoc], cs[k..];
    forall i | 0 <= i < |rest| - 1
      ensures t'[rest[i]] == rest[i + 1]
    {
      assert t[cs[k + i]] == cs[k + i + 1];
    }
  }

  /** Truncate: cluster k - 1 becomes the last one and the rest is removed. */
  lemma ChainTruncate(t: Table, cs: seq<nat>, k: nat, eoc: nat)
    requires IsChain(t, cs) && 0 < k < |cs| && eoc >= |t|
    ensures var u := Removed(t[cs[k - 1] := eoc], cs[k]);
      u == Zeroed(t[cs[k - 1] := eoc], cs[k..]) && IsChain(u, cs[..k])
    ensures Steps(t[cs[k - 1] := eoc], cs[k]) == |cs| - k
    ensures !MeetsFree(t[cs[k - 1] := eoc], cs[k]) && !MeetsOne(t[cs[k - 1] := eoc], cs[k])
  {
    var t', rest, kept := t[cs[k - 1] := eoc], cs[k..], cs[..k];
    ChainSuffix(t, cs, k, eoc);
    ChainPrefix(t, cs, k, eoc);
    assert cs[k] == rest[0];
    RemovedChain(t', rest);
    forall i | 0 <= i < k
      ensures Zeroed(t', rest)[kept[i]] == t'[kept[i]]
    {
      assert kept[i] == cs[i] && cs[i] !in rest;
    }
    ChainKept(t', Zeroed(t', rest), kept);
  }

  // ---- every run of create, stretch, remove and truncate ----

  /** A FAT with the chains of all files and the free_clust counter, once it is known. */
  datatype Heap = Heap(table: Table, chains: seq<seq<nat>>, free: int)

  datatype Op =
    | Create(n: nat)              // a free cluster n becomes a new chain
    | Stretch(i: nat, n: nat)     // a free cluster n is linked to the end of chain i
    | Remove(i: nat)              // chain i is removed
    | Truncate(i: nat, k: nat)    // chain i is cut after its first k clusters

  ghost predicate Sound(h: Heap) {
    (forall i :: 0 <= i < |h.chains| ==> IsChain(h.table, h.chains[i])) &&
    (forall i, j :: 0 <= i < j < |h.chains| ==> Disjoint(h.chains[i], h.chains[j])) &&
    h.free == CountFree(h.table)
  }

  ghost predicate Enabled(h: Heap, op: Op) {
    match op
    case Create(n) => IsCluster(h.table, n) && h.table[n] == 0
    case Stretch(i, n) => i < |h.chains| && 0 < |h.chains[i]| && IsCluster(h.table, n) && h.table[n] == 0
    case Remove(i) => i < |h.chains| && 0 < |h.chains[i]|
    case Truncate(i, k) => i < |h.chains| && 0 < k < |h.chains[i]|
  }

  ghost function Apply(h: Heap, op: Op, eoc: nat): Heap
    requires Enabled(h, op) && forall i :: 0 <= i < |h.chains| ==> IsChain(h.table, h.chains[i])
  {
    match op
    case Create(n) => Heap(h.table[n := eoc], h.chains + [[n]], h.free - 1)
    case Stretch(i, n) =>
      var cs := h.chains[i];
      assert IsChain(h.table, cs);
      assert IsCluster(h.table, cs[|cs| - 1]);
      Heap(h.table[n := eoc][cs[|cs| - 1] := n], h.chains[i := cs + [n]], h.free - 1)
    case Remove(i) =>
      var c := h.chains[i][0];
      Heap(Removed(h.table, c), h.chains[..i] + h.chains[i + 1..], h.free + Steps(h.table, c))
    case Truncate(i, k) =>
      var cs := h.chains[i];
      assert IsChain(h.table, cs);
      assert IsCluster(h.table, cs[k - 1]);
      var t := h.table[cs[k - 1] := eoc];
      Heap(Removed(t, cs[k]), h.chains[i := cs[..k]], h.free + Steps(t, cs[k]))
  }

  /** A free cluster is in no chain. */
  lemma FreeInNoChain(h: Heap, n: nat)
    requires Sound(h) && n < |h.table| && h.table[n] == 0
    ensures forall i :: 0 <= i < |h.chains| ==> n !in h.chains[i]
  {
    forall i | 0 <= i < |h.chains|
      ensures n !in h.chains[i]
    {
      ChainInUse(h.table, h.chains[i]);
    }
  }

  /** Chains other than i are kept by a change confined to clusters of chain i and clusters of no chain. */
  lemma OthersKept(h: Heap, u: Table, i: nat)
    requires Sound(h) && |u| == |h.table| && i <= |h.chains|
    requires forall c :: 0 <= c < |u| && u[c] != h.table[c] ==>
      forall j :: 0 <= j < |h.chains| && j != i ==> c !in h.chains[j]
    ensures forall j :: 0 <= j < |h.chains| && j != i ==> IsChain(u, h.chains[j])
  {
    forall j | 0 <= j < |h.chains| && j != i
      ensures IsChain(u, h.chains[j])
    {
      var cs := h.chains[j];
      forall p | 0 <= p < |cs|
        ensures u[cs[p]] == h.table[cs[p]]
      {
        assert cs[p] in h.chains[j];
      }
      ChainKept(h.table, u, cs);
    }
  }

  /** Clusters of chain i are in no other chain. */
  lemma OwnedOnce(h: Heap, i: nat, c: nat)
    requires Sound(h) && i < |h.chains| && c in h.chains[i]
    ensures forall j :: 0 <= j < |h.chains| && j != i ==> c !in h.chains[j]
  {
    forall j | 0 <= j < |h.chains| && j != i
      ensures c !in h.chains[j]
    {
      if j < i {
        assert Disjoint(h.chains[j], h.chains[i]);
      } else {
        assert Disjoint(h.chains[i], h.chains[j]);
      }
    }
  }

  lemma CreateSound(h: Heap, n: nat, eoc: nat)
    requires Sound(h) && Enabled(h, Create(n)) && eoc >= |h.table|
    ensures Sound(Apply(h, Create(n), eoc))
  {
    FreeInNoChain(h, n);
    OthersKept(h, h.table[n := eoc], |h.chains|);
    ChainCreate(h.table, n, eoc);
    CountFreeUpdate(h.table, n, eoc);
  }

  lemma StretchSound(h: Heap, i: nat, n: nat, eoc: nat)
    requires Sound(h) && Enabled(h, Stretch(i, n)) && eoc >= |h.table|
    ensures Sound(Apply(h, Stretch(i, n), eoc))
  {
    var cs := h.chains[i];
    var last := cs[|cs| - 1];
    FreeInNoChain(h, n);
    ChainInUse(h.table, cs);
    assert last in cs;
    OwnedOnce(h, i, last);
    OthersKept(h, h.table[n := eoc][last := n], i);
    ChainStretch(h.table, cs, n, eoc);
    CountFreeUpdate(h.table, n, eoc);
    CountFreeUpdate(h.table[n := eoc], last, n);
    var chains := h.chains[i := cs + [n]];
    forall a, b | 0 <= a < b < |chains|
      ensures Disjoint(chains[a], chains[b])
    {
      assert Disjoint(h.chains[a], h.chains[b]);
      assert n !in h.chains[a] && n !in h.chains[b];
    }
  }

  lemma RemoveSound(h: Heap, i: nat, eoc: nat)
    requires Sound(h) && Enabled(h, Remove(i))
    ensures Sound(Apply(h, Remove(i), eoc))
  {
    var cs := h.chains[i];
    RemovedChain(h.table, cs);
    StepsCount(h.table, cs[0]);
    var u := Zeroed(h.table, cs);
    forall c | 0 <= c < |u| && u[c] != h.table[c]
      ensures forall j :: 0 <= j < |h.chains| && j != i ==> c !in h.chains[j]
    {
      OwnedOnce(h, i, c);
    }
    OthersKept(h, u, i);
  }

  lemma DisjointCut(chains: seq<seq<nat>>, i: nat, k: nat)
    requires i < |chains| && k <= |chains[i]| && forall a, b :: 0 <= a < b < |chains| ==> Disjoint(chains[a], chains[b])
    ensures var cut := chains[i := chains[i][..k]]; forall a, b :: 0 <= a < b < |cut| ==> Disjoint(cut[a], cut[b])
  {
    var cut := chains[i := chains[i][..k]];
    forall a, b | 0 <= a < b < |cut|
      ensures Disjoint(cut[a], cut[b])
    {
      assert Disjoint(chains[a], chains[b]);
    }
  }

  lemma TruncateSound(h: Heap, i: nat, k: nat, eoc: nat)
    requires Sound(h) && Enabled(h, Truncate(i, k)) && eoc >= |h.table|
    ensures Sound(Apply(h, Truncate(i, k), eoc))
  {
    var cs := h.chains[i];
    var t := h.table[cs[k - 1] := eoc];
    ChainTruncate(h.table, cs, k, eoc);
    ChainInUse(h.table, cs);
    CountFreeUpdate(h.table, cs[k - 1], eoc);
    StepsCount(t, cs[k]);
    var u := Zeroed(t, cs[k..]);
    forall c | 0 <= c < |u| && u[c] != h.table[c]
      ensures forall j :: 0 <= j < |h.chains| && j != i ==> c !in h.chains[j]
    {
      assert c == cs[k - 1] || c in cs[k..];
      OwnedOnce(h, i, c);
    }
    OthersKept(h, u, i);
    DisjointCut(h.chains, i, k);
  }

  lemma ApplySound(h: Heap, op: Op, eoc: nat)
    requires Sound(h) && Enabled(h, op) && eoc >= |h.table|
    ensures Sound(Apply(h, op, eoc)) && |Apply(h, op, eoc).table| == |h.table|
  {
    match op
    case Create(n) => CreateSound(h, n, eoc);
    case Stretch(i, n) => StretchSound(h, i, n, eoc);
    case Remove(i) => RemoveSound(h, i, eoc);
    case Truncate(i, k) => TruncateSound(h, i, k, eoc);
  }

  /** h is a run: each heap follows from the one before by one operation. */
  ghost predicate IsRun(hs: seq<Heap>, ops: seq<Op>, eoc: nat) {
    |hs| == |ops| + 1 && Sound(hs[0]) && eoc >= |hs[0].table| &&
    forall i :: 0 <= i < |ops| ==>
      Enabled(hs[i], ops[i]) && (Sound(hs[i]) ==> hs[i + 1] == Apply(hs[i], ops[i], eoc))
  }

  /** In every state of every run chains are acyclic, pairwise disjoint and without dangling links, and free_clust is
      the number of free clusters. */
  lemma {:induction false} RunSound(hs: seq<Heap>, ops: seq<Op>, eoc: nat, i: nat)
    requires IsRun(hs, ops, eoc) && i < |hs|
    ensures Sound(hs[i]) && |hs[i].table| == |hs[0].table|
  {
    if i > 0 {
      RunSound(hs, ops, eoc, i - 1);
      assert hs[i - 1 + 1] == Apply(hs[i - 1], ops[i - 1], eoc);
      ApplySound(hs[i - 1], ops[i - 1], eoc);
    }
  }
}
