/** Parents, children and siblings; exit and wait (kern/krnl/task/task.c). */
module ProcessTree {
  import opened Sequences
  import opened TaskStates

  type Ref = nat

  datatype Ptr = Null | To(t: Ref)

  /** wait_state: WT_CHILD (with the argument of do_wait, 0 for any child), or not. */
  datatype WaitState = NotWait | ForChild(pid: nat) | OtherWait

  /** The fields of Task_t that make up the tree. The children of a task are linked from the youngest (cptr) to older
      ones (optr), and back (yptr). */
  datatype Node = Node(tid: nat, parent: Ptr, cptr: Ptr, optr: Ptr, yptr: Ptr, state: TaskState, wait: WaitState)

  type Nodes = map<Ref, Node>
  type Kids = map<Ref, seq<Ref>>

  // ---- pointer updates; a null pointer is not written through ----

  function SetYptr(nodes: Nodes, p: Ptr, v: Ptr): Nodes {
    if p.To? && p.t in nodes then nodes[p.t := nodes[p.t].(yptr := v)] else nodes
  }

  function SetOptr(nodes: Nodes, p: Ptr, v: Ptr): Nodes {
    if p.To? && p.t in nodes then nodes[p.t := nodes[p.t].(optr := v)] else nodes
  }

  function SetCptr(nodes: Nodes, p: Ptr, v: Ptr): Nodes {
    if p.To? && p.t in nodes then nodes[p.t := nodes[p.t].(cptr := v)] else nodes
  }

  // ---- a tree of sibling lists ----

  function At(l: seq<Ref>, i: int): Ptr {
    if 0 <= i < |l| then To(l[i]) else Null
  }

  /** Child i of list l of parent p is linked to its neighbours; the yptr of the youngest is not looked at. */
  ghost predicate LinkedAt(nodes: Nodes, p: Ref, l: seq<Ref>, i: nat)
    requires i < |l|
  {
    l[i] in nodes && nodes[l[i]].parent == To(p) && nodes[l[i]].optr == At(l, i + 1) &&
    (i > 0 ==> nodes[l[i]].yptr == To(l[i - 1]))
  }

  ghost predicate Family(nodes: Nodes, p: Ref, l: seq<Ref>) {
    p in nodes && nodes[p].cptr == At(l, 0) && Distinct(l) && forall i :: 0 <= i < |l| ==> LinkedAt(nodes, p, l, i)
  }

  ghost predicate Front(nodes: Nodes, l: seq<Ref>) {
    l != [] ==> l[0] in nodes && nodes[l[0]].yptr == Null
  }

  /** Task c other than the root is among the children of its parent. */
  ghost predicate Placed(nodes: Nodes, kids: Kids, c: Ref)
    requires c in nodes
  {
    nodes[c].parent.To? && nodes[c].parent.t in kids && c in kids[nodes[c].parent.t]
  }

  /** The links form the sibling lists kids, except that the youngest child of task stale may have an old yptr. */
  ghost predicate Forest(nodes: Nodes, kids: Kids, root: Ref, stale: Ptr) {
    kids.Keys == nodes.Keys && root in nodes && nodes[root].parent == Null &&
    (forall p :: p in kids ==> Family(nodes, p, kids[p])) &&
    (forall p :: p in kids && To(p) != stale ==> Front(nodes, kids[p])) &&
    (forall c :: c in nodes && c != root ==> Placed(nodes, kids, c))
  }

  /** Every way up leads to the root. */
  ghost predicate Ranked(nodes: Nodes, rank: map<Ref, nat>, root: Ref) {
    rank.Keys == nodes.Keys && root in rank && rank[root] == 0 &&
    forall c :: c in nodes && c != root ==>
      nodes[c].parent.To? && nodes[c].parent.t in rank && rank[nodes[c].parent.t] < rank[c]
  }

  /** The members of a list have the same links as before. */
  ghost predicate SameLinks(nodes: Nodes, nodes': Nodes, l: seq<Ref>) {
    forall i :: 0 <= i < |l| ==> SameLink(nodes, nodes', l[i])
  }

  ghost predicate SameLink(nodes: Nodes, nodes': Nodes, c: Ref) {
    c in nodes && c in nodes' && nodes'[c].parent == nodes[c].parent && nodes'[c].optr == nodes[c].optr &&
    nodes'[c].yptr == nodes[c].yptr
  }

  lemma FamilySame(nodes: Nodes, nodes': Nodes, p: Ref, l: seq<Ref>)
    requires Family(nodes, p, l) && p in nodes' && nodes'[p].cptr == nodes[p].cptr && SameLinks(nodes, nodes', l)
    ensures Family(nodes', p, l)
    ensures Front(nodes, l) ==> Front(nodes', l)
  {
    forall i | 0 <= i < |l|
      ensures LinkedAt(nodes', p, l, i)
    {
      assert LinkedAt(nodes, p, l, i);
    }
  }

  lemma InFamily(nodes: Nodes, p: Ref, l: seq<Ref>, i: nat)
    requires Family(nodes, p, l) && i < |l|
    ensures p in nodes && l[i] in nodes && nodes[l[i]].parent == To(p)
  {
    assert LinkedAt(nodes, p, l, i);
  }

  // ---- add_task ----

  function Added(nodes: Nodes, c: Ref, n: Node, p: Ref): Nodes
    requires p in nodes
  {
    var older := nodes[p].cptr;
    var nodes1 := nodes[c := n.(parent := To(p), yptr := Null, optr := older)];
    SetCptr(SetYptr(nodes1, older, To(c)), To(p), To(c))
  }

  ghost function AddedKids(kids: Kids, c: Ref, p: Ref): Kids
    requires p in kids
  {
    kids[p := [c] + kids[p]][c := []]
  }

  /** What add_task changes: the yptr of the youngest child so far and the parent's cptr. */
  lemma AddedNodes(nodes: Nodes, c: Ref, n: Node, p: Ref, l: seq<Ref>)
    requires Family(nodes, p, l) && c !in nodes
    ensures var nodes' := Added(nodes, c, n, p);
      nodes'.Keys == nodes.Keys + {c} && nodes'[c] == n.(parent := To(p), yptr := Null, optr := At(l, 0)) &&
      forall x :: x in nodes ==> nodes'[x] == nodes[x].(
        yptr := if l != [] && x == l[0] then To(c) else nodes[x].yptr, cptr := if x == p then To(c) else nodes[x].cptr)
  {
    assert l != [] ==> LinkedAt(nodes, p, l, 0);
  }

  lemma AddedFamily(nodes: Nodes, c: Ref, n: Node, p: Ref, l: seq<Ref>)
    requires Family(nodes, p, l) && Front(nodes, l) && c !in nodes
    ensures Family(Added(nodes, c, n, p), p, [c] + l) && Front(Added(nodes, c, n, p), [c] + l)
  {
    hide Added;
    AddedNodes(nodes, c, n, p, l);
    var l', nodes' := [c] + l, Added(nodes, c, n, p);
    forall i | 0 <= i < |l|
      ensures LinkedAt(nodes, p, l, i) && l[i] != c && l'[i + 1] == l[i]
    {
    }
    forall i | 0 <= i < |l'|
      ensures LinkedAt(nodes', p, l', i)
    {
      assert i > 0 ==> LinkedAt(nodes, p, l, i - 1);
    }
  }

  lemma AddedOthers(nodes: Nodes, c: Ref, n: Node, p: Ref, l: seq<Ref>, q: Ref, m: seq<Ref>)
    requires Family(nodes, p, l) && Family(nodes, q, m) && Front(nodes, m) && c !in nodes && q != p
    ensures Family(Added(nodes, c, n, p), q, m) && Front(Added(nodes, c, n, p), m)
  {
    hide Added;
    AddedNodes(nodes, c, n, p, l);
    var nodes' := Added(nodes, c, n, p);
    forall j | 0 <= j < |m|
      ensures SameLink(nodes, nodes', m[j])
    {
      assert LinkedAt(nodes, q, m, j);
      assert l != [] ==> LinkedAt(nodes, p, l, 0);
    }
    FamilySame(nodes, nodes', q, m);
  }

  lemma AddedForest(nodes: Nodes, kids: Kids, root: Ref, c: Ref, n: Node, p: Ref)
    requires Forest(nodes, kids, root, Null) && c !in nodes && n.cptr == Null && p in nodes
    ensures Forest(Added(nodes, c, n, p), AddedKids(kids, c, p), root, Null)
  {
    hide Added;
    hide Front;
    hide Family;
    var nodes', kids' := Added(nodes, c, n, p), AddedKids(kids, c, p);
    AddedNodes(nodes, c, n, p, kids[p]);
    NoKids(nodes', c);
    forall q | q in kids'
      ensures Family(nodes', q, kids'[q]) && Front(nodes', kids'[q])
    {
      if q == p {
        AddedFamily(nodes, c, n, p, kids[p]);
      } else if q != c {
        AddedOthers(nodes, c, n, p, kids[p], q, kids[q]);
      }
    }
    forall x | x in nodes' && x != root
      ensures Placed(nodes', kids', x)
    {
      AddedPlaced(nodes, kids, c, p, nodes', x);
    }
  }

  lemma AddedPlaced(nodes: Nodes, kids: Kids, c: Ref, p: Ref, nodes': Nodes, x: Ref)
    requires p in kids && c !in kids && x in nodes' && (x != c ==> x in nodes && Placed(nodes, kids, x))
    requires nodes'[x].parent == if x == c then To(p) else nodes[x].parent
    ensures Placed(nodes', AddedKids(kids, c, p), x)
  {
    assert AddedKids(kids, c, p)[p][0] == c;
  }

  lemma NoKids(nodes: Nodes, c: Ref)
    requires c in nodes
    ensures nodes[c].cptr == Null ==> Family(nodes, c, []) && Front(nodes, [])
  {
  }

  // ---- del_task ----

  function Deleted(nodes: Nodes, c: Ref): Nodes
    requires c in nodes
  {
    var n := nodes[c];
    var nodes1 := SetYptr(nodes, n.optr, n.yptr);
    var nodes2 := if n.yptr != Null then SetOptr(nodes1, n.yptr, n.optr) else SetCptr(nodes1, n.parent, n.optr);
    nodes2 - {c}
  }

  function Without(l: seq<Ref>, i: nat): seq<Ref>
    requires i < |l|
  {
    l[..i] + l[i + 1..]
  }

  /** What del_task changes, for child i of list l of parent p. */
  lemma DeletedNodes(nodes: Nodes, p: Ref, l: seq<Ref>, i: nat)
    requires Family(nodes, p, l) && Front(nodes, l) && i < |l| && l[i] != p
    ensures l[i] in nodes
    ensures var nodes' := Deleted(nodes, l[i]);
      nodes'.Keys == nodes.Keys - {l[i]} &&
      forall x :: x in nodes && x != l[i] ==> nodes'[x] == nodes[x].(
        yptr := if i + 1 < |l| && x == l[i + 1] then At(l, i - 1) else nodes[x].yptr,
        optr := if i > 0 && x == l[i - 1] then At(l, i + 1) else nodes[x].optr,
        cptr := if i == 0 && x == p then At(l, 1) else nodes[x].cptr)
  {
    assert LinkedAt(nodes, p, l, i);
    assert i + 1 < |l| ==> LinkedAt(nodes, p, l, i + 1);
    assert i > 0 ==> LinkedAt(nodes, p, l, i - 1);
  }

  lemma DeletedFamily(nodes: Nodes, p: Ref, l: seq<Ref>, i: nat)
    requires Family(nodes, p, l) && Front(nodes, l) && i < |l| && l[i] != p
    ensures l[i] in nodes && Family(Deleted(nodes, l[i]), p, Without(l, i))
    ensures Front(Deleted(nodes, l[i]), Without(l, i))
  {
    hide Deleted;
    DeletedNodes(nodes, p, l, i);
    var l', nodes' := Without(l, i), Deleted(nodes, l[i]);
    assert forall j :: 0 <= j < |l'| ==> l'[j] == l[if j < i then j else j + 1];
    forall j | 0 <= j < |l'|
      ensures LinkedAt(nodes', p, l', j)
    {
      assert LinkedAt(nodes, p, l, if j < i then j else j + 1);
    }
    assert |l| > 1 ==> LinkedAt(nodes, p, l, 1) && LinkedAt(nodes, p, l, 0);
    assert |l| > 1 && i == 0 ==> l'[0] == l[1];
  }

  lemma DeletedOthers(nodes: Nodes, p: Ref, l: seq<Ref>, i: nat, q: Ref, m: seq<Ref>)
    requires Family(nodes, p, l) && Front(nodes, l) && i < |l| && l[i] != p && Family(nodes, q, m) && Front(nodes, m)
    requires q != p && q != l[i]
    ensures l[i] in nodes && Family(Deleted(nodes, l[i]), q, m) && Front(Deleted(nodes, l[i]), m)
  {
    hide Deleted;
    DeletedNodes(nodes, p, l, i);
    var nodes' := Deleted(nodes, l[i]);
    forall j | 0 <= j < |m|
      ensures SameLink(nodes, nodes', m[j])
    {
      assert LinkedAt(nodes, q, m, j) && LinkedAt(nodes, p, l, i);
      assert i + 1 < |l| ==> LinkedAt(nodes, p, l, i + 1);
      assert i > 0 ==> LinkedAt(nodes, p, l, i - 1);
    }
    FamilySame(nodes, nodes', q, m);
  }

  lemma DeletedFamilies(nodes: Nodes, kids: Kids, root: Ref, p: Ref, i: nat, q: Ref)
    requires Forest(nodes, kids, root, Null) && p in kids && i < |kids[p]| && kids[p][i] in kids
    requires kids[kids[p][i]] == []
    requires q in kids && q != kids[p][i]
    ensures kids[p][i] in nodes
    ensures var l := if q == p then Without(kids[p], i) else kids[q];
      Family(Deleted(nodes, kids[p][i]), q, l) && Front(Deleted(nodes, kids[p][i]), l)
  {
    hide Deleted;
    hide Front;
    hide Family;
    hide Forest;
    ForestFamily(nodes, kids, root, p);
    ForestFamily(nodes, kids, root, q);
    if q == p {
      DeletedFamily(nodes, p, kids[p], i);
    } else {
      DeletedOthers(nodes, p, kids[p], i, q, kids[q]);
    }
  }

  lemma DeletedForest(nodes: Nodes, kids: Kids, root: Ref, p: Ref, i: nat)
    requires Forest(nodes, kids, root, Null) && p in kids && i < |kids[p]| && kids[p][i] in kids
    requires kids[kids[p][i]] == []
    ensures Forest(Deleted(nodes, kids[p][i]), kids[p := Without(kids[p], i)] - {kids[p][i]}, root, Null)
  {
    hide Deleted;
    hide Front;
    hide Family;
    hide LinkedAt;
    hide Without;
    var c := kids[p][i];
    InFamily(nodes, p, kids[p], i);
    var nodes', kids' := Deleted(nodes, c), kids[p := Without(kids[p], i)] - {c};
    DeletedNodes(nodes, p, kids[p], i);
    forall q | q in kids'
      ensures Family(nodes', q, kids'[q]) && Front(nodes', kids'[q])
    {
      DeletedFamilies(nodes, kids, root, p, i, q);
    }
    forall x | x in nodes' && x != root
      ensures Placed(nodes', kids', x)
    {
      DeletedPlaced(nodes, kids, p, i, nodes', x);
    }
  }

  lemma DeletedPlaced(nodes: Nodes, kids: Kids, p: Ref, i: nat, nodes': Nodes, x: Ref)
    requires p in kids && i < |kids[p]| && x in nodes && x in nodes' && x != kids[p][i] && Placed(nodes, kids, x)
    requires nodes'[x].parent == nodes[x].parent && kids[p][i] in kids && kids[kids[p][i]] == []
    ensures Placed(nodes', kids[p := Without(kids[p], i)] - {kids[p][i]}, x)
  {
    if nodes[x].parent.t == p {
      StillIn(kids[p], i, x);
    }
  }

  lemma StillIn(l: seq<Ref>, i: nat, x: Ref)
    requires i < |l| && x in l && x != l[i]
    ensures x in Without(l, i)
  {
    var j :| 0 <= j < |l| && l[j] == x;
    assert Without(l, i)[if j < i then j else j - 1] == x;
  }

  // ---- the loop of do_exit ----

  /** One turn: the youngest child c of the exiting task becomes the youngest child of init. */
  function Adopted(nodes: Nodes, t: Ref, init: Ref, c: Ref): Nodes
    requires init in nodes && c in nodes
  {
    var nodes1 := SetCptr(nodes, To(t), nodes[c].optr);
    var nodes2 := SetYptr(nodes1, To(c), Null);
    var older := nodes2[init].cptr;
    var nodes3 := SetYptr(SetOptr(nodes2, To(c), older), older, To(c));
    var nodes4 := nodes3[c := nodes3[c].(parent := To(init))];
    SetCptr(nodes4, To(init), To(c))
  }

  ghost function AdoptedKids(kids: Kids, t: Ref, init: Ref): Kids
    requires t in kids && init in kids && kids[t] != []
  {
    kids[t := kids[t][1..]][init := [kids[t][0]] + kids[init]]
  }

  lemma AdoptedNodes(nodes: Nodes, t: Ref, l: seq<Ref>, init: Ref, m: seq<Ref>)
    requires Family(nodes, t, l) && l != [] && Family(nodes, init, m) && t != init && l[0] != t && l[0] != init
    ensures l[0] in nodes
    ensures var c, nodes' := l[0], Adopted(nodes, t, init, l[0]);
      nodes'.Keys == nodes.Keys && nodes'[c] == nodes[c].(parent := To(init), yptr := Null, optr := At(m, 0)) &&
      forall x :: x in nodes && x != c ==> nodes'[x] == nodes[x].(
        yptr := if m != [] && x == m[0] then To(c) else nodes[x].yptr,
        cptr := if x == t then At(l, 1) else if x == init then To(c) else nodes[x].cptr)
  {
    assert LinkedAt(nodes, t, l, 0);
    assert m != [] ==> LinkedAt(nodes, init, m, 0);
  }

  lemma AdoptedGiver(nodes: Nodes, t: Ref, l: seq<Ref>, init: Ref, m: seq<Ref>)
    requires Family(nodes, t, l) && l != [] && Family(nodes, init, m) && t != init && l[0] != t && l[0] != init
    ensures l[0] in nodes && Family(Adopted(nodes, t, init, l[0]), t, l[1..])
  {
    hide Adopted;
    AdoptedNodes(nodes, t, l, init, m);
    var nodes' := Adopted(nodes, t, init, l[0]);
    forall j | 0 <= j < |l[1..]|
      ensures LinkedAt(nodes', t, l[1..], j)
    {
      assert LinkedAt(nodes, t, l, j + 1);
      assert m != [] ==> LinkedAt(nodes, init, m, 0);
    }
  }

  lemma AdoptedTakerAt(nodes: Nodes, t: Ref, l: seq<Ref>, init: Ref, m: seq<Ref>, j: nat)
    requires Family(nodes, t, l) && l != [] && Family(nodes, init, m) && t != init && l[0] != t && l[0] != init
    requires j <= |m|
    ensures l[0] in nodes && LinkedAt(Adopted(nodes, t, init, l[0]), init, [l[0]] + m, j)
    ensures j > 0 ==> m[j - 1] != l[0]
  {
    hide Adopted;
    AdoptedNodes(nodes, t, l, init, m);
    assert LinkedAt(nodes, t, l, 0);
    if j > 0 {
      assert LinkedAt(nodes, init, m, j - 1);
      assert ([l[0]] + m)[j] == m[j - 1];
      assert j > 1 ==> m[j - 1] != m[0];
    }
  }

  lemma AdoptedTaker(nodes: Nodes, t: Ref, l: seq<Ref>, init: Ref, m: seq<Ref>)
    requires Family(nodes, t, l) && l != [] && Family(nodes, init, m) && t != init && l[0] != t && l[0] != init
    ensures l[0] in nodes && Family(Adopted(nodes, t, init, l[0]), init, [l[0]] + m)
    ensures Front(Adopted(nodes, t, init, l[0]), [l[0]] + m)
  {
    hide Adopted;
    hide LinkedAt;
    AdoptedNodes(nodes, t, l, init, m);
    var nodes', m' := Adopted(nodes, t, init, l[0]), [l[0]] + m;
    forall j | 0 <= j < |m'|
      ensures LinkedAt(nodes', init, m', j)
    {
      AdoptedTakerAt(nodes, t, l, init, m, j);
    }
    forall j | 0 <= j < |m|
      ensures m[j] != l[0]
    {
      AdoptedTakerAt(nodes, t, l, init, m, j + 1);
    }
    DistinctCons(l[0], m);
  }

  lemma AdoptedOthers(nodes: Nodes, t: Ref, l: seq<Ref>, init: Ref, m: seq<Ref>, q: Ref, k: seq<Ref>)
    requires Family(nodes, t, l) && l != [] && Family(nodes, init, m) && t != init && l[0] != t && l[0] != init
    requires Family(nodes, q, k) && Front(nodes, k) && q != t && q != init
    ensures l[0] in nodes && Family(Adopted(nodes, t, init, l[0]), q, k) && Front(Adopted(nodes, t, init, l[0]), k)
  {
    hide Adopted;
    AdoptedNodes(nodes, t, l, init, m);
    var nodes' := Adopted(nodes, t, init, l[0]);
    assert LinkedAt(nodes, t, l, 0);
    assert m != [] ==> LinkedAt(nodes, init, m, 0);
    forall j | 0 <= j < |k|
      ensures SameLink(nodes, nodes', k[j])
    {
      assert LinkedAt(nodes, q, k, j);
    }
    FamilySame(nodes, nodes', q, k);
  }

  /** A turn of the loop keeps the tree, but the next child of the exiting task still points to the one that left. */
  lemma AdoptedForest(nodes: Nodes, kids: Kids, root: Ref, t: Ref, init: Ref)
    requires Forest(nodes, kids, root, To(t)) && t in kids && init in kids && t != init && kids[t] != []
    requires kids[t][0] != t && kids[t][0] != init
    ensures kids[t][0] in nodes && Forest(Adopted(nodes, t, init, kids[t][0]), AdoptedKids(kids, t, init), root, To(t))
  {
    hide Adopted;
    hide Front;
    hide Family;
    hide LinkedAt;
    var c := kids[t][0];
    InFamily(nodes, t, kids[t], 0);
    AdoptedNodes(nodes, t, kids[t], init, kids[init]);
    var nodes', kids' := Adopted(nodes, t, init, c), AdoptedKids(kids, t, init);
    forall q | q in kids'
      ensures Family(nodes', q, kids'[q]) && (q != t ==> Front(nodes', kids'[q]))
    {
      if q == t {
        AdoptedGiver(nodes, t, kids[t], init, kids[init]);
      } else if q == init {
        AdoptedTaker(nodes, t, kids[t], init, kids[init]);
      } else {
        AdoptedOthers(nodes, t, kids[t], init, kids[init], q, kids[q]);
      }
    }
    forall x | x in nodes' && x != root
      ensures Placed(nodes', kids', x)
    {
      AdoptedPlaced(nodes, kids, t, init, nodes', x);
    }
  }

  lemma AdoptedPlaced(nodes: Nodes, kids: Kids, t: Ref, init: Ref, nodes': Nodes, x: Ref)
    requires t in kids && init in kids && t != init && kids[t] != [] && x in nodes && x in nodes'
    requires Placed(nodes, kids, x)
    requires nodes'[x].parent == if x == kids[t][0] then To(init) else nodes[x].parent
    ensures Placed(nodes', AdoptedKids(kids, t, init), x)
  {
    var c := kids[t][0];
    var kids' := AdoptedKids(kids, t, init);
    assert kids'[init][0] == c;
    assert kids[t] == [c] + kids[t][1..];
  }

  /** For the init task itself a turn changes nothing: its youngest child is moved to where it is. */
  lemma InitTurn(nodes: Nodes, init: Ref, l: seq<Ref>)
    requires Family(nodes, init, l) && Front(nodes, l) && l != [] && l[0] != init
    ensures l[0] in nodes && Adopted(nodes, init, init, l[0]) == nodes
  {
    assert LinkedAt(nodes, init, l, 0);
    assert |l| > 1 ==> LinkedAt(nodes, init, l, 1);
    var nodes' := Adopted(nodes, init, init, l[0]);
    forall x | x in nodes
      ensures nodes'[x] == nodes[x]
    {
    }
  }

  /** A turn of the loop for init is to be taken, and leads from a to b. */
  ghost predicate TurnTaken(a: Nodes, b: Nodes, init: Ref) {
    init in a && a[init].cptr.To? && a[init].cptr.t in a && b == Adopted(a, init, init, a[init].cptr.t)
  }

  /** So for an init task that has children the loop never ends: after any number of turns all is as before, and another
      turn is to be taken. */
  lemma {:induction false} InitNeverDone(run: seq<Nodes>, init: Ref, l: seq<Ref>, k: nat)
    requires k < |run| && forall i :: 0 <= i < k ==> TurnTaken(run[i], run[i + 1], init)
    requires Family(run[0], init, l) && Front(run[0], l) && l != [] && l[0] != init
    ensures run[k] == run[0] && TurnTaken(run[k], run[k], init)
  {
    hide Adopted;
    InitTurn(run[0], init, l);
    if k > 0 {
      InitNeverDone(run, init, l, k - 1);
      assert TurnTaken(run[k - 1], run[k - 1 + 1], init);
    }
  }

  // ---- states ----

  ghost predicate Waits(nodes: Nodes, p: Ref) {
    p in nodes && nodes[p].state == Sleeping && nodes[p].wait == ForChild(0)
  }

  /** Zombies have no children, except task but, which is exiting. */
  ghost predicate Childless(nodes: Nodes, kids: Kids, but: Ptr) {
    forall p :: p in kids && p in nodes && nodes[p].state == Zombie && To(p) != but ==> kids[p] == []
  }

  /** A task asleep in wait for any child has children, and none of them is a zombie. */
  ghost predicate NoneMissed(nodes: Nodes, kids: Kids) {
    (forall p :: p in kids && Waits(nodes, p) ==> kids[p] != []) &&
    forall p, c :: p in kids && c in kids[p] && c in nodes && Waits(nodes, p) ==> nodes[c].state != Zombie
  }

  /** Task x is a child of p with the number n. */
  ghost predicate Numbered(nodes: Nodes, x: Ref, p: Ref, n: nat) {
    x in nodes && nodes[x].tid == n && nodes[x].parent == To(p)
  }

  /** There is a child of p with the number n in the list, and the first one is no zombie. */
  ghost predicate LiveFirst(nodes: Nodes, l: seq<Ref>, p: Ref, n: nat) {
    l != [] && if Numbered(nodes, l[0], p, n) then nodes[l[0]].state != Zombie else LiveFirst(nodes, l[1..], p, n)
  }

  /** No task asleep in wait for the child with a number waits in vain. */
  ghost predicate NoneLost(nodes: Nodes, list: seq<Ref>) {
    forall p, n :: p in nodes && nodes[p].state == Sleeping && nodes[p].wait == ForChild(n) && n != 0 ==>
      LiveFirst(nodes, list, p, n)
  }

  /** Whatever still is the child may not turn zombie, and whatever becomes it may not be one. */
  lemma {:induction false} LiveKept(nodes: Nodes, nodes': Nodes, l: seq<Ref>, p: Ref, n: nat)
    requires LiveFirst(nodes, l, p, n)
    requires forall x :: x in l && Numbered(nodes, x, p, n) ==> Numbered(nodes', x, p, n)
    requires forall x :: x in l && Numbered(nodes', x, p, n) && nodes'[x].state == Zombie ==>
      Numbered(nodes, x, p, n) && nodes[x].state == Zombie
    ensures LiveFirst(nodes', l, p, n)
  {
    if !Numbered(nodes', l[0], p, n) {
      LiveKept(nodes, nodes', l[1..], p, n);
    }
  }

  lemma {:induction false} LiveChild(nodes: Nodes, l: seq<Ref>, p: Ref, n: nat) returns (c: Ref)
    requires LiveFirst(nodes, l, p, n)
    ensures c in l && Numbered(nodes, c, p, n) && nodes[c].state != Zombie
  {
    if Numbered(nodes, l[0], p, n) {
      return l[0];
    }
    c := LiveChild(nodes, l[1..], p, n);
  }

  lemma {:induction false} LiveDropped(nodes: Nodes, l: seq<Ref>, c: Ref, p: Ref, n: nat)
    requires LiveFirst(nodes, l, p, n) && c in nodes && nodes[c].state == Zombie
    ensures LiveFirst(nodes, Dropped(l, c), p, n)
  {
    if l[0] != c && !Numbered(nodes, l[0], p, n) {
      LiveDropped(nodes, l[1..], c, p, n);
      assert Dropped(l, c)[1..] == Dropped(l[1..], c);
    }
  }

  /** Then find_task does not answer with a zombie child; and if it answers with a child that lives, there is one. */
  lemma {:induction false} LiveFound(nodes: Nodes, l: seq<Ref>, p: Ref, n: nat)
    ensures var r := FirstTid(nodes, l, n); r.To? ==> r.t in nodes && nodes[r.t].tid == n
    ensures var r := FirstTid(nodes, l, n);
      r.To? && Numbered(nodes, r.t, p, n) ==> (LiveFirst(nodes, l, p, n) <==> nodes[r.t].state != Zombie)
  {
    if l != [] && !(l[0] in nodes && nodes[l[0]].tid == n) {
      LiveFound(nodes, l[1..], p, n);
    }
  }

  lemma AddedLive(nodes: Nodes, list: seq<Ref>, c: Ref, n: Node, p: Ref, l: seq<Ref>)
    requires Family(nodes, p, l) && c !in nodes && c !in list && NoneLost(nodes, list)
    requires n.state != Zombie && n.wait == NotWait
    ensures NoneLost(Added(nodes, c, n, p), [c] + list)
  {
    hide Added;
    AddedNodes(nodes, c, n, p, l);
    var nodes' := Added(nodes, c, n, p);
    forall q, m | q in nodes' && nodes'[q].state == Sleeping && nodes'[q].wait == ForChild(m) && m != 0
      ensures LiveFirst(nodes', [c] + list, q, m)
    {
      LiveKept(nodes, nodes', list, q, m);
      assert ([c] + list)[1..] == list;
    }
  }

  lemma DeletedLive(nodes: Nodes, list: seq<Ref>, p: Ref, l: seq<Ref>, i: nat)
    requires Family(nodes, p, l) && Front(nodes, l) && i < |l| && l[i] != p && l[i] in nodes
    requires nodes[l[i]].state == Zombie && Distinct(list) && l[i] in list && NoneLost(nodes, list)
    ensures NoneLost(Deleted(nodes, l[i]), Dropped(list, l[i]))
  {
    hide Deleted;
    hide Family;
    DeletedNodes(nodes, p, l, i);
    DroppedOne(list, l[i]);
    var c, nodes' := l[i], Deleted(nodes, l[i]);
    forall q, m | q in nodes' && nodes'[q].state == Sleeping && nodes'[q].wait == ForChild(m) && m != 0
      ensures LiveFirst(nodes', Dropped(list, c), q, m)
    {
      LiveDropped(nodes, list, c, q, m);
      LiveKept(nodes, nodes', Dropped(list, c), q, m);
    }
  }

  lemma AdoptedLive(nodes: Nodes, list: seq<Ref>, t: Ref, l: seq<Ref>, init: Ref, m: seq<Ref>)
    requires Family(nodes, t, l) && l != [] && Family(nodes, init, m) && t != init && l[0] != t && l[0] != init
    requires nodes[t].state == Zombie && NoneLost(nodes, list)
    ensures l[0] in nodes && NoneLost(AdoptedWoken(nodes, t, init, l[0]), list)
  {
    hide Adopted;
    InFamily(nodes, t, l, 0);
    AdoptedNodes(nodes, t, l, init, m);
    var nodes' := AdoptedWoken(nodes, t, init, l[0]);
    forall q, n | q in nodes' && nodes'[q].state == Sleeping && nodes'[q].wait == ForChild(n) && n != 0
      ensures LiveFirst(nodes', list, q, n)
    {
      LiveKept(nodes, nodes', list, q, n);
    }
  }

  lemma DiedLive(nodes: Nodes, list: seq<Ref>, t: Ref)
    requires t in nodes && nodes[t].parent.To? && nodes[t].parent != To(t) && NoneLost(nodes, list)
    ensures NoneLost(Died(nodes, t), list)
  {
    var nodes' := Died(nodes, t);
    forall q, n | q in nodes' && nodes'[q].state == Sleeping && nodes'[q].wait == ForChild(n) && n != 0
      ensures LiveFirst(nodes', list, q, n)
    {
      LiveKept(nodes, nodes', list, q, n);
    }
  }

  lemma SleepLive(nodes: Nodes, list: seq<Ref>, t: Ref, pid: nat)
    requires t in nodes && NoneLost(nodes, list) && (pid != 0 ==> LiveFirst(nodes, list, t, pid))
    ensures NoneLost(nodes[t := nodes[t].(state := Sleeping, wait := ForChild(pid))], list)
  {
    var nodes' := nodes[t := nodes[t].(state := Sleeping, wait := ForChild(pid))];
    forall q, n | q in nodes' && nodes'[q].state == Sleeping && nodes'[q].wait == ForChild(n) && n != 0
      ensures LiveFirst(nodes', list, q, n)
    {
      LiveKept(nodes, nodes', list, q, n);
    }
  }

  /** wakeupTask, as far as this module sees it. */
  function Woken(nodes: Nodes, p: Ref): Nodes
    requires p in nodes
  {
    if nodes[p].state != Runnable then nodes[p := nodes[p].(state := Runnable, wait := NotWait)] else nodes
  }

  /** From n to n' a task was called awake for a child or not: it wakes only if it is waiting for one, and stays asleep
      if it sleeps for another reason. */
  ghost predicate Roused(n: Node, n': Node, called: bool) {
    if called && n.wait.ForChild? && n.state != Runnable then n'.state == Runnable && n'.wait == NotWait
    else n'.state == n.state && n'.wait == n.wait
  }

  /** One of the first k tasks is a zombie. */
  ghost predicate AnyDead(nodes: Nodes, l: seq<Ref>, k: nat)
    requires k <= |l|
  {
    exists i :: 0 <= i < k && l[i] in nodes && nodes[l[i]].state == Zombie
  }

  lemma NoneDead(nodes: Nodes, l: seq<Ref>)
    ensures !AnyDead(nodes, l, 0)
  {
  }

  lemma AnyDeadNext(nodes: Nodes, l: seq<Ref>, k: nat)
    requires k < |l|
    ensures AnyDead(nodes, l, k + 1) <==> AnyDead(nodes, l, k) || (l[k] in nodes && nodes[l[k]].state == Zombie)
  {
  }

  /** Only states changed. */
  ghost predicate SameTree(nodes: Nodes, nodes': Nodes) {
    nodes'.Keys == nodes.Keys &&
    forall x :: x in nodes ==> nodes'[x] == nodes[x].(state := nodes'[x].state, wait := nodes'[x].wait)
  }

  lemma SameForest(nodes: Nodes, nodes': Nodes, kids: Kids, root: Ref, stale: Ptr)
    requires Forest(nodes, kids, root, stale) && SameTree(nodes, nodes')
    ensures Forest(nodes', kids, root, stale)
  {
    hide Family;
    hide Front;
    forall q | q in kids
      ensures Family(nodes', q, kids[q]) && (To(q) != stale ==> Front(nodes', kids[q]))
    {
      SameFamily(nodes, nodes', q, kids[q]);
    }
    forall x | x in nodes' && x != root
      ensures Placed(nodes', kids, x)
    {
      assert Placed(nodes, kids, x);
    }
  }

  lemma SameFamily(nodes: Nodes, nodes': Nodes, q: Ref, l: seq<Ref>)
    requires Family(nodes, q, l) && SameTree(nodes, nodes')
    ensures Family(nodes', q, l) && (Front(nodes, l) ==> Front(nodes', l))
  {
    forall i | 0 <= i < |l|
      ensures SameLink(nodes, nodes', l[i])
    {
      assert LinkedAt(nodes, q, l, i);
    }
    FamilySame(nodes, nodes', q, l);
  }

  lemma AddedStates(nodes: Nodes, kids: Kids, root: Ref, c: Ref, n: Node, p: Ref)
    requires Forest(nodes, kids, root, Null) && Childless(nodes, kids, Null) && NoneMissed(nodes, kids)
    requires c !in nodes && p in nodes && nodes[p].state != Zombie && n.state != Zombie && n.wait == NotWait
    ensures Childless(Added(nodes, c, n, p), AddedKids(kids, c, p), Null)
    ensures NoneMissed(Added(nodes, c, n, p), AddedKids(kids, c, p))
  {
    hide Added;
    hide Family;
    hide Front;
    hide Placed;
    AddedNodes(nodes, c, n, p, kids[p]);
  }

  lemma DeletedStates(nodes: Nodes, kids: Kids, root: Ref, p: Ref, i: nat)
    requires Forest(nodes, kids, root, Null) && Childless(nodes, kids, Null) && NoneMissed(nodes, kids)
    requires p in kids && i < |kids[p]| && kids[p][i] in kids && kids[kids[p][i]] == []
    requires kids[p][i] in nodes && nodes[kids[p][i]].state == Zombie
    ensures var c, kids' := kids[p][i], kids[p := Without(kids[p], i)] - {kids[p][i]};
      Childless(Deleted(nodes, c), kids', Null) && NoneMissed(Deleted(nodes, c), kids')
  {
    hide Deleted;
    hide Family;
    hide Front;
    hide Placed;
    InFamily(nodes, p, kids[p], i);
    DeletedNodes(nodes, p, kids[p], i);
    hide Forest;
    hide Distinct;
    var c, nodes', kids' := kids[p][i], Deleted(nodes, kids[p][i]), kids[p := Without(kids[p], i)] - {kids[p][i]};
    forall q | q in kids' && Waits(nodes', q)
      ensures kids'[q] != [] && forall x :: x in kids'[q] && x in nodes' ==> nodes'[x].state != Zombie
    {
      assert Waits(nodes, q) && q != p;
    }
  }

  /** One turn of the loop, with init woken for a zombie. */
  function AdoptedWoken(nodes: Nodes, t: Ref, init: Ref, c: Ref): Nodes
    requires init in nodes && c in nodes
  {
    var nodes' := Adopted(nodes, t, init, c);
    var wakes := c in nodes' && nodes'[c].state == Zombie && init in nodes' && nodes'[init].wait.ForChild?;
    if wakes then Woken(nodes', init) else nodes'
  }

  /** Adoption changes no state; init is woken when the child is a zombie that it waits for. */
  lemma AdoptedWakes(nodes: Nodes, t: Ref, l: seq<Ref>, init: Ref, m: seq<Ref>)
    requires Family(nodes, t, l) && l != [] && Family(nodes, init, m) && t != init && l[0] != t && l[0] != init
    ensures l[0] in nodes && SameTree(Adopted(nodes, t, init, l[0]), AdoptedWoken(nodes, t, init, l[0]))
    ensures var nodes' := AdoptedWoken(nodes, t, init, l[0]);
      nodes'.Keys == nodes.Keys &&
      (forall x :: x in nodes && x != init ==> nodes'[x].state == nodes[x].state && nodes'[x].wait == nodes[x].wait) &&
      (nodes[init].state != Zombie ==> nodes'[init].state != Zombie) &&
      Roused(nodes[init], nodes'[init], nodes[l[0]].state == Zombie) &&
      (Waits(nodes', init) ==> Waits(nodes, init) && nodes[l[0]].state != Zombie)
  {
    hide Adopted;
    AdoptedNodes(nodes, t, l, init, m);
  }

  lemma AdoptedStates(nodes: Nodes, kids: Kids, root: Ref, t: Ref, init: Ref)
    requires Forest(nodes, kids, root, To(t)) && Childless(nodes, kids, To(t)) && NoneMissed(nodes, kids)
    requires t in kids && init in kids && t != init && kids[t] != [] && kids[t][0] != t && kids[t][0] != init
    requires nodes[init].state != Zombie && nodes[t].state == Zombie
    ensures kids[t][0] in nodes
    ensures Childless(AdoptedWoken(nodes, t, init, kids[t][0]), AdoptedKids(kids, t, init), To(t))
    ensures NoneMissed(AdoptedWoken(nodes, t, init, kids[t][0]), AdoptedKids(kids, t, init))
    ensures SameTree(Adopted(nodes, t, init, kids[t][0]), AdoptedWoken(nodes, t, init, kids[t][0]))
  {
    hide Adopted;
    hide AdoptedWoken;
    hide SameTree;
    hide Family;
    hide Front;
    hide Placed;
    InFamily(nodes, t, kids[t], 0);
    AdoptedWakes(nodes, t, kids[t], init, kids[init]);
    var nodes', kids' := AdoptedWoken(nodes, t, init, kids[t][0]), AdoptedKids(kids, t, init);
    forall p | p in kids' && Waits(nodes', p)
      ensures kids'[p] != [] && forall c :: c in kids'[p] && c in nodes' ==> nodes'[c].state != Zombie
    {
      assert Waits(nodes, p) && p != t;
    }
  }

  /** The exiting task becomes a zombie, and its parent is woken if it waits for a child. */
  function Died(nodes: Nodes, t: Ref): Nodes
    requires t in nodes
  {
    var nodes' := nodes[t := nodes[t].(state := Zombie)];
    var p := nodes'[t].parent;
    if p.To? && p.t in nodes' && nodes'[p.t].wait.ForChild? then Woken(nodes', p.t) else nodes'
  }

  /** Task t is a child of its parent only. */
  lemma OneParent(nodes: Nodes, kids: Kids, root: Ref, t: Ref, p: Ref)
    requires Forest(nodes, kids, root, Null) && p in kids && t in kids[p]
    ensures t in nodes && nodes[t].parent == To(p)
  {
    hide Front;
    hide Family;
    var i :| 0 <= i < |kids[p]| && kids[p][i] == t;
    InFamily(nodes, p, kids[p], i);
  }

  lemma ParentAlive(nodes: Nodes, kids: Kids, root: Ref, t: Ref)
    requires Forest(nodes, kids, root, Null) && Childless(nodes, kids, Null) && t in nodes && t != root
    ensures nodes[t].parent.To? && nodes[t].parent.t in nodes && nodes[nodes[t].parent.t].state != Zombie
  {
    hide Front;
    hide Family;
    assert Placed(nodes, kids, t);
  }

  lemma DiedStates(nodes: Nodes, kids: Kids, root: Ref, t: Ref)
    requires Forest(nodes, kids, root, Null) && Childless(nodes, kids, Null) && NoneMissed(nodes, kids)
    requires t in nodes && t != root && nodes[t].state == Runnable
    ensures Childless(Died(nodes, t), kids, To(t)) && NoneMissed(Died(nodes, t), kids)
    ensures SameTree(nodes, Died(nodes, t))
  {
    hide Forest;
    ParentAlive(nodes, kids, root, t);
    var nodes' := Died(nodes, t);
    forall p, c | p in kids && c in kids[p] && c in nodes' && Waits(nodes', p)
      ensures nodes'[c].state != Zombie
    {
      OneParent(nodes, kids, root, c, p);
      assert Waits(nodes, p);
    }
  }

  class Tasks {
    const idle: Ref
    const init: Ref
    var nodes: Nodes
    // TaskList and TaskCount.
    var list: seq<Ref>
    var count: nat
    // The sibling lists, and a number for each task that grows downwards.
    ghost var kids: Kids
    ghost var rank: map<Ref, nat>

    ghost predicate Valid()
      reads this
    {
      Listed(nodes, list, count) && Rooted(nodes, rank, idle, init) &&
      Forest(nodes, kids, idle, Null) && Childless(nodes, kids, Null) && NoneMissed(nodes, kids) &&
      NoneLost(nodes, list)
    }

    /** initTask: the idle task and its child, the init task. */
    constructor (idle: Ref, init: Ref)
      requires init != idle
      ensures Valid() && this.idle == idle && this.init == init && nodes == Boot(idle, init)
      ensures kids == map[idle := [init], init := []] && idle in nodes && init in nodes
      ensures nodes[idle].tid == 0 && nodes[init].tid == 1 && nodes[init].parent == To(idle)
    {
      hide Forest;
      hide Rooted;
      hide Listed;
      hide Childless;
      hide NoneMissed;
      hide NoneLost;
      BootSound(idle, init);
      this.idle, this.init := idle, init;
      nodes := Boot(idle, init);
      list, count := [init, idle], 2;
      kids := map[idle := [init], init := []];
      rank := map[idle := 0, init := 1];
    }

    /** add_task, for a new child c of task p. */
    method AddTask(c: Ref, n: Node, p: Ref)
      requires Valid() && c !in nodes && p in nodes && nodes[p].state != Zombie
      requires n.cptr == Null && n.state != Zombie && n.wait == NotWait
      modifies this
      ensures Valid() && nodes == Added(old(nodes), c, n, p)
      ensures old(kids).Keys == old(nodes).Keys && kids == AddedKids(old(kids), c, p)
      ensures list == [c] + old(list) && count == old(count) + 1
    {
      hide Forest;
      hide Rooted;
      hide Listed;
      hide Childless;
      hide NoneMissed;
      hide NoneLost;
      hide Family;
      hide Front;
      ForestFamily(nodes, kids, idle, p);
      AddedForest(nodes, kids, idle, c, n, p);
      AddedStates(nodes, kids, idle, c, n, p);
      AddedRooted(nodes, rank, idle, init, c, n, p, kids[p]);
      AddedListed(nodes, list, count, c, n, p, kids[p]);
      NewInList(nodes, list, count, c);
      AddedLive(nodes, list, c, n, p, kids[p]);
      list := [c] + list;
      Link(c, n, p);
      count := count + 1;
      kids := AddedKids(kids, c, p);
      rank := rank[c := rank[p] + 1];
    }

    /** The pointer updates of add_task. */
    method Link(c: Ref, n: Node, p: Ref)
      requires c !in nodes && p in nodes
      modifies `nodes
      ensures nodes == Added(old(nodes), c, n, p)
    {
      var older := nodes[p].cptr;
      nodes := nodes[c := n.(parent := To(p), yptr := Null, optr := older)];
      if older != Null {
        nodes := SetYptr(nodes, older, To(c));
      }
      nodes := SetCptr(nodes, To(p), To(c));
    }

    /** del_task, for a zombie. */
    method DelTask(c: Ref)
      requires Valid() && c in nodes && nodes[c].state == Zombie && c != idle
      modifies this
      ensures Valid() && nodes == Deleted(old(nodes), c) && list == Dropped(old(list), c) && count == old(count) - 1
      ensures c in old(kids) && old(kids)[c] == []
      ensures exists i :: Removes(old(kids), kids, old(nodes[c].parent), c, i)
    {
      hide Forest;
      hide Rooted;
      hide Listed;
      hide Childless;
      hide NoneMissed;
      hide NoneLost;
      hide Family;
      hide Front;
      hide Deleted;
      hide Dropped;
      hide Without;
      ghost var p, i := DeadChild(nodes, kids, idle, c);
      DeletedForest(nodes, kids, idle, p, i);
      DeletedStates(nodes, kids, idle, p, i);
      DeletedRooted(nodes, rank, idle, init, kids, p, i);
      DeletedListed(nodes, list, count, p, kids[p], i);
      NewInList(nodes, list, count, c);
      DeletedLive(nodes, list, p, kids[p], i);
      list := Dropped(list, c);
      Unlink(c);
      count := count - 1;
      kids := kids[p := Without(kids[p], i)] - {c};
      rank := rank - {c};
      assert Removes(old(kids), kids, To(p), c, i);
    }

    /** The loop of do_exit: every child of task t moves to init, the youngest first. */
    method GiveChildren(t: Ref)
      requires t in nodes && t != idle && t != init && nodes[t].state == Zombie
      requires Listed(nodes, list, count) && Rooted(nodes, rank, idle, init)
      requires Forest(nodes, kids, idle, Null) && Childless(nodes, kids, To(t)) && NoneMissed(nodes, kids)
      requires NoneLost(nodes, list)
      modifies `nodes, `kids
      ensures Valid() && nodes.Keys == old(nodes.Keys)
      ensures t in old(kids) && init in old(kids) && kids == Given(old(kids), t, init, |old(kids)[t]|)
      ensures forall x :: x in nodes && x != init ==>
        nodes[x].state == old(nodes)[x].state && nodes[x].wait == old(nodes)[x].wait
      ensures init in nodes && init in old(nodes)
      ensures Roused(old(nodes)[init], nodes[init], AnyDead(old(nodes), old(kids)[t], |old(kids)[t]|))
    {
      hide Forest;
      hide Childless;
      hide NoneMissed;
      hide NoneLost;
      hide Rooted;
      hide Listed;
      hide Given;
      hide AnyDead;
      hide AdoptedKids;
      hide AdoptedWoken;
      ghost var kids0, nodes0, n := kids, nodes, 0;
      ForestKeys(nodes, kids, idle, Null);
      RootedInit(nodes, rank, idle, init);
      GivenNone(kids, t, init);
      NoneDead(nodes, kids[t]);
      StaleOnly(nodes, kids, idle, t);
      CptrIsFirst(nodes, kids, idle, To(t), t);
      while nodes[t].cptr != Null
        invariant nodes.Keys == nodes0.Keys && kids.Keys == kids0.Keys && n <= |kids0[t]| && nodes[t].state == Zombie
        invariant Listed(nodes, list, count) && Rooted(nodes, rank, idle, init)
        invariant Forest(nodes, kids, idle, To(t)) && Childless(nodes, kids, To(t)) && NoneMissed(nodes, kids)
        invariant NoneLost(nodes, list)
        invariant kids == Given(kids0, t, init, n) && nodes[t].cptr == At(kids[t], 0) && kids[t] == kids0[t][n..]
        invariant forall x :: x in nodes && x != init ==>
          nodes[x].state == nodes0[x].state && nodes[x].wait == nodes0[x].wait
        invariant init in nodes && Roused(nodes0[init], nodes[init], AnyDead(nodes0, kids0[t], n))
        decreases |kids0[t]| - n
      {
        var c := nodes[t].cptr.t;
        GivenNext(kids0, kids, t, init, n);
        AnyDeadNext(nodes0, kids0[t], n);
        Turn(nodes, list, count, kids, rank, idle, init, t);
        Adopt(t, c);
        kids := AdoptedKids(kids, t, init);
        n := n + 1;
      }
      NothingStale(nodes, kids, idle, t);
    }

    /** One turn of the loop. */
    method Adopt(t: Ref, c: Ref)
      requires init in nodes && c in nodes && t in nodes && nodes[t].cptr == To(c) && t != init && c != t && c != init
      modifies `nodes
      ensures nodes == AdoptedWoken(old(nodes), t, init, c)
    {
      nodes := SetCptr(nodes, To(t), nodes[c].optr);
      nodes := SetYptr(nodes, To(c), Null);
      var older := nodes[init].cptr;
      nodes := SetOptr(nodes, To(c), older);
      if older != Null {
        nodes := SetYptr(nodes, older, To(c));
      }
      nodes := nodes[c := nodes[c].(parent := To(init))];
      nodes := SetCptr(nodes, To(init), To(c));
      if nodes[c].state == Zombie {
        if nodes[init].wait.ForChild? {
          nodes := Woken(nodes, init);
        }
      }
    }

    /** do_exit for the current task t, other than idle and init: it becomes a zombie, its parent is woken if it waits
        for a child, and its children go to init. */
    method Exit(t: Ref)
      requires Valid() && t in nodes && t != idle && t != init && nodes[t].state == Runnable
      modifies `nodes, `kids
      ensures Valid() && nodes.Keys == old(nodes.Keys) && nodes[t].state == Zombie
      ensures t in old(kids) && init in old(kids) && kids == Given(old(kids), t, init, |old(kids)[t]|) && kids[t] == []
      ensures forall x :: x in nodes && x != t && x != init ==>
        Roused(old(nodes)[x], nodes[x], To(x) == old(nodes[t].parent))
      ensures init in nodes && init in old(nodes) && Roused(old(nodes)[init], nodes[init],
        To(init) == old(nodes[t].parent) || AnyDead(old(nodes), old(kids)[t], |old(kids)[t]|))
    {
      hide Forest;
      hide Childless;
      hide NoneMissed;
      hide NoneLost;
      hide Rooted;
      hide Listed;
      hide Given;
      hide AnyDead;
      hide SameTree;
      ghost var nodes0, kids0 := nodes, kids;
      ParentAlive(nodes, kids, idle, t);
      DiedStates(nodes, kids, idle, t);
      DiedKeeps(nodes, list, count, rank, idle, init, t);
      DiedLive(nodes, list, t);
      SameForest(nodes, Died(nodes, t), kids, idle, Null);
      ForestKeys(nodes, kids, idle, Null);
      DiedRouses(nodes, t);
      DeadAsBefore(nodes, kids, idle, t);
      nodes := nodes[t := nodes[t].(state := Zombie)];
      var p := nodes[t].parent.t;
      if nodes[p].wait.ForChild? {
        nodes := Woken(nodes, p);
      }
      GiveChildren(t);
      GivenAll(kids0, t, init);
    }

    /** find_task: the first task of the list with this tid. */
    method FindTask(tid: nat) returns (r: Ptr)
      requires Listed(nodes, list, count)
      ensures r == FirstTid(nodes, list, tid)
      ensures r == Null ==> forall x :: x in nodes ==> nodes[x].tid != tid
      ensures r.To? ==> exists i: nat :: FirstAt(nodes, list, tid, i) && r == To(list[i])
    {
      r := Null;
      FirstFound(nodes, list, tid);
      for i := 0 to |list|
        invariant r == Null && FirstTid(nodes, list, tid) == FirstTid(nodes, list[i..], tid)
      {
        assert list[i] in list && list[i..][1..] == list[i + 1..];
        if nodes[list[i]].tid == tid {
          return To(list[i]);
        }
      }
    }

    /** The scan of do_wait for any child: the youngest zombie child. */
    method ZombieChild(t: Ref) returns (has: bool, r: Ptr)
      requires Valid() && t in nodes
      ensures t in kids && (has <==> kids[t] != []) && r == FirstZombie(nodes, kids[t])
      ensures r.To? ==> r.t in nodes && nodes[r.t].state == Zombie && r.t in kids[t]
      ensures r == Null ==> forall c :: c in kids[t] && c in nodes ==> nodes[c].state != Zombie
    {
      hide Childless;
      hide NoneMissed;
      hide NoneLost;
      hide Rooted;
      hide Listed;
      ForestFamily(nodes, kids, idle, t);
      hide Forest;
      ghost var l, i := kids[t], 0;
      has, r := false, nodes[t].cptr;
      while r != Null
        invariant i <= |l| && r == At(l, i) && has == (i > 0) && (has ==> l != [])
        invariant forall j :: 0 <= j < i ==> l[j] in nodes && nodes[l[j]].state != Zombie
        invariant FirstZombie(nodes, l) == FirstZombie(nodes, l[i..])
        decreases |l| - i
      {
        assert LinkedAt(nodes, t, l, i) && l[i..][1..] == l[i + 1..];
        has := true;
        if nodes[r.t].state == Zombie {
          break;
        }
        r := nodes[r.t].optr;
        i := i + 1;
      }
    }

    /** One pass of do_wait by the current task t: reap a zombie child, or sleep if there are children, or fail. */
    method WaitOnce(t: Ref, pid: nat) returns (r: WaitResult)
      requires Valid() && t in nodes && nodes[t].state == Runnable
      modifies this
      ensures Valid()
      ensures t in old(kids) && r == WaitOutcome(old(nodes), old(list), old(kids)[t], t, pid)
      ensures r.Reaped? ==> r.child in old(nodes) && old(nodes)[r.child].state == Zombie
      ensures r.Reaped? ==> old(nodes)[r.child].parent == To(t)
      ensures r.Reaped? ==> r.child in old(kids) && old(kids)[r.child] == [] && nodes == Deleted(old(nodes), r.child)
      ensures r == Slept ==> nodes == old(nodes)[t := old(nodes[t]).(state := Sleeping, wait := ForChild(pid))]
      ensures r == Slept ==> kids == old(kids)
      ensures r == NoChild ==> nodes == old(nodes) && kids == old(kids)
      ensures Answers(old(nodes), old(list), old(kids)[t], t, pid, r)
    {
      hide Answers;
      hide Forest;
      hide Childless;
      hide NoneMissed;
      hide NoneLost;
      hide Rooted;
      hide Listed;
      hide Deleted;
      ForestKeys(nodes, kids, idle, Null);
      OutcomeAnswers(nodes, list, kids[t], t, pid);
      var has, found := false, Null;
      if pid != 0 {
        var c := FindTask(pid);
        if c.To? && nodes[c.t].parent == To(t) {
          has := true;
          if nodes[c.t].state == Zombie {
            found := c;
          }
        }
      } else {
        has, found := ZombieChild(t);
        if found.To? {
          OneParent(nodes, kids, idle, found.t, t);
        }
      }
      if found.To? {
        IdleHasNoParent(nodes, kids, idle, found.t);
        DelTask(found.t);
        r := Reaped(found.t);
      } else if has {
        SleepKeeps(nodes, list, count, kids, rank, idle, init, t, pid);
        LiveFound(nodes, list, t, pid);
        SleepLive(nodes, list, t, pid);
        nodes := nodes[t := nodes[t].(state := Sleeping, wait := ForChild(pid))];
        r := Slept;
      } else {
        r := NoChild;
      }
    }

    /** No wake-up is lost: whoever sleeps in do_wait has a living child to wait for, and would find none to reap. */
    lemma NoLostWakeup(p: Ref, n: nat)
      requires Valid() && p in nodes && nodes[p].state == Sleeping && nodes[p].wait == ForChild(n)
      ensures p in kids && !WaitOutcome(nodes, list, kids[p], p, n).Reaped?
      ensures n == 0 ==> WaitOutcome(nodes, list, kids[p], p, n) == Slept
      ensures n != 0 ==> exists c :: c in list && Numbered(nodes, c, p, n) && nodes[c].state != Zombie
    {
      hide Forest;
      hide Childless;
      hide Rooted;
      hide Listed;
      ForestKeys(nodes, kids, idle, Null);
      if n == 0 {
        assert Waits(nodes, p);
        NoZombieFirst(nodes, kids[p]);
      } else {
        LiveFound(nodes, list, p, n);
        var c := LiveChild(nodes, list, p, n);
      }
    }

    /** The pointer updates of del_task. */
    method Unlink(c: Ref)
      requires c in nodes
      modifies `nodes
      ensures nodes == Deleted(old(nodes), c)
    {
      var n := nodes[c];
      if n.optr != Null {
        nodes := SetYptr(nodes, n.optr, n.yptr);
      }
      if n.yptr != Null {
        nodes := SetOptr(nodes, n.yptr, n.optr);
      } else {
        nodes := SetCptr(nodes, n.parent, n.optr);
      }
      nodes := nodes - {c};
    }
  }

  lemma ForestFamily(nodes: Nodes, kids: Kids, root: Ref, p: Ref)
    requires Forest(nodes, kids, root, Null) && (p in nodes || p in kids)
    ensures p in nodes && kids.Keys == nodes.Keys && Family(nodes, p, kids[p]) && Front(nodes, kids[p])
  {
  }

  ghost predicate Listed(nodes: Nodes, list: seq<Ref>, count: nat) {
    Distinct(list) && count == |list| && forall t :: t in list <==> t in nodes
  }

  lemma NewInList(nodes: Nodes, list: seq<Ref>, count: nat, c: Ref)
    requires Listed(nodes, list, count)
    ensures Distinct(list) && (c in list <==> c in nodes)
  {
  }

  /** TaskCount is the number of tasks. */
  lemma CountIsTasks(nodes: Nodes, list: seq<Ref>, count: nat)
    requires Listed(nodes, list, count)
    ensures |nodes| == count
  {
    ListSize(list);
    assert nodes.Keys == Members(list);
  }

  ghost function Members(l: seq<Ref>): set<Ref> {
    set x | x in l
  }

  lemma {:induction false} ListSize(l: seq<Ref>)
    requires Distinct(l)
    ensures |Members(l)| == |l|
  {
    if l == [] {
      assert Members(l) == {};
    } else {
      assert l == [l[0]] + l[1..];
      assert l[0] !in l[1..];
      ListSize(l[1..]);
      assert Members(l) == {l[0]} + Members(l[1..]);
    }
  }

  /** Every way up leads to idle; init is its child and alive. */
  ghost predicate Rooted(nodes: Nodes, rank: map<Ref, nat>, idle: Ref, init: Ref) {
    Ranked(nodes, rank, idle) && idle in nodes && nodes[idle].parent == Null && init in nodes && init != idle &&
    nodes[init].parent == To(idle) && rank[init] == 1 && nodes[init].state != Zombie
  }

  /** The list of parent p lost its element i, which is c; c is no parent any more. */
  ghost predicate Removes(kids: Kids, kids': Kids, p: Ptr, c: Ref, i: nat) {
    p.To? && p.t in kids && i < |kids[p.t]| && kids[p.t][i] == c && kids' == kids[p.t := Without(kids[p.t], i)] - {c}
  }

  function Boot(idle: Ref, init: Ref): Nodes {
    map[idle := Node(0, Null, To(init), Null, Null, Runnable, NotWait),
        init := Node(1, To(idle), Null, Null, Null, Runnable, NotWait)]
  }

  lemma BootForest(idle: Ref, init: Ref)
    requires init != idle
    ensures Forest(Boot(idle, init), map[idle := [init], init := []], idle, Null)
  {
    var nodes, kids: Kids := Boot(idle, init), map[idle := [init], init := []];
    assert LinkedAt(nodes, idle, [init], 0);
    assert Family(nodes, idle, kids[idle]) && Family(nodes, init, kids[init]);
    assert Placed(nodes, kids, init);
  }

  lemma BootSound(idle: Ref, init: Ref)
    requires init != idle
    ensures var nodes, kids: Kids := Boot(idle, init), map[idle := [init], init := []];
      Forest(nodes, kids, idle, Null) && Childless(nodes, kids, Null) && NoneMissed(nodes, kids) &&
      Listed(nodes, [init, idle], 2) && Rooted(nodes, map[idle := 0, init := 1], idle, init) &&
      NoneLost(nodes, [init, idle])
  {
    hide Forest;
    BootForest(idle, init);
  }

  lemma AddedRooted(nodes: Nodes, rank: map<Ref, nat>, idle: Ref, init: Ref, c: Ref, n: Node, p: Ref, l: seq<Ref>)
    requires Rooted(nodes, rank, idle, init) && c !in nodes && Family(nodes, p, l)
    ensures p in rank && Rooted(Added(nodes, c, n, p), rank[c := rank[p] + 1], idle, init)
  {
    hide Added;
    AddedNodes(nodes, c, n, p, l);
  }

  lemma AddedListed(nodes: Nodes, list: seq<Ref>, count: nat, c: Ref, n: Node, p: Ref, l: seq<Ref>)
    requires Listed(nodes, list, count) && c !in nodes && Family(nodes, p, l)
    ensures Listed(Added(nodes, c, n, p), [c] + list, count + 1)
  {
    hide Added;
    AddedNodes(nodes, c, n, p, l);
    assert c !in list;
    DistinctCons(c, list);
  }

  lemma DistinctCons(c: Ref, l: seq<Ref>)
    requires Distinct(l) && c !in l
    ensures Distinct([c] + l)
  {
  }

  lemma NotParent(nodes: Nodes, kids: Kids, root: Ref, c: Ref, x: Ref)
    requires Forest(nodes, kids, root, Null) && c in kids && kids[c] == [] && x in nodes && x != root
    ensures nodes[x].parent != To(c)
  {
    hide Family;
    hide Front;
    assert Placed(nodes, kids, x);
  }

  lemma RankedDrop(nodes: Nodes, nodes': Nodes, rank: map<Ref, nat>, idle: Ref, init: Ref, c: Ref)
    requires Rooted(nodes, rank, idle, init) && c != idle && c != init && c in nodes && nodes'.Keys == nodes.Keys - {c}
    requires forall x :: x in nodes' ==> nodes'[x].parent == nodes[x].parent && nodes'[x].state == nodes[x].state
    requires forall x :: x in nodes && x != idle ==> nodes[x].parent != To(c)
    ensures Rooted(nodes', rank - {c}, idle, init)
  {
  }

  lemma DeletedRooted(nodes: Nodes, rank: map<Ref, nat>, idle: Ref, init: Ref, kids: Kids, p: Ref, i: nat)
    requires Rooted(nodes, rank, idle, init) && Forest(nodes, kids, idle, Null) && p in kids && i < |kids[p]|
    requires kids[p][i] in kids && kids[kids[p][i]] == []
    requires kids[p][i] in nodes && nodes[kids[p][i]].state == Zombie && kids[p][i] != idle && kids[p][i] != p
    ensures Rooted(Deleted(nodes, kids[p][i]), rank - {kids[p][i]}, idle, init)
  {
    hide Deleted;
    hide Family;
    hide Front;
    hide Forest;
    ForestFamily(nodes, kids, idle, p);
    DeletedNodes(nodes, p, kids[p], i);
    forall x | x in nodes && x != idle
      ensures nodes[x].parent != To(kids[p][i])
    {
      NotParent(nodes, kids, idle, kids[p][i], x);
    }
    hide Ranked;
    RankedDrop(nodes, Deleted(nodes, kids[p][i]), rank, idle, init, kids[p][i]);
  }

  lemma DeletedListed(nodes: Nodes, list: seq<Ref>, count: nat, p: Ref, l: seq<Ref>, i: nat)
    requires Listed(nodes, list, count) && Family(nodes, p, l) && Front(nodes, l) && i < |l| && l[i] != p
    requires l[i] in nodes
    ensures count > 0 && Listed(Deleted(nodes, l[i]), Dropped(list, l[i]), count - 1)
  {
    hide Deleted;
    DeletedNodes(nodes, p, l, i);
    DroppedOne(list, l[i]);
  }

  /** Where a zombie stands among its siblings; it has no children. */
  lemma DeadChild(nodes: Nodes, kids: Kids, root: Ref, c: Ref) returns (p: Ref, i: nat)
    requires Forest(nodes, kids, root, Null) && Childless(nodes, kids, Null) && c in nodes && c != root
    requires nodes[c].state == Zombie
    ensures p in kids && i < |kids[p]| && kids[p][i] == c && nodes[c].parent == To(p) && c in kids && kids[c] == []
    ensures c != p
    ensures Family(nodes, p, kids[p]) && Front(nodes, kids[p])
  {
    hide Family;
    hide Front;
    assert Placed(nodes, kids, c);
    p := nodes[c].parent.t;
    i :| 0 <= i < |kids[p]| && kids[p][i] == c;
  }

  datatype WaitResult = Reaped(child: Ref) | Slept | NoChild

  /** What a pass of do_wait comes to, from the children of t, youngest first, and the task list. */
  ghost function WaitOutcome(nodes: Nodes, list: seq<Ref>, l: seq<Ref>, t: Ref, pid: nat): WaitResult {
    if pid == 0 then
      match FirstZombie(nodes, l)
      case To(c) => Reaped(c)
      case Null => if l == [] then NoChild else Slept
    else
      match FirstTid(nodes, list, pid)
      case Null => NoChild
      case To(c) =>
        if !(c in nodes && nodes[c].parent == To(t)) then NoChild
        else if nodes[c].state == Zombie then Reaped(c)
        else Slept
  }

  function FirstZombie(nodes: Nodes, l: seq<Ref>): Ptr {
    if l == [] then Null
    else if l[0] in nodes && nodes[l[0]].state == Zombie then To(l[0])
    else FirstZombie(nodes, l[1..])
  }

  lemma {:induction false} NoZombieFirst(nodes: Nodes, l: seq<Ref>)
    requires forall c :: c in l && c in nodes ==> nodes[c].state != Zombie
    ensures FirstZombie(nodes, l) == Null
  {
    if l != [] {
      NoZombieFirst(nodes, l[1..]);
    }
  }

  function FirstTid(nodes: Nodes, l: seq<Ref>, tid: nat): Ptr {
    if l == [] then Null else if l[0] in nodes && nodes[l[0]].tid == tid then To(l[0]) else FirstTid(nodes, l[1..], tid)
  }

  /** The i-th task is the first one in the list with the number. */
  ghost predicate FirstAt(nodes: Nodes, l: seq<Ref>, tid: nat, i: nat) {
    i < |l| && l[i] in nodes && nodes[l[i]].tid == tid &&
    forall j :: 0 <= j < i ==> !(l[j] in nodes && nodes[l[j]].tid == tid)
  }

  /** The i-th child is the youngest zombie. */
  ghost predicate FirstDead(nodes: Nodes, l: seq<Ref>, i: nat) {
    i < |l| && l[i] in nodes && nodes[l[i]].state == Zombie &&
    forall j :: 0 <= j < i ==> !(l[j] in nodes && nodes[l[j]].state == Zombie)
  }

  /** There are children, and all live. */
  ghost predicate Living(nodes: Nodes, l: seq<Ref>) {
    l != [] && forall i :: 0 <= i < |l| ==> l[i] in nodes ==> nodes[l[i]].state != Zombie
  }

  /** find_task answers with the first task of the list with the number, if and only if there is one. */
  lemma {:induction false} FirstFound(nodes: Nodes, l: seq<Ref>, tid: nat)
    ensures var r := FirstTid(nodes, l, tid);
      if r == Null then forall i :: 0 <= i < |l| && l[i] in nodes ==> nodes[l[i]].tid != tid
      else exists i: nat :: FirstAt(nodes, l, tid, i) && r == To(l[i])
  {
    if l != [] {
      if l[0] in nodes && nodes[l[0]].tid == tid {
        assert FirstAt(nodes, l, tid, 0);
      } else {
        FirstFound(nodes, l[1..], tid);
        if FirstTid(nodes, l[1..], tid) != Null {
          var i: nat :| FirstAt(nodes, l[1..], tid, i) && FirstTid(nodes, l[1..], tid) == To(l[1..][i]);
          assert forall j :: 0 <= j < i + 1 ==> !(l[j] in nodes && nodes[l[j]].tid == tid) by {
            assert forall j :: 1 <= j < i + 1 ==> l[j] == l[1..][j - 1];
          }
          assert FirstAt(nodes, l, tid, i + 1);
        }
      }
    }
  }

  lemma {:induction false} FirstDeadFound(nodes: Nodes, l: seq<Ref>)
    ensures var r := FirstZombie(nodes, l);
      if r == Null then forall i :: 0 <= i < |l| ==> l[i] in nodes ==> nodes[l[i]].state != Zombie
      else exists i: nat :: FirstDead(nodes, l, i) && r == To(l[i])
  {
    if l != [] {
      if l[0] in nodes && nodes[l[0]].state == Zombie {
        assert FirstDead(nodes, l, 0);
      } else {
        FirstDeadFound(nodes, l[1..]);
        if FirstZombie(nodes, l[1..]) != Null {
          var i: nat :| FirstDead(nodes, l[1..], i) && FirstZombie(nodes, l[1..]) == To(l[1..][i]);
          assert forall j :: 0 <= j < i + 1 ==> !(l[j] in nodes && nodes[l[j]].state == Zombie) by {
            assert forall j :: 1 <= j < i + 1 ==> l[j] == l[1..][j - 1];
          }
          assert FirstDead(nodes, l, i + 1);
        }
      }
    }
  }

  /** What do_wait has to answer for the children l of t. For a given number, the first task with it decides, by its
      parent and its state, and without one there is no such child. For any child: no children, living ones only, or
      else the youngest zombie. */
  ghost predicate Answers(nodes: Nodes, list: seq<Ref>, l: seq<Ref>, t: Ref, pid: nat, r: WaitResult) {
    if pid != 0 then
      ((forall i: nat :: !FirstAt(nodes, list, pid, i)) ==> r == NoChild) &&
      forall i: nat :: FirstAt(nodes, list, pid, i) ==>
        r == if nodes[list[i]].parent != To(t) then NoChild
             else if nodes[list[i]].state == Zombie then Reaped(list[i])
             else Slept
    else
      (r == NoChild <==> l == []) && (r == Slept <==> Living(nodes, l)) &&
      forall i: nat :: FirstDead(nodes, l, i) ==> r == Reaped(l[i])
  }

  lemma OutcomeAnswers(nodes: Nodes, list: seq<Ref>, l: seq<Ref>, t: Ref, pid: nat)
    ensures Answers(nodes, list, l, t, pid, WaitOutcome(nodes, list, l, t, pid))
  {
    FirstFound(nodes, list, pid);
    FirstDeadFound(nodes, l);
    forall i: nat, j: nat | FirstAt(nodes, list, pid, i) && FirstAt(nodes, list, pid, j)
      ensures i == j
    {
    }
    forall i: nat, j: nat | FirstDead(nodes, l, i) && FirstDead(nodes, l, j)
      ensures i == j
    {
    }
  }

  function Reversed(l: seq<Ref>): seq<Ref> {
    if l == [] then [] else Reversed(l[1..]) + [l[0]]
  }

  /** The sibling lists after n children of t moved to init. */
  ghost function Given(kids: Kids, t: Ref, init: Ref, n: nat): Kids
    requires t in kids && init in kids && n <= |kids[t]|
  {
    kids[t := kids[t][n..]][init := Reversed(kids[t][..n]) + kids[init]]
  }

  lemma {:induction false} ReversedLast(l: seq<Ref>, x: Ref)
    ensures Reversed(l + [x]) == [x] + Reversed(l)
  {
    if l == [] {
      assert (l + [x])[1..] == [];
    } else {
      assert (l + [x])[1..] == l[1..] + [x];
      ReversedLast(l[1..], x);
    }
  }

  lemma GivenNone(kids: Kids, t: Ref, init: Ref)
    requires t in kids && init in kids && t != init
    ensures Given(kids, t, init, 0) == kids
  {
    assert kids[t][..0] == [] && kids[t][0..] == kids[t];
    assert Reversed([]) + kids[init] == kids[init];
    assert kids[t := kids[t]][init := kids[init]] == kids;
  }

  lemma GivenNext(kids0: Kids, kids: Kids, t: Ref, init: Ref, n: nat)
    requires t in kids0 && init in kids0 && n < |kids0[t]| && t != init && kids == Given(kids0, t, init, n)
    ensures kids[t] == kids0[t][n..] && AdoptedKids(kids, t, init) == Given(kids0, t, init, n + 1)
    ensures AdoptedKids(kids, t, init)[t] == kids0[t][n + 1..]
  {
    var l := kids0[t];
    assert l[n..][1..] == l[n + 1..];
    assert l[..n + 1] == l[..n] + [l[n]];
    ReversedLast(l[..n], l[n]);
    assert [l[n]] + (Reversed(l[..n]) + kids0[init]) == ([l[n]] + Reversed(l[..n])) + kids0[init];
  }

  lemma GivenAll(kids: Kids, t: Ref, init: Ref)
    requires t in kids && init in kids && t != init
    ensures Given(kids, t, init, |kids[t]|)[t] == []
  {
  }

  lemma ForestKeys(nodes: Nodes, kids: Kids, root: Ref, stale: Ptr)
    requires Forest(nodes, kids, root, stale)
    ensures kids.Keys == nodes.Keys
  {
  }

  lemma RootedInit(nodes: Nodes, rank: map<Ref, nat>, idle: Ref, init: Ref)
    requires Rooted(nodes, rank, idle, init)
    ensures init in nodes && nodes[init].state != Zombie
  {
  }

  lemma StaleOnly(nodes: Nodes, kids: Kids, root: Ref, t: Ref)
    requires Forest(nodes, kids, root, Null)
    ensures Forest(nodes, kids, root, To(t))
  {
  }

  lemma NothingStale(nodes: Nodes, kids: Kids, root: Ref, t: Ref)
    requires Forest(nodes, kids, root, To(t)) && Childless(nodes, kids, To(t)) && t in kids && nodes[t].cptr == Null
    ensures kids[t] == [] && Forest(nodes, kids, root, Null) && Childless(nodes, kids, Null)
  {
    assert Family(nodes, t, kids[t]);
  }

  lemma CptrIsFirst(nodes: Nodes, kids: Kids, root: Ref, stale: Ptr, t: Ref)
    requires Forest(nodes, kids, root, stale) && t in nodes
    ensures t in kids && nodes[t].cptr == At(kids[t], 0)
  {
    assert Family(nodes, t, kids[t]);
  }

  lemma ForestFamilies(nodes: Nodes, kids: Kids, root: Ref, stale: Ptr, t: Ref, init: Ref)
    requires Forest(nodes, kids, root, stale) && t in nodes && init in nodes
    ensures t in kids && init in kids && Family(nodes, t, kids[t]) && Family(nodes, init, kids[init])
  {
  }

  /** A child of t is neither t nor init. */
  lemma YoungerRank(nodes: Nodes, kids: Kids, rank: map<Ref, nat>, idle: Ref, init: Ref, t: Ref)
    requires Rooted(nodes, rank, idle, init) && t in kids && Family(nodes, t, kids[t]) && kids[t] != [] && t != idle
    ensures kids[t][0] != t && kids[t][0] != init && kids[t][0] in nodes && kids[t][0] != idle
    ensures kids[t][0] in rank && rank[kids[t][0]] > 1 && nodes[init].state != Zombie && init in nodes
  {
    hide Front;
    InFamily(nodes, t, kids[t], 0);
  }

  lemma AdoptedRooted(nodes: Nodes, kids: Kids, rank: map<Ref, nat>, idle: Ref, init: Ref, t: Ref)
    requires Rooted(nodes, rank, idle, init) && t in kids && init in kids && Family(nodes, t, kids[t])
    requires Family(nodes, init, kids[init])
    requires t != init && t != idle && kids[t] != []
    ensures kids[t][0] in nodes && init in nodes && Rooted(AdoptedWoken(nodes, t, init, kids[t][0]), rank, idle, init)
  {
    hide Adopted;
    hide Family;
    YoungerRank(nodes, kids, rank, idle, init, t);
    AdoptedNodes(nodes, t, kids[t], init, kids[init]);
  }

  /** A turn of the loop keeps everything but the yptr of the next child. */
  lemma Turn(nodes: Nodes, list: seq<Ref>, count: nat, kids: Kids, rank: map<Ref, nat>, idle: Ref, init: Ref, t: Ref)
    requires Listed(nodes, list, count) && Rooted(nodes, rank, idle, init) && t in nodes && t != idle && t != init
    requires Forest(nodes, kids, idle, To(t)) && Childless(nodes, kids, To(t)) && NoneMissed(nodes, kids) && t in kids
    requires kids[t] != [] && nodes[t].state == Zombie && NoneLost(nodes, list)
    ensures init in nodes && init in kids && kids[t][0] in nodes && kids[t][0] != t && kids[t][0] != init
    ensures var nodes', kids' := AdoptedWoken(nodes, t, init, kids[t][0]), AdoptedKids(kids, t, init);
      Listed(nodes', list, count) && Rooted(nodes', rank, idle, init) && Forest(nodes', kids', idle, To(t)) &&
      Childless(nodes', kids', To(t)) && NoneMissed(nodes', kids') && NoneLost(nodes', list) &&
      nodes'.Keys == nodes.Keys &&
      kids'.Keys == kids.Keys &&
      nodes'[t].cptr == At(kids'[t], 0) && Roused(nodes[init], nodes'[init], nodes[kids[t][0]].state == Zombie) &&
      forall x :: x in nodes && x != init ==> nodes'[x].state == nodes[x].state && nodes'[x].wait == nodes[x].wait
  {
    hide Forest;
    hide Childless;
    hide NoneMissed;
    hide NoneLost;
    hide Rooted;
    hide Listed;
    hide AdoptedWoken;
    hide Adopted;
    hide Family;
    hide SameTree;
    RootedInit(nodes, rank, idle, init);
    ForestFamilies(nodes, kids, idle, To(t), t, init);
    YoungerRank(nodes, kids, rank, idle, init, t);
    AdoptedForest(nodes, kids, idle, t, init);
    AdoptedStates(nodes, kids, idle, t, init);
    AdoptedWakes(nodes, t, kids[t], init, kids[init]);
    AdoptedLive(nodes, list, t, kids[t], init, kids[init]);
    var c := kids[t][0];
    SameForest(Adopted(nodes, t, init, c), AdoptedWoken(nodes, t, init, c), AdoptedKids(kids, t, init), idle, To(t));
    AdoptedRooted(nodes, kids, rank, idle, init, t);
    AdoptedListed(nodes, list, count, AdoptedWoken(nodes, t, init, c));
    CptrIsFirst(AdoptedWoken(nodes, t, init, c), AdoptedKids(kids, t, init), idle, To(t), t);
  }

  lemma AdoptedListed(nodes: Nodes, list: seq<Ref>, count: nat, nodes': Nodes)
    requires Listed(nodes, list, count) && nodes'.Keys == nodes.Keys
    ensures Listed(nodes', list, count)
  {
  }

  /** Dying changes states only, and no other task's to zombie. */
  lemma DiedNodes(nodes: Nodes, t: Ref)
    requires t in nodes && nodes[t].parent != To(t)
    ensures var nodes' := Died(nodes, t);
      nodes'.Keys == nodes.Keys && (forall x :: x in nodes ==> nodes'[x].parent == nodes[x].parent) &&
      nodes'[t].state == Zombie &&
      (forall x :: x in nodes && x != t && nodes[x].state != Zombie ==> nodes'[x].state != Zombie)
  {
  }

  /** The parent is called awake, and no other task. */
  lemma DiedRouses(nodes: Nodes, t: Ref)
    requires t in nodes && nodes[t].parent.To? && nodes[t].parent != To(t)
    ensures var nodes' := Died(nodes, t);
      nodes'.Keys == nodes.Keys && forall x :: x in nodes && x != t ==>
        Roused(nodes[x], nodes'[x], To(x) == nodes[t].parent)
  {
  }

  lemma DeadAsBefore(nodes: Nodes, kids: Kids, root: Ref, t: Ref)
    requires Forest(nodes, kids, root, Null) && t in nodes && t in kids && nodes[t].parent != To(t)
    requires nodes[t].parent.To? && nodes[t].parent.t in nodes && nodes[nodes[t].parent.t].state != Zombie
    ensures AnyDead(Died(nodes, t), kids[t], |kids[t]|) <==> AnyDead(nodes, kids[t], |kids[t]|)
  {
    hide Forest;
    hide Died;
    DiedNodes(nodes, t);
    DiedRouses(nodes, t);
    forall c | c in kids[t]
      ensures c in nodes && (Died(nodes, t)[c].state == Zombie <==> nodes[c].state == Zombie)
    {
      OneParent(nodes, kids, root, c, t);
    }
  }

  lemma SameRooted(nodes: Nodes, nodes': Nodes, rank: map<Ref, nat>, idle: Ref, init: Ref)
    requires Rooted(nodes, rank, idle, init) && nodes'.Keys == nodes.Keys && nodes'[init].state != Zombie
    requires forall x :: x in nodes ==> nodes'[x].parent == nodes[x].parent
    ensures Rooted(nodes', rank, idle, init)
  {
  }

  lemma DiedKeeps(nodes: Nodes, list: seq<Ref>, count: nat, rank: map<Ref, nat>, idle: Ref, init: Ref, t: Ref)
    requires Listed(nodes, list, count) && Rooted(nodes, rank, idle, init) && t in nodes && t != init && t != idle
    ensures Listed(Died(nodes, t), list, count) && Rooted(Died(nodes, t), rank, idle, init)
    ensures nodes[t].parent != To(t) && init in nodes && Died(nodes, t).Keys == nodes.Keys
    ensures Died(nodes, t)[t].state == Zombie
  {
    hide Died;
    hide Listed;
    assert nodes[t].parent != To(t);
    DiedNodes(nodes, t);
    AdoptedListed(nodes, list, count, Died(nodes, t));
    SameRooted(nodes, Died(nodes, t), rank, idle, init);
  }

  lemma IdleHasNoParent(nodes: Nodes, kids: Kids, root: Ref, c: Ref)
    requires Forest(nodes, kids, root, Null) && c in nodes && nodes[c].parent.To?
    ensures c != root
  {
  }

  /** Going to sleep in do_wait after no zombie was found. */
  lemma SleepKeeps(nodes: Nodes, list: seq<Ref>, count: nat, kids: Kids, rank: map<Ref, nat>, idle: Ref, init: Ref,
                   t: Ref, pid: nat)
    requires Listed(nodes, list, count) && Rooted(nodes, rank, idle, init) && Forest(nodes, kids, idle, Null)
    requires Childless(nodes, kids, Null) && NoneMissed(nodes, kids) && t in nodes && t in kids
    requires nodes[t].state == Runnable
    requires pid == 0 ==> kids[t] != [] && forall c :: c in kids[t] && c in nodes ==> nodes[c].state != Zombie
    ensures var nodes' := nodes[t := nodes[t].(state := Sleeping, wait := ForChild(pid))];
      Listed(nodes', list, count) && Rooted(nodes', rank, idle, init) && Forest(nodes', kids, idle, Null) &&
      Childless(nodes', kids, Null) && NoneMissed(nodes', kids)
  {
    hide Forest;
    var nodes' := nodes[t := nodes[t].(state := Sleeping, wait := ForChild(pid))];
    SameForest(nodes, nodes', kids, idle, Null);
    forall p | p in kids && Waits(nodes', p)
      ensures kids[p] != [] && forall c :: c in kids[p] && c in nodes' ==> nodes'[c].state != Zombie
    {
      assert p != t ==> Waits(nodes, p);
    }
  }
}
