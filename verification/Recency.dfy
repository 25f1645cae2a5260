/** What "most recently used" means for a history of accesses, independently of any cache. */
module Recency {
  import opened Sequences
  import opened Sectors

  function Without<T(==,!new)>(s: seq<T>, k: T): (r: seq<T>)
    ensures k !in r
    ensures forall x :: x in r <==> x in s && x != k
    ensures |r| <= |s| && (k in s ==> |r| < |s|)
  {
    if s == [] then []
    else (if s[0] == k then [] else [s[0]]) + Without(s[1..], k)
  }

  /** The distinct keys of a history, most recently used first. */
  function MostRecent(history: seq<Key>): (r: seq<Key>)
    ensures forall x :: x in r <==> x in history
  {
    if history == [] then []
    else
      var n := |history| - 1;
      assert history == history[..n] + [history[n]];
      [history[n]] + Without(MostRecent(history[..n]), history[n])
  }

  /** Position of the last access to k. */
  function LastUse(history: seq<Key>, k: Key): (i: nat)
    requires k in history
    ensures i < |history| && history[i] == k
    ensures forall j :: i < j < |history| ==> history[j] != k
  {
    var n := |history| - 1;
    if history[n] == k then n
    else
      assert history == history[..n] + [history[n]];
      LastUse(history[..n], k)
  }

  lemma WithoutAbsent<T(!new)>(s: seq<T>, k: T)
    requires k !in s
    ensures Without(s, k) == s
  {
  }

  lemma {:induction false} WithoutAt<T(!new)>(s: seq<T>, p: nat)
    requires Distinct(s) && p < |s|
    ensures Without(s, s[p]) == s[..p] + s[p + 1..]
    ensures Distinct(Without(s, s[p]))
  {
    if p == 0 {
      WithoutAbsent(s[1..], s[0]);
    } else {
      assert s[1..][p - 1] == s[p];
      WithoutAt(s[1..], p - 1);
      assert s[..p] + s[p + 1..] == [s[0]] + (s[1..][..p - 1] + s[1..][p..]);
    }
  }

  lemma WithoutDistinct<T(!new)>(s: seq<T>, k: T)
    requires Distinct(s)
    ensures Distinct(Without(s, k))
  {
    if k in s {
      var p :| 0 <= p < |s| && s[p] == k;
      WithoutAt(s, p);
    } else {
      WithoutAbsent(s, k);
    }
  }

  /** A sequence naming 0..n has at least n elements. */
  lemma {:induction false} CoversAtLeast(s: seq<int>, n: nat)
    requires forall i :: 0 <= i < n ==> i in s
    ensures n <= |s|
    decreases n
  {
    if n > 0 {
      CoversAtLeast(Without(s, n - 1), n - 1);
    }
  }

  /** Distinct numbers below n are at most n many. */
  lemma {:induction false} DistinctAtMost(s: seq<int>, n: nat)
    requires Distinct(s) && forall p :: 0 <= p < |s| ==> 0 <= s[p] < n
    ensures |s| <= n
    decreases n
  {
    assert s == [] || 0 <= s[0] < n;
    if s == [] {
    } else if n - 1 in s {
      var p :| 0 <= p < |s| && s[p] == n - 1;
      WithoutAt(s, p);
      DistinctAtMost(Without(s, n - 1), n - 1);
    } else {
      DistinctAtMost(s, n - 1);
    }
  }

  lemma DistinctCovers(s: seq<int>, n: nat, i: nat)
    requires Distinct(s) && (forall p :: 0 <= p < |s| ==> 0 <= s[p] < n) && |s| == n && i < n
    ensures i in s
  {
    if i !in s {
      DistinctAtMost([i] + s, n);
    }
  }

  lemma {:induction false} MostRecentDistinct(history: seq<Key>)
    ensures Distinct(MostRecent(history))
  {
    if history != [] {
      var n := |history| - 1;
      MostRecentDistinct(history[..n]);
      WithoutDistinct(MostRecent(history[..n]), history[n]);
    }
  }

  /** Removing a key keeps the order of the others. */
  lemma {:induction false} WithoutOrder<T(!new)>(s: seq<T>, k: T, i: nat, j: nat) returns (a: nat, b: nat)
    requires Distinct(s) && i < j < |Without(s, k)|
    ensures a < b < |s| && s[a] == Without(s, k)[i] && s[b] == Without(s, k)[j]
  {
    if k in s {
      var p :| 0 <= p < |s| && s[p] == k;
      WithoutAt(s, p);
      a := if i < p then i else i + 1;
      b := if j < p then j else j + 1;
    } else {
      WithoutAbsent(s, k);
      a, b := i, j;
    }
  }

  lemma LastUseExtend(history: seq<Key>, k: Key, x: Key)
    requires x in history && x != k
    ensures LastUse(history + [k], x) == LastUse(history, x)
  {
    assert (history + [k])[..|history|] == history;
  }

  /** One more access moves its key to the front of a list, or puts it there. */
  function MoveFront<T>(s: seq<T>, p: nat): seq<T>
    requires p < |s|
  {
    seq(|s|, q requires 0 <= q < |s| => if q == 0 then s[p] else if q <= p then s[q - 1] else s[q])
  }

  lemma MoveFrontPermutes(s: seq<int>, p: nat)
    requires Distinct(s) && p < |s|
    ensures Distinct(MoveFront(s, p))
    ensures forall x :: x in MoveFront(s, p) <==> x in s
  {
    var r := MoveFront(s, p);
    forall x | x in s
      ensures x in r
    {
      var q :| 0 <= q < |s| && s[q] == x;
      var q' := if q == p then 0 else if q < p then q + 1 else q;
      assert r[q'] == x;
    }
  }

  /** Only the element moved to the front changes its place relative to the others. */
  lemma MoveFrontOrder(s: seq<int>, p: nat, a: nat, b: nat) returns (x: nat, y: nat)
    requires p < |s| && a < b < |s|
    ensures x < |s| && y < |s| && y != p && MoveFront(s, p)[a] == s[x] && MoveFront(s, p)[b] == s[y]
    ensures if a == 0 then x == p else x < y && x != p
  {
    x := if a == 0 then p else if a <= p then a - 1 else a;
    y := if b <= p then b - 1 else b;
  }

  lemma MostRecentStep(history: seq<Key>, k: Key)
    ensures MostRecent(history + [k]) == [k] + Without(MostRecent(history), k)
  {
    assert (history + [k])[..|history|] == history;
  }

  lemma SlicesPointwise(s: seq<Key>, p: nat)
    requires p < |s|
    ensures [s[p]] + (s[..p] + s[p + 1..]) == MoveFront(s, p)
  {
  }

  lemma MoveFrontWithout(s: seq<Key>, p: nat)
    requires Distinct(s) && p < |s|
    ensures [s[p]] + Without(s, s[p]) == MoveFront(s, p)
  {
    WithoutAt(s, p);
    SlicesPointwise(s, p);
  }

  lemma MostRecentAgain(history: seq<Key>, p: nat)
    requires p < |MostRecent(history)|
    ensures MostRecent(history + [MostRecent(history)[p]]) == MoveFront(MostRecent(history), p)
  {
    MostRecentDistinct(history);
    MostRecentStep(history, MostRecent(history)[p]);
    MoveFrontWithout(MostRecent(history), p);
  }

  lemma MostRecentNew(history: seq<Key>, k: Key)
    requires k !in MostRecent(history)
    ensures MostRecent(history + [k]) == [k] + MostRecent(history)
  {
    WithoutAbsent(MostRecent(history), k);
    MostRecentStep(history, k);
  }

  /** r is s behind k, as far as the first n elements go. */
  ghost predicate Pushed(s: seq<Key>, k: Key, n: nat, r: seq<Key>) {
    n <= |r| && n <= |s| + 1 && forall p :: 0 <= p < n ==> r[p] == if p == 0 then k else s[p - 1]
  }

  /** An access to a key outside the n most recent ones pushes those back by one place. */
  lemma MostRecentPush(history: seq<Key>, k: Key, n: nat)
    requires n <= |MostRecent(history)| && forall p :: 0 <= p < n ==> MostRecent(history)[p] != k
    ensures Pushed(MostRecent(history), k, n, MostRecent(history + [k]))
  {
    hide MostRecent;
    var recent := MostRecent(history);
    if k in recent {
      var p :| 0 <= p < |recent| && recent[p] == k;
      MostRecentAgain(history, p);
    } else {
      MostRecentNew(history, k);
    }
  }

  /** MostRecent lists the keys strictly by decreasing time of last use. */
  ghost predicate ByLastUse(history: seq<Key>, r: seq<Key>) {
    (forall x :: x in r ==> x in history) &&
    forall i, j :: 0 <= i < j < |r| ==> LastUse(history, r[j]) < LastUse(history, r[i])
  }

  lemma LastUseNow(history: seq<Key>, k: Key)
    ensures k in history + [k] && LastUse(history + [k], k) == |history|
  {
  }

  lemma {:induction false} WithoutByLastUse(history: seq<Key>, r: seq<Key>, k: Key)
    requires Distinct(r) && ByLastUse(history, r)
    ensures ByLastUse(history + [k], [k] + Without(r, k))
  {
    hide LastUse;
    hide Without;
    var r' := [k] + Without(r, k);
    assert k in history + [k];
    LastUseNow(history, k);
    forall i, j | 0 <= i < j < |r'|
      ensures LastUse(history + [k], r'[j]) < LastUse(history + [k], r'[i])
    {
      assert r'[j] == Without(r, k)[j - 1] && r'[j] in Without(r, k);
      LastUseExtend(history, k, r'[j]);
      if i > 0 {
        assert r'[i] == Without(r, k)[i - 1] && r'[i] in Without(r, k);
        LastUseExtend(history, k, r'[i]);
        var a, b := WithoutOrder(r, k, i - 1, j - 1);
      }
    }
  }

  lemma {:induction false} MostRecentByLastUse(history: seq<Key>)
    ensures Distinct(MostRecent(history)) && ByLastUse(history, MostRecent(history))
  {
    MostRecentDistinct(history);
    if history != [] {
      var n := |history| - 1;
      MostRecentByLastUse(history[..n]);
      WithoutByLastUse(history[..n], MostRecent(history[..n]), history[n]);
      assert history == history[..n] + [history[n]];
    }
  }
}
