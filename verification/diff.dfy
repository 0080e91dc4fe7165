/**
  Reconciling two snapshots of the same tree into interval totals. Each pid
  of the later snapshot contributes: its counter growth if it was also in
  the earlier snapshot, its full counters if it is new. Pids only in the
  earlier snapshot contribute nothing and are reported as ended. Totals are
  Go `uint`s, so every subtraction and addition wraps modulo 2^64.
 */
module SnapshotDiff {
  import opened ProcTable

  /** A pair of exact (unbounded) user and system tick counts. */
  datatype Ticks = Ticks(user: int, sys: int)
  {
    function Plus(other: Ticks): Ticks
    {
      Ticks(user + other.user, sys + other.sys)
    }
  }

  /** What one pid of the later snapshot adds to the interval, exactly. */
  function Delta(start: Snapshot, end: Snapshot, pid: int): Ticks
    requires pid in end
  {
    if pid in start then Ticks(end[pid].utime - start[pid].utime, end[pid].stime - start[pid].stime)
    else Ticks(end[pid].utime, end[pid].stime)
  }

  /** The exact sum of the contributions of `keys`, taken in that order. */
  function Total(start: Snapshot, end: Snapshot, keys: seq<int>): Ticks
    requires forall k :: k in keys ==> k in end
  {
    if |keys| == 0 then Ticks(0, 0)
    else Total(start, end, keys[..|keys| - 1]).Plus(Delta(start, end, keys[|keys| - 1]))
  }

  /** `order` visits every key of `keys` exactly once: one possible order
      of a Go `range` over a map with those keys. */
  predicate Enumerates(order: seq<int>, keys: set<int>)
  {
    && Distinct(order)
    && (forall k :: k in order ==> k in keys)
    && (forall k :: k in keys ==> k in order)
  }

  /** Counters never decrease for a pid present in both snapshots (no pid reuse). */
  predicate Monotone(start: Snapshot, end: Snapshot)
  {
    forall k :: k in start && k in end ==>
      start[k].utime <= end[k].utime && start[k].stime <= end[k].stime
  }

  datatype DiffResult = DiffResult(
    userTicks: Tick,
    sysTicks: Tick,
    appeared: seq<int>,
    ended: Snapshot
  )

  /** The reconciliation loop of runSample, visiting the later snapshot's
      pids in `order`. The totals are the exact sums reduced modulo 2^64;
      the appeared pids are those new in the later snapshot; the start map
      left over after deleting every continuing pid is the ended set. */
  method DiffSnapshots(start: Snapshot, end: Snapshot, order: seq<int>) returns (r: DiffResult)
    requires Enumerates(order, end.Keys)
    ensures r.userTicks == Wrap(Total(start, end, order).user)
    ensures r.sysTicks == Wrap(Total(start, end, order).sys)
    ensures forall k :: k in r.appeared <==> k in end && k !in start
    ensures Distinct(r.appeared)
    ensures forall k :: k in r.ended <==> k in start && k !in end
    ensures forall k :: k in r.ended ==> r.ended[k] == start[k]
  {
    var totalUtime: Tick, totalStime: Tick := 0, 0;
    var remaining := start;
    var appeared := [];
    var i := 0;
    while i < |order|
      invariant 0 <= i <= |order|
      invariant totalUtime == Wrap(Total(start, end, order[..i]).user)
      invariant totalStime == Wrap(Total(start, end, order[..i]).sys)
      invariant forall k :: k in remaining <==> k in start && k !in order[..i]
      invariant forall k :: k in remaining ==> remaining[k] == start[k]
      invariant forall k :: k in appeared <==> k in order[..i] && k !in start
      invariant Distinct(appeared)
    {
      var key := order[i];
      var e := end[key];
      assert key !in order[..i];
      var du: Tick, ds: Tick;
      if key in remaining {
        var s := remaining[key];
        du, ds := SubWrap(e.utime, s.utime), SubWrap(e.stime, s.stime);
        remaining := remaining - {key};
      } else {
        appeared := appeared + [key];
        du, ds := e.utime, e.stime;
      }
      AccumulateStep(start, end, order, i, totalUtime, totalStime, du, ds);
      totalUtime := AddWrap(totalUtime, du);
      totalStime := AddWrap(totalStime, ds);
      assert order[..i + 1] == order[..i] + [key];
      i := i + 1;
    }
    assert order[..i] == order;
    r := DiffResult(totalUtime, totalStime, appeared, remaining);
  }

  /** Adding wrapped values and wrapping again equals wrapping the exact sum. */
  lemma WrapSum(a: int, d: int)
    ensures Wrap(Wrap(a) + Wrap(d)) == Wrap(a + d)
  {
  }

  /** One more step of the Go loop keeps the wrapped total equal to the
      exact total reduced modulo 2^64. */
  lemma WrapStep(acc: Tick, exact: int, d: int, wrapped: Tick)
    requires acc == Wrap(exact)
    requires wrapped == Wrap(d)
    ensures AddWrap(acc, wrapped) == Wrap(exact + d)
  {
  }

  /** One step of the Go loop on both totals: adding the wrapped contribution
      of the next pid keeps each total equal to its exact sum modulo 2^64. */
  lemma AccumulateStep(start: Snapshot, end: Snapshot, order: seq<int>, i: int,
                       accU: Tick, accS: Tick, du: Tick, ds: Tick)
    requires 0 <= i < |order|
    requires forall k :: k in order ==> k in end
    requires order[i] in end
    requires accU == Wrap(Total(start, end, order[..i]).user)
    requires accS == Wrap(Total(start, end, order[..i]).sys)
    requires order[i] in start ==> du == SubWrap(end[order[i]].utime, start[order[i]].utime)
    requires order[i] in start ==> ds == SubWrap(end[order[i]].stime, start[order[i]].stime)
    requires order[i] !in start ==> du == end[order[i]].utime && ds == end[order[i]].stime
    ensures AddWrap(accU, du) == Wrap(Total(start, end, order[..i + 1]).user)
    ensures AddWrap(accS, ds) == Wrap(Total(start, end, order[..i + 1]).sys)
  {
    TotalStep(start, end, order, i);
    var t := Total(start, end, order[..i]);
    var d := Delta(start, end, order[i]);
    WrapStep(accU, t.user, d.user, du);
    WrapStep(accS, t.sys, d.sys, ds);
  }

  lemma TotalStep(start: Snapshot, end: Snapshot, order: seq<int>, i: int)
    requires 0 <= i < |order|
    requires forall k :: k in order ==> k in end
    ensures Total(start, end, order[..i + 1]) == Total(start, end, order[..i]).Plus(Delta(start, end, order[i]))
  {
    assert order[..i + 1][..i] == order[..i];
  }

  lemma {:induction false} TotalAppend(start: Snapshot, end: Snapshot, a: seq<int>, b: seq<int>)
    requires forall k :: k in a + b ==> k in end
    ensures Total(start, end, a + b) == Total(start, end, a).Plus(Total(start, end, b))
    decreases |b|
  {
    if |b| == 0 {
      assert a + b == a;
    } else {
      var b' := b[..|b| - 1];
      assert (a + b)[..|a + b| - 1] == a + b';
      TotalAppend(start, end, a, b');
    }
  }

  /** Removing the element at position `j` from a duplicate-free sequence
      keeps it duplicate-free and removes exactly that value. */
  lemma RemoveAt(o: seq<int>, j: int)
    requires Distinct(o) && 0 <= j < |o|
    ensures Distinct(o[..j] + o[j + 1..])
    ensures forall k :: k in o[..j] + o[j + 1..] <==> k in o && k != o[j]
  {
  }

  /** The contribution of the element at position `j` can be taken out of the sum. */
  lemma TotalRemoveAt(start: Snapshot, end: Snapshot, o: seq<int>, j: int)
    requires 0 <= j < |o|
    requires forall k :: k in o ==> k in end
    ensures Total(start, end, o) == Total(start, end, o[..j] + o[j + 1..]).Plus(Delta(start, end, o[j]))
  {
    var x := o[j];
    assert o == o[..j] + [x] + o[j + 1..];
    TotalAppend(start, end, o[..j] + [x], o[j + 1..]);
    TotalAppend(start, end, o[..j], [x]);
    TotalAppend(start, end, o[..j], o[j + 1..]);
    assert [x][..0] == [];
  }

  /** Go visits map keys in an unspecified order; the totals do not depend on it. */
  lemma {:induction false} TotalOrderIndependent(start: Snapshot, end: Snapshot, o1: seq<int>, o2: seq<int>)
    requires Distinct(o1) && Distinct(o2)
    requires forall k :: k in o1 <==> k in o2
    requires forall k :: k in o1 ==> k in end
    ensures Total(start, end, o1) == Total(start, end, o2)
    decreases |o1|
  {
    if |o1| > 0 {
      var n := |o1| - 1;
      var x := o1[n];
      assert x in o2;
      var j :| 0 <= j < |o2| && o2[j] == x;
      RemoveAt(o1, n);
      RemoveAt(o2, j);
      assert o1[..n] + o1[n + 1..] == o1[..n];
      forall k
        ensures k in o1[..n] <==> k in o2[..j] + o2[j + 1..]
      {
        assert k in o1[..n] <==> k in o1 && k != x;
        assert k in o2[..j] + o2[j + 1..] <==> k in o2 && k != x;
      }
      TotalOrderIndependent(start, end, o1[..n], o2[..j] + o2[j + 1..]);
      TotalRemoveAt(start, end, o2, j);
    }
  }

  /** Diffing a snapshot against itself gives zero totals. */
  lemma {:induction false} SelfDiffIsZero(snap: Snapshot, order: seq<int>)
    requires forall k :: k in order ==> k in snap
    ensures Total(snap, snap, order) == Ticks(0, 0)
  {
    if |order| > 0 {
      SelfDiffIsZero(snap, order[..|order| - 1]);
    }
  }

  /** With no pid reuse every contribution is non-negative, so the totals are. */
  lemma {:induction false} TotalNonNegative(start: Snapshot, end: Snapshot, order: seq<int>)
    requires Monotone(start, end)
    requires forall k :: k in order ==> k in end
    ensures Total(start, end, order).user >= 0 && Total(start, end, order).sys >= 0
  {
    if |order| > 0 {
      TotalNonNegative(start, end, order[..|order| - 1]);
    }
  }

  /** With no pid reuse and totals below 2^64, the Go totals are the exact sums. */
  lemma NoWraparound(start: Snapshot, end: Snapshot, order: seq<int>)
    requires Monotone(start, end)
    requires forall k :: k in order ==> k in end
    requires Total(start, end, order).user < UINT_MOD && Total(start, end, order).sys < UINT_MOD
    ensures Wrap(Total(start, end, order).user) == Total(start, end, order).user
    ensures Wrap(Total(start, end, order).sys) == Total(start, end, order).sys
  {
  }

  /** A pid that is only in the earlier snapshot adds nothing: dropping every
      such pid from the earlier snapshot leaves the totals unchanged. */
  lemma {:induction false} DepartedAddNothing(start: Snapshot, end: Snapshot, order: seq<int>)
    requires forall k :: k in order ==> k in end
    ensures Total(start, end, order) == Total(start - (start.Keys - end.Keys), end, order)
  {
    if |order| > 0 {
      DepartedAddNothing(start, end, order[..|order| - 1]);
    }
  }

  /** The documented example: root goes from 100 user / 50 system ticks to
      150 / 80, so the interval holds 50 user and 30 system ticks. */
  lemma RootOnlyExample(start: Snapshot, end: Snapshot, root: Proc, root': Proc)
    requires root.utime == 100 && root.stime == 50
    requires root'.utime == 150 && root'.stime == 80
    requires start == map[root.pid := root] && end == map[root.pid := root']
    ensures Total(start, end, [root.pid]) == Ticks(50, 30)
  {
  }
}
