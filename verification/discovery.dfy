/**
  Descendant discovery: starting from a root pid, a worklist walk that pops
  one pid at a time, records its stat, and rescans the whole listing for
  processes whose parent is that pid and that have not been recorded yet.
 */
module Discovery {
  import opened ProcTable

  /** No process in the listing has its parent in `s` without being in `s` itself. */
  ghost predicate ChildClosed(procs: seq<Proc>, s: set<int>)
  {
    forall q :: q in procs && q.ppid in s ==> q.pid in s
  }

  /** `k` is the descendant set of `root`: the least child-closed set that
      contains `root`. This is the reachability reference for the walk. */
  ghost predicate IsDescendantSet(procs: seq<Proc>, root: int, k: set<int>)
  {
    && root in k
    && ChildClosed(procs, k)
    && forall s {:trigger ChildClosed(procs, s)} ::
         root in s && ChildClosed(procs, s) ==> k <= s
  }

  /** Every recorded pid maps to what a read of that pid returns. */
  ghost predicate FaithfulStats(procs: seq<Proc>, found: Snapshot)
  {
    forall k :: k in found ==> Find(procs, k) == Some(found[k])
  }

  /** The inner scan: one pass over the listing for children of `cur`.
      A child is recorded and queued only when its pid is not recorded yet. */
  method ScanChildren(procs: seq<Proc>, cur: int, found: Snapshot, pending: seq<int>)
    returns (found': Snapshot, pending': seq<int>)
    requires UniquePids(procs)
    requires FaithfulStats(procs, found)
    ensures FaithfulStats(procs, found')
    ensures found.Keys <= found'.Keys
    ensures forall k :: k in found' && k !in found ==> found'[k].ppid == cur
    ensures forall q :: q in procs && q.ppid == cur ==> q.pid in found'
    ensures |pending'| >= |pending| && pending'[..|pending|] == pending
    ensures Distinct(pending'[|pending|..])
    ensures forall k :: k in pending'[|pending|..] <==> k in found' && k !in found
  {
    found', pending' := found, pending;
    var j := 0;
    ghost var added: seq<int> := [];
    while j < |procs|
      invariant 0 <= j <= |procs|
      invariant FaithfulStats(procs, found')
      invariant found.Keys <= found'.Keys
      invariant forall k :: k in found' && k !in found ==> found'[k].ppid == cur
      invariant forall i :: 0 <= i < j && procs[i].ppid == cur ==> procs[i].pid in found'
      invariant pending' == pending + added
      invariant Distinct(added)
      invariant forall k :: k in added <==> k in found' && k !in found
    {
      var stat := procs[j];
      if stat.ppid == cur && stat.pid !in found' {
        FindListed(procs, j);
        found' := found'[stat.pid := stat];
        pending' := pending' + [stat.pid];
        added := added + [stat.pid];
      }
      j := j + 1;
    }
    assert pending'[..|pending|] == pending && pending'[|pending|..] == added;
    forall q | q in procs && q.ppid == cur
      ensures q.pid in found'
    {
      var i :| 0 <= i < |procs| && procs[i] == q;
    }
  }

  /** The worklist bookkeeping of the walk: every pid is queued at most once,
      and a popped pid is never queued again. */
  ghost predicate Bookkeeping(root: int, found: Snapshot, pending: seq<int>, done: set<int>)
  {
    && Distinct(pending)
    && (forall k :: k in pending ==> k !in done)
    && (forall k :: k in found.Keys + {root} <==> k in done || k in pending)
    && (root !in found ==> pending == [root] && done == {})
  }

  /** Everything the walk keeps true between two pops. */
  ghost predicate WalkInv(procs: seq<Proc>, root: int, candidates: set<int>,
                          found: Snapshot, pending: seq<int>, done: set<int>)
  {
    && FaithfulStats(procs, found)
    && root in candidates
    && found.Keys <= candidates
    && done <= candidates
    && Bookkeeping(root, found, pending, done)
    && (forall q :: q in procs && q.ppid in done ==> q.pid in found)
    && (forall s {:trigger ChildClosed(procs, s)} ::
          root in s && ChildClosed(procs, s) ==> found.Keys <= s)
  }

  /** The walk itself (getRelevantProcs). The result holds exactly the
      descendants of `root`, root included, each with its own stat. */
  method Discover(procs: seq<Proc>, root: int) returns (found: Snapshot)
    requires UniquePids(procs)
    requires Find(procs, root).Some?
    ensures root in found
    ensures IsDescendantSet(procs, root, found.Keys)
    ensures FaithfulStats(procs, found)
  {
    found := map[];
    var pending := [root];
    ghost var done: set<int> := {};
    ghost var candidates := {root} + set p | p in procs :: p.pid;
    CandidatesCover(procs, root, candidates);
    while |pending| > 0
      invariant WalkInv(procs, root, candidates, found, pending, done)
      decreases candidates - done
    {
      ghost var found0, pending0 := found, pending;
      var cur := pending[0];
      PopReadable(procs, root, candidates, found, pending, done);
      pending := pending[1..];
      var curStat := Find(procs, cur).value;
      found := found[cur := curStat];
      ghost var before := found;
      found, pending := ScanChildren(procs, curStat.pid, found, pending);
      WalkStep(procs, root, candidates, found0, pending0, done, before, found, pending);
      done := done + {cur};
    }
    WalkFinished(procs, root, candidates, found, done);
  }

  /** The pid at the head of the queue can be read, is a candidate, and has
      not been popped before. */
  lemma PopReadable(procs: seq<Proc>, root: int, candidates: set<int>,
                    found: Snapshot, pending: seq<int>, done: set<int>)
    requires Find(procs, root).Some?
    requires WalkInv(procs, root, candidates, found, pending, done)
    requires |pending| > 0
    ensures Find(procs, pending[0]).Some?
    ensures FaithfulStats(procs, found[pending[0] := Find(procs, pending[0]).value])
    ensures pending[0] in candidates - done
  {
    var cur := pending[0];
    assert cur in found.Keys + {root};
    assert cur == root || Find(procs, cur) == Some(found[cur]);
  }

  lemma WalkStep(procs: seq<Proc>, root: int, candidates: set<int>,
                 found0: Snapshot, pending0: seq<int>, done: set<int>,
                 before: Snapshot, found1: Snapshot, pending1: seq<int>)
    requires WalkInv(procs, root, candidates, found0, pending0, done)
    requires |pending0| > 0 && pending0[0] in candidates
    requires forall q :: q in procs ==> q.pid in candidates
    requires before.Keys == found0.Keys + {pending0[0]}
    requires FaithfulStats(procs, found1)
    requires before.Keys <= found1.Keys
    requires forall k :: k in found1 && k !in before ==> found1[k].ppid == pending0[0]
    requires forall q :: q in procs && q.ppid == pending0[0] ==> q.pid in found1
    requires |pending1| >= |pending0| - 1 && pending1[..|pending0| - 1] == pending0[1..]
    requires Distinct(pending1[|pending0| - 1..])
    requires forall k :: k in pending1[|pending0| - 1..] <==> k in found1 && k !in before
    ensures WalkInv(procs, root, candidates, found1, pending1, done + {pending0[0]})
  {
    var cur := pending0[0];
    assert cur in found0.Keys + {root};
    forall s | root in s && ChildClosed(procs, s)
      ensures before.Keys <= s
    {
    }
    MinimalityKept(procs, root, before, found1, cur);
    BookkeepingStep(root, found0, pending0, done, cur, before, found1, pending1);
    forall k | k in found1
      ensures k in candidates
    {
      assert found1[k] in procs;
    }
  }

  /** An empty queue means the recorded set is the descendant set. */
  lemma WalkFinished(procs: seq<Proc>, root: int, candidates: set<int>, found: Snapshot, done: set<int>)
    requires WalkInv(procs, root, candidates, found, [], done)
    ensures root in found
    ensures IsDescendantSet(procs, root, found.Keys)
  {
  }

  lemma BookkeepingStep(root: int, found0: Snapshot, pending0: seq<int>, done: set<int>, cur: int,
                        before: Snapshot, found1: Snapshot, pending1: seq<int>)
    requires Bookkeeping(root, found0, pending0, done)
    requires |pending0| > 0 && cur == pending0[0]
    requires before.Keys == found0.Keys + {cur}
    requires before.Keys <= found1.Keys
    requires |pending1| >= |pending0| - 1 && pending1[..|pending0| - 1] == pending0[1..]
    requires Distinct(pending1[|pending0| - 1..])
    requires forall k :: k in pending1[|pending0| - 1..] <==> k in found1 && k !in before
    ensures Bookkeeping(root, found1, pending1, done + {cur})
  {
    var rest := pending0[1..];
    var added := pending1[|rest|..];
    assert pending1 == rest + added;
    assert forall k :: k in rest ==> k in before by {
      forall k | k in rest
        ensures k in before
      {
        assert k in pending0;
      }
    }
    DistinctAppend(rest, added);
    forall k | k in pending1
      ensures k !in done + {cur}
    {
      if k in rest {
        assert k in pending0;
      } else {
        assert k in added;
      }
    }
  }

  /** Recording only children of an already-recorded pid keeps the recorded
      set inside every child-closed set that contains the root. */
  lemma MinimalityKept(procs: seq<Proc>, root: int, before: Snapshot, after: Snapshot, cur: int)
    requires cur in before
    requires FaithfulStats(procs, after)
    requires forall s {:trigger ChildClosed(procs, s)} ::
               root in s && ChildClosed(procs, s) ==> before.Keys <= s
    requires forall k :: k in after && k !in before ==> after[k].ppid == cur
    ensures forall s {:trigger ChildClosed(procs, s)} ::
              root in s && ChildClosed(procs, s) ==> after.Keys <= s
  {
    forall s | root in s && ChildClosed(procs, s)
      ensures after.Keys <= s
    {
      forall k | k in after && k !in before
        ensures k in s
      {
        assert after[k] in procs;
      }
    }
  }

  lemma DistinctAppend(a: seq<int>, b: seq<int>)
    requires Distinct(a) && Distinct(b)
    requires forall k :: k in b ==> k !in a
    ensures Distinct(a + b)
  {
    forall i, j | 0 <= i < j < |a + b|
      ensures (a + b)[i] != (a + b)[j]
    {
      if j < |a| {
        assert (a + b)[i] == a[i] && (a + b)[j] == a[j];
      } else if i < |a| {
        assert (a + b)[i] == a[i] && (a + b)[j] == b[j - |a|];
        assert b[j - |a|] in b;
      } else {
        assert (a + b)[i] == b[i - |a|] && (a + b)[j] == b[j - |a|];
      }
    }
  }

  lemma CandidatesCover(procs: seq<Proc>, root: int, candidates: set<int>)
    requires candidates == {root} + set p | p in procs :: p.pid
    ensures forall q :: q in procs ==> q.pid in candidates
  {
  }

  /** The descendant set is determined by the listing's records alone: two
      listings holding the same records in any order give the same key set. */
  lemma DescendantSetOrderIndependent(procs1: seq<Proc>, procs2: seq<Proc>, root: int, k1: set<int>, k2: set<int>)
    requires forall q :: q in procs1 <==> q in procs2
    requires IsDescendantSet(procs1, root, k1)
    requires IsDescendantSet(procs2, root, k2)
    ensures k1 == k2
  {
    assert ChildClosed(procs2, k1);
    assert ChildClosed(procs1, k2);
  }

  /** A listing with only the fields discovery looks at. */
  function Entry(pid: int, ppid: int): Proc
  {
    Proc(pid, ppid, "", [], 0, 0)
  }

  /** The tree root(1) -> 2, 2 -> 3, 2 -> 4, root -> 5, beside an unrelated
      tree 6 -> 7: whatever the order of the listing, the descendants of the
      root are exactly {1, 2, 3, 4, 5}. */
  lemma ExampleTree(procs: seq<Proc>, k: set<int>)
    requires forall q :: q in procs <==> q in [Entry(1, 0), Entry(2, 1), Entry(3, 2), Entry(4, 2),
                                             Entry(5, 1), Entry(6, 0), Entry(7, 6)]
    requires IsDescendantSet(procs, 1, k)
    ensures k == {1, 2, 3, 4, 5}
  {
    var tree := {1, 2, 3, 4, 5};
    assert ChildClosed(procs, tree);
    assert Entry(2, 1) in procs && Entry(5, 1) in procs;
    assert Entry(3, 2) in procs && Entry(4, 2) in procs;
  }
}
