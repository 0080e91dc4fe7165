/**
  Finding the process to monitor by name (lookupProcess): every listed
  process other than the sampler itself whose command name, or one of whose
  command-line arguments, contains the key is a candidate; zero candidates
  is an error, one is taken, and among several the operator's typed index
  picks one.
 */
module Lookup {
  import opened ProcTable
  import opened Text

  datatype Result<+T, +E> = Success(value: T) | Failure(error: E)

  datatype LookupError =
    | NoMatch          // "No processes match"
    | IndexOutOfRange  // "Index is out of range"

  /** `p` is a candidate for `key`; `self` is the sampler's own pid. */
  predicate IsMatch(p: Proc, key: string, self: int)
  {
    p.pid != self && (Contains(p.comm, key) || exists t :: t in p.cmdline && Contains(t, key))
  }

  /** Positions, from `from` on, of the listed processes that are candidates,
      in listing order, each position once. */
  function MatchPositions(procs: seq<Proc>, key: string, self: int, from: nat): (idx: seq<int>)
    requires from <= |procs|
    ensures forall k :: 0 <= k < |idx| ==> from <= idx[k] < |procs|
    ensures forall a, b :: 0 <= a < b < |idx| ==> idx[a] < idx[b]
    ensures forall i :: from <= i < |procs| ==> (i in idx <==> IsMatch(procs[i], key, self))
    decreases |procs| - from
  {
    if from == |procs| then []
    else if IsMatch(procs[from], key, self) then [from] + MatchPositions(procs, key, self, from + 1)
    else MatchPositions(procs, key, self, from + 1)
  }

  /** The `matches` slice built by the scan loop. */
  function Matches(procs: seq<Proc>, key: string, self: int): seq<Proc>
  {
    var idx := MatchPositions(procs, key, self, 0);
    seq(|idx|, k requires 0 <= k < |idx| => procs[idx[k]])
  }

  /** A process is among the matches exactly when it is listed and is a candidate. */
  lemma MatchesMembership(procs: seq<Proc>, key: string, self: int)
    ensures forall p :: p in Matches(procs, key, self) <==> p in procs && IsMatch(p, key, self)
  {
    var idx := MatchPositions(procs, key, self, 0);
    var m := Matches(procs, key, self);
    forall p | p in procs && IsMatch(p, key, self)
      ensures p in m
    {
      var i :| 0 <= i < |procs| && procs[i] == p;
      var k :| 0 <= k < |idx| && idx[k] == i;
      assert m[k] == p;
    }
  }

  /** With a listing of unique pids, no process is matched twice. */
  lemma MatchesUnique(procs: seq<Proc>, key: string, self: int)
    requires UniquePids(procs)
    ensures UniquePids(Matches(procs, key, self))
  {
  }

  /** The index that ends up chosen: what the operator typed, or Go's zero
      value when nothing could be read. */
  function Chosen(input: Option<int>): int
  {
    match input
    case Some(i) => i
    case None => 0
  }

  /** The selection rule over the candidate list; `input` is the console answer. */
  function Select(matches: seq<Proc>, input: Option<int>): (r: Result<int, LookupError>)
    ensures r == Failure(NoMatch) <==> |matches| == 0
    ensures |matches| == 1 ==> r == Success(matches[0].pid)
    ensures |matches| > 1 ==> (r.Success? <==> 0 <= Chosen(input) < |matches|)
    ensures |matches| > 1 && 0 <= Chosen(input) < |matches| ==> r == Success(matches[Chosen(input)].pid)
    ensures |matches| > 1 && !(0 <= Chosen(input) < |matches|) ==> r == Failure(IndexOutOfRange)
    ensures r.Success? ==> exists k :: 0 <= k < |matches| && matches[k].pid == r.value
  {
    if |matches| == 0 then Failure(NoMatch)
    else if |matches| == 1 then Success(matches[0].pid)
    else
      var index := Chosen(input);
      if index < 0 || index >= |matches| then Failure(IndexOutOfRange)
      else Success(matches[index].pid)
  }

  /** lookupProcess, given the listing, the sampler's own pid and the console answer. */
  function LookupProcess(procs: seq<Proc>, key: string, self: int, input: Option<int>): (r: Result<int, LookupError>)
    ensures r.Success? ==> r.value != self
    ensures r.Success? ==> exists p :: p in procs && IsMatch(p, key, self) && p.pid == r.value
    ensures r == Failure(NoMatch) <==> forall p :: p in procs ==> !IsMatch(p, key, self)
    ensures var m := Matches(procs, key, self);
            |m| == 1 ==> r == Success(m[0].pid)
    ensures var m := Matches(procs, key, self);
            |m| > 1 && 0 <= Chosen(input) < |m| ==> r == Success(m[Chosen(input)].pid)
    ensures var m := Matches(procs, key, self);
            |m| > 1 && !(0 <= Chosen(input) < |m|) ==> r == Failure(IndexOutOfRange)
  {
    var m := Matches(procs, key, self);
    MatchesMembership(procs, key, self);
    assert |m| > 0 ==> m[0] in m;
    Select(m, input)
  }

  lemma {:induction false} NoCandidatesNoPositions(procs: seq<Proc>, key: string, self: int, from: nat)
    requires from <= |procs|
    requires forall j :: from <= j < |procs| ==> !IsMatch(procs[j], key, self)
    ensures MatchPositions(procs, key, self, from) == []
    decreases |procs| - from
  {
    if from < |procs| {
      NoCandidatesNoPositions(procs, key, self, from + 1);
    }
  }

  /** When exactly one position from `from` on holds a candidate, it is the
      only position found. */
  lemma {:induction false} PositionsOfSingleMatch(procs: seq<Proc>, key: string, self: int, from: nat, i: int)
    requires from <= i < |procs| && IsMatch(procs[i], key, self)
    requires forall j :: from <= j < |procs| && j != i ==> !IsMatch(procs[j], key, self)
    ensures MatchPositions(procs, key, self, from) == [i]
    decreases i - from
  {
    if from == i {
      NoCandidatesNoPositions(procs, key, self, i + 1);
    } else {
      PositionsOfSingleMatch(procs, key, self, from + 1, i);
    }
  }

  /** When exactly one listed process is a candidate, it is chosen whatever
      the console answer. */
  lemma SingleMatchChosen(procs: seq<Proc>, key: string, self: int, input: Option<int>, i: int)
    requires 0 <= i < |procs| && IsMatch(procs[i], key, self)
    requires forall j :: 0 <= j < |procs| && j != i ==> !IsMatch(procs[j], key, self)
    ensures LookupProcess(procs, key, self, input) == Success(procs[i].pid)
  {
    PositionsOfSingleMatch(procs, key, self, 0, i);
    assert Matches(procs, key, self) == [procs[i]];
  }
}
