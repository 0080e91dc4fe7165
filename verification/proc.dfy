/**
  The process table as the sampler sees it: one record per process, read from
  /proc, with the CPU counters the kernel keeps for it. Reading /proc is not
  modelled; a listing is a plain sequence of records, and every read of a
  record is assumed to succeed.
 */
module ProcTable {

  /** Go's `uint` on a 64-bit host: counters and totals live in [0, 2^64). */
  const UINT_MOD: int := 0x1_0000_0000_0000_0000

  type Tick = x: int | 0 <= x < UINT_MOD

  /** An exact integer as a Go `uint` holds it: reduced modulo 2^64. */
  function Wrap(x: int): Tick
  {
    x % UINT_MOD
  }

  /** Go `uint` subtraction and addition: both wrap around modulo 2^64. */
  function SubWrap(a: Tick, b: Tick): (r: Tick)
    ensures a >= b ==> r == a - b
    ensures a < b ==> r == a - b + UINT_MOD
  {
    Wrap(a - b)
  }

  function AddWrap(a: Tick, b: Tick): (r: Tick)
    ensures a + b < UINT_MOD ==> r == a + b
    ensures a + b >= UINT_MOD ==> r == a + b - UINT_MOD
  {
    Wrap(a + b)
  }

  /** One process: its stat line (pid, parent pid, command name, user and
      system ticks) together with its command-line arguments. */
  datatype Proc = Proc(
    pid: int,
    ppid: int,
    comm: string,
    cmdline: seq<string>,
    utime: Tick,
    stime: Tick
  )

  /** A snapshot of a process tree: pid to the record read at that instant. */
  type Snapshot = map<int, Proc>

  datatype Option<+T> = None | Some(value: T)

  /** The kernel never lists two processes under the same pid at once. */
  predicate UniquePids(procs: seq<Proc>)
  {
    forall i, j :: 0 <= i < j < |procs| ==> procs[i].pid != procs[j].pid
  }

  /** No pid occurs twice. */
  predicate Distinct(xs: seq<int>)
  {
    forall i, j :: 0 <= i < j < |xs| ==> xs[i] != xs[j]
  }

  /** Reading the stat of one pid: the listed record with that pid, if any. */
  function Find(procs: seq<Proc>, pid: int): (r: Option<Proc>)
    ensures r.Some? ==> r.value in procs && r.value.pid == pid
    ensures r.None? <==> forall p :: p in procs ==> p.pid != pid
  {
    if |procs| == 0 then None
    else if procs[0].pid == pid then Some(procs[0])
    else Find(procs[1..], pid)
  }

  /** With unique pids, the record at any position is what a read of its pid returns. */
  lemma FindListed(procs: seq<Proc>, j: int)
    requires UniquePids(procs)
    requires 0 <= j < |procs|
    ensures Find(procs, procs[j].pid) == Some(procs[j])
  {
  }
}
