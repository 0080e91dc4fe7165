/**
  How a process is shown to the operator (showCmdline): its command name,
  three spaces, and its command line joined with spaces, abbreviated when
  longer than 80 characters. An abbreviated line is either a window of up
  to 100 characters on each side of the first occurrence of the search key,
  or, when the key does not occur, the first 77 characters.
 */
module Cmdline {
  import opened Text

  const PLAIN_LIMIT: nat := 80
  const PREFIX_KEEP: nat := 77
  const RADIUS: nat := 100
  const ELLIPSIS: string := "..."

  function Max(a: int, b: int): int { if a >= b then a else b }
  function Min(a: int, b: int): int { if a <= b then a else b }

  /** The window kept around the key occurrence at `idx`: [lo, hi). */
  function WindowStart(idx: int): int { Max(0, idx - RADIUS) }
  function WindowEnd(line: string, idx: int): int { Min(|line|, idx + RADIUS) }

  /** The abbreviation as the source writes it. */
  function Abbreviate(line: string, key: string): (r: string)
    ensures |line| <= PLAIN_LIMIT ==> r == line
    ensures |line| > PLAIN_LIMIT && IndexOf(line, key) < 0 ==>
              |r| == PLAIN_LIMIT && r[..PREFIX_KEEP] == line[..PREFIX_KEEP] && r[PREFIX_KEEP..] == ELLIPSIS
    ensures |line| > PLAIN_LIMIT && IndexOf(line, key) >= 0 ==>
              var idx := IndexOf(line, key);
              var lo, hi := WindowStart(idx), WindowEnd(line, idx);
              && |r| == 3 + (hi - lo) + (if idx + RADIUS <= |line| then 3 else 0)
              && r[..3] == ELLIPSIS
              && r[3..3 + (hi - lo)] == line[lo..hi]
              && (idx + RADIUS <= |line| ==> r[|r| - 3..] == ELLIPSIS)
    ensures |r| <= 3 + 2 * RADIUS + 3
  {
    if |line| > PLAIN_LIMIT then
      var idx := IndexOf(line, key);
      if idx >= 0 then
        var start := idx - RADIUS;
        var pre := ELLIPSIS;
        var (start, pre) := if start < 0 then (0, ELLIPSIS) else (start, pre);
        var end := idx + RADIUS;
        var post := ELLIPSIS;
        var (end, post) := if end > |line| then (|line|, "") else (end, post);
        pre + line[start..end] + post
      else
        line[..PREFIX_KEEP] + ELLIPSIS
    else
      line
  }

  /** The search key stays visible in the abbreviated line, as long as it is
      no longer than the window radius. */
  lemma AbbreviateShowsKey(line: string, key: string)
    requires IndexOf(line, key) >= 0
    requires |key| <= RADIUS
    ensures Contains(Abbreviate(line, key), key)
  {
    var r := Abbreviate(line, key);
    var idx := IndexOf(line, key);
    if |line| > PLAIN_LIMIT {
      var lo, hi := WindowStart(idx), WindowEnd(line, idx);
      OccurrenceInWindow(r, line, key, 3, lo, hi, idx);
    } else {
      assert OccursAt(r, key, idx);
    }
  }

  /** An occurrence inside a copied window is an occurrence in the copy. */
  lemma OccurrenceInWindow(r: string, line: string, key: string, off: int, lo: int, hi: int, idx: int)
    requires 0 <= off && 0 <= lo <= idx && idx + |key| <= hi <= |line| && off + (hi - lo) <= |r|
    requires r[off..off + (hi - lo)] == line[lo..hi]
    requires OccursAt(line, key, idx)
    ensures OccursAt(r, key, off + (idx - lo))
  {
    var pos := off + (idx - lo);
    forall k | 0 <= k < |key|
      ensures r[pos + k] == key[k]
    {
      assert r[pos + k] == r[off..off + (hi - lo)][idx - lo + k];
      assert line[lo..hi][idx - lo + k] == line[idx + k];
      assert line[idx..idx + |key|][k] == line[idx + k];
    }
    assert r[pos..pos + |key|] == key;
  }

  /** showCmdline: command name, three spaces, abbreviated command line. */
  function ShowCmdline(comm: string, args: seq<string>, key: string): (r: string)
    ensures |r| >= |comm| + 3 && r[..|comm| + 3] == comm + "   "
    ensures r[|comm| + 3..] == Abbreviate(Join(args, " "), key)
    ensures |Join(args, " ")| <= PLAIN_LIMIT ==> r[|comm| + 3..] == Join(args, " ")
    ensures |r| <= |comm| + 3 + 3 + 2 * RADIUS + 3
  {
    var shown := Abbreviate(Join(args, " "), key);
    assert (comm + "   " + shown)[|comm| + 3..] == shown;
    comm + "   " + shown
  }

  /** The abbreviation with its ellipses where they were evidently meant to
      go: a leading "..." only when characters before the window were cut,
      a trailing "..." only when characters after it were cut. */
  function AbbreviateIntended(line: string, key: string): (r: string)
    ensures |line| <= PLAIN_LIMIT ==> r == line
    ensures |line| > PLAIN_LIMIT && IndexOf(line, key) < 0 ==>
              |r| == PLAIN_LIMIT && r[..PREFIX_KEEP] == line[..PREFIX_KEEP] && r[PREFIX_KEEP..] == ELLIPSIS
    ensures |line| > PLAIN_LIMIT && IndexOf(line, key) >= 0 ==>
              var idx := IndexOf(line, key);
              var lo, hi := WindowStart(idx), WindowEnd(line, idx);
              var cutBefore, cutAfter := lo > 0, hi < |line|;
              && |r| == (if cutBefore then 3 else 0) + (hi - lo) + (if cutAfter then 3 else 0)
              && r[(if cutBefore then 3 else 0)..][..hi - lo] == line[lo..hi]
              && (cutBefore ==> r[..3] == ELLIPSIS)
              && (cutAfter ==> r[|r| - 3..] == ELLIPSIS)
  {
    if |line| > PLAIN_LIMIT then
      var idx := IndexOf(line, key);
      if idx >= 0 then
        var lo, hi := WindowStart(idx), WindowEnd(line, idx);
        var pre := if lo > 0 then ELLIPSIS else "";
        var post := if hi < |line| then ELLIPSIS else "";
        var r := pre + line[lo..hi] + post;
        assert r[|pre|..][..hi - lo] == line[lo..hi];
        r
      else
        line[..PREFIX_KEEP] + ELLIPSIS
    else
      line
  }

  /** A 100-character command line that starts with the key: nothing has to
      be cut, yet the source adds an ellipsis on both sides. */
  lemma EllipsesWithoutElision()
    ensures var line := "x" + seq(99, _ => 'a');
            && Abbreviate(line, "x") == ELLIPSIS + line + ELLIPSIS
            && AbbreviateIntended(line, "x") == line
  {
  }
}
