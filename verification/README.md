# watchCpuUse — a verified model of the sampling core

watchCpuUse measures how much CPU a process and all of its current
descendants use over an interval. It takes two snapshots of the process
tree, one `interval` apart, and subtracts per-process tick counters.
This project models in Dafny the pure logic of `main.go`:

- **Descendant discovery** (`getRelevantProcs`), in `discovery.dfy`. This is a worklist walk from a root pid. Each popped pid is recorded with its stat. The whole process listing is then rescanned for children that are not yet recorded, and those children are queued.
- **Snapshot diff** (the reconciliation loop of `runSample`), in `diff.dfy`:
  - a continuing pid adds its counter growth;
  - a new pid adds its full counters;
  - a pid left only in the earlier snapshot adds nothing and is reported as ended.

  Totals are Go `uint`s, so they wrap modulo 2^64.
- **Lookup by name** (`lookupProcess`), in `lookup.dfy`. It builds a candidate list by substring match on the command name or on any one argument, skipping the sampler's own pid. Then a selection rule picks one candidate.
- **Command-line display** (`showCmdline`), in `cmdline.dfy`. The joined command line is abbreviated to 80 characters, or to a window around the search key.

`proc.dfy` holds the process record, the 64-bit wrap-around arithmetic, and the read of one pid's stat. `text.dfy` holds `strings.Index`, `strings.Contains` and `strings.Join`.

The /proc filesystem is replaced by a listing, `seq<Proc>`. Each `Proc` carries pid, parent pid, command name, arguments, user ticks and system ticks. Pids in a listing are unique. Every read of a record succeeds. Go's random map iteration order becomes an explicit parameter `order`: any duplicate-free enumeration of the later snapshot's keys. The sampler's own pid (`os.Getpid`) and the operator's console answer (`Scanf`) are also parameters.

Three behaviours of the code are worth stating plainly, and the model follows the code in each:

- A negative delta (PID reuse) is not clamped. Go `uint` subtraction wraps, and `SnapshotDiff.DiffSnapshots` models that wrap.
- A pid counts as the same process in both snapshots whenever the pid matches. The parent pid is not compared.
- A process that cannot be read is not skipped. The code keeps a zero-valued stat for it instead (see "Left out").

## Model

| member | source | states |
|---|---|---|
| `ProcTable.SubWrap` | main.go:88-89 | The counter growth `end - start` as a Go `uint`. It is exact when the counter did not go down. Otherwise it wraps to `end - start + 2^64`; there is no clamping. |
| `ProcTable.AddWrap` | main.go:93-94 | Adding to a `uint` total is exact below 2^64 and wraps past it. |
| `ProcTable.Find` | main.go:125-126 | Reading a pid's stat returns a listed record carrying that pid. It returns nothing exactly when no listed process has that pid. |
| `ProcTable.FindListed` | main.go:125-126 | With unique pids, reading a listed process's pid returns that very record. |
| `Discovery.ScanChildren` | main.go:128-139 | After one rescan, every listed child of the current pid is recorded. Every newly recorded pid is such a child, and every recorded pid, old or new, still maps to the stat read for it. The newly queued pids are exactly the newly recorded ones, each queued once, appended after the old queue. |
| `Discovery.BookkeepingStep` | main.go:122-137 | One pop plus rescan keeps the worklist duplicate-free. A popped pid is never queued again. Recorded pids plus the root are exactly the popped pids plus the queued ones. |
| `Discovery.WalkStep` | main.go:122-139 | One pop plus rescan preserves the walk's invariant: recorded stats are faithful, the queue is duplicate-free, every child of a popped pid is recorded, and the recorded set stays inside every child-closed set containing the root. |
| `Discovery.MinimalityKept` | main.go:132-136 | Recording only children of an already-recorded pid never records anything outside a child-closed set that contains the root. |
| `Discovery.Discover` | main.go:114-142 | The walk terminates, because every pop removes one pid from the finite set of candidates not yet popped. The root is always a key. The key set is exactly the root's descendants, i.e. the least set that contains the root and every listed process whose parent is in it. Each key maps to the stat read for that pid, so keys are the root or listed pids. |
| `Discovery.DescendantSetOrderIndependent` | main.go:128-138 | The discovered key set depends only on which records are listed, not on their order. Two discoveries over the same unchanged listing find the same pids. |
| `Discovery.ExampleTree` | main.go:120-139 | Take the tree root→2, 2→3, 2→4, root→5 beside an unrelated tree 6→7, listed in any order. Discovery from the root finds exactly {1,2,3,4,5}. |
| `SnapshotDiff.WrapSum` | main.go:82-95 | Accumulating wrapped values in a `uint` gives the exact sum reduced modulo 2^64. |
| `SnapshotDiff.DiffSnapshots` | main.go:82-99 | The user and system totals are the exact sums reduced modulo 2^64. In those sums a continuing pid contributes its growth, a new pid its full counters, and an ended pid nothing. The pids reported as appeared are exactly those only in the later snapshot, each once. The start map left after the loop holds exactly the pids absent from the later snapshot, with their start stats unchanged. |
| `SnapshotDiff.TotalOrderIndependent` | main.go:83-96 | The totals are the same for every order in which the later snapshot's pids are visited. |
| `SnapshotDiff.SelfDiffIsZero` | main.go:84-90 | Diffing a snapshot against itself yields zero user and zero system ticks. |
| `SnapshotDiff.TotalNonNegative` | main.go:88-89 | When no continuing pid's counters went down, both exact totals are non-negative. |
| `SnapshotDiff.NoWraparound` | main.go:82-95 | When no counter went down and the exact totals fit in 64 bits, the `uint` totals equal the exact totals. |
| `SnapshotDiff.DepartedAddNothing` | main.go:83-99 | Pids present only in the earlier snapshot do not affect the totals: removing them leaves the totals unchanged. |
| `SnapshotDiff.RootOnlyExample` | main.go:88-89 | A root going from 100 user / 50 system ticks to 150 / 80 contributes 50 user and 30 system ticks. |
| `Text.IndexOf` | main.go:195 | `strings.Index` returns -1 exactly when the key occurs nowhere. Otherwise it returns a position where the key occurs, and the key occurs at no earlier position. |
| `Text.ContainsIff` | main.go:156 | `strings.Contains` holds exactly when the key occurs at some position. |
| `Text.Join` | main.go:193 | `strings.Join` of no parts is empty. Otherwise its length is the sum of the parts' lengths plus one separator per gap, and it begins with the first part. |
| `Text.JoinLayout` | main.go:193 | In `strings.Join`, part `i` starts at its offset, and a separator comes right before every part but the first. Together with the length in `Text.Join`, this fixes every character: the parts in order with `sep` between consecutive ones. |
| `Text.JoinOffsetClosedForm` | main.go:193 | Part `i` of a join starts after the `i` earlier parts and `i` separators. |
| `Lookup.MatchPositions` | main.go:150-167 | The candidate positions are increasing, so listing order is kept and no process is added twice. A position is present exactly when its process is a candidate: its pid differs from the sampler's own pid, and its command name or one of its arguments contains the key. |
| `Lookup.MatchesMembership` | main.go:151-166 | A process is in `matches` exactly when it is listed and is a candidate. |
| `Lookup.MatchesUnique` | main.go:157-165 | With a listing of unique pids, no pid appears twice in `matches`. |
| `Lookup.Select` | main.go:169-187 | No candidates is the "no match" failure, and only that case is. With one candidate, it is chosen without asking. With several, an in-range typed index (0 if nothing could be read) selects the pid of the candidate at that index, in listing order. An out-of-range index is the "index out of range" failure. |
| `Lookup.LookupProcess` | main.go:144-188 | A successful lookup never returns the sampler's own pid, and it returns the pid of a listed candidate. It fails with "no match" exactly when no listed process is a candidate. With one candidate it returns that candidate's pid. With several, an in-range typed index returns the pid at that index of the candidates in listing order, and an out-of-range index fails with "index out of range". |
| `Lookup.SingleMatchChosen` | main.go:173-174 | When exactly one listed process is a candidate, lookup returns its pid whatever the console answer. |
| `Cmdline.Abbreviate` | main.go:193-213 | A line of at most 80 characters is returned unchanged. A longer line without the key becomes its first 77 characters plus "...", 80 in all. A longer line with the key at `idx` becomes "..." followed by the original characters `[max(0, idx-100), min(len, idx+100))`. When `idx + 100 <= len`, the window is followed by "...". Otherwise nothing follows it. The result never exceeds 206 characters. |
| `Cmdline.AbbreviateShowsKey` | main.go:195-209 | When the key occurs and is at most 100 characters long, the abbreviated line still contains it. |
| `Cmdline.ShowCmdline` | main.go:190-216 | The display line is the command name, three spaces, then the abbreviation of the arguments joined with single spaces. So `Cmdline.Abbreviate`'s contract applies to everything after the three spaces. The joined line appears unabbreviated when it is at most 80 characters. The display line is never longer than the name plus 209 characters. |
| `Cmdline.EllipsesWithoutElision` | main.go:197-209 | Take a 100-character command line starting with the key. Nothing needs cutting, yet the source output carries "..." on both sides, while the corrected version returns the line itself. |
| `Cmdline.AbbreviateIntended` | main.go:197-209 | Corrected abbreviation. It has a leading "..." only when characters before the window were cut, and a trailing "..." only when characters after it were cut. Its length is the window plus 3 per cut side. |

## Left out

- Reading /proc is not modelled: `NewDefaultFS`, `Proc`, `AllProcs`, `NewStat`, `Comm` and `CmdLine`. It is filesystem I/O in a library outside this model. A listing is an input sequence, and the error return when /proc cannot be opened is not modelled.
- Ignored read errors (main.go:125-126, 128, 130) are not modelled. The model requires every read to succeed and the root to be listed (main.go:52 checks the root exists before sampling). In Go, a failed read stores a zero-valued stat, whose pid 0 would make line 132 collect every process whose parent is 0.
- The process table changing during one discovery is not modelled. The listing is fixed, so the stat stored at line 135 and the one re-read at line 127 are the same record.
- Tick-to-seconds conversion, percentages and the fixed tick rate of 100 (main.go:70, 100-109) are not modelled. They are floating point and formatted output, so the model stops at tick totals.
- Flag parsing, `strconv.ParseInt`, `os.Exit`, `time.Sleep`, the repetition loop and all printing (main.go:19-65, 76, 86, 92, 98, 171-183) are not modelled. They are CLI, timing and console I/O. The "ended" and "new process appeared" lines become the `ended` and `appeared` fields.
- Only 64-bit hosts are modelled. `Tick` and the totals wrap at 2^64. On a 32-bit host, Go's `uint` and the procfs `UTime`/`STime` fields wrap at 2^32 instead.
- Go strings are byte sequences, and the model's strings are character sequences, one character per byte. Lengths and slices agree only for ASCII text.
- SnapshotDiff.DiffSnapshots: states which pids are reported as appeared and ended, but not the order of the printed lines. That order follows Go's random map iteration.
- Discovery.Discover: states the discovered set and stats, but not the breadth-first order in which pids are popped. The result does not depend on that order.

## Findings

| source | as written | input that shows it | evidently intended | confidence | as-written member | corrected member |
|---|---|---|---|---|---|---|
| main.go:197-209 | The clamp branch at line 201 sets the leading ellipsis to "..." again, so the line always starts with "..." even when the window starts at 0. Line 205 tests `end > len`, so "..." is appended when the window ends exactly at the end of the line. | Command line "x" followed by 99 'a' (100 characters), key "x". Output is "..." + whole line + "...", although nothing was cut. | Line 201 should set `pre_elipses = ""`, like the trailing case at line 207. Each "..." should appear only where characters were dropped. | medium; not executed | `Cmdline.Abbreviate`, `Cmdline.EllipsesWithoutElision` | `Cmdline.AbbreviateIntended` |
