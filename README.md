# Bounded-worker VCF supervisor — a Dafny model

`vcfs_to_aspera.py` reads a worklist of `(source VCF, destination directory)`
pairs from standard input, then runs `python3 worker.py <source> <dest>` for
each pair, never more than two workers at a time. A single-threaded loop
does the work. It fills free slots from the front of a FIFO backlog (a
`deque`). It then polls the active `workers` list and deletes every handle
whose `returncode` is set. It sleeps one second and repeats until both
collections are empty. This project models that loop, the line parsing in
front of it, and the zero-padded batch number of the configuration.

Modules:

- `Wrappers` (wrappers.dfy): `Option` and `Result`.
- `WorkList` (worklist.dfy): `str.rstrip`, `str.split()` and the two-field
  unpacking of every input line, plus the stdin loop that builds the deque.
- `BatchName` (batch.dfy): `'{0:02d}'.format(batch)`.
- `Processes` (processes.dfy): a `Popen` handle as a value, `poll()`, and one
  sweep of the `enumerate`/`del` reaping loop.
- `Supervision` (supervisor.dfy): the supervisor state. It has specification
  functions for the fill step and for one outer iteration, and the loop
  invariant with its preservation and progress lemmas. The class `Supervisor`
  has the fields `workList`, `workers` and `launches`, and its methods `Fill`,
  `Sweep`, `Step` and `Run` are written as loops that update those fields.
  Each method is proved against the specification functions. `Supervise`
  runs the script from reading standard input to the end of the supervising
  loop.

When each process exits comes from an oracle, not from a real OS. Launch
number `k` gets the answer list `oracle[k]`, and each `poll()` of that
process consumes one answer (`None` = still running, `Some(code)` = exited).
An exhausted list means the process keeps running. The `launches` field
records every argument vector handed to `Popen`, in order.

The sweep is modelled as the code behaves, not as a clean design would do it.
`del workers[index]` inside `for index, worker in enumerate(workers)` moves the
next handle into the slot that was just visited. The enumeration then steps
over that handle, so it is not polled in that sweep. It is polled, and
reaped if finished, on a later iteration. `Processes.Polled` gives the rule
(a handle is polled unless the one before it was polled and deleted), and
`SkipExample` shows the case of two handles that exit together. The sweep
does not collect the exited handles first; it deletes them during the
enumeration, which causes the skip described above.

## Model

| member | source | states |
|---|---|---|
| WorkList.Fields | vcfs_to_aspera.py:66 | `split()` yields only non-empty, whitespace-free fields |
| WorkList.FieldsLeading | vcfs_to_aspera.py:66 | whitespace in front of a line never changes its fields |
| WorkList.FieldsSeparated | vcfs_to_aspera.py:66 | a whitespace-free name followed by any non-empty run of whitespace splits off as the first field, and the rest splits on its own |
| WorkList.FieldsKeepText | vcfs_to_aspera.py:66 | the fields, put back together, are exactly the line's non-whitespace characters in order: nothing is lost, added or reordered |
| WorkList.RStrip | vcfs_to_aspera.py:66 | `rstrip()` returns a prefix whose removed tail is all whitespace and that does not end in whitespace |
| WorkList.FieldsRStrip | vcfs_to_aspera.py:66 | the `rstrip()` before `split()` never changes the fields |
| WorkList.FieldsJoin | vcfs_to_aspera.py:66 | splitting fields that were joined with single spaces gives the fields back |
| WorkList.ParseLine | vcfs_to_aspera.py:66 | a line unpacks into `(a, b)` exactly when it splits into two fields, and `a`, `b` are those fields; otherwise the error carries the field count |
| WorkList.ParseLineOf | vcfs_to_aspera.py:66 | every line of two whitespace-free names, with any whitespace before and after and at least one whitespace character between, unpacks into those two names |
| WorkList.ParseLineShape | vcfs_to_aspera.py:66 | conversely, a line unpacks into `(a, b)` only if it is whitespace, `a`, at least one whitespace character, `b` and whitespace |
| WorkList.LineRoundTrip | vcfs_to_aspera.py:65-66 | a line `a b\n` made of two whitespace-free names parses back to the item `(a, b)` |
| WorkList.ReadWorkList | vcfs_to_aspera.py:64-67 | the deque holds one item per line, in line order, exactly when every line unpacks; otherwise the error names the first bad line and its field count |
| BatchName.FormatBatch | vcfs_to_aspera.py:30 | the batch string is at least two characters, exactly two for 0..99, all digits exactly when the number is not negative; a leading zero appears only as padding below 10, and a negative number is `-` followed by its digits without padding |
| BatchName.BatchRoundTrip | vcfs_to_aspera.py:30 | reading the formatted batch number back as an integer gives the number |
| BatchName.FormatBatchInjective | vcfs_to_aspera.py:30 | distinct batch numbers give distinct strings |
| Processes.PollStable | vcfs_to_aspera.py:85-86 | once `poll()` has reported an exit status, polling again changes nothing |
| Processes.PollProgress | vcfs_to_aspera.py:85-86 | a poll that reports "still running" uses up one answer and keeps the later exit |
| Processes.Swept | vcfs_to_aspera.py:84-91 | one sweep never lengthens the active list |
| Processes.SweptByMask | vcfs_to_aspera.py:84-91 | the sweep polls the first handle and each handle whose predecessor was not deleted; it drops the polled handles that report an exit, keeps polled running handles in their polled state, and keeps skipped handles unchanged, all in order |
| Processes.SweptMembers | vcfs_to_aspera.py:84-91 | every handle left by a sweep was in the list, either unpolled or polled and still running |
| Processes.SweptSubseq | vcfs_to_aspera.py:84-91 | the handles left are a subsequence of the handles swept: nothing added, nothing removed twice, order kept |
| Processes.SweptOrdered | vcfs_to_aspera.py:84-91 | a sweep keeps the active list in launch order |
| Processes.SweptKeepsRunning | vcfs_to_aspera.py:84-91 | a handle whose poll says "still running" survives, so only handles whose poll reported an exit are removed |
| Processes.SweptAnswers | vcfs_to_aspera.py:84-91 | a sweep uses up poll answers and never adds any; it uses at least one when the first handle is running and has answers left |
| Processes.SweptIgnoresCodes | vcfs_to_aspera.py:88-91 | the sweep maps an exit status of zero and a nonzero one to the same state change (removal), so replacing every status by 0 commutes with it |
| Processes.SkipExample | vcfs_to_aspera.py:84-91 | with two handles that both exit at their next poll, the sweep deletes the first and skips the second, and the next sweep deletes the second |
| Supervision.Filled | vcfs_to_aspera.py:75-83 | after the fill loop the ceiling of 2 holds and either the backlog is empty or all slots are full; items come from the front of the backlog and their argument vectors `[python3, worker.py, a, b]` are appended in order; backlog plus launches is unchanged; each launch appends exactly one handle to the active list, running, numbered by its launch, carrying the argument vector recorded for that launch and the poll answers the oracle gives it |
| Supervision.AppendedLaunches | vcfs_to_aspera.py:79-83 | every handle appended by a run of launches is running, numbered by its launch, and carries that launch's argument vector and oracle answers |
| Supervision.InitialConsistent | vcfs_to_aspera.py:64-70 | the state with the whole worklist in the backlog and no workers satisfies the loop invariant |
| Supervision.FilledBacklog | vcfs_to_aspera.py:75-76 | after a fill the backlog is still the input without the items launched so far, and those were launched in input order |
| Supervision.FilledOrdered | vcfs_to_aspera.py:79-83 | newly launched handles join the back of the active list, which stays in launch order |
| Supervision.FilledActive | vcfs_to_aspera.py:77-83 | every handle in the active list after a fill is running and carries the argument vector of the item it was launched for |
| Supervision.FilledExiting | vcfs_to_aspera.py:79-83 | if the oracle reports an exit for every launch, every active handle after a fill will eventually exit |
| Supervision.FilledConsistent | vcfs_to_aspera.py:75-83 | the fill loop preserves the loop invariant |
| Supervision.SweptActive | vcfs_to_aspera.py:84-91 | every handle left by a sweep is still running, carries its item's argument vector, and will still exit if it was going to |
| Supervision.SweptConsistent | vcfs_to_aspera.py:84-91 | the sweep preserves the loop invariant and the eventual exit of every active handle |
| Supervision.SteppedConsistent | vcfs_to_aspera.py:74-91 | every outer iteration preserves the invariant: ceiling, FIFO launches, backlog length plus launches equal to the input length, distinct running handles |
| Supervision.SteppedProgress | vcfs_to_aspera.py:74-92 | an iteration of a busy loop launches an item or uses up a poll answer, so the loop terminates when every worker eventually exits |
| Supervision.FinishedRun | vcfs_to_aspera.py:74 | when both collections are empty, every input item has been launched exactly once, in input order |
| Supervision.Supervisor.constructor | vcfs_to_aspera.py:64-70 | starts with the worklist as backlog, no workers and no launches, satisfying the invariant |
| Supervision.Supervisor.Fill | vcfs_to_aspera.py:75-83 | the `popleft`/`Popen`/`append` loop ends in the state `Filled` describes |
| Supervision.Supervisor.Sweep | vcfs_to_aspera.py:84-91 | the `enumerate`/`poll`/`del` loop leaves exactly `Swept` of the active list and changes nothing else |
| Supervision.Supervisor.Step | vcfs_to_aspera.py:74-91 | one outer iteration is fill then sweep, and it keeps the invariant |
| Supervision.Supervisor.Run | vcfs_to_aspera.py:74-92 | the outer loop stops only with both collections empty, having launched every input item exactly once, in input order |
| Supervision.Supervise | vcfs_to_aspera.py:64-92 | a well-formed input launches `[python3, worker.py, a, b]` once per line, in line order; the first malformed line stops the script before anything is launched, and the error names that line and its field count, every earlier line being well formed |

## Left out

- YAML loading, the attribute-bag `BatchInfo` configuration and its string templating (vcfs_to_aspera.py:22-34, except the batch number at line 30). This is file I/O and dynamic attribute injection.
- Directory checks and creation, the pandas CSV reading and the SNP/indel count comparison (vcfs_to_aspera.py:36-60). This is filesystem work and a foreign library, and the comparison only prints.
- Every `print` and the `time.sleep(1)` between iterations (vcfs_to_aspera.py:78, 87, 92). These are console and timing side effects and change no state.
- Real process execution and what `worker.py` does. A `Popen` call is a `Process` value, and its exit is decided by the oracle. `stdout`/`stderr` going to `DEVNULL` is not modelled.
- `Popen` objects are modelled as values that the active list owns alone. Object identity is replaced by the launch number in `pid`. No other reference to a handle exists in the source.
- `start_work_vcf` (vcfs_to_aspera.py:95-107). It is never called, and it refers to names that are not defined.
- `start_work_indel` (vcfs_to_aspera.py:110-124). It sits inside a string literal, so it is a string, not code.
- `main()` (vcfs_to_aspera.py:18-20). `main()` is called at vcfs_to_aspera.py:127, after the supervising loop has finished. It then raises `NameError`, because `load_yaml_config` (line 19) is not defined. This happens after the modelled core.
- Log files, outcome records, launch-failure handling, poll errors and clamping of `max_workers`. The code has none of these. `max_workers` is the constant 2.
- Supervision.Supervisor.Run: requires that every launched process eventually reports an exit (`OracleExits`). With a worker that never exits, the source loops forever, and a Dafny method must terminate. `Step` has no such requirement and models every iteration, hung workers included.
- Supervision.Supervise: requires the same eventual-exit condition, for the same reason.
- WorkList.IsSpace: lists the characters for which Python's `str.isspace` is true. No other Unicode data is modelled. Reading stdin, and its decoding into characters, is an input parameter (`lines`).
- BatchName.FormatBatch: models only integer batch numbers. A boolean or a non-integer value in the YAML file is not modelled.
