/**
 * The bounded-worker polling loop (vcfs_to_aspera.py:69-92): a FIFO
 * backlog of work items, an active list of at most `MaxWorkers` worker
 * handles, and an outer loop that fills free slots from the front of the
 * backlog and then sweeps the active list, until both are empty.
 */
module Supervision {
  import opened Wrappers
  import opened WorkList
  import opened Processes

  const MaxWorkers: nat := 2
  const Python: string := "python3"
  const Script: string := "worker.py"

  /** The argument vector of the worker launched for `w`. */
  function Argv(w: WorkItem): seq<string>
  {
    [Python, Script, w.source, w.dest]
  }

  function Argvs(items: seq<WorkItem>): (vs: seq<seq<string>>)
    ensures |vs| == |items|
  {
    seq(|items|, j requires 0 <= j < |items| => Argv(items[j]))
  }

  /** What the polls of the process launched `pid`-th will observe. */
  function Answers(oracle: seq<seq<Option<int>>>, pid: nat): seq<Option<int>>
  {
    if pid < |oracle| then oracle[pid] else []
  }

  /** `subprocess.Popen([python, script, a, b])` as the `pid`-th launch. */
  function Launch(w: WorkItem, pid: nat, oracle: seq<seq<Option<int>>>): Process
  {
    Process(pid, Argv(w), Answers(oracle, pid), None)
  }

  /** Launching `items` in order, the first as launch number `base`. */
  function Launched(items: seq<WorkItem>, base: nat, oracle: seq<seq<Option<int>>>): (ps: seq<Process>)
    ensures |ps| == |items|
  {
    seq(|items|, j requires 0 <= j < |items| => Launch(items[j], base + j, oracle))
  }

  /** The supervisor's state: the `work_list` deque, the `workers` list,
      and every argument vector passed to `Popen` so far. */
  datatype State = State(workList: seq<WorkItem>, workers: seq<Process>, launches: seq<seq<string>>)

  /** `while work_list or workers` */
  predicate Busy(s: State)
  {
    s.workList != [] || s.workers != []
  }

  /** How many items the fill loop takes from the backlog. */
  function Slots(s: State): nat
  {
    if |s.workers| >= MaxWorkers then 0
    else if |s.workList| < MaxWorkers - |s.workers| then |s.workList|
    else MaxWorkers - |s.workers|
  }

  /** The state after the fill loop (vcfs_to_aspera.py:75-83). */
  function Filled(s: State, oracle: seq<seq<Option<int>>>): (r: State)
    ensures |s.workers| <= MaxWorkers ==> |r.workers| <= MaxWorkers
    ensures |s.workers| <= MaxWorkers ==> r.workList == [] || |r.workers| == MaxWorkers
    ensures |r.workList| + |r.launches| == |s.workList| + |s.launches|
    ensures |r.workList| <= |s.workList| && |s.workers| <= |r.workers|
    ensures r.workers[..|s.workers|] == s.workers
    ensures r.launches == s.launches + Argvs(s.workList[..|s.workList| - |r.workList|])
    ensures r.workList == s.workList[|s.workList| - |r.workList|..]
    ensures |r.workers| - |s.workers| == |r.launches| - |s.launches|
    ensures forall j :: |s.workers| <= j < |r.workers| ==>
      && r.workers[j].pid == |s.launches| + (j - |s.workers|)
      && !Finished(r.workers[j])
      && r.workers[j].args == r.launches[r.workers[j].pid]
      && r.workers[j].answers == Answers(oracle, r.workers[j].pid)
  {
    var k := Slots(s);
    var ps := Launched(s.workList[..k], |s.launches|, oracle);
    var vs := Argvs(s.workList[..k]);
    AppendedLaunches(s.workers, s.launches, s.workList[..k], oracle);
    var r := State(s.workList[k..], s.workers + ps, s.launches + vs);
    assert |r.workList| == |s.workList| - k;
    assert |r.workers| == |s.workers| + k && |r.launches| == |s.launches| + k;
    assert r.workers[..|s.workers|] == s.workers;
    r
  }

  /** Each launch appends one running handle, numbered by its launch and
      carrying the argument vector recorded for it. */
  lemma AppendedLaunches(ws: seq<Process>, ls: seq<seq<string>>, items: seq<WorkItem>, oracle: seq<seq<Option<int>>>)
    ensures var ws', ls' := ws + Launched(items, |ls|, oracle), ls + Argvs(items);
      forall j :: |ws| <= j < |ws'| ==>
        && ws'[j].pid == |ls| + (j - |ws|)
        && !Finished(ws'[j])
        && ws'[j].args == ls'[ws'[j].pid]
        && ws'[j].answers == Answers(oracle, ws'[j].pid)
  {
    var ps, vs := Launched(items, |ls|, oracle), Argvs(items);
    forall j | |ws| <= j < |ws + ps|
      ensures (ws + ps)[j].pid == |ls| + (j - |ws|)
      ensures !Finished((ws + ps)[j])
      ensures (ws + ps)[j].args == (ls + vs)[(ws + ps)[j].pid]
      ensures (ws + ps)[j].answers == Answers(oracle, (ws + ps)[j].pid)
    {
      var i := j - |ws|;
      assert (ws + ps)[j] == ps[i] == Launch(items[i], |ls| + i, oracle);
      assert (ls + vs)[|ls| + i] == vs[i] == Argv(items[i]);
    }
  }

  /** One iteration of the outer loop: fill, then sweep. */
  function Stepped(s: State, oracle: seq<seq<Option<int>>>): State
  {
    var f := Filled(s, oracle);
    f.(workers := Swept(f.workers))
  }

  /** A handle of the active list: running, launched already, and with
      the argument vector of the item it was launched for. */
  ghost predicate Active(p: Process, launched: nat, items: seq<WorkItem>)
  {
    !Finished(p) && p.pid < launched && p.pid < |items| && p.args == Argv(items[p.pid])
  }

  /** The invariant of the loop, relative to the worklist `items` read
      from standard input: the backlog is what has not been launched yet,
      launches happened in input order, the ceiling holds, and the
      active handles are running, distinct and in launch order. */
  ghost predicate Consistent(s: State, items: seq<WorkItem>)
  {
    && |s.launches| <= |items|
    && s.workList == items[|s.launches|..]
    && s.launches == Argvs(items[..|s.launches|])
    && |s.workers| <= MaxWorkers
    && Ordered(s.workers)
    && forall i :: 0 <= i < |s.workers| ==> Active(s.workers[i], |s.launches|, items)
  }

  /** Every active handle will eventually report an exit. */
  ghost predicate Exiting(ws: seq<Process>)
  {
    forall i :: 0 <= i < |ws| ==> WillExit(ws[i].answers)
  }

  /** The oracle says every one of the first `n` launches eventually exits. */
  ghost predicate OracleExits(oracle: seq<seq<Option<int>>>, n: nat)
  {
    forall k :: 0 <= k < n ==> WillExit(Answers(oracle, k))
  }

  lemma InitialConsistent(items: seq<WorkItem>)
    ensures Consistent(State(items, [], []), items)
  {
    assert items[..0] == [];
  }

  lemma LaunchedSnoc(xs: seq<WorkItem>, x: WorkItem, base: nat, oracle: seq<seq<Option<int>>>)
    ensures Launched(xs + [x], base, oracle) == Launched(xs, base, oracle) + [Launch(x, base + |xs|, oracle)]
  {
  }

  lemma ArgvsAppend(xs: seq<WorkItem>, ys: seq<WorkItem>)
    ensures Argvs(xs + ys) == Argvs(xs) + Argvs(ys)
  {
  }

  /** Taking `k` more items off a backlog that starts at `n`. */
  lemma BacklogShift(items: seq<WorkItem>, n: nat, k: nat)
    requires n + k <= |items|
    ensures items[n..][k..] == items[n + k..]
    ensures Argvs(items[..n]) + Argvs(items[n..][..k]) == Argvs(items[..n + k])
  {
    assert items[..n + k] == items[..n] + items[n..][..k];
    ArgvsAppend(items[..n], items[n..][..k]);
  }

  lemma FilledBacklog(s: State, items: seq<WorkItem>, oracle: seq<seq<Option<int>>>)
    requires Consistent(s, items)
    ensures var r := Filled(s, oracle);
      && |r.launches| <= |items|
      && r.workList == items[|r.launches|..]
      && r.launches == Argvs(items[..|r.launches|])
  {
    var k, n := Slots(s), |s.launches|;
    BacklogShift(items, n, k);
  }

  /** Handles launched after everything already active keep the
      active list in launch order. */
  lemma OrderedAppend(ws: seq<Process>, items: seq<WorkItem>, base: nat, oracle: seq<seq<Option<int>>>)
    requires Ordered(ws) && forall i :: 0 <= i < |ws| ==> ws[i].pid < base
    ensures Ordered(ws + Launched(items, base, oracle))
  {
    var ps := Launched(items, base, oracle);
    forall i, j | 0 <= i < j < |ps| ensures Pids(ps)[i] < Pids(ps)[j] {
      assert ps[i].pid == base + i && ps[j].pid == base + j;
    }
    forall i, j | 0 <= i < |ws| && 0 <= j < |ps| ensures ws[i].pid < ps[j].pid {
      assert ps[j].pid == base + j;
    }
    OrderedConcat(ws, ps);
  }

  lemma FilledOrdered(s: State, items: seq<WorkItem>, oracle: seq<seq<Option<int>>>)
    requires Consistent(s, items)
    ensures Ordered(Filled(s, oracle).workers)
  {
    var k, n := Slots(s), |s.launches|;
    forall i | 0 <= i < |s.workers| ensures s.workers[i].pid < n {
      assert Active(s.workers[i], n, items);
    }
    OrderedAppend(s.workers, s.workList[..k], n, oracle);
  }

  /** Every handle of `ws` is active, and the launched ones are too. */
  lemma ActiveAppend(ws: seq<Process>, items: seq<WorkItem>, n: nat, k: nat, oracle: seq<seq<Option<int>>>)
    requires n + k <= |items|
    requires forall i :: 0 <= i < |ws| ==> Active(ws[i], n, items)
    ensures var all := ws + Launched(items[n..][..k], n, oracle);
      forall i :: 0 <= i < |all| ==> Active(all[i], n + k, items)
  {
    var ps := Launched(items[n..][..k], n, oracle);
    var all := ws + ps;
    forall i | 0 <= i < |all| ensures Active(all[i], n + k, items) {
      if i < |ws| {
        assert all[i] == ws[i];
      } else {
        assert all[i] == ps[i - |ws|];
        assert items[n..][..k][i - |ws|] == items[n + (i - |ws|)];
      }
    }
  }

  lemma FilledActive(s: State, items: seq<WorkItem>, oracle: seq<seq<Option<int>>>)
    requires Consistent(s, items)
    ensures var r := Filled(s, oracle);
      forall i :: 0 <= i < |r.workers| ==> Active(r.workers[i], |r.launches|, items)
  {
    var k, n := Slots(s), |s.launches|;
    ActiveAppend(s.workers, items, n, k, oracle);
  }

  /** Launches the oracle lets exit, appended to exiting handles. */
  lemma ExitingAppend(ws: seq<Process>, items: seq<WorkItem>, base: nat, oracle: seq<seq<Option<int>>>)
    requires Exiting(ws) && OracleExits(oracle, base + |items|)
    ensures Exiting(ws + Launched(items, base, oracle))
  {
    var ps := Launched(items, base, oracle);
    var all := ws + ps;
    forall i | 0 <= i < |all| ensures WillExit(all[i].answers) {
      if i >= |ws| {
        assert all[i] == ps[i - |ws|];
      } else {
        assert all[i] == ws[i];
      }
    }
  }

  lemma FilledExiting(s: State, items: seq<WorkItem>, oracle: seq<seq<Option<int>>>)
    requires Consistent(s, items) && OracleExits(oracle, |items|) && Exiting(s.workers)
    ensures Exiting(Filled(s, oracle).workers)
  {
    var k, n := Slots(s), |s.launches|;
    assert OracleExits(oracle, n + k);
    ExitingAppend(s.workers, s.workList[..k], n, oracle);
  }

  lemma FilledConsistent(s: State, items: seq<WorkItem>, oracle: seq<seq<Option<int>>>)
    requires Consistent(s, items)
    ensures Consistent(Filled(s, oracle), items)
    ensures OracleExits(oracle, |items|) && Exiting(s.workers) ==> Exiting(Filled(s, oracle).workers)
  {
    FilledBacklog(s, items, oracle);
    FilledOrdered(s, items, oracle);
    FilledActive(s, items, oracle);
    if OracleExits(oracle, |items|) && Exiting(s.workers) {
      FilledExiting(s, items, oracle);
    }
  }

  lemma SweptActive(ws: seq<Process>, n: nat, items: seq<WorkItem>)
    requires forall i :: 0 <= i < |ws| ==> Active(ws[i], n, items)
    ensures forall i :: 0 <= i < |Swept(ws)| ==> Active(Swept(ws)[i], n, items)
    ensures Exiting(ws) ==> Exiting(Swept(ws))
  {
    var r := Swept(ws);
    SweptMembers(ws);
    forall i | 0 <= i < |r|
      ensures Active(r[i], n, items)
      ensures Exiting(ws) ==> WillExit(r[i].answers)
    {
      assert r[i] in r;
      var q :| q in ws && (r[i] == q || (r[i] == Poll(q) && !Finished(r[i])));
      var j :| 0 <= j < |ws| && ws[j] == q;
      assert Active(ws[j], n, items);
      if Exiting(ws) && r[i] != q {
        assert WillExit(q.answers);
        PollProgress(q);
      }
    }
  }

  lemma SweptConsistent(s: State, items: seq<WorkItem>)
    requires Consistent(s, items)
    ensures Consistent(s.(workers := Swept(s.workers)), items)
    ensures Exiting(s.workers) ==> Exiting(Swept(s.workers))
  {
    SweptOrdered(s.workers);
    SweptActive(s.workers, |s.launches|, items);
  }

  /** The loop invariant is preserved by every iteration. */
  lemma SteppedConsistent(s: State, items: seq<WorkItem>, oracle: seq<seq<Option<int>>>)
    requires Consistent(s, items)
    ensures Consistent(Stepped(s, oracle), items)
    ensures OracleExits(oracle, |items|) && Exiting(s.workers) ==> Exiting(Stepped(s, oracle).workers)
  {
    FilledConsistent(s, items, oracle);
    SweptConsistent(Filled(s, oracle), items);
  }

  /** Every iteration of a busy loop launches an item or consumes a poll
      answer: with an oracle that eventually reports every exit, the loop
      terminates. */
  lemma SteppedProgress(s: State, items: seq<WorkItem>, oracle: seq<seq<Option<int>>>)
    requires Consistent(s, items) && Busy(s) && Exiting(s.workers)
    ensures var r := Stepped(s, oracle);
      |r.workList| < |s.workList|
      || (|r.workList| == |s.workList| && TotalAnswers(r.workers) < TotalAnswers(s.workers))
  {
    var f := Filled(s, oracle);
    SweptAnswers(f.workers);
    if Slots(s) == 0 {
      assert f.workers == s.workers;
      assert s.workers != [];
      assert Active(s.workers[0], |s.launches|, items);
      assert WillExit(s.workers[0].answers);
    }
  }

  /** When the loop stops, every input item was launched exactly once,
      in input order, and nothing is left in either collection. */
  lemma FinishedRun(s: State, items: seq<WorkItem>)
    requires Consistent(s, items) && !Busy(s)
    ensures s.launches == Argvs(items)
  {
    assert items[..|items|] == items;
  }

  class Supervisor {
    var workList: seq<WorkItem>
    var workers: seq<Process>
    var launches: seq<seq<string>>
    const oracle: seq<seq<Option<int>>>
    ghost const input: seq<WorkItem>

    function Snapshot(): State
      reads this
    {
      State(workList, workers, launches)
    }

    ghost predicate Valid()
      reads this
    {
      Consistent(Snapshot(), input)
    }

    /** `work_list` filled from standard input, `workers = []`. */
    constructor (items: seq<WorkItem>, oracle: seq<seq<Option<int>>>)
      ensures Snapshot() == State(items, [], [])
      ensures this.oracle == oracle && input == items
      ensures Valid()
    {
      workList, workers, launches := items, [], [];
      this.oracle, input := oracle, items;
      InitialConsistent(items);
    }

    /** `while work_list and (len(workers) < max_workers)`: pop the front
        item and append a handle launched for it. */
    method Fill()
      modifies this
      ensures Snapshot() == Filled(old(Snapshot()), oracle)
    {
      ghost var s0 := Snapshot();
      ghost var k := 0;
      while workList != [] && |workers| < MaxWorkers
        invariant k <= Slots(s0) && k <= |s0.workList|
        invariant workList == s0.workList[k..]
        invariant workers == s0.workers + Launched(s0.workList[..k], |s0.launches|, oracle)
        invariant launches == s0.launches + Argvs(s0.workList[..k])
        decreases |workList|
      {
        var work := workList[0];
        assert s0.workList[..k + 1] == s0.workList[..k] + [work];
        assert s0.workList[k + 1..] == workList[1..];
        LaunchedSnoc(s0.workList[..k], work, |s0.launches|, oracle);
        ArgvsAppend(s0.workList[..k], [work]);
        workList := workList[1..];
        workers := workers + [Launch(work, |launches|, oracle)];
        launches := launches + [Argv(work)];
        k := k + 1;
      }
      assert k == Slots(s0);
    }

    /** `for index, worker in enumerate(workers)`: poll, and
        `del workers[index]` once `returncode` is set. */
    method Sweep()
      modifies this
      ensures Snapshot() == old(Snapshot()).(workers := Swept(old(workers)))
    {
      ghost var w0 := workers;
      var index := 0;
      while index < |workers|
        invariant index <= |workers| + 1
        invariant index <= |workers| ==> workers[..index] + Swept(workers[index..]) == Swept(w0)
        invariant index > |workers| ==> workers == Swept(w0)
        invariant workList == old(workList) && launches == old(launches)
        decreases |workers| + 1 - index
      {
        ghost var ws := workers;
        var worker := Poll(workers[index]);
        workers := workers[index := worker];
        if Finished(worker) {
          // A nonzero returncode is an error, which the source ignores.
          workers := workers[..index] + workers[index + 1..];
          assert workers == ws[..index] + ws[index + 1..];
          SweepStepDeleted(ws, index);
        } else {
          SweepStepKept(ws, index);
        }
        index := index + 1;
      }
      if index == |workers| {
        assert workers[..index] == workers && workers[index..] == [];
      }
    }

    /** One iteration of `while work_list or workers`. */
    method Step()
      requires Valid()
      modifies this
      ensures Valid()
      ensures Snapshot() == Stepped(old(Snapshot()), oracle)
    {
      ghost var s0 := Snapshot();
      Fill();
      Sweep();
      SteppedConsistent(s0, input, oracle);
    }

    /** The whole supervisor loop: it stops only when the backlog and the
        active list are both empty, having launched every input item once,
        in input order. */
    method Run()
      requires Valid() && Exiting(workers) && OracleExits(oracle, |input|)
      modifies this
      ensures Valid()
      ensures workList == [] && workers == []
      ensures launches == Argvs(input)
    {
      while workList != [] || workers != []
        invariant Valid() && Exiting(workers)
        decreases |workList|, TotalAnswers(workers)
      {
        ghost var s0 := Snapshot();
        Step();
        SteppedConsistent(s0, input, oracle);
        SteppedProgress(s0, input, oracle);
      }
      FinishedRun(Snapshot(), input);
    }
  }

  /** The script from standard input on: read the worklist, then run the
      supervisor over it. Given that every worker eventually exits, a
      well-formed input launches `[python3, worker.py, a, b]` once per
      line, in line order; the first malformed line stops it before anything
      runs, and the error names that line and its field count. */
  method Supervise(lines: seq<string>, oracle: seq<seq<Option<int>>>)
      returns (r: Result<seq<seq<string>>, UnpackError>)
    requires OracleExits(oracle, |lines|)
    ensures r.Ok? <==> forall i :: 0 <= i < |lines| ==> ParseLine(lines[i]).Ok?
    ensures r.Ok? ==> |r.value| == |lines|
    ensures r.Ok? ==> forall i :: 0 <= i < |lines| ==>
      ParseLine(lines[i]).Ok? && r.value[i] == Argv(ParseLine(lines[i]).value)
    ensures r.Err? ==> r.error.line < |lines|
                       && ParseLine(lines[r.error.line]) == Err(r.error.found)
                       && forall i :: 0 <= i < r.error.line ==> ParseLine(lines[i]).Ok?
  {
    var parsed := ReadWorkList(lines);
    if parsed.Err? {
      return Err(parsed.error);
    }
    var supervisor := new Supervisor(parsed.value, oracle);
    supervisor.Run();
    return Ok(supervisor.launches);
  }
}
