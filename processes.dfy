/**
 * Worker processes as the supervisor sees them through their
 * `subprocess.Popen` handles, and one sweep of the reaping loop
 * (vcfs_to_aspera.py:84-91).
 *
 * When a process exits is not decided here: every handle carries the
 * answers its successive `poll()` calls will observe (`None` for
 * "still running", `Some(code)` for an exit status).  An exhausted list
 * of answers means the process keeps running.
 */
module Processes {
  import opened Wrappers

  /** A launched worker: a label (its launch number), its argument
      vector, the answers its next polls will see, and `returncode`. */
  datatype Process = Process(pid: nat, args: seq<string>, answers: seq<Option<int>>, returncode: Option<int>)

  /** `worker.returncode is not None` */
  predicate Finished(p: Process)
  {
    p.returncode.Some?
  }

  /** `Popen.poll()`: an exit status once seen is kept; otherwise the
      next answer is consumed and becomes the returncode. */
  function Poll(p: Process): Process
  {
    if Finished(p) || p.answers == [] then p
    else p.(answers := p.answers[1..], returncode := p.answers[0])
  }

  /** Some answer still to come reports an exit. */
  predicate WillExit(answers: seq<Option<int>>)
  {
    exists i :: 0 <= i < |answers| && answers[i].Some?
  }

  /** The labels of a list of handles, in list order. */
  function Pids(ws: seq<Process>): (ps: seq<nat>)
    ensures |ps| == |ws|
    ensures forall i :: 0 <= i < |ws| ==> ps[i] == ws[i].pid
  {
    if ws == [] then [] else [ws[0].pid] + Pids(ws[1..])
  }

  /** How many answers the handles still hold: a measure of remaining work. */
  function TotalAnswers(ws: seq<Process>): nat
  {
    if ws == [] then 0 else |ws[0].answers| + TotalAnswers(ws[1..])
  }

  /** `xs` is `ys` with some elements left out, the rest in order. */
  predicate IsSubseq(xs: seq<nat>, ys: seq<nat>)
    decreases |ys|
  {
    if xs == [] then true
    else if ys == [] then false
    else (xs[0] == ys[0] && IsSubseq(xs[1..], ys[1..])) || IsSubseq(xs, ys[1..])
  }

  predicate Increasing(xs: seq<nat>)
  {
    forall i, j :: 0 <= i < j < |xs| ==> xs[i] < xs[j]
  }

  /** The handles are distinct and in launch order. */
  predicate Ordered(ws: seq<Process>)
  {
    Increasing(Pids(ws))
  }

  /**
   * One sweep `for index, worker in enumerate(workers)`, polling each
   * visited handle and running `del workers[index]` on the finished ones.
   * Deleting shifts the next handle into the slot just visited, so the
   * enumeration steps over it: that handle is kept without being polled.
   */
  function Swept(ws: seq<Process>): (r: seq<Process>)
    ensures |r| <= |ws|
    decreases |ws|
  {
    if ws == [] then []
    else
      var w := Poll(ws[0]);
      if !Finished(w) then [w] + Swept(ws[1..])
      else if |ws| == 1 then []
      else [ws[1]] + Swept(ws[2..])
  }

  /** Whether the sweep polls the handle at `j`: the first one always,
      any other one exactly when its predecessor was not deleted. */
  ghost predicate Polled(ws: seq<Process>, j: nat)
    requires j < |ws|
  {
    j == 0 || !(Polled(ws, j - 1) && Finished(Poll(ws[j - 1])))
  }

  ghost function Mask(ws: seq<Process>): (m: seq<bool>)
    ensures |m| == |ws|
  {
    seq(|ws|, j requires 0 <= j < |ws| => Polled(ws, j))
  }

  /** What a sweep leaves, given which handles it polls: a polled handle
      that reports an exit is dropped, a polled running handle is kept in
      its polled state, an unpolled handle is kept unchanged. */
  ghost function Leave(ws: seq<Process>, m: seq<bool>): seq<Process>
    requires |m| == |ws|
  {
    if ws == [] then []
    else
      var w := Poll(ws[0]);
      var head := if !m[0] then [ws[0]] else if Finished(w) then [] else [w];
      head + Leave(ws[1..], m[1..])
  }

  lemma {:induction false} PolledShift(ws: seq<Process>, k: nat, j: nat)
    requires k + j < |ws| && Polled(ws, k)
    ensures Polled(ws[k..], j) == Polled(ws, k + j)
    decreases j
  {
    if j > 0 {
      PolledShift(ws, k, j - 1);
      assert ws[k..][j - 1] == ws[k + j - 1];
    }
  }

  /** The sweep is exactly: poll the handles `Polled` selects, drop the
      polled ones that report an exit, keep all others in order. */
  lemma {:induction false} SweptByMask(ws: seq<Process>)
    ensures Swept(ws) == Leave(ws, Mask(ws))
    decreases |ws|
  {
    if ws != [] {
      var w := Poll(ws[0]);
      var m := Mask(ws);
      assert m[0];
      if !Finished(w) {
        if |ws| > 1 {
          assert Polled(ws, 1);
          forall j | 0 <= j < |ws| - 1 ensures Mask(ws[1..])[j] == m[1..][j] {
            PolledShift(ws, 1, j);
          }
        }
        assert Mask(ws[1..]) == m[1..];
        SweptByMask(ws[1..]);
      } else if |ws| == 1 {
      } else {
        assert !m[1];
        var rest := ws[1..];
        assert Polled(ws, 1) == false;
        if |ws| > 2 {
          assert Polled(ws, 2);
          forall j | 0 <= j < |ws| - 2 ensures Mask(ws[2..])[j] == m[2..][j] {
            PolledShift(ws, 2, j);
          }
        }
        assert Mask(ws[2..]) == m[2..];
        assert rest[1..] == ws[2..] && m[1..][1..] == m[2..];
        SweptByMask(ws[2..]);
      }
    }
  }

  /** Once a poll has reported an exit, polling again changes nothing. */
  lemma PollStable(p: Process)
    requires Finished(Poll(p))
    ensures Poll(Poll(p)) == Poll(p)
  {
  }

  /** A running process that will exit and is still running after a poll
      will still exit, with one answer fewer left. */
  lemma PollProgress(p: Process)
    requires !Finished(p) && WillExit(p.answers) && !Finished(Poll(p))
    ensures WillExit(Poll(p).answers) && |Poll(p).answers| == |p.answers| - 1
  {
    var i :| 0 <= i < |p.answers| && p.answers[i].Some?;
    assert i > 0;
    assert Poll(p).answers[i - 1] == p.answers[i];
  }

  /** Every handle left by a sweep is a handle it was given, either
      polled and still running, or as it was. */
  lemma {:induction false} SweptMembers(ws: seq<Process>)
    ensures forall r :: r in Swept(ws) ==>
      exists q :: q in ws && (r == q || (r == Poll(q) && !Finished(r)))
    decreases |ws|
  {
    if ws != [] {
      var w := Poll(ws[0]);
      if !Finished(w) {
        SweptMembers(ws[1..]);
        assert ws[0] in ws;
        forall q | q in ws[1..] ensures q in ws { }
      } else if |ws| > 1 {
        SweptMembers(ws[2..]);
        assert ws[1] in ws;
        forall q | q in ws[2..] ensures q in ws { }
      }
    }
  }

  /** The labels left by a sweep are a subsequence of those it was given:
      nothing is added, nothing removed twice, the order is kept. */
  lemma {:induction false} SweptSubseq(ws: seq<Process>)
    ensures IsSubseq(Pids(Swept(ws)), Pids(ws))
    decreases |ws|
  {
    if ws != [] {
      var w := Poll(ws[0]);
      if !Finished(w) {
        SweptSubseq(ws[1..]);
        var xs := Pids(Swept(ws));
        assert xs[0] == ws[0].pid && xs[1..] == Pids(Swept(ws[1..]));
        assert Pids(ws)[1..] == Pids(ws[1..]);
      } else if |ws| > 1 {
        SweptSubseq(ws[2..]);
        var xs, ys := Pids(Swept(ws)), Pids(ws);
        assert xs[0] == ws[1].pid && xs[1..] == Pids(Swept(ws[2..]));
        assert ys[1..][0] == ws[1].pid && ys[1..][1..] == Pids(ws[2..]);
        assert IsSubseq(xs, ys[1..]);
      }
    }
  }

  /** A handle whose poll would report "still running" survives the sweep.
      Equivalently: a sweep removes only handles whose poll reported an exit. */
  lemma {:induction false} SweptKeepsRunning(ws: seq<Process>, j: nat)
    requires j < |ws| && !Finished(Poll(ws[j]))
    ensures ws[j].pid in Pids(Swept(ws))
    decreases |ws|
  {
    var r := Swept(ws);
    var w := Poll(ws[0]);
    if !Finished(w) {
      if j > 0 {
        SweptKeepsRunning(ws[1..], j - 1);
        assert Pids(r)[1..] == Pids(Swept(ws[1..]));
      } else {
        assert Pids(r)[0] == ws[0].pid;
      }
    } else {
      assert j > 0;
      if j == 1 {
        assert Pids(r)[0] == ws[1].pid;
      } else {
        SweptKeepsRunning(ws[2..], j - 2);
        assert Pids(r)[1..] == Pids(Swept(ws[2..]));
      }
    }
  }

  /** A sweep consumes answers and never adds any; when the first handle
      is running and has answers left, it consumes at least one. */
  lemma {:induction false} SweptAnswers(ws: seq<Process>)
    ensures TotalAnswers(Swept(ws)) <= TotalAnswers(ws)
    ensures ws != [] && !Finished(ws[0]) && ws[0].answers != [] ==>
      TotalAnswers(Swept(ws)) < TotalAnswers(ws)
    decreases |ws|
  {
    if ws != [] {
      var w := Poll(ws[0]);
      if !Finished(w) {
        SweptAnswers(ws[1..]);
        assert ([w] + Swept(ws[1..]))[1..] == Swept(ws[1..]);
      } else if |ws| > 1 {
        SweptAnswers(ws[2..]);
        assert ([ws[1]] + Swept(ws[2..]))[1..] == Swept(ws[2..]);
        assert ws[1..][1..] == ws[2..];
      }
    }
  }

  function BlindCode(o: Option<int>): Option<int>
  {
    if o.Some? then Some(0) else None
  }

  /** The same process with every exit status replaced by 0. */
  function Blind(p: Process): (q: Process)
  {
    p.(answers := seq(|p.answers|, i requires 0 <= i < |p.answers| => BlindCode(p.answers[i])),
       returncode := BlindCode(p.returncode))
  }

  function BlindAll(ws: seq<Process>): (bs: seq<Process>)
    ensures |bs| == |ws|
  {
    seq(|ws|, i requires 0 <= i < |ws| => Blind(ws[i]))
  }

  lemma BlindAllCons(w: Process, ws: seq<Process>)
    ensures BlindAll([w] + ws) == [Blind(w)] + BlindAll(ws)
  {
  }

  lemma BlindAllDrop(ws: seq<Process>, k: nat)
    requires k <= |ws|
    ensures BlindAll(ws)[k..] == BlindAll(ws[k..])
  {
  }

  lemma PollBlind(p: Process)
    ensures Poll(Blind(p)) == Blind(Poll(p))
  {
    if !Finished(p) && p.answers != [] {
      assert Blind(p).answers[1..] == Blind(Poll(p)).answers;
    }
  }

  /** Which handles a sweep keeps, and in what state, does not depend on
      the exit codes: zero and nonzero statuses are treated alike. */
  lemma {:induction false} SweptIgnoresCodes(ws: seq<Process>)
    ensures Swept(BlindAll(ws)) == BlindAll(Swept(ws))
    decreases |ws|
  {
    if ws != [] {
      var bs := BlindAll(ws);
      PollBlind(ws[0]);
      assert bs[0] == Blind(ws[0]);
      var w := Poll(ws[0]);
      if !Finished(w) {
        BlindAllDrop(ws, 1);
        SweptIgnoresCodes(ws[1..]);
        BlindAllCons(w, Swept(ws[1..]));
      } else if |ws| > 1 {
        assert bs[1] == Blind(ws[1]);
        BlindAllDrop(ws, 2);
        SweptIgnoresCodes(ws[2..]);
        BlindAllCons(ws[1], Swept(ws[2..]));
      }
    }
  }

  lemma {:induction false} SubseqMembers(xs: seq<nat>, ys: seq<nat>)
    requires IsSubseq(xs, ys)
    ensures forall x :: x in xs ==> x in ys
    decreases |ys|
  {
    if xs != [] {
      if xs[0] == ys[0] && IsSubseq(xs[1..], ys[1..]) {
        SubseqMembers(xs[1..], ys[1..]);
        assert xs == [xs[0]] + xs[1..];
      } else {
        SubseqMembers(xs, ys[1..]);
      }
    }
  }

  /** A subsequence of an increasing sequence is increasing. */
  lemma {:induction false} SubseqIncreasing(xs: seq<nat>, ys: seq<nat>)
    requires IsSubseq(xs, ys) && Increasing(ys)
    ensures Increasing(xs)
    decreases |ys|
  {
    if xs != [] {
      assert Increasing(ys[1..]);
      if xs[0] == ys[0] && IsSubseq(xs[1..], ys[1..]) {
        SubseqIncreasing(xs[1..], ys[1..]);
        SubseqMembers(xs[1..], ys[1..]);
        forall i | 0 < i < |xs| ensures xs[0] < xs[i] {
          assert xs[i] == xs[1..][i - 1];
          assert xs[i] in ys[1..];
        }
      } else {
        SubseqIncreasing(xs, ys[1..]);
      }
    }
  }

  /** The sweep loop keeps a running handle, polled, and moves on. */
  lemma SweepStepKept(ws: seq<Process>, i: nat)
    requires i < |ws| && !Finished(Poll(ws[i]))
    ensures var v := ws[i := Poll(ws[i])];
      v[..i + 1] + Swept(v[i + 1..]) == ws[..i] + Swept(ws[i..])
  {
    var v := ws[i := Poll(ws[i])];
    assert ws[i..][1..] == ws[i + 1..];
    assert v[..i + 1] == ws[..i] + [Poll(ws[i])];
    assert v[i + 1..] == ws[i + 1..];
  }

  /** The sweep loop deletes a finished handle; the index then passes
      over the handle that moved into its slot. */
  lemma SweepStepDeleted(ws: seq<Process>, i: nat)
    requires i < |ws| && Finished(Poll(ws[i]))
    ensures var v := ws[..i] + ws[i + 1..];
      && (i + 1 <= |v| ==> v[..i + 1] + Swept(v[i + 1..]) == ws[..i] + Swept(ws[i..]))
      && (i + 1 > |v| ==> v == ws[..i] + Swept(ws[i..]))
  {
    var v := ws[..i] + ws[i + 1..];
    assert ws[i..][1..] == ws[i + 1..];
    if i + 1 < |ws| {
      assert ws[i..][2..] == ws[i + 2..];
      assert v[..i + 1] == ws[..i] + [ws[i + 1]];
      assert v[i + 1..] == ws[i + 2..];
    } else {
      assert v == ws[..i];
    }
  }

  /** Two ordered lists, every handle of the first launched before every
      handle of the second, make an ordered list. */
  lemma OrderedConcat(ws: seq<Process>, ps: seq<Process>)
    requires Ordered(ws) && Ordered(ps)
    requires forall i, j :: 0 <= i < |ws| && 0 <= j < |ps| ==> ws[i].pid < ps[j].pid
    ensures Ordered(ws + ps)
  {
    var all := ws + ps;
    forall i, j | 0 <= i < j < |all| ensures Pids(all)[i] < Pids(all)[j] {
      if i < |ws| {
        assert Pids(all)[i] == Pids(ws)[i];
      } else {
        assert Pids(all)[i] == Pids(ps)[i - |ws|];
      }
      if j < |ws| {
        assert Pids(all)[j] == Pids(ws)[j];
      } else {
        assert Pids(all)[j] == Pids(ps)[j - |ws|];
      }
    }
  }

  /** A sweep keeps handles in launch order. */
  lemma SweptOrdered(ws: seq<Process>)
    requires Ordered(ws)
    ensures Ordered(Swept(ws))
  {
    SweptSubseq(ws);
    SubseqIncreasing(Pids(Swept(ws)), Pids(ws));
  }

  /** Two handles that both exit at their next poll: the sweep deletes
      the first and steps over the second, which the next sweep deletes. */
  lemma SkipExample(p: Process, q: Process)
    requires !Finished(p) && p.answers == [Some(0)]
    requires !Finished(q) && q.answers == [Some(1)]
    ensures Swept([p, q]) == [q]
    ensures Swept(Swept([p, q])) == []
  {
    assert [p, q][1..] == [q];
  }
}
