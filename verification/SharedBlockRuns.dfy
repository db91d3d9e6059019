// What a completed block was: every row read once, in order; and a block
// completes for every number of rows and lanes.

module SharedBlockRuns {
  import opened Options
  import opened SharedBlock

  // --- Complete means read ---

  ghost predicate ReadsRise<R>(log: seq<Event<R>>) {
    forall i, j :: 0 <= i < j < |log| && log[i].Read? && log[j].Read? ==> log[i].row < log[j].row
  }

  ghost predicate ReadRowOf<R(!new)>(log: seq<Event<R>>, row: nat) {
    exists seen: Option<R> :: Read(row, seen) in log
  }

  /** The parent has read the rows below n and no other. */
  ghost predicate ReadExactly<R(!new)>(log: seq<Event<R>>, n: nat) {
    && (forall row: nat :: row < n ==> ReadRowOf(log, row))
    && (forall i :: 0 <= i < |log| && log[i].Read? ==> log[i].row < n)
  }

  /** How many rows the parent has read by now, unless it failed. */
  ghost predicate ReadingInv<R(!new)>(w: World<R>) {
    && ReadsRise(w.log)
    && (!w.parent.ParentFailed? ==>
         ReadExactly(w.log, if w.parent.Auditing? then w.parent.row else if w.parent.Complete? then Rows(w) else 0))
  }

  lemma ReadNext<R(!new)>(log: seq<Event<R>>, n: nat, seen: Option<R>)
    requires ReadsRise(log) && ReadExactly(log, n)
    ensures ReadsRise(log + [Read(n, seen)]) && ReadExactly(log + [Read(n, seen)], n + 1)
  {
    var more := log + [Read(n, seen)];
    assert more[|log|] == Read(n, seen);
    forall row: nat | row < n + 1 ensures ReadRowOf(more, row) {
      if row < n {
        assert ReadRowOf(log, row);
        var s: Option<R> :| Read(row, s) in log;
        assert Read(row, s) in more;
      } else {
        assert Read(n, seen) in more;
      }
    }
  }

  lemma OtherEvent<R(!new)>(log: seq<Event<R>>, e: Event<R>)
    requires !e.Read? && ReadsRise(log)
    ensures ReadsRise(log + [e])
    ensures forall n: nat :: ReadExactly(log, n) ==> ReadExactly(log + [e], n)
  {
    forall row: nat | ReadRowOf(log, row) ensures ReadRowOf(log + [e], row) {
      var s: Option<R> :| Read(row, s) in log;
      assert Read(row, s) in log + [e];
    }
  }

  lemma ParentReads<R(!new)>(w: World<R>, w': World<R>)
    requires ReadingInv(w) && Inv(w) && ParentStep(w, w')
    ensures ReadingInv(w')
  {
    hide ReadsRise, ReadExactly, PullsInv, LanesInv, Ordered, AllZero, Sum;
    if GiveGo(w, w') {
      OtherEvent(w.log, Go);
    } else if ReadRow(w, w') {
      ReadNext(w.log, w.parent.row, w.results[w.parent.row]);
    }
  }

  lemma LaneReads<R(!new)>(w: World<R>, w': World<R>, l: nat)
    requires ReadingInv(w) && Shaped(w) && l < |w.lanes| && LaneStep(w, w', l)
    ensures ReadingInv(w')
  {
    hide ReadsRise, ReadExactly;
    if Execute(w, w', l) {
      OtherEvent(w.log, w'.log[|w.log|]);
    }
  }

  lemma {:induction false} ReadingInEveryRun<R(!new)>(rows: nat, lanes: nat, run: seq<World<R>>, i: nat)
    requires IsRun(rows, lanes, run) && i < |run|
    ensures ReadingInv(run[i])
  {
    hide Inv, ParentStep, LaneStep, ReadingInv;
    if i == 0 {
      NothingRead(rows, lanes, run[0]);
    } else {
      ReadingInEveryRun(rows, lanes, run, i - 1);
      InvInEveryRun(rows, lanes, run, i - 1);
      var w, w' := run[i - 1], run[i];
      assert Step(run[i - 1], run[i - 1 + 1]);
      if ParentStep(w, w') {
        ParentReads(w, w');
      } else {
        var l: nat :| l < |w.lanes| && LaneStep(w, w', l);
        LaneReads(w, w', l);
      }
    }
  }

  lemma NothingRead<R(!new)>(rows: nat, lanes: nat, w: World<R>)
    requires Init(rows, lanes, w)
    ensures ReadingInv(w)
  {
  }

  /** In every run the parent reads rows in ascending order, each at most once. */
  lemma ReadsAreInOrder<R(!new)>(rows: nat, lanes: nat, run: seq<World<R>>, i: nat, j: nat, k: nat)
    requires IsRun(rows, lanes, run) && i < |run|
    requires j < k < |run[i].log| && run[i].log[j].Read? && run[i].log[k].Read?
    ensures run[i].log[j].row < run[i].log[k].row
  {
    ReadingInEveryRun(rows, lanes, run, i);
  }

  /** When the parent is complete it has read every row, and for each the value that some lane executed it to. */
  lemma CompleteIsRead<R(!new)>(rows: nat, lanes: nat, run: seq<World<R>>, i: nat, row: nat)
    returns (lane: nat, value: R)
    requires IsRun(rows, lanes, run) && i < |run| && run[i].parent.Complete? && row < rows
    ensures Read(row, Some(value)) in run[i].log && Executed(row, lane, value) in run[i].log
  {
    hide IsRun;
    ReadingInEveryRun(rows, lanes, run, i);
    InvInEveryRun(rows, lanes, run, i);
    var log := run[i].log;
    assert ReadRowOf(log, row);
    var seen: Option<R> :| Read(row, seen) in log;
    var j :| 0 <= j < |log| && log[j] == Read(row, seen);
    ReadsFollowWrites(rows, lanes, run, i, j);
    value := seen.value;
    assert ExecutedBySome(log[..j], row, value);
    lane :| Executed(row, lane, value) in log[..j];
  }

  // --- A run that completes ---

  function Last<R>(run: seq<World<R>>): World<R>
    requires run != []
  {
    run[|run| - 1]
  }

  lemma Extended<R(!new)>(rows: nat, lanes: nat, run: seq<World<R>>, w: World<R>) returns (longer: seq<World<R>>)
    requires IsRun(rows, lanes, run) && Step(Last(run), w)
    ensures longer != [] && IsRun(rows, lanes, longer) && Last(longer) == w
  {
    hide Step;
    longer := run + [w];
    forall i | 0 <= i < |longer| - 1 ensures Step(longer[i], longer[i + 1]) {
      if i < |run| - 1 {
        assert longer[i] == run[i] && longer[i + 1] == run[i + 1];
      }
    }
  }

  lemma ByParent<R(!new)>(rows: nat, lanes: nat, run: seq<World<R>>, w: World<R>) returns (longer: seq<World<R>>)
    requires IsRun(rows, lanes, run) && Shaped(Last(run)) && ParentStep(Last(run), w)
    ensures longer != [] && IsRun(rows, lanes, longer) && Last(longer) == w
  {
    hide ParentStep, LaneStep, Init;
    longer := Extended(rows, lanes, run, w);
  }

  lemma ByLane<R(!new)>(rows: nat, lanes: nat, run: seq<World<R>>, w: World<R>, l: nat)
    returns (longer: seq<World<R>>)
    requires IsRun(rows, lanes, run) && Shaped(Last(run)) && l < |Last(run).lanes| && LaneStep(Last(run), w, l)
    ensures longer != [] && IsRun(rows, lanes, longer) && Last(longer) == w
  {
    hide ParentStep, LaneStep, Init;
    longer := Extended(rows, lanes, run, w);
  }

  /** The first k lanes stand here, the others there. */
  function Upto(lanes: nat, k: nat, here: Lane, there: Lane): (s: seq<Lane>)
    ensures |s| == lanes
  {
    seq(lanes, l => if l < k then here else there)
  }

  function Zeros(n: nat): (s: seq<nat>)
    ensures |s| == n
  {
    seq(n, _ => 0)
  }

  /** Nothing is executed yet. */
  function Waiting<R>(rows: nat, lanes: nat, ready: nat, at: seq<Lane>, parent: Parent): World<R> {
    World([], ready, false, 0, seq(rows, _ => None), seq(rows, _ => None), Zeros(lanes), seq(lanes, _ => 0), at,
          parent, [])
  }

  lemma {:induction false} AllForked<R(!new)>(rows: nat, lanes: nat, k: nat) returns (run: seq<World<R>>)
    requires rows > 0 && lanes > 0 && k <= lanes
    ensures run != [] && IsRun(rows, lanes, run)
    ensures Last(run) == Waiting(rows, lanes, 0, Upto(lanes, k, Starting, NotForked),
                                 if k < lanes then Forking(k) else WaitReady)
  {
    if k == 0 {
      run := [Waiting(rows, lanes, 0, Upto(lanes, 0, Starting, NotForked), Forking(0))];
      assert Upto(lanes, 0, Starting, NotForked) == seq(lanes, _ => NotForked);
    } else {
      var before := AllForked<R>(rows, lanes, k - 1);
      hide IsRun;
      var next := Waiting<R>(rows, lanes, 0, Upto(lanes, k, Starting, NotForked),
                             if k < lanes then Forking(k) else WaitReady);
      assert next.lanes == Upto(lanes, k - 1, Starting, NotForked)[k - 1 := Starting];
      assert Fork(Last(before), next);
      run := ByParent(rows, lanes, before, next);
    }
  }

  lemma {:induction false} AllReady<R(!new)>(rows: nat, lanes: nat, k: nat) returns (run: seq<World<R>>)
    requires rows > 0 && lanes > 0 && k <= lanes
    ensures run != [] && IsRun(rows, lanes, run)
    ensures Last(run) == Waiting(rows, lanes, k, Upto(lanes, k, Spinning(0), Starting), WaitReady)
  {
    if k == 0 {
      run := AllForked<R>(rows, lanes, lanes);
      assert Upto(lanes, lanes, Starting, NotForked) == Upto(lanes, 0, Spinning(0), Starting);
    } else {
      var before := AllReady<R>(rows, lanes, k - 1);
      hide IsRun;
      var next := Waiting<R>(rows, lanes, k, Upto(lanes, k, Spinning(0), Starting), WaitReady);
      assert next.lanes == Upto(lanes, k - 1, Spinning(0), Starting)[k - 1 := Spinning(0)];
      assert ReportReady(Last(before), next, k - 1);
      run := ByLane(rows, lanes, before, next, k - 1);
    }
  }

  ghost function ExecutedLog<R>(k: nat, value: nat -> R): (log: seq<Event<R>>)
    ensures forall row: nat :: row < k ==> Executed(row, 0, value(row)) in log
  {
    if k == 0 then [Go] else
      var before := ExecutedLog(k - 1, value);
      assert (before + [Executed(k - 1, 0, value(k - 1))])[|before|] == Executed(k - 1, 0, value(k - 1));
      before + [Executed(k - 1, 0, value(k - 1))]
  }

  function Filled<R>(rows: nat, k: nat, value: nat -> R): (s: seq<Option<R>>)
    ensures |s| == rows
  {
    seq(rows, row requires 0 <= row => if row < k then Some(value(row)) else None)
  }

  /** The first lane has done k rows. */
  ghost function Worked<R>(rows: nat, lanes: nat, k: nat, at: seq<Lane>, value: nat -> R): World<R>
    requires lanes > 0
  {
    World(Zeros(k), lanes, true, 0, Filled(rows, k, value), Filled(rows, k, _ => 0), Zeros(lanes)[0 := k],
          seq(lanes, _ => 0), at, WaitDone, ExecutedLog(k, value))
  }

  lemma AllGo<R(!new)>(rows: nat, lanes: nat, value: nat -> R) returns (run: seq<World<R>>)
    requires rows > 0 && lanes > 0
    ensures run != [] && IsRun(rows, lanes, run)
    ensures Last(run) == Worked(rows, lanes, 0, Upto(lanes, 0, Finished(0), Spinning(0))[0 := Pulling], value)
  {
    run := AllReady<R>(rows, lanes, lanes);
    hide IsRun;
    var go := Worked(rows, lanes, 0, Upto(lanes, 0, Finished(0), Spinning(0)), value);
    assert go == Last(run).(go := true, parent := WaitDone, log := Last(run).log + [Go]);
    assert GiveGo(Last(run), go);
    run := ByParent(rows, lanes, run, go);
    var next := go.(lanes := go.lanes[0 := Pulling]);
    assert SeeGo(go, next, 0);
    run := ByLane(rows, lanes, run, next, 0);
  }

  /** The first lane pulls and does one more row. */
  lemma OneRow<R(!new)>(rows: nat, lanes: nat, k: nat, run: seq<World<R>>, value: nat -> R)
    returns (longer: seq<World<R>>)
    requires lanes > 0 && k < rows && IsRun(rows, lanes, run)
    requires Last(run) == Worked(rows, lanes, k, Upto(lanes, 0, Finished(0), Spinning(0))[0 := Pulling], value)
    ensures longer != [] && IsRun(rows, lanes, longer)
    ensures Last(longer) ==
      Worked(rows, lanes, k + 1, Upto(lanes, 0, Finished(0), Spinning(0))[0 := Pulling], value)
  {
    var w := Last(run);
    hide IsRun;
    var w1 := SetLane(w, 0, Executing(k)).(pulls := w.pulls + [0]);
    assert Pull(w, w1, 0);
    longer := ByLane(rows, lanes, run, w1, 0);
    var w2 := SetLane(w1, 0, WroteResult(k)).(results := w1.results[k := Some(value(k))],
                                              log := w1.log + [Executed(k, 0, value(k))]);
    assert Execute(w1, w2, 0);
    longer := ByLane(rows, lanes, longer, w2, 0);
    var w3 := SetLane(w2, 0, WroteLane(k)).(workerLane := w2.workerLane[k := Some(0)]);
    assert Sign(w2, w3, 0);
    longer := ByLane(rows, lanes, longer, w3, 0);
    var w4 := SetLane(w3, 0, Pulling).(queries := w3.queries[0 := w3.queries[0] + 1]);
    assert Tally(w3, w4, 0);
    longer := ByLane(rows, lanes, longer, w4, 0);
    RowDone(rows, lanes, k, w, w4, value);
  }

  lemma RowDone<R(!new)>(rows: nat, lanes: nat, k: nat, w: World<R>, w': World<R>, value: nat -> R)
    requires lanes > 0 && k < rows
    requires w == Worked(rows, lanes, k, Upto(lanes, 0, Finished(0), Spinning(0))[0 := Pulling], value)
    requires w' == w.(pulls := w.pulls + [0], results := w.results[k := Some(value(k))],
                      workerLane := w.workerLane[k := Some(0)], queries := w.queries[0 := w.queries[0] + 1],
                      log := w.log + [Executed(k, 0, value(k))], lanes := w'.lanes)
    requires w'.lanes == w.lanes
    ensures w' == Worked(rows, lanes, k + 1, Upto(lanes, 0, Finished(0), Spinning(0))[0 := Pulling], value)
  {
    assert w'.pulls == Zeros(k + 1);
    assert w'.results == Filled(rows, k + 1, value);
    assert w'.workerLane == Filled(rows, k + 1, _ => 0);
    assert w'.queries == Zeros(lanes)[0 := k + 1];
  }

  lemma {:induction false} AllRows<R(!new)>(rows: nat, lanes: nat, k: nat, value: nat -> R)
    returns (run: seq<World<R>>)
    requires rows > 0 && lanes > 0 && k <= rows
    ensures run != [] && IsRun(rows, lanes, run)
    ensures Last(run) == Worked(rows, lanes, k, Upto(lanes, 0, Finished(0), Spinning(0))[0 := Pulling], value)
  {
    if k == 0 {
      run := AllGo(rows, lanes, value);
    } else {
      var before := AllRows(rows, lanes, k - 1, value);
      run := OneRow(rows, lanes, k - 1, before, value);
    }
  }

  /** Every row is done, and the first k lanes have found none left and ended. */
  ghost function Ending<R>(rows: nat, lanes: nat, k: nat, at: seq<Lane>, value: nat -> R): World<R>
    requires lanes > 0
  {
    Worked(rows, lanes, rows, at, value).(pulls := Zeros(rows) + seq(k, l => l), done := k)
  }

  /** A lane that pulls finds no row left, writes its status and reports. */
  lemma LaneEnds<R(!new)>(rows: nat, lanes: nat, k: nat, run: seq<World<R>>, value: nat -> R)
    returns (longer: seq<World<R>>)
    requires k < lanes && IsRun(rows, lanes, run)
    requires Last(run) == Ending(rows, lanes, k, Upto(lanes, k, Finished(0), Spinning(0))[k := Pulling], value)
    requires rows > 0
    ensures longer != [] && IsRun(rows, lanes, longer)
    ensures Last(longer) == Ending(rows, lanes, k + 1, Upto(lanes, k + 1, Finished(0), Spinning(0)), value)
  {
    var w := Last(run);
    hide IsRun;
    var w1 := SetLane(w, k, Stopped(0)).(pulls := w.pulls + [k]);
    assert Pull(w, w1, k);
    longer := ByLane(rows, lanes, run, w1, k);
    var w2 := SetLane(w1, k, WroteStatus(0)).(status := w1.status[k := 0]);
    assert WriteStatus(w1, w2, k);
    longer := ByLane(rows, lanes, longer, w2, k);
    var w3 := SetLane(w2, k, Finished(0)).(done := w2.done + 1);
    assert ReportDone(w2, w3, k);
    longer := ByLane(rows, lanes, longer, w3, k);
    assert w3.lanes == Upto(lanes, k + 1, Finished(0), Spinning(0));
    assert w3.status == w.status;
    assert w3.pulls == Zeros(rows) + seq(k + 1, l => l);
  }

  lemma {:induction false} AllEnded<R(!new)>(rows: nat, lanes: nat, k: nat, value: nat -> R)
    returns (run: seq<World<R>>)
    requires rows > 0 && 0 < k <= lanes
    ensures run != [] && IsRun(rows, lanes, run)
    ensures Last(run) == Ending(rows, lanes, k, Upto(lanes, k, Finished(0), Spinning(0)), value)
  {
    if k == 1 {
      run := AllRows(rows, lanes, rows, value);
      assert Zeros(rows) + seq(0, l => l) == Zeros(rows);
      run := LaneEnds(rows, lanes, 0, run, value);
    } else {
      var before := AllEnded(rows, lanes, k - 1, value);
      var next := LaneSeesGo(rows, lanes, k - 1, before, value);
      run := LaneEnds(rows, lanes, k - 1, next, value);
    }
  }

  lemma LaneSeesGo<R(!new)>(rows: nat, lanes: nat, k: nat, run: seq<World<R>>, value: nat -> R)
    returns (longer: seq<World<R>>)
    requires rows > 0 && k < lanes && IsRun(rows, lanes, run)
    requires Last(run) == Ending(rows, lanes, k, Upto(lanes, k, Finished(0), Spinning(0)), value)
    ensures longer != [] && IsRun(rows, lanes, longer)
    ensures Last(longer) == Ending(rows, lanes, k, Upto(lanes, k, Finished(0), Spinning(0))[k := Pulling], value)
  {
    var w := Last(run);
    hide IsRun;
    var next := SetLane(w, k, Pulling);
    assert SeeGo(w, next, k);
    longer := ByLane(rows, lanes, run, next, k);
  }

  lemma {:induction false} SumOfZeros(n: nat)
    ensures Sum(Zeros(n)) == 0
  {
    if n > 0 {
      assert Zeros(n)[1..] == Zeros(n - 1);
      SumOfZeros(n - 1);
    }
  }

  lemma Counted(lanes: nat, rows: nat)
    requires lanes > 0
    ensures Sum(Zeros(lanes)[0 := rows]) == rows
  {
    assert Zeros(lanes)[0 := rows][1..] == Zeros(lanes - 1);
    SumOfZeros(lanes - 1);
  }

  lemma AuditBegins<R(!new)>(rows: nat, lanes: nat, value: nat -> R) returns (run: seq<World<R>>)
    requires rows > 0 && lanes > 0
    ensures run != [] && IsRun(rows, lanes, run)
    ensures Last(run) ==
      Ending(rows, lanes, lanes, Upto(lanes, lanes, Finished(0), Spinning(0)), value).(parent := Auditing(0))
  {
    run := AllEnded(rows, lanes, lanes, value);
    var w := Last(run);
    hide IsRun;
    var w1 := w.(parent := Reaping);
    assert SeeDone(w, w1);
    run := ByParent(rows, lanes, run, w1);
    Counted(lanes, rows);
    var w2 := w1.(parent := Auditing(0));
    assert Reap(w1, w2);
    run := ByParent(rows, lanes, run, w2);
  }

  /** The parent has read the first k rows of a block whose rows hold these values. */
  lemma {:induction false} RowsRead<R(!new)>(rows: nat, lanes: nat, k: nat, value: nat -> R)
    returns (run: seq<World<R>>)
    requires lanes > 0 && k <= rows && rows > 0
    ensures run != [] && IsRun(rows, lanes, run)
    ensures Last(run).parent == if k < rows then Auditing(k) else Complete
    ensures Shaped(Last(run)) && Last(run).results == Filled(rows, rows, value) && AllZero(Last(run).status)
    ensures forall row: nat :: row < rows ==> Executed(row, 0, value(row)) in Last(run).log
    ensures forall row: nat :: row < k ==> Read(row, Some(value(row))) in Last(run).log
  {
    if k == 0 {
      run := AuditBegins(rows, lanes, value);
    } else {
      var before := RowsRead(rows, lanes, k - 1, value);
      var w := Last(before);
      hide IsRun;
      var seen := Read(k - 1, w.results[k - 1]);
      var next := w.(parent := if k < rows then Auditing(k) else Complete, log := w.log + [seen]);
      assert ReadRow(w, next);
      run := ByParent(rows, lanes, before, next);
      assert next.log[|w.log|] == seen;
      assert forall e :: e in w.log ==> e in next.log;
    }
  }

  /** For any number of rows and lanes, and whatever the rows' values, there is a run
      that completes with every row executed to its value and read as that. */
  lemma SomeRunCompletes<R(!new)>(rows: nat, lanes: nat, value: nat -> R) returns (run: seq<World<R>>)
    requires rows > 0 && lanes > 0
    ensures run != [] && IsRun(rows, lanes, run) && Last(run).parent == Complete
    ensures forall row: nat :: row < rows ==>
      Executed(row, 0, value(row)) in Last(run).log && Read(row, Some(value(row))) in Last(run).log
  {
    run := RowsRead(rows, lanes, rows, value);
  }
}
