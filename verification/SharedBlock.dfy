// One timed block: forked lanes pull rows from a shared counter while the
// parent waits for them, as atomic steps.

module SharedBlock {
  import opened Options

  // --- State ---

  datatype Lane =
    | NotForked
    | Starting
    | Spinning(status: int)
    | Pulling
    | Executing(row: nat)
    | WroteResult(row: nat)
    | WroteLane(row: nat)
    | Stopped(status: int)
    | WroteStatus(status: int)
    | Finished(status: int)

  datatype Parent = Forking(lane: nat) | WaitReady | WaitDone | Reaping | Auditing(row: nat)
    | CensusDiffers | ParentFailed | Complete

  datatype Event<R> = Go | Executed(row: nat, lane: nat, value: R) | Read(row: nat, seen: Option<R>)

  /** `pulls` records which lane made each fetch-and-add on the row counter. */
  datatype World<R> = World(
    pulls: seq<nat>, ready: nat, go: bool, done: nat,
    results: seq<Option<R>>, workerLane: seq<Option<nat>>, queries: seq<nat>, status: seq<int>,
    lanes: seq<Lane>, parent: Parent, log: seq<Event<R>>)

  ghost predicate Init<R>(rows: nat, lanes: nat, w: World<R>) {
    && rows > 0 && lanes > 0
    && w == World([], 0, false, 0, seq(rows, _ => None), seq(rows, _ => None), seq(lanes, _ => 0), seq(lanes, _ => 0),
                  seq(lanes, _ => NotForked), Forking(0), [])
  }

  function SetLane<R>(w: World<R>, l: nat, p: Lane): World<R>
    requires l < |w.lanes|
  {
    w.(lanes := w.lanes[l := p])
  }

  function Rows<R>(w: World<R>): nat {
    |w.results|
  }

  ghost predicate Shaped<R>(w: World<R>) {
    && |w.workerLane| == |w.results| && |w.queries| == |w.lanes| == |w.status|
    && 0 < |w.lanes| && 0 < |w.results|
  }

  // --- Lane steps ---

  /** Pinning the lane may fail; either way it reports ready. */
  ghost predicate ReportReady<R>(w: World<R>, w': World<R>, l: nat)
    requires Shaped(w) && l < |w.lanes|
  {
    && w.lanes[l].Starting?
    && exists status: int ::
         (status == 0 || status == 3) && w' == SetLane(w, l, Spinning(status)).(ready := w.ready + 1)
  }

  ghost predicate SeeGo<R>(w: World<R>, w': World<R>, l: nat)
    requires Shaped(w) && l < |w.lanes|
  {
    && w.lanes[l].Spinning? && w.go
    && w' == SetLane(w, l, if w.lanes[l].status == 0 then Pulling else Stopped(w.lanes[l].status))
  }

  /** fetch_add: take the next row, or stop when none is left. */
  ghost predicate Pull<R>(w: World<R>, w': World<R>, l: nat)
    requires Shaped(w) && l < |w.lanes|
  {
    && w.lanes[l].Pulling?
    && var row := |w.pulls|;
       w' == SetLane(w, l, if row < Rows(w) then Executing(row) else Stopped(0)).(pulls := w.pulls + [l])
  }

  ghost predicate Execute<R(!new)>(w: World<R>, w': World<R>, l: nat)
    requires Shaped(w) && l < |w.lanes|
  {
    && w.lanes[l].Executing? && w.lanes[l].row < Rows(w)
    && var row := w.lanes[l].row;
       exists value: R ::
         w' == SetLane(w, l, WroteResult(row)).(results := w.results[row := Some(value)],
                                                log := w.log + [Executed(row, l, value)])
  }

  ghost predicate Sign<R>(w: World<R>, w': World<R>, l: nat)
    requires Shaped(w) && l < |w.lanes|
  {
    && w.lanes[l].WroteResult? && w.lanes[l].row < Rows(w)
    && w' == SetLane(w, l, WroteLane(w.lanes[l].row)).(workerLane := w.workerLane[w.lanes[l].row := Some(l)])
  }

  ghost predicate Tally<R>(w: World<R>, w': World<R>, l: nat)
    requires Shaped(w) && l < |w.lanes|
  {
    && w.lanes[l].WroteLane?
    && w' == SetLane(w, l, Pulling).(queries := w.queries[l := w.queries[l] + 1])
  }

  /** An exception ends the lane's loop with status 2. */
  ghost predicate Throw<R>(w: World<R>, w': World<R>, l: nat)
    requires Shaped(w) && l < |w.lanes|
  {
    && (w.lanes[l].Executing? || w.lanes[l].WroteResult?)
    && w' == SetLane(w, l, Stopped(2))
  }

  ghost predicate WriteStatus<R>(w: World<R>, w': World<R>, l: nat)
    requires Shaped(w) && l < |w.lanes|
  {
    && w.lanes[l].Stopped?
    && w' == SetLane(w, l, WroteStatus(w.lanes[l].status)).(status := w.status[l := w.lanes[l].status])
  }

  ghost predicate ReportDone<R>(w: World<R>, w': World<R>, l: nat)
    requires Shaped(w) && l < |w.lanes|
  {
    && w.lanes[l].WroteStatus?
    && w' == SetLane(w, l, Finished(w.lanes[l].status)).(done := w.done + 1)
  }

  ghost predicate LaneStep<R(!new)>(w: World<R>, w': World<R>, l: nat)
    requires Shaped(w) && l < |w.lanes|
  {
    || ReportReady(w, w', l) || SeeGo(w, w', l) || Pull(w, w', l) || Execute(w, w', l) || Sign(w, w', l)
    || Tally(w, w', l) || Throw(w, w', l) || WriteStatus(w, w', l) || ReportDone(w, w', l)
  }

  // --- Parent steps ---

  function Sum(s: seq<nat>): nat {
    if s == [] then 0 else s[0] + Sum(s[1..])
  }

  ghost predicate Fork<R>(w: World<R>, w': World<R>) {
    && w.parent.Forking? && w.parent.lane < |w.lanes|
    && var next := w.parent.lane + 1;
       w' == SetLane(w, w.parent.lane, Starting).(parent := if next < |w.lanes| then Forking(next) else WaitReady)
  }

  ghost predicate GiveGo<R>(w: World<R>, w': World<R>) {
    && w.parent.WaitReady? && w.ready == |w.lanes|
    && w' == w.(go := true, parent := WaitDone, log := w.log + [Go])
  }

  ghost predicate SeeDone<R>(w: World<R>, w': World<R>) {
    w.parent.WaitDone? && w.done == |w.lanes| && w' == w.(parent := Reaping)
  }

  ghost predicate AllZero(status: seq<int>) {
    forall l :: 0 <= l < |status| ==> status[l] == 0
  }

  /** Every lane must have ended with status zero, and their row counts must add up. */
  ghost predicate Reap<R>(w: World<R>, w': World<R>) {
    && w.parent.Reaping?
    && w' == w.(parent := if !AllZero(w.status) then ParentFailed
                          else if Sum(w.queries) != Rows(w) then CensusDiffers
                          else Auditing(0))
  }

  /** The parent takes what is in the slot, written or not. */
  ghost predicate ReadRow<R>(w: World<R>, w': World<R>) {
    && w.parent.Auditing? && w.parent.row < Rows(w)
    && var next := w.parent.row + 1;
       w' == w.(parent := if next < Rows(w) then Auditing(next) else Complete,
                log := w.log + [Read(w.parent.row, w.results[w.parent.row])])
  }

  /** A deadline or a failed system call. */
  ghost predicate FailParent<R>(w: World<R>, w': World<R>) {
    w' == w.(parent := ParentFailed)
  }

  ghost predicate ParentStep<R>(w: World<R>, w': World<R>) {
    Fork(w, w') || GiveGo(w, w') || SeeDone(w, w') || Reap(w, w') || ReadRow(w, w') || FailParent(w, w')
  }

  ghost predicate Step<R(!new)>(w: World<R>, w': World<R>) {
    Shaped(w) && (ParentStep(w, w') || exists l: nat :: l < |w.lanes| && LaneStep(w, w', l))
  }

  ghost predicate IsRun<R(!new)>(rows: nat, lanes: nat, run: seq<World<R>>) {
    && run != [] && Init(rows, lanes, run[0])
    && forall i :: 0 <= i < |run| - 1 ==> Step(run[i], run[i + 1])
  }

  // --- Order of events ---

  ghost predicate NotExecuted<R(!new)>(log: seq<Event<R>>, row: nat) {
    forall lane: nat, value: R :: Executed(row, lane, value) !in log
  }

  ghost predicate ExecutedBySome<R>(log: seq<Event<R>>, row: nat, value: R) {
    exists lane: nat :: Executed(row, lane, value) in log
  }

  ghost predicate MayFollow<R(!new)>(log: seq<Event<R>>, e: Event<R>) {
    match e
    case Go => Go !in log
    case Executed(row, _, _) => Go in log && NotExecuted(log, row)
    case Read(row, seen) => seen.Some? && ExecutedBySome(log, row, seen.value)
  }

  ghost predicate Ordered<R(!new)>(log: seq<Event<R>>) {
    forall i :: 0 <= i < |log| ==> MayFollow(log[..i], log[i])
  }

  lemma OrderedGrows<R(!new)>(log: seq<Event<R>>, e: Event<R>)
    requires Ordered(log) && MayFollow(log, e)
    ensures Ordered(log + [e])
  {
    hide MayFollow;
    forall i | 0 <= i < |log + [e]| ensures MayFollow((log + [e])[..i], (log + [e])[i]) {
      if i < |log| {
        assert (log + [e])[..i] == log[..i];
      } else {
        assert (log + [e])[..i] == log;
      }
    }
  }

  // --- Invariant ---

  /** How many rows carry this lane's signature. */
  function Signed(workerLane: seq<Option<nat>>, l: nat): nat {
    if workerLane == [] then 0 else (if workerLane[0] == Some(l) then 1 else 0) + Signed(workerLane[1..], l)
  }

  predicate AtRow(p: Lane, row: nat) {
    (p.Executing? || p.WroteResult? || p.WroteLane?) && p.row == row
  }

  predicate Ended(p: Lane) {
    p.Stopped? || p.WroteStatus? || p.Finished?
  }

  /** The result of a row is the value its lane logged. */
  ghost predicate HasResult<R>(w: World<R>, l: nat, row: nat)
    requires row < |w.results|
  {
    w.results[row].Some? && Executed(row, l, w.results[row].value) in w.log
  }

  /** Row taken by lane l: being worked on, complete, or lost to a failed lane. */
  ghost predicate RowInv<R(!new)>(w: World<R>, row: nat, l: nat)
    requires Shaped(w) && row < |w.results| && l < |w.lanes|
  {
    var p := w.lanes[l];
    if AtRow(p, row) then
      match p
      case Executing(_) => NotExecuted(w.log, row) && w.results[row] == None && w.workerLane[row] == None
      case WroteResult(_) => HasResult(w, l, row) && w.workerLane[row] == None
      case _ => HasResult(w, l, row) && w.workerLane[row] == Some(l)
    else
      || (HasResult(w, l, row) && w.workerLane[row] == Some(l))
      || (Ended(p) && p.status != 0 && (w.workerLane[row] == None || w.workerLane[row] == Some(l)))
  }

  ghost predicate LaneInv<R>(w: World<R>, l: nat)
    requires Shaped(w) && l < |w.lanes|
  {
    var p := w.lanes[l];
    && (p.Executing? || p.WroteResult? || p.WroteLane? ==> p.row < |w.pulls| && p.row < Rows(w) && w.pulls[p.row] == l)
    && (!p.NotForked? && !p.Starting? && !p.Spinning? ==> w.go)
    && (Ended(p) && p.status == 0 ==> |w.pulls| >= Rows(w))
    && (p.WroteStatus? || p.Finished? ==> w.status[l] == p.status)
    && w.queries[l] + (if p.WroteLane? then 1 else 0) == Signed(w.workerLane, l)
  }

  ghost predicate PullsInv<R(!new)>(w: World<R>)
    requires Shaped(w)
  {
    && (forall i :: 0 <= i < |w.pulls| ==> w.pulls[i] < |w.lanes|)
    && (forall i :: Rows(w) <= i < |w.pulls| ==> Ended(w.lanes[w.pulls[i]]))
    && (forall i, j :: Rows(w) <= i < j < |w.pulls| ==> w.pulls[i] != w.pulls[j])
    && (forall row: nat :: row < |w.pulls| && row < Rows(w) ==> RowInv(w, row, w.pulls[row]))
    && (forall row: nat :: |w.pulls| <= row < Rows(w) ==>
      NotExecuted(w.log, row) && w.results[row] == None && w.workerLane[row] == None)
  }

  predicate Reported(p: Lane) {
    !p.NotForked? && !p.Starting?
  }

  function CountReported(lanes: seq<Lane>): nat {
    if lanes == [] then 0 else (if Reported(lanes[0]) then 1 else 0) + CountReported(lanes[1..])
  }

  function CountFinished(lanes: seq<Lane>): nat {
    if lanes == [] then 0 else (if lanes[0].Finished? then 1 else 0) + CountFinished(lanes[1..])
  }

  ghost predicate AllFinished(lanes: seq<Lane>) {
    forall l :: 0 <= l < |lanes| ==> lanes[l].Finished?
  }

  ghost predicate ParentInv<R(!new)>(w: World<R>) {
    match w.parent
    case Forking(k) => !w.go && k < |w.lanes| && forall l :: k <= l < |w.lanes| ==> w.lanes[l].NotForked?
    case WaitReady => !w.go
    case WaitDone => w.go
    case Reaping => AllFinished(w.lanes)
    case Auditing(row) => AllFinished(w.lanes) && AllZero(w.status) && row < Rows(w)
    case Complete => AllFinished(w.lanes) && AllZero(w.status)
    case CensusDiffers => false
    case ParentFailed => true
  }

  ghost predicate LanesInv<R>(w: World<R>)
    requires Shaped(w)
  {
    forall l: nat :: l < |w.lanes| ==> LaneInv(w, l)
  }

  ghost predicate Inv<R(!new)>(w: World<R>) {
    && Shaped(w) && PullsInv(w) && LanesInv(w) && ParentInv(w)
    && Ordered(w.log) && (w.go <==> Go in w.log)
    && w.ready == CountReported(w.lanes) && w.done == CountFinished(w.lanes)
  }

  // --- Counting ---

  lemma {:induction false} CountsChange(lanes: seq<Lane>, l: nat, p: Lane)
    requires l < |lanes|
    ensures CountReported(lanes[l := p]) + (if Reported(lanes[l]) then 1 else 0)
         == CountReported(lanes) + (if Reported(p) then 1 else 0)
    ensures CountFinished(lanes[l := p]) + (if lanes[l].Finished? then 1 else 0)
         == CountFinished(lanes) + (if p.Finished? then 1 else 0)
  {
    if l == 0 {
      assert lanes[0 := p][1..] == lanes[1..];
    } else {
      CountsChange(lanes[1..], l - 1, p);
      assert lanes[l := p][1..] == lanes[1..][l - 1 := p];
    }
  }

  lemma {:induction false} AllCounted(lanes: seq<Lane>)
    ensures CountFinished(lanes) <= |lanes|
    ensures CountFinished(lanes) == |lanes| ==> AllFinished(lanes)
  {
    if lanes != [] {
      AllCounted(lanes[1..]);
      assert forall l :: 0 < l < |lanes| ==> lanes[l] == lanes[1..][l - 1];
    }
  }

  lemma {:induction false} SignedChanges(workerLane: seq<Option<nat>>, row: nat, l: nat, other: nat)
    requires row < |workerLane| && workerLane[row] == None
    ensures Signed(workerLane[row := Some(l)], other) == Signed(workerLane, other) + (if other == l then 1 else 0)
  {
    if row == 0 {
      assert workerLane[0 := Some(l)][1..] == workerLane[1..];
    } else {
      SignedChanges(workerLane[1..], row - 1, l, other);
      assert workerLane[row := Some(l)][1..] == workerLane[1..][row - 1 := Some(l)];
    }
  }

  lemma {:induction false} SumBumps(s: seq<nat>, l: nat)
    requires l < |s|
    ensures Sum(s[l := s[l] + 1]) == Sum(s) + 1
  {
    if l == 0 {
      assert s[0 := s[0] + 1][1..] == s[1..];
    } else {
      SumBumps(s[1..], l - 1);
      assert s[l := s[l] + 1][1..] == s[1..][l - 1 := s[l] + 1];
    }
  }

  lemma {:induction false} SumOfZeros(s: seq<nat>)
    requires forall l :: 0 <= l < |s| ==> s[l] == 0
    ensures Sum(s) == 0
  {
    if s != [] {
      SumOfZeros(s[1..]);
    }
  }

  /** When every row is signed by a lane, the lanes' signatures add up to the rows. */
  lemma {:induction false} SignaturesAddUp(workerLane: seq<Option<nat>>, counts: seq<nat>)
    requires forall row :: 0 <= row < |workerLane| ==> workerLane[row].Some? && workerLane[row].value < |counts|
    requires forall l :: 0 <= l < |counts| ==> counts[l] == Signed(workerLane, l)
    ensures Sum(counts) == |workerLane|
    decreases workerLane
  {
    if workerLane == [] {
      SumOfZeros(counts);
    } else {
      var l := workerLane[0].value;
      var rest := counts[l := Signed(workerLane[1..], l)];
      SignaturesAddUp(workerLane[1..], rest);
      SumBumps(rest, l);
      assert rest[l := rest[l] + 1] == counts;
    }
  }

  // --- Lane steps keep the invariant ---

  lemma OrderLogs<R(!new)>(log: seq<Event<R>>, e: Event<R>, row: nat)
    requires NotExecuted(log, row) && (e.Executed? ==> e.row != row)
    ensures NotExecuted(log + [e], row)
  {
  }

  /** A change of one lane's phase that leaves rows alone. */
  lemma PhaseKeepsRows<R(!new)>(w: World<R>, w': World<R>, l: nat)
    requires Inv(w) && l < |w.lanes|
    requires ReportReady(w, w', l) || SeeGo(w, w', l) || WriteStatus(w, w', l) || ReportDone(w, w', l)
    ensures Shaped(w') && PullsInv(w') && LanesInv(w')
  {
    hide ParentInv, PullsInv, Ordered, NotExecuted, CountReported, CountFinished, Signed;
    PhaseKeepsPulls(w, w', l);
    assert LaneInv(w, l);
    forall k: nat | k < |w.lanes| ensures LaneInv(w', k) {
      assert LaneInv(w, k);
    }
  }

  lemma PhaseKeepsPulls<R(!new)>(w: World<R>, w': World<R>, l: nat)
    requires Inv(w) && l < |w.lanes|
    requires ReportReady(w, w', l) || SeeGo(w, w', l) || WriteStatus(w, w', l) || ReportDone(w, w', l)
    ensures Shaped(w') && PullsInv(w')
  {
    hide Ordered, NotExecuted, ParentInv, LanesInv, LaneInv, CountReported, CountFinished, Signed;
    forall row: nat | row < |w.pulls| && row < Rows(w) ensures RowInv(w', row, w'.pulls[row]) {
      assert RowInv(w, row, w.pulls[row]);
    }
  }

  lemma QuietLaneKeeps<R(!new)>(w: World<R>, w': World<R>, l: nat)
    requires Inv(w) && l < |w.lanes|
    requires ReportReady(w, w', l) || SeeGo(w, w', l) || WriteStatus(w, w', l) || ReportDone(w, w', l)
    ensures Inv(w')
  {
    hide Ordered, PullsInv, LanesInv;
    PhaseKeepsRows(w, w', l);
    CountsChange(w.lanes, l, w'.lanes[l]);
    assert !w.lanes[l].Finished?;
  }

  lemma PullKeeps<R(!new)>(w: World<R>, w': World<R>, l: nat)
    requires Inv(w) && l < |w.lanes| && Pull(w, w', l)
    ensures Inv(w')
  {
    hide Ordered, NotExecuted;
    CountsChange(w.lanes, l, w'.lanes[l]);
    assert LaneInv(w, l);
    forall k: nat | k < |w.lanes| ensures LaneInv(w', k) {
      assert LaneInv(w, k);
    }
    forall row: nat | row < |w'.pulls| && row < Rows(w) ensures RowInv(w', row, w'.pulls[row]) {
      if row < |w.pulls| {
        assert RowInv(w, row, w.pulls[row]);
      }
    }
    assert !w.lanes[l].Finished?;
  }

  lemma ExecuteKeeps<R(!new)>(w: World<R>, w': World<R>, l: nat)
    requires Inv(w) && l < |w.lanes| && Execute(w, w', l)
    ensures Inv(w')
  {
    hide Ordered, NotExecuted, PullsInv, LanesInv, Signed;
    var row := w.lanes[l].row;
    ExecuteKeepsPulls(w, w', l);
    ExecuteKeepsLanes(w, w', l);
    CountsChange(w.lanes, l, w'.lanes[l]);
    OrderedGrows(w.log, Executed(row, l, w'.results[row].value));
    assert !w.lanes[l].Finished?;
  }

  lemma ExecuteKeepsLanes<R(!new)>(w: World<R>, w': World<R>, l: nat)
    requires Inv(w) && l < |w.lanes| && Execute(w, w', l)
    ensures Shaped(w') && LanesInv(w')
    ensures MayFollow(w.log, Executed(w.lanes[l].row, l, w'.results[w.lanes[l].row].value))
  {
    hide Ordered, NotExecuted, Signed;
    assert LaneInv(w, l);
    assert RowInv(w, w.lanes[l].row, l);
    forall k: nat | k < |w.lanes| ensures LaneInv(w', k) {
      assert LaneInv(w, k);
    }
  }

  lemma ExecuteKeepsPulls<R(!new)>(w: World<R>, w': World<R>, l: nat)
    requires Inv(w) && l < |w.lanes| && Execute(w, w', l)
    ensures Shaped(w') && PullsInv(w')
  {
    hide Ordered, NotExecuted, Signed, ParentInv, CountReported, CountFinished;
    var row := w.lanes[l].row;
    assert LaneInv(w, l);
    assert RowInv(w, row, l);
    forall r: nat | r < Rows(w) && r != row && NotExecuted(w.log, r) ensures NotExecuted(w'.log, r) {
      OrderLogs(w.log, Executed(row, l, w'.results[row].value), r);
    }
    forall r: nat | r < |w.pulls| && r < Rows(w) ensures RowInv(w', r, w'.pulls[r]) {
      assert RowInv(w, r, w.pulls[r]);
    }
  }

  lemma SignKeeps<R(!new)>(w: World<R>, w': World<R>, l: nat)
    requires Inv(w) && l < |w.lanes| && Sign(w, w', l)
    ensures Inv(w')
  {
    hide Ordered, NotExecuted;
    var row := w.lanes[l].row;
    assert LaneInv(w, l);
    assert RowInv(w, row, l);
    CountsChange(w.lanes, l, w'.lanes[l]);
    forall k: nat | k < |w.lanes| ensures LaneInv(w', k) {
      assert LaneInv(w, k);
      SignedChanges(w.workerLane, row, l, k);
    }
    forall r: nat | r < |w.pulls| && r < Rows(w) ensures RowInv(w', r, w'.pulls[r]) {
      assert RowInv(w, r, w.pulls[r]);
    }
    assert !w.lanes[l].Finished?;
  }

  lemma TallyKeeps<R(!new)>(w: World<R>, w': World<R>, l: nat)
    requires Inv(w) && l < |w.lanes| && Tally(w, w', l)
    ensures Inv(w')
  {
    hide Ordered, NotExecuted;
    var row := w.lanes[l].row;
    assert LaneInv(w, l);
    assert RowInv(w, row, l);
    CountsChange(w.lanes, l, w'.lanes[l]);
    forall k: nat | k < |w.lanes| ensures LaneInv(w', k) {
      assert LaneInv(w, k);
    }
    forall r: nat | r < |w.pulls| && r < Rows(w) ensures RowInv(w', r, w'.pulls[r]) {
      assert RowInv(w, r, w.pulls[r]);
    }
    assert !w.lanes[l].Finished?;
  }

  lemma ThrowKeeps<R(!new)>(w: World<R>, w': World<R>, l: nat)
    requires Inv(w) && l < |w.lanes| && Throw(w, w', l)
    ensures Inv(w')
  {
    hide Ordered, NotExecuted;
    var row := w.lanes[l].row;
    assert LaneInv(w, l);
    assert RowInv(w, row, l);
    CountsChange(w.lanes, l, w'.lanes[l]);
    forall k: nat | k < |w.lanes| ensures LaneInv(w', k) {
      assert LaneInv(w, k);
    }
    forall r: nat | r < |w.pulls| && r < Rows(w) ensures RowInv(w', r, w'.pulls[r]) {
      assert RowInv(w, r, w.pulls[r]);
    }
    assert !w.lanes[l].Finished?;
  }

  // --- Parent steps keep the invariant ---

  lemma ForkKeeps<R(!new)>(w: World<R>, w': World<R>)
    requires Inv(w) && Fork(w, w')
    ensures Inv(w')
  {
    hide Ordered, NotExecuted;
    var l := w.parent.lane;
    CountsChange(w.lanes, l, Starting);
    assert LaneInv(w, l);
    forall k: nat | k < |w.lanes| ensures LaneInv(w', k) {
      assert LaneInv(w, k);
    }
    forall r: nat | r < |w.pulls| && r < Rows(w) ensures RowInv(w', r, w'.pulls[r]) {
      assert RowInv(w, r, w.pulls[r]);
    }
  }

  /** When all lanes ended well every row was pulled, and is signed by the lane that pulled it. */
  lemma EveryRowIsSigned<R(!new)>(w: World<R>)
    requires Inv(w) && AllFinished(w.lanes) && AllZero(w.status)
    ensures |w.pulls| >= Rows(w)
    ensures forall row: nat :: row < Rows(w) ==> w.pulls[row] < |w.lanes| && w.workerLane[row] == Some(w.pulls[row])
    ensures forall row: nat :: row < Rows(w) ==> HasResult(w, w.pulls[row], row)
    ensures Sum(w.queries) == Rows(w)
  {
    hide Ordered, NotExecuted;
    assert LaneInv(w, 0);
    forall row: nat | row < Rows(w)
      ensures w.workerLane[row] == Some(w.pulls[row]) && HasResult(w, w.pulls[row], row)
    {
      assert RowInv(w, row, w.pulls[row]);
      assert LaneInv(w, w.pulls[row]);
    }
    forall l | 0 <= l < |w.queries| ensures w.queries[l] == Signed(w.workerLane, l) {
      assert LaneInv(w, l);
    }
    SignaturesAddUp(w.workerLane, w.queries);
  }

  /** An event of the parent changes no row. */
  lemma LogKeepsRows<R(!new)>(w: World<R>, w': World<R>, e: Event<R>)
    requires Inv(w) && !e.Executed?
    requires w'.log == w.log || w'.log == w.log + [e]
    requires w'.lanes == w.lanes && w'.pulls == w.pulls && w'.results == w.results && w'.workerLane == w.workerLane
    requires w'.queries == w.queries && w'.status == w.status && (w.go ==> w'.go)
    ensures Shaped(w') && PullsInv(w') && LanesInv(w')
  {
    forall row: nat | NotExecuted(w.log, row) ensures NotExecuted(w'.log, row) {
      OrderLogs(w.log, e, row);
    }
    forall row: nat | row < |w.pulls| && row < Rows(w) ensures RowInv(w', row, w'.pulls[row]) {
      assert RowInv(w, row, w.pulls[row]);
    }
    forall k: nat | k < |w.lanes| ensures LaneInv(w', k) {
      assert LaneInv(w, k);
    }
  }

  lemma ParentKeeps<R(!new)>(w: World<R>, w': World<R>)
    requires Inv(w) && (GiveGo(w, w') || SeeDone(w, w') || Reap(w, w') || ReadRow(w, w') || FailParent(w, w'))
    ensures Inv(w')
  {
    hide Ordered, NotExecuted, Sum;
    hide PullsInv, LanesInv;
    if GiveGo(w, w') {
      LogKeepsRows(w, w', Go);
      OrderedGrows(w.log, Go);
    } else if ReadRow(w, w') {
      EveryRowIsSigned(w);
      var row := w.parent.row;
      assert HasResult(w, w.pulls[row], row);
      var e := Read(row, w.results[row]);
      LogKeepsRows(w, w', e);
      OrderedGrows(w.log, e);
    } else {
      LogKeepsRows(w, w', Go);
      AllCounted(w.lanes);
      if AllFinished(w.lanes) && AllZero(w.status) {
        EveryRowIsSigned(w);
      }
    }
  }

  lemma {:induction false} FreshLanes(lanes: seq<Lane>)
    requires forall l :: 0 <= l < |lanes| ==> lanes[l].NotForked?
    ensures CountReported(lanes) == 0 && CountFinished(lanes) == 0
  {
    if lanes != [] {
      FreshLanes(lanes[1..]);
    }
  }

  lemma {:induction false} NothingSigned(workerLane: seq<Option<nat>>, l: nat)
    requires forall row :: 0 <= row < |workerLane| ==> workerLane[row] == None
    ensures Signed(workerLane, l) == 0
  {
    if workerLane != [] {
      NothingSigned(workerLane[1..], l);
    }
  }

  lemma InitHolds<R(!new)>(rows: nat, lanes: nat, w: World<R>)
    requires Init(rows, lanes, w)
    ensures Inv(w)
  {
    FreshLanes(w.lanes);
    forall l: nat | l < lanes ensures LaneInv(w, l) {
      NothingSigned(w.workerLane, l);
    }
  }

  // --- Every schedule ---

  lemma StepKeeps<R(!new)>(w: World<R>, w': World<R>)
    requires Inv(w) && Step(w, w')
    ensures Inv(w')
  {
    hide Inv, Fork, GiveGo, SeeDone, Reap, ReadRow, FailParent;
    if ParentStep(w, w') {
      if Fork(w, w') {
        ForkKeeps(w, w');
      } else {
        ParentKeeps(w, w');
      }
    } else {
      var l: nat :| l < |w.lanes| && LaneStep(w, w', l);
      LaneKeeps(w, w', l);
    }
  }

  lemma LaneKeeps<R(!new)>(w: World<R>, w': World<R>, l: nat)
    requires Inv(w) && l < |w.lanes| && LaneStep(w, w', l)
    ensures Inv(w')
  {
    hide PullsInv, LanesInv, ParentInv, ReportReady, SeeGo, Pull, Execute, Sign, Tally, Throw, WriteStatus, ReportDone;
    if Pull(w, w', l) {
      PullKeeps(w, w', l);
    } else if Execute(w, w', l) {
      ExecuteKeeps(w, w', l);
    } else if Sign(w, w', l) {
      SignKeeps(w, w', l);
    } else if Tally(w, w', l) {
      TallyKeeps(w, w', l);
    } else if Throw(w, w', l) {
      ThrowKeeps(w, w', l);
    } else {
      QuietLaneKeeps(w, w', l);
    }
  }

  lemma {:induction false} InvInEveryRun<R(!new)>(rows: nat, lanes: nat, run: seq<World<R>>, i: nat)
    requires IsRun(rows, lanes, run) && i < |run|
    ensures Inv(run[i]) && Rows(run[i]) == rows && |run[i].lanes| == lanes
  {
    hide Inv;
    if i == 0 {
      InitHolds(rows, lanes, run[0]);
    } else {
      InvInEveryRun(rows, lanes, run, i - 1);
      assert Step(run[i - 1], run[i - 1 + 1]);
      StepKeeps(run[i - 1], run[i]);
      StepKeepsSizes(run[i - 1], run[i]);
    }
  }

  lemma StepKeepsSizes<R(!new)>(w: World<R>, w': World<R>)
    requires Step(w, w')
    ensures Rows(w') == Rows(w) && |w'.lanes| == |w.lanes|
  {
  }

  /** Row executed by this lane, and by no other, behind the go. */
  ghost predicate ExecutedOnce<R(!new)>(log: seq<Event<R>>, row: nat, lane: nat, value: R) {
    exists i: nat, g: nat ::
      && g < i < |log| && log[g] == Go && log[i] == Executed(row, lane, value)
      && forall j: nat :: j < |log| && log[j].Executed? && log[j].row == row ==> j == i
  }

  lemma RowsDiffer<R(!new)>(log: seq<Event<R>>, i: nat, j: nat)
    requires Ordered(log) && i < |log| && j < |log| && log[i].Executed? && log[j].Executed?
    ensures i < j ==> log[i].row != log[j].row
  {
    if i < j {
      assert MayFollow(log[..j], log[j]);
      assert log[..j][i] == log[i];
    }
  }

  lemma LoggedOnce<R(!new)>(log: seq<Event<R>>, row: nat, lane: nat, value: R)
    requires Ordered(log) && Executed(row, lane, value) in log
    ensures ExecutedOnce(log, row, lane, value)
  {
    var i :| 0 <= i < |log| && log[i] == Executed(row, lane, value);
    assert MayFollow(log[..i], log[i]);
    var g :| 0 <= g < i && log[..i][g] == Go;
    forall j: nat | j < |log| && log[j].Executed? && log[j].row == row ensures j == i {
      RowsDiffer(log, j, i);
      RowsDiffer(log, i, j);
    }
  }

  /** Once every lane is done with status zero, each row was executed by exactly the lane that signed it, and the
      counts add up. */
  lemma EveryRowExecutedOnce<R(!new)>(rows: nat, lanes: nat, run: seq<World<R>>, i: nat, row: nat)
    requires IsRun(rows, lanes, run) && i < |run| && row < rows
    requires run[i].done == lanes && AllZero(run[i].status)
    ensures Shaped(run[i]) && Rows(run[i]) == rows
    ensures run[i].results[row].Some? && run[i].workerLane[row].Some?
    ensures ExecutedOnce(run[i].log, row, run[i].workerLane[row].value, run[i].results[row].value)
    ensures Sum(run[i].queries) == rows
  {
    InvInEveryRun(rows, lanes, run, i);
    var w := run[i];
    AllCounted(w.lanes);
    EveryRowIsSigned(w);
    assert HasResult(w, w.pulls[row], row);
    LoggedOnce(w.log, row, w.pulls[row], w.results[row].value);
  }

  /** No slot is empty when the parent reads it: it reads the value a lane wrote there before. */
  lemma ReadsFollowWrites<R(!new)>(rows: nat, lanes: nat, run: seq<World<R>>, i: nat, j: nat)
    requires IsRun(rows, lanes, run) && i < |run|
    requires j < |run[i].log| && run[i].log[j].Read?
    ensures run[i].log[j].seen.Some?
    ensures ExecutedBySome(run[i].log[..j], run[i].log[j].row, run[i].log[j].seen.value)
  {
    InvInEveryRun(rows, lanes, run, i);
    assert MayFollow(run[i].log[..j], run[i].log[j]);
  }

  lemma DistinctIsShort(s: seq<nat>, n: nat)
    requires forall i :: 0 <= i < |s| ==> s[i] < n
    requires forall i, j :: 0 <= i < j < |s| ==> s[i] != s[j]
    ensures |s| <= n
    decreases n
  {
    if |s| > 0 {
      assert s[0] < n;
      if i :| 0 <= i < |s| && s[i] == n - 1 {
        DistinctIsShort(s[..i] + s[i + 1..], n - 1);
      } else {
        DistinctIsShort(s, n - 1);
      }
    }
  }

  /** The parent's row census cannot fail, and the counter never passes one extra pull for each lane. */
  lemma CensusHolds<R(!new)>(rows: nat, lanes: nat, run: seq<World<R>>, i: nat)
    requires IsRun(rows, lanes, run) && i < |run|
    ensures !run[i].parent.CensusDiffers?
    ensures |run[i].pulls| <= rows + lanes
  {
    InvInEveryRun(rows, lanes, run, i);
    if |run[i].pulls| > rows {
      DistinctIsShort(run[i].pulls[rows..], lanes);
    }
  }
}
