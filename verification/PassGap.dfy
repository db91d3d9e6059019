// What an acknowledgement promises about the raw files it counts. The results
// always survive a crash. The summary survives exactly when its directory was
// synced before the acknowledgement was committed: the controller waits until
// it is visible, not until it is durable.

module PassGap {
  import opened BlockPublisher
  import opened PassProtocol
  import opened PassSafety

  function Last(run: seq<World>): World
    requires run != []
  {
    run[|run| - 1]
  }

  lemma Extended(c: Config, run: seq<World>, w: World)
    requires IsRun(c, run) && Step(c, Last(run), w)
    ensures IsRun(c, run + [w]) && Last(run + [w]) == w
  {
    hide Step;
    var longer := run + [w];
    forall i | 0 <= i < |longer| - 1 ensures Step(c, longer[i], longer[i + 1]) {
      if i < |run| - 1 {
        assert longer[i] == run[i] && longer[i + 1] == run[i + 1];
      }
    }
  }

  lemma Take(c: Config, run: seq<World>, w: World) returns (longer: seq<World>)
    requires IsRun(c, run) && ControllerStep(c, Last(run), w)
    ensures IsRun(c, longer) && run <= longer && Last(longer) == w
  {
    hide ControllerStep, IsRun;
    Extended(c, run, w);
    longer := run + [w];
  }

  // --- What was durable stays ---

  lemma DurableIsThere(c: Config, w: World)
    requires Inv(c, w)
    ensures forall name :: name in w.rawDurable ==> name in w.raw
    ensures forall n: nat :: Summary(n) in w.raw ==> Results(n) in w.rawDurable
  {
  }

  /** The controller has seen both raw files of the block, and its acknowledgement is still to come. */
  predicate Acknowledging(ctl: Controller, n: nat) {
    (ctl.Audited? || ctl.Gated? || ctl.AckPrepared? || ctl.AckLocked? || ctl.AckChecked?) && ctl.block == n
  }

  ghost predicate Promised(w: World, n: nat) {
    Name(n, AckName) in w.dir || Acknowledging(w.ctl, n)
  }

  lemma AuditKeepsRaw(w: World, w': World, n: nat)
    requires Audit(w, w')
    ensures w'.rawDurable == w.rawDurable
    ensures Promised(w', n) ==> Promised(w, n) || Summary(n) in w.raw
  {
  }

  lemma AckStepKeepsRaw(c: Config, w: World, w': World, n: nat)
    requires Recheck(w, w') || PrepareAck(w, w') || LockAck(c, w, w') || CheckAck(w, w') || LinkAck(w, w')
    ensures w'.rawDurable == w.rawDurable
    ensures Promised(w', n) ==> Promised(w, n)
  {
    hide AckText, HasRaw;
  }

  lemma ReadyStepKeepsRaw(c: Config, w: World, w': World, n: nat)
    requires || UnlockAck(w, w') || SyncAck(w, w') || Withhold(w, w') || LinkReady(c, w, w') || ReuseReady(c, w, w')
             || SyncReady(w, w') || RetryRelease(w, w')
    ensures w'.rawDurable == w.rawDurable
    ensures Promised(w', n) ==> Promised(w, n)
  {
    hide ReleaseText, ReadsBack;
    assert !Acknowledging(w'.ctl, n);
    assert Name(n, AckName) in w'.dir ==> Name(n, AckName) in w.dir;
  }

  lemma ReleaseStepKeepsRaw(c: Config, w: World, w': World, n: nat)
    requires || LockRelease(c, w, w') || CheckRelease(w, w') || LinkRelease(w, w') || UnlockRelease(c, w, w')
             || FailController(w, w')
    ensures w'.rawDurable == w.rawDurable
    ensures Promised(w', n) ==> Promised(w, n)
  {
    hide ReleaseText;
    assert !Acknowledging(w'.ctl, n);
    assert Name(n, AckName) in w'.dir ==> Name(n, AckName) in w.dir;
  }

  /** Only a block whose summary is visible comes to be acknowledged. */
  lemma ControllerKeepsRaw(c: Config, w: World, w': World, n: nat)
    requires ControllerStep(c, w, w')
    ensures w'.rawDurable == w.rawDurable
    ensures Promised(w', n) ==> Promised(w, n) || Summary(n) in w.raw
  {
    hide Promised, Audit, Recheck, PrepareAck, LockAck, CheckAck, LinkAck, UnlockAck, SyncAck, Withhold, LinkReady,
      RetryRelease, ReuseReady, SyncReady, LockRelease, CheckRelease, LinkRelease, UnlockRelease, FailController;
    if Audit(w, w') {
      AuditKeepsRaw(w, w', n);
    } else if Recheck(w, w') || PrepareAck(w, w') || LockAck(c, w, w') || CheckAck(w, w') || LinkAck(w, w') {
      AckStepKeepsRaw(c, w, w', n);
    } else if LockRelease(c, w, w') || CheckRelease(w, w') || LinkRelease(w, w') || UnlockRelease(c, w, w')
              || FailController(w, w') {
      ReleaseStepKeepsRaw(c, w, w', n);
    } else {
      ReadyStepKeepsRaw(c, w, w', n);
    }
  }

  lemma WriterKeepsRaw(w: World, w': World)
    requires forall name :: name in w.rawDurable ==> name in w.raw
    requires PublishResults(w, w') || SyncResults(w, w') || PublishSummary(w, w') || SyncSummary(w, w')
    ensures forall name :: name in w.rawDurable ==> name in w'.rawDurable
    ensures w'.dir == w.dir && w'.ctl == w.ctl
  {
  }

  lemma ReaderKeepsRaw(c: Config, w: World, w': World)
    requires BeginWait(w, w') || PollRelease(c, w, w') || ReadAck(c, w, w') || Advance(c, w, w') || FailRunner(w, w')
    ensures w'.rawDurable == w.rawDurable && w'.dir == w.dir && w'.ctl == w.ctl
  {
    hide HasRaw, ReleaseReads, AckReads, Bound;
  }

  lemma RunnerKeepsRaw(c: Config, w: World, w': World)
    requires (forall name :: name in w.rawDurable ==> name in w.raw) && RunnerStep(c, w, w')
    ensures forall name :: name in w.rawDurable ==> name in w'.rawDurable
    ensures w'.dir == w.dir && w'.ctl == w.ctl
  {
    hide PublishResults, SyncResults, PublishSummary, SyncSummary, BeginWait, PollRelease, ReadAck, Advance, FailRunner;
    if PublishResults(w, w') || SyncResults(w, w') || PublishSummary(w, w') || SyncSummary(w, w') {
      WriterKeepsRaw(w, w');
    } else {
      ReaderKeepsRaw(c, w, w');
    }
  }

  lemma CrashKeepsRaw(w: World, w': World, n: nat)
    requires Crash(w, w')
    ensures w'.rawDurable == w.rawDurable
    ensures Promised(w', n) ==> Promised(w, n)
  {
    if Promised(w', n) {
      assert Name(n, AckName) in w'.dir.Keys;
    }
  }

  /** No step takes durability back, and none promises an acknowledgement without a visible summary. */
  lemma StepKeepsRaw(c: Config, w: World, w': World, n: nat)
    requires (forall name :: name in w.rawDurable ==> name in w.raw) && Step(c, w, w')
    ensures forall name :: name in w.rawDurable ==> name in w'.rawDurable
    ensures Promised(w', n) ==> Promised(w, n) || Summary(n) in w.raw
  {
    hide ControllerStep, RunnerStep, Crash;
    if ControllerStep(c, w, w') {
      ControllerKeepsRaw(c, w, w', n);
    } else if RunnerStep(c, w, w') {
      RunnerKeepsRaw(c, w, w');
    } else if Crash(w, w') {
      CrashKeepsRaw(w, w', n);
    }
  }

  lemma {:induction false} DurableStays(c: Config, run: seq<World>, i: nat, j: nat, name: RawName)
    requires GoodConfig(c) && IsRun(c, run) && i <= j < |run| && name in run[i].rawDurable
    ensures name in run[j].rawDurable && name in run[j].raw
  {
    hide Step, Inv, GoodConfig, Init;
    InvInEveryRun(c, run, j);
    DurableIsThere(c, run[j]);
    if i < j {
      DurableStays(c, run, i, j - 1, name);
      InvInEveryRun(c, run, j - 1);
      DurableIsThere(c, run[j - 1]);
      assert Step(c, run[j - 1], run[j - 1 + 1]);
      StepKeepsRaw(c, run[j - 1], run[j], 0);
    }
  }

  // --- The results are never lost ---

  ghost predicate ResultsKept(w: World) {
    forall n: nat :: Promised(w, n) ==> Results(n) in w.rawDurable
  }

  lemma {:induction false} ResultsKeptInEveryRun(c: Config, run: seq<World>, i: nat)
    requires GoodConfig(c) && IsRun(c, run) && i < |run|
    ensures ResultsKept(run[i])
  {
    hide Step, Inv, GoodConfig, Promised;
    if i == 0 {
      NothingPromised(c, run[0]);
    } else {
      var w, w' := run[i - 1], run[i];
      ResultsKeptInEveryRun(c, run, i - 1);
      InvInEveryRun(c, run, i - 1);
      DurableIsThere(c, w);
      assert Step(c, run[i - 1], run[i - 1 + 1]);
      forall n: nat | Promised(w', n) ensures Results(n) in w'.rawDurable {
        StepKeepsRaw(c, w, w', n);
      }
    }
  }

  lemma NothingPromised(c: Config, w: World)
    requires Init(c, w)
    ensures ResultsKept(w)
  {
  }

  /** Whatever a crash leaves: an acknowledgement that is visible has its results, and they are durable. */
  lemma ResultsSurvive(c: Config, run: seq<World>, i: nat, n: nat)
    requires GoodConfig(c) && IsRun(c, run) && i < |run| && Name(n, AckName) in run[i].dir
    ensures Results(n) in run[i].rawDurable && Results(n) in run[i].raw
  {
    hide Inv, IsRun, GoodConfig;
    ResultsKeptInEveryRun(c, run, i);
    assert Promised(run[i], n);
    InvInEveryRun(c, run, i);
    DurableIsThere(c, run[i]);
  }

  // --- When the summary is lost ---

  /** The raw directory behind a crash that keeps only what was durable. */
  function OnlyDurable(w: World): map<RawName, Snapshot> {
    map name | name in w.raw && name in w.rawDurable :: w.raw[name]
  }

  /** Past the stop check the acknowledgement is not linked yet. */
  lemma ReadyToLink(c: Config, w: World)
    requires Inv(c, w) && w.ctl.AckChecked?
    ensures Name(w.ctl.block, AckName) !in w.dir
  {
    hide RunInv, AckText, ReleaseText;
    assert NotLinked(w.history, Name(w.ctl.block, AckName));
  }

  lemma LosesTheRest(w: World) returns (w': World)
    ensures Crash(w, w') && w'.dir == w.dir && w'.durable == w.durable && w'.history == w.history
    ensures forall name :: name in w'.raw ==> name in w.rawDurable
  {
    w' := w.(raw := OnlyDurable(w), lock := Free, ctl := ControllerFailed, run := RunnerFailed, crashed := true);
    assert w.durable * w.dir.Keys <= w.dir.Keys;
    assert w.rawDurable * w.raw.Keys <= w'.raw.Keys <= w.raw.Keys;
  }

  /** Past the stop check, a summary that is not durable yet can be lost although
      its acknowledgement is durable. */
  lemma SummaryCanBeLost(c: Config, run: seq<World>) returns (longer: seq<World>)
    requires GoodConfig(c) && IsRun(c, run) && Last(run).ctl.AckChecked?
    requires Summary(Last(run).ctl.block) !in Last(run).rawDurable
    ensures IsRun(c, longer) && run <= longer
    ensures var n, v := Last(run).ctl.block, Last(longer);
      && Name(n, AckName) in v.dir && Name(n, AckName) in v.durable && AckSynced(n, Last(run).ctl.text) in v.history
      && Summary(n) !in v.raw
  {
    var w := Last(run);
    hide IsRun, GoodConfig, Inv, Crash, Step, OnlyDurable;
    InvInEveryRun(c, run, |run| - 1);
    ReadyToLink(c, w);
    var w1, w2, w3 := AckSteps(w);
    assert ControllerStep(c, w, w1) && ControllerStep(c, w1, w2) && ControllerStep(c, w2, w3);
    hide ControllerStep, LinkAck, UnlockAck, SyncAck;
    var linked := Take(c, run, w1);
    var unlocked := Take(c, linked, w2);
    var synced := Take(c, unlocked, w3);
    var w4 := LosesTheRest(w3);
    CrashIsStep(c, w3, w4);
    Extended(c, synced, w4);
    longer := synced + [w4];
  }

  lemma CrashIsStep(c: Config, w: World, w': World)
    requires Crash(w, w')
    ensures Step(c, w, w')
  {
  }

  /** Link, unlock and sync: the acknowledgement is durable, the raw files are as they were. */
  lemma AckSteps(w: World) returns (w1: World, w2: World, w3: World)
    requires w.ctl.AckChecked? && Name(w.ctl.block, AckName) !in w.dir
    ensures LinkAck(w, w1) && UnlockAck(w1, w2) && SyncAck(w2, w3)
    ensures Name(w.ctl.block, AckName) in w3.dir && Name(w.ctl.block, AckName) in w3.durable
    ensures AckSynced(w.ctl.block, w.ctl.text) in w3.history
    ensures w3.rawDurable == w.rawDurable
  {
    var n, gate, text := w.ctl.block, w.ctl.gate, w.ctl.text;
    w1 := Link(w, Name(n, AckName), text).(ctl := AckLinked(n, gate, text));
    w2 := w1.(lock := Free, ctl := AckUnlocked(n, gate, text));
    w3 := Log(Sync(w2), AckSynced(n, text)).(ctl := AckDurable(n, gate, text));
    assert w3.history[|w3.history| - 1] == AckSynced(n, text);
  }

  /** In every continuation, a crash included, a visible acknowledgement of block n has its summary. */
  ghost predicate SummaryKept(c: Config, run: seq<World>, n: nat) {
    forall longer: seq<World> ::
      IsRun(c, longer) && longer != [] && run <= longer && Name(n, AckName) in Last(longer).dir
      ==> Summary(n) in Last(longer).raw
  }

  /** The same, for an acknowledgement that is durable. */
  ghost predicate SummaryKeptOnceDurable(c: Config, run: seq<World>, n: nat) {
    forall longer: seq<World> ::
      IsRun(c, longer) && longer != [] && run <= longer && Name(n, AckName) in Last(longer).dir
      && Name(n, AckName) in Last(longer).durable
      ==> Summary(n) in Last(longer).raw
  }

  /** When the controller is about to link the acknowledgement of block n, the
      summary is safe from then on exactly when it is durable already. */
  lemma SummarySurvivesExactly(c: Config, run: seq<World>)
    requires GoodConfig(c) && IsRun(c, run) && Last(run).ctl.AckChecked?
    ensures var n := Last(run).ctl.block;
      && (SummaryKept(c, run, n) <==> Summary(n) in Last(run).rawDurable)
      && (SummaryKeptOnceDurable(c, run, n) <==> Summary(n) in Last(run).rawDurable)
  {
    var n := Last(run).ctl.block;
    hide IsRun, GoodConfig;
    if Summary(n) in Last(run).rawDurable {
      forall longer: seq<World> | IsRun(c, longer) && longer != [] && run <= longer
        ensures Summary(n) in Last(longer).raw
      {
        assert longer[|run| - 1] == Last(run);
        DurableStays(c, longer, |run| - 1, |longer| - 1, Summary(n));
      }
    } else {
      var longer := SummaryCanBeLost(c, run);
      assert run <= longer && longer != [];
    }
  }

  // --- A run in which it is lost ---

  function Written0(): World {
    World(map[Results(0) := Snapshot(1, 0)], {}, map[], {}, false, Free, AwaitRaw(0), ResultsRenamed(0, 1, 1), false,
          [Started(0), Written(0, 1, 1)])
  }

  /** The summary is renamed into place but its directory is not synced yet. */
  function SummaryVisible(): World {
    Written0().(raw := map[Results(0) := Snapshot(1, 0)][Summary(0) := Snapshot(1, 0)], rawDurable := {Results(0)},
                run := SummaryRenamed(0, 1, 1))
  }

  lemma RunnerPart(c: Config, start: World) returns (run: seq<World>)
    requires GoodConfig(c) && Init(c, start)
    ensures IsRun(c, run) && Last(run) == SummaryVisible()
  {
    var w1 := Written0();
    assert PublishResults(start, w1) by {
      assert w1 == Log(start, Written(0, 1, 1)).(raw := start.raw[Results(0) := Snapshot(1, 0)],
                                                 run := ResultsRenamed(0, 1, 1));
    }
    var w2 := w1.(rawDurable := w1.raw.Keys, run := ResultsSynced(0, 1, 1));
    assert SyncResults(w1, w2);
    var w3 := w2.(raw := w2.raw[Summary(0) := Snapshot(1, 0)], run := SummaryRenamed(0, 1, 1));
    assert PublishSummary(w2, w3);
    assert w1.raw.Keys == {Results(0)};
    assert w3 == SummaryVisible();
    run := [start, w1, w2, w3];
    assert Step(c, run[0], run[1]) && Step(c, run[1], run[2]) && Step(c, run[2], run[3]);
  }

  /** The controller takes the visible summary up to the commit of its acknowledgement. */
  lemma ControllerPart(c: Config, start: World) returns (run: seq<World>)
    requires GoodConfig(c) && Init(c, start)
    ensures IsRun(c, run) && Last(run).ctl.AckChecked? && Last(run).ctl.block == 0
    ensures Last(run).rawDurable == {Results(0)} && Summary(0) in Last(run).raw
  {
    hide AckText, Step, IsRun;
    run := RunnerPart(c, start);
    var s, w := Snapshot(1, 0), SummaryVisible();
    var text := AckText(c, 0, 1, 1);
    var w1 := w.(ctl := Audited(0, true, s, s));
    assert Audit(w, w1) by { assert HasRaw(w, 0, s, s) && AuditTo(w, w1, true, s, s); }
    run := Take(c, run, w1);
    var w2 := w1.(ctl := Gated(0, true));
    assert Recheck(w1, w2);
    run := Take(c, run, w2);
    var w3 := w2.(ctl := AckPrepared(0, true, s, s));
    assert PrepareAck(w2, w3) by { assert HasRaw(w2, 0, s, s); }
    run := Take(c, run, w3);
    var w4 := w3.(lock := HeldByController, ctl := AckLocked(0, true, text));
    assert LockAck(c, w3, w4);
    run := Take(c, run, w4);
    var w5 := w4.(ctl := AckChecked(0, true, text));
    assert CheckAck(w4, w5);
    run := Take(c, run, w5);
  }

  /** A durable acknowledgement does not make the summary it counts durable: some run ends with the one and without
      the other. */
  lemma AckCanOutliveSummary(c: Config) returns (run: seq<World>)
    requires GoodConfig(c)
    ensures IsRun(c, run)
    ensures Name(0, AckName) in Last(run).dir && Name(0, AckName) in Last(run).durable && Summary(0) !in Last(run).raw
  {
    hide IsRun, GoodConfig;
    var start := World(map[], {}, map[], {}, false, Free, AwaitRaw(0), Running(0), false, [Started(0)]);
    var before := ControllerPart(c, start);
    run := SummaryCanBeLost(c, before);
  }
}
