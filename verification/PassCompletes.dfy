// When the controller is done, every block was acknowledged and released; what
// an acknowledgement counts was there; and for every configuration some run
// gets to the end.

module PassCompletes {
  import opened Contract
  import opened BlockPublisher
  import opened PassProtocol
  import opened PassSafety
  import opened PassGap

  // --- Completed means released ---

  /** How many blocks the controller has released. */
  function Reached(c: Config, ctl: Controller): nat {
    match ctl
    case AwaitRaw(n) => n
    case Audited(n, _, _, _) => n
    case Gated(n, _) => n
    case AckPrepared(n, _, _, _) => n
    case AckLocked(n, _, _) => n
    case AckChecked(n, _, _) => n
    case AckLinked(n, _, _) => n
    case AckUnlocked(n, _, _) => n
    case AckDurable(n, _, _) => n
    case ReadyLinked(n, _) => n
    case ReadyDurable(n, _) => n
    case ReleaseLocked(n, _) => n
    case ReleaseChecked(n, _) => n
    case ReleaseLinked(n, _) => n + 1
    case Withheld(n) => n
    case Completed => c.blocks
    case ControllerFailed => 0
  }

  ghost predicate Released(h: seq<Event>, n: nat) {
    exists text: string :: Linked(Name(n, ReleaseName), text) in h
  }

  ghost predicate ReleasedBelow(h: seq<Event>, n: nat) {
    forall m: nat :: m < n ==> Released(h, m)
  }

  /** Only the link of a release takes the controller past a block. */
  ghost predicate Moves(c: Config, w: World, w': World) {
    && Extends(w.history, w'.history)
    && Reached(c, w'.ctl) <= Reached(c, w.ctl) + 1
    && (Reached(c, w'.ctl) <= Reached(c, w.ctl) || Released(w'.history, Reached(c, w.ctl)))
  }

  lemma AckStepMoves(c: Config, w: World, w': World)
    requires || Audit(w, w') || Recheck(w, w') || PrepareAck(w, w') || LockAck(c, w, w') || CheckAck(w, w')
             || LinkAck(w, w') || UnlockAck(w, w') || SyncAck(w, w')
    ensures Moves(c, w, w')
  {
    hide AckText, HasRaw, Released;
  }

  lemma ReadyStepMoves(c: Config, w: World, w': World)
    requires || Withhold(w, w') || LinkReady(c, w, w') || RetryRelease(w, w') || ReuseReady(c, w, w')
             || SyncReady(w, w') || LockRelease(c, w, w') || CheckRelease(w, w') || FailController(w, w')
    ensures Moves(c, w, w')
  {
    hide ReleaseText, ReadsBack, Released;
  }

  lemma LinkReleaseMoves(c: Config, w: World, w': World)
    requires LinkRelease(w, w')
    ensures Moves(c, w, w')
  {
    var n := w.ctl.block;
    assert w'.history[|w.history|] == Linked(Name(n, ReleaseName), w.dir[Name(n, ReadyName)]);
    assert Linked(Name(n, ReleaseName), w.dir[Name(n, ReadyName)]) in w'.history;
  }

  lemma UnlockReleaseMoves(c: Config, w: World, w': World)
    requires Inv(c, w) && UnlockRelease(c, w, w')
    ensures Moves(c, w, w')
  {
    hide RunInv, DirInv, Ordered, FreshFrom, Released;
  }

  lemma ControllerMoves(c: Config, w: World, w': World)
    requires Inv(c, w) && ControllerStep(c, w, w')
    ensures Moves(c, w, w')
  {
    hide Inv, Moves, Audit, Recheck, PrepareAck, LockAck, CheckAck, LinkAck, UnlockAck, SyncAck, Withhold, LinkReady,
      RetryRelease, ReuseReady, SyncReady, LockRelease, CheckRelease, LinkRelease, UnlockRelease, FailController;
    if LinkRelease(w, w') {
      LinkReleaseMoves(c, w, w');
    } else if UnlockRelease(c, w, w') {
      UnlockReleaseMoves(c, w, w');
    } else if Audit(w, w') || Recheck(w, w') || PrepareAck(w, w') || LockAck(c, w, w') || CheckAck(w, w')
              || LinkAck(w, w') || UnlockAck(w, w') || SyncAck(w, w') {
      AckStepMoves(c, w, w');
    } else {
      ReadyStepMoves(c, w, w');
    }
  }

  lemma WriterMoves(c: Config, w: World, w': World)
    requires PublishResults(w, w') || SyncResults(w, w') || PublishSummary(w, w') || SyncSummary(w, w')
    ensures Moves(c, w, w')
  {
    hide Released;
  }

  lemma ReaderMoves(c: Config, w: World, w': World)
    requires BeginWait(w, w') || PollRelease(c, w, w') || ReadAck(c, w, w') || Advance(c, w, w') || FailRunner(w, w')
    ensures Moves(c, w, w')
  {
    hide ReleaseReads, AckReads, HasRaw, Bound, Released;
  }

  lemma RunnerMoves(c: Config, w: World, w': World)
    requires RunnerStep(c, w, w')
    ensures Moves(c, w, w')
  {
    hide Moves, PublishResults, SyncResults, PublishSummary, SyncSummary, BeginWait, PollRelease, ReadAck, Advance,
      FailRunner;
    if PublishResults(w, w') || SyncResults(w, w') || PublishSummary(w, w') || SyncSummary(w, w') {
      WriterMoves(c, w, w');
    } else {
      ReaderMoves(c, w, w');
    }
  }

  lemma OtherMoves(c: Config, w: World, w': World)
    requires StopStep(w, w') || Tamper(w, w') || Crash(w, w')
    ensures Moves(c, w, w')
  {
    hide Released;
  }

  lemma StepMoves(c: Config, w: World, w': World)
    requires Inv(c, w) && Step(c, w, w')
    ensures Moves(c, w, w')
  {
    hide Inv, Moves, ControllerStep, RunnerStep, StopStep, Tamper, Crash;
    if ControllerStep(c, w, w') {
      ControllerMoves(c, w, w');
    } else if RunnerStep(c, w, w') {
      RunnerMoves(c, w, w');
    } else {
      OtherMoves(c, w, w');
    }
  }

  lemma {:induction false} ReleasedSoFar(c: Config, run: seq<World>, i: nat)
    requires GoodConfig(c) && IsRun(c, run) && i < |run|
    ensures ReleasedBelow(run[i].history, Reached(c, run[i].ctl))
  {
    hide Inv, GoodConfig, Step;
    if i > 0 {
      ReleasedSoFar(c, run, i - 1);
      InvInEveryRun(c, run, i - 1);
      assert Step(c, run[i - 1], run[i - 1 + 1]);
      StepMoves(c, run[i - 1], run[i]);
      assert forall m: nat :: Released(run[i - 1].history, m) ==> Released(run[i].history, m);
    }
  }

  /** In every state of every run: when the controller has completed, each block was
      acknowledged durably, and then released for that acknowledgement. */
  lemma CompletedIsReleased(c: Config, run: seq<World>, i: nat, n: nat) returns (ack: string)
    requires GoodConfig(c) && IsRun(c, run) && i < |run|
    requires run[i].ctl.Completed? && n < c.blocks
    ensures AckSynced(n, ack) in run[i].history
    ensures Linked(Name(n, AckName), ack) in run[i].history
    ensures Linked(Name(n, ReleaseName), ReleaseText(c, n, ack)) in run[i].history
    ensures GateFailed(n) !in run[i].history
  {
    hide IsRun, GoodConfig, DirInv, CtlInv, RunInv, Ordered, ReleaseText;
    ReleasedSoFar(c, run, i);
    var h := run[i].history;
    InvInEveryRun(c, run, i);
    assert Released(h, n);
    var text: string :| Linked(Name(n, ReleaseName), text) in h;
    var before := EarlierEvents(c, h, Linked(Name(n, ReleaseName), text));
    ack :| Acked(before, n, ack) && text == ReleaseText(c, n, ack);
    var earlier := EarlierEvents(c, h, AckSynced(n, ack));
    assert AckSynced(n, ack) in h && Linked(Name(n, AckName), ack) in h;
    if GateFailed(n) in h {
      FailedGateStopsTheRun(c, run, i, n);
    }
  }

  // --- What an acknowledgement counts ---

  /** The controller holds an acknowledgement that it has not linked yet. */
  predicate Holds(ctl: Controller, n: nat, text: string) {
    (ctl.AckLocked? || ctl.AckChecked?) && ctl.block == n && ctl.text == text
  }

  /** The text counts both raw files as they were then. */
  ghost predicate Counts(c: Config, w: World, n: nat, text: string) {
    exists results: Snapshot, summary: Snapshot ::
      HasRaw(w, n, results, summary) && text == AckText(c, n, summary.bytes, results.bytes)
  }

  /** A step takes up only a text that counts the files, and links only one that is held. */
  ghost predicate Honest(c: Config, w: World, w': World) {
    && (forall n: nat, text: string :: Holds(w'.ctl, n, text) ==> Holds(w.ctl, n, text) || Counts(c, w, n, text))
    && (forall n: nat, text: string :: Linked(Name(n, AckName), text) in w'.history ==>
         Linked(Name(n, AckName), text) in w.history || Holds(w.ctl, n, text))
  }

  lemma AckStepIsHonest(c: Config, w: World, w': World)
    requires Audit(w, w') || Recheck(w, w') || PrepareAck(w, w') || CheckAck(w, w') || UnlockAck(w, w') ||
      SyncAck(w, w')
    ensures Honest(c, w, w')
  {
    hide AckText, HasRaw, Counts;
  }

  lemma LockAckIsHonest(c: Config, w: World, w': World)
    requires LockAck(c, w, w') || LinkAck(w, w')
    ensures Honest(c, w, w')
  {
    hide AckText, HasRaw;
    if LockAck(c, w, w') {
      assert HasRaw(w, w.ctl.block, w.ctl.results, w.ctl.summary);
      assert Counts(c, w, w'.ctl.block, w'.ctl.text);
    }
  }

  lemma ReadyStepIsHonest(c: Config, w: World, w': World)
    requires || Withhold(w, w') || LinkReady(c, w, w') || RetryRelease(w, w') || ReuseReady(c, w, w')
             || SyncReady(w, w') || LockRelease(c, w, w') || CheckRelease(w, w') || LinkRelease(w, w')
             || UnlockRelease(c, w, w') || FailController(w, w')
    ensures Honest(c, w, w')
  {
    hide ReleaseText, ReadsBack, Counts;
  }

  lemma ControllerIsHonest(c: Config, w: World, w': World)
    requires ControllerStep(c, w, w')
    ensures Honest(c, w, w')
  {
    hide Honest, Audit, Recheck, PrepareAck, LockAck, CheckAck, LinkAck, UnlockAck, SyncAck, Withhold, LinkReady,
      RetryRelease, ReuseReady, SyncReady, LockRelease, CheckRelease, LinkRelease, UnlockRelease, FailController;
    if LockAck(c, w, w') || LinkAck(w, w') {
      LockAckIsHonest(c, w, w');
    } else if Audit(w, w') || Recheck(w, w') || PrepareAck(w, w') || CheckAck(w, w') || UnlockAck(w, w')
              || SyncAck(w, w') {
      AckStepIsHonest(c, w, w');
    } else {
      ReadyStepIsHonest(c, w, w');
    }
  }

  lemma RunnerIsHonest(c: Config, w: World, w': World)
    requires RunnerStep(c, w, w')
    ensures Honest(c, w, w')
  {
    hide PublishResults, SyncResults, PublishSummary, SyncSummary, BeginWait, PollRelease, ReadAck, Advance, FailRunner,
      Counts, Holds;
    if PublishResults(w, w') || SyncResults(w, w') || PublishSummary(w, w') || SyncSummary(w, w') {
      WriterIsHonest(c, w, w');
    } else {
      ReaderIsHonest(c, w, w');
    }
  }

  lemma WriterIsHonest(c: Config, w: World, w': World)
    requires PublishResults(w, w') || SyncResults(w, w') || PublishSummary(w, w') || SyncSummary(w, w')
    ensures Honest(c, w, w')
  {
    hide Counts, Holds;
  }

  lemma ReaderIsHonest(c: Config, w: World, w': World)
    requires BeginWait(w, w') || PollRelease(c, w, w') || ReadAck(c, w, w') || Advance(c, w, w') || FailRunner(w, w')
    ensures Honest(c, w, w')
  {
    hide ReleaseReads, AckReads, HasRaw, Bound, Counts, Holds;
  }

  lemma OtherIsHonest(c: Config, w: World, w': World)
    requires StopStep(w, w') || Tamper(w, w') || Crash(w, w')
    ensures Honest(c, w, w')
  {
    hide Counts;
  }

  lemma StepIsHonest(c: Config, w: World, w': World)
    requires Step(c, w, w')
    ensures Honest(c, w, w')
  {
    hide Honest, ControllerStep, RunnerStep, StopStep, Tamper, Crash;
    if ControllerStep(c, w, w') {
      ControllerIsHonest(c, w, w');
    } else if RunnerStep(c, w, w') {
      RunnerIsHonest(c, w, w');
    } else {
      OtherIsHonest(c, w, w');
    }
  }

  /** The acknowledgement that is held, or was ever linked, counts the files as they were in some earlier state. */
  lemma {:induction false} CountedBefore(c: Config, run: seq<World>, i: nat, n: nat, text: string) returns (j: nat)
    requires IsRun(c, run) && i < |run|
    requires Holds(run[i].ctl, n, text) || Linked(Name(n, AckName), text) in run[i].history
    ensures j < i && Counts(c, run[j], n, text)
  {
    hide Step, Counts, Holds;
    if i == 0 {
      NothingHeld(c, run[0], n, text);
    } else {
      assert Step(c, run[i - 1], run[i - 1 + 1]);
      StepIsHonest(c, run[i - 1], run[i]);
      if Holds(run[i - 1].ctl, n, text) || Linked(Name(n, AckName), text) in run[i - 1].history {
        j := CountedBefore(c, run, i - 1, n, text);
      } else {
        j := i - 1;
      }
    }
  }

  lemma NothingHeld(c: Config, w: World, n: nat, text: string)
    requires Init(c, w)
    ensures !Holds(w.ctl, n, text) && Linked(Name(n, AckName), text) !in w.history
  {
  }

  /** In every run a linked acknowledgement is the canonical text of both raw files'
      sizes as the controller saw them in one earlier state, neither of them empty. */
  lemma AckCountsFiles(c: Config, run: seq<World>, i: nat, n: nat, text: string)
    returns (j: nat, results: Snapshot, summary: Snapshot)
    requires IsRun(c, run) && i < |run| && Linked(Name(n, AckName), text) in run[i].history
    ensures j < i && Results(n) in run[j].raw && Summary(n) in run[j].raw
    ensures run[j].raw[Results(n)] == results && run[j].raw[Summary(n)] == summary
    ensures results.bytes > 0 && summary.bytes > 0
    ensures text == AckText(c, n, summary.bytes, results.bytes)
  {
    hide IsRun, Holds, AckText;
    j := CountedBefore(c, run, i, n, text);
    results, summary :| HasRaw(run[j], n, results, summary) && text == AckText(c, n, summary.bytes, results.bytes);
  }

  // --- A run that completes ---

  lemma Go(c: Config, run: seq<World>, w: World) returns (longer: seq<World>)
    requires IsRun(c, run) && RunnerStep(c, Last(run), w)
    ensures IsRun(c, longer) && Last(longer) == w
  {
    hide RunnerStep, IsRun;
    Extended(c, run, w);
    longer := run + [w];
  }

  /** The sizes of a block's two raw files. */
  datatype Sizes = Sizes(results: FileSize, summary: FileSize) {
    predicate Positive() {
      results > 0 && summary > 0
    }
    function ResultsSeen(): Snapshot {
      Snapshot(results, 0)
    }
    function SummarySeen(): Snapshot {
      Snapshot(summary, 0)
    }
  }

  /** Block n begins: nothing of it, or of a later block, is there yet. */
  ghost predicate Begins(w: World, n: nat) {
    && w.ctl == AwaitRaw(n) && w.run == Running(n) && w.lock == Free && !w.stop && !w.crashed
    && Started(n) in w.history
    && (forall m: nat, kind: Kind :: n <= m ==> Name(m, kind) !in w.dir)
    && (forall m: nat :: n <= m ==> Results(m) !in w.raw && Summary(m) !in w.raw)
  }

  /** The runner publishes both raw files and waits. */
  lemma RunnerPublishes(c: Config, run: seq<World>, n: nat, z: Sizes) returns (longer: seq<World>)
    requires IsRun(c, run) && Last(run).run == Running(n) && z.Positive()
    requires Results(n) !in Last(run).raw && Summary(n) !in Last(run).raw
    ensures IsRun(c, longer)
    ensures var w, v := Last(run), Last(longer);
      && v == w.(raw := v.raw, rawDurable := v.rawDurable,
                 run := Waiting(n, z.results, z.summary, z.ResultsSeen(), z.SummarySeen()),
                 history := w.history + [Written(n, z.results, z.summary)])
      && v.raw == w.raw[Results(n) := z.ResultsSeen()][Summary(n) := z.SummarySeen()]
  {
    var w := Last(run);
    hide IsRun;
    var w1 := Log(w, Written(n, z.results, z.summary))
      .(raw := w.raw[Results(n) := z.ResultsSeen()], run := ResultsRenamed(n, z.results, z.summary));
    assert PublishResults(w, w1);
    longer := Go(c, run, w1);
    var w2 := w1.(rawDurable := w1.raw.Keys, run := ResultsSynced(n, z.results, z.summary));
    assert SyncResults(w1, w2);
    longer := Go(c, longer, w2);
    var w3 := w2.(raw := w2.raw[Summary(n) := z.SummarySeen()], run := SummaryRenamed(n, z.results, z.summary));
    assert PublishSummary(w2, w3);
    longer := Go(c, longer, w3);
    var w4 := w3.(rawDurable := w3.raw.Keys, run := SummarySynced(n, z.results, z.summary));
    assert SyncSummary(w3, w4);
    longer := Go(c, longer, w4);
    var w5 := w4.(run := Waiting(n, z.results, z.summary, z.ResultsSeen(), z.SummarySeen()));
    assert BeginWait(w4, w5) by { assert HasRaw(w4, n, z.ResultsSeen(), z.SummarySeen()); }
    longer := Go(c, longer, w5);
  }

  /** The controller audits, and its acknowledgement becomes durable. */
  lemma ControllerAcknowledges(c: Config, run: seq<World>, n: nat, z: Sizes) returns (longer: seq<World>)
    requires IsRun(c, run)
    requires var w := Last(run);
      && w.ctl == AwaitRaw(n) && w.lock == Free && !w.stop
      && HasRaw(w, n, z.ResultsSeen(), z.SummarySeen())
    requires Name(n, AckName) !in Last(run).dir
    ensures IsRun(c, longer)
    ensures var w, text := Last(run), AckText(c, n, z.summary, z.results);
      var dir := w.dir[Name(n, AckName) := text];
      Last(longer) == w.(dir := dir, durable := dir.Keys, ctl := AckDurable(n, true, text),
                         history := w.history + [Linked(Name(n, AckName), text)] + [AckSynced(n, text)])
  {
    var w, text := Last(run), AckText(c, n, z.summary, z.results);
    hide AckText, IsRun, HasRaw;
    var w1 := w.(ctl := Audited(n, true, z.ResultsSeen(), z.SummarySeen()));
    assert Audit(w, w1) by { assert AuditTo(w, w1, true, z.ResultsSeen(), z.SummarySeen()); }
    SameRaw(w, w1, n, z);
    longer := Take(c, run, w1);
    var w2 := w1.(ctl := Gated(n, true));
    SameRaw(w, w2, n, z);
    assert Recheck(w1, w2);
    longer := Take(c, longer, w2);
    var w3 := w2.(ctl := AckPrepared(n, true, z.ResultsSeen(), z.SummarySeen()));
    SameRaw(w, w3, n, z);
    assert PrepareAck(w2, w3);
    longer := Take(c, longer, w3);
    var w4 := w3.(lock := HeldByController, ctl := AckLocked(n, true, text));
    assert LockAck(c, w3, w4);
    longer := Take(c, longer, w4);
    var w5 := w4.(ctl := AckChecked(n, true, text));
    assert CheckAck(w4, w5);
    longer := Take(c, longer, w5);
    longer := AckCommits(c, longer, n, z);
  }

  lemma SameRaw(w: World, w': World, n: nat, z: Sizes)
    requires HasRaw(w, n, z.ResultsSeen(), z.SummarySeen()) && w'.raw == w.raw
    ensures HasRaw(w', n, z.ResultsSeen(), z.SummarySeen())
  {
  }

  lemma AckCommits(c: Config, run: seq<World>, n: nat, z: Sizes) returns (longer: seq<World>)
    requires IsRun(c, run) && Last(run).ctl == AckChecked(n, true, AckText(c, n, z.summary, z.results))
    requires Name(n, AckName) !in Last(run).dir
    ensures IsRun(c, longer)
    ensures var w, text := Last(run), AckText(c, n, z.summary, z.results);
      var dir := w.dir[Name(n, AckName) := text];
      Last(longer) == w.(dir := dir, durable := dir.Keys, lock := Free, ctl := AckDurable(n, true, text),
                         history := w.history + [Linked(Name(n, AckName), text)] + [AckSynced(n, text)])
  {
    var w, text := Last(run), AckText(c, n, z.summary, z.results);
    hide AckText, IsRun;
    var w1 := Link(w, Name(n, AckName), text).(ctl := AckLinked(n, true, text));
    assert LinkAck(w, w1);
    longer := Take(c, run, w1);
    var w2 := w1.(lock := Free, ctl := AckUnlocked(n, true, text));
    assert UnlockAck(w1, w2);
    longer := Take(c, longer, w2);
    var w3 := Log(Sync(w2), AckSynced(n, text)).(ctl := AckDurable(n, true, text));
    assert SyncAck(w2, w3);
    longer := Take(c, longer, w3);
  }

  /** The ready name becomes durable, and the commit lock is taken. */
  lemma ReadyCommits(c: Config, run: seq<World>, n: nat, text: string) returns (longer: seq<World>)
    requires IsRun(c, run)
    requires var w := Last(run); w.ctl == AckDurable(n, true, text) && w.lock == Free && ReadsBack(w, n, text)
    requires Name(n, ReadyName) !in Last(run).dir
    ensures IsRun(c, longer)
    ensures var w, release := Last(run), ReleaseText(c, n, text);
      var dir := w.dir[Name(n, ReadyName) := release];
      Last(longer) == w.(dir := dir, durable := dir.Keys, lock := HeldByController, ctl := ReleaseLocked(n, text),
                         history := w.history + [Linked(Name(n, ReadyName), release)])
  {
    var w, release := Last(run), ReleaseText(c, n, text);
    hide ReleaseText, IsRun;
    var w1 := Link(w, Name(n, ReadyName), release).(ctl := ReadyLinked(n, text));
    assert LinkReady(c, w, w1);
    longer := Take(c, run, w1);
    var w2 := Sync(w1).(ctl := ReadyDurable(n, text));
    assert SyncReady(w1, w2);
    longer := Take(c, longer, w2);
    var w3 := w2.(lock := HeldByController, ctl := ReleaseLocked(n, text));
    assert LockRelease(c, w2, w3);
    longer := Take(c, longer, w3);
  }

  /** The release is linked, and the controller goes on to the next block, or is done. */
  lemma ReleaseCommits(c: Config, run: seq<World>, n: nat, text: string, release: string)
    returns (longer: seq<World>)
    requires IsRun(c, run) && Last(run).ctl == ReleaseLocked(n, text) && !Last(run).stop
    requires HasText(Last(run).dir, Name(n, ReadyName), release) && Name(n, ReleaseName) !in Last(run).dir
    ensures IsRun(c, longer)
    ensures var w := Last(run);
      Last(longer) == w.(dir := w.dir[Name(n, ReleaseName) := release], lock := Free,
                         ctl := if n + 1 < c.blocks then AwaitRaw(n + 1) else Completed,
                         history := w.history + [Linked(Name(n, ReleaseName), release)])
  {
    var w := Last(run);
    hide IsRun;
    var w1 := w.(ctl := ReleaseChecked(n, text));
    assert CheckRelease(w, w1);
    longer := Take(c, run, w1);
    var w2 := Link(w1, Name(n, ReleaseName), release).(ctl := ReleaseLinked(n, text));
    assert LinkRelease(w1, w2);
    longer := Take(c, longer, w2);
    var w3 := w2.(lock := Free, ctl := if n + 1 < c.blocks then AwaitRaw(n + 1) else Completed);
    assert UnlockRelease(c, w2, w3);
    longer := Take(c, longer, w3);
  }

  /** The acknowledgement reads as the record it was made of. */
  lemma AckReadsBack(c: Config, n: nat, z: Sizes)
    requires GoodConfig(c) && n < c.blocks
    ensures AckReads(c, n, AckText(c, n, z.summary, z.results), AckRecord(n, z.summary, z.results, c.stateId))
  {
    hide JsonBytes, CanonicalAck, SafeStateId, PrintableAscii, IsDigest;
    var a := AckRecord(n, z.summary, z.results, c.stateId);
    SafeIdIsPlain(c.stateId);
    PublishedAckIsCanonical(a, c.schemas);
    PrintableIsPlain(c.schemas.ack);
  }

  /** The runner reads the release and the acknowledgement. */
  lemma RunnerReads(c: Config, run: seq<World>, n: nat, z: Sizes) returns (longer: seq<World>)
    requires GoodConfig(c) && IsRun(c, run) && n < c.blocks
    requires Last(run).run == Waiting(n, z.results, z.summary, z.ResultsSeen(), z.SummarySeen())
    requires Name(n, ReleaseName) in Last(run).dir
    requires ReadsBack(Last(run), n, AckText(c, n, z.summary, z.results))
    ensures IsRun(c, longer)
    ensures Last(longer) == Last(run).(run := SawAck(n, z.results, z.summary, z.ResultsSeen(), z.SummarySeen(),
                                                  AckRecord(n, z.summary, z.results, c.stateId)))
  {
    var w := Last(run);
    hide IsRun, Inv, GoodConfig, AckText, RunnerStep, PollRelease, ReadAck;
    InvInEveryRun(c, run, |run| - 1);
    var r := TheRelease(c, w, n);
    var w1 := PollsRelease(c, w, n, r, z);
    assert RunnerStep(c, w, w1) by { PollIsStep(c, w, w1); }
    longer := Go(c, run, w1);
    AckReadsBack(c, n, z);
    var w2 := ReadsAck(c, w1, n, r, z);
    assert RunnerStep(c, w1, w2) by { ReadIsStep(c, w1, w2); }
    longer := Go(c, longer, w2);
  }

  lemma PollIsStep(c: Config, w: World, w': World)
    requires PollRelease(c, w, w')
    ensures RunnerStep(c, w, w')
  {
    hide PollRelease;
  }

  lemma ReadIsStep(c: Config, w: World, w': World)
    requires ReadAck(c, w, w')
    ensures RunnerStep(c, w, w')
  {
    hide ReadAck;
  }

  lemma PollsRelease(c: Config, w: World, n: nat, r: ReleaseRecord, z: Sizes) returns (w': World)
    requires w.run == Waiting(n, z.results, z.summary, z.ResultsSeen(), z.SummarySeen()) &&
      Name(n, ReleaseName) in w.dir
    requires ReleaseReads(c, n, w.dir[Name(n, ReleaseName)], r)
    ensures PollRelease(c, w, w')
    ensures w' == w.(run := SawRelease(n, z.results, z.summary, z.ResultsSeen(), z.SummarySeen(), r))
  {
    hide ReleaseReads;
    w' := w.(run := SawRelease(n, z.results, z.summary, z.ResultsSeen(), z.SummarySeen(), r));
  }

  lemma ReadsAck(c: Config, w: World, n: nat, r: ReleaseRecord, z: Sizes) returns (w': World)
    requires w.run == SawRelease(n, z.results, z.summary, z.ResultsSeen(), z.SummarySeen(), r) &&
      ReadsBack(w, n, AckText(c, n, z.summary, z.results))
    requires r.ackSha256 == c.digest(AckText(c, n, z.summary, z.results))
    requires AckReads(c, n, AckText(c, n, z.summary, z.results), AckRecord(n, z.summary, z.results, c.stateId))
    ensures ReadAck(c, w, w')
    ensures w' == w.(run := SawAck(n, z.results, z.summary, z.ResultsSeen(), z.SummarySeen(),
                                   AckRecord(n, z.summary, z.results, c.stateId)))
  {
    hide AckReads, AckText;
    w' := w.(run := SawAck(n, z.results, z.summary, z.ResultsSeen(), z.SummarySeen(),
      AckRecord(n, z.summary, z.results, c.stateId)));
  }

  /** What it read binds what it wrote, so it goes on. */
  lemma RunnerAdvances(c: Config, run: seq<World>, n: nat, z: Sizes) returns (longer: seq<World>)
    requires IsRun(c, run) && HasRaw(Last(run), n, z.ResultsSeen(), z.SummarySeen())
    requires Last(run).run == SawAck(n, z.results, z.summary, z.ResultsSeen(), z.SummarySeen(),
      AckRecord(n, z.summary, z.results, c.stateId))
    ensures IsRun(c, longer)
    ensures var w := Last(run);
      Last(longer) == if n + 1 < c.blocks then
        w.(run := Running(n + 1), history := w.history + [Started(n + 1)])
      else w.(run := RunnerDone)
  {
    var w := Last(run);
    hide IsRun, HasRaw;
    var w1 := if n + 1 < c.blocks then
        w.(run := Running(n + 1), history := w.history + [Started(n + 1)])
      else w.(run := RunnerDone);
    assert Bound(w, w.run);
    assert Advance(c, w, w1);
    longer := Go(c, run, w1);
  }

  lemma TheRelease(c: Config, w: World, n: nat) returns (r: ReleaseRecord)
    requires GoodConfig(c) && Inv(c, w) && n < c.blocks && Name(n, ReleaseName) in w.dir
    ensures Name(n, AckName) in w.dir && r.ackSha256 == c.digest(w.dir[Name(n, AckName)])
    ensures ReleaseReads(c, n, w.dir[Name(n, ReleaseName)], r)
  {
    hide GoodConfig, ReleaseReads, ReleaseText, DirInv, CtlInv, RunInv, Ordered;
    r := VisibleReleaseIsCanonical(c, w, n);
  }

  /** Block n was started, its files written, acknowledged durably, and released for that acknowledgement. */
  ghost predicate Served(c: Config, w: World, n: nat, z: Sizes) {
    var ack := AckText(c, n, z.summary, z.results);
    && Started(n) in w.history && Written(n, z.results, z.summary) in w.history && AckSynced(n, ack) in w.history
    && Linked(Name(n, ReleaseName), ReleaseText(c, n, ack)) in w.history
    && Name(n, AckName) in w.durable && Name(n, AckName) in w.dir && w.dir[Name(n, AckName)] == ack
    && Name(n, ReleaseName) in w.dir && w.dir[Name(n, ReleaseName)] == ReleaseText(c, n, ack)
  }

  ghost predicate ServedBelow(c: Config, w: World, n: nat, sizes: nat -> Sizes) {
    forall m: nat :: m < n ==> Served(c, w, m, sizes(m))
  }

  /** What a block leaves behind, whatever came before it. */
  ghost predicate Passes(c: Config, w: World, v: World, n: nat, z: Sizes) {
    var ack := AckText(c, n, z.summary, z.results);
    var release := ReleaseText(c, n, ack);
    var acked := w.dir[Name(n, AckName) := ack][Name(n, ReadyName) := release];
    && v.dir == acked[Name(n, ReleaseName) := release] && v.durable == acked.Keys
    && v.raw == w.raw[Results(n) := z.ResultsSeen()][Summary(n) := z.SummarySeen()]
    && v.lock == Free && !v.stop && !v.crashed
    && v.ctl == (if n + 1 < c.blocks then AwaitRaw(n + 1) else Completed)
    && v.run == (if n + 1 < c.blocks then Running(n + 1) else RunnerDone)
    && v.history == w.history + [Written(n, z.results, z.summary)] + [Linked(Name(n, AckName), ack)]
                    + [AckSynced(n, ack)] + [Linked(Name(n, ReadyName), release)]
                    + [Linked(Name(n, ReleaseName), release)] + (if n + 1 < c.blocks then [Started(n + 1)] else [])
  }

  /** A block up to its durable acknowledgement. */
  lemma Acknowledges(c: Config, run: seq<World>, n: nat, z: Sizes) returns (longer: seq<World>)
    requires IsRun(c, run) && Begins(Last(run), n) && z.Positive()
    ensures IsRun(c, longer)
    ensures var w, v, ack := Last(run), Last(longer), AckText(c, n, z.summary, z.results);
      var dir := w.dir[Name(n, AckName) := ack];
      && v == w.(dir := dir, durable := dir.Keys,
                 raw := w.raw[Results(n) := z.ResultsSeen()][Summary(n) := z.SummarySeen()],
                 rawDurable := v.rawDurable, ctl := AckDurable(n, true, ack),
                 run := Waiting(n, z.results, z.summary, z.ResultsSeen(), z.SummarySeen()),
                 history := w.history + [Written(n, z.results, z.summary)]
                            + [Linked(Name(n, AckName), ack)] + [AckSynced(n, ack)])
  {
    hide IsRun, AckText;
    longer := RunnerPublishes(c, run, n, z);
    longer := ControllerAcknowledges(c, longer, n, z);
  }

  /** From there to its release, and to the next block. */
  lemma Releases(c: Config, run: seq<World>, n: nat, ack: string, z: Sizes) returns (longer: seq<World>)
    requires GoodConfig(c) && IsRun(c, run) && n < c.blocks && ack == AckText(c, n, z.summary, z.results)
    requires var w := Last(run);
      && w.ctl == AckDurable(n, true, ack) && w.lock == Free && !w.stop
      && w.run == Waiting(n, z.results, z.summary, z.ResultsSeen(), z.SummarySeen())
      && ReadsBack(w, n, ack) && HasRaw(w, n, z.ResultsSeen(), z.SummarySeen())
      && Name(n, ReadyName) !in w.dir && Name(n, ReleaseName) !in w.dir
    ensures IsRun(c, longer)
    ensures var w, release := Last(run), ReleaseText(c, n, ack);
      var dir := w.dir[Name(n, ReadyName) := release];
      Last(longer) == w.(dir := dir[Name(n, ReleaseName) := release], durable := dir.Keys,
                         ctl := if n + 1 < c.blocks then AwaitRaw(n + 1) else Completed,
                         run := if n + 1 < c.blocks then Running(n + 1) else RunnerDone,
                         history := w.history + [Linked(Name(n, ReadyName), release)]
                                    + [Linked(Name(n, ReleaseName), release)]
                                    + (if n + 1 < c.blocks then [Started(n + 1)] else []))
  {
    hide IsRun, AckText, ReleaseText, GoodConfig;
    longer := ReadyCommits(c, run, n, ack);
    longer := ReleaseCommits(c, longer, n, ack, ReleaseText(c, n, ack));
    longer := RunnerReads(c, longer, n, z);
    longer := RunnerAdvances(c, longer, n, z);
  }

  lemma OneBlock(c: Config, run: seq<World>, n: nat, z: Sizes) returns (longer: seq<World>)
    requires GoodConfig(c) && IsRun(c, run) && n < c.blocks && Begins(Last(run), n) && z.Positive()
    ensures longer != [] && IsRun(c, longer) && Passes(c, Last(run), Last(longer), n, z)
  {
    hide AckText, ReleaseText, GoodConfig, Step, Init;
    longer := Acknowledges(c, run, n, z);
    longer := Releases(c, longer, n, AckText(c, n, z.summary, z.results), z);
  }

  lemma PassedServes(c: Config, w: World, v: World, n: nat, sizes: nat -> Sizes)
    requires Begins(w, n) && Passes(c, w, v, n, sizes(n)) && ServedBelow(c, w, n, sizes)
    ensures ServedBelow(c, v, n + 1, sizes)
  {
    hide AckText, ReleaseText;
    forall m: nat | m < n + 1 ensures Served(c, v, m, sizes(m)) {
      assert m < n ==> Served(c, w, m, sizes(m));
    }
  }

  lemma NextBegins(c: Config, w: World, v: World, n: nat, z: Sizes)
    requires Begins(w, n) && Passes(c, w, v, n, z) && n + 1 < c.blocks
    ensures Begins(v, n + 1)
  {
    hide AckText, ReleaseText;
    assert Started(n + 1) in v.history;
  }

  lemma FirstBegins(c: Config, sizes: nat -> Sizes) returns (run: seq<World>)
    ensures run != [] && IsRun(c, run) && Begins(Last(run), 0) && ServedBelow(c, Last(run), 0, sizes)
  {
    hide Served;
    run := [World(map[], {}, map[], {}, false, Free, AwaitRaw(0), Running(0), false, [Started(0)])];
  }

  /** Some run serves the first n blocks and begins the next. */
  lemma {:induction false} SomeRunBegins(c: Config, sizes: nat -> Sizes, n: nat) returns (run: seq<World>)
    requires GoodConfig(c) && n < c.blocks && forall m: nat :: sizes(m).Positive()
    ensures run != [] && IsRun(c, run) && Begins(Last(run), n) && ServedBelow(c, Last(run), n, sizes)
  {
    hide Passes, ServedBelow, Begins, GoodConfig, IsRun;
    if n == 0 {
      run := FirstBegins(c, sizes);
    } else {
      var before := SomeRunBegins(c, sizes, n - 1);
      run := OneBlock(c, before, n - 1, sizes(n - 1));
      PassedServes(c, Last(before), Last(run), n - 1, sizes);
      NextBegins(c, Last(before), Last(run), n - 1, sizes(n - 1));
    }
  }

  /** For every configuration, and whatever the sizes of its raw files, there is a
      run in which the controller completes and the runner is done, with every block
      started, acknowledged for its own sizes and released. */
  lemma SomeRunCompletes(c: Config, sizes: nat -> Sizes) returns (run: seq<World>)
    requires GoodConfig(c) && forall n: nat :: sizes(n).Positive()
    ensures run != [] && IsRun(c, run)
    ensures Last(run).ctl == Completed && Last(run).run == RunnerDone && !Last(run).crashed
    ensures forall n: nat :: n < c.blocks ==>
      var ack := AckText(c, n, sizes(n).summary, sizes(n).results);
      && Started(n) in Last(run).history && Written(n, sizes(n).results, sizes(n).summary) in Last(run).history
      && AckSynced(n, ack) in Last(run).history && Name(n, AckName) in Last(run).durable
      && HasText(Last(run).dir, Name(n, AckName), ack)
      && Linked(Name(n, ReleaseName), ReleaseText(c, n, ack)) in Last(run).history
      && HasText(Last(run).dir, Name(n, ReleaseName), ReleaseText(c, n, ack))
  {
    hide IsRun, Begins, ServedBelow, Passes, AckText, ReleaseText;
    var before := SomeRunBegins(c, sizes, c.blocks - 1);
    run := OneBlock(c, before, c.blocks - 1, sizes(c.blocks - 1));
    PassedServes(c, Last(before), Last(run), c.blocks - 1, sizes);
    PassedLast(c, Last(before), Last(run), c.blocks - 1, sizes(c.blocks - 1));
    forall n: nat | n < c.blocks ensures Served(c, Last(run), n, sizes(n)) {
      OneServed(c, Last(run), c.blocks, sizes, n);
    }
  }

  lemma PassedLast(c: Config, w: World, v: World, n: nat, z: Sizes)
    requires Passes(c, w, v, n, z) && n + 1 == c.blocks
    ensures v.ctl == Completed && v.run == RunnerDone && !v.crashed
  {
    hide AckText, ReleaseText;
  }

  lemma OneServed(c: Config, w: World, blocks: nat, sizes: nat -> Sizes, n: nat)
    requires ServedBelow(c, w, blocks, sizes) && n < blocks
    ensures Served(c, w, n, sizes(n))
  {
  }
}
