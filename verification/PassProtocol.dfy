// Acknowledge, then release: the controller, the runner, the stop latch and a
// crash as atomic steps over two directories. A name is visible once it is
// linked and durable once its directory was synced.

module PassProtocol {
  import opened ContractParse
  import opened Contract
  import opened BlockPublisher

  // --- Configuration and file system ---

  datatype Config = Config(stateId: string, schemas: Schemas, blocks: nat, digest: string -> string)

  ghost predicate GoodConfig(c: Config) {
    && SafeStateId(c.stateId)
    && PrintableAscii(c.schemas.ack) && PrintableAscii(c.schemas.release)
    && 0 < c.blocks <= MAX_BLOCK + 1
    && forall text :: IsDigest(c.digest(text))
  }

  /** Sizes are machine words. */
  type FileSize = n: nat | n < SIZE_LIMIT

  /** What a stat call reports; a changed file has another version. */
  datatype Snapshot = Snapshot(bytes: FileSize, version: nat)

  datatype RawName = Results(block: nat) | Summary(block: nat)

  datatype Name = Name(block: nat, kind: Kind)

  datatype Event =
    | Started(block: nat)
    | Written(block: nat, results: FileSize, summary: FileSize)
    | GateFailed(block: nat)
    | Linked(name: Name, text: string)
    | AckSynced(block: nat, text: string)
    | Latched

  datatype Lock = Free | HeldByController | HeldByStop

  datatype Controller =
    | AwaitRaw(block: nat)
    | Audited(block: nat, gate: bool, results: Snapshot, summary: Snapshot)
    | Gated(block: nat, gate: bool)
    | AckPrepared(block: nat, gate: bool, results: Snapshot, summary: Snapshot)
    | AckLocked(block: nat, gate: bool, text: string)
    | AckChecked(block: nat, gate: bool, text: string)
    | AckLinked(block: nat, gate: bool, text: string)
    | AckUnlocked(block: nat, gate: bool, text: string)
    | AckDurable(block: nat, gate: bool, text: string)
    | ReadyLinked(block: nat, text: string)
    | ReadyDurable(block: nat, text: string)
    | ReleaseLocked(block: nat, text: string)
    | ReleaseChecked(block: nat, text: string)
    | ReleaseLinked(block: nat, text: string)
    | Withheld(block: nat)
    | Completed
    | ControllerFailed

  /** The runner; `results` and `summary` are the sizes it wrote. */
  datatype Runner =
    | Running(block: nat)
    | ResultsRenamed(block: nat, results: FileSize, summary: FileSize)
    | ResultsSynced(block: nat, results: FileSize, summary: FileSize)
    | SummaryRenamed(block: nat, results: FileSize, summary: FileSize)
    | SummarySynced(block: nat, results: FileSize, summary: FileSize)
    | Waiting(block: nat, results: FileSize, summary: FileSize, resultsSeen: Snapshot, summarySeen: Snapshot)
    | SawRelease(block: nat, results: FileSize, summary: FileSize, resultsSeen: Snapshot, summarySeen: Snapshot,
        release: ReleaseRecord)
    | SawAck(block: nat, results: FileSize, summary: FileSize, resultsSeen: Snapshot, summarySeen: Snapshot,
        ack: AckRecord)
    | ReleaseBeforeAck(block: nat)
    | BadContract(block: nat)
    | RunnerDone
    | RunnerFailed

  datatype World = World(
    raw: map<RawName, Snapshot>, rawDurable: set<RawName>,
    dir: map<Name, string>, durable: set<Name>,
    stop: bool, lock: Lock, ctl: Controller, run: Runner, crashed: bool, history: seq<Event>)

  function AckText(c: Config, n: nat, summary: FileSize, results: FileSize): string {
    JsonBytes(AckValue(AckRecord(n, summary, results, c.stateId), c.schemas))
  }

  function ReleaseText(c: Config, n: nat, ackText: string): string {
    JsonBytes(ReleaseValue(ReleaseRecord(c.digest(ackText), n, c.stateId), c.schemas))
  }

  ghost predicate Init(c: Config, w: World) {
    w == World(map[], {}, map[], {}, false, Free, AwaitRaw(0), Running(0), false, [Started(0)])
  }

  // --- Directory operations ---

  /** link(2): it fails when the name exists. */
  function Link(w: World, name: Name, text: string): World {
    w.(dir := w.dir[name := text], history := w.history + [Linked(name, text)])
  }

  function Sync(w: World): World {
    w.(durable := w.dir.Keys)
  }

  function Log(w: World, e: Event): World {
    w.(history := w.history + [e])
  }

  predicate HasRaw(w: World, n: nat, results: Snapshot, summary: Snapshot) {
    && Results(n) in w.raw && w.raw[Results(n)] == results && results.bytes > 0
    && Summary(n) in w.raw && w.raw[Summary(n)] == summary && summary.bytes > 0
  }

  // --- Controller steps ---

  /** Both raw files are there; the audit decides the gate. */
  ghost predicate Audit(w: World, w': World) {
    w.ctl.AwaitRaw? && exists gate: bool, results: Snapshot, summary: Snapshot ::
      HasRaw(w, w.ctl.block, results, summary) && AuditTo(w, w', gate, results, summary)
  }

  ghost predicate AuditTo(w: World, w': World, gate: bool, results: Snapshot, summary: Snapshot)
    requires w.ctl.AwaitRaw?
  {
    var audited := w.(ctl := Audited(w.ctl.block, gate, results, summary));
    w' == if gate then audited else Log(audited, GateFailed(w.ctl.block))
  }

  ghost predicate Recheck(w: World, w': World) {
    && w.ctl.Audited? && HasRaw(w, w.ctl.block, w.ctl.results, w.ctl.summary)
    && w' == w.(ctl := Gated(w.ctl.block, w.ctl.gate))
  }

  ghost predicate PrepareAck(w: World, w': World) {
    w.ctl.Gated? && exists results: Snapshot, summary: Snapshot ::
      && HasRaw(w, w.ctl.block, results, summary)
      && w' == w.(ctl := AckPrepared(w.ctl.block, w.ctl.gate, results, summary))
  }

  ghost predicate LockAck(c: Config, w: World, w': World) {
    && w.ctl.AckPrepared? && w.lock == Free
    && HasRaw(w, w.ctl.block, w.ctl.results, w.ctl.summary)
    && w' == w.(lock := HeldByController,
                ctl := AckLocked(w.ctl.block, w.ctl.gate,
                                 AckText(c, w.ctl.block, w.ctl.summary.bytes, w.ctl.results.bytes)))
  }

  ghost predicate CheckAck(w: World, w': World) {
    && w.ctl.AckLocked? && !w.stop
    && w' == w.(ctl := AckChecked(w.ctl.block, w.ctl.gate, w.ctl.text))
  }

  ghost predicate LinkAck(w: World, w': World) {
    && w.ctl.AckChecked? && Name(w.ctl.block, AckName) !in w.dir
    && w' == Link(w, Name(w.ctl.block, AckName), w.ctl.text).(ctl := AckLinked(w.ctl.block, w.ctl.gate, w.ctl.text))
  }

  ghost predicate UnlockAck(w: World, w': World) {
    && w.ctl.AckLinked?
    && w' == w.(lock := Free, ctl := AckUnlocked(w.ctl.block, w.ctl.gate, w.ctl.text))
  }

  ghost predicate SyncAck(w: World, w': World) {
    && w.ctl.AckUnlocked?
    && w' == Log(Sync(w), AckSynced(w.ctl.block, w.ctl.text)).(ctl := AckDurable(w.ctl.block, w.ctl.gate, w.ctl.text))
  }

  /** The acknowledgement reads back as written. */
  predicate ReadsBack(w: World, n: nat, text: string) {
    Name(n, AckName) in w.dir && w.dir[Name(n, AckName)] == text
  }

  ghost predicate Withhold(w: World, w': World) {
    && w.ctl.AckDurable? && ReadsBack(w, w.ctl.block, w.ctl.text) && !w.ctl.gate
    && w' == w.(ctl := Withheld(w.ctl.block))
  }

  ghost predicate LinkReady(c: Config, w: World, w': World) {
    && w.ctl.AckDurable? && ReadsBack(w, w.ctl.block, w.ctl.text) && w.ctl.gate
    && Name(w.ctl.block, ReadyName) !in w.dir
    && w' == Link(w, Name(w.ctl.block, ReadyName), ReleaseText(c, w.ctl.block, w.ctl.text))
             .(ctl := ReadyLinked(w.ctl.block, w.ctl.text))
  }

  /** The sync behind the ready name failed: nothing is authorized, and the release may be tried again. */
  ghost predicate RetryRelease(w: World, w': World) {
    && w.ctl.ReadyLinked?
    && w' == w.(ctl := AckDurable(w.ctl.block, true, w.ctl.text))
  }

  /** A ready name of an earlier attempt is synced again. */
  ghost predicate ReuseReady(c: Config, w: World, w': World) {
    && w.ctl.AckDurable? && ReadsBack(w, w.ctl.block, w.ctl.text) && w.ctl.gate
    && Name(w.ctl.block, ReadyName) in w.dir
    && w.dir[Name(w.ctl.block, ReadyName)] == ReleaseText(c, w.ctl.block, w.ctl.text)
    && w' == Sync(w).(ctl := ReadyDurable(w.ctl.block, w.ctl.text))
  }

  ghost predicate SyncReady(w: World, w': World) {
    && w.ctl.ReadyLinked?
    && w' == Sync(w).(ctl := ReadyDurable(w.ctl.block, w.ctl.text))
  }

  ghost predicate LockRelease(c: Config, w: World, w': World) {
    && w.ctl.ReadyDurable? && w.lock == Free
    && Name(w.ctl.block, ReadyName) in w.dir
    && w.dir[Name(w.ctl.block, ReadyName)] == ReleaseText(c, w.ctl.block, w.ctl.text)
    && w' == w.(lock := HeldByController, ctl := ReleaseLocked(w.ctl.block, w.ctl.text))
  }

  ghost predicate CheckRelease(w: World, w': World) {
    && w.ctl.ReleaseLocked? && !w.stop
    && w' == w.(ctl := ReleaseChecked(w.ctl.block, w.ctl.text))
  }

  /** The release is another name of the ready file. */
  ghost predicate LinkRelease(w: World, w': World) {
    && w.ctl.ReleaseChecked? && Name(w.ctl.block, ReleaseName) !in w.dir && Name(w.ctl.block, ReadyName) in w.dir
    && w' == Link(w, Name(w.ctl.block, ReleaseName), w.dir[Name(w.ctl.block, ReadyName)])
             .(ctl := ReleaseLinked(w.ctl.block, w.ctl.text))
  }

  ghost predicate UnlockRelease(c: Config, w: World, w': World) {
    && w.ctl.ReleaseLinked?
    && w' == w.(lock := Free, ctl := if w.ctl.block + 1 < c.blocks then AwaitRaw(w.ctl.block + 1) else Completed)
  }

  /** Any exception: a lock the controller holds is given back. */
  ghost predicate FailController(w: World, w': World) {
    && !w.crashed
    && w' == w.(lock := if w.lock == HeldByController then Free else w.lock, ctl := ControllerFailed)
  }

  ghost predicate ControllerStep(c: Config, w: World, w': World) {
    || Audit(w, w') || Recheck(w, w') || PrepareAck(w, w') || LockAck(c, w, w') || CheckAck(w, w')
    || LinkAck(w, w') || UnlockAck(w, w') || SyncAck(w, w') || Withhold(w, w') || LinkReady(c, w, w')
    || RetryRelease(w, w') || ReuseReady(c, w, w') || SyncReady(w, w') || LockRelease(c, w, w') || CheckRelease(w, w')
    || LinkRelease(w, w') || UnlockRelease(c, w, w') || FailController(w, w')
  }

  // --- Stop latch ---

  ghost predicate StopStep(w: World, w': World) {
    && !w.crashed
    && (|| (w.lock == Free && w' == w.(lock := HeldByStop))
        || (w.lock == HeldByStop && !w.stop && w' == Log(w, Latched).(stop := true))
        || (w.lock == HeldByStop && w.stop && w' == w.(lock := Free)))
  }

  // --- Runner steps ---

  ghost predicate PublishResults(w: World, w': World) {
    w.run.Running? && exists results: FileSize, summary: FileSize, version: nat ::
      && results > 0 && summary > 0 && Results(w.run.block) !in w.raw
      && w' == Log(w, Written(w.run.block, results, summary))
               .(raw := w.raw[Results(w.run.block) := Snapshot(results, version)],
                 run := ResultsRenamed(w.run.block, results, summary))
  }

  ghost predicate SyncResults(w: World, w': World) {
    && w.run.ResultsRenamed?
    && w' == w.(rawDurable := w.raw.Keys, run := ResultsSynced(w.run.block, w.run.results, w.run.summary))
  }

  ghost predicate PublishSummary(w: World, w': World) {
    w.run.ResultsSynced? && exists version: nat ::
      && Summary(w.run.block) !in w.raw
      && w' == w.(raw := w.raw[Summary(w.run.block) := Snapshot(w.run.summary, version)],
                  run := SummaryRenamed(w.run.block, w.run.results, w.run.summary))
  }

  ghost predicate SyncSummary(w: World, w': World) {
    && w.run.SummaryRenamed?
    && w' == w.(rawDurable := w.raw.Keys, run := SummarySynced(w.run.block, w.run.results, w.run.summary))
  }

  ghost predicate BeginWait(w: World, w': World) {
    w.run.SummarySynced? && exists results: Snapshot, summary: Snapshot ::
      && HasRaw(w, w.run.block, results, summary)
      && w' == w.(run := Waiting(w.run.block, w.run.results, w.run.summary, results, summary))
  }

  /** The payload is accepted as block n's release, and read as r. */
  ghost predicate ReleaseReads(c: Config, n: nat, payload: string, r: ReleaseRecord) {
    ReleaseFits(r, c.stateId, n, c.schemas) && payload == CanonicalRelease(r, c.schemas)
  }

  ghost predicate AckReads(c: Config, n: nat, payload: string, a: AckRecord) {
    AckFits(a, c.stateId, n, c.schemas) && payload == CanonicalAck(a, c.schemas)
  }

  /** The release is visible: a malformed or foreign one is fatal. */
  ghost predicate PollRelease(c: Config, w: World, w': World) {
    && w.run.Waiting? && Name(w.run.block, ReleaseName) in w.dir
    && var payload := w.dir[Name(w.run.block, ReleaseName)];
    && if exists r :: ReleaseReads(c, w.run.block, payload, r) then
         exists r: ReleaseRecord ::
           && ReleaseReads(c, w.run.block, payload, r)
           && w' == w.(run := SawRelease(w.run.block, w.run.results, w.run.summary,
                                         w.run.resultsSeen, w.run.summarySeen, r))
       else
         w' == w.(run := BadContract(w.run.block))
  }

  /** The acknowledgement must be there, be canonical, and hash to what the release names. */
  ghost predicate ReadAck(c: Config, w: World, w': World) {
    && w.run.SawRelease?
    && if Name(w.run.block, AckName) !in w.dir then
         w' == w.(run := ReleaseBeforeAck(w.run.block))
       else
         var payload := w.dir[Name(w.run.block, AckName)];
         if (exists a :: AckReads(c, w.run.block, payload, a))
            && c.digest(payload) == w.run.release.ackSha256 then
           exists a: AckRecord ::
             && AckReads(c, w.run.block, payload, a)
             && w' == w.(run := SawAck(w.run.block, w.run.results, w.run.summary,
                                       w.run.resultsSeen, w.run.summarySeen, a))
         else
           w' == w.(run := BadContract(w.run.block))
  }

  /** Counts, snapshots and written sizes all agree. */
  predicate Bound(w: World, run: Runner)
    requires run.SawAck?
  {
    && HasRaw(w, run.block, run.resultsSeen, run.summarySeen)
    && run.ack.passesBytes == run.summarySeen.bytes == run.summary
    && run.ack.resultsBytes == run.resultsSeen.bytes == run.results
  }

  ghost predicate Advance(c: Config, w: World, w': World) {
    && w.run.SawAck?
    && if !Bound(w, w.run) then
         w' == w.(run := RunnerFailed)
       else
         (|| w' == w.(run := RunnerDone)
          || (w.run.block + 1 < c.blocks
              && w' == Log(w, Started(w.run.block + 1)).(run := Running(w.run.block + 1))))
  }

  ghost predicate FailRunner(w: World, w': World) {
    !w.crashed && w' == w.(run := RunnerFailed)
  }

  ghost predicate RunnerStep(c: Config, w: World, w': World) {
    || PublishResults(w, w') || SyncResults(w, w') || PublishSummary(w, w') || SyncSummary(w, w') || BeginWait(w, w')
    || PollRelease(c, w, w') || ReadAck(c, w, w') || Advance(c, w, w') || FailRunner(w, w')
  }

  // --- Outside the protocol ---

  /** Somebody changes a raw file that is already there. */
  ghost predicate Tamper(w: World, w': World) {
    exists name: RawName, s: Snapshot ::
      name in w.raw && s.version > w.raw[name].version && w' == w.(raw := w.raw[name := s])
  }

  /** A crash ends both processes and keeps what was durable, with any of the rest. */
  ghost predicate Crash(w: World, w': World) {
    exists dir: map<Name, string>, raw: map<RawName, Snapshot> ::
      && w.durable * w.dir.Keys <= dir.Keys <= w.dir.Keys && (forall name :: name in dir ==> dir[name] == w.dir[name])
      && w.rawDurable * w.raw.Keys <= raw.Keys <= w.raw.Keys
      && (forall name :: name in raw ==> raw[name] == w.raw[name])
      && w' == w.(dir := dir, raw := raw, lock := Free, ctl := ControllerFailed, run := RunnerFailed, crashed := true)
  }

  ghost predicate Step(c: Config, w: World, w': World) {
    ControllerStep(c, w, w') || StopStep(w, w') || RunnerStep(c, w, w') || Tamper(w, w') || Crash(w, w')
  }

  ghost predicate IsRun(c: Config, run: seq<World>) {
    && run != [] && Init(c, run[0])
    && forall i :: 0 <= i < |run| - 1 ==> Step(c, run[i], run[i + 1])
  }
}
