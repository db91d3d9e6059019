// What every run of the acknowledge-then-release protocol keeps.

module PassSafety {
  import opened ContractParse
  import opened Contract
  import opened BlockPublisher
  import opened PassProtocol

  // --- Safety over the history ---

  /** A durable acknowledgement of block n with this text. */
  ghost predicate Acked(h: seq<Event>, n: nat, text: string) {
    AckSynced(n, text) in h
  }

  /** A release of block n may only name an acknowledgement that is already durable. */
  ghost predicate ReleaseBacked(c: Config, h: seq<Event>, n: nat, release: string) {
    exists ack: string :: Acked(h, n, ack) && release == ReleaseText(c, n, ack)
  }

  /** Block n was released, for a durable acknowledgement of the sizes the runner wrote. */
  ghost predicate Granted(c: Config, h: seq<Event>, n: nat) {
    exists results: FileSize, summary: FileSize :: GrantedFor(c, h, n, results, summary)
  }

  ghost predicate GrantedFor(c: Config, h: seq<Event>, n: nat, results: FileSize, summary: FileSize) {
    var ack := AckText(c, n, summary, results);
    && Written(n, results, summary) in h
    && Acked(h, n, ack)
    && Linked(Name(n, ReleaseName), ReleaseText(c, n, ack)) in h
  }

  ghost predicate NotLinked(h: seq<Event>, name: Name) {
    forall text: string :: Linked(name, text) !in h
  }

  ghost predicate NoneStartedFrom(h: seq<Event>, n: nat) {
    forall m: nat :: n <= m ==> Started(m) !in h
  }

  /** What must have happened before event e, and what must not. */
  ghost predicate MayFollow(c: Config, h: seq<Event>, e: Event) {
    match e
    case Started(n) => NoneStartedFrom(h, n) && (n > 0 ==> Granted(c, h, n - 1))
    case GateFailed(n) => NotLinked(h, Name(n, ReleaseName))
    case Linked(name, text) =>
      && NotLinked(h, name)
      && (name.kind != ReadyName ==> Latched !in h)
      && (name.kind == ReleaseName ==> GateFailed(name.block) !in h && ReleaseBacked(c, h, name.block, text))
    case AckSynced(n, text) => Linked(Name(n, AckName), text) in h
    case _ => true
  }

  /** Every event could follow those before it. */
  ghost predicate Ordered(c: Config, h: seq<Event>) {
    forall i :: 0 <= i < |h| ==> MayFollow(c, h[..i], h[i])
  }

  lemma OrderedGrows(c: Config, h: seq<Event>, e: Event)
    requires Ordered(c, h) && MayFollow(c, h, e)
    ensures Ordered(c, h + [e])
  {
    hide MayFollow;
    forall i | 0 <= i < |h + [e]| ensures MayFollow(c, (h + [e])[..i], (h + [e])[i]) {
      if i < |h| {
        assert (h + [e])[..i] == h[..i];
      } else {
        assert (h + [e])[..i] == h;
      }
    }
  }

  // --- Invariant of the directories ---

  /** Directory, what is durable of it, and the history agree. */
  ghost predicate DirInv(c: Config, dir: map<Name, string>, durable: set<Name>, crashed: bool, h: seq<Event>) {
    && (forall name :: name in durable ==> name in dir)
    && (forall name :: name in dir ==> Linked(name, dir[name]) in h)
    && (forall n: nat :: Name(n, AckName) in dir ==> IsAckText(c, n, dir[Name(n, AckName)]))
    && (forall n: nat :: Name(n, ReadyName) in dir ==> ReadyHolds(c, dir, durable, n))
    && (forall n: nat :: Name(n, ReleaseName) in dir ==> ReleaseHolds(dir, durable, n))
    && (!crashed ==> forall name, text :: Linked(name, text) in h ==> name in dir && dir[name] == text)
  }

  /** The canonical acknowledgement of block n for some sizes. */
  ghost predicate IsAckText(c: Config, n: nat, text: string) {
    n < c.blocks && exists summary: FileSize, results: FileSize :: text == AckText(c, n, summary, results)
  }

  ghost predicate ReadyHolds(c: Config, dir: map<Name, string>, durable: set<Name>, n: nat)
    requires Name(n, ReadyName) in dir
  {
    && Name(n, AckName) in durable && Name(n, AckName) in dir
    && dir[Name(n, ReadyName)] == ReleaseText(c, n, dir[Name(n, AckName)])
  }

  ghost predicate ReleaseHolds(dir: map<Name, string>, durable: set<Name>, n: nat)
    requires Name(n, ReleaseName) in dir
  {
    && Name(n, ReadyName) in durable && Name(n, ReadyName) in dir
    && dir[Name(n, ReleaseName)] == dir[Name(n, ReadyName)]
  }

  lemma DirInvLinks(c: Config, w: World, name: Name, text: string)
    requires DirInv(c, w.dir, w.durable, w.crashed, w.history) && name !in w.dir
    requires name.kind == AckName ==> IsAckText(c, name.block, text)
    requires name.kind == ReadyName ==>
      Name(name.block, AckName) in w.durable && text == ReleaseText(c, name.block, w.dir[Name(name.block, AckName)])
    requires name.kind == ReleaseName ==>
      Name(name.block, ReadyName) in w.durable && text == w.dir[Name(name.block, ReadyName)]
    ensures var w' := Link(w, name, text); DirInv(c, w'.dir, w'.durable, w'.crashed, w'.history)
  {
    hide ReleaseText, IsAckText;
    var w' := Link(w, name, text);
    forall n: nat | Name(n, ReadyName) in w'.dir ensures ReadyHolds(c, w'.dir, w'.durable, n) {
      if Name(n, ReadyName) in w.dir { assert ReadyHolds(c, w.dir, w.durable, n); }
    }
    forall n: nat | Name(n, ReleaseName) in w'.dir ensures ReleaseHolds(w'.dir, w'.durable, n) {
      if Name(n, ReleaseName) in w.dir { assert ReleaseHolds(w.dir, w.durable, n); }
    }
  }

  lemma DirInvSyncs(c: Config, w: World)
    requires DirInv(c, w.dir, w.durable, w.crashed, w.history)
    ensures DirInv(c, w.dir, w.dir.Keys, w.crashed, w.history)
  {
    forall n: nat | Name(n, ReadyName) in w.dir ensures ReadyHolds(c, w.dir, w.dir.Keys, n) {
      assert ReadyHolds(c, w.dir, w.durable, n);
    }
    forall n: nat | Name(n, ReleaseName) in w.dir ensures ReleaseHolds(w.dir, w.dir.Keys, n) {
      assert ReleaseHolds(w.dir, w.durable, n);
    }
  }

  lemma DirInvLogs(c: Config, w: World, e: Event)
    requires DirInv(c, w.dir, w.durable, w.crashed, w.history) && !e.Linked?
    ensures DirInv(c, w.dir, w.durable, w.crashed, w.history + [e])
  {
  }

  lemma DirInvCrashes(c: Config, w: World, dir: map<Name, string>)
    requires DirInv(c, w.dir, w.durable, w.crashed, w.history)
    requires w.durable * w.dir.Keys <= dir.Keys <= w.dir.Keys
    requires forall name :: name in dir ==> dir[name] == w.dir[name]
    ensures DirInv(c, dir, w.durable, true, w.history)
  {
    forall name | name in w.durable ensures name in dir {
      assert name in w.durable * w.dir.Keys;
    }
    forall n: nat | Name(n, ReadyName) in dir ensures ReadyHolds(c, dir, w.durable, n) {
      assert ReadyHolds(c, w.dir, w.durable, n);
    }
    forall n: nat | Name(n, ReleaseName) in dir ensures ReleaseHolds(dir, w.durable, n) {
      assert ReleaseHolds(w.dir, w.durable, n);
    }
  }

  // --- Invariant of the controller ---

  /** Nothing of block n was linked or refused yet. */
  ghost predicate Fresh(h: seq<Event>, n: nat) {
    GateFailed(n) !in h && forall kind: Kind :: NotLinked(h, Name(n, kind))
  }

  ghost predicate FreshFrom(h: seq<Event>, n: nat) {
    forall m: nat :: n <= m ==> Fresh(h, m)
  }

  ghost predicate Holding(ctl: Controller) {
    ctl.AckLocked? || ctl.AckChecked? || ctl.AckLinked? || ctl.ReleaseLocked? || ctl.ReleaseChecked? ||
      ctl.ReleaseLinked?
  }

  ghost predicate HasText(dir: map<Name, string>, name: Name, text: string) {
    name in dir && dir[name] == text
  }

  /** Block n's gate is open and its release is still to come. */
  ghost predicate ReleasePending(h: seq<Event>, n: nat) {
    GateFailed(n) !in h && NotLinked(h, Name(n, ReleaseName))
  }

  ghost predicate Acknowledged(dir: map<Name, string>, durable: set<Name>, h: seq<Event>, n: nat, text: string) {
    HasText(dir, Name(n, AckName), text) && Name(n, AckName) in durable && Acked(h, n, text)
  }

  ghost predicate CtlInv(c: Config, w: World) {
    var h := w.history;
    && (w.crashed ==> w.ctl == ControllerFailed)
    && (Holding(w.ctl) <==> w.lock == HeldByController)
    && (w.stop <==> Latched in h)
    && match w.ctl
       case AwaitRaw(n) => n < c.blocks && FreshFrom(h, n)
       case Audited(n, gate, _, _) => n < c.blocks && FreshFrom(h, n + 1) && BeforeAck(h, n, gate)
       case Gated(n, gate) => n < c.blocks && FreshFrom(h, n + 1) && BeforeAck(h, n, gate)
       case AckPrepared(n, gate, _, _) => n < c.blocks && FreshFrom(h, n + 1) && BeforeAck(h, n, gate)
       case AckLocked(n, gate, text) =>
         n < c.blocks && FreshFrom(h, n + 1) && BeforeAck(h, n, gate) && IsAckText(c, n, text)
       case AckChecked(n, gate, text) =>
         n < c.blocks && FreshFrom(h, n + 1) && BeforeAck(h, n, gate) && IsAckText(c, n, text) && !w.stop
       case AckLinked(n, gate, text) => n < c.blocks && FreshFrom(h, n + 1) && AfterAck(w, n, gate, text)
       case AckUnlocked(n, gate, text) => n < c.blocks && FreshFrom(h, n + 1) && AfterAck(w, n, gate, text)
       case AckDurable(n, gate, text) =>
         n < c.blocks && FreshFrom(h, n + 1) && AfterAck(w, n, gate, text) && Acknowledged(w.dir, w.durable, h, n, text)
       case ReadyLinked(n, text) => n < c.blocks && FreshFrom(h, n + 1) && AfterReady(c, w, n, text)
       case ReadyDurable(n, text) =>
         n < c.blocks && FreshFrom(h, n + 1) && AfterReady(c, w, n, text) && Name(n, ReadyName) in w.durable
       case ReleaseLocked(n, text) =>
         n < c.blocks && FreshFrom(h, n + 1) && AfterReady(c, w, n, text) && Name(n, ReadyName) in w.durable
       case ReleaseChecked(n, text) =>
         n < c.blocks && FreshFrom(h, n + 1) && AfterReady(c, w, n, text) && Name(n, ReadyName) in w.durable && !w.stop
       case ReleaseLinked(n, text) => n < c.blocks && FreshFrom(h, n + 1)
       case _ => true
  }

  ghost predicate BeforeAck(h: seq<Event>, n: nat, gate: bool) {
    (forall kind: Kind :: NotLinked(h, Name(n, kind))) && (gate ==> GateFailed(n) !in h)
  }

  ghost predicate AfterAck(w: World, n: nat, gate: bool, text: string) {
    && HasText(w.dir, Name(n, AckName), text) && Linked(Name(n, AckName), text) in w.history
    && NotLinked(w.history, Name(n, ReleaseName))
    && (gate ==> GateFailed(n) !in w.history)
  }

  ghost predicate AfterReady(c: Config, w: World, n: nat, text: string) {
    && Acknowledged(w.dir, w.durable, w.history, n, text)
    && HasText(w.dir, Name(n, ReadyName), ReleaseText(c, n, text))
    && ReleasePending(w.history, n)
  }

  // --- Invariant of the runner ---

  /** The release the runner read is there, and is the printed form of this record. */
  ghost predicate SeesRelease(c: Config, dir: map<Name, string>, n: nat, r: ReleaseRecord) {
    Name(n, ReleaseName) in dir && ReleaseReads(c, n, dir[Name(n, ReleaseName)], r)
  }

  ghost predicate SeesAck(c: Config, dir: map<Name, string>, n: nat, a: AckRecord) {
    Name(n, AckName) in dir && AckReads(c, n, dir[Name(n, AckName)], a) && Name(n, ReleaseName) in dir
  }

  ghost predicate RawDurable(rawDurable: set<RawName>, n: nat) {
    Results(n) in rawDurable && Summary(n) in rawDurable
  }

  ghost predicate RunInv(c: Config, w: World) {
    && (w.crashed ==> w.run == RunnerFailed)
    && (forall name :: name in w.rawDurable ==> name in w.raw)
    && (forall n: nat :: Summary(n) in w.raw ==> Results(n) in w.rawDurable)
    && (forall n: nat :: Started(n) in w.history && n > 0 ==> RawDurable(w.rawDurable, n - 1))
    && match w.run
       case Running(n) => n < c.blocks && NoneStartedFrom(w.history, n + 1)
       case ResultsRenamed(n, rb, sb) =>
         n < c.blocks && NoneStartedFrom(w.history, n + 1) && Written(n, rb, sb) in w.history && Results(n) in w.raw
       case ResultsSynced(n, rb, sb) =>
         n < c.blocks && NoneStartedFrom(w.history, n + 1) && Written(n, rb, sb) in w.history &&
           Results(n) in w.rawDurable
       case SummaryRenamed(n, rb, sb) =>
         n < c.blocks && NoneStartedFrom(w.history, n + 1) && Written(n, rb, sb) in w.history && Summary(n) in w.raw
       case SummarySynced(n, rb, sb) => n < c.blocks && RawSettled(w.history, w.rawDurable, n, rb, sb)
       case Waiting(n, rb, sb, _, _) => n < c.blocks && RawSettled(w.history, w.rawDurable, n, rb, sb)
       case SawRelease(n, rb, sb, _, _, r) => n < c.blocks && RawSettled(w.history, w.rawDurable, n, rb, sb) &&
         SeesRelease(c, w.dir, n, r)
       case SawAck(n, rb, sb, _, _, a) => n < c.blocks && RawSettled(w.history, w.rawDurable, n, rb, sb) &&
         SeesAck(c, w.dir, n, a)
       case ReleaseBeforeAck(_) => false
       case BadContract(_) => false
       case _ => true
  }

  ghost predicate RawSettled(h: seq<Event>, rawDurable: set<RawName>, n: nat, rb: FileSize, sb: FileSize) {
    && NoneStartedFrom(h, n + 1) && Written(n, rb, sb) in h
    && RawDurable(rawDurable, n)
  }

  ghost predicate Inv(c: Config, w: World) {
    && Ordered(c, w.history)
    && DirInv(c, w.dir, w.durable, w.crashed, w.history)
    && CtlInv(c, w)
    && RunInv(c, w)
  }

  // --- Steps of one process leave the other's invariant ---

  /** The second history has the first one's events, and otherwise only those listed. */
  ghost predicate Extends(h: seq<Event>, h': seq<Event>) {
    forall e :: e in h ==> e in h'
  }

  lemma CtlInvKept(c: Config, w: World, w': World)
    requires CtlInv(c, w)
    requires w'.ctl == w.ctl && w'.lock == w.lock && w'.stop == w.stop && w'.crashed == w.crashed
    requires w'.dir == w.dir && w'.durable == w.durable && Extends(w.history, w'.history)
    requires forall e :: e in w'.history && e !in w.history ==> e.Started? || e.Written?
    ensures CtlInv(c, w')
  {
    hide AckText, ReleaseText;
    assert forall name :: NotLinked(w.history, name) ==> NotLinked(w'.history, name);
    assert forall n: nat :: GateFailed(n) in w'.history ==> GateFailed(n) in w.history;
    assert forall n: nat :: Fresh(w.history, n) ==> Fresh(w'.history, n);
    assert forall n: nat :: FreshFrom(w.history, n) ==> FreshFrom(w'.history, n);
  }

  lemma RunInvKept(c: Config, w: World, w': World)
    requires RunInv(c, w)
    requires w'.run == w.run && w'.raw.Keys == w.raw.Keys && w'.rawDurable == w.rawDurable && w'.crashed == w.crashed
    requires forall name :: name in w.dir ==> HasText(w'.dir, name, w.dir[name])
    requires Extends(w.history, w'.history)
    requires forall e :: e in w'.history && e !in w.history ==> !e.Started?
    ensures RunInv(c, w')
  {
    hide AckReads, ReleaseReads;
    assert forall name :: name in w.raw <==> name in w'.raw by {
      assert forall name :: name in w.raw.Keys <==> name in w'.raw.Keys;
    }
    assert forall n: nat :: NoneStartedFrom(w.history, n) ==> NoneStartedFrom(w'.history, n);
    assert forall n: nat, r: ReleaseRecord :: SeesRelease(c, w.dir, n, r) ==> SeesRelease(c, w'.dir, n, r);
    assert forall n: nat, a: AckRecord :: SeesAck(c, w.dir, n, a) ==> SeesAck(c, w'.dir, n, a);
  }

  lemma FreshGrows(h: seq<Event>, e: Event, n: nat)
    requires FreshFrom(h, n)
    requires e.GateFailed? ==> e.block < n
    requires e.Linked? ==> e.name.block < n
    ensures FreshFrom(h + [e], n)
  {
    forall m: nat | n <= m ensures Fresh(h + [e], m) {
      assert Fresh(h, m);
      assert forall kind: Kind :: NotLinked(h, Name(m, kind));
    }
  }

  lemma FreshLater(h: seq<Event>, n: nat, m: nat)
    requires FreshFrom(h, n) && n <= m
    ensures FreshFrom(h, m) && Fresh(h, n)
  {
  }

  // --- Controller steps ---

  lemma AuditKeeps(c: Config, w: World, w': World)
    requires Inv(c, w) && Audit(w, w')
    ensures Inv(c, w')
  {
    hide RunInv, FreshFrom, Ordered, DirInv, HasRaw, AckText, ReleaseText;
    var gate: bool, results: Snapshot, summary: Snapshot :|
      HasRaw(w, w.ctl.block, results, summary) && AuditTo(w, w', gate, results, summary);
    var n := w.ctl.block;
    FreshLater(w.history, n, n + 1);
    RunInvKept(c, w, w');
    if !gate {
      GateMayFail(c, w.history, n);
      DirInvLogs(c, w, GateFailed(n));
      FreshGrows(w.history, GateFailed(n), n + 1);
    }
  }

  lemma GateMayFail(c: Config, h: seq<Event>, n: nat)
    requires Ordered(c, h) && Fresh(h, n)
    ensures Ordered(c, h + [GateFailed(n)])
  {
    hide Ordered;
    OrderedGrows(c, h, GateFailed(n));
  }

  /** Steps towards an acknowledgement that neither write a directory nor the history. */
  lemma QuietAckKeeps(c: Config, w: World, w': World)
    requires Inv(c, w)
    requires Recheck(w, w') || PrepareAck(w, w') || LockAck(c, w, w') || CheckAck(w, w') || UnlockAck(w, w')
    ensures Inv(c, w')
  {
    hide RunInv, DirInv, Ordered, AckText, ReleaseText, FreshFrom;
    assert w'.dir == w.dir && w'.history == w.history && w'.run == w.run && w'.raw == w.raw;
    RunInvKept(c, w, w');
  }

  /** The same behind it. */
  lemma QuietReleaseKeeps(c: Config, w: World, w': World)
    requires Inv(c, w)
    requires Withhold(w, w') || LockRelease(c, w, w') || CheckRelease(w, w') || FailController(w, w')
    ensures Inv(c, w')
  {
    hide RunInv, DirInv, Ordered, AckText, ReleaseText, FreshFrom;
    assert w'.dir == w.dir && w'.history == w.history && w'.run == w.run && w'.raw == w.raw;
    RunInvKept(c, w, w');
  }

  lemma RetryReleaseKeeps(c: Config, w: World, w': World)
    requires Inv(c, w) && RetryRelease(w, w')
    ensures Inv(c, w')
  {
    hide RunInv, Ordered, AckText, ReleaseText, FreshFrom;
    RunInvKept(c, w, w');
  }

  /** A release that was not authorized can always be tried again, from the ready name that is already there. */
  lemma ReadyCanBeReused(c: Config, w: World) returns (again: World, done: World)
    requires Inv(c, w) && w.ctl.ReadyLinked?
    ensures RetryRelease(w, again) && ReuseReady(c, again, done)
    ensures done.ctl == ReadyDurable(w.ctl.block, w.ctl.text) && done.dir == w.dir
  {
    hide RunInv, Ordered, DirInv, AckText, ReleaseText, FreshFrom;
    again := w.(ctl := AckDurable(w.ctl.block, true, w.ctl.text));
    done := Sync(again).(ctl := ReadyDurable(w.ctl.block, w.ctl.text));
  }

  lemma UnlockReleaseKeeps(c: Config, w: World, w': World)
    requires Inv(c, w) && UnlockRelease(c, w, w')
    ensures Inv(c, w')
  {
    hide RunInv, DirInv, Ordered, AckText, ReleaseText, FreshFrom;
    RunInvKept(c, w, w');
  }

  lemma LinkAckKeeps(c: Config, w: World, w': World)
    requires Inv(c, w) && LinkAck(w, w')
    ensures Inv(c, w')
  {
    hide RunInv, Ordered, AckText, ReleaseText, FreshFrom, DirInv;
    var n, text := w.ctl.block, w.ctl.text;
    var name := Name(n, AckName);
    OrderedGrows(c, w.history, Linked(name, text));
    DirInvLinks(c, w, name, text);
    FreshGrows(w.history, Linked(name, text), n + 1);
    RunInvKept(c, w, w');
    assert NotLinked(w.history, Name(n, ReleaseName));
  }

  lemma LinkReadyKeeps(c: Config, w: World, w': World)
    requires Inv(c, w) && LinkReady(c, w, w')
    ensures Inv(c, w')
  {
    hide RunInv, Ordered, AckText, ReleaseText, FreshFrom, DirInv;
    var n, text := w.ctl.block, ReleaseText(c, w.ctl.block, w.ctl.text);
    var name := Name(n, ReadyName);
    NewNameIsUnlinked(c, w, name);
    OrderedGrows(c, w.history, Linked(name, text));
    DirInvLinks(c, w, name, text);
    FreshGrows(w.history, Linked(name, text), n + 1);
    RunInvKept(c, w, w');
  }

  lemma NewNameIsUnlinked(c: Config, w: World, name: Name)
    requires DirInv(c, w.dir, w.durable, w.crashed, w.history) && !w.crashed && name !in w.dir
    ensures NotLinked(w.history, name)
  {
  }

  lemma LinkReleaseKeeps(c: Config, w: World, w': World)
    requires Inv(c, w) && LinkRelease(w, w')
    ensures Inv(c, w')
  {
    hide RunInv, Ordered, AckText, ReleaseText, FreshFrom, DirInv;
    var n := w.ctl.block;
    var name, text := Name(n, ReleaseName), w.dir[Name(n, ReadyName)];
    assert ReleaseBacked(c, w.history, n, text) by {
      assert Acked(w.history, n, w.ctl.text) && text == ReleaseText(c, n, w.ctl.text);
    }
    OrderedGrows(c, w.history, Linked(name, text));
    DirInvLinks(c, w, name, text);
    FreshGrows(w.history, Linked(name, text), n + 1);
    RunInvKept(c, w, w');
  }

  lemma SyncAckKeeps(c: Config, w: World, w': World)
    requires Inv(c, w) && SyncAck(w, w')
    ensures Inv(c, w')
  {
    hide RunInv, Ordered, AckText, ReleaseText, FreshFrom, DirInv;
    var n, e := w.ctl.block, AckSynced(w.ctl.block, w.ctl.text);
    OrderedGrows(c, w.history, e);
    DirInvSyncs(c, w);
    DirInvLogs(c, Sync(w), e);
    FreshGrows(w.history, e, n + 1);
    RunInvKept(c, w, w');
    assert NotLinked(w'.history, Name(n, ReleaseName)) by {
      assert NotLinked(w.history, Name(n, ReleaseName));
    }
  }

  lemma SyncReadyKeeps(c: Config, w: World, w': World)
    requires Inv(c, w) && (SyncReady(w, w') || ReuseReady(c, w, w'))
    ensures Inv(c, w')
  {
    hide RunInv, Ordered, AckText, ReleaseText, FreshFrom, DirInv;
    DirInvSyncs(c, w);
    RunInvKept(c, w, w');
  }

  lemma ControllerKeeps(c: Config, w: World, w': World)
    requires Inv(c, w) && ControllerStep(c, w, w')
    ensures Inv(c, w')
  {
    hide Inv, Audit, Recheck, PrepareAck, LockAck, CheckAck, LinkAck, UnlockAck, SyncAck, Withhold, LinkReady,
      RetryRelease, ReuseReady, SyncReady, LockRelease, CheckRelease, LinkRelease, UnlockRelease, FailController;
    if Audit(w, w') {
      AuditKeeps(c, w, w');
    } else if LinkAck(w, w') {
      LinkAckKeeps(c, w, w');
    } else if SyncAck(w, w') {
      SyncAckKeeps(c, w, w');
    } else if LinkReady(c, w, w') {
      LinkReadyKeeps(c, w, w');
    } else if SyncReady(w, w') || ReuseReady(c, w, w') {
      SyncReadyKeeps(c, w, w');
    } else if RetryRelease(w, w') {
      RetryReleaseKeeps(c, w, w');
    } else if LinkRelease(w, w') {
      LinkReleaseKeeps(c, w, w');
    } else if UnlockRelease(c, w, w') {
      UnlockReleaseKeeps(c, w, w');
    } else if Withhold(w, w') || LockRelease(c, w, w') || CheckRelease(w, w') || FailController(w, w') {
      QuietReleaseKeeps(c, w, w');
    } else {
      QuietAckKeeps(c, w, w');
    }
  }

  lemma StopKeeps(c: Config, w: World, w': World)
    requires Inv(c, w) && StopStep(w, w')
    ensures Inv(c, w')
  {
    hide RunInv, Ordered, AckText, ReleaseText, FreshFrom, DirInv;
    RunInvKept(c, w, w');
    if w'.history != w.history {
      OrderedGrows(c, w.history, Latched);
      DirInvLogs(c, w, Latched);
      forall n: nat | FreshFrom(w.history, n) ensures FreshFrom(w.history + [Latched], n) {
        FreshGrows(w.history, Latched, n);
      }
      assert forall name :: NotLinked(w.history, name) ==> NotLinked(w'.history, name);
    }
  }

  // --- Runner steps ---

  lemma LogKeepsController(c: Config, w: World, w': World, e: Event)
    requires Inv(c, w) && (e.Started? || e.Written?) && MayFollow(c, w.history, e)
    requires w'.ctl == w.ctl && w'.lock == w.lock && w'.stop == w.stop && w'.crashed == w.crashed
    requires w'.dir == w.dir && w'.durable == w.durable && w'.history == w.history + [e]
    ensures Ordered(c, w'.history) && CtlInv(c, w')
    ensures DirInv(c, w'.dir, w'.durable, w'.crashed, w'.history)
  {
    hide RunInv, Ordered, DirInv, CtlInv, MayFollow;
    OrderedGrows(c, w.history, e);
    DirInvLogs(c, w, e);
    CtlInvKept(c, w, w');
  }

  lemma PublishResultsKeeps(c: Config, w: World, w': World)
    requires Inv(c, w) && PublishResults(w, w')
    ensures Inv(c, w')
  {
    hide CtlInv, DirInv, Ordered;
    LogKeepsController(c, w, w', Written(w.run.block, w'.run.results, w'.run.summary));
  }

  /** Runner steps that only touch raw files, or read. */
  lemma RawStepKeeps(c: Config, w: World, w': World)
    requires Inv(c, w)
    requires SyncResults(w, w') || PublishSummary(w, w') || SyncSummary(w, w') || BeginWait(w, w') || FailRunner(w, w')
    ensures Inv(c, w')
  {
    hide CtlInv, DirInv, Ordered;
    CtlInvKept(c, w, w');
  }

  /** Every visible release is the printed form of a record that names its block's acknowledgement. */
  lemma VisibleReleaseIsCanonical(c: Config, w: World, n: nat) returns (r: ReleaseRecord)
    requires GoodConfig(c) && DirInv(c, w.dir, w.durable, w.crashed, w.history)
    requires n < c.blocks && Name(n, ReleaseName) in w.dir
    ensures Name(n, AckName) in w.dir
    ensures r == ReleaseRecord(c.digest(w.dir[Name(n, AckName)]), n, c.stateId)
    ensures ReleaseReads(c, n, w.dir[Name(n, ReleaseName)], r)
    ensures w.dir[Name(n, ReleaseName)] == ReleaseText(c, n, w.dir[Name(n, AckName)])
  {
    hide JsonBytes, CanonicalRelease, SafeStateId, PrintableAscii, IsDigest;
    assert ReleaseHolds(w.dir, w.durable, n);
    assert ReadyHolds(c, w.dir, w.durable, n);
    r := ReleaseRecord(c.digest(w.dir[Name(n, AckName)]), n, c.stateId);
    SafeIdIsPlain(c.stateId);
    PublishedReleaseIsCanonical(r, c.schemas);
    PrintableIsPlain(c.schemas.release);
  }

  lemma PrintableIsPlain(s: string)
    requires PrintableAscii(s)
    ensures Plain(s)
  {
  }

  lemma VisibleAckIsCanonical(c: Config, n: nat, text: string) returns (a: AckRecord)
    requires GoodConfig(c) && IsAckText(c, n, text)
    ensures AckReads(c, n, text, a)
  {
    hide JsonBytes, CanonicalAck, SafeStateId, PrintableAscii, IsDigest;
    var summary: FileSize, results: FileSize :| text == AckText(c, n, summary, results);
    a := AckRecord(n, summary, results, c.stateId);
    SafeIdIsPlain(c.stateId);
    PublishedAckIsCanonical(a, c.schemas);
    PrintableIsPlain(c.schemas.ack);
  }

  lemma PollReleaseKeeps(c: Config, w: World, w': World)
    requires GoodConfig(c) && Inv(c, w) && PollRelease(c, w, w')
    ensures Inv(c, w')
  {
    hide CtlInv, DirInv, Ordered, ReleaseReads, GoodConfig, RawSettled, ReleaseText, AckReads, SeesAck, RawDurable;
    var r := VisibleReleaseIsCanonical(c, w, w.run.block);
    CtlInvKept(c, w, w');
  }

  /** One payload prints one release record. */
  lemma SameRelease(c: Config, n: nat, payload: string, r: ReleaseRecord, other: ReleaseRecord)
    requires ReleaseReads(c, n, payload, r) && ReleaseReads(c, n, payload, other)
    ensures r == other
  {
    ReleaseIsRead(r, c.schemas);
    OnlyThisRelease(payload, c.schemas, r, other);
  }

  lemma VisibleAckIsAck(c: Config, w: World, n: nat)
    requires DirInv(c, w.dir, w.durable, w.crashed, w.history) && Name(n, AckName) in w.dir
    ensures IsAckText(c, n, w.dir[Name(n, AckName)])
  {
  }

  /** Behind a release the runner has read, the acknowledgement is there and is the one it names. */
  lemma AckAnswersRelease(c: Config, w: World) returns (a: AckRecord)
    requires GoodConfig(c) && Inv(c, w) && w.run.SawRelease?
    ensures Name(w.run.block, AckName) in w.dir
    ensures AckReads(c, w.run.block, w.dir[Name(w.run.block, AckName)], a)
    ensures c.digest(w.dir[Name(w.run.block, AckName)]) == w.run.release.ackSha256
  {
    hide CtlInv, Ordered, DirInv, ReleaseReads, AckReads, GoodConfig, IsAckText;
    var n := w.run.block;
    var r := VisibleReleaseIsCanonical(c, w, n);
    SameRelease(c, n, w.dir[Name(n, ReleaseName)], r, w.run.release);
    VisibleAckIsAck(c, w, n);
    a := VisibleAckIsCanonical(c, n, w.dir[Name(n, AckName)]);
  }

  lemma ReadAckKeeps(c: Config, w: World, w': World)
    requires GoodConfig(c) && Inv(c, w) && ReadAck(c, w, w')
    ensures Inv(c, w')
  {
    hide CtlInv, Ordered, DirInv, ReleaseReads, AckReads, GoodConfig, RawSettled;
    var a := AckAnswersRelease(c, w);
    CtlInvKept(c, w, w');
  }

  lemma EarlierEvents(c: Config, h: seq<Event>, e: Event) returns (before: seq<Event>)
    requires Ordered(c, h) && e in h
    ensures MayFollow(c, before, e) && forall x :: x in before ==> x in h
  {
    var i :| 0 <= i < |h| && h[i] == e;
    before := h[..i];
  }

  /** The release the runner obeyed binds a durable acknowledgement of exactly what it wrote. */
  lemma AdvanceIsGranted(c: Config, w: World)
    requires GoodConfig(c) && Inv(c, w) && !w.crashed && w.run.SawAck? && Bound(w, w.run)
    ensures Granted(c, w.history, w.run.block)
  {
    hide CtlInv, Ordered, CanonicalRelease, JsonBytes, CanonicalAck, GoodConfig, IsAckText;
    var n, a := w.run.block, w.run.ack;
    var ack := AckText(c, n, w.run.summary, w.run.results);
    assert w.dir[Name(n, AckName)] == ack by {
      assert a == AckRecord(n, w.run.summary, w.run.results, c.stateId);
      AckTextIsCanonical(c, a);
    }
    var release := w.dir[Name(n, ReleaseName)];
    var before := EarlierEvents(c, w.history, Linked(Name(n, ReleaseName), release));
    var q: string :| Acked(before, n, q) && release == ReleaseText(c, n, q);
    var earlier := EarlierEvents(c, w.history, AckSynced(n, q));
    assert Linked(Name(n, AckName), q) in w.history;
    assert GrantedFor(c, w.history, n, w.run.results, w.run.summary);
  }

  lemma AckTextIsCanonical(c: Config, a: AckRecord)
    requires GoodConfig(c) && a.stateId == c.stateId && a.passesBytes < SIZE_LIMIT && a.resultsBytes < SIZE_LIMIT
    ensures AckText(c, a.pass, a.passesBytes, a.resultsBytes) == CanonicalAck(a, c.schemas)
  {
    hide JsonBytes, CanonicalAck, PrintableAscii;
    SafeIdIsPlain(c.stateId);
    PublishedAckIsCanonical(a, c.schemas);
  }

  lemma AdvanceKeeps(c: Config, w: World, w': World)
    requires GoodConfig(c) && Inv(c, w) && Advance(c, w, w')
    ensures Inv(c, w')
  {
    hide CtlInv, DirInv, Ordered, GoodConfig, Granted, Bound, SeesAck;
    if w'.history == w.history {
      CtlInvKept(c, w, w');
    } else {
      var n := w.run.block;
      AdvanceIsGranted(c, w);
      LogKeepsController(c, w, w', Started(n + 1));
    }
  }

  lemma RunnerKeeps(c: Config, w: World, w': World)
    requires GoodConfig(c) && Inv(c, w) && RunnerStep(c, w, w')
    ensures Inv(c, w')
  {
    hide Inv, GoodConfig, PublishResults, SyncResults, PublishSummary, SyncSummary, BeginWait, PollRelease, ReadAck,
      Advance, FailRunner;
    if PublishResults(w, w') {
      PublishResultsKeeps(c, w, w');
    } else if PollRelease(c, w, w') {
      PollReleaseKeeps(c, w, w');
    } else if ReadAck(c, w, w') {
      ReadAckKeeps(c, w, w');
    } else if Advance(c, w, w') {
      AdvanceKeeps(c, w, w');
    } else {
      RawStepKeeps(c, w, w');
    }
  }

  lemma TamperKeeps(c: Config, w: World, w': World)
    requires Inv(c, w) && Tamper(w, w')
    ensures Inv(c, w')
  {
    hide CtlInv, DirInv, Ordered, RunInv;
    CtlInvKept(c, w, w');
    assert w'.raw.Keys == w.raw.Keys;
    RunInvKept(c, w, w');
  }

  lemma CrashKeeps(c: Config, w: World, w': World)
    requires Inv(c, w) && Crash(w, w')
    ensures Inv(c, w')
  {
    hide DirInv, Ordered;
    DirInvCrashes(c, w, w'.dir);
    forall name | name in w'.rawDurable ensures name in w'.raw {
      assert name in w.rawDurable * w.raw.Keys;
    }
  }

  lemma InitHolds(c: Config, w: World)
    requires GoodConfig(c) && Init(c, w)
    ensures Inv(c, w)
  {
    assert MayFollow(c, [], Started(0));
    assert w.history == [] + [Started(0)];
    OrderedGrows(c, [], Started(0));
  }

  // --- Every run ---

  lemma {:induction false} InvInEveryRun(c: Config, run: seq<World>, i: nat)
    requires GoodConfig(c) && IsRun(c, run) && i < |run|
    ensures Inv(c, run[i])
  {
    hide Inv, GoodConfig, Init, ControllerStep, StopStep, RunnerStep, Tamper, Crash;
    if i == 0 {
      InitHolds(c, run[0]);
    } else {
      InvInEveryRun(c, run, i - 1);
      var w, w' := run[i - 1], run[i];
      assert Step(c, run[i - 1], run[i - 1 + 1]);
      if ControllerStep(c, w, w') {
        ControllerKeeps(c, w, w');
      } else if StopStep(w, w') {
        StopKeeps(c, w, w');
      } else if RunnerStep(c, w, w') {
        RunnerKeeps(c, w, w');
      } else if Tamper(w, w') {
        TamperKeeps(c, w, w');
      } else {
        CrashKeeps(c, w, w');
      }
    }
  }

  /** A block starts only when the one before was released, for a durable acknowledgement of the sizes written. */
  lemma StartIsGranted(c: Config, run: seq<World>, i: nat, j: nat)
    requires GoodConfig(c) && IsRun(c, run) && i < |run|
    requires j < |run[i].history| && run[i].history[j].Started? && run[i].history[j].block > 0
    ensures Granted(c, run[i].history[..j], run[i].history[j].block - 1)
    ensures RawDurable(run[i].rawDurable, run[i].history[j].block - 1)
  {
    InvInEveryRun(c, run, i);
    assert run[i].history[j] in run[i].history;
    assert MayFollow(c, run[i].history[..j], run[i].history[j]);
  }

  /** Once the stop is latched no acknowledgement and no release is linked. */
  lemma NothingIsGrantedAfterStop(c: Config, run: seq<World>, i: nat, j: nat, k: nat)
    requires GoodConfig(c) && IsRun(c, run) && i < |run|
    requires j < k < |run[i].history| && run[i].history[j].Latched? && run[i].history[k].Linked?
    ensures run[i].history[k].name.kind == ReadyName
  {
    InvInEveryRun(c, run, i);
    var before := run[i].history[..k];
    assert MayFollow(c, before, run[i].history[k]);
    assert before[j] == Latched;
  }

  /** A failed gate is never released, so the next block never starts. */
  lemma FailedGateStopsTheRun(c: Config, run: seq<World>, i: nat, n: nat)
    requires GoodConfig(c) && IsRun(c, run) && i < |run|
    requires GateFailed(n) in run[i].history
    ensures NotLinked(run[i].history, Name(n, ReleaseName))
    ensures Started(n + 1) !in run[i].history
  {
    InvInEveryRun(c, run, i);
    var h := run[i].history;
    var g :| 0 <= g < |h| && h[g] == GateFailed(n);
    forall text: string ensures Linked(Name(n, ReleaseName), text) !in h {
      if Linked(Name(n, ReleaseName), text) in h {
        var j :| 0 <= j < |h| && h[j] == Linked(Name(n, ReleaseName), text);
        LinkAndRefusalClash(c, h, g, j, n, text);
      }
    }
    if Started(n + 1) in h {
      var before := EarlierEvents(c, h, Started(n + 1));
    }
  }

  lemma LinkAndRefusalClash(c: Config, h: seq<Event>, g: nat, j: nat, n: nat, text: string)
    requires Ordered(c, h) && g < |h| && j < |h| && h[g] == GateFailed(n)
    ensures h[j] != Linked(Name(n, ReleaseName), text)
  {
    assert MayFollow(c, h[..g], h[g]) && MayFollow(c, h[..j], h[j]);
    if g < j {
      assert h[..j][g] == h[g];
    } else if j < g {
      assert h[..g][j] == h[j];
    }
  }

  /** The runner never meets a release without its acknowledgement, nor a contract it must refuse. */
  lemma RunnerBranchesUnreachable(c: Config, run: seq<World>, i: nat)
    requires GoodConfig(c) && IsRun(c, run) && i < |run|
    ensures !run[i].run.ReleaseBeforeAck? && !run[i].run.BadContract?
  {
    hide IsRun, GoodConfig, Ordered, DirInv, CtlInv;
    InvInEveryRun(c, run, i);
  }

  /** Whatever a crash leaves: a visible release has its acknowledgement and its ready name, both durable. */
  lemma VisibleReleaseIsRecoverable(c: Config, run: seq<World>, i: nat, n: nat)
    requires GoodConfig(c) && IsRun(c, run) && i < |run|
    requires Name(n, ReleaseName) in run[i].dir
    ensures Name(n, AckName) in run[i].durable && Name(n, ReadyName) in run[i].durable
    ensures Name(n, AckName) in run[i].dir && Name(n, ReadyName) in run[i].dir
    ensures run[i].dir[Name(n, ReleaseName)] == run[i].dir[Name(n, ReadyName)]
         == ReleaseText(c, n, run[i].dir[Name(n, AckName)])
  {
    InvInEveryRun(c, run, i);
    assert ReleaseHolds(run[i].dir, run[i].durable, n);
    assert ReadyHolds(c, run[i].dir, run[i].durable, n);
  }

  /** No name is ever linked twice. */
  lemma NamesAreLinkedOnce(c: Config, run: seq<World>, i: nat, j: nat, k: nat)
    requires GoodConfig(c) && IsRun(c, run) && i < |run|
    requires j < k < |run[i].history| && run[i].history[j].Linked? && run[i].history[k].Linked?
    ensures run[i].history[j].name != run[i].history[k].name
  {
    InvInEveryRun(c, run, i);
    var before := run[i].history[..k];
    assert MayFollow(c, before, run[i].history[k]);
    assert before[j] == run[i].history[j];
  }

  /** Blocks start once each, in order. */
  lemma BlocksStartInOrder(c: Config, run: seq<World>, i: nat, j: nat, k: nat)
    requires GoodConfig(c) && IsRun(c, run) && i < |run|
    requires j < k < |run[i].history| && run[i].history[j].Started? && run[i].history[k].Started?
    ensures run[i].history[j].block < run[i].history[k].block
  {
    InvInEveryRun(c, run, i);
    var before := run[i].history[..k];
    assert MayFollow(c, before, run[i].history[k]);
    assert before[j] == run[i].history[j];
  }
}
