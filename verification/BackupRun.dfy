/** The command protocol of one backup: quiesce the writers, capture, verify, resume, publish. */
module BackupRun {
  import opened Wrappers
  import opened Runner
  import opened Publish

  // ---------- a monitor over the run's events ----------

  datatype StopState = NotStopped | StopIssued(services: set<Service>, accepted: bool)
  datatype ResumeState = NotResumed | ResumeIssued(accepted: bool)

  /** What has happened so far, and whether every event was permitted when it happened. */
  datatype Monitor = Monitor(writers: Option<set<Service>>, stop: StopState, resume: ResumeState,
                             idle: bool, known: set<Command>, captured: set<Data>, stage: nat, published: bool, bad: bool, permitted: bool)

  const INITIAL := Monitor(None, NotStopped, NotResumed, false, {}, {}, 0, false, false, true)

  /** What the captured data go through, in this order. */
  const PIPELINE: seq<Command> := [Local(WriteManifest), Local(PackArchive), Local(VerifyPlaintext), Encrypt, Decrypt, Local(VerifyDecrypted)]

  /** What the manifest tells about the running system. */
  const DESCRIPTION: set<Command> := {Ask(GitSha), BuildImage, Ask(ImageIds), Ask(ServerVersion), Ask(DumpVersion), Ask(AlembicCurrent), Ask(AlembicHead)}

  predicate Everything(captured: set<Data>) {
    && DatabaseDump in captured && TableInventory in captured
    && VolumeArchive(MediaVolume) in captured && VolumeArchive(ExportVolume) in captured
  }

  /** No writer was running, or exactly the running ones were stopped. */
  predicate Quiesced(m: Monitor) {
    m.writers.Some? && m.stop == if m.writers.value == {} then NotStopped else StopIssued(m.writers.value, true)
  }

  predicate Resumed(m: Monitor) {
    m.writers.Some? && (m.writers.value != {} ==> m.resume == ResumeIssued(true))
  }

  /** A refusal, an empty answer, or sessions that remain: what a backup may give up for. */
  predicate Bad(e: Event) {
    || e.reply.Failed?
    || (e.reply.text == "" && (e.command.Ask? || e.command == Capture(TableInventory)))
    || (e.command == Ask(WriterSessions) && e.reply.text != "0")
  }

  function Observe(m: Monitor, e: Event): Monitor {
    var c, ok := e.command, e.reply.Replied?;
    Monitor(if c.ListRunning? && ok then Some(e.reply.running * WRITERS) else m.writers,
            if c.Stop? then StopIssued(c.services, ok) else m.stop,
            if c.Up? then ResumeIssued(ok) else m.resume,
            if c.Stop? then false else if c == Ask(WriterSessions) then ok && e.reply.text == "0" else m.idle,
            if ok && (c.BuildImage? || (c.Ask? && e.reply.text != "")) then m.known + {c} else m.known,
            if c.Capture? && ok then m.captured + {c.data} else m.captured,
            if m.stage < |PIPELINE| && Accepted(e, PIPELINE[m.stage]) then m.stage + 1 else m.stage,
            m.published || c == Local(PublishFinal),
            m.bad || Bad(e),
            m.permitted && Allowed(m, e))
  }

  predicate Allowed(m: Monitor, e: Event) {
    match e.command
    case ListRunning => e.reply.Replied? ==> m.writers.None?
    case Stop(services) => m.stop.NotStopped? && m.resume.NotResumed? && m.writers == Some(services)
    case Up(services) => m.writers == Some(services)
    case Capture(_) => Quiesced(m) && m.idle && m.resume.NotResumed?
    case Local(WriteManifest) => Everything(m.captured) && DESCRIPTION <= m.known
    case Local(PackArchive) => Everything(m.captured)
    case Local(PublishFinal) => m.stage == |PIPELINE| && Resumed(m)
    case _ => true
  }

  function Watch(trace: seq<Event>): Monitor {
    if trace == [] then INITIAL else Observe(Watch(trace[..|trace| - 1]), trace[|trace| - 1])
  }

  // ---------- the program ----------

  class BackupWorkflow {
    const runner: CommandRunner
    const directory: ArchiveDirectory
    var stoppedServices: set<Service>
    var servicesResumed: bool
    var stagingExists: bool

    constructor (runner: CommandRunner, directory: ArchiveDirectory)
      ensures this.runner == runner && this.directory == directory
      ensures stoppedServices == {} && !servicesResumed && !stagingExists
    {
      this.runner, this.directory := runner, directory;
      stoppedServices, servicesResumed, stagingExists := {}, false, false;
    }

    ghost function Seen(): Monitor
      reads this, runner
    {
      Watch(runner.trace)
    }

    method Do(command: Command) returns (reply: Reply)
      modifies runner
      ensures Seen() == Observe(old(Seen()), Event(command, reply))
      ensures old(Seen()).bad || reply.Failed? ==> Seen().bad
    {
      reply := runner.Run(command);
      assert runner.trace[..|runner.trace| - 1] == old(runner.trace);
    }

    method Ask(query: Query) returns (reply: Reply)
      modifies runner
      ensures Seen() == old(Seen()).(idle := Seen().idle, known := Seen().known, bad := Seen().bad)
      ensures Seen().known == old(Seen().known) + if reply.Replied? then {Command.Ask(query)} else {}
      ensures old(Seen()).bad || reply.Failed? || (query.WriterSessions? && reply.text != "0") ==> Seen().bad
      ensures if query.WriterSessions? then reply.Replied? ==> Seen().idle == (reply.text == "0")
              else Seen().idle == old(Seen().idle)
      ensures reply.Replied? ==> reply.text != ""
    {
      reply := runner.AskFor(query);
      assert runner.trace[..|runner.trace| - 1] == old(runner.trace);
    }

    /** What the backup is made by and of. */
    method DescribeBuild() returns (reply: Reply)
      modifies runner
      ensures Seen() == old(Seen()).(known := Seen().known, bad := Seen().bad)
      ensures old(Seen()).bad || reply.Failed? ==> Seen().bad
      ensures reply.Replied? ==> {Command.Ask(GitSha), BuildImage, Command.Ask(ImageIds)} <= Seen().known
    {
      hide Watch;
      reply :- Ask(GitSha);
      reply :- Do(BuildImage);
      reply :- Ask(ImageIds);
    }

    /** Up to the check that no database session is left. */
    method Quiesce() returns (reply: Reply)
      requires Seen() == INITIAL && stoppedServices == {} && !servicesResumed
      modifies runner, this`stoppedServices
      ensures Seen().permitted && Seen().resume.NotResumed? && !Seen().published
      ensures Seen().stop.StopIssued? ==> stoppedServices != {}
      ensures stoppedServices != {} ==> Seen().writers == Some(stoppedServices)
      ensures Seen().captured == {} && Seen().stage == 0 && (reply.Failed? ==> Seen().bad)
      ensures reply.Replied? ==> Quiesced(Seen()) && Seen().idle && Seen().writers == Some(stoppedServices)
      ensures reply.Replied? ==> {Command.Ask(GitSha), BuildImage, Command.Ask(ImageIds)} <= Seen().known
    {
      hide Watch;
      reply :- DescribeBuild();
      reply :- Do(ListRunning);
      stoppedServices := reply.running * WRITERS;
      if stoppedServices != {} {
        reply :- Do(Command.Stop(stoppedServices));
      }
      reply :- Ask(WriterSessions);
      if reply.text != "0" { return Failed; }
    }

    /** The dump and the two volume archives. */
    method CaptureFiles() returns (reply: Reply)
      requires Seen().permitted && Quiesced(Seen()) && Seen().idle && Seen().resume.NotResumed?
      modifies runner
      ensures Seen() == old(Seen()).(captured := Seen().captured, bad := Seen().bad)
      ensures old(Seen()).bad || reply.Failed? ==> Seen().bad
      ensures reply.Replied? ==>
                Seen().captured == old(Seen().captured) + {DatabaseDump, VolumeArchive(MediaVolume), VolumeArchive(ExportVolume)}
    {
      hide Watch, Bad, Resumed;
      reply :- Do(Capture(DatabaseDump));
      reply :- Do(Capture(VolumeArchive(MediaVolume)));
      reply :- Do(Capture(VolumeArchive(ExportVolume)));
    }

    /** Everything read from the quiesced system. */
    method CaptureData() returns (reply: Reply)
      requires Seen().permitted && Quiesced(Seen()) && Seen().idle && Seen().resume.NotResumed?
      modifies runner
      ensures Seen() == old(Seen()).(known := Seen().known, captured := Seen().captured, bad := Seen().bad)
      ensures old(Seen()).bad || reply.Failed? ==> Seen().bad
      ensures reply.Replied? ==> Everything(Seen().captured)
      ensures reply.Replied? ==>
                old(Seen().known) + {Command.Ask(ServerVersion), Command.Ask(DumpVersion), Command.Ask(AlembicCurrent), Command.Ask(AlembicHead)}
                <= Seen().known
    {
      hide Watch;
      reply :- CaptureFiles();
      reply :- Ask(ServerVersion);
      reply :- Ask(DumpVersion);
      reply :- Ask(AlembicCurrent);
      reply :- Ask(AlembicHead);
      reply :- Do(Capture(TableInventory));
      if reply.text == "" { return Failed; }
    }

    /** Manifest, archive, and verification of the archive. */
    method PackAndVerify() returns (reply: Reply)
      requires Seen().stage == 0 && Everything(Seen().captured) && DESCRIPTION <= Seen().known
      modifies runner
      ensures Seen() == old(Seen()).(stage := Seen().stage, bad := Seen().bad)
      ensures old(Seen()).bad || reply.Failed? ==> Seen().bad
      ensures reply.Replied? ==> Seen().stage == 3
    {
      hide Watch, Quiesced, Resumed, Bad;
      reply :- Do(Local(WriteManifest));
      reply :- Do(Local(PackArchive));
      reply :- Do(Local(VerifyPlaintext));
    }

    /** Encryption, and verification of what the encrypted archive decrypts to. */
    method EncryptAndVerify() returns (reply: Reply)
      requires Seen().stage == 3
      modifies runner
      ensures Seen() == old(Seen()).(stage := Seen().stage, bad := Seen().bad)
      ensures old(Seen()).bad || reply.Failed? ==> Seen().bad
      ensures reply.Replied? ==> Seen().stage == |PIPELINE|
    {
      hide Watch, Quiesced, Resumed, Everything, Bad;
      reply :- Do(Encrypt);
      reply :- Do(Decrypt);
      reply :- Do(Local(VerifyDecrypted));
    }

    /** The try block, up to the start of the stopped services. */
    method Prepare() returns (reply: Reply)
      requires Seen() == INITIAL && stoppedServices == {} && !servicesResumed
      modifies runner, this`stoppedServices, this`servicesResumed
      ensures Seen().permitted && !Seen().published && (reply.Failed? ==> Seen().bad)
      ensures Seen().stop.StopIssued? ==> stoppedServices != {}
      ensures stoppedServices != {} ==> Seen().writers == Some(stoppedServices)
      ensures servicesResumed && stoppedServices != {} ==> Seen().resume == ResumeIssued(true)
      ensures reply.Replied? ==> Seen().stage == |PIPELINE| && Resumed(Seen())
    {
      hide Watch;
      reply :- Quiesce();
      reply :- CaptureData();
      reply :- PackAndVerify();
      reply :- EncryptAndVerify();
      if stoppedServices != {} {
        reply :- Do(Command.Up(stoppedServices));
      }
      servicesResumed := true;
    }

    /** The try block. */
    method TryBackup(job: Job) returns (reply: Reply)
      requires Seen() == INITIAL && stoppedServices == {} && !servicesResumed
      requires directory.Valid() && !directory.linked && job.temporary !in directory.files && job.temporary != job.final
      modifies runner, directory, this`stoppedServices, this`servicesResumed
      ensures Seen().permitted
      ensures Seen().stop.StopIssued? ==> stoppedServices != {}
      ensures stoppedServices != {} ==> Seen().writers == Some(stoppedServices)
      ensures servicesResumed && stoppedServices != {} ==> Seen().resume == ResumeIssued(true)
      ensures !Seen().published ==> directory.files == old(directory.files) && reply.Failed?
      ensures directory.Undamaged(job, old(directory.history))
      ensures reply.Failed? ==> Seen().bad || job.final in old(directory.files) || !directory.Undisturbed(job)
      ensures reply.Replied? ==> Seen().published
      ensures reply.Replied? ==> directory.linked && job.final in directory.files && directory.files[job.final] == job.source
    {
      directory.UndamagedAtFirst(job);
      hide Watch, AlwaysWhole, CarefulSince, Quiesced;
      reply :- Prepare();
      var before := Do(Local(PublishFinal));
      var published := directory.PublishArchive(job);
      return if published.Completed? then Replied("", {}) else Failed;
    }

    /** backup: `ready` says that the staging directory and the key files pass their checks. */
    method Backup(job: Job, ready: bool) returns (done: bool)
      requires runner.trace == [] && stoppedServices == {} && !servicesResumed && !stagingExists
      requires directory.Valid() && !directory.linked && job.temporary !in directory.files && job.temporary != job.final
      modifies this, runner, directory
      ensures Seen().permitted && !stagingExists
      ensures Seen().stop.StopIssued? ==> Seen().resume.ResumeIssued?
      ensures !Seen().published ==> directory.files == old(directory.files) && !done
      ensures directory.Undamaged(job, old(directory.history))
      ensures done ==> directory.linked && job.final in directory.files && directory.files[job.final] == job.source
      ensures done ==>
        exists at: seq<nat> :: |at| == 6 && at[0] < at[1] < at[2] < at[3] < at[4] < at[5] < |runner.trace|
          && runner.trace[at[0]].command == Local(WriteManifest) && runner.trace[at[0]].reply.Replied?
          && runner.trace[at[1]].command == Local(PackArchive) && runner.trace[at[1]].reply.Replied?
          && runner.trace[at[2]].command == Local(VerifyPlaintext) && runner.trace[at[2]].reply.Replied?
          && runner.trace[at[3]].command == Encrypt && runner.trace[at[3]].reply.Replied?
          && runner.trace[at[4]].command == Decrypt && runner.trace[at[4]].reply.Replied?
          && runner.trace[at[5]].command == Local(VerifyDecrypted) && runner.trace[at[5]].reply.Replied?
      ensures !done && ready && job.final !in old(directory.files) ==> Seen().bad || !directory.Undisturbed(job)
      ensures !ready || job.final in old(directory.files) ==> runner.trace == [] && directory.files == old(directory.files)
    {
      directory.UndamagedAtFirst(job);
      hide AlwaysWhole, CarefulSince;
      if !ready || job.final in directory.files { return false; }
      stagingExists := true;
      var reply := TryBackup(job);
      if stoppedServices != {} && !servicesResumed {
        var ignored := Do(Command.Up(stoppedServices));
      }
      stagingExists := false;
      if reply.Replied? { PublishedPlainly(runner.trace); }
      return reply.Replied?;
    }
  }

  // ---------- what a permitted trace means ----------

  /** The set of running writers was listed before the n-th event. */
  ghost predicate Listed(trace: seq<Event>, n: nat, writers: set<Service>)
    requires n <= |trace|
  {
    exists l :: 0 <= l < n && trace[l].command == ListRunning && trace[l].reply.Replied?
                && trace[l].reply.running * WRITERS == writers
  }

  ghost predicate StopGrounded(trace: seq<Event>, n: nat, m: Monitor)
    requires n <= |trace|
  {
    && (m.writers.Some? ==> Listed(trace, n, m.writers.value))
    && (m.stop.StopIssued? ==> m.writers == Some(m.stop.services)
                               && (m.stop.accepted ==> AcceptedBefore(trace, n, Stop(m.stop.services))))
  }

  ghost predicate ResumeGrounded(trace: seq<Event>, n: nat, m: Monitor)
    requires n <= |trace|
  {
    && (m.resume.NotResumed? ==> forall j :: 0 <= j < n ==> !trace[j].command.Up?)
    && (m.resume.ResumeIssued? ==> m.writers.Some?)
    && (m.resume == ResumeIssued(true) ==> AcceptedBefore(trace, n, Up(m.writers.value)))
  }

  ghost predicate DataGrounded(trace: seq<Event>, n: nat, m: Monitor)
    requires n <= |trace|
  {
    && (m.idle ==> IdleSinceStop(trace, n))
    && (forall d :: d in m.captured ==> AcceptedBefore(trace, n, Capture(d)))
    && (forall c :: c in m.known ==> AcceptedBefore(trace, n, c))
    && m.stage <= |PIPELINE| && AcceptedInOrder(trace, n, PIPELINE[..m.stage])
  }

  /** The events at these positions are the commands, all accepted, one after the other, before the n-th event. */
  predicate AcceptedAt(trace: seq<Event>, n: nat, commands: seq<Command>, positions: seq<nat>)
    requires n <= |trace|
  {
    && |positions| == |commands|
    && (forall i :: 0 <= i < |positions| ==> positions[i] < n && Accepted(trace[positions[i]], commands[i]))
    && (forall i, j :: 0 <= i < j < |positions| ==> positions[i] < positions[j])
  }

  ghost predicate AcceptedInOrder(trace: seq<Event>, n: nat, commands: seq<Command>)
    requires n <= |trace|
  {
    exists positions :: AcceptedAt(trace, n, commands, positions)
  }

  lemma InOrderStep(trace: seq<Event>, n: nat, commands: seq<Command>, next: Command)
    requires n < |trace| && AcceptedInOrder(trace, n, commands)
    ensures AcceptedInOrder(trace, n + 1, commands)
    ensures Accepted(trace[n], next) ==> AcceptedInOrder(trace, n + 1, commands + [next])
  {
    var positions :| AcceptedAt(trace, n, commands, positions);
    assert AcceptedAt(trace, n + 1, commands, positions);
    if Accepted(trace[n], next) {
      assert AcceptedAt(trace, n + 1, commands + [next], positions + [n]);
    }
  }

  lemma PipelineStep(trace: seq<Event>, n: nat, m: Monitor)
    requires n < |trace| && m.stage <= |PIPELINE| && AcceptedInOrder(trace, n, PIPELINE[..m.stage])
    ensures Observe(m, trace[n]).stage <= |PIPELINE|
    ensures AcceptedInOrder(trace, n + 1, PIPELINE[..Observe(m, trace[n]).stage])
  {
    hide AcceptedInOrder, Allowed;
    if m.stage < |PIPELINE| {
      assert PIPELINE[..m.stage + 1] == PIPELINE[..m.stage] + [PIPELINE[m.stage]];
      InOrderStep(trace, n, PIPELINE[..m.stage], PIPELINE[m.stage]);
    } else {
      InOrderStep(trace, n, PIPELINE[..m.stage], PIPELINE[0]);
    }
  }

  /** The database answered that no session was left, and nothing was stopped after that. */
  ghost predicate IdleSinceStop(trace: seq<Event>, n: nat)
    requires n <= |trace|
  {
    exists j :: 0 <= j < n && Accepted(trace[j], Ask(WriterSessions)) && trace[j].reply.text == "0"
                && forall k :: j < k < n ==> !trace[k].command.Stop?
  }

  /** Watching a prefix tells what is in it. */
  lemma {:induction false} WatchMeaning(trace: seq<Event>, n: nat)
    requires n <= |trace| && Watch(trace[..n]).permitted
    ensures StopGrounded(trace, n, Watch(trace[..n]))
    ensures ResumeGrounded(trace, n, Watch(trace[..n]))
    ensures DataGrounded(trace, n, Watch(trace[..n]))
  {
    if n > 0 {
      hide Observe, StopGrounded, ResumeGrounded, DataGrounded;
      var m, e := Watch(trace[..n - 1]), trace[n - 1];
      assert trace[..n][..n - 1] == trace[..n - 1];
      assert m.permitted by { PermissionKept(m, e); }
      WatchMeaning(trace, n - 1);
      StopStep(trace, n - 1, m);
      ResumeStep(trace, n - 1, m);
      DataStep(trace, n - 1, m);
    } else {
      assert AcceptedAt(trace, 0, PIPELINE[..0], []);
    }
  }

  lemma PermissionKept(m: Monitor, e: Event)
    ensures Observe(m, e).permitted ==> m.permitted && Allowed(m, e)
  {}

  lemma ResumeStep(trace: seq<Event>, n: nat, m: Monitor)
    requires n < |trace| && Observe(m, trace[n]).permitted && StopGrounded(trace, n, m) && ResumeGrounded(trace, n, m)
    ensures ResumeGrounded(trace, n + 1, Observe(m, trace[n]))
  {
    hide AcceptedBefore, StopGrounded;
    if m.writers.Some? { AcceptedStep(trace, n, Up(m.writers.value)); }
  }

  lemma DataStep(trace: seq<Event>, n: nat, m: Monitor)
    requires n < |trace| && DataGrounded(trace, n, m)
    ensures DataGrounded(trace, n + 1, Observe(m, trace[n]))
  {
    var e := trace[n];
    hide AcceptedBefore, Allowed, AcceptedInOrder;
    forall d: Data ensures AcceptedBefore(trace, n, Capture(d)) ==> AcceptedBefore(trace, n + 1, Capture(d)) {
      AcceptedStep(trace, n, Capture(d));
    }
    forall c ensures AcceptedBefore(trace, n, c) ==> AcceptedBefore(trace, n + 1, c) {
      AcceptedStep(trace, n, c);
    }
    AcceptedStep(trace, n, e.command);
    PipelineStep(trace, n, m);
    IdleStep(trace, n, m);
  }

  lemma IdleStep(trace: seq<Event>, n: nat, m: Monitor)
    requires n < |trace| && (m.idle ==> IdleSinceStop(trace, n))
    ensures Observe(m, trace[n]).idle ==> IdleSinceStop(trace, n + 1)
  {
    hide Allowed;
    var e := trace[n];
    if Observe(m, e).idle && e.command != Ask(WriterSessions) {
      var j :| 0 <= j < n && Accepted(trace[j], Ask(WriterSessions)) && trace[j].reply.text == "0"
               && forall k :: j < k < n ==> !trace[k].command.Stop?;
    }
  }

  lemma ListedStep(trace: seq<Event>, n: nat, writers: set<Service>)
    requires n < |trace| && Listed(trace, n, writers)
    ensures Listed(trace, n + 1, writers)
  {
    var l :| 0 <= l < n && trace[l].command == ListRunning && trace[l].reply.Replied?
             && trace[l].reply.running * WRITERS == writers;
  }

  lemma StopStep(trace: seq<Event>, n: nat, m: Monitor)
    requires n < |trace| && Observe(m, trace[n]).permitted && StopGrounded(trace, n, m)
    ensures StopGrounded(trace, n + 1, Observe(m, trace[n]))
  {
    var e := trace[n];
    assert e.command.ListRunning? && e.reply.Replied? ==> Listed(trace, n + 1, e.reply.running * WRITERS);
    hide AcceptedBefore, Listed;
    if m.writers.Some? { ListedStep(trace, n, m.writers.value); }
    if m.stop.StopIssued? { AcceptedStep(trace, n, Stop(m.stop.services)); }
    if e.command.Stop? { AcceptedStep(trace, n, e.command); }
  }

  /** Permission lost is never regained. */
  lemma {:induction false} PermittedPrefix(trace: seq<Event>, n: nat)
    requires n <= |trace| && Watch(trace).permitted
    ensures Watch(trace[..n]).permitted
    decreases |trace|
  {
    if n < |trace| {
      PermittedPrefix(trace[..|trace| - 1], n);
      assert trace[..|trace| - 1][..n] == trace[..n];
    } else {
      assert trace[..n] == trace;
    }
  }

  /** Every event of a permitted trace was allowed, and what the monitor knew then had happened. */
  lemma AllowedAt(trace: seq<Event>, i: nat)
    requires i < |trace| && Watch(trace).permitted
    ensures Allowed(Watch(trace[..i]), trace[i])
    ensures StopGrounded(trace, i, Watch(trace[..i]))
    ensures ResumeGrounded(trace, i, Watch(trace[..i]))
    ensures DataGrounded(trace, i, Watch(trace[..i]))
  {
    hide Observe, Allowed, StopGrounded, ResumeGrounded, DataGrounded;
    PermittedPrefix(trace, i + 1);
    assert trace[..i + 1][..i] == trace[..i];
    PermissionKept(Watch(trace[..i]), trace[i]);
    WatchMeaning(trace, i);
  }

  /** Data is captured only with every running writer stopped, the database idle since then, and before
      anything is started again. */
  lemma CaptureIsQuiesced(trace: seq<Event>, i: nat)
    requires i < |trace| && Watch(trace).permitted && trace[i].command.Capture?
    ensures exists writers :: Listed(trace, i, writers) && (writers != {} ==> AcceptedBefore(trace, i, Stop(writers)))
    ensures IdleSinceStop(trace, i)
    ensures forall j :: 0 <= j < i ==> !trace[j].command.Up?
  {
    AllowedAt(trace, i);
    var m := Watch(trace[..i]);
    assert Listed(trace, i, m.writers.value);
  }

  /** Nothing is packed before the database, both volumes and the inventory were captured. */
  lemma PackedIsEverything(trace: seq<Event>, i: nat, data: Data)
    requires i < |trace| && Watch(trace).permitted && trace[i].command == Local(PackArchive)
    ensures AcceptedBefore(trace, i, Capture(data))
  {
    AllowedAt(trace, i);
    match data {
      case DatabaseDump =>
      case TableInventory =>
      case VolumeArchive(volume) => match volume { case MediaVolume => case ExportVolume => }
    }
  }

  /** The manifest is written only with everything it tells known. */
  lemma ManifestIsInformed(trace: seq<Event>, i: nat, command: Command)
    requires i < |trace| && Watch(trace).permitted && trace[i].command == Local(WriteManifest)
    requires command in {Ask(GitSha), BuildImage, Ask(ImageIds), Ask(ServerVersion), Ask(DumpVersion), Ask(AlembicCurrent), Ask(AlembicHead)}
    ensures exists j :: 0 <= j < i && trace[j].command == command && trace[j].reply.Replied?
  {
    hide Watch, AcceptedInOrder;
    AllowedAt(trace, i);
    assert command in DESCRIPTION;
  }

  /** Publication is tried only after the manifest, packing, verification, encryption, decryption and verification of the
      decrypted archive passed, in this order, and the stopped writers were resumed. */
  lemma PublicationIsGuarded(trace: seq<Event>, i: nat)
    requires i < |trace| && Watch(trace).permitted && trace[i].command == Local(PublishFinal)
    ensures exists at: seq<nat> :: |at| == 6 && at[0] < at[1] < at[2] < at[3] < at[4] < at[5] < i
              && trace[at[0]].command == Local(WriteManifest) && trace[at[0]].reply.Replied?
              && trace[at[1]].command == Local(PackArchive) && trace[at[1]].reply.Replied?
              && trace[at[2]].command == Local(VerifyPlaintext) && trace[at[2]].reply.Replied?
              && trace[at[3]].command == Encrypt && trace[at[3]].reply.Replied?
              && trace[at[4]].command == Decrypt && trace[at[4]].reply.Replied?
              && trace[at[5]].command == Local(VerifyDecrypted) && trace[at[5]].reply.Replied?
    ensures exists writers :: Listed(trace, i, writers) && (writers != {} ==> AcceptedBefore(trace, i, Up(writers)))
  {
    PassedInOrder(trace, i);
    ResumedBefore(trace, i);
  }

  lemma PassedInOrder(trace: seq<Event>, i: nat)
    requires i < |trace| && Watch(trace).permitted && trace[i].command == Local(PublishFinal)
    ensures exists at: seq<nat> :: |at| == 6 && at[0] < at[1] < at[2] < at[3] < at[4] < at[5] < i
              && trace[at[0]].command == Local(WriteManifest) && trace[at[0]].reply.Replied?
              && trace[at[1]].command == Local(PackArchive) && trace[at[1]].reply.Replied?
              && trace[at[2]].command == Local(VerifyPlaintext) && trace[at[2]].reply.Replied?
              && trace[at[3]].command == Encrypt && trace[at[3]].reply.Replied?
              && trace[at[4]].command == Decrypt && trace[at[4]].reply.Replied?
              && trace[at[5]].command == Local(VerifyDecrypted) && trace[at[5]].reply.Replied?
  {
    hide Watch, AcceptedInOrder, AcceptedBefore, Listed, AcceptedAt, StopGrounded, ResumeGrounded, IdleSinceStop, Resumed;
    AllowedAt(trace, i);
    assert PIPELINE[..|PIPELINE|] == PIPELINE;
    SixInOrder(trace, i);
  }

  lemma ResumedBefore(trace: seq<Event>, i: nat)
    requires i < |trace| && Watch(trace).permitted && trace[i].command == Local(PublishFinal)
    ensures exists writers :: Listed(trace, i, writers) && (writers != {} ==> AcceptedBefore(trace, i, Up(writers)))
  {
    hide Watch, DataGrounded, AcceptedBefore, Listed;
    AllowedAt(trace, i);
    var m := Watch(trace[..i]);
    assert Listed(trace, i, m.writers.value);
  }

  lemma SixInOrder(trace: seq<Event>, n: nat)
    requires n <= |trace| && AcceptedInOrder(trace, n, PIPELINE)
    ensures exists at: seq<nat> :: |at| == 6 && at[0] < at[1] < at[2] < at[3] < at[4] < at[5] < n
              && trace[at[0]].command == Local(WriteManifest) && trace[at[0]].reply.Replied?
              && trace[at[1]].command == Local(PackArchive) && trace[at[1]].reply.Replied?
              && trace[at[2]].command == Local(VerifyPlaintext) && trace[at[2]].reply.Replied?
              && trace[at[3]].command == Encrypt && trace[at[3]].reply.Replied?
              && trace[at[4]].command == Decrypt && trace[at[4]].reply.Replied?
              && trace[at[5]].command == Local(VerifyDecrypted) && trace[at[5]].reply.Replied?
  {
    var at :| AcceptedAt(trace, n, PIPELINE, at);
    StepAt(trace, n, at, 0);
    StepAt(trace, n, at, 1);
    StepAt(trace, n, at, 2);
    StepAt(trace, n, at, 3);
    StepAt(trace, n, at, 4);
    StepAt(trace, n, at, 5);
    hide AcceptedAt, AcceptedInOrder;
  }

  lemma StepAt(trace: seq<Event>, n: nat, at: seq<nat>, k: nat)
    requires k < 6 && n <= |trace| && AcceptedAt(trace, n, PIPELINE, at)
    ensures |at| == 6 && at[k] < n && trace[at[k]].command == PIPELINE[k] && trace[at[k]].reply.Replied?
    ensures k < 5 ==> at[k] < at[k + 1]
  {}


  lemma {:induction false} PublishFound(trace: seq<Event>) returns (i: nat)
    requires Watch(trace).published
    ensures i < |trace| && trace[i].command == Local(PublishFinal)
  {
    hide Allowed;
    var n := |trace| - 1;
    if trace[n].command == Local(PublishFinal) {
      i := n;
    } else {
      i := PublishFound(trace[..n]);
    }
  }

  /** A published backup got a manifest and was packed, verified, encrypted, decrypted and verified again, in this order. */
  lemma PublishedPlainly(trace: seq<Event>)
    requires Watch(trace).permitted && Watch(trace).published
    ensures exists at: seq<nat> :: |at| == 6 && at[0] < at[1] < at[2] < at[3] < at[4] < at[5] < |trace|
              && trace[at[0]].command == Local(WriteManifest) && trace[at[0]].reply.Replied?
              && trace[at[1]].command == Local(PackArchive) && trace[at[1]].reply.Replied?
              && trace[at[2]].command == Local(VerifyPlaintext) && trace[at[2]].reply.Replied?
              && trace[at[3]].command == Encrypt && trace[at[3]].reply.Replied?
              && trace[at[4]].command == Decrypt && trace[at[4]].reply.Replied?
              && trace[at[5]].command == Local(VerifyDecrypted) && trace[at[5]].reply.Replied?
  {
    hide Watch, Listed, AcceptedBefore;
    var i := PublishFound(trace);
    PassedInOrder(trace, i);
  }

  /** What the monitor calls bad: a refused command, an empty answer to a question or to the table inventory, or
      database sessions that remain. */
  lemma {:induction false} BadPlainly(trace: seq<Event>)
    ensures Watch(trace).bad <==>
              exists i :: 0 <= i < |trace|
                && (trace[i].reply.Failed?
                    || (trace[i].reply.text == "" && (trace[i].command.Ask? || trace[i].command == Capture(TableInventory)))
                    || (trace[i].reply.text != "0" && trace[i].command == Ask(WriterSessions)))
  {
    hide Allowed;
    if trace != [] {
      var n := |trace| - 1;
      BadPlainly(trace[..n]);
      assert forall i :: 0 <= i < n ==> trace[..n][i] == trace[i];
      assert Watch(trace).bad <==> Watch(trace[..n]).bad || Bad(trace[n]);
    }
  }

  /** When data is captured, each of the four services that write and were running has been stopped, and no other;
      the database then answered that no session was left; and nothing was started again. */
  lemma CapturePlainly(trace: seq<Event>, i: nat)
    requires i < |trace| && Watch(trace).permitted && trace[i].command.Capture?
    ensures exists l :: 0 <= l < i && trace[l].command == ListRunning && trace[l].reply.Replied?
              && forall s :: s in {Api, SourceWorker, PublishWorker, Scheduler} && s in trace[l].reply.running ==>
                   exists j :: 0 <= j < i && trace[j].command.Stop? && s in trace[j].command.services && trace[j].reply.Replied?
    ensures forall j :: 0 <= j < i && trace[j].command.Stop? ==> Frontend !in trace[j].command.services
    ensures exists j :: 0 <= j < i && trace[j].command == Ask(WriterSessions) && trace[j].reply.Replied? && trace[j].reply.text == "0"
              && forall k :: j < k < i ==> !trace[k].command.Stop?
    ensures forall j :: 0 <= j < i ==> !trace[j].command.Up?
  {
    CaptureIsQuiesced(trace, i);
    hide Watch;
    var writers :| Listed(trace, i, writers) && (writers != {} ==> AcceptedBefore(trace, i, Stop(writers)));
    var l :| 0 <= l < i && trace[l].command == ListRunning && trace[l].reply.Replied? && trace[l].reply.running * WRITERS == writers;
    forall s | s in {Api, SourceWorker, PublishWorker, Scheduler} && s in trace[l].reply.running
      ensures exists j :: 0 <= j < i && trace[j].command.Stop? && s in trace[j].command.services && trace[j].reply.Replied?
    {
      assert s in writers;
    }
    forall j | 0 <= j < i && trace[j].command.Stop? ensures Frontend !in trace[j].command.services {
      OnlyWritersStopped(trace, j);
    }
  }

  lemma OnlyWritersStopped(trace: seq<Event>, j: nat)
    requires j < |trace| && Watch(trace).permitted && trace[j].command.Stop?
    ensures trace[j].command.services <= {Api, SourceWorker, PublishWorker, Scheduler}
  {
    AllowedAt(trace, j);
    var writers := Watch(trace[..j]).writers.value;
    hide Watch;
    var l :| 0 <= l < j && trace[l].command == ListRunning && trace[l].reply.Replied? && trace[l].reply.running * WRITERS == writers;
  }

  /** Whatever was stopped is running again when publication is tried. */
  lemma ResumedPlainly(trace: seq<Event>, i: nat, j: nat, s: Service)
    requires j < i < |trace| && Watch(trace).permitted && trace[i].command == Local(PublishFinal)
    requires trace[j].command.Stop? && s in trace[j].command.services
    ensures exists k :: j < k < i && trace[k].command.Up? && s in trace[k].command.services && trace[k].reply.Replied?
  {
    hide Watch, StopGrounded, DataGrounded, Observe;
    PermittedPrefix(trace, i);
    StopStays(trace, j, i);
    AllowedAt(trace, i);
    AllowedAt(trace, j);
    var k :| 0 <= k < i && Accepted(trace[k], Up(trace[j].command.services));
  }

  /** A stop that was issued, accepted or not, is answered by a later start of exactly those services. */
  lemma StopIsAnswered(trace: seq<Event>, i: nat)
    requires i < |trace| && Watch(trace).permitted && trace[i].command.Stop?
    requires Watch(trace).stop.StopIssued? ==> Watch(trace).resume.ResumeIssued?
    ensures exists j :: i < j < |trace| && trace[j].command == Up(trace[i].command.services)
  {
    assert trace[..|trace|] == trace;
    StopStays(trace, i, |trace|);
    var j := ResumeFound(trace, i, |trace|);
  }

  lemma {:induction false} StopStays(trace: seq<Event>, i: nat, n: nat)
    requires i < n <= |trace| && Watch(trace[..n]).permitted && trace[i].command.Stop?
    ensures Watch(trace[..n]).stop.StopIssued? && Watch(trace[..n]).writers == Some(trace[i].command.services)
    ensures n == i + 1 ==> Watch(trace[..n]).resume.NotResumed?
  {
    assert trace[..n][..n - 1] == trace[..n - 1];
    if n > i + 1 { StopStays(trace, i, n - 1); }
  }

  lemma {:induction false} ResumeFound(trace: seq<Event>, i: nat, n: nat) returns (j: nat)
    requires i < n <= |trace| && Watch(trace[..n]).permitted && trace[i].command.Stop?
    requires Watch(trace[..n]).resume.ResumeIssued?
    ensures i < j < n && trace[j].command == Up(trace[i].command.services)
  {
    StopStays(trace, i, n);
    assert trace[..n][..n - 1] == trace[..n - 1];
    if trace[n - 1].command.Up? {
      StopStays(trace, i, n - 1);
      j := n - 1;
    } else {
      j := ResumeFound(trace, i, n - 1);
    }
  }
}
