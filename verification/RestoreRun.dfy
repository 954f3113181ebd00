/** The command protocol of a restore: verify, check, stop, replace, migrate, start; contain on failure. */
module RestoreRun {
  import opened Wrappers
  import opened Runner

  // ---------- the last lifecycle command of a service ----------

  datatype Lifecycle = Untouched | Stopped(accepted: bool) | Started(accepted: bool)

  function LastLifecycle(trace: seq<Event>, service: Service): Lifecycle {
    if trace == [] then Untouched
    else LifecycleAfter(trace[|trace| - 1], service, LastLifecycle(trace[..|trace| - 1], service))
  }

  function LifecycleAfter(e: Event, service: Service, before: Lifecycle): Lifecycle {
    if e.command.Stop? && service in e.command.services then Stopped(e.reply.Replied?)
    else if e.command.Up? && service in e.command.services then Started(e.reply.Replied?)
    else before
  }

  /** The last lifecycle command of every runtime service was an accepted stop. */
  ghost predicate AllStopped(trace: seq<Event>) {
    forall s :: s in RUNTIME ==> LastLifecycle(trace, s) == Stopped(true)
  }

  lemma LifecycleOfSnoc(trace: seq<Event>, e: Event, service: Service)
    ensures LastLifecycle(trace + [e], service) == LifecycleAfter(e, service, LastLifecycle(trace, service))
  {
    assert (trace + [e])[..|trace|] == trace;
  }

  // ---------- a monitor over the run's events ----------

  /** What the archive's manifest asks of the database it is restored into. */
  datatype Manifest = Manifest(legacy: bool, serverMajor: Option<nat>, dumpMajor: Option<nat>)

  /** _major_version: None where it raises. */
  type MajorOf = string -> Option<nat>

  datatype Monitor = Monitor(verified: bool, server: Option<string>, client: Option<string>, listed: bool,
                             stopAttempted: bool, stopped: bool, bad: bool, permitted: bool)

  const INITIAL := Monitor(false, None, None, false, false, false, false, true)

  predicate SameMajor(major: MajorOf, text: string, wanted: Option<nat>) {
    wanted.Some? && major(text) == wanted
  }

  /** The server, and for a current archive the restore client, have the major versions of the backup. */
  predicate Compatible(manifest: Manifest, major: MajorOf, m: Monitor) {
    && m.server.Some? && SameMajor(major, m.server.value, manifest.serverMajor)
    && (manifest.legacy || (m.client.Some? && SameMajor(major, m.client.value, manifest.dumpMajor)))
  }

  predicate Checked(manifest: Manifest, major: MajorOf, m: Monitor) {
    m.verified && Compatible(manifest, major, m) && m.listed
  }

  /** An answered version differs from the one the backup was made with. */
  predicate Mismatch(manifest: Manifest, major: MajorOf, m: Monitor) {
    || (m.server.Some? && !SameMajor(major, m.server.value, manifest.serverMajor))
    || (!manifest.legacy && m.client.Some? && !SameMajor(major, m.client.value, manifest.dumpMajor))
  }

  predicate Destructive(command: Command) {
    command.DropDatabase? || command.CreateDatabase? || command.LoadDump? || command.ReplaceVolume? || command.Migrate?
  }

  /** The first stop must come after the checks, and data may only be replaced after it was accepted. */
  function Observe(manifest: Manifest, major: MajorOf, m: Monitor, e: Event): Monitor {
    var stops := e.command.Stop?;
    Monitor(m.verified || Accepted(e, Local(VerifyArchive)),
            if Accepted(e, Ask(ServerVersion)) then Some(e.reply.text) else m.server,
            if Accepted(e, Ask(RestoreVersion)) then Some(e.reply.text) else m.client,
            m.listed || Accepted(e, ListDump),
            m.stopAttempted || stops,
            m.stopped || Accepted(e, Stop(RUNTIME)),
            m.bad || e.reply.Failed? || (e.command.Ask? && e.reply.text == ""),
            && m.permitted
            && (stops || Destructive(e.command) ==> Checked(manifest, major, m))
            && (Destructive(e.command) ==> m.stopped))
  }

  lemma StopKeepsChecks(manifest: Manifest, major: MajorOf, m: Monitor, e: Event)
    requires Checked(manifest, major, m) && e.command.Stop?
    ensures Checked(manifest, major, Observe(manifest, major, m, e))
    ensures Observe(manifest, major, m, e).permitted == m.permitted
  {}

  function Watch(manifest: Manifest, major: MajorOf, trace: seq<Event>): Monitor {
    if trace == [] then INITIAL
    else Observe(manifest, major, Watch(manifest, major, trace[..|trace| - 1]), trace[|trace| - 1])
  }

  // ---------- the shape of the two phases after the checks ----------

  /** Stop, replace and migrate, in this order; then start, unless the caller asked not to. */
  function Steps(restart: bool): seq<Command> {
    [Stop(RUNTIME), DropDatabase, CreateDatabase, LoadDump,
     ReplaceVolume(MediaVolume), ReplaceVolume(ExportVolume), Migrate] + if restart then [Up(RUNTIME)] else []
  }

  lemma StepsInOrder(restart: bool)
    ensures var s := Steps(restart);
            && |s| == (if restart then 8 else 7)
            && s[..4] == [Command.Stop(RUNTIME), DropDatabase, CreateDatabase, LoadDump]
            && s[0] == Stop(RUNTIME)
            && s[4] == ReplaceVolume(MediaVolume) && s[5] == ReplaceVolume(ExportVolume) && s[6] == Migrate
            && (restart ==> s[7] == Up(RUNTIME))
  {
    assert Steps(restart)[..4][0] == Steps(restart)[0];
  }

  lemma FirstFour(s: seq<Command>)
    requires |s| > 4 && s[..4] == [Command.Stop(RUNTIME), DropDatabase, CreateDatabase, LoadDump]
    ensures s[0] == Stop(RUNTIME) && s[1] == DropDatabase && s[2] == CreateDatabase && s[3] == LoadDump
  {
    assert s[0] == s[..4][0] && s[1] == s[..4][1] && s[2] == s[..4][2] && s[3] == s[..4][3];
  }

  /** The events after the first `from` are the first k steps, all accepted. */
  predicate Progress(trace: seq<Event>, from: nat, steps: seq<Command>, k: nat) {
    k <= |steps| && |trace| == from + k && forall i :: 0 <= i < k ==> Accepted(trace[from + i], steps[i])
  }

  /** ... and the step after those was refused. */
  predicate Refused(trace: seq<Event>, from: nat, steps: seq<Command>, k: nat) {
    k < |steps| && |trace| == from + k + 1 && Progress(trace[..from + k], from, steps, k)
    && trace[from + k] == Event(steps[k], Failed)
  }

  ghost predicate Halted(trace: seq<Event>, from: nat, steps: seq<Command>) {
    exists k :: Refused(trace, from, steps, k)
  }

  /** One stop for each of the services, in order. */
  predicate SingleStops(events: seq<Event>, services: seq<Service>) {
    |events| == |services| && forall i :: 0 <= i < |events| ==> events[i].command == Stop({services[i]})
  }

  predicate AllAccepted(events: seq<Event>) { forall i :: 0 <= i < |events| ==> events[i].reply.Replied? }

  /** One stop for all services; if it is refused, one for each. */
  predicate Containment(events: seq<Event>, confirmed: bool) {
    && events != [] && events[0].command == Stop(RUNTIME)
    && (if events[0].reply.Replied? then |events| == 1 && confirmed
        else SingleStops(events[1..], RUNTIME_ORDER) && (confirmed <==> AllAccepted(events[1..])))
  }

  lemma SingleStopsSnoc(events: seq<Event>, e: Event, services: seq<Service>, n: nat)
    requires n < |services| && SingleStops(events, services[..n]) && e.command == Stop({services[n]})
    ensures SingleStops(events + [e], services[..n + 1])
    ensures AllAccepted(events + [e]) <==> AllAccepted(events) && e.reply.Replied?
  {
    var all := events + [e];
    assert all[|events|] == e && forall i :: 0 <= i < |events| ==> all[i] == events[i];
  }

  /** Accepted single stops of some services leave the last lifecycle command of each an accepted stop. */
  lemma {:induction false} SinglesStop(start: seq<Event>, events: seq<Event>, services: seq<Service>)
    requires SingleStops(events, services) && AllAccepted(events)
    ensures forall s :: s in services ==> LastLifecycle(start + events, s) == Stopped(true)
  {
    if events != [] {
      var n := |events| - 1;
      var e := events[n];
      SinglesStop(start, events[..n], services[..n]);
      assert start + events == (start + events[..n]) + [e];
      forall s | s in services ensures LastLifecycle(start + events, s) == Stopped(true) {
        LifecycleOfSnoc(start + events[..n], e, s);
      }
    }
  }

  // ---------- the program ----------

  /** The first thing done: an encrypted archive is decrypted and what that gives verified, another archive verified. */
  predicate Unsealed(encrypted: bool, trace: seq<Event>) {
    if encrypted then |trace| >= 2 && Accepted(trace[0], Decrypt) && Accepted(trace[1], Local(VerifyArchive))
    else trace != [] && Accepted(trace[0], Local(VerifyArchive))
  }

  datatype Outcome = Restored | FailedBeforeStop | FailedAfterStop(confirmed: bool)

  class RestoreWorkflow {
    const runner: CommandRunner
    const major: MajorOf

    constructor (runner: CommandRunner, major: MajorOf)
      ensures this.runner == runner && this.major == major
    {
      this.runner, this.major := runner, major;
    }

    ghost function Seen(manifest: Manifest): Monitor
      reads runner
    {
      Watch(manifest, major, runner.trace)
    }

    ghost predicate Ready(manifest: Manifest)
      reads runner
    {
      Seen(manifest).permitted && Checked(manifest, major, Seen(manifest))
    }

    method Do(command: Command, ghost manifest: Manifest) returns (reply: Reply)
      modifies runner
      ensures runner.trace == old(runner.trace) + [Event(command, reply)]
      ensures Seen(manifest) == Observe(manifest, major, old(Seen(manifest)), Event(command, reply))
    {
      reply := runner.Run(command);
      assert runner.trace[..|runner.trace| - 1] == old(runner.trace);
    }

    /** A version question; an empty answer is an error. */
    method Ask(query: Query, ghost manifest: Manifest) returns (reply: Reply)
      modifies runner
      ensures |runner.trace| == |old(runner.trace)| + 1 && old(runner.trace) <= runner.trace
      ensures exists answer :: Seen(manifest) == Observe(manifest, major, old(Seen(manifest)), Event(Command.Ask(query), answer))
                               && (reply.Replied? ==> reply == answer)
      ensures old(Seen(manifest)).bad || reply.Failed? ==> Seen(manifest).bad
    {
      ghost var before := runner.trace;
      reply := runner.AskFor(query);
      assert runner.trace[..|runner.trace| - 1] == before;
      ghost var answer := runner.trace[|before|].reply;
      assert runner.trace[|before|] == Event(Command.Ask(query), answer);
    }

    /** The stop of each service in turn; true only if every one of them was accepted. */
    method StopEach(ghost manifest: Manifest) returns (stopped: bool)
      requires Ready(manifest)
      modifies runner
      ensures Ready(manifest) && old(runner.trace) <= runner.trace
      ensures SingleStops(runner.trace[|old(runner.trace)|..], RUNTIME_ORDER)
      ensures stopped <==> AllAccepted(runner.trace[|old(runner.trace)|..])
    {
      ghost var start := runner.trace;
      ghost var singles: seq<Event> := [];
      stopped := true;
      assert SingleStops(singles, RUNTIME_ORDER[..0]) && AllAccepted(singles);
      hide Watch, Observe, Checked, SingleStops, AllAccepted;
      for i := 0 to |RUNTIME_ORDER|
        invariant runner.trace == start + singles && Ready(manifest)
        invariant SingleStops(singles, RUNTIME_ORDER[..i]) && (stopped <==> AllAccepted(singles))
      {
        ghost var m := Seen(manifest);
        var reply := Do(Command.Stop({RUNTIME_ORDER[i]}), manifest);
        ghost var e := Event(Command.Stop({RUNTIME_ORDER[i]}), reply);
        StopKeepsChecks(manifest, major, m, e);
        SingleStopsSnoc(singles, e, RUNTIME_ORDER, i);
        assert (start + singles) + [e] == start + (singles + [e]);
        singles := singles + [e];
        if reply.Failed? { stopped := false; }
      }
      assert RUNTIME_ORDER[..|RUNTIME_ORDER|] == RUNTIME_ORDER;
      assert runner.trace[|start|..] == singles;
    }

    /** _contain_runtime_services */
    method Contain(ghost manifest: Manifest) returns (stopped: bool)
      requires Ready(manifest)
      modifies runner
      ensures old(runner.trace) <= runner.trace && Containment(runner.trace[|old(runner.trace)|..], stopped)
      ensures stopped ==> AllStopped(runner.trace)
      ensures Seen(manifest).permitted
    {
      hide Watch, SingleStops, AllAccepted;
      ghost var start := runner.trace;
      var reply := Do(Command.Stop(RUNTIME), manifest);
      ghost var first := Event(Command.Stop(RUNTIME), reply);
      ghost var afterFirst := runner.trace;
      if reply.Replied? {
        forall s | s in RUNTIME ensures LastLifecycle(runner.trace, s) == Stopped(true) {
          LifecycleOfSnoc(start, first, s);
        }
        return true;
      }
      stopped := StopEach(manifest);
      ghost var singles := runner.trace[|afterFirst|..];
      assert runner.trace == afterFirst + singles;
      assert runner.trace[|start|..] == [first] + singles && ([first] + singles)[1..] == singles;
      if stopped {
        SinglesStop(afterFirst, singles, RUNTIME_ORDER);
        EveryServiceOrdered();
      }
    }

    /** Decryption, if need be, and verification. */
    method VerifyFirst(encrypted: bool, ghost manifest: Manifest) returns (reply: Reply)
      requires runner.trace == []
      modifies runner
      ensures Seen(manifest) == INITIAL.(verified := Seen(manifest).verified, bad := Seen(manifest).bad)
      ensures if reply.Replied? then Seen(manifest).verified else Seen(manifest).bad
      ensures reply.Replied? ==> Unsealed(encrypted, runner.trace)
    {
      assert Seen(manifest) == INITIAL;
      hide Watch, Checked;
      if encrypted {
        reply :- Do(Decrypt, manifest);
      }
      reply :- Do(Local(VerifyArchive), manifest);
    }

    /** Verification, compatibility and the dump listing: nothing is stopped or changed here. */
    method CheckArchive(encrypted: bool, manifest: Manifest) returns (reply: Reply)
      requires runner.trace == []
      modifies runner
      ensures Seen(manifest).permitted && !Seen(manifest).stopAttempted
      ensures reply.Replied? ==> Ready(manifest) && Unsealed(encrypted, runner.trace)
      ensures reply.Failed? ==> Seen(manifest).bad || Mismatch(manifest, major, Seen(manifest))
    {
      hide Watch, SameMajor;
      reply :- VerifyFirst(encrypted, manifest);
      reply :- CheckCompatibility(manifest);
      reply :- Do(ListDump, manifest);
    }

    /** _assert_restore_compatibility */
    method CheckCompatibility(manifest: Manifest) returns (reply: Reply)
      modifies runner
      ensures old(runner.trace) <= runner.trace
      ensures var m := old(Seen(manifest));
              Seen(manifest) == m.(server := Seen(manifest).server, client := Seen(manifest).client, bad := Seen(manifest).bad)
      ensures if reply.Replied? then Compatible(manifest, major, Seen(manifest))
              else Seen(manifest).bad || Mismatch(manifest, major, Seen(manifest))
    {
      hide Watch;
      reply :- Ask(ServerVersion, manifest);
      var server := reply.text;
      if manifest.legacy {
        if !SameMajor(major, server, manifest.serverMajor) { return Failed; }
        return reply;
      }
      reply :- Ask(RestoreVersion, manifest);
      if !SameMajor(major, server, manifest.serverMajor) { return Failed; }
      if !SameMajor(major, reply.text, manifest.dumpMajor) { return Failed; }
    }

    /** After the first k of the steps, with nothing of the first `from` events rewritten. */
    ghost predicate AtStep(manifest: Manifest, start: seq<Event>, steps: seq<Command>, k: nat)
      reads runner
    {
      && Ready(manifest) && start <= runner.trace && Progress(runner.trace, |start|, steps, k)
      && (k > 0 ==> Seen(manifest).stopped)
    }

    ghost predicate HaltedSince(manifest: Manifest, start: seq<Event>, steps: seq<Command>)
      reads runner
    {
      Ready(manifest) && start <= runner.trace && Halted(runner.trace, |start|, steps)
    }

    /** The next of the steps. */
    method Step(command: Command, ghost start: seq<Event>, ghost steps: seq<Command>, ghost k: nat,
                ghost manifest: Manifest)
      returns (reply: Reply)
      requires AtStep(manifest, start, steps, k) && k < |steps| && command == steps[k]
      requires steps[0] == Stop(RUNTIME) && !command.Ask?
      modifies runner
      ensures reply.Replied? ==> AtStep(manifest, start, steps, k + 1)
      ensures reply.Failed? ==> HaltedSince(manifest, start, steps)
    {
      hide Watch;
      ghost var before := runner.trace;
      reply := Do(command, manifest);
      assert runner.trace[..|start| + k] == before;
      assert reply.Failed? ==> Refused(runner.trace, |start|, steps, k);
    }

    /** The try block as far as the database goes. */
    method ReplaceDatabase(ghost start: seq<Event>, ghost steps: seq<Command>, ghost manifest: Manifest)
      returns (reply: Reply)
      requires AtStep(manifest, start, steps, 0) && |steps| > 4
      requires steps[..4] == [Command.Stop(RUNTIME), DropDatabase, CreateDatabase, LoadDump]
      modifies runner
      ensures reply.Replied? ==> AtStep(manifest, start, steps, 4)
      ensures reply.Failed? ==> HaltedSince(manifest, start, steps)
    {
      FirstFour(steps);
      hide AtStep, HaltedSince, Steps;
      reply :- Step(Command.Stop(RUNTIME), start, steps, 0, manifest);
      reply :- Step(DropDatabase, start, steps, 1, manifest);
      reply :- Step(CreateDatabase, start, steps, 2, manifest);
      reply :- Step(LoadDump, start, steps, 3, manifest);
    }

    /** The volumes, and the migration of the database. */
    method ReplaceVolumes(ghost start: seq<Event>, ghost steps: seq<Command>, ghost manifest: Manifest)
      returns (reply: Reply)
      requires AtStep(manifest, start, steps, 4) && |steps| >= 7 && steps[0] == Command.Stop(RUNTIME)
      requires steps[4] == ReplaceVolume(MediaVolume) && steps[5] == ReplaceVolume(ExportVolume) && steps[6] == Migrate
      modifies runner
      ensures reply.Replied? ==> AtStep(manifest, start, steps, 7)
      ensures reply.Failed? ==> HaltedSince(manifest, start, steps)
    {
      hide AtStep, HaltedSince, Steps;
      reply :- Step(ReplaceVolume(MediaVolume), start, steps, 4, manifest);
      reply :- Step(ReplaceVolume(ExportVolume), start, steps, 5, manifest);
      reply :- Step(Migrate, start, steps, 6, manifest);
    }

    /** The try block, from the stop to the start. */
    method ReplaceData(restart: bool, ghost manifest: Manifest) returns (reply: Reply)
      requires Ready(manifest)
      modifies runner
      ensures old(runner.trace) <= runner.trace
      ensures reply.Replied? ==> AtStep(manifest, old(runner.trace), Steps(restart), |Steps(restart)|)
      ensures reply.Failed? ==> HaltedSince(manifest, old(runner.trace), Steps(restart))
    {
      ghost var start, steps := runner.trace, Steps(restart);
      StepsInOrder(restart);
      assert AtStep(manifest, start, steps, 0);
      hide AtStep, HaltedSince, Steps;
      reply :- ReplaceDatabase(start, steps, manifest);
      reply :- ReplaceVolumes(start, steps, manifest);
      if restart {
        reply :- Step(Command.Up(RUNTIME), start, steps, 7, manifest);
      }
    }

    /** restore: `identityReady` says that the key file of an encrypted archive passes its checks. */
    method Restore(confirmed: bool, encrypted: bool, identityReady: bool, manifest: Manifest, restart: bool)
      returns (outcome: Outcome)
      requires runner.trace == []
      modifies runner
      ensures Seen(manifest).permitted
      ensures !confirmed || (encrypted && !identityReady) ==> outcome == FailedBeforeStop && runner.trace == []
      ensures outcome.FailedBeforeStop? ==> !Seen(manifest).stopAttempted
      ensures outcome.FailedBeforeStop? && confirmed && (encrypted ==> identityReady) ==>
                Seen(manifest).bad || Mismatch(manifest, major, Seen(manifest))
      ensures !outcome.FailedBeforeStop? ==> Unsealed(encrypted, runner.trace)
      ensures outcome.Restored? ==>
                exists n :: Progress(runner.trace, n, Steps(restart), |Steps(restart)|)
      ensures outcome.FailedAfterStop? ==>
                exists n, c: nat :: c <= |runner.trace| && Halted(runner.trace[..c], n, Steps(restart))
                                       && Containment(runner.trace[c..], outcome.confirmed)
      ensures outcome.FailedAfterStop? && outcome.confirmed ==> AllStopped(runner.trace)
    {
      assert Seen(manifest) == INITIAL;
      hide Watch, Checked, Progress, Halted, Containment, AllStopped, Mismatch;
      if !confirmed || (encrypted && !identityReady) { return FailedBeforeStop; }
      var reply := CheckArchive(encrypted, manifest);
      if reply.Failed? { return FailedBeforeStop; }
      ghost var n := |runner.trace|;
      reply := ReplaceData(restart, manifest);
      if reply.Failed? {
        ghost var tried := runner.trace;
        var stopped := Contain(manifest);
        assert runner.trace[..|tried|] == tried;
        return FailedAfterStop(stopped);
      }
      return Restored;
    }
  }

  lemma EveryServiceOrdered()
    ensures forall s :: s in RUNTIME ==> s in RUNTIME_ORDER
  {
    assert RUNTIME_ORDER[0] == Api && RUNTIME_ORDER[1] == SourceWorker && RUNTIME_ORDER[2] == PublishWorker
        && RUNTIME_ORDER[3] == Scheduler && RUNTIME_ORDER[4] == Frontend;
  }

  // ---------- what a permitted trace means ----------

  ghost predicate AnsweredBefore(trace: seq<Event>, n: nat, query: Query, text: string)
    requires n <= |trace|
  {
    exists j :: 0 <= j < n && Accepted(trace[j], Ask(query)) && trace[j].reply.text == text
  }

  /** The archive was verified, its versions compared with those of the target, and the dump listed. */
  ghost predicate CheckedBefore(trace: seq<Event>, n: nat, manifest: Manifest, major: MajorOf)
    requires n <= |trace|
  {
    && AcceptedBefore(trace, n, Local(VerifyArchive)) && AcceptedBefore(trace, n, ListDump)
    && (exists t :: AnsweredBefore(trace, n, ServerVersion, t) && SameMajor(major, t, manifest.serverMajor))
    && (!manifest.legacy ==>
          exists t :: AnsweredBefore(trace, n, RestoreVersion, t) && SameMajor(major, t, manifest.dumpMajor))
  }

  ghost predicate Grounded(trace: seq<Event>, n: nat, m: Monitor)
    requires n <= |trace|
  {
    && (m.verified ==> AcceptedBefore(trace, n, Local(VerifyArchive)))
    && (m.server.Some? ==> AnsweredBefore(trace, n, ServerVersion, m.server.value))
    && (m.client.Some? ==> AnsweredBefore(trace, n, RestoreVersion, m.client.value))
    && (m.listed ==> AcceptedBefore(trace, n, ListDump))
    && (m.stopped ==> AcceptedBefore(trace, n, Stop(RUNTIME)))
  }

  lemma AnswerKept(trace: seq<Event>, n: nat, query: Query, text: string)
    requires n < |trace| && AnsweredBefore(trace, n, query, text)
    ensures AnsweredBefore(trace, n + 1, query, text)
  {}

  lemma AnswerHeard(trace: seq<Event>, n: nat, query: Query)
    requires n < |trace| && Accepted(trace[n], Ask(query))
    ensures AnsweredBefore(trace, n + 1, query, trace[n].reply.text)
  {}

  lemma GroundedStep(manifest: Manifest, major: MajorOf, trace: seq<Event>, n: nat, m: Monitor)
    requires n < |trace| && Grounded(trace, n, m)
    ensures Grounded(trace, n + 1, Observe(manifest, major, m, trace[n]))
  {
    var e := trace[n];
    hide Accepted, AcceptedBefore, AnsweredBefore, Checked, Destructive;
    AcceptedStep(trace, n, Local(VerifyArchive));
    AcceptedStep(trace, n, ListDump);
    AcceptedStep(trace, n, Stop(RUNTIME));
    if Accepted(e, Ask(ServerVersion)) { AnswerHeard(trace, n, ServerVersion); }
    if Accepted(e, Ask(RestoreVersion)) { AnswerHeard(trace, n, RestoreVersion); }
    if m.server.Some? { AnswerKept(trace, n, ServerVersion, m.server.value); }
    if m.client.Some? { AnswerKept(trace, n, RestoreVersion, m.client.value); }
  }

  lemma {:induction false} WatchMeaning(manifest: Manifest, major: MajorOf, trace: seq<Event>, n: nat)
    requires n <= |trace|
    ensures Grounded(trace, n, Watch(manifest, major, trace[..n]))
  {
    if n > 0 {
      hide Grounded, Observe;
      assert trace[..n][..n - 1] == trace[..n - 1];
      WatchMeaning(manifest, major, trace, n - 1);
      GroundedStep(manifest, major, trace, n - 1, Watch(manifest, major, trace[..n - 1]));
    } else {
      assert Watch(manifest, major, trace[..0]) == INITIAL;
    }
  }

  lemma {:induction false} PermittedPrefix(manifest: Manifest, major: MajorOf, trace: seq<Event>, n: nat)
    requires n <= |trace| && Watch(manifest, major, trace).permitted
    ensures Watch(manifest, major, trace[..n]).permitted
    decreases |trace|
  {
    if n < |trace| {
      PermittedPrefix(manifest, major, trace[..|trace| - 1], n);
      assert trace[..|trace| - 1][..n] == trace[..n];
    } else {
      assert trace[..n] == trace;
    }
  }

  /** No data is replaced before the archive was verified, found compatible, listed, and every service stopped. */
  lemma DestructionIsGuarded(manifest: Manifest, major: MajorOf, trace: seq<Event>, i: nat)
    requires i < |trace| && Watch(manifest, major, trace).permitted && Destructive(trace[i].command)
    ensures CheckedBefore(trace, i, manifest, major) && AcceptedBefore(trace, i, Stop(RUNTIME))
  {
    PermittedPrefix(manifest, major, trace, i + 1);
    assert trace[..i + 1][..i] == trace[..i];
    WatchMeaning(manifest, major, trace, i);
  }

  /** Nothing is stopped before the archive was verified, found compatible and listed. */
  lemma StopIsGuarded(manifest: Manifest, major: MajorOf, trace: seq<Event>, i: nat)
    requires i < |trace| && Watch(manifest, major, trace).permitted && trace[i].command.Stop?
    ensures CheckedBefore(trace, i, manifest, major)
  {
    PermittedPrefix(manifest, major, trace, i + 1);
    assert trace[..i + 1][..i] == trace[..i];
    WatchMeaning(manifest, major, trace, i);
  }

  // ---------- the same in plain terms ----------

  /** Until the n-th event: the archive was verified and its dump listed; the server answered with the major version of
      the backup; and so did the client of a restore from a current archive. */
  lemma CheckedPlainly(trace: seq<Event>, n: nat, manifest: Manifest, major: MajorOf)
    requires n <= |trace| && CheckedBefore(trace, n, manifest, major)
    ensures exists j :: 0 <= j < n && trace[j].command == Local(VerifyArchive) && trace[j].reply.Replied?
    ensures exists j :: 0 <= j < n && trace[j].command == ListDump && trace[j].reply.Replied?
    ensures exists j :: 0 <= j < n && trace[j].command == Ask(ServerVersion) && trace[j].reply.Replied?
              && major(trace[j].reply.text).Some? && major(trace[j].reply.text) == manifest.serverMajor
    ensures !manifest.legacy ==>
              exists j :: 0 <= j < n && trace[j].command == Ask(RestoreVersion) && trace[j].reply.Replied?
                && major(trace[j].reply.text).Some? && major(trace[j].reply.text) == manifest.dumpMajor
  {}

  /** Whatever drops, creates, loads, overwrites or migrates comes after the checks and after an accepted stop of all
      five services. */
  lemma DestructionPlainly(manifest: Manifest, major: MajorOf, trace: seq<Event>, i: nat)
    requires i < |trace| && Watch(manifest, major, trace).permitted
    requires trace[i].command in {DropDatabase, CreateDatabase, LoadDump, ReplaceVolume(MediaVolume), ReplaceVolume(ExportVolume), Migrate}
    ensures CheckedBefore(trace, i, manifest, major)
    ensures exists j :: 0 <= j < i && trace[j].reply.Replied?
              && trace[j].command == Stop({Api, SourceWorker, PublishWorker, Scheduler, Frontend})
  {
    DestructionIsGuarded(manifest, major, trace, i);
  }

  /** The commands of a restore that succeeded, all accepted. */
  lemma RestoredPlainly(trace: seq<Event>, n: nat, restart: bool)
    requires Progress(trace, n, Steps(restart), |Steps(restart)|)
    ensures |trace| == n + (if restart then 8 else 7)
    ensures forall i :: n <= i < |trace| ==> trace[i].reply.Replied?
    ensures trace[n].command == Stop({Api, SourceWorker, PublishWorker, Scheduler, Frontend})
    ensures trace[n + 1].command == DropDatabase && trace[n + 2].command == CreateDatabase && trace[n + 3].command == LoadDump
    ensures trace[n + 4].command == ReplaceVolume(MediaVolume) && trace[n + 5].command == ReplaceVolume(ExportVolume)
    ensures trace[n + 6].command == Migrate
    ensures restart ==> trace[n + 7].command == Up({Api, SourceWorker, PublishWorker, Scheduler, Frontend})
  {
    StepsInOrder(restart);
    FirstFour(Steps(restart));
    hide Steps;
    forall i | n <= i < |trace| ensures trace[i].reply.Replied? && trace[i].command == Steps(restart)[i - n] {
      assert Accepted(trace[n + (i - n)], Steps(restart)[i - n]);
    }
  }

  /** A service counts as stopped when an accepted stop named it and no later stop or start did. */
  lemma {:induction false} StoppedPlainly(trace: seq<Event>, s: Service)
    ensures LastLifecycle(trace, s) == Stopped(true) <==>
              exists i :: 0 <= i < |trace| && trace[i].command.Stop? && s in trace[i].command.services && trace[i].reply.Replied?
                && forall j :: i < j < |trace| ==>
                     && (trace[j].command.Stop? ==> s !in trace[j].command.services)
                     && (trace[j].command.Up? ==> s !in trace[j].command.services)
  {
    if trace != [] {
      var n := |trace| - 1;
      var e, before := trace[n], trace[..n];
      StoppedPlainly(before, s);
      hide LastLifecycle;
      assert forall j :: 0 <= j < n ==> before[j] == trace[j];
      if (e.command.Stop? || e.command.Up?) && s in e.command.services {
        assert e.command.Stop? && e.reply.Replied? ==> trace[n].command.Stop?;
      }
    }
  }

  /** Every one of the five services is stopped in a contained failure. */
  lemma ContainedPlainly(trace: seq<Event>, s: Service)
    requires AllStopped(trace)
    ensures LastLifecycle(trace, s) == Stopped(true)
  {
    match s case Api => case SourceWorker => case PublishWorker => case Scheduler => case Frontend =>
  }

  /** A failure during replacement is that of the step after those that were accepted. */
  lemma HaltedPlainly(trace: seq<Event>, n: nat, restart: bool)
    requires Halted(trace, n, Steps(restart))
    ensures n < |trace| <= n + 8 && trace[|trace| - 1].reply.Failed?
    ensures forall i :: n <= i < |trace| - 1 ==> trace[i].reply.Replied?
    ensures forall i :: n <= i < |trace| ==> trace[i].command == Steps(restart)[i - n]
  {
    var k :| Refused(trace, n, Steps(restart), k);
    StepsInOrder(restart);
    hide Steps;
    forall i | n <= i < |trace| - 1 ensures trace[i].reply.Replied? && trace[i].command == Steps(restart)[i - n] {
      assert Accepted(trace[..n + k][n + (i - n)], Steps(restart)[i - n]);
    }
  }

  /** What the monitor calls bad: a refused command or an empty answer. */
  lemma {:induction false} BadPlainly(manifest: Manifest, major: MajorOf, trace: seq<Event>)
    ensures Watch(manifest, major, trace).bad <==>
              exists i :: 0 <= i < |trace| && (trace[i].reply.Failed? || (trace[i].command.Ask? && trace[i].reply.text == ""))
  {
    if trace != [] {
      var n := |trace| - 1;
      BadPlainly(manifest, major, trace[..n]);
      assert forall i :: 0 <= i < n ==> trace[..n][i] == trace[i];
    }
  }

  /** What it calls a mismatch: an answered version whose major is not that of the backup. */
  lemma MismatchPlainly(manifest: Manifest, major: MajorOf, trace: seq<Event>)
    requires Mismatch(manifest, major, Watch(manifest, major, trace))
    ensures exists i :: 0 <= i < |trace| && trace[i].reply.Replied?
              && var unlike := wanted => wanted == None || major(trace[i].reply.text) != wanted;
                 || (trace[i].command == Ask(ServerVersion) && unlike(manifest.serverMajor))
                 || (trace[i].command == Ask(RestoreVersion) && !manifest.legacy && unlike(manifest.dumpMajor))
  {
    assert trace[..|trace|] == trace;
    WatchMeaning(manifest, major, trace, |trace|);
  }
}
