/** The commands a backup or restore issues, and a runner in which any of them may fail. */
module Runner {
  datatype Service = Api | SourceWorker | PublishWorker | Scheduler | Frontend

  const RUNTIME: set<Service> := {Api, SourceWorker, PublishWorker, Scheduler, Frontend}
  const RUNTIME_ORDER: seq<Service> := [Api, SourceWorker, PublishWorker, Scheduler, Frontend]
  const WRITERS: set<Service> := {Api, SourceWorker, PublishWorker, Scheduler}

  datatype Query = GitSha | ImageIds | WriterSessions | ServerVersion | DumpVersion | RestoreVersion
                 | AlembicCurrent | AlembicHead

  datatype Volume = MediaVolume | ExportVolume

  datatype Data = DatabaseDump | VolumeArchive(volume: Volume) | TableInventory

  /** Steps that are no command but can fail all the same. */
  datatype LocalStep = WriteManifest | PackArchive | VerifyPlaintext | VerifyDecrypted | VerifyArchive | PublishFinal

  datatype Command =
    | Ask(query: Query) | BuildImage | ListRunning
    | Stop(services: set<Service>) | Up(services: set<Service>)
    | Capture(data: Data) | Encrypt | Decrypt
    | ListDump | DropDatabase | CreateDatabase | LoadDump | ReplaceVolume(volume: Volume) | Migrate
    | Local(step: LocalStep)

  datatype Reply = Failed | Replied(text: string, running: set<Service>) {
    predicate IsFailure() { Failed? }

    function PropagateFailure(): Reply
      requires Failed?
    {
      Failed
    }

    function Extract(): Reply
      requires !Failed?
    {
      this
    }
  }

  datatype Event = Event(command: Command, reply: Reply)

  predicate Accepted(e: Event, command: Command) { e.command == command && e.reply.Replied? }

  /** The command was accepted among the first n events. */
  ghost predicate AcceptedBefore(trace: seq<Event>, n: nat, command: Command)
    requires n <= |trace|
  {
    exists j :: 0 <= j < n && Accepted(trace[j], command)
  }

  lemma AcceptedStep(trace: seq<Event>, n: nat, command: Command)
    requires n < |trace|
    ensures AcceptedBefore(trace, n + 1, command) <==> AcceptedBefore(trace, n, command) || Accepted(trace[n], command)
  {}

  class CommandRunner {
    /** What the n-th command of a run answers. */
    const oracle: nat -> Reply
    var trace: seq<Event>

    constructor (oracle: nat -> Reply)
      ensures this.oracle == oracle && trace == []
    {
      this.oracle, trace := oracle, [];
    }

    method Run(command: Command) returns (reply: Reply)
      modifies this
      ensures reply == oracle(|old(trace)|)
      ensures trace == old(trace) + [Event(command, reply)]
    {
      reply := oracle(|trace|);
      trace := trace + [Event(command, reply)];
    }

    /** A command whose empty answer is an error. */
    method AskFor(query: Query) returns (reply: Reply)
      modifies this
      ensures |trace| == |old(trace)| + 1 && trace[..|old(trace)|] == old(trace)
      ensures trace[|old(trace)|].command == Ask(query)
      ensures reply.Replied? ==> reply.text != "" && trace[|old(trace)|].reply == reply
      ensures reply.Failed? <==> trace[|old(trace)|].reply.Failed? || trace[|old(trace)|].reply.text == ""
    {
      reply := Run(Ask(query));
      if reply.Replied? && reply.text == "" { reply := Failed; }
    }
  }
}
