/** Export jobs of one payload, rebuilt under a chain of idempotency keys as their artifacts expire.

    Hashes are injective, so a key is the data it is made of; the jobs table is a map because the
    idempotency key is unique. */
module ExportChain {
  import opened Wrappers

  const MAX_EXPORT_REBUILD_GENERATIONS: nat := 32

  /** A BuildExportPayload; `request` stands for everything but the content pack. */
  datatype Payload = Payload(contentPackId: nat, request: nat)

  datatype Key = Base(payload: Payload) | Rebuild(payload: Payload, previousExportId: nat, expiredAt: int)

  datatype Status = Queued | Running | Succeeded | Failed | Cancelled

  datatype JobResult = NoResult | CompleteArtifact | ExpiredArtifact(exportId: nat, contentPackId: nat, expiredAt: int)

  datatype Job = Job(id: nat, buildsExport: bool, payload: Payload, status: Status, result: JobResult)

  type Jobs = map<Key, Job>

  /** A succeeded job whose result was replaced by retention. */
  predicate Expired(job: Job) { job.status.Succeeded? && job.result.ExpiredArtifact? }

  // ---------- the program ----------

  datatype Refusal = WrongJobType | WrongPayload | WrongExpiredIdentity | HistoryTooDeep | Unavailable

  datatype Search = Vacant(key: Key, generation: nat, previous: Option<nat>) | Hit(job: Job) | Refused(why: Refusal)

  /** _expired_rebuild_artifact: None keeps the job, a moment asks for a rebuild. */
  function ExpiredRebuild(job: Job, payload: Payload): (r: Search)
    ensures r.Hit? ==> r.job == job && !Expired(job)
    ensures r.Vacant? ==> Expired(job) && r.key == Rebuild(payload, job.id, job.result.expiredAt)
  {
    if !job.buildsExport then Refused(WrongJobType)
    else if job.payload != payload then Refused(WrongPayload)
    else if !Expired(job) then Hit(job)
    else if job.result.exportId != job.id || job.result.contentPackId != payload.contentPackId
      then Refused(WrongExpiredIdentity)
    else Vacant(Rebuild(payload, job.id, job.result.expiredAt), 0, Some(job.id))
  }

  /** The key the loop ends on: an unused key, a job to return, or a refusal. */
  function Find(jobs: Jobs, payload: Payload, key: Key, generation: nat, previous: Option<nat>): Search
    decreases MAX_EXPORT_REBUILD_GENERATIONS + 1 - generation
  {
    if key !in jobs then Vacant(key, generation, previous)
    else
      var step := ExpiredRebuild(jobs[key], payload);
      if !step.Vacant? then step
      else if generation >= MAX_EXPORT_REBUILD_GENERATIONS then Refused(HistoryTooDeep)
      else Find(jobs, payload, step.key, generation + 1, step.previous)
  }

  function NewJob(id: nat, payload: Payload): Job { Job(id, true, payload, Queued, NoResult) }

  datatype Outcome = Accepted(id: nat, created: bool) | Conflict(why: Refusal)

  datatype RebuildEvent = RebuildEnqueued(jobId: nat, previousExportId: nat, generation: nat)

  /** `open` says that the capability gate lets a new job pass. */
  function Enqueued(jobs: Jobs, payload: Payload, newId: nat, open: bool): (Jobs, Outcome) {
    match Find(jobs, payload, Base(payload), 0, None)
    case Vacant(key, _, _) =>
      if open then (jobs[key := NewJob(newId, payload)], Accepted(newId, true)) else (jobs, Conflict(Unavailable))
    case Hit(job) => (jobs, Accepted(job.id, false))
    case Refused(why) => (jobs, Conflict(why))
  }

  class ExportQueue {
    var jobs: Jobs
    var events: seq<RebuildEvent>

    constructor ()
      ensures jobs == map[] && events == []
    {
      jobs, events := map[], [];
    }

    /** `newId` is the identity the database gives a row this call inserts. */
    method EnqueueExportJob(payload: Payload, newId: nat, open: bool) returns (outcome: Outcome)
      modifies this
      ensures (jobs, outcome) == Enqueued(old(jobs), payload, newId, open)
      ensures var found := Find(old(jobs), payload, Base(payload), 0, None);
              events == old(events) + if found.Vacant? && found.previous.Some? && open
                then [RebuildEnqueued(newId, found.previous.value, found.generation)] else []
      ensures |events| > |old(events)| <==>
                outcome == Accepted(newId, true) && Base(payload) in old(jobs) && jobs != old(jobs)
    {
      var key, previous := Base(payload), None;
      ghost var goal := Find(jobs, payload, key, 0, None);
      for generation := 0 to MAX_EXPORT_REBUILD_GENERATIONS + 1
        invariant jobs == old(jobs) && events == old(events)
        invariant generation <= MAX_EXPORT_REBUILD_GENERATIONS ==> Find(jobs, payload, key, generation, previous) == goal
        invariant generation <= MAX_EXPORT_REBUILD_GENERATIONS
        invariant if previous.None? then key == Base(payload) else Base(payload) in jobs
      {
        if key !in jobs {
          if !open { return Conflict(Unavailable); }
          jobs := jobs[key := NewJob(newId, payload)];
          if previous.Some? {
            events := events + [RebuildEnqueued(newId, previous.value, generation)];
          }
          return Accepted(newId, true);
        }
        var step := ExpiredRebuild(jobs[key], payload);
        match step {
          case Hit(job) => return Accepted(job.id, false);
          case Refused(why) => return Conflict(why);
          case Vacant(next, _, last) =>
            if generation >= MAX_EXPORT_REBUILD_GENERATIONS { return Conflict(HistoryTooDeep); }
            key, previous := next, last;
        }
      }
      assert false;
    }
  }

  // ---------- the chain of one payload ----------

  function Successor(jobs: Jobs, k: Key): Key
    requires k in jobs && Expired(jobs[k])
  {
    Rebuild(k.payload, jobs[k].id, jobs[k].result.expiredAt)
  }

  /** The keys met from `key` on while jobs are expired. */
  function ChainFrom(jobs: Jobs, key: Key, fuel: nat): (chain: seq<Key>)
    ensures |chain| <= fuel && (chain != [] ==> chain[0] == key)
    ensures forall k :: k in chain ==> k in jobs && k.payload == key.payload
    decreases fuel
  {
    if fuel == 0 || key !in jobs then []
    else if Expired(jobs[key]) then [key] + ChainFrom(jobs, Successor(jobs, key), fuel - 1)
    else [key]
  }

  /** Where that walk stops: at an unused key, at a job that is not expired, or out of generations. */
  datatype End = Free(key: Key) | Occupied(key: Key) | TooDeep

  function EndFrom(jobs: Jobs, key: Key, fuel: nat): End
    decreases fuel
  {
    if fuel == 0 then TooDeep
    else if key !in jobs then Free(key)
    else if Expired(jobs[key]) then EndFrom(jobs, Successor(jobs, key), fuel - 1)
    else Occupied(key)
  }

  const DEPTH: nat := MAX_EXPORT_REBUILD_GENERATIONS + 1

  function Chain(jobs: Jobs, payload: Payload): (chain: seq<Key>)
    ensures forall k :: k in chain ==> k in jobs && k.payload == payload
  {
    ChainFrom(jobs, Base(payload), DEPTH)
  }

  function ChainEnd(jobs: Jobs, payload: Payload): End { EndFrom(jobs, Base(payload), DEPTH) }

  predicate Follows(jobs: Jobs, k: Key, next: Key) { k in jobs && Expired(jobs[k]) && next == Successor(jobs, k) }

  /** Each key follows from the expired job before it. */
  ghost predicate Linked(jobs: Jobs, chain: seq<Key>) {
    forall i, j :: 0 <= i < |chain| && j == i + 1 && j < |chain| ==> Follows(jobs, chain[i], chain[j])
  }

  ghost predicate AllExpired(jobs: Jobs, chain: seq<Key>) {
    forall k :: k in chain ==> k in jobs && Expired(jobs[k])
  }

  ghost predicate Invariant(jobs: Jobs) {
    && (forall k :: k in jobs ==> jobs[k].buildsExport && jobs[k].payload == k.payload)
    && (forall k :: k in jobs && Expired(jobs[k]) ==>
          jobs[k].result.exportId == jobs[k].id && jobs[k].result.contentPackId == k.payload.contentPackId)
    && (forall k, l :: k in jobs && l in jobs && jobs[k].id == jobs[l].id ==> k == l)
    && (forall k :: k in jobs ==> k in Chain(jobs, k.payload))
  }

  lemma {:induction false} ChainLinked(jobs: Jobs, key: Key, fuel: nat)
    ensures Linked(jobs, ChainFrom(jobs, key, fuel))
    decreases fuel
  {
    if fuel > 0 && key in jobs && Expired(jobs[key]) {
      ChainLinked(jobs, Successor(jobs, key), fuel - 1);
      var rest := ChainFrom(jobs, Successor(jobs, key), fuel - 1);
      assert ChainFrom(jobs, key, fuel) == [key] + rest;
    }
  }

  /** What the end says about the chain. */
  lemma {:induction false} EndMeaning(jobs: Jobs, key: Key, fuel: nat)
    ensures var chain := ChainFrom(jobs, key, fuel);
            match EndFrom(jobs, key, fuel)
            case TooDeep => |chain| == fuel && AllExpired(jobs, chain)
            case Free(k) => |chain| < fuel && AllExpired(jobs, chain) && k !in jobs && k.payload == key.payload
            case Occupied(k) =>
              && chain != [] && chain[|chain| - 1] == k && k in jobs && !Expired(jobs[k])
              && forall l :: l in chain && l != k ==> Expired(jobs[l])
    decreases fuel
  {
    if fuel > 0 && key in jobs && Expired(jobs[key]) {
      EndMeaning(jobs, Successor(jobs, key), fuel - 1);
    }
  }

  /** The chain never revisits a key: every rebuild key remembers a different predecessor. */
  lemma {:induction false} ChainAcyclic(jobs: Jobs, chain: seq<Key>, i: nat, j: nat)
    requires Invariant(jobs) && Linked(jobs, chain) && i < j < |chain| && chain[0].Base?
    ensures chain[i] != chain[j]
    decreases i
  {
    assert Follows(jobs, chain[j - 1], chain[j]);
    if chain[i] == chain[j] && i > 0 {
      assert Follows(jobs, chain[i - 1], chain[i]);
      ChainAcyclic(jobs, chain, i - 1, j - 1);
    }
  }

  /** Find runs along the chain to its end. */
  lemma {:induction false} FindIsEnd(jobs: Jobs, key: Key, generation: nat, previous: Option<nat>)
    requires Invariant(jobs) && generation <= MAX_EXPORT_REBUILD_GENERATIONS
    ensures match EndFrom(jobs, key, DEPTH - generation)
            case TooDeep => Find(jobs, key.payload, key, generation, previous) == Refused(HistoryTooDeep)
            case Free(k) => Find(jobs, key.payload, key, generation, previous).Vacant?
                            && Find(jobs, key.payload, key, generation, previous).key == k
            case Occupied(k) => k in jobs && Find(jobs, key.payload, key, generation, previous) == Hit(jobs[k])
    decreases DEPTH - generation
  {
    if key in jobs && Expired(jobs[key]) {
      if generation < MAX_EXPORT_REBUILD_GENERATIONS {
        FindIsEnd(jobs, Successor(jobs, key), generation + 1, Some(jobs[key].id));
      } else {
        assert EndFrom(jobs, Successor(jobs, key), 0) == TooDeep;
      }
    }
  }

  /** In a state that satisfies the invariant, enqueueing is decided by the end of the chain. */
  lemma EnqueuedByEnd(jobs: Jobs, payload: Payload, newId: nat, open: bool)
    requires Invariant(jobs)
    ensures match ChainEnd(jobs, payload)
            case TooDeep => Enqueued(jobs, payload, newId, open) == (jobs, Conflict(HistoryTooDeep))
            case Free(k) => k !in jobs && k.payload == payload
                            && Enqueued(jobs, payload, newId, open)
                               == if open then (jobs[k := NewJob(newId, payload)], Accepted(newId, true))
                                  else (jobs, Conflict(Unavailable))
            case Occupied(k) => k in jobs && Enqueued(jobs, payload, newId, open) == (jobs, Accepted(jobs[k].id, false))
  {
    hide Find, EndFrom, Invariant;
    FindIsEnd(jobs, Base(payload), 0, None);
    EndMeaning(jobs, Base(payload), DEPTH);
  }

  // ---------- the invariant over every run ----------

  datatype Step =
    | Enqueue(payload: Payload, newId: nat, open: bool)
    | Advance(key: Key, status: Status, complete: bool)
    | Expire(key: Key, at: int)

  /** What the environment may do: identities are fresh, and only complete artifacts expire, once. */
  predicate Enabled(jobs: Jobs, step: Step) {
    match step
    case Enqueue(_, newId, _) => forall k :: k in jobs ==> jobs[k].id != newId
    case Advance(key, _, _) => key in jobs && !Expired(jobs[key])
    case Expire(key, _) => key in jobs && jobs[key].status.Succeeded? && jobs[key].result.CompleteArtifact?
  }

  function Next(jobs: Jobs, step: Step): Jobs
    requires Enabled(jobs, step)
  {
    match step
    case Enqueue(payload, newId, open) => Enqueued(jobs, payload, newId, open).0
    case Advance(key, status, complete) =>
      jobs[key := jobs[key].(status := status, result := if complete then CompleteArtifact else NoResult)]
    case Expire(key, at) =>
      jobs[key := jobs[key].(result := ExpiredArtifact(jobs[key].id, jobs[key].payload.contentPackId, at))]
  }

  /** A job inserted at the free end of a chain extends that chain, and no other. */
  lemma {:induction false} ChainAfterInsert(jobs: Jobs, key: Key, fuel: nat, newKey: Key, job: Job)
    requires newKey !in jobs && !Expired(job)
    ensures var after, end := jobs[newKey := job], EndFrom(jobs, key, fuel);
            && ChainFrom(after, key, fuel) == ChainFrom(jobs, key, fuel) + (if end == Free(newKey) then [newKey] else [])
            && EndFrom(after, key, fuel) == if end == Free(newKey) then Occupied(newKey) else end
    decreases fuel
  {
    if fuel > 0 && key in jobs && Expired(jobs[key]) {
      ChainAfterInsert(jobs, Successor(jobs, key), fuel - 1, newKey, job);
    }
  }

  /** Changing a job that is not expired leaves every chain alone, unless a job already waits behind it. */
  lemma {:induction false} ChainAfterUpdate(jobs: Jobs, key: Key, fuel: nat, changed: Key, job: Job)
    requires changed in jobs && !Expired(jobs[changed])
    requires Expired(job) ==> Rebuild(changed.payload, job.id, job.result.expiredAt) !in jobs
    ensures ChainFrom(jobs[changed := job], key, fuel) == ChainFrom(jobs, key, fuel)
    ensures key.payload != changed.payload || !Expired(job) ==>
              EndFrom(jobs[changed := job], key, fuel) == EndFrom(jobs, key, fuel)
    decreases fuel
  {
    if fuel > 0 && key in jobs && Expired(jobs[key]) {
      ChainAfterUpdate(jobs, Successor(jobs, key), fuel - 1, changed, job);
    }
  }

  /** A rebuild key is only ever used for an expired job. */
  lemma RebuildNeedsExpiry(jobs: Jobs, key: Key)
    requires Invariant(jobs) && key in jobs && key.Rebuild?
    ensures exists k :: k in jobs && Expired(jobs[k]) && jobs[k].id == key.previousExportId
  {
    var chain := Chain(jobs, key.payload);
    ChainLinked(jobs, Base(key.payload), DEPTH);
    var i :| 0 <= i < |chain| && chain[i] == key;
    assert Follows(jobs, chain[i - 1], chain[i]);
  }

  lemma NothingWaitsBehind(jobs: Jobs, key: Key, at: int)
    requires Invariant(jobs) && key in jobs && !Expired(jobs[key])
    ensures Rebuild(key.payload, jobs[key].id, at) !in jobs
  {
    if Rebuild(key.payload, jobs[key].id, at) in jobs {
      RebuildNeedsExpiry(jobs, Rebuild(key.payload, jobs[key].id, at));
    }
  }

  lemma InvariantKept(jobs: Jobs, step: Step)
    requires Invariant(jobs) && Enabled(jobs, step)
    ensures Invariant(Next(jobs, step))
  {
    hide Invariant, Enqueued;
    match step
    case Enqueue(payload, newId, open) => EnqueueKeeps(jobs, payload, newId, open);
    case Advance(key, _, _) => UpdateKeeps(jobs, key, Next(jobs, step)[key]);
    case Expire(key, at) =>
      NothingWaitsBehind(jobs, key, at);
      UpdateKeeps(jobs, key, Next(jobs, step)[key]);
  }

  lemma EnqueueKeeps(jobs: Jobs, payload: Payload, newId: nat, open: bool)
    requires Invariant(jobs) && forall k :: k in jobs ==> jobs[k].id != newId
    ensures Invariant(Enqueued(jobs, payload, newId, open).0)
  {
    hide Enqueued, Chain, ChainEnd;
    EnqueuedByEnd(jobs, payload, newId, open);
    if ChainEnd(jobs, payload).Free? {
      InsertKeeps(jobs, payload, ChainEnd(jobs, payload).key, NewJob(newId, payload));
    }
  }

  lemma ChainGrows(jobs: Jobs, payload: Payload, key: Key, job: Job)
    requires key !in jobs && !Expired(job)
    ensures Chain(jobs[key := job], payload)
         == Chain(jobs, payload) + if ChainEnd(jobs, payload) == Free(key) then [key] else []
  {
    ChainAfterInsert(jobs, Base(payload), DEPTH, key, job);
  }

  lemma InsertKeeps(jobs: Jobs, payload: Payload, key: Key, job: Job)
    requires Invariant(jobs) && key !in jobs && ChainEnd(jobs, payload) == Free(key) && key.payload == payload
    requires !Expired(job) && job.buildsExport && job.payload == payload
    requires forall k :: k in jobs ==> jobs[k].id != job.id
    ensures Invariant(jobs[key := job])
  {
    hide Chain, ChainEnd;
    var after := jobs[key := job];
    forall k | k in after
      ensures k in Chain(after, k.payload)
    {
      ChainGrows(jobs, k.payload, key, job);
    }
  }

  lemma UpdateKeeps(jobs: Jobs, key: Key, job: Job)
    requires Invariant(jobs) && key in jobs && !Expired(jobs[key])
    requires job.id == jobs[key].id && job.payload == jobs[key].payload && job.buildsExport == jobs[key].buildsExport
    requires Expired(job) ==>
      && job.result.exportId == job.id && job.result.contentPackId == job.payload.contentPackId
      && Rebuild(key.payload, job.id, job.result.expiredAt) !in jobs
    ensures Invariant(jobs[key := job])
  {
    hide ChainFrom;
    forall k | k in jobs
      ensures k in Chain(jobs[key := job], k.payload)
    {
      ChainAfterUpdate(jobs, Base(k.payload), DEPTH, key, job);
    }
  }

  ghost predicate Run(states: seq<Jobs>, steps: seq<Step>) {
    && |states| == |steps| + 1
    && (forall i :: 0 <= i < |steps| ==> Enabled(states[i], steps[i]))
    && (forall i :: 0 <= i < |steps| ==> Next(states[i], steps[i]) == states[i + 1])
  }

  lemma {:induction false} InvariantOverRuns(states: seq<Jobs>, steps: seq<Step>, n: nat)
    requires Run(states, steps) && Invariant(states[0]) && n < |states|
    ensures Invariant(states[n])
  {
    hide Invariant, Enabled, Next;
    if n > 0 {
      InvariantOverRuns(states, steps, n - 1);
      InvariantKept(states[n - 1], steps[n - 1]);
      assert Next(states[n - 1], steps[n - 1]) == states[(n - 1) + 1];
    }
  }

  lemma NoJobsInvariant()
    ensures Invariant(map[])
  {}

  /** In every reachable state, the jobs of a payload are exactly one chain: at most 33, without repetition,
      every one but the last expired, so that at most one is live. */
  lemma OneChainPerPayload(states: seq<Jobs>, steps: seq<Step>, n: nat, payload: Payload)
    requires Run(states, steps) && states[0] == map[] && n < |states|
    ensures var jobs, chain := states[n], Chain(states[n], payload);
            && |chain| <= 33 && Linked(jobs, chain)
            && (forall i, j :: 0 <= i < j < |chain| ==> chain[i] != chain[j])
            && (forall k :: k in chain <==> k in jobs && jobs[k].payload == payload)
            && (forall k, l :: k in chain && l in chain && !Expired(jobs[k]) && !Expired(jobs[l]) ==> k == l)
  {
    hide Run, ChainFrom, EndFrom;
    assert Invariant(states[n]) by {
      NoJobsInvariant();
      InvariantOverRuns(states, steps, n);
    }
    var jobs, chain := states[n], Chain(states[n], payload);
    ChainLinked(jobs, Base(payload), DEPTH);
    EndMeaning(jobs, Base(payload), DEPTH);
    forall i, j | 0 <= i < j < |chain|
      ensures chain[i] != chain[j]
    {
      ChainAcyclic(jobs, chain, i, j);
    }
  }

  /** In a reachable state, enqueueing returns the job that has not expired, if there is one.  Otherwise it is
      refused exactly when 33 jobs have expired or no new job may pass, and else creates a job. */
  lemma EnqueueOutcome(jobs: Jobs, payload: Payload, newId: nat, open: bool)
    requires Invariant(jobs)
    ensures var chain, outcome := Chain(jobs, payload), Enqueued(jobs, payload, newId, open).1;
            if !AllExpired(jobs, chain) then
              exists k :: k in chain && !Expired(jobs[k]) && outcome == Accepted(jobs[k].id, false)
            else if |chain| == 33 then outcome == Conflict(HistoryTooDeep)
            else outcome == if open then Accepted(newId, true) else Conflict(Unavailable)
  {
    hide Enqueued, ChainFrom, EndFrom, Invariant;
    EnqueuedByEnd(jobs, payload, newId, open);
    EndMeaning(jobs, Base(payload), DEPTH);
  }

  // ---------- repeating a request ----------

  /** An accepted request leaves its job at the end of the chain. */
  lemma AcceptedIsAtEnd(jobs: Jobs, payload: Payload, newId: nat, open: bool)
    requires Invariant(jobs) && Enqueued(jobs, payload, newId, open).1.Accepted?
    ensures var (after, outcome) := Enqueued(jobs, payload, newId, open);
            var end := ChainEnd(after, payload);
            end.Occupied? && end.key in after && after[end.key].id == outcome.id
  {
    hide Enqueued, EndFrom, Invariant;
    EnqueuedByEnd(jobs, payload, newId, open);
    if ChainEnd(jobs, payload).Free? {
      ChainAfterInsert(jobs, Base(payload), DEPTH, ChainEnd(jobs, payload).key, NewJob(newId, payload));
    }
  }

  /** No step but an expiry of the payload's own job takes the job at the end away. */
  lemma EndKept(jobs: Jobs, step: Step, payload: Payload)
    requires Invariant(jobs) && Enabled(jobs, step) && ChainEnd(jobs, payload).Occupied?
    requires step.Expire? ==> step.key.payload != payload
    ensures ChainEnd(Next(jobs, step), payload) == ChainEnd(jobs, payload)
    ensures var k := ChainEnd(jobs, payload).key;
            k in jobs && k in Next(jobs, step) && Next(jobs, step)[k].id == jobs[k].id
  {
    hide Enqueued, EndFrom, ChainFrom, Invariant;
    EndMeaning(jobs, Base(payload), DEPTH);
    match step
    case Enqueue(other, newId, open) =>
      EnqueuedByEnd(jobs, other, newId, open);
      if ChainEnd(jobs, other).Free? {
        ChainAfterInsert(jobs, Base(payload), DEPTH, ChainEnd(jobs, other).key, NewJob(newId, other));
      }
    case Advance(k, _, _) => ChainAfterUpdate(jobs, Base(payload), DEPTH, k, Next(jobs, step)[k]);
    case Expire(k, at) =>
      NothingWaitsBehind(jobs, k, at);
      ChainAfterUpdate(jobs, Base(payload), DEPTH, k, Next(jobs, step)[k]);
  }

  lemma {:induction false} EndStays(states: seq<Jobs>, steps: seq<Step>, payload: Payload, n: nat)
    requires Run(states, steps) && Invariant(states[0]) && n < |states| && ChainEnd(states[0], payload).Occupied?
    requires forall i :: 0 <= i < |steps| && steps[i].Expire? ==> steps[i].key.payload != payload
    ensures ChainEnd(states[n], payload) == ChainEnd(states[0], payload)
    ensures var k := ChainEnd(states[0], payload).key;
            k in states[0] && k in states[n] && states[n][k].id == states[0][k].id
  {
    hide Invariant, Enabled, Next, ChainEnd;
    if n > 0 {
      EndStays(states, steps, payload, n - 1);
      InvariantOverRuns(states, steps, n - 1);
      EndKept(states[n - 1], steps[n - 1], payload);
      assert Next(states[n - 1], steps[n - 1]) == states[(n - 1) + 1];
    } else {
      EndMeaning(states[0], Base(payload), DEPTH);
      EndIsChainEnd(states[0], payload);
    }
  }

  lemma EndIsChainEnd(jobs: Jobs, payload: Payload)
    ensures EndFrom(jobs, Base(payload), DEPTH) == ChainEnd(jobs, payload)
  {}

  /** Without a new expiry of the payload, whatever else happens after an accepted request, repeating it
      returns the same job and creates none. */
  lemma RepeatedEnqueue(jobs: Jobs, payload: Payload, newId: nat, open: bool, states: seq<Jobs>, steps: seq<Step>,
                        again: nat, openAgain: bool)
    requires Invariant(jobs) && Enabled(jobs, Enqueue(payload, newId, open)) && Enqueued(jobs, payload, newId, open).1.Accepted?
    requires Run(states, steps) && states[0] == Enqueued(jobs, payload, newId, open).0
    requires forall i :: 0 <= i < |steps| && steps[i].Expire? ==> steps[i].key.payload != payload
    ensures Enqueued(states[|steps|], payload, again, openAgain)
         == (states[|steps|], Accepted(Enqueued(jobs, payload, newId, open).1.id, false))
  {
    hide Invariant, Enqueued, ChainEnd;
    AcceptedIsAtEnd(jobs, payload, newId, open);
    EnqueueKeeps(jobs, payload, newId, open);
    EndStays(states, steps, payload, |steps|);
    InvariantOverRuns(states, steps, |steps|);
    EnqueuedByEnd(states[|steps|], payload, again, openAgain);
  }

  // ---------- the same in plain terms ----------

  /** The search ends on the base key, or on the rebuild key of a succeeded job of the payload whose artifact
      expired; that job is the previous one. */
  ghost predicate Founded(jobs: Jobs, payload: Payload, key: Key, previous: Option<nat>) {
    match previous
    case None => key == Base(payload)
    case Some(id) =>
      exists k :: k in jobs && jobs[k].buildsExport && jobs[k].payload == payload && jobs[k].status == Succeeded
        && jobs[k].id == id && jobs[k].result.ExpiredArtifact?
        && key == Rebuild(payload, id, jobs[k].result.expiredAt)
  }

  lemma {:induction false} SearchFounded(jobs: Jobs, payload: Payload, key: Key, generation: nat, previous: Option<nat>)
    requires generation <= MAX_EXPORT_REBUILD_GENERATIONS && Founded(jobs, payload, key, previous)
    requires generation == 0 <==> previous.None?
    ensures var found := Find(jobs, payload, key, generation, previous);
            match found
            case Vacant(last, n, before) =>
              last !in jobs && generation <= n <= 32 && (n == 0 <==> before.None?) && Founded(jobs, payload, last, before)
            case Hit(job) =>
              job.buildsExport && job.payload == payload && !(job.status == Succeeded && job.result.ExpiredArtifact?)
              && exists k :: k in jobs && jobs[k] == job
            case Refused(why) => !why.Unavailable?
    decreases MAX_EXPORT_REBUILD_GENERATIONS + 1 - generation
  {
    if key in jobs {
      var step := ExpiredRebuild(jobs[key], payload);
      if step.Vacant? && generation < MAX_EXPORT_REBUILD_GENERATIONS {
        SearchFounded(jobs, payload, step.key, generation + 1, step.previous);
      }
    }
  }

  /** A rebuild is recorded with the job it replaces, the one its key was made from; a first build is not. */
  lemma PreviousPlainly(jobs: Jobs, payload: Payload)
    requires Find(jobs, payload, Base(payload), 0, None).Vacant?
    ensures var found := Find(jobs, payload, Base(payload), 0, None);
            && (found.key == Base(payload) <==> found.previous == None)
            && (found.key == Base(payload) <==> found.generation == 0)
            && (found.previous.Some? ==>
                  exists k :: k in jobs && jobs[k].id == found.previous.value && jobs[k].payload == payload
                    && jobs[k].status == Succeeded && jobs[k].result.ExpiredArtifact?
                    && found.key == Rebuild(payload, jobs[k].id, jobs[k].result.expiredAt))
  {
    SearchFounded(jobs, payload, Base(payload), 0, None);
    hide Find;
  }

  /** Its generation is the number of jobs of the payload that expired before it. */
  lemma {:induction false} GenerationIsLength(jobs: Jobs, key: Key, generation: nat, previous: Option<nat>)
    requires Invariant(jobs) && generation <= MAX_EXPORT_REBUILD_GENERATIONS
    requires Find(jobs, key.payload, key, generation, previous).Vacant?
    ensures Find(jobs, key.payload, key, generation, previous).generation
         == generation + |ChainFrom(jobs, key, DEPTH - generation)|
    decreases DEPTH - generation
  {
    if key in jobs {
      GenerationIsLength(jobs, Successor(jobs, key), generation + 1, Some(jobs[key].id));
    }
  }

  /** What a request answers and stores: a new queued job under an unused key, or a job of that payload whose artifact
      has not expired, or nothing. */
  lemma EnqueuedPlainly(jobs: Jobs, payload: Payload, newId: nat, open: bool)
    ensures var (after, outcome) := Enqueued(jobs, payload, newId, open);
            match outcome
            case Accepted(id, true) =>
              open && id == newId
              && exists key :: key !in jobs && after == jobs[key := Job(newId, true, payload, Queued, NoResult)]
            case Accepted(id, false) =>
              after == jobs
              && exists k :: k in jobs && jobs[k].id == id && jobs[k].buildsExport && jobs[k].payload == payload
                             && !(jobs[k].status == Succeeded && jobs[k].result.ExpiredArtifact?)
            case Conflict(why) => after == jobs && (why.Unavailable? ==> !open)
    ensures Base(payload) !in jobs && open ==>
              Enqueued(jobs, payload, newId, open).0 == jobs[Base(payload) := Job(newId, true, payload, Queued, NoResult)]
  {
    SearchFounded(jobs, payload, Base(payload), 0, None);
    var found := Find(jobs, payload, Base(payload), 0, None);
    assert Base(payload) !in jobs ==> found.Vacant? && found.key == Base(payload);
    hide Find, Founded;
    if found.Vacant? && open {
      assert found.key !in jobs && Enqueued(jobs, payload, newId, open).0 == jobs[found.key := Job(newId, true, payload, Queued, NoResult)];
    }
  }
}
