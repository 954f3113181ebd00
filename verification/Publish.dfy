/** Publication of a finished archive under its final name: copy, hard link, unlink, sync. */
module Publish {

  type Name = nat
  type Content = seq<nat>
  type Files = map<Name, Content>

  /** What is published, through which temporary file, under which name. */
  datatype Job = Job(source: Content, temporary: Name, final: Name)

  datatype Published = Completed | AlreadyExists | Broken

  /** A state of the directory.  `linked` says that this run has linked the file under the final name and not
      taken it back, `own` that this run's own step led here, and not another process. */
  datatype Moment = Moment(files: Files, linked: bool, own: bool)

  predicate Same(m: Files, n: Files, name: Name) {
    (name in m <==> name in n) && (name in m ==> m[name] == n[name])
  }

  /** A step of this run: what it puts under the final name is the whole archive, a file it did not link there
      stays as it is, and so do all other files but the temporary one. */
  ghost predicate OwnStep(job: Job, m: Moment, next: Moment) {
    && (job.final in next.files && !Same(m.files, next.files, job.final) ==> next.files[job.final] == job.source)
    && (job.final in m.files && !m.linked ==> !next.linked && Same(m.files, next.files, job.final))
    && (forall n :: n in m.files && n != job.temporary && n != job.final ==> Same(m.files, next.files, n))
  }

  /** A step of another process: it only adds files. */
  ghost predicate OtherStep(m: Moment, next: Moment) {
    && next.linked == m.linked
    && forall n :: n in m.files ==> Same(m.files, next.files, n)
  }

  ghost predicate Careful(job: Job, m: Moment, next: Moment) {
    if next.own then OwnStep(job, m, next) else OtherStep(m, next)
  }

  ghost predicate CarefulSince(job: Job, history: seq<Moment>, start: nat) {
    forall i, j :: start <= i && j == i + 1 && j < |history| ==> Careful(job, history[i], history[j])
  }

  /** The file that is under the final name in state j is the one another process put there, after state i. */
  ghost predicate PutByOther(job: Job, history: seq<Moment>, i: nat, j: nat)
    requires j < |history| && job.final in history[j].files
  {
    exists k :: i < k <= j && Arrived(job, history, k)
                && history[k].files[job.final] == history[j].files[job.final]
  }

  /** Another process's step brought a file under the final name. */
  ghost predicate Arrived(job: Job, history: seq<Moment>, k: nat) {
    && 0 < k < |history| && !history[k].own
    && job.final !in history[k - 1].files && job.final in history[k].files
  }

  /** Whatever is under the final name in state j is the whole archive, or was there in state i, or is somebody
      else's. */
  ghost predicate NeverPartial(job: Job, history: seq<Moment>, i: nat, j: nat)
    requires i <= j < |history|
  {
    job.final in history[j].files ==>
      || history[j].files[job.final] == job.source
      || Same(history[i].files, history[j].files, job.final)
      || PutByOther(job, history, i, j)
  }

  /** Over any number of steps: never partial, never over an existing file. */
  lemma {:induction false} CarefulThroughout(job: Job, history: seq<Moment>, i: nat, j: nat)
    requires CarefulSince(job, history, i) && i <= j < |history|
    ensures NeverPartial(job, history, i, j)
    ensures job.final in history[i].files && !history[i].linked ==>
              !history[j].linked && Same(history[i].files, history[j].files, job.final)
    ensures forall n :: n in history[i].files && n != job.temporary && n != job.final ==>
              Same(history[i].files, history[j].files, n)
  {
    if i < j {
      CarefulThroughout(job, history, i, j - 1);
      assert Careful(job, history[j - 1], history[j]);
      NeverPartialStep(job, history, i, j);
    }
  }

  /** In every state from the i-th on. */
  ghost predicate AlwaysWhole(job: Job, history: seq<Moment>, i: nat) {
    forall j :: i <= j < |history| ==> NeverPartial(job, history, i, j)
  }

  lemma AlwaysWholeSince(job: Job, history: seq<Moment>, i: nat)
    requires CarefulSince(job, history, i)
    ensures AlwaysWhole(job, history, i)
  {
    hide CarefulSince, NeverPartial;
    forall j | i <= j < |history| ensures NeverPartial(job, history, i, j) {
      CarefulThroughout(job, history, i, j);
    }
  }

  lemma NeverPartialStep(job: Job, history: seq<Moment>, i: nat, j: nat)
    requires i < j < |history| && Careful(job, history[j - 1], history[j]) && NeverPartial(job, history, i, j - 1)
    ensures NeverPartial(job, history, i, j)
  {
    if job.final in history[j].files && history[j].files[job.final] != job.source {
      if job.final !in history[j - 1].files {
        assert Arrived(job, history, j);
      } else if PutByOther(job, history, i, j - 1) {
        var k :| i < k <= j - 1 && Arrived(job, history, k)
                 && history[k].files[job.final] == history[j - 1].files[job.final];
        assert Same(history[j - 1].files, history[j].files, job.final);
      }
    }
  }

  /** The backup directory, shared with other processes.

      `fails` says which of the run's steps go wrong; `arrivals` which files other processes add just before
      a step.  Other processes never replace a file. */
  class ArchiveDirectory {
    const fails: nat -> bool
    const arrivals: nat -> Files
    var clock: nat
    var files: Files
    var linked: bool
    ghost var history: seq<Moment>

    ghost predicate Valid()
      reads this
    {
      history != [] && history[|history| - 1].files == files && history[|history| - 1].linked == linked
    }

    constructor (fails: nat -> bool, arrivals: nat -> Files, files: Files)
      ensures Valid() && this.files == files && !linked && |history| == 1
      ensures this.fails == fails && this.arrivals == arrivals
    {
      this.fails, this.arrivals, this.files := fails, arrivals, files;
      clock, linked, history := 0, false, [Moment(files, false, false)];
    }

    /** This run's own file, while it is there, is the whole archive. */
    ghost predicate Owned(job: Job)
      reads this
    {
      Valid() && job.temporary != job.final && (linked ==> job.final in files && files[job.final] == job.source)
    }

    /** Every state after `start` follows from the one before it by a careful step. */
    ghost predicate Steady(job: Job, start: seq<Moment>)
      reads this
    {
      start != [] && start <= history && CarefulSince(job, history, |start| - 1)
    }

    /** Since `start` no partial file of this run was ever under the final name, and nobody's file was lost. */
    ghost predicate Undamaged(job: Job, start: seq<Moment>)
      reads this
    {
      Valid() && Steady(job, start) && AlwaysWhole(job, history, |start| - 1)
    }

    /** Before anything happens. */
    lemma UndamagedAtFirst(job: Job)
      requires Valid()
      ensures Undamaged(job, history)
    {
      AlwaysWholeSince(job, history, |history| - 1);
    }

    /** In every state since then: a file that was there is still there, whoever made it; and under the final name there
        is otherwise the whole archive, or a file that another process put there. */
    lemma UndamagedPlainly(job: Job, start: seq<Moment>, j: nat)
      requires Undamaged(job, start) && !start[|start| - 1].linked && |start| <= j < |history|
      ensures var first, now := start[|start| - 1].files, history[j].files;
              && (forall n :: n in first && n != job.temporary ==> n in now && now[n] == first[n])
              && (job.final in now && job.final !in first && now[job.final] != job.source ==>
                    exists k :: |start| <= k <= j && !history[k].own && job.final !in history[k - 1].files
                      && job.final in history[k].files && history[k].files[job.final] == now[job.final])
    {
      assert history[|start| - 1] == start[|start| - 1];
      CarefulThroughout(job, history, |start| - 1, j);
      hide CarefulSince;
      assert NeverPartial(job, history, |start| - 1, j);
    }

    /** No step fails, and nobody else puts a file under the final name. */
    ghost predicate Undisturbed(job: Job) {
      forall n {:trigger fails(n)} {:trigger arrivals(n)} :: !fails(n) && job.final !in arrivals(n)
    }

    lemma UndisturbedNow(job: Job, n: nat)
      ensures Undisturbed(job) ==> !fails(n) && job.final !in arrivals(n)
    {}

    /** Others may add files, and the step about to be taken may fail. */
    method Tick(job: Job, ghost start: seq<Moment>) returns (ok: bool)
      requires Owned(job) && Steady(job, start)
      modifies `clock, `files, `history
      ensures Owned(job) && Steady(job, start) && |history| == |old(history)| + 1
      ensures forall n :: n in old(files) ==> n in files && files[n] == old(files)[n]
      ensures job.temporary in files ==> job.temporary in old(files)
      ensures clock == old(clock) + 1 && (ok <==> !fails(old(clock)))
      ensures Undisturbed(job) ==> ok && (job.final in files ==> job.final in old(files))
    {
      UndisturbedNow(job, clock);
      hide Undisturbed;
      files := (arrivals(clock) - {job.temporary}) + files;
      ok := !fails(clock);
      clock := clock + 1;
      history := history + [Moment(files, linked, false)];
    }

    /** One change of the directory by this process. */
    method Change(job: Job, ghost start: seq<Moment>, next: Files, mine: bool)
      requires Owned(job) && Steady(job, start)
      requires OwnStep(job, history[|history| - 1], Moment(next, mine, true))
      requires mine ==> job.final in next
      modifies `files, `linked, `history
      ensures Owned(job) && Steady(job, start) && |history| == |old(history)| + 1 && files == next && linked == mine
    {
      files, linked := next, mine;
      history := history + [Moment(files, linked, true)];
    }

    /** Copies the archive into the temporary file, chunk by chunk. */
    method Copy(job: Job, ghost start: seq<Moment>) returns (ok: bool)
      requires Owned(job) && Steady(job, start) && job.temporary in files && !linked
      modifies `clock, `files, `linked, `history
      ensures Owned(job) && Steady(job, start) && |history| >= |old(history)| && !linked && job.temporary in files
      ensures ok ==> files[job.temporary] == job.source
      ensures clock >= old(clock) && (!ok ==> exists n :: old(clock) <= n < clock && fails(n))
      ensures Undisturbed(job) ==> ok && (job.final in files ==> job.final in old(files))
    {
      hide Undisturbed, Steady;
      Change(job, start, files[job.temporary := []], false);
      var written := 0;
      while written < |job.source|
        invariant written <= |job.source|
        invariant Owned(job) && Steady(job, start) && |history| >= |old(history)| && !linked
        invariant job.temporary in files && files[job.temporary] == job.source[..written]
        invariant clock >= old(clock)
        invariant Undisturbed(job) && job.final in files ==> job.final in old(files)
      {
        var fine := Tick(job, start);
        if !fine { return false; }
        assert job.source[..written + 1] == job.source[..written] + [job.source[written]];
        Change(job, start, files[job.temporary := files[job.temporary] + [job.source[written]]], false);
        written := written + 1;
      }
      assert job.source[..written] == job.source;
      ok := Tick(job, start);
    }

    /** Up to the finished copy: sync, chmod, copy, flush. */
    method WriteCopy(job: Job, ghost start: seq<Moment>) returns (ok: bool)
      requires Owned(job) && Steady(job, start) && job.temporary in files && !linked
      modifies `clock, `files, `linked, `history
      ensures Owned(job) && Steady(job, start) && |history| >= |old(history)| && !linked && job.temporary in files
      ensures ok ==> files[job.temporary] == job.source
      ensures clock >= old(clock) && (!ok ==> exists n :: old(clock) <= n < clock && fails(n))
      ensures Undisturbed(job) ==> ok && (job.final in files ==> job.final in old(files))
    {
      hide Undisturbed, Steady;
      ok := Tick(job, start);
      if !ok { return; }
      ok := Copy(job, start);
      if !ok { return; }
      ok := Tick(job, start);
    }

    /** The try block: the copy, link, unlink, sync. */
    method Attempt(job: Job, ghost start: seq<Moment>) returns (result: Published)
      requires Owned(job) && Steady(job, start) && job.temporary in files && !linked
      modifies `clock, `files, `linked, `history
      ensures Owned(job) && Steady(job, start) && |history| >= |old(history)|
      ensures result.Completed? ==> linked && job.temporary !in files
      ensures result.AlreadyExists? ==> !linked && job.final in files
      ensures clock >= old(clock) && (result.Broken? ==> exists n :: old(clock) <= n < clock && fails(n))
      ensures Undisturbed(job) && job.final !in old(files) ==> result.Completed?
    {
      hide Undisturbed, Steady;
      var ok := WriteCopy(job, start);
      if !ok { return Broken; }
      if job.final in files { return AlreadyExists; }
      Change(job, start, files[job.final := files[job.temporary]], true);
      ok := Tick(job, start);
      if !ok { return Broken; }
      Change(job, start, files - {job.temporary}, true);
      ok := Tick(job, start);
      return if ok then Completed else Broken;
    }

    /** The exception handler takes the published file back, if it can. */
    method Retract(job: Job, ghost start: seq<Moment>)
      requires Owned(job) && Steady(job, start)
      modifies `clock, `files, `linked, `history
      ensures Owned(job) && Steady(job, start) && |history| >= |old(history)| && (linked ==> old(linked))
      ensures clock == old(clock) + 1 && (old(linked) && !fails(old(clock)) ==> !linked && job.final !in files)
    {
      var ok := Tick(job, start);
      if linked && ok {
        Change(job, start, files - {job.final}, false);
      }
    }

    /** The exception handlers: a broken attempt is retracted. */
    method AttemptOrRetract(job: Job, ghost start: seq<Moment>) returns (result: Published)
      requires Owned(job) && Steady(job, start) && job.temporary in files && !linked
      modifies `clock, `files, `linked, `history
      ensures Owned(job) && Steady(job, start) && |history| >= |old(history)| && clock >= old(clock)
      ensures result.Completed? ==> linked && job.temporary !in files
      ensures result.AlreadyExists? ==> !linked && job.final in files
      ensures result.Broken? && linked ==> exists m: nat, n: nat :: old(clock) <= m < n < clock && fails(m) && fails(n)
      ensures Undisturbed(job) && job.final !in old(files) ==> result.Completed?
    {
      hide Steady, Undisturbed;
      result := Attempt(job, start);
      if result.Broken? {
        Retract(job, start);
      }
    }

    /** The whole statement: the temporary file is removed in the end. */
    method AttemptAndClean(job: Job, ghost start: seq<Moment>) returns (result: Published)
      requires Owned(job) && Steady(job, start) && job.temporary !in files && !linked
      modifies `clock, `files, `linked, `history
      ensures Owned(job) && Steady(job, start) && |history| > |old(history)|
      ensures result.Completed? ==> linked && job.temporary !in files
      ensures result.AlreadyExists? ==> !linked && job.final in files
      ensures result != Broken ==> job.temporary !in files
      ensures clock >= old(clock)
      ensures result.Broken? && linked ==> exists m: nat, n: nat :: old(clock) <= m < n < clock && fails(m) && fails(n)
      ensures Undisturbed(job) && job.final !in old(files) ==> result.Completed?
    {
      hide Steady, Undisturbed;
      Change(job, start, files[job.temporary := []], false);
      result := AttemptOrRetract(job, start);
      if job.temporary in files {
        var ok := Tick(job, start);
        if !ok { return Broken; }
        Change(job, start, files - {job.temporary}, linked);
      }
    }

    /** _publish_archive.  mkstemp makes a temporary name that is not in use. */
    method PublishArchive(job: Job) returns (result: Published)
      requires Valid() && !linked && job.temporary !in files && job.temporary != job.final
      modifies `clock, `files, `linked, `history
      ensures Undamaged(job, old(history))
      ensures result.Completed? ==> linked && job.final in files && files[job.final] == job.source
                                    && job.temporary !in files
      ensures result.AlreadyExists? ==> !linked && job.final in files
      ensures result != Broken ==> job.temporary !in files
      ensures result.Broken? && linked ==> exists m: nat, n: nat :: old(clock) <= m < n < clock && fails(m) && fails(n)
      ensures job.final !in old(files)
              && (forall n {:trigger fails(n)} {:trigger arrivals(n)} :: !fails(n) && job.final !in arrivals(n))
        ==> result == Completed
      ensures job.final in old(files) ==> result != Completed && job.final in files && files[job.final] == old(files)[job.final]
      ensures forall n :: n in old(files) && n != job.final ==> n in files && files[n] == old(files)[n]
    {
      hide Careful, NeverPartial;
      ghost var start := history;
      var ok := Tick(job, start);
      if ok {
        result := AttemptAndClean(job, start);
      } else {
        result := Broken;
      }
      CarefulThroughout(job, history, |start| - 1, |history| - 1);
      AlwaysWholeSince(job, history, |start| - 1);
    }
  }
}
