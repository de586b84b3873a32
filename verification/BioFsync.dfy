/** The AOF worker thread (bio.c with aof.c, policy everysec): the main thread writes and
    switches files while one worker fsyncs and closes them and publishes the replication
    offset that is on disk. Every interleaving of their steps is a run of one state machine. */
module BioFsync {

  datatype JobKind = AofFsync | CloseAof

  /** A queued job. `file` records what the descriptor stood for when the job was queued;
      the worker only uses the descriptor. */
  datatype Job = Job(kind: JobKind, fd: int, offset: nat, file: nat)

  /** A file's entries, each named by the replication offset it was fed at, and how many of
      them are on stable storage. */
  datatype File = File(entries: seq<nat>, synced: nat)

  /** Where the worker stands with the first job of the queue. */
  datatype Worker = Waiting | Taken | Synced | Published | Closed | SyncFailed

  datatype State = State(
    files: map<nat, File>, fds: map<int, nat>, nextFile: nat,
    curFd: int, buf: seq<nat>, offset: nat,                 // main thread
    jobs: seq<Job>, counters: map<JobKind, int>,            // shared under the mutex
    worker: Worker, published: nat,                         // fsynced_reploff_pending
    lost: set<nat>)                                         // files whose last fsync failed

  const START := State(map[0 := File([], 0)], map[3 := 0], 1, 3, [], 0, [],
                       map[AofFsync := 0, CloseAof := 0], Waiting, 0, {})

  datatype Event =
    | Feed(length: nat, inAof: bool)
    | Write(n: nat)
    | SubmitFsync
    | Switch(newFd: int)
    | TakeJob
    | FsyncJob
    | FsyncFails
    | PublishOffset
    | CloseJob
    | FinishJob

  /** `bioSubmitJob` for the AOF worker. */
  function Submit(s: State, job: Job): State
    requires job.kind in s.counters
  {
    s.(jobs := s.jobs + [job], counters := s.counters[job.kind := s.counters[job.kind] + 1])
  }

  function FileOf(s: State, fd: int): nat {
    if fd in s.fds then s.fds[fd] else 0
  }

  /** A command reaches the replication stream and, when it is to be logged, the AOF buffer. */
  function DoFeed(s: State, length: nat, inAof: bool): State {
    s.(buf := if inAof then s.buf + [s.offset] else s.buf, offset := s.offset + length)
  }

  function DoWrite(s: State, n: nat): State
    requires n <= |s.buf| && FileOf(s, s.curFd) in s.files
  {
    var f := FileOf(s, s.curFd);
    s.(files := s.files[f := s.files[f].(entries := s.files[f].entries + s.buf[..n])], buf := s.buf[n..])
  }

  /** `openNewIncrAofForAppend`: any free descriptor, even one a closed file had. */
  function DoSwitch(s: State, newFd: int): State
    requires CloseAof in s.counters
  {
    Submit(s.(files := s.files[s.nextFile := File([], 0)], fds := s.fds[newFd := s.nextFile],
              nextFile := s.nextFile + 1, curFd := newFd),
           Job(CloseAof, s.curFd, s.offset, FileOf(s, s.curFd)))
  }

  /** fsync on a descriptor: what the file holds now is on disk. A closed descriptor is
      ignored, as the worker ignores EBADF. */
  function DoFsync(s: State): State
    requires s.jobs != []
  {
    var fd := s.jobs[0].fd;
    var s1 := s.(worker := Synced);
    if fd in s.fds && s.fds[fd] in s.files then
      var f := s.fds[fd];
      s1.(files := s.files[f := s.files[f].(synced := |s.files[f].entries|)])
    else s1
  }

  /** fsync fails. A file that is then closed is never synced again. */
  function DoFail(s: State): State
    requires s.jobs != []
  {
    s.(worker := SyncFailed, lost := if s.jobs[0].kind == CloseAof then s.lost + {s.jobs[0].file} else s.lost)
  }

  predicate Busy(s: State) { s.jobs != [] && s.worker != Waiting }

  /** One event; an event that is not possible in the state changes nothing. */
  function Step(s: State, e: Event): State {
    match e
    case Feed(length, inAof) => DoFeed(s, length, inAof)
    case Write(n) => if n <= |s.buf| && FileOf(s, s.curFd) in s.files then DoWrite(s, n) else s
    case SubmitFsync =>
      // flushAppendOnlyFile at try_fsync: the buffer is empty and no fsync is pending
      if s.buf == [] && AofFsync in s.counters && s.counters[AofFsync] == 0 then
        Submit(s, Job(AofFsync, s.curFd, s.offset, FileOf(s, s.curFd)))
      else s
    case Switch(newFd) => if newFd !in s.fds && CloseAof in s.counters then DoSwitch(s, newFd) else s
    case TakeJob => if s.jobs != [] && s.worker == Waiting then s.(worker := Taken) else s
    case FsyncJob => if Busy(s) && s.worker == Taken then DoFsync(s) else s
    case FsyncFails => if Busy(s) && s.worker == Taken then DoFail(s) else s
    case PublishOffset =>
      if Busy(s) && s.worker == Synced then s.(published := s.jobs[0].offset, worker := Published) else s
    case CloseJob =>
      if Busy(s) && (s.worker == Published || s.worker == SyncFailed) && s.jobs[0].kind == CloseAof then
        s.(fds := s.fds - {s.jobs[0].fd}, worker := Closed)
      else s
    case FinishJob =>
      if Busy(s) && s.jobs[0].kind in s.counters
         && (s.worker == Closed || (s.jobs[0].kind == AofFsync && (s.worker == Published || s.worker == SyncFailed)))
      then s.(jobs := s.jobs[1..], worker := Waiting,
              counters := s.counters[s.jobs[0].kind := s.counters[s.jobs[0].kind] - 1])
      else s
  }

  function Run(s: State, events: seq<Event>): State
    decreases events
  {
    if events == [] then s else Run(Step(s, events[0]), events[1..])
  }

  // ---------- What is claimed ----------

  /** Everything fed before the published offset is on stable storage: what is not (still in
      the buffer, or in a file past its synced part) was fed at that offset or later. */
  ghost predicate Sound(s: State) {
    && (forall i :: 0 <= i < |s.buf| ==> s.buf[i] >= s.published)
    && (forall f, i :: f in s.files && s.files[f].synced <= i < |s.files[f].entries| ==>
          s.files[f].entries[i] >= s.published)
  }

  /** The same, but for files whose last fsync failed. */
  ghost predicate SoundButLost(s: State) {
    && (forall i :: 0 <= i < |s.buf| ==> s.buf[i] >= s.published)
    && (forall f, i :: f in s.files && f !in s.lost && s.files[f].synced <= i < |s.files[f].entries| ==>
          s.files[f].entries[i] >= s.published)
  }

  /** No lost file has an unsynced entry from before `offset`. */
  ghost predicate NothingLostBefore(s: State, offset: nat) {
    forall f, i :: f in s.files && f in s.lost && s.files[f].synced <= i < |s.files[f].entries| ==>
      s.files[f].entries[i] >= offset
  }

  // ---------- The invariant ----------

  function Count(jobs: seq<Job>, kind: JobKind): nat {
    if jobs == [] then 0 else (if jobs[0].kind == kind then 1 else 0) + Count(jobs[1..], kind)
  }

  /** The descriptor table: it leads to known files, no file twice, numbered below `nextFile`. */
  ghost predicate Descriptors(s: State) {
    && s.curFd in s.fds
    && (forall fd :: fd in s.fds ==> s.fds[fd] in s.files)
    && (forall a, b :: a in s.fds && b in s.fds && s.fds[a] == s.fds[b] ==> a == b)
    && (forall f :: f in s.files ==> f < s.nextFile && s.files[f].synced <= |s.files[f].entries|)
  }

  /** Job `i` has not yet released its descriptor. */
  predicate Holds(s: State, i: nat) { i > 0 || s.worker != Closed }

  /** Job `i` has not yet done its fsync. */
  predicate WillSync(s: State, i: nat) { i > 0 || s.worker == Waiting || s.worker == Taken }

  /** Job `i` can still publish its offset. */
  predicate WillPublish(s: State, i: nat) { i > 0 || (s.worker != SyncFailed && s.worker != Closed) }

  /** The file of the job behind job `i`, or the one being written. */
  function NextFile(s: State, i: nat): nat {
    if i + 1 < |s.jobs| then s.jobs[i + 1].file else FileOf(s, s.curFd)
  }

  ghost predicate Progress(s: State) {
    && (s.jobs == [] ==> s.worker == Waiting)
    && (s.worker == Closed ==> s.jobs[0].kind == CloseAof)
  }

  /** First in, first out: offsets grow along the queue. */
  ghost predicate Offsets(s: State) {
    && (forall i :: 0 <= i < |s.jobs| ==> s.published <= s.jobs[i].offset <= s.offset)
    && (forall i, j :: 0 <= i < j < |s.jobs| ==> s.jobs[i].offset <= s.jobs[j].offset)
    && s.published <= s.offset
  }

  /** A queued descriptor still stands for the file it was queued for, and nothing is queued for
      it behind its close. */
  ghost predicate Held(s: State) {
    && (forall i :: 0 <= i < |s.jobs| && Holds(s, i) ==> s.jobs[i].fd in s.fds && s.fds[s.jobs[i].fd] == s.jobs[i].file)
    && (forall i, j :: 0 <= i < j < |s.jobs| && s.jobs[i].kind == CloseAof && Holds(s, i) ==> s.jobs[j].fd != s.jobs[i].fd)
    && (forall i :: 0 <= i < |s.jobs| && s.jobs[i].kind == CloseAof && Holds(s, i) ==> s.jobs[i].fd != s.curFd)
  }

  /** Behind an fsync of a file comes another job for that file, or it is still the file being
      written. */
  ghost predicate Chained(s: State) {
    forall i :: 0 <= i < |s.jobs| && s.jobs[i].kind == AofFsync ==> NextFile(s, i) == s.jobs[i].file
  }

  ghost predicate Queue(s: State) {
    Progress(s) && Offsets(s) && Held(s) && Chained(s)
  }

  ghost predicate Counters(s: State) {
    forall kind: JobKind :: kind in s.counters && s.counters[kind] == Count(s.jobs, kind)
  }

  /** Some job up to `j` will still sync file `f`. */
  ghost predicate Promised(s: State, f: nat, j: nat) {
    exists i :: 0 <= i <= j && i < |s.jobs| && s.jobs[i].file == f && WillSync(s, i)
  }

  /** An entry fed at `x` that is in file `f` but not on disk: a file that is no longer
      written is promised, and every job that can publish above `x` comes no earlier than a promise. */
  ghost predicate Covered(s: State, f: nat, x: nat) {
    && x <= s.offset && x >= s.published
    && (f != FileOf(s, s.curFd) ==> Promised(s, f, |s.jobs|))
    && forall j :: 0 <= j < |s.jobs| && x < s.jobs[j].offset && WillPublish(s, j) ==> Promised(s, f, j)
  }

  ghost predicate Coverage(s: State) {
    && (forall i :: 0 <= i < |s.buf| ==> s.published <= s.buf[i] <= s.offset)
    && (forall i, j :: 0 <= i < |s.buf| && 0 <= j < |s.jobs| ==> s.buf[i] >= s.jobs[j].offset)
    && (forall f, i :: f in s.files && f !in s.lost && s.files[f].synced <= i < |s.files[f].entries| ==>
          Covered(s, f, s.files[f].entries[i]))
  }

  ghost predicate Inv(s: State) {
    Descriptors(s) && Queue(s) && Counters(s) && Coverage(s)
  }

  /** No entry still in the buffer was fed before the current offset; an empty buffer is enough. */
  predicate NothingOlder(s: State) { forall i :: 0 <= i < |s.buf| ==> s.buf[i] >= s.offset }

  // ---------- Every step keeps it ----------

  lemma {:induction false} CountMore(jobs: seq<Job>, job: Job, kind: JobKind)
    ensures Count(jobs + [job], kind) == Count(jobs, kind) + if job.kind == kind then 1 else 0
  {
    if jobs == [] {
      assert jobs + [job] == [job] && [job][1..] == [];
    } else {
      assert (jobs + [job])[1..] == jobs[1..] + [job];
      CountMore(jobs[1..], job, kind);
    }
  }

  lemma PromisedMore(s: State, s': State, f: nat, j: nat)
    requires Promised(s, f, j) && s.jobs <= s'.jobs && s'.worker == s.worker
    ensures Promised(s', f, j)
  {
    var i :| 0 <= i <= j && i < |s.jobs| && s.jobs[i].file == f && WillSync(s, i);
    assert s'.jobs[i] == s.jobs[i] && WillSync(s', i);
  }

  /** More jobs, a later offset: what was covered stays covered. */
  lemma CoveredMore(s: State, s': State, f: nat, x: nat)
    requires Covered(s, f, x) && s'.worker == s.worker && s.jobs <= s'.jobs
    requires s'.published == s.published && s.offset <= s'.offset
    requires FileOf(s', s'.curFd) == FileOf(s, s.curFd) || Promised(s', f, |s'.jobs|)
    requires forall j :: |s.jobs| <= j < |s'.jobs| && x < s'.jobs[j].offset ==> Promised(s', f, j)
    ensures Covered(s', f, x)
  {
    forall j: nat | Promised(s, f, j) ensures Promised(s', f, j) { PromisedMore(s, s', f, j); }
    if f != FileOf(s', s'.curFd) && FileOf(s', s'.curFd) == FileOf(s, s.curFd) {
      PromisedLater(s', f, |s.jobs|, |s'.jobs|);
    }
    forall j | 0 <= j < |s'.jobs| && x < s'.jobs[j].offset && WillPublish(s', j) ensures Promised(s', f, j) {
      if j < |s.jobs| { assert s'.jobs[j] == s.jobs[j]; }
    }
  }

  lemma PromisedLater(s: State, f: nat, j: nat, k: nat)
    requires Promised(s, f, j) && j <= k
    ensures Promised(s, f, k)
  {
  }

  lemma ChainedSame(s: State, s': State)
    requires Chained(s) && s'.jobs == s.jobs && FileOf(s', s'.curFd) == FileOf(s, s.curFd)
    ensures Chained(s')
  {
    assert forall i :: 0 <= i < |s.jobs| ==> NextFile(s', i) == NextFile(s, i);
  }

  lemma HeldSame(s: State, s': State)
    requires Held(s) && s'.jobs == s.jobs && s'.fds == s.fds && s'.curFd == s.curFd
    requires s'.worker == Closed <==> s.worker == Closed
    ensures Held(s')
  {
    assert forall i: nat :: Holds(s', i) == Holds(s, i);
  }

  lemma FeedKeeps(s: State, length: nat, inAof: bool)
    requires Inv(s)
    ensures Inv(DoFeed(s, length, inAof))
  {
    hide Count, Covered, Promised, Chained, Held;
    var s' := DoFeed(s, length, inAof);
    ChainedSame(s, s');
    HeldSame(s, s');
    forall f, i | f in s'.files && f !in s'.lost && s'.files[f].synced <= i < |s'.files[f].entries|
      ensures Covered(s', f, s'.files[f].entries[i])
    {
      CoveredMore(s, s', f, s.files[f].entries[i]);
    }
  }

  lemma WriteKeeps(s: State, n: nat)
    requires Inv(s) && n <= |s.buf|
    ensures Inv(DoWrite(s, n))
  {
    hide Count, Promised, Chained, Held;
    var s' := DoWrite(s, n);
    ChainedSame(s, s');
    HeldSame(s, s');
    var cur := FileOf(s, s.curFd);
    forall f, i | f in s'.files && f !in s'.lost && s'.files[f].synced <= i < |s'.files[f].entries|
      ensures Covered(s', f, s'.files[f].entries[i])
    {
      if f == cur && i >= |s.files[f].entries| {
        assert s'.files[f].entries[i] == s.buf[i - |s.files[f].entries|];
      } else {
        assert s'.files[f].entries[i] == s.files[f].entries[i];
        CoveredMore(s, s', f, s.files[f].entries[i]);
      }
    }
  }

  /** A job queued behind the others with an empty buffer: what it covers is already promised,
      or is in the file it is for. */
  lemma SubmitCovers(s: State, s': State, job: Job, f: nat, x: nat)
    requires Covered(s, f, x) && Queue(s) && job.file == FileOf(s, s.curFd)
    requires s'.jobs == s.jobs + [job] && s'.worker == s.worker
    requires s'.published == s.published && s'.offset == s.offset
    requires FileOf(s', s'.curFd) == FileOf(s, s.curFd) || job.file == FileOf(s, s.curFd)
    ensures Promised(s', f, |s.jobs|) && Covered(s', f, x)
  {
    hide Count;
    assert WillSync(s', |s.jobs|);
    if f == job.file {
      assert s'.jobs[|s.jobs|].file == f;
    } else {
      PromisedMore(s, s', f, |s.jobs|);
    }
    PromisedLater(s', f, |s.jobs|, |s'.jobs|);
    CoveredMore(s, s', f, x);
  }

  lemma SubmitCounts(s: State, job: Job)
    requires Counters(s)
    ensures Counters(Submit(s, job))
  {
    forall kind: JobKind
      ensures kind in Submit(s, job).counters && Submit(s, job).counters[kind] == Count(s.jobs + [job], kind)
    {
      CountMore(s.jobs, job, kind);
    }
  }

  /** A job for the file being written keeps the order of the queue. */
  lemma SubmitNext(s: State, s': State, job: Job)
    requires Chained(s) && s'.jobs == s.jobs + [job] && job.file == FileOf(s, s.curFd)
    requires job.kind == AofFsync ==> FileOf(s', s'.curFd) == job.file
    ensures Chained(s')
  {
    forall i | 0 <= i < |s'.jobs| && s'.jobs[i].kind == AofFsync ensures NextFile(s', i) == s'.jobs[i].file {
      if i < |s.jobs| { assert s'.jobs[i] == s.jobs[i] && NextFile(s', i) == NextFile(s, i); }
    }
  }

  lemma SubmitHeld(s: State, s': State, job: Job)
    requires Held(s) && Descriptors(s) && s'.jobs == s.jobs + [job] && s'.worker == s.worker
    requires job.fd == s.curFd && job.file == FileOf(s, s.curFd)
    requires s'.curFd in s'.fds && forall fd :: fd in s.fds ==> fd in s'.fds && s'.fds[fd] == s.fds[fd]
    requires s'.curFd == s.curFd || s'.curFd !in s.fds
    requires job.kind == CloseAof ==> s'.curFd != s.curFd
    requires s.jobs == [] ==> s.worker == Waiting
    ensures Held(s')
  {
    var n := |s.jobs|;
    assert s'.jobs[n] == job && forall i :: 0 <= i < n ==> s'.jobs[i] == s.jobs[i];
    assert forall i: nat :: Holds(s', i) == Holds(s, i);
    hide Holds;
  }

  lemma SubmitFsyncKeeps(s: State)
    requires Inv(s) && s.buf == []
    ensures Inv(Submit(s, Job(AofFsync, s.curFd, s.offset, FileOf(s, s.curFd))))
  {
    hide Count, Covered, Promised, Chained, Held;
    var job := Job(AofFsync, s.curFd, s.offset, FileOf(s, s.curFd));
    var s' := Submit(s, job);
    SubmitNext(s, s', job);
    SubmitHeld(s, s', job);
    SubmitCounts(s, job);
    forall f, i | f in s'.files && f !in s'.lost && s'.files[f].synced <= i < |s'.files[f].entries|
      ensures Covered(s', f, s'.files[f].entries[i])
    {
      SubmitCovers(s, s', job, f, s.files[f].entries[i]);
    }
  }

  lemma SwitchKeeps(s: State, newFd: int)
    requires Inv(s) && newFd !in s.fds && NothingOlder(s)
    ensures Inv(DoSwitch(s, newFd))
  {
    hide Count, Covered, Promised, Chained, Held;
    var job := Job(CloseAof, s.curFd, s.offset, FileOf(s, s.curFd));
    var s' := DoSwitch(s, newFd);
    SubmitNext(s, s', job);
    SubmitHeld(s, s', job);
    SubmitCounts(s, job);
    forall f, i | f in s'.files && f !in s'.lost && s'.files[f].synced <= i < |s'.files[f].entries|
      ensures Covered(s', f, s'.files[f].entries[i])
    {
      assert f in s.files && s'.files[f] == s.files[f];
      SubmitCovers(s, s', job, f, s.files[f].entries[i]);
    }
  }

  /** The worker moves on: promises of jobs that still have their fsync ahead remain. */
  lemma CoveredSame(s: State, s': State, f: nat, x: nat)
    requires Covered(s, f, x) && s'.jobs == s.jobs && FileOf(s', s'.curFd) == FileOf(s, s.curFd)
    requires s'.published == s.published && s'.offset == s.offset
    requires WillPublish(s', 0) ==> WillPublish(s, 0)
    requires forall i :: 0 <= i < |s.jobs| && s.jobs[i].file == f && WillSync(s, i) ==> WillSync(s', i)
    ensures Covered(s', f, x)
  {
    forall j: nat | Promised(s, f, j) ensures Promised(s', f, j) {
      var i :| 0 <= i <= j && i < |s.jobs| && s.jobs[i].file == f && WillSync(s, i);
      assert WillSync(s', i);
    }
  }

  lemma TakeKeeps(s: State)
    requires Inv(s)
    ensures Inv(Step(s, TakeJob))
  {
    hide Count, Covered, Chained, Held;
    var s' := Step(s, TakeJob);
    ChainedSame(s, s');
    HeldSame(s, s');
    forall f, i | f in s'.files && f !in s'.lost && s'.files[f].synced <= i < |s'.files[f].entries|
      ensures Covered(s', f, s'.files[f].entries[i])
    {
      CoveredSame(s, s', f, s.files[f].entries[i]);
    }
  }

  lemma FsyncKeeps(s: State)
    requires Inv(s) && Busy(s) && s.worker == Taken
    ensures Inv(DoFsync(s))
  {
    hide Count, Covered, Chained;
    var s' := DoFsync(s);
    ChainedSame(s, s');
    HeldSame(s, s');
    assert Holds(s, 0);
    forall f, i | f in s'.files && f !in s'.lost && s'.files[f].synced <= i < |s'.files[f].entries|
      ensures Covered(s', f, s'.files[f].entries[i])
    {
      assert f != s.jobs[0].file;
      CoveredSame(s, s', f, s.files[f].entries[i]);
    }
  }

  /** After a failed fsync an entry is covered by another job for its file, or its file is still
      being written, or its file is lost. */
  lemma FailCovered(s: State, s': State, f: nat, x: nat)
    requires Covered(s, f, x) && Queue(s) && s.jobs != [] && s' == DoFail(s) && f !in s'.lost
    ensures Covered(s', f, x)
  {
    forall j: nat | Promised(s, f, j) && (0 < j < |s.jobs| || (j == |s.jobs| && f != FileOf(s, s.curFd)))
      ensures Promised(s', f, j)
    {
      var i :| 0 <= i <= j && i < |s.jobs| && s.jobs[i].file == f && WillSync(s, i);
      var k := if i == 0 then 1 else i;
      assert i == 0 ==> NextFile(s, 0) == f;
      assert s'.jobs[k].file == f && WillSync(s', k);
    }
  }

  lemma FailKeeps(s: State)
    requires Inv(s) && Busy(s) && s.worker == Taken
    ensures Inv(DoFail(s))
  {
    hide Count, Covered, Chained, Held;
    var s' := DoFail(s);
    ChainedSame(s, s');
    HeldSame(s, s');
    forall f, i | f in s'.files && f !in s'.lost && s'.files[f].synced <= i < |s'.files[f].entries|
      ensures Covered(s', f, s'.files[f].entries[i])
    {
      FailCovered(s, s', f, s.files[f].entries[i]);
    }
  }

  /** Once the first job has done its fsync, nothing below its offset is left to sync. */
  lemma PublishKeeps(s: State)
    requires Inv(s) && Busy(s) && s.worker == Synced
    ensures Inv(s.(published := s.jobs[0].offset, worker := Published))
    ensures s.jobs[0].offset >= s.published
  {
    hide Count, Chained, Held;
    var s' := s.(published := s.jobs[0].offset, worker := Published);
    ChainedSame(s, s');
    HeldSame(s, s');
    forall f, i | f in s'.files && f !in s'.lost && s'.files[f].synced <= i < |s'.files[f].entries|
      ensures Covered(s', f, s'.files[f].entries[i])
    {
      var x := s.files[f].entries[i];
      assert Covered(s, f, x) && !Promised(s, f, 0);
      assert x >= s.jobs[0].offset;
      CoveredSame(s, s'.(published := s.published), f, x);
    }
  }

  lemma CloseHeld(s: State, s': State)
    requires Held(s) && s.jobs != [] && s.worker != Closed && s.jobs[0].kind == CloseAof
    requires s' == s.(fds := s.fds - {s.jobs[0].fd}, worker := Closed)
    ensures Held(s') && FileOf(s', s'.curFd) == FileOf(s, s.curFd)
  {
    assert forall i: nat :: Holds(s, i) && (Holds(s', i) <==> i > 0);
    hide Holds;
  }

  lemma CloseKeeps(s: State)
    requires Inv(s) && Busy(s) && (s.worker == Published || s.worker == SyncFailed) && s.jobs[0].kind == CloseAof
    ensures Inv(s.(fds := s.fds - {s.jobs[0].fd}, worker := Closed))
  {
    hide Count, Covered, Held, Chained, FileOf;
    var s' := s.(fds := s.fds - {s.jobs[0].fd}, worker := Closed);
    CloseHeld(s, s');
    ChainedSame(s, s');
    assert s'.curFd in s'.fds by { assert Holds(s, 0) && Held(s); CloseCurrent(s); }
    forall f, i | f in s'.files && f !in s'.lost && s'.files[f].synced <= i < |s'.files[f].entries|
      ensures Covered(s', f, s'.files[f].entries[i])
    {
      CoveredSame(s, s', f, s.files[f].entries[i]);
    }
  }

  lemma CloseCurrent(s: State)
    requires Held(s) && s.jobs != [] && Holds(s, 0) && s.jobs[0].kind == CloseAof
    ensures s.jobs[0].fd != s.curFd
  {
  }

  lemma FinishChained(s: State, s': State)
    requires Chained(s) && s.jobs != [] && s'.jobs == s.jobs[1..] && s'.fds == s.fds && s'.curFd == s.curFd
    ensures Chained(s')
  {
    forall i | 0 <= i < |s'.jobs| && s'.jobs[i].kind == AofFsync ensures NextFile(s', i) == s'.jobs[i].file {
      assert s.jobs[i + 1].kind == AofFsync && NextFile(s', i) == NextFile(s, i + 1);
    }
  }

  lemma FinishHeld(s: State, s': State)
    requires Held(s) && s.jobs != [] && s'.jobs == s.jobs[1..] && s'.worker == Waiting
    requires s'.fds == s.fds && s'.curFd == s.curFd
    ensures Held(s')
  {
    forall i | 0 <= i < |s'.jobs| ensures s'.jobs[i] == s.jobs[i + 1] && Holds(s, i + 1) {}
  }

  lemma FinishQueue(s: State, s': State)
    requires Queue(s) && s.jobs != [] && s'.jobs == s.jobs[1..] && s'.worker == Waiting
    requires s'.fds == s.fds && s'.curFd == s.curFd && s'.published == s.published && s'.offset == s.offset
    ensures Queue(s')
  {
    hide Held, Chained;
    FinishChained(s, s');
    FinishHeld(s, s');
  }

  lemma FinishKeeps(s: State)
    requires Inv(s) && Busy(s)
    requires s.worker == Closed || (s.jobs[0].kind == AofFsync && (s.worker == Published || s.worker == SyncFailed))
    ensures Inv(Step(s, FinishJob))
  {
    assert s.jobs[0].kind in s.counters;
    var s' := Step(s, FinishJob);
    FinishCounts(s);
    FinishQueue(s, s');
    hide Count, Covered, Promised, Queue;
    forall f, i | f in s'.files && f !in s'.lost && s'.files[f].synced <= i < |s'.files[f].entries|
      ensures Covered(s', f, s'.files[f].entries[i])
    {
      FinishCovered(s, s', f, s.files[f].entries[i]);
    }
  }

  lemma FinishCovered(s: State, s': State, f: nat, x: nat)
    requires Covered(s, f, x) && s.jobs != [] && !WillSync(s, 0)
    requires s'.jobs == s.jobs[1..] && s'.worker == Waiting && s'.published == s.published
    requires s'.offset == s.offset && FileOf(s', s'.curFd) == FileOf(s, s.curFd)
    ensures Covered(s', f, x)
  {
    forall j: nat | Promised(s, f, j + 1) ensures Promised(s', f, j) {
      var i :| 0 <= i <= j + 1 && i < |s.jobs| && s.jobs[i].file == f && WillSync(s, i);
      assert s'.jobs[i - 1].file == f && WillSync(s', i - 1);
    }
    forall j | 0 <= j < |s'.jobs| && x < s'.jobs[j].offset ensures Promised(s', f, j) {
      assert s'.jobs[j] == s.jobs[j + 1];
      assert Promised(s, f, j + 1);
    }
  }

  lemma FinishCounts(s: State)
    requires Counters(s) && s.jobs != []
    ensures forall kind: JobKind ::
              Count(s.jobs[1..], kind) == s.counters[kind] - if s.jobs[0].kind == kind then 1 else 0
  {
  }

  /** A switch finds nothing older in the buffer. */
  predicate Regular(s: State, e: Event) {
    e.Switch? ==> NothingOlder(s)
  }

  lemma StepKeepsInv(s: State, e: Event)
    requires Inv(s) && Regular(s, e)
    ensures Inv(Step(s, e)) && Step(s, e).published >= s.published
  {
    KindsCounted(s);
    match e
    case Feed(length, inAof) => FeedKeeps(s, length, inAof);
    case Write(n) => if n <= |s.buf| { WriteKeeps(s, n); }
    case SubmitFsync => if s.buf == [] { SubmitFsyncKeeps(s); }
    case Switch(newFd) => if newFd !in s.fds { SwitchKeeps(s, newFd); }
    case TakeJob => TakeKeeps(s);
    case FsyncJob => if Busy(s) && s.worker == Taken { FsyncKeeps(s); }
    case FsyncFails => if Busy(s) && s.worker == Taken { FailKeeps(s); }
    case PublishOffset => if Busy(s) && s.worker == Synced { PublishKeeps(s); }
    case CloseJob => if Busy(s) && (s.worker == Published || s.worker == SyncFailed) && s.jobs[0].kind == CloseAof { CloseKeeps(s); }
    case FinishJob => if Busy(s) && (s.worker == Closed || (s.jobs[0].kind == AofFsync && (s.worker == Published || s.worker == SyncFailed))) { FinishKeeps(s); }
  }

  lemma KindsCounted(s: State)
    requires Inv(s)
    ensures AofFsync in s.counters && CloseAof in s.counters
    ensures FileOf(s, s.curFd) in s.files
  {
  }

  predicate RegularRun(s: State, events: seq<Event>)
    decreases events
  {
    events == [] || (Regular(s, events[0]) && RegularRun(Step(s, events[0]), events[1..]))
  }

  lemma {:induction false} RunKeepsInv(s: State, events: seq<Event>)
    requires Inv(s) && RegularRun(s, events)
    ensures Inv(Run(s, events)) && Run(s, events).published >= s.published
    decreases events
  {
    hide Inv, Step;
    if events != [] {
      StepKeepsInv(s, events[0]);
      RunKeepsInv(Step(s, events[0]), events[1..]);
    }
  }

  lemma StartInv()
    ensures Inv(START)
  {
    assert Descriptors(START);
    assert Queue(START);
    forall kind: JobKind ensures kind in START.counters && START.counters[kind] == Count(START.jobs, kind) {
      match kind case AofFsync => case CloseAof =>
    }
  }

  lemma InvIsSound(s: State)
    requires Inv(s)
    ensures SoundButLost(s)
  {
    assert forall f, i :: f in s.files && f !in s.lost && s.files[f].synced <= i < |s.files[f].entries| ==>
             Covered(s, f, s.files[f].entries[i]);
  }

  // ---------- Every run ----------

  /** The event makes the worker publish the first job's offset. */
  predicate Publishing(s: State, e: Event) { e.PublishOffset? && Busy(s) && s.worker == Synced }

  /** The event is a failed fsync of a file that is about to be closed. */
  predicate FailsClosing(s: State, e: Event) {
    e.FsyncFails? && Busy(s) && s.worker == Taken && s.jobs[0].kind == CloseAof
  }

  /** Nothing but publishing makes a sound state unsound: entries only come from the buffer. */
  lemma OtherStepsStaySound(s: State, e: Event)
    requires Inv(s) && Sound(s) && Regular(s, e) && !Publishing(s, e)
    ensures Sound(Step(s, e))
  {
    StepKeepsInv(s, e);
    InvIsSound(Step(s, e));
    assert Offsets(s);
    hide Inv, SoundButLost;
    var s' := Step(s, e);
    assert s'.published == s.published;
    forall f, i | f in s'.files && s'.files[f].synced <= i < |s'.files[f].entries|
      ensures s'.files[f].entries[i] >= s'.published
    {
      UnsyncedWas(s, e, f, i);
    }
    BufferAbove(s');
  }

  lemma BufferAbove(s: State)
    requires SoundButLost(s)
    ensures forall i :: 0 <= i < |s.buf| ==> s.buf[i] >= s.published
  {
  }

  /** An unsynced entry was unsynced before the step, or was in the buffer. */
  lemma UnsyncedWas(s: State, e: Event, f: nat, i: nat)
    requires var s' := Step(s, e); f in s'.files && s'.files[f].synced <= i < |s'.files[f].entries|
    ensures var x := Step(s, e).files[f].entries[i];
            || x in s.buf
            || (f in s.files && s.files[f].synced <= i < |s.files[f].entries| && s.files[f].entries[i] == x)
  {
  }

  /** What the worker publishes is on disk if and only if no lost file has an unsynced entry from
      before the offset of its job. */
  lemma PublishSoundIff(s: State)
    requires Inv(s) && Busy(s) && s.worker == Synced
    ensures Sound(Step(s, PublishOffset)) <==> NothingLostBefore(s, s.jobs[0].offset)
  {
    PublishKeeps(s);
    var s' := Step(s, PublishOffset);
    InvIsSound(s');
    hide Inv;
  }

  lemma StepSoundIff(s: State, e: Event)
    requires Inv(s) && Sound(s) && Regular(s, e)
    ensures Sound(Step(s, e)) <==> (Publishing(s, e) ==> NothingLostBefore(s, s.jobs[0].offset))
  {
    if Publishing(s, e) { PublishSoundIff(s); } else { OtherStepsStaySound(s, e); }
  }

  ghost predicate SoundThroughout(s: State, events: seq<Event>) {
    forall k :: 0 <= k <= |events| ==> Sound(Run(s, events[..k]))
  }

  /** Before each publishing of the run no lost file has an unsynced entry from before the offset
      to be published. */
  ghost predicate PublishesOnDisk(s: State, events: seq<Event>)
    decreases events
  {
    events == [] ||
    (&& (Publishing(s, events[0]) ==> NothingLostBefore(s, s.jobs[0].offset))
     && PublishesOnDisk(Step(s, events[0]), events[1..]))
  }

  lemma ThroughoutStep(s: State, events: seq<Event>)
    requires events != []
    ensures SoundThroughout(s, events) <==> Sound(s) && SoundThroughout(Step(s, events[0]), events[1..])
  {
    hide Step, Sound;
    var (s1, tail) := (Step(s, events[0]), events[1..]);
    assert events[..0] == [] && Run(s, events[..0]) == s;
    forall k | 0 < k <= |events| ensures Run(s, events[..k]) == Run(s1, tail[..k - 1]) {
      assert events[..k][1..] == tail[..k - 1];
    }
    if SoundThroughout(s, events) {
      assert Sound(Run(s, events[..0]));
      forall j | 0 <= j <= |tail| ensures Sound(Run(s1, tail[..j])) {
        assert Run(s, events[..j + 1]) == Run(s1, tail[..j]);
      }
    }
  }

  lemma NoEvents(s: State)
    ensures SoundThroughout(s, []) <==> Sound(s)
  {
    var none: seq<Event> := [];
    assert forall k :: 0 <= k <= |none| ==> none[..k] == [];
    assert none[..0] == [] && Run(s, none[..0]) == s;
  }

  /** Every run from a sound state: the published offset is on disk at every moment if and only if
      no publishing of the run finds an older unsynced entry in a file whose last fsync failed. */
  lemma {:induction false} RunSoundIff(s: State, events: seq<Event>)
    requires Inv(s) && Sound(s) && RegularRun(s, events)
    ensures SoundThroughout(s, events) <==> PublishesOnDisk(s, events)
    decreases events
  {
    if events == [] {
      NoEvents(s);
    } else {
      hide Inv, Step, Sound, NothingLostBefore, SoundThroughout, Publishing, Regular;
      ThroughoutStep(s, events);
      StepSoundIff(s, events[0]);
      StepKeepsInv(s, events[0]);
      if Sound(Step(s, events[0])) {
        RunSoundIff(Step(s, events[0]), events[1..]);
      } else {
        ThroughoutStarts(Step(s, events[0]), events[1..]);
      }
    }
  }

  lemma ThroughoutStarts(s: State, events: seq<Event>)
    ensures SoundThroughout(s, events) ==> Sound(s)
  {
    assert Run(s, events[..0]) == s;
  }

  /** No fsync fails that comes right before a close. */
  predicate ClosesSync(s: State, events: seq<Event>)
    decreases events
  {
    events == [] || (!FailsClosing(s, events[0]) && ClosesSync(Step(s, events[0]), events[1..]))
  }

  lemma NothingLostYet(s: State, e: Event)
    requires s.lost == {} && !FailsClosing(s, e)
    ensures Step(s, e).lost == {}
  {
  }

  lemma {:induction false} NothingLostPublishes(s: State, events: seq<Event>)
    requires s.lost == {} && ClosesSync(s, events)
    ensures PublishesOnDisk(s, events)
    decreases events
  {
    hide Step, FailsClosing;
    if events != [] {
      NothingLostYet(s, events[0]);
      NothingLostPublishes(Step(s, events[0]), events[1..]);
    }
  }

  // ---------- Nothing fed is forgotten ----------

  /** The entries of the first `n` files, in order. */
  function Written(files: map<nat, File>, n: nat): seq<nat> {
    if n == 0 then []
    else Written(files, n - 1) + if n - 1 in files then files[n - 1].entries else []
  }

  /** All entries there are: in the files, then in the buffer. */
  function Logged(s: State): seq<nat> { Written(s.files, s.nextFile) + s.buf }

  /** The offsets at which the events feed entries, told from the events alone. */
  function FedFrom(offset: nat, events: seq<Event>): seq<nat>
    decreases events
  {
    if events == [] then []
    else
      match events[0]
      case Feed(length, inAof) => (if inAof then [offset] else []) + FedFrom(offset + length, events[1..])
      case _ => FedFrom(offset, events[1..])
  }

  /** The file being written is the newest, and no job that is still to close a file closes it. */
  ghost predicate Shape(s: State) {
    && s.nextFile > 0 && s.curFd in s.fds && s.fds[s.curFd] == s.nextFile - 1
    && (forall f: nat :: f in s.files <==> f < s.nextFile)
    && (forall i :: 0 <= i < |s.jobs| && s.jobs[i].kind == CloseAof && Holds(s, i) ==>
          s.jobs[i].fd in s.fds && s.jobs[i].fd != s.curFd)
    && (forall i, j :: 0 <= i < j < |s.jobs| && s.jobs[i].kind == s.jobs[j].kind == CloseAof && Holds(s, i) ==>
          s.jobs[i].fd != s.jobs[j].fd)
  }

  lemma {:induction false} WrittenSame(a: map<nat, File>, b: map<nat, File>, n: nat)
    requires forall f :: 0 <= f < n ==> (f in a <==> f in b) && (f in a ==> a[f].entries == b[f].entries)
    ensures Written(a, n) == Written(b, n)
  {
    if n > 0 { WrittenSame(a, b, n - 1); }
  }

  lemma WriteLogs(s: State, n: nat)
    requires Shape(s) && n <= |s.buf|
    ensures Shape(DoWrite(s, n)) && Logged(DoWrite(s, n)) == Logged(s)
  {
    var (s', f) := (DoWrite(s, n), s.nextFile - 1);
    WrittenSame(s.files, s'.files, f);
    assert s'.files[f].entries == s.files[f].entries + s.buf[..n];
    assert s.buf == s.buf[..n] + s.buf[n..];
    var before := Written(s.files, f);
    assert before + (s.files[f].entries + s.buf[..n]) + s.buf[n..] == before + s.files[f].entries + (s.buf[..n] + s.buf[n..]);
  }

  lemma SwitchLogs(s: State, newFd: int)
    requires Shape(s) && newFd !in s.fds && CloseAof in s.counters
    ensures Shape(DoSwitch(s, newFd)) && Logged(DoSwitch(s, newFd)) == Logged(s)
  {
    var s' := DoSwitch(s, newFd);
    WrittenSame(s.files, s'.files, s.nextFile);
    assert Written(s'.files, s'.nextFile) == Written(s.files, s.nextFile) + [];
    var n := |s.jobs|;
    assert s'.jobs[n].fd == s.curFd && forall i :: 0 <= i < n ==> s'.jobs[i] == s.jobs[i];
    assert forall i: nat :: Holds(s', i) == Holds(s, i);
  }

  lemma FsyncLogs(s: State)
    requires Shape(s) && Busy(s) && s.worker == Taken
    ensures Shape(DoFsync(s)) && Logged(DoFsync(s)) == Logged(s)
  {
    var s' := DoFsync(s);
    WrittenSame(s.files, s'.files, s.nextFile);
    assert forall i: nat :: Holds(s', i) == Holds(s, i);
  }

  lemma FinishLogs(s: State)
    requires Shape(s)
    ensures Shape(Step(s, FinishJob)) && Logged(Step(s, FinishJob)) == Logged(s)
  {
    var s' := Step(s, FinishJob);
    assert s'.files == s.files;
    if s'.jobs != s.jobs {
      forall i | 0 <= i < |s'.jobs| ensures s'.jobs[i] == s.jobs[i + 1] && Holds(s, i + 1) {}
    }
  }

  lemma CloseLogs(s: State)
    requires Shape(s)
    ensures Shape(Step(s, CloseJob)) && Logged(Step(s, CloseJob)) == Logged(s)
  {
    hide Written;
  }

  lemma SubmitLogs(s: State)
    requires Shape(s)
    ensures Shape(Step(s, SubmitFsync)) && Logged(Step(s, SubmitFsync)) == Logged(s)
  {
    var s' := Step(s, SubmitFsync);
    assert forall i :: 0 <= i < |s.jobs| ==> s'.jobs[i] == s.jobs[i];
    hide Written;
  }

  lemma WorkerLogs(s: State, e: Event)
    requires Shape(s) && (e.TakeJob? || e.FsyncFails? || e.PublishOffset?)
    ensures Shape(Step(s, e)) && Logged(Step(s, e)) == Logged(s)
  {
    hide Written;
    assert forall i: nat :: Holds(Step(s, e), i) ==> Holds(s, i);
  }

  /** Every step of every run: a logged feed adds its offset, and nothing else adds or removes. */
  lemma StepLogs(s: State, e: Event)
    requires Shape(s)
    ensures Shape(Step(s, e))
    ensures Logged(Step(s, e)) == Logged(s) + if e.Feed? && e.inAof then [s.offset] else []
    ensures Step(s, e).offset == s.offset + if e.Feed? then e.length else 0
  {
    assert Logged(s) + [] == Logged(s);
    hide Written;
    match e
    case Feed(length, inAof) =>
      assert Written(s.files, s.nextFile) + (s.buf + [s.offset]) == Logged(s) + [s.offset];
      assert forall i: nat :: Holds(Step(s, e), i) == Holds(s, i);
    case Write(n) => if n <= |s.buf| { WriteLogs(s, n); }
    case SubmitFsync => SubmitLogs(s);
    case Switch(newFd) => if newFd !in s.fds && CloseAof in s.counters { SwitchLogs(s, newFd); }
    case TakeJob => WorkerLogs(s, e);
    case FsyncJob => if Busy(s) && s.worker == Taken { FsyncLogs(s); }
    case FsyncFails => WorkerLogs(s, e);
    case PublishOffset => WorkerLogs(s, e);
    case CloseJob => CloseLogs(s);
    case FinishJob => FinishLogs(s);
  }

  /** After every run, what is in the files and the buffer is exactly what was fed, in order. */
  lemma {:induction false} RunLogs(s: State, events: seq<Event>)
    requires Shape(s)
    ensures Shape(Run(s, events)) && Logged(Run(s, events)) == Logged(s) + FedFrom(s.offset, events)
    decreases events
  {
    hide Shape, Step, Logged;
    if events == [] {
      assert Logged(s) + [] == Logged(s);
    } else {
      StepLogs(s, events[0]);
      RunLogs(Step(s, events[0]), events[1..]);
      var first := if events[0].Feed? && events[0].inAof then [s.offset] else [];
      var rest := FedFrom(Step(s, events[0]).offset, events[1..]);
      assert FedFrom(s.offset, events) == first + rest;
      assert Logged(s) + first + rest == Logged(s) + (first + rest);
    }
  }

  /** Position `p` of the log is in file `f`. */
  predicate InFile(s: State, p: nat, f: nat) {
    f in s.files && |Written(s.files, f)| <= p < |Written(s.files, f)| + |s.files[f].entries|
  }

  /** Position `p` of the log is on stable storage. */
  ghost predicate OnDisk(s: State, p: nat) {
    exists f :: InFile(s, p, f) && p - |Written(s.files, f)| < s.files[f].synced
  }

  /** Everything fed before the published offset is on stable storage. */
  ghost predicate FedOnDisk(fed: seq<nat>, s: State) {
    forall p :: 0 <= p < |fed| && fed[p] < s.published ==> OnDisk(s, p)
  }

  lemma {:induction false} FindFile(s: State, n: nat, p: nat) returns (f: nat)
    requires p < |Written(s.files, n)|
    ensures f < n && InFile(s, p, f)
    ensures Written(s.files, n)[p] == s.files[f].entries[p - |Written(s.files, f)|]
  {
    if p >= |Written(s.files, n - 1)| {
      f := n - 1;
    } else {
      f := FindFile(s, n - 1, p);
    }
  }

  lemma {:induction false} WrittenGrows(files: map<nat, File>, m: nat, n: nat)
    requires m <= n
    ensures Written(files, m) <= Written(files, n)
  {
    if m < n { WrittenGrows(files, m, n - 1); }
  }

  lemma OneFile(s: State, p: nat, f: nat, g: nat)
    requires InFile(s, p, f) && InFile(s, p, g)
    ensures f == g
  {
    if f < g { WrittenGrows(s.files, f + 1, g); }
    if g < f { WrittenGrows(s.files, g + 1, f); }
  }

  lemma EntryAt(s: State, f: nat, i: nat)
    requires f in s.files && i < |s.files[f].entries| && f < s.nextFile
    ensures var p := |Written(s.files, f)| + i;
            InFile(s, p, f) && p < |Written(s.files, s.nextFile)| && Logged(s)[p] == s.files[f].entries[i]
  {
    WrittenGrows(s.files, f + 1, s.nextFile);
    var p := |Written(s.files, f)| + i;
    assert Written(s.files, f + 1)[p] == s.files[f].entries[i];
  }

  lemma SoundIsOnDisk(s: State)
    requires Shape(s) && Sound(s)
    ensures FedOnDisk(Logged(s), s)
  {
    var (fed, w) := (Logged(s), Written(s.files, s.nextFile));
    assert forall p :: |w| <= p < |fed| ==> fed[p] == s.buf[p - |w|];
    forall p | 0 <= p < |w| && fed[p] < s.published ensures OnDisk(s, p) {
      var f := FindFile(s, s.nextFile, p);
      assert fed[p] == s.files[f].entries[p - |Written(s.files, f)|];
    }
    hide OnDisk, Written;
  }

  lemma BufferNotOnDisk(s: State, i: nat)
    requires Shape(s) && i < |s.buf|
    ensures !OnDisk(s, |Written(s.files, s.nextFile)| + i)
  {
    hide Written;
    var p := |Written(s.files, s.nextFile)| + i;
    forall f: nat | InFile(s, p, f) ensures false {
      NextWritten(s, f);
      WrittenGrows(s.files, f + 1, s.nextFile);
    }
  }

  lemma NextWritten(s: State, f: nat)
    requires f in s.files
    ensures |Written(s.files, f + 1)| == |Written(s.files, f)| + |s.files[f].entries|
  {
  }

  lemma {:induction false} UnsyncedNotOnDisk(s: State, f: nat, i: nat)
    requires Shape(s) && f in s.files && s.files[f].synced <= i < |s.files[f].entries|
    ensures var p := |Written(s.files, f)| + i;
            p < |Logged(s)| && Logged(s)[p] == s.files[f].entries[i] && !OnDisk(s, p)
  {
    hide Written, InFile, Shape;
    ShapeBelow(s, f);
    EntryAt(s, f, i);
    var p := |Written(s.files, f)| + i;
    forall g: nat | InFile(s, p, g) ensures f == g { OneFile(s, p, f, g); }
  }

  lemma ShapeBelow(s: State, f: nat)
    requires Shape(s) && f in s.files
    ensures f < s.nextFile
  {
  }

  lemma OnDiskIsSound(s: State)
    requires Shape(s) && FedOnDisk(Logged(s), s)
    ensures Sound(s)
  {
    var (fed, w) := (Logged(s), Written(s.files, s.nextFile));
    hide OnDisk, Written, Shape;
    forall i | 0 <= i < |s.buf| ensures s.buf[i] >= s.published {
      assert fed[|w| + i] == s.buf[i];
      BufferNotOnDisk(s, i);
    }
    forall f, i | f in s.files && s.files[f].synced <= i < |s.files[f].entries| ensures s.files[f].entries[i] >= s.published {
      UnsyncedNotOnDisk(s, f, i);
    }
  }

  /** In every run, whatever happens in it, the published offset being sound means that every entry fed
      before it stands in a file within the part that is on stable storage. */
  lemma SoundMeansOnDisk(events: seq<Event>)
    ensures Logged(Run(START, events)) == FedFrom(0, events)
    ensures Sound(Run(START, events)) <==> FedOnDisk(FedFrom(0, events), Run(START, events))
  {
    StartShape();
    RunLogs(START, events);
    var s := Run(START, events);
    assert Logged(START) == [] && [] + FedFrom(0, events) == FedFrom(0, events);
    if Sound(s) { SoundIsOnDisk(s); }
    if FedOnDisk(Logged(s), s) { OnDiskIsSound(s); }
    hide Run, Sound, FedOnDisk, Logged;
  }

  lemma StartShape()
    ensures Shape(START) && Logged(START) == []
  {
    assert Written(START.files, 0) == [];
  }

  // ---------- The theorem ----------

  ghost predicate FedOnDiskThroughout(events: seq<Event>) {
    forall k :: 0 <= k <= |events| ==> FedOnDisk(FedFrom(0, events[..k]), Run(START, events[..k]))
  }

  lemma ThroughoutMeansOnDisk(events: seq<Event>)
    ensures SoundThroughout(START, events) <==> FedOnDiskThroughout(events)
  {
    hide Sound, FedOnDisk, Run, FedFrom;
    forall k | 0 <= k <= |events|
      ensures Sound(Run(START, events[..k])) <==> FedOnDisk(FedFrom(0, events[..k]), Run(START, events[..k]))
    {
      SoundMeansOnDisk(events[..k]);
    }
  }

  /** For every interleaving from the start in which every switch finds nothing older in the buffer:
      the published offset never goes back. If no fsync fails, or only ones that are not the last of
      their file, everything fed before it is on disk at every moment. Whatever fails, that is so if
      and only if no publishing finds an older entry lost. */
  lemma PublishedOffsetSoundAndMonotone(before: seq<Event>, after: seq<Event>)
    requires RegularRun(START, before) && RegularRun(Run(START, before), after)
    ensures ClosesSync(START, before) ==> FedOnDiskThroughout(before)
    ensures FedOnDiskThroughout(before) <==> PublishesOnDisk(START, before)
    ensures SoundButLost(Run(START, before))
    ensures Run(START, before).published <= Run(Run(START, before), after).published
  {
    StartInv();
    assert Sound(START);
    RunSoundIff(START, before);
    ThroughoutMeansOnDisk(before);
    if ClosesSync(START, before) { NothingLostPublishes(START, before); }
    RunKeepsInv(START, before);
    RunKeepsInv(Run(START, before), after);
    InvIsSound(Run(START, before));
    hide *;
  }

  // ---------- When a switch finds the buffer not empty ----------

  /** The worker handles one job from wherever it stands; steps already done change nothing. */
  const ROUND := [TakeJob, FsyncJob, PublishOffset, CloseJob, FinishJob]

  /** The worker handles a job up to the offset it publishes. */
  const UP_TO_PUBLISH := [TakeJob, FsyncJob, PublishOffset]

  function Rounds(n: nat): seq<Event> {
    if n == 0 then [] else ROUND + Rounds(n - 1)
  }

  /** A switch, the jobs queued before it, and the close job it leaves. */
  function SwitchAndClose(s: State, newFd: int): seq<Event> {
    [Switch(newFd)] + Rounds(|s.jobs|) + UP_TO_PUBLISH
  }

  /** The worker is somewhere inside a job, or waits. */
  predicate Working(s: State) {
    && AofFsync in s.counters && CloseAof in s.counters
    && (s.worker == Closed ==> s.jobs != [] && s.jobs[0].kind == CloseAof)
    && (s.jobs == [] ==> s.worker == Waiting)
  }

  lemma {:induction false} RunAppend(s: State, a: seq<Event>, b: seq<Event>)
    ensures Run(s, a + b) == Run(Run(s, a), b)
    decreases a
  {
    hide Step;
    if a == [] {
      assert a + b == b;
    } else {
      assert (a + b)[1..] == a[1..] + b;
      RunAppend(Step(s, a[0]), a[1..], b);
    }
  }

  lemma RunThree(s: State, a: Event, b: Event, c: Event)
    ensures Run(s, [a, b, c]) == Step(Step(Step(s, a), b), c)
  {
    hide Step;
    assert [a, b, c][1..] == [b, c] && [b, c][1..] == [c] && [c][1..] == [];
    assert Run(Step(Step(s, a), b), [c]) == Step(Step(Step(s, a), b), c);
  }

  lemma RunTwo(s: State, a: Event, b: Event)
    ensures Run(s, [a, b]) == Step(Step(s, a), b)
  {
    hide Step;
    assert [a, b][1..] == [b] && [b][1..] == [];
    assert Run(Step(s, a), [b]) == Step(Step(s, a), b);
  }

  /** The worker is past publishing. */
  predicate Over(s: State) { s.worker == Published || s.worker == Closed || s.worker == SyncFailed }

  lemma TakenAndSynced(s: State)
    requires Working(s) && s.jobs != []
    ensures var s' := Step(Step(s, TakeJob), FsyncJob);
            && Working(s') && s'.jobs == s.jobs && s'.buf == s.buf
            && (s'.worker == Synced || Over(s'))
            && (s.worker == Waiting ==> s'.worker == Synced)
  {
  }

  /** Taken, synced and published: with the offset of the first job if that was still to come. */
  lemma Publishes(s: State)
    requires Working(s) && s.jobs != []
    ensures var s' := Run(s, UP_TO_PUBLISH);
            && Working(s') && s'.jobs == s.jobs && s'.buf == s.buf
            && Over(s')
            && (s.worker == Waiting ==> s'.published == s.jobs[0].offset)
  {
    TakenAndSynced(s);
    RunThree(s, TakeJob, FsyncJob, PublishOffset);
    PublishNow(Step(Step(s, TakeJob), FsyncJob));
    hide Step, Working, Run;
  }

  lemma PublishNow(s: State)
    requires Working(s) && s.jobs != [] && (s.worker == Synced || Over(s))
    ensures var s' := Step(s, PublishOffset);
            && Working(s') && s'.jobs == s.jobs && s'.buf == s.buf
            && Over(s')
            && (s.worker == Synced ==> s'.published == s.jobs[0].offset)
  {
  }

  lemma ClosedAndFinished(s: State)
    requires Working(s) && s.jobs != [] && Over(s)
    ensures var s' := Step(Step(s, CloseJob), FinishJob);
            Working(s') && s'.jobs == s.jobs[1..] && s'.worker == Waiting && s'.buf == s.buf
  {
  }

  lemma RoundFinishes(s: State)
    requires Working(s) && s.jobs != []
    ensures var s' := Run(s, ROUND);
            Working(s') && s'.jobs == s.jobs[1..] && s'.worker == Waiting && s'.buf == s.buf
  {
    hide Step, Working, Run;
    Publishes(s);
    var s3 := Run(s, UP_TO_PUBLISH);
    assert ROUND == UP_TO_PUBLISH + [CloseJob, FinishJob];
    RunAppend(s, UP_TO_PUBLISH, [CloseJob, FinishJob]);
    RunTwo(s3, CloseJob, FinishJob);
    ClosedAndFinished(s3);
  }

  lemma {:induction false} RoundsFinish(s: State, n: nat)
    requires Working(s) && n <= |s.jobs|
    ensures var s' := Run(s, Rounds(n));
            Working(s') && s'.jobs == s.jobs[n..] && s'.buf == s.buf && (n > 0 || s.worker == Waiting ==> s'.worker == Waiting)
    decreases n
  {
    if n > 0 {
      RoundFinishes(s);
      RunAppend(s, ROUND, Rounds(n - 1));
      RoundsFinish(Run(s, ROUND), n - 1);
    }
    hide Working;
  }

  /** Whatever was queued, the close job of the switch publishes the whole replication offset. */
  lemma SwitchPublishes(s: State, newFd: int)
    requires Working(s) && newFd !in s.fds
    ensures var s' := Run(s, SwitchAndClose(s, newFd));
            s'.published == s.offset && s'.buf == s.buf
  {
    var s1 := Step(s, Switch(newFd));
    assert Working(s1) && s1.buf == s.buf && s1.jobs[..|s.jobs|] == s.jobs && s1.jobs[|s.jobs|].offset == s.offset;
    assert |s1.jobs| == |s.jobs| + 1 && s1.worker == s.worker && (s.jobs == [] ==> s.worker == Waiting);
    hide Step, Working;
    assert Run(s, [Switch(newFd)]) == s1 by { assert [Switch(newFd)][1..] == []; }
    RoundsFinish(s1, |s.jobs|);
    var s2 := Run(s1, Rounds(|s.jobs|));
    Publishes(s2);
    hide Run;
    RunAppend(s, [Switch(newFd)], Rounds(|s.jobs|));
    RunAppend(s, [Switch(newFd)] + Rounds(|s.jobs|), UP_TO_PUBLISH);
  }

  predicate IsWorker(e: Event) {
    e.TakeJob? || e.FsyncJob? || e.PublishOffset? || e.CloseJob? || e.FinishJob?
  }

  predicate AllWorker(events: seq<Event>) { forall i :: 0 <= i < |events| ==> IsWorker(events[i]) }

  lemma {:induction false} RoundsAreWorker(n: nat)
    ensures AllWorker(Rounds(n))
  {
    if n > 0 { RoundsAreWorker(n - 1); }
  }

  lemma {:induction false} WorkerIsRegular(s: State, events: seq<Event>)
    requires AllWorker(events)
    ensures RegularRun(s, events)
    decreases events
  {
    hide Step;
    if events != [] {
      assert IsWorker(events[0]);
      WorkerIsRegular(Step(s, events[0]), events[1..]);
    }
  }

  lemma SwitchIsRegular(s: State, newFd: int)
    requires NothingOlder(s)
    ensures RegularRun(s, SwitchAndClose(s, newFd))
  {
    var events := SwitchAndClose(s, newFd);
    var rest := Rounds(|s.jobs|) + UP_TO_PUBLISH;
    RoundsAreWorker(|s.jobs|);
    assert events[0] == Switch(newFd) && events[1..] == rest;
    WorkerIsRegular(Step(s, Switch(newFd)), rest);
    hide Step, NothingOlder, SwitchAndClose, Rounds;
  }

  lemma {:induction false} WorkerKeepsLost(s: State, events: seq<Event>)
    requires AllWorker(events)
    ensures Run(s, events).lost == s.lost
    decreases events
  {
    if events != [] {
      assert IsWorker(events[0]);
      WorkerKeepsLost(Step(s, events[0]), events[1..]);
    }
  }

  lemma SwitchKeepsLost(s: State, newFd: int)
    ensures Run(s, SwitchAndClose(s, newFd)).lost == s.lost
  {
    var events := SwitchAndClose(s, newFd);
    var rest := Rounds(|s.jobs|) + UP_TO_PUBLISH;
    RoundsAreWorker(|s.jobs|);
    assert events[0] == Switch(newFd) && events[1..] == rest;
    assert Step(s, Switch(newFd)).lost == s.lost;
    hide Step, SwitchAndClose, Rounds;
    WorkerKeepsLost(Step(s, Switch(newFd)), rest);
  }

  lemma NothingLostIsSound(s: State)
    requires s.lost == {}
    ensures Sound(s) <==> SoundButLost(s)
  {
  }

  /** `openNewIncrAofForAppend` stamps the close job with the whole replication offset. However
      many jobs are queued before it, once the worker has published for it the published offset
      is on disk, outside files whose last fsync failed, exactly when no entry still in the buffer
      was fed before that offset. */
  lemma SwitchSoundIff(s: State, newFd: int)
    requires Inv(s) && newFd !in s.fds
    ensures SoundButLost(Run(s, SwitchAndClose(s, newFd))) <==> NothingOlder(s)
    ensures s.lost == {} ==> (Sound(Run(s, SwitchAndClose(s, newFd))) <==> NothingOlder(s))
  {
    KindsCounted(s);
    assert Working(s);
    SwitchPublishes(s, newFd);
    SwitchKeepsLost(s, newFd);
    if s.lost == {} { NothingLostIsSound(Run(s, SwitchAndClose(s, newFd))); }
    hide Inv, Run, Working, SwitchAndClose, RegularRun;
    if NothingOlder(s) {
      SwitchIsRegular(s, newFd);
      RunKeepsInv(s, SwitchAndClose(s, newFd));
      InvIsSound(Run(s, SwitchAndClose(s, newFd)));
    }
  }

  /** An fsync job, the jobs queued before it, and the offset it publishes. */
  function FsyncAndPublish(s: State): seq<Event> {
    [SubmitFsync] + Rounds(|s.jobs|) + UP_TO_PUBLISH
  }

  /** With an empty buffer and no fsync pending, however many jobs are queued: once the worker is through
      with the job submitted now, the whole replication offset of this moment is published. */
  lemma FsyncPublishes(s: State)
    requires Working(s) && s.buf == [] && s.counters[AofFsync] == 0
    ensures Run(s, FsyncAndPublish(s)).published == s.offset
  {
    var s1 := Step(s, SubmitFsync);
    assert Working(s1) && s1.jobs[..|s.jobs|] == s.jobs && s1.jobs[|s.jobs|].offset == s.offset;
    assert |s1.jobs| == |s.jobs| + 1 && s1.worker == s.worker && (s.jobs == [] ==> s.worker == Waiting);
    hide Step, Working;
    assert Run(s, [SubmitFsync]) == s1 by { assert [SubmitFsync][1..] == []; }
    RoundsFinish(s1, |s.jobs|);
    Publishes(Run(s1, Rounds(|s.jobs|)));
    hide Run;
    RunAppend(s, [SubmitFsync], Rounds(|s.jobs|));
    RunAppend(s, [SubmitFsync] + Rounds(|s.jobs|), UP_TO_PUBLISH);
  }

  /** At most one fsync job is ever queued; closes come on top of it. */
  lemma {:induction false} OneFsyncPending(s: State, events: seq<Event>)
    requires Counters(s) && Count(s.jobs, AofFsync) <= 1
    ensures Counters(Run(s, events)) && Count(Run(s, events).jobs, AofFsync) <= 1
    decreases events
  {
    if events != [] {
      CountersKept(s, events[0]);
      hide Counters, Step, Count;
      OneFsyncPending(Step(s, events[0]), events[1..]);
    }
  }

  lemma CountersKept(s: State, e: Event)
    requires Counters(s) && Count(s.jobs, AofFsync) <= 1
    ensures Counters(Step(s, e)) && Count(Step(s, e).jobs, AofFsync) <= 1
  {
    match e
    case SubmitFsync =>
      var job := Job(AofFsync, s.curFd, s.offset, FileOf(s, s.curFd));
      SubmitCounts(s, job);
      CountMore(s.jobs, job, AofFsync);
    case Switch(newFd) =>
      var job := Job(CloseAof, s.curFd, s.offset, FileOf(s, s.curFd));
      SubmitCounts(s, job);
      CountMore(s.jobs, job, AofFsync);
    case FinishJob => if s.jobs != [] { FinishCounts(s); }
    case _ =>
  }

  lemma FedOnce()
    ensures var s := Step(START, Feed(1, true));
            Inv(s) && s.buf == [0] && s.offset == 1 && s.fds == map[3 := 0] && s.jobs == []
  {
    StartInv();
    FeedKeeps(START, 1, true);
    hide Inv;
  }

  /** One command fed and not written before the switch: the offset behind it is published. */
  lemma SwitchTooEarly()
    ensures !Sound(Run(START, [Feed(1, true), Switch(4), TakeJob, FsyncJob, PublishOffset]))
  {
    hide Step, Inv;
    FedOnce();
    var s := Step(START, Feed(1, true));
    SwitchSoundIff(s, 4);
    assert !NothingOlder(s) by { assert s.buf[0] < s.offset; }
    var events := [Feed(1, true), Switch(4), TakeJob, FsyncJob, PublishOffset];
    assert SwitchAndClose(s, 4) == events[1..];
    assert Run(START, events) == Run(s, events[1..]);
  }

  // ---------- When the last fsync of a file fails ----------

  lemma WrittenAndSwitched()
    ensures var s := Run(START, [Feed(1, true), Write(1), Switch(4)]);
            && s.files == map[0 := File([0], 0), 1 := File([], 0)] && s.fds == map[3 := 0, 4 := 1]
            && s.curFd == 4 && s.buf == [] && s.offset == 1 && s.jobs == [Job(CloseAof, 3, 1, 0)]
            && s.counters == map[AofFsync := 0, CloseAof := 1] && s.worker == Waiting
  {
    RunThree(START, Feed(1, true), Write(1), Switch(4));
    hide Run;
    var s1 := Step(START, Feed(1, true));
    assert s1.buf == [0] && s1.offset == 1;
    assert [] + s1.buf[..1] == [0] && s1.buf[1..] == [];
    var s2 := Step(s1, Write(1));
    assert s2.files == map[0 := File([0], 0)] && s2.buf == [];
  }

  lemma FailedAndClosed(s: State)
    requires |s.jobs| == 1 && s.jobs[0].kind == CloseAof && s.worker == Waiting && CloseAof in s.counters
    ensures Run(s, [TakeJob, FsyncFails]) == s.(worker := SyncFailed, lost := s.lost + {s.jobs[0].file})
    ensures Run(s.(worker := SyncFailed, lost := s.lost + {s.jobs[0].file}), [CloseJob, FinishJob])
         == s.(fds := s.fds - {s.jobs[0].fd}, jobs := [], worker := Waiting, lost := s.lost + {s.jobs[0].file},
               counters := s.counters[CloseAof := s.counters[CloseAof] - 1])
  {
    RunTwo(s, TakeJob, FsyncFails);
    RunTwo(s.(worker := SyncFailed, lost := s.lost + {s.jobs[0].file}), CloseJob, FinishJob);
    hide Run;
  }

  lemma SyncsNewFile(s: State)
    requires s.jobs == [] && s.worker == Waiting && s.buf == []
    requires s.counters == map[AofFsync := 0, CloseAof := 0] && s.fds == map[4 := 1] && s.curFd == 4
    requires s.files == map[0 := File([0], 0), 1 := File([], 0)]
    ensures var s' := Run(s, [SubmitFsync] + UP_TO_PUBLISH);
            s'.published == s.offset && s'.files == s.files
  {
    var s1 := Step(s, SubmitFsync);
    assert Run(s, [SubmitFsync]) == s1 by { assert [SubmitFsync][1..] == []; }
    RunAppend(s, [SubmitFsync], UP_TO_PUBLISH);
    RunThree(s1, TakeJob, FsyncJob, PublishOffset);
    hide Run;
  }

  /** One command written, a switch, and the fsync before the close fails; then the new file is synced. */
  const FAILED_CLOSE := [Feed(1, true), Write(1), Switch(4), TakeJob, FsyncFails, CloseJob, FinishJob,
                         SubmitFsync, TakeJob, FsyncJob, PublishOffset]

  lemma InFour(s: State)
    ensures Run(s, FAILED_CLOSE)
         == Run(Run(Run(Run(s, [Feed(1, true), Write(1), Switch(4)]), [TakeJob, FsyncFails]), [CloseJob, FinishJob]),
                [SubmitFsync] + UP_TO_PUBLISH)
  {
    hide Run;
    var a, b, c, d := [Feed(1, true), Write(1), Switch(4)], [TakeJob, FsyncFails], [CloseJob, FinishJob], [SubmitFsync] + UP_TO_PUBLISH;
    assert a + b + c + d == FAILED_CLOSE;
    RunAppend(s, a, b);
    RunAppend(s, a + b, c);
    RunAppend(s, a + b + c, d);
  }

  /** The offset published for the new file is one that the closed file does not have on disk. */
  lemma FailedCloseLoses()
    ensures !Sound(Run(START, FAILED_CLOSE))
  {
    hide Step, Run;
    InFour(START);
    WrittenAndSwitched();
    var s1 := Run(START, [Feed(1, true), Write(1), Switch(4)]);
    FailedAndClosed(s1);
    var s3 := Run(Run(s1, [TakeJob, FsyncFails]), [CloseJob, FinishJob]);
    SyncsNewFile(s3);
    var s4 := Run(s3, [SubmitFsync] + UP_TO_PUBLISH);
    assert s4.files[0].entries[0] < s4.published;
  }
}
