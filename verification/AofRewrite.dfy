/** The AOF rewrite protocol (aof.c) with a crash possible between any two of its steps.
    Feeding, flushing, opening a new INCR file, forking the child, installing its snapshot as
    the BASE, deleting history and restarting are one state machine over the disk and the
    server's memory. */
module AofRewrite {
  import opened Text
  import opened AofManifest
  import opened ManifestText

  type Command = seq<string>

  /** A log holds commands and the SELECTs that say which database they are for. */
  datatype Entry = Select(db: nat) | Cmd(cmd: Command)

  datatype Content<D> = Snapshot(data: D) | Log(entries: seq<Entry>)

  /** What is fixed: names, `aof-disable-auto-gc`, what a command does to a dataset, and the
      dataset the first BASE holds. */
  datatype Params<!D> = Params(cfg: Config, autoGc: bool, apply: (D, nat, Command) -> D, initial: D)

  datatype Child<D> = NoChild | Running(snapshot: D) | Finished(snapshot: D) | ChildFailed

  /** Where the main thread stands inside a multi-step operation. */
  datatype Pc =
    | Idle
    | Opened(m: Manifest)          // new INCR file created
    | PersistedIncr(m: Manifest)   // manifest naming it is on disk
    | Switched                     // memory and descriptor switched to it
    | Renamed(m: Manifest)         // the child's file renamed to the new BASE
    | DropBase(name: string)       // its manifest could not be persisted
    | PersistedBase(m: Manifest)   // manifest naming it is on disk
    | Deleting                     // history files being unlinked

  /** `files` and `disk` survive a crash; the rest is the process. `flushed` records the
      commands whose entries have reached a file. */
  datatype State<D> = State(
    files: map<string, Content<D>>, disk: Manifest,
    mem: Manifest, fd: string, buf: seq<Entry>, selectedDb: Option<nat>, data: D,
    child: Child<D>, pc: Pc, flushed: seq<(nat, Command)>)

  // ---------- Replaying ----------

  /** The dataset that commands produce from the first one. */
  function Dataset<D>(p: Params<D>, cmds: seq<(nat, Command)>): D {
    if cmds == [] then p.initial
    else
      var last := cmds[|cmds| - 1];
      p.apply(Dataset(p, cmds[..|cmds| - 1]), last.0, last.1)
  }

  /** Loading a log into a dataset; a fresh client starts in database 0. */
  function ReplayLog<D>(p: Params<D>, d: D, entries: seq<Entry>): (D, nat) {
    if entries == [] then (d, 0)
    else
      var (d1, db) := ReplayLog(p, d, entries[..|entries| - 1]);
      match entries[|entries| - 1]
      case Select(n) => (d1, n)
      case Cmd(c) => (p.apply(d1, db, c), db)
  }

  function ReplayContent<D>(p: Params<D>, d: D, c: Content<D>): D {
    match c
    case Snapshot(data) => data
    case Log(entries) => ReplayLog(p, d, entries).0
  }

  function ReplayFile<D>(p: Params<D>, files: map<string, Content<D>>, name: string, d: D): D {
    if name in files then ReplayContent(p, d, files[name]) else d
  }

  function ReplayIncrs<D>(p: Params<D>, files: map<string, Content<D>>, incr: seq<Info>, d: D): D {
    if incr == [] then d
    else ReplayFile(p, files, incr[|incr| - 1].name, ReplayIncrs(p, files, incr[..|incr| - 1], d))
  }

  /** `loadAppendOnlyFiles`: the BASE, then the INCR files in order. */
  function Recover<D>(p: Params<D>, files: map<string, Content<D>>, m: Manifest): D {
    var d := if m.base.Some? then ReplayFile(p, files, m.base.value.name, p.initial) else p.initial;
    ReplayIncrs(p, files, m.incr, d)
  }

  /** What a crash at this moment leaves: every file the manifest needs, and in them exactly
      the dataset of the commands flushed so far. */
  ghost predicate CrashSafe<D>(p: Params<D>, s: State<D>) {
    && s.disk.base.Some? && s.disk.base.value.name in s.files
    && (forall i :: 0 <= i < |s.disk.incr| ==> s.disk.incr[i].name in s.files)
    && Recover(p, s.files, s.disk) == Dataset(p, s.flushed)
  }

  // ---------- Steps ----------

  datatype Event =
    | Feed(db: nat, cmd: Command)
    | FlushEntry
    | OpenIncr(ok: bool)
    | PersistIncr(ok: bool)
    | SwitchIncr
    | Fork(ok: bool)
    | ChildExit(ok: bool)
    | AbandonRewrite
    | RenameBase(ok: bool)
    | PersistBase(ok: bool)
    | UnlinkBase(ok: bool)
    | SwitchBase
    | UnlinkHistory(ok: bool)
    | FinishDelete(ok: bool)
    | Crash

  function LastName(m: Manifest): string {
    if m.incr == [] then "" else m.incr[|m.incr| - 1].name
  }

  /** `feedAppendOnlyFile` behind a command that has just been executed. */
  function DoFeed<D>(p: Params<D>, s: State<D>, db: nat, cmd: Command): State<D> {
    s.(data := p.apply(s.data, db, cmd),
       buf := s.buf + (if s.selectedDb == Some(db) then [] else [Select(db)]) + [Cmd(cmd)],
       selectedDb := Some(db))
  }

  function EndDb(entries: seq<Entry>): nat {
    if entries == [] then 0
    else
      match entries[|entries| - 1]
      case Select(n) => n
      case Cmd(_) => EndDb(entries[..|entries| - 1])
  }

  function EntriesOf<D>(files: map<string, Content<D>>, name: string): seq<Entry> {
    if name in files && files[name].Log? then files[name].entries else []
  }

  /** A flush, one entry at a time. */
  function DoFlush<D>(s: State<D>): State<D>
    requires s.buf != []
  {
    var entries := EntriesOf(s.files, s.fd);
    s.(files := s.files[s.fd := Log(entries + [s.buf[0]])], buf := s.buf[1..],
       flushed := if s.buf[0].Cmd? then s.flushed + [(EndDb(entries), s.buf[0].cmd)] else s.flushed)
  }

  /** The start of a rewrite, behind the forced flush: the next command will write a SELECT,
      and the new INCR file is created or truncated. */
  function DoOpen<D>(p: Params<D>, s: State<D>, ok: bool): State<D>
    requires s.mem.currIncr >= 0
  {
    var m := NewIncr(p.cfg, s.mem);
    var s1 := s.(selectedDb := None);
    if ok then s1.(files := s.files[LastName(m) := Log([])], pc := Opened(m)) else s1
  }

  /** `backgroundRewriteDoneHandler` up to the rename. */
  function DoRename<D>(p: Params<D>, s: State<D>, snapshot: D, ok: bool): State<D>
    requires s.mem.currBase >= 0
  {
    var m := NewBase(p.cfg, s.mem);
    var s1 := s.(child := NoChild);
    if ok then s1.(files := s.files[m.base.value.name := Snapshot(snapshot)], pc := Renamed(MarkRewritten(m, true)))
    else s1
  }

  /** The manifest with the new INCR file is persisted, or the rewrite does not start. */
  function DoPersistIncr<D>(s: State<D>, m: Manifest, ok: bool): State<D> {
    if ok then s.(disk := m.(dirty := false), pc := PersistedIncr(m.(dirty := false))) else s.(pc := Idle)
  }

  /** The manifest with the new BASE is persisted, or the renamed file must go again. */
  function DoPersistBase<D>(s: State<D>, m: Manifest, ok: bool): State<D> {
    if ok then s.(disk := m.(dirty := false), pc := PersistedBase(m.(dirty := false)))
    else s.(pc := DropBase(if m.base.Some? then m.base.value.name else ""))
  }

  function DoUnlinkBase<D>(s: State<D>, name: string, ok: bool): State<D> {
    s.(files := if ok then s.files - {name} else s.files, pc := Idle)
  }

  function DoFinishDelete<D>(s: State<D>, ok: bool): State<D> {
    if s.mem.dirty && ok then s.(disk := s.mem.(dirty := false), mem := s.mem.(dirty := false), pc := Idle)
    else s.(pc := Idle)
  }

  /** The process dies and a new one loads what is on disk. */
  function DoCrash<D>(p: Params<D>, s: State<D>): State<D> {
    var m := Reloaded(s.disk);
    s.(mem := m, fd := LastName(m), buf := [], selectedDb := None, data := Recover(p, s.files, s.disk),
       child := NoChild, pc := Deleting)
  }

  /** One event; an event that is not possible in the state changes nothing. */
  function Step<D>(p: Params<D>, s: State<D>, e: Event): State<D> {
    match e
    case Feed(db, cmd) => if s.pc.Idle? then DoFeed(p, s, db, cmd) else s
    case FlushEntry => if s.pc.Idle? && s.buf != [] then DoFlush(s) else s
    case OpenIncr(ok) =>
      if s.pc.Idle? && s.child.NoChild? && s.mem.currIncr >= 0 then DoOpen(p, s, ok) else s
    case PersistIncr(ok) =>
      if s.pc.Opened? then DoPersistIncr(s, s.pc.m, ok) else s
    case SwitchIncr =>
      if s.pc.PersistedIncr? then s.(mem := s.pc.m, fd := LastName(s.pc.m), pc := Switched) else s
    case Fork(ok) =>
      if s.pc.Switched? then s.(child := if ok then Running(s.data) else NoChild, pc := Idle) else s
    case ChildExit(ok) =>
      if s.child.Running? then s.(child := if ok then Finished(s.child.snapshot) else ChildFailed) else s
    case AbandonRewrite =>
      if s.pc.Idle? && s.child.ChildFailed? then s.(child := NoChild) else s
    case RenameBase(ok) =>
      if s.pc.Idle? && s.child.Finished? && s.mem.currBase >= 0 then DoRename(p, s, s.child.snapshot, ok) else s
    case PersistBase(ok) =>
      if s.pc.Renamed? then DoPersistBase(s, s.pc.m, ok) else s
    case UnlinkBase(ok) =>
      if s.pc.DropBase? then DoUnlinkBase(s, s.pc.name, ok) else s
    case SwitchBase =>
      if s.pc.PersistedBase? then s.(mem := s.pc.m, pc := Deleting) else s
    case UnlinkHistory(ok) =>
      if s.pc.Deleting? && p.autoGc && s.mem.hist != [] then
        s.(files := if ok then s.files - {s.mem.hist[0].name} else s.files,
           mem := s.mem.(hist := s.mem.hist[1..], dirty := true))
      else s
    case FinishDelete(ok) =>
      if s.pc.Deleting? && (!p.autoGc || s.mem.hist == []) then DoFinishDelete(s, ok) else s
    case Crash => DoCrash(p, s)
  }

  /** The first start: a BASE with the initial dataset and one empty INCR file. */
  function Start<D>(p: Params<D>): State<D> {
    var m := NewIncr(p.cfg, NewBase(p.cfg, EMPTY)).(dirty := false);
    State(map[BaseName(p.cfg, 1) := Snapshot(p.initial), IncrName(p.cfg, 1) := Log([])], m,
          m, IncrName(p.cfg, 1), [], None, p.initial, NoChild, Idle, [])
  }

  function Run<D>(p: Params<D>, s: State<D>, events: seq<Event>): State<D>
    decreases events
  {
    if events == [] then s else Run(p, Step(p, s, events[0]), events[1..])
  }

  // ---------- The invariant ----------

  /** A manifest a server can run on: a BASE, and an INCR file that carries the last number. */
  ghost predicate Runnable(cfg: Config, m: Manifest) {
    Wf(cfg, m) && m.base.Some? && m.incr != [] && m.incr[|m.incr| - 1].fileSeq == m.currIncr
  }

  predicate SameLive(a: Manifest, b: Manifest) {
    a.base == b.base && a.incr == b.incr && a.currBase == b.currBase && a.currIncr == b.currIncr
  }

  /** The commands waiting in the buffer, read from database `db` on. */
  function Pending(buf: seq<Entry>, db: nat): seq<(nat, Command)> {
    if buf == [] then []
    else
      match buf[0]
      case Select(n) => Pending(buf[1..], n)
      case Cmd(c) => [(db, c)] + Pending(buf[1..], db)
  }

  function DbAfter(buf: seq<Entry>, db: nat): nat {
    if buf == [] then db
    else
      match buf[0]
      case Select(n) => DbAfter(buf[1..], n)
      case Cmd(_) => DbAfter(buf[1..], db)
  }

  /** Files the disk manifest needs are there, with the right kind of content. */
  ghost predicate FilesPresent<D>(files: map<string, Content<D>>, m: Manifest) {
    && m.base.Some? && m.base.value.name in files && files[m.base.value.name].Snapshot?
    && forall i :: 0 <= i < |m.incr| ==> m.incr[i].name in files && files[m.incr[i].name].Log?
  }

  /** The snapshot, followed by the INCR file being written, is everything flushed. */
  ghost predicate Covers<D>(p: Params<D>, s: State<D>, snapshot: D) {
    ReplayLog(p, snapshot, EntriesOf(s.files, s.fd)).0 == Dataset(p, s.flushed)
  }

  /** Memory against disk, by where the main thread stands. */
  ghost predicate PcInv<D>(p: Params<D>, s: State<D>)
    requires s.mem.currBase >= 0 && s.mem.currIncr >= 0
  {
    match s.pc
    case Opened(m) =>
      && SameLive(s.disk, s.mem) && s.buf == [] && s.selectedDb.None? && s.child.NoChild?
      && m == NewIncr(p.cfg, s.mem) && LastName(m) in s.files && s.files[LastName(m)] == Log([])
    case PersistedIncr(m) =>
      && s.disk == m && s.buf == [] && s.selectedDb.None? && s.child.NoChild?
      && m == NewIncr(p.cfg, s.mem).(dirty := false) && LastName(m) in s.files && s.files[LastName(m)] == Log([])
    case Switched =>
      && SameLive(s.disk, s.mem) && s.buf == [] && s.selectedDb.None? && s.child.NoChild?
      && EntriesOf(s.files, s.fd) == []
    case Renamed(m) =>
      && SameLive(s.disk, s.mem) && s.child.NoChild?
      && m == MarkRewritten(NewBase(p.cfg, s.mem), true)
      && m.base.value.name in s.files && s.files[m.base.value.name].Snapshot?
      && Covers(p, s, s.files[m.base.value.name].data)
    case DropBase(name) =>
      && SameLive(s.disk, s.mem) && s.child.NoChild? && name == BaseName(p.cfg, s.mem.currBase + 1)
    case PersistedBase(m) =>
      && s.disk == m && s.child.NoChild? && m == MarkRewritten(NewBase(p.cfg, s.mem), true).(dirty := false)
    case Deleting => SameLive(s.disk, s.mem) && s.child.NoChild?
    case Idle =>
      && SameLive(s.disk, s.mem)
      && (s.child.Running? || s.child.Finished? ==> Covers(p, s, s.child.snapshot))
  }

  /** What the buffer and the dataset in memory hold beyond the files. */
  ghost predicate BufferInv<D>(p: Params<D>, s: State<D>) {
    var db := EndDb(EntriesOf(s.files, s.fd));
    && s.data == Dataset(p, s.flushed + Pending(s.buf, db))
    && (s.selectedDb.Some? ==> DbAfter(s.buf, db) == s.selectedDb.value)
  }

  ghost predicate Inv<D>(p: Params<D>, s: State<D>) {
    && Runnable(p.cfg, s.mem) && Runnable(p.cfg, s.disk)
    && s.fd == LastName(s.mem)
    && FilesPresent(s.files, s.disk)
    && Recover(p, s.files, s.disk) == Dataset(p, s.flushed)
    && PcInv(p, s)
    && BufferInv(p, s)
  }

  // ---------- Manifests ----------

  lemma RunnableNewIncr(cfg: Config, m: Manifest)
    requires Runnable(cfg, m)
    ensures var m' := NewIncr(cfg, m);
            && Runnable(cfg, m') && Runnable(cfg, m'.(dirty := false))
            && LastName(m') !in Names(m) && m'.incr[..|m'.incr| - 1] == m.incr
  {
    NewIncrKeepsWf(cfg, m);
    WfIgnoresDirty(cfg, NewIncr(cfg, m), false);
  }

  lemma RunnableNewBase(cfg: Config, m: Manifest)
    requires Runnable(cfg, m)
    ensures var m' := MarkRewritten(NewBase(cfg, m), true);
            && Runnable(cfg, m') && Runnable(cfg, m'.(dirty := false))
            && m'.base.value.name !in Names(m) && m'.base.value.name == BaseName(cfg, m.currBase + 1)
            && m'.incr == [m.incr[|m.incr| - 1]] && LastName(m') == LastName(m)
  {
    NewBaseKeepsWf(cfg, m);
    MarkRewrittenKeepsWf(cfg, NewBase(cfg, m), true);
    WfIgnoresDirty(cfg, MarkRewritten(NewBase(cfg, m), true), false);
  }

  lemma WfIgnoresDirty(cfg: Config, m: Manifest, dirty: bool)
    requires Wf(cfg, m)
    ensures Wf(cfg, m.(dirty := dirty))
  {
    forall i | 0 <= i < |m.hist| ensures HistoryInfo(cfg, m.(dirty := dirty), m.hist[i]) {
      assert HistoryInfo(cfg, m, m.hist[i]);
    }
  }

  lemma RunnableDropFirst(cfg: Config, m: Manifest)
    requires Runnable(cfg, m) && m.hist != []
    ensures Runnable(cfg, m.(hist := m.hist[1..], dirty := true))
    ensures m.hist[0].name !in LiveNames(m)
  {
    HistoryNotLive(cfg, m);
    var m' := m.(hist := m.hist[1..], dirty := true);
    forall i | 0 <= i < |m'.hist| ensures m'.hist[i].fileType == HIST && HistoryInfo(cfg, m', m'.hist[i]) {
      assert HistoryInfo(cfg, m, m.hist[i + 1]);
    }
  }

  lemma RunnableReloaded(cfg: Config, m: Manifest)
    requires Runnable(cfg, m)
    ensures Reloaded(m) == m.(dirty := false) && Runnable(cfg, Reloaded(m))
  {
    CountersReload(cfg, m);
  }

  lemma LiveInNames(m: Manifest)
    ensures m.base.Some? ==> m.base.value.name in LiveNames(m)
    ensures forall i :: 0 <= i < |m.incr| ==> m.incr[i].name in LiveNames(m)
    ensures LiveNames(m) <= Names(m)
  {
  }

  // ---------- Replaying after a change ----------

  lemma {:induction false} ReplayIncrsFrame<D>(p: Params<D>, f: map<string, Content<D>>, g: map<string, Content<D>>,
                                               incr: seq<Info>, d: D)
    requires forall i :: 0 <= i < |incr| ==>
               incr[i].name in f && incr[i].name in g && f[incr[i].name] == g[incr[i].name]
    ensures ReplayIncrs(p, f, incr, d) == ReplayIncrs(p, g, incr, d)
  {
    if incr != [] { ReplayIncrsFrame(p, f, g, incr[..|incr| - 1], d); }
  }

  /** Files the manifest does not name do not matter. */
  lemma RecoverFrame<D>(p: Params<D>, f: map<string, Content<D>>, g: map<string, Content<D>>, m: Manifest, n: Manifest)
    requires FilesPresent(f, m) && m.base == n.base && m.incr == n.incr
    requires forall x :: x in LiveNames(m) && x in f ==> x in g && g[x] == f[x]
    ensures FilesPresent(g, n) && Recover(p, g, n) == Recover(p, f, m)
  {
    LiveInNames(m);
    var d := ReplayFile(p, f, m.base.value.name, p.initial);
    ReplayIncrsFrame(p, f, g, m.incr, d);
  }

  /** The dataset before the last INCR file, and that file on top of it. */
  lemma RecoverLast<D>(p: Params<D>, f: map<string, Content<D>>, m: Manifest)
    requires FilesPresent(f, m) && m.incr != []
    ensures Recover(p, f, m)
         == ReplayLog(p, Recover(p, f, m.(incr := m.incr[..|m.incr| - 1])), EntriesOf(f, LastName(m))).0
  {
  }

  lemma {:induction false} EndDbIsReplayed<D>(p: Params<D>, d: D, entries: seq<Entry>)
    ensures ReplayLog(p, d, entries).1 == EndDb(entries)
  {
    if entries != [] { EndDbIsReplayed(p, d, entries[..|entries| - 1]); }
  }

  lemma ReplayLogMore<D>(p: Params<D>, d: D, entries: seq<Entry>, e: Entry)
    ensures ReplayLog(p, d, entries + [e]) ==
            var (d1, db) := ReplayLog(p, d, entries);
            match e
            case Select(n) => (d1, n)
            case Cmd(c) => (p.apply(d1, db, c), db)
  {
    assert (entries + [e])[..|entries|] == entries;
  }

  lemma DatasetMore<D>(p: Params<D>, cmds: seq<(nat, Command)>, db: nat, c: Command)
    ensures Dataset(p, cmds + [(db, c)]) == p.apply(Dataset(p, cmds), db, c)
  {
    assert (cmds + [(db, c)])[..|cmds|] == cmds;
  }

  /** One more entry in the last file advances any replay through it as it does `flushed`. */
  lemma EntryAdvances<D>(p: Params<D>, d: D, entries: seq<Entry>, e: Entry, flushed: seq<(nat, Command)>)
    requires ReplayLog(p, d, entries).0 == Dataset(p, flushed)
    ensures var flushed' := if e.Cmd? then flushed + [(EndDb(entries), e.cmd)] else flushed;
            ReplayLog(p, d, entries + [e]).0 == Dataset(p, flushed')
  {
    ReplayLogMore(p, d, entries, e);
    EndDbIsReplayed(p, d, entries);
    if e.Cmd? { DatasetMore(p, flushed, EndDb(entries), e.cmd); }
  }

  // ---------- Every step keeps the invariant ----------

  lemma {:induction false} PendingMore(buf: seq<Entry>, more: seq<Entry>, db: nat)
    ensures Pending(buf + more, db) == Pending(buf, db) + Pending(more, DbAfter(buf, db))
    ensures DbAfter(buf + more, db) == DbAfter(more, DbAfter(buf, db))
  {
    if buf == [] {
      assert buf + more == more;
    } else {
      assert (buf + more)[1..] == buf[1..] + more;
      PendingMore(buf[1..], more, match buf[0] case Select(n) => n case Cmd(_) => db);
    }
  }

  /** What one feed adds to the buffer reads as that command in its database. */
  lemma PendingOne(selected: bool, db: nat, cmd: Command, at: nat)
    requires selected ==> at == db
    ensures var more := (if selected then [] else [Select(db)]) + [Cmd(cmd)];
            Pending(more, at) == [(db, cmd)] && DbAfter(more, at) == db
  {
    var more := (if selected then [] else [Select(db)]) + [Cmd(cmd)];
    assert [Cmd(cmd)][1..] == [];
    assert Pending([Cmd(cmd)], db) == [(db, cmd)] + Pending([], db);
    assert DbAfter([Cmd(cmd)], db) == DbAfter([], db) == db;
    if selected { assert more == [Cmd(cmd)]; } else { assert more[1..] == [Cmd(cmd)]; }
  }

  lemma FeedKeeps<D>(p: Params<D>, s: State<D>, db: nat, cmd: Command)
    requires Inv(p, s) && s.pc.Idle?
    ensures Inv(p, DoFeed(p, s, db, cmd))
  {
    hide Runnable, FilesPresent, Recover, ReplayLog, Dataset;
    var s' := DoFeed(p, s, db, cmd);
    var end := EndDb(EntriesOf(s.files, s.fd));
    var more := (if s.selectedDb == Some(db) then [] else [Select(db)]) + [Cmd(cmd)];
    assert s'.buf == s.buf + more;
    PendingMore(s.buf, more, end);
    PendingOne(s.selectedDb == Some(db), db, cmd, DbAfter(s.buf, end));
    DatasetMore(p, s.flushed + Pending(s.buf, end), db, cmd);
    assert s.flushed + (Pending(s.buf, end) + [(db, cmd)]) == s.flushed + Pending(s.buf, end) + [(db, cmd)];
  }

  lemma EndDbMore(entries: seq<Entry>, e: Entry)
    ensures EndDb(entries + [e]) == match e case Select(n) => n case Cmd(_) => EndDb(entries)
  {
    assert (entries + [e])[..|entries|] == entries;
  }

  lemma FlushEntries<D>(s: State<D>)
    requires s.buf != []
    ensures EntriesOf(DoFlush(s).files, DoFlush(s).fd) == EntriesOf(s.files, s.fd) + [s.buf[0]]
  {
  }

  lemma PendingFlushed(flushed: seq<(nat, Command)>, buf: seq<Entry>, db: nat)
    requires buf != [] && buf[0].Cmd?
    ensures flushed + Pending(buf, db) == flushed + [(db, buf[0].cmd)] + Pending(buf[1..], db)
  {
  }

  lemma FlushBuffer<D>(p: Params<D>, s: State<D>)
    requires BufferInv(p, s) && s.buf != []
    ensures BufferInv(p, DoFlush(s))
  {
    FlushEntries(s);
    var entries := EntriesOf(s.files, s.fd);
    EndDbMore(entries, s.buf[0]);
    hide EntriesOf, EndDb, Dataset;
    if s.buf[0].Cmd? { PendingFlushed(s.flushed, s.buf, EndDb(entries)); }
  }

  lemma FlushPc<D>(p: Params<D>, s: State<D>)
    requires Runnable(p.cfg, s.mem) && s.pc.Idle? && PcInv(p, s) && s.buf != []
    ensures PcInv(p, DoFlush(s))
  {
    FlushEntries(s);
    hide EntriesOf, EndDb, Dataset, ReplayLog, Runnable;
    if s.child.Running? || s.child.Finished? {
      EntryAdvances(p, s.child.snapshot, EntriesOf(s.files, s.fd), s.buf[0], s.flushed);
    }
  }

  lemma FlushKeeps<D>(p: Params<D>, s: State<D>)
    requires Inv(p, s) && s.pc.Idle? && s.buf != []
    ensures Inv(p, DoFlush(s))
  {
    FlushFiles(p, s);
    assert s.mem.currBase >= 0 && s.mem.currIncr >= 0;
    hide Runnable, FilesPresent, Recover, Dataset, PcInv, BufferInv, DoFlush, LastName;
    FlushPc(p, s);
    FlushBuffer(p, s);
  }

  lemma FlushFiles<D>(p: Params<D>, s: State<D>)
    requires Inv(p, s) && s.pc.Idle? && s.buf != []
    ensures var s' := DoFlush(s);
            && s'.disk == s.disk && s'.mem == s.mem && s'.fd == s.fd
            && FilesPresent(s'.files, s'.disk) && Recover(p, s'.files, s'.disk) == Dataset(p, s'.flushed)
  {
    hide Dataset, ReplayLog, BufferInv, EndDb;
    var s' := DoFlush(s);
    var m := s.disk;
    var entries := EntriesOf(s.files, s.fd);
    LiveDistinct(p.cfg, m);
    assert LastName(m) == s.fd;
    var before := m.(incr := m.incr[..|m.incr| - 1]);
    assert forall x :: x in LiveNames(before) ==> x != s.fd;
    RecoverFrame(p, s.files, s'.files, before, before);
    RecoverLast(p, s.files, m);
    RecoverLast(p, s'.files, m);
    EntryAdvances(p, Recover(p, s.files, before), entries, s.buf[0], s.flushed);
  }

  lemma OpenKeeps<D>(p: Params<D>, s: State<D>, ok: bool)
    requires Inv(p, s) && s.pc.Idle? && s.child.NoChild? && s.buf == []
    ensures Inv(p, DoOpen(p, s, ok))
  {
    var s' := DoOpen(p, s, ok);
    if ok {
      RunnableNewIncr(p.cfg, s.mem);
      LiveInNames(s.mem);
      assert LiveNames(s.disk) == LiveNames(s.mem);
      RecoverFrame(p, s.files, s'.files, s.disk, s.disk);
      assert s.fd in LiveNames(s.mem);
    }
  }

  /** The buffer is judged by the file being written, the commands flushed and the dataset. */
  lemma BufferSees<D>(p: Params<D>, s: State<D>, t: State<D>)
    requires BufferInv(p, s) && EntriesOf(t.files, t.fd) == EntriesOf(s.files, s.fd)
    requires t.buf == s.buf && t.selectedDb == s.selectedDb && t.data == s.data && t.flushed == s.flushed
    ensures BufferInv(p, t)
  {
  }

  /** The manifest that names the new, empty INCR file reads back the same dataset. */
  lemma NewIncrRecovers<D>(p: Params<D>, s: State<D>)
    requires Inv(p, s) && s.pc.Opened?
    ensures var m := s.pc.m.(dirty := false);
            Runnable(p.cfg, m) && FilesPresent(s.files, m) && Recover(p, s.files, m) == Dataset(p, s.flushed)
  {
    RunnableNewIncr(p.cfg, s.mem);
    var m := s.pc.m.(dirty := false);
    var before := m.(incr := m.incr[..|m.incr| - 1]);
    hide Runnable, Wf, BufferInv, Dataset, Recover;
    RecoverFrame(p, s.files, s.files, s.disk, before);
    assert FilesPresent(s.files, m);
    RecoverLast(p, s.files, m);
    assert m.(incr := m.incr[..|m.incr| - 1]) == before;
    assert ReplayLog(p, Recover(p, s.files, before), []).0 == Recover(p, s.files, before);
  }

  lemma PersistIncrKeeps<D>(p: Params<D>, s: State<D>, ok: bool)
    requires Inv(p, s) && s.pc.Opened?
    ensures Inv(p, DoPersistIncr(s, s.pc.m, ok))
  {
    NewIncrRecovers(p, s);
    assert s.mem.currBase >= 0 && s.mem.currIncr >= 0;
    hide Runnable, Recover, Dataset, FilesPresent, BufferInv, NewIncr, LastName, EntriesOf;
    BufferSees(p, s, DoPersistIncr(s, s.pc.m, ok));
  }

  lemma SwitchIncrKeeps<D>(p: Params<D>, s: State<D>)
    requires Inv(p, s) && s.pc.PersistedIncr?
    ensures Inv(p, Step(p, s, SwitchIncr))
  {
    hide Runnable, Recover, Dataset;
  }

  lemma ForkKeeps<D>(p: Params<D>, s: State<D>, ok: bool)
    requires Inv(p, s) && s.pc.Switched?
    ensures Inv(p, Step(p, s, Fork(ok)))
  {
    hide Runnable, Recover, Dataset, FilesPresent;
    assert s.flushed + [] == s.flushed;
  }

  lemma RenameKeeps<D>(p: Params<D>, s: State<D>, ok: bool)
    requires Inv(p, s) && s.pc.Idle? && s.child.Finished?
    ensures Inv(p, DoRename(p, s, s.child.snapshot, ok))
  {
    var s' := DoRename(p, s, s.child.snapshot, ok);
    if ok {
      RunnableNewBase(p.cfg, s.mem);
      LiveInNames(s.mem);
      assert LiveNames(s.disk) == LiveNames(s.mem);
      RecoverFrame(p, s.files, s'.files, s.disk, s.disk);
      assert s.fd in LiveNames(s.mem);
    }
  }

  /** The manifest with the new BASE recovers what was flushed. */
  lemma NewBaseRecovers<D>(p: Params<D>, s: State<D>)
    requires Inv(p, s) && s.pc.Renamed?
    ensures var m := s.pc.m.(dirty := false);
            FilesPresent(s.files, m) && Recover(p, s.files, m) == Dataset(p, s.flushed)
  {
    RunnableNewBase(p.cfg, s.mem);
    hide Wf, Names, LiveNames, Dataset, BufferInv, MarkRewritten, NewBase;
    var m := s.pc.m.(dirty := false);
    assert m.incr[0] == s.disk.incr[|s.disk.incr| - 1];
    assert FilesPresent(s.files, m);
    RecoverLast(p, s.files, m);
    assert m.incr[..|m.incr| - 1] == [];
  }

  lemma NewBaseNamed(cfg: Config, m: Manifest)
    requires m.currBase >= 0
    ensures var m' := MarkRewritten(NewBase(cfg, m), true);
            m'.base.Some? && m'.base.value.name == BaseName(cfg, m.currBase + 1)
  {
  }

  lemma PersistBasePc<D>(p: Params<D>, s: State<D>, ok: bool)
    requires s.mem.currBase >= 0 && s.mem.currIncr >= 0 && PcInv(p, s) && s.pc.Renamed?
    ensures PcInv(p, DoPersistBase(s, s.pc.m, ok))
  {
    hide MarkRewritten, NewBase, NewIncr, Covers, LastName, BaseName, EntriesOf;
    NewBaseNamed(p.cfg, s.mem);
  }

  lemma PersistedBaseKeeps<D>(p: Params<D>, s: State<D>)
    requires Inv(p, s) && s.pc.Renamed?
    ensures Inv(p, DoPersistBase(s, s.pc.m, true))
  {
    assert s.mem.currBase >= 0 && s.mem.currIncr >= 0;
    assert s.pc.m == MarkRewritten(NewBase(p.cfg, s.mem), true);
    PersistBasePc(p, s, true);
    hide Runnable, Recover, Dataset, FilesPresent, Names, BufferInv, EntriesOf, PcInv, LastName, MarkRewritten, NewBase;
    RunnableNewBase(p.cfg, s.mem);
    NewBaseRecovers(p, s);
    BufferSees(p, s, DoPersistBase(s, s.pc.m, true));
  }

  lemma BaseNotPersistedKeeps<D>(p: Params<D>, s: State<D>)
    requires Inv(p, s) && s.pc.Renamed?
    ensures Inv(p, DoPersistBase(s, s.pc.m, false))
  {
    assert s.mem.currBase >= 0 && s.mem.currIncr >= 0;
    PersistBasePc(p, s, false);
    hide Runnable, Recover, Dataset, FilesPresent, Names, BufferInv, EntriesOf, PcInv, LastName;
    BufferSees(p, s, DoPersistBase(s, s.pc.m, false));
  }

  /** Removing a file that is not live changes nothing that is read back. */
  lemma UnlinkFrame<D>(p: Params<D>, s: State<D>, name: string)
    requires Inv(p, s) && SameLive(s.disk, s.mem) && name !in LiveNames(s.mem)
    ensures var files := s.files - {name};
            && FilesPresent(files, s.disk) && Recover(p, files, s.disk) == Recover(p, s.files, s.disk)
            && EntriesOf(files, s.fd) == EntriesOf(s.files, s.fd)
  {
    hide Recover, Wf, PcInv, BufferInv, Dataset;
    LiveInNames(s.mem);
    assert LiveNames(s.disk) == LiveNames(s.mem);
    RecoverFrame(p, s.files, s.files - {name}, s.disk, s.disk);
    assert s.fd in LiveNames(s.mem);
  }

  lemma UnlinkBaseKeeps<D>(p: Params<D>, s: State<D>, ok: bool)
    requires Inv(p, s) && s.pc.DropBase?
    ensures Inv(p, DoUnlinkBase(s, s.pc.name, ok))
  {
    RunnableNewBase(p.cfg, s.mem);
    LiveInNames(s.mem);
    UnlinkFrame(p, s, s.pc.name);
    hide Runnable, Recover, Dataset, FilesPresent, LiveNames, Names;
  }

  lemma SwitchBaseKeeps<D>(p: Params<D>, s: State<D>)
    requires Inv(p, s) && s.pc.PersistedBase?
    ensures Inv(p, s.(mem := s.pc.m, pc := Deleting))
  {
    RunnableNewBase(p.cfg, s.mem);
    hide Runnable, Recover, Dataset, FilesPresent, Wf, BufferInv, EntriesOf, MarkRewritten, NewBase;
    BufferSees(p, s, s.(mem := s.pc.m, pc := Deleting));
  }

  lemma UnlinkHistoryKeeps<D>(p: Params<D>, s: State<D>, ok: bool)
    requires Inv(p, s) && s.pc.Deleting? && s.mem.hist != []
    ensures Inv(p, Step(p, s, UnlinkHistory(ok)))
  {
    RunnableDropFirst(p.cfg, s.mem);
    UnlinkFrame(p, s, s.mem.hist[0].name);
    hide Runnable, Recover, Dataset, FilesPresent, LiveNames;
  }

  lemma FinishDeleteKeeps<D>(p: Params<D>, s: State<D>, ok: bool)
    requires Inv(p, s) && s.pc.Deleting?
    ensures Inv(p, DoFinishDelete(s, ok))
  {
    var m := s.mem.(dirty := false);
    WfIgnoresDirty(p.cfg, s.mem, false);
    assert Runnable(p.cfg, m);
    RecoverFrame(p, s.files, s.files, s.disk, m);
    hide Wf, Recover, Dataset, BufferInv, EntriesOf;
  }

  lemma CrashKeeps<D>(p: Params<D>, s: State<D>)
    requires Inv(p, s)
    ensures Inv(p, DoCrash(p, s))
  {
    RunnableReloaded(p.cfg, s.disk);
    hide Runnable, Recover, Dataset, FilesPresent;
    assert s.flushed + [] == s.flushed;
  }

  /** The flush that `rewriteAppendOnlyFileBackground` forces got everything out. */
  predicate FlushedBefore<D>(s: State<D>, e: Event) { e.OpenIncr? ==> s.buf == [] }

  lemma StepKeepsInv<D>(p: Params<D>, s: State<D>, e: Event)
    requires Inv(p, s) && FlushedBefore(s, e)
    ensures Inv(p, Step(p, s, e))
  {
    hide Inv;
    match e
    case Feed(db, cmd) => if s.pc.Idle? { FeedKeeps(p, s, db, cmd); }
    case FlushEntry => if s.pc.Idle? && s.buf != [] { FlushKeeps(p, s); }
    case OpenIncr(ok) => if s.pc.Idle? && s.child.NoChild? { OpenKeeps(p, s, ok); }
    case PersistIncr(ok) => if s.pc.Opened? { PersistIncrKeeps(p, s, ok); }
    case SwitchIncr => if s.pc.PersistedIncr? { SwitchIncrKeeps(p, s); }
    case Fork(ok) => if s.pc.Switched? { ForkKeeps(p, s, ok); }
    case ChildExit(ok) => ChildKeeps(p, s, e);
    case AbandonRewrite => ChildKeeps(p, s, e);
    case RenameBase(ok) => if s.pc.Idle? && s.child.Finished? { RenameKeeps(p, s, ok); }
    case PersistBase(ok) => if s.pc.Renamed? {
        if ok { PersistedBaseKeeps(p, s); } else { BaseNotPersistedKeeps(p, s); }
      }
    case UnlinkBase(ok) => if s.pc.DropBase? { UnlinkBaseKeeps(p, s, ok); }
    case SwitchBase => if s.pc.PersistedBase? { SwitchBaseKeeps(p, s); }
    case UnlinkHistory(ok) => if s.pc.Deleting? && s.mem.hist != [] { UnlinkHistoryKeeps(p, s, ok); }
    case FinishDelete(ok) => if s.pc.Deleting? { FinishDeleteKeeps(p, s, ok); }
    case Crash => CrashKeeps(p, s);
  }

  lemma ChildKeeps<D>(p: Params<D>, s: State<D>, e: Event)
    requires Inv(p, s) && (e.ChildExit? || e.AbandonRewrite?)
    ensures Inv(p, Step(p, s, e))
  {
    hide Runnable, Recover, Dataset, FilesPresent;
  }

  lemma StartRunnable(cfg: Config)
    ensures var m := NewIncr(cfg, NewBase(cfg, EMPTY)).(dirty := false);
            && Runnable(cfg, m) && m.incr == [Info(IncrName(cfg, 1), 1, INCR)]
            && m.base == Some(Info(BaseName(cfg, 1), 1, BASE)) && BaseName(cfg, 1) != IncrName(cfg, 1)
  {
    assert Wf(cfg, EMPTY);
    NewBaseKeepsWf(cfg, EMPTY);
    NewIncrKeepsWf(cfg, NewBase(cfg, EMPTY));
    WfIgnoresDirty(cfg, NewIncr(cfg, NewBase(cfg, EMPTY)), false);
    NamesDiffer(cfg, cfg.rdbPreamble, cfg.rdbPreamble, 1, 1);
    assert cfg.(rdbPreamble := cfg.rdbPreamble) == cfg;
  }

  /** A BASE with the initial dataset and one empty INCR file read back as the initial dataset. */
  lemma StartRecovers<D>(p: Params<D>, files: map<string, Content<D>>, m: Manifest)
    requires FilesPresent(files, m) && files[m.base.value.name] == Snapshot(p.initial)
    requires |m.incr| == 1 && files[m.incr[0].name] == Log([])
    ensures Recover(p, files, m) == p.initial
  {
    assert m.incr[..0] == [];
    assert ReplayIncrs(p, files, m.incr[..0], p.initial) == p.initial;
    assert ReplayLog(p, p.initial, []).0 == p.initial;
  }

  lemma StartInv<D>(p: Params<D>)
    ensures Inv(p, Start(p))
  {
    var s := Start(p);
    StartRunnable(p.cfg);
    assert s.mem.currBase >= 0 && s.mem.currIncr >= 0 && s.fd == LastName(s.mem);
    hide Runnable, BaseName, IncrName, NewIncr, NewBase;
    assert FilesPresent(s.files, s.disk);
    StartRecovers(p, s.files, s.disk);
    hide Recover;
    assert s.flushed + Pending(s.buf, 0) == [];
    assert EntriesOf(s.files, s.fd) == [];
  }

  /** Every rewrite of the run starts with an empty buffer. */
  predicate ForcedFlushesSucceed<D>(p: Params<D>, s: State<D>, events: seq<Event>)
    decreases events
  {
    events == [] ||
    (FlushedBefore(s, events[0]) && ForcedFlushesSucceed(p, Step(p, s, events[0]), events[1..]))
  }

  lemma {:induction false} RunKeepsInv<D>(p: Params<D>, s: State<D>, events: seq<Event>)
    requires Inv(p, s) && ForcedFlushesSucceed(p, s, events)
    ensures Inv(p, Run(p, s, events))
    decreases events
  {
    hide Inv, Step;
    if events != [] {
      StepKeepsInv(p, s, events[0]);
      RunKeepsInv(p, Step(p, s, events[0]), events[1..]);
    }
  }

  /** Crash safety: after every sequence of events, failures, crashes and restarts included,
      the disk holds every file its manifest names, and loading them gives exactly the dataset
      of the commands flushed so far. */
  lemma EveryRunIsCrashSafe<D>(p: Params<D>, events: seq<Event>)
    requires ForcedFlushesSucceed(p, Start(p), events)
    ensures CrashSafe(p, Run(p, Start(p), events))
  {
    StartInv(p);
    RunKeepsInv(p, Start(p), events);
    hide Run, Recover, Dataset, Runnable;
  }

  // ---------- Old files go ----------

  /** All history unlinked, one file after the other, and the manifest persisted. */
  function Collect(n: nat): seq<Event> { seq(n, _ => UnlinkHistory(true)) + [FinishDelete(true)] }

  ghost function HistNames(hist: seq<Info>): set<string> { set i | 0 <= i < |hist| :: hist[i].name }

  lemma {:induction false} CollectRemoves<D>(p: Params<D>, s: State<D>, n: nat)
    requires p.autoGc && s.pc.Deleting? && n == |s.mem.hist| && (n == 0 ==> s.mem.dirty)
    ensures var s' := Run(p, s, Collect(n));
            && s'.pc.Idle? && s'.mem.hist == [] && s'.disk == s'.mem && SameLive(s'.mem, s.mem)
            && s'.files == s.files - HistNames(s.mem.hist)
    decreases n
  {
    var events := Collect(n);
    if n == 0 {
      assert events == [FinishDelete(true)] && events[1..] == [];
      assert HistNames(s.mem.hist) == {};
    } else {
      var s1 := Step(p, s, UnlinkHistory(true));
      assert events[0] == UnlinkHistory(true) && events[1..] == Collect(n - 1);
      assert HistNames(s.mem.hist) == {s.mem.hist[0].name} + HistNames(s.mem.hist[1..]) by { HistFirst(s.mem.hist); }
      hide HistNames;
      CollectRemoves(p, s1, n - 1);
    }
  }

  lemma HistFirst(hist: seq<Info>)
    requires hist != []
    ensures HistNames(hist) == {hist[0].name} + HistNames(hist[1..])
  {
    forall x | x in HistNames(hist) ensures x in {hist[0].name} + HistNames(hist[1..]) {
      var i :| 0 <= i < |hist| && hist[i].name == x;
      if i > 0 { assert hist[1..][i - 1].name == x; }
    }
    forall x | x in HistNames(hist[1..]) ensures x in HistNames(hist) {
      var i :| 0 <= i < |hist[1..]| && hist[1..][i].name == x;
      assert hist[i + 1].name == x;
    }
  }

  /** With `aof-disable-auto-gc no`, once the new BASE is installed and the history deleted, exactly the
      files that the manifest had as history are gone, and none is listed any more, in memory or on disk. */
  lemma HistoryIsRemoved<D>(p: Params<D>, s: State<D>)
    requires Inv(p, s) && p.autoGc && s.pc.PersistedBase?
    ensures var s' := Run(p, s, [SwitchBase] + Collect(|s.pc.m.hist|));
            && s'.pc.Idle? && s'.mem.hist == [] && s'.disk.hist == []
            && s'.files == s.files - HistNames(s.pc.m.hist)
            && s'.mem.base == s.pc.m.base && s'.mem.incr == s.pc.m.incr
            && s.mem.base.Some? && s.mem.base.value.name !in s'.files
  {
    assert s.mem.base.Some? && s.pc.m == MarkRewritten(NewBase(p.cfg, s.mem), true).(dirty := false);
    OldBaseIsHistory(p.cfg, s.mem);
    var s1 := Step(p, s, SwitchBase);
    RunFirst(p, s, SwitchBase, Collect(|s.pc.m.hist|));
    hide Inv, Collect, MarkRewritten, NewBase, Run;
    CollectRemoves(p, s1, |s.pc.m.hist|);
  }

  lemma OldBaseIsHistory(cfg: Config, m: Manifest)
    requires m.base.Some? && m.currBase >= 0
    ensures var m' := MarkRewritten(NewBase(cfg, m), true);
            m'.hist != [] && m.base.value.name in HistNames(m'.hist)
  {
    var m1 := NewBase(cfg, m);
    assert m1.hist[0].name == m.base.value.name;
    var m' := MarkRewritten(m1, true);
    var k := |m'.hist| - |m1.hist|;
    assert m'.hist[k] == m1.hist[0];
  }

  /** A rewrite whose manifest cannot be persisted leaves nothing: files, manifests and data are those
      of before. */
  lemma FailedInstallLeavesNothing<D>(p: Params<D>, s: State<D>)
    requires Inv(p, s) && s.pc.Idle? && s.child.Finished? && BaseName(p.cfg, s.mem.currBase + 1) !in s.files
    ensures Run(p, s, [RenameBase(true), PersistBase(false), UnlinkBase(true)]) == s.(child := NoChild)
  {
    RunnableNewBase(p.cfg, s.mem);
    assert s.mem.currBase >= 0 && s.mem.currIncr >= 0;
    NewBaseNamed(p.cfg, s.mem);
    hide Inv, Runnable, MarkRewritten, NewBase, BaseName, Names, Run;
    var s1 := Step(p, s, RenameBase(true));
    var s2 := Step(p, s1, PersistBase(false));
    var s3 := Step(p, s2, UnlinkBase(true));
    assert s3.files == s.files;
    assert s3 == s.(child := NoChild);
    RunFirst(p, s, RenameBase(true), [PersistBase(false), UnlinkBase(true)]);
    RunFirst(p, s1, PersistBase(false), [UnlinkBase(true)]);
    RunFirst(p, s2, UnlinkBase(true), []);
    RunNothing(p, s3);
  }

  /** A child that fails, or a fork that does, leaves the files and the data as they are. */
  lemma FailedChildLeavesNothing<D>(p: Params<D>, s: State<D>)
    requires s.pc.Idle? && s.child.Running?
    ensures Run(p, s, [ChildExit(false), AbandonRewrite]) == s.(child := NoChild)
  {
    hide Run;
    var s1 := Step(p, s, ChildExit(false));
    assert [ChildExit(false)] + [AbandonRewrite] == [ChildExit(false), AbandonRewrite] && [AbandonRewrite] + [] == [AbandonRewrite];
    RunFirst(p, s, ChildExit(false), [AbandonRewrite]);
    RunFirst(p, s1, AbandonRewrite, []);
    RunNothing(p, Step(p, s1, AbandonRewrite));
  }

  // ---------- When the forced flush does not empty the buffer ----------

  /** A rewrite that nothing disturbs, up to the manifest that names its BASE. */
  const REWRITE := [OpenIncr(true), PersistIncr(true), SwitchIncr, Fork(true), ChildExit(true), RenameBase(true), PersistBase(true)]

  /** Opening with a buffer that may hold commands, then switching. */
  lemma SwitchedTo<D>(p: Params<D>, s: State<D>)
    requires Runnable(p.cfg, s.mem) && s.pc.Idle? && s.child.NoChild?
    ensures var s' := Run(p, s, [OpenIncr(true), PersistIncr(true), SwitchIncr]);
            && s'.pc.Switched? && s'.data == s.data && s'.flushed == s.flushed
            && Runnable(p.cfg, s'.mem)
            && LastName(s'.mem) in s'.files && s'.files[LastName(s'.mem)] == Log([])
  {
    RunnableNewIncr(p.cfg, s.mem);
    assert s.mem.currIncr >= 0;
    hide Runnable, Names, Run;
    var m := NewIncr(p.cfg, s.mem);
    var s1 := Step(p, s, OpenIncr(true));
    assert s1 == s.(selectedDb := None, files := s.files[LastName(m) := Log([])], pc := Opened(m));
    var s2 := Step(p, s1, PersistIncr(true));
    var s3 := Step(p, s2, SwitchIncr);
    assert s3.mem == m.(dirty := false) && LastName(s3.mem) == LastName(m);
    RunFirst(p, s, OpenIncr(true), [PersistIncr(true), SwitchIncr]);
    RunFirst(p, s1, PersistIncr(true), [SwitchIncr]);
    RunFirst(p, s2, SwitchIncr, []);
    RunNothing(p, s3);
  }

  lemma ForkedAndDone<D>(p: Params<D>, s: State<D>)
    requires s.pc.Switched?
    ensures Run(p, s, [Fork(true), ChildExit(true)]) == s.(pc := Idle, child := Finished(s.data))
  {
    hide Run;
    var s1 := Step(p, s, Fork(true));
    assert [Fork(true)] + [ChildExit(true)] == [Fork(true), ChildExit(true)];
    assert [ChildExit(true)] + [] == [ChildExit(true)];
    RunFirst(p, s, Fork(true), [ChildExit(true)]);
    RunFirst(p, s1, ChildExit(true), []);
    RunNothing(p, Step(p, s1, ChildExit(true)));
  }

  lemma RunFirst<D>(p: Params<D>, s: State<D>, e: Event, rest: seq<Event>)
    ensures Run(p, s, [e] + rest) == Run(p, Step(p, s, e), rest)
  {
    hide Step;
    assert ([e] + rest)[1..] == rest;
  }

  lemma RunNothing<D>(p: Params<D>, s: State<D>)
    ensures Run(p, s, []) == s
  {
  }

  lemma {:induction false} RunAppend<D>(p: Params<D>, s: State<D>, a: seq<Event>, b: seq<Event>)
    ensures Run(p, s, a + b) == Run(p, Run(p, s, a), b)
    decreases a
  {
    hide Step;
    if a == [] {
      assert a + b == b;
    } else {
      assert (a + b)[1..] == a[1..] + b;
      RunAppend(p, Step(p, s, a[0]), a[1..], b);
    }
  }

  /** The commands that a crash would lose: those in the buffer, each with its database. */
  function Unflushed<D>(s: State<D>): seq<(nat, Command)> {
    Pending(s.buf, EndDb(EntriesOf(s.files, s.fd)))
  }

  lemma RunRewrite<D>(p: Params<D>, s: State<D>)
    ensures Run(p, s, REWRITE)
         == Run(p, Run(p, Run(p, s, [OpenIncr(true), PersistIncr(true), SwitchIncr]), [Fork(true), ChildExit(true)]),
                [RenameBase(true), PersistBase(true)])
  {
    hide Run;
    var open, fork := [OpenIncr(true), PersistIncr(true), SwitchIncr], [Fork(true), ChildExit(true)];
    var install := [RenameBase(true), PersistBase(true)];
    assert REWRITE == open + fork + install;
    RunAppend(p, s, open, fork);
    RunAppend(p, s, open + fork, install);
  }

  /** What a rewrite installs is the dataset in memory at the fork. */
  lemma RewriteInstalls<D>(p: Params<D>, s: State<D>)
    requires Runnable(p.cfg, s.mem) && s.pc.Idle? && s.child.NoChild?
    ensures var s' := Run(p, s, REWRITE);
            && s'.flushed == s.flushed && FilesPresent(s'.files, s'.disk)
            && Recover(p, s'.files, s'.disk) == s.data
  {
    hide Step, Run, Recover, Runnable, FilesPresent, LastName;
    RunRewrite(p, s);
    SwitchedTo(p, s);
    var s3 := Run(p, s, [OpenIncr(true), PersistIncr(true), SwitchIncr]);
    ForkedAndDone(p, s3);
    InstallsSnapshot(p, Run(p, s3, [Fork(true), ChildExit(true)]), s.data);
  }

  lemma PresentIsSafe<D>(p: Params<D>, s: State<D>)
    requires FilesPresent(s.files, s.disk)
    ensures CrashSafe(p, s) <==> Recover(p, s.files, s.disk) == Dataset(p, s.flushed)
  {
    hide Recover, Dataset;
  }

  /** So it is crash safe exactly when the commands still in the buffer leave the dataset of the
      flushed ones unchanged. */
  lemma RewriteCrashSafeIff<D>(p: Params<D>, s: State<D>)
    requires Inv(p, s) && s.pc.Idle? && s.child.NoChild?
    ensures CrashSafe(p, Run(p, s, REWRITE)) <==> Dataset(p, s.flushed + Unflushed(s)) == Dataset(p, s.flushed)
  {
    assert s.data == Dataset(p, s.flushed + Unflushed(s));
    RewriteInstalls(p, s);
    hide Inv, Run, Recover, Dataset, Unflushed, CrashSafe, FilesPresent;
    PresentIsSafe(p, Run(p, s, REWRITE));
  }

  /** A buffer without commands is enough. */
  lemma FlushedRewriteIsCrashSafe<D>(p: Params<D>, s: State<D>)
    requires Inv(p, s) && s.pc.Idle? && s.child.NoChild? && Unflushed(s) == []
    ensures CrashSafe(p, Run(p, s, REWRITE))
  {
    assert s.flushed + [] == s.flushed;
    RewriteCrashSafeIff(p, s);
  }

  /** One command fed and not flushed, then a rewrite: not crash safe if the command does anything. */
  lemma UnflushedRewriteIsUnsafe<D>(p: Params<D>, c: Command)
    requires p.apply(p.initial, 0, c) != p.initial
    ensures !CrashSafe(p, Run(p, Start(p), [Feed(0, c)] + REWRITE))
  {
    StartInv(p);
    FeedKeeps(p, Start(p), 0, c);
    var s := DoFeed(p, Start(p), 0, c);
    assert s.pc.Idle? && s.child.NoChild? && s.flushed == [] && s.data == p.apply(p.initial, 0, c);
    RunFirst(p, Start(p), Feed(0, c), REWRITE);
    RewriteCrashSafeIff(p, s);
    hide Run, Start, DoFeed, Recover, Runnable;
  }

  lemma InstallsSnapshot<D>(p: Params<D>, s: State<D>, snapshot: D)
    requires s.pc.Idle? && s.child == Finished(snapshot) && Runnable(p.cfg, s.mem)
    requires LastName(s.mem) in s.files && s.files[LastName(s.mem)] == Log([])
    ensures var s' := Run(p, s, [RenameBase(true), PersistBase(true)]);
            && s'.flushed == s.flushed && FilesPresent(s'.files, s'.disk)
            && Recover(p, s'.files, s'.disk) == snapshot
  {
    RunnableNewBase(p.cfg, s.mem);
    LiveInNames(s.mem);
    hide Wf, MarkRewritten, NewBase, Names, LiveNames, Dataset;
    var s1 := Step(p, s, RenameBase(true));
    var s2 := Step(p, s1, PersistBase(true));
    assert [RenameBase(true), PersistBase(true)][1..] == [PersistBase(true)] && [PersistBase(true)][1..] == [];
    assert Run(p, s1, [PersistBase(true)]) == Run(p, s2, []) == s2;
    var m := s2.disk;
    assert m.base.value.name != LastName(s.mem);
    assert m.incr == [s.mem.incr[|s.mem.incr| - 1]];
    assert FilesPresent(s2.files, m);
    RecoverLast(p, s2.files, m);
    assert m.incr[..|m.incr| - 1] == [];
  }
}
