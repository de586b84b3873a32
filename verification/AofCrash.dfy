/** A crash in the middle of a write: the file being written ends anywhere inside the bytes of the
    buffer. Joins the writer (`AofFlush`), the loader (`AofLog`) and the rewrite protocol
    (`AofRewrite`): what is recovered is the dataset of the commands whose bytes are complete. */
module AofCrash {
  import opened Text
  import opened Sds
  import opened AofLog
  import AofFlush
  import Rewrite = AofRewrite
  import Manifest = AofManifest

  type Entry = Rewrite.Entry

  // ---------- Entries as bytes ----------

  function ArgvOf(e: Entry): Argv {
    match e
    case Select(n) => ["SELECT", Dec(n)]
    case Cmd(c) => c
  }

  function Argvs(entries: seq<Entry>): (r: seq<Argv>)
    ensures |r| == |entries| && forall i :: 0 <= i < |entries| ==> r[i] == ArgvOf(entries[i])
  {
    seq(|entries|, i requires 0 <= i < |entries| => ArgvOf(entries[i]))
  }

  function Bytes(entries: seq<Entry>): string { Encode(Argvs(entries)) }

  /** The database a command selects, if it is a SELECT. */
  function Selected(argv: Argv): Option<nat> {
    if |argv| == 2 && Lower(argv[0]) == "select" && argv[1] != "" && AllDigits(argv[1])
    then Some(DigitsValue(argv[1])) else None
  }

  /** Loading commands into a dataset; a fresh client starts in database 0. */
  function ReplayArgvs<D>(p: Rewrite.Params<D>, d: D, argvs: seq<Argv>): (D, nat) {
    if argvs == [] then (d, 0)
    else
      var (d1, db) := ReplayArgvs(p, d, argvs[..|argvs| - 1]);
      var last := argvs[|argvs| - 1];
      if Selected(last).Some? then (d1, Selected(last).value) else (p.apply(d1, db, last), db)
  }

  /** An entry that the loader reads as an ordinary command, and as a SELECT only if it is one. */
  ghost predicate Ordinary(table: Table, e: Entry) {
    && Encodable(ArgvOf(e)) && table(ArgvOf(e)).Other?
    && (e.Cmd? ==> Selected(e.cmd).None?)
  }

  ghost predicate AllOrdinary(table: Table, entries: seq<Entry>) {
    forall i :: 0 <= i < |entries| ==> Ordinary(table, entries[i])
  }

  lemma SelectedSelect(n: nat)
    ensures Selected(ArgvOf(Rewrite.Select(n))) == Some(n)
  {
    DecValue(n);
    assert Lower("SELECT") == "select";
  }

  /** The commands replay as the entries do. */
  lemma {:induction false} ReplaySame<D>(p: Rewrite.Params<D>, table: Table, d: D, entries: seq<Entry>)
    requires AllOrdinary(table, entries)
    ensures ReplayArgvs(p, d, Argvs(entries)) == Rewrite.ReplayLog(p, d, entries)
  {
    hide Selected, Encodable;
    if entries != [] {
      var (init, last) := (entries[..|entries| - 1], entries[|entries| - 1]);
      ReplaySame(p, table, d, init);
      assert Argvs(entries)[..|entries| - 1] == Argvs(init);
      assert Ordinary(table, last);
      if last.Select? { SelectedSelect(last.db); }
    }
  }

  lemma ArgvsSum(a: seq<Entry>, b: seq<Entry>)
    ensures Argvs(a + b) == Argvs(a) + Argvs(b)
  {
  }

  lemma {:induction false} CompletePast(a: seq<Argv>, b: seq<Argv>, cut: nat)
    requires |Encode(a)| <= cut
    ensures Complete(a + b, cut) >= |a|
    decreases |a|
  {
    hide EncodeCommand;
    if a != [] {
      assert (a + b)[0] == a[0] && (a + b)[1..] == a[1..] + b;
      CompletePast(a[1..], b, cut - |EncodeCommand(a[0])|);
    }
  }

  // ---------- Loading a torn file ----------

  /** How many entries are complete in the bytes of a file. */
  function CompleteEntries(entries: seq<Entry>, bytes: string): (k: nat)
    ensures k <= |entries|
  {
    Complete(Argvs(entries), |bytes|)
  }

  /** The loader finds the complete entries, and cuts the file back to them. */
  lemma TornLoads(table: Table, entries: seq<Entry>, bytes: string)
    requires AllOrdinary(table, entries) && bytes <= Bytes(entries) && bytes != ""
    ensures var k := CompleteEntries(entries, bytes);
            var r := LoadFile(table, true, bytes);
            && r.ret == (if bytes == Bytes(entries[..k]) then AofOk else AofTruncated)
            && r.done == Argvs(entries[..k]) && r.file == Bytes(entries[..k])
  {
    var (cmds, k) := (Argvs(entries), CompleteEntries(entries, bytes));
    assert Argvs(entries[..k]) == cmds[..k];
    assert Encode(cmds)[..|bytes|] == bytes;
    OrdinaryCommands(table, entries);
    AllEffective(table, cmds);
    AllEffective(table, cmds[..k]);
    hide LoadFile, Complete, Encode, Effective, AllClosed, NoNestedMulti, LeftOpen, Loadable;
    CutAnywhere(table, cmds, |bytes|);
    EncodePrefix(cmds, k);
    CompleteFits(cmds, |bytes|);
    assert |bytes| == |Encode(cmds[..k])| ==> bytes == Encode(cmds)[..|bytes|] == Encode(cmds[..k]);
  }

  lemma OrdinaryCommands(table: Table, entries: seq<Entry>)
    requires AllOrdinary(table, entries)
    ensures Loadable(table, Argvs(entries)) && forall i :: 0 <= i < |entries| ==> table(Argvs(entries)[i]).Other?
  {
    hide Encodable, Selected;
    forall i | 0 <= i < |entries| ensures Encodable(Argvs(entries)[i]) && table(Argvs(entries)[i]).Other? {
      assert Ordinary(table, entries[i]);
    }
  }

  lemma {:induction false} CompleteFits(cmds: seq<Argv>, cut: nat)
    ensures |Encode(cmds[..Complete(cmds, cut)])| <= cut
    decreases |cmds|
  {
    hide EncodeCommand;
    if cmds != [] && cut >= |EncodeCommand(cmds[0])| {
      var rest := cut - |EncodeCommand(cmds[0])|;
      CompleteFits(cmds[1..], rest);
      var k := Complete(cmds, cut);
      assert cmds[..k][1..] == cmds[1..][..k - 1];
    }
  }

  // ---------- Flushing entry by entry ----------

  function Flushes(n: nat): seq<Rewrite.Event> { seq(n, _ => Rewrite.FlushEntry) }

  /** The manifest without its last INCR file. */
  function Before(m: Manifest.Manifest): Manifest.Manifest
    requires m.incr != []
  {
    m.(incr := m.incr[..|m.incr| - 1])
  }

  /** What the first flushed entry leaves as it was. */
  lemma FlushOne<D>(p: Rewrite.Params<D>, s: Rewrite.State<D>)
    requires Rewrite.Inv(p, s) && s.pc.Idle? && s.buf != []
    ensures var s' := Rewrite.DoFlush(s);
            && s'.pc.Idle? && s'.disk == s.disk && s'.fd == s.fd && s'.buf == s.buf[1..] && s.disk.incr != []
            && Rewrite.Recover(p, s'.files, Before(s.disk)) == Rewrite.Recover(p, s.files, Before(s.disk))
            && Rewrite.EntriesOf(s'.files, s'.fd) == Rewrite.EntriesOf(s.files, s.fd) + [s.buf[0]]
            && s'.flushed == (if s.buf[0].Cmd?
                              then s.flushed + [(Rewrite.EndDb(Rewrite.EntriesOf(s.files, s.fd)), s.buf[0].cmd)]
                              else s.flushed)
  {
    hide Rewrite.Dataset, Rewrite.ReplayLog, Rewrite.BufferInv, Rewrite.EndDb;
    var (s', before) := (Rewrite.DoFlush(s), Before(s.disk));
    Manifest.LiveDistinct(p.cfg, s.disk);
    assert Rewrite.LastName(s.disk) == s.fd;
    assert forall x :: x in Manifest.LiveNames(before) ==> x != s.fd;
    Rewrite.RecoverFrame(p, s.files, s'.files, before, before);
    Rewrite.FlushEntries(s);
  }

  /** Where flushing the first `n` entries of the buffer leads. */
  ghost predicate FlushedTo<D>(p: Rewrite.Params<D>, s: Rewrite.State<D>, n: nat, s': Rewrite.State<D>) {
    var entries := Rewrite.EntriesOf(s.files, s.fd);
    && n <= |s.buf| && s.disk.incr != [] && s'.disk == s.disk && s'.fd == s.fd
    && Rewrite.Recover(p, s'.files, Before(s.disk)) == Rewrite.Recover(p, s.files, Before(s.disk))
    && Rewrite.EntriesOf(s'.files, s'.fd) == entries + s.buf[..n]
    && s'.flushed == s.flushed + Rewrite.Pending(s.buf[..n], Rewrite.EndDb(entries))
  }

  lemma NothingFlushed<D>(p: Rewrite.Params<D>, s: Rewrite.State<D>)
    requires s.disk.incr != []
    ensures FlushedTo(p, s, 0, s)
  {
    assert s.buf[..0] == [];
    assert Rewrite.EntriesOf(s.files, s.fd) + [] == Rewrite.EntriesOf(s.files, s.fd) && s.flushed + [] == s.flushed;
  }

  lemma OneMoreFlushed<D>(p: Rewrite.Params<D>, s: Rewrite.State<D>, n: nat, s': Rewrite.State<D>)
    requires Rewrite.Inv(p, s) && s.pc.Idle? && 0 < n <= |s.buf|
    requires FlushedTo(p, Rewrite.DoFlush(s), n - 1, s')
    ensures FlushedTo(p, s, n, s')
  {
    hide Rewrite.Inv, Rewrite.DoFlush, Rewrite.Recover, Rewrite.EntriesOf, Rewrite.EndDb, Rewrite.Pending;
    var (entries, s1) := (Rewrite.EntriesOf(s.files, s.fd), Rewrite.DoFlush(s));
    FlushOne(p, s);
    Rewrite.EndDbMore(entries, s.buf[0]);
    var (first, rest) := (s.buf[0], s1.buf[..n - 1]);
    assert s.buf[..n] == [first] + rest;
    assert entries + [first] + rest == entries + ([first] + rest);
    PendingFirst(s.flushed, first, rest, Rewrite.EndDb(entries));
  }

  /** Flushing the first `n` entries of the buffer. */
  lemma {:induction false} FlushMany<D>(p: Rewrite.Params<D>, s: Rewrite.State<D>, n: nat)
    requires Rewrite.Inv(p, s) && s.pc.Idle? && n <= |s.buf|
    ensures var s' := Rewrite.Run(p, s, Flushes(n));
            Rewrite.Inv(p, s') && s'.pc.Idle? && FlushedTo(p, s, n, s')
    decreases n
  {
    assert s.disk.incr != [];
    if n == 0 {
      assert Rewrite.Run(p, s, Flushes(0)) == s;
      NothingFlushed(p, s);
    } else {
      FlushOne(p, s);
      Rewrite.FlushKeeps(p, s);
      FlushFirst(p, s, n);
      hide Rewrite.Inv, Rewrite.DoFlush, Rewrite.Run, FlushedTo;
      FlushMany(p, Rewrite.DoFlush(s), n - 1);
      OneMoreFlushed(p, s, n, Rewrite.Run(p, s, Flushes(n)));
    }
  }

  lemma FlushFirst<D>(p: Rewrite.Params<D>, s: Rewrite.State<D>, n: nat)
    requires 0 < n <= |s.buf| && s.pc.Idle?
    ensures Rewrite.Run(p, s, Flushes(n)) == Rewrite.Run(p, Rewrite.DoFlush(s), Flushes(n - 1))
  {
    hide Rewrite.DoFlush;
    assert Flushes(n)[0] == Rewrite.FlushEntry && Flushes(n)[1..] == Flushes(n - 1);
  }

  lemma PendingFirst(flushed: seq<(nat, Rewrite.Command)>, first: Entry, rest: seq<Entry>, db: nat)
    ensures var db' := match first case Select(n) => n case Cmd(_) => db;
            var flushed' := if first.Cmd? then flushed + [(db, first.cmd)] else flushed;
            flushed' + Rewrite.Pending(rest, db') == flushed + Rewrite.Pending([first] + rest, db)
  {
    assert ([first] + rest)[1..] == rest;
  }

  // ---------- The crash ----------

  /** What a server loads when the last INCR file holds `bytes`: the other files as they are, then
      the commands the loader finds in the bytes. */
  function RecoverBytes<D>(p: Rewrite.Params<D>, table: Table, files: map<string, Rewrite.Content<D>>,
                           m: Manifest.Manifest, bytes: string): D
    requires m.incr != []
  {
    ReplayArgvs(p, Rewrite.Recover(p, files, Before(m)), LoadFile(table, true, bytes).done).0
  }

  /** The bytes of the file being written after a crash: all that was flushed, and any part of what
      was in the buffer. */
  ghost predicate TornFile<D>(s: Rewrite.State<D>, bytes: string) {
    var entries := Rewrite.EntriesOf(s.files, s.fd);
    Bytes(entries) <= bytes <= Bytes(entries + s.buf)
  }

  /** How many entries of the buffer are complete in the file. */
  function Reached<D>(s: Rewrite.State<D>, bytes: string): int {
    var entries := Rewrite.EntriesOf(s.files, s.fd);
    CompleteEntries(entries + s.buf, bytes) - |entries|
  }

  lemma ReachedWithin<D>(s: Rewrite.State<D>, bytes: string)
    requires TornFile(s, bytes)
    ensures 0 <= Reached(s, bytes) <= |s.buf|
  {
    var entries := Rewrite.EntriesOf(s.files, s.fd);
    ArgvsSum(entries, s.buf);
    CompletePast(Argvs(entries), Argvs(s.buf), |bytes|);
  }

  lemma TornLoadsReached<D>(table: Table, s: Rewrite.State<D>, bytes: string)
    requires TornFile(s, bytes) && AllOrdinary(table, Rewrite.EntriesOf(s.files, s.fd) + s.buf)
    ensures var entries := Rewrite.EntriesOf(s.files, s.fd);
            var n := Reached(s, bytes);
            var r := LoadFile(table, true, bytes);
            && 0 <= n <= |s.buf|
            && (r.ret == AofOk || r.ret == AofTruncated || (r.ret == AofEmpty && bytes == ""))
            && r.done == Argvs(entries + s.buf[..n]) && r.file == Bytes(entries + s.buf[..n])
  {
    var (entries, n) := (Rewrite.EntriesOf(s.files, s.fd), Reached(s, bytes));
    ReachedWithin(s, bytes);
    var all := entries + s.buf;
    assert all[..CompleteEntries(all, bytes)] == entries + s.buf[..n];
    if bytes == "" {
      NothingComplete(all);
    } else {
      hide LoadFile;
      TornLoads(table, all, bytes);
    }
  }

  lemma NothingComplete(all: seq<Entry>)
    ensures CompleteEntries(all, "") == 0 && Bytes([]) == "" && Argvs(all[..0]) == []
  {
  }

  /** A crash in the middle of a write. Whatever part of the buffer has reached the file, the loader
      reads it without failing, repairs it to the bytes of the complete entries, and recovers
      exactly the dataset of the commands flushed before and those that are complete: the state
      that flushing them and then crashing leads to. */
  lemma TornCrashRecovers<D>(p: Rewrite.Params<D>, table: Table, s: Rewrite.State<D>, bytes: string)
    requires Rewrite.Inv(p, s) && s.pc.Idle? && TornFile(s, bytes)
    requires AllOrdinary(table, Rewrite.EntriesOf(s.files, s.fd) + s.buf)
    ensures var r := LoadFile(table, true, bytes);
            var entries := Rewrite.EntriesOf(s.files, s.fd);
            var n := Reached(s, bytes);
            && 0 <= n <= |s.buf| && s.disk.incr != []
            && (r.ret == AofOk || r.ret == AofTruncated || (r.ret == AofEmpty && bytes == ""))
            && var s' := Rewrite.Run(p, s, Flushes(n));
               && Rewrite.Inv(p, s') && s'.disk == s.disk
               && r.file == Bytes(Rewrite.EntriesOf(s'.files, s'.fd))
               && s'.flushed == s.flushed + Rewrite.Pending(s.buf[..n], Rewrite.EndDb(entries))
               && RecoverBytes(p, table, s.files, s.disk, bytes) == Rewrite.DoCrash(p, s').data
               && Rewrite.DoCrash(p, s').data == Rewrite.Dataset(p, s'.flushed)
  {
    var (entries, n) := (Rewrite.EntriesOf(s.files, s.fd), Reached(s, bytes));
    TornLoadsReached(table, s, bytes);
    FlushMany(p, s, n);
    var s' := Rewrite.Run(p, s, Flushes(n));
    var now := entries + s.buf[..n];
    assert AllOrdinary(table, now) by { OrdinaryPart(table, entries, s.buf, n); }
    ReplaySame(p, table, Rewrite.Recover(p, s.files, Before(s.disk)), now);
    assert Rewrite.LastName(s'.disk) == s'.fd && Rewrite.FilesPresent(s'.files, s'.disk);
    Rewrite.RecoverLast(p, s'.files, s'.disk);
    assert Rewrite.Recover(p, s'.files, s'.disk) == Rewrite.Dataset(p, s'.flushed);
    hide Rewrite.Inv, Rewrite.Run, Rewrite.Recover, Rewrite.Dataset, LoadFile, Rewrite.EntriesOf, AllOrdinary, Bytes;
  }

  lemma OrdinaryPart(table: Table, entries: seq<Entry>, buf: seq<Entry>, n: nat)
    requires n <= |buf| && AllOrdinary(table, entries + buf)
    ensures AllOrdinary(table, entries + buf[..n])
  {
    hide Ordinary;
    var (all, now) := (entries + buf, entries + buf[..n]);
    assert forall i :: 0 <= i < |now| ==> now[i] == all[i];
  }

  // ---------- The writer leaves torn files and nothing worse ----------

  lemma PrefixOfSum(a: string, b: string, c: string, d: string)
    requires a + b == c + d && |c| <= |a|
    ensures c <= a <= c + d
  {
    assert (a + b)[..|c|] == c;
    assert (a + b)[..|a|] == a;
  }

  lemma {:induction false} RunGrows(w: AofFlush.Writer, events: seq<AofFlush.Event>)
    ensures AofFlush.Run(w, events).lastIncrSize >= w.lastIncrSize
    decreases events
  {
    hide AofFlush.Written, AofFlush.StoreAt, AofFlush.Truncate;
    if events != [] { RunGrows(AofFlush.Step(w, events[0]), events[1..]); }
  }

  /** At every moment of a run that writes at the end of the file only, as every run with O_APPEND
      does, the file is what was there and a part of what was fed. */
  lemma WriterLeavesPrefix(w: AofFlush.Writer, events: seq<AofFlush.Event>)
    requires AofFlush.SizeKnown(w) && AofFlush.NotBefore(w) && w.buf == "" && AofFlush.WritesAtEnd(w, events)
    ensures w.file <= AofFlush.Run(w, events).file <= w.file + AofFlush.Fed(events)
  {
    var w' := AofFlush.Run(w, events);
    AofFlush.RunConservesIff(w, events);
    assert events[..|events|] == events;
    assert AofFlush.Conserved(w, AofFlush.Fed(events), w');
    RunGrows(w, events);
    hide AofFlush.Run, AofFlush.Fed;
    assert w.file + w.buf == w.file;
    PrefixOfSum(w'.file, w'.buf, w.file, AofFlush.Fed(events));
  }

  /** From the bytes fed to the dataset recovered: a server whose current file holds what was flushed
      feeds the bytes of its buffer and is stopped at any moment of writing them. What it loads next
      is the dataset of the commands flushed before and of those whose bytes are complete. */
  lemma StoppedWriterRecovers<D>(p: Rewrite.Params<D>, table: Table, s: Rewrite.State<D>,
                                 w: AofFlush.Writer, events: seq<AofFlush.Event>)
    requires Rewrite.Inv(p, s) && s.pc.Idle?
    requires AllOrdinary(table, Rewrite.EntriesOf(s.files, s.fd) + s.buf)
    requires AofFlush.SizeKnown(w) && AofFlush.NotBefore(w) && w.buf == "" && AofFlush.WritesAtEnd(w, events)
    requires w.file == Bytes(Rewrite.EntriesOf(s.files, s.fd)) && AofFlush.Fed(events) == Bytes(s.buf)
    ensures var bytes := AofFlush.Run(w, events).file;
            var n := Reached(s, bytes);
            && 0 <= n <= |s.buf| && s.disk.incr != []
            && RecoverBytes(p, table, s.files, s.disk, bytes)
               == Rewrite.Dataset(p, s.flushed + Rewrite.Pending(s.buf[..n], Rewrite.EndDb(Rewrite.EntriesOf(s.files, s.fd))))
  {
    var (entries, bytes) := (Rewrite.EntriesOf(s.files, s.fd), AofFlush.Run(w, events).file);
    WriterLeavesPrefix(w, events);
    ArgvsSum(entries, s.buf);
    EncodeAppend(Argvs(entries), Argvs(s.buf));
    assert TornFile(s, bytes);
    hide Rewrite.Inv, AofFlush.Run, AofFlush.WritesAtEnd, AofFlush.Fed, AllOrdinary, TornFile, Rewrite.EntriesOf, Rewrite.Pending, Rewrite.Dataset, Rewrite.Recover;
    TornCrashRecovers(p, table, s, bytes);
  }
}
