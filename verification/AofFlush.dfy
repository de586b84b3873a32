/** Writing the AOF buffer to the current INCR file (aof.c): `aofWrite` with short writes and
    interruptions, `flushAppendOnlyFile` with its repair by `ftruncate`, and when the file
    followed by the buffer is exactly what was fed. */
module AofFlush {

  // ---------- The file system's part ----------

  /** What one `write` call does. */
  datatype WriteResult = Wrote(n: nat) | Interrupted | Failed

  function Zeros(n: nat): (z: string)
    ensures |z| == n && forall i :: 0 <= i < n ==> z[i] == '\0'
  {
    seq(n, _ => '\0')
  }

  /** Bytes stored at an offset; a gap past the end reads as zeros. */
  function StoreAt(file: string, at: nat, data: string): string {
    if data == "" then file
    else if at >= |file| then file + Zeros(at - |file|) + data
    else if at + |data| >= |file| then file[..at] + data
    else file[..at] + data + file[at + |data|..]
  }

  function Truncate(file: string, n: nat): string {
    if n <= |file| then file[..n] else file + Zeros(n - |file|)
  }

  // ---------- State ----------

  datatype Policy = EverySec | Never

  /** The `server.aof_*` fields that a flush uses. `offset` is the descriptor's position;
      with `append` every write goes to the end instead. */
  datatype Writer = Writer(file: string, offset: nat, append: bool, buf: string,
                           lastIncrSize: nat, fsyncOffset: nat, lastFsync: int,
                           postponedStart: int, writeOk: bool, fsyncJobs: nat)

  /** One call's circumstances: the clock, the other threads, and the system's answers. */
  datatype Env = Env(policy: Policy, force: bool, now: int, syncInProgress: bool, skipFsync: bool,
                     writes: seq<WriteResult>, truncateOk: bool)

  function Min(a: nat, b: nat): nat { if a < b then a else b }

  /** How many bytes `aofWrite` gets out before it ends. */
  function Written(len: nat, writes: seq<WriteResult>): (n: nat)
    ensures n <= len
  {
    if len == 0 || writes == [] then 0
    else
      match writes[0]
      case Interrupted => Written(len, writes[1..])
      case Failed => 0
      case Wrote(n) => Min(n, len) + Written(len - Min(n, len), writes[1..])
  }

  function Position(w: Writer): nat { if w.append then |w.file| else w.offset }

  function WriteOut(w: Writer, n: nat): Writer
    requires n <= |w.buf|
  {
    w.(file := StoreAt(w.file, Position(w), w.buf[..n]),
       offset := if n == 0 then w.offset else Position(w) + n)
  }

  predicate Postpones(w: Writer, env: Env) {
    && env.policy == EverySec && !env.force && env.syncInProgress
    && (w.postponedStart == 0 || env.now - w.postponedStart < 2)
  }

  /** The `try_fsync` label. */
  function TryFsync(w: Writer, env: Env): Writer {
    if env.skipFsync || env.policy != EverySec || env.now <= w.lastFsync then w
    else
      (if env.syncInProgress then w else w.(fsyncOffset := w.lastIncrSize, fsyncJobs := w.fsyncJobs + 1))
        .(lastFsync := env.now)
  }

  /** `flushAppendOnlyFile` under the policies that can recover from a failed write. */
  function Flush(w: Writer, env: Env): Writer {
    if w.buf == "" then
      if env.policy == EverySec && w.fsyncOffset != w.lastIncrSize && env.now > w.lastFsync && !env.syncInProgress
      then TryFsync(w, env) else w
    else if Postpones(w, env) then
      w.(postponedStart := if w.postponedStart == 0 then env.now else w.postponedStart)
    else
      var n := Written(|w.buf|, env.writes);
      var w1 := WriteOut(w, n).(postponedStart := 0);
      if n == |w.buf| then
        TryFsync(w1.(writeOk := true, lastIncrSize := w.lastIncrSize + n, buf := ""), env)
      else if n == 0 then w1.(writeOk := false)
      else if env.truncateOk then w1.(writeOk := false, file := Truncate(w1.file, w.lastIncrSize))
      else w1.(writeOk := false, lastIncrSize := w.lastIncrSize + n, buf := w.buf[n..])
  }

  /** The feed end of the buffer. */
  function Feed(w: Writer, bytes: string): Writer { w.(buf := w.buf + bytes) }

  // ---------- The code ----------

  class AofFile {
    var file: string
    var offset: nat
    const append: bool
    var buf: string
    var lastIncrSize: nat
    var fsyncOffset: nat
    var lastFsync: int
    var postponedStart: int
    var writeOk: bool
    var fsyncJobs: nat

    function View(): Writer
      reads this
    {
      Writer(file, offset, append, buf, lastIncrSize, fsyncOffset, lastFsync, postponedStart, writeOk, fsyncJobs)
    }

    /** `aofWrite`: retries interrupted and short writes. The result is -1 when nothing went out. */
    method AofWrite(data: string, writes: seq<WriteResult>) returns (ret: int)
      modifies this`file, this`offset
      ensures var n := Written(|data|, writes);
              && ret == (if n == 0 && data != "" then -1 else n)
              && file == StoreAt(old(file), old(Position(View())), data[..n])
              && offset == (if n == 0 then old(offset) else old(Position(View())) + n)
    {
      var len: nat, total: nat, j: nat := |data|, 0, 0;
      ghost var n := Written(|data|, writes);
      ghost var at := Position(View());
      while len > 0 && j < |writes|
        invariant 0 <= j <= |writes| && len + total == |data|
        invariant total + Written(len, writes[j..]) == n
        invariant file == StoreAt(old(file), at, data[..total])
        invariant offset == if total == 0 then old(offset) else at + total
        decreases |writes| - j
      {
        var result := writes[j];
        assert writes[j..][1..] == writes[j + 1..];
        j := j + 1;
        if result.Interrupted? { continue; }
        if result.Failed? { break; }
        var k := Min(result.n, len);
        StoreTwice(old(file), at, data, total, k, append);
        if k > 0 {
          var here := if append then |file| else offset;
          file := StoreAt(file, here, data[total..total + k]);
          offset := here + k;
        }
        len, total := len - k, total + k;
      }
      ret := if total == 0 && data != "" then -1 else total;
    }

    /** `flushAppendOnlyFile`. */
    method FlushAppendOnlyFile(env: Env)
      modifies this
      ensures View() == Flush(old(View()), env)
    {
      hide StoreAt, Truncate;
      if buf == "" {
        if env.policy == EverySec && fsyncOffset != lastIncrSize && env.now > lastFsync && !env.syncInProgress {
          DoTryFsync(env);
        }
        return;
      }
      if env.policy == EverySec && !env.force && env.syncInProgress {
        if postponedStart == 0 {
          postponedStart := env.now;
          return;
        } else if env.now - postponedStart < 2 {
          return;
        }
      }
      var nwritten := AofWrite(buf, env.writes);
      postponedStart := 0;
      if nwritten != |buf| {
        if nwritten != -1 && env.truncateOk {
          file := Truncate(file, lastIncrSize);
          nwritten := -1;
        }
        writeOk := false;
        if nwritten > 0 {
          lastIncrSize := lastIncrSize + nwritten;
          buf := buf[nwritten..];
        }
        return;
      }
      writeOk := true;
      lastIncrSize := lastIncrSize + nwritten;
      buf := "";
      DoTryFsync(env);
    }

    method DoTryFsync(env: Env)
      modifies this`fsyncOffset, this`fsyncJobs, this`lastFsync
      ensures View() == TryFsync(old(View()), env)
    {
      if env.skipFsync { return; }
      if env.policy == EverySec && env.now > lastFsync {
        if !env.syncInProgress {
          fsyncJobs := fsyncJobs + 1;
          fsyncOffset := lastIncrSize;
        }
        lastFsync := env.now;
      }
    }
  }

  lemma StoreToEnd(file: string, at: nat, data: string)
    requires data != "" && at + |data| >= |file|
    ensures StoreAt(file, at, data) == (if at >= |file| then file + Zeros(at - |file|) else file[..at]) + data
  {
  }

  lemma StorePast(file: string, at: nat, a: string, b: string)
    requires a != "" && b != "" && at + |a| >= |file|
    ensures StoreAt(StoreAt(file, at, a), at + |a|, b) == StoreAt(file, at, a + b)
  {
    hide StoreAt;
    StoreToEnd(file, at, a);
    StoreToEnd(file, at, a + b);
    var once := StoreAt(file, at, a);
    assert |once| == at + |a|;
    StoreToEnd(once, at + |a|, b);
    assert once + Zeros(0) == once;
    Regroup(if at >= |file| then file + Zeros(at - |file|) else file[..at], a, b);
  }

  lemma Regroup(x: string, a: string, b: string)
    ensures (x + a) + b == x + (a + b)
  {
  }

  lemma StoreInside(file: string, at: nat, a: string, b: string)
    requires a != "" && b != "" && at + |a| < |file|
    ensures StoreAt(StoreAt(file, at, a), at + |a|, b) == StoreAt(file, at, a + b)
  {
    var (once, here) := (StoreAt(file, at, a), at + |a|);
    assert once == file[..at] + a + file[here..];
    assert once[..here] == file[..at] + a && |once| == |file|;
    Regroup(file[..at], a, b);
    if here + |b| < |file| {
      assert once[here + |b|..] == file[here + |b|..];
      assert StoreAt(once, here, b) == file[..at] + a + b + file[here + |b|..];
    } else {
      assert StoreAt(once, here, b) == file[..at] + a + b;
    }
  }

  /** A store right behind the last one. */
  lemma StoreNext(file: string, at: nat, a: string, b: string)
    requires a != "" && b != ""
    ensures StoreAt(StoreAt(file, at, a), at + |a|, b) == StoreAt(file, at, a + b)
  {
    hide StoreAt;
    if at + |a| >= |file| { StorePast(file, at, a, b); } else { StoreInside(file, at, a, b); }
  }

  lemma StoreLength(file: string, data: string)
    ensures |StoreAt(file, |file|, data)| == |file| + |data|
  {
  }

  /** Two stores in a row, where the descriptor stands, are one store. */
  lemma StoreTwice(file: string, at: nat, data: string, n: nat, k: nat, append: bool)
    requires n + k <= |data|
    requires append ==> at == |file|
    ensures var once := StoreAt(file, at, data[..n]);
            var here := if append then |once| else at + n;
            && StoreAt(once, here, data[n..n + k]) == StoreAt(file, at, data[..n + k])
            && here == at + n
  {
    if append { StoreLength(file, data[..n]); }
    assert data[..n] + data[n..n + k] == data[..n + k];
    assert StoreAt(file, at, "") == file;
    if n > 0 && k > 0 {
      hide StoreAt;
      StoreNext(file, at, data[..n], data[n..n + k]);
    } else if k == 0 {
      assert data[n..n + k] == "" && data[..n + k] == data[..n];
    } else {
      assert data[n..n + k] == data[..n + k] && data[..n] == "";
    }
  }

  // ---------- Conservation ----------

  /** The size the server believes is the file's size. */
  predicate SizeKnown(w: Writer) { w.lastIncrSize == |w.file| }

  /** The next byte goes to the end of the file. */
  predicate AtEnd(w: Writer) { w.append || w.offset == |w.file| }

  /** The next byte does not go before the end of the file. */
  predicate NotBefore(w: Writer) { w.append || w.offset >= |w.file| }

  /** The call leaves new bytes in the file. */
  predicate KeepsBytes(w: Writer, env: Env) {
    var n := Written(|w.buf|, env.writes);
    w.buf != "" && !Postpones(w, env) && n > 0 && (n == |w.buf| || !env.truncateOk)
  }

  /** The call takes a short write back. */
  predicate TakesBack(w: Writer, env: Env) {
    var n := Written(|w.buf|, env.writes);
    w.buf != "" && !Postpones(w, env) && 0 < n < |w.buf| && env.truncateOk
  }

  lemma TryFsyncSameBytes(w: Writer, env: Env)
    ensures var w' := TryFsync(w, env);
            w'.file == w.file && w'.buf == w.buf && w'.offset == w.offset && w'.append == w.append
            && w'.lastIncrSize == w.lastIncrSize
  {
  }

  /** One flush, exactly: unless the descriptor stands before the end, file and buffer together are
      unchanged if and only if the descriptor stands at the end or nothing new stays. */
  lemma FlushConservesIff(w: Writer, env: Env)
    requires SizeKnown(w) && NotBefore(w)
    ensures var w' := Flush(w, env);
            w'.file + w'.buf == w.file + w.buf && SizeKnown(w') <==> AtEnd(w) || !KeepsBytes(w, env)
  {
    if KeepsBytes(w, env) {
      KeepingConservesIff(w, env);
    } else {
      NotKeepingConserves(w, env);
    }
  }

  lemma KeepingConservesIff(w: Writer, env: Env)
    requires SizeKnown(w) && NotBefore(w) && KeepsBytes(w, env)
    ensures var w' := Flush(w, env);
            w'.file + w'.buf == w.file + w.buf && SizeKnown(w') <==> AtEnd(w)
  {
    var n := Written(|w.buf|, env.writes);
    var w' := Flush(w, env);
    FlushKeeping(w, env);
    var gap := Zeros(Position(w) - |w.file|);
    hide Flush, Written, KeepsBytes;
    assert w.buf == w.buf[..n] + w.buf[n..];
    if AtEnd(w) {
      assert gap == "";
      assert w'.file + w'.buf == w.file + (w.buf[..n] + w.buf[n..]);
    } else {
      assert |w'.file + w'.buf| == |w.file| + |gap| + |w.buf|;
    }
  }

  lemma NotKeepingConserves(w: Writer, env: Env)
    requires SizeKnown(w) && NotBefore(w) && !KeepsBytes(w, env)
    ensures var w' := Flush(w, env); w'.file + w'.buf == w.file + w.buf && SizeKnown(w')
  {
    hide Written;
    var n := Written(|w.buf|, env.writes);
    if TakesBack(w, env) {
      var stored := StoreAt(w.file, Position(w), w.buf[..n]);
      assert stored[..|w.file|] == w.file;
    } else if w.buf == "" {
      TryFsyncSameBytes(w, env);
    } else if !Postpones(w, env) {
      assert w.buf[..0] == "";
    }
  }

  lemma FlushKeeping(w: Writer, env: Env)
    requires KeepsBytes(w, env) && NotBefore(w)
    ensures var n := Written(|w.buf|, env.writes);
            var w' := Flush(w, env);
            && w'.file == w.file + Zeros(Position(w) - |w.file|) + w.buf[..n]
            && w'.buf == w.buf[n..]
            && w'.lastIncrSize == w.lastIncrSize + n
            && w'.offset == Position(w) + n && w'.append == w.append
  {
    var n := Written(|w.buf|, env.writes);
    var w1 := WriteOut(w, n).(postponedStart := 0, writeOk := true, lastIncrSize := w.lastIncrSize + n, buf := "");
    TryFsyncSameBytes(w1, env);
    assert n == |w.buf| ==> w.buf[n..] == "";
  }

  /** A flush leaves a descriptor without O_APPEND at the end of the file if and only if it
      does not take a short write back: `ftruncate` shortens the file, not the position. */
  lemma FlushStaysAtEndIff(w: Writer, env: Env)
    requires SizeKnown(w) && !w.append && w.offset == |w.file|
    ensures AtEnd(Flush(w, env)) <==> !TakesBack(w, env)
    ensures Flush(w, env).offset >= |Flush(w, env).file| && Flush(w, env).append == w.append
  {
    if KeepsBytes(w, env) {
      FlushKeeping(w, env);
    } else if w.buf == "" {
      TryFsyncSameBytes(w, env);
    } else if !Postpones(w, env) && !TakesBack(w, env) {
      assert w.buf[..0] == "";
    }
  }

  /** No flush leaves the descriptor before the end. */
  lemma FlushKeepsNotBefore(w: Writer, env: Env)
    requires SizeKnown(w) && NotBefore(w)
    ensures NotBefore(Flush(w, env)) && Flush(w, env).append == w.append
  {
    if KeepsBytes(w, env) {
      FlushKeeping(w, env);
    } else if w.buf == "" {
      TryFsyncSameBytes(w, env);
    } else if !Postpones(w, env) && !TakesBack(w, env) {
      assert w.buf[..0] == "";
    }
  }

  /** Nothing is lost, doubled or inserted, and the recorded size is right. */
  predicate Conserved(w: Writer, fed: string, w': Writer) {
    w'.file + w'.buf == w.file + w.buf + fed && SizeKnown(w')
  }

  /** What can be seen before a flush: it conserves the bytes whatever the system answers if and
      only if the descriptor stands at the end or there is nothing to write. */
  lemma FlushAlwaysConservesIff(w: Writer)
    requires SizeKnown(w) && NotBefore(w)
    ensures (forall env :: Conserved(w, "", Flush(w, env))) <==> AtEnd(w) || w.buf == ""
  {
    assert w.file + w.buf + "" == w.file + w.buf;
    forall env | AtEnd(w) || w.buf == "" ensures Conserved(w, "", Flush(w, env)) {
      FlushConservesIff(w, env);
    }
    FlushConservesIff(w, Smooth(w));
    if w.buf != "" { SmoothKeeps(w); }
    hide Flush;
  }

  /** Everything is written at once. */
  function Smooth(w: Writer): Env { Env(Never, true, 0, false, true, [Wrote(|w.buf|)], true) }

  lemma SmoothKeeps(w: Writer)
    requires w.buf != ""
    ensures KeepsBytes(w, Smooth(w))
  {
  }

  // ---------- What one flush does and reports ----------

  /** How many bytes the system takes before it fails. */
  function Accepted(writes: seq<WriteResult>): nat {
    if writes == [] then 0
    else
      match writes[0]
      case Interrupted => Accepted(writes[1..])
      case Failed => 0
      case Wrote(n) => n + Accepted(writes[1..])
  }

  /** `aofWrite` gets out all that the system takes. */
  lemma {:induction false} WrittenIsAccepted(len: nat, writes: seq<WriteResult>)
    ensures Written(len, writes) == Min(len, Accepted(writes))
  {
    if writes != [] {
      match writes[0]
      case Interrupted => WrittenIsAccepted(len, writes[1..]);
      case Failed =>
      case Wrote(n) => WrittenIsAccepted(len - Min(n, len), writes[1..]);
    }
  }

  /** A flush is put off exactly under everysec, not forced, while an fsync runs and less than two
      seconds after the first one put off; then nothing but that time is touched. */
  lemma PutOffIff(w: Writer, env: Env)
    requires w.buf != ""
    ensures var putOff := env.policy == EverySec && !env.force && env.syncInProgress
                          && (w.postponedStart == 0 || env.now - w.postponedStart < 2);
            && (putOff ==> Flush(w, env) == w.(postponedStart := if w.postponedStart == 0 then env.now else w.postponedStart))
            && (!putOff ==> Flush(w, env).postponedStart == 0)
  {
    hide Written, StoreAt, Truncate;
  }

  /** After an attempt to write, the status says whether all of the buffer went out; the buffer then is
      empty, or what is left, or untouched where nothing went out or what did was taken back. */
  lemma FlushReports(w: Writer, env: Env)
    requires w.buf != "" && !Postpones(w, env)
    ensures var (w', n) := (Flush(w, env), Min(|w.buf|, Accepted(env.writes)));
            && (w'.writeOk <==> Accepted(env.writes) >= |w.buf|)
            && w'.buf == (if n < |w.buf| && env.truncateOk then w.buf else w.buf[n..])
            && w'.lastIncrSize == w.lastIncrSize + |w.buf| - |w'.buf|
  {
    WrittenIsAccepted(|w.buf|, env.writes);
    hide Written, StoreAt, Truncate, Accepted;
    assert w.buf[0..] == w.buf && w.buf[|w.buf|..] == "";
  }

  /** Without an attempt the status stays. */
  lemma NoAttemptNoReport(w: Writer, env: Env)
    requires w.buf == "" || Postpones(w, env)
    ensures Flush(w, env).writeOk == w.writeOk && Flush(w, env).buf == w.buf && Flush(w, env).file == w.file
  {
    hide Written, StoreAt, Truncate;
  }

  /** An fsync job is started exactly under everysec, with no fsync running, the clock moved on and the
      sync not held back by a child: when all of the buffer went out, or when there was nothing to write
      and the file has bytes without a job. */
  lemma StartsFsyncIff(w: Writer, env: Env)
    ensures var due := env.policy == EverySec && !env.syncInProgress && env.now > w.lastFsync && !env.skipFsync;
            var w' := Flush(w, env);
            && (w'.fsyncJobs == w.fsyncJobs || w'.fsyncJobs == w.fsyncJobs + 1)
            && (w'.fsyncJobs > w.fsyncJobs <==>
                  due && (if w.buf == "" then w.fsyncOffset != w.lastIncrSize
                          else !Postpones(w, env) && Accepted(env.writes) >= |w.buf|))
  {
    WrittenIsAccepted(|w.buf|, env.writes);
    hide Written, StoreAt, Truncate, Accepted;
  }

  // ---------- Whole runs ----------

  datatype Event = FeedBytes(bytes: string) | FlushOnce(env: Env)

  function Step(w: Writer, e: Event): Writer {
    match e
    case FeedBytes(bytes) => Feed(w, bytes)
    case FlushOnce(env) => Flush(w, env)
  }

  function Run(w: Writer, events: seq<Event>): Writer
    decreases events
  {
    if events == [] then w else Run(Step(w, events[0]), events[1..])
  }

  function Fed(events: seq<Event>): string {
    if events == [] then ""
    else (if events[0].FeedBytes? then events[0].bytes else "") + Fed(events[1..])
  }

  /** No flush of the run takes a short write back. */
  predicate NothingTakenBack(w: Writer, events: seq<Event>)
    decreases events
  {
    events == [] ||
    (&& (events[0].FlushOnce? ==> !TakesBack(w, events[0].env))
     && NothingTakenBack(Step(w, events[0]), events[1..]))
  }

  /** Every flush of the run that leaves new bytes in the file finds the descriptor at the end. */
  predicate WritesAtEnd(w: Writer, events: seq<Event>)
    decreases events
  {
    events == [] ||
    (&& (events[0].FlushOnce? ==> AtEnd(w) || !KeepsBytes(w, events[0].env))
     && WritesAtEnd(Step(w, events[0]), events[1..]))
  }

  /** At every moment of the run the file followed by the buffer is what was there and what was fed. */
  ghost predicate ConservedThroughout(w: Writer, events: seq<Event>) {
    forall k :: 0 <= k <= |events| ==> Conserved(w, Fed(events[..k]), Run(w, events[..k]))
  }

  lemma FirstStep(w: Writer, events: seq<Event>, k: nat)
    requires 0 < k <= |events|
    ensures Run(w, events[..k]) == Run(Step(w, events[0]), events[1..][..k - 1])
    ensures Fed(events[..k]) == Fed(events[..1]) + Fed(events[1..][..k - 1])
  {
    hide Step;
    assert events[..k][1..] == events[1..][..k - 1];
    assert events[..1][1..] == [] && Fed([]) == "";
    var first := if events[0].FeedBytes? then events[0].bytes else "";
    assert first + "" == first;
  }

  lemma ConservedFurther(w: Writer, first: string, w1: Writer, fed: string, w2: Writer)
    requires Conserved(w, first, w1)
    ensures Conserved(w, first + fed, w2) <==> Conserved(w1, fed, w2)
  {
    assert w.file + w.buf + (first + fed) == w.file + w.buf + first + fed;
  }

  lemma StepKeepsNotBefore(w: Writer, e: Event)
    requires SizeKnown(w) && NotBefore(w)
    ensures NotBefore(Step(w, e)) && Step(w, e).append == w.append
  {
    hide Flush;
    if e.FlushOnce? { FlushKeepsNotBefore(w, e.env); }
  }

  lemma StepConservesIff(w: Writer, e: Event)
    requires SizeKnown(w) && NotBefore(w)
    ensures Conserved(w, Fed([e]), Step(w, e)) <==> (e.FlushOnce? ==> AtEnd(w) || !KeepsBytes(w, e.env))
  {
    hide Flush, KeepsBytes;
    assert [e][1..] == [];
    if e.FlushOnce? {
      FlushConservesIff(w, e.env);
      assert Fed([e]) == "";
      assert w.file + w.buf + "" == w.file + w.buf;
    } else {
      assert Fed([e]) == e.bytes;
      assert w.file + (w.buf + e.bytes) == w.file + w.buf + e.bytes;
    }
  }

  lemma ThroughoutStep(w: Writer, events: seq<Event>)
    requires events != []
    ensures ConservedThroughout(w, events) ==> SizeKnown(w) && Conserved(w, Fed(events[..1]), Step(w, events[0]))
    ensures SizeKnown(w) && Conserved(w, Fed(events[..1]), Step(w, events[0])) ==>
              (ConservedThroughout(w, events) <==> ConservedThroughout(Step(w, events[0]), events[1..]))
  {
    hide Step, Fed;
    var (w1, tail) := (Step(w, events[0]), events[1..]);
    assert Run(w, events[..0]) == w;
    assert Run(w, events[..1]) == w1 by { FirstStep(w, events, 1); }
    assert Conserved(w, Fed(events[..0]), w) <==> SizeKnown(w) by { NothingFed(w); }
    if SizeKnown(w) && Conserved(w, Fed(events[..1]), w1) {
      forall k | 0 < k <= |events|
        ensures Conserved(w, Fed(events[..k]), Run(w, events[..k]))
           <==> Conserved(w1, Fed(tail[..k - 1]), Run(w1, tail[..k - 1]))
      {
        FirstStep(w, events, k);
        ConservedFurther(w, Fed(events[..1]), w1, Fed(tail[..k - 1]), Run(w1, tail[..k - 1]));
      }
      hide Conserved, Run;
      if ConservedThroughout(w1, tail) {
        forall k | 0 < k <= |events| ensures Conserved(w, Fed(events[..k]), Run(w, events[..k])) {
          assert Conserved(w1, Fed(tail[..k - 1]), Run(w1, tail[..k - 1]));
        }
      }
      if ConservedThroughout(w, events) {
        forall j | 0 <= j <= |tail| ensures Conserved(w1, Fed(tail[..j]), Run(w1, tail[..j])) {
          assert Conserved(w, Fed(events[..j + 1]), Run(w, events[..j + 1]));
        }
      }
    }
  }

  lemma NothingFed(w: Writer)
    ensures Conserved(w, Fed([]), w) <==> SizeKnown(w)
  {
    assert w.file + w.buf + "" == w.file + w.buf;
  }

  /** Conservation over every run, exactly: it holds throughout if and only if no flush leaves new
      bytes in the file while the descriptor stands past the end. */
  lemma {:induction false} RunConservesIff(w: Writer, events: seq<Event>)
    requires SizeKnown(w) && NotBefore(w)
    ensures ConservedThroughout(w, events) <==> WritesAtEnd(w, events)
    decreases events
  {
    if events == [] {
      NothingFed(w);
      assert forall k :: 0 <= k <= |events| ==> events[..k] == [];
    } else {
      hide Step, KeepsBytes, ConservedThroughout, NotBefore, AtEnd, Conserved, Fed;
      ThroughoutStep(w, events);
      assert events[..1] == [events[0]];
      StepConservesIff(w, events[0]);
      StepKeepsNotBefore(w, events[0]);
      if Conserved(w, Fed(events[..1]), Step(w, events[0])) {
        ConservedSize(w, Fed(events[..1]), Step(w, events[0]));
        RunConservesIff(Step(w, events[0]), events[1..]);
      }
    }
  }

  lemma ConservedSize(w: Writer, fed: string, w': Writer)
    requires Conserved(w, fed, w')
    ensures SizeKnown(w')
  {
  }

  lemma {:induction false} AppendWritesAtEnd(w: Writer, events: seq<Event>)
    requires w.append
    ensures WritesAtEnd(w, events)
    decreases events
  {
    if events != [] {
      assert Step(w, events[0]).append;
      hide Step, KeepsBytes;
      AppendWritesAtEnd(Step(w, events[0]), events[1..]);
    }
  }

  /** From the end of the file and without O_APPEND: no write past the end unless a short write
      was taken back. */
  lemma {:induction false} NothingTakenBackWritesAtEnd(w: Writer, events: seq<Event>)
    requires SizeKnown(w) && AtEnd(w) && !w.append && NothingTakenBack(w, events)
    ensures WritesAtEnd(w, events)
    decreases events
  {
    hide Flush, KeepsBytes, TakesBack;
    if events != [] {
      if events[0].FlushOnce? {
        FlushConservesIff(w, events[0].env);
        FlushStaysAtEndIff(w, events[0].env);
      }
      NothingTakenBackWritesAtEnd(Step(w, events[0]), events[1..]);
    }
  }

  /** Whatever the short writes, errors and truncations, a run from the end of the file conserves
      the bytes throughout if the descriptor has O_APPEND, or if no short write is taken back. */
  lemma RunConserves(w: Writer, events: seq<Event>)
    requires SizeKnown(w) && AtEnd(w)
    requires w.append || NothingTakenBack(w, events)
    ensures ConservedThroughout(w, events) && Conserved(w, Fed(events), Run(w, events))
  {
    RunConservesIff(w, events);
    if w.append { AppendWritesAtEnd(w, events); } else { NothingTakenBackWritesAtEnd(w, events); }
    assert events[..|events|] == events;
    hide Conserved, Run, Fed, WritesAtEnd;
  }

  /** Without O_APPEND one short write that is taken back spoils the next write: the file gets
      a hole of zeros and the recorded size is wrong. */
  lemma TakingBackSpoils(w: Writer, env1: Env, env2: Env)
    requires SizeKnown(w) && !w.append && w.offset == |w.file|
    requires TakesBack(w, env1) && KeepsBytes(Flush(w, env1), env2)
    ensures var w' := Run(w, [FlushOnce(env1), FlushOnce(env2)]);
            w'.file + w'.buf != w.file + w.buf && !SizeKnown(w')
  {
    FlushConservesIff(w, env1);
    FlushStaysAtEndIff(w, env1);
    var w1 := Flush(w, env1);
    FlushKeeping(w1, env2);
    var w2 := Flush(w1, env2);
    var n := Written(|w1.buf|, env2.writes);
    var gap := Zeros(Position(w1) - |w1.file|);
    assert |w2.file| == |w1.file| + |gap| + n;
    assert |w2.file + w2.buf| == |w1.file| + |gap| + |w1.buf|;
    var events := [FlushOnce(env1), FlushOnce(env2)];
    assert events[1..] == [FlushOnce(env2)] && events[1..][1..] == [];
    assert Run(w2, []) == w2;
    assert Run(w1, events[1..]) == w2;
    assert Run(w, events) == w2;
  }

  /** A short write, taken back. */
  const SHORT := Env(Never, true, 0, false, true, [Wrote(1)], true)

  lemma ShortTakesBack(w: Writer)
    requires |w.buf| >= 2
    ensures TakesBack(w, SHORT)
  {
    assert SHORT.writes[1..] == [];
  }

  /** What can be seen before a run: with the descriptor not before the end, every run conserves
      the bytes if and only if the file was opened with O_APPEND. */
  lemma EveryRunConservesIff(w: Writer)
    requires SizeKnown(w) && NotBefore(w)
    ensures (forall events :: ConservedThroughout(w, events)) <==> w.append
  {
    if w.append {
      forall events ensures ConservedThroughout(w, events) {
        RunConservesIff(w, events);
        AppendWritesAtEnd(w, events);
      }
    } else {
      SpoilingRun(w);
    }
  }

  lemma SpoilingRun(w: Writer)
    requires SizeKnown(w) && !w.append && w.offset >= |w.file|
    ensures exists events :: !ConservedThroughout(w, events)
  {
    var w1 := Feed(w, "ab");
    ShortTakesBack(w1);
    var w2 := Flush(w1, SHORT);
    var events := [FeedBytes("ab"), FlushOnce(SHORT), FlushOnce(Smooth(w2))];
    assert events[1..] == [FlushOnce(SHORT), FlushOnce(Smooth(w2))] && events[1..][1..] == [FlushOnce(Smooth(w2))];
    TakesBackMoves(w1, SHORT);
    SmoothKeeps(w2);
    RunConservesIff(w, events);
    hide Flush, KeepsBytes, ConservedThroughout;
    assert !WritesAtEnd(w2, [FlushOnce(Smooth(w2))]);
    assert !WritesAtEnd(w1, events[1..]);
  }

  /** What taking a short write back leaves: the file and the buffer as they were, and the
      descriptor past the end. */
  lemma TakesBackMoves(w: Writer, env: Env)
    requires SizeKnown(w) && !w.append && w.offset >= |w.file| && TakesBack(w, env)
    ensures var w' := Flush(w, env);
            w'.buf == w.buf && w'.file == w.file && w'.offset > |w'.file| && !w'.append
  {
    hide Written;
    var n := Written(|w.buf|, env.writes);
    var stored := StoreAt(w.file, Position(w), w.buf[..n]);
    assert stored[..|w.file|] == w.file;
  }

  // ---------- When the file is synced ----------

  /** The offset handed to the last fsync job is within the file. */
  predicate FsyncWithin(w: Writer) { w.fsyncOffset <= w.lastIncrSize }

  lemma FlushSyncs(w: Writer, env: Env)
    requires FsyncWithin(w)
    ensures var w' := Flush(w, env);
            && FsyncWithin(w') && w'.lastFsync >= w.lastFsync
            && w'.fsyncJobs - w.fsyncJobs <= w'.lastFsync - w.lastFsync
            && (w'.fsyncJobs > w.fsyncJobs ==> w'.fsyncOffset == w'.lastIncrSize)
  {
    hide Written, StoreAt, Truncate;
  }

  /** Over every run at most one fsync job is started per tick of the clock, and no job is for more
      than the file has. */
  lemma {:induction false} RunSyncsOncePerTick(w: Writer, events: seq<Event>)
    requires FsyncWithin(w)
    ensures var w' := Run(w, events);
            FsyncWithin(w') && w'.fsyncJobs - w.fsyncJobs <= w'.lastFsync - w.lastFsync
    decreases events
  {
    hide Flush;
    if events != [] {
      if events[0].FlushOnce? { FlushSyncs(w, events[0].env); }
      RunSyncsOncePerTick(Step(w, events[0]), events[1..]);
    }
  }

  /** Under everysec, once the clock has moved on and no fsync is under way, a flush that gets
      everything out, or finds nothing to write, leaves nothing in the file without an fsync job. */
  lemma EverySecCovers(w: Writer, env: Env)
    requires env.policy == EverySec && !env.skipFsync && !env.syncInProgress && env.now > w.lastFsync
    requires Written(|w.buf|, env.writes) == |w.buf|
    ensures var w' := Flush(w, env); w'.buf == "" && w'.fsyncOffset == w'.lastIncrSize
  {
    hide Written, StoreAt;
  }

  /** Every flush of the run is put off because of a running fsync. */
  predicate AllPostponed(w: Writer, envs: seq<Env>)
    decreases envs
  {
    envs == [] || (w.buf != "" && Postpones(w, envs[0]) && AllPostponed(Flush(w, envs[0]), envs[1..]))
  }

  function FlushAll(w: Writer, envs: seq<Env>): Writer
    decreases envs
  {
    if envs == [] then w else FlushAll(Flush(w, envs[0]), envs[1..])
  }

  lemma {:induction false} PostponedSince(w: Writer, envs: seq<Env>)
    requires w.postponedStart != 0 && AllPostponed(w, envs)
    ensures FlushAll(w, envs).postponedStart == w.postponedStart
    decreases envs
  {
    if envs != [] { PostponedSince(Flush(w, envs[0]), envs[1..]); }
  }

  /** However many flushes are put off in a row, none is two seconds or more after the first of them. */
  lemma PostponedUnderTwoSeconds(w: Writer, envs: seq<Env>, env: Env)
    requires w.postponedStart == 0 && envs != [] && envs[0].now != 0 && AllPostponed(w, envs)
    requires Postpones(FlushAll(w, envs), env)
    ensures env.now - envs[0].now < 2
  {
    PostponedSince(Flush(w, envs[0]), envs[1..]);
  }
}
