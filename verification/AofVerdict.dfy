/** What the loader refuses (aof.c): bytes that are no command, unknown commands, and, with
    `aof-load-truncated no`, a log that ends too early. The file is never touched then. */
module AofVerdict {
  import opened Text
  import opened AofLog

  // ---------- Loading commands with something behind them ----------

  lemma {:induction false} LoadOn(table: Table, lt: bool, cmds: seq<Argv>, rest: string, st: State)
    requires Loadable(table, cmds)
    ensures LoadFrom(table, lt, Encode(cmds) + rest, st) == LoadFrom(table, lt, rest, RunAll(table, lt, cmds, st))
  {
    hide NextItem, RunCommand, EndOfFile, EncodeCommand;
    if cmds == [] {
      assert Encode(cmds) + rest == rest;
    } else {
      var (first, more) := (EncodeCommand(cmds[0]), Encode(cmds[1..]) + rest);
      assert Encode(cmds) + rest == first + more;
      ReadCommand(cmds[0], more);
      LoadOn(table, lt, cmds[1..], rest, RunCommand(table, lt, cmds[0], st, st.pos + |first|));
    }
  }

  /** The same commands have taken effect or are held back. */
  predicate Alike(a: State, b: State) {
    a.pos == b.pos && a.inMulti == b.inMulti && a.queue == b.queue && a.done == b.done
  }

  /** Whether truncated logs are accepted makes no difference to what the commands do. */
  lemma {:induction false} RunAllAlike(table: Table, lt: bool, cmds: seq<Argv>, a: State, b: State)
    requires Alike(a, b)
    ensures Alike(RunAll(table, lt, cmds, a), RunAll(table, true, cmds, b))
  {
    hide EncodeCommand;
    if cmds != [] {
      var end := a.pos + |EncodeCommand(cmds[0])|;
      RunAllAlike(table, lt, cmds[1..], RunCommand(table, lt, cmds[0], a, end), RunCommand(table, true, cmds[0], b, end));
    }
  }

  /** What is in effect after the commands: all of them, or those before a MULTI left open. */
  ghost predicate InEffect(table: Table, cmds: seq<Argv>, done: seq<Argv>) {
    && (AllClosed(table, cmds) ==> done == Effective(table, cmds))
    && (forall i: nat :: LeftOpen(table, cmds, i) ==> done == Effective(table, cmds[..i]))
  }

  lemma DoneAfter(table: Table, lt: bool, cmds: seq<Argv>)
    requires Loadable(table, cmds) && NoNestedMulti(table, cmds)
    ensures var st := RunAll(table, lt, cmds, START);
            InEffect(table, cmds, st.done) && (st.inMulti <==> !AllClosed(table, cmds))
  {
    RunAllExplained(table, cmds);
    OpenAtIsLeftOpen(table, cmds);
    RunAllAlike(table, lt, cmds, START, START);
    hide RunAll, Effective, LeftOpen, Encode;
  }

  // ---------- Bytes that are no command ----------

  /** Something unreadable behind any commands: refused, whatever the setting, and the file stays. */
  lemma UnreadableFails(table: Table, lt: bool, cmds: seq<Argv>, bad: string)
    requires Loadable(table, cmds) && NoNestedMulti(table, cmds) && NextItem(bad) == Unreadable
    ensures var r := LoadFile(table, lt, Encode(cmds) + bad);
            r.ret == AofFailed && r.file == Encode(cmds) + bad && InEffect(table, cmds, r.done)
  {
    LoadOn(table, lt, cmds, bad, START);
    DoneAfter(table, lt, cmds);
    assert bad != "";
    hide NextItem, Encode, RunAll, InEffect;
  }

  /** A line that starts with neither `*` nor `#`. */
  lemma ForeignBytesFail(table: Table, lt: bool, cmds: seq<Argv>, bad: string)
    requires Loadable(table, cmds) && NoNestedMulti(table, cmds) && bad != "" && bad[0] != '*' && bad[0] != '#'
    ensures var r := LoadFile(table, lt, Encode(cmds) + bad);
            r.ret == AofFailed && r.file == Encode(cmds) + bad && InEffect(table, cmds, r.done)
  {
    assert NextItem(bad) == Unreadable;
    hide NextItem, LoadFile, InEffect;
    UnreadableFails(table, lt, cmds, bad);
  }

  /** A command that announces no arguments. */
  lemma NoArgumentsFail(table: Table, lt: bool, cmds: seq<Argv>, rest: string)
    requires Loadable(table, cmds) && NoNestedMulti(table, cmds)
    ensures var file := Encode(cmds) + (['*'] + Dec(0) + "\r\n" + rest);
            var r := LoadFile(table, lt, file);
            r.ret == AofFailed && r.file == file && InEffect(table, cmds, r.done)
  {
    var bad := ['*'] + Dec(0) + "\r\n" + rest;
    HeaderLine('*', 0, rest);
    assert bad[0] == '*' && bad[1] == '0';
    assert NextItem(bad) == Unreadable by { hide LineLength, Atoi, Dec; }
    hide NextItem, LoadFile, InEffect, Dec;
    UnreadableFails(table, lt, cmds, bad);
  }

  /** A command whose first argument does not start with `$`. */
  lemma BadArgumentFails(table: Table, lt: bool, cmds: seq<Argv>, n: nat, body: string)
    requires Loadable(table, cmds) && NoNestedMulti(table, cmds)
    requires n > 0 && |Dec(n)| <= 29 && body != "" && body[0] != '$'
    ensures var file := Encode(cmds) + (['*'] + Dec(n) + "\r\n" + body);
            var r := LoadFile(table, lt, file);
            r.ret == AofFailed && r.file == file && InEffect(table, cmds, r.done)
  {
    var bad := ['*'] + Dec(n) + "\r\n" + body;
    HeaderLine('*', n, body);
    assert bad[0] == '*' && bad[1] == Dec(n)[0] && bad[1] != '\0';
    assert ReadBulkString(body) == MalformedBulk;
    assert NextItem(bad) == Unreadable by { hide LineLength, Atoi, Dec, ReadBulkString; }
    hide NextItem, LoadFile, InEffect, Dec;
    UnreadableFails(table, lt, cmds, bad);
  }

  /** A command the server does not know. */
  lemma UnknownFails(table: Table, lt: bool, cmds: seq<Argv>, unknown: Argv, rest: string)
    requires Loadable(table, cmds) && NoNestedMulti(table, cmds) && Encodable(unknown) && table(unknown).Unknown?
    ensures var file := Encode(cmds) + (EncodeCommand(unknown) + rest);
            var r := LoadFile(table, lt, file);
            r.ret == AofFailed && r.file == file && InEffect(table, cmds, r.done)
  {
    LoadOn(table, lt, cmds, EncodeCommand(unknown) + rest, START);
    DoneAfter(table, lt, cmds);
    hide NextItem, Encode, RunAll, InEffect, EncodeCommand;
    ReadCommand(unknown, rest);
  }

  lemma AnnotationPassed(table: Table, lt: bool, note: string, rest: string, st: State)
    requires '\n' !in note && |note| < LINE_BUFFER - 2
    ensures LoadFrom(table, lt, "#" + note + "\n" + rest, st) == LoadFrom(table, lt, rest, st.(pos := st.pos + |note| + 2))
  {
    var line := "#" + note;
    var s := line + "\n" + rest;
    LineLengthWhole(line, rest, LINE_BUFFER - 1);
    assert s[0] == '#' && s[|line| + 1..] == rest;
    assert NextItem(s) == Annotation(rest) by { hide LineLength; }
    hide NextItem, RunCommand, EndOfFile;
  }

  lemma SomeBytes(cmds: seq<Argv>)
    ensures cmds != [] ==> Encode(cmds) != ""
  {
  }

  /** An annotation line is skipped: what stands behind it is loaded as if it was not there. */
  lemma AnnotationSkipped(table: Table, lt: bool, cmds: seq<Argv>, note: string, more: seq<Argv>)
    requires Loadable(table, cmds) && Loadable(table, more) && cmds + more != []
    requires '\n' !in note && |note| < LINE_BUFFER - 2
    ensures var r := LoadFile(table, lt, Encode(cmds) + ("#" + note + "\n" + Encode(more)));
            var plain := LoadFile(table, lt, Encode(cmds + more));
            r.ret == plain.ret && r.done == plain.done
  {
    hide RunAll, Encode, LoadFrom;
    SomeBytes(cmds + more);
    var st := RunAll(table, lt, cmds, START);
    LoadOn(table, lt, cmds, "#" + note + "\n" + Encode(more), START);
    AnnotationPassed(table, lt, note, Encode(more), st);
    EncodeAppend(cmds, more);
    LoadOn(table, lt, cmds, Encode(more), START);
    LoadShifted(table, lt, more, st, st.(pos := st.pos + |note| + 2));
  }

  predicate Shifted(a: State, b: State) { a.inMulti == b.inMulti && a.queue == b.queue && a.done == b.done }

  lemma {:induction false} RunAllShifted(table: Table, lt: bool, cmds: seq<Argv>, a: State, b: State)
    requires Shifted(a, b)
    ensures Shifted(RunAll(table, lt, cmds, a), RunAll(table, lt, cmds, b))
  {
    hide EncodeCommand;
    if cmds != [] {
      var n := |EncodeCommand(cmds[0])|;
      RunAllShifted(table, lt, cmds[1..], RunCommand(table, lt, cmds[0], a, a.pos + n), RunCommand(table, lt, cmds[0], b, b.pos + n));
    }
  }

  lemma LoadShifted(table: Table, lt: bool, cmds: seq<Argv>, a: State, b: State)
    requires Loadable(table, cmds) && Shifted(a, b)
    ensures var (x, y) := (LoadFrom(table, lt, Encode(cmds), a), LoadFrom(table, lt, Encode(cmds), b));
            x.0 == y.0 && x.1.done == y.1.done
  {
    assert Encode(cmds) + "" == Encode(cmds);
    LoadOn(table, lt, cmds, "", a);
    LoadOn(table, lt, cmds, "", b);
    RunAllShifted(table, lt, cmds, a, b);
    NothingLeft();
    hide RunAll, Encode, NextItem;
  }

  /** An empty file is told apart from one that loads. */
  lemma EmptyFile(table: Table, lt: bool, file: string)
    ensures LoadFile(table, lt, file).ret == AofEmpty <==> file == ""
  {
    hide NextItem;
    if file != "" { NeverEmpty(table, lt, file, START); }
  }

  lemma {:induction false} NeverEmpty(table: Table, lt: bool, s: string, st: State)
    ensures LoadFrom(table, lt, s, st).0 != AofEmpty
    decreases |s|
  {
    hide NextItem, RunCommand;
    match NextItem(s)
    case Annotation(rest) => NeverEmpty(table, lt, rest, st.(pos := st.pos + |s| - |rest|));
    case Command(argv, rest) =>
      if !table(argv).Unknown? {
        NeverEmpty(table, lt, rest, RunCommand(table, lt, argv, st, st.pos + |s| - |rest|));
      }
    case _ =>
  }

  // ---------- A log that ends too early ----------

  /** With `aof-load-truncated no` a log cut inside a command, or with a MULTI left open, is refused
      and left as it is; any other is loaded. */
  lemma CutRefused(table: Table, cmds: seq<Argv>, cut: nat)
    requires Loadable(table, cmds) && NoNestedMulti(table, cmds) && 0 < cut <= |Encode(cmds)|
    ensures var k := Complete(cmds, cut);
            var r := LoadFile(table, false, Encode(cmds)[..cut]);
            && r.file == Encode(cmds)[..cut] && InEffect(table, cmds[..k], r.done)
            && r.ret == if cut == |Encode(cmds[..k])| && AllClosed(table, cmds[..k]) then AofOk else AofFailed
  {
    var k := Complete(cmds, cut);
    LoadCut(table, false, cmds, cut, START);
    NoNestedPrefix(table, cmds, k);
    DoneAfter(table, false, cmds[..k]);
    hide LoadFrom, Complete, Encode, RunAll, InEffect, AllClosed, NoNestedMulti;
  }
}
