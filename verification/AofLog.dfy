/** The append-only log at byte level (aof.c): the command encoder, the loader with its
    truncation repair, and what loading a log cut at any byte does. */
module AofLog {
  import opened Text

  type Argv = seq<string>

  // ---------- Encoding ----------

  function Bulk(a: string): string {
    "$" + Dec(|a|) + "\r\n" + a + "\r\n"
  }

  function Bulks(args: Argv): string {
    if args == [] then "" else Bulk(args[0]) + Bulks(args[1..])
  }

  function EncodeCommand(argv: Argv): (s: string)
    ensures |s| > 0
  {
    "*" + Dec(|argv|) + "\r\n" + Bulks(argv)
  }

  function Encode(cmds: seq<Argv>): string {
    if cmds == [] then "" else EncodeCommand(cmds[0]) + Encode(cmds[1..])
  }

  /** `catAppendOnlyGenericCommand`. */
  method CatAppendOnlyGenericCommand(dst: string, argv: Argv) returns (out: string)
    ensures out == dst + EncodeCommand(argv)
  {
    out := dst + ("*" + Dec(|argv|) + "\r\n");
    var j := 0;
    while j < |argv|
      invariant 0 <= j <= |argv|
      invariant out + Bulks(argv[j..]) == dst + EncodeCommand(argv)
    {
      assert Bulks(argv[j..]) == Bulk(argv[j]) + Bulks(argv[j + 1..]);
      out := out + Bulk(argv[j]);
      j := j + 1;
    }
  }

  /** A command whose headers fit the encoder's 32-byte buffer. */
  predicate Encodable(argv: Argv) {
    argv != [] && |Dec(|argv|)| <= 29 && forall i :: 0 <= i < |argv| ==> |Dec(|argv[i]|)| <= 29
  }

  // ---------- Loading ----------

  /** AOF_ANNOTATION_LINE_MAX_LEN: the size of the loader's line buffer. */
  const LINE_BUFFER := 1024

  /** What the command table says of a command: MULTI, EXEC, any other known one, or unknown. */
  datatype Kind = Multi | Exec | Other | Unknown

  type Table = Argv -> Kind

  datatype BulkResult = BulkString(arg: string, rest: string) | ShortBulk | MalformedBulk

  /** One argument: its length line, its bytes and the CRLF behind them. A negative length
      wraps to a huge one that the loader cannot allocate. */
  function ReadBulkString(s: string): (r: BulkResult)
    ensures r.BulkString? ==> |r.rest| < |s|
  {
    if s == "" then ShortBulk
    else
      var k := LineLength(s, LINE_BUFFER - 1);
      var (line, body) := (s[..k], s[k..]);
      var len := Atoi(line[1..]);
      if line[0] != '$' || len < 0 then MalformedBulk
      else if |body| < len + 2 then ShortBulk
      else BulkString(body[..len], body[len + 2..])
  }

  datatype ReadResult = Args(argv: Argv, rest: string) | Short | Malformed

  /** The argument loop of the loader: `n` bulk strings from the front of `s`. */
  function ReadArgs(s: string, n: nat): (r: ReadResult)
    ensures r.Args? ==> |r.rest| <= |s|
    decreases n
  {
    if n == 0 then Args([], s)
    else
      match ReadBulkString(s)
      case ShortBulk => Short
      case MalformedBulk => Malformed
      case BulkString(arg, rest) => PrependArgs([arg], ReadArgs(rest, n - 1))
  }

  function PrependArgs(argv: Argv, r: ReadResult): ReadResult {
    if r.Args? then Args(argv + r.argv, r.rest) else r
  }

  datatype Item = EndOfLog | Annotation(rest: string) | Command(argv: Argv, rest: string) | ShortRead | Unreadable

  /** What the loader finds next: one line, and the arguments it announces. */
  function NextItem(s: string): (r: Item)
    ensures (r.Annotation? || r.Command?) ==> |r.rest| < |s|
  {
    if s == "" then EndOfLog
    else
      var k := LineLength(s, LINE_BUFFER - 1);
      var (line, body) := (s[..k], s[k..]);
      if line[0] == '#' then Annotation(body)
      else if line[0] != '*' then Unreadable
      else if k == 1 || line[1] == '\0' then
        if body == "" && '\n' !in line && k < LINE_BUFFER - 1 then ShortRead else Unreadable
      else
        var argc := Atoi(line[1..]);
        if argc < 1 then Unreadable
        else
          match ReadArgs(body, argc)
          case Args(argv, rest) => Command(argv, rest)
          case Short => ShortRead
          case Malformed => Unreadable
  }

  /** The loader's variables: `pos` is the file offset, `done` the commands that took effect,
      `queue` those held back by an open MULTI. */
  datatype State = State(pos: nat, validUpTo: nat, validBeforeMulti: nat,
                         inMulti: bool, queue: seq<Argv>, done: seq<Argv>)

  const START := State(0, 0, 0, false, [], [])

  datatype Ret = AofOk | AofTruncated | AofFailed | AofEmpty

  /** Running one loaded command in the fake client; `end` is the offset just after it. */
  function RunCommand(table: Table, loadTruncated: bool, argv: Argv, st: State, end: nat): State {
    var kind := table(argv);
    var st1 := st.(validBeforeMulti := if kind.Multi? then st.validUpTo else st.validBeforeMulti);
    var st2 :=
      if st1.inMulti && !kind.Exec? then st1.(queue := st1.queue + [argv])
      else if kind.Multi? then st1.(inMulti := true, queue := [])
      else if kind.Exec? then
        if st1.inMulti then st1.(inMulti := false, done := st1.done + st1.queue, queue := []) else st1
      else st1.(done := st1.done + [argv]);
    st2.(pos := end, validUpTo := if loadTruncated then end else st2.validUpTo)
  }

  /** The `uxeof` label. */
  function UnexpectedEof(loadTruncated: bool, st: State): (Ret, State) {
    (if loadTruncated then AofTruncated else AofFailed, st)
  }

  /** End of file between two commands. */
  function EndOfFile(loadTruncated: bool, st: State): (Ret, State) {
    if st.inMulti then UnexpectedEof(loadTruncated, st.(validUpTo := st.validBeforeMulti))
    else (AofOk, st)
  }

  /** The main loop of `loadSingleAppendOnlyFile` on the unread suffix `s`. */
  function LoadFrom(table: Table, loadTruncated: bool, s: string, st: State): (Ret, State)
    decreases |s|
  {
    match NextItem(s)
    case EndOfLog => EndOfFile(loadTruncated, st)
    case ShortRead => UnexpectedEof(loadTruncated, st)
    case Unreadable => (AofFailed, st)
    case Annotation(rest) => LoadFrom(table, loadTruncated, rest, st.(pos := st.pos + |s| - |rest|))
    case Command(argv, rest) =>
      if table(argv).Unknown? then (AofFailed, st)
      else LoadFrom(table, loadTruncated, rest,
                    RunCommand(table, loadTruncated, argv, st, st.pos + |s| - |rest|))
  }

  datatype Loaded = Loaded(ret: Ret, done: seq<Argv>, file: string)

  /** `loadSingleAppendOnlyFile`: the verdict, the commands that took effect and the file as
      the repair leaves it. */
  function LoadFile(table: Table, loadTruncated: bool, file: string): Loaded {
    if file == "" then Loaded(AofEmpty, [], file)
    else
      var (ret, st) := LoadFrom(table, loadTruncated, file, START);
      Loaded(ret, st.done, if ret.AofTruncated? && st.validUpTo <= |file| then file[..st.validUpTo] else file)
  }

  /** The same loop, as the source writes it. */
  method LoadSingleAppendOnlyFile(table: Table, loadTruncated: bool, file: string) returns (r: Loaded)
    ensures r == LoadFile(table, loadTruncated, file)
  {
    hide NextItem, RunCommand, EndOfFile;
    if file == "" { return Loaded(AofEmpty, [], file); }
    var s, st, result := file, START, (AofOk, START);
    while true
      invariant LoadFrom(table, loadTruncated, s, st) == LoadFrom(table, loadTruncated, file, START)
      decreases |s|
    {
      var item := ReadItem(s);
      match item {
        case EndOfLog => result := EndOfFile(loadTruncated, st); break;
        case ShortRead => result := UnexpectedEof(loadTruncated, st); break;
        case Unreadable => result := (AofFailed, st); break;
        case Annotation(rest) =>
          st := st.(pos := st.pos + |s| - |rest|);
          s := rest;
        case Command(argv, rest) =>
          if table(argv).Unknown? { result := (AofFailed, st); break; }
          st := RunCommand(table, loadTruncated, argv, st, st.pos + |s| - |rest|);
          s := rest;
      }
    }
    var (ret, last) := result;
    r := Loaded(ret, last.done, if ret.AofTruncated? && last.validUpTo <= |file| then file[..last.validUpTo] else file);
  }

  /** One turn of the loop: a line and, for a command, the arguments it announces. */
  method ReadItem(s: string) returns (r: Item)
    ensures r == NextItem(s)
  {
    hide ReadBulkString, LineLength, Atoi;
    if s == "" { return EndOfLog; }
    var k := LineLength(s, LINE_BUFFER - 1);
    var line, body := s[..k], s[k..];
    if line[0] == '#' { return Annotation(body); }
    if line[0] != '*' { return Unreadable; }
    if k == 1 || line[1] == '\0' {
      return if body == "" && '\n' !in line && k < LINE_BUFFER - 1 then ShortRead else Unreadable;
    }
    var argc := Atoi(line[1..]);
    if argc < 1 { return Unreadable; }
    var argv: Argv, rest := [], body;
    for j := 0 to argc
      invariant PrependArgs(argv, ReadArgs(rest, argc - j)) == ReadArgs(body, argc)
    {
      var bulk := ReadBulkString(rest);
      if bulk.ShortBulk? { return ShortRead; }
      if bulk.MalformedBulk? { return Unreadable; }
      PrependTwice(argv, [bulk.arg], ReadArgs(bulk.rest, argc - j - 1));
      argv := argv + [bulk.arg];
      rest := bulk.rest;
    }
    assert argv + [] == argv;
    r := Command(argv, rest);
  }

  lemma PrependTwice(a: Argv, b: Argv, r: ReadResult)
    ensures PrependArgs(a, PrependArgs(b, r)) == PrependArgs(a + b, r)
  {
    if r.Args? { assert a + (b + r.argv) == a + b + r.argv; }
  }

  // ---------- Reading back what the encoder wrote ----------

  /** A header line `<c><n>\r\n` is read whole and its number comes back. */
  lemma HeaderLine(c: char, n: nat, rest: string)
    requires c != '\n' && |Dec(n)| <= 29
    ensures var s := [c] + Dec(n) + "\r\n" + rest;
            var k := LineLength(s, LINE_BUFFER - 1);
            && k == |Dec(n)| + 3 && s[..k] == [c] + Dec(n) + "\r\n" && s[k..] == rest
            && Atoi(s[..k][1..]) == n
  {
    var h := [c] + Dec(n) + "\r";
    assert h + "\n" + rest == [c] + Dec(n) + "\r\n" + rest;
    LineLengthWhole(h, rest, LINE_BUFFER - 1);
    assert ([c] + Dec(n) + "\r\n")[1..] == Dec(n) + "\r\n";
    AtoiDec(n, "\r\n");
  }

  /** A header cut before its newline is read as one short last line. */
  lemma HeaderCut(c: char, n: nat, cut: nat)
    requires c != '\n' && |Dec(n)| <= 29 && 1 <= cut <= |Dec(n)| + 2
    ensures var s := ([c] + Dec(n) + "\r\n")[..cut];
            && LineLength(s, LINE_BUFFER - 1) == cut && '\n' !in s && s[0] == c
            && s[..cut] == s && s[cut..] == ""
            && Atoi(s[1..]) >= 0
            && (n >= 1 && cut >= 2 ==> Atoi(s[1..]) >= 1)
            && (cut >= 2 ==> s[1] != '\0')
  {
    var whole := [c] + Dec(n) + "\r\n";
    var s := whole[..cut];
    LineLengthLast(s, LINE_BUFFER - 1);
    if cut >= 2 {
      assert s[1] == Dec(n)[0];
      assert SkipSpaces(s[1..]) == s[1..];
      if cut <= |Dec(n)| + 1 {
        assert s[1..] == Dec(n)[..cut - 1];
        if n >= 1 { AtoiDecPrefix(n, cut - 1); }
      } else {
        assert s[1..] == Dec(n) + "\r";
        AtoiDec(n, "\r");
      }
    }
  }

  lemma Regroup(h: string, a: string, e: string, rest: string)
    ensures (h + a + e) + rest == h + (a + e + rest)
  {
  }

  lemma BulkShape(a: string, rest: string)
    ensures Bulk(a) + rest == ['$'] + Dec(|a|) + "\r\n" + (a + "\r\n" + rest)
  {
    hide Dec;
    Regroup("$" + Dec(|a|) + "\r\n", a, "\r\n", rest);
  }

  /** One bulk string, then whatever follows. */
  lemma ReadBulk(a: string, rest: string)
    requires |Dec(|a|)| <= 29
    ensures ReadBulkString(Bulk(a) + rest) == BulkString(a, rest)
  {
    hide Dec, LineLength, Atoi, Bulk;
    var body := a + "\r\n" + rest;
    BulkShape(a, rest);
    HeaderLine('$', |a|, body);
    assert body[..|a|] == a && body[|a| + 2..] == rest;
  }

  lemma {:induction false} ReadBulks(args: Argv, rest: string)
    requires forall i :: 0 <= i < |args| ==> |Dec(|args[i]|)| <= 29
    ensures ReadArgs(Bulks(args) + rest, |args|) == Args(args, rest)
  {
    if args == [] {
      assert "" + rest == rest;
    } else {
      assert Bulks(args) + rest == Bulk(args[0]) + (Bulks(args[1..]) + rest);
      ReadBulk(args[0], Bulks(args[1..]) + rest);
      ReadBulks(args[1..], rest);
      assert [args[0]] + args[1..] == args;
    }
  }

  lemma BulkCut(a: string, cut: nat)
    requires |Dec(|a|)| <= 29 && cut < |Bulk(a)|
    ensures ReadBulkString(Bulk(a)[..cut]) == ShortBulk
  {
    var header := ['$'] + Dec(|a|) + "\r\n";
    var s := Bulk(a)[..cut];
    if 1 <= cut < |header| {
      assert s == header[..cut];
      HeaderCut('$', |a|, cut);
    } else if cut >= |header| {
      var body := (a + "\r\n")[..cut - |header|];
      assert s == header + body;
      HeaderLine('$', |a|, body);
    }
  }

  lemma {:induction false} BulksCut(args: Argv, cut: nat)
    requires forall i :: 0 <= i < |args| ==> |Dec(|args[i]|)| <= 29
    requires cut < |Bulks(args)|
    ensures ReadArgs(Bulks(args)[..cut], |args|) == Short
  {
    var first := Bulk(args[0]);
    if cut < |first| {
      assert Bulks(args)[..cut] == first[..cut];
      BulkCut(args[0], cut);
    } else {
      var tail := Bulks(args[1..])[..cut - |first|];
      assert Bulks(args)[..cut] == first + tail;
      ReadBulk(args[0], tail);
      BulksCut(args[1..], cut - |first|);
    }
  }

  /** A complete command is read whole. */
  lemma ReadCommand(argv: Argv, rest: string)
    requires Encodable(argv)
    ensures NextItem(EncodeCommand(argv) + rest) == Command(argv, rest)
  {
    var s := EncodeCommand(argv) + rest;
    var body := Bulks(argv) + rest;
    assert s == ['*'] + Dec(|argv|) + "\r\n" + body;
    HeaderLine('*', |argv|, body);
    assert s[1] == Dec(|argv|)[0];
    ReadBulks(argv, rest);
  }

  lemma HeaderOnly(argv: Argv, cut: nat)
    requires Encodable(argv) && 0 < cut < |Dec(|argv|)| + 3
    ensures NextItem(EncodeCommand(argv)[..cut]) == ShortRead
  {
    var header := ['*'] + Dec(|argv|) + "\r\n";
    assert EncodeCommand(argv) == header + Bulks(argv);
    assert EncodeCommand(argv)[..cut] == header[..cut];
    hide EncodeCommand, Dec, LineLength, Atoi, ReadArgs;
    HeaderCut('*', |argv|, cut);
  }

  lemma ArgsCut(argv: Argv, cut: nat)
    requires Encodable(argv) && cut < |Bulks(argv)|
    ensures NextItem(['*'] + Dec(|argv|) + "\r\n" + Bulks(argv)[..cut]) == ShortRead
  {
    hide Dec, LineLength, Atoi, ReadArgs, Bulks;
    var body := Bulks(argv)[..cut];
    HeaderLine('*', |argv|, body);
    BulksCut(argv, cut);
    assert (['*'] + Dec(|argv|) + "\r\n" + body)[1] == Dec(|argv|)[0];
  }

  /** A command cut anywhere inside is a short read, never a format error. */
  lemma ReadCommandCut(argv: Argv, cut: nat)
    requires Encodable(argv) && 0 < cut < |EncodeCommand(argv)|
    ensures NextItem(EncodeCommand(argv)[..cut]) == ShortRead
  {
    hide Dec, NextItem, Bulks, Encodable;
    var header := ['*'] + Dec(|argv|) + "\r\n";
    assert EncodeCommand(argv) == header + Bulks(argv);
    if cut < |header| {
      HeaderOnly(argv, cut);
    } else {
      ArgsCut(argv, cut - |header|);
      assert (header + Bulks(argv))[..cut] == header + Bulks(argv)[..cut - |header|];
    }
  }

  // ---------- A log cut anywhere ----------

  /** How many commands of `cmds` lie whole within the first `cut` bytes. */
  function Complete(cmds: seq<Argv>, cut: nat): (k: nat)
    ensures k <= |cmds|
  {
    if cmds == [] || cut < |EncodeCommand(cmds[0])| then 0
    else 1 + Complete(cmds[1..], cut - |EncodeCommand(cmds[0])|)
  }

  function RunAll(table: Table, lt: bool, cmds: seq<Argv>, st: State): State {
    if cmds == [] then st
    else RunAll(table, lt, cmds[1..], RunCommand(table, lt, cmds[0], st, st.pos + |EncodeCommand(cmds[0])|))
  }

  ghost predicate Loadable(table: Table, cmds: seq<Argv>) {
    forall i :: 0 <= i < |cmds| ==> Encodable(cmds[i]) && !table(cmds[i]).Unknown?
  }

  lemma NothingLeft()
    ensures NextItem("") == EndOfLog
  {
  }

  lemma {:induction false} LoadCut(table: Table, lt: bool, cmds: seq<Argv>, cut: nat, st: State)
    requires Loadable(table, cmds) && cut <= |Encode(cmds)|
    ensures var k := Complete(cmds, cut);
            var st' := RunAll(table, lt, cmds[..k], st);
            && |Encode(cmds[..k])| <= cut
            && LoadFrom(table, lt, Encode(cmds)[..cut], st)
               == if |Encode(cmds[..k])| == cut then EndOfFile(lt, st') else UnexpectedEof(lt, st')
  {
    hide NextItem, RunCommand, EndOfFile, EncodeCommand;
    var k := Complete(cmds, cut);
    NothingLeft();
    if cmds == [] {
    } else if cut < |EncodeCommand(cmds[0])| {
      assert Encode(cmds)[..cut] == EncodeCommand(cmds[0])[..cut];
      if cut > 0 { ReadCommandCut(cmds[0], cut); }
    } else {
      var first := EncodeCommand(cmds[0]);
      var rest := Encode(cmds[1..])[..cut - |first|];
      assert Encode(cmds)[..cut] == first + rest;
      ReadCommand(cmds[0], rest);
      LoadCut(table, lt, cmds[1..], cut - |first|, RunCommand(table, lt, cmds[0], st, st.pos + |first|));
      assert cmds[..k][1..] == cmds[1..][..k - 1];
    }
  }

  // ---------- What took effect, stated without the loader ----------

  /** The commands other than MULTI and EXEC, in order. */
  function Effective(table: Table, cmds: seq<Argv>): seq<Argv> {
    if cmds == [] then []
    else
      var last := cmds[|cmds| - 1];
      Effective(table, cmds[..|cmds| - 1]) + if table(last).Other? then [last] else []
  }

  /** Command `i` is a MULTI that no later EXEC closes. */
  ghost predicate LeftOpen(table: Table, cmds: seq<Argv>, i: nat) {
    i < |cmds| && table(cmds[i]).Multi? && forall j :: i < j < |cmds| ==> !table(cmds[j]).Exec?
  }

  ghost predicate AllClosed(table: Table, cmds: seq<Argv>) {
    forall i: nat :: !LeftOpen(table, cmds, i)
  }

  /** No MULTI stands inside a MULTI: whenever one occurs, every earlier one is closed. */
  ghost predicate NoNestedMulti(table: Table, cmds: seq<Argv>) {
    forall j :: 0 <= j < |cmds| && table(cmds[j]).Multi? ==> AllClosed(table, cmds[..j])
  }

  lemma {:induction false} RunAllSnoc(table: Table, cmds: seq<Argv>, last: Argv, st: State)
    ensures RunAll(table, true, cmds + [last], st)
         == var st' := RunAll(table, true, cmds, st);
            RunCommand(table, true, last, st', st'.pos + |EncodeCommand(last)|)
  {
    hide RunCommand, EncodeCommand;
    if cmds == [] {
      assert [] + [last] == [last];
      assert [last][1..] == [];
    } else {
      assert (cmds + [last])[1..] == cmds[1..] + [last];
      RunAllSnoc(table, cmds[1..], last, RunCommand(table, true, cmds[0], st, st.pos + |EncodeCommand(cmds[0])|));
    }
  }

  lemma {:induction false} EncodeAppend(a: seq<Argv>, b: seq<Argv>)
    ensures Encode(a + b) == Encode(a) + Encode(b)
  {
    if a == [] {
      assert a + b == b;
    } else {
      assert (a + b)[1..] == a[1..] + b;
      EncodeAppend(a[1..], b);
    }
  }

  /** Where the MULTI that is still open stands, if one is. */
  function OpenAt(table: Table, cmds: seq<Argv>): (i: Option<nat>)
    ensures i.Some? ==> i.value < |cmds|
  {
    if cmds == [] then None
    else
      var (init, last) := (cmds[..|cmds| - 1], cmds[|cmds| - 1]);
      if table(last).Exec? then None
      else if table(last).Multi? && OpenAt(table, init).None? then Some(|init|)
      else OpenAt(table, init)
  }

  /** What the loader's variables mean after the commands of `cmds`. */
  ghost predicate Explains(table: Table, cmds: seq<Argv>, st: State) {
    && st.pos == st.validUpTo == |Encode(cmds)|
    && st.done + st.queue == Effective(table, cmds)
    && (match OpenAt(table, cmds)
        case None => !st.inMulti && st.queue == []
        case Some(i) =>
          && st.inMulti
          && st.validBeforeMulti == |Encode(cmds[..i])|
          && st.done == Effective(table, cmds[..i]))
  }

  lemma NoNestedPrefix(table: Table, cmds: seq<Argv>, k: nat)
    requires NoNestedMulti(table, cmds) && k <= |cmds|
    ensures NoNestedMulti(table, cmds[..k])
  {
    forall j | 0 <= j < k && table(cmds[..k][j]).Multi?
      ensures AllClosed(table, cmds[..k][..j])
    {
      assert cmds[..k][..j] == cmds[..j];
    }
  }

  /** How the last command changes which MULTI is left open. */
  lemma LeftOpenSnoc(table: Table, init: seq<Argv>, last: Argv, i: nat)
    requires table(last).Multi? ==> AllClosed(table, init)
    ensures LeftOpen(table, init + [last], i) <==>
            (i == |init| && table(last).Multi?) || (!table(last).Exec? && LeftOpen(table, init, i))
  {
    var cmds := init + [last];
    assert cmds[|init|] == last;
    if i < |init| {
      assert cmds[i] == init[i];
      if LeftOpen(table, cmds, i) {
        forall j | i < j < |init| ensures !table(init[j]).Exec? { assert cmds[j] == init[j]; }
      }
    }
  }

  /** `OpenAt` finds the open MULTI, and there is one exactly when not all are closed. */
  lemma {:induction false} OpenAtIsLeftOpen(table: Table, cmds: seq<Argv>)
    requires NoNestedMulti(table, cmds)
    ensures forall i: nat :: LeftOpen(table, cmds, i) <==> OpenAt(table, cmds) == Some(i)
  {
    if cmds != [] {
      var init, last := cmds[..|cmds| - 1], cmds[|cmds| - 1];
      assert cmds == init + [last];
      NoNestedPrefix(table, cmds, |init|);
      OpenAtIsLeftOpen(table, init);
      forall i: nat ensures LeftOpen(table, cmds, i) <==> OpenAt(table, cmds) == Some(i) {
        LeftOpenSnoc(table, init, last, i);
      }
    }
  }

  lemma ExplainsStep(table: Table, init: seq<Argv>, last: Argv, st: State)
    requires Explains(table, init, st)
    requires !table(last).Unknown? && (table(last).Multi? ==> OpenAt(table, init).None?)
    ensures Explains(table, init + [last], RunCommand(table, true, last, st, st.pos + |EncodeCommand(last)|))
  {
    hide Encode, EncodeCommand;
    var cmds := init + [last];
    EncodeOneMore(init, last);
    assert cmds[..|init|] == init && cmds[|init|] == last;
    if OpenAt(table, init).Some? {
      assert cmds[..OpenAt(table, init).value] == init[..OpenAt(table, init).value];
    }
  }

  lemma EncodeOneMore(init: seq<Argv>, last: Argv)
    ensures Encode(init + [last]) == Encode(init) + EncodeCommand(last)
  {
    EncodeAppend(init, [last]);
    assert Encode([last]) == EncodeCommand(last) + Encode([]);
  }

  lemma {:induction false} RunAllExplained(table: Table, cmds: seq<Argv>)
    requires Loadable(table, cmds) && NoNestedMulti(table, cmds)
    ensures Explains(table, cmds, RunAll(table, true, cmds, START))
  {
    hide Explains, RunCommand, Effective, Encode, LeftOpen;
    if cmds == [] {
      ExplainsStart(table);
    } else {
      var init, last := cmds[..|cmds| - 1], cmds[|cmds| - 1];
      assert cmds == init + [last];
      NoNestedPrefix(table, cmds, |init|);
      RunAllExplained(table, init);
      RunAllSnoc(table, init, last, START);
      OpenAtIsLeftOpen(table, init);
      ExplainsStep(table, init, last, RunAll(table, true, init, START));
    }
  }

  lemma ExplainsStart(table: Table)
    ensures Explains(table, [], START)
  {
  }

  /** Loading a log cut at any byte. With `k` complete commands before the cut: the loader
      never fails; a MULTI left open among them takes no effect and everything before it does;
      and the file is cut back to the `k` commands, or to just before the open MULTI when the
      cut fell between two commands. */
  lemma CutAnywhere(table: Table, cmds: seq<Argv>, cut: nat)
    requires Loadable(table, cmds) && NoNestedMulti(table, cmds)
    requires 0 < cut <= |Encode(cmds)|
    ensures var k := Complete(cmds, cut);
            var between := cut == |Encode(cmds[..k])|;
            var r := LoadFile(table, true, Encode(cmds)[..cut]);
            && (AllClosed(table, cmds[..k]) ==>
                  && r.done == Effective(table, cmds[..k])
                  && r.ret == (if between then AofOk else AofTruncated)
                  && r.file == Encode(cmds[..k]))
            && (forall i: nat :: LeftOpen(table, cmds[..k], i) ==>
                  && r.done == Effective(table, cmds[..i])
                  && r.ret == AofTruncated
                  && r.file == Encode(if between then cmds[..i] else cmds[..k]))
  {
    hide LoadFrom, Complete, Encode, RunAll, Effective, LeftOpen;
    var k := Complete(cmds, cut);
    LoadCut(table, true, cmds, cut, START);
    NoNestedPrefix(table, cmds, k);
    RunAllExplained(table, cmds[..k]);
    OpenAtIsLeftOpen(table, cmds[..k]);
    EncodePrefix(cmds, k);
    var file := Encode(cmds)[..cut];
    assert file[..|Encode(cmds[..k])|] == Encode(cmds[..k]);
    match OpenAt(table, cmds[..k])
    case None =>
    case Some(i) =>
      assert cmds[..k][..i] == cmds[..i];
      EncodePrefix(cmds[..k], i);
      assert file[..|Encode(cmds[..i])|] == Encode(cmds[..i]);
  }

  lemma EncodePrefix(cmds: seq<Argv>, k: nat)
    requires k <= |cmds|
    ensures |Encode(cmds[..k])| <= |Encode(cmds)| && Encode(cmds)[..|Encode(cmds[..k])|] == Encode(cmds[..k])
  {
    EncodeAppend(cmds[..k], cmds[k..]);
    assert cmds == cmds[..k] + cmds[k..];
  }

  lemma {:induction false} CompleteAll(cmds: seq<Argv>)
    ensures Complete(cmds, |Encode(cmds)|) == |cmds|
  {
    hide EncodeCommand;
    if cmds != [] { CompleteAll(cmds[1..]); }
  }

  /** Ordinary commands leave nothing open and all take effect. */
  lemma {:induction false} AllEffective(table: Table, cmds: seq<Argv>)
    requires forall i :: 0 <= i < |cmds| ==> table(cmds[i]).Other?
    ensures AllClosed(table, cmds) && NoNestedMulti(table, cmds) && Effective(table, cmds) == cmds
  {
    if cmds != [] {
      AllEffective(table, cmds[..|cmds| - 1]);
      assert cmds[..|cmds| - 1] + [cmds[|cmds| - 1]] == cmds;
    }
  }

  /** Loading a whole log gives back the commands that were written, and leaves the file alone. */
  lemma LoadWhole(table: Table, cmds: seq<Argv>)
    requires Loadable(table, cmds) && NoNestedMulti(table, cmds) && cmds != []
    ensures var r := LoadFile(table, true, Encode(cmds));
            && (AllClosed(table, cmds) ==> r == Loaded(AofOk, Effective(table, cmds), Encode(cmds)))
            && (forall i: nat :: LeftOpen(table, cmds, i) ==>
                  r == Loaded(AofTruncated, Effective(table, cmds[..i]), Encode(cmds[..i])))
  {
    hide LoadFile, Complete, Effective, LeftOpen;
    CompleteAll(cmds);
    assert Encode(cmds)[..|Encode(cmds)|] == Encode(cmds);
    assert cmds[..|cmds|] == cmds;
    CutAnywhere(table, cmds, |Encode(cmds)|);
  }

  // ---------- Going on after a repair ----------

  ghost predicate PlainCommands(table: Table, cmds: seq<Argv>) {
    forall i :: 0 <= i < |cmds| ==> Encodable(cmds[i]) && table(cmds[i]).Other?
  }

  lemma AppendOne(table: Table, cmds: seq<Argv>, last: Argv)
    requires Loadable(table, cmds) && NoNestedMulti(table, cmds) && Encodable(last) && table(last).Other?
    ensures Loadable(table, cmds + [last]) && NoNestedMulti(table, cmds + [last])
    ensures OpenAt(table, cmds + [last]) == OpenAt(table, cmds)
    ensures Effective(table, cmds + [last]) == Effective(table, cmds) + [last]
  {
    hide Encodable, AllClosed;
    var all := cmds + [last];
    assert all[..|all| - 1] == cmds && all[|all| - 1] == last;
    forall j | 0 <= j < |all| && table(all[j]).Multi? ensures AllClosed(table, all[..j]) {
      assert all[..j] == cmds[..j];
    }
  }

  lemma {:induction false} AppendPlain(table: Table, cmds: seq<Argv>, more: seq<Argv>)
    requires Loadable(table, cmds) && NoNestedMulti(table, cmds) && PlainCommands(table, more)
    ensures Loadable(table, cmds + more) && NoNestedMulti(table, cmds + more)
    ensures OpenAt(table, cmds + more) == OpenAt(table, cmds)
    ensures Effective(table, cmds + more) == Effective(table, cmds) + more
  {
    hide Encodable, Loadable, NoNestedMulti, OpenAt, Effective;
    if more == [] {
      assert cmds + more == cmds;
    } else {
      var init, last := more[..|more| - 1], more[|more| - 1];
      AppendPlain(table, cmds, init);
      assert init + [last] == more && cmds + more == (cmds + init) + [last];
      AppendOne(table, cmds + init, last);
    }
  }

  /** A log of `cmds`, repaired or not, that goes on with plain commands. */
  lemma LoadExtended(table: Table, cmds: seq<Argv>, more: seq<Argv>)
    requires Loadable(table, cmds) && NoNestedMulti(table, cmds)
    requires PlainCommands(table, more) && more != []
    ensures LoadFile(table, true, Encode(cmds) + Encode(more)).done
         == match OpenAt(table, cmds)
            case None => Effective(table, cmds) + more
            case Some(i) => Effective(table, cmds[..i])
  {
    hide LoadFile, Effective, LeftOpen, OpenAt;
    EncodeAppend(cmds, more);
    AppendPlain(table, cmds, more);
    LoadWhole(table, cmds + more);
    OpenAtIsLeftOpen(table, cmds + more);
    match OpenAt(table, cmds)
    case None =>
    case Some(i) => assert (cmds + more)[..i] == cmds[..i];
  }

  /** After a cut log has been loaded and repaired the server appends to it. Those commands
      survive the next load exactly when no MULTI was open, or the cut fell between two
      commands. A cut inside a command that stands in an open MULTI keeps the MULTI in the
      repaired file, and it swallows what is appended. */
  lemma AppendAfterRepair(table: Table, cmds: seq<Argv>, cut: nat, more: seq<Argv>)
    requires Loadable(table, cmds) && NoNestedMulti(table, cmds)
    requires 0 < cut <= |Encode(cmds)|
    requires PlainCommands(table, more) && more != []
    ensures var k := Complete(cmds, cut);
            var r := LoadFile(table, true, Encode(cmds)[..cut]);
            LoadFile(table, true, r.file + Encode(more)).done == r.done + more
            <==> AllClosed(table, cmds[..k]) || cut == |Encode(cmds[..k])|
  {
    hide LoadFile, Complete, Effective, LeftOpen, OpenAt;
    var k := Complete(cmds, cut);
    CutAnywhere(table, cmds, cut);
    NoNestedPrefix(table, cmds, k);
    OpenAtIsLeftOpen(table, cmds[..k]);
    LoadExtended(table, cmds[..k], more);
    match OpenAt(table, cmds[..k])
    case None =>
    case Some(i) =>
      LeftOpenInRange(table, cmds[..k], i);
      NoNestedPrefix(table, cmds, i);
      assert cmds[..k][..i] == cmds[..i];
      OpenAtIsLeftOpen(table, cmds[..i]);
      LoadExtended(table, cmds[..i], more);
  }

  lemma LeftOpenInRange(table: Table, cmds: seq<Argv>, i: nat)
    requires NoNestedMulti(table, cmds) && LeftOpen(table, cmds, i)
    ensures i < |cmds| && AllClosed(table, cmds[..i])
  {
  }

  /** The failing case exists: with the log of a MULTI and one more command, such as
      `SET k v`, one byte short, whatever command is appended next is lost. */
  lemma OpenMultiSwallows(table: Table, multi: Argv, body: Argv, next: Argv)
    requires Encodable(multi) && Encodable(body) && Encodable(next)
    requires table(multi).Multi? && table(body).Other? && table(next).Other?
    ensures var file := Encode([multi, body]);
            var r := LoadFile(table, true, file[..|file| - 1]);
            LoadFile(table, true, r.file + Encode([next])).done != r.done + [next]
  {
    hide EncodeCommand, LoadFile;
    var cmds := [multi, body];
    assert cmds[1..] == [body] && cmds[..1] == [multi];
    EncodeOneMore([multi], body);
    EncodeOneMore([], multi);
    assert [] + [multi] == [multi] && [multi] + [body] == cmds;
    LongerThanOne(body);
    var cut := |Encode(cmds)| - 1;
    assert Complete([body], |EncodeCommand(body)| - 1) == 0;
    assert Complete(cmds, cut) == 1;
    assert LeftOpen(table, [multi], 0);
    forall j | 0 <= j < |cmds| && table(cmds[j]).Multi? ensures AllClosed(table, cmds[..j]) {
      assert cmds[..0] == [];
    }
    AppendAfterRepair(table, cmds, cut, [next]);
  }

  lemma LongerThanOne(argv: Argv)
    ensures |EncodeCommand(argv)| >= 2
  {
  }
}
