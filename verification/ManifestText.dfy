/** The manifest file (aof.c): printing, parsing, and when parsing gives back what was printed. */
module ManifestText {
  import opened Text
  import opened Sds
  import opened AofManifest

  /** MANIFEST_MAX_LINE. */
  const MAX_LINE := 1024

  // ---------- Printing ----------

  function PrintedName(name: string): string
    requires Bytes(name)
  {
    if NeedsRepr(name) then Repr(name) else name
  }

  /** `aofInfoFormat` without its newline. */
  function InfoText(i: Info): string
    requires Bytes(i.name) && i.fileSeq >= 0
  {
    "file " + PrintedName(i.name) + " seq " + Dec(i.fileSeq) + " type " + [i.fileType]
  }

  predicate Printable(infos: seq<Info>) {
    forall i :: 0 <= i < |infos| ==> Bytes(infos[i].name) && infos[i].fileSeq >= 0
  }

  function FormatAll(infos: seq<Info>): string
    requires Printable(infos)
  {
    if infos == [] then "" else InfoText(infos[0]) + "\n" + FormatAll(infos[1..])
  }

  /** The order of the lines: the BASE, then history, then the INCR files. */
  function Infos(m: Manifest): seq<Info> {
    (if m.base.Some? then [m.base.value] else []) + m.hist + m.incr
  }

  lemma {:induction false} FormatAppend(a: seq<Info>, b: seq<Info>)
    requires Printable(a) && Printable(b)
    ensures Printable(a + b) && FormatAll(a + b) == FormatAll(a) + FormatAll(b)
  {
    hide InfoText;
    if a == [] {
      assert a + b == b;
    } else {
      assert (a + b)[1..] == a[1..] + b && (a + b)[0] == a[0];
      FormatAppend(a[1..], b);
    }
  }

  method FormatList(buf: string, infos: seq<Info>) returns (out: string)
    requires Printable(infos)
    ensures out == buf + FormatAll(infos)
  {
    hide InfoText;
    out := buf;
    for j := 0 to |infos|
      invariant out + FormatAll(infos[j..]) == buf + FormatAll(infos)
    {
      assert infos[j..][1..] == infos[j + 1..];
      var line := InfoText(infos[j]) + "\n";
      assert out + FormatAll(infos[j..]) == out + (line + FormatAll(infos[j + 1..]));
      out := out + line;
    }
  }

  lemma PrintableParts(m: Manifest)
    requires Printable(Infos(m))
    ensures m.base.Some? ==> Bytes(m.base.value.name) && m.base.value.fileSeq >= 0
    ensures Printable(m.hist) && Printable(m.incr)
  {
    var b := if m.base.Some? then [m.base.value] else [];
    if m.base.Some? { assert m.base.value == Infos(m)[0]; }
    assert forall i :: 0 <= i < |m.hist| ==> m.hist[i] == Infos(m)[|b| + i];
    assert forall i :: 0 <= i < |m.incr| ==> m.incr[i] == Infos(m)[|b| + |m.hist| + i];
  }

  lemma FormatOne(i: Info)
    requires Bytes(i.name) && i.fileSeq >= 0
    ensures Printable([i]) && FormatAll([i]) == InfoText(i) + "\n"
  {
  }

  /** `getAofManifestAsString`. */
  method GetAofManifestAsString(m: Manifest) returns (buf: string)
    requires Printable(Infos(m))
    ensures buf == FormatAll(Infos(m))
  {
    hide InfoText;
    var b := if m.base.Some? then [m.base.value] else [];
    PrintableParts(m);
    if m.base.Some? { FormatOne(m.base.value); } else { assert FormatAll(b) == ""; }
    hide FormatAll, Printable;
    buf := if m.base.Some? then InfoText(m.base.value) + "\n" else "";
    assert buf == FormatAll(b);
    buf := FormatList(buf, m.hist);
    FormatAppend(b, m.hist);
    buf := FormatList(buf, m.incr);
    FormatAppend(b + m.hist, m.incr);
  }

  // ---------- Parsing ----------

  predicate IsTrimmed(c: char) { c == ' ' || c == '\t' || c == '\r' || c == '\n' }

  function TrimLeft(s: string): string {
    if s != "" && IsTrimmed(s[0]) then TrimLeft(s[1..]) else s
  }

  function TrimRight(s: string): string {
    if s != "" && IsTrimmed(s[|s| - 1]) then TrimRight(s[..|s| - 1]) else s
  }

  datatype Fields = Fields(name: Option<string>, fileSeq: int, fileType: char)

  /** `pathIsBaseName`. */
  predicate IsBaseName(name: string) { '/' !in name && '\\' !in name }

  /** The key and value pairs of one line; an unknown key is skipped. */
  function ParsePairs(argv: seq<string>, f: Fields): Option<Fields> {
    if |argv| < 2 then Some(f)
    else
      var (key, value) := (Lower(argv[0]), argv[1]);
      if key == "file" then
        if IsBaseName(value) then ParsePairs(argv[2..], f.(name := Some(value))) else None
      else if key == "seq" then ParsePairs(argv[2..], f.(fileSeq := Atoi(value)))
      else if key == "type" then ParsePairs(argv[2..], f.(fileType := if value == "" then '\0' else value[0]))
      else ParsePairs(argv[2..], f)
  }

  function ParseArgs(args: Option<seq<string>>): Option<Info> {
    if args.None? || |args.value| < 6 || |args.value| % 2 == 1 then None
    else
      match ParsePairs(args.value, Fields(None, 0, '\0'))
      case None => None
      case Some(f) =>
        if f.name.None? || f.fileSeq == 0 || f.fileType == '\0' then None
        else Some(Info(f.name.value, f.fileSeq, f.fileType))
  }

  /** One line, newline included. */
  function ParseLine(line: string): Option<Info> {
    var t := TrimRight(TrimLeft(line));
    if t == "" then None else ParseArgs(SplitArgs(t))
  }

  /** Where a parsed line goes; `maxSeq` is the last INCR number seen. */
  function AddInfo(m: Manifest, maxSeq: int, ai: Info): Option<Manifest> {
    if ai.fileType == BASE then
      if m.base.Some? then None else Some(m.(base := Some(ai), currBase := ai.fileSeq))
    else if ai.fileType == HIST then Some(m.(hist := m.hist + [ai]))
    else if ai.fileType == INCR then
      if ai.fileSeq <= maxSeq then None else Some(m.(incr := m.incr + [ai], currIncr := ai.fileSeq))
    else None
  }

  function NextMaxSeq(maxSeq: int, ai: Info): int {
    if ai.fileType == INCR then ai.fileSeq else maxSeq
  }

  function ParseLines(s: string, m: Manifest, maxSeq: int, lines: nat): Option<Manifest>
    decreases |s|
  {
    if s == "" then (if lines == 0 then None else Some(m))
    else
      var k := LineLength(s, MAX_LINE);
      if s[0] == '#' then ParseLines(s[k..], m, maxSeq, lines + 1)
      else if '\n' !in s[..k] then None
      else
        match ParseLine(s[..k])
        case None => None
        case Some(ai) =>
          match AddInfo(m, maxSeq, ai)
          case None => None
          case Some(m') => ParseLines(s[k..], m', NextMaxSeq(maxSeq, ai), lines + 1)
  }

  /** `aofLoadManifestFromFile`; `None` is the fatal error that ends the server. */
  method LoadManifestFromFile(text: string) returns (r: Option<Manifest>)
    ensures r == ParseLines(text, EMPTY, 0, 0)
  {
    hide ParseLine, AddInfo, LineLength;
    var s, m, maxSeq, lines := text, EMPTY, 0, 0;
    while true
      invariant ParseLines(s, m, maxSeq, lines) == ParseLines(text, EMPTY, 0, 0)
      decreases |s|
    {
      if s == "" { return if lines == 0 then None else Some(m); }
      var k := LineLength(s, MAX_LINE);
      var line := s[..k];
      lines := lines + 1;
      if line[0] == '#' { s := s[k..]; continue; }
      if '\n' !in line { return None; }
      var ai := ParseLine(line);
      if ai.None? { return None; }
      var next := AddInfo(m, maxSeq, ai.value);
      if next.None? { return None; }
      s, m, maxSeq := s[k..], next.value, NextMaxSeq(maxSeq, ai.value);
    }
  }

  // ---------- What is accepted at all ----------

  /** The value of the last pair with this key, in any case. */
  function LastValue(args: seq<string>, key: string): Option<string>
    decreases |args|
  {
    if |args| < 2 then None
    else if Lower(args[|args| - 2]) == key then Some(args[|args| - 1])
    else LastValue(args[..|args| - 2], key)
  }

  /** Key `k` is `file`, with a path for its value. */
  predicate PathAt(args: seq<string>, k: nat) {
    k % 2 == 0 && k + 1 < |args| && Lower(args[k]) == "file" && !IsBaseName(args[k + 1])
  }

  ghost predicate NoPaths(args: seq<string>) { forall k :: !PathAt(args, k) }

  lemma {:induction false} LastValueFirst(k: string, v: string, rest: seq<string>, key: string)
    requires |rest| % 2 == 0
    ensures LastValue([k, v] + rest, key) ==
            if LastValue(rest, key).Some? then LastValue(rest, key) else if Lower(k) == key then Some(v) else None
    decreases |rest|
  {
    hide Lower;
    var args := [k, v] + rest;
    if rest == [] {
      assert args == [k, v] && args[..0] == [];
      assert LastValue(args[..0], key) == None;
    } else {
      assert args[|args| - 2] == rest[|rest| - 2] && args[|args| - 1] == rest[|rest| - 1];
      assert args[..|args| - 2] == [k, v] + rest[..|rest| - 2];
      LastValueFirst(k, v, rest[..|rest| - 2], key);
    }
  }

  function Otherwise<T>(x: Option<T>, y: Option<T>): Option<T> { if x.Some? then x else y }

  lemma NoPathsFirst(k: string, v: string, rest: seq<string>)
    ensures NoPaths([k, v] + rest) <==> (Lower(k) == "file" ==> IsBaseName(v)) && NoPaths(rest)
  {
    hide Lower, IsBaseName;
    var args := [k, v] + rest;
    forall j: nat ensures PathAt(args, j + 2) <==> PathAt(rest, j) {
      assert j < |rest| ==> args[j + 2] == rest[j];
      assert j + 1 < |rest| ==> args[j + 3] == rest[j + 1];
    }
    assert PathAt(args, 0) <==> Lower(k) == "file" && !IsBaseName(v);
    if NoPaths(args) {
      forall j: nat ensures !PathAt(rest, j) { assert !PathAt(args, j + 2); }
    }
    if NoPaths(rest) && !PathAt(args, 0) {
      forall j: nat ensures !PathAt(args, j) { assert j >= 2 ==> (PathAt(args, (j - 2) + 2) <==> PathAt(rest, j - 2)); }
    }
  }

  lemma {:induction false} PairsRead(args: seq<string>, f: Fields)
    requires |args| % 2 == 0
    ensures ParsePairs(args, f).Some? <==> NoPaths(args)
    ensures ParsePairs(args, f).Some? ==>
              var (r, name, number, type_) := (ParsePairs(args, f).value, LastValue(args, "file"), LastValue(args, "seq"), LastValue(args, "type"));
              && r.name == Otherwise(name, f.name)
              && r.fileSeq == (if number.Some? then Atoi(number.value) else f.fileSeq)
              && r.fileType == (if type_.Some? then (if type_.value == "" then '\0' else type_.value[0]) else f.fileType)
    decreases |args|
  {
    hide Lower, Atoi, IsBaseName;
    if args != [] {
      var (k, v, rest) := (args[0], args[1], args[2..]);
      assert args == [k, v] + rest;
      NoPathsFirst(k, v, rest);
      LastValueFirst(k, v, rest, "file");
      LastValueFirst(k, v, rest, "seq");
      LastValueFirst(k, v, rest, "type");
      var f' := if Lower(k) == "file" then f.(name := Some(v)) else if Lower(k) == "seq" then f.(fileSeq := Atoi(v))
                else if Lower(k) == "type" then f.(fileType := if v == "" then '\0' else v[0]) else f;
      assert (Lower(k) == "file" ==> IsBaseName(v)) ==> ParsePairs(args, f) == ParsePairs(rest, f');
      assert Lower(k) == "file" && !IsBaseName(v) ==> ParsePairs(args, f) == None;
      hide ParsePairs, NoPaths, LastValue;
      PairsRead(rest, f');
    }
  }

  /** Exactly the lines that are accepted: at least three pairs, no name that is a path, and a name, a
      number that is not zero and a type among them. Where a key comes twice the last one counts. */
  lemma LineRead(args: seq<string>)
    ensures var (name, number, type_) := (LastValue(args, "file"), LastValue(args, "seq"), LastValue(args, "type"));
            ParseArgs(Some(args)) ==
              if |args| >= 6 && |args| % 2 == 0 && NoPaths(args) && name.Some?
                 && number.Some? && Atoi(number.value) != 0 && type_.Some? && type_.value != "" && type_.value[0] != '\0'
              then Some(Info(name.value, Atoi(number.value), type_.value[0]))
              else None
  {
    hide Atoi, ParsePairs, LastValue, NoPaths;
    if |args| % 2 == 0 { PairsRead(args, Fields(None, 0, '\0')); }
  }

  /** How many lines there are that are not comments. */
  function Entries(s: string): nat
    decreases |s|
  {
    if s == "" then 0
    else
      var k := LineLength(s, MAX_LINE);
      (if s[0] == '#' then 0 else 1) + Entries(s[k..])
  }

  /** A comment line counts as a line and is otherwise passed over. */
  lemma CommentPassed(note: string, rest: string, m: Manifest, maxSeq: int, lines: nat)
    requires '\n' !in note && |note| + 1 < MAX_LINE
    ensures ParseLines("#" + note + "\n" + rest, m, maxSeq, lines) == ParseLines(rest, m, maxSeq, lines + 1)
    ensures Entries("#" + note + "\n" + rest) == Entries(rest)
  {
    var line := "#" + note;
    var s := line + "\n" + rest;
    LineLengthWhole(line, rest, MAX_LINE);
    assert s[0] == '#' && s[|line| + 1..] == rest;
    hide ParseLine, AddInfo, LineLength;
  }

  /** The lists as the loader builds them: types as they should be, INCR numbers going up. */
  ghost predicate InOrder(m: Manifest, maxSeq: int) {
    && (m.base.Some? ==> m.base.value.fileType == BASE && m.currBase == m.base.value.fileSeq)
    && (forall i :: 0 <= i < |m.hist| ==> m.hist[i].fileType == HIST)
    && (forall i :: 0 <= i < |m.incr| ==> m.incr[i].fileType == INCR && 0 < m.incr[i].fileSeq <= maxSeq)
    && (forall i, j :: 0 <= i < j < |m.incr| ==> m.incr[i].fileSeq < m.incr[j].fileSeq)
    && (m.incr != [] ==> m.currIncr == m.incr[|m.incr| - 1].fileSeq) && maxSeq >= 0
  }

  lemma {:induction false} ParseKeepsOrder(s: string, m: Manifest, maxSeq: int, lines: nat)
    requires InOrder(m, maxSeq) && ParseLines(s, m, maxSeq, lines).Some?
    ensures var r := ParseLines(s, m, maxSeq, lines).value;
            (exists max :: InOrder(r, max)) && |Infos(r)| == |Infos(m)| + Entries(s)
    decreases |s|
  {
    hide ParseLine;
    if s != "" {
      var k := LineLength(s, MAX_LINE);
      if s[0] == '#' {
        ParseKeepsOrder(s[k..], m, maxSeq, lines + 1);
      } else {
        var ai := ParseLine(s[..k]).value;
        var m' := AddInfo(m, maxSeq, ai).value;
        assert InOrder(m', NextMaxSeq(maxSeq, ai)) && |Infos(m')| == |Infos(m)| + 1;
        ParseKeepsOrder(s[k..], m', NextMaxSeq(maxSeq, ai), lines + 1);
      }
    }
  }

  /** Of every text that is accepted: at least one line, every line that is no comment is an entry of
      the manifest, there is at most one BASE, and the numbers of the INCR files go strictly up. */
  lemma AcceptedInOrder(text: string)
    requires ParseLines(text, EMPTY, 0, 0).Some?
    ensures var m := ParseLines(text, EMPTY, 0, 0).value;
            text != "" && (exists max :: InOrder(m, max)) && |Infos(m)| == Entries(text)
  {
    assert InOrder(EMPTY, 0) && Infos(EMPTY) == [];
    ParseKeepsOrder(text, EMPTY, 0, 0);
    hide Entries, InOrder;
  }

  // ---------- One line and back ----------

  /** A name that comes back: not empty, no path separator, and quoted if it holds a quote.
      The printer does not quote a name whose only special character is a single quote. */
  predicate GoodName(name: string) {
    name != "" && IsBaseName(name) && (NeedsRepr(name) || '\'' !in name)
  }

  predicate ListType(c: char) { c == BASE || c == HIST || c == INCR }

  lemma ThreePairs(name: string, n: nat, t: char)
    ensures var args := ["file", name, "seq", Dec(n), "type", [t]];
            ParseArgs(Some(args)) == if IsBaseName(name) && n != 0 && t != '\0' then Some(Info(name, n, t)) else None
  {
    var args := ["file", name, "seq", Dec(n), "type", [t]];
    assert args[2..] == ["seq", Dec(n), "type", [t]];
    assert args[2..][2..] == ["type", [t]];
    assert args[2..][2..][2..] == [];
    assert Dec(n) + "" == Dec(n);
    AtoiDec(n, "");
    assert Lower("file") == "file" && Lower("seq") == "seq" && Lower("type") == "type";
    if IsBaseName(name) {
      var f1 := Fields(Some(name), 0, '\0');
      var f3 := Fields(Some(name), n, t);
      assert ParsePairs(args[2..][2..], f1.(fileSeq := n)) == Some(f3);
      assert ParsePairs(args[2..], f1) == Some(f3);
    }
  }

  /** What follows the name on a line. */
  function Tail(n: nat, t: char): string {
    " seq " + Dec(n) + " type " + [t]
  }

  lemma SplitType(t: char)
    requires PlainWord([t])
    ensures SplitArgs("type" + (" " + [t])) == Some(["type", [t]])
  {
    hide SplitArgs;
    var w3 := " " + [t];
    SplitPlainWord("type", w3);
    assert w3[1..] == [t] + "";
    SplitPlainWord([t], "");
    NothingToSplit();
    assert ["type"] + ([[t]] + []) == ["type", [t]];
  }

  lemma SplitTail(n: nat, t: char)
    requires PlainWord([t])
    ensures SplitArgs(Tail(n, t)) == Some(["seq", Dec(n), "type", [t]])
  {
    hide SplitArgs;
    var w2 := " " + ("type" + (" " + [t]));
    var w1 := " " + (Dec(n) + w2);
    var x := Dec(n) + w2;
    assert " type " + [t] == w2;
    assert Tail(n, t) == " seq " + x;
    assert " seq " + x == " " + ("seq" + (" " + x));
    SplitBlank("seq" + w1);
    SplitPlainWord("seq", w1);
    assert w1[1..] == Dec(n) + w2;
    SplitPlainWord(Dec(n), w2);
    assert w2[1..] == "type" + (" " + [t]);
    SplitType(t);
    assert ["seq"] + ([Dec(n)] + ["type", [t]]) == ["seq", Dec(n), "type", [t]];
  }

  lemma NothingToSplit()
    ensures SplitArgs("") == Some([])
  {
  }

  lemma SplitFirst(name: string, tail: string)
    ensures SplitArgs("file " + name + tail)
         == match SplitArgs(name + tail)
            case None => None
            case Some(more) => Some(["file"] + more)
  {
    assert "file " + name + tail == "file" + (" " + (name + tail));
    assert (" " + (name + tail))[1..] == name + tail;
    SplitPlainWord("file", " " + (name + tail));
  }

  /** The words of a printed line whose name is printed readably. */
  lemma SplitReadable(name: string, n: nat, t: char)
    requires Bytes(name) && name != "" && PlainWord([t])
    requires NeedsRepr(name) || '\'' !in name
    ensures SplitArgs("file " + PrintedName(name) + Tail(n, t)) == Some(["file", name, "seq", Dec(n), "type", [t]])
  {
    hide SplitArgs, Repr;
    SplitTail(n, t);
    SplitFirst(PrintedName(name), Tail(n, t));
    assert ["file"] + ([name] + ["seq", Dec(n), "type", [t]]) == ["file", name, "seq", Dec(n), "type", [t]];
    if NeedsRepr(name) {
      SplitQuotedWord(name, Tail(n, t));
    } else {
      assert forall i :: 0 <= i < |name| ==> !Escaped(name[i]) && name[i] != '\'' && PlainChar(name[i]);
      SplitPlainWord(name, Tail(n, t));
      SplitBlank(Tail(n, t)[1..]);
      assert " " + Tail(n, t)[1..] == Tail(n, t);
    }
  }

  /** A line with an unquoted single quote in the name loses it, or is refused. */
  lemma SplitUnreadable(name: string, n: nat, t: char)
    requires Bytes(name) && PlainWord([t]) && '\'' in name && !NeedsRepr(name)
    ensures var args := SplitArgs("file " + PrintedName(name) + Tail(n, t));
            args.None? || (exists other :: other != name && args.value == ["file", other, "seq", Dec(n), "type", [t]])
  {
    var tail := Tail(n, t);
    SplitTail(n, t);
    SplitFirst(name, tail);
    assert '\'' !in tail by {
      assert forall i :: 0 <= i < |Dec(n)| ==> IsDigit(Dec(n)[i]);
    }
    TakeQuotedShort(name, tail);
    assert (name + tail)[0] == name[0] && !Escaped(name[0]);
    assert SkipSpaces(name + tail) == name + tail;
    if SplitArgs(name + tail).Some? {
      var other := TakePlain(name + tail).text;
      assert ["file"] + ([other] + ["seq", Dec(n), "type", [t]]) == ["file", other, "seq", Dec(n), "type", [t]];
    }
  }

  lemma TrimPrinted(h: string)
    requires h != "" && !IsTrimmed(h[0]) && !IsTrimmed(h[|h| - 1])
    ensures TrimRight(TrimLeft(h + "\n")) == h
  {
    var s := h + "\n";
    assert s[0] == h[0];
    assert s[..|s| - 1] == h;
  }

  /** A printed line parses to what it describes exactly when the name is good. */
  lemma LineRoundTrip(i: Info)
    requires Bytes(i.name) && i.fileSeq >= 1 && ListType(i.fileType)
    ensures ParseLine(InfoText(i) + "\n") == Some(i) <==> GoodName(i.name)
  {
    hide SplitArgs, ParseArgs;
    var h := InfoText(i);
    assert h == "file " + PrintedName(i.name) + Tail(i.fileSeq, i.fileType);
    assert h[0] == 'f' && h[|h| - 1] == i.fileType;
    TrimPrinted(h);
    ThreePairs(i.name, i.fileSeq, i.fileType);
    if i.name == "" {
      EmptyName(i.fileSeq, i.fileType);
    } else if NeedsRepr(i.name) || '\'' !in i.name {
      SplitReadable(i.name, i.fileSeq, i.fileType);
    } else {
      SplitUnreadable(i.name, i.fileSeq, i.fileType);
      var args := SplitArgs(h);
      if args.Some? {
        var other :| other != i.name && args.value == ["file", other, "seq", Dec(i.fileSeq), "type", [i.fileType]];
        ThreePairs(other, i.fileSeq, i.fileType);
      } else {
        NothingSplit();
      }
    }
  }

  /** A single quote in an otherwise plain file name: the printed line is not read back. */
  lemma QuotedNameIsLost()
    ensures var i := Info("a'b.1.incr.aof", 1, INCR); ParseLine(InfoText(i) + "\n") != Some(i)
  {
    var i := Info("a'b.1.incr.aof", 1, INCR);
    assert i.name[1] == '\'' && !NeedsRepr(i.name);
    LineRoundTrip(i);
  }

  lemma NothingSplit()
    ensures ParseArgs(None) == None
  {
  }

  /** An empty name leaves an odd number of words. */
  lemma EmptyName(n: nat, t: char)
    requires PlainWord([t])
    ensures ParseArgs(SplitArgs("file " + PrintedName("") + Tail(n, t))) == None
  {
    SplitTail(n, t);
    SplitFirst("", Tail(n, t));
    assert "" + Tail(n, t) == Tail(n, t);
    assert PrintedName("") == "";
    assert |SplitArgs("file " + PrintedName("") + Tail(n, t)).value| == 5;
  }

  // ---------- The whole manifest and back ----------

  /** A line that is printed and read as one. */
  predicate GoodInfo(i: Info) {
    && Bytes(i.name) && i.fileSeq >= 1 && ListType(i.fileType) && GoodName(i.name)
    && |InfoText(i)| < MAX_LINE
  }

  predicate GoodInfos(infos: seq<Info>) {
    forall i :: 0 <= i < |infos| ==> GoodInfo(infos[i])
  }

  /** The quoted form has no newline in it. */
  lemma {:induction false} ReprOneLine(s: string)
    requires Bytes(s)
    ensures '\n' !in ReprBody(s)
  {
    if s != "" { ReprOneLine(s[1..]); }
  }

  lemma InfoOneLine(i: Info)
    requires Bytes(i.name) && i.fileSeq >= 0 && ListType(i.fileType)
    ensures '\n' !in InfoText(i)
  {
    ReprOneLine(i.name);
    assert !NeedsRepr(i.name) ==> forall j :: 0 <= j < |i.name| ==> !Escaped(i.name[j]);
    assert '\n' !in PrintedName(i.name);
    assert forall j :: 0 <= j < |Dec(i.fileSeq)| ==> IsDigit(Dec(i.fileSeq)[j]);
  }

  lemma ParseFirstLine(i: Info, rest: string, m: Manifest, maxSeq: int, lines: nat)
    requires GoodInfo(i) && AddInfo(m, maxSeq, i).Some?
    ensures ParseLines(InfoText(i) + "\n" + rest, m, maxSeq, lines)
         == ParseLines(rest, AddInfo(m, maxSeq, i).value, NextMaxSeq(maxSeq, i), lines + 1)
  {
    var h := InfoText(i);
    var s := h + "\n" + rest;
    InfoOneLine(i);
    LineLengthWhole(h, rest, MAX_LINE);
    LineRoundTrip(i);
    assert s[0] == 'f';
    assert s[..|h| + 1] == h + "\n" && s[|h| + 1..] == rest;
    assert s[|h|] == '\n';
    hide ParseLine, InfoText, AddInfo;
  }

  lemma {:induction false} ParseHistory(hist: seq<Info>, incr: seq<Info>, m: Manifest, maxSeq: int, lines: nat)
    requires GoodInfos(hist) && GoodInfos(incr)
    requires forall i :: 0 <= i < |hist| ==> hist[i].fileType == HIST
    ensures ParseLines(FormatAll(hist + incr), m, maxSeq, lines)
         == ParseLines(FormatAll(incr), m.(hist := m.hist + hist), maxSeq, lines + |hist|)
  {
    hide ParseLines, GoodInfo, InfoText;
    assert Printable(incr) && Printable(hist + incr) by { GoodIsPrintable(incr); GoodIsPrintable(hist); }
    if hist == [] {
      assert hist + incr == incr && m.hist + hist == m.hist;
    } else {
      var all := hist + incr;
      assert all[1..] == hist[1..] + incr;
      ParseFirstLine(hist[0], FormatAll(all[1..]), m, maxSeq, lines);
      ParseHistory(hist[1..], incr, m.(hist := m.hist + [hist[0]]), maxSeq, lines + 1);
      assert m.hist + [hist[0]] + hist[1..] == m.hist + hist;
    }
  }

  lemma GoodIsPrintable(infos: seq<Info>)
    requires GoodInfos(infos)
    ensures Printable(infos)
  {
  }

  function LastSeq(incr: seq<Info>, otherwise: int): int {
    if incr == [] then otherwise else incr[|incr| - 1].fileSeq
  }

  lemma {:induction false} ParseIncr(incr: seq<Info>, m: Manifest, maxSeq: int, lines: nat)
    requires GoodInfos(incr) && (incr != [] || lines > 0)
    requires forall i :: 0 <= i < |incr| ==> incr[i].fileType == INCR && incr[i].fileSeq > maxSeq
    requires forall i, j :: 0 <= i < j < |incr| ==> incr[i].fileSeq < incr[j].fileSeq
    requires m.currIncr == maxSeq
    ensures ParseLines(FormatAll(incr), m, maxSeq, lines)
         == Some(m.(incr := m.incr + incr, currIncr := LastSeq(incr, maxSeq)))
  {
    hide ParseLines, GoodInfo, InfoText, AddInfo;
    GoodIsPrintable(incr);
    if incr == [] {
      NoMoreLines(m, maxSeq, lines);
      assert m.incr + incr == m.incr;
    } else {
      var m' := m.(incr := m.incr + [incr[0]], currIncr := incr[0].fileSeq);
      AddIncr(m, maxSeq, incr[0]);
      ParseFirstLine(incr[0], FormatAll(incr[1..]), m, maxSeq, lines);
      ParseIncr(incr[1..], m', incr[0].fileSeq, lines + 1);
      assert m.incr + [incr[0]] + incr[1..] == m.incr + incr;
    }
  }

  lemma NoMoreLines(m: Manifest, maxSeq: int, lines: nat)
    requires lines > 0
    ensures ParseLines("", m, maxSeq, lines) == Some(m)
  {
  }

  lemma AddIncr(m: Manifest, maxSeq: int, i: Info)
    requires i.fileType == INCR && i.fileSeq > maxSeq
    ensures AddInfo(m, maxSeq, i) == Some(m.(incr := m.incr + [i], currIncr := i.fileSeq))
  {
  }

  /** What a reload reads back: the same lists, the counters taken from the newest files. */
  function Reloaded(m: Manifest): Manifest {
    m.(currBase := if m.base.Some? then m.base.value.fileSeq else 0,
       currIncr := LastSeq(m.incr, 0), dirty := false)
  }

  lemma GoodPrefix(a: seq<Info>, b: seq<Info>)
    requires GoodInfos(a + b)
    ensures GoodInfos(a) && GoodInfos(b)
  {
    hide GoodInfo;
    assert forall i :: 0 <= i < |a| ==> a[i] == (a + b)[i];
    assert forall i :: 0 <= i < |b| ==> b[i] == (a + b)[|a| + i];
  }

  lemma GoodParts(m: Manifest)
    requires GoodInfos(Infos(m))
    ensures (m.base.Some? ==> GoodInfo(m.base.value)) && GoodInfos(m.hist) && GoodInfos(m.incr) && GoodInfos(m.hist + m.incr)
  {
    var b := if m.base.Some? then [m.base.value] else [];
    assert Infos(m) == b + (m.hist + m.incr);
    hide GoodInfo;
    GoodPrefix(b, m.hist + m.incr);
    GoodPrefix(m.hist, m.incr);
    assert m.base.Some? ==> b[0] == m.base.value;
  }

  lemma AddBase(i: Info)
    requires i.fileType == BASE
    ensures AddInfo(EMPTY, 0, i) == Some(EMPTY.(base := Some(i), currBase := i.fileSeq)) && NextMaxSeq(0, i) == 0
  {
  }

  /** The line of the BASE comes first. */
  lemma ParseBase(i: Info, rest: seq<Info>)
    requires GoodInfo(i) && i.fileType == BASE && GoodInfos(rest) && Printable([i] + rest) && Printable(rest)
    ensures ParseLines(FormatAll([i] + rest), EMPTY, 0, 0)
         == ParseLines(FormatAll(rest), EMPTY.(base := Some(i), currBase := i.fileSeq), 0, 1)
  {
    hide GoodInfo, ParseLines, InfoText, AddInfo;
    var all := [i] + rest;
    assert all[0] == i && all[1..] == rest;
    AddBase(i);
    ParseFirstLine(i, FormatAll(rest), EMPTY, 0, 0);
  }

  lemma WfLists(cfg: Config, m: Manifest)
    requires Wf(cfg, m)
    ensures m.base.Some? ==> m.base.value.fileType == BASE
    ensures forall i :: 0 <= i < |m.hist| ==> m.hist[i].fileType == HIST
    ensures forall i :: 0 <= i < |m.incr| ==> m.incr[i].fileType == INCR && m.incr[i].fileSeq > 0
    ensures forall i, j :: 0 <= i < j < |m.incr| ==> m.incr[i].fileSeq < m.incr[j].fileSeq
  {
    forall i | 0 <= i < |m.incr| ensures m.incr[i].fileType == INCR && m.incr[i].fileSeq > 0 {
      NumberedFromOne(cfg, m.incr[i]);
    }
  }

  /** History and INCR lines, with the BASE read or not. */
  lemma ParseRest(cfg: Config, m: Manifest, m1: Manifest, lines: nat)
    requires Wf(cfg, m) && GoodInfos(m.hist) && GoodInfos(m.incr) && Printable(m.hist + m.incr)
    requires m1 == EMPTY.(base := m.base, currBase := if m.base.Some? then m.base.value.fileSeq else 0)
    requires lines > 0 || m.hist + m.incr != []
    ensures ParseLines(FormatAll(m.hist + m.incr), m1, 0, lines) == Some(Reloaded(m))
  {
    hide GoodInfos, ParseLines, FormatAll, Wf, Printable;
    WfLists(cfg, m);
    GoodIsPrintable(m.incr);
    ParseHistory(m.hist, m.incr, m1, 0, lines);
    var m2 := m1.(hist := m.hist);
    assert m1.hist + m.hist == m.hist;
    ParseIncr(m.incr, m2, 0, lines + |m.hist|);
    assert m2.incr + m.incr == m.incr;
  }

  /** Printing a manifest and parsing it gives the same three lists. */
  lemma ManifestRoundTrip(cfg: Config, m: Manifest)
    requires Wf(cfg, m) && GoodInfos(Infos(m)) && Infos(m) != []
    ensures Printable(Infos(m))
    ensures ParseLines(FormatAll(Infos(m)), EMPTY, 0, 0) == Some(Reloaded(m))
  {
    hide GoodInfo, GoodInfos, ParseLines, FormatAll, Wf, Printable, Reloaded;
    GoodIsPrintable(Infos(m));
    GoodParts(m);
    GoodIsPrintable(m.hist + m.incr);
    WfLists(cfg, m);
    if m.base.Some? {
      assert Infos(m) == [m.base.value] + (m.hist + m.incr);
      ParseBase(m.base.value, m.hist + m.incr);
      ParseRest(cfg, m, EMPTY.(base := m.base, currBase := m.base.value.fileSeq), 1);
    } else {
      assert Infos(m) == m.hist + m.incr;
      ParseRest(cfg, m, EMPTY, 0);
    }
  }

  // ---------- What does not come back ----------

  /** Parsing only adds to what was read so far. */
  lemma {:induction false} ParseExtends(s: string, m: Manifest, maxSeq: int, lines: nat)
    requires ParseLines(s, m, maxSeq, lines).Some?
    ensures var r := ParseLines(s, m, maxSeq, lines).value;
            m.hist <= r.hist && m.incr <= r.incr && (m.base.Some? ==> r.base == m.base)
    decreases |s|
  {
    hide ParseLine;
    if s != "" {
      var k := LineLength(s, MAX_LINE);
      if s[0] == '#' {
        ParseExtends(s[k..], m, maxSeq, lines + 1);
      } else {
        var ai := ParseLine(s[..k]).value;
        ParseExtends(s[k..], AddInfo(m, maxSeq, ai).value, NextMaxSeq(maxSeq, ai), lines + 1);
      }
    }
  }

  /** Number and type of a printed line always come back. */
  lemma LineShape(i: Info)
    requires Bytes(i.name) && i.fileSeq >= 1 && ListType(i.fileType)
    ensures var r := ParseLine(InfoText(i) + "\n"); r.Some? ==> r.value.fileSeq == i.fileSeq && r.value.fileType == i.fileType
  {
    hide SplitArgs, ParseArgs;
    var h := InfoText(i);
    assert h == "file " + PrintedName(i.name) + Tail(i.fileSeq, i.fileType);
    assert h[0] == 'f' && h[|h| - 1] == i.fileType;
    TrimPrinted(h);
    ThreePairs(i.name, i.fileSeq, i.fileType);
    if i.name == "" {
      EmptyName(i.fileSeq, i.fileType);
    } else if NeedsRepr(i.name) || '\'' !in i.name {
      SplitReadable(i.name, i.fileSeq, i.fileType);
    } else {
      SplitUnreadable(i.name, i.fileSeq, i.fileType);
      var args := SplitArgs(h);
      NothingSplit();
      if args.Some? {
        var other :| other != i.name && args.value == ["file", other, "seq", Dec(i.fileSeq), "type", [i.fileType]];
        ThreePairs(other, i.fileSeq, i.fileType);
      }
    }
  }

  lemma {:induction false} LineTooLong(h: string, rest: string, max: nat)
    requires '\n' !in h && max <= |h|
    ensures '\n' !in (h + "\n" + rest)[..LineLength(h + "\n" + rest, max)]
  {
    var s := h + "\n" + rest;
    LineLengthCut(h, "\n" + rest, max);
    assert s == h + ("\n" + rest);
    assert s[..LineLength(s, max)] == h[..LineLength(s, max)];
  }

  lemma {:induction false} LineLengthCut(h: string, rest: string, max: nat)
    requires '\n' !in h && max <= |h|
    ensures LineLength(h + rest, max) <= max
  {
    if max > 0 {
      assert (h + rest)[1..] == h[1..] + rest && (h + rest)[0] == h[0];
      LineLengthCut(h[1..], rest, max - 1);
    }
  }

  /** The first printed line, if the text is accepted: short enough, read as some entry of the same
      number and type, which is added. */
  lemma FirstLineRead(i: Info, rest: string, m: Manifest, maxSeq: int, lines: nat)
    requires Bytes(i.name) && i.fileSeq >= 1 && ListType(i.fileType)
    requires ParseLines(InfoText(i) + "\n" + rest, m, maxSeq, lines).Some?
    ensures |InfoText(i)| < MAX_LINE
    ensures var ai := ParseLine(InfoText(i) + "\n");
            && ai.Some? && ai.value.fileSeq == i.fileSeq && ai.value.fileType == i.fileType
            && AddInfo(m, maxSeq, ai.value).Some?
            && ParseLines(InfoText(i) + "\n" + rest, m, maxSeq, lines)
               == ParseLines(rest, AddInfo(m, maxSeq, ai.value).value, NextMaxSeq(maxSeq, ai.value), lines + 1)
  {
    var h := InfoText(i);
    var s := h + "\n" + rest;
    InfoOneLine(i);
    LineShape(i);
    assert h[0] == 'f' && s[0] == 'f';
    if |h| >= MAX_LINE { LineTooLong(h, rest, MAX_LINE); } else { LineLengthWhole(h, rest, MAX_LINE); }
    assert s[..|h| + 1] == h + "\n" && s[|h| + 1..] == rest;
    hide ParseLine, InfoText, AddInfo;
  }

  function OfType(infos: seq<Info>, t: char): seq<Info> {
    if infos == [] then [] else (if infos[0].fileType == t then [infos[0]] else []) + OfType(infos[1..], t)
  }

  ghost predicate ListInfos(infos: seq<Info>) {
    forall i :: 0 <= i < |infos| ==> Bytes(infos[i].name) && infos[i].fileSeq >= 1 && ListType(infos[i].fileType)
  }

  /** The lists of `r` are those of `m` with the entries added, each to its list. */
  ghost predicate Adds(m: Manifest, infos: seq<Info>, r: Manifest) {
    && r.hist == m.hist + OfType(infos, HIST) && r.incr == m.incr + OfType(infos, INCR)
    && (forall i :: 0 <= i < |infos| && infos[i].fileType == BASE ==> r.base == Some(infos[i]))
  }

  lemma TailOf(a: seq<Info>, x: Info, y: Info, t: seq<Info>, r: seq<Info>)
    requires r == a + ([x] + t) && a + [y] <= r
    ensures x == y && r == a + [y] + t
  {
    assert r[|a|] == x && (a + [y])[|a|] == y;
  }

  /** An entry read from a line and present in the result is the entry printed. */
  lemma SameEntry(m: Manifest, maxSeq: int, i: Info, ai: Info, rest: seq<Info>, r: Manifest)
    requires ai.fileType == i.fileType && AddInfo(m, maxSeq, ai).Some? && Adds(m, [i] + rest, r)
    requires var m1 := AddInfo(m, maxSeq, ai).value; m1.hist <= r.hist && m1.incr <= r.incr && (m1.base.Some? ==> r.base == m1.base)
    ensures ai == i && Adds(AddInfo(m, maxSeq, ai).value, rest, r)
  {
    var all := [i] + rest;
    assert all[0] == i && all[1..] == rest;
    assert forall j :: 0 <= j < |rest| ==> all[j + 1] == rest[j];
    assert [] + OfType(rest, HIST) == OfType(rest, HIST) && [] + OfType(rest, INCR) == OfType(rest, INCR);
    hide OfType;
    if i.fileType == HIST { TailOf(m.hist, i, ai, OfType(rest, HIST), r.hist); }
    if i.fileType == INCR { TailOf(m.incr, i, ai, OfType(rest, INCR), r.incr); }
  }

  /** If the lists come back, so does the first line. */
  lemma FirstIsGood(i: Info, rest: seq<Info>, m: Manifest, maxSeq: int, lines: nat, r: Manifest)
    requires Bytes(i.name) && i.fileSeq >= 1 && ListType(i.fileType) && Printable(rest)
    requires ParseLines(InfoText(i) + "\n" + FormatAll(rest), m, maxSeq, lines) == Some(r) && Adds(m, [i] + rest, r)
    ensures GoodInfo(i) && AddInfo(m, maxSeq, i).Some?
    ensures var m1 := AddInfo(m, maxSeq, i).value;
            ParseLines(FormatAll(rest), m1, NextMaxSeq(maxSeq, i), lines + 1) == Some(r) && Adds(m1, rest, r)
  {
    hide ParseLines, ParseLine, InfoText, AddInfo, FormatAll, GoodName, Adds;
    FirstLineRead(i, FormatAll(rest), m, maxSeq, lines);
    var ai := ParseLine(InfoText(i) + "\n").value;
    ParseExtends(FormatAll(rest), AddInfo(m, maxSeq, ai).value, NextMaxSeq(maxSeq, ai), lines + 1);
    LineRoundTrip(i);
    SameEntry(m, maxSeq, i, ai, rest, r);
  }

  lemma {:induction false} ReadBackIsGood(infos: seq<Info>, m: Manifest, maxSeq: int, lines: nat, r: Manifest)
    requires ListInfos(infos) && Printable(infos)
    requires ParseLines(FormatAll(infos), m, maxSeq, lines) == Some(r) && Adds(m, infos, r)
    ensures GoodInfos(infos)
    decreases |infos|
  {
    hide ParseLines, InfoText, AddInfo, Adds, GoodInfo, Bytes;
    if infos != [] {
      var (i, rest) := (infos[0], infos[1..]);
      assert infos == [i] + rest;
      FirstIsGood(i, rest, m, maxSeq, lines, r);
      ReadBackIsGood(rest, AddInfo(m, maxSeq, i).value, NextMaxSeq(maxSeq, i), lines + 1, r);
      assert forall j :: 0 < j < |infos| ==> infos[j] == rest[j - 1];
    }
  }

  lemma {:induction false} OfTypeAll(infos: seq<Info>, t: char, u: char)
    requires forall i :: 0 <= i < |infos| ==> infos[i].fileType == t
    ensures OfType(infos, u) == if t == u then infos else []
  {
    if infos != [] { OfTypeAll(infos[1..], t, u); }
  }

  lemma {:induction false} OfTypeAppend(a: seq<Info>, b: seq<Info>, t: char)
    ensures OfType(a + b, t) == OfType(a, t) + OfType(b, t)
  {
    if a == [] {
      assert a + b == b;
    } else {
      var first := if a[0].fileType == t then [a[0]] else [];
      assert (a + b)[1..] == a[1..] + b && (a + b)[0] == a[0];
      assert OfType(a + b, t) == first + OfType(a[1..] + b, t);
      assert OfType(a, t) == first + OfType(a[1..], t);
      OfTypeAppend(a[1..], b, t);
      hide OfType;
      assert first + (OfType(a[1..], t) + OfType(b, t)) == first + OfType(a[1..], t) + OfType(b, t);
    }
  }

  lemma InfosAdd(cfg: Config, m: Manifest)
    requires Wf(cfg, m)
    ensures Adds(EMPTY, Infos(m), Reloaded(m))
  {
    WfLists(cfg, m);
    var b := if m.base.Some? then [m.base.value] else [];
    assert Infos(m) == b + (m.hist + m.incr);
    forall t | t == HIST || t == INCR ensures OfType(Infos(m), t) == if t == HIST then m.hist else m.incr {
      OfTypeAppend(b, m.hist + m.incr, t);
      OfTypeAppend(m.hist, m.incr, t);
      OfTypeAll(b, BASE, t);
      OfTypeAll(m.hist, HIST, t);
      OfTypeAll(m.incr, INCR, t);
    }
    assert EMPTY.hist + m.hist == m.hist && EMPTY.incr + m.incr == m.incr;
    forall i | 0 <= i < |Infos(m)| && Infos(m)[i].fileType == BASE ensures m.base == Some(Infos(m)[i]) {
      OnlyBase(b, m.hist, m.incr, i);
    }
  }

  lemma OnlyBase(b: seq<Info>, hist: seq<Info>, incr: seq<Info>, i: nat)
    requires i < |b + (hist + incr)| && (b + (hist + incr))[i].fileType == BASE
    requires forall j :: 0 <= j < |hist| ==> hist[j].fileType == HIST
    requires forall j :: 0 <= j < |incr| ==> incr[j].fileType == INCR
    ensures i < |b| && b[i] == (b + (hist + incr))[i]
  {
    var (rest, all) := (hist + incr, b + (hist + incr));
    assert forall j :: 0 <= j < |rest| ==> rest[j].fileType != BASE;
    assert forall j :: |b| <= j < |all| ==> all[j] == rest[j - |b|];
  }

  lemma InfosListed(cfg: Config, m: Manifest)
    requires Wf(cfg, m) && Printable(Infos(m))
    ensures ListInfos(Infos(m))
  {
    WfLists(cfg, m);
    var b := if m.base.Some? then [m.base.value] else [];
    forall i | 0 <= i < |Infos(m)| ensures Infos(m)[i].fileSeq >= 1 && ListType(Infos(m)[i].fileType) {
      if i < |b| {
        assert Infos(m)[i] == m.base.value;
      } else if i < |b| + |m.hist| {
        assert Infos(m)[i] == m.hist[i - |b|] && HistoryInfo(cfg, m, m.hist[i - |b|]);
      } else {
        assert Infos(m)[i] == m.incr[i - |b| - |m.hist|];
      }
    }
  }

  /** Printing a manifest and parsing it gives the same three lists if and only if every name comes
      back alone and every line is short enough for the loader's buffer. */
  lemma ManifestRoundTripIff(cfg: Config, m: Manifest)
    requires Wf(cfg, m) && Infos(m) != [] && Printable(Infos(m))
    ensures ParseLines(FormatAll(Infos(m)), EMPTY, 0, 0) == Some(Reloaded(m)) <==> GoodInfos(Infos(m))
  {
    hide ParseLines, FormatAll, GoodInfo, Adds, ListInfos;
    if GoodInfos(Infos(m)) {
      ManifestRoundTrip(cfg, m);
    } else if ParseLines(FormatAll(Infos(m)), EMPTY, 0, 0) == Some(Reloaded(m)) {
      InfosAdd(cfg, m);
      InfosListed(cfg, m);
      ReadBackIsGood(Infos(m), EMPTY, 0, 0, Reloaded(m));
    }
  }

  lemma NumberedFromOne(cfg: Config, i: Info)
    requires IncrInfo(cfg, i)
    ensures i.fileSeq > 0
  {
  }

  /** With a BASE, and the newest INCR still listed, the counters come back too, so a restart
      numbers its next files as the old process would have. */
  lemma CountersReload(cfg: Config, m: Manifest)
    requires Wf(cfg, m) && m.base.Some? && m.incr != []
    requires m.incr[|m.incr| - 1].fileSeq == m.currIncr
    ensures Reloaded(m) == m.(dirty := false) && Wf(cfg, Reloaded(m))
  {
    assert Wf(cfg, m.(dirty := false)) by {
      forall i | 0 <= i < |m.hist| ensures HistoryInfo(cfg, m.(dirty := false), m.hist[i]) {
        assert HistoryInfo(cfg, m, m.hist[i]);
      }
    }
  }
}
