/** The AOF manifest (aof.c): its operations and the invariant every run of them keeps, and
    its text form, printed and parsed back. */
module AofManifest {
  import opened Text
  import opened Sds

  // ---------- Data ----------

  const BASE: char := 'b'
  const HIST: char := 'h'
  const INCR: char := 'i'

  /** `aofInfo`. */
  datatype Info = Info(name: string, fileSeq: int, fileType: char)

  /** The value of an `aofManifest`. */
  datatype Manifest = Manifest(base: Option<Info>, hist: seq<Info>, incr: seq<Info>,
                               currBase: int, currIncr: int, dirty: bool)

  const EMPTY := Manifest(None, [], [], 0, 0, false)

  /** `server.aof_filename` and `server.aof_use_rdb_preamble`. */
  datatype Config = Config(filename: string, rdbPreamble: bool)

  function BaseName(cfg: Config, n: nat): string {
    cfg.filename + "." + Dec(n) + ".base" + if cfg.rdbPreamble then ".rdb" else ".aof"
  }

  function IncrName(cfg: Config, n: nat): string {
    cfg.filename + "." + Dec(n) + ".incr" + ".aof"
  }

  // ---------- Operations ----------

  /** `getNewBaseFileNameAndMarkPreAsHistory`. */
  function NewBase(cfg: Config, m: Manifest): Manifest
    requires m.currBase >= 0
  {
    m.(hist := (if m.base.Some? then [m.base.value.(fileType := HIST)] else []) + m.hist,
       currBase := m.currBase + 1,
       base := Some(Info(BaseName(cfg, m.currBase + 1), m.currBase + 1, BASE)),
       dirty := true)
  }

  /** `getNewIncrAofName`. */
  function NewIncr(cfg: Config, m: Manifest): Manifest
    requires m.currIncr >= 0
  {
    m.(incr := m.incr + [Info(IncrName(cfg, m.currIncr + 1), m.currIncr + 1, INCR)],
       currIncr := m.currIncr + 1,
       dirty := true)
  }

  function AsHistory(infos: seq<Info>): (r: seq<Info>)
    ensures |r| == |infos| && forall i :: 0 <= i < |infos| ==> r[i] == infos[i].(fileType := HIST)
  {
    seq(|infos|, i requires 0 <= i < |infos| => infos[i].(fileType := HIST))
  }

  lemma AsHistoryPushed(infos: seq<Info>, i: nat, k: nat, rest: seq<Info>)
    requires i < k <= |infos|
    ensures [infos[i].(fileType := HIST)] + (AsHistory(infos[i + 1..k]) + rest) == AsHistory(infos[i..k]) + rest
  {
  }

  /** `markRewrittenIncrAofAsHistory`: every INCR but the one being written becomes history. */
  function MarkRewritten(m: Manifest, writing: bool): Manifest {
    if m.incr == [] then m
    else
      var kept := if writing then 1 else 0;
      var k := |m.incr| - kept;
      m.(hist := AsHistory(m.incr[..k]) + m.hist, incr := m.incr[k..], dirty := true)
  }

  /** The memory side of `aofDelHistoryFiles`. */
  function DropHistory(m: Manifest): Manifest {
    if m.hist == [] then m else m.(hist := [], dirty := true)
  }

  /** The manifest object, changed in place as the source does. */
  class ManifestObject {
    const cfg: Config
    var base: Option<Info>
    var hist: seq<Info>
    var incr: seq<Info>
    var currBase: int
    var currIncr: int
    var dirty: bool

    function View(): Manifest
      reads this
    {
      Manifest(base, hist, incr, currBase, currIncr, dirty)
    }

    ghost predicate Valid()
      reads this
    {
      Wf(cfg, View())
    }

    /** `aofManifestCreate`. */
    constructor (cfg: Config)
      ensures Valid() && View() == EMPTY && this.cfg == cfg
    {
      this.cfg := cfg;
      base, hist, incr, currBase, currIncr, dirty := None, [], [], 0, 0, false;
    }

    /** `getNewBaseFileNameAndMarkPreAsHistory`. */
    method GetNewBaseFileNameAndMarkPreAsHistory() returns (name: string)
      requires Valid()
      modifies this
      ensures Valid() && View() == NewBase(cfg, old(View()))
      ensures name == base.value.name && name !in Names(old(View()))
    {
      NewBaseKeepsWf(cfg, View());
      if base.Some? {
        hist := [base.value.(fileType := HIST)] + hist;
      }
      currBase := currBase + 1;
      name := BaseName(cfg, currBase);
      base := Some(Info(name, currBase, BASE));
      dirty := true;
      assert View().hist == NewBase(cfg, old(View())).hist;
    }

    /** `getNewIncrAofName`. */
    method GetNewIncrAofName() returns (name: string)
      requires Valid()
      modifies this
      ensures Valid() && View() == NewIncr(cfg, old(View()))
      ensures name == incr[|incr| - 1].name && name !in Names(old(View()))
    {
      NewIncrKeepsWf(cfg, View());
      currIncr := currIncr + 1;
      name := IncrName(cfg, currIncr);
      incr := incr + [Info(name, currIncr, INCR)];
      dirty := true;
    }

    /** `getLastIncrAofName`. */
    method GetLastIncrAofName() returns (name: string)
      requires Valid()
      modifies this
      ensures Valid()
      ensures View() == if old(incr) == [] then NewIncr(cfg, old(View())) else old(View())
      ensures incr != [] && name == incr[|incr| - 1].name
    {
      if incr == [] {
        name := GetNewIncrAofName();
      } else {
        name := incr[|incr| - 1].name;
      }
    }

    /** `markRewrittenIncrAofAsHistory`: from the tail, skipping the file being written. */
    method MarkRewrittenIncrAofAsHistory(writing: bool)
      requires Valid()
      modifies this
      ensures Valid() && View() == MarkRewritten(old(View()), writing)
    {
      hide Wf, AsHistory;
      if incr == [] { return; }
      MarkRewrittenKeepsWf(cfg, View(), writing);
      var li := if writing then |incr| - 1 else |incr|;
      ghost var k := li;
      while li > 0
        invariant 0 <= li <= k <= |old(incr)|
        invariant incr == old(incr)[..li] + old(incr)[k..]
        invariant hist == AsHistory(old(incr)[li..k]) + old(hist)
        invariant View() == old(View()).(incr := incr, hist := hist)
      {
        li := li - 1;
        AsHistoryPushed(old(incr), li, k, old(hist));
        hist := [incr[li].(fileType := HIST)] + hist;
        incr := incr[..li] + incr[li + 1..];
      }
      assert old(incr)[0..k] == old(incr)[..k] && [] + old(incr)[k..] == old(incr)[k..];
      dirty := true;
    }

    /** The memory side of `aofDelHistoryFiles`: the names handed to `unlink`, in order. */
    method DeleteHistory() returns (unlinked: seq<string>)
      requires Valid()
      modifies this
      ensures Valid() && View() == DropHistory(old(View()))
      ensures |unlinked| == |old(hist)|
      ensures forall i :: 0 <= i < |unlinked| ==> unlinked[i] == old(hist)[i].name
      ensures forall n :: n in unlinked ==> n !in LiveNames(View())
    {
      unlinked := [];
      if hist == [] { return; }
      HistoryNotLive(cfg, View());
      DropHistoryKeepsWf(cfg, View());
      while hist != []
        invariant |unlinked| + |hist| == |old(hist)|
        invariant hist == old(hist)[|unlinked|..]
        invariant forall i :: 0 <= i < |unlinked| ==> unlinked[i] == old(hist)[i].name
        invariant View() == old(View()).(hist := hist)
        decreases |hist|
      {
        unlinked := unlinked + [hist[0].name];
        hist := hist[1..];
      }
      dirty := true;
    }
  }

  // ---------- The invariant ----------

  ghost function LiveNames(m: Manifest): set<string> {
    (if m.base.Some? then {m.base.value.name} else {}) + set i | 0 <= i < |m.incr| :: m.incr[i].name
  }

  ghost function Names(m: Manifest): set<string> {
    LiveNames(m) + set i | 0 <= i < |m.hist| :: m.hist[i].name
  }

  predicate BaseInfo(cfg: Config, i: Info) {
    exists rdb :: i.fileSeq >= 1 && i.name == BaseName(cfg.(rdbPreamble := rdb), i.fileSeq)
  }

  predicate IncrInfo(cfg: Config, i: Info) {
    i.fileSeq >= 1 && i.name == IncrName(cfg, i.fileSeq)
  }

  /** At most one BASE holding the last base number, INCR numbers strictly increasing up to the
      counter, types right for their lists, and history strictly older than what is live. */
  ghost predicate Wf(cfg: Config, m: Manifest) {
    && m.currBase >= 0 && m.currIncr >= 0
    && (m.base.Some? ==>
          && m.base.value.fileType == BASE
          && BaseInfo(cfg, m.base.value)
          && m.base.value.fileSeq == m.currBase)
    && (forall i :: 0 <= i < |m.incr| ==>
          m.incr[i].fileType == INCR && IncrInfo(cfg, m.incr[i]) && m.incr[i].fileSeq <= m.currIncr)
    && (forall i, j :: 0 <= i < j < |m.incr| ==> m.incr[i].fileSeq < m.incr[j].fileSeq)
    && (forall i :: 0 <= i < |m.hist| ==> m.hist[i].fileType == HIST && HistoryInfo(cfg, m, m.hist[i]))
  }

  predicate HistoryInfo(cfg: Config, m: Manifest, h: Info) {
    || (BaseInfo(cfg, h) && h.fileSeq <= m.currBase && (m.base.Some? ==> h.fileSeq < m.base.value.fileSeq))
    || (IncrInfo(cfg, h) && h.fileSeq <= m.currIncr
        && forall i :: 0 <= i < |m.incr| ==> h.fileSeq < m.incr[i].fileSeq)
  }

  // ---------- Names tell files apart ----------

  lemma SamePrefix(pre: string, s: string, t: string)
    requires pre + s == pre + t
    ensures s == t
  {
    assert (pre + s)[|pre|..] == s && (pre + t)[|pre|..] == t;
  }

  /** A number followed by a dot and a suffix can be read back. */
  lemma DottedNumber(m: nat, n: nat, a: string, b: string)
    requires Dec(m) + ("." + a) == Dec(n) + ("." + b)
    ensures m == n && a == b
  {
    hide Dec;
    var s := Dec(m) + ("." + a);
    SpanUnique(Dec(m), "." + a);
    SpanUnique(Dec(n), "." + b);
    assert Dec(m) == s[..|Dec(m)|] == s[..|Dec(n)|] == Dec(n);
    DecInjective(m, n);
    SamePrefix(Dec(m), "." + a, "." + b);
    SamePrefix(".", a, b);
  }

  lemma NumberedNames(pre: string, m: nat, n: nat, a: string, b: string)
    requires pre + Dec(m) + "." + a == pre + Dec(n) + "." + b
    ensures m == n && a == b
  {
    hide Dec;
    var s, t := Dec(m) + ("." + a), Dec(n) + ("." + b);
    assert pre + s == pre + Dec(m) + "." + a && pre + t == pre + Dec(n) + "." + b;
    SamePrefix(pre, s, t);
    DottedNumber(m, n, a, b);
  }

  lemma NamesDiffer(cfg: Config, rdb1: bool, rdb2: bool, m: nat, n: nat)
    ensures BaseName(cfg.(rdbPreamble := rdb1), m) != IncrName(cfg, n)
    ensures BaseName(cfg.(rdbPreamble := rdb1), m) == BaseName(cfg.(rdbPreamble := rdb2), n) ==> m == n
    ensures IncrName(cfg, m) == IncrName(cfg, n) ==> m == n
  {
    var pre := cfg.filename + ".";
    var b1 := "base" + if rdb1 then ".rdb" else ".aof";
    var b2 := "base" + if rdb2 then ".rdb" else ".aof";
    var i := "incr" + ".aof";
    assert BaseName(cfg.(rdbPreamble := rdb1), m) == pre + Dec(m) + "." + b1;
    assert BaseName(cfg.(rdbPreamble := rdb2), n) == pre + Dec(n) + "." + b2;
    assert IncrName(cfg, n) == pre + Dec(n) + "." + i && IncrName(cfg, m) == pre + Dec(m) + "." + i;
    assert b1[0] != i[0];
    if pre + Dec(m) + "." + b1 == pre + Dec(n) + "." + i { NumberedNames(pre, m, n, b1, i); }
    if pre + Dec(m) + "." + b1 == pre + Dec(n) + "." + b2 { NumberedNames(pre, m, n, b1, b2); }
    if pre + Dec(m) + "." + i == pre + Dec(n) + "." + i { NumberedNames(pre, m, n, i, i); }
  }

  lemma BaseIncrDiffer(cfg: Config, x: Info, y: Info)
    ensures BaseInfo(cfg, x) && IncrInfo(cfg, y) ==> x.name != y.name
    ensures BaseInfo(cfg, x) && BaseInfo(cfg, y) && x.name == y.name ==> x.fileSeq == y.fileSeq
    ensures IncrInfo(cfg, x) && IncrInfo(cfg, y) && x.name == y.name ==> x.fileSeq == y.fileSeq
  {
    hide BaseName, IncrName;
    if BaseInfo(cfg, x) && IncrInfo(cfg, y) {
      var rdb :| x.name == BaseName(cfg.(rdbPreamble := rdb), x.fileSeq);
      NamesDiffer(cfg, rdb, rdb, x.fileSeq, y.fileSeq);
    }
    if BaseInfo(cfg, x) && BaseInfo(cfg, y) {
      var r1 :| x.name == BaseName(cfg.(rdbPreamble := r1), x.fileSeq);
      var r2 :| y.name == BaseName(cfg.(rdbPreamble := r2), y.fileSeq);
      NamesDiffer(cfg, r1, r2, x.fileSeq, y.fileSeq);
    }
    if IncrInfo(cfg, x) && IncrInfo(cfg, y) {
      NamesDiffer(cfg, true, true, x.fileSeq, y.fileSeq);
    }
  }

  /** No history file is live, so deleting history never deletes data in use. */
  lemma HistoryNotLive(cfg: Config, m: Manifest)
    requires Wf(cfg, m)
    ensures forall i :: 0 <= i < |m.hist| ==> m.hist[i].name !in LiveNames(m)
  {
    hide BaseInfo, IncrInfo;
    forall i | 0 <= i < |m.hist| ensures m.hist[i].name !in LiveNames(m) {
      var h := m.hist[i];
      if m.base.Some? {
        BaseIncrDiffer(cfg, h, m.base.value);
        BaseIncrDiffer(cfg, m.base.value, h);
      }
      forall j | 0 <= j < |m.incr| ensures h.name != m.incr[j].name {
        BaseIncrDiffer(cfg, h, m.incr[j]);
      }
    }
  }

  /** The BASE is none of the INCR files and the INCR files are pairwise different. */
  lemma LiveDistinct(cfg: Config, m: Manifest)
    requires Wf(cfg, m)
    ensures forall i, j :: 0 <= i < j < |m.incr| ==> m.incr[i].name != m.incr[j].name
    ensures m.base.Some? ==> forall i :: 0 <= i < |m.incr| ==> m.base.value.name != m.incr[i].name
  {
    hide BaseInfo, IncrInfo;
    forall i, j | 0 <= i < j < |m.incr| ensures m.incr[i].name != m.incr[j].name {
      BaseIncrDiffer(cfg, m.incr[i], m.incr[j]);
    }
    if m.base.Some? {
      forall i | 0 <= i < |m.incr| ensures m.base.value.name != m.incr[i].name {
        BaseIncrDiffer(cfg, m.base.value, m.incr[i]);
      }
    }
  }

  /** A name numbered past the counter is in none of the lists. */
  lemma FreshName(cfg: Config, m: Manifest, x: Info)
    requires Wf(cfg, m)
    requires (BaseInfo(cfg, x) && x.fileSeq > m.currBase) || (IncrInfo(cfg, x) && x.fileSeq > m.currIncr)
    ensures x.name !in Names(m)
  {
    hide BaseInfo, IncrInfo;
    if m.base.Some? {
      BaseIncrDiffer(cfg, x, m.base.value);
      BaseIncrDiffer(cfg, m.base.value, x);
    }
    forall i | 0 <= i < |m.incr| ensures x.name != m.incr[i].name { BaseIncrDiffer(cfg, x, m.incr[i]); }
    forall i | 0 <= i < |m.hist| ensures x.name != m.hist[i].name {
      BaseIncrDiffer(cfg, x, m.hist[i]);
      BaseIncrDiffer(cfg, m.hist[i], x);
    }
  }

  lemma NewBaseKeepsWf(cfg: Config, m: Manifest)
    requires Wf(cfg, m)
    ensures Wf(cfg, NewBase(cfg, m))
    ensures NewBase(cfg, m).base.value.name !in Names(m)
  {
    var x := NewBase(cfg, m).base.value;
    assert cfg.(rdbPreamble := cfg.rdbPreamble) == cfg;
    assert BaseInfo(cfg, x);
    FreshName(cfg, m, x);
    hide BaseInfo, IncrInfo, Names, BaseName;
    var m' := NewBase(cfg, m);
    forall i | 0 <= i < |m'.hist| ensures m'.hist[i].fileType == HIST && HistoryInfo(cfg, m', m'.hist[i]) {
      if m.base.Some? {
        if i == 0 {
          SameInfo(cfg, m.base.value, HIST);
        } else {
          assert m'.hist[i] == m.hist[i - 1] && HistoryInfo(cfg, m, m.hist[i - 1]);
        }
      } else {
        assert HistoryInfo(cfg, m, m.hist[i]);
      }
    }
  }

  lemma SameInfo(cfg: Config, x: Info, t: char)
    ensures BaseInfo(cfg, x) ==> BaseInfo(cfg, x.(fileType := t))
    ensures IncrInfo(cfg, x) ==> IncrInfo(cfg, x.(fileType := t))
  {
    if BaseInfo(cfg, x) {
      var rdb :| x.name == BaseName(cfg.(rdbPreamble := rdb), x.fileSeq);
      assert x.(fileType := t).name == BaseName(cfg.(rdbPreamble := rdb), x.(fileType := t).fileSeq);
    }
  }

  lemma NewIncrKeepsWf(cfg: Config, m: Manifest)
    requires Wf(cfg, m)
    ensures Wf(cfg, NewIncr(cfg, m))
    ensures NewIncr(cfg, m).incr[|m.incr|].name !in Names(m)
  {
    var m' := NewIncr(cfg, m);
    FreshName(cfg, m, m'.incr[|m.incr|]);
    hide BaseInfo, IncrInfo, Names;
    assert IncrInfo(cfg, m'.incr[|m.incr|]) by { NumberedIncr(cfg, m.currIncr + 1); }
    forall i | 0 <= i < |m'.hist| ensures HistoryInfo(cfg, m', m'.hist[i]) {
      assert HistoryInfo(cfg, m, m.hist[i]);
    }
  }

  lemma NumberedIncr(cfg: Config, n: nat)
    requires n >= 1
    ensures IncrInfo(cfg, Info(IncrName(cfg, n), n, INCR))
  {
  }

  lemma MarkRewrittenKeepsWf(cfg: Config, m: Manifest, writing: bool)
    requires Wf(cfg, m)
    ensures Wf(cfg, MarkRewritten(m, writing))
  {
    hide BaseInfo, IncrInfo;
    var m' := MarkRewritten(m, writing);
    var k := |m.incr| - |m'.incr|;
    forall i | 0 <= i < |m'.hist| ensures m'.hist[i].fileType == HIST && HistoryInfo(cfg, m', m'.hist[i]) {
      if m.incr == [] {
        assert HistoryInfo(cfg, m, m.hist[i]);
      } else if i < k {
        assert m'.hist[i] == m.incr[i].(fileType := HIST);
        SameInfo(cfg, m.incr[i], HIST);
      } else {
        assert m'.hist[i] == m.hist[i - k] && HistoryInfo(cfg, m, m.hist[i - k]);
      }
    }
  }

  lemma DropHistoryKeepsWf(cfg: Config, m: Manifest)
    requires Wf(cfg, m)
    ensures Wf(cfg, DropHistory(m))
  {
  }

  /** The manifest operations, and the invariant over every run of them. */
  datatype Op = OpNewBase | OpNewIncr | OpMarkRewritten(writing: bool) | OpDropHistory

  function Apply(cfg: Config, m: Manifest, op: Op): Manifest
    requires m.currBase >= 0 && m.currIncr >= 0
  {
    match op
    case OpNewBase => NewBase(cfg, m)
    case OpNewIncr => NewIncr(cfg, m)
    case OpMarkRewritten(writing) => MarkRewritten(m, writing)
    case OpDropHistory => DropHistory(m)
  }

  ghost function Run(cfg: Config, m: Manifest, ops: seq<Op>): Manifest
    requires Wf(cfg, m)
    decreases |ops|
  {
    if ops == [] then m
    else (ApplyKeepsWf(cfg, m, ops[0]); Run(cfg, Apply(cfg, m, ops[0]), ops[1..]))
  }

  lemma ApplyKeepsWf(cfg: Config, m: Manifest, op: Op)
    requires Wf(cfg, m)
    ensures Wf(cfg, Apply(cfg, m, op))
  {
    hide Wf;
    assert m.currBase >= 0 && m.currIncr >= 0 by { CountersNatural(cfg, m); }
    match op
    case OpNewBase => NewBaseKeepsWf(cfg, m);
    case OpNewIncr => NewIncrKeepsWf(cfg, m);
    case OpMarkRewritten(writing) => MarkRewrittenKeepsWf(cfg, m, writing);
    case OpDropHistory => DropHistoryKeepsWf(cfg, m);
  }

  lemma CountersNatural(cfg: Config, m: Manifest)
    requires Wf(cfg, m)
    ensures m.currBase >= 0 && m.currIncr >= 0
  {
  }

  lemma {:induction false} EveryRunKeepsWf(cfg: Config, m: Manifest, ops: seq<Op>)
    requires Wf(cfg, m)
    ensures Wf(cfg, Run(cfg, m, ops))
    decreases |ops|
  {
    hide Wf;
    if ops != [] {
      CountersNatural(cfg, m);
      ApplyKeepsWf(cfg, m, ops[0]);
      EveryRunKeepsWf(cfg, Apply(cfg, m, ops[0]), ops[1..]);
    }
  }

  // ---------- No file is forgotten ----------

  /** Where the entries go: the first `k` INCR files to the front of history, the rest stay. */
  lemma MarkRewrittenAt(m: Manifest, writing: bool, i: nat)
    requires m.incr != []
    ensures var (k, m') := (|m.incr| - (if writing then 1 else 0), MarkRewritten(m, writing));
            && m'.base == m.base && |m'.incr| == |m.incr| - k && |m'.hist| == k + |m.hist|
            && (i < |m.incr| ==> m.incr[i].name == if i < k then m'.hist[i].name else m'.incr[i - k].name)
            && (i < |m.hist| ==> m'.hist[k + i].name == m.hist[i].name)
  {
  }

  lemma KeepsNames(m: Manifest, writing: bool)
    requires m.incr != []
    ensures Names(m) <= Names(MarkRewritten(m, writing))
  {
    var m' := MarkRewritten(m, writing);
    MarkRewrittenAt(m, writing, 0);
    hide MarkRewritten;
    forall i | 0 <= i < |m.incr| ensures m.incr[i].name in Names(m') { MarkRewrittenAt(m, writing, i); }
    forall i | 0 <= i < |m.hist| ensures m.hist[i].name in Names(m') { MarkRewrittenAt(m, writing, i); }
  }

  lemma AddsNoNames(m: Manifest, writing: bool)
    requires m.incr != []
    ensures Names(MarkRewritten(m, writing)) <= Names(m)
  {
    var (k, m') := (|m.incr| - (if writing then 1 else 0), MarkRewritten(m, writing));
    MarkRewrittenAt(m, writing, 0);
    hide MarkRewritten;
    forall i | 0 <= i < |m'.incr| ensures m'.incr[i].name in Names(m) { MarkRewrittenAt(m, writing, k + i); }
    forall i | 0 <= i < |m'.hist| ensures m'.hist[i].name in Names(m) {
      if i < k { MarkRewrittenAt(m, writing, i); } else { MarkRewrittenAt(m, writing, i - k); }
    }
  }

  lemma MarkRewrittenNames(m: Manifest, writing: bool)
    ensures Names(MarkRewritten(m, writing)) == Names(m)
  {
    hide Names;
    if m.incr != [] {
      KeepsNames(m, writing);
      AddsNoNames(m, writing);
    }
  }

  lemma NewBaseNames(cfg: Config, m: Manifest)
    requires m.currBase >= 0
    ensures Names(NewBase(cfg, m)) == Names(m) + {BaseName(cfg, m.currBase + 1)}
  {
    var m' := NewBase(cfg, m);
    hide BaseName;
    var k := if m.base.Some? then 1 else 0;
    assert forall i :: 0 <= i < |m.hist| ==> m'.hist[k + i] == m.hist[i];
    if m.base.Some? { assert m'.hist[0].name == m.base.value.name; }
    assert m'.incr == m.incr;
    forall x | x in Names(m) ensures x in Names(m') {
      if i :| 0 <= i < |m.hist| && m.hist[i].name == x { assert m'.hist[k + i].name == x; }
    }
  }

  lemma NewIncrNames(cfg: Config, m: Manifest)
    requires m.currIncr >= 0
    ensures Names(NewIncr(cfg, m)) == Names(m) + {IncrName(cfg, m.currIncr + 1)}
  {
    var m' := NewIncr(cfg, m);
    hide IncrName;
    assert forall i :: 0 <= i < |m.incr| ==> m'.incr[i] == m.incr[i];
    assert m'.incr[|m.incr|].name == IncrName(cfg, m.currIncr + 1);
  }

  /** Every operation but the deletion of history keeps all file names in the manifest, and the
      deletion keeps exactly the live ones: the manifest forgets no name it has not handed out for
      deletion. */
  lemma NothingForgotten(cfg: Config, m: Manifest, op: Op)
    requires m.currBase >= 0 && m.currIncr >= 0
    ensures Names(Apply(cfg, m, op)) ==
            match op
            case OpNewBase => Names(m) + {BaseName(cfg, m.currBase + 1)}
            case OpNewIncr => Names(m) + {IncrName(cfg, m.currIncr + 1)}
            case OpMarkRewritten(_) => Names(m)
            case OpDropHistory => LiveNames(m)
  {
    hide BaseName, IncrName;
    match op
    case OpNewBase => NewBaseNames(cfg, m);
    case OpNewIncr => NewIncrNames(cfg, m);
    case OpMarkRewritten(writing) => MarkRewrittenNames(m, writing);
    case OpDropHistory =>
  }

  /** What is live after each operation: a new BASE takes the place of the old one, a new INCR file
      comes last, and a rewrite leaves of the INCR files only the one being written. Numbers go up by
      one, and whatever changes the manifest marks it to be persisted. */
  lemma WhatStaysLive(cfg: Config, m: Manifest, op: Op)
    requires m.currBase >= 0 && m.currIncr >= 0
    ensures var m' := Apply(cfg, m, op);
            && (match op
                case OpNewBase =>
                  && m'.base == Some(Info(BaseName(cfg, m.currBase + 1), m.currBase + 1, BASE))
                  && m'.incr == m.incr && m'.currBase == m.currBase + 1 && m'.currIncr == m.currIncr
                case OpNewIncr =>
                  && m'.incr == m.incr + [Info(IncrName(cfg, m.currIncr + 1), m.currIncr + 1, INCR)]
                  && m'.base == m.base && m'.currBase == m.currBase && m'.currIncr == m.currIncr + 1
                case OpMarkRewritten(writing) =>
                  && m'.incr == (if writing && m.incr != [] then [m.incr[|m.incr| - 1]] else [])
                  && m'.base == m.base && m'.currBase == m.currBase && m'.currIncr == m.currIncr
                case OpDropHistory =>
                  m'.incr == m.incr && m'.base == m.base && m'.currBase == m.currBase && m'.currIncr == m.currIncr)
            && (m'.(dirty := m.dirty) != m ==> m'.dirty)
  {
    hide BaseName, IncrName;
  }

  /** What becomes history stands before the older history, in its own order. */
  lemma HistoryOrder(cfg: Config, m: Manifest, writing: bool)
    requires m.currBase >= 0
    ensures var (b, w) := (NewBase(cfg, m).hist, MarkRewritten(m, writing));
            && b == (if m.base.Some? then [m.base.value.(fileType := HIST)] else []) + m.hist
            && |w.hist| + |w.incr| == |m.hist| + |m.incr|
            && forall i :: 0 <= i < |w.hist| ==>
                 if i < |m.incr| - |w.incr| then w.hist[i] == m.incr[i].(fileType := HIST)
                 else w.hist[i] == m.hist[i - (|m.incr| - |w.incr|)]
  {
    hide BaseName;
  }
}
