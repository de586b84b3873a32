/** The string routines of sds.c that the manifest and the ACL rules go through: quoting
    (`sdscatrepr`), splitting into arguments (`sdssplitargs`) and lower-casing. */
module Sds {
  import opened Text

  // ---------- Lower case ----------

  function LowerChar(c: char): char {
    if 'A' <= c <= 'Z' then c + ' ' else c
  }

  function Lower(s: string): (r: string)
    ensures |r| == |s| && forall i :: 0 <= i < |s| ==> r[i] == LowerChar(s[i])
  {
    seq(|s|, i requires 0 <= i < |s| => LowerChar(s[i]))
  }

  lemma LowerIdempotent(s: string)
    ensures Lower(Lower(s)) == Lower(s)
  {
  }

  // ---------- Quoting ----------

  predicate IsPrint(c: char) { ' ' <= c <= '~' }

  predicate IsByte(c: char) { c as int < 256 }

  predicate Bytes(s: string) { forall i :: 0 <= i < |s| ==> IsByte(s[i]) && s[i] != '\0' }

  /** `sdsneedsrepr` on one character. It does not look for single quotes. */
  predicate Escaped(c: char) {
    c == '\\' || c == '"' || !IsPrint(c) || IsSpace(c)
  }

  predicate NeedsRepr(s: string) { exists i :: 0 <= i < |s| && Escaped(s[i]) }

  function HexDigit(d: nat): (c: char)
    requires d < 16
    ensures IsHexDigit(c) && HexValue(c) == d
  {
    if d < 10 then '0' + d as char else 'a' + (d - 10) as char
  }

  predicate IsHexDigit(c: char) { '0' <= c <= '9' || 'a' <= c <= 'f' || 'A' <= c <= 'F' }

  function HexValue(c: char): (n: nat)
    requires IsHexDigit(c)
    ensures n < 16
  {
    if '0' <= c <= '9' then (c - '0') as nat
    else if 'a' <= c <= 'f' then (c - 'a') as nat + 10
    else (c - 'A') as nat + 10
  }

  const BELL: char := 7 as char
  const BACKSPACE: char := 8 as char

  function ReprChar(c: char): string
    requires IsByte(c)
  {
    if c == '\\' || c == '"' then ['\\', c]
    else if c == '\n' then "\\n"
    else if c == '\r' then "\\r"
    else if c == '\t' then "\\t"
    else if c == BELL then "\\a"
    else if c == BACKSPACE then "\\b"
    else if IsPrint(c) then [c]
    else ['\\', 'x', HexDigit(c as nat / 16), HexDigit(c as nat % 16)]
  }

  function ReprBody(s: string): string
    requires Bytes(s)
  {
    if s == "" then "" else ReprChar(s[0]) + ReprBody(s[1..])
  }

  /** `sdscatrepr`. */
  function Repr(s: string): string
    requires Bytes(s)
  {
    "\"" + ReprBody(s) + "\""
  }

  // ---------- Splitting ----------

  datatype Token = Token(text: string, rest: string) | BadQuotes

  function Prepend(c: char, t: Token): Token {
    if t.Token? then Token([c] + t.text, t.rest) else t
  }

  function UnescapeChar(c: char): char {
    if c == 'n' then '\n' else if c == 'r' then '\r' else if c == 't' then '\t'
    else if c == 'b' then BACKSPACE else if c == 'a' then BELL else c
  }

  /** A closing quote must be followed by a blank or by nothing. */
  function CloseQuote(rest: string): Token {
    if rest == "" || IsSpace(rest[0]) then Token("", rest) else BadQuotes
  }

  /** Inside double quotes. */
  function TakeDouble(s: string): (t: Token)
    ensures t.Token? ==> |t.rest| <= |s|
  {
    if s == "" then BadQuotes
    else if |s| >= 4 && s[0] == '\\' && s[1] == 'x' && IsHexDigit(s[2]) && IsHexDigit(s[3]) then
      Prepend((HexValue(s[2]) * 16 + HexValue(s[3])) as char, TakeDouble(s[4..]))
    else if |s| >= 2 && s[0] == '\\' then Prepend(UnescapeChar(s[1]), TakeDouble(s[2..]))
    else if s[0] == '"' then CloseQuote(s[1..])
    else Prepend(s[0], TakeDouble(s[1..]))
  }

  /** Inside single quotes. */
  function TakeSingle(s: string): (t: Token)
    ensures t.Token? ==> |t.rest| <= |s|
  {
    if s == "" then BadQuotes
    else if |s| >= 2 && s[0] == '\\' && s[1] == '\'' then Prepend('\'', TakeSingle(s[2..]))
    else if s[0] == '\'' then CloseQuote(s[1..])
    else Prepend(s[0], TakeSingle(s[1..]))
  }

  predicate IsDelimiter(c: char) { c == ' ' || c == '\n' || c == '\r' || c == '\t' }

  /** Outside quotes: up to a blank, which is dropped. */
  function TakePlain(s: string): (t: Token)
    ensures t.Token? ==> |t.rest| <= |s|
    ensures t.Token? && s != "" ==> |t.rest| < |s|
  {
    if s == "" then Token("", "")
    else if IsDelimiter(s[0]) then Token("", s[1..])
    else if s[0] == '"' then TakeDouble(s[1..])
    else if s[0] == '\'' then TakeSingle(s[1..])
    else Prepend(s[0], TakePlain(s[1..]))
  }

  lemma {:induction false} SkipSpacesShrinks(s: string)
    ensures |SkipSpaces(s)| <= |s|
  {
    if s != "" && IsSpace(s[0]) { SkipSpacesShrinks(s[1..]); }
  }

  /** `sdssplitargs` on a string without NUL. */
  function SplitArgs(s: string): Option<seq<string>>
    decreases |s|
  {
    SkipSpacesShrinks(s);
    var t := SkipSpaces(s);
    if t == "" then Some([])
    else
      match TakePlain(t)
      case BadQuotes => None
      case Token(text, rest) =>
        match SplitArgs(rest)
        case None => None
        case Some(more) => Some([text] + more)
  }

  /** A character that stands for itself inside an unquoted word. */
  predicate PlainChar(c: char) { !IsDelimiter(c) && c != '"' && c != '\'' && c != '\0' }

  predicate PlainWord(s: string) {
    s != "" && !IsSpace(s[0]) && forall i :: 0 <= i < |s| ==> PlainChar(s[i])
  }

  /** Plain characters are read as they are, whatever follows. */
  lemma {:induction false} TakePlainChars(w: string, rest: string)
    requires forall i :: 0 <= i < |w| ==> PlainChar(w[i])
    ensures TakePlain(rest).Token? ==> TakePlain(w + rest) == Token(w + TakePlain(rest).text, TakePlain(rest).rest)
    ensures TakePlain(rest).BadQuotes? ==> TakePlain(w + rest).BadQuotes?
  {
    if w == "" {
      assert w + rest == rest;
    } else {
      assert (w + rest)[1..] == w[1..] + rest && (w + rest)[0] == w[0];
      TakePlainChars(w[1..], rest);
      if TakePlain(rest).Token? {
        assert [w[0]] + (w[1..] + TakePlain(rest).text) == w + TakePlain(rest).text;
      }
    }
  }

  lemma {:induction false} TakeReprChar(c: char, rest: string)
    requires IsByte(c)
    ensures TakeDouble(ReprChar(c) + rest) == Prepend(c, TakeDouble(rest))
  {
    hide Prepend;
    var s := ReprChar(c) + rest;
    if |ReprChar(c)| == 4 {
      assert s[4..] == rest;
    } else if |ReprChar(c)| == 2 {
      assert s[2..] == rest;
    } else {
      assert s[1..] == rest;
    }
  }

  /** Quoting is undone by splitting. */
  lemma {:induction false} TakeRepr(w: string, rest: string)
    requires Bytes(w)
    requires rest == "" || IsSpace(rest[0])
    ensures TakeDouble(ReprBody(w) + "\"" + rest) == Token(w, rest)
  {
    var s := ReprBody(w) + "\"" + rest;
    if w == "" {
      assert s[0] == '"' && s[1..] == rest;
    } else {
      var tail := ReprBody(w[1..]) + "\"" + rest;
      assert s == ReprChar(w[0]) + tail;
      TakeReprChar(w[0], tail);
      TakeRepr(w[1..], rest);
      assert [w[0]] + w[1..] == w;
    }
  }

  /** One word is read, then the other words. */
  lemma SplitWord(s: string, w: string, rest: string)
    requires s != "" && !IsSpace(s[0]) && TakePlain(s) == Token(w, rest)
    ensures SplitArgs(s) ==
            match SplitArgs(rest)
            case None => None
            case Some(more) => Some([w] + more)
  {
    assert SkipSpaces(s) == s;
    hide TakePlain, SkipSpaces;
  }

  /** An unquoted word, then one blank, then the other words. */
  lemma SplitPlainWord(w: string, rest: string)
    requires PlainWord(w)
    requires rest == "" || rest[0] == ' '
    ensures SplitArgs(w + rest) ==
            match SplitArgs(if rest == "" then "" else rest[1..])
            case None => None
            case Some(more) => Some([w] + more)
  {
    hide SplitArgs;
    assert (w + rest)[0] == w[0];
    assert TakePlain(rest) == Token("", if rest == "" then "" else rest[1..]);
    TakePlainChars(w, rest);
    assert w + "" == w;
    SplitWord(w + rest, w, if rest == "" then "" else rest[1..]);
  }

  /** A quoted word, then the other words. */
  lemma SplitQuotedWord(w: string, rest: string)
    requires Bytes(w)
    requires rest == "" || rest[0] == ' '
    ensures SplitArgs(Repr(w) + rest) ==
            match SplitArgs(rest)
            case None => None
            case Some(more) => Some([w] + more)
  {
    hide SplitArgs, ReprBody, TakeDouble;
    var s := Repr(w) + rest;
    assert s[0] == '"' && s[1..] == ReprBody(w) + "\"" + rest;
    TakeRepr(w, rest);
    SplitWord(s, w, rest);
  }

  // ---------- What splitting can lose ----------

  lemma {:induction false} TakeDoubleShrinks(s: string)
    ensures var t := TakeDouble(s); t.Token? ==> |t.text| + |t.rest| < |s|
    decreases |s|
  {
    if s != "" {
      TakeDoubleShrinks(s[1..]);
      if |s| >= 2 { TakeDoubleShrinks(s[2..]); }
      if |s| >= 4 { TakeDoubleShrinks(s[4..]); }
    }
  }

  lemma {:induction false} TakeSingleShrinks(s: string)
    ensures var t := TakeSingle(s); t.Token? ==> |t.text| + |t.rest| < |s|
    decreases |s|
  {
    if s != "" {
      TakeSingleShrinks(s[1..]);
      if |s| >= 2 { TakeSingleShrinks(s[2..]); }
    }
  }

  predicate PlainText(s: string) {
    forall i :: 0 <= i < |s| ==> !IsDelimiter(s[i]) && s[i] != '"' && s[i] != '\''
  }

  /** A word is read as it stands, with at most one blank behind it, or holds quotes and comes
      out at least two characters shorter. */
  lemma {:induction false} TakePlainShrinks(s: string)
    requires TakePlain(s).Token?
    ensures var t := TakePlain(s);
            || |t.text| + |t.rest| + 2 <= |s|
            || (PlainText(t.text) && (|t.text| + |t.rest| < |s| || (t.rest == "" && |t.text| <= |s|)))
  {
    if s == "" || IsDelimiter(s[0]) {
    } else if s[0] == '"' {
      TakeDoubleShrinks(s[1..]);
    } else if s[0] == '\'' {
      TakeSingleShrinks(s[1..]);
    } else {
      TakePlainShrinks(s[1..]);
    }
  }

  /** The length of the words, each with a blank. */
  function Weight(words: seq<string>): nat {
    if words == [] then 0 else |words[0]| + 1 + Weight(words[1..])
  }

  /** Splitting makes nothing longer; where nothing was lost, the words came out as they stood. */
  lemma {:induction false} SplitShrinks(s: string)
    requires SplitArgs(s).Some?
    ensures var words := SplitArgs(s).value;
            && Weight(words) <= |s| + 1
            && (Weight(words) == |s| + 1 ==> forall i :: 0 <= i < |words| ==> PlainText(words[i]))
    decreases |s|
  {
    hide PlainText, TakePlain;
    SkipSpacesShrinks(s);
    var t := SkipSpaces(s);
    if t != "" {
      TakePlainShrinks(t);
      var word := TakePlain(t);
      SplitShrinks(word.rest);
      var (more, words) := (SplitArgs(word.rest).value, SplitArgs(s).value);
      assert words == [word.text] + more && words[1..] == more;
    }
  }

  lemma SplitBlank(rest: string)
    ensures SplitArgs(" " + rest) == SplitArgs(rest)
  {
    assert (" " + rest)[1..] == rest;
  }

  // ---------- Single quotes ----------

  /** A text as it is written between single quotes. */
  function SingleBody(w: string): string {
    if w == "" then "" else (if w[0] == '\'' then "\\'" else [w[0]]) + SingleBody(w[1..])
  }

  /** Between single quotes everything stands for itself, but a quote is written with a backslash; a
      text that ends with a backslash cannot be written so. */
  lemma {:induction false} TakeSingleQuoted(w: string, rest: string)
    requires w != "" ==> w[|w| - 1] != '\\'
    requires rest == "" || IsSpace(rest[0])
    ensures TakeSingle(SingleBody(w) + "'" + rest) == Token(w, rest)
  {
    hide TakeSingle;
    if w == "" {
      assert SingleBody(w) + "'" + rest == "'" + rest;
      TakeSingleEnd(rest);
    } else {
      var tail := SingleBody(w[1..]) + "'" + rest;
      assert SingleBody(w) + "'" + rest == (if w[0] == '\'' then "\\'" else [w[0]]) + tail;
      hide SingleBody;
      if w[0] == '\\' { NotQuoteFirst(w[1..], rest); }
      TakeSingleChar(w[0], tail);
      TakeSingleQuoted(w[1..], rest);
      assert [w[0]] + w[1..] == w;
    }
  }

  lemma TakeSingleEnd(rest: string)
    requires rest == "" || IsSpace(rest[0])
    ensures TakeSingle("'" + rest) == Token("", rest)
  {
    assert ("'" + rest)[0] == '\'' && ("'" + rest)[1..] == rest;
  }

  lemma TakeSingleChar(c: char, rest: string)
    requires c == '\\' ==> rest != "" && rest[0] != '\''
    ensures TakeSingle((if c == '\'' then "\\'" else [c]) + rest) == Prepend(c, TakeSingle(rest))
  {
    hide Prepend;
    var s := (if c == '\'' then "\\'" else [c]) + rest;
    if c == '\'' {
      assert s[0] == '\\' && s[1] == '\'' && s[2..] == rest;
    } else {
      assert s[0] == c && s[1..] == rest;
      assert |s| >= 2 ==> s[1] == rest[0];
    }
  }

  lemma NotQuoteFirst(w: string, rest: string)
    requires w != ""
    ensures (SingleBody(w) + "'" + rest)[0] != '\''
  {
  }

  // ---------- An unquoted single quote ----------

  lemma {:induction false} TakeSingleOpen(rest: string)
    requires '\'' !in rest
    ensures TakeSingle(rest) == BadQuotes
  {
    if rest != "" { TakeSingleOpen(rest[1..]); }
  }

  /** Behind an opening single quote: unbalanced, or a shorter text with everything read. */
  lemma {:induction false} TakeSingleShort(u: string, rest: string)
    requires '\\' !in u && '\'' !in rest
    requires forall i :: 0 <= i < |u| ==> !IsSpace(u[i])
    ensures var t := TakeSingle(u + rest);
            t.BadQuotes? || (|t.text| < |u| && t.rest == rest)
  {
    var s := u + rest;
    if u == "" {
      assert s == rest;
      TakeSingleOpen(rest);
    } else {
      assert s[0] == u[0] && s[1..] == u[1..] + rest;
      if u[0] == '\'' {
        if |u| > 1 { assert s[1] == u[1]; } else { assert s[1..] == rest; }
      } else {
        TakeSingleShort(u[1..], rest);
      }
    }
  }

  /** A word that `sdsneedsrepr` passes but that holds a single quote never comes back. */
  lemma {:induction false} TakeQuotedShort(w: string, rest: string)
    requires '\'' in w && !NeedsRepr(w) && '\'' !in rest
    ensures var t := TakePlain(w + rest);
            t.BadQuotes? || (|t.text| < |w| && t.rest == rest)
  {
    var s := w + rest;
    assert !Escaped(w[0]);
    assert s[0] == w[0] && s[1..] == w[1..] + rest;
    assert forall i :: 0 <= i < |w[1..]| ==> w[1..][i] == w[i + 1] && !Escaped(w[i + 1]);
    if w[0] == '\'' {
      TakeSingleShort(w[1..], rest);
    } else {
      TakeQuotedShort(w[1..], rest);
    }
  }
}
