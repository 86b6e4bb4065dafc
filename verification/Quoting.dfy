/** Quoting of byte strings and splitting of a line into arguments, as in sds.c; a char is a byte. */
module Quoting {
  import opened Wrappers

  /** The byte at index i of a C string: NUL ends it. */
  function At(s: string, i: nat): char {
    if i < |s| then s[i] else '\0'
  }

  predicate IsSpace(c: char) {
    c == ' ' || '\t' <= c <= '\r'
  }

  predicate IsPrint(c: char) {
    ' ' <= c <= '~'
  }

  predicate IsHexDigit(c: char) {
    '0' <= c <= '9' || 'a' <= c <= 'f' || 'A' <= c <= 'F'
  }

  function HexDigitToInt(c: char): (n: nat)
    ensures n < 16
  {
    if '0' <= c <= '9' then c as int - '0' as int
    else if 'a' <= c <= 'f' then c as int - 'a' as int + 10
    else if 'A' <= c <= 'F' then c as int - 'A' as int + 10
    else 0
  }

  function HexDigit(n: nat): (c: char)
    requires n < 16
    ensures IsHexDigit(c) && HexDigitToInt(c) == n
  {
    if n < 10 then (n + '0' as int) as char else (n - 10 + 'a' as int) as char
  }

  // ----- quoting -----

  function EscapeChar(c: char): string
    requires c < 256 as char
  {
    if c == '\\' || c == '"' then ['\\', c]
    else if c == '\n' then "\\n"
    else if c == '\r' then "\\r"
    else if c == '\t' then "\\t"
    else if c == 7 as char then "\\a"
    else if c == 8 as char then "\\b"
    else if IsPrint(c) then [c]
    else ['\\', 'x', HexDigit(c as int / 16), HexDigit(c as int % 16)]
  }

  ghost predicate IsBytes(s: string) {
    forall i | 0 <= i < |s| :: s[i] < 256 as char
  }

  function Escaped(s: string): string
    requires IsBytes(s)
  {
    if s == "" then "" else EscapeChar(s[0]) + Escaped(s[1..])
  }

  /** The quoted form of a byte string. */
  function Repr(s: string): string
    requires IsBytes(s)
  {
    "\"" + (Escaped(s) + "\"")
  }

  lemma {:induction false} EscapedSnoc(s: string, c: char)
    requires IsBytes(s) && c < 256 as char
    ensures Escaped(s + [c]) == Escaped(s) + EscapeChar(c)
  {
    if s == "" {
      assert s + [c] == [c] && Escaped([c][1..]) == "";
    } else {
      EscapedSnoc(s[1..], c);
      assert (s + [c])[1..] == s[1..] + [c];
    }
  }

  /** The lower-case hexadecimal digits. */
  predicate IsLowerHex(c: char) {
    '0' <= c <= '9' || 'a' <= c <= 'f'
  }

  /** The quoted form of one byte, spelled out. */
  lemma QuotedByte(c: char)
    requires c < 256 as char
    ensures c == '\\' ==> Repr([c]) == "\"\\\\\""
    ensures c == '"' ==> Repr([c]) == "\"\\\"\""
    ensures c == '\n' ==> Repr([c]) == "\"\\n\""
    ensures c == '\r' ==> Repr([c]) == "\"\\r\""
    ensures c == '\t' ==> Repr([c]) == "\"\\t\""
    ensures c == 7 as char ==> Repr([c]) == "\"\\a\""
    ensures c == 8 as char ==> Repr([c]) == "\"\\b\""
    ensures ' ' <= c <= '~' && c != '\\' && c != '"' ==> Repr([c]) == ['"', c, '"']
    ensures (c < ' ' && c !in "\n\r\t" && c != 7 as char && c != 8 as char) || c > '~' ==> ByHex(Repr([c]), c)
  {
    assert Escaped([c]) == EscapeChar(c) + Escaped([c][1..]) && Escaped([c][1..]) == "";
    assert EscapeChar(c) + "" == EscapeChar(c);
  }

  /** A backslash, an x and two digits whose value is the byte, in quotes. */
  predicate ByHex(r: string, c: char) {
    && |r| == 6 && r[..3] == "\"\\x" && r[5] == '"' && IsLowerHex(r[3]) && IsLowerHex(r[4])
    && HexDigitToInt(r[3]) * 16 + HexDigitToInt(r[4]) == c as int
  }

  lemma {:induction false} EscapedAppend(s: string, t: string)
    requires IsBytes(s) && IsBytes(t)
    ensures Escaped(s + t) == Escaped(s) + Escaped(t)
  {
    if s == "" {
      assert s + t == t;
    } else {
      assert (s + t)[1..] == s[1..] + t;
      EscapedAppend(s[1..], t);
      Assoc(EscapeChar(s[0]), Escaped(s[1..]), Escaped(t));
    }
  }

  /** Byte strings are quoted piece by piece: within the quotes, the form of s + t is that of s and that of t. */
  lemma ReprAppend(s: string, t: string)
    requires IsBytes(s) && IsBytes(t)
    ensures Repr(s + t) == Repr(s)[..|Repr(s)| - 1] + Repr(t)[1..] && |Repr(s)| >= 2 && |Repr(t)| >= 2
    ensures Repr("") == "\"\""
  {
    EscapedAppend(s, t);
    InQuotationMarks(Escaped(s));
    InQuotationMarks(Escaped(t));
    Assoc("\"", Escaped(s), Escaped(t) + "\"");
    Assoc(Escaped(s), Escaped(t), "\"");
  }

  lemma InQuotationMarks(body: string)
    ensures var r := "\"" + (body + "\""); r[..|r| - 1] == "\"" + body && r[1..] == body + "\""
  {
  }

  /** The bytes that stand for themselves. */
  predicate IsPlain(s: string) {
    forall i | 0 <= i < |s| :: ' ' <= s[i] <= '~' && s[i] != '\\' && s[i] != '"'
  }

  lemma {:induction false} EscapedPlain(s: string)
    requires IsBytes(s)
    ensures |Escaped(s)| >= |s| && (|Escaped(s)| == |s| <==> IsPlain(s)) && (IsPlain(s) ==> Escaped(s) == s)
  {
    if s != "" {
      EscapedPlain(s[1..]);
      assert s == [s[0]] + s[1..];
      assert IsPlain(s) <==> IsPlain([s[0]]) && IsPlain(s[1..]) by {
        assert forall i | 0 < i < |s| :: s[i] == s[1..][i - 1];
      }
    }
  }

  /** A byte string is quoted by its quotes alone exactly if every byte is printable and no quote or backslash. */
  lemma ReprPlain(s: string)
    requires IsBytes(s)
    ensures Repr(s) == "\"" + s + "\"" <==> IsPlain(s)
  {
    EscapedPlain(s);
    assert |Repr(s)| == |Escaped(s)| + 2;
    assert ("\"" + s) + "\"" == "\"" + (s + "\"");
  }

  method CatChar(s: string, c: char) returns (r: string)
    requires c < 256 as char
    ensures r == s + EscapeChar(c)
  {
    if c == '\\' || c == '"' { r := s + ['\\', c]; }
    else if c == '\n' { r := s + "\\n"; }
    else if c == '\r' { r := s + "\\r"; }
    else if c == '\t' { r := s + "\\t"; }
    else if c == 7 as char { r := s + "\\a"; }
    else if c == 8 as char { r := s + "\\b"; }
    else if IsPrint(c) { r := s + [c]; }
    else { r := s + ['\\', 'x', HexDigit(c as int / 16), HexDigit(c as int % 16)]; }
  }

  method CatRepr(s: string, p: string) returns (r: string)
    requires IsBytes(p)
    ensures r == s + Repr(p)
  {
    r := s + "\"";
    for i := 0 to |p|
      invariant r == (s + "\"") + Escaped(p[..i])
    {
      EscapedSnoc(p[..i], p[i]);
      assert p[..i + 1] == p[..i] + [p[i]];
      Assoc(s + "\"", Escaped(p[..i]), EscapeChar(p[i]));
      r := CatChar(r, p[i]);
    }
    assert p[..|p|] == p;
    Assoc(s + "\"", Escaped(p), "\"");
    Assoc(s, "\"", Escaped(p) + "\"");
    r := r + "\"";
  }

  lemma Assoc<T>(a: seq<T>, b: seq<T>, c: seq<T>)
    ensures (a + b) + c == a + (b + c)
  {
  }

  // ----- splitting -----

  datatype Quote = Plain | Double | Single

  /** A token and what follows it, or an error. */
  datatype Token = Token(text: string, rest: string) | Unbalanced

  function Prepend(c: char, t: Token): Token {
    if t.Token? then Token([c] + t.text, t.rest) else Unbalanced
  }

  function Unescape(c: char): char {
    if c == 'n' then '\n'
    else if c == 'r' then '\r'
    else if c == 't' then '\t'
    else if c == 'b' then 8 as char
    else if c == 'a' then 7 as char
    else c
  }

  predicate IsHexEscape(s: string) {
    At(s, 0) == '\\' && At(s, 1) == 'x' && IsHexDigit(At(s, 2)) && IsHexDigit(At(s, 3))
  }

  /** A closing quote has to be followed by a space or by nothing. */
  function Close(s: string): Token
    requires s != ""
  {
    if At(s, 1) != '\0' && !IsSpace(At(s, 1)) then Unbalanced else Token("", s[1..])
  }

  /** The rest of a token, inside the given quotes. */
  function Scan(s: string, q: Quote): (t: Token)
    ensures t.Token? ==> |t.rest| <= |s| && (At(s, 0) != '\0' ==> |t.rest| < |s|)
    decreases |s|
  {
    if At(s, 0) == '\0' then
      if q == Plain then Token("", s) else Unbalanced
    else match q
      case Double =>
        if IsHexEscape(s) then
          Prepend((HexDigitToInt(s[2]) * 16 + HexDigitToInt(s[3])) as char, Scan(s[4..], q))
        else if s[0] == '\\' && At(s, 1) != '\0' then Prepend(Unescape(s[1]), Scan(s[2..], q))
        else if s[0] == '"' then Close(s)
        else Prepend(s[0], Scan(s[1..], q))
      case Single =>
        if s[0] == '\\' && At(s, 1) == '\'' then Prepend('\'', Scan(s[2..], q))
        else if s[0] == '\'' then Close(s)
        else Prepend(s[0], Scan(s[1..], q))
      case Plain =>
        if s[0] == ' ' || s[0] == '\n' || s[0] == '\r' || s[0] == '\t' then Token("", s[1..])
        else if s[0] == '"' then Scan(s[1..], Double)
        else if s[0] == '\'' then Scan(s[1..], Single)
        else Prepend(s[0], Scan(s[1..], q))
  }

  function SkipBlanks(s: string): (r: string)
    ensures |r| <= |s| && !IsSpace(At(r, 0))
  {
    if s != "" && IsSpace(s[0]) then SkipBlanks(s[1..]) else s
  }

  function Joined(args: seq<string>, r: Option<seq<string>>): Option<seq<string>> {
    if r.None? then None else Some(args + r.value)
  }

  /** All arguments of a line, or None if its quotes are unbalanced. */
  function Split(line: string): Option<seq<string>>
    decreases |line|
  {
    var s := SkipBlanks(line);
    if At(s, 0) == '\0' then Some([])
    else
      var t := Scan(s, Plain);
      if t.Unbalanced? then None
      else
        Joined([t.text], Split(t.rest))
  }

  // ----- splitting in place -----

  function PrependAll(text: string, t: Token): Token {
    if t.Token? then Token(text + t.text, t.rest) else Unbalanced
  }

  lemma PrependOne(text: string, c: char, t: Token)
    ensures PrependAll(text, Prepend(c, t)) == PrependAll(text + [c], t)
  {
    if t.Token? { assert text + ([c] + t.text) == (text + [c]) + t.text; }
  }

  lemma PrependNone(t: Token)
    ensures PrependAll("", t) == t
  {
  }

  /** Past the byte at p, unless the string ends there. */
  function Past(line: string, p: nat): nat {
    if At(line, p) == '\0' then p else p + 1
  }

  /** What one turn of the loop has to achieve, for a token read in mode `q` so far and in `q'` from now on. */
  ghost predicate Turn(line: string, p: nat, q: Quote, text: string, ok: bool, done: bool, p': nat, q': Quote,
                       text': string)
  {
    var t := Scan(line[if p <= |line| then p else 0..], q);
    && p <= p' <= |line|
    && (!ok ==> t == Unbalanced)
    && (ok && done ==> PrependAll(text, t) == Token(text', line[Past(line, p')..]))
    && (ok && !done ==> p' < |line| && PrependAll(text, t) == PrependAll(text', Scan(line[Past(line, p')..], q'))
                        && At(line, p') != '\0')
  }

  /** A turn inside double quotes. */
  method InQuotes(line: string, p: nat, text: string) returns (ok: bool, done: bool, p': nat, text': string)
    requires p <= |line|
    ensures Turn(line, p, Double, text, ok, done, p', Double, text')
  {
    ghost var s := line[p..];
    Slices(line, p);
    ok, done, p', text' := true, false, p, text;
    if At(line, p) == '\\' && At(line, p + 1) == 'x' && IsHexDigit(At(line, p + 2)) && IsHexDigit(At(line, p + 3)) {
      var byte := (HexDigitToInt(line[p + 2]) * 16 + HexDigitToInt(line[p + 3])) as char;
      PrependOne(text, byte, Scan(s[4..], Double));
      text' := text + [byte];
      p' := p + 3;
    } else if At(line, p) == '\\' && At(line, p + 1) != '\0' {
      PrependOne(text, Unescape(s[1]), Scan(s[2..], Double));
      p' := p + 1;
      text' := text + [Unescape(line[p'])];
    } else if At(line, p) == '"' {
      if At(line, p + 1) != '\0' && !IsSpace(At(line, p + 1)) { ok := false; }
      done := true;
    } else if At(line, p) == '\0' {
      ok := false;
    } else {
      PrependOne(text, line[p], Scan(s[1..], Double));
      text' := text + [line[p]];
    }
  }

  /** A turn inside single quotes. */
  method InSingleQuotes(line: string, p: nat, text: string) returns (ok: bool, done: bool, p': nat, text': string)
    requires p <= |line|
    ensures Turn(line, p, Single, text, ok, done, p', Single, text')
  {
    ghost var s := line[p..];
    Slices(line, p);
    ok, done, p', text' := true, false, p, text;
    if At(line, p) == '\\' && At(line, p + 1) == '\'' {
      PrependOne(text, '\'', Scan(s[2..], Single));
      p' := p + 1;
      text' := text + "'";
    } else if At(line, p) == '\'' {
      if At(line, p + 1) != '\0' && !IsSpace(At(line, p + 1)) { ok := false; }
      done := true;
    } else if At(line, p) == '\0' {
      ok := false;
    } else {
      PrependOne(text, line[p], Scan(s[1..], Single));
      text' := text + [line[p]];
    }
  }

  /** A turn outside of quotes. */
  method OutOfQuotes(line: string, p: nat, text: string)
    returns (inq: bool, insq: bool, done: bool, text': string)
    requires p <= |line|
    ensures !(inq && insq) && Turn(line, p, Plain, text, true, done, p, Mode(inq, insq), text')
  {
    Slices(line, p);
    inq, insq, done, text' := false, false, false, text;
    var c := At(line, p);
    if c == ' ' || c == '\n' || c == '\r' || c == '\t' || c == '\0' {
      done := true;
    } else if c == '"' {
      inq := true;
    } else if c == '\'' {
      insq := true;
    } else {
      PrependOne(text, line[p], Scan(line[p..][1..], Plain));
      text' := text + [line[p]];
    }
  }

  /** One turn, by the quote flags. */
  method ReadByte(line: string, p: nat, inq: bool, insq: bool, text: string)
    returns (ok: bool, done: bool, p': nat, inq': bool, insq': bool, text': string)
    requires p <= |line| && !(inq && insq)
    ensures !(inq' && insq') && Turn(line, p, Mode(inq, insq), text, ok, done, p', Mode(inq', insq'), text')
  {
    ok, done, p', inq', insq', text' := true, false, p, inq, insq, text;
    if inq {
      ok, done, p', text' := InQuotes(line, p, text);
    } else if insq {
      ok, done, p', text' := InSingleQuotes(line, p, text);
    } else {
      inq', insq', done, text' := OutOfQuotes(line, p, text);
    }
  }

  /** `text` is what was read of the token `whole`, which goes on at p in mode `q`. */
  ghost predicate Reading(whole: Token, line: string, p: nat, q: Quote, text: string) {
    p <= |line| && whole == PrependAll(text, Scan(line[p..], q))
  }

  lemma TurnOn(whole: Token, line: string, p: nat, q: Quote, text: string, ok: bool, done: bool, p': nat, q': Quote,
               text': string)
    requires Reading(whole, line, p, q, text) && Turn(line, p, q, text, ok, done, p', q', text')
    ensures p <= p' <= Past(line, p') <= |line| && (!ok ==> whole == Unbalanced)
    ensures ok && done ==> whole == Token(text', line[Past(line, p')..])
    ensures ok && !done ==> Reading(whole, line, Past(line, p'), q', text') && Past(line, p') == p' + 1
  {
  }

  /** Reads a token from `start` on: its text and where it ends, or an error. */
  method ReadToken(line: string, start: nat) returns (ok: bool, current: string, p: nat)
    requires start < |line|
    ensures start <= p <= |line|
    ensures Scan(line[start..], Plain) == if ok then Token(current, line[p..]) else Unbalanced
  {
    ok, current, p := true, "", start;
    var inq, insq, done := false, false, false;
    ghost var whole := Scan(line[start..], Plain);
    PrependNone(whole);
    while !done
      invariant start <= p <= |line| && !(inq && insq) && ok
      invariant !done ==> Reading(whole, line, p, Mode(inq, insq), current)
      invariant done ==> whole == Token(current, line[p..])
      decreases !done, |line| - p
    {
      var p', inq', insq', text;
      ok, done, p', inq', insq', text := ReadByte(line, p, inq, insq, current);
      TurnOn(whole, line, p, Mode(inq, insq), current, ok, done, p', Mode(inq', insq'), text);
      p, inq, insq, current := p', inq', insq', text;
      if !ok { return; }
      if At(line, p) != '\0' { p := p + 1; }
    }
  }

  /** The argument vector of a line. */
  method SplitArgs(line: string) returns (vector: Option<seq<string>>)
    ensures vector == Split(line)
  {
    var p, args := 0, [];
    assert line[p..] == line;
    JoinedNone(Split(line));
    while true
      invariant p <= |line| && Split(line) == Joined(args, Split(line[p..]))
      decreases |line| - p
    {
      Slices(line, p);
      while At(line, p) != '\0' && IsSpace(At(line, p))
        invariant p <= |line| && Split(line) == Joined(args, Split(line[p..]))
        decreases |line| - p
      {
        Slices(line, p);
        assert line[p..][1..] == line[p + 1..];
        p := p + 1;
      }
      if At(line, p) == '\0' {
        assert args + [] == args;
        return Some(args);
      }
      var ok, current, q := ReadToken(line, p);
      if !ok { return None; }
      JoinedOne(args, current, Split(line[q..]));
      args, p := args + [current], q;
    }
  }

  lemma JoinedNone(r: Option<seq<string>>)
    ensures Joined([], r) == r
  {
    if r.Some? { assert [] + r.value == r.value; }
  }

  lemma JoinedOne(args: seq<string>, arg: string, r: Option<seq<string>>)
    ensures Joined(args, Joined([arg], r)) == Joined(args + [arg], r)
  {
    if r.Some? { assert args + ([arg] + r.value) == (args + [arg]) + r.value; }
  }

  function Mode(inq: bool, insq: bool): Quote {
    if inq then Double else if insq then Single else Plain
  }

  lemma Slices(line: string, p: nat)
    requires p <= |line|
    ensures forall k: nat :: At(line[p..], k) == At(line, p + k)
    ensures forall k: nat | p + k <= |line| :: line[p..][k..] == line[p + k..]
  {
  }

  // ----- the round trip -----

  lemma ScanHex(c: char, rest: string)
    requires c < 256 as char
    ensures Scan(['\\', 'x', HexDigit(c as int / 16), HexDigit(c as int % 16)] + rest, Double)
         == Prepend(c, Scan(rest, Double))
  {
    var s := ['\\', 'x', HexDigit(c as int / 16), HexDigit(c as int % 16)] + rest;
    assert s[4..] == rest && IsHexEscape(s);
  }

  lemma ScanPair(c: char, rest: string)
    requires c != 'x' && c != '\0'
    ensures Scan(['\\', c] + rest, Double) == Prepend(Unescape(c), Scan(rest, Double))
  {
    var s := ['\\', c] + rest;
    assert s[2..] == rest && !IsHexEscape(s);
  }

  lemma ScanPlain(c: char, rest: string)
    requires c != '\\' && c != '"' && c != '\0'
    ensures Scan([c] + rest, Double) == Prepend(c, Scan(rest, Double))
  {
    assert ([c] + rest)[1..] == rest;
  }

  lemma EscapeForms(c: char) returns (x: char)
    requires c < 256 as char
    ensures match |EscapeChar(c)|
            case 1 => EscapeChar(c) == [c] && c != '\\' && c != '"' && c != '\0'
            case 2 => EscapeChar(c) == ['\\', x] && Unescape(x) == c && x != 'x' && x != '\0'
            case _ => EscapeChar(c) == ['\\', 'x', HexDigit(c as int / 16), HexDigit(c as int % 16)]
  {
    x := if |EscapeChar(c)| == 2 then EscapeChar(c)[1] else c;
  }

  /** One escaped byte is read back as that byte. */
  lemma ScanEscape(c: char, rest: string)
    requires c < 256 as char
    ensures Scan(EscapeChar(c) + rest, Double) == Prepend(c, Scan(rest, Double))
  {
    var x := EscapeForms(c);
    match |EscapeChar(c)|
    case 1 => ScanPlain(c, rest);
    case 2 => ScanPair(x, rest);
    case _ => ScanHex(c, rest);
  }

  lemma {:induction false} ScanEscaped(text: string, rest: string)
    requires IsBytes(text) && (At(rest, 0) == '\0' || IsSpace(rest[0]))
    ensures Scan(Escaped(text) + ("\"" + rest), Double) == Token(text, rest)
  {
    if text == "" {
      assert ("\"" + rest)[1..] == rest;
    } else {
      ScanEscaped(text[1..], rest);
      ScanEscape(text[0], Escaped(text[1..]) + ("\"" + rest));
      assert Escaped(text) + ("\"" + rest) == EscapeChar(text[0]) + (Escaped(text[1..]) + ("\"" + rest));
    }
  }

  /** An argument and the blanks that follow it. */
  datatype Piece = Piece(text: string, blanks: string)

  ghost predicate IsBlank(s: string) {
    forall i | 0 <= i < |s| :: IsSpace(s[i])
  }

  /** Only the last piece may go without blanks. */
  ghost predicate Separated(pieces: seq<Piece>) {
    forall i | 0 <= i < |pieces| ::
      IsBytes(pieces[i].text) && IsBlank(pieces[i].blanks) && (i + 1 < |pieces| ==> pieces[i].blanks != "")
  }

  ghost function Line(pieces: seq<Piece>): string
    requires Separated(pieces)
  {
    if pieces == [] then "" else Repr(pieces[0].text) + (pieces[0].blanks + Line(pieces[1..]))
  }

  function Texts(pieces: seq<Piece>): seq<string> {
    if pieces == [] then [] else [pieces[0].text] + Texts(pieces[1..])
  }

  lemma {:induction false} SkipBlank(blanks: string, rest: string)
    requires IsBlank(blanks) && !IsSpace(At(rest, 0))
    ensures SkipBlanks(blanks + rest) == rest
  {
    if blanks == "" {
      assert blanks + rest == rest;
    } else {
      assert (blanks + rest)[1..] == blanks[1..] + rest;
      SkipBlank(blanks[1..], rest);
    }
  }

  lemma QuoteOpens(s: string)
    ensures Scan("\"" + s, Plain) == Scan(s, Double)
  {
    assert ("\"" + s)[1..] == s;
  }

  /** A quoted string in front of a blank, or at the end, is one token. */
  lemma ReprScanned(text: string, rest: string)
    requires IsBytes(text) && (At(rest, 0) == '\0' || IsSpace(rest[0]))
    ensures Scan(Repr(text) + rest, Plain) == Token(text, rest)
  {
    ScanEscaped(text, rest);
    Assoc("\"", Escaped(text) + "\"", rest);
    Assoc(Escaped(text), "\"", rest);
    QuoteOpens(Escaped(text) + ("\"" + rest));
  }

  /** Splitting a line of quoted strings, separated by blanks, gives back the strings. */
  lemma {:induction false} RoundTrip(lead: string, pieces: seq<Piece>)
    requires IsBlank(lead) && Separated(pieces)
    ensures Split(lead + Line(pieces)) == Some(Texts(pieces))
    decreases |pieces|
  {
    SkipBlank(lead, Line(pieces));
    if pieces != [] {
      var p, others := pieces[0], pieces[1..];
      assert At(p.blanks + Line(others), 0) == '\0' || IsSpace((p.blanks + Line(others))[0]);
      ReprScanned(p.text, p.blanks + Line(others));
      RoundTrip(p.blanks, others);
    }
  }
}
