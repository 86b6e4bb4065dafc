/** The command formatters of hiredis.c, and the round trip through the reader's grammar. */
module Commands {
  import opened Wrappers
  import opened Decimals
  import opened Resp

  const CRLF: string := "\r\n"

  function Bulk(arg: string): string {
    "$" + Digits(|arg|) + CRLF + arg + CRLF
  }

  function Bulks(argv: seq<string>): string {
    if argv == [] then "" else Bulk(argv[0]) + Bulks(argv[1..])
  }

  /** A command on the wire: an array of bulk strings. */
  function Encode(argv: seq<string>): string {
    "*" + Digits(|argv|) + CRLF + Bulks(argv)
  }

  function EncodeAll(commands: seq<seq<string>>): string {
    if commands == [] then "" else Encode(commands[0]) + EncodeAll(commands[1..])
  }

  // ----- reading a command back -----

  function Strings(argv: seq<string>): seq<Reply> {
    seq(|argv|, i requires 0 <= i < |argv| => String(argv[i]))
  }

  function AsReplies(commands: seq<seq<string>>): seq<Reply> {
    seq(|commands|, i requires 0 <= i < |commands| => Array(Strings(commands[i])))
  }

  lemma {:induction false} LineEndAt(line: string, rest: string)
    requires '\r' !in line
    ensures LineEnd(line + CRLF + rest) == Some(|line|)
  {
    var s := line + CRLF + rest;
    assert NewlineAt(s, |line|);
    assert forall k: nat | k < |line| :: s[k] == line[k] && s[k] in line;
  }

  lemma HeadOfNumber(kind: Kind, n: nat, rest: string, depth: nat)
    requires kind == MultiBulk ==> depth < MAX_OPEN
    ensures HeadOf(kind, Digits(n) + CRLF + rest, depth) == FromLine(kind, Digits(n), rest)
  {
    var s := Digits(n) + CRLF + rest;
    DigitsAreDigits(n);
    LineEndAt(Digits(n), rest);
    assert s[..|Digits(n)|] == Digits(n) && s[|Digits(n)| + 2..] == rest;
  }

  lemma DigitsParse(n: nat)
    requires n <= LLONG_MAX
    ensures ParseLL(Digits(n)) == Some(n)
  {
    PrintParse(n);
    assert Decimal(n) == Digits(n);
  }

  /** A length line announces a bulk string of that length. */
  lemma HeadOfBulk(n: nat, after: string, depth: nat)
    requires n <= LLONG_MAX
    ensures HeadOf(BulkString, Digits(n) + CRLF + after, depth) == Payload(n, after)
  {
    HeadOfNumber(BulkString, n, after, depth);
    DigitsParse(n);
  }

  lemma PayloadOf(arg: string, end: string, rest: string)
    requires |end| == 2
    ensures Payload(|arg|, arg + end + rest) == Whole(String(arg), rest)
  {
    var after := arg + end + rest;
    assert after[..|arg|] == arg && after[|arg| + 2..] == rest;
  }

  lemma BulkParses(arg: string, rest: string, depth: nat)
    requires |arg| <= LLONG_MAX
    ensures ParseItem(None, Bulk(arg) + rest, depth) == Done(String(arg), rest)
  {
    var s, line := Bulk(arg) + rest, Digits(|arg|) + CRLF + (arg + CRLF + rest);
    assert s[0] == '$' && s[1..] == line;
    HeadOfBulk(|arg|, arg + CRLF + rest, depth);
    PayloadOf(arg, CRLF, rest);
    assert ParseItem(None, s, depth) == ParseItem(Some(BulkString), line, depth);
  }

  lemma ItemsParse(n: nat, before: seq<Reply>, v: Reply, s: string, rest: string, depth: nat)
    requires n > 0 && ParseItem(None, s, depth) == Done(v, rest)
    ensures ParseItems(n, before, s, depth) == ParseItems(n - 1, before + [v], rest, depth)
  {
  }

  lemma BulksOfCons(argv: seq<string>, rest: string)
    requires argv != []
    ensures Bulks(argv) + rest == Bulk(argv[0]) + (Bulks(argv[1..]) + rest)
  {
  }

  lemma StringsOfCons(argv: seq<string>, before: seq<Reply>)
    requires argv != []
    ensures before + [String(argv[0])] + Strings(argv[1..]) == before + Strings(argv)
  {
  }

  lemma NextBulk(argv: seq<string>, before: seq<Reply>, rest: string, depth: nat)
    requires argv != [] && |argv[0]| <= LLONG_MAX
    ensures ParseItems(|argv|, before, Bulks(argv) + rest, depth)
         == ParseItems(|argv| - 1, before + [String(argv[0])], Bulks(argv[1..]) + rest, depth)
  {
    var after := Bulks(argv[1..]) + rest;
    BulksOfCons(argv, rest);
    BulkParses(argv[0], after, depth);
    ItemsParse(|argv|, before, String(argv[0]), Bulks(argv) + rest, after, depth);
  }

  lemma NoItems(before: seq<Reply>, rest: string, depth: nat)
    ensures ParseItems(0, before, "" + rest, depth) == Done(Array(before), rest)
  {
    assert "" + rest == rest;
  }

  lemma {:induction false} BulksParse(argv: seq<string>, before: seq<Reply>, rest: string, depth: nat)
    requires forall arg <- argv :: |arg| <= LLONG_MAX
    ensures ParseItems(|argv|, before, Bulks(argv) + rest, depth) == Done(Array(before + Strings(argv)), rest)
    decreases |argv|
  {
    if argv == [] {
      assert before + Strings(argv) == before;
      NoItems(before, rest, depth);
    } else {
      NextBulk(argv, before, rest, depth);
      BulksParse(argv[1..], before + [String(argv[0])], rest, depth);
      StringsOfCons(argv, before);
    }
  }

  lemma {:induction false} BulksLength(argv: seq<string>)
    ensures |argv| <= |Bulks(argv)|
    ensures forall arg <- argv :: |arg| <= |Bulks(argv)|
  {
    if argv != [] { BulksLength(argv[1..]); }
  }

  lemma HeadOfCommand(n: nat, after: string)
    requires n <= INT_MAX
    ensures ParseItem(None, "*" + Digits(n) + CRLF + after, 0) == ParseItems(n, [], after, 1)
  {
    var s := "*" + Digits(n) + CRLF + after;
    assert s[0] == '*' && s[1..] == Digits(n) + CRLF + after;
    HeadOfNumber(MultiBulk, n, after, 0);
    DigitsParse(n);
    assert ParseItem(None, s, 0) == ParseItem(Some(MultiBulk), s[1..], 0);
  }

  lemma EncodeParses(argv: seq<string>, rest: string)
    requires |Encode(argv)| <= INT_MAX
    ensures Parse(Encode(argv) + rest) == Done(Array(Strings(argv)), rest)
  {
    var after := Bulks(argv) + rest;
    BulksLength(argv);
    assert Encode(argv) + rest == "*" + Digits(|argv|) + CRLF + after;
    HeadOfCommand(|argv|, after);
    BulksParse(argv, [], rest, 1);
    assert [] + Strings(argv) == Strings(argv);
  }

  /** Round trip: the formatted commands, one after the other, are read as exactly those commands
      in order, each an array of its arguments as bulk strings; then the reader waits. */
  lemma {:induction false} RoundTrip(commands: seq<seq<string>>)
    requires forall argv <- commands :: |Encode(argv)| <= INT_MAX
    ensures ParseAll(EncodeAll(commands)) == Stream(AsReplies(commands), Waiting)
    decreases |commands|
  {
    if commands == [] {
      assert AsReplies(commands) == [];
    } else {
      var rest := EncodeAll(commands[1..]);
      EncodeParses(commands[0], rest);
      RoundTrip(commands[1..]);
      assert AsReplies(commands) == [Array(Strings(commands[0]))] + AsReplies(commands[1..]);
    }
  }

  /** The same through the reader itself, however the bytes are cut into feeds. */
  lemma ReaderRoundTrip(commands: seq<seq<string>>, chunks: seq<string>)
    requires forall argv <- commands :: |Encode(argv)| <= INT_MAX
    requires Concat(chunks) == EncodeAll(commands)
    ensures DrainChunks(FRESH, chunks).replies == AsReplies(commands)
    ensures DrainChunks(FRESH, chunks).reader.error == None
  {
    RoundTrip(commands);
    ChunkIndependence(chunks);
  }

  // ----- redisFormatCommandArgv -----

  /** `bulklen`. */
  method BulkLen(len: nat) returns (r: nat)
    ensures forall arg: string | |arg| == len :: |Bulk(arg)| == r
  {
    var digits := CountDigits(len);
    r := 1 + digits + 2 + len + 2;
  }

  /** `sprintf` and `memcpy` at the cursor. */
  method Put(cmd: array<char>, pos: nat, s: string) returns (end: nat)
    requires pos + |s| <= cmd.Length
    modifies cmd
    ensures end == pos + |s| && cmd[..end] == old(cmd[..pos]) + s
  {
    end := pos;
    ghost var start := cmd[..pos];
    for i := 0 to |s|
      invariant end == pos + i && cmd[..end] == start + s[..i]
    {
      cmd[end] := s[i];
      end := end + 1;
    }
  }

  method PutBulk(cmd: array<char>, pos: nat, arg: string) returns (end: nat)
    requires pos + |Bulk(arg)| <= cmd.Length
    modifies cmd
    ensures end == pos + |Bulk(arg)| && cmd[..end] == old(cmd[..pos]) + Bulk(arg)
  {
    ghost var start := cmd[..pos];
    end := Put(cmd, pos, "$" + Digits(|arg|) + CRLF);
    end := Put(cmd, end, arg);
    end := Put(cmd, end, CRLF);
    assert cmd[..end] == start + ("$" + Digits(|arg|) + CRLF) + arg + CRLF;
  }

  lemma BulksFrom(argv: seq<string>, j: nat, written: string)
    requires j < |argv|
    ensures written + Bulks(argv[j..]) == (written + Bulk(argv[j])) + Bulks(argv[j + 1..])
    ensures |Bulks(argv[j..])| == |Bulk(argv[j])| + |Bulks(argv[j + 1..])|
  {
    assert argv[j..][1..] == argv[j + 1..];
    assert Bulks(argv[j..]) == Bulk(argv[j]) + Bulks(argv[j + 1..]);
  }

  /** The second half of both formatters: the command is written into a buffer of the length that
      was computed before, and fills it exactly. */
  method Build(argv: seq<string>, totlen: nat) returns (cmd: array<char>)
    requires totlen == |Encode(argv)|
    ensures fresh(cmd) && cmd.Length == totlen + 1
    ensures cmd[..totlen] == Encode(argv) && cmd[totlen] == '\0'
  {
    cmd := new char[totlen + 1];
    ghost var target := Encode(argv);
    ghost var empty := cmd[..0];
    var pos: nat := Put(cmd, 0, "*" + Digits(|argv|) + CRLF);
    assert argv[0..] == argv && empty + ("*" + Digits(|argv|) + CRLF) == "*" + Digits(|argv|) + CRLF;
    for j := 0 to |argv|
      invariant 0 <= pos <= totlen
      invariant cmd[..pos] + Bulks(argv[j..]) == target
    {
      BulksFrom(argv, j, cmd[..pos]);
      assert pos + |Bulks(argv[j..])| == totlen;
      pos := PutBulk(cmd, pos, argv[j]);
    }
    assert argv[|argv|..] == [] && cmd[..pos] + "" == cmd[..pos];
    assert pos == totlen;
    cmd[pos] := '\0';
  }

  /** `redisFormatCommandArgv`. */
  method FormatCommandArgv(argv: seq<string>) returns (cmd: array<char>, totlen: nat)
    requires |Encode(argv)| <= INT_MAX
    ensures fresh(cmd) && cmd.Length == totlen + 1 && totlen == |Encode(argv)|
    ensures cmd[..totlen] == Encode(argv) && cmd[totlen] == '\0'
  {
    var digits := CountDigits(|argv|);
    totlen := 1 + digits + 2;
    for j := 0 to |argv|
      invariant totlen + |Bulks(argv[j..])| == |Encode(argv)|
    {
      BulksFrom(argv, j, "");
      var len := BulkLen(|argv[j]|);
      totlen := totlen + len;
    }
    cmd := Build(argv, totlen);
  }

  // ----- redisvFormatCommand -----

  /** Every conversion is `%s`, `%b` or `%%`; a lone `%` may end the format. */
  predicate PlainFormat(format: string) {
    if format == "" then true
    else if format[0] != '%' || |format| == 1 then PlainFormat(format[1..])
    else format[1] in "sb%" && PlainFormat(format[2..])
  }

  /** The number of arguments that a part of a format takes. */
  function Takes(word: string): nat {
    if word == "" then 0
    else if word[0] != '%' || |word| == 1 then Takes(word[1..])
    else (if word[1] == '%' then 0 else 1) + Takes(word[2..])
  }

  /** A part of a format with its conversions replaced. */
  function Substitute(word: string, args: seq<string>): string
    requires Takes(word) <= |args|
  {
    if word == "" then ""
    else if word[0] != '%' || |word| == 1 then [word[0]] + Substitute(word[1..], args)
    else if word[1] == '%' then "%" + Substitute(word[2..], args)
    else args[0] + Substitute(word[2..], args[1..])
  }

  function WordLength(format: string): (k: nat)
    ensures k <= |format|
  {
    if format == "" || format[0] == ' ' then 0 else 1 + WordLength(format[1..])
  }

  /** The words of a format, between its spaces. */
  function Words(format: string): seq<string>
    decreases |format|
  {
    if format == "" then []
    else if format[0] == ' ' then Words(format[1..])
    else var k := WordLength(format); [format[..k]] + Words(format[k..])
  }

  function TakesAll(words: seq<string>): nat {
    if words == [] then 0 else Takes(words[0]) + TakesAll(words[1..])
  }

  /** The arguments of the command: the words of the format, each with its conversions replaced. */
  function Arguments(words: seq<string>, args: seq<string>): (argv: seq<string>)
    requires TakesAll(words) <= |args|
    ensures |argv| == |words|
  {
    if words == [] then []
    else [Substitute(words[0], args)] + Arguments(words[1..], args[Takes(words[0])..])
  }

  /** What is still to come when the cursor of the formatter is at the start of `format`, with
      `curarg` the part of the current word that has been read, if `touched`. */
  function Remaining(format: string, touched: bool, curarg: string, args: seq<string>): seq<string>
    requires Enough(format, touched, args)
  {
    if touched then
      var k := WordLength(format);
      [curarg + Substitute(format[..k], args)] + Arguments(Words(format[k..]), args[Takes(format[..k])..])
    else Arguments(Words(format), args)
  }

  predicate Enough(format: string, touched: bool, args: seq<string>) {
    if touched then
      var k := WordLength(format);
      Takes(format[..k]) + TakesAll(Words(format[k..])) <= |args|
    else TakesAll(Words(format)) <= |args|
  }

  /** A space ends the current word. */
  lemma RemainingSpace(argv: seq<string>, format: string, touched: bool, curarg: string, args: seq<string>)
    requires format != "" && format[0] == ' ' && Enough(format, touched, args)
    ensures Enough(format[1..], false, args)
    ensures argv + Remaining(format, touched, curarg, args)
         == (if touched then argv + [curarg] else argv) + Remaining(format[1..], false, "", args)
  {
    if touched {
      assert format[..0] == "" && format[0..] == format && args[0..] == args && curarg + "" == curarg;
      var later := Remaining(format[1..], false, "", args);
      assert argv + ([curarg] + later) == argv + [curarg] + later;
    }
  }

  lemma WordAhead(format: string, n: nat)
    requires n <= |format| && forall i | 0 <= i < n :: format[i] != ' '
    ensures WordLength(format) == n + WordLength(format[n..])
  {
    if n > 0 {
      assert format[1..][n - 1..] == format[n..];
      WordAhead(format[1..], n - 1);
    }
  }

  /** An untouched formatter is at a word that has nothing read yet. */
  lemma RemainingUntouched(format: string, args: seq<string>)
    requires format != "" && format[0] != ' ' && Enough(format, false, args)
    ensures Enough(format, true, args)
    ensures Remaining(format, false, "", args) == Remaining(format, true, "", args)
  {
    var k := WordLength(format);
    assert Words(format) == [format[..k]] + Words(format[k..]);
    assert Words(format)[1..] == Words(format[k..]);
    assert "" + Substitute(format[..k], args) == Substitute(format[..k], args);
  }

  lemma SplitAt(s: string, n: nat, k: nat, l: nat)
    requires n + l == k <= |s|
    ensures s[..k][n..] == s[n..][..l] && s[k..] == s[n..][l..]
  {
  }

  /** The current word, and what follows it, once n of its characters are read. */
  lemma WordSplit(format: string, n: nat)
    requires n <= |format| && forall i | 0 <= i < n :: format[i] != ' '
    ensures var k, l := WordLength(format), WordLength(format[n..]);
            k == n + l && format[..k][n..] == format[n..][..l] && format[k..] == format[n..][l..]
  {
    WordAhead(format, n);
    SplitAt(format, n, WordLength(format), WordLength(format[n..]));
  }

  /** What is read of a word and what is left of it make up the same argument. */
  lemma RemainingSame(format: string, later: string, curarg: string, text: string, args: seq<string>, used: nat)
    requires Enough(format, true, args) && used <= |args|
    requires var word, word' := format[..WordLength(format)], later[..WordLength(later)];
             && Takes(word) == used + Takes(word')
             && Substitute(word, args) == text + Substitute(word', args[used..])
    requires format[WordLength(format)..] == later[WordLength(later)..]
    ensures Enough(later, true, args[used..])
    ensures Remaining(format, true, curarg, args) == Remaining(later, true, curarg + text, args[used..])
  {
    var word' := later[..WordLength(later)];
    var t := Takes(word');
    assert args[used..][t..] == args[used + t..];
    assert curarg + (text + Substitute(word', args[used..])) == curarg + text + Substitute(word', args[used..]);
  }

  /** A character that is no conversion. */
  lemma RemainingChar(format: string, curarg: string, args: seq<string>)
    requires format != "" && format[0] != ' ' && (format[0] != '%' || |format| == 1) && Enough(format, true, args)
    ensures Enough(format[1..], true, args)
    ensures Remaining(format, true, curarg, args) == Remaining(format[1..], true, curarg + [format[0]], args)
  {
    WordSplit(format, 1);
    assert args[0..] == args;
    RemainingSame(format, format[1..], curarg, [format[0]], args, 0);
  }

  /** `%%`. */
  lemma RemainingPercent(format: string, curarg: string, args: seq<string>)
    requires |format| >= 2 && format[0] == format[1] == '%' && Enough(format, true, args)
    ensures Enough(format[2..], true, args)
    ensures Remaining(format, true, curarg, args) == Remaining(format[2..], true, curarg + "%", args)
  {
    WordSplit(format, 2);
    assert args[0..] == args;
    RemainingSame(format, format[2..], curarg, "%", args, 0);
  }

  /** A conversion that takes an argument. */
  lemma RemainingArgument(format: string, curarg: string, args: seq<string>)
    requires |format| >= 2 && format[0] == '%' && format[1] != '%' && format[1] != ' '
    requires Enough(format, true, args)
    ensures args != [] && Enough(format[2..], true, args[1..])
    ensures Remaining(format, true, curarg, args) == Remaining(format[2..], true, curarg + args[0], args[1..])
  {
    WordSplit(format, 2);
    RemainingSame(format, format[2..], curarg, args[0], args, 1);
  }

  lemma {:induction false} BulksSnoc(argv: seq<string>, arg: string)
    ensures |Bulks(argv + [arg])| == |Bulks(argv)| + |Bulk(arg)|
  {
    if argv == [] {
      assert argv + [arg] == [arg] && [arg][1..] == [];
    } else {
      assert (argv + [arg])[1..] == argv[1..] + [arg];
      BulksSnoc(argv[1..], arg);
    }
  }

  lemma RemainingEnd(touched: bool, curarg: string, args: seq<string>)
    requires Enough("", touched, args)
    ensures Remaining("", touched, curarg, args) == if touched then [curarg] else []
  {
    assert curarg + "" == curarg;
  }

  /** One character of a word, or one conversion, at the cursor `c`. */
  method ReadText(format: string, c: nat, curarg: string, ap: seq<string>)
    returns (c': nat, curarg': string, ap': seq<string>)
    requires c < |format| && format[c] != ' ' && PlainFormat(format[c..]) && Enough(format[c..], true, ap)
    ensures c < c' <= |format| && PlainFormat(format[c'..]) && Enough(format[c'..], true, ap')
    ensures Remaining(format[c..], true, curarg, ap) == Remaining(format[c'..], true, curarg', ap')
  {
    ghost var here := format[c..];
    ap' := ap;
    if format[c] != '%' || c + 1 == |format| {
      c', curarg' := c + 1, curarg + [format[c]];
      RemainingChar(here, curarg, ap);
    } else {
      c' := c + 2;
      if format[c + 1] == '%' {
        RemainingPercent(here, curarg, ap);
        curarg' := curarg + "%";
      } else {
        RemainingArgument(here, curarg, ap);
        curarg', ap' := curarg + ap[0], ap[1..];
      }
    }
    assert format[c'..] == here[c' - c..];
  }

  /** The current word becomes the next argument. */
  method Append(argv: seq<string>, totlen: nat, curarg: string) returns (argv': seq<string>, totlen': nat)
    requires totlen == |Bulks(argv)|
    ensures argv' == argv + [curarg] && totlen' == |Bulks(argv')|
  {
    BulksSnoc(argv, curarg);
    var len := BulkLen(|curarg|);
    argv', totlen' := argv + [curarg], totlen + len;
  }

  /** `redisvFormatCommand`, for formats with the conversions `%s`, `%b` and `%%`; `args` are the
      byte strings that the variable arguments denote.  The result is what `FormatCommandArgv`
      makes of the words of the format, so the number of arguments depends on the format alone. */
  method VFormatCommand(format: string, args: seq<string>) returns (cmd: array<char>, totlen: nat)
    requires PlainFormat(format) && TakesAll(Words(format)) <= |args|
    requires |Encode(Arguments(Words(format), args))| <= INT_MAX
    ensures var argv := Arguments(Words(format), args);
            && fresh(cmd) && cmd.Length == totlen + 1 && totlen == |Encode(argv)|
            && cmd[..totlen] == Encode(argv) && cmd[totlen] == '\0'
  {
    var argv: seq<string> := [];
    var c, curarg, touched, ap := 0, "", false, args;
    ghost var target := Arguments(Words(format), args);
    ghost var rest := format;
    totlen := 0;
    while c < |format|
      invariant 0 <= c <= |format| && rest == format[c..]
      invariant PlainFormat(rest) && Enough(rest, touched, ap)
      invariant argv + Remaining(rest, touched, curarg, ap) == target
      invariant !touched ==> curarg == ""
      invariant totlen == |Bulks(argv)|
    {
      if format[c] == ' ' {
        RemainingSpace(argv, rest, touched, curarg, ap);
        rest := rest[1..];
        if touched {
          argv, totlen := Append(argv, totlen, curarg);
          curarg, touched := "", false;
        }
        c := c + 1;
      } else {
        if !touched { RemainingUntouched(rest, ap); }
        c, curarg, ap := ReadText(format, c, curarg, ap);
        rest := format[c..];
        touched := true;
      }
    }
    RemainingEnd(touched, curarg, ap);
    if touched {
      argv, totlen := Append(argv, totlen, curarg);
    }
    assert argv == target;
    var digits := CountDigits(|argv|);
    totlen := totlen + 1 + digits + 2;
    cmd := Build(argv, totlen);
  }
}
