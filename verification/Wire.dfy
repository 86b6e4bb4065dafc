/** All texts the reader accepts, and all it refuses: the written forms of replies, read back, the faults that
    each failure stands for, and what the reader's indifference to the end of a bulk string amounts to. */
module Wires {
  import opened Wrappers
  import opened Decimals
  import opened Resp
  import opened Commands

  // ----- a grammar that looks at the end of bulk strings -----

  /** What a parser that insists on the terminator makes of a text. */
  datatype Strict = Accepts(parsed: Parsed) | BadTerminator

  /** The two bytes before `rest`, which ends `s`, are CR LF. */
  predicate Terminated(s: string, rest: string) {
    |rest| + 2 <= |s| && s[|s| - |rest| - 2..|s| - |rest|] == CRLF
  }

  ghost function StrictItem(kind: Option<Kind>, s: string, depth: nat): (p: Strict)
    ensures p.Accepts? && p.parsed.Done? ==> |p.parsed.rest| < |s|
    decreases |s|, 0, 0
  {
    if kind.None? then
      if s == "" then Accepts(Incomplete)
      else
        match KindOf(s[0])
        case None => Accepts(Failed(ProtocolByte(s[0])))
        case Some(k) => StrictItem(Some(k), s[1..], depth)
    else
      match HeadOf(kind.value, s, depth)
      case Whole(v, rest) => if v.String? && !Terminated(s, rest) then BadTerminator else Accepts(Done(v, rest))
      case Open(n, rest) => StrictItems(n, [], rest, depth + 1)
      case More => Accepts(Incomplete)
      case Bad(e) => Accepts(Failed(e))
  }

  ghost function StrictItems(n: nat, before: seq<Reply>, s: string, depth: nat): (p: Strict)
    ensures p.Accepts? && p.parsed.Done? ==> |p.parsed.rest| <= |s|
    decreases |s|, 1, n
  {
    if n == 0 then Accepts(Done(Array(before), s))
    else
      match StrictItem(None, s, depth)
      case Accepts(Done(v, rest)) => StrictItems(n - 1, before + [v], rest, depth)
      case r => r
  }

  ghost function ParseStrict(s: string): Strict {
    StrictItem(None, s, 0)
  }

  lemma {:induction false} ItemAgrees(kind: Option<Kind>, s: string, depth: nat)
    ensures StrictItem(kind, s, depth) in {BadTerminator, Accepts(ParseItem(kind, s, depth))}
    decreases |s|, 0, 0
  {
    if kind.None? {
      if s != "" && KindOf(s[0]).Some? { ItemAgrees(KindOf(s[0]), s[1..], depth); }
    } else {
      match HeadOf(kind.value, s, depth)
      case Open(n, rest) => ItemsAgree(n, [], rest, depth + 1);
      case _ =>
    }
  }

  lemma {:induction false} ItemsAgree(n: nat, before: seq<Reply>, s: string, depth: nat)
    ensures StrictItems(n, before, s, depth) in {BadTerminator, Accepts(ParseItems(n, before, s, depth))}
    decreases |s|, 1, n
  {
    if n > 0 {
      ItemAgrees(None, s, depth);
      match ParseItem(None, s, depth)
      case Done(v, rest) => ItemsAgree(n - 1, before + [v], rest, depth);
      case _ =>
    }
  }

  /** The reader reads what the strict grammar reads, but for texts in which some bulk string that is
      reached does not end in CR LF. */
  lemma StrictAgrees(s: string)
    ensures ParseStrict(s) == Accepts(Parse(s)) <==> ParseStrict(s) != BadTerminator
  {
    ItemAgrees(None, s, 0);
  }

  // ----- replies as they are written -----

  /** A reply with its spelling: nil is a bulk string or an array of length -1, and two bytes end a bulk string. */
  datatype Written =
    | ErrorForm(line: string)
    | StatusForm(line: string)
    | IntegerForm(integer: int)
    | NilBulk
    | NilArray
    | BulkForm(bytes: string, end: string)
    | ArrayForm(elements: seq<Written>)

  function Meaning(w: Written): Reply
    decreases w
  {
    match w
    case ErrorForm(line) => Error(line)
    case StatusForm(line) => Status(line)
    case IntegerForm(i) => Integer(i)
    case NilBulk => Nil
    case NilArray => Nil
    case BulkForm(bytes, _) => String(bytes)
    case ArrayForm(ws) => Array(Meanings(ws))
  }

  function Meanings(ws: seq<Written>): (vs: seq<Reply>)
    ensures |vs| == |ws|
    decreases ws
  {
    if ws == [] then [] else [Meaning(ws[0])] + Meanings(ws[1..])
  }

  /** A type byte and a line. */
  function LineText(t: char, line: string): string {
    [t] + (line + CRLF)
  }

  function Wire(w: Written): string
    decreases w
  {
    match w
    case ErrorForm(line) => LineText('-', line)
    case StatusForm(line) => LineText('+', line)
    case IntegerForm(i) => LineText(':', Decimal(i))
    case NilBulk => LineText('$', "-1")
    case NilArray => LineText('*', "-1")
    case BulkForm(bytes, end) => LineText('$', Decimal(|bytes|)) + (bytes + end)
    case ArrayForm(ws) => LineText('*', Decimal(|ws|)) + Wires(ws)
  }

  function Wires(ws: seq<Written>): string
    decreases ws
  {
    if ws == [] then "" else Wire(ws[0]) + Wires(ws[1..])
  }

  /** How many arrays are open around its innermost items, at most; a nil array counts as one. */
  function Depth(w: Written): nat
    decreases w
  {
    match w
    case NilArray => 1
    case ArrayForm(ws) => 1 + Deepest(ws)
    case _ => 0
  }

  function Deepest(ws: seq<Written>): nat
    decreases ws
  {
    if ws == [] then 0
    else var d, ds := Depth(ws[0]), Deepest(ws[1..]); if d > ds then d else ds
  }

  ghost predicate IsLine(line: string) {
    forall k: nat :: !NewlineAt(line, k)
  }

  /** Lines have no line end in them, and numbers are within their ranges. */
  ghost predicate Writable(w: Written)
    decreases w
  {
    match w
    case ErrorForm(line) => IsLine(line)
    case StatusForm(line) => IsLine(line)
    case IntegerForm(i) => -LLONG_MAX - 1 <= i <= LLONG_MAX
    case NilBulk => true
    case NilArray => true
    case BulkForm(bytes, end) => |bytes| <= LLONG_MAX && |end| == 2
    case ArrayForm(ws) => |ws| <= INT_MAX && AllWritable(ws)
  }

  ghost predicate AllWritable(ws: seq<Written>)
    decreases ws
  {
    ws != [] ==> Writable(ws[0]) && AllWritable(ws[1..])
  }

  /** Every bulk string ends in CR LF. */
  predicate Ended(w: Written)
    decreases w
  {
    match w
    case BulkForm(_, end) => end == CRLF
    case ArrayForm(ws) => AllEnded(ws)
    case _ => true
  }

  predicate AllEnded(ws: seq<Written>)
    decreases ws
  {
    ws != [] ==> Ended(ws[0]) && AllEnded(ws[1..])
  }

  // ----- one line -----

  lemma LineEndOf(line: string, rest: string)
    requires IsLine(line)
    ensures LineEnd(line + CRLF + rest) == Some(|line|)
    ensures (line + CRLF + rest)[..|line|] == line && (line + CRLF + rest)[|line| + 2..] == rest
  {
    var s := line + CRLF + rest;
    assert NewlineAt(s, |line|);
    forall k: nat | k < |line|
      ensures !NewlineAt(s, k)
    {
      assert !NewlineAt(line, k);
    }
  }

  /** A line with its type byte: what the parser looks at. */
  lemma LineItem(t: char, line: string, rest: string, depth: nat)
    requires KindOf(t).Some? && IsLine(line) && (t == '*' ==> depth < MAX_OPEN)
    ensures var s, kind := LineText(t, line) + rest, KindOf(t).value;
            s != "" && s[0] == t && HeadOf(kind, s[1..], depth) == FromLine(kind, line, rest)
  {
    var s := LineText(t, line) + rest;
    assert s[1..] == line + CRLF + rest;
    LineEndOf(line, rest);
  }

  lemma DecimalIsLine(v: int)
    ensures IsLine(Decimal(v))
  {
    DigitsAreDigits(Abs(v));
    assert forall i | 0 < i < |Decimal(v)| :: IsDigit(Decimal(v)[i]);
  }

  /** A line of which the first line end is the k-th byte. */
  lemma SplitLine(s: string, k: nat)
    requires LineEnd(s) == Some(k)
    ensures s == s[..k] + CRLF + s[k + 2..] && IsLine(s[..k])
  {
    assert s[k..k + 2] == CRLF;
    forall j: nat
      ensures !NewlineAt(s[..k], j)
    {
      if j < k { assert !NewlineAt(s, j); }
    }
  }

  lemma TextOfLine(s: string, k: nat)
    requires s != "" && LineEnd(s[1..]) == Some(k)
    ensures s == LineText(s[0], s[1..][..k]) + s[1..][k + 2..] && IsLine(s[1..][..k])
  {
    SplitLine(s[1..], k);
    assert s == [s[0]] + s[1..];
  }

  // ----- items read back -----

  /** What a written reply is read as, where `depth` arrays are open. */
  ghost function Reading(w: Written, rest: string, depth: nat): Parsed {
    if depth + Depth(w) <= MAX_OPEN then Done(Meaning(w), rest) else Failed(TooDeep)
  }

  lemma DeepArray(rest: string, depth: nat)
    requires depth >= MAX_OPEN
    ensures ParseItem(None, "*" + rest, depth) == Failed(TooDeep)
  {
    assert ("*" + rest)[0] == '*';
  }

  /** An item that its first line decides. */
  lemma Decided(s: string, depth: nat, h: Head)
    requires s != "" && KindOf(s[0]).Some? && HeadOf(KindOf(s[0]).value, s[1..], depth) == h && !h.Open?
    ensures ParseItem(None, s, depth)
         == match h case Whole(v, rest) => Done(v, rest) case More => Incomplete case Bad(e) => Failed(e)
  {
    assert ParseItem(None, s, depth) == ParseItem(KindOf(s[0]), s[1..], depth);
  }

  lemma DeepHead(line: string, after: string, depth: nat)
    requires depth >= MAX_OPEN
    ensures ParseItem(None, LineText('*', line) + after, depth) == Failed(TooDeep)
  {
    assert LineText('*', line) + after == "*" + (line + CRLF + after);
    DeepArray(line + CRLF + after, depth);
  }

  lemma NumberRead(v: Int64)
    ensures IsLine(Decimal(v)) && ParseLL(Decimal(v)) == Some(v)
  {
    DecimalIsLine(v);
    PrintParse(v);
  }

  lemma MinusOne()
    ensures Decimal(-1) == "-1"
  {
  }

  /** What the parser looks at in a reply of one line. */
  lemma ShortHead(w: Written, rest: string, depth: nat)
    requires Writable(w) && depth + Depth(w) <= MAX_OPEN && !w.BulkForm? && !w.ArrayForm?
    ensures var s := Wire(w) + rest;
            s != "" && KindOf(s[0]).Some? && HeadOf(KindOf(s[0]).value, s[1..], depth) == Whole(Meaning(w), rest)
  {
    MinusOne();
    NumberRead(-1);
    match w
    case ErrorForm(line) => LineItem('-', line, rest, depth);
    case StatusForm(line) => LineItem('+', line, rest, depth);
    case IntegerForm(i) => NumberRead(i); LineItem(':', Decimal(i), rest, depth);
    case NilBulk => LineItem('$', "-1", rest, depth);
    case NilArray => LineItem('*', "-1", rest, depth);
  }

  lemma ShortReads(w: Written, rest: string, depth: nat)
    requires Writable(w) && depth <= MAX_OPEN && !w.BulkForm? && !w.ArrayForm?
    ensures ParseItem(None, Wire(w) + rest, depth) == Reading(w, rest, depth)
  {
    if depth + Depth(w) <= MAX_OPEN {
      ShortHead(w, rest, depth);
      Decided(Wire(w) + rest, depth, Whole(Meaning(w), rest));
    } else {
      DeepHead("-1", rest, depth);
    }
  }

  lemma LengthHead(len: nat, after: string, depth: nat)
    requires len <= LLONG_MAX
    ensures var s := LineText('$', Decimal(len)) + after;
            s != "" && s[0] == '$' && HeadOf(BulkString, s[1..], depth) == Payload(len, after)
  {
    NumberRead(len);
    LengthLine(Decimal(len), len, after, depth);
  }

  lemma LengthLine(line: string, len: nat, after: string, depth: nat)
    requires IsLine(line) && ParseLL(line) == Some(len)
    ensures var s := LineText('$', line) + after;
            s != "" && s[0] == '$' && HeadOf(BulkString, s[1..], depth) == Payload(len, after)
  {
    LineItem('$', line, after, depth);
  }

  lemma BulkShape(bytes: string, end: string, rest: string)
    requires |end| == 2
    ensures Wire(BulkForm(bytes, end)) + rest == LineText('$', Decimal(|bytes|)) + (bytes + end + rest)
  {
    Joined(LineText('$', Decimal(|bytes|)), bytes + end, rest);
  }

  lemma BulkHead(bytes: string, end: string, rest: string, depth: nat)
    requires |bytes| <= LLONG_MAX && |end| == 2
    ensures var s := Wire(BulkForm(bytes, end)) + rest;
            s != "" && s[0] == '$' && HeadOf(BulkString, s[1..], depth) == Whole(String(bytes), rest)
  {
    BulkShape(bytes, end, rest);
    LengthHead(|bytes|, bytes + end + rest, depth);
    PayloadOf(bytes, end, rest);
  }

  lemma BulkReads(bytes: string, end: string, rest: string, depth: nat)
    requires |bytes| <= LLONG_MAX && |end| == 2
    ensures ParseItem(None, Wire(BulkForm(bytes, end)) + rest, depth) == Done(String(bytes), rest)
  {
    BulkHead(bytes, end, rest, depth);
    Decided(Wire(BulkForm(bytes, end)) + rest, depth, Whole(String(bytes), rest));
  }

  lemma NoItems(vs: seq<Reply>, rest: string, depth: nat)
    ensures ParseItems(0, vs, rest, depth) == Done(Array(vs), rest)
  {
  }

  lemma Opened(s: string, depth: nat, n: nat, rest: string)
    requires s != "" && s[0] == '*' && HeadOf(MultiBulk, s[1..], depth) == Open(n, rest)
    ensures ParseItem(None, s, depth) == ParseItems(n, [], rest, depth + 1)
  {
    assert ParseItem(None, s, depth) == ParseItem(Some(MultiBulk), s[1..], depth);
  }

  lemma CountHead(n: nat, after: string, depth: nat)
    requires n <= INT_MAX && depth < MAX_OPEN
    ensures var s := LineText('*', Decimal(n)) + after;
            s != "" && s[0] == '*'
            && HeadOf(MultiBulk, s[1..], depth) == if n == 0 then Whole(Array([]), after) else Open(n, after)
  {
    NumberRead(n);
    CountLine(Decimal(n), n, after, depth);
  }

  lemma CountLine(line: string, n: nat, after: string, depth: nat)
    requires IsLine(line) && ParseLL(line) == Some(n) && n <= INT_MAX && depth < MAX_OPEN
    ensures var s := LineText('*', line) + after;
            s != "" && s[0] == '*'
            && HeadOf(MultiBulk, s[1..], depth) == if n == 0 then Whole(Array([]), after) else Open(n, after)
  {
    LineItem('*', line, after, depth);
  }

  /** The line that announces n elements. */
  lemma ArrayHead(n: nat, after: string, depth: nat)
    requires n <= INT_MAX && depth < MAX_OPEN
    ensures ParseItem(None, LineText('*', Decimal(n)) + after, depth) == ParseItems(n, [], after, depth + 1)
  {
    var s := LineText('*', Decimal(n)) + after;
    CountHead(n, after, depth);
    if n == 0 {
      Decided(s, depth, Whole(Array([]), after));
      NoItems([], after, depth + 1);
    } else {
      Opened(s, depth, n, after);
    }
  }

  lemma ArrayReads(ws: seq<Written>, rest: string, depth: nat)
    requires |ws| <= INT_MAX && depth <= MAX_OPEN
    requires depth < MAX_OPEN ==> ParseItems(|ws|, [], Wires(ws) + rest, depth + 1)
                                  == if depth + 1 + Deepest(ws) <= MAX_OPEN then Done(Array(Meanings(ws)), rest)
                                     else Failed(TooDeep)
    ensures ParseItem(None, Wire(ArrayForm(ws)) + rest, depth) == Reading(ArrayForm(ws), rest, depth)
  {
    Joined(LineText('*', Decimal(|ws|)), Wires(ws), rest);
    if depth < MAX_OPEN {
      ArrayHead(|ws|, Wires(ws) + rest, depth);
    } else {
      DeepHead(Decimal(|ws|), Wires(ws) + rest, depth);
    }
  }

  lemma {:induction false} WireReads(w: Written, rest: string, depth: nat)
    requires Writable(w) && depth <= MAX_OPEN
    ensures ParseItem(None, Wire(w) + rest, depth) == Reading(w, rest, depth)
    decreases w
  {
    match w
    case BulkForm(bytes, end) => BulkReads(bytes, end, rest, depth);
    case ArrayForm(ws) =>
      if depth < MAX_OPEN < depth + 1 + Deepest(ws) {
        WiresTooDeep(ws, |ws|, [], rest, depth + 1);
      } else if depth < MAX_OPEN {
        NoItems([] + Meanings(ws), rest, depth + 1);
        assert [] + Meanings(ws) == Meanings(ws);
        WiresRead(ws, |ws|, [], rest, depth + 1, Done(Array(Meanings(ws)), rest));
      }
      ArrayReads(ws, rest, depth);
    case _ => ShortReads(w, rest, depth);
  }

  lemma ItemFails(n: nat, before: seq<Reply>, s: string, depth: nat, e: Failure)
    requires n > 0 && ParseItem(None, s, depth) == Failed(e)
    ensures ParseItems(n, before, s, depth) == Failed(e)
  {
  }

  lemma Joined<T>(a: seq<T>, b: seq<T>, c: seq<T>)
    ensures (a + b) + c == a + (b + c)
  {
  }

  lemma WiresCons(ws: seq<Written>, before: seq<Reply>, rest: string)
    requires ws != []
    ensures Wires(ws) + rest == Wire(ws[0]) + (Wires(ws[1..]) + rest)
    ensures before + [Meaning(ws[0])] + Meanings(ws[1..]) == before + Meanings(ws)
  {
    Joined(Wire(ws[0]), Wires(ws[1..]), rest);
    Joined(before, [Meaning(ws[0])], Meanings(ws[1..]));
  }

  /** Written replies as the next of the n elements of an array: what becomes of the array is decided behind
      them. */
  lemma {:induction false} WiresRead(ws: seq<Written>, n: nat, before: seq<Reply>, rest: string, depth: nat, p: Parsed)
    requires AllWritable(ws) && |ws| <= n && depth + Deepest(ws) <= MAX_OPEN
    requires ParseItems(n - |ws|, before + Meanings(ws), rest, depth) == p
    ensures ParseItems(n, before, Wires(ws) + rest, depth) == p
    decreases ws
  {
    if ws == [] {
      NoWires(before, rest);
    } else {
      WiresCons(ws, before, rest);
      WiresRead(ws[1..], n - 1, before + [Meaning(ws[0])], rest, depth, p);
      WireReads(ws[0], Wires(ws[1..]) + rest, depth);
      ElementRead(ws, n, before, rest, depth);
    }
  }

  lemma NoWires(before: seq<Reply>, rest: string)
    ensures Wires([]) + rest == rest && before + Meanings([]) == before
  {
  }

  lemma ElementRead(ws: seq<Written>, n: nat, before: seq<Reply>, rest: string, depth: nat)
    requires ws != [] && n > 0
    requires ParseItem(None, Wire(ws[0]) + (Wires(ws[1..]) + rest), depth)
          == Done(Meaning(ws[0]), Wires(ws[1..]) + rest)
    ensures ParseItems(n, before, Wires(ws) + rest, depth)
         == ParseItems(n - 1, before + [Meaning(ws[0])], Wires(ws[1..]) + rest, depth)
  {
    WiresCons(ws, before, rest);
    ItemsParse(n, before, Meaning(ws[0]), Wires(ws) + rest, Wires(ws[1..]) + rest, depth);
  }

  lemma TooDeepFirst(ws: seq<Written>, n: nat, before: seq<Reply>, rest: string, depth: nat)
    requires ws != [] && n > 0 && ParseItem(None, Wire(ws[0]) + (Wires(ws[1..]) + rest), depth) == Failed(TooDeep)
    ensures ParseItems(n, before, Wires(ws) + rest, depth) == Failed(TooDeep)
  {
    WiresCons(ws, before, rest);
    ItemFails(n, before, Wires(ws) + rest, depth, TooDeep);
  }

  /** If one of them is too deep, so is the array. */
  lemma {:induction false} WiresTooDeep(ws: seq<Written>, n: nat, before: seq<Reply>, rest: string, depth: nat)
    requires AllWritable(ws) && |ws| <= n && depth <= MAX_OPEN < depth + Deepest(ws)
    ensures ParseItems(n, before, Wires(ws) + rest, depth) == Failed(TooDeep)
    decreases ws
  {
    WireReads(ws[0], Wires(ws[1..]) + rest, depth);
    if depth + Depth(ws[0]) <= MAX_OPEN {
      WiresTooDeep(ws[1..], n - 1, before + [Meaning(ws[0])], rest, depth);
      ElementRead(ws, n, before, rest, depth);
    } else {
      TooDeepFirst(ws, n, before, rest, depth);
    }
  }

  // ----- faults -----

  ghost predicate IsDecimal(line: string) {
    exists v: Int64 :: Decimal(v) == line
  }

  /** What is wrong with a text: an item no reply starts with, a number line out of order, an array that is
      one too many, or one of these in an array behind replies that are in order. */
  datatype Fault =
    | UnknownByte(byte: char)
    | BadLine(kind: char, line: string)
    | OneTooMany
    | InArray(count: nat, before: seq<Written>, inner: Fault)

  /** Whether `line` denotes a number, and one from lo to hi. */
  ghost predicate NumberIn(line: string, lo: int, hi: int) {
    exists v: Int64 :: lo <= v <= hi && Decimal(v) == line
  }

  ghost predicate Faulty(f: Fault, depth: nat)
    decreases f
  {
    match f
    case UnknownByte(c) => c !in "-+:$*"
    case BadLine(kind, line) =>
      && IsLine(line)
      && ((kind == ':' && !IsDecimal(line))
          || (kind == '$' && !NumberIn(line, -1, LLONG_MAX))
          || (kind == '*' && depth < MAX_OPEN && !NumberIn(line, -1, INT_MAX)))
    case OneTooMany => depth >= MAX_OPEN
    case InArray(count, before, inner) =>
      && depth < MAX_OPEN && |before| < count <= INT_MAX
      && AllWritable(before) && depth + 1 + Deepest(before) <= MAX_OPEN && Faulty(inner, depth + 1)
  }

  ghost function Cause(f: Fault): Failure
    decreases f
  {
    match f
    case UnknownByte(c) => ProtocolByte(c)
    case BadLine(kind, line) =>
      if kind == ':' then BadInteger
      else if kind == '$' then if IsDecimal(line) then BulkLengthOutOfRange else BadBulkLength
      else if IsDecimal(line) then MultiBulkLengthOutOfRange else BadMultiBulkLength
    case OneTooMany => TooDeep
    case InArray(_, _, inner) => Cause(inner)
  }

  function FaultText(f: Fault): string
    decreases f
  {
    match f
    case UnknownByte(c) => [c]
    case BadLine(kind, line) => LineText(kind, line)
    case OneTooMany => "*"
    case InArray(count, before, inner) => LineText('*', Decimal(count)) + (Wires(before) + FaultText(inner))
  }

  lemma NumberLine(line: string, lo: int, hi: int)
    ensures ParseLL(line).Some? <==> IsDecimal(line)
    ensures NumberIn(line, lo, hi) <==> ParseLL(line).Some? && lo <= ParseLL(line).value <= hi
  {
    forall v: Int64 | Decimal(v) == line
      ensures ParseLL(line) == Some(v)
    {
      PrintParse(v);
    }
  }

  lemma BadLineFails(kind: char, line: string, rest: string, depth: nat)
    requires Faulty(BadLine(kind, line), depth)
    ensures ParseItem(None, LineText(kind, line) + rest, depth) == Failed(Cause(BadLine(kind, line)))
  {
    NumberLine(line, -1, if kind == '$' then LLONG_MAX else INT_MAX);
    LineItem(kind, line, rest, depth);
    Decided(LineText(kind, line) + rest, depth, Bad(Cause(BadLine(kind, line))));
  }

  lemma {:induction false} FaultFails(f: Fault, rest: string, depth: nat)
    requires Faulty(f, depth)
    ensures ParseItem(None, FaultText(f) + rest, depth) == Failed(Cause(f))
    decreases f
  {
    match f
    case UnknownByte(c) => assert (FaultText(f) + rest)[0] == c;
    case BadLine(kind, line) => BadLineFails(kind, line, rest, depth);
    case OneTooMany => DeepArray(rest, depth);
    case InArray(count, before, inner) =>
      FaultFails(inner, rest, depth + 1);
      InnerFails(count, before, inner, rest, depth);
  }

  lemma InnerFails(count: nat, before: seq<Written>, inner: Fault, rest: string, depth: nat)
    requires Faulty(InArray(count, before, inner), depth)
    requires ParseItem(None, FaultText(inner) + rest, depth + 1) == Failed(Cause(inner))
    ensures ParseItem(None, FaultText(InArray(count, before, inner)) + rest, depth) == Failed(Cause(inner))
  {
    var behind := FaultText(inner) + rest;
    Joined(LineText('*', Decimal(count)), Wires(before) + FaultText(inner), rest);
    Joined(Wires(before), FaultText(inner), rest);
    ItemFails(count - |before|, [] + Meanings(before), behind, depth + 1, Cause(inner));
    WiresRead(before, count, [], behind, depth + 1, Failed(Cause(inner)));
    ArrayHead(count, Wires(before) + behind, depth);
  }

  // ----- nothing else is read or refused -----

  /** The item at the start of a text that is read or refused. */
  lemma HeadText(s: string, depth: nat) returns (k: nat)
    requires s != "" && KindOf(s[0]).Some? && (s[0] == '*' ==> depth < MAX_OPEN)
    requires !ParseItem(None, s, depth).Incomplete?
    ensures LineEnd(s[1..]) == Some(k)
    ensures var line, after := s[1..][..k], s[1..][k + 2..];
            s == LineText(s[0], line) + after && IsLine(line)
            && HeadOf(KindOf(s[0]).value, s[1..], depth) == FromLine(KindOf(s[0]).value, line, after)
  {
    k := LineEnd(s[1..]).value;
    TextOfLine(s, k);
  }

  lemma NumberText(line: string)
    requires ParseLL(line).Some?
    ensures var v := ParseLL(line).value; Decimal(v) == line && -LLONG_MAX - 1 <= v <= LLONG_MAX
  {
  }

  /** A text that is read starts with a written reply, and one that is refused with a fault. */
  datatype Origin = Reads(written: Written) | Breaks(fault: Fault, rest: string)

  ghost predicate Explains(o: Origin, s: string, depth: nat, p: Parsed) {
    match o
    case Reads(w) =>
      Writable(w) && depth + Depth(w) <= MAX_OPEN && p.Done? && p.value == Meaning(w) && s == Wire(w) + p.rest
    case Breaks(f, rest) =>
      Faulty(f, depth) && p == Failed(Cause(f)) && s == FaultText(f) + rest
  }

  lemma BulkText(line: string, bytes: string, end: string, rest: string)
    requires Decimal(|bytes|) == line
    ensures LineText('$', line) + (bytes + end + rest) == Wire(BulkForm(bytes, end)) + rest
  {
  }

  lemma ThreeParts(s: string, k: nat)
    requires k + 2 <= |s|
    ensures s[..k] + s[k..k + 2] + s[k + 2..] == s
  {
  }

  lemma BytesOrigin(s: string, line: string, after: string, depth: nat, len: nat) returns (o: Origin)
    requires s == LineText('$', line) + after && Decimal(len) == line && len <= LLONG_MAX && depth <= MAX_OPEN
    requires len + 2 <= |after| && ParseItem(None, s, depth) == Done(String(after[..len]), after[len + 2..])
    ensures Explains(o, s, depth, ParseItem(None, s, depth))
  {
    var bytes, end, rest := after[..len], after[len..len + 2], after[len + 2..];
    ThreeParts(after, len);
    BulkText(line, bytes, end, rest);
    o := Reads(BulkForm(bytes, end));
  }

  lemma BulkOrigin(s: string, line: string, after: string, depth: nat) returns (o: Origin)
    requires s == LineText('$', line) + after && IsLine(line) && depth <= MAX_OPEN
    requires HeadOf(BulkString, s[1..], depth) == FromLine(BulkString, line, after)
    requires !ParseItem(None, s, depth).Incomplete?
    ensures Explains(o, s, depth, ParseItem(None, s, depth))
  {
    Decided(s, depth, FromLine(BulkString, line, after));
    NumberLine(line, -1, LLONG_MAX);
    MinusOne();
    if !NumberIn(line, -1, LLONG_MAX) {
      o := Breaks(BadLine('$', line), after);
    } else {
      NumberText(line);
      var len := ParseLL(line).value;
      if len == -1 {
        o := Reads(NilBulk);
      } else {
        o := BytesOrigin(s, line, after, depth, len);
      }
    }
  }

  lemma LineOrigin(s: string, line: string, after: string, depth: nat) returns (o: Origin)
    requires s != "" && s[0] in "-+:" && s == LineText(s[0], line) + after && IsLine(line)
    requires depth <= MAX_OPEN
    requires HeadOf(KindOf(s[0]).value, s[1..], depth) == FromLine(KindOf(s[0]).value, line, after)
    ensures Explains(o, s, depth, ParseItem(None, s, depth))
  {
    Decided(s, depth, FromLine(KindOf(s[0]).value, line, after));
    NumberLine(line, -1, 0);
    if s[0] == '-' {
      o := Reads(ErrorForm(line));
    } else if s[0] == '+' {
      o := Reads(StatusForm(line));
    } else if IsDecimal(line) {
      NumberText(line);
      o := Reads(IntegerForm(ParseLL(line).value));
    } else {
      o := Breaks(BadLine(':', line), after);
    }
  }

  /** An array whose first line is in order, or not. */
  lemma CountOrigin(s: string, line: string, after: string, depth: nat)
    returns (o: Option<Origin>, n: nat)
    requires s == LineText('*', line) + after && IsLine(line) && depth < MAX_OPEN
    requires HeadOf(MultiBulk, s[1..], depth) == FromLine(MultiBulk, line, after)
    ensures o.Some? ==> Explains(o.value, s, depth, ParseItem(None, s, depth))
    ensures o.None? ==> n <= INT_MAX && Decimal(n) == line
  {
    NumberLine(line, -1, INT_MAX);
    MinusOne();
    n := 0;
    if !NumberIn(line, -1, INT_MAX) {
      Decided(s, depth, FromLine(MultiBulk, line, after));
      o := Some(Breaks(BadLine('*', line), after));
    } else {
      NumberText(line);
      if ParseLL(line).value == -1 {
        Decided(s, depth, FromLine(MultiBulk, line, after));
        o := Some(Reads(NilArray));
      } else {
        o, n := None, ParseLL(line).value;
      }
    }
  }

  lemma StartOrigin(s: string, depth: nat) returns (o: Option<Origin>)
    requires s != "" && depth <= MAX_OPEN
    ensures o.Some? ==> Explains(o.value, s, depth, ParseItem(None, s, depth))
    ensures o.None? ==> KindOf(s[0]).Some? && (s[0] == '*' ==> depth < MAX_OPEN)
  {
    if KindOf(s[0]).None? {
      o := Some(Breaks(UnknownByte(s[0]), s[1..]));
    } else if s[0] == '*' && depth == MAX_OPEN {
      o := Some(Breaks(OneTooMany, s[1..]));
      assert s == "*" + s[1..];
      DeepArray(s[1..], depth);
    } else {
      o := None;
    }
  }

  /** Every text that is read or refused is explained. */
  lemma {:induction false} ItemOrigin(s: string, depth: nat) returns (o: Origin)
    requires depth <= MAX_OPEN && !ParseItem(None, s, depth).Incomplete?
    ensures Explains(o, s, depth, ParseItem(None, s, depth))
    decreases |s|, 2, 0
  {
    var start := StartOrigin(s, depth);
    if start.Some? {
      o := start.value;
    } else {
      var k := HeadText(s, depth);
      var line, after := s[1..][..k], s[1..][k + 2..];
      if s[0] == '$' {
        o := BulkOrigin(s, line, after, depth);
      } else if s[0] != '*' {
        o := LineOrigin(s, line, after, depth);
      } else {
        o := MultiOrigin(s, line, after, depth);
      }
    }
  }

  /** Behind a first line that is in order, the elements are next. */
  lemma ElementsNext(s: string, line: string, after: string, depth: nat) returns (decided: Option<Origin>, n: nat)
    requires s == LineText('*', line) + after && IsLine(line) && depth < MAX_OPEN
    requires HeadOf(MultiBulk, s[1..], depth) == FromLine(MultiBulk, line, after)
    requires !ParseItem(None, s, depth).Incomplete?
    ensures decided.Some? ==> Explains(decided.value, s, depth, ParseItem(None, s, depth))
    ensures decided.None? ==> n <= INT_MAX && s == LineText('*', Decimal(n)) + after && |after| < |s|
    ensures decided.None? ==> ParseItem(None, s, depth) == ParseItems(n, [], after, depth + 1)
  {
    decided, n := CountOrigin(s, line, after, depth);
    if decided.None? { ArrayHead(n, after, depth); }
  }

  lemma {:induction false} MultiOrigin(s: string, line: string, after: string, depth: nat) returns (o: Origin)
    requires s == LineText('*', line) + after && IsLine(line) && depth < MAX_OPEN
    requires HeadOf(MultiBulk, s[1..], depth) == FromLine(MultiBulk, line, after)
    requires !ParseItem(None, s, depth).Incomplete?
    ensures Explains(o, s, depth, ParseItem(None, s, depth))
    decreases |s|, 1, 0
  {
    var decided, n := ElementsNext(s, line, after, depth);
    match decided
    case Some(found) => o := found;
    case None =>
      var ws, fault := ItemsOrigin(n, [], after, depth + 1);
      o := ArrayOrigin(n, ws, fault, after, depth, ParseItems(n, [], after, depth + 1));
  }

  lemma ArrayOrigin(n: nat, ws: seq<Written>, fault: Option<Origin>, after: string, depth: nat, p: Parsed)
    returns (o: Origin)
    requires n <= INT_MAX && depth < MAX_OPEN && ItemsExplained(n, [], ws, fault, after, depth + 1, p)
    ensures Explains(o, LineText('*', Decimal(n)) + after, depth, p)
  {
    if fault.None? {
      o := Reads(ArrayForm(ws));
      assert [] + Meanings(ws) == Meanings(ws);
      Joined(LineText('*', Decimal(n)), Wires(ws), p.rest);
    } else {
      var f, rest := fault.value.fault, fault.value.rest;
      o := Breaks(InArray(n, ws, f), rest);
      Joined(Wires(ws), FaultText(f), rest);
      Joined(LineText('*', Decimal(n)), Wires(ws) + FaultText(f), rest);
    }
  }

  /** The elements that were read, and the fault in the one behind them, if any. */
  ghost predicate ItemsExplained(n: nat, before: seq<Reply>, ws: seq<Written>, fault: Option<Origin>, s: string,
                                 depth: nat, p: Parsed) {
    && AllWritable(ws) && depth + Deepest(ws) <= MAX_OPEN
    && (fault.None? ==> |ws| == n && p.Done? && p.value == Array(before + Meanings(ws)) && s == Wires(ws) + p.rest)
    && (fault.Some? ==>
          && |ws| < n && fault.value.Breaks? && Faulty(fault.value.fault, depth)
          && p == Failed(Cause(fault.value.fault))
          && s == Wires(ws) + (FaultText(fault.value.fault) + fault.value.rest))
  }

  lemma {:induction false} ItemsOrigin(n: nat, before: seq<Reply>, s: string, depth: nat)
    returns (ws: seq<Written>, fault: Option<Origin>)
    requires depth <= MAX_OPEN && !ParseItems(n, before, s, depth).Incomplete?
    ensures ItemsExplained(n, before, ws, fault, s, depth, ParseItems(n, before, s, depth))
    decreases |s|, 3, n
  {
    if n == 0 {
      ws, fault := [], None;
      assert before + Meanings(ws) == before && s == Wires(ws) + s;
    } else {
      var o := ItemOrigin(s, depth);
      match o {
        case Breaks(f, rest) =>
          ws, fault := [], Some(o);
          assert s == Wires(ws) + (FaultText(f) + rest);
        case Reads(w) =>
          var after := ParseItem(None, s, depth).rest;
          ws, fault := ItemsOrigin(n - 1, before + [Meaning(w)], after, depth);
          ItemsExtend(n, before, w, ws, fault, after, depth, ParseItems(n, before, s, depth));
          ws := [w] + ws;
      }
    }
  }

  lemma ItemsExtend(n: nat, before: seq<Reply>, w: Written, ws: seq<Written>, fault: Option<Origin>, after: string,
                    depth: nat, p: Parsed)
    requires n > 0 && Writable(w) && depth + Depth(w) <= MAX_OPEN
    requires ItemsExplained(n - 1, before + [Meaning(w)], ws, fault, after, depth, p)
    ensures ItemsExplained(n, before, [w] + ws, fault, Wire(w) + after, depth, p)
  {
    ItemsCons(w, ws, before);
    Joined(Wire(w), Wires(ws), if fault.None? then p.rest else FaultText(fault.value.fault) + fault.value.rest);
  }

  lemma ItemsCons(w: Written, ws: seq<Written>, before: seq<Reply>)
    ensures var all := [w] + ws;
            && Wires(all) == Wire(w) + Wires(ws) && (AllWritable(all) <==> Writable(w) && AllWritable(ws))
            && Deepest(all) == (if Depth(w) > Deepest(ws) then Depth(w) else Deepest(ws))
            && before + Meanings(all) == before + [Meaning(w)] + Meanings(ws)
  {
    assert ([w] + ws)[1..] == ws;
    Joined(before, [Meaning(w)], Meanings(ws));
  }

  // ----- the end of bulk strings -----

  lemma BulkTerminated(head: string, bytes: string, end: string, rest: string)
    requires |end| == 2
    ensures Terminated(head + (bytes + end + rest), rest) <==> end == CRLF
  {
    var s := head + (bytes + end + rest);
    var k := |head| + |bytes|;
    assert s[k..k + 2] == end;
  }

  lemma StrictDecided(s: string, depth: nat, v: Reply, rest: string)
    requires s != "" && KindOf(s[0]).Some? && HeadOf(KindOf(s[0]).value, s[1..], depth) == Whole(v, rest)
    ensures StrictItem(None, s, depth)
         == if v.String? && !Terminated(s[1..], rest) then BadTerminator else Accepts(Done(v, rest))
  {
    assert StrictItem(None, s, depth) == StrictItem(KindOf(s[0]), s[1..], depth);
  }

  lemma StrictShort(w: Written, rest: string, depth: nat)
    requires Writable(w) && depth + Depth(w) <= MAX_OPEN && !w.BulkForm? && !w.ArrayForm?
    ensures StrictItem(None, Wire(w) + rest, depth) == Accepts(Done(Meaning(w), rest))
  {
    ShortHead(w, rest, depth);
    StrictDecided(Wire(w) + rest, depth, Meaning(w), rest);
  }

  lemma BulkEnd(bytes: string, end: string, rest: string)
    requires |end| == 2
    ensures var s := Wire(BulkForm(bytes, end)) + rest; Terminated(s[1..], rest) <==> end == CRLF
  {
    var head := Decimal(|bytes|) + CRLF;
    var s := Wire(BulkForm(bytes, end)) + rest;
    assert s[1..] == head + (bytes + end + rest);
    BulkTerminated(head, bytes, end, rest);
  }

  lemma StrictBulk(bytes: string, end: string, rest: string, depth: nat)
    requires |bytes| <= LLONG_MAX && |end| == 2
    ensures StrictItem(None, Wire(BulkForm(bytes, end)) + rest, depth)
         == if end == CRLF then Accepts(Done(String(bytes), rest)) else BadTerminator
  {
    BulkHead(bytes, end, rest, depth);
    BulkEnd(bytes, end, rest);
    StrictPayload(Wire(BulkForm(bytes, end)) + rest, bytes, rest, depth);
  }

  lemma StrictPayload(s: string, bytes: string, rest: string, depth: nat)
    requires s != "" && s[0] == '$' && HeadOf(BulkString, s[1..], depth) == Whole(String(bytes), rest)
    ensures StrictItem(None, s, depth)
         == if Terminated(s[1..], rest) then Accepts(Done(String(bytes), rest)) else BadTerminator
  {
    StrictDecided(s, depth, String(bytes), rest);
  }

  lemma StrictHead(n: nat, after: string, depth: nat)
    requires n <= INT_MAX && depth < MAX_OPEN
    ensures StrictItem(None, LineText('*', Decimal(n)) + after, depth) == StrictItems(n, [], after, depth + 1)
  {
    var s := LineText('*', Decimal(n)) + after;
    CountHead(n, after, depth);
    if n == 0 {
      StrictDecided(s, depth, Array([]), after);
    } else {
      assert StrictItem(None, s, depth) == StrictItem(Some(MultiBulk), s[1..], depth);
    }
  }

  /** The strict grammar reads a written reply if each of its bulk strings ends in CR LF, and stumbles if not. */
  lemma {:induction false} StrictReads(w: Written, rest: string, depth: nat)
    requires Writable(w) && depth + Depth(w) <= MAX_OPEN
    ensures StrictItem(None, Wire(w) + rest, depth)
         == if Ended(w) then Accepts(Done(Meaning(w), rest)) else BadTerminator
    decreases w
  {
    match w
    case BulkForm(bytes, end) => StrictBulk(bytes, end, rest, depth);
    case ArrayForm(ws) =>
      assert [] + Meanings(ws) == Meanings(ws);
      StrictRead(ws, |ws|, [], rest, depth + 1, Accepts(Done(Array(Meanings(ws)), rest)));
      StrictHead(|ws|, Wires(ws) + rest, depth);
      Joined(LineText('*', Decimal(|ws|)), Wires(ws), rest);
    case _ => StrictShort(w, rest, depth);
  }

  lemma StrictElement(w: Written, n: nat, before: seq<Reply>, s: string, after: string, depth: nat, q: Strict)
    requires n > 0
    requires StrictItem(None, s, depth) == if Ended(w) then Accepts(Done(Meaning(w), after)) else BadTerminator
    requires StrictItems(n - 1, before + [Meaning(w)], after, depth) == q
    ensures StrictItems(n, before, s, depth) == if Ended(w) then q else BadTerminator
  {
  }

  lemma StrictCons(ws: seq<Written>, n: nat, before: seq<Reply>, rest: string, depth: nat, q: Strict)
    requires ws != [] && n > 0
    requires StrictItem(None, Wire(ws[0]) + (Wires(ws[1..]) + rest), depth)
          == if Ended(ws[0]) then Accepts(Done(Meaning(ws[0]), Wires(ws[1..]) + rest)) else BadTerminator
    requires StrictItems(n - 1, before + [Meaning(ws[0])], Wires(ws[1..]) + rest, depth) == q
    ensures StrictItems(n, before, Wires(ws) + rest, depth) == if Ended(ws[0]) then q else BadTerminator
  {
    WiresCons(ws, before, rest);
    StrictElement(ws[0], n, before, Wires(ws) + rest, Wires(ws[1..]) + rest, depth, q);
  }

  lemma StrictRest(ws: seq<Written>, n: nat, before: seq<Reply>, rest: string, depth: nat)
    requires ws != [] && |ws| <= n
    ensures StrictItems(n - 1 - |ws[1..]|, before + [Meaning(ws[0])] + Meanings(ws[1..]), rest, depth)
         == StrictItems(n - |ws|, before + Meanings(ws), rest, depth)
  {
    WiresCons(ws, before, rest);
  }

  lemma {:induction false} StrictRead(ws: seq<Written>, n: nat, before: seq<Reply>, rest: string, depth: nat, p: Strict)
    requires AllWritable(ws) && |ws| <= n && depth + Deepest(ws) <= MAX_OPEN
    requires StrictItems(n - |ws|, before + Meanings(ws), rest, depth) == p
    ensures StrictItems(n, before, Wires(ws) + rest, depth) == if AllEnded(ws) then p else BadTerminator
    decreases ws
  {
    if ws == [] {
      NoWires(before, rest);
    } else {
      StrictRest(ws, n, before, rest, depth);
      StrictRead(ws[1..], n - 1, before + [Meaning(ws[0])], rest, depth, p);
      StrictReads(ws[0], Wires(ws[1..]) + rest, depth);
      StrictCons(ws, n, before, rest, depth, if AllEnded(ws[1..]) then p else BadTerminator);
    }
  }

  // ----- main results -----

  /** Round trip for every reply, of all kinds and spellings: it is read back if at most eight arrays are nested
      in it, and refused as too deep otherwise. */
  lemma ReplyRoundTrip(w: Written, rest: string)
    requires Writable(w)
    ensures Parse(Wire(w) + rest) == if Depth(w) <= MAX_OPEN then Done(Meaning(w), rest) else Failed(TooDeep)
  {
    WireReads(w, rest, 0);
  }

  /** The text is a written form of `v`, with `rest` behind it. */
  ghost predicate Spells(w: Written, v: Reply, s: string, rest: string) {
    Writable(w) && Depth(w) <= MAX_OPEN && Meaning(w) == v && s == Wire(w) + rest
  }

  /** The text starts with a fault that stands for the error. */
  ghost predicate Spoils(f: Fault, e: Failure, s: string, rest: string) {
    Faulty(f, 0) && Cause(f) == e && s == FaultText(f) + rest
  }

  lemma SpelledRead(w: Written, v: Reply, s: string, rest: string)
    requires Spells(w, v, s, rest)
    ensures Parse(s) == Done(v, rest)
  {
    ReplyRoundTrip(w, rest);
  }

  lemma SpoiledFails(f: Fault, e: Failure, s: string, rest: string)
    requires Spoils(f, e, s, rest)
    ensures Parse(s) == Failed(e)
  {
    FaultFails(f, rest, 0);
  }

  lemma Explained(s: string)
    ensures match Parse(s)
            case Done(v, rest) => exists w :: Spells(w, v, s, rest)
            case Failed(e) => exists f, rest :: Spoils(f, e, s, rest)
            case Incomplete => true
  {
    if Parse(s) != Incomplete {
      var o := ItemOrigin(s, 0);
      match o
      case Reads(w) => assert Spells(w, Parse(s).value, s, Parse(s).rest);
      case Breaks(f, rest) => assert Spoils(f, Parse(s).error, s, rest);
    }
  }

  /** Nothing else is read: a text is read as `v` exactly if it starts with one of the written forms of `v`. */
  lemma ReadExactly(s: string, v: Reply, rest: string)
    ensures Parse(s) == Done(v, rest) <==> exists w :: Spells(w, v, s, rest)
  {
    Explained(s);
    forall w | Spells(w, v, s, rest)
      ensures Parse(s) == Done(v, rest)
    {
      SpelledRead(w, v, s, rest);
    }
  }

  /** A text is refused with an error exactly if it starts with a fault of that kind. */
  lemma FailsExactly(s: string, e: Failure)
    ensures Parse(s) == Failed(e) <==> exists f, rest :: Spoils(f, e, s, rest)
  {
    Explained(s);
    forall f, rest | Spoils(f, e, s, rest)
      ensures Parse(s) == Failed(e)
    {
      SpoiledFails(f, e, s, rest);
    }
  }

  /** And the end of a text is waited for exactly if the text starts with neither. */
  lemma WaitsExactly(s: string)
    ensures Parse(s) == Incomplete
       <==> (forall w, v, rest :: !Spells(w, v, s, rest)) && (forall f, e, rest :: !Spoils(f, e, s, rest))
  {
    Explained(s);
    forall w, v, rest | Spells(w, v, s, rest)
      ensures Parse(s).Done?
    {
      SpelledRead(w, v, s, rest);
    }
    forall f, e, rest | Spoils(f, e, s, rest)
      ensures Parse(s).Failed?
    {
      SpoiledFails(f, e, s, rest);
    }
  }

  /** Both spellings of nil are read as nil. */
  lemma TwoNils(rest: string)
    ensures Parse("$-1\r\n" + rest) == Parse("*-1\r\n" + rest) == Done(Nil, rest)
  {
    ReplyRoundTrip(NilBulk, rest);
    ReplyRoundTrip(NilArray, rest);
    assert Wire(NilBulk) == "$-1\r\n" && Wire(NilArray) == "*-1\r\n";
  }

  /** A reply is read whatever the two bytes behind its bulk strings are; the strict grammar refuses it if they
      are not CR LF. */
  lemma UnterminatedBulk(w: Written, rest: string)
    requires Writable(w) && Depth(w) <= MAX_OPEN
    ensures Parse(Wire(w) + rest) == Done(Meaning(w), rest)
    ensures ParseStrict(Wire(w) + rest) == if Ended(w) then Accepts(Parse(Wire(w) + rest)) else BadTerminator
  {
    ReplyRoundTrip(w, rest);
    StrictReads(w, rest, 0);
  }

  /** For one, `foo` before `XY`. */
  lemma FooXY()
    ensures Parse("$3\r\nfooXY") == Done(String("foo"), "") && ParseStrict("$3\r\nfooXY") == BadTerminator
  {
    UnterminatedBulk(BulkForm("foo", "XY"), "");
    assert "$3\r\nfooXY" == Wire(BulkForm("foo", "XY")) + "";
  }

  /** The error text puts the limit at a depth of 7.  Replies are treated as it says exactly if their depth
      is not 8. */
  lemma DocumentedDepth(w: Written, rest: string)
    requires Writable(w)
    ensures (Parse(Wire(w) + rest) == Failed(TooDeep) <==> Depth(w) > 7) <==> Depth(w) != 8
  {
    ReplyRoundTrip(w, rest);
  }

  /** An empty array in k others. */
  function Nested(k: nat): Written {
    if k == 0 then ArrayForm([]) else ArrayForm([Nested(k - 1)])
  }

  function NestedText(k: nat): string {
    if k == 0 then "*0\r\n" else "*1\r\n" + NestedText(k - 1)
  }

  lemma {:induction false} NestedWire(k: nat)
    ensures Depth(Nested(k)) == k + 1 && Writable(Nested(k)) && Wire(Nested(k)) == NestedText(k)
  {
    if k == 0 {
      assert Wires([]) == "" && Wire(Nested(0)) == LineText('*', "0") + "";
    } else {
      NestedWire(k - 1);
      OneElement(Nested(k - 1));
    }
  }

  lemma OneElement(w: Written)
    ensures Depth(ArrayForm([w])) == Depth(w) + 1 && (Writable(w) ==> Writable(ArrayForm([w])))
    ensures Wire(ArrayForm([w])) == "*1\r\n" + Wire(w)
  {
    ItemsCons(w, [], []);
    assert [w] + [] == [w] && Deepest([]) == 0 && AllWritable([]) && Wires([]) == "";
    assert Wires([w]) == Wire(w) && Decimal(1) == "1";
    assert LineText('*', "1") == "*1\r\n";
  }

  /** Where `depth` arrays are open, k + 1 nested ones are read exactly if there are eight at most in all. */
  lemma NestedLimit(k: nat, rest: string, depth: nat)
    ensures ParseItem(None, NestedText(k) + rest, depth)
         == if depth + k < MAX_OPEN then Done(Meaning(Nested(k)), rest) else Failed(TooDeep)
  {
    NestedWire(k);
    if depth <= MAX_OPEN {
      WireReads(Nested(k), rest, depth);
    } else {
      assert NestedText(k)[0] == '*';
      assert NestedText(k) + rest == "*" + (NestedText(k)[1..] + rest);
      DeepArray(NestedText(k)[1..] + rest, depth);
    }
  }

  /** Eight arrays, each in the next, are read, although the error text speaks of a depth of 7; nine are
      refused. */
  lemma EightAndNine(rest: string)
    ensures Parse(NestedText(7) + rest) == Done(Meaning(Nested(7)), rest)
    ensures Parse(NestedText(8) + rest) == Failed(TooDeep)
  {
    NestedLimit(7, rest, 0);
    NestedLimit(8, rest, 0);
  }

  /** The limits, in figures: 64-bit integers, and 2^31 - 1 elements. */
  lemma Limits(rest: string)
    ensures Parse(LineText(':', Decimal(9223372036854775807)) + rest) == Done(Integer(9223372036854775807), rest)
    ensures Parse(LineText(':', Decimal(-9223372036854775808)) + rest) == Done(Integer(-9223372036854775808), rest)
    ensures Parse(LineText(':', Decimal(9223372036854775808)) + rest) == Failed(BadInteger)
    ensures Parse(LineText(':', Decimal(-9223372036854775809)) + rest) == Failed(BadInteger)
    ensures Parse(LineText('*', Decimal(2147483647))) == Incomplete
    ensures Parse(LineText('*', Decimal(2147483648)) + rest) == Failed(MultiBulkLengthOutOfRange)
  {
    InRange(9223372036854775807, rest);
    InRange(-9223372036854775808, rest);
    OutOfRange(':', 9223372036854775808, rest);
    OutOfRange(':', -9223372036854775809, rest);
    OutOfRange('*', 2147483648, rest);
    Counted(2147483647);
  }

  lemma InRange(v: Int64, rest: string)
    ensures Parse(LineText(':', Decimal(v)) + rest) == Done(Integer(v), rest)
  {
    ReplyRoundTrip(IntegerForm(v), rest);
  }

  lemma Counted(n: int)
    requires 0 < n <= INT_MAX
    ensures Parse(LineText('*', Decimal(n))) == Incomplete
  {
    ArrayHead(n, "", 0);
    assert LineText('*', Decimal(n)) + "" == LineText('*', Decimal(n));
  }

  lemma OutOfRange(kind: char, v: int, rest: string)
    requires (kind == ':' && !(-LLONG_MAX - 1 <= v <= LLONG_MAX)) || (kind == '*' && INT_MAX < v <= LLONG_MAX)
    ensures Parse(LineText(kind, Decimal(v)) + rest)
         == Failed(if kind == ':' then BadInteger else MultiBulkLengthOutOfRange)
  {
    DecimalIsLine(v);
    forall u: Int64 | Decimal(u) == Decimal(v)
      ensures u == v
    {
      DecimalInjective(u, v);
    }
    if kind == '*' { assert IsDecimal(Decimal(v)) by { var u: Int64 := v; assert Decimal(u) == Decimal(v); } }
    FaultFails(BadLine(kind, Decimal(v)), rest, 0);
  }

  // ----- commands as written arrays -----

  /** A command as an array of bulk strings, each with its line end. */
  function BulkForms(argv: seq<string>): seq<Written> {
    if argv == [] then [] else [BulkForm(argv[0], CRLF)] + BulkForms(argv[1..])
  }

  lemma {:induction false} BulksAreWires(argv: seq<string>)
    ensures Bulks(argv) == Wires(BulkForms(argv)) && |BulkForms(argv)| == |argv| && AllEnded(BulkForms(argv))
  {
    if argv != [] {
      BulksAreWires(argv[1..]);
      BulkIsWire(argv[0]);
      assert BulkForms(argv)[1..] == BulkForms(argv[1..]);
    }
  }

  lemma BulkIsWire(arg: string)
    ensures Bulk(arg) == Wire(BulkForm(arg, CRLF))
  {
    assert Decimal(|arg|) == Digits(|arg|);
  }

  /** A formatted command is the written form of the array of its arguments, with every line end in place. */
  lemma CommandIsWire(argv: seq<string>)
    ensures Encode(argv) == Wire(ArrayForm(BulkForms(argv))) && Ended(ArrayForm(BulkForms(argv)))
  {
    BulksAreWires(argv);
    assert Decimal(|argv|) == Digits(|argv|);
  }
}
