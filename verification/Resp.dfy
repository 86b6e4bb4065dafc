/** The replies of RESP2 and the grammar that the reader of read.c accepts, as a recursive-descent
    parser.  A character below 256 stands for a byte.  The grammar follows the code: integers are
    strictly canonical, and the two bytes after a bulk string are skipped whatever they are. */
module Resp {
  import opened Wrappers
  import opened Decimals

  datatype Kind = ErrorLine | StatusLine | IntegerLine | BulkString | MultiBulk

  datatype Reply =
    | Error(str: string)
    | Status(str: string)
    | Integer(integer: int)
    | Nil
    | String(str: string)
    | Array(element: seq<Reply>)

  datatype Failure =
    | ProtocolByte(byte: char)
    | BadInteger
    | BadBulkLength
    | BulkLengthOutOfRange
    | BadMultiBulkLength
    | MultiBulkLengthOutOfRange
    | TooDeep

  const INT_MAX: nat := 0x7FFF_FFFF

  /** `rstack` has nine slots, so at most eight arrays are open. */
  const MAX_OPEN: nat := 8

  function KindOf(c: char): Option<Kind> {
    match c
    case '-' => Some(ErrorLine)
    case '+' => Some(StatusLine)
    case ':' => Some(IntegerLine)
    case '$' => Some(BulkString)
    case '*' => Some(MultiBulk)
    case _ => None
  }

  predicate NewlineAt(s: string, k: nat) {
    k + 1 < |s| && s[k] == '\r' && s[k + 1] == '\n'
  }

  /** Where the first line of `s` ends, if it does. */
  function LineEnd(s: string): (r: Option<nat>)
    ensures r.Some? ==> NewlineAt(s, r.value) && forall k: nat | k < r.value :: !NewlineAt(s, k)
    ensures r.None? ==> forall k: nat :: !NewlineAt(s, k)
  {
    if |s| < 2 then None
    else if NewlineAt(s, 0) then Some(0)
    else
      assert forall k: nat | k > 0 :: NewlineAt(s, k) <==> NewlineAt(s[1..], k - 1);
      match LineEnd(s[1..])
      case None => None
      case Some(k) => Some(k + 1)
  }

  /** What one item turns out to be once its type byte is read: a whole reply, the head of an
      array of `count` items, a prefix of an item, or an error. */
  datatype Head =
    | Whole(value: Reply, rest: string)
    | Open(count: nat, rest: string)
    | More
    | Bad(error: Failure)

  predicate Suffix(r: string, s: string) {
    |r| <= |s| && r == s[|s| - |r|..]
  }

  /** The bytes of a bulk string; the two that end it are not looked at. */
  function Payload(len: nat, rest: string): (h: Head)
    ensures h.Whole? || h.More?
    ensures h.Whole? ==> |h.rest| <= |rest|
  {
    if |rest| < len + 2 then More else Whole(String(rest[..len]), rest[len + 2..])
  }

  /** An item whose first line is `line`. */
  ghost function FromLine(kind: Kind, line: string, rest: string): (h: Head)
    ensures h.Whole? || h.Open? ==> |h.rest| <= |rest|
    ensures h.Open? ==> kind == MultiBulk && h.count > 0
  {
    match kind
    case ErrorLine => Whole(Error(line), rest)
    case StatusLine => Whole(Status(line), rest)
    case IntegerLine =>
      (match ParseLL(line)
       case None => Bad(BadInteger)
       case Some(v) => Whole(Integer(v), rest))
    case BulkString =>
      (match ParseLL(line)
       case None => Bad(BadBulkLength)
       case Some(len) =>
         if len < -1 then Bad(BulkLengthOutOfRange)
         else if len == -1 then Whole(Nil, rest)
         else Payload(len, rest))
    case MultiBulk =>
      (match ParseLL(line)
       case None => Bad(BadMultiBulkLength)
       case Some(n) =>
         if n < -1 || n > INT_MAX then Bad(MultiBulkLengthOutOfRange)
         else if n == -1 then Whole(Nil, rest)
         else if n == 0 then Whole(Array([]), rest)
         else Open(n, rest))
  }

  ghost function HeadOf(kind: Kind, s: string, depth: nat): (h: Head)
    ensures h.Whole? || h.Open? ==> |h.rest| < |s|
    ensures h.Open? ==> h.count > 0 && depth < MAX_OPEN && kind == MultiBulk
  {
    if kind == MultiBulk && depth >= MAX_OPEN then Bad(TooDeep)
    else
      match LineEnd(s)
      case None => More
      case Some(k) => FromLine(kind, s[..k], s[k + 2..])
  }

  lemma DropSuffix(s: string, k: nat)
    requires k <= |s|
    ensures Suffix(s[k..], s)
  {
  }

  /** What follows an item is the end of the text. */
  lemma HeadSuffix(kind: Kind, s: string, depth: nat)
    ensures var h := HeadOf(kind, s, depth); h.Whole? || h.Open? ==> Suffix(h.rest, s)
  {
    var h, end := HeadOf(kind, s, depth), LineEnd(s);
    if (h.Whole? || h.Open?) && end.Some? {
      var after := s[end.value + 2..];
      DropSuffix(s, end.value + 2);
      if h.rest != after {
        var used := |after| - |h.rest|;
        assert h.rest == after[used..] == s[end.value + 2 + used..];
        DropSuffix(s, end.value + 2 + used);
      }
    }
  }

  // ----- the reference parser -----

  datatype Parsed =
    | Done(value: Reply, rest: string)
    | Incomplete
    | Failed(error: Failure)

  /** One item, with `depth` arrays open around it; its type byte is read unless `kind` has it. */
  ghost function ParseItem(kind: Option<Kind>, s: string, depth: nat): (p: Parsed)
    ensures p.Done? ==> |p.rest| < |s|
    decreases |s|, 0, 0
  {
    if kind.None? then
      if s == "" then Incomplete
      else
        match KindOf(s[0])
        case None => Failed(ProtocolByte(s[0]))
        case Some(k) => ParseItem(Some(k), s[1..], depth)
    else
      match HeadOf(kind.value, s, depth)
      case Whole(v, rest) => Done(v, rest)
      case Open(n, rest) => ParseItems(n, [], rest, depth + 1)
      case More => Incomplete
      case Bad(e) => Failed(e)
  }

  /** The `n` items that are left of an array of which `before` has been read. */
  ghost function ParseItems(n: nat, before: seq<Reply>, s: string, depth: nat): (p: Parsed)
    ensures p.Done? ==> |p.rest| <= |s|
    decreases |s|, 1, n
  {
    if n == 0 then Done(Array(before), s)
    else
      match ParseItem(None, s, depth)
      case Done(v, rest) => ParseItems(n - 1, before + [v], rest, depth)
      case Incomplete => Incomplete
      case Failed(e) => Failed(e)
  }

  ghost function Parse(s: string): (p: Parsed)
    ensures p.Done? ==> |p.rest| < |s|
  {
    ParseItem(None, s, 0)
  }

  /** Where a stream of replies ends: in an error, or in a wait for more bytes. */
  datatype End = Waiting | Broken(error: Failure)

  datatype Stream = Stream(replies: seq<Reply>, end: End)

  function Then(first: seq<Reply>, s: Stream): Stream {
    Stream(first + s.replies, s.end)
  }

  lemma ThenThen(a: seq<Reply>, b: seq<Reply>, s: Stream)
    ensures Then(a, Then(b, s)) == Then(a + b, s)
    ensures Then([], s) == s
  {
    assert a + (b + s.replies) == a + b + s.replies;
    assert [] + s.replies == s.replies;
  }

  /** All replies of a byte stream. */
  ghost function ParseAll(s: string): Stream
    decreases |s|
  {
    match Parse(s)
    case Done(v, rest) => Then([v], ParseAll(rest))
    case Incomplete => Stream([], Waiting)
    case Failed(e) => Stream([], Broken(e))
  }

  // ----- the stack machine -----

  /** An array being read: its announced size and the elements it has so far. */
  datatype Frame = Frame(total: nat, elements: seq<Reply>)

  datatype Stepped =
    | Next(frames: seq<Frame>, rest: string)
    | Finished(value: Reply, rest: string)
    | Stuck(frames: seq<Frame>, kind: Option<Kind>, rest: string)
    | Abort(error: Failure)

  /** The open arrays leave a slot for the current item. */
  ghost predicate Fits(frames: seq<Frame>) {
    |frames| <= MAX_OPEN && forall f <- frames :: |f.elements| < f.total
  }

  /** A reply is complete: `moveToNextTask`. */
  ghost function Complete(frames: seq<Frame>, v: Reply, rest: string): (r: Stepped)
    requires Fits(frames)
    ensures r.Next? || r.Finished?
    ensures r.rest == rest
    ensures r.Next? ==> Fits(r.frames) && r.frames != []
  {
    if frames == [] then Finished(v, rest)
    else
      var top := frames[|frames| - 1];
      var outer, elements := frames[..|frames| - 1], top.elements + [v];
      if |elements| == top.total then Complete(outer, Array(elements), rest)
      else Next(outer + [Frame(top.total, elements)], rest)
  }

  /** One call of `processItem`. */
  ghost function Step(frames: seq<Frame>, kind: Option<Kind>, s: string): (r: Stepped)
    requires Fits(frames)
    ensures r.Next? || r.Finished? ==> |r.rest| < |s|
    ensures r.Next? || r.Stuck? ==> Fits(r.frames)
    ensures r.Stuck? ==> |r.rest| <= |s|
    decreases kind.None?
  {
    if kind.None? then
      if s == "" then Stuck(frames, None, s)
      else
        match KindOf(s[0])
        case None => Abort(ProtocolByte(s[0]))
        case Some(k) => Step(frames, Some(k), s[1..])
    else
      match HeadOf(kind.value, s, |frames|)
      case Whole(v, rest) => Complete(frames, v, rest)
      case Open(n, rest) => Next(frames + [Frame(n, [])], rest)
      case More => Stuck(frames, kind, s)
      case Bad(e) => Abort(e)
  }

  /** The loop of `redisReaderGetReply`. */
  ghost function Run(frames: seq<Frame>, kind: Option<Kind>, s: string): (r: Stepped)
    requires Fits(frames)
    ensures !r.Next?
    ensures r.Finished? ==> |r.rest| < |s|
    ensures r.Stuck? ==> Fits(r.frames)
    decreases |s|
  {
    match Step(frames, kind, s)
    case Next(inner, rest) => Run(inner, None, rest)
    case r => r
  }

  lemma RunStep(frames: seq<Frame>, kind: Option<Kind>, s: string)
    requires Fits(frames)
    ensures var r := Step(frames, kind, s);
            Run(frames, kind, s) == if r.Next? then Run(r.frames, None, r.rest) else r
  {
  }

  // ----- the machine reads what the parser reads -----

  /** What becomes of the open arrays when the current item is parsed with result `p`. */
  ghost function Around(frames: seq<Frame>, p: Parsed): (r: Parsed)
    requires Fits(frames)
    ensures r.Done? ==> p.Done? && |r.rest| <= |p.rest|
  {
    if frames == [] || !p.Done? then p
    else
      var top := frames[|frames| - 1];
      Around(frames[..|frames| - 1],
             ParseItems(top.total - |top.elements| - 1, top.elements + [p.value], p.rest, |frames|))
  }

  /** The parse that a state of the machine stands for. */
  ghost function Resume(frames: seq<Frame>, kind: Option<Kind>, s: string): Parsed
    requires Fits(frames)
  {
    Around(frames, ParseItem(kind, s, |frames|))
  }

  lemma ItemsStep(n: nat, before: seq<Reply>, s: string, depth: nat)
    requires n > 0
    ensures var p := ParseItem(None, s, depth);
            ParseItems(n, before, s, depth)
            == if p.Done? then ParseItems(n - 1, before + [p.value], p.rest, depth) else p
  {
  }

  /** A new element of the innermost array is due. */
  lemma ResumeElement(outer: seq<Frame>, top: Frame, rest: string)
    requires Fits(outer + [top])
    ensures var p := ParseItems(top.total - |top.elements|, top.elements, rest, |outer| + 1);
            Resume(outer + [top], None, rest) == Around(outer, p)
  {
    var inner := outer + [top];
    var p := ParseItem(None, rest, |inner|);
    assert inner[..|inner| - 1] == outer && inner[|inner| - 1] == top;
    ItemsStep(top.total - |top.elements|, top.elements, rest, |inner|);
    if !p.Done? { assert Around(outer, p) == p; }
  }

  lemma {:induction false} CompleteAround(frames: seq<Frame>, v: Reply, rest: string)
    requires Fits(frames)
    ensures match Complete(frames, v, rest)
            case Finished(w, r) => Around(frames, Done(v, rest)) == Done(w, r)
            case Next(inner, r) => Around(frames, Done(v, rest)) == Resume(inner, None, r)
            case _ => false
  {
    if frames != [] {
      var top := frames[|frames| - 1];
      var outer, elements := frames[..|frames| - 1], top.elements + [v];
      if |elements| == top.total {
        CompleteAround(outer, Array(elements), rest);
      } else {
        ResumeElement(outer, Frame(top.total, elements), rest);
      }
    }
  }

  /** A step of the machine keeps the parse it stands for. */
  lemma {:induction false} StepResumes(frames: seq<Frame>, kind: Option<Kind>, s: string)
    requires Fits(frames)
    ensures match Step(frames, kind, s)
            case Next(inner, rest) => Resume(frames, kind, s) == Resume(inner, None, rest)
            case Finished(v, rest) => Resume(frames, kind, s) == Done(v, rest)
            case Stuck(inner, k, rest) => Resume(frames, kind, s) == Resume(inner, k, rest) == Incomplete
            case Abort(e) => Resume(frames, kind, s) == Failed(e)
    decreases kind.None?
  {
    if kind.None? {
      if s != "" && KindOf(s[0]).Some? {
        StepResumes(frames, KindOf(s[0]), s[1..]);
      }
    } else {
      match HeadOf(kind.value, s, |frames|)
      case Whole(v, rest) => CompleteAround(frames, v, rest);
      case Open(n, rest) =>
        ResumeElement(frames, Frame(n, []), rest);
      case More =>
      case Bad(e) =>
    }
  }

  /** The loop over the nine-slot stack computes the parse: the same reply tree, the same consumed
      length, the same error, and a wait exactly where the parser finds the text incomplete. */
  lemma {:induction false} RunParses(frames: seq<Frame>, kind: Option<Kind>, s: string)
    requires Fits(frames)
    ensures Resume(frames, kind, s) == match Run(frames, kind, s)
                                       case Finished(v, rest) => Done(v, rest)
                                       case Abort(e) => Failed(e)
                                       case _ => Incomplete
    decreases |s|
  {
    StepResumes(frames, kind, s);
    match Step(frames, kind, s)
    case Next(inner, rest) => RunParses(inner, None, rest);
    case _ =>
  }

  // ----- more bytes -----

  lemma {:induction false} LineEndExtends(s: string, more: string)
    ensures LineEnd(s).Some? ==> LineEnd(s + more) == LineEnd(s)
  {
    if LineEnd(s).Some? {
      var k := LineEnd(s).value;
      assert NewlineAt(s + more, k);
      assert forall i: nat | i < k :: NewlineAt(s + more, i) <==> NewlineAt(s, i);
    }
  }

  ghost function WithMore(h: Head, more: string): Head {
    match h
    case Whole(v, rest) => Whole(v, rest + more)
    case Open(n, rest) => Open(n, rest + more)
    case _ => h
  }

  lemma PayloadExtends(len: nat, rest: string, more: string)
    ensures !Payload(len, rest).More? ==> Payload(len, rest + more) == WithMore(Payload(len, rest), more)
  {
    if len + 2 <= |rest| {
      assert (rest + more)[..len] == rest[..len];
      assert (rest + more)[len + 2..] == rest[len + 2..] + more;
    }
  }

  lemma FromLineExtends(kind: Kind, line: string, rest: string, more: string)
    ensures !FromLine(kind, line, rest).More? ==>
      FromLine(kind, line, rest + more) == WithMore(FromLine(kind, line, rest), more)
  {
    if ParseLL(line).Some? && ParseLL(line).value >= 0 { PayloadExtends(ParseLL(line).value, rest, more); }
  }

  lemma HeadExtends(kind: Kind, s: string, depth: nat, more: string)
    ensures !HeadOf(kind, s, depth).More? ==>
      HeadOf(kind, s + more, depth) == WithMore(HeadOf(kind, s, depth), more)
  {
    LineEndExtends(s, more);
    if LineEnd(s).Some? {
      var k := LineEnd(s).value;
      assert (s + more)[..k] == s[..k];
      assert (s + more)[k + 2..] == s[k + 2..] + more;
      FromLineExtends(kind, s[..k], s[k + 2..], more);
    }
  }

  lemma {:induction false} CompleteExtends(frames: seq<Frame>, v: Reply, rest: string, more: string)
    requires Fits(frames)
    ensures match Complete(frames, v, rest)
            case Next(inner, r) => Complete(frames, v, rest + more) == Next(inner, r + more)
            case Finished(w, r) => Complete(frames, v, rest + more) == Finished(w, r + more)
            case _ => false
  {
    if frames != [] {
      var top := frames[|frames| - 1];
      var outer, elements := frames[..|frames| - 1], top.elements + [v];
      if |elements| == top.total { CompleteExtends(outer, Array(elements), rest, more); }
    }
  }

  /** A step that does not wait is not changed by bytes that arrive later; one that waits has left
      a state from which the longer text is parsed as if it had come in one piece. */
  lemma {:induction false} StepExtends(frames: seq<Frame>, kind: Option<Kind>, s: string, more: string)
    requires Fits(frames)
    ensures match Step(frames, kind, s)
            case Next(inner, rest) => Step(frames, kind, s + more) == Next(inner, rest + more)
            case Finished(v, rest) => Step(frames, kind, s + more) == Finished(v, rest + more)
            case Abort(e) => Step(frames, kind, s + more) == Abort(e)
            case Stuck(inner, k, rest) => Resume(frames, kind, s + more) == Resume(inner, k, rest + more)
    decreases kind.None?
  {
    if kind.None? {
      if s != "" && KindOf(s[0]).Some? {
        assert (s + more)[1..] == s[1..] + more;
        StepExtends(frames, KindOf(s[0]), s[1..], more);
      }
    } else {
      HeadExtends(kind.value, s, |frames|, more);
      match HeadOf(kind.value, s, |frames|)
      case Whole(v, rest) => CompleteExtends(frames, v, rest, more);
      case _ =>
    }
  }

  /** Chunk independence of one reply. */
  lemma {:induction false} RunExtends(frames: seq<Frame>, kind: Option<Kind>, s: string, more: string)
    requires Fits(frames)
    ensures match Run(frames, kind, s)
            case Finished(v, rest) => Resume(frames, kind, s + more) == Done(v, rest + more)
            case Abort(e) => Resume(frames, kind, s + more) == Failed(e)
            case Stuck(inner, k, rest) => Resume(frames, kind, s + more) == Resume(inner, k, rest + more)
            case Next(_, _) => false
    decreases |s|
  {
    StepExtends(frames, kind, s, more);
    StepResumes(frames, kind, s + more);
    match Step(frames, kind, s)
    case Next(inner, rest) => RunExtends(inner, None, rest, more);
    case _ =>
  }

  // ----- feeding a stream in chunks -----

  /** The reader between two calls: the open arrays, the kind of an item whose type byte is read,
      the unread bytes, and the error after which it accepts nothing. */
  datatype Reader = Reader(frames: seq<Frame>, kind: Option<Kind>, unread: string, error: Option<Failure>)

  const FRESH: Reader := Reader([], None, "", None)

  /** `redisReaderFeed`. */
  ghost function Feed(r: Reader, chunk: string): Reader {
    if r.error.Some? then r else r.(unread := r.unread + chunk)
  }

  datatype Answer = Answer(reply: Option<Reply>, reader: Reader)

  /** `redisReaderGetReply`: the reply if there is one, and the reader afterwards. */
  ghost function GetReply(r: Reader): (a: Answer)
    requires Fits(r.frames)
    ensures Fits(a.reader.frames)
    ensures a.reply.Some? ==> |a.reader.unread| < |r.unread|
  {
    if r.error.Some? then Answer(None, r)
    else
      match Run(r.frames, r.kind, r.unread)
      case Finished(v, rest) => Answer(Some(v), Reader([], None, rest, None))
      case Stuck(frames, kind, rest) => Answer(None, Reader(frames, kind, rest, None))
      case Abort(e) => Answer(None, Reader([], None, "", Some(e)))
  }

  datatype Drained = Drained(replies: seq<Reply>, reader: Reader)

  /** Calling `redisReaderGetReply` until it yields no reply. */
  ghost function Drain(r: Reader): (d: Drained)
    requires Fits(r.frames)
    ensures Fits(d.reader.frames)
    decreases |r.unread|
  {
    var a := GetReply(r);
    if a.reply.None? then Drained([], a.reader)
    else var d := Drain(a.reader); Drained([a.reply.value] + d.replies, d.reader)
  }

  /** Feeding the chunks one by one, draining after each. */
  ghost function DrainChunks(r: Reader, chunks: seq<string>): (d: Drained)
    requires Fits(r.frames)
    ensures Fits(d.reader.frames)
    decreases |chunks|
  {
    if chunks == [] then Drained([], r)
    else
      var first := Drain(Feed(r, chunks[0]));
      var d := DrainChunks(first.reader, chunks[1..]);
      Drained(first.replies + d.replies, d.reader)
  }

  function Concat(chunks: seq<string>): string {
    if chunks == [] then "" else chunks[0] + Concat(chunks[1..])
  }

  /** What a reader still yields when `more` arrives: the replies and where they end. */
  ghost function Yield(r: Reader, more: string): Stream
    requires Fits(r.frames)
  {
    if r.error.Some? then Stream([], Broken(r.error.value))
    else
      match Resume(r.frames, r.kind, r.unread + more)
      case Done(v, rest) => Then([v], ParseAll(rest))
      case Incomplete => Stream([], Waiting)
      case Failed(e) => Stream([], Broken(e))
  }

  lemma FreshYields(rest: string, more: string)
    ensures Yield(Reader([], None, rest, None), more) == ParseAll(rest + more)
  {
    assert Resume([], None, rest + more) == Parse(rest + more);
  }

  lemma {:induction false} DrainYields(r: Reader, more: string)
    requires Fits(r.frames)
    ensures Yield(r, more) == Then(Drain(r).replies, Yield(Drain(r).reader, more))
    decreases |r.unread|
  {
    var a := GetReply(r);
    var d := Drain(a.reader);
    ThenThen([], [], Yield(a.reader, more));
    if r.error.None? {
      RunExtends(r.frames, r.kind, r.unread, more);
      if a.reply.Some? {
        FreshYields(a.reader.unread, more);
        DrainYields(a.reader, more);
        ThenThen([a.reply.value], d.replies, Yield(d.reader, more));
      }
    }
  }

  lemma FeedYields(r: Reader, chunk: string, after: string)
    requires Fits(r.frames)
    ensures Yield(r, chunk + after) == Yield(Feed(r, chunk), after)
  {
    assert r.unread + (chunk + after) == r.unread + chunk + after;
  }

  lemma {:induction false} ChunksYield(r: Reader, chunks: seq<string>, more: string)
    requires Fits(r.frames)
    ensures var d := DrainChunks(r, chunks);
            Yield(r, Concat(chunks) + more) == Then(d.replies, Yield(d.reader, more))
    decreases |chunks|
  {
    if chunks == [] {
      assert Concat(chunks) + more == more;
      ThenThen([], [], Yield(r, more));
    } else {
      var fed, after := Feed(r, chunks[0]), Concat(chunks[1..]) + more;
      var first := Drain(fed);
      assert Concat(chunks) + more == chunks[0] + after;
      FeedYields(r, chunks[0], after);
      DrainYields(fed, after);
      ChunksYield(first.reader, chunks[1..], more);
      var d := DrainChunks(first.reader, chunks[1..]);
      ThenThen(first.replies, d.replies, Yield(d.reader, more));
    }
  }

  /** Where a drained reader stands. */
  ghost function EndOf(r: Reader): End {
    if r.error.Some? then Broken(r.error.value) else Waiting
  }

  ghost predicate Idle(r: Reader)
    requires Fits(r.frames)
  {
    Yield(r, "") == Stream([], EndOf(r))
  }

  lemma {:induction false} DrainedIdle(r: Reader)
    requires Fits(r.frames)
    ensures Idle(Drain(r).reader)
    decreases |r.unread|
  {
    var a := GetReply(r);
    if a.reply.Some? {
      DrainedIdle(a.reader);
    } else if r.error.None? {
      assert r.unread + "" == r.unread && a.reader.unread + "" == a.reader.unread;
      RunExtends(r.frames, r.kind, r.unread, "");
      RunParses(r.frames, r.kind, r.unread);
    }
  }

  lemma {:induction false} DrainedChunksIdle(r: Reader, chunks: seq<string>)
    requires Fits(r.frames) && Idle(r)
    ensures Idle(DrainChunks(r, chunks).reader)
    decreases |chunks|
  {
    if chunks != [] {
      var fed := Feed(r, chunks[0]);
      DrainedIdle(fed);
      DrainedChunksIdle(Drain(fed).reader, chunks[1..]);
    }
  }

  /** Chunk independence: however a byte stream is cut into feeds, draining after each feed gives
      the replies of the whole stream, and then the same error or the same wait. */
  lemma ChunkIndependence(chunks: seq<string>)
    ensures var d := DrainChunks(FRESH, chunks);
            ParseAll(Concat(chunks)) == Stream(d.replies, EndOf(d.reader))
  {
    var d := DrainChunks(FRESH, chunks);
    ChunksYield(FRESH, chunks, "");
    FreshYields("", Concat(chunks) + "");
    assert "" + (Concat(chunks) + "") == Concat(chunks);
    DrainedChunksIdle(FRESH, chunks);
    assert d.replies + [] == d.replies;
  }
}
