/** All lines that the argument splitter of sds.c takes, with the arguments it makes of them, and all that it
    refuses: words with plain, double-quoted or single-quoted parts, and quotes that do not close properly. */
module Splitting {
  import opened Wrappers
  import opened Quoting

  // ----- what stands between quotes -----

  /** A byte as it is, a backslash before a byte, or a hexadecimal escape. */
  datatype Spelled = Raw(c: char) | Slash(x: char) | Hex(h1: char, h2: char)

  function SpelledText(p: Spelled): string {
    match p
    case Raw(c) => [c]
    case Slash(x) => ['\\', x]
    case Hex(h1, h2) => ['\\', 'x', h1, h2]
  }

  function SpelledByte(p: Spelled): char
    requires p.Hex? ==> IsHexDigit(p.h1) && IsHexDigit(p.h2)
  {
    match p
    case Raw(c) => c
    case Slash(x) => SlashByte(x)
    case Hex(h1, h2) => (HexDigitToInt(h1) * 16 + HexDigitToInt(h2)) as char
  }

  /** What a backslash and a letter stand for; before any other byte the backslash is dropped. */
  function SlashByte(x: char): char {
    match x
    case 'n' => '\n'
    case 'r' => '\r'
    case 't' => '\t'
    case 'b' => 8 as char
    case 'a' => 7 as char
    case _ => x
  }

  /** The classes of characters, spelled out. */
  lemma Classes(c: char)
    ensures IsSpace(c) <==> c in " \t\n\r" || c == 11 as char || c == 12 as char
    ensures IsHexDigit(c) <==> c in "0123456789abcdef" || c in "0123456789ABCDEF"
    ensures IsHexDigit(c) ==> "0123456789abcdef"[HexDigitToInt(c)] == c || "0123456789ABCDEF"[HexDigitToInt(c)] == c
  {
  }

  function QuoteChar(q: Quote): char
    requires q != Plain
  {
    if q == Double then '"' else '\''
  }

  predicate HexPair(s: string) {
    IsHexDigit(At(s, 0)) && IsHexDigit(At(s, 1))
  }

  /** Whether a part of a quoted string is one, with `next` behind it. */
  predicate Proper(p: Spelled, next: string, q: Quote)
    requires q != Plain
  {
    match p
    case Raw(c) =>
      && c != '\0' && c != QuoteChar(q)
      && (c == '\\' ==> if q == Double then At(next, 0) == '\0' else At(next, 0) != '\'')
    case Slash(x) => if q == Double then x != '\0' && (x == 'x' ==> !HexPair(next)) else x == '\''
    case Hex(h1, h2) => q == Double && IsHexDigit(h1) && IsHexDigit(h2)
  }

  function BodyText(ps: seq<Spelled>): string {
    if ps == [] then "" else SpelledText(ps[0]) + BodyText(ps[1..])
  }

  predicate ProperBody(ps: seq<Spelled>, next: string, q: Quote)
    requires q != Plain
  {
    ps != [] ==> Proper(ps[0], BodyText(ps[1..]) + next, q) && ProperBody(ps[1..], next, q)
  }

  function BodyBytes(ps: seq<Spelled>, next: string, q: Quote): string
    requires q != Plain && ProperBody(ps, next, q)
  {
    if ps == [] then "" else [SpelledByte(ps[0])] + BodyBytes(ps[1..], next, q)
  }

  lemma PrependOnto(c: char, text: string, t: Token)
    ensures Prepend(c, PrependAll(text, t)) == PrependAll([c] + text, t)
  {
    if t.Token? { Assoc([c], text, t.text); }
  }

  lemma ScanPart(p: Spelled, next: string, q: Quote)
    requires q != Plain && Proper(p, next, q)
    ensures Scan(SpelledText(p) + next, q) == Prepend(SpelledByte(p), Scan(next, q))
  {
    var s := SpelledText(p) + next;
    assert s[|SpelledText(p)|..] == next;
    assert forall i: nat :: At(s, |SpelledText(p)| + i) == At(next, i);
    match p
    case Raw(c) => assert s[0] == c && At(s, 1) == At(next, 0);
    case Slash(x) => assert s[0] == '\\' && s[1] == x && At(s, 2) == At(next, 0) && At(s, 3) == At(next, 1);
    case Hex(h1, h2) => assert IsHexEscape(s);
  }

  lemma {:induction false} ScanBody(ps: seq<Spelled>, next: string, q: Quote)
    requires q != Plain && ProperBody(ps, next, q)
    ensures Scan(BodyText(ps) + next, q) == PrependAll(BodyBytes(ps, next, q), Scan(next, q))
  {
    if ps == [] {
      assert BodyText(ps) + next == next;
      PrependNone(Scan(next, q));
    } else {
      Assoc(SpelledText(ps[0]), BodyText(ps[1..]), next);
      ScanPart(ps[0], BodyText(ps[1..]) + next, q);
      ScanBody(ps[1..], next, q);
      PrependOnto(SpelledByte(ps[0]), BodyBytes(ps[1..], next, q), Scan(next, q));
    }
  }

  // ----- words -----

  /** The part of a word behind its plain part. */
  datatype Quoted = Nothing | Marked(q: Quote, parts: seq<Spelled>)

  datatype Word = Word(plain: string, quoted: Quoted)

  /** The bytes that end the plain part of a word. */
  predicate EndsPlain(c: char) {
    c in " \n\r\t\"'" || c == '\0'
  }

  predicate PlainPart(s: string) {
    (forall i | 0 <= i < |s| :: !EndsPlain(s[i])) && !IsSpace(At(s, 0))
  }

  predicate IsQuote(q: Quote) {
    q != Plain
  }

  /** A word; a quoted part has to be followed by a space or by nothing, an unquoted one by one of four
      blanks or by nothing. */
  ghost predicate ProperWord(w: Word, next: string) {
    && PlainPart(w.plain)
    && match w.quoted
       case Nothing => w.plain != "" && (At(next, 0) in " \n\r\t" || At(next, 0) == '\0')
       case Marked(q, ps) =>
         IsQuote(q) && ProperBody(ps, [QuoteChar(q)] + next, q) && (IsSpace(At(next, 0)) || At(next, 0) == '\0')
  }

  function WordText(w: Word): string
    requires w.quoted.Marked? ==> IsQuote(w.quoted.q)
  {
    match w.quoted
    case Nothing => w.plain
    case Marked(q, ps) => w.plain + ([QuoteChar(q)] + (BodyText(ps) + [QuoteChar(q)]))
  }

  /** The argument that the word stands for. */
  ghost function WordValue(w: Word, next: string): string
    requires ProperWord(w, next)
  {
    match w.quoted
    case Nothing => w.plain
    case Marked(q, ps) => w.plain + BodyBytes(ps, [QuoteChar(q)] + next, q)
  }

  lemma {:induction false} ScanPlainPart(plain: string, next: string)
    requires forall i | 0 <= i < |plain| :: !EndsPlain(plain[i])
    ensures Scan(plain + next, Plain) == PrependAll(plain, Scan(next, Plain))
  {
    if plain == "" {
      assert plain + next == next;
      PrependNone(Scan(next, Plain));
    } else {
      assert (plain + next)[1..] == plain[1..] + next && plain == [plain[0]] + plain[1..];
      ScanPlainPart(plain[1..], next);
      PrependOnto(plain[0], plain[1..], Scan(next, Plain));
    }
  }

  lemma QuoteScanned(q: Quote, s: string)
    requires IsQuote(q)
    ensures Scan([QuoteChar(q)] + s, Plain) == Scan(s, q)
  {
    assert ([QuoteChar(q)] + s)[1..] == s;
  }

  lemma ClosingQuote(q: Quote, next: string)
    requires IsQuote(q)
    ensures Scan([QuoteChar(q)] + next, q)
         == if At(next, 0) != '\0' && !IsSpace(At(next, 0)) then Unbalanced else Token("", next)
  {
    var s := [QuoteChar(q)] + next;
    assert s[1..] == next && At(s, 1) == At(next, 0);
  }

  /** Where a word ends: behind its quote, or behind the blank that ends it. */
  function Behind(w: Word, next: string): string {
    if w.quoted.Nothing? && At(next, 0) != '\0' then next[1..] else next
  }

  lemma QuotedScanned(plain: string, q: Quote, ps: seq<Spelled>, next: string)
    requires IsQuote(q) && ProperBody(ps, next, q) && forall i | 0 <= i < |plain| :: !EndsPlain(plain[i])
    ensures Scan(plain + ([QuoteChar(q)] + (BodyText(ps) + next)), Plain)
         == PrependAll(plain, PrependAll(BodyBytes(ps, next, q), Scan(next, q)))
  {
    ScanPlainPart(plain, [QuoteChar(q)] + (BodyText(ps) + next));
    QuoteScanned(q, BodyText(ps) + next);
    ScanBody(ps, next, q);
  }

  /** A word is read as its value. */
  lemma WordScanned(w: Word, next: string)
    requires ProperWord(w, next)
    ensures Scan(WordText(w) + next, Plain) == Token(WordValue(w, next), Behind(w, next))
  {
    match w.quoted
    case Nothing =>
      ScanPlainPart(w.plain, next);
      assert w.plain + "" == w.plain;
    case Marked(q, ps) =>
      var close := [QuoteChar(q)] + next;
      MarkedText(w.plain, q, ps, next);
      QuotedScanned(w.plain, q, ps, close);
      ClosingQuote(q, next);
      assert BodyBytes(ps, close, q) + "" == BodyBytes(ps, close, q);
  }

  lemma MarkedText(plain: string, q: Quote, ps: seq<Spelled>, next: string)
    requires IsQuote(q)
    ensures plain + ([QuoteChar(q)] + (BodyText(ps) + [QuoteChar(q)])) + next
         == plain + ([QuoteChar(q)] + (BodyText(ps) + ([QuoteChar(q)] + next)))
  {
    var c := [QuoteChar(q)];
    Assoc(BodyText(ps), c, next);
    Assoc(c, BodyText(ps) + c, next);
    Assoc(plain, c + (BodyText(ps) + c), next);
  }

  // ----- lines -----

  /** A word and the blanks behind it. */
  datatype Item = Item(word: Word, gap: string)

  predicate HasQuotes(items: seq<Item>) {
    forall i | 0 <= i < |items| :: items[i].word.quoted.Marked? ==> IsQuote(items[i].word.quoted.q)
  }

  function ItemsText(items: seq<Item>, tail: string): string
    requires HasQuotes(items)
  {
    if items == [] then tail else WordText(items[0].word) + (items[0].gap + ItemsText(items[1..], tail))
  }

  ghost predicate ProperItems(items: seq<Item>, tail: string)
    requires HasQuotes(items)
  {
    items != [] ==>
      && IsBlank(items[0].gap) && ProperWord(items[0].word, items[0].gap + ItemsText(items[1..], tail))
      && ProperItems(items[1..], tail)
  }

  ghost function Values(items: seq<Item>, tail: string): seq<string>
    requires HasQuotes(items) && ProperItems(items, tail)
  {
    if items == [] then []
    else [WordValue(items[0].word, items[0].gap + ItemsText(items[1..], tail))] + Values(items[1..], tail)
  }

  /** A quote that is not closed before the end of the string, or that something sticks to. */
  datatype Flaw =
    | Unclosed(plain: string, q: Quote, parts: seq<Spelled>)
    | Sticking(plain: string, q: Quote, parts: seq<Spelled>)

  ghost predicate ProperFlaw(f: Flaw, next: string) {
    && PlainPart(f.plain) && IsQuote(f.q)
    && match f
       case Unclosed(_, q, ps) => ProperBody(ps, next, q) && At(next, 0) == '\0'
       case Sticking(_, q, ps) =>
         ProperBody(ps, [QuoteChar(q)] + next, q) && At(next, 0) != '\0' && !IsSpace(At(next, 0))
  }

  function FlawText(f: Flaw, next: string): string
    requires IsQuote(f.q)
  {
    f.plain + ([QuoteChar(f.q)] + (BodyText(f.parts) + if f.Unclosed? then next else [QuoteChar(f.q)] + next))
  }

  /** A line is in order up to the end of the string, or up to a flaw. */
  datatype Form =
    | Good(lead: string, items: seq<Item>, tail: string)
    | Bad(lead: string, items: seq<Item>, flaw: Flaw, tail: string)

  predicate Quotes(f: Form) {
    HasQuotes(f.items) && (f.Bad? ==> IsQuote(f.flaw.q))
  }

  /** What stands behind the items. */
  function Rest(f: Form): string
    requires Quotes(f)
  {
    if f.Good? then f.tail else FlawText(f.flaw, f.tail)
  }

  ghost predicate ProperForm(f: Form) {
    && Quotes(f) && IsBlank(f.lead) && ProperItems(f.items, Rest(f))
    && if f.Good? then At(f.tail, 0) == '\0' else ProperFlaw(f.flaw, f.tail)
  }

  function FormText(f: Form): string
    requires Quotes(f)
  {
    f.lead + ItemsText(f.items, Rest(f))
  }

  // ----- lines that are split -----

  lemma {:induction false} SkipsBlanks(blanks: string, rest: string)
    requires IsBlank(blanks)
    ensures SkipBlanks(blanks + rest) == SkipBlanks(rest) && Split(blanks + rest) == Split(rest)
  {
    if blanks == "" {
      assert blanks + rest == rest;
    } else {
      assert (blanks + rest)[1..] == blanks[1..] + rest;
      SkipsBlanks(blanks[1..], rest);
    }
  }

  lemma SplitBehind(w: Word, next: string)
    requires ProperWord(w, next)
    ensures Split(Behind(w, next)) == Split(next)
  {
    if w.quoted.Nothing? && At(next, 0) != '\0' {
      assert next == [next[0]] + next[1..];
      SkipsBlanks([next[0]], next[1..]);
    }
  }

  lemma StartsWord(plain: string, rest: string)
    requires PlainPart(plain) && (plain == "" ==> At(rest, 0) == '"' || At(rest, 0) == '\'')
    ensures SkipBlanks(plain + rest) == plain + rest && At(plain + rest, 0) != '\0'
  {
    assert At(plain + rest, 0) == if plain == "" then At(rest, 0) else plain[0];
  }

  lemma WordSplits(w: Word, next: string)
    requires ProperWord(w, next)
    ensures Split(WordText(w) + next) == Joined([WordValue(w, next)], Split(next))
  {
    WordScanned(w, next);
    SplitBehind(w, next);
    match w.quoted
    case Nothing => StartsWord(w.plain, next);
    case Marked(q, ps) =>
      var rest := [QuoteChar(q)] + (BodyText(ps) + [QuoteChar(q)]);
      Assoc(w.plain, rest, next);
      StartsWord(w.plain, rest + next);
  }

  lemma {:induction false} ItemsSplit(items: seq<Item>, tail: string)
    requires HasQuotes(items) && ProperItems(items, tail)
    ensures Split(ItemsText(items, tail)) == Joined(Values(items, tail), Split(tail))
  {
    if items == [] {
      JoinedNone(Split(tail));
    } else {
      var next := items[0].gap + ItemsText(items[1..], tail);
      WordSplits(items[0].word, next);
      SkipsBlanks(items[0].gap, ItemsText(items[1..], tail));
      ItemsSplit(items[1..], tail);
      JoinedMore(WordValue(items[0].word, next), Values(items[1..], tail), Split(tail));
    }
  }

  lemma JoinedMore(arg: string, args: seq<string>, r: Option<seq<string>>)
    ensures Joined([arg], Joined(args, r)) == Joined([arg] + args, r)
  {
    if r.Some? { assert [arg] + (args + r.value) == ([arg] + args) + r.value; }
  }

  lemma FlawSplits(f: Flaw, next: string)
    requires ProperFlaw(f, next)
    ensures Split(FlawText(f, next)) == None
  {
    var close := if f.Unclosed? then next else [QuoteChar(f.q)] + next;
    QuotedScanned(f.plain, f.q, f.parts, close);
    StartsWord(f.plain, [QuoteChar(f.q)] + (BodyText(f.parts) + close));
    if f.Sticking? { ClosingQuote(f.q, next); }
  }

  /** A line in order is split into the values of its words, and a flawed one is refused. */
  lemma FormSplits(f: Form)
    requires ProperForm(f)
    ensures Split(FormText(f)) == if f.Good? then Some(Values(f.items, Rest(f))) else None
  {
    SkipsBlanks(f.lead, ItemsText(f.items, Rest(f)));
    ItemsSplit(f.items, Rest(f));
    match f
    case Good(_, items, tail) => assert Values(items, tail) + [] == Values(items, tail);
    case Bad(_, _, flaw, tail) => FlawSplits(flaw, tail);
  }

  // ----- every line is of one of the two forms -----

  lemma {:induction false} LexBody(s: string, q: Quote) returns (ps: seq<Spelled>, next: string)
    requires IsQuote(q)
    ensures s == BodyText(ps) + next && ProperBody(ps, next, q)
    ensures At(next, 0) == '\0' || At(next, 0) == QuoteChar(q)
    decreases |s|
  {
    if At(s, 0) == '\0' || At(s, 0) == QuoteChar(q) {
      ps, next := [], s;
    } else {
      var p := NextPart(s, q);
      ps, next := LexBody(s[|SpelledText(p)|..], q);
      ps := ConsPart(p, ps, next, q);
    }
  }

  lemma ConsPart(p: Spelled, ps: seq<Spelled>, next: string, q: Quote) returns (all: seq<Spelled>)
    requires IsQuote(q) && ProperBody(ps, next, q) && Proper(p, BodyText(ps) + next, q)
    ensures all == [p] + ps && ProperBody(all, next, q) && BodyText(all) + next == SpelledText(p) + (BodyText(ps) + next)
  {
    all := [p] + ps;
    assert all[1..] == ps;
    Assoc(SpelledText(p), BodyText(ps), next);
  }

  lemma NextPart(s: string, q: Quote) returns (p: Spelled)
    requires IsQuote(q) && At(s, 0) != '\0' && At(s, 0) != QuoteChar(q)
    ensures |SpelledText(p)| <= |s| && s == SpelledText(p) + s[|SpelledText(p)|..]
    ensures Proper(p, s[|SpelledText(p)|..], q)
  {
    if q == Double && IsHexEscape(s) {
      p := Hex(s[2], s[3]);
    } else if s[0] == '\\' && (if q == Double then At(s, 1) != '\0' else At(s, 1) == '\'') {
      p := Slash(s[1]);
      assert At(s[2..], 0) == At(s, 2) && At(s[2..], 1) == At(s, 3);
    } else {
      p := Raw(s[0]);
      assert At(s[1..], 0) == At(s, 1);
    }
  }

  lemma {:induction false} LexPlain(s: string) returns (plain: string, next: string)
    ensures s == plain + next && (forall i | 0 <= i < |plain| :: !EndsPlain(plain[i])) && EndsPlain(At(next, 0))
  {
    if EndsPlain(At(s, 0)) {
      plain, next := "", s;
    } else {
      plain, next := LexPlain(s[1..]);
      plain := [s[0]] + plain;
    }
  }

  lemma {:induction false} LexBlanks(s: string) returns (blanks: string)
    ensures IsBlank(blanks) && s == blanks + SkipBlanks(s)
  {
    if s != "" && IsSpace(s[0]) {
      blanks := LexBlanks(s[1..]);
      blanks := [s[0]] + blanks;
    } else {
      blanks := "";
    }
  }

  /** A word in front of a line. */
  lemma WithWord(lead: string, w: Word, f: Form) returns (g: Form)
    requires ProperForm(f) && IsBlank(lead) && ProperWord(w, FormText(f))
    ensures ProperForm(g) && FormText(g) == lead + (WordText(w) + FormText(f))
  {
    var items := [Item(w, f.lead)] + f.items;
    assert items[1..] == f.items;
    match f
    case Good(_, _, tail) => g := Good(lead, items, tail);
    case Bad(_, _, flaw, tail) => g := Bad(lead, items, flaw, tail);
  }

  lemma FlawForm(lead: string, flaw: Flaw, tail: string) returns (g: Form)
    requires ProperFlaw(flaw, tail) && IsBlank(lead)
    ensures ProperForm(g) && FormText(g) == lead + FlawText(flaw, tail)
  {
    g := Bad(lead, [], flaw, tail);
  }

  /** Every line has a form. */
  lemma {:induction false} LexLine(line: string) returns (f: Form)
    ensures ProperForm(f) && FormText(f) == line
    decreases |line|, 1
  {
    var lead := LexBlanks(line);
    var s := SkipBlanks(line);
    if At(s, 0) == '\0' {
      f := Good(lead, [], s);
    } else {
      var plain, next := LexPlain(s);
      assert plain != "" ==> plain[0] == s[0];
      if At(next, 0) == '"' || At(next, 0) == '\'' {
        f := LexQuoted(lead, plain, next);
      } else {
        assert plain != "";
        f := LexLine(next);
        f := WithWord(lead, Word(plain, Nothing), f);
      }
    }
  }

  lemma {:induction false} LexQuoted(lead: string, plain: string, s: string) returns (f: Form)
    requires IsBlank(lead) && PlainPart(plain) && (At(s, 0) == '"' || At(s, 0) == '\'')
    ensures ProperForm(f) && FormText(f) == lead + (plain + s)
    decreases |s|, 0
  {
    var q := if s[0] == '"' then Double else Single;
    var ps, next := LexBody(s[1..], q);
    assert s == [QuoteChar(q)] + (BodyText(ps) + next);
    if At(next, 0) == '\0' {
      f := FlawForm(lead, Unclosed(plain, q, ps), next);
    } else {
      var tail := next[1..];
      assert next == [QuoteChar(q)] + tail;
      if At(tail, 0) != '\0' && !IsSpace(At(tail, 0)) {
        f := FlawForm(lead, Sticking(plain, q, ps), tail);
      } else {
        f := LexLine(tail);
        MarkedText(plain, q, ps, tail);
        f := WithWord(lead, Word(plain, Marked(q, ps)), f);
      }
    }
  }

  // ----- main results -----

  /** A line is split into `args` exactly if it is in order and they are the values of its words. */
  ghost predicate SplitsAs(f: Form, line: string, args: seq<string>) {
    ProperForm(f) && f.Good? && FormText(f) == line && Values(f.items, Rest(f)) == args
  }

  ghost predicate Flawed(f: Form, line: string) {
    ProperForm(f) && f.Bad? && FormText(f) == line
  }

  lemma SplitExactly(line: string, args: seq<string>)
    ensures Split(line) == Some(args) <==> exists f :: SplitsAs(f, line, args)
  {
    var f := LexLine(line);
    FormSplits(f);
    if Split(line) == Some(args) { assert SplitsAs(f, line, args); }
    forall g | SplitsAs(g, line, args)
      ensures Split(line) == Some(args)
    {
      FormSplits(g);
    }
  }

  /** A line is refused exactly if it has a quote that does not close, or that something sticks to, behind words
      that are in order. */
  lemma RefusedExactly(line: string)
    ensures Split(line) == None <==> exists f :: Flawed(f, line)
  {
    var f := LexLine(line);
    FormSplits(f);
    if Split(line) == None { assert Flawed(f, line); }
    forall g | Flawed(g, line)
      ensures Split(line) == None
    {
      FormSplits(g);
    }
  }

  /** Words without blanks, quotes and NUL. */
  ghost predicate PlainWords(words: seq<string>) {
    forall i | 0 <= i < |words| :: words[i] != "" && forall c <- words[i] :: !IsSpace(c) && !EndsPlain(c)
  }

  function Spaced(words: seq<string>): string {
    if words == [] then "" else words[0] + (if |words| == 1 then "" else " " + Spaced(words[1..]))
  }

  /** Plain words with a space between them are split into just these words. */
  lemma {:induction false} PlainSplit(words: seq<string>)
    requires PlainWords(words)
    ensures Split(Spaced(words)) == Some(words)
  {
    if words != [] {
      var w, others := Word(words[0], Nothing), words[1..];
      var next := if |words| == 1 then "" else " " + Spaced(others);
      assert forall i | 0 <= i < |words[0]| :: words[0][i] in words[0];
      PlainSplit(others);
      WordSplits(w, next);
      if |words| > 1 { SkipsBlanks(" ", Spaced(others)); }
      assert words == [words[0]] + others;
    }
  }
}
