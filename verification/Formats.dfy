/** What a command format means, put together from its parts: `redisvFormatCommand` of hiredis.c. */
module Formats {
  import opened Commands

  /** A character, a percent sign written as two, or a conversion with the value it takes. */
  datatype Part = Letter(c: char) | Percent | Value(conversion: char, arg: string)

  predicate IsPart(p: Part) {
    match p
    case Letter(c) => c != ' ' && c != '%'
    case Percent => true
    case Value(conversion, _) => conversion == 's' || conversion == 'b'
  }

  function PartText(p: Part): string {
    match p
    case Letter(c) => [c]
    case Percent => "%%"
    case Value(conversion, _) => ['%', conversion]
  }

  function PartMeaning(p: Part): string {
    match p
    case Letter(c) => [c]
    case Percent => "%"
    case Value(_, arg) => arg
  }

  function Text(parts: seq<Part>): string {
    if parts == [] then "" else PartText(parts[0]) + Text(parts[1..])
  }

  function Meaning(parts: seq<Part>): string {
    if parts == [] then "" else PartMeaning(parts[0]) + Meaning(parts[1..])
  }

  function Args(parts: seq<Part>): seq<string> {
    if parts == [] then []
    else (if parts[0].Value? then [parts[0].arg] else []) + Args(parts[1..])
  }

  ghost predicate IsWord(parts: seq<Part>) {
    parts != [] && forall i | 0 <= i < |parts| :: IsPart(parts[i])
  }

  ghost predicate IsSpaces(s: string) {
    forall i | 0 <= i < |s| :: s[i] == ' '
  }

  /** A word and the spaces behind it. */
  datatype Item = Item(parts: seq<Part>, gap: string)

  ghost predicate AreItems(items: seq<Item>) {
    forall i | 0 <= i < |items| ::
      IsWord(items[i].parts) && IsSpaces(items[i].gap) && (i + 1 < |items| ==> items[i].gap != "")
  }

  function Format(items: seq<Item>): string {
    if items == [] then "" else Text(items[0].parts) + (items[0].gap + Format(items[1..]))
  }

  function AllArgs(items: seq<Item>): seq<string> {
    if items == [] then [] else Args(items[0].parts) + AllArgs(items[1..])
  }

  function Texts(items: seq<Item>): seq<string> {
    if items == [] then [] else [Text(items[0].parts)] + Texts(items[1..])
  }

  function Meanings(items: seq<Item>): seq<string> {
    if items == [] then [] else [Meaning(items[0].parts)] + Meanings(items[1..])
  }

  lemma Joined<T>(a: seq<T>, b: seq<T>, c: seq<T>)
    ensures (a + b) + c == a + (b + c)
  {
  }

  /** A word takes its values in order and is replaced by its meaning. */
  lemma {:induction false} WordMeaning(parts: seq<Part>, more: seq<string>)
    requires forall i | 0 <= i < |parts| :: IsPart(parts[i])
    ensures Takes(Text(parts)) == |Args(parts)| && Substitute(Text(parts), Args(parts) + more) == Meaning(parts)
  {
    if parts != [] {
      var p, others := parts[0], parts[1..];
      WordMeaning(others, more);
      var text := PartText(p) + Text(others);
      assert text[|PartText(p)|..] == Text(others);
      match p
      case Letter(_) => assert [] + Args(others) == Args(others);
      case Percent => assert [] + Args(others) == Args(others);
      case Value(_, arg) =>
        Joined([arg], Args(others), more);
        assert (Args(parts) + more)[1..] == Args(others) + more;
    }
  }

  lemma {:induction false} NoSpaces(parts: seq<Part>)
    requires forall i | 0 <= i < |parts| :: IsPart(parts[i])
    ensures ' ' !in Text(parts) && |Text(parts)| >= |parts|
  {
    if parts != [] { NoSpaces(parts[1..]); }
  }

  lemma {:induction false} WordEnds(word: string, rest: string)
    requires ' ' !in word && (rest == "" || rest[0] == ' ')
    ensures WordLength(word + rest) == |word|
  {
    if word == "" {
      assert word + rest == rest;
    } else {
      assert (word + rest)[1..] == word[1..] + rest;
      WordEnds(word[1..], rest);
    }
  }

  lemma {:induction false} SpacesSkipped(gap: string, rest: string)
    requires IsSpaces(gap)
    ensures Words(gap + rest) == Words(rest)
  {
    if gap == "" {
      assert gap + rest == rest;
    } else {
      assert (gap + rest)[1..] == gap[1..] + rest;
      SpacesSkipped(gap[1..], rest);
    }
  }

  lemma FirstWord(word: string, rest: string)
    requires word != "" && ' ' !in word && (rest == "" || rest[0] == ' ')
    ensures Words(word + rest) == [word] + Words(rest)
  {
    WordEnds(word, rest);
    assert (word + rest)[..|word|] == word && (word + rest)[|word|..] == rest && (word + rest)[0] in word;
  }

  /** The words of a format are those it was put together from. */
  lemma {:induction false} FormatWords(lead: string, items: seq<Item>)
    requires IsSpaces(lead) && AreItems(items)
    ensures Words(lead + Format(items)) == Texts(items)
    decreases |items|
  {
    SpacesSkipped(lead, Format(items));
    if items != [] {
      var word, rest := Text(items[0].parts), items[0].gap + Format(items[1..]);
      NoSpaces(items[0].parts);
      FirstWord(word, rest);
      FormatWords(items[0].gap, items[1..]);
    }
  }

  lemma {:induction false} WordsMean(items: seq<Item>, more: seq<string>)
    requires AreItems(items)
    ensures TakesAll(Texts(items)) == |AllArgs(items)|
    ensures Arguments(Texts(items), AllArgs(items) + more) == Meanings(items)
    decreases |items|
  {
    if items != [] {
      var args, others := Args(items[0].parts), AllArgs(items[1..]);
      WordMeaning(items[0].parts, others + more);
      WordsMean(items[1..], more);
      Joined(args, others, more);
      assert (args + (others + more))[|args|..] == others + more;
      assert Texts(items)[1..] == Texts(items[1..]);
    }
  }

  /** A format put together from words stands for the meanings of these words, whatever is in the values: the
      arguments are taken in order, one for each conversion, and what is left of them does not matter. */
  lemma FormatMeans(lead: string, items: seq<Item>, more: seq<string>)
    requires IsSpaces(lead) && AreItems(items)
    ensures TakesAll(Words(lead + Format(items))) == |AllArgs(items)|
    ensures Arguments(Words(lead + Format(items)), AllArgs(items) + more) == Meanings(items)
  {
    FormatWords(lead, items);
    WordsMean(items, more);
  }
}
