/** The decimal numbers of the protocol: `string2ll` (read.c) and `sdsll2str` (sds.c), and
    `countDigits` (hiredis.c), against one definition of the decimal text of an integer. */
module Decimals {
  import opened Wrappers

  const LLONG_MAX: int := 0x7FFF_FFFF_FFFF_FFFF
  const ULLONG_MAX: int := 0xFFFF_FFFF_FFFF_FFFF

  type Int64 = x: int | -LLONG_MAX - 1 <= x <= LLONG_MAX

  predicate IsDigit(c: char) {
    '0' <= c <= '9'
  }

  function DigitChar(d: nat): char
    requires d < 10
  {
    '0' + d as char
  }

  /** The digits of a natural number, without leading zeros. */
  function Digits(n: nat): (s: string)
    ensures |s| > 0
  {
    if n < 10 then [DigitChar(n)] else Digits(n / 10) + [DigitChar(n % 10)]
  }

  function Abs(v: int): nat {
    if v < 0 then -v else v
  }

  function Decimal(v: int): string {
    if v < 0 then "-" + Digits(Abs(v)) else Digits(Abs(v))
  }

  /** What a line denotes as an integer: the 64-bit number whose decimal text it is, if any. */
  ghost function ParseLL(s: string): Option<int> {
    if exists v: Int64 :: Decimal(v) == s then var v: Int64 :| Decimal(v) == s; Some(v) else None
  }

  // ----- facts about digits -----

  lemma {:induction false} DigitsAreDigits(n: nat)
    ensures forall c | c in Digits(n) :: IsDigit(c)
    ensures IsDigit(Digits(n)[0])
    ensures n > 0 ==> Digits(n)[0] != '0'
    ensures Digits(n)[0] == '0' ==> Digits(n) == "0"
  {
    if n >= 10 { DigitsAreDigits(n / 10); }
  }

  lemma {:induction false} DigitsInjective(m: nat, n: nat)
    requires Digits(m) == Digits(n)
    ensures m == n
  {
    var s, t := Digits(m), Digits(n);
    if m >= 10 && n >= 10 {
      assert s[..|s| - 1] == Digits(m / 10) && t[..|t| - 1] == Digits(n / 10);
      assert s[|s| - 1] == t[|t| - 1];
      DigitsInjective(m / 10, n / 10);
    } else {
      assert s[|s| - 1] == t[|t| - 1];
    }
  }

  /** A number is at least what any prefix of its digits denotes. */
  lemma {:induction false} DigitsPrefix(m: nat, p: nat)
    requires Digits(p) <= Digits(m)
    ensures p <= m
  {
    if |Digits(p)| == |Digits(m)| {
      DigitsInjective(p, m);
    } else {
      assert Digits(p) <= Digits(m / 10);
      DigitsPrefix(m / 10, p);
    }
  }

  lemma DigitsExtend(s: string, start: nat, plen: nat, v: nat)
    requires start <= plen < |s| && IsDigit(s[plen]) && v > 0 && s[start..plen] == Digits(v)
    ensures s[start..plen + 1] == Digits(v * 10 + (s[plen] as int - '0' as int))
  {
    var d := s[plen] as int - '0' as int;
    assert (v * 10 + d) / 10 == v && (v * 10 + d) % 10 == d;
    assert s[start..plen + 1] == s[start..plen] + [s[plen]];
  }

  /** The number that a string of digits denotes, by their places. */
  function Denotes(s: string): int {
    if s == "" then 0 else 10 * Denotes(s[..|s| - 1]) + (s[|s| - 1] as int - '0' as int)
  }

  /** The digits of a number are decimal digits, denote the number by their places, and have no leading zero. */
  lemma {:induction false} DigitsMean(n: nat)
    ensures Denotes(Digits(n)) == n && (forall c <- Digits(n) :: '0' <= c <= '9')
    ensures n > 0 ==> Digits(n)[0] != '0'
  {
    var s := Digits(n);
    DigitsAreDigits(n);
    assert forall c <- s :: IsDigit(c);
    if n >= 10 {
      DigitsMean(n / 10);
      assert s[..|s| - 1] == Digits(n / 10);
    } else {
      assert s[..|s| - 1] == "";
    }
  }

  lemma DecimalInjective(v: int, w: int)
    requires Decimal(v) == Decimal(w)
    ensures v == w
  {
    var m, n := Abs(v), Abs(w);
    DigitsAreDigits(m);
    DigitsAreDigits(n);
    assert Decimal(v)[0] == '-' <==> v < 0;
    assert Decimal(w)[0] == '-' <==> w < 0;
    if v < 0 {
      assert Decimal(v)[1..] == Digits(m) && Decimal(w)[1..] == Digits(n);
    }
    DigitsInjective(m, n);
  }

  /** Printing then parsing is the identity on the 64-bit integers. */
  lemma PrintParse(v: Int64)
    ensures ParseLL(Decimal(v)) == Some(v)
  {
    var w :| ParseLL(Decimal(v)) == Some(w) && Decimal(w) == Decimal(v);
    DecimalInjective(v, w);
  }

  // ----- string2ll -----

  /** `v * 10 + d` in unsigned 64 bits, with the two overflow tests. */
  method AddDigit(v: nat, d: nat) returns (w: nat, ok: bool)
    requires v <= ULLONG_MAX && d < 10
    ensures ok <==> v * 10 + d <= ULLONG_MAX
    ensures ok ==> w == v * 10 + d
  {
    w := v;
    if w > ULLONG_MAX / 10 { return w, false; }
    w := w * 10;
    if w > ULLONG_MAX - d { return w, false; }
    w, ok := w + d, true;
  }

  /** Appends the digit at `plen`, unless the number would leave the unsigned 64-bit range. */
  method NextDigit(s: string, start: nat, plen: nat, v: nat) returns (w: nat, fits: bool)
    requires start < plen < |s| && start == (if s[0] == '-' then 1 else 0) && '1' <= s[start] <= '9'
    requires IsDigit(s[plen]) && 0 < v <= ULLONG_MAX && s[start..plen] == Digits(v)
    ensures if fits then 0 < w <= ULLONG_MAX && s[start..plen + 1] == Digits(w) else ParseLL(s) == None
  {
    var d := s[plen] as int - '0' as int;
    DigitsExtend(s, start, plen, v);
    w, fits := AddDigit(v, d);
    if !fits { TooLarge(s, start, plen + 1, v * 10 + d); }
  }

  /** The part of `string2ll` that reads digits, from the first one at `start` on: where it stops
      and what it has read, or `ok` false when the number leaves the unsigned 64-bit range. */
  method ScanDigits(s: string, start: nat) returns (v: nat, plen: nat, ok: bool)
    requires start < |s| && start == (if s[0] == '-' then 1 else 0) && '1' <= s[start] <= '9'
    ensures start < plen <= |s| && (ok && plen < |s| ==> !IsDigit(s[plen]))
    ensures if ok then s[start..plen] == Digits(v) else ParseLL(s) == None
  {
    v, plen, ok := s[start] as int - '0' as int, start + 1, true;
    while plen < |s| && IsDigit(s[plen])
      invariant start < plen <= |s| && 0 < v <= ULLONG_MAX && ok
      invariant s[start..plen] == Digits(v)
      decreases |s| - plen
    {
      var w, fits := NextDigit(s, start, plen, v);
      if !fits { return v, plen, false; }
      v, plen := w, plen + 1;
    }
  }

  /** `string2ll`: parsing then printing is the identity on what is accepted, and what is turned away
      is the text of no 64-bit integer. */
  method String2ll(s: string) returns (r: Option<int>)
    ensures r == ParseLL(s)
    ensures r.Some? ==> -LLONG_MAX - 1 <= r.value <= LLONG_MAX && Decimal(r.value) == s
    ensures r.None? ==> forall v: Int64 :: Decimal(v) != s
  {
    var slen := |s|;
    if slen == 0 {
      return None;
    }
    if slen == 1 && s[0] == '0' {
      PrintParse(0);
      return Some(0);
    }
    var negative := s[0] == '-';
    var start := if negative then 1 else 0;
    if start == slen || !('1' <= s[start] <= '9') {
      NotDecimal(s);
      return None;
    }
    var v, plen, ok := ScanDigits(s, start);
    if !ok {
      return None;
    }
    if plen < slen {
      NotDecimal(s);
      return None;
    }
    assert s[start..] == s[start..plen] == Digits(v);
    if v > LLONG_MAX + start {
      TooLarge(s, start, slen, v);
      return None;
    }
    var value := if negative then -v else v;
    assert s == Decimal(value);
    PrintParse(value);
    return Some(value);
  }

  /** The lines the first tests of `string2ll` turn away are no decimal texts. */
  lemma NotDecimal(s: string)
    requires |s| > 0
    requires var start := if s[0] == '-' then 1 else 0;
      || start == |s|
      || (s[start] == '0' && s != "0")
      || exists i | start <= i < |s| :: !IsDigit(s[i])
    ensures ParseLL(s) == None
  {
    forall v: Int64 ensures Decimal(v) != s {
      var n := Abs(v);
      DigitsAreDigits(n);
      var t := Decimal(v);
      assert v >= 0 ==> t[0] == Digits(n)[0];
      assert v < 0 ==> t[0] == '-' && t[1] == Digits(n)[0];
      assert v < 0 ==> forall i | 1 <= i < |t| :: t[i] == Digits(n)[i - 1];
    }
  }

  /** A line with a digit prefix beyond the 64-bit range is no 64-bit decimal. */
  lemma TooLarge(s: string, start: nat, end: nat, p: nat)
    requires start == (if s != [] && s[0] == '-' then 1 else 0) && start <= end <= |s|
    requires s[start..end] == Digits(p)
    requires p > if start == 1 then LLONG_MAX + 1 else LLONG_MAX
    ensures ParseLL(s) == None
  {
    forall v: Int64 ensures Decimal(v) != s {
      var n := Abs(v);
      DigitsAreDigits(n);
      if Decimal(v) == s {
        assert s[0] == '-' <==> v < 0;
        assert s[start..] == Digits(n);
        assert s[start..end] == s[start..][..end - start];
        assert Digits(p) <= Digits(n);
        DigitsPrefix(n, p);
      }
    }
  }

  // ----- sdsll2str -----

  function Reversed(s: string): (r: string)
    ensures |r| == |s|
  {
    if s == [] then [] else Reversed(s[1..]) + [s[0]]
  }

  lemma {:induction false} ReversedAt(s: string, k: nat)
    requires k < |s|
    ensures Reversed(s)[k] == s[|s| - 1 - k]
  {
    if k < |s| - 1 { ReversedAt(s[1..], k); }
  }

  lemma {:induction false} ReversedSnoc(s: string, c: char)
    ensures Reversed(s + [c]) == [c] + Reversed(s)
  {
    if s != [] {
      assert (s + [c])[1..] == s[1..] + [c];
      ReversedSnoc(s[1..], c);
    }
  }

  function Pow10(k: nat): (r: nat)
    ensures r >= 1
  {
    if k == 0 then 1 else 10 * Pow10(k - 1)
  }

  lemma {:induction false} DigitsLength(n: nat, k: nat)
    requires k > 0
    ensures n < Pow10(k) <==> |Digits(n)| <= k
  {
    assert Pow10(1) == 10;
    if n >= 10 && k > 1 { DigitsLength(n / 10, k - 1); }
  }

  const SDS_LLSTR_SIZE: nat := 21

  /** The digits still to be emitted when `v` is left. */
  function Leading(v: nat): string {
    if v == 0 then "" else Digits(v)
  }

  lemma LastDigit(v: nat)
    ensures Digits(v) == Leading(v / 10) + [DigitChar(v % 10)]
  {
  }

  lemma MoveOver(all: string, left: string, c: char, r: string)
    requires all == (left + [c]) + r
    ensures all == left + ([c] + r) && |all| == |left| + 1 + |r|
  {
  }

  /** A digit moves from what is left to what is done. */
  lemma LeadingStep(all: string, v: nat, done: string)
    requires all == Digits(v) + Reversed(done)
    ensures |done| < |all| && all == Leading(v / 10) + Reversed(done + [DigitChar(v % 10)])
  {
    LastDigit(v);
    ReversedSnoc(done, DigitChar(v % 10));
    MoveOver(all, Leading(v / 10), DigitChar(v % 10), Reversed(done));
  }

  /** `*p++ = c`. */
  method Emit(buf: array<char>, p: nat, c: char)
    requires p < buf.Length
    modifies buf
    ensures buf[..p + 1] == old(buf[..p]) + [c]
    ensures forall k | p < k < buf.Length :: buf[k] == old(buf[k])
  {
    buf[p] := c;
  }

  /** The digits of `n` in reverse, as the do-while loop of `sdsll2str` emits them. */
  method PutDigits(buf: array<char>, n: nat) returns (p: nat)
    requires buf.Length >= SDS_LLSTR_SIZE && |Digits(n)| <= 19
    modifies buf
    ensures p <= 19 && Reversed(buf[..p]) == Digits(n)
    ensures forall k | SDS_LLSTR_SIZE <= k < buf.Length :: buf[k] == old(buf[k])
  {
    var v := n;
    p := 0;
    ghost var done, all := "", Digits(n);
    while p == 0 || v != 0
      invariant v >= 0 && p == |done| <= |all| <= 19 && buf[..p] == done
      invariant all == (if p == 0 then Digits(v) else Leading(v)) + Reversed(done)
      invariant forall k | SDS_LLSTR_SIZE <= k < buf.Length :: buf[k] == old(buf[k])
      decreases v, p == 0
    {
      LeadingStep(all, v, done);
      Emit(buf, p, DigitChar(v % 10));
      done := done + [DigitChar(v % 10)];
      v := v / 10;
      p := p + 1;
    }
  }

  lemma MagnitudeLength(value: Int64)
    ensures |Digits(Abs(value))| <= 19
  {
    assert Pow10(8) == 100_000_000;
    assert Pow10(16) == 100_000_000 * Pow10(8);
    assert Pow10(19) == 1000 * Pow10(16);
    DigitsLength(Abs(value), 19);
  }

  /** `sdsll2str`: at most 20 characters and the terminator are written. */
  method Sdsll2str(buf: array<char>, value: Int64) returns (l: nat)
    requires buf.Length >= SDS_LLSTR_SIZE
    modifies buf
    ensures l < SDS_LLSTR_SIZE && buf[..l] == Decimal(value) && buf[l] == '\0'
    ensures forall k | SDS_LLSTR_SIZE <= k < buf.Length :: buf[k] == old(buf[k])
  {
    MagnitudeLength(value);
    l := PutDigits(buf, Abs(value));
    ghost var w := buf[..l];
    if value < 0 {
      buf[l] := '-';
      l := l + 1;
      assert buf[..l] == w + ['-'];
      ReversedSnoc(w, '-');
    }
    buf[l] := '\0';
    ReversePrefix(buf, l);
  }

  method ReversePrefix(buf: array<char>, l: nat)
    requires l <= buf.Length
    modifies buf
    ensures buf[..l] == Reversed(old(buf[..l]))
    ensures forall k | l <= k < buf.Length :: buf[k] == old(buf[k])
  {
    var s, p := 0, l - 1;
    while s < p
      invariant 0 <= s && p == l - 1 - s && s <= p + 2
      invariant forall k | 0 <= k < s :: buf[k] == old(buf[l - 1 - k]) && buf[l - 1 - k] == old(buf[k])
      invariant forall k | s <= k <= p :: buf[k] == old(buf[k])
      invariant forall k | l <= k < buf.Length :: buf[k] == old(buf[k])
    {
      buf[s], buf[p] := buf[p], buf[s];
      s, p := s + 1, p - 1;
    }
    ghost var was := old(buf[..l]);
    forall k | 0 <= k < l
      ensures buf[..l][k] == Reversed(was)[k]
    {
      ReversedAt(was, k);
    }
  }

  /** A 64-bit integer that is printed and read back. */
  method PrintAndParse(value: Int64) returns (r: Option<int>)
    ensures r == Some(value)
  {
    var buf := new char[SDS_LLSTR_SIZE];
    var l := Sdsll2str(buf, value);
    PrintParse(value);
    r := String2ll(buf[..l]);
  }

  /** A line that is read as an integer and printed again. */
  method ParseAndPrint(s: string) returns (t: Option<string>)
    ensures t.Some? ==> t.value == s
    ensures t.None? ==> forall v: Int64 :: Decimal(v) != s
  {
    var r := String2ll(s);
    if r.None? { return None; }
    var buf := new char[SDS_LLSTR_SIZE];
    var l := Sdsll2str(buf, r.value);
    t := Some(buf[..l]);
  }

  // ----- countDigits -----

  lemma DigitsDrop4(v: nat)
    requires v >= 10000
    ensures |Digits(v)| == |Digits(v / 10000)| + 4
  {
    var a, b, c := v / 10, v / 100, v / 1000;
    assert a / 10 == b && b / 10 == c && c / 10 == v / 10000;
    assert Digits(a) == Digits(b) + [DigitChar(a % 10)];
    assert Digits(b) == Digits(c) + [DigitChar(b % 10)];
  }

  method CountDigits(v: nat) returns (r: nat)
    ensures r == |Digits(v)|
  {
    var w, result := v, 1;
    while true
      invariant result + |Digits(w)| == |Digits(v)| + 1
      decreases w
    {
      DigitsLength(w, 1);
      DigitsLength(w, 2);
      DigitsLength(w, 3);
      DigitsLength(w, 4);
      if w < 10 { return result; }
      if w < 100 { return result + 1; }
      if w < 1000 { return result + 2; }
      if w < 10000 { return result + 3; }
      DigitsDrop4(w);
      w := w / 10000;
      result := result + 4;
    }
  }
}
