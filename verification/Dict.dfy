/** The chained hash table of dict.c, for any hash function: equal keys are the same key. */
module Dictionaries {
  import opened Bits

  /** A key is a byte string, a value a pointer. */
  type Key = string
  type Value = nat

  const DICT_HT_INITIAL_SIZE: nat := 4
  const LONG_MAX: nat := 0x7FFF_FFFF_FFFF_FFFF

  class Entry {
    const key: Key
    var val: Value
    var next: Entry?

    constructor (key: Key, val: Value, next: Entry?)
      ensures this.key == key && this.val == val && this.next == next
    {
      this.key, this.val, this.next := key, val, next;
    }
  }

  // ----- chains and buckets -----

  function EntryAt(c: seq<Entry>, i: nat): Entry? {
    if i < |c| then c[i] else null
  }

  ghost predicate IsChain(head: Entry?, c: seq<Entry>)
    reads c`next
  {
    head == EntryAt(c, 0) && forall i | 0 <= i < |c| :: c[i].next == EntryAt(c, i + 1)
  }

  /** The bucket of a key among `size` of them: its hash under the mask. */
  function Home(hash: Key -> nat, key: Key, size: nat): (b: nat)
    requires size > 0
    ensures b < size
  {
    And(hash(key), size - 1)
  }

  /** The chain of bucket b: entries of `m`, no one twice, that belong into the bucket. */
  ghost predicate InBucket(hash: Key -> nat, c: seq<Entry>, b: nat, size: nat, m: map<Key, Entry>) {
    && size > 0
    && (forall i | 0 <= i < |c| :: c[i].key in m && m[c[i].key] == c[i] && Home(hash, c[i].key, size) == b)
    && (forall i, j | 0 <= i < j < |c| :: c[i] != c[j])
  }

  /** A table: its slots, the chains that start in them, and all entries by their keys. */
  datatype Buckets = Buckets(heads: seq<Entry?>, chains: seq<seq<Entry>>, entries: map<Key, Entry>)

  /** Bucket b's chain consists of the entries whose keys belong there. */
  ghost predicate Filled(hash: Key -> nat, s: Buckets, b: nat) {
    && b < |s.heads| == |s.chains| && InBucket(hash, s.chains[b], b, |s.heads|, s.entries)
    && (forall k | k in s.entries && Home(hash, k, |s.heads|) == b :: s.entries[k] in s.chains[b])
  }

  ghost predicate BucketOk(hash: Key -> nat, s: Buckets, b: nat)
    reads s.entries.Values`next
  {
    Filled(hash, s, b) && IsChain(s.heads[b], s.chains[b])
  }

  ghost predicate FirstBuckets(hash: Key -> nat, s: Buckets, n: nat)
    reads s.entries.Values`next
  {
    n > 0 ==> BucketOk(hash, s, n - 1) && FirstBuckets(hash, s, n - 1)
  }

  /** The buckets hold exactly the entries, each one once, in the bucket of its key. */
  ghost predicate Holds(hash: Key -> nat, s: Buckets)
    reads s.entries.Values`next
  {
    && |s.heads| == |s.chains| && (|s.heads| == 0 ==> s.entries.Keys == {})
    && (forall k | k in s.entries :: s.entries[k].key == k)
    && FirstBuckets(hash, s, |s.heads|)
  }

  lemma {:induction false} BucketAt(hash: Key -> nat, s: Buckets, n: nat, b: nat)
    requires FirstBuckets(hash, s, n) && b < n
    ensures BucketOk(hash, s, b)
  {
    if b < n - 1 { BucketAt(hash, s, n - 1, b); }
  }

  lemma {:induction false} BucketsFrom(hash: Key -> nat, s: Buckets, n: nat)
    requires forall b | 0 <= b < n :: BucketOk(hash, s, b)
    ensures FirstBuckets(hash, s, n)
  {
    if n > 0 { BucketsFrom(hash, s, n - 1); }
  }

  /** Without the first entry of bucket b, which `next` followed. */
  ghost function Pop(s: Buckets, b: nat, next: Entry?): Buckets
    requires b < |s.chains| == |s.heads| && s.chains[b] != []
  {
    Buckets(s.heads[b := next], s.chains[b := s.chains[b][1..]], s.entries - {s.chains[b][0].key})
  }

  /** Without the i-th entry of bucket b, which is not its first one. */
  ghost function Drop(s: Buckets, b: nat, i: nat): Buckets
    requires b < |s.chains| == |s.heads| && i < |s.chains[b]|
  {
    Buckets(s.heads, s.chains[b := s.chains[b][..i] + s.chains[b][i + 1..]], s.entries - {s.chains[b][i].key})
  }

  /** With an entry at the head of its bucket. */
  ghost function Push(hash: Key -> nat, s: Buckets, e: Entry): Buckets
    requires 0 < |s.chains| == |s.heads|
  {
    var b := Home(hash, e.key, |s.heads|);
    Buckets(s.heads[b := e], s.chains[b := [e] + s.chains[b]], s.entries[e.key := e])
  }

  lemma ChainTail(head: Entry?, c: seq<Entry>)
    requires IsChain(head, c) && c != []
    ensures head == c[0] && IsChain(c[0].next, c[1..])
  {
  }

  lemma BucketWithout(hash: Key -> nat, c: seq<Entry>, b: nat, size: nat, m: map<Key, Entry>, k: Key)
    requires InBucket(hash, c, b, size, m) && k in m && m[k] !in c
    ensures InBucket(hash, c, b, size, m - {k})
  {
  }

  lemma BucketTail(hash: Key -> nat, c: seq<Entry>, b: nat, size: nat, m: map<Key, Entry>)
    requires InBucket(hash, c, b, size, m) && c != []
    ensures InBucket(hash, c[1..], b, size, m) && c[0] !in c[1..]
  {
  }

  lemma BucketWith(hash: Key -> nat, c: seq<Entry>, b: nat, size: nat, m: map<Key, Entry>,
                         e: Entry)
    requires InBucket(hash, c, b, size, m) && e.key !in m
    ensures InBucket(hash, c, b, size, m[e.key := e])
    ensures b == Home(hash, e.key, size) ==> InBucket(hash, [e] + c, b, size, m[e.key := e])
  {
  }

  lemma ChainCons(head: Entry?, c: seq<Entry>, e: Entry)
    requires IsChain(head, c) && e.next == head
    ensures IsChain(e, [e] + c)
  {
  }

  lemma NotStored(hash: Key -> nat, s: Buckets, e: Entry)
    requires Holds(hash, s) && e.key !in s.entries
    ensures e !in s.entries.Values
  {
  }

  lemma Popped(hash: Key -> nat, s: Buckets, b: nat)
    requires Holds(hash, s) && b < |s.chains| && s.chains[b] != []
    ensures s.heads[b] == s.chains[b][0] && s.chains[b][0].key in s.entries
    ensures s.entries[s.chains[b][0].key] == s.chains[b][0]
    ensures Holds(hash, Pop(s, b, s.chains[b][0].next))
  {
    var n := |s.heads|;
    BucketAt(hash, s, n, b);
    ChainTail(s.heads[b], s.chains[b]);
    BucketTail(hash, s.chains[b], b, n, s.entries);
    var e := s.chains[b][0];
    var s' := Pop(s, b, e.next);
    forall c | 0 <= c < n
      ensures BucketOk(hash, s', c)
    {
      BucketAt(hash, s, n, c);
      BucketWithout(hash, s'.chains[c], c, n, s.entries, e.key);
    }
    BucketsFrom(hash, s', n);
  }

  lemma Pushed(hash: Key -> nat, s: Buckets, e: Entry)
    requires Holds(hash, s) && |s.heads| > 0
    requires e.key !in s.entries && e.next == s.heads[Home(hash, e.key, |s.heads|)]
    ensures Holds(hash, Push(hash, s, e))
  {
    var b, n := Home(hash, e.key, |s.heads|), |s.heads|;
    var s' := Push(hash, s, e);
    BucketAt(hash, s, n, b);
    ChainCons(s.heads[b], s.chains[b], e);
    forall c | 0 <= c < n
      ensures BucketOk(hash, s', c)
    {
      BucketAt(hash, s, n, c);
      BucketWith(hash, s.chains[c], c, n, s.entries, e);
    }
    BucketsFrom(hash, s', n);
  }

  lemma BucketDrop(hash: Key -> nat, c: seq<Entry>, b: nat, size: nat, m: map<Key, Entry>, i: nat)
    requires InBucket(hash, c, b, size, m) && i < |c|
    ensures InBucket(hash, c[..i] + c[i + 1..], b, size, m) && c[i] !in c[..i] + c[i + 1..]
  {
  }

  /** A chain whose (i - 1)-th entry leads past the i-th one. */
  ghost predicate Shortened(head: Entry?, c: seq<Entry>, i: nat)
    reads c`next
  {
    && head == EntryAt(c, 0) && 0 < i < |c| && c[i - 1].next == EntryAt(c, i + 1)
    && forall j | 0 <= j < |c| && j != i - 1 :: c[j].next == EntryAt(c, j + 1)
  }

  lemma ChainDrop(head: Entry?, c: seq<Entry>, i: nat)
    requires Shortened(head, c, i)
    ensures IsChain(head, c[..i] + c[i + 1..])
  {
    var d := c[..i] + c[i + 1..];
    forall j | 0 <= j < |d|
      ensures d[j].next == EntryAt(d, j + 1)
    {
      if j >= i { assert d[j] == c[j + 1]; }
    }
  }

  lemma FilledAfterDrop(hash: Key -> nat, s: Buckets, b: nat, i: nat, c: nat)
    requires Filled(hash, s, b) && Filled(hash, s, c) && i < |s.chains[b]|
    requires forall k | k in s.entries :: s.entries[k].key == k
    ensures Filled(hash, Drop(s, b, i), c)
  {
    BucketDrop(hash, s.chains[b], b, |s.heads|, s.entries, i);
    var s', k := Drop(s, b, i), s.chains[b][i].key;
    assert s.entries[k] == s.chains[b][i];
    BucketWithout(hash, s'.chains[c], c, |s.heads|, s.entries, k);
  }

  /** Bucket b without its i-th entry, once the links go past it. */
  lemma Unlinked(hash: Key -> nat, s: Buckets, b: nat, i: nat)
    requires |s.heads| == |s.chains| && forall k | k in s.entries :: s.entries[k].key == k
    requires forall c | 0 <= c < |s.heads| :: Filled(hash, s, c)
    requires forall c | 0 <= c < |s.heads| && c != b :: IsChain(s.heads[c], s.chains[c])
    requires b < |s.chains| && Shortened(s.heads[b], s.chains[b], i)
    ensures Holds(hash, Drop(s, b, i))
  {
    var s' := Drop(s, b, i);
    ChainDrop(s.heads[b], s.chains[b], i);
    forall c | 0 <= c < |s.heads|
      ensures BucketOk(hash, s', c)
    {
      FilledAfterDrop(hash, s, b, i, c);
    }
    BucketsFrom(hash, s', |s.heads|);
  }

  /** Lets the entry before the i-th one of bucket h lead past it. */
  method Bypass(hash: Key -> nat, prevde: Entry, de: Entry, ghost s: Buckets, ghost h: nat,
                      ghost i: nat)
    requires Holds(hash, s) && h < |s.chains| && 0 < i < |s.chains[h]|
    requires prevde == s.chains[h][i - 1] && de == s.chains[h][i]
    modifies prevde`next
    ensures Holds(hash, Drop(s, h, i))
  {
    forall b | 0 <= b < |s.heads|
      ensures Filled(hash, s, b) && IsChain(s.heads[b], s.chains[b]) && (b != h ==> prevde !in s.chains[b])
    {
      BucketAt(hash, s, |s.heads|, b);
      BucketAt(hash, s, |s.heads|, h);
    }
    assert Filled(hash, s, h);
    prevde.next := de.next;
    forall b | 0 <= b < |s.heads| && b != h
      ensures IsChain(s.heads[b], s.chains[b])
    {
      assert Filled(hash, s, b);
    }
    Unlinked(hash, s, h, i);
  }

  lemma Emptied(hash: Key -> nat, s: Buckets)
    requires Holds(hash, s) && forall b | 0 <= b < |s.chains| :: s.chains[b] == []
    ensures forall k | k in s.entries :: false
  {
    forall k | k in s.entries
      ensures false
    {
      BucketAt(hash, s, |s.heads|, Home(hash, k, |s.heads|));
    }
  }

  // ----- the number of entries -----

  function Total<T>(chains: seq<seq<T>>): (n: nat) {
    if chains == [] then 0 else |chains[0]| + Total(chains[1..])
  }

  lemma {:induction false} TotalUpdate<T>(chains: seq<seq<T>>, b: nat, c: seq<T>)
    requires b < |chains|
    ensures Total(chains[b := c]) + |chains[b]| == Total(chains) + |c|
  {
    if b == 0 {
      assert chains[0 := c][1..] == chains[1..];
    } else {
      assert chains[b := c][1..] == chains[1..][b - 1 := c];
      TotalUpdate(chains[1..], b - 1, c);
    }
  }

  lemma {:induction false} TotalEmpty<T>(chains: seq<seq<T>>)
    ensures Total(chains) == 0 <==> forall b | 0 <= b < |chains| :: chains[b] == []
  {
    if chains != [] {
      TotalEmpty(chains[1..]);
      assert (forall b | 0 <= b < |chains| :: chains[b] == []) ==>
             forall b | 0 <= b < |chains[1..]| :: chains[1..][b] == [];
      assert forall b | 0 < b < |chains| :: chains[b] == chains[1..][b - 1];
    }
  }

  // ----- moving entries from one table to another -----

  /** Two tables share out the entries `all`. */
  ghost predicate Parts(all: map<Key, Entry>, from: map<Key, Entry>, to: map<Key, Entry>) {
    && (forall k | k in all :: (k in from) != (k in to))
    && (forall k | k in from :: k in all && all[k] == from[k])
    && (forall k | k in to :: k in all && all[k] == to[k])
  }

  /** Relinks an entry that is in neither table. */
  method SetNext(hash: Key -> nat, e: Entry, next: Entry?,
                       ghost s: Buckets, ghost t: Buckets)
    requires Holds(hash, s) && Holds(hash, t) && e.key !in s.entries && e.key !in t.entries
    modifies e`next
    ensures e.next == next && Holds(hash, s) && Holds(hash, t)
  {
    NotStored(hash, s, e);
    NotStored(hash, t, e);
    e.next := next;
  }

  /** Relinks the first entry of bucket i of `from` to the head of its bucket in `ntable`. */
  method MoveEntry(hash: Key -> nat, he: Entry, ntable: array<Entry?>, i: nat,
                         ghost from: Buckets, ghost to: Buckets)
    returns (nextHe: Entry?)
    requires Holds(hash, from) && Holds(hash, to) && to.heads == ntable[..] && ntable.Length > 0
    requires from.entries.Keys !! to.entries.Keys
    requires i < |from.chains| && from.chains[i] != [] && from.heads[i] == he
    modifies ntable, he`next
    ensures nextHe == old(he.next) && ntable[..] == Push(hash, to, he).heads
    ensures Holds(hash, Pop(from, i, nextHe)) && Holds(hash, Push(hash, to, he))
  {
    Popped(hash, from, i);
    nextHe := he.next;
    var h := And(hash(he.key), ntable.Length - 1);
    SetNext(hash, he, ntable[h], to, Pop(from, i, nextHe));
    Pushed(hash, to, he);
    ntable[h] := he;
  }

  // ----- the table -----

  ghost predicate PowerOfTwo(n: nat) {
    exists k :: n == Pow2(k)
  }

  /** With a power of two of buckets the mask takes the remainder. */
  lemma HomeIsRemainder(hash: Key -> nat, key: Key, size: nat)
    requires size > 0 && PowerOfTwo(size)
    ensures Home(hash, key, size) == hash(key) % size
  {
    var k: nat :| size == Pow2(k);
    MaskIsRemainder(hash(key), k);
  }

  /** Doubling i until it is large enough. */
  function NextPowerFrom(size: nat, i: nat): (n: nat)
    requires i > 0
    ensures n >= size && n >= i
    decreases size - i
  {
    if i >= size then i else NextPowerFrom(size, 2 * i)
  }

  method NextPower(size: nat) returns (i: nat)
    ensures i == if size >= LONG_MAX then LONG_MAX else NextPowerFrom(size, DICT_HT_INITIAL_SIZE)
  {
    i := DICT_HT_INITIAL_SIZE;
    if size >= LONG_MAX { return LONG_MAX; }
    while i < size
      invariant i > 0 && NextPowerFrom(size, i) == NextPowerFrom(size, DICT_HT_INITIAL_SIZE)
      decreases size - i
    {
      i := i * 2;
    }
  }

  lemma {:induction false} NextPowerIsPower(size: nat, e: nat)
    ensures PowerOfTwo(NextPowerFrom(size, Pow2(e)))
    decreases size - Pow2(e)
  {
    if Pow2(e) < size {
      NextPowerIsPower(size, e + 1);
    } else {
      assert NextPowerFrom(size, Pow2(e)) == Pow2(e);
    }
  }

  /** It is the least power of two that is no less than the size nor than the one it starts from. */
  lemma {:induction false} NextPowerLeast(size: nat, e: nat, k: nat)
    requires Pow2(k) >= size && k >= e
    ensures NextPowerFrom(size, Pow2(e)) <= Pow2(k)
    decreases size - Pow2(e)
  {
    if Pow2(e) < size {
      Pow2Monotone(e, k);
      NextPowerLeast(size, e + 1, k);
    } else {
      Pow2Monotone(e, k);
    }
  }

  /** A power of two is left as it is. */
  lemma NextPowerOf(n: nat)
    requires PowerOfTwo(n) && n >= DICT_HT_INITIAL_SIZE
    ensures NextPowerFrom(n, DICT_HT_INITIAL_SIZE) == n
  {
    var k: nat :| n == Pow2(k);
    assert Pow2(2) == DICT_HT_INITIAL_SIZE;
    Pow2Monotone(k, 2);
    NextPowerLeast(n, 2, k);
  }

  lemma NextPowerValid(size: nat)
    ensures var n := NextPowerFrom(size, DICT_HT_INITIAL_SIZE);
            PowerOfTwo(n) && n >= size && n >= DICT_HT_INITIAL_SIZE
  {
    assert Pow2(2) == DICT_HT_INITIAL_SIZE;
    NextPowerIsPower(size, 2);
  }

  lemma Doubled(n: nat)
    requires PowerOfTwo(n)
    ensures PowerOfTwo(2 * n)
  {
    var k: nat :| n == Pow2(k);
    assert 2 * n == Pow2(k + 1);
  }

  lemma {:induction false} Pow2Monotone(a: nat, b: nat)
    ensures a <= b ==> Pow2(a) <= Pow2(b)
    ensures a > b ==> Pow2(a) > Pow2(b)
  {
    if a > 0 && b > 0 { Pow2Monotone(a - 1, b - 1); }
  }

  lemma MovedOne(all: map<Key, Entry>, from: map<Key, Entry>, to: map<Key, Entry>, k: Key)
    requires Parts(all, from, to) && k in from
    ensures Parts(all, from - {k}, to[k := from[k]])
  {
  }

  lemma MovedAll(all: map<Key, Entry>, from: map<Key, Entry>, to: map<Key, Entry>)
    requires Parts(all, from, to) && forall k | k in all :: k !in from
    ensures to == all
  {
  }

  /** In the middle of a rehash: the entries not yet moved, and those in the new table. */
  ghost predicate Moving(hash: Key -> nat, all: map<Key, Entry>, from: Buckets, to: Buckets)
    reads from.entries.Values`next, to.entries.Values`next
  {
    Holds(hash, from) && Holds(hash, to) && |to.heads| > 0 && Parts(all, from.entries, to.entries)
  }

  ghost predicate SameBut<T>(s: seq<T>, t: seq<T>, i: nat) {
    |s| == |t| && forall b | 0 <= b < |s| && b != i :: s[b] == t[b]
  }

  lemma Counted(hash: Key -> nat, from: Buckets, to: Buckets, i: nat, next: Entry?)
    requires i < |from.chains| == |from.heads| && from.chains[i] != [] && 0 < |to.chains| == |to.heads|
    ensures Total(Pop(from, i, next).chains) + 1 == Total(from.chains)
    ensures Total(Push(hash, to, from.chains[i][0]).chains) == Total(to.chains) + 1
  {
    var e := from.chains[i][0];
    var h := Home(hash, e.key, |to.heads|);
    TotalUpdate(from.chains, i, from.chains[i][1..]);
    TotalUpdate(to.chains, h, [e] + to.chains[h]);
  }

  /** One turn of the inner loop: both tables after the entry moved, and how many are in each. */
  method MoveOne(hash: Key -> nat, he: Entry, ntable: array<Entry?>, i: nat,
                       ghost all: map<Key, Entry>, ghost from: Buckets, ghost to: Buckets)
    returns (nextHe: Entry?, ghost from': Buckets, ghost to': Buckets)
    requires Moving(hash, all, from, to) && to.heads == ntable[..]
    requires i < |from.chains| && from.chains[i] != [] && from.heads[i] == he
    modifies ntable, he`next
    ensures Moving(hash, all, from', to') && to'.heads == ntable[..]
    ensures Total(from'.chains) + 1 == Total(from.chains) && Total(to'.chains) == Total(to.chains) + 1
    ensures SameBut(from.chains, from'.chains, i) && |from'.chains[i]| + 1 == |from.chains[i]|
    ensures SameBut(from.heads, from'.heads, i) && from'.heads[i] == nextHe
  {
    Popped(hash, from, i);
    nextHe := MoveEntry(hash, he, ntable, i, from, to);
    MovedOne(all, from.entries, to.entries, he.key);
    Counted(hash, from, to, i, nextHe);
    from', to' := Pop(from, i, nextHe), Push(hash, to, he);
  }

  /** Moves what is left of bucket i, from `first` on, and counts the entries down. */
  method MoveBucket(hash: Key -> nat, first: Entry?, ntable: array<Entry?>, i: nat, count: nat,
                          ghost all: map<Key, Entry>, ghost from: Buckets, ghost to: Buckets)
    returns (used: nat, ghost from': Buckets, ghost to': Buckets)
    requires Moving(hash, all, from, to) && to.heads == ntable[..]
    requires i < |from.chains| && from.heads[i] == first && count == Total(from.chains)
    modifies ntable, all.Values`next
    ensures Moving(hash, all, from', to') && to'.heads == ntable[..] && used == Total(from'.chains)
    ensures used + Total(to'.chains) == count + Total(to.chains)
    ensures SameBut(from.chains, from'.chains, i) && from'.chains[i] == [] && SameBut(from.heads, from'.heads, i)
  {
    var he := first;
    used, from', to' := count, from, to;
    while he != null
      invariant Moving(hash, all, from', to') && to'.heads == ntable[..] && used == Total(from'.chains)
      invariant used + Total(to'.chains) == count + Total(to.chains)
      invariant SameBut(from.chains, from'.chains, i) && SameBut(from.heads, from'.heads, i) && from'.heads[i] == he
      decreases |from'.chains[i]|
    {
      BucketAt(hash, from', |from'.heads|, i);
      he, from', to' := MoveOne(hash, he, ntable, i, all, from', to');
      used := used - 1;
    }
    BucketAt(hash, from', |from'.heads|, i);
  }

  lemma NoneMoved(hash: Key -> nat, from: Buckets, to: Buckets)
    requires Holds(hash, from) && 0 < |to.heads| == |to.chains| && to.entries == map[]
    requires forall b | 0 <= b < |to.chains| :: to.chains[b] == [] && to.heads[b] == null
    ensures Moving(hash, from.entries, from, to) && Total(to.chains) == 0
  {
    TotalEmpty(to.chains);
    assert forall b | 0 <= b < |to.chains| :: BucketOk(hash, to, b);
    BucketsFrom(hash, to, |to.chains|);
  }

  lemma AllMoved(hash: Key -> nat, all: map<Key, Entry>, from: Buckets, to: Buckets)
    requires Moving(hash, all, from, to)
    requires Total(from.chains) == 0 || forall b | 0 <= b < |from.chains| :: from.chains[b] == []
    ensures to.entries == all && Total(from.chains) == 0
  {
    TotalEmpty(from.chains);
    Emptied(hash, from);
    MovedAll(all, from.entries, to.entries);
  }

  /** Moves all entries to `ntable`, bucket by bucket, and counts them down. */
  method Rehash(hash: Key -> nat, table: array<Entry?>, count: nat, ntable: array<Entry?>,
                      ghost all: map<Key, Entry>, ghost start: Buckets)
    returns (used: nat, ghost to: Buckets)
    requires Holds(hash, start) && start.heads == table[..] && start.entries == all && count == Total(start.chains)
    requires ntable.Length > 0 && ntable != table && forall b | 0 <= b < ntable.Length :: ntable[b] == null
    modifies ntable, all.Values`next
    ensures Holds(hash, to) && to.heads == ntable[..] && to.entries == all
    ensures used == 0 && Total(to.chains) == count
  {
    ghost var from := start;
    used, to := count, Buckets(ntable[..], seq(ntable.Length, _ => []), map[]);
    NoneMoved(hash, from, to);
    var i := 0;
    while i < table.Length && used > 0
      invariant 0 <= i <= table.Length
      invariant Moving(hash, all, from, to) && to.heads == ntable[..]
      invariant |from.chains| == table.Length && used == Total(from.chains) && used + Total(to.chains) == count
      invariant forall b | 0 <= b < i :: from.chains[b] == []
      invariant forall b | i <= b < table.Length :: from.heads[b] == start.heads[b]
    {
      used, from, to := MoveBucket(hash, table[i], ntable, i, used, all, from, to);
      i := i + 1;
    }
    AllMoved(hash, all, from, to);
  }

  /** The index of the first entry with the key, or the length of the chain. */
  function FirstWith(c: seq<Entry>, key: Key): (i: nat)
    ensures i <= |c| && forall j | 0 <= j < i :: c[j].key != key
    ensures i < |c| ==> c[i].key == key
  {
    if c == [] || c[0].key == key then 0 else 1 + FirstWith(c[1..], key)
  }

  /** Walks along a chain to the first entry with the key. */
  method Search(key: Key, head: Entry?, ghost c: seq<Entry>) returns (he: Entry?)
    requires IsChain(head, c)
    ensures he == EntryAt(c, FirstWith(c, key))
  {
    he := head;
    ghost var i := 0;
    while he != null
      invariant 0 <= i <= FirstWith(c, key) && he == EntryAt(c, i)
      decreases |c| - i
    {
      if key == he.key { return; }
      he := he.next;
      i := i + 1;
    }
  }

  /** A new table of `realsize` slots with all entries. */
  method NewTable(hash: Key -> nat, table: array<Entry?>, count: nat, realsize: nat,
                        ghost all: map<Key, Entry>, ghost start: Buckets)
    returns (ntable: array<Entry?>, used: nat, ghost to: Buckets)
    requires Holds(hash, start) && start.heads == table[..] && start.entries == all && count == Total(start.chains)
    requires realsize > 0
    modifies all.Values`next
    ensures fresh(ntable) && ntable.Length == realsize
    ensures Holds(hash, to) && to.heads == ntable[..] && to.entries == all
    ensures used == 0 && Total(to.chains) == count
  {
    ntable := new Entry?[realsize](_ => null);
    used, to := Rehash(hash, table, count, ntable, all, start);
  }

  method TakeFirst(hash: Key -> nat, table: array<Entry?>, de: Entry, h: nat, ghost s: Buckets)
    requires Holds(hash, s) && table[..] == s.heads && h < |s.chains| && s.chains[h] != [] && de == s.chains[h][0]
    modifies table
    ensures Holds(hash, Pop(s, h, de.next)) && table[..] == s.heads[h := de.next]
  {
    Popped(hash, s, h);
    table[h] := de.next;
  }

  lemma Stored(hash: Key -> nat, s: Buckets, b: nat, i: nat)
    requires Holds(hash, s) && b < |s.chains| && i < |s.chains[b]|
    ensures s.chains[b][i] in s.entries.Values
  {
    BucketAt(hash, s, |s.heads|, b);
    assert s.entries[s.chains[b][i].key] == s.chains[b][i];
  }

  lemma WithoutFirst(c: seq<Entry>)
    requires c != []
    ensures c[..0] + c[1..] == c[1..]
  {
  }

  /** Relinks around an entry that is not the first one of its bucket. */
  method TakeInner(hash: Key -> nat, prevde: Entry, de: Entry, ghost s: Buckets, ghost h: nat, ghost i: nat,
                   ghost all: set<Entry>)
    requires Holds(hash, s) && h < |s.chains| && 0 < i < |s.chains[h]|
    requires prevde == s.chains[h][i - 1] && de == s.chains[h][i] && prevde in all
    modifies all`next
    ensures Holds(hash, Drop(s, h, i))
    ensures forall e | e in all && e != prevde :: e.next == old(e.next)
  {
    Bypass(hash, prevde, de, s, h, i);
  }

  /** Walks along a chain to an entry with the key, and keeps the entry before it. */
  method SearchWithPrevious(key: Key, head: Entry?, ghost c: seq<Entry>) returns (prevde: Entry?, de: Entry?)
    requires IsChain(head, c)
    ensures var i := FirstWith(c, key); de == EntryAt(c, i) && prevde == if i == 0 then null else c[i - 1]
  {
    prevde, de := null, head;
    ghost var i := 0;
    while de != null
      invariant 0 <= i <= FirstWith(c, key) && de == EntryAt(c, i) && prevde == if i == 0 then null else c[i - 1]
      decreases |c| - i
    {
      if key == de.key { return; }
      prevde := de;
      de := de.next;
      i := i + 1;
    }
  }

  /** The bucket h has lost its first entry with the key, and the others are what they were. */
  ghost predicate Removed(was: seq<seq<Entry>>, now: seq<seq<Entry>>, h: nat, key: Key) {
    && h < |was| && FirstWith(was[h], key) < |was[h]| && SameBut(was, now, h)
    && now[h] == was[h][..FirstWith(was[h], key)] + was[h][FirstWith(was[h], key) + 1..]
  }

  /** The entry that leads to the one with the key, if there are both. */
  ghost function Previous(hash: Key -> nat, chains: seq<seq<Entry>>, key: Key): Entry? {
    if chains == [] then null
    else
      var c := chains[Home(hash, key, |chains|)];
      if FirstWith(c, key) == 0 then null else c[FirstWith(c, key) - 1]
  }

  /** The size before an entry is added: a full table is doubled. */
  function Roomy(size: nat, used: nat): nat {
    if size == 0 then DICT_HT_INITIAL_SIZE else if used == size then 2 * size else size
  }

  /** The size of a table to which n entries were added, one by one. */
  function SizeAfter(n: nat): nat {
    if n == 0 then 0 else Roomy(SizeAfter(n - 1), n - 1)
  }

  /** It is the least power of two from 4 on that is large enough. */
  lemma {:induction false} GrowthIsLeast(n: nat)
    requires n > 0
    ensures SizeAfter(n) == NextPowerFrom(n, DICT_HT_INITIAL_SIZE)
  {
    if n == 1 {
      assert SizeAfter(0) == 0;
    } else {
      GrowthIsLeast(n - 1);
      PowerStep(n - 1);
    }
  }

  lemma PowerStep(n: nat)
    requires n > 0
    ensures var s := NextPowerFrom(n, DICT_HT_INITIAL_SIZE);
            NextPowerFrom(n + 1, DICT_HT_INITIAL_SIZE) == if n == s then 2 * s else s
  {
    var s, t := NextPowerFrom(n, DICT_HT_INITIAL_SIZE), NextPowerFrom(n + 1, DICT_HT_INITIAL_SIZE);
    assert Pow2(2) == DICT_HT_INITIAL_SIZE;
    NextPowerValid(n);
    NextPowerValid(n + 1);
    var j: nat :| s == Pow2(j);
    var k: nat :| t == Pow2(k);
    Pow2Monotone(j, 2);
    Pow2Monotone(k, 2);
    Pow2Monotone(j, k);
    NextPowerLeast(n, 2, k);
    if n == s {
      assert Pow2(j + 1) == 2 * s;
      NextPowerLeast(n + 1, 2, j + 1);
      Pow2Monotone(j + 1, k);
    } else {
      NextPowerLeast(n + 1, 2, j);
    }
  }

  class Dict {
    const hash: Key -> nat
    var table: array<Entry?>
    var size: nat
    var sizemask: nat
    var used: nat
    ghost var chains: seq<seq<Entry>>
    ghost var entries: map<Key, Entry>

    ghost function State(): Buckets
      reads this, table
    {
      Buckets(table[..], chains, entries)
    }

    ghost predicate Valid()
      reads this, table, entries.Values`next
    {
      && table.Length == size && (size == 0 || (size >= DICT_HT_INITIAL_SIZE && PowerOfTwo(size)))
      && sizemask == (if size == 0 then 0 else size - 1)
      && used == Total(chains) <= size && Holds(hash, State())
    }

    lemma ChainAt(b: nat)
      requires Valid() && b < size
      ensures IsChain(table[b], chains[b])
    {
      BucketAt(hash, State(), size, b);
    }

    /** The finite map that the table stands for. */
    ghost function Contents(): map<Key, Value>
      reads `entries, entries.Values`val
    {
      map k | k in entries :: entries[k].val
    }

    lemma ContentsIs(m: map<Key, Value>)
      requires forall k | k in entries :: k in m && m[k] == entries[k].val
      requires forall k | k in m :: k in entries
      ensures Contents() == m
    {
    }

    constructor (hash: Key -> nat)
      ensures Valid() && Contents() == map[] && this.hash == hash
    {
      this.hash := hash;
      table := new Entry?[0];
      size, sizemask, used := 0, 0, 0;
      chains, entries := [], map[];
    }

    /** Records what the table now holds. */
    ghost method Note(s: Buckets)
      requires Holds(hash, s) && s.heads == table[..] && used == Total(s.chains) <= size == table.Length
      requires sizemask == (if size == 0 then 0 else size - 1)
      requires size == 0 || (size >= DICT_HT_INITIAL_SIZE && PowerOfTwo(size))
      modifies `chains, `entries
      ensures Valid() && chains == s.chains && entries == s.entries
    {
      chains, entries := s.chains, s.entries;
      assert State() == s;
    }

    method SetTable(ntable: array<Entry?>, nused: nat)
      requires ntable.Length > 0
      modifies `table, `size, `sizemask, `used
      ensures table == ntable && size == ntable.Length && sizemask == size - 1 && used == nused
    {
      table, size, sizemask, used := ntable, ntable.Length, ntable.Length - 1, nused;
    }

    /** Makes `ntable` the table, once it holds all entries. */
    method Remap(ntable: array<Entry?>, nused: nat, ghost to: Buckets)
      requires Holds(hash, to) && to.heads == ntable[..] && to.entries == entries && nused == Total(to.chains)
      requires PowerOfTwo(ntable.Length) && ntable.Length >= DICT_HT_INITIAL_SIZE && nused <= ntable.Length
      modifies this
      ensures Valid() && entries == old(entries) && used == nused && table == ntable
    {
      SetTable(ntable, nused);
      Note(to);
    }

    /** Moves all entries to a new table of `realsize` slots. */
    method MoveTo(realsize: nat)
      requires Valid() && PowerOfTwo(realsize) && realsize >= DICT_HT_INITIAL_SIZE && used <= realsize
      modifies this, entries.Values`next
      ensures Valid() && entries == old(entries) && used == old(used) && fresh(table) && size == realsize
    {
      var nused := used;
      var ntable;
      ghost var to;
      ntable, used, to := NewTable(hash, table, nused, realsize, entries, State());
      assert used == 0;
      Remap(ntable, nused, to);
    }

    /** Moves all entries to a new table of at least `size` slots, unless there are more entries. */
    method Expand(size: nat) returns (ok: bool)
      requires Valid() && size < LONG_MAX
      modifies this, entries.Values`next
      ensures Valid() && entries == old(entries) && used == old(used)
      ensures ok <==> old(used) <= size
      ensures if ok then fresh(table) && this.size == NextPowerFrom(size, DICT_HT_INITIAL_SIZE)
              else table == old(table) && this.size == old(this.size)
    {
      var realsize := NextPower(size);
      if used > size { return false; }
      NextPowerValid(size);
      MoveTo(realsize);
      ok := true;
    }

    /** Makes room for one more entry. */
    method ExpandIfNeeded() returns (ok: bool)
      requires Valid() && used < LONG_MAX / 2
      modifies this, entries.Values`next
      ensures ok && Valid() && entries == old(entries) && used == old(used) < size == Roomy(old(size), old(used))
      ensures table == old(table) || fresh(table)
    {
      if size == 0 { ok := Expand(DICT_HT_INITIAL_SIZE); return; }
      if used == size {
        Doubled(size);
        NextPowerOf(2 * size);
        ok := Expand(size * 2);
        return;
      }
      ok := true;
    }

    /** The bucket of a key, and its chain. */
    method Bucket(key: Key) returns (h: nat)
      requires Valid() && size > 0
      ensures h == Home(hash, key, size) && |chains| == size && IsChain(table[h], chains[h])
    {
      h := And(hash(key), sizemask);
      ChainAt(h);
    }

    /** The bucket of a key and the entry with that key in it. */
    method Probe(key: Key) returns (h: nat, he: Entry?)
      requires Valid() && size > 0
      ensures h == Home(hash, key, size) && he == if key in entries then entries[key] else null
    {
      h := Bucket(key);
      BucketAt(hash, State(), size, h);
      he := Search(key, table[h], chains[h]);
    }

    /** The entry of a key. */
    method Find(key: Key) returns (he: Entry?)
      requires Valid()
      ensures Valid() && he == if key in entries then entries[key] else null
    {
      if size == 0 { return null; }
      var _, entry := Probe(key);
      he := entry;
    }

    /** The bucket for a new entry, or -1 if the key is there. */
    method KeyIndex(key: Key) returns (index: int)
      requires Valid() && used < LONG_MAX / 2
      modifies this, entries.Values`next
      ensures Valid() && entries == old(entries) && used == old(used) < size == Roomy(old(size), old(used))
      ensures table == old(table) || fresh(table)
      ensures index == if key in entries then -1 else Home(hash, key, size)
    {
      var ok := ExpandIfNeeded();
      if !ok { return -1; }
      var h, he := Probe(key);
      index := if he != null then -1 else h;
    }

    /** Makes an entry that leads on to the chain of its bucket the head of it. */
    method Link(entry: Entry, index: nat)
      requires Valid() && used < size && entry.key !in entries
      requires index == Home(hash, entry.key, size) && entry.next == table[index]
      modifies this, table
      ensures Valid() && entries == old(entries)[entry.key := entry] && used == old(used) + 1
      ensures table == old(table) && size == old(size)
    {
      ghost var s := Push(hash, State(), entry);
      Pushed(hash, State(), entry);
      TotalUpdate(chains, index, [entry] + chains[index]);
      table[index] := entry;
      used := used + 1;
      Note(s);
    }

    /** Adds an entry unless there is one with the key; the entries keep their values. */
    method AddEntry(key: Key, val: Value) returns (entry: Entry?)
      requires Valid() && used < LONG_MAX / 2
      modifies this, table, entries.Values`next
      ensures Valid() && (entry == null <==> key in old(entries)) && (entry != null ==> entry.val == val)
      ensures entries == if entry == null then old(entries) else old(entries)[key := entry]
      ensures table == old(table) || fresh(table)
      ensures entry == null || fresh(entry)
      ensures size == Roomy(old(size), old(used)) && used == old(used) + if entry == null then 0 else 1
    {
      var index := KeyIndex(key);
      if index == -1 { return null; }
      entry := new Entry(key, val, table[index]);
      Link(entry, index);
    }

    method Add(key: Key, val: Value) returns (ok: bool)
      requires Valid() && used < LONG_MAX / 2
      modifies this, table, entries.Values`next
      ensures Valid() && (ok <==> key !in old(Contents()))
      ensures Contents() == if ok then old(Contents())[key := val] else old(Contents())
      ensures !ok ==> entries == old(entries)
      ensures size == Roomy(old(size), old(used)) && used == old(used) + if ok then 1 else 0
    {
      ghost var was := Contents();
      var entry := AddEntry(key, val);
      ok := entry != null;
      ContentsIs(if ok then was[key := val] else was);
    }

    /** Gives the entry of a key another value. */
    method SetValue(key: Key, entry: Entry, val: Value)
      requires Valid() && key in entries && entries[key] == entry
      modifies entry`val
      ensures Valid() && Contents() == old(Contents())[key := val]
    {
      ghost var was := Contents();
      entry.val := val;
      ContentsIs(was[key := val]);
    }

    /** Gives a key that is there another value. */
    method Overwrite(key: Key, val: Value)
      requires Valid() && key in entries
      modifies (entries[key] as Entry)`val
      ensures Valid() && Contents() == old(Contents())[key := val]
    {
      var entry := Lookup(key);
      SetValue(key, entry, val);
    }

    /** The entry of a key that is there. */
    method Lookup(key: Key) returns (entry: Entry)
      requires Valid() && key in entries
      ensures Valid() && entry == entries[key] && Contents() == old(Contents())
    {
      entry := Find(key);
    }

    /** Adds the key or gives it another value; true if the key is new. */
    method Replace(key: Key, val: Value) returns (added: bool)
      requires Valid() && used < LONG_MAX / 2
      modifies this, table, entries.Values
      ensures Valid() && (added <==> key !in old(Contents())) && Contents() == old(Contents())[key := val]
      ensures size == Roomy(old(size), old(used)) && used == old(used) + if added then 1 else 0
    {
      added := Add(key, val);
      if added { return; }
      Overwrite(key, val);
    }

    /** The bucket of a key, the entry with that key in it and the one before. */
    method ProbeWithPrevious(key: Key) returns (h: nat, prevde: Entry?, de: Entry?, ghost i: nat)
      requires Valid() && size > 0
      ensures h == Home(hash, key, size) && de == if key in entries then entries[key] else null
      ensures h < |chains| && i == FirstWith(chains[h], key) && prevde == Previous(hash, chains, key)
      ensures de == EntryAt(chains[h], i) && prevde == if i == 0 then null else chains[h][i - 1]
    {
      h := Bucket(key);
      BucketAt(hash, State(), size, h);
      prevde, de := SearchWithPrevious(key, table[h], chains[h]);
      i := FirstWith(chains[h], key);
    }

    /** Takes the entry of the key out, if there is one; the others keep their values. */
    method DeleteEntry(key: Key) returns (ok: bool)
      requires Valid()
      modifies this, table, entries.Values`next
      ensures Valid() && (ok <==> key in old(entries)) && entries == old(entries) - {key}
      ensures size == old(size) && used == old(used) - if ok then 1 else 0
      ensures if ok then Removed(old(chains), chains, Home(hash, key, size), key) else chains == old(chains)
      ensures forall e | e in old(entries.Values) && (ok ==> e != Previous(hash, old(chains), key)) ::
                e.next == old(e.next)
    {
      if size == 0 { return false; }
      var h, prevde, de, i := ProbeWithPrevious(key);
      if de == null { return false; }
      Remove(key, h, prevde, de, i);
      ok := true;
    }

    /** Takes out the entry that was found, the i-th one of its bucket h. */
    method Remove(key: Key, h: nat, prevde: Entry?, de: Entry, ghost i: nat)
      requires Valid() && h < size && i < |chains[h]| && de == chains[h][i]
      requires h == Home(hash, key, size) && i == FirstWith(chains[h], key) && prevde == Previous(hash, chains, key)
      requires prevde == if i == 0 then null else chains[h][i - 1]
      modifies this, table, entries.Values`next
      ensures Valid() && entries == old(entries) - {key} && size == old(size) && used == old(used) - 1
      ensures Removed(old(chains), chains, h, key)
      ensures forall e | e in old(entries.Values) && e != Previous(hash, old(chains), key) :: e.next == old(e.next)
    {
      Unlink(prevde, de, h, i);
    }

    method Delete(key: Key) returns (ok: bool)
      requires Valid()
      modifies this, table, entries.Values`next
      ensures Valid() && (ok <==> key in old(Contents())) && Contents() == old(Contents()) - {key}
      ensures size == old(size) && used == old(used) - if ok then 1 else 0
      ensures if ok then Removed(old(chains), chains, Home(hash, key, size), key) else chains == old(chains)
      ensures forall e | e in old(entries.Values) && (ok ==> e != Previous(hash, old(chains), key)) ::
                e.next == old(e.next)
    {
      ghost var was := Contents();
      ok := DeleteEntry(key);
      ContentsIs(was - {key});
    }

    /** Takes the first entry of bucket h out of its chain. */
    method UnlinkFirst(de: Entry, h: nat)
      requires Valid() && h < size && chains[h] != [] && de == chains[h][0]
      modifies this, table
      ensures Valid() && entries == old(entries) - {de.key} && used == old(used) - 1
      ensures size == old(size) && table == old(table)
      ensures chains == old(chains)[h := old(chains)[h][1..]]
    {
      ghost var s := State();
      TotalUpdate(chains, h, chains[h][1..]);
      TakeFirst(hash, table, de, h, s);
      Shrink(Pop(s, h, de.next));
    }

    /** Takes the i-th entry of bucket h out of its chain, in which `prevde` leads to it. */
    method UnlinkInner(prevde: Entry, de: Entry, h: nat, ghost i: nat)
      requires Valid() && h < size && 0 < i < |chains[h]| && de == chains[h][i] && prevde == chains[h][i - 1]
      modifies `used, `chains, `entries, entries.Values`next
      ensures Valid() && entries == old(entries) - {de.key} && used == old(used) - 1
      ensures chains == old(chains)[h := old(chains)[h][..i] + old(chains)[h][i + 1..]]
      ensures forall e | e in old(entries.Values) && e != prevde :: e.next == old(e.next)
    {
      ghost var s := State();
      TotalUpdate(chains, h, chains[h][..i] + chains[h][i + 1..]);
      Stored(hash, s, h, i - 1);
      TakeInner(hash, prevde, de, s, h, i, entries.Values);
      Shrink(Drop(s, h, i));
    }

    /** Takes `de`, the i-th entry of bucket h, out of its chain. */
    method Unlink(prevde: Entry?, de: Entry, h: nat, ghost i: nat)
      requires Valid() && h < size && i < |chains[h]| && de == chains[h][i]
      requires prevde == if i == 0 then null else chains[h][i - 1]
      modifies this, table, entries.Values`next
      ensures Valid() && entries == old(entries) - {de.key} && used == old(used) - 1
      ensures size == old(size) && table == old(table)
      ensures chains == old(chains)[h := old(chains)[h][..i] + old(chains)[h][i + 1..]]
      ensures forall e | e in old(entries.Values) && e != prevde :: e.next == old(e.next)
    {
      if prevde != null {
        UnlinkInner(prevde, de, h, i);
      } else {
        WithoutFirst(chains[h]);
        UnlinkFirst(de, h);
      }
    }

    method Shrink(ghost s: Buckets)
      requires Holds(hash, s) && s.heads == table[..] && used == Total(s.chains) + 1 <= size == table.Length
      requires sizemask == (if size == 0 then 0 else size - 1)
      requires size == 0 || (size >= DICT_HT_INITIAL_SIZE && PowerOfTwo(size))
      modifies `used, `chains, `entries
      ensures Valid() && chains == s.chains && entries == s.entries && used == old(used) - 1
    {
      used := used - 1;
      Note(s);
    }
  }

  // ----- iteration -----

  /** The entries bucket by bucket, from bucket b on. */
  function Flatten(chains: seq<seq<Entry>>, b: nat): (all: seq<Entry>)
    requires b <= |chains|
    decreases |chains| - b
  {
    if b == |chains| then [] else chains[b] + Flatten(chains, b + 1)
  }

  lemma {:induction false} FlattenPlace(hash: Key -> nat, s: Buckets, b: nat, i: nat)
    requires Holds(hash, s) && b <= |s.chains| && i < |Flatten(s.chains, b)|
    ensures var e := Flatten(s.chains, b)[i];
            |s.heads| > 0 && e.key in s.entries && s.entries[e.key] == e && Home(hash, e.key, |s.heads|) >= b
    decreases |s.chains| - b
  {
    BucketAt(hash, s, |s.heads|, b);
    if i >= |s.chains[b]| { FlattenPlace(hash, s, b + 1, i - |s.chains[b]|); }
  }

  lemma {:induction false} FlattenDistinct(hash: Key -> nat, s: Buckets, b: nat, i: nat, j: nat)
    requires Holds(hash, s) && b <= |s.chains| && i < j < |Flatten(s.chains, b)|
    ensures Flatten(s.chains, b)[i] != Flatten(s.chains, b)[j]
    decreases |s.chains| - b
  {
    var n := |s.chains[b]|;
    BucketAt(hash, s, |s.heads|, b);
    if i >= n {
      FlattenDistinct(hash, s, b + 1, i - n, j - n);
    } else if j >= n {
      FlattenPlace(hash, s, b + 1, j - n);
    }
  }

  lemma {:induction false} FlattenHas(chains: seq<seq<Entry>>, b: nat, c: nat, e: Entry)
    requires b <= c < |chains| && e in chains[c]
    ensures e in Flatten(chains, b)
    decreases c - b
  {
    if b < c { FlattenHas(chains, b + 1, c, e); }
  }

  /** Bucket by bucket, every entry of the table comes exactly once. */
  lemma FlattenExactly(hash: Key -> nat, s: Buckets)
    requires Holds(hash, s)
    ensures var all := Flatten(s.chains, 0);
            && (forall i, j | 0 <= i < j < |all| :: all[i] != all[j])
            && (forall e :: e in all <==> e.key in s.entries && s.entries[e.key] == e)
  {
    var all := Flatten(s.chains, 0);
    forall i, j | 0 <= i < j < |all|
      ensures all[i] != all[j]
    {
      FlattenDistinct(hash, s, 0, i, j);
    }
    forall i | 0 <= i < |all|
      ensures all[i].key in s.entries && s.entries[all[i].key] == all[i]
    {
      FlattenPlace(hash, s, 0, i);
    }
    forall k | k in s.entries
      ensures s.entries[k] in all
    {
      BucketAt(hash, s, |s.heads|, Home(hash, k, |s.heads|));
      FlattenHas(s.chains, 0, Home(hash, k, |s.heads|), s.entries[k]);
    }
  }

  lemma RestTail<T>(c: seq<T>, tail: seq<T>)
    requires c != []
    ensures (c + tail)[0] == c[0] && (c + tail)[1..] == c[1..] + tail
  {
  }

  lemma {:induction false} FlattenSame(was: seq<seq<Entry>>, now: seq<seq<Entry>>, b: nat)
    requires b <= |was| == |now| && forall c | b <= c < |was| :: was[c] == now[c]
    ensures Flatten(was, b) == Flatten(now, b)
    decreases |was| - b
  {
    if b < |was| { FlattenSame(was, now, b + 1); }
  }

  ghost predicate Ends(c: seq<Entry>, chain: seq<Entry>) {
    |chain| <= |c| && c[|c| - |chain|..] == chain
  }

  /** An entry of a bucket is the first one with its key. */
  lemma FirstWithAt(hash: Key -> nat, s: Buckets, b: nat, i: nat, key: Key)
    requires Holds(hash, s) && b < |s.chains| && i < |s.chains[b]| && s.chains[b][i].key == key
    ensures FirstWith(s.chains[b], key) == i && Home(hash, key, |s.heads|) == b
    ensures key in s.entries && s.entries[key] == s.chains[b][i]
  {
    BucketAt(hash, s, |s.heads|, b);
  }

  /** Taking out the entry before `chain` changes nothing from there on. */
  lemma StillToCome(was: seq<seq<Entry>>, now: seq<seq<Entry>>, b: nat, key: Key, chain: seq<Entry>)
    requires Removed(was, now, b, key) && Ends(was[b], chain)
    requires FirstWith(was[b], key) + 1 + |chain| == |was[b]|
    ensures Ends(now[b], chain) && Flatten(now, b + 1) == Flatten(was, b + 1)
  {
    assert was[b][FirstWith(was[b], key) + 1..] == chain;
    FlattenSame(was, now, b + 1);
  }

  /** The entries behind an entry are not the one that leads to it. */
  lemma BehindEntry(hash: Key -> nat, s: Buckets, b: nat, i: nat, key: Key, j: nat)
    requires Holds(hash, s) && b < |s.chains| && i < j < |s.chains[b]| && s.chains[b][i].key == key
    ensures s.chains[b][j] in s.entries.Values && s.chains[b][j] != Previous(hash, s.chains, key)
  {
    FirstWithAt(hash, s, b, i, key);
    Stored(hash, s, b, j);
    BucketAt(hash, s, |s.heads|, b);
  }

  class DictIterator {
    const ht: Dict
    var index: int
    var entry: Entry?
    var nextEntry: Entry?
    /** What is left of the chain of the current bucket, and all that is still to come. */
    ghost var chain: seq<Entry>
    ghost var rest: seq<Entry>

    /** Where the iterator stands in the table, which it does not change. */
    ghost predicate Placed()
      reads this, ht, chain`next
    {
      && -1 <= index && (index >= |ht.chains| ==> rest == [] && entry == null && chain == [])
      && (if entry != null then IsChain(nextEntry, chain) else chain == [])
      && (index < |ht.chains| ==> rest == chain + Flatten(ht.chains, index + 1))
      && (entry != null ==> 0 <= index < |ht.chains| && Ends(ht.chains[index], chain))
    }

    /** The chain of the current bucket is still to be handed out from `entry` on. */
    ghost predicate Reached()
      reads this, ht, chain`next
    {
      && 0 <= index < |ht.chains| && IsChain(entry, chain) && Ends(ht.chains[index], chain)
      && rest == chain + Flatten(ht.chains, index + 1)
    }

    /** The entry that was handed out last is still in the table. */
    ghost predicate Current()
      reads this, ht
    {
      && entry != null && 0 <= index < |ht.chains| && Ends(ht.chains[index], chain)
      && |chain| < |ht.chains[index]| && entry == ht.chains[index][|ht.chains[index]| - |chain| - 1]
    }

    constructor (ht: Dict)
      ensures this.ht == ht && Placed() && rest == Flatten(ht.chains, 0)
    {
      this.ht, index, entry, nextEntry := ht, -1, null, null;
      chain, rest := [], Flatten(ht.chains, 0);
    }

    /** Steps to the first entry of the next bucket, if it has one. */
    method NextBucket() returns (done: bool)
      requires ht.Valid() && Placed() && entry == null
      modifies this
      ensures index == old(index) + 1 && rest == old(rest) && (done <==> index >= ht.size)
      ensures if done then Placed() && rest == [] else Reached()
    {
      index := index + 1;
      if index >= ht.size { return true; }
      ht.ChainAt(index);
      entry := ht.table[index];
      chain := ht.chains[index];
      done := false;
    }

    /** Hands out the current entry; its successor is kept, for the caller may free the entry. */
    method Take() returns (e: Entry)
      requires entry != null && Reached()
      modifies this
      ensures Placed() && Current() && e == entry && old(rest) != [] && e == old(rest)[0] && rest == old(rest)[1..]
    {
      nextEntry := entry.next;
      ChainTail(entry, chain);
      RestTail(chain, Flatten(ht.chains, index + 1));
      chain, rest := chain[1..], rest[1..];
      e := entry;
    }

    /** Goes on from the entry handed out last, or from an empty bucket. */
    method Forward() returns (done: bool)
      requires ht.Valid() && Placed()
      modifies this
      ensures rest == old(rest) && index == old(index) + if old(entry) == null then 1 else 0
      ensures if done then Placed() && rest == [] else index < ht.size && Reached()
    {
      if entry == null {
        done := NextBucket();
      } else {
        entry := nextEntry;
        done := false;
      }
    }

    /** The next entry, or null after the last one. */
    method Next() returns (e: Entry?)
      requires ht.Valid() && Placed()
      modifies this
      ensures Placed() && e == EntryAt(old(rest), 0) && rest == if e == null then [] else old(rest)[1..]
      ensures e != null ==> Current() && e == entry
    {
      while true
        invariant Placed() && rest == old(rest)
        decreases ht.size - index, if entry == null then 0 else 1
      {
        var done := Forward();
        if done { return null; }
        if entry != null {
          e := Take();
          return;
        }
      }
    }

    /** Deletes the i-th entry of bucket b; the links behind it stay. */
    method DeleteAt(key: Key, ghost b: nat, ghost i: nat) returns (ok: bool)
      requires ht.Valid() && b < |ht.chains| && i < |ht.chains[b]| && key == ht.chains[b][i].key
      modifies ht, ht.table, ht.entries.Values`next
      ensures ok && ht.Valid() && ht.Contents() == old(ht.Contents()) - {key}
      ensures Removed(old(ht.chains), ht.chains, b, key) && FirstWith(old(ht.chains)[b], key) == i
      ensures var c := old(ht.chains)[b]; forall j | i < j < |c| :: c[j].next == old(c[j].next)
    {
      ghost var s := ht.State();
      ghost var c := s.chains[b];
      FirstWithAt(ht.hash, s, b, i, key);
      assert |s.heads| == ht.size && key in ht.Contents();
      forall j | i < j < |c|
        ensures c[j] in s.entries.Values && c[j] != Previous(ht.hash, s.chains, key)
      {
        BehindEntry(ht.hash, s, b, i, key, j);
      }
      ok := ht.Delete(key);
    }

    /** Deletes the entry that leads to `chain`; nothing changes from there on. */
    method DeleteBefore(key: Key, ghost b: nat, ghost head: Entry?, ghost chain: seq<Entry>) returns (ok: bool)
      requires ht.Valid() && b < |ht.chains| && Ends(ht.chains[b], chain) && |chain| < |ht.chains[b]|
      requires key == ht.chains[b][|ht.chains[b]| - |chain| - 1].key && IsChain(head, chain)
      modifies ht, ht.table, ht.entries.Values`next
      ensures ok && ht.Valid() && ht.Contents() == old(ht.Contents()) - {key}
      ensures |ht.chains| == old(|ht.chains|) && Ends(ht.chains[b], chain)
      ensures Flatten(ht.chains, b + 1) == Flatten(old(ht.chains), b + 1)
      ensures IsChain(head, chain) && unchanged(this)
    {
      ghost var was := ht.chains;
      ghost var i := |was[b]| - |chain| - 1;
      assert forall j | 0 <= j < |chain| :: chain[j] == was[b][i + 1 + j];
      ok := DeleteAt(key, b, i);
      StillToCome(was, ht.chains, b, key, chain);
    }

    twostate lemma StillPlaced()
      requires old(Placed() && entry != null && index < |ht.chains|) && unchanged(this)
      requires index < |ht.chains| && Ends(ht.chains[index], chain) && IsChain(nextEntry, chain)
      requires Flatten(ht.chains, index + 1) == old(Flatten(ht.chains, index + 1))
      ensures Placed() && rest == old(rest)
    {
    }

    /** The caller may delete the entry it was handed: what is still to come stays the same. */
    method DeleteCurrent() returns (ok: bool)
      requires ht.Valid() && Placed() && Current()
      modifies ht, ht.table, ht.entries.Values`next
      ensures ok && ht.Valid() && ht.Contents() == old(ht.Contents()) - {entry.key}
      ensures Placed() && rest == old(rest)
    {
      ok := DeleteBefore(entry.key, index, nextEntry, chain);
      StillPlaced();
    }
  }
}
