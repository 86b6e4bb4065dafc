/** The timer queue of minheap.cc: a binary heap of nodes that know their place in it, and a map from
    ids to nodes. */
module MinHeaps {
  class TimerNode {
    const id: int
    const expire: nat
    var idx: nat

    constructor (id: int, expire: nat, idx: nat)
      ensures this.id == id && this.expire == expire && this.idx == idx
    {
      this.id, this.expire, this.idx := id, expire, idx;
    }
  }

  // ----- the order of the heap, on its first n nodes -----

  function Parent(i: nat): (p: nat) {
    if i == 0 then 0 else (i - 1) / 2
  }

  ghost predicate Above(heap: seq<TimerNode>, i: nat) {
    i < |heap| && heap[Parent(i)].expire <= heap[i].expire
  }

  ghost predicate Ordered(heap: seq<TimerNode>, n: nat) {
    n <= |heap| && forall i | 0 < i < n :: Above(heap, i)
  }

  /** The order but for the pairs the node at `pos` belongs to; its children fit under its parent. */
  ghost predicate OrderedBut(heap: seq<TimerNode>, n: nat, pos: nat) {
    && pos < n <= |heap|
    && (forall i | 0 < i < n && i != pos && Parent(i) != pos :: Above(heap, i))
    && (forall i | 0 < i < n && Parent(i) == pos && pos > 0 :: heap[Parent(pos)].expire <= heap[i].expire)
  }

  ghost predicate OverChildren(heap: seq<TimerNode>, n: nat, pos: nat) {
    n <= |heap| && forall i | 0 < i < n && Parent(i) == pos :: Above(heap, i)
  }

  function Swap<T>(s: seq<T>, i: nat, j: nat): seq<T>
    requires i < |s| && j < |s|
  {
    s[i := s[j]][j := s[i]]
  }

  /** The node at `pos` changes places with its smaller child. */
  lemma SinkOne(heap: seq<TimerNode>, n: nat, pos: nat, child: nat)
    requires OrderedBut(heap, n, pos) && 0 < child < n && Parent(child) == pos
    requires heap[child].expire < heap[pos].expire
    requires forall i | 0 < i < n && Parent(i) == pos :: heap[child].expire <= heap[i].expire
    ensures OrderedBut(Swap(heap, pos, child), n, child) && Above(Swap(heap, pos, child), child)
    ensures pos > 0 ==> Above(Swap(heap, pos, child), pos)
  {
  }

  /** The node at `pos` changes places with its parent. */
  lemma RiseOne(heap: seq<TimerNode>, n: nat, pos: nat)
    requires OrderedBut(heap, n, pos) && OverChildren(heap, n, pos) && 0 < pos
    requires heap[pos].expire < heap[Parent(pos)].expire
    ensures OrderedBut(Swap(heap, Parent(pos), pos), n, Parent(pos))
    ensures OverChildren(Swap(heap, Parent(pos), pos), n, Parent(pos))
  {
  }

  lemma {:induction false} RootFirst(heap: seq<TimerNode>, n: nat, i: nat)
    requires Ordered(heap, n) && i < n
    ensures heap[0].expire <= heap[i].expire
  {
    if i > 0 {
      assert Above(heap, i);
      RootFirst(heap, n, Parent(i));
    }
  }

  /** `min` is the child of `pos` that expires first, if both its children were looked at. */
  lemma SmallestChild(heap: seq<TimerNode>, n: nat, pos: nat, min: nat)
    requires n <= |heap| && 2 * pos + 1 <= min <= 2 * pos + 2 && min < n
    requires heap[min].expire <= heap[2 * pos + 1].expire
    requires 2 * pos + 2 < n ==> heap[min].expire <= heap[2 * pos + 2].expire
    ensures Parent(min) == pos && forall i | 0 < i < n && Parent(i) == pos :: heap[min].expire <= heap[i].expire
  {
    forall i | 0 < i < n && Parent(i) == pos
      ensures heap[min].expire <= heap[i].expire
    {
      assert i == 2 * pos + 1 || i == 2 * pos + 2;
    }
  }

  lemma NoChildren(heap: seq<TimerNode>, n: nat, pos: nat)
    requires n <= |heap| && n <= 2 * pos + 1
    ensures OverChildren(heap, n, pos)
  {
  }

  lemma Settled(heap: seq<TimerNode>, n: nat, pos: nat)
    requires OrderedBut(heap, n, pos) && OverChildren(heap, n, pos) && Above(heap, pos)
    ensures Ordered(heap, n)
  {
  }

  /** A node at the end of the heap only has a parent. */
  lemma Pushed(heap: seq<TimerNode>, node: TimerNode)
    requires Ordered(heap, |heap|)
    ensures var n := |heap| + 1; OrderedBut(heap + [node], n, n - 1) && OverChildren(heap + [node], n, n - 1)
  {
    forall i | 0 < i < |heap|
      ensures Above(heap + [node], i)
    {
      assert Above(heap, i);
    }
  }

  /** Another node in place of the one at `pos` can only break the pairs it belongs to. */
  lemma Replaced(heap: seq<TimerNode>, n: nat, pos: nat)
    requires n < |heap| && Ordered(heap, n + 1) && pos < n
    ensures OrderedBut(Swap(heap, pos, n), n, pos)
  {
    forall i | 0 < i < n && Parent(i) == pos && pos > 0
      ensures heap[Parent(pos)].expire <= heap[i].expire
    {
      assert Above(heap, i) && Above(heap, pos);
    }
    forall i | 0 < i < n && i != pos && Parent(i) != pos
      ensures Above(Swap(heap, pos, n), i)
    {
      assert Above(heap, i);
    }
  }

  lemma Shrunk(heap: seq<TimerNode>, n: nat)
    requires Ordered(heap, n)
    ensures Ordered(heap[..n], n)
  {
    forall i | 0 < i < n
      ensures Above(heap[..n], i)
    {
      assert Above(heap, i);
    }
  }

  lemma Submap<K, V>(m: map<K, V>, all: map<K, V>)
    requires forall k | k in m :: k in all && all[k] == m[k]
    ensures m.Values <= all.Values
  {
    forall v | v in m.Values
      ensures v in all.Values
    {
      var k :| k in m && m[k] == v;
      assert all[k] == v;
    }
  }

  /** The nodes of `was` that are not in `left` have been fired, the first ones to expire first. */
  ghost predicate Fired(was: map<int, TimerNode>, left: map<int, TimerNode>, fired: seq<TimerNode>, now: nat) {
    && (forall id | id in left :: id in was && left[id] == was[id])
    && (forall id | id in was :: was[id].id == id && (id in left <==> was[id] !in fired))
    && (forall n | n in fired :: n.id in was && was[n.id] == n && n.expire <= now)
    && (forall i, j | 0 <= i < j < |fired| :: fired[i] != fired[j] && fired[i].expire <= fired[j].expire)
    && (forall i, id | 0 <= i < |fired| && id in left :: fired[i].expire <= left[id].expire)
  }

  lemma FiredOne(was: map<int, TimerNode>, left: map<int, TimerNode>, fired: seq<TimerNode>, now: nat,
                 node: TimerNode)
    requires Fired(was, left, fired, now) && node.id in left && left[node.id] == node && node.expire <= now
    requires forall id | id in left :: node.expire <= left[id].expire
    ensures Fired(was, left - {node.id}, fired + [node], now) && left.Values <= was.Values
  {
    assert forall id | id in left :: id in was && was[id] == left[id];
    Submap(left, was);
  }

  class MinHeapTimer {
    var heap: seq<TimerNode>
    var timers: map<int, TimerNode>
    var count: int

    /** The first n nodes know their index, and are exactly the nodes of `m`, each under its id. */
    ghost predicate Indexed(n: nat, m: map<int, TimerNode>)
      reads this, heap, m.Values
    {
      && n <= |heap|
      && (forall i | 0 <= i < n :: heap[i].idx == i && heap[i].id in m && m[heap[i].id] == heap[i])
      && (forall id | id in m :: m[id].id == id && m[id].idx < n && heap[m[id].idx] == m[id])
    }

    ghost predicate Valid()
      reads this, heap, timers.Values
    {
      Indexed(|heap|, timers) && Ordered(heap, |heap|) && forall id | id in timers :: id <= count
    }

    lemma Drained()
      requires Valid() && heap == []
      ensures forall id :: id !in timers
    {
    }

    constructor ()
      ensures Valid() && timers == map[]
    {
      heap, timers, count := [], map[], 0;
    }

    /** Exchanges two of the first n nodes. */
    method Exchange(i: nat, j: nat, ghost n: nat, ghost m: map<int, TimerNode>)
      requires Indexed(n, m) && i < n && j < n && i != j
      modifies this`heap, m.Values
      ensures heap == Swap(old(heap), i, j) && Indexed(n, m)
    {
      heap := heap[i := heap[j]][j := heap[i]];
      heap[i].idx := i;
      heap[j].idx := j;
    }

    /** Moves the node at `start` up. */
    method ShiftUp(start: nat, ghost n: nat, ghost m: map<int, TimerNode>)
      requires Indexed(n, m) && OrderedBut(heap, n, start) && OverChildren(heap, n, start)
      modifies this`heap, m.Values
      ensures |heap| == old(|heap|) && heap[n..] == old(heap[n..]) && Indexed(n, m) && Ordered(heap, n)
    {
      var pos := start;
      while true
        invariant |heap| == old(|heap|) && heap[n..] == old(heap[n..])
        invariant Indexed(n, m) && OrderedBut(heap, n, pos) && OverChildren(heap, n, pos)
        decreases pos
      {
        var parent := Parent(pos);
        if parent == pos || heap[pos].expire >= heap[parent].expire { break; }
        RiseOne(heap, n, pos);
        Exchange(parent, pos, n, m);
        pos := parent;
      }
    }

    /** The child of `pos` that expires first, the last node of the heap left out. */
    method SmallerChild(pos: nat) returns (min: nat)
      requires 2 * pos + 1 < |heap| - 1
      ensures 0 < min < |heap| - 1 && Parent(min) == pos
      ensures forall i | 0 < i < |heap| - 1 && Parent(i) == pos :: heap[min].expire <= heap[i].expire
    {
      var last, left, right := |heap| - 1, 2 * pos + 1, 2 * pos + 2;
      min := left;
      if right < last && heap[left].expire >= heap[right].expire { min := right; }
      SmallestChild(heap, last, pos, min);
    }

    /** Exchanges a node with the smaller one of its children. */
    method Sink(pos: nat, min: nat, ghost n: nat, ghost m: map<int, TimerNode>)
      requires n + 1 == |heap| && Indexed(n, m) && OrderedBut(heap, n, pos)
      requires 0 < min < n && Parent(min) == pos && heap[min].expire < heap[pos].expire
      requires forall i | 0 < i < n && Parent(i) == pos :: heap[min].expire <= heap[i].expire
      modifies this`heap, m.Values
      ensures n + 1 == |heap| && heap[n] == old(heap[n]) && Indexed(n, m)
      ensures OrderedBut(heap, n, min) && Above(heap, min)
    {
      SinkOne(heap, n, pos, min);
      Exchange(pos, min, n, m);
    }

    /** Moves the node at `start` down, within the first n nodes: all but the last one. */
    method ShiftDown(start: nat, ghost n: nat, ghost m: map<int, TimerNode>) returns (moved: bool)
      requires n + 1 == |heap| && Indexed(n, m) && OrderedBut(heap, n, start)
      modifies this`heap, m.Values
      ensures n + 1 == |heap| && heap[n] == old(heap[n]) && Indexed(n, m)
      ensures if moved then Ordered(heap, n) else OrderedBut(heap, n, start) && OverChildren(heap, n, start)
    {
      var last, pos := |heap| - 1, start;
      while true
        invariant n + 1 == |heap| && heap[n] == old(heap[n])
        invariant Indexed(n, m) && OrderedBut(heap, n, pos) && start <= pos
        invariant pos > start ==> Above(heap, pos)
        decreases n - pos
      {
        if 2 * pos + 1 >= last { NoChildren(heap, n, pos); break; }
        var min := SmallerChild(pos);
        if heap[min].expire >= heap[pos].expire { break; }
        Sink(pos, min, n, m);
        pos := min;
      }
      assert OverChildren(heap, n, pos);
      moved := pos > start;
      if moved { Settled(heap, n, pos); }
    }

    /** Brings the last node to the index of `node`, and from there to where it belongs. */
    method FillGap(node: TimerNode, ghost n: nat, ghost m: map<int, TimerNode>)
      requires Valid() && node.idx < n && n + 1 == |heap| && heap[node.idx] == node && m == timers - {node.id}
      modifies this`heap, m.Values
      ensures n + 1 == |heap| && heap[n] == node && Indexed(n, m) && Ordered(heap, n)
    {
      var last, idx := |heap| - 1, node.idx;
      Replaced(heap, last, idx);
      heap := heap[idx := heap[last]][last := heap[idx]];
      assert m[heap[idx].id] == heap[idx];
      heap[idx].idx := idx;
      var moved := ShiftDown(idx, n, m);
      if !moved { ShiftUp(idx, n, m); }
    }

    /** Takes the node out: the last one takes its place and is moved down or up. */
    method DelNode(node: TimerNode)
      requires Valid() && node.id in timers && timers[node.id] == node
      modifies this, timers.Values
      ensures Valid() && timers == old(timers) - {node.id} && count == old(count)
      ensures |heap| == old(|heap|) - 1
    {
      var last, idx := |heap| - 1, node.idx;
      ghost var rest := timers - {node.id};
      assert rest.Values <= timers.Values;
      if idx != last { FillGap(node, last, rest); }
      Shrunk(heap, last);
      heap := heap[..last];
      timers := timers - {node.id};
    }

    /** Puts the node at the end of the heap and moves it up. */
    method Push(node: TimerNode, ghost m: map<int, TimerNode>)
      requires Valid() && node.id !in timers && node.idx == |heap| && m == timers[node.id := node]
      modifies this`heap, m.Values
      ensures Indexed(|heap|, m) && Ordered(heap, |heap|)
    {
      Pushed(heap, node);
      heap := heap + [node];
      ShiftUp(|heap| - 1, |heap|, m);
    }

    /** A new timer under a new id; the sum of the clock and the delay is its expiry. */
    method AddTimer(now: nat, delay: nat) returns (id: int)
      requires Valid()
      modifies this, timers.Values
      ensures Valid() && id !in old(timers) && id in timers
      ensures fresh(timers[id]) && timers[id].expire == now + delay && timers == old(timers)[id := timers[id]]
    {
      count := count + 1;
      id := count;
      var node := new TimerNode(id, now + delay, |heap|);
      ghost var m := timers[id := node];
      assert m.Values <= timers.Values + {node};
      Push(node, m);
      timers := timers[id := node];
    }

    method DelTimer(id: int) returns (found: bool)
      requires Valid()
      modifies this, timers.Values
      ensures Valid() && found == (id in old(timers)) && timers == old(timers) - {id}
    {
      if id !in timers { return false; }
      DelNode(timers[id]);
      return true;
    }

    /** Fires all timers that are due, by their expiry, and keeps the others. */
    method ExpireTimer(now: nat) returns (fired: seq<TimerNode>)
      requires Valid()
      modifies this, timers.Values
      ensures Valid()
      ensures forall i, j | 0 <= i < j < |fired| :: fired[i] != fired[j] && fired[i].expire <= fired[j].expire
      ensures forall id | id in old(timers) :: old(timers)[id].expire <= now <==> old(timers)[id] in fired
      ensures forall n | n in fired :: n.id in old(timers) && old(timers)[n.id] == n
      ensures forall id :: id in timers <==> id in old(timers) && old(timers)[id].expire > now
      ensures forall id | id in timers :: timers[id] == old(timers)[id]
    {
      fired := [];
      if heap == [] { Drained(); return; }
      while heap != []
        invariant Valid() && Fired(old(timers), timers, fired, now)
        decreases |heap|
      {
        var node := heap[0];
        forall id | id in timers
          ensures node.expire <= timers[id].expire
        {
          RootFirst(heap, |heap|, timers[id].idx);
        }
        if now < node.expire { break; }
        FiredOne(old(timers), timers, fired, now, node);
        fired := fired + [node];
        DelNode(node);
      }
      if heap == [] { Drained(); }
      assert forall id | id in timers :: timers[id].expire > now;
    }
  }
}
