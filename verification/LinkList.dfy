/** The lists of the timing wheel as they are linked: nodes behind a head that is part of the list, with a
    pointer to the last of them, or to the head itself. */
module LinkLists {
  import opened TimerWheel

  class Node {
    const timer: Timer
    var next: Node?

    constructor (timer: Timer)
      ensures this.timer == timer && next == null
    {
      this.timer, next := timer, null;
    }
  }

  /** `first` leads along exactly the nodes of the chain, which are different, and then to `end`. */
  ghost predicate Leads(first: Node?, chain: seq<Node>, end: Node?)
    reads chain
    decreases |chain|
  {
    if chain == [] then first == end
    else
      var (before, last) := (chain[..|chain| - 1], chain[|chain| - 1]);
      last.next == end && last !in before && Leads(first, before, last)
  }

  lemma {:induction false} LeadsOn(first: Node?, chain: seq<Node>, end: Node?)
    requires Leads(first, chain, end) && chain != []
    ensures first == chain[0] && chain[0] !in chain[1..] && Leads(chain[0].next, chain[1..], end)
    decreases |chain|
  {
    var before, last := chain[..|chain| - 1], chain[|chain| - 1];
    if before != [] {
      LeadsOn(first, before, last);
      assert chain[1..] == before[1..] + [last];
    }
  }

  lemma {:induction false} LeadsBefore(first: Node, chain: seq<Node>, end: Node?)
    requires Leads(first.next, chain, end) && first !in chain
    ensures Leads(first, [first] + chain, end)
    decreases |chain|
  {
    var all := [first] + chain;
    if chain == [] {
      assert all[..0] == [] && Leads(first, all[..0], first);
    } else {
      var before, last := chain[..|chain| - 1], chain[|chain| - 1];
      LeadsBefore(first, before, last);
      assert all[..|all| - 1] == [first] + before && all[|all| - 1] == last;
    }
  }

  /** The timers of a chain. */
  function Timers(chain: seq<Node>): (ts: seq<Timer>)
    ensures |ts| == |chain|
  {
    seq(|chain|, i requires 0 <= i < |chain| => chain[i].timer)
  }

  lemma TimersAppend(chain: seq<Node>, node: Node)
    ensures Timers(chain + [node]) == Timers(chain) + [node.timer]
  {
  }

  ghost predicate InWord(timers: seq<Timer>) {
    forall n | n in timers :: n.expire < WORD
  }

  lemma TimersNext(chain: seq<Node>)
    requires chain != []
    ensures Timers(chain)[0] == chain[0].timer && Timers(chain)[1..] == Timers(chain[1..])
  {
  }

  class LinkList {
    const head: Node
    var tail: Node
    /** The head and the nodes behind it. */
    ghost var chain: seq<Node>

    ghost predicate Valid()
      reads this, chain
    {
      chain != [] && tail == chain[|chain| - 1] && Leads(head, chain, null)
    }

    /** The nodes behind the head. */
    ghost function Nodes(): seq<Node>
      requires chain != []
      reads this
    {
      chain[1..]
    }

    constructor ()
      ensures Valid() && chain == [head] && fresh(head)
    {
      head := new Node(Timer(0, 0));
      tail, chain := head, [head];
    }

    /** Takes all nodes off; they stay linked to each other. */
    method Clear() returns (first: Node?)
      requires Valid()
      modifies this, head
      ensures Valid() && chain == [head] && Leads(first, old(Nodes()), null)
    {
      LeadsOn(head, chain, null);
      first := head.next;
      head.next := null;
      tail, chain := head, [head];
    }

    /** Appends a node, whatever it was linked to. */
    method Link(node: Node)
      requires Valid() && node !in chain
      modifies this, tail, node
      ensures Valid() && chain == old(chain) + [node]
    {
      ghost var before := chain[..|chain| - 1];
      tail.next := node;
      assert Leads(head, before, tail) && chain == before + [tail];
      tail := node;
      node.next := null;
      chain := chain + [node];
    }
  }

  lemma AddedOnce(nodes: set<Node>, node: Node)
    requires node !in nodes
    ensures nodes + {node} - {node} == nodes
  {
  }

  ghost function Members(chain: seq<Node>): set<Node> {
    set n | n in chain
  }

  ghost predicate Beside(chain: seq<Node>, other: seq<Node>) {
    forall n | n in chain :: n !in other
  }

  ghost predicate Unrelated(chain: seq<Node>, free: set<Node>) {
    forall n | n in chain :: n !in free
  }

  ghost predicate Within(chain: seq<Node>, nodes: set<Node>) {
    forall n | n in chain :: n in nodes
  }

  lemma WithinRest(chain: seq<Node>, first: Node, nodes: set<Node>)
    requires chain != [] && first == chain[0] && first !in chain[1..] && Within(chain, nodes)
    ensures Within(chain[1..], nodes - {first})
  {
  }

  lemma ClearedFree(chain: seq<Node>, free: set<Node>, nodes: set<Node>)
    requires chain != [] && chain[0] !in chain[1..] && Unrelated(chain, free) && Within(chain, nodes) && free <= nodes
    ensures var all := free + Members(chain[1..]);
            all <= nodes && Unrelated([chain[0]], all) && Within([chain[0]], nodes)
  {
  }

  /** There are lists at the places near and on the first i levels. */
  ghost predicate UpTo(places: set<Place>, i: nat) {
    forall p :: p in places <==> match p case Near(k) => k < TIME_NEAR case Level(j, k) => j < i && k < TIME_LEVEL
  }

  lemma PlaceInRange(expire: nat, time: nat)
    requires expire < WORD && time < WORD
    ensures match PlaceOf(expire, time) case Near(k) => k < TIME_NEAR case Level(i, k) => i < 4 && k < TIME_LEVEL
  {
  }

  /** The lists of a wheel, by their places. */
  class LinkedWheel {
    const lists: map<Place, LinkList>
    /** The nodes that are on no list, and all nodes. */
    ghost var free: set<Node>
    ghost var nodes: set<Node>

    /** The list at `p` holds what the wheel `w` says. */
    ghost predicate HoldsAt(w: Wheel, p: Place)
      requires p in lists
      reads lists[p], lists[p].chain
    {
      lists[p].Valid() && Timers(lists[p].Nodes()) == w.At(p)
    }

    /** No node is on two lists, nor on one and free. */
    ghost predicate Apart()
      reads `free, `nodes, lists.Values
    {
      && free <= nodes
      && (forall p | p in lists :: Unrelated(lists[p].chain, free) && Within(lists[p].chain, nodes))
      && Separate()
    }

    ghost predicate Separate()
      reads lists.Values
    {
      forall p, q | p in lists && q in lists && p != q :: Beside(lists[p].chain, lists[q].chain)
    }

    ghost predicate Holds(w: Wheel)
      reads this, lists.Values, nodes
    {
      Apart() && forall p | p in lists :: HoldsAt(w, p)
    }

    /** A wheel of empty lists. */
    constructor (lists: map<Place, LinkList>, ghost free: set<Node>, ghost nodes: set<Node>)
      requires forall p | p in lists :: lists[p].Valid() && lists[p].chain == [lists[p].head]
      requires forall p | p in lists :: lists[p].head in nodes - free
      requires forall p, q | p in lists && q in lists && p != q :: lists[p].head != lists[q].head
      requires free <= nodes
      ensures Holds(EMPTY) && this.lists == lists && this.free == free && this.nodes == nodes
    {
      this.lists, this.free, this.nodes := lists, free, nodes;
    }

    /** Links a free node to the list at `p`; the other lists and nodes stay as they are. */
    method LinkAt(p: Place, node: Node, ghost w: Wheel)
      requires Holds(w) && p in lists && node in free
      modifies lists[p], lists[p].tail, node
      ensures lists[p].Valid() && lists[p].chain == old(lists[p].chain) + [node]
      ensures Others(p, old(lists[p].chain), free) && forall q | q in lists && q != p :: HoldsAt(w, q)
    {
      assert HoldsAt(w, p);
      ghost var list, tail := lists[p], lists[p].tail;
      assert tail in list.chain;
      lists[p].Link(node);
      forall q | q in lists && q != p
        ensures HoldsAt(w, q) && lists[q].chain == old(lists[q].chain)
      {
        var other := lists[q];
        assert old(HoldsAt(w, q));
        assert old(Beside(list.chain, other.chain) && Unrelated(other.chain, free));
        assert other != list;
        assert unchanged(other);
        assert old(other.Valid());
        assert tail !in other.chain && node !in other.chain;
        assert unchanged(other.chain);
      }
    }

    /** The lists at other places than `p` share no node with each other, with `chain` and with `free`. */
    ghost predicate Others(p: Place, chain: seq<Node>, free: set<Node>)
      reads `nodes, lists.Values
    {
      && (forall q | q in lists && q != p ::
            && Unrelated(lists[q].chain, free) && Within(lists[q].chain, nodes)
            && Beside(lists[q].chain, chain) && Beside(chain, lists[q].chain))
      && forall q, r | q in lists && r in lists && q != p && r != p && q != r ::
           Beside(lists[q].chain, lists[r].chain)
    }

    lemma OthersApart(p: Place, chain: seq<Node>)
      requires p in lists && Others(p, chain, free) && lists[p].chain == chain
      requires Unrelated(chain, free) && Within(chain, nodes) && free <= nodes
      ensures Apart()
    {
      forall q, r | q in lists && r in lists && q != r
        ensures Beside(lists[q].chain, lists[r].chain)
      {
        assert q == p || r == p || Beside(lists[q].chain, lists[r].chain);
      }
    }

    lemma OthersLinked(p: Place, chain: seq<Node>, before: set<Node>, node: Node)
      requires Others(p, chain, before) && node in before
      ensures Others(p, chain + [node], before - {node})
    {
    }

    lemma OthersCleared(p: Place, chain: seq<Node>, before: set<Node>)
      requires Others(p, chain, before) && chain != []
      ensures Others(p, [chain[0]], before + Members(chain[1..]))
    {
    }

    lemma LinkedHolds(p: Place, node: Node, before: seq<Node>, w: Wheel)
      requires p in lists && lists[p].Valid() && before != [] && lists[p].chain == before + [node]
      requires Timers(before[1..]) == w.At(p)
      requires forall q | q in lists && q != p :: HoldsAt(w, q)
      ensures forall q | q in lists :: HoldsAt(w.Put(p, w.At(p) + [node.timer]), q)
    {
      TimersAppend(before[1..], node);
      assert lists[p].Nodes() == before[1..] + [node];
      var w' := w.Put(p, w.At(p) + [node.timer]);
      forall q | q in lists
        ensures HoldsAt(w', q)
      {
        if q != p { assert HoldsAt(w, q); }
      }
    }

    ghost method SetFree(free': set<Node>, p: Place, w: Wheel)
      requires p in lists && lists[p].Valid() && forall q | q in lists && q != p :: HoldsAt(w, q)
      modifies `free
      ensures free == free' && lists[p].Valid() && forall q | q in lists && q != p :: HoldsAt(w, q)
    {
      free := free';
    }

    /** Links a free node, which is no longer free then. */
    method LinkFree(p: Place, node: Node, ghost w: Wheel)
      requires Holds(w) && p in lists && node in free
      modifies `free, lists[p], lists[p].tail, node
      ensures lists[p].Valid() && lists[p].chain == old(lists[p].chain) + [node]
      ensures Apart() && free == old(free) - {node} && forall q | q in lists && q != p :: HoldsAt(w, q)
    {
      assert HoldsAt(w, p);
      ghost var before := lists[p].chain;
      LinkAt(p, node, w);
      OthersLinked(p, before, free, node);
      SetFree(free - {node}, p, w);
      OthersApart(p, lists[p].chain);
    }

    /** Appends a free node to the list at `p`. */
    method Append(p: Place, node: Node, ghost w: Wheel)
      requires Holds(w) && p in lists && node in free
      modifies `free, lists[p], lists[p].tail, node
      ensures Holds(w.Put(p, w.At(p) + [node.timer])) && free == old(free) - {node}
    {
      assert HoldsAt(w, p);
      ghost var before := lists[p].chain;
      LinkFree(p, node, w);
      LinkedHolds(p, node, before, w);
    }

    /** `add_node`. */
    method AddNode(node: Node, time: nat, ghost w: Wheel)
      requires Holds(w) && node in free && time == w.time < WORD && node.timer.expire < WORD
      requires PlaceOf(node.timer.expire, w.time) in lists
      modifies `free, lists[PlaceOf(node.timer.expire, w.time)], lists[PlaceOf(node.timer.expire, w.time)].tail, node
      ensures Holds(w.AddNode(node.timer)) && free == old(free) - {node}
    {
      var p := ChoosePlace(node.timer.expire, time);
      Append(p, node, w);
    }

    /** Takes the nodes of the list at `p` off; the other lists stay as they are. */
    method ClearAt(p: Place, ghost w: Wheel) returns (first: Node?)
      requires Holds(w) && p in lists
      modifies lists[p], lists[p].head
      ensures lists[p].Valid() && lists[p].chain == [lists[p].head] == old(lists[p].chain)[..1]
      ensures Leads(first, old(lists[p].Nodes()), null)
      ensures Others(p, old(lists[p].chain), free) && forall q | q in lists && q != p :: HoldsAt(w, q)
    {
      assert HoldsAt(w, p);
      ghost var list := lists[p];
      LeadsOn(list.head, list.chain, null);
      assert list.head in list.chain;
      first := lists[p].Clear();
      forall q | q in lists && q != p
        ensures HoldsAt(w, q) && lists[q].chain == old(lists[q].chain)
      {
        var other := lists[q];
        assert old(HoldsAt(w, q));
        assert old(Beside(list.chain, other.chain));
        assert other != list;
        assert unchanged(other);
        assert old(other.Valid());
        assert list.head !in other.chain;
        assert unchanged(other.chain);
      }
    }

    /** Takes the nodes of the list at `p` off; they are free then, and linked to each other. */
    method ClearFree(p: Place, ghost w: Wheel) returns (first: Node?)
      requires Holds(w) && p in lists
      modifies `free, lists[p], lists[p].head
      ensures Apart() && lists[p].Valid() && lists[p].Nodes() == []
      ensures forall q | q in lists && q != p :: HoldsAt(w, q)
      ensures free == old(free) + Members(old(lists[p].Nodes()))
      ensures Leads(first, old(lists[p].Nodes()), null)
    {
      assert HoldsAt(w, p);
      ghost var chain := lists[p].chain;
      LeadsOn(lists[p].head, chain, null);
      first := ClearAt(p, w);
      ClearedFree(chain, free, nodes);
      OthersCleared(p, chain, free);
      SetFree(free + Members(chain[1..]), p, w);
      OthersApart(p, [chain[0]]);
    }

    method Cleared(p: Place, ghost w: Wheel) returns (first: Node?, ghost left: seq<Node>)
      requires Holds(w) && p in lists
      modifies `free, lists[p], lists[p].head
      ensures Holds(w.Put(p, [])) && Timers(left) == w.At(p)
      ensures Leads(first, left, null)
      ensures free == old(free) + Members(left)
    {
      assert HoldsAt(w, p);
      left := lists[p].Nodes();
      first := ClearFree(p, w);
      forall q | q in lists
        ensures HoldsAt(w.Put(p, []), q)
      {
        if q != p { assert HoldsAt(w, q); }
      }
    }

    lemma TailLinked(p: Place, w: Wheel)
      requires Holds(w) && p in lists
      ensures lists[p].tail in lists[p].chain && lists[p].tail in nodes && lists[p].tail !in free
    {
      assert HoldsAt(w, p);
    }

    /** The lists hold `w`, and the nodes of `left` are on no list but linked to each other. */
    ghost predicate Hangs(current: Node?, left: seq<Node>, w: Wheel)
      reads this, lists.Values, nodes
    {
      Holds(w) && Within(left, free) && Leads(current, left, null)
    }

    /** Another free node is linked to a list. */
    method LinkBeside(node: Node, time: nat, ghost current: Node?, ghost left: seq<Node>, ghost w: Wheel)
      requires Hangs(current, left, w) && node in free && node !in left
      requires time == w.time < WORD && node.timer.expire < WORD && PlaceOf(node.timer.expire, w.time) in lists
      modifies `free, lists.Values, nodes
      ensures Hangs(current, left, w.AddNode(node.timer)) && free == old(free) - {node}
    {
      ghost var p := PlaceOf(node.timer.expire, w.time);
      ghost var tail := lists[p].tail;
      TailLinked(p, w);
      assert tail !in left;
      AddNode(node, time, w);
    }

    /** The same, node by node. */
    ghost predicate Rests(current: Node?, left: seq<Node>, w: Wheel)
      reads this, lists.Values, nodes
      decreases |left|
    {
      if left == [] then current == null && Holds(w)
      else
        && current == left[0] && current in free && current in nodes && current !in left[1..]
        && Rests(current.next, left[1..], w)
    }

    lemma {:induction false} RestsHangs(current: Node?, left: seq<Node>, w: Wheel)
      requires Rests(current, left, w)
      ensures Hangs(current, left, w)
      decreases |left|
    {
      if left != [] {
        RestsHangs(current.next, left[1..], w);
        LeadsBefore(current, left[1..], null);
        assert left == [current] + left[1..];
      }
    }

    lemma {:induction false} HangsRests(current: Node?, left: seq<Node>, w: Wheel)
      requires Hangs(current, left, w)
      ensures Rests(current, left, w)
      decreases |left|
    {
      if left != [] {
        LeadsOn(current, left, null);
        HangsRests(current.next, left[1..], w);
      }
    }

    method AddBeside(timer: Timer, time: nat, ghost current: Node?, ghost left: seq<Node>, ghost w: Wheel)
      returns (node: Node)
      requires Hangs(current, left, w) && time == w.time < WORD && timer.expire < WORD
      requires PlaceOf(timer.expire, w.time) in lists
      modifies `free, `nodes, lists.Values, nodes
      ensures Hangs(current, left, w.AddNode(timer)) && fresh(node)
      ensures free == old(free) && nodes == old(nodes) + {node}
    {
      ghost var was := free;
      node := Allocate(timer, current, left, w);
      LinkBeside(node, time, current, left, w);
      AddedOnce(was, node);
    }

    /** A new node is linked to a list. */
    method Add(timer: Timer, time: nat, ghost current: Node?, ghost left: seq<Node>, ghost w: Wheel)
      returns (node: Node)
      requires Rests(current, left, w) && time == w.time < WORD && timer.expire < WORD
      requires PlaceOf(timer.expire, w.time) in lists
      modifies `free, `nodes, lists.Values, nodes
      ensures Rests(current, left, w.AddNode(timer)) && fresh(node)
      ensures free == old(free) && nodes == old(nodes) + {node}
    {
      RestsHangs(current, left, w);
      node := AddBeside(timer, time, current, left, w);
      HangsRests(current, left, w.AddNode(timer));
    }

    /** `free`, of a node that is on no list. */
    ghost method Free(node: Node, current: Node?, left: seq<Node>, w: Wheel)
      requires Rests(current, left, w) && node in free && node !in left
      modifies `free, `nodes
      ensures Rests(current, left, w) && free == old(free) - {node} && nodes == old(nodes) - {node}
    {
      RestsHangs(current, left, w);
      Release(node, current, left, w);
      HangsRests(current, left, w);
    }

    /** Takes the list at `p` off; its nodes are linked to each other. */
    method Take(p: Place, ghost w: Wheel) returns (current: Node?, ghost left: seq<Node>)
      requires Rests(null, [], w) && p in lists
      modifies `free, lists.Values, nodes
      ensures Rests(current, left, w.Put(p, [])) && Timers(left) == w.At(p)
    {
      current, left := TakeList(p, w);
      HangsRests(current, left, w.Put(p, []));
    }

    method IsEmpty(p: Place, ghost w: Wheel) returns (empty: bool)
      requires Rests(null, [], w) && p in lists
      ensures empty <==> w.At(p) == []
    {
      assert HoldsAt(w, p);
      LeadsOn(lists[p].head, lists[p].chain, null);
      empty := lists[p].head.next == null;
      if lists[p].Nodes() != [] { LeadsOn(lists[p].head.next, lists[p].Nodes(), null); }
    }

    /** `move_list`, when no other list is being dispatched. */
    method Relink(p: Place, time: nat, ghost w: Wheel)
      requires UpTo(lists.Keys, 4) && Rests(null, [], w) && p in lists && time == w.time < WORD && InWord(w.At(p))
      modifies `free, lists.Values, nodes
      ensures Rests(null, [], w.MoveList(p))
    {
      MoveList(p, time, w);
    }

    lemma SameLists(w: Wheel, w': Wheel)
      requires Rests(null, [], w) && forall p :: w'.At(p) == w.At(p)
      ensures Rests(null, [], w')
    {
      forall p | p in lists
        ensures HoldsAt(w', p)
      {
        assert HoldsAt(w, p);
      }
    }

    /** One turn of the loop of `move_list`: the next node is read before `current` is linked elsewhere. */
    method MoveNode(current: Node, time: nat, ghost left: seq<Node>, ghost w: Wheel) returns (temp: Node?)
      requires left != [] && Hangs(current, left, w)
      requires time == w.time < WORD && current.timer.expire < WORD && PlaceOf(current.timer.expire, w.time) in lists
      modifies `free, lists.Values, nodes
      ensures current == left[0] && Hangs(temp, left[1..], w.AddNode(current.timer))
    {
      LeadsOn(current, left, null);
      WithinRest(left, current, free);
      temp := current.next;
      LinkBeside(current, time, temp, left[1..], w);
    }

    ghost method SetGroups(free': set<Node>, nodes': set<Node>, w: Wheel)
      requires Separate() && forall p | p in lists :: HoldsAt(w, p)
      modifies `free, `nodes
      ensures free == free' && nodes == nodes' && Separate() && forall p | p in lists :: HoldsAt(w, p)
      ensures forall p | p in lists :: lists[p].chain == old(lists[p].chain)
    {
      free, nodes := free', nodes';
    }

    /** Which nodes there are, and which are free. */
    ghost method Regroup(free': set<Node>, nodes': set<Node>, w: Wheel)
      requires Holds(w) && free' <= nodes'
      requires forall p | p in lists :: Unrelated(lists[p].chain, free') && Within(lists[p].chain, nodes')
      modifies `free, `nodes
      ensures Holds(w) && free == free' && nodes == nodes'
    {
      SetGroups(free', nodes', w);
    }

    /** Makes a node for a timer. */
    method Allocate(timer: Timer, ghost current: Node?, ghost left: seq<Node>, ghost w: Wheel) returns (node: Node)
      requires Hangs(current, left, w)
      modifies `free, `nodes
      ensures fresh(node) && node !in old(free) && node !in left && node.timer == timer && Hangs(current, left, w)
      ensures free == old(free) + {node} && nodes == old(nodes) + {node}
    {
      node := new Node(timer);
      forall p | p in lists
        ensures Unrelated(lists[p].chain, free + {node}) && Within(lists[p].chain, nodes + {node})
      {
        assert Unrelated(lists[p].chain, free) && Within(lists[p].chain, nodes) && node !in nodes;
      }
      Regroup(free + {node}, nodes + {node}, w);
    }

    /** Gives a node back: it is not touched any more. */
    ghost method Release(node: Node, current: Node?, left: seq<Node>, w: Wheel)
      requires Hangs(current, left, w) && node in free && node !in left
      modifies `free, `nodes
      ensures Hangs(current, left, w) && free == old(free) - {node} && nodes == old(nodes) - {node}
    {
      forall p | p in lists
        ensures Unrelated(lists[p].chain, free - {node}) && Within(lists[p].chain, nodes - {node})
      {
        assert Unrelated(lists[p].chain, free) && Within(lists[p].chain, nodes);
      }
      Regroup(free - {node}, nodes - {node}, w);
    }

    /** Takes the list at `p` off. */
    method TakeList(p: Place, ghost w: Wheel) returns (current: Node?, ghost left: seq<Node>)
      requires Holds(w) && p in lists
      modifies `free, lists.Values, nodes
      ensures Hangs(current, left, w.Put(p, [])) && Timers(left) == w.At(p)
    {
      assert HoldsAt(w, p);
      LeadsOn(lists[p].head, lists[p].chain, null);
      current, left := Cleared(p, w);
    }

    /** The wheel that `move_list` is to give, when the nodes of `left` are still to be linked. */
    ghost predicate Moving(current: Node?, left: seq<Node>, time: nat, w: Wheel, goal: Wheel)
      reads this, lists.Values, nodes
    {
      Hangs(current, left, w) && time == w.time < WORD && InWord(Timers(left)) && w.AddNodes(Timers(left)) == goal
    }

    method MoveNext(current: Node, time: nat, ghost left: seq<Node>, ghost w: Wheel, ghost goal: Wheel)
      returns (temp: Node?, ghost rest: seq<Node>, ghost w': Wheel)
      requires UpTo(lists.Keys, 4) && Moving(current, left, time, w, goal)
      modifies `free, lists.Values, nodes
      ensures Moving(temp, rest, time, w', goal) && |rest| < |left|
    {
      NotAllMoved(current, left, time, w, goal);
      LeadsOn(current, left, null);
      TimersNext(left);
      assert InWord(Timers(left)[..1]);
      PlaceInRange(current.timer.expire, time);
      temp := MoveNode(current, time, left, w);
      rest, w' := left[1..], w.AddNode(left[0].timer);
    }

    method StartMove(p: Place, time: nat, ghost w: Wheel) returns (current: Node?, ghost left: seq<Node>)
      requires Holds(w) && p in lists && time == w.time < WORD && InWord(w.At(p))
      modifies `free, lists.Values, nodes
      ensures Moving(current, left, time, w.Put(p, []), w.MoveList(p))
    {
      current, left := TakeList(p, w);
    }

    lemma NotAllMoved(current: Node, left: seq<Node>, time: nat, w: Wheel, goal: Wheel)
      requires Moving(current, left, time, w, goal)
      ensures left != []
    {
    }

    lemma AllMoved(left: seq<Node>, time: nat, w: Wheel, goal: Wheel)
      requires Moving(null, left, time, w, goal)
      ensures Holds(goal)
    {
      if left != [] { LeadsOn(null, left, null); }
    }

    /** `move_list`. */
    method MoveList(p: Place, time: nat, ghost w: Wheel)
      requires UpTo(lists.Keys, 4) && Holds(w) && p in lists && time == w.time < WORD && InWord(w.At(p))
      modifies `free, lists.Values, nodes
      ensures Holds(w.MoveList(p))
    {
      var current: Node?;
      ghost var left: seq<Node>;
      current, left := StartMove(p, time, w);
      ghost var v, goal := w.Put(p, []), w.MoveList(p);
      while current != null
        invariant Moving(current, left, time, v, goal)
        decreases |left|
      {
        current, left, v := MoveNext(current, time, left, v, goal);
      }
      AllMoved(left, time, v, goal);
    }
  }

  /** The list `add_node` picks, from the difference of the two words. */
  method ChoosePlace(expire: nat, time: nat) returns (p: Place)
    requires expire < WORD && time < WORD
    ensures p == PlaceOf(expire, time)
  {
    var msec := (expire - time) % WORD;
    if msec < TIME_NEAR {
      p := Near(expire % TIME_NEAR);
    } else if msec < 0x4000 {
      p := Level(0, expire / 0x100 % TIME_LEVEL);
    } else if msec < 0x10_0000 {
      p := Level(1, expire / 0x4000 % TIME_LEVEL);
    } else if msec < 0x400_0000 {
      p := Level(2, expire / 0x10_0000 % TIME_LEVEL);
    } else {
      p := Level(3, expire / 0x400_0000 % TIME_LEVEL);
    }
  }

  /** Empty lists with heads of their own; `made` are the objects. */
  ghost predicate Blank(lists: map<Place, LinkList>, heads: set<Node>, made: set<object>)
    reads lists.Values, heads
  {
    && (forall p | p in lists :: lists[p] in made && lists[p].head in heads && lists[p].chain == [lists[p].head])
    && (forall p | p in lists :: lists[p].Valid()) && heads <= made
    && forall p, q | p in lists && q in lists && p != q :: lists[p].head != lists[q].head
  }

  method WithList(lists: map<Place, LinkList>, p: Place, ghost heads: set<Node>, ghost made: set<object>)
    returns (lists': map<Place, LinkList>, ghost heads': set<Node>, ghost made': set<object>)
    requires Blank(lists, heads, made) && p !in lists
    ensures lists'.Keys == lists.Keys + {p} && Blank(lists', heads', made') && fresh(made' - made)
  {
    var list := new LinkList();
    lists', heads', made' := lists[p := list], heads + {list.head}, made + {list, list.head};
  }

  ghost predicate OnlyNear(places: set<Place>, n: nat) {
    forall p :: p in places <==> p.Near? && p.k < n
  }

  method NearLists() returns (lists: map<Place, LinkList>, ghost heads: set<Node>, ghost made: set<object>)
    ensures Blank(lists, heads, made) && fresh(made) && UpTo(lists.Keys, 0)
  {
    lists, heads, made := map[], {}, {};
    for k := 0 to TIME_NEAR
      invariant Blank(lists, heads, made) && fresh(made)
      invariant OnlyNear(lists.Keys, k)
    {
      lists, heads, made := WithList(lists, Near(k), heads, made);
    }
  }

  method LevelLists(lists: map<Place, LinkList>, i: nat, ghost heads: set<Node>, ghost made: set<object>)
    returns (lists': map<Place, LinkList>, ghost heads': set<Node>, ghost made': set<object>)
    requires Blank(lists, heads, made) && UpTo(lists.Keys, i)
    ensures Blank(lists', heads', made') && UpTo(lists'.Keys, i + 1) && fresh(made' - made)
  {
    lists', heads', made' := lists, heads, made;
    for k := 0 to TIME_LEVEL
      invariant Blank(lists', heads', made') && fresh(made' - made)
      invariant forall p :: p in lists'.Keys <==> p in lists.Keys || (p.Level? && p.i == i && p.k < k)
    {
      lists', heads', made' := WithList(lists', Level(i, k), heads', made');
    }
  }

  /** A list at every place, made in the order of the code. */
  method NewLists() returns (lists: map<Place, LinkList>, ghost heads: set<Node>, ghost made: set<object>)
    ensures Blank(lists, heads, made) && UpTo(lists.Keys, 4) && fresh(made)
  {
    lists, heads, made := NearLists();
    for i := 0 to 4
      invariant Blank(lists, heads, made) && UpTo(lists.Keys, i) && fresh(made)
    {
      lists, heads, made := LevelLists(lists, i, heads, made);
    }
  }
}
