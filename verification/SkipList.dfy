/** The skip list of skiplist.c and the timer loop of skl-timer.c.  A node's forward array is part
    of the node, so it is a sequence that is updated in the node. */
module SkipLists {
  const ZSKIPLIST_MAXLEVEL: nat := 32

  class Node {
    const score: nat
    var forward: seq<Node?>

    constructor (level: nat, score: nat)
      ensures this.score == score && forward == seq(level, _ => null)
    {
      this.score := score;
      forward := seq(level, _ => null);
    }
  }

  // ----- heights: which nodes a level skips -----

  /** The first index from k on whose node is on level i. */
  function First(heights: seq<nat>, k: nat, i: nat): (m: nat)
    requires k <= |heights|
    ensures k <= m <= |heights|
    ensures forall q | k <= q < m :: heights[q] <= i
    ensures m < |heights| ==> heights[m] > i
    decreases |heights| - k
  {
    if k == |heights| || heights[k] > i then k else First(heights, k + 1, i)
  }

  /** The nodes of a level are a part of those of the level below, in the same order. */
  lemma LevelBelow(heights: seq<nat>, k: nat, i: nat)
    requires k <= |heights|
    ensures var m := First(heights, k, i + 1); First(heights, k, i) <= m && First(heights, m, i) == m
  {
  }

  lemma FirstIs(heights: seq<nat>, k: nat, i: nat, m: nat)
    requires k <= m <= |heights|
    requires forall q | k <= q < m :: heights[q] <= i
    requires m < |heights| ==> heights[m] > i
    ensures First(heights, k, i) == m
  {
  }

  // ----- the order of the nodes -----

  ghost predicate Sorted(nodes: seq<Node>) {
    forall i, j | 0 <= i < j < |nodes| :: nodes[i].score <= nodes[j].score
  }

  /** The number of nodes with a score below `score`: where it is inserted, before equal ones. */
  function Rank(nodes: seq<Node>, score: nat): (k: nat)
    ensures k <= |nodes|
    ensures forall q | 0 <= q < k :: nodes[q].score < score
    ensures k < |nodes| ==> nodes[k].score >= score
  {
    if nodes == [] || nodes[0].score >= score then 0 else 1 + Rank(nodes[1..], score)
  }

  function Inserted<T>(s: seq<T>, k: nat, x: T): seq<T>
    requires k <= |s|
  {
    s[..k] + [x] + s[k..]
  }

  function Removed<T>(s: seq<T>, k: nat): seq<T>
    requires k < |s|
  {
    s[..k] + s[k + 1..]
  }

  lemma InsertedNodes<T>(s: seq<T>, k: nat)
    requires k <= |s|
    ensures forall x, y | y in Inserted(s, k, x) :: y in s || y == x
  {
  }

  lemma InsertedAt<T>(s: seq<T>, k: nat, x: T, j: nat)
    requires k <= |s| && j <= |s|
    ensures Inserted(s, k, x)[j] == if j < k then s[j] else if j == k then x else s[j - 1]
  {
  }

  lemma FirstAfterInsert(heights: seq<nat>, k: nat, h: nat, j: nat, i: nat)
    requires j <= k <= |heights|
    ensures var m := First(heights, j, i);
            First(Inserted(heights, k, h), j, i) == if m < k then m else if h > i then k else m + 1
  {
    var hs, m := Inserted(heights, k, h), First(heights, j, i);
    FirstIs(hs, j, i, if m < k then m else if h > i then k else m + 1);
  }

  /** Every node is on level 0 and on none from `level` on. */
  ghost predicate Within(heights: seq<nat>, level: nat) {
    forall i | 0 <= i < |heights| :: 1 <= heights[i] <= level
  }

  lemma InsertHeights(heights: seq<nat>, k: nat, h: nat, level: nat)
    requires k <= |heights| && 1 <= h && Within(heights, level)
    ensures Within(Inserted(heights, k, h), if h > level then h else level)
  {
    var hs := Inserted(heights, k, h);
    forall i | 0 <= i < |hs|
      ensures 1 <= hs[i] <= if h > level then h else level
    {
      assert i > k ==> hs[i] == heights[i - 1];
    }
  }

  /** `level` is the number of levels in use. */
  ghost predicate Topped(heights: seq<nat>, level: nat) {
    level >= 1 && (level == 1 || First(heights, 0, level - 1) < |heights|)
  }

  lemma TopAfterInsert(heights: seq<nat>, k: nat, h: nat, level: nat)
    requires k <= |heights| && 1 <= h && Topped(heights, level)
    ensures Topped(Inserted(heights, k, h), if h > level then h else level)
  {
    FirstAfterInsert(heights, k, h, 0, (if h > level then h else level) - 1);
  }

  lemma FirstBeyondInsert(heights: seq<nat>, k: nat, h: nat, j: nat, i: nat)
    requires k <= j <= |heights|
    ensures First(Inserted(heights, k, h), j + 1, i) == First(heights, j, i) + 1
  {
    FirstIs(Inserted(heights, k, h), j + 1, i, First(heights, j, i) + 1);
  }

  lemma FirstAfterRemove(heights: seq<nat>, k: nat, j: nat, i: nat)
    requires j <= k < |heights|
    ensures var m := First(heights, j, i);
            First(Removed(heights, k), j, i) == if m < k then m else First(heights, k + 1, i) - 1
  {
    var hs, m := Removed(heights, k), First(heights, j, i);
    FirstIs(hs, j, i, if m < k then m else First(heights, k + 1, i) - 1);
  }

  lemma FirstBeyondRemove(heights: seq<nat>, k: nat, j: nat, i: nat)
    requires k < j <= |heights|
    ensures First(Removed(heights, k), j - 1, i) == First(heights, j, i) - 1
  {
    FirstIs(Removed(heights, k), j - 1, i, First(heights, j, i) - 1);
  }

  // ----- the links: position 0 is the header, position p the node at index p - 1 -----

  function NodeOrNull(nodes: seq<Node>, m: nat): Node? {
    if m < |nodes| then nodes[m] else null
  }

  function Height(heights: seq<nat>, p: nat): nat
    requires p <= |heights|
  {
    if p == 0 then ZSKIPLIST_MAXLEVEL else heights[p - 1]
  }

  /** The forward array at position p: every pointer leads to the next node on its level. */
  ghost predicate IsRow(row: seq<Node?>, nodes: seq<Node>, heights: seq<nat>, p: nat) {
    && p <= |heights| && |row| == Height(heights, p)
    && forall i | 0 <= i < |row| :: row[i] == NodeOrNull(nodes, First(heights, p, i))
  }

  ghost predicate Linked(rows: seq<seq<Node?>>, nodes: seq<Node>, heights: seq<nat>) {
    |rows| == |nodes| + 1 && |heights| == |nodes| && forall p | 0 <= p < |rows| :: IsRow(rows[p], nodes, heights, p)
  }

  /** The forward arrays of a chain of nodes. */
  ghost function Forwards(chain: seq<Node>): (rows: seq<seq<Node?>>)
    reads chain
  {
    seq(|chain|, p requires 0 <= p < |chain| reads chain => chain[p].forward)
  }

  lemma ForwardsInserted(chain: seq<Node>, k: nat, x: Node)
    requires k <= |chain|
    ensures Forwards(Inserted(chain, k, x)) == Inserted(Forwards(chain), k, x.forward)
  {
  }

  lemma ForwardsRemoved(chain: seq<Node>, k: nat)
    requires k < |chain|
    ensures Forwards(Removed(chain, k)) == Removed(Forwards(chain), k)
  {
  }

  lemma ChainRemoved(header: Node, nodes: seq<Node>, k: nat)
    requires k < |nodes|
    ensures [header] + Removed(nodes, k) == Removed([header] + nodes, k + 1)
  {
  }

  lemma ChainInserted(header: Node, nodes: seq<Node>, k: nat, x: Node)
    requires k <= |nodes|
    ensures [header] + Inserted(nodes, k, x) == Inserted([header] + nodes, k + 1, x)
  {
  }

  ghost predicate Distinct(chain: seq<Node>) {
    forall p, q | 0 <= p < q < |chain| :: chain[p] != chain[q]
  }

  lemma InsertDistinct(chain: seq<Node>, k: nat, x: Node)
    requires Distinct(chain) && k <= |chain| && x !in chain
    ensures Distinct(Inserted(chain, k, x))
  {
  }

  /** The last position before index k that is on level i. */
  ghost predicate Before(heights: seq<nat>, k: nat, i: nat, p: nat) {
    p <= k <= |heights| && Height(heights, p) > i && First(heights, p, i) >= k
  }

  lemma BeforeUnique(heights: seq<nat>, k: nat, i: nat, p: nat, q: nat)
    requires Before(heights, k, i, p) && Before(heights, k, i, q)
    ensures p == q
  {
  }

  /** That position. */
  function LastBefore(heights: seq<nat>, k: nat, i: nat): (p: nat)
    requires k <= |heights| && i < ZSKIPLIST_MAXLEVEL
    ensures Before(heights, k, i, p)
  {
    if k == 0 then 0 else if heights[k - 1] > i then k else LastBefore(heights, k - 1, i)
  }

  function Places(heights: seq<nat>, k: nat): (places: seq<nat>)
    requires k <= |heights|
    ensures |places| == ZSKIPLIST_MAXLEVEL
  {
    seq(ZSKIPLIST_MAXLEVEL, i requires 0 <= i < ZSKIPLIST_MAXLEVEL => LastBefore(heights, k, i))
  }

  ghost predicate Behind(heights: seq<nat>, k: nat, h: nat, update: seq<nat>) {
    |update| >= h && forall i | 0 <= i < h :: Before(heights, k, i, update[i])
  }

  /** A row whose pointers on the levels below n lead to x where `update` says so. */
  ghost predicate Spliced(row: seq<Node?>, was: seq<Node?>, p: nat, update: seq<nat>, n: nat, x: Node) {
    && |row| == |was| && n <= |update|
    && forall i | 0 <= i < |was| :: row[i] == if i < n && p == update[i] then x else was[i]
  }

  /** A row up to the insertion point, changed where `update` leads to it. */
  lemma RowBeforeInsert(row: seq<Node?>, nodes: seq<Node>, heights: seq<nat>, k: nat, h: nat, x: Node, p: nat,
                        update: seq<nat>, row': seq<Node?>)
    requires |heights| == |nodes| && p <= k <= |nodes| && IsRow(row, nodes, heights, p)
    requires Behind(heights, k, h, update)
    requires Spliced(row', row, p, update, h, x)
    ensures IsRow(row', Inserted(nodes, k, x), Inserted(heights, k, h), p)
  {
    var ns, hs := Inserted(nodes, k, x), Inserted(heights, k, h);
    forall i | 0 <= i < |row'|
      ensures row'[i] == NodeOrNull(ns, First(hs, p, i))
    {
      FirstAfterInsert(heights, k, h, p, i);
      if i < h && First(heights, p, i) >= k { BeforeUnique(heights, k, i, p, update[i]); }
    }
  }

  lemma LinkOfInsert(nodes: seq<Node>, heights: seq<nat>, k: nat, h: nat, x: Node, u: nat, i: nat)
    requires |heights| == |nodes| && k <= |nodes| && Before(heights, k, i, u)
    ensures NodeOrNull(Inserted(nodes, k, x), First(Inserted(heights, k, h), k + 1, i))
         == NodeOrNull(nodes, First(heights, u, i))
  {
    FirstBeyondInsert(heights, k, h, k, i);
    FirstIs(heights, k, i, First(heights, u, i));
  }

  /** The row of the inserted node. */
  lemma RowOfInsert(rows: seq<seq<Node?>>, nodes: seq<Node>, heights: seq<nat>, k: nat, h: nat, x: Node,
                    update: seq<nat>, row: seq<Node?>)
    requires Linked(rows, nodes, heights) && k <= |nodes| && Behind(heights, k, h, update)
    requires |row| == h && forall i | 0 <= i < h ::
               update[i] < |rows| && i < |rows[update[i]]| && row[i] == rows[update[i]][i]
    ensures IsRow(row, Inserted(nodes, k, x), Inserted(heights, k, h), k + 1)
  {
    forall i | 0 <= i < h
      ensures row[i] == NodeOrNull(Inserted(nodes, k, x), First(Inserted(heights, k, h), k + 1, i))
    {
      var u := update[i];
      assert Before(heights, k, i, u) && IsRow(rows[u], nodes, heights, u);
      LinkOfInsert(nodes, heights, k, h, x, u, i);
    }
  }

  lemma RowBeyondInsert(row: seq<Node?>, nodes: seq<Node>, heights: seq<nat>, k: nat, h: nat, x: Node, p: nat)
    requires |heights| == |nodes| && k < p <= |nodes| && IsRow(row, nodes, heights, p)
    ensures IsRow(row, Inserted(nodes, k, x), Inserted(heights, k, h), p + 1)
  {
    forall i | 0 <= i < |row|
      ensures row[i] == NodeOrNull(Inserted(nodes, k, x), First(Inserted(heights, k, h), p + 1, i))
    {
      FirstBeyondInsert(heights, k, h, p, i);
    }
  }

  lemma BeyondUnspliced(row: seq<Node?>, was: seq<Node?>, p: nat, heights: seq<nat>, k: nat, h: nat, x: Node,
                        update: seq<nat>)
    requires Behind(heights, k, h, update) && k < p && Spliced(row, was, p, update, h, x)
    ensures row == was
  {
    forall i | 0 <= i < |row|
      ensures row[i] == was[i]
    {
      if i < h { assert Before(heights, k, i, update[i]); }
    }
  }

  /** All rows after x of height h went in at index k, behind the positions `update`. */
  lemma RowFarBeyond(row: seq<Node?>, nodes: seq<Node>, heights: seq<nat>, k: nat, h: nat, x: Node, p: nat,
                     update: seq<nat>, row': seq<Node?>)
    requires |heights| == |nodes| && k < p <= |nodes| && IsRow(row, nodes, heights, p)
    requires Behind(heights, k, h, update) && Spliced(row', row, p, update, h, x)
    ensures IsRow(row', Inserted(nodes, k, x), Inserted(heights, k, h), p + 1)
  {
    BeyondUnspliced(row', row, p, heights, k, h, x, update);
    RowBeyondInsert(row, nodes, heights, k, h, x, p);
  }

  /** The rows to splice from, and the row of the new node. */
  ghost predicate Splicing(rows: seq<seq<Node?>>, nodes: seq<Node>, heights: seq<nat>, k: nat, h: nat, x: Node,
                           update: seq<nat>, rows': seq<seq<Node?>>, row: seq<Node?>) {
    && k <= |nodes| && Behind(heights, k, h, update)
    && |rows'| == |rows| == |nodes| + 1 && (forall p | 0 <= p <= |nodes| :: Spliced(rows'[p], rows[p], p, update, h, x))
    && |row| == h
    && forall i | 0 <= i < h ::
         update[i] < |rows| && i < |rows[update[i]]| && row[i] == rows[update[i]][i]
  }

  lemma RowAfterInsert(rows: seq<seq<Node?>>, nodes: seq<Node>, heights: seq<nat>, k: nat, h: nat, x: Node,
                       update: seq<nat>, rows': seq<seq<Node?>>, row: seq<Node?>, p: nat)
    requires Linked(rows, nodes, heights) && Splicing(rows, nodes, heights, k, h, x, update, rows', row)
    requires p <= |nodes| + 1
    ensures IsRow(Inserted(rows', k + 1, row)[p], Inserted(nodes, k, x), Inserted(heights, k, h), p)
  {
    InsertedAt(rows', k + 1, row, p);
    if p <= k {
      RowBeforeInsert(rows[p], nodes, heights, k, h, x, p, update, rows'[p]);
    } else if p == k + 1 {
      RowOfInsert(rows, nodes, heights, k, h, x, update, row);
    } else {
      RowFarBeyond(rows[p - 1], nodes, heights, k, h, x, p - 1, update, rows'[p - 1]);
    }
  }

  lemma RowsAfterInsert(rows: seq<seq<Node?>>, nodes: seq<Node>, heights: seq<nat>, k: nat, h: nat, x: Node,
                        update: seq<nat>, rows': seq<seq<Node?>>, row: seq<Node?>)
    requires Linked(rows, nodes, heights) && k <= |nodes| && Behind(heights, k, h, update)
    requires |rows'| == |rows| && forall p | 0 <= p <= |nodes| :: Spliced(rows'[p], rows[p], p, update, h, x)
    requires |row| == h && forall i | 0 <= i < h ::
               update[i] < |rows| && i < |rows[update[i]]| && row[i] == rows[update[i]][i]
    ensures Linked(Inserted(rows', k + 1, row), Inserted(nodes, k, x), Inserted(heights, k, h))
  {
    assert Splicing(rows, nodes, heights, k, h, x, update, rows', row);
    var rows'' := Inserted(rows', k + 1, row);
    forall p | 0 <= p < |rows''|
      ensures IsRow(rows''[p], Inserted(nodes, k, x), Inserted(heights, k, h), p)
    {
      RowAfterInsert(rows, nodes, heights, k, h, x, update, rows', row, p);
    }
  }

  /** A row whose pointers on the levels below n lead on as in `gone` where `update` says so. */
  ghost predicate Bypassed(row: seq<Node?>, was: seq<Node?>, p: nat, update: seq<nat>, n: nat, gone: seq<Node?>) {
    && |row| == |was| && n <= |update| && n <= |gone|
    && forall i | 0 <= i < |was| :: row[i] == if i < n && p == update[i] then gone[i] else was[i]
  }

  lemma BeyondBypassed(row: seq<Node?>, was: seq<Node?>, p: nat, heights: seq<nat>, k: nat, gone: seq<Node?>,
                       update: seq<nat>)
    requires k < |heights| && k < p && Behind(heights, k, heights[k], update)
    requires Bypassed(row, was, p, update, heights[k], gone)
    ensures row == was
  {
    forall i | 0 <= i < |row|
      ensures row[i] == was[i]
    {
      if i < heights[k] { assert Before(heights, k, i, update[i]); }
    }
  }

  lemma RowBeforeRemove(row: seq<Node?>, nodes: seq<Node>, heights: seq<nat>, k: nat, gone: seq<Node?>, p: nat,
                        update: seq<nat>, row': seq<Node?>)
    requires |heights| == |nodes| && p <= k < |nodes| && IsRow(row, nodes, heights, p)
    requires IsRow(gone, nodes, heights, k + 1) && Behind(heights, k, heights[k], update)
    requires Bypassed(row', row, p, update, heights[k], gone)
    ensures IsRow(row', Removed(nodes, k), Removed(heights, k), p)
  {
    var ns, hs := Removed(nodes, k), Removed(heights, k);
    forall i | 0 <= i < |row'|
      ensures row'[i] == NodeOrNull(ns, First(hs, p, i))
    {
      FirstAfterRemove(heights, k, p, i);
      if First(heights, p, i) >= k {
        if i < heights[k] {
          BeforeUnique(heights, k, i, p, update[i]);
        } else {
          FirstIs(heights, k + 1, i, First(heights, p, i));
        }
      }
    }
  }

  lemma RowBeyondRemove(row: seq<Node?>, nodes: seq<Node>, heights: seq<nat>, k: nat, p: nat)
    requires |heights| == |nodes| && k + 1 < p <= |nodes| && IsRow(row, nodes, heights, p)
    ensures IsRow(row, Removed(nodes, k), Removed(heights, k), p - 1)
  {
    forall i | 0 <= i < |row|
      ensures row[i] == NodeOrNull(Removed(nodes, k), First(Removed(heights, k), p - 1, i))
    {
      FirstBeyondRemove(heights, k, p, i);
    }
  }

  /** All rows after the node at index k went out, behind the positions `update`. */
  lemma RowsAfterRemove(rows: seq<seq<Node?>>, nodes: seq<Node>, heights: seq<nat>, k: nat, update: seq<nat>,
                        rows': seq<seq<Node?>>)
    requires Linked(rows, nodes, heights) && k < |nodes| && Behind(heights, k, heights[k], update)
    requires |rows'| == |rows|
    requires forall p | 0 <= p <= |nodes| :: Bypassed(rows'[p], rows[p], p, update, heights[k], rows[k + 1])
    ensures Linked(Removed(rows', k + 1), Removed(nodes, k), Removed(heights, k))
  {
    var rows'' := Removed(rows', k + 1);
    forall p | 0 <= p < |rows''|
      ensures IsRow(rows''[p], Removed(nodes, k), Removed(heights, k), p)
    {
      if p <= k {
        assert rows''[p] == rows'[p];
        RowBeforeRemove(rows[p], nodes, heights, k, rows[k + 1], p, update, rows'[p]);
      } else {
        assert rows''[p] == rows'[p + 1];
        BeyondBypassed(rows'[p + 1], rows[p + 1], p + 1, heights, k, rows[k + 1], update);
        RowBeyondRemove(rows[p + 1], nodes, heights, k, p + 1);
      }
    }
  }

  // ----- the whole list -----

  /** The list, by the forward arrays of the header and the nodes. */
  ghost predicate Woven(header: Node, rows: seq<seq<Node?>>, nodes: seq<Node>, heights: seq<nat>, level: nat) {
    && Linked(rows, nodes, heights) && 1 <= level <= ZSKIPLIST_MAXLEVEL && Within(heights, level)
    && header !in nodes && Distinct(nodes) && Sorted(nodes)
  }

  lemma InsertKeeps(header: Node, rows: seq<seq<Node?>>, nodes: seq<Node>, heights: seq<nat>, level: nat, k: nat,
                    h: nat, x: Node, update: seq<nat>, rows': seq<seq<Node?>>, row: seq<Node?>)
    requires Woven(header, rows, nodes, heights, level) && Topped(heights, level) && 1 <= h <= ZSKIPLIST_MAXLEVEL
    requires x !in nodes && x != header && k <= |nodes| && Sorted(Inserted(nodes, k, x))
    requires Behind(heights, k, h, update)
    requires |rows'| == |rows| && forall p | 0 <= p <= |nodes| :: Spliced(rows'[p], rows[p], p, update, h, x)
    requires |row| == h && forall i | 0 <= i < h ::
               update[i] < |rows| && i < |rows[update[i]]| && row[i] == rows[update[i]][i]
    ensures var top := if h > level then h else level;
            && Woven(header, Inserted(rows', k + 1, row), Inserted(nodes, k, x), Inserted(heights, k, h), top)
            && Topped(Inserted(heights, k, h), top)
  {
    RowsAfterInsert(rows, nodes, heights, k, h, x, update, rows', row);
    TopAfterInsert(heights, k, h, level);
    InsertDistinct(nodes, k, x);
    InsertHeights(heights, k, h, level);
  }

  lemma RemoveKeeps(header: Node, rows: seq<seq<Node?>>, nodes: seq<Node>, heights: seq<nat>, level: nat, k: nat,
                    update: seq<nat>, rows': seq<seq<Node?>>)
    requires Woven(header, rows, nodes, heights, level) && k < |nodes|
    requires Behind(heights, k, heights[k], update) && |rows'| == |rows|
    requires forall p | 0 <= p <= |nodes| :: Bypassed(rows'[p], rows[p], p, update, heights[k], rows[k + 1])
    ensures Woven(header, Removed(rows', k + 1), Removed(nodes, k), Removed(heights, k), level)
  {
    RowsAfterRemove(rows, nodes, heights, k, update, rows');
  }

  ghost predicate AllSpliced(rows': seq<seq<Node?>>, rows: seq<seq<Node?>>, update: seq<nat>, h: nat, x: Node) {
    |rows'| == |rows| && forall p | 0 <= p < |rows| :: Spliced(rows'[p], rows[p], p, update, h, x)
  }

  lemma ForwardsSpliced(chain: seq<Node>, rows: seq<seq<Node?>>, update: seq<nat>, h: nat, x: Node)
    requires |rows| == |chain| && forall p | 0 <= p < |chain| :: Spliced(chain[p].forward, rows[p], p, update, h, x)
    ensures AllSpliced(Forwards(chain), rows, update, h, x)
  {
  }

  lemma InsertWoven(header: Node, rows: seq<seq<Node?>>, nodes: seq<Node>, heights: seq<nat>, level: nat, h: nat,
                    x: Node, update: seq<nat>)
    requires Woven(header, rows, nodes, heights, level) && Topped(heights, level) && 1 <= h <= ZSKIPLIST_MAXLEVEL
    requires x !in nodes && x != header && Behind(heights, Rank(nodes, x.score), h, update)
    requires AllSpliced(Forwards([header] + nodes), rows, update, h, x)
    requires |x.forward| == h && forall i | 0 <= i < h ::
               update[i] < |rows| && i < |rows[update[i]]| && x.forward[i] == rows[update[i]][i]
    ensures var k, top := Rank(nodes, x.score), if h > level then h else level;
            && Woven(header, Inserted(Forwards([header] + nodes), k + 1, x.forward), Inserted(nodes, k, x),
                     Inserted(heights, k, h), top)
            && Topped(Inserted(heights, k, h), top)
  {
    InsertSorted(nodes, x);
    InsertKeeps(header, rows, nodes, heights, level, Rank(nodes, x.score), h, x, update, Forwards([header] + nodes),
                x.forward);
  }

  lemma RowsInserted(header: Node, nodes: seq<Node>, k: nat, x: Node)
    requires k <= |nodes|
    ensures Forwards([header] + Inserted(nodes, k, x)) == Inserted(Forwards([header] + nodes), k + 1, x.forward)
  {
    ForwardsInserted([header] + nodes, k + 1, x);
    ChainInserted(header, nodes, k, x);
  }

  /** The list once x of height h hangs behind the nodes `update` of the list whose rows were `rows`. */
  lemma InsertDone(header: Node, rows: seq<seq<Node?>>, nodes: seq<Node>, heights: seq<nat>, level: nat, h: nat,
                 x: Node, update: seq<nat>)
    requires Woven(header, rows, nodes, heights, level) && Topped(heights, level) && 1 <= h <= ZSKIPLIST_MAXLEVEL
    requires x !in nodes && x != header && Behind(heights, Rank(nodes, x.score), h, update)
    requires AllSpliced(Forwards([header] + nodes), rows, update, h, x)
    requires |x.forward| == h && forall i | 0 <= i < h ::
               update[i] < |rows| && i < |rows[update[i]]| && x.forward[i] == rows[update[i]][i]
    ensures var k, top := Rank(nodes, x.score), if h > level then h else level;
            && Woven(header, Forwards([header] + Inserted(nodes, k, x)), Inserted(nodes, k, x),
                     Inserted(heights, k, h), top)
            && Topped(Inserted(heights, k, h), top)
  {
    InsertWoven(header, rows, nodes, heights, level, h, x, update);
    RowsInserted(header, nodes, Rank(nodes, x.score), x);
  }

  /** The list once the node at index k is bypassed by the nodes `update`. */
  lemma RemoveDone(header: Node, rows: seq<seq<Node?>>, nodes: seq<Node>, heights: seq<nat>, level: nat, k: nat,
                   update: seq<nat>)
    requires Woven(header, rows, nodes, heights, level) && k < |nodes| && Behind(heights, k, heights[k], update)
    requires forall p | 0 <= p <= |nodes| ::
               Bypassed(([header] + nodes)[p].forward, rows[p], p, update, heights[k], rows[k + 1])
    ensures Woven(header, Forwards([header] + Removed(nodes, k)), Removed(nodes, k), Removed(heights, k), level)
  {
    var chain := [header] + nodes;
    RemoveKeeps(header, rows, nodes, heights, level, k, update, Forwards(chain));
    ForwardsRemoved(chain, k + 1);
    ChainRemoved(header, nodes, k);
  }

  /** A pointer behind which index k lies leads to the node there exactly when that node is on its level. */
  lemma LeadsTo(row: seq<Node?>, nodes: seq<Node>, heights: seq<nat>, k: nat, i: nat, p: nat)
    requires IsRow(row, nodes, heights, p) && |nodes| == |heights| && Distinct(nodes) && k < |nodes|
    requires Before(heights, k, i, p)
    ensures i < |row| && (row[i] == nodes[k] <==> i < heights[k])
  {
  }

  // ----- the order in which timers leave the list -----

  lemma InsertSorted(nodes: seq<Node>, x: Node)
    requires Sorted(nodes)
    ensures Sorted(Inserted(nodes, Rank(nodes, x.score), x))
  {
  }

  /** The list after the nodes `xs` were inserted one after the other. */
  ghost function InsertAll(xs: seq<Node>): (nodes: seq<Node>)
    ensures |nodes| == |xs|
  {
    if xs == [] then [] else
      var x, nodes := xs[|xs| - 1], InsertAll(xs[..|xs| - 1]);
      Inserted(nodes, Rank(nodes, x.score), x)
  }

  lemma {:induction false} InsertAllSorted(xs: seq<Node>)
    ensures Sorted(InsertAll(xs))
  {
    if xs != [] {
      InsertAllSorted(xs[..|xs| - 1]);
      InsertSorted(InsertAll(xs[..|xs| - 1]), xs[|xs| - 1]);
    }
  }

  lemma {:induction false} InsertedOne(xs: seq<Node>, j: nat)
    requires j < |xs|
    ensures InsertAll(xs)[j] in xs
  {
    var x, nodes := xs[|xs| - 1], InsertAll(xs[..|xs| - 1]);
    var k := Rank(nodes, x.score);
    InsertedAt(nodes, k, x, j);
    if j != k { InsertedOne(xs[..|xs| - 1], if j > k then j - 1 else j); }
  }

  /** Among timers with one expiry the one added last comes first. */
  lemma {:induction false} LatestFirst(xs: seq<Node>, a: nat, b: nat, i: nat, j: nat)
    requires Distinct(xs) && a < b < |xs| && xs[a].score == xs[b].score
    requires i < |xs| && j < |xs| && InsertAll(xs)[i] == xs[a] && InsertAll(xs)[j] == xs[b]
    ensures j < i
  {
    var n := |xs| - 1;
    var x, before := xs[n], xs[..n];
    var nodes := InsertAll(before);
    var k := Rank(nodes, x.score);
    InsertedAt(nodes, k, x, i);
    InsertedAt(nodes, k, x, j);
    assert InsertAll(xs) == Inserted(nodes, k, x);
    if b == n {
      if j != k { InsertedOne(before, if j < k then j else j - 1); }
    } else {
      LatestFirst(before, a, b, if i > k then i - 1 else i, if j > k then j - 1 else j);
    }
  }

  // ----- handlers that insert timers -----

  /** A timer to be added: its expiry and its random level. */
  datatype Addition = Addition(score: nat, height: nat)

  ghost function Placed(nodes: seq<Node>, x: Node): (all: seq<Node>)
    ensures |all| == |nodes| + 1
  {
    Inserted(nodes, Rank(nodes, x.score), x)
  }

  /** The list `nodes` after the nodes `xs` were inserted one after the other. */
  ghost function Grown(nodes: seq<Node>, xs: seq<Node>): (all: seq<Node>)
    ensures |all| == |nodes| + |xs|
    decreases |xs|
  {
    if xs == [] then nodes else Grown(Placed(nodes, xs[0]), xs[1..])
  }

  lemma GrownCons(nodes: seq<Node>, x: Node, xs: seq<Node>)
    ensures Grown(nodes, [x] + xs) == Grown(Placed(nodes, x), xs)
  {
    assert ([x] + xs)[1..] == xs;
  }

  /** How many of the nodes expire no later than `score`. */
  function Early(xs: seq<Node>, score: nat): (m: nat)
    ensures m <= |xs| && (m == 0 <==> forall n <- xs :: n.score > score)
  {
    if xs == [] then 0 else (if xs[0].score <= score then 1 else 0) + Early(xs[1..], score)
  }

  /** x is at index p, behind nodes of the pool only. */
  ghost predicate Sits(nodes: seq<Node>, p: nat, x: Node, pool: set<Node>) {
    p < |nodes| && nodes[p] == x && forall j | 0 <= j < p :: nodes[j] in pool
  }

  lemma SitsAfter(nodes: seq<Node>, k: nat, n: Node, p: nat, x: Node, pool: set<Node>)
    requires k <= |nodes| && Sits(nodes, p, x, pool) && n in pool
    ensures Sits(Inserted(nodes, k, n), if k <= p then p + 1 else p, x, pool)
  {
    var q, all := if k <= p then p + 1 else p, Inserted(nodes, k, n);
    InsertedAt(nodes, k, n, q);
    forall j | 0 <= j < q
      ensures all[j] in pool
    {
      InsertedAt(nodes, k, n, j);
    }
  }

  lemma RankBefore(nodes: seq<Node>, score: nat, p: nat)
    requires Sorted(nodes) && p < |nodes|
    ensures Rank(nodes, score) <= p <==> score <= nodes[p].score
  {
  }

  /** One insertion moves a node back exactly if the new node expires no later. */
  lemma MovedBack(nodes: seq<Node>, n: Node, p: nat, x: Node, pool: set<Node>)
    requires Sorted(nodes) && Sits(nodes, p, x, pool) && n in pool
    ensures Sorted(Placed(nodes, n)) && Sits(Placed(nodes, n), if n.score <= x.score then p + 1 else p, x, pool)
  {
    InsertSorted(nodes, n);
    RankBefore(nodes, n.score, p);
    SitsAfter(nodes, Rank(nodes, n.score), n, p, x, pool);
  }

  /** Where a node is after insertions: behind the new nodes that expire no later, and them alone. */
  lemma {:induction false} GrownBack(nodes: seq<Node>, xs: seq<Node>, p: nat, x: Node, pool: set<Node>)
    requires Sorted(nodes) && Sits(nodes, p, x, pool) && forall n <- xs :: n in pool
    ensures Sorted(Grown(nodes, xs)) && Sits(Grown(nodes, xs), p + Early(xs, x.score), x, pool)
    decreases |xs|
  {
    if xs != [] {
      MovedBack(nodes, xs[0], p, x, pool);
      GrownBack(Placed(nodes, xs[0]), xs[1..], if xs[0].score <= x.score then p + 1 else p, x, pool);
    }
  }

  lemma BehindNew(all: seq<Node>, m: nat, x: Node, xs: seq<Node>)
    requires Sorted(all) && Sits(all, m, x, set n | n in xs) && x !in xs
    ensures (all[0] == x <==> m == 0) && forall j | 0 <= j < m :: all[j] in xs && all[j].score <= x.score
  {
  }

  /** What `zslDeleteHead` finds after the handler of the first timer has inserted timers: that timer if and
      only if each of them expires later.  Else it finds a new one, and the old timer is still in the list,
      behind new timers that expire no later than it does. */
  lemma HandlerInserts(nodes: seq<Node>, xs: seq<Node>)
    requires Sorted(nodes) && nodes != [] && nodes[0] !in xs
    ensures var x, all, m := nodes[0], Grown(nodes, xs), Early(xs, nodes[0].score);
            && (all[0] == x <==> forall n <- xs :: n.score > x.score)
            && m < |all| && all[m] == x && forall j | 0 <= j < m :: all[j] in xs && all[j].score <= x.score
  {
    var x := nodes[0];
    GrownBack(nodes, xs, 0, x, set n | n in xs);
    BehindNew(Grown(nodes, xs), Early(xs, x.score), x, xs);
  }

  lemma HandlerOutcome(nodes: seq<Node>, xs: seq<Node>, adds: seq<Addition>)
    requires Sorted(nodes) && nodes != [] && nodes[0] !in xs && Distinct(Grown(nodes, xs))
    requires |xs| == |adds| && forall i | 0 <= i < |xs| :: xs[i].score == adds[i].score
    ensures nodes[0] !in Grown(nodes, xs)[1..] <==> forall a <- adds :: a.score > nodes[0].score
  {
    HandlerInserts(nodes, xs);
    var all, m := Grown(nodes, xs), Early(xs, nodes[0].score);
    if m > 0 { assert all[1..][m - 1] == nodes[0]; }
    assert (forall n <- xs :: n.score > nodes[0].score) <==> forall a <- adds :: a.score > nodes[0].score by {
      assert forall i | 0 <= i < |xs| :: xs[i] in xs && adds[i] in adds;
    }
  }

  lemma RemovedDiffer<T>(s: seq<T>, k: nat, j: nat)
    requires k < j < |s| && s[k] != s[k + 1]
    ensures Removed(s, k) != Removed(s, j)
  {
    assert Removed(s, k)[k] == s[k + 1] && Removed(s, j)[k] == s[k];
  }

  /** Deleting by a node's score takes out that very node exactly when no earlier node has its score. */
  lemma DeletesItself(nodes: seq<Node>, j: nat)
    requires Sorted(nodes) && j < |nodes| && Distinct(nodes)
    ensures Removed(nodes, Rank(nodes, nodes[j].score)) == Removed(nodes, j)
       <==> (j == 0 || nodes[j - 1].score < nodes[j].score)
  {
    var k := Rank(nodes, nodes[j].score);
    if k < j {
      RemovedDiffer(nodes, k, j);
      assert nodes[k].score <= nodes[j - 1].score;
    } else {
      assert k == j;
    }
  }

  /** Of two timers with one score, deleting the second takes out the first. */
  lemma DeletesAnother(a: Node, b: Node)
    requires a != b && a.score == b.score
    ensures Removed([a, b], Rank([a, b], b.score)) == [b]
  {
  }

  /** Hangs x behind the nodes in `update`, on the levels it has. */
  method Splice(x: Node, update: seq<Node>, ghost chain: seq<Node>, ghost places: seq<nat>,
                ghost rows: seq<seq<Node?>>)
    requires Distinct(chain) && x !in chain && rows == Forwards(chain)
    requires |x.forward| <= |update| && |x.forward| <= |places|
    requires forall i | 0 <= i < |x.forward| ::
               places[i] < |chain| && update[i] == chain[places[i]] && i < |rows[places[i]]|
    modifies x, chain
    ensures |x.forward| == old(|x.forward|)
    ensures forall i | 0 <= i < |x.forward| :: x.forward[i] == rows[places[i]][i]
    ensures forall p | 0 <= p < |chain| :: Spliced(chain[p].forward, rows[p], p, places, |x.forward|, x)
  {
    for i := 0 to |x.forward|
      invariant |x.forward| == old(|x.forward|)
      invariant forall j | 0 <= j < i :: x.forward[j] == rows[places[j]][j]
      invariant forall p | 0 <= p < |chain| :: Spliced(chain[p].forward, rows[p], p, places, i, x)
    {
      var u := update[i];
      assert Spliced(chain[places[i]].forward, rows[places[i]], places[i], places, i, x);
      x.forward := x.forward[i := u.forward[i]];
      u.forward := u.forward[i := x];
    }
  }

  /** The turn of the loop for level i: x, the node at index q of the chain, is on the levels below h. */
  method BypassLevel(x: Node, u: Node, i: nat, ghost chain: seq<Node>, ghost places: seq<nat>, ghost h: nat,
                     ghost rows: seq<seq<Node?>>, ghost q: nat)
    requires Distinct(chain) && |rows| == |chain| && q < |chain| && x == chain[q] && h <= |rows[q]|
    requires i < |places| && places[i] < |chain| && u == chain[places[i]] && i < |rows[places[i]]|
    requires rows[places[i]][i] == x <==> i < h
    requires forall p | 0 <= p < |chain| ::
               Bypassed(chain[p].forward, rows[p], p, places, if i < h then i else h, rows[q])
    modifies u
    ensures forall p | 0 <= p < |chain| ::
              Bypassed(chain[p].forward, rows[p], p, places, if i + 1 < h then i + 1 else h, rows[q])
  {
    assert Bypassed(u.forward, rows[places[i]], places[i], places, if i < h then i else h, rows[q]);
    assert Bypassed(x.forward, rows[q], q, places, if i < h then i else h, rows[q]);
    if u.forward[i] == x {
      u.forward := u.forward[i := x.forward[i]];
    }
  }

  /** Lets the nodes in `update` lead past x, the node at index k. */
  method Unsplice(x: Node, update: seq<Node>, level: nat, ghost chain: seq<Node>, ghost places: seq<nat>,
                  ghost nodes: seq<Node>, ghost heights: seq<nat>, ghost k: nat, ghost rows: seq<seq<Node?>>)
    requires Distinct(chain) && Distinct(nodes) && rows == Forwards(chain) && Linked(rows, nodes, heights)
    requires k < |nodes| && x == nodes[k] == chain[k + 1] && heights[k] <= level
    requires Behind(heights, k, level, places) && level <= |update|
    requires forall i | 0 <= i < level :: update[i] == chain[places[i]]
    modifies chain
    ensures forall p | 0 <= p < |chain| :: Bypassed(chain[p].forward, rows[p], p, places, heights[k], rows[k + 1])
  {
    for i := 0 to level
      invariant forall p | 0 <= p < |chain| ::
                  Bypassed(chain[p].forward, rows[p], p, places, if i < heights[k] then i else heights[k], rows[k + 1])
    {
      var u := update[i];
      assert Before(heights, k, i, places[i]);
      LeadsTo(rows[places[i]], nodes, heights, k, i, places[i]);
      BypassLevel(x, u, i, chain, places, heights[k], rows, k + 1);
    }
  }

  /** From level i on `update` holds the last nodes before index k. */
  ghost predicate Found(update: seq<Node>, chain: seq<Node>, heights: seq<nat>, k: nat, i: nat) {
    && |chain| == |heights| + 1 && k <= |heights| && |update| == ZSKIPLIST_MAXLEVEL
    && forall j | i <= j < ZSKIPLIST_MAXLEVEL :: update[j] == chain[LastBefore(heights, k, j)]
  }

  lemma FoundNext(update: seq<Node>, chain: seq<Node>, heights: seq<nat>, k: nat, i: nat, x: Node)
    requires i < ZSKIPLIST_MAXLEVEL && Found(update, chain, heights, k, i + 1) && x == chain[LastBefore(heights, k, i)]
    ensures Found(update[i := x], chain, heights, k, i)
  {
  }

  lemma FiredNext(was: seq<Node>, fired: seq<Node>, x: Node)
    requires |fired| < |was| && fired == was[..|fired|] && x == was[|fired|]
    ensures fired + [x] == was[..|fired| + 1] && was[|fired|..][1..] == was[|fired| + 1..]
  {
  }

  class SkipList {
    const header: Node
    var level: nat
    var length: nat
    /** The nodes from the header on, and the number of levels each is on. */
    ghost var base: seq<Node>
    ghost var heights: seq<nat>

    ghost function Chain(): (chain: seq<Node>)
      reads this
    {
      [header] + base
    }

    ghost predicate Valid()
      reads this, header, base
    {
      length == |base| && Woven(header, Forwards(Chain()), base, heights, level) && Topped(heights, level)
    }

    constructor ()
      ensures Valid() && base == [] && fresh(header)
    {
      header := new Node(ZSKIPLIST_MAXLEVEL, 0);
      level, length := 1, 0;
      base, heights := [], [];
    }

    /** Walks along level i to the last node that scores less. */
    method Walk(start: Node, i: nat, score: nat, ghost from: nat) returns (x: Node)
      requires Valid() && i < level && from <= Rank(base, score) && start == Chain()[from] && Height(heights, from) > i
      ensures x == Chain()[LastBefore(heights, Rank(base, score), i)]
    {
      ghost var rows, k, p := Forwards(Chain()), Rank(base, score), from;
      x := start;
      assert IsRow(rows[p], base, heights, p);
      while x.forward[i] != null && x.forward[i].score < score
        invariant p <= k && x == Chain()[p] && Height(heights, p) > i && IsRow(x.forward, base, heights, p)
        decreases |base| - p
      {
        p := First(heights, p, i) + 1;
        x := x.forward[i];
        assert IsRow(rows[p], base, heights, p);
      }
      BeforeUnique(heights, k, i, p, LastBefore(heights, k, i));
    }

    /** Above the used levels there is only the header. */
    lemma FoundAbove(update: seq<Node>, k: nat)
      requires Valid() && k <= |heights| && |update| == ZSKIPLIST_MAXLEVEL
      requires forall j | 0 <= j < |update| :: update[j] == header
      ensures Found(update, Chain(), heights, k, level)
    {
      forall j | level <= j < ZSKIPLIST_MAXLEVEL
        ensures LastBefore(heights, k, j) == 0
      {
        BeforeUnique(heights, k, j, 0, LastBefore(heights, k, j));
      }
    }

    /** Where the walk on the level below i starts. */
    ghost predicate Entry(x: Node, i: nat, k: nat)
      reads this
      requires |base| == |heights| && k <= |heights| && level <= ZSKIPLIST_MAXLEVEL
    {
      if i >= level then x == header else x == Chain()[LastBefore(heights, k, i)]
    }

    lemma EntryBefore(x: Node, i: nat, k: nat) returns (from: nat)
      requires Valid() && 0 < i <= level && k <= |heights| && Entry(x, i, k)
      ensures from <= k && x == Chain()[from] && Height(heights, from) > i - 1
    {
      from := if i == level then 0 else LastBefore(heights, k, i);
    }

    /** On each level the last node that scores less, or the header. */
    method Search(score: nat) returns (update: seq<Node>)
      requires Valid()
      ensures |update| == ZSKIPLIST_MAXLEVEL
      ensures forall i | 0 <= i < ZSKIPLIST_MAXLEVEL :: update[i] == Chain()[LastBefore(heights, Rank(base, score), i)]
    {
      ghost var k := Rank(base, score);
      update := seq(ZSKIPLIST_MAXLEVEL, _ => header);
      FoundAbove(update, k);
      var x, i := header, level;
      while i > 0
        invariant 0 <= i <= level && |update| == ZSKIPLIST_MAXLEVEL
        invariant Entry(x, i, k)
        invariant Found(update, Chain(), heights, k, i)
      {
        ghost var from := EntryBefore(x, i, k);
        x := Walk(x, i - 1, score, from);
        i := i - 1;
        FoundNext(update, Chain(), heights, k, i, x);
        update := update[i := x];
      }
    }

    /** Makes a node of `height` levels and hangs it where `Search` leads. */
    method Hang(score: nat, height: nat) returns (x: Node)
      requires Valid() && 1 <= height <= ZSKIPLIST_MAXLEVEL
      modifies header, base
      ensures fresh(x) && x.score == score
      ensures var k, top := Rank(base, score), if height > level then height else level;
              && Woven(header, Forwards([header] + Inserted(base, k, x)), Inserted(base, k, x),
                       Inserted(heights, k, height), top)
              && Topped(Inserted(heights, k, height), top)
    {
      ghost var rows := Forwards(Chain());
      ghost var places := Places(heights, Rank(base, score));
      var update := Search(score);
      x := new Node(height, score);
      Splice(x, update, Chain(), places, rows);
      ForwardsSpliced(Chain(), rows, places, height, x);
      InsertDone(header, rows, base, heights, level, height, x, places);
    }

    /** The node goes before the first one that does not score less; the random level is a parameter. */
    method Insert(score: nat, height: nat) returns (x: Node)
      requires Valid() && 1 <= height <= ZSKIPLIST_MAXLEVEL
      modifies this, header, base
      ensures Valid() && fresh(x) && x.score == score
      ensures base == Inserted(old(base), Rank(old(base), score), x)
      ensures heights == Inserted(old(heights), Rank(old(base), score), height)
    {
      ghost var k := Rank(base, score);
      x := Hang(score, height);
      if height > level { level := height; }
      length := length + 1;
      base, heights := Inserted(base, k, x), Inserted(heights, k, height);
    }

    /** The node that expires first. */
    method Min() returns (x: Node?)
      requires Valid()
      ensures x == NodeOrNull(base, 0)
    {
      assert IsRow(Forwards(Chain())[0], base, heights, 0);
      x := header.forward[0];
    }

    /** Gives up the topmost levels that hold no node any more. */
    method Trim()
      requires Woven(header, Forwards(Chain()), base, heights, level)
      modifies this`level
      ensures Woven(header, Forwards(Chain()), base, heights, level) && Topped(heights, level)
    {
      assert IsRow(Forwards(Chain())[0], base, heights, 0);
      while level > 1 && header.forward[level - 1] == null
        invariant Woven(header, Forwards(Chain()), base, heights, level) && IsRow(header.forward, base, heights, 0)
      {
        level := level - 1;
      }
    }

    /** Lets the header lead past the first node. */
    method BypassHead(x: Node)
      requires Valid() && base != [] && x == base[0]
      modifies header
      ensures Woven(header, Forwards([header] + Removed(base, 0)), Removed(base, 0), Removed(heights, 0), level)
    {
      ghost var rows, n := Forwards(Chain()), heights[0];
      assert IsRow(rows[0], base, heights, 0) && IsRow(rows[1], base, heights, 1);
      var i := level;
      while i > 0
        invariant 0 <= i <= level && |header.forward| == |rows[0]|
        invariant forall j | 0 <= j < |rows[0]| ::
                    header.forward[j] == if i <= j < n then rows[1][j] else rows[0][j]
      {
        i := i - 1;
        LeadsTo(rows[0], base, heights, 0, i, 0);
        if header.forward[i] == x { header.forward := header.forward[i := x.forward[i]]; }
      }
      RemoveDone(header, rows, base, heights, level, 0, seq(level, _ => 0 as nat));
    }

    method DeleteHead()
      requires Valid()
      modifies this, header
      ensures Valid() && base == (if old(base) == [] then [] else old(base)[1..])
      ensures heights == if old(base) == [] then [] else old(heights)[1..]
    {
      var x := Min();
      if x == null { return; }
      BypassHead(x);
      base, heights := Removed(base, 0), Removed(heights, 0);
      Trim();
      length := length - 1;
    }

    method BypassNode(x: Node, update: seq<Node>, ghost k: nat)
      requires Valid() && k < |base| && x == base[k] && |update| == ZSKIPLIST_MAXLEVEL
      requires forall i | 0 <= i < ZSKIPLIST_MAXLEVEL :: update[i] == Chain()[LastBefore(heights, k, i)]
      modifies header, base
      ensures Woven(header, Forwards([header] + Removed(base, k)), Removed(base, k), Removed(heights, k), level)
    {
      ghost var rows, places := Forwards(Chain()), Places(heights, k);
      Unsplice(x, update, level, Chain(), places, base, heights, k, rows);
      RemoveDone(header, rows, base, heights, level, k, places);
    }

    /** Takes out the node at index k; `update` are the last nodes before it on each level. */
    method DeleteNode(x: Node, update: seq<Node>, ghost k: nat)
      requires Valid() && k < |base| && x == base[k] && |update| == ZSKIPLIST_MAXLEVEL
      requires forall i | 0 <= i < ZSKIPLIST_MAXLEVEL :: update[i] == Chain()[LastBefore(heights, k, i)]
      modifies this, header, base
      ensures Valid() && base == Removed(old(base), k) && heights == Removed(old(heights), k)
    {
      BypassNode(x, update, k);
      base, heights := Removed(base, k), Removed(heights, k);
      Trim();
      length := length - 1;
    }

    /** Takes out the first node with the score of `zn`, if there is one. */
    method Delete(zn: Node)
      requires Valid()
      modifies this, header, base
      ensures Valid()
      ensures var k := Rank(old(base), zn.score);
              if k < |old(base)| && old(base)[k].score == zn.score
              then base == Removed(old(base), k) && heights == Removed(old(heights), k)
              else base == old(base) && heights == old(heights)
    {
      ghost var k := Rank(base, zn.score);
      var update := Search(zn.score);
      ghost var p := LastBefore(heights, k, 0);
      assert IsRow(Forwards(Chain())[p], base, heights, p);
      var x := update[0].forward[0];
      assert x == NodeOrNull(base, k);
      if x != null && zn.score == x.score {
        DeleteNode(x, update, k);
      }
    }

    lemma NoneDue(now: nat)
      requires Valid() && base != [] && base[0].score > now
      ensures forall i | 0 <= i < |base| :: base[i].score > now
    {
    }

    /** Fires the expired timers in the order of the list and leaves the others. */
    method ExpireTimer(now: nat) returns (fired: seq<Node>)
      requires Valid()
      modifies this, header
      ensures Valid() && fired + base == old(base)
      ensures forall i | 0 <= i < |fired| :: fired[i].score <= now
      ensures forall i | 0 <= i < |base| :: base[i].score > now
    {
      fired := [];
      ghost var was := base;
      while true
        invariant Valid() && |fired| <= |was| && fired == was[..|fired|] && base == was[|fired|..]
        invariant forall i | 0 <= i < |fired| :: fired[i].score <= now
        decreases |base|
      {
        var x := Min();
        if x == null { break; }
        if x.score > now {
          NoneDue(now);
          break;
        }
        FiredNext(was, fired, x);
        fired := fired + [x];
        DeleteHead();
      }
    }

    /** What a handler does: it adds timers, with any expiries and random levels. */
    method Handle(adds: seq<Addition>) returns (ghost xs: seq<Node>)
      requires Valid() && forall a <- adds :: 1 <= a.height <= ZSKIPLIST_MAXLEVEL
      modifies this, header, base
      ensures Valid() && |xs| == |adds| && base == Grown(old(base), xs)
      ensures forall i | 0 <= i < |xs| :: fresh(xs[i]) && xs[i].score == adds[i].score
      decreases |adds|
    {
      if adds == [] { return []; }
      InsertedNodes(base, Rank(base, adds[0].score));
      var x := Insert(adds[0].score, adds[0].height);
      ghost var rest := Handle(adds[1..]);
      GrownCons(old(base), x, rest);
      xs := [x] + rest;
    }

    /** One round of the loop of `expire_timer`, with what the handler adds.  The timer that was run is out of
        the list if and only if every timer added expires later. */
    method ExpireOne(now: nat, adds: seq<Addition>) returns (x: Node?, ghost xs: seq<Node>)
      requires Valid() && forall a <- adds :: 1 <= a.height <= ZSKIPLIST_MAXLEVEL
      modifies this, header, base
      ensures Valid()
      ensures x == null <==> old(base) == [] || old(base)[0].score > now
      ensures x == null ==> base == old(base)
      ensures x != null ==> x == old(base)[0] && |xs| == |adds| && base == Grown(old(base), xs)[1..]
      ensures x != null ==> (x !in base <==> forall a <- adds :: a.score > x.score)
    {
      xs := [];
      x := Min();
      if x == null { return; }
      if x.score > now { x := null; return; }
      ghost var was := base;
      xs := Handle(adds);
      HandlerOutcome(was, xs, adds);
      DeleteHead();
    }
  }
}
