/** The hierarchical timing wheel of timer/timerwheel.c, as functions on values.

    Unsigned 32-bit words are naturals below `WORD`.  A right shift by 8 + 6i bits is a division
    by `Unit(i)` and a mask with 255 or 63 is a remainder by 256 or 64.  The uint32 clock wraps;
    the proofs compare it with an unbounded clock `now`, of which it is the remainder. */
module TimerWheel {
  import opened Arithmetic

  const TIME_NEAR: nat := 0x100
  const TIME_LEVEL: nat := 0x40
  const WORD: nat := 0x1_0000_0000

  type Int32 = x: int | -0x8000_0000 <= x < 0x8000_0000

  /** A linked node: `id` stands for the node's address, `expire` is its uint32 field. */
  datatype Timer = Timer(id: nat, expire: nat)

  /** The list a node can be linked on: `near[k]` or `t[i][k]`. */
  datatype Place = Near(k: nat) | Level(i: nat, k: nat)

  /** The number of ticks one slot of level i stands for: 2 to the power 8 + 6i. */
  function Unit(i: nat): nat
    requires i <= 4
  {
    if i == 0 then 0x100 else if i == 1 then 0x4000 else if i == 2 then 0x10_0000
    else if i == 3 then 0x400_0000 else WORD
  }

  /** The index that level i uses for the clock value `x`. */
  function Digit(x: nat, i: nat): nat
    requires i < 4
  {
    if i == 0 then x / 0x100 % 0x40 else if i == 1 then x / 0x4000 % 0x40
    else if i == 2 then x / 0x10_0000 % 0x40 else x / 0x400_0000 % 0x40
  }

  /** The part of `x` below level i. */
  function Low(x: nat, i: nat): nat
    requires i < 4
  {
    if i == 0 then x % 0x100 else if i == 1 then x % 0x4000 else if i == 2 then x % 0x10_0000
    else x % 0x400_0000
  }

  /** The level whose range holds a distance of at least 256 ticks. */
  function LevelOf(msec: nat): nat {
    if msec < Unit(1) then 0 else if msec < Unit(2) then 1 else if msec < Unit(3) then 2 else 3
  }

  /** Where `add_node` links a node, from the wrapped difference of its two words. */
  function PlaceOf(expire: nat, time: nat): (p: Place) {
    var msec := (expire - time) % WORD;
    if msec < TIME_NEAR then Near(expire % TIME_NEAR)
    else Level(LevelOf(msec), Digit(expire, LevelOf(msec)))
  }

  /** The list that `timer_shift` moves when the clock has just become `ct`: the loop from level
      i on, with `ct` a multiple of `Unit(i)`. */
  function CascadeFrom(ct: nat, i: nat): (moved: seq<Place>)
    requires i < 4
    ensures |moved| <= 1
    decreases 4 - i
  {
    if Low(ct, i) != 0 then []
    else if Digit(ct, i) != 0 || i == 3 then [Level(i, Digit(ct, i))]
    else CascadeFrom(ct, i + 1)
  }

  // ----- the wheel -----

  /** The clock and the lists that hold nodes; every other list is empty. */
  datatype Wheel = Wheel(time: nat, lists: map<Place, seq<Timer>>) {
    function At(p: Place): seq<Timer> {
      if p in lists then lists[p] else []
    }

    function Put(p: Place, list: seq<Timer>): Wheel {
      this.(lists := lists[p := list])
    }

    function AddNode(n: Timer): Wheel {
      var p := PlaceOf(n.expire, time);
      Put(p, At(p) + [n])
    }

    function AddNodes(ns: seq<Timer>): (w: Wheel)
      ensures w.time == time
      decreases |ns|
    {
      if ns == [] then this else AddNode(ns[0]).AddNodes(ns[1..])
    }

    function MoveList(p: Place): Wheel {
      Put(p, []).AddNodes(At(p))
    }

    function Move(moved: seq<Place>): Wheel {
      if moved == [] then this else MoveList(moved[0])
    }

    function Shift(): Wheel {
      var w := this.(time := (time + 1) % WORD);
      w.Move(CascadeFrom(w.time, 0))
    }

    /** The list that the clock points at. */
    function Due(): seq<Timer> {
      At(Near(time % TIME_NEAR))
    }

    function Sweep(): Wheel {
      Put(Near(time % TIME_NEAR), [])
    }
  }

  const EMPTY: Wheel := Wheel(0, map[])

  // ----- one node on its own -----

  /** An accepted request: the unbounded clock when it was made, and its delay. */
  datatype Request = Request(at: nat, delay: Int32) {
    predicate Pends() { delay > 0 }

    function Deadline(): nat
      requires Pends()
    {
      at + delay
    }

    /** What `add_timer` can check before it links the node: whether the slot it picks is one
        that `timer_shift` ever moves. */
    predicate Fires()
      requires Pends()
    {
      delay < TIME_NEAR || LevelOf(delay) == 3 || Digit(Deadline(), LevelOf(delay)) != 0
    }

    function Home(): Place
      requires Pends()
    {
      PlaceOf(Deadline() % WORD, at % WORD)
    }

    /** The list a node is on when the clock stands at `now` and it has not been dispatched. */
    function Where(now: nat): Place
      requires Pends()
    {
      if !Fires() then Home() else WhereFrom(Deadline(), delay, now)
    }
  }

  /** The list of a node due at `due` that was last linked when `msec` ticks were left. */
  function WhereFrom(due: nat, msec: nat, now: nat): Place
    decreases msec
  {
    if msec < TIME_NEAR then Near(due % TIME_NEAR)
    else
      var i := LevelOf(msec);
      if now < due - Low(due, i) then Level(i, Digit(due, i))
      else assert Low(due, i) < Unit(i) <= msec; WhereFrom(due, Low(due, i), now)
  }

  lemma DigitOfWord(x: nat, i: nat)
    requires i < 4
    ensures Digit(x % WORD, i) == Digit(x, i) && Low(x % WORD, i) == Low(x, i)
  {
    var c := if i == 0 then 0x100_0000 else if i == 1 then 0x4_0000 else if i == 2 then 0x1000 else 0x40;
    assert WORD == Unit(i) * c && c == TIME_LEVEL * (c / TIME_LEVEL);
    RemainderOfProduct(x, Unit(i), c);
    RemainderOfProduct(x / Unit(i), TIME_LEVEL, c / TIME_LEVEL);
  }

  lemma PlaceOfAhead(due: nat, now: nat)
    requires now <= due < now + WORD
    ensures PlaceOf(due % WORD, now % WORD)
         == if due - now < TIME_NEAR then Near(due % TIME_NEAR)
            else Level(LevelOf(due - now), Digit(due, LevelOf(due - now)))
  {
    assert (due % WORD - now % WORD) % WORD == due - now;
    DigitOfWord(due, LevelOf(due - now));
  }

  lemma NextUnit(x: nat, i: nat)
    requires i < 3
    ensures Low(x, i + 1) == 0 <==> Low(x, i) == 0 && Digit(x, i) == 0
  {
    var u := Unit(i);
    assert Unit(i + 1) == u * TIME_LEVEL;
    RemainderOfProduct(x, u, TIME_LEVEL);
    var y := x % (u * TIME_LEVEL);
    assert y == u * (y / u) + y % u;
  }

  /** A list of level i is moved exactly when the clock reaches a multiple of `Unit(i)` that has
      the list's index as digit; the lists with index 0 of levels 0 to 2 are never moved. */
  lemma CascadeExactly(ct: nat, i: nat, k: nat)
    requires i < 4 && k < TIME_LEVEL
    ensures Level(i, k) in CascadeFrom(ct, 0)
       <==> Low(ct, i) == 0 && Digit(ct, i) == k && (k != 0 || i == 3)
  {
    NextUnit(ct, 0);
    NextUnit(ct, 1);
    NextUnit(ct, 2);
  }

  /** Two multiples of a slot's length, less than one turn apart, that share the slot's digit. */
  lemma SameSlot(n: nat, b: nat, u: nat)
    requires u > 0 && n % u == 0 && b % u == 0
    requires n <= b < n + TIME_LEVEL * u
    requires n / u % TIME_LEVEL == b / u % TIME_LEVEL
    ensures n == b
  {
    var x, y := n / u, b / u;
    MulDistributes(u, y, x);
    MulCancel(u, y - x, TIME_LEVEL);
    if y < x { MulMono(u, y + 1, x); MulDistributes(u, y, 1); }
  }

  /** The start of the slot that holds `due` on level i: the tick at which its list is moved. */
  function Boundary(due: nat, i: nat): nat
    requires i < 4
  {
    due - Low(due, i)
  }

  lemma CascadeAtBoundary(due: nat, i: nat, n: nat)
    requires i < 4 && (Digit(due, i) != 0 || i == 3)
    requires n <= Boundary(due, i) < n + TIME_LEVEL * Unit(i)
    ensures Level(i, Digit(due, i)) in CascadeFrom(n % WORD, 0) <==> n == Boundary(due, i)
  {
    var b, u := Boundary(due, i), Unit(i);
    CascadeExactly(n % WORD, i, Digit(due, i));
    DigitOfWord(n, i);
    DivisionUnique(b, u, due / u, 0);
    if n % u == 0 && Digit(n, i) == Digit(due, i) { SameSlot(n, b, u); }
  }

  lemma LowerDigit(due: nat, i: nat, j: nat)
    requires j < i < 4 && LevelOf(Low(due, i)) == j && Low(due, i) >= TIME_NEAR
    ensures Digit(due, j) == Low(due, i) / Unit(j) != 0
  {
    var q, u := due / Unit(j), Unit(j);
    assert i == j + 1 || i == j + 2 || i == j + 3;
    var c := if i == j + 1 then 1 else if i == j + 2 then 0x40 else 0x1000;
    assert Unit(i) == u * (TIME_LEVEL * c);
    RemainderOfProduct(due, u, TIME_LEVEL * c);
    RemainderOfProduct(q, TIME_LEVEL, c);
    assert Unit(j + 1) == u * TIME_LEVEL;
    QuotientRange(Low(due, i), u, TIME_LEVEL);
  }

  /** A node re-linked at its boundary has less than a slot left: it lands on a strictly lower
      level, and never on a list with index 0. */
  lemma CascadeDescends(due: nat, i: nat)
    requires i < 4
    ensures var p := PlaceOf(due % WORD, Boundary(due, i) % WORD);
            match p
            case Near(k) => k == due % TIME_NEAR && Low(due, i) < TIME_NEAR
            case Level(j, k) => j < i && k != 0 && j == LevelOf(Low(due, i)) && k == Digit(due, j)
                                && Low(due, i) >= TIME_NEAR
  {
    var r, j := Low(due, i), LevelOf(Low(due, i));
    PlaceOfAhead(due, due - r);
    if r >= TIME_NEAR {
      LowerDigit(due, i, j);
      assert PlaceOf(due % WORD, Boundary(due, i) % WORD) == Level(j, Digit(due, j));
    }
  }

  /** One tick of a node that is on its way: it stays on its list unless the list is moved. */
  lemma WhereFromStep(due: nat, msec: nat, now: nat)
    requires due <= now + msec && now < due && msec < WORD
    requires msec < TIME_NEAR || LevelOf(msec) == 3 || Digit(due, LevelOf(msec)) != 0
    ensures var p, ct := WhereFrom(due, msec, now), (now + 1) % WORD;
            WhereFrom(due, msec, now + 1) == if p in CascadeFrom(ct, 0) then PlaceOf(due % WORD, ct) else p
    decreases msec
  {
    if msec >= TIME_NEAR {
      var i, n := LevelOf(msec), now + 1;
      var b, r := Boundary(due, i), Low(due, i);
      if n <= b {
        CascadeAtBoundary(due, i, n);
        CascadeDescends(due, i);
      } else {
        if r >= TIME_NEAR { LowerDigit(due, i, LevelOf(r)); }
        WhereFromStep(due, r, now);
      }
    }
  }

  /** A pending node is never on the list that has just been swept, and it is on the list that is
      about to be swept exactly at its deadline. */
  lemma WhereFromNear(due: nat, msec: nat, now: nat)
    requires due <= now + msec && now <= due
    ensures WhereFrom(due, msec, now) == Near(now % TIME_NEAR) <==> now == due
    decreases msec
  {
    if msec >= TIME_NEAR {
      var i := LevelOf(msec);
      if now >= Boundary(due, i) { WhereFromNear(due, Low(due, i), now); }
    }
  }

  lemma WhereStarts(a: Request)
    requires a.Pends()
    ensures a.Where(a.at) == a.Home()
  {
    PlaceOfAhead(a.Deadline(), a.at);
  }

  lemma WhereStep(a: Request, now: nat)
    requires a.Pends() && a.at <= now && (a.Fires() ==> now < a.Deadline())
    ensures var p, ct := a.Where(now), (now + 1) % WORD;
            a.Where(now + 1) == if p in CascadeFrom(ct, 0) then PlaceOf(a.Deadline() % WORD, ct) else p
  {
    if a.Fires() {
      WhereFromStep(a.Deadline(), a.delay, now);
    } else {
      PlaceOfAhead(a.Deadline(), a.at);
      CascadeExactly((now + 1) % WORD, LevelOf(a.delay), 0);
    }
  }

  lemma WhereNear(a: Request, now: nat)
    requires a.Pends() && a.at <= now && (a.Fires() ==> now <= a.Deadline())
    ensures a.Where(now) == Near(now % TIME_NEAR) <==> a.Fires() && now == a.Deadline()
  {
    if a.Fires() {
      WhereFromNear(a.Deadline(), a.delay, now);
    } else {
      PlaceOfAhead(a.Deadline(), a.at);
    }
  }

  lemma Wrapped(b: nat, now: nat)
    requires now < b < now + WORD
    ensures (b % WORD - now % WORD) % WORD == b - now
  {
  }

  lemma WhereFromAhead(due: nat, msec: nat, now: nat)
    requires due <= now + msec && now < due && msec < WORD
    requires msec < TIME_NEAR || LevelOf(msec) == 3 || Digit(due, LevelOf(msec)) != 0
    ensures match WhereFrom(due, msec, now)
            case Near(k) => k == due % TIME_NEAR && due - now < TIME_NEAR
            case Level(i, k) => i < 4 && k == Digit(due, i) && (k != 0 || i == 3)
                                && now < Boundary(due, i) < now + TIME_LEVEL * Unit(i)
    decreases msec
  {
    if msec >= TIME_NEAR {
      var i := LevelOf(msec);
      var r := Low(due, i);
      if now >= Boundary(due, i) {
        if r >= TIME_NEAR { LowerDigit(due, i, LevelOf(r)); }
        WhereFromAhead(due, r, now);
      }
    }
  }

  /** The words of a node on the list `p` that is still to come: on lists that are moved at all, the
      tick that moves the node is strictly ahead of the clock and less than one full turn of its
      level away. */
  predicate Ahead(p: Place, expire: nat, time: nat) {
    match p
    case Near(k) => expire % TIME_NEAR == k && 1 <= (expire - time) % WORD <= 255
    case Level(i, k) =>
      && i < 4 && k == Digit(expire, i)
      && (i == 3 || k != 0 ==> 0 < (Boundary(expire, i) - time) % WORD)
      && (i < 3 && k != 0 ==> (Boundary(expire, i) - time) % WORD < TIME_LEVEL * Unit(i))
  }

  lemma BoundaryOfWord(due: nat, i: nat)
    requires i < 4
    ensures Boundary(due % WORD, i) == Boundary(due, i) % WORD
  {
    DigitOfWord(due, i);
    DivisionUnique(Boundary(due, i), WORD, due / WORD, Boundary(due % WORD, i));
  }

  lemma AheadOnLevel(due: nat, i: nat, now: nat)
    requires i < 4 && now < Boundary(due, i) < now + TIME_LEVEL * Unit(i)
    ensures Ahead(Level(i, Digit(due, i)), due % WORD, now % WORD)
  {
    DigitOfWord(due, i);
    BoundaryOfWord(due, i);
    Wrapped(Boundary(due, i), now);
  }

  lemma AheadNear(due: nat, now: nat)
    requires now < due < now + TIME_NEAR
    ensures Ahead(Near(due % TIME_NEAR), due % WORD, now % WORD)
  {
    DigitOfWord(due, 0);
    Wrapped(due, now);
  }

  /** Where a pending node is, on the words the code keeps. */
  lemma WhereAhead(a: Request, now: nat)
    requires a.Pends() && a.at <= now && (a.Fires() ==> now < a.Deadline())
    ensures Ahead(a.Where(now), a.Deadline() % WORD, now % WORD)
  {
    var due := a.Deadline();
    if !a.Fires() {
      PlaceOfAhead(due, a.at);
      DigitOfWord(due, LevelOf(a.delay));
    } else {
      WhereFromAhead(due, a.delay, now);
      match a.Where(now)
      case Near(_) => AheadNear(due, now);
      case Level(i, _) => AheadOnLevel(due, i, now);
    }
  }

  // ----- how often a node is moved -----

  /** The number of the list's level, from 0 for the lists that are dispatched. */
  function Rank(p: Place): nat {
    match p
    case Near(_) => 0
    case Level(i, _) => i + 1
  }

  /** How many of the ticks up to the clock value n have moved the list that the node was on. */
  function Moved(a: Request, n: nat): nat
    requires a.Pends() && a.at <= n
    decreases n
  {
    if n == a.at then 0
    else Moved(a, n - 1) + if a.Where(n - 1) in CascadeFrom(n % WORD, 0) then 1 else 0
  }

  lemma RankOfHome(a: Request)
    requires a.Pends()
    ensures Rank(a.Home()) <= 4
  {
    PlaceOfAhead(a.Deadline(), a.at);
  }

  /** A tick that moves the node's list takes the node down at least one level; any other leaves it. */
  lemma MoveDescends(a: Request, now: nat)
    requires a.Pends() && a.at <= now && (a.Fires() ==> now < a.Deadline())
    ensures if a.Where(now) in CascadeFrom((now + 1) % WORD, 0) then Rank(a.Where(now + 1)) < Rank(a.Where(now))
            else a.Where(now + 1) == a.Where(now)
  {
    WhereStep(a, now);
    if a.Fires() {
      var due := a.Deadline();
      WhereFromAhead(due, a.delay, now);
      match a.Where(now)
      case Near(_) =>
      case Level(i, _) =>
        CascadeAtBoundary(due, i, now + 1);
        CascadeDescends(due, i);
    } else {
      PlaceOfAhead(a.Deadline(), a.at);
      CascadeExactly((now + 1) % WORD, LevelOf(a.delay), 0);
    }
  }

  /** Until its deadline a node is moved at most four times, and at most once for each level from its first
      one down. */
  lemma {:induction false} MovedAtMost(a: Request, n: nat)
    requires a.Pends() && a.at <= n && (a.Fires() ==> n <= a.Deadline())
    ensures Moved(a, n) + Rank(a.Where(n)) <= Rank(a.Home()) <= 4
    decreases n
  {
    if n == a.at {
      WhereStarts(a);
      RankOfHome(a);
    } else {
      MovedAtMost(a, n - 1);
      MoveDescends(a, n - 1);
    }
  }

  /** Being on another list takes a move. */
  lemma {:induction false} MovedBetween(a: Request, n: nat, m: nat)
    requires a.Pends() && a.at <= n <= m && (a.Fires() ==> m <= a.Deadline())
    ensures Moved(a, m) >= Moved(a, n) + if a.Where(n) == a.Where(m) then 0 else 1
    decreases m
  {
    if n < m {
      MovedBetween(a, n, m - 1);
      MoveDescends(a, m - 1);
    }
  }

  /** Four moves can be needed: one on each level. */
  lemma FourMoves()
    ensures var a := Request(0, 0x410_4101); a.Fires() && Moved(a, a.Deadline()) == 4
  {
    var a := Request(0, 0x410_4101);
    assert a.Fires() && a.Where(0) == Level(3, 1) && a.Where(0x400_0000) == Level(2, 1);
    assert a.Where(0x410_0000) == Level(1, 1) && a.Where(0x410_4000) == Level(0, 1) && a.Where(0x410_4101) == Near(1);
    MovedBetween(a, 0, 0x400_0000);
    MovedBetween(a, 0x400_0000, 0x410_0000);
    MovedBetween(a, 0x410_0000, 0x410_4000);
    MovedBetween(a, 0x410_4000, 0x410_4101);
    MovedAtMost(a, 0x410_4101);
  }
}
