/** Whole runs of the timing wheel: any interleaving of `add_timer`, `del_timer` and the locked
    sections of `timer_update`, on an unbounded clock beside the wrapping one. */
module TimerRuns {
  import opened TimerWheel

  /** `Unlink` is the test of the loop of `timer_execute`, which takes the list that the clock
      points at; `Visit` is one turn of the loop of `dispatch_list`, with the callback; `Tick` is
      `timer_shift` and the `Unlink` that follows it under the same lock.  Additions and
      cancellations, by other threads and by callbacks, come anywhere between them. */
  datatype Event = AddTimer(delay: Int32) | DelTimer(id: nat) | Unlink | Visit | Tick

  /** A callback was run for timer `id` when the unwrapped clock was `when`. */
  datatype Firing = Firing(id: nat, when: nat)

  /** `leaving` are the nodes that `dispatch_list` has still to visit. */
  datatype Run = Run(wheel: Wheel, leaving: seq<Timer>, now: nat, added: seq<Request>, cancelled: set<nat>,
                     log: seq<Firing>) {
    /** Accepted, and not unlinked up to the clock value `upTo`. */
    predicate Pending(id: nat, upTo: nat) {
      id < |added| && added[id].Pends() && (added[id].Fires() ==> upTo < added[id].Deadline())
    }

    /** Unlinked, and not visited yet. */
    predicate Waiting(id: nat) {
      Count(leaving, id) > 0
    }
  }

  function Start(): Run {
    Run(EMPTY, [], 0, [], {}, [])
  }

  function Unlinked(r: Run): Run {
    r.(wheel := r.wheel.Sweep(), leaving := r.wheel.Due())
  }

  /** The next node of the list: its callback is run if its cancel flag is clear, and it is freed. */
  function Visited(r: Run): Run
    requires r.leaving != []
  {
    var id := r.leaving[0].id;
    r.(leaving := r.leaving[1..], log := r.log + if id in r.cancelled then [] else [Firing(id, r.now)])
  }

  function Shifted(r: Run): Run {
    r.(wheel := r.wheel.Shift(), now := r.now + 1)
  }

  function Step(r: Run, e: Event): Run
  {
    match e
    case AddTimer(delay) =>
      var id := |r.added|;
      var s := r.(added := r.added + [Request(r.now, delay)]);
      if delay <= 0 then s.(log := s.log + [Firing(id, r.now)])
      else s.(wheel := r.wheel.AddNode(Timer(id, (delay + r.wheel.time) % WORD)))
    case DelTimer(id) =>
      // the caller holds a node that is not visited yet
      if r.Pending(id, r.now) || r.Waiting(id) then r.(cancelled := r.cancelled + {id}) else r
    case Unlink => if r.leaving == [] then Unlinked(r) else r
    case Visit => if r.leaving != [] then Visited(r) else r
    case Tick => if r.leaving == [] then Unlinked(Shifted(r)) else r
  }

  function Exec(r: Run, events: seq<Event>): (s: Run)
    decreases |events|
  {
    if events == [] then r else Exec(Step(r, events[0]), events[1..])
  }

  lemma {:induction false} ExecAppend(r: Run, a: seq<Event>, b: seq<Event>)
    ensures Exec(r, a + b) == Exec(Exec(r, a), b)
    decreases |a|
  {
    if a == [] {
      assert a + b == b;
    } else {
      assert (a + b)[1..] == a[1..] + b;
      ExecAppend(Step(r, a[0]), a[1..], b);
    }
  }

  // ----- observations -----

  /** The clock values at which the callback of timer `id` was run, in order. */
  function Times(log: seq<Firing>, id: nat): seq<nat> {
    if log == [] then []
    else if log[0].id == id then [log[0].when] + Times(log[1..], id)
    else Times(log[1..], id)
  }

  /** How often a node is linked on a list. */
  function Count(list: seq<Timer>, id: nat): nat {
    if list == [] then 0 else (if list[0].id == id then 1 else 0) + Count(list[1..], id)
  }

  lemma {:induction false} CountAppend(a: seq<Timer>, b: seq<Timer>, id: nat)
    ensures Count(a + b, id) == Count(a, id) + Count(b, id)
  {
    if a == [] {
      assert a + b == b;
    } else {
      assert (a + b)[1..] == a[1..] + b;
      CountAppend(a[1..], b, id);
    }
  }

  lemma {:induction false} CountZero(list: seq<Timer>, id: nat)
    ensures Count(list, id) == 0 <==> forall n | n in list :: n.id != id
  {
    if list != [] { CountZero(list[1..], id); }
  }

  lemma {:induction false} TimesAppend(a: seq<Firing>, b: seq<Firing>, id: nat)
    ensures Times(a + b, id) == Times(a, id) + Times(b, id)
  {
    if a == [] {
      assert a + b == b;
    } else {
      TimesAppend(a[1..], b, id);
      assert (a + b)[1..] == a[1..] + b;
      assert [a[0].when] + (Times(a[1..], id) + Times(b, id)) == [a[0].when] + Times(a[1..], id) + Times(b, id);
    }
  }

  // ----- the invariant of every run -----

  /** Nodes carry the wrapped deadline of the request they were made for. */
  ghost predicate Tagged(n: Timer, added: seq<Request>) {
    n.id < |added| && added[n.id].Pends() && n.expire == added[n.id].Deadline() % WORD
  }

  /** How often timer `id` must be linked on the list `p`. */
  ghost function Links(r: Run, p: Place, id: nat, upTo: nat): nat {
    if r.Pending(id, upTo) && r.added[id].Where(r.now) == p then 1 else 0
  }

  /** When the callback of timer `id` must have been run. */
  ghost function Due(r: Run, id: nat, upTo: nat): seq<nat> {
    if id >= |r.added| then []
    else
      var a := r.added[id];
      if a.delay <= 0 then [a.at]
      else if a.Pends() && a.Fires() && a.Deadline() <= upTo && id !in r.cancelled && !r.Waiting(id)
      then [a.Deadline()]
      else []
  }

  /** The nodes still to be visited are different, and due at the present clock value. */
  ghost predicate Leaves(r: Run) {
    && (forall id: nat :: Count(r.leaving, id) <= 1)
    && (forall n | n in r.leaving ::
          && n.id < |r.added| && r.added[n.id].Pends() && r.added[n.id].Fires()
          && r.added[n.id].Deadline() == r.now)
  }

  ghost predicate Sane(r: Run) {
    && r.wheel.time == r.now % WORD
    && (forall i | 0 <= i < |r.added| :: r.added[i].at <= r.now)
    && (forall id <- r.cancelled :: id < |r.added| && r.added[id].delay > 0)
    && (forall p, n | n in r.wheel.At(p) :: Tagged(n, r.added))
  }

  /** Everything due up to `upTo` has been dispatched, everything else is linked exactly once. */
  ghost predicate Settled(r: Run, upTo: nat) {
    && Sane(r) && Leaves(r)
    && (forall p, id: nat :: Count(r.wheel.At(p), id) == Links(r, p, id, upTo))
    && (forall id: nat :: Times(r.log, id) == Due(r, id, upTo))
  }

  ghost predicate Inv(r: Run) {
    Settled(r, r.now)
  }

  lemma {:induction false} AddNodesCount(w: Wheel, ns: seq<Timer>, e: nat, p: Place, id: nat)
    requires forall n | n in ns && n.id == id :: n.expire == e
    ensures Count(w.AddNodes(ns).At(p), id)
         == Count(w.At(p), id) + if PlaceOf(e, w.time) == p then Count(ns, id) else 0
    decreases |ns|
  {
    if ns != [] {
      var v := w.AddNode(ns[0]);
      AddNodesCount(v, ns[1..], e, p, id);
      if PlaceOf(ns[0].expire, w.time) == p {
        CountAppend(w.At(p), [ns[0]], id);
        assert [ns[0]][1..] == [];
      }
    }
  }

  lemma {:induction false} AddNodesMembers(w: Wheel, ns: seq<Timer>, p: Place)
    ensures forall n | n in w.AddNodes(ns).At(p) :: n in w.At(p) || n in ns
    decreases |ns|
  {
    if ns != [] {
      AddNodesMembers(w.AddNode(ns[0]), ns[1..], p);
    }
  }

  /** Re-linking a list: a timer linked once, on `here`, is then linked once, on `next`. */
  lemma MoveCounts(w: Wheel, moved: seq<Place>, here: Place, next: Place, e: nat, p: Place, id: nat)
    requires |moved| <= 1
    requires Count(w.At(p), id) == if here == p then 1 else 0
    requires moved != [] ==> Count(w.At(moved[0]), id) == if here == moved[0] then 1 else 0
    requires moved != [] ==> forall n | n in w.At(moved[0]) && n.id == id :: n.expire == e
    requires next == if here in moved then PlaceOf(e, w.time) else here
    ensures Count(w.Move(moved).At(p), id) == if next == p then 1 else 0
  {
    if moved != [] {
      AddNodesCount(w.Put(moved[0], []), w.At(moved[0]), e, p, id);
    }
  }

  lemma MoveCountsNone(w: Wheel, moved: seq<Place>, p: Place, id: nat)
    requires Count(w.At(p), id) == 0
    requires moved != [] ==> Count(w.At(moved[0]), id) == 0
    ensures Count(w.Move(moved).At(p), id) == 0
  {
    if moved != [] {
      CountZero(w.At(moved[0]), id);
      AddNodesCount(w.Put(moved[0], []), w.At(moved[0]), 0, p, id);
    }
  }

  lemma ClockOfShift(w: Wheel, now: nat)
    requires w.time == now % WORD
    ensures (w.time + 1) % WORD == (now + 1) % WORD
    ensures w.Shift() == w.(time := (now + 1) % WORD).Move(CascadeFrom((now + 1) % WORD, 0))
  {
  }

  lemma ShiftCountsPending(r: Run, p: Place, id: nat)
    requires Sane(r) && r.Pending(id, r.now)
    requires forall q :: Count(r.wheel.At(q), id) == if r.added[id].Where(r.now) == q then 1 else 0
    ensures Count(r.wheel.Shift().At(p), id) == if r.added[id].Where(r.now + 1) == p then 1 else 0
  {
    var ct, a := (r.now + 1) % WORD, r.added[id];
    var w, moved := r.wheel.(time := ct), CascadeFrom(ct, 0);
    ClockOfShift(r.wheel, r.now);
    WhereStep(a, r.now);
    assert forall q :: w.At(q) == r.wheel.At(q);
    if moved != [] {
      forall n | n in w.At(moved[0]) && n.id == id
        ensures n.expire == a.Deadline() % WORD
      {
        assert Tagged(n, r.added);
      }
    }
    MoveCounts(w, moved, a.Where(r.now), a.Where(r.now + 1), a.Deadline() % WORD, p, id);
  }

  lemma ShiftCounts(r: Run, p: Place, id: nat)
    requires Inv(r)
    ensures Count(r.wheel.Shift().At(p), id)
         == if r.Pending(id, r.now) && r.added[id].Where(r.now + 1) == p then 1 else 0
  {
    assert forall q :: Count(r.wheel.At(q), id) == Links(r, q, id, r.now);
    if r.Pending(id, r.now) {
      ShiftCountsPending(r, p, id);
    } else {
      ClockOfShift(r.wheel, r.now);
      var w := r.wheel.(time := (r.now + 1) % WORD);
      assert forall q :: w.At(q) == r.wheel.At(q);
      MoveCountsNone(w, CascadeFrom(w.time, 0), p, id);
    }
  }

  lemma ShiftMembers(w: Wheel, added: seq<Request>, p: Place)
    requires forall q, n | n in w.At(q) :: Tagged(n, added)
    ensures forall n | n in w.Shift().At(p) :: Tagged(n, added)
  {
    var v := w.(time := (w.time + 1) % WORD);
    assert forall q | q in w.lists :: v.At(q) == w.At(q);
    if CascadeFrom(v.time, 0) != [] {
      var q := CascadeFrom(v.time, 0)[0];
      AddNodesMembers(v.Put(q, []), w.At(q), p);
    }
  }

  lemma ShiftSettles(r: Run)
    requires Inv(r) && r.leaving == []
    ensures Settled(Shifted(r), r.now)
  {
    var s := Shifted(r);
    assert s.wheel.time == s.now % WORD;
    forall p, n | n in s.wheel.At(p)
      ensures Tagged(n, s.added)
    {
      ShiftMembers(r.wheel, r.added, p);
    }
    forall p, id: nat
      ensures Count(s.wheel.At(p), id) == Links(s, p, id, r.now)
    {
      ShiftCounts(r, p, id);
    }
    forall id: nat
      ensures Times(s.log, id) == Due(s, id, r.now)
    {
      assert Times(r.log, id) == Due(r, id, r.now);
    }
  }

  lemma DueHere(r: Run)
    requires Sane(r)
    ensures r.wheel.Due() == r.wheel.At(Near(r.now % TIME_NEAR))
    ensures Unlinked(r).wheel == r.wheel.Put(Near(r.now % TIME_NEAR), [])
  {
    DigitOfWord(r.now, 0);
  }

  lemma UnlinkCounts(r: Run, upTo: nat, p: Place, id: nat)
    requires Settled(r, upTo) && upTo <= r.now <= upTo + 1
    ensures Count(Unlinked(r).wheel.At(p), id) == Links(r, p, id, r.now)
  {
    DueHere(r);
    if r.Pending(id, upTo) { WhereNear(r.added[id], r.now); }
    assert Count(r.wheel.At(p), id) == Links(r, p, id, upTo);
  }

  /** What is unlinked is what is due now. */
  lemma UnlinkTimes(r: Run, upTo: nat, id: nat)
    requires Settled(r, upTo) && upTo <= r.now <= upTo + 1 && r.leaving == []
    ensures Times(r.log, id) == Due(Unlinked(r), id, r.now) && Count(r.wheel.Due(), id) <= 1
    ensures Count(r.wheel.Due(), id) > 0 ==>
              r.Pending(id, upTo) && r.added[id].Fires() && r.added[id].Deadline() == r.now
  {
    DueHere(r);
    if r.Pending(id, upTo) { WhereNear(r.added[id], r.now); }
    assert Times(r.log, id) == Due(r, id, upTo);
    assert Count(r.wheel.Due(), id) == Links(r, Near(r.now % TIME_NEAR), id, upTo);
  }

  lemma UnlinkSettles(r: Run, upTo: nat)
    requires Settled(r, upTo) && upTo <= r.now <= upTo + 1 && r.leaving == []
    ensures Inv(Unlinked(r))
  {
    var s := Unlinked(r);
    DueHere(r);
    assert forall p, n | n in s.wheel.At(p) :: n in r.wheel.At(p);
    forall p, id: nat
      ensures Count(s.wheel.At(p), id) == Links(s, p, id, s.now)
    {
      UnlinkCounts(r, upTo, p, id);
    }
    forall id: nat
      ensures Times(s.log, id) == Due(s, id, s.now) && Count(s.leaving, id) <= 1
    {
      UnlinkTimes(r, upTo, id);
    }
    forall n | n in s.leaving
      ensures r.Pending(n.id, upTo) && r.added[n.id].Fires() && r.added[n.id].Deadline() == r.now
    {
      CountZero(s.leaving, n.id);
      UnlinkTimes(r, upTo, n.id);
    }
  }

  /** A visit runs the callback that the visited node is due for, unless it is cancelled. */
  lemma VisitTimes(r: Run, id: nat)
    requires Inv(r) && r.leaving != []
    ensures Times(Visited(r).log, id) == Due(Visited(r), id, r.now) && Count(r.leaving[1..], id) <= 1
  {
    var n := r.leaving[0];
    var fired := if n.id in r.cancelled then [] else [Firing(n.id, r.now)];
    TimesAppend(r.log, fired, id);
    assert fired != [] ==> fired[1..] == [];
    assert n in r.leaving && Count(r.leaving, id) <= 1;
    assert Times(r.log, id) == Due(r, id, r.now);
  }

  lemma VisitKeeps(r: Run)
    requires Inv(r) && r.leaving != []
    ensures Inv(Visited(r))
  {
    var s := Visited(r);
    forall p, id: nat
      ensures Count(s.wheel.At(p), id) == Links(s, p, id, s.now)
    {
      assert Count(r.wheel.At(p), id) == Links(r, p, id, r.now);
    }
    forall id: nat
      ensures Times(s.log, id) == Due(s, id, s.now) && Count(s.leaving, id) <= 1
    {
      VisitTimes(r, id);
    }
  }

  lemma ExpireOfAdd(now: nat, delay: nat)
    ensures (delay + now % WORD) % WORD == (now + delay) % WORD
  {
  }

  lemma AddCounts(r: Run, delay: Int32, p: Place, id: nat)
    requires Inv(r)
    ensures var s := Step(r, AddTimer(delay));
            Count(s.wheel.At(p), id) == Links(s, p, id, s.now)
  {
    var s := Step(r, AddTimer(delay));
    assert Count(r.wheel.At(p), id) == Links(r, p, id, r.now);
    if delay > 0 {
      var a := s.added[|r.added|];
      var n := Timer(|r.added|, (delay + r.wheel.time) % WORD);
      ExpireOfAdd(r.now, delay);
      WhereStarts(a);
      CountAppend(r.wheel.At(a.Home()), [n], id);
      assert [n][1..] == [];
    }
  }

  lemma AddTimes(r: Run, delay: Int32, id: nat)
    requires Inv(r)
    ensures var s := Step(r, AddTimer(delay)); Times(s.log, id) == Due(s, id, s.now)
  {
    var f := Firing(|r.added|, r.now);
    assert Times(r.log, id) == Due(r, id, r.now);
    TimesAppend(r.log, [f], id);
    assert [f][1..] == [];
  }

  lemma AddTagged(r: Run, delay: Int32, p: Place, n: Timer)
    requires Inv(r) && n in Step(r, AddTimer(delay)).wheel.At(p)
    ensures Tagged(n, Step(r, AddTimer(delay)).added)
  {
    if n in r.wheel.At(p) {
      assert Tagged(n, r.added);
    } else {
      ExpireOfAdd(r.now, delay);
    }
  }

  lemma AddKeeps(r: Run, delay: Int32)
    requires Inv(r)
    ensures Inv(Step(r, AddTimer(delay)))
  {
    var s := Step(r, AddTimer(delay));
    forall p, n | n in s.wheel.At(p)
      ensures Tagged(n, s.added)
    {
      AddTagged(r, delay, p, n);
    }
    forall p, id: nat
      ensures Count(s.wheel.At(p), id) == Links(s, p, id, s.now)
    {
      AddCounts(r, delay, p, id);
    }
    forall id: nat
      ensures Times(s.log, id) == Due(s, id, s.now)
    {
      AddTimes(r, delay, id);
    }
  }

  /** A node can be cancelled until it is visited, also when its list is being dispatched. */
  lemma DelKeeps(r: Run, id: nat)
    requires Inv(r)
    ensures Inv(Step(r, DelTimer(id)))
  {
    var s := Step(r, DelTimer(id));
    CountZero(r.leaving, id);
    forall p, i: nat
      ensures Count(s.wheel.At(p), i) == Links(s, p, i, s.now)
    {
      assert Count(r.wheel.At(p), i) == Links(r, p, i, r.now);
    }
    forall i: nat
      ensures Times(s.log, i) == Due(s, i, s.now)
    {
      assert Times(r.log, i) == Due(r, i, r.now);
    }
  }

  lemma StepKeeps(r: Run, e: Event)
    requires Inv(r)
    ensures Inv(Step(r, e))
  {
    match e
    case AddTimer(delay) => AddKeeps(r, delay);
    case DelTimer(id) => DelKeeps(r, id);
    case Unlink => if r.leaving == [] { UnlinkSettles(r, r.now); }
    case Visit => if r.leaving != [] { VisitKeeps(r); }
    case Tick =>
      if r.leaving == [] {
        ShiftSettles(r);
        UnlinkSettles(Shifted(r), r.now);
      }
  }

  lemma {:induction false} ExecKeeps(r: Run, events: seq<Event>)
    requires Inv(r)
    ensures Inv(Exec(r, events))
    decreases |events|
  {
    if events != [] {
      StepKeeps(r, events[0]);
      ExecKeeps(Step(r, events[0]), events[1..]);
    }
  }

  lemma Reachable(events: seq<Event>)
    ensures Inv(Exec(Start(), events))
  {
    ExecKeeps(Start(), events);
  }

  /** The runs of the timing wheel. */
  ghost predicate Reached(r: Run) {
    exists events :: r == Exec(Start(), events)
  }

  lemma ReachedStep(r: Run, events: seq<Event>)
    requires Reached(r)
    ensures Reached(Exec(r, events)) && Exec(r, events).wheel.Due() == []
  {
    var before :| r == Exec(Start(), before);
    ExecAppend(Start(), before, events);
    Reachable(before + events);
    InvDue(Exec(r, events));
  }

  lemma OneEvent(r: Run, e: Event)
    ensures Exec(r, [e]) == Step(r, e)
  {
    assert [e][1..] == [];
  }

  lemma TwoEvents(r: Run, e: Event, f: Event)
    ensures Exec(r, [e, f]) == Step(Step(r, e), f)
  {
    assert [e, f][1..] == [f];
    OneEvent(Step(r, e), f);
  }

  /** The two unlinkings of `timer_update` and the tick between them; the first list is empty. */
  lemma UpdateSteps(r: Run)
    requires Reached(r) && r.leaving == []
    ensures Unlinked(r).leaving == [] && Exec(r, [Unlink]) == Unlinked(r) && Inv(Unlinked(r))
    ensures Exec(r, [Unlink, Tick]) == Unlinked(Shifted(Unlinked(r))) && Inv(Unlinked(Shifted(Unlinked(r))))
  {
    var before :| r == Exec(Start(), before);
    Reachable(before);
    InvDue(r);
    StepKeeps(r, Unlink);
    StepKeeps(Unlinked(r), Tick);
    OneEvent(r, Unlink);
    TwoEvents(r, Unlink, Tick);
  }

  // ----- main results -----

  /** Exact firing: over any run, the callback of a timer that is not cancelled runs once, at the
      `delay`-th tick after the timer was added, if and only if `Fires` holds of the request;
      a timer that is cancelled while it pends never fires. */
  lemma ExactFiring(events: seq<Event>, id: nat)
    requires id < |Exec(Start(), events).added|
    ensures var r := Exec(Start(), events);
            var a := r.added[id];
            Times(r.log, id) ==
               if a.delay <= 0 then [a.at]
               else if a.Fires() && a.Deadline() <= r.now && id !in r.cancelled && !r.Waiting(id)
               then [a.Deadline()]
               else []
    ensures var r := Exec(Start(), events);
            r.Waiting(id) ==> r.added[id].Pends() && r.added[id].Fires() && r.added[id].Deadline() == r.now
  {
    Reachable(events);
    var r := Exec(Start(), events);
    assert Times(r.log, id) == Due(r, id, r.now);
    CountZero(r.leaving, id);
  }

  /** Conservation: an accepted timer is linked exactly once, on the list its request determines,
      until it is dispatched; one whose `Fires` fails stays on index 0 of its level for ever. */
  lemma LinkedOnce(events: seq<Event>, id: nat, p: Place)
    requires id < |Exec(Start(), events).added|
    ensures var r := Exec(Start(), events);
            var a := r.added[id];
            Count(r.wheel.At(p), id) ==
              if a.delay <= 0 || (a.Fires() && a.Deadline() <= r.now) then 0
              else if p == (if a.Fires() then a.Where(r.now) else Level(LevelOf(a.delay), 0)) then 1
              else 0
  {
    Reachable(events);
    var r := Exec(Start(), events);
    var a := r.added[id];
    assert a.at <= r.now;
    assert Count(r.wheel.At(p), id) == Links(r, p, id, r.now);
    if a.delay > 0 && !a.Fires() { PlaceOfAhead(a.Deadline(), a.at); }
  }

  lemma InvDue(r: Run)
    requires Inv(r)
    ensures r.wheel.Due() == []
  {
    DueHere(r);
    var list := r.wheel.Due();
    if list != [] {
      var id, here := list[0].id, Near(r.now % TIME_NEAR);
      assert Count(list, id) == Links(r, here, id, r.now);
      WhereNear(r.added[id], r.now);
    }
  }

  /** Between updates the list the clock points at is empty, so the loop of `timer_execute` finds
      nothing before `timer_shift`, and nothing again after one round. */
  lemma NothingDueBetween(events: seq<Event>)
    ensures Exec(Start(), events).wheel.Due() == []
  {
    Reachable(events);
    InvDue(Exec(Start(), events));
  }

  /** The wheel invariant in the code's own words: what every linked node satisfies between
      updates, on uint32 words. */
  lemma WheelInvariant(events: seq<Event>, p: Place, n: Timer)
    requires n in Exec(Start(), events).wheel.At(p)
    ensures Ahead(p, n.expire, Exec(Start(), events).wheel.time)
  {
    Reachable(events);
    var r := Exec(Start(), events);
    CountZero(r.wheel.At(p), n.id);
    assert Tagged(n, r.added);
    assert Count(r.wheel.At(p), n.id) == Links(r, p, n.id, r.now);
    WhereAhead(r.added[n.id], r.now);
  }

  lemma {:induction false} AddedGrows(r: Run, events: seq<Event>)
    ensures r.added <= Exec(r, events).added
    decreases |events|
  {
    if events != [] { AddedGrows(Step(r, events[0]), events[1..]); }
  }

  lemma {:induction false} CancelledGrows(r: Run, events: seq<Event>)
    ensures r.cancelled <= Exec(r, events).cancelled
    decreases |events|
  {
    if events != [] { CancelledGrows(Step(r, events[0]), events[1..]); }
  }

  /** A timer that is cancelled before its node is visited never runs, whatever follows; this
      includes a node further on in the list that is being dispatched. */
  lemma CancelledNeverRuns(before: seq<Event>, id: nat, rest: seq<Event>)
    requires var r := Exec(Start(), before); r.Pending(id, r.now) || r.Waiting(id)
    ensures Times(Exec(Start(), before + [DelTimer(id)] + rest).log, id) == []
  {
    var r, s := Exec(Start(), before), Exec(Start(), before + [DelTimer(id)]);
    ExecAppend(Start(), before, [DelTimer(id)]);
    OneEvent(r, DelTimer(id));
    Reachable(before);
    CountZero(r.leaving, id);
    ExecAppend(Start(), before + [DelTimer(id)], rest);
    AddedGrows(s, rest);
    CancelledGrows(s, rest);
    ExactFiring(before + [DelTimer(id)] + rest, id);
  }

  // ----- what a run records -----

  lemma ExecSnoc(events: seq<Event>)
    requires events != []
    ensures var before := events[..|events| - 1];
            Exec(Start(), events) == Step(Exec(Start(), before), events[|events| - 1])
  {
    var before, e := events[..|events| - 1], events[|events| - 1];
    assert events == before + [e];
    ExecAppend(Start(), before, [e]);
    OneEvent(Exec(Start(), before), e);
  }

  /** The i-th event cancels timer `id`, whose node is linked or waits for its visit. */
  ghost predicate CancelsAt(events: seq<Event>, i: nat, id: nat) {
    && i < |events| && events[i] == DelTimer(id)
    && var r := Exec(Start(), events[..i]); r.Pending(id, r.now) || r.Waiting(id)
  }

  lemma CancelsBefore(events: seq<Event>, i: nat, id: nat)
    requires i + 1 < |events|
    ensures CancelsAt(events, i, id) == CancelsAt(events[..|events| - 1], i, id)
  {
    assert events[..|events| - 1][..i] == events[..i];
  }

  /** A timer counts as cancelled exactly if it was, at some time while its node was not visited yet; no other
      event cancels it, nor does the cancellation of another timer. */
  lemma {:induction false} CancelledExactly(events: seq<Event>, id: nat)
    ensures id in Exec(Start(), events).cancelled <==> exists i: nat :: CancelsAt(events, i, id)
  {
    if events != [] {
      var before, last := events[..|events| - 1], |events| - 1;
      ExecSnoc(events);
      CancelledExactly(before, id);
      assert CancelsAt(events, last, id) <==>
             events[last] == DelTimer(id) && var r := Exec(Start(), before); r.Pending(id, r.now) || r.Waiting(id);
      forall i: nat | i < last
        ensures CancelsAt(events, i, id) == CancelsAt(before, i, id)
      {
        CancelsBefore(events, i, id);
      }
    }
  }

  /** The unwrapped clock counts the ticks; none comes while nodes wait for their visit. */
  lemma ClockAfter(events: seq<Event>, e: Event)
    ensures var r, s := Exec(Start(), events), Exec(Start(), events + [e]);
            s.now == r.now + if e == Tick && r.leaving == [] then 1 else 0
  {
    assert (events + [e])[..|events|] == events;
    ExecSnoc(events + [e]);
  }

  /** The whole life of one timer, from the call that adds it to any later state: unless a cancellation names
      it, its callback is run exactly `delay` ticks after the call, or at once for a delay that is not
      positive, if the guard of `Fires` holds, and never if not. */
  lemma Lifetime(before: seq<Event>, delay: Int32, rest: seq<Event>)
    requires DelTimer(|Exec(Start(), before).added|) !in rest
    ensures var id, at := |Exec(Start(), before).added|, Exec(Start(), before).now;
            var r := Exec(Start(), before + [AddTimer(delay)] + rest);
            Times(r.log, id) ==
              if delay <= 0 then [at]
              else if Request(at, delay).Fires() && at + delay <= r.now && !r.Waiting(id) then [at + delay]
              else []
  {
    var id, events := |Exec(Start(), before).added|, before + [AddTimer(delay)] + rest;
    AddAfter(before, delay, rest);
    assert Exec(Start(), events).added[id] == Request(Exec(Start(), before).now, delay);
    CancelledExactly(events, id);
    forall i: nat
      ensures !CancelsAt(events, i, id)
    {
      NotCancelled(before, delay, rest, i);
    }
    ExactFiring(events, id);
  }

  /** Before a timer is added, nothing can cancel it. */
  lemma NotCancelled(before: seq<Event>, delay: Int32, rest: seq<Event>, i: nat)
    requires DelTimer(|Exec(Start(), before).added|) !in rest
    ensures !CancelsAt(before + [AddTimer(delay)] + rest, i, |Exec(Start(), before).added|)
  {
    var id, events := |Exec(Start(), before).added|, before + [AddTimer(delay)] + rest;
    if |before| < i < |events| {
      assert events[i] == rest[i - |before| - 1];
    } else if i < |before| {
      assert events[..i] == before[..i] && before == before[..i] + before[i..];
      ExecAppend(Start(), before[..i], before[i..]);
      AddedGrows(Exec(Start(), before[..i]), before[i..]);
      UnknownTimer(before[..i], id);
    }
  }

  lemma UnknownTimer(events: seq<Event>, id: nat)
    requires id >= |Exec(Start(), events).added|
    ensures var r := Exec(Start(), events); !r.Pending(id, r.now) && !r.Waiting(id)
  {
    Reachable(events);
    CountZero(Exec(Start(), events).leaving, id);
  }

  // ----- the plain claim fails -----

  function Ticks(n: nat): seq<Event> {
    if n == 0 then [] else Ticks(n - 1) + [Tick]
  }

  lemma FirstMember(list: seq<Timer>)
    ensures list == [] || exists n :: n in list
  {
    if list != [] { assert list[0] in list; }
  }

  lemma NothingLeaves(events: seq<Event>)
    requires Exec(Start(), events).added == []
    ensures Exec(Start(), events).leaving == []
  {
    Reachable(events);
    FirstMember(Exec(Start(), events).leaving);
  }

  lemma {:induction false} AfterTicks(n: nat)
    ensures var r := Exec(Start(), Ticks(n)); r.now == n && r.added == []
  {
    if n > 0 {
      AfterTicks(n - 1);
      ExecAppend(Start(), Ticks(n - 1), [Tick]);
      OneEvent(Exec(Start(), Ticks(n - 1)), Tick);
      NothingLeaves(Ticks(n - 1));
    }
  }

  lemma AddAfter(before: seq<Event>, delay: Int32, rest: seq<Event>)
    ensures var r := Exec(Start(), before);
            r.added + [Request(r.now, delay)] <= Exec(Start(), before + [AddTimer(delay)] + rest).added
  {
    var r, add := Exec(Start(), before), [AddTimer(delay)];
    ExecAppend(Start(), before + add, rest);
    ExecAppend(Start(), before, add);
    assert Exec(r, add) == Exec(Step(r, add[0]), add[1..]);
    AddedGrows(Step(r, add[0]), rest);
  }

  lemma NeverMoved()
    ensures !Request(0x3F80, 0x100).Fires()
  {
    assert Digit(0x4080, 0) == 0;
  }

  /** A timer of 256 ticks added when the clock is at 0x3F80 is never run, whatever follows. */
  lemma LostTimer(clock: nat, rest: seq<Event>)
    requires clock == 0x3F80
    ensures var r := Exec(Start(), Ticks(clock) + [AddTimer(0x100)] + rest);
            |r.added| > 0 && r.added[0] == Request(0x3F80, 0x100) && Times(r.log, 0) == []
  {
    var ticks := Ticks(clock);
    AfterTicks(clock);
    AddAfter(ticks, 0x100, rest);
    ExactFiring(ticks + [AddTimer(0x100)] + rest, 0);
    NeverMoved();
  }
}
