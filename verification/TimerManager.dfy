/** The timer manager of timer/timerwheel.c as the code keeps it: linked lists updated in place, related
    to the runs of `TimerRuns` by a ghost field. */
module TimerClass {
  import opened TimerWheel
  import opened TimerRuns
  import opened LinkLists

  function Ids(log: seq<Firing>): seq<nat> {
    seq(|log|, i requires 0 <= i < |log| => log[i].id)
  }

  /** What other threads and callbacks do while the lock is free: they add timers, and cancel
      timers whose nodes are not freed yet. */
  ghost predicate Requests(r: Run, events: seq<Event>)
    decreases |events|
  {
    events != [] ==>
      && (events[0].AddTimer? || (events[0].DelTimer? && (r.Pending(events[0].id, r.now) || r.Waiting(events[0].id))))
      && Requests(Step(r, events[0]), events[1..])
  }

  lemma {:induction false} RequestsLeave(r: Run, events: seq<Event>)
    requires Requests(r, events)
    ensures Exec(r, events).leaving == r.leaving
    decreases |events|
  {
    if events != [] { RequestsLeave(Step(r, events[0]), events[1..]); }
  }

  /** One list of requests for every node that is still to be visited: what happens while its
      callback runs and until the next node is visited. */
  ghost predicate Meanwhile(r: Run, events: seq<seq<Event>>)
    decreases |events|
  {
    if events == [] then r.leaving == []
    else
      && r.leaving != [] && Requests(Step(r, Visit), events[0])
      && Meanwhile(Exec(Step(r, Visit), events[0]), events[1..])
  }

  /** The dispatch of a list. */
  function Visits(events: seq<seq<Event>>): (all: seq<Event>) {
    if events == [] then [] else [Visit] + events[0] + Visits(events[1..])
  }

  lemma VisitNext(r: Run, events: seq<seq<Event>>)
    requires events != []
    ensures Exec(r, Visits(events)) == Exec(Exec(Step(r, Visit), events[0]), Visits(events[1..]))
  {
    ExecAppend(r, [Visit] + events[0], Visits(events[1..]));
    ExecAppend(r, [Visit], events[0]);
    OneEvent(r, Visit);
  }

  lemma ReachedExpire(r: Run)
    requires Reached(r)
    ensures forall p :: InWord(r.wheel.At(p))
  {
    var events :| r == Exec(Start(), events);
    Reachable(events);
    forall p, n | n in r.wheel.At(p)
      ensures n.expire < WORD
    {
      assert Tagged(n, r.added);
    }
  }

  /** The wheel whose lists `timer_shift` moves. */
  lemma ShiftStart(r: Run) returns (w: Wheel)
    requires Reached(r)
    ensures w.time == (r.wheel.time + 1) % WORD && r.wheel.Shift() == w.Move(CascadeFrom(w.time, 0))
    ensures forall p :: w.At(p) == r.wheel.At(p)
    ensures forall p :: InWord(w.At(p))
  {
    w := r.wheel.(time := (r.wheel.time + 1) % WORD);
    ReachedExpire(r);
    assert forall p :: w.At(p) == r.wheel.At(p);
  }

  /** The shifted word and the mask of the loop in `timer_shift`; it leaves the loop by level 3. */
  lemma UnitsOfWord(ct: nat, i: nat)
    requires 0 < ct < WORD && i < 4
    ensures ct % Unit(i) == Low(ct, i) && ct / Unit(i) % TIME_LEVEL == Digit(ct, i)
    ensures i == 3 && ct % Unit(i) == 0 ==> ct / Unit(i) % TIME_LEVEL != 0
    ensures i < 3 ==> Unit(i + 1) == Unit(i) * TIME_LEVEL && ct / Unit(i + 1) == ct / Unit(i) / TIME_LEVEL
  {
  }

  class TimerManager {
    var time: nat                  // uint32
    const wheel: LinkedWheel       // the lists `near` and `t`
    var current: Node?             // the rest of the list that is being dispatched
    var cancel: set<nat>           // nodes whose cancel flag is set
    var created: nat               // nodes allocated so far
    var fired: seq<nat>            // callbacks run so far

    ghost var leaving: seq<Node>
    ghost var run: Run

    ghost predicate Represents()
      reads this, wheel, wheel.lists.Values, wheel.nodes
    {
      UpTo(wheel.lists.Keys, 4) && wheel.Rests(current, leaving, run.wheel) && Counts()
    }

    /** What holds between the calls: the manager is in a state of some run of the wheel. */
    ghost predicate Valid()
      reads this, wheel, wheel.lists.Values, wheel.nodes
    {
      Represents() && Reached(run)
    }

    constructor ()
      ensures Valid() && run == Start()
      ensures fresh(wheel) && fresh(wheel.lists.Values) && fresh(wheel.nodes)
    {
      var lists, heads, made := NewLists();
      wheel := new LinkedWheel(lists, {}, heads);
      time, current, cancel, created, fired := 0, null, {}, 0, [];
      leaving, run := [], Start();
      new;
      assert run == Exec(Start(), []);
    }

    /** What the run says about the fields besides the lists. */
    ghost predicate Counts()
      reads this
    {
      && time == run.wheel.time < WORD && Timers(leaving) == run.leaving
      && cancel == run.cancelled && created == |run.added| && fired == Ids(run.log)
    }

    /** The counters and the run after `add_timer`. */
    method Count(delay: Int32)
      requires Counts()
      modifies this`created, this`fired, this`run
      ensures Counts() && run == Step(old(run), Event.AddTimer(delay))
    {
      if delay <= 0 {
        fired := fired + [created];
      }
      created := created + 1;
      run := Step(run, Event.AddTimer(delay));
    }

    /** The node that `add_timer` makes. */
    method LinkTimer(delay: Int32)
      requires Represents() && delay > 0
      modifies wheel`free, wheel`nodes, wheel.lists.Values, wheel.nodes
      ensures wheel.Rests(current, leaving, Step(run, Event.AddTimer(delay)).wheel)
      ensures wheel.free == old(wheel.free) && fresh(wheel.nodes - old(wheel.nodes))
    {
      var timer := Timer(created, (delay + time) % WORD);
      PlaceInRange(timer.expire, time);
      assert Step(run, Event.AddTimer(delay)).wheel == run.wheel.AddNode(timer);
      var _ := wheel.Add(timer, time, current, leaving, run.wheel);
    }

    /** `add_timer`: the address of the new node, or None when the callback was run at once. */
    method AddTimer(delay: Int32) returns (node: nat, linked: bool)
      requires Represents()
      modifies this`created, this`fired, this`run, wheel`free, wheel`nodes, wheel.lists.Values, wheel.nodes
      ensures Represents() && run == Step(old(run), Event.AddTimer(delay))
      ensures node == |old(run).added| && linked == (delay > 0) && wheel.free == old(wheel.free)
      ensures fresh(wheel.nodes - old(wheel.nodes))
    {
      node, linked := created, delay > 0;
      if linked {
        LinkTimer(delay);
      }
      Count(delay);
    }

    /** `del_timer`: the caller's node must not be freed yet; it can be linked, or wait for its
        visit in the list that is being dispatched. */
    method DelTimer(node: nat)
      requires Represents() && (run.Pending(node, run.now) || run.Waiting(node))
      modifies this`cancel, this`run
      ensures Represents() && run == Step(old(run), Event.DelTimer(node))
    {
      cancel := cancel + {node};
      run := Step(run, Event.DelTimer(node));
    }

    method Interfere(events: seq<Event>)
      requires Represents() && Requests(run, events)
      modifies this`created, this`fired, this`cancel, this`run
      modifies wheel`free, wheel`nodes, wheel.lists.Values, wheel.nodes
      ensures Represents() && run == Exec(old(run), events)
      ensures wheel.free == old(wheel.free) && fresh(wheel.nodes - old(wheel.nodes))
    {
      var rest := events;
      while rest != []
        invariant Represents() && Requests(run, rest)
        invariant Exec(run, rest) == Exec(old(run), events)
        invariant wheel.free == old(wheel.free) && fresh(wheel.nodes - old(wheel.nodes))
        decreases |rest|
      {
        if rest[0].AddTimer? {
          var _, _ := AddTimer(rest[0].delay);
        } else {
          DelTimer(rest[0].id);
        }
        rest := rest[1..];
      }
    }

    method TimerShift()
      requires Valid() && run.leaving == []
      modifies this`time, this`run, wheel`free, wheel.lists.Values, wheel.nodes
      ensures Represents() && run == Shifted(old(run))
    {
      ghost var w := ShiftStart(run);
      wheel.SameLists(run.wheel, w);
      Advance(w);
      NoteTick();
    }

    /** What `timer_shift` does to the clock, a uint32, and to the lists, when the clock is to become
        that of `w`. */
    method Advance(ghost w: Wheel)
      requires UpTo(wheel.lists.Keys, 4) && wheel.Rests(null, [], w) && w.time == (time + 1) % WORD
      requires forall p :: InWord(w.At(p))
      modifies this`time, wheel`free, wheel.lists.Values, wheel.nodes
      ensures time == w.time && wheel.Rests(null, [], w.Move(CascadeFrom(w.time, 0)))
    {
      time := (time + 1) % WORD;
      Cascade(time, w);
    }

    /** The run after the tick. */
    ghost method NoteTick()
      requires time == (run.wheel.time + 1) % WORD && Timers(leaving) == run.leaving
      requires cancel == run.cancelled && created == |run.added| && fired == Ids(run.log)
      requires wheel.Rests(current, leaving, run.wheel.Shift())
      modifies this`run
      ensures Counts() && run == Shifted(old(run)) && wheel.Rests(current, leaving, run.wheel)
    {
      run := Shifted(run);
    }

    /** The body of `timer_shift` after the clock was advanced to `ct`. */
    method Cascade(ct: nat, ghost w: Wheel)
      requires UpTo(wheel.lists.Keys, 4) && wheel.Rests(null, [], w) && ct == w.time < WORD
      requires forall p :: InWord(w.At(p))
      modifies wheel`free, wheel.lists.Values, wheel.nodes
      ensures wheel.Rests(null, [], w.Move(CascadeFrom(ct, 0)))
    {
      if ct == 0 {
        assert CascadeFrom(ct, 2) == CascadeFrom(ct, 3) == [Level(3, 0)];
        assert CascadeFrom(ct, 0) == CascadeFrom(ct, 1) == CascadeFrom(ct, 2);
        wheel.Relink(Level(3, 0), ct, w);
      } else {
        var mask, units, i := TIME_NEAR, ct / 0x100, 0;
        while ct % mask == 0
          invariant i <= 3 && mask == Unit(i) && units == ct / Unit(i)
          invariant CascadeFrom(ct, 0) == CascadeFrom(ct, i)
          invariant wheel.Rests(null, [], w)
          decreases 4 - i
        {
          var idx := units % TIME_LEVEL;
          UnitsOfWord(ct, i);
          if idx != 0 {
            wheel.Relink(Level(i, idx), ct, w);
            return;
          }
          mask := mask * TIME_LEVEL;
          units := units / TIME_LEVEL;
          i := i + 1;
        }
        UnitsOfWord(ct, i);
      }
    }

    /** Visits the first node of the list that is being dispatched: its next pointer is read, and its
        callback is run unless the cancel flag is set. */
    method VisitNode() returns (temp: Node)
      requires Represents() && current != null
      modifies this`current, this`leaving, this`fired, this`run
      ensures Represents() && run == Step(old(run), Visit)
      ensures temp == old(current) && temp in wheel.free && temp !in leaving
    {
      TimersNext(leaving);
      temp := current;
      current := temp.next;
      leaving := leaving[1..];
      if temp.timer.id !in cancel {
        fired := fired + [temp.timer.id];
      }
      run := Step(run, Visit);
    }

    /** `dispatch_list`, with what other threads and the callbacks do from node to node. */
    method DispatchList(events: seq<seq<Event>>)
      requires Represents() && Meanwhile(run, events)
      modifies this`current, this`leaving, this`created, this`fired, this`cancel, this`run
      modifies wheel`free, wheel`nodes, wheel.lists.Values, wheel.nodes
      ensures Represents() && run == Exec(old(run), Visits(events)) && run.leaving == []
      ensures fresh(wheel.nodes - old(wheel.nodes))
    {
      var rest := events;
      while current != null
        invariant Represents() && Meanwhile(run, rest)
        invariant Exec(run, Visits(rest)) == Exec(old(run), Visits(events))
        invariant fresh(wheel.nodes - old(wheel.nodes))
        decreases |rest|
      {
        VisitNext(run, rest);
        var temp := VisitNode();
        RequestsLeave(run, rest[0]);
        Interfere(rest[0]);
        wheel.Free(temp, current, leaving, run.wheel);
        rest := rest[1..];
      }
    }

    /** Takes the list that the clock points at. */
    method Take(idx: nat)
      requires Represents() && idx == time % TIME_NEAR && run.leaving == []
      modifies this`current, this`leaving, this`run, wheel`free, wheel.lists.Values, wheel.nodes
      ensures Represents() && run == Unlinked(old(run))
    {
      assert leaving == [];
      current, leaving := wheel.Take(Near(idx), run.wheel);
      NoteUnlink();
    }

    /** The run after the list was taken. */
    ghost method NoteUnlink()
      requires time == run.wheel.time < WORD && Timers(leaving) == run.wheel.Due()
      requires cancel == run.cancelled && created == |run.added| && fired == Ids(run.log)
      requires wheel.Rests(current, leaving, run.wheel.Sweep())
      modifies this`run
      ensures Counts() && run == Unlinked(old(run)) && wheel.Rests(current, leaving, run.wheel)
    {
      run := Unlinked(run);
    }

    /** One round of the loop of `timer_execute`. */
    method Round(idx: nat, events: seq<seq<Event>>)
      requires Represents() && idx == time % TIME_NEAR && run.leaving == [] && Meanwhile(Unlinked(run), events)
      modifies this`current, this`leaving, this`created, this`fired, this`cancel, this`run
      modifies wheel`free, wheel`nodes, wheel.lists.Values, wheel.nodes
      ensures Represents() && run == Exec(Unlinked(old(run)), Visits(events)) && run.leaving == []
      ensures fresh(wheel.nodes - old(wheel.nodes))
    {
      Take(idx);
      DispatchList(events);
    }

    /** The test of the loop of `timer_execute`. */
    method IsEmpty(idx: nat) returns (empty: bool)
      requires Represents() && idx < TIME_NEAR && run.leaving == []
      ensures empty <==> run.wheel.At(Near(idx)) == []
    {
      assert leaving == [];
      empty := wheel.IsEmpty(Near(idx), run.wheel);
    }

    /** `timer_execute`; whatever happens while the lock is released, the loop runs at most once. */
    method TimerExecute(events: seq<seq<Event>>)
      requires Represents() && run.leaving == [] && Inv(Unlinked(run)) && Meanwhile(Unlinked(run), events)
      modifies this`current, this`leaving, this`created, this`fired, this`cancel, this`run
      modifies wheel`free, wheel`nodes, wheel.lists.Values, wheel.nodes
      ensures Represents() && run == Exec(Unlinked(old(run)), Visits(events)) && run.leaving == []
      ensures fresh(wheel.nodes - old(wheel.nodes))
    {
      var idx := time % TIME_NEAR;
      ExecKeeps(Unlinked(run), Visits(events));
      InvDue(Exec(Unlinked(run), Visits(events)));
      ghost var swept := false;
      var empty := IsEmpty(idx);
      while !empty
        invariant Represents() && run.leaving == [] && fresh(wheel.nodes - old(wheel.nodes))
        invariant run == if swept then Exec(Unlinked(old(run)), Visits(events)) else old(run)
        invariant empty <==> run.wheel.Due() == []
        decreases !swept
      {
        Round(idx, events);
        swept := true;
        empty := IsEmpty(idx);
      }
      if !swept {
        SkipUnlink();
      }
    }

    /** Taking an empty list makes no difference. */
    ghost method SkipUnlink()
      requires Represents() && run.wheel.Due() == [] && run.leaving == []
      modifies this`run
      ensures Represents() && run == Unlinked(old(run))
    {
      assert leaving == [];
      wheel.SameLists(run.wheel, Unlinked(run).wheel);
      NoteUnlink();
    }

    /** `timer_update`: the clock advances by one and the timers due then are dispatched. */
    method TimerUpdate(events: seq<seq<Event>>)
      requires Valid() && run.leaving == []
      requires Meanwhile(Exec(run, [Unlink, Tick]), events)
      modifies this, wheel`free, wheel`nodes, wheel.lists.Values, wheel.nodes
      ensures Valid() && run.leaving == [] && fresh(wheel.nodes - old(wheel.nodes))
      ensures run == Exec(old(run), [Unlink, Tick] + Visits(events))
    {
      ghost var r := run;
      UpdateSteps(r);
      ExecAppend(r, [Unlink, Tick], Visits(events));
      ReachedStep(r, [Unlink]);
      ReachedStep(r, [Unlink, Tick]);
      ReachedStep(r, [Unlink, Tick] + Visits(events));
      TimerExecute([]);
      TimerShift();
      TimerExecute(events);
    }
  }
}
