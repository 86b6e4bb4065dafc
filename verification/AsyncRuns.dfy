/** The callback queue of an asynchronous connection (async.c) without pub/sub and monitor mode:
    what the calls of a program and the replies of a server do to it, over whole runs. */
module AsyncRuns {
  import opened Wrappers

  /** A reply; `isError` tells error replies from the others. */
  datatype Reply = Reply(isError: bool, value: nat)

  /** One run of a callback: that of command `id`, with its reply or with NULL. */
  datatype Invocation = Invocation(id: nat, reply: Option<Reply>)

  /** What a callback may do. */
  datatype Action = Command | Disconnect | Free

  /** The connection.  `pending` are the numbers of the commands that wait for a reply, `accepted` is how
      many there were, `log` the callbacks run so far and `got` the replies handed to callbacks.  `gone` is a
      freed context; `dirty` and `stray` are the two assertions that can fail: a callback left over at a
      clean disconnect, and a reply that no command waits for. */
  datatype Context = Context(disconnecting: bool, freeing: bool, failed: bool, pending: seq<nat>,
                             accepted: nat, log: seq<Invocation>, got: seq<Reply>, gone: bool,
                             dirty: bool, stray: bool)

  const START := Context(false, false, false, [], 0, [], [], false, false, false)

  /** No command is accepted any more. */
  predicate Closing(c: Context) {
    c.disconnecting || c.freeing
  }

  // ----- calls while a callback runs -----

  function Issue(c: Context): Context {
    if Closing(c) then c else c.(pending := c.pending + [c.accepted], accepted := c.accepted + 1)
  }

  function Act(c: Context, a: Action): (c': Context)
    ensures c'.log == c.log && c'.got == c.got && c'.gone == c.gone && c'.dirty == c.dirty && c'.stray == c.stray
    ensures c'.failed == c.failed
    ensures Closing(c) ==> Closing(c') && c'.pending == c.pending && c'.accepted == c.accepted
  {
    match a
    case Command => Issue(c)
    case Disconnect => c.(disconnecting := true)
    case Free => c.(freeing := true)
  }

  function Acts(c: Context, actions: seq<Action>): (c': Context)
    ensures c'.log == c.log && c'.got == c.got && c'.gone == c.gone && c'.dirty == c.dirty && c'.stray == c.stray
    ensures c'.failed == c.failed
    ensures Closing(c) ==> Closing(c') && c'.pending == c.pending && c'.accepted == c.accepted
    decreases |actions|
  {
    if actions == [] then c else Acts(Act(c, actions[0]), actions[1..])
  }

  /** The callback at the head of the queue runs; `script` says what each callback run does. */
  function RunHead(c: Context, reply: Option<Reply>, script: nat -> seq<Action>): (c': Context)
    requires c.pending != []
    ensures Closing(c) ==> Closing(c') && c'.pending == c.pending[1..] && c'.accepted == c.accepted
  {
    Acts(c.(pending := c.pending[1..], log := c.log + [Invocation(c.pending[0], reply)]), script(|c.log|))
  }

  // ----- teardown -----

  /** Every callback that is left runs with NULL, then the context is gone. */
  function Teardown(c: Context, script: nat -> seq<Action>): (c': Context)
    requires Closing(c)
    ensures Closing(c') && c'.accepted == c.accepted
    decreases |c.pending|
  {
    if c.pending == [] then c.(gone := true) else Teardown(RunHead(c, None, script), script)
  }

  /** Really disconnects.  Without an error there has to be no callback left, or the assertion fails. */
  function DisconnectNow(c: Context, script: nat -> seq<Action>): (c': Context)
    requires c.failed || Closing(c)
    ensures Closing(c') && c'.accepted == c.accepted
  {
    if c.failed then Teardown(c.(disconnecting := true), script)
    else if c.pending != [] then c.(pending := c.pending[1..], dirty := true)
    else Teardown(c, script)
  }

  // ----- replies -----

  /** Hands out replies in order, then either waits for more or finds the connection broken. */
  function Process(c: Context, replies: seq<Reply>, broken: bool, flushed: bool, script: nat -> seq<Action>):
    (c': Context)
    ensures Closing(c) ==> Closing(c') && c'.accepted == c.accepted
    decreases |replies|
  {
    if replies == [] then
      if broken then DisconnectNow(c.(failed := true), script)
      else if c.disconnecting && flushed && c.pending == [] then DisconnectNow(c, script)
      else c
    else if c.pending == [] then
      if replies[0].isError then DisconnectNow(c.(failed := true), script)
      else c.(stray := true)
    else
      var c' := RunHead(c.(got := c.got + [replies[0]]), Some(replies[0]), script);
      if c'.freeing then Teardown(c', script) else Process(c', replies[1..], broken, flushed, script)
  }

  // ----- runs -----

  /** A call of the program outside of callbacks, or of the event loop. */
  datatype Event =
    | Call(action: Action)
    | Replies(replies: seq<Reply>, broken: bool, flushed: bool)

  /** A call on a freed context, or after a failed assertion, is not one a program can make: nothing happens. */
  function Step(c: Context, e: Event, script: nat -> seq<Action>): (c': Context)
    ensures Closing(c) ==> Closing(c') && c'.accepted == c.accepted
  {
    if c.gone || c.dirty || c.stray then c
    else match e
      case Call(Command) => Issue(c)
      case Call(Disconnect) =>
        var d := c.(disconnecting := true);
        if d.pending == [] then DisconnectNow(d, script) else d
      case Call(Free) => Teardown(c.(freeing := true), script)
      case Replies(replies, broken, flushed) => Process(c, replies, broken, flushed, script)
  }

  function Run(events: seq<Event>, script: nat -> seq<Action>): Context {
    if events == [] then START else Step(Run(events[..|events| - 1], script), events[|events| - 1], script)
  }

  /** All replies that arrive in a run. */
  function Stream(events: seq<Event>): seq<Reply> {
    if events == [] then []
    else
      var e := events[|events| - 1];
      Stream(events[..|events| - 1]) + (if e.Replies? then e.replies else [])
  }

  // ----- what every run keeps -----

  /** The commands whose callbacks ran come first, in issue order and each once, then those that wait; the
      first of them got the replies in order, the others NULL. */
  ghost predicate InOrder(c: Context) {
    && |c.log| + |c.pending| == c.accepted && |c.got| <= |c.log|
    && (forall i | 0 <= i < |c.log| :: c.log[i] == Invocation(i, if i < |c.got| then Some(c.got[i]) else None))
    && (forall i | 0 <= i < |c.pending| :: c.pending[i] == |c.log| + i)
  }

  /** Between two calls: a context in use has handed out the whole stream. */
  ghost predicate Live(c: Context, stream: seq<Reply>) {
    InOrder(c) && |c.log| == |c.got| && c.got == stream && !c.gone && !c.dirty && !c.stray && !c.failed
  }

  ghost predicate Inv(c: Context, stream: seq<Reply>) {
    if c.gone then
      InOrder(c) && Closing(c) && c.pending == [] && c.got <= stream && !c.dirty && !c.stray
    else if c.stray then
      InOrder(c) && c.pending == [] && c.got < stream && !stream[|c.got|].isError && |c.log| == |c.got| && !c.dirty
    else
      Live(c, stream)
  }

  lemma ActInOrder(c: Context, action: Action)
    requires InOrder(c)
    ensures InOrder(Act(c, action))
  {
  }

  lemma {:induction false} ActsInOrder(c: Context, actions: seq<Action>)
    requires InOrder(c)
    ensures InOrder(Acts(c, actions))
    decreases |actions|
  {
    if actions != [] {
      ActInOrder(c, actions[0]);
      ActsInOrder(Act(c, actions[0]), actions[1..]);
    }
  }

  lemma RunHeadInOrder(c: Context, reply: Option<Reply>, script: nat -> seq<Action>)
    requires InOrder(c) && c.pending != []
    requires reply.None?
    ensures InOrder(RunHead(c, reply, script))
  {
    var d := c.(pending := c.pending[1..], log := c.log + [Invocation(c.pending[0], reply)]);
    ActsInOrder(d, script(|c.log|));
  }

  lemma RunReplyInOrder(c: Context, reply: Reply, script: nat -> seq<Action>)
    requires InOrder(c) && c.pending != [] && |c.log| == |c.got|
    ensures InOrder(RunHead(c.(got := c.got + [reply]), Some(reply), script))
  {
    var d := c.(got := c.got + [reply], pending := c.pending[1..],
                log := c.log + [Invocation(c.pending[0], Some(reply))]);
    ActsInOrder(d, script(|c.log|));
  }

  /** A teardown runs every callback that waits, with NULL, and none besides. */
  lemma {:induction false} TeardownRunsAll(c: Context, script: nat -> seq<Action>)
    requires InOrder(c) && Closing(c)
    ensures var c' := Teardown(c, script);
            && InOrder(c') && Closing(c') && c'.gone && c'.pending == [] && c'.accepted == c.accepted
            && c'.got == c.got && c'.dirty == c.dirty && c'.stray == c.stray && |c'.log| == c.accepted
    decreases |c.pending|
  {
    if c.pending != [] {
      RunHeadInOrder(c, None, script);
      TeardownRunsAll(RunHead(c, None, script), script);
    }
  }

  lemma {:induction false} ProcessKeeps(c: Context, stream: seq<Reply>, replies: seq<Reply>, broken: bool,
                                        flushed: bool, script: nat -> seq<Action>)
    requires Live(c, stream)
    ensures Inv(Process(c, replies, broken, flushed, script), stream + replies)
    decreases |replies|
  {
    if replies == [] {
      assert stream + replies == stream;
      if broken {
        TeardownRunsAll(c.(failed := true, disconnecting := true), script);
      } else if c.disconnecting && flushed && c.pending == [] {
        TeardownRunsAll(c, script);
      }
    } else if c.pending == [] {
      if replies[0].isError { TeardownRunsAll(c.(failed := true, disconnecting := true), script); }
    } else {
      var c' := RunHead(c.(got := c.got + [replies[0]]), Some(replies[0]), script);
      RunReplyInOrder(c, replies[0], script);
      assert stream + replies == (stream + [replies[0]]) + replies[1..];
      if c'.freeing {
        TeardownRunsAll(c', script);
      } else {
        ProcessKeeps(c', stream + [replies[0]], replies[1..], broken, flushed, script);
      }
    }
  }

  lemma StepKeeps(c: Context, e: Event, stream: seq<Reply>, script: nat -> seq<Action>)
    requires Inv(c, stream)
    ensures Inv(Step(c, e, script), stream + if e.Replies? then e.replies else [])
  {
    assert stream + [] == stream;
    if !c.gone && !c.stray {
      match e
      case Call(Command) =>
      case Call(Disconnect) =>
        var d := c.(disconnecting := true);
        if d.pending == [] { TeardownRunsAll(d, script); }
      case Call(Free) => TeardownRunsAll(c.(freeing := true), script);
      case Replies(replies, broken, flushed) => ProcessKeeps(c, stream, replies, broken, flushed, script);
    }
  }

  lemma {:induction false} RunKeeps(events: seq<Event>, script: nat -> seq<Action>)
    ensures Inv(Run(events, script), Stream(events))
  {
    if events != [] {
      RunKeeps(events[..|events| - 1], script);
      StepKeeps(Run(events[..|events| - 1], script), events[|events| - 1], Stream(events[..|events| - 1]), script);
    }
  }

  /** In every run, whatever its callbacks do: once the context is gone, the callback of each accepted command
      ran exactly once, in issue order, first with the replies of the stream in their order, then with NULL. */
  lemma ExactlyOnce(events: seq<Event>, script: nat -> seq<Action>)
    requires Run(events, script).gone
    ensures var c, n := Run(events, script), |Run(events, script).got|;
            && |c.log| == c.accepted && n <= |Stream(events)|
            && (forall i | 0 <= i < c.accepted ::
                  c.log[i] == Invocation(i, if i < n then Some(Stream(events)[i]) else None))
  {
    RunKeeps(events, script);
  }

  /** Until then every callback that ran got its own reply, and none is lost or run ahead of its turn. */
  lemma OwnReplies(events: seq<Event>, script: nat -> seq<Action>)
    requires !Run(events, script).gone
    ensures var c := Run(events, script);
            && c.accepted == |c.log| + |c.pending| && |c.log| <= |Stream(events)|
            && (forall i | 0 <= i < |c.log| :: c.log[i] == Invocation(i, Some(Stream(events)[i])))
            && (forall i | 0 <= i < |c.pending| :: c.pending[i] == |c.log| + i)
  {
    RunKeeps(events, script);
  }

  /** A clean disconnect never finds a callback left over, and with no more replies than commands no reply
      comes that no command waits for. */
  lemma NoAssertionFails(events: seq<Event>, script: nat -> seq<Action>)
    ensures !Run(events, script).dirty
    ensures |Stream(events)| <= Run(events, script).accepted ==> !Run(events, script).stray
  {
    RunKeeps(events, script);
  }

  predicate InUse(c: Context) {
    !c.gone && !c.dirty && !c.stray
  }

  /** When the first k replies are handed out, the context is still in use, and no command waits for the next
      one. */
  ghost predicate Bare(c: Context, replies: seq<Reply>, k: nat, script: nat -> seq<Action>) {
    k < |replies| && var d := Process(c, replies[..k], false, false, script); InUse(d) && d.pending == []
  }

  ghost predicate Unasked(c: Context, replies: seq<Reply>, k: nat, script: nat -> seq<Action>) {
    Bare(c, replies, k, script) && !replies[k].isError
  }

  lemma BareLater(c: Context, replies: seq<Reply>, k: nat, script: nat -> seq<Action>)
    requires InOrder(c) && InUse(c) && replies != [] && c.pending != [] && |c.log| == |c.got|
    ensures var c' := RunHead(c.(got := c.got + [replies[0]]), Some(replies[0]), script);
            Bare(c, replies, k, script) <==> k > 0 && !c'.freeing && Bare(c', replies[1..], k - 1, script)
  {
    var c' := RunHead(c.(got := c.got + [replies[0]]), Some(replies[0]), script);
    RunReplyInOrder(c, replies[0], script);
    if c'.freeing { TeardownRunsAll(c', script); }
    if 0 < k < |replies| {
      assert replies[..k][0] == replies[0] && replies[..k][1..] == replies[1..][..k - 1];
    }
  }

  /** Handing out replies meets a stray one if and only if some reply finds no command that waits. */
  lemma {:induction false} ProcessStray(c: Context, replies: seq<Reply>, broken: bool, flushed: bool,
                                        script: nat -> seq<Action>)
    requires InOrder(c) && |c.log| == |c.got| && InUse(c) && !c.failed
    ensures Process(c, replies, broken, flushed, script).stray <==> exists k: nat :: Unasked(c, replies, k, script)
    decreases |replies|
  {
    if replies == [] {
      if broken {
        TeardownRunsAll(c.(failed := true, disconnecting := true), script);
      } else if c.disconnecting && flushed && c.pending == [] {
        TeardownRunsAll(c, script);
      }
    } else if c.pending == [] {
      StrayAtOnce(c, replies, script);
    } else {
      var c' := RunHead(c.(got := c.got + [replies[0]]), Some(replies[0]), script);
      RunReplyInOrder(c, replies[0], script);
      if c'.freeing { TeardownRunsAll(c', script); } else { ProcessStray(c', replies[1..], broken, flushed, script); }
      StrayLater(c, replies, script);
    }
  }

  lemma StrayAtOnce(c: Context, replies: seq<Reply>, script: nat -> seq<Action>)
    requires InOrder(c) && InUse(c) && replies != [] && c.pending == []
    ensures (exists k: nat :: Unasked(c, replies, k, script)) <==> !replies[0].isError
    ensures replies[0].isError ==> !DisconnectNow(c.(failed := true), script).stray
  {
    TeardownRunsAll(c.(failed := true, disconnecting := true), script);
    forall k: nat
      ensures Unasked(c, replies, k, script) ==> k == 0
    {
      if 0 < k < |replies| { assert replies[..k][0] == replies[0]; }
    }
    if !replies[0].isError { assert Unasked(c, replies, 0, script); }
  }

  lemma StrayLater(c: Context, replies: seq<Reply>, script: nat -> seq<Action>)
    requires InOrder(c) && InUse(c) && replies != [] && c.pending != [] && |c.log| == |c.got|
    ensures var c' := RunHead(c.(got := c.got + [replies[0]]), Some(replies[0]), script);
            (exists k: nat :: Unasked(c, replies, k, script)) <==>
              !c'.freeing && exists k: nat :: Unasked(c', replies[1..], k, script)
  {
    var c' := RunHead(c.(got := c.got + [replies[0]]), Some(replies[0]), script);
    forall k: nat
      ensures Unasked(c, replies, k, script) <==> k > 0 && !c'.freeing && Unasked(c', replies[1..], k - 1, script)
    {
      BareLater(c, replies, k, script);
    }
    if !c'.freeing && exists k: nat :: Unasked(c', replies[1..], k, script) {
      var k: nat :| Unasked(c', replies[1..], k, script);
      assert Unasked(c, replies, k + 1, script);
    }
  }

  /** Reply number k of call n comes while no command waits: nothing is pending when the call has handed out
      the replies before it. */
  ghost predicate Unawaited(events: seq<Event>, n: nat, k: nat, script: nat -> seq<Action>) {
    && n < |events| && events[n].Replies? && k < |events[n].replies|
    && var d := Run(events[..n] + [Replies(events[n].replies[..k], false, false)], script);
       InUse(d) && d.pending == []
  }

  ghost predicate Surprise(events: seq<Event>, n: nat, k: nat, script: nat -> seq<Action>) {
    Unawaited(events, n, k, script) && !events[n].replies[k].isError
  }

  lemma RunSnoc(events: seq<Event>, e: Event, script: nat -> seq<Action>)
    ensures Run(events + [e], script) == Step(Run(events, script), e, script)
  {
    assert (events + [e])[..|events + [e]| - 1] == events;
  }

  lemma UnawaitedBare(events: seq<Event>, n: nat, k: nat, script: nat -> seq<Action>)
    requires n < |events| && events[n].Replies?
    ensures Unawaited(events, n, k, script) <==>
              InUse(Run(events[..n], script)) && Bare(Run(events[..n], script), events[n].replies, k, script)
  {
    if k < |events[n].replies| { RunSnoc(events[..n], Replies(events[n].replies[..k], false, false), script); }
  }

  lemma SurpriseSplit(before: seq<Event>, e: Event, n: nat, k: nat, script: nat -> seq<Action>)
    ensures Surprise(before + [e], n, k, script) <==>
              Surprise(before, n, k, script)
              || (n == |before| && InUse(Run(before, script)) && e.Replies?
                  && Unasked(Run(before, script), e.replies, k, script))
  {
    var events := before + [e];
    if n < |before| {
      assert before[..n] == events[..n];
    } else if n == |before| && e.Replies? {
      assert events[..n] == before;
      UnawaitedBare(events, n, k, script);
    }
  }

  /** The assertion on stray replies fails in a run if and only if some reply that is no error comes while no
      command waits. */
  lemma {:induction false} StrayExactly(events: seq<Event>, script: nat -> seq<Action>)
    ensures Run(events, script).stray <==> exists n: nat, k: nat :: Surprise(events, n, k, script)
  {
    if events != [] {
      var before, e := events[..|events| - 1], events[|events| - 1];
      assert events == before + [e];
      StrayExactly(before, script);
      StrayStep(before, e, script);
      if Run(before, script).stray {
        var n: nat, k: nat :| Surprise(before, n, k, script);
        SurpriseSplit(before, e, n, k, script);
      } else if Run(events, script).stray {
        var k: nat :| Unasked(Run(before, script), e.replies, k, script);
        SurpriseSplit(before, e, |before|, k, script);
      } else {
        NoSurprise(before, e, script);
      }
    }
  }

  lemma NoSurprise(before: seq<Event>, e: Event, script: nat -> seq<Action>)
    requires forall n: nat, k: nat :: !Surprise(before, n, k, script)
    requires !(InUse(Run(before, script)) && e.Replies?
               && exists k: nat :: Unasked(Run(before, script), e.replies, k, script))
    ensures forall n: nat, k: nat :: !Surprise(before + [e], n, k, script)
  {
    forall n: nat, k: nat
      ensures !Surprise(before + [e], n, k, script)
    {
      SurpriseSplit(before, e, n, k, script);
    }
  }

  lemma StrayStep(before: seq<Event>, e: Event, script: nat -> seq<Action>)
    ensures var c := Run(before, script);
            Step(c, e, script).stray <==>
              c.stray || (InUse(c) && e.Replies? && exists k: nat :: Unasked(c, e.replies, k, script))
  {
    var c := Run(before, script);
    RunKeeps(before, script);
    if InUse(c) {
      match e
      case Call(Command) =>
      case Call(Disconnect) => if c.pending == [] { TeardownRunsAll(c.(disconnecting := true), script); }
      case Call(Free) => TeardownRunsAll(c.(freeing := true), script);
      case Replies(replies, broken, flushed) => ProcessStray(c, replies, broken, flushed, script);
    }
  }

  // ----- when a callback gets NULL, and when the context goes -----

  lemma {:induction false} ActsFlags(c: Context, actions: seq<Action>)
    ensures Acts(c, actions).disconnecting <==> c.disconnecting || Disconnect in actions
    ensures Acts(c, actions).freeing <==> c.freeing || Free in actions
    decreases |actions|
  {
    if actions != [] { ActsFlags(Act(c, actions[0]), actions[1..]); }
  }

  /** No callback that got NULL, and nothing that asks for more. */
  ghost predicate Calm(c: Context) {
    !c.freeing && !c.failed && forall i | 0 <= i < |c.log| :: c.log[i].reply.Some?
  }

  lemma {:induction false} ProcessCalm(c: Context, replies: seq<Reply>, flushed: bool, script: nat -> seq<Action>)
    requires InOrder(c) && |c.log| == |c.got| && InUse(c) && Calm(c)
    requires forall k: nat :: Free !in script(k)
    requires forall k: nat | Bare(c, replies, k, script) :: !replies[k].isError
    ensures Calm(Process(c, replies, false, flushed, script))
    decreases |replies|
  {
    if replies != [] {
      if c.pending == [] {
        assert replies[..0] == [];
        assert Bare(c, replies, 0, script);
      } else {
        var c' := RunHead(c.(got := c.got + [replies[0]]), Some(replies[0]), script);
        RunReplyInOrder(c, replies[0], script);
        ActsFlags(c.(got := c.got + [replies[0]], pending := c.pending[1..],
                     log := c.log + [Invocation(c.pending[0], Some(replies[0]))]), script(|c.log|));
        forall k: nat | Bare(c', replies[1..], k, script)
          ensures !replies[1..][k].isError
        {
          BareLater(c, replies, k + 1, script);
        }
        ProcessCalm(c', replies[1..], flushed, script);
      }
    }
  }

  /** Nobody asks for `redisAsyncFree`, the connection does not break, and no error comes while no command
      waits. */
  ghost predicate Orderly(events: seq<Event>, script: nat -> seq<Action>) {
    && (forall i | 0 <= i < |events| :: events[i] != Call(Free) && (events[i].Replies? ==> !events[i].broken))
    && (forall k: nat :: Free !in script(k))
    && (forall n: nat, k: nat | Unawaited(events, n, k, script) :: !events[n].replies[k].isError)
  }

  lemma OrderlyBefore(events: seq<Event>, script: nat -> seq<Action>)
    requires Orderly(events, script) && events != []
    ensures Orderly(events[..|events| - 1], script)
  {
    var before := events[..|events| - 1];
    forall n: nat, k: nat | Unawaited(before, n, k, script)
      ensures !before[n].replies[k].isError
    {
      assert before[..n] == events[..n];
      assert Unawaited(events, n, k, script);
    }
  }

  lemma OrderlyLast(events: seq<Event>, script: nat -> seq<Action>)
    requires Orderly(events, script) && events != [] && events[|events| - 1].Replies?
    requires InUse(Run(events[..|events| - 1], script))
    ensures var c, replies := Run(events[..|events| - 1], script), events[|events| - 1].replies;
            forall k: nat | Bare(c, replies, k, script) :: !replies[k].isError
  {
    var n := |events| - 1;
    forall k: nat | Bare(Run(events[..n], script), events[n].replies, k, script)
      ensures !events[n].replies[k].isError
    {
      UnawaitedBare(events, n, k, script);
    }
  }

  lemma {:induction false} RunCalm(events: seq<Event>, script: nat -> seq<Action>)
    requires Orderly(events, script)
    ensures Calm(Run(events, script))
  {
    if events != [] {
      var before := events[..|events| - 1];
      OrderlyBefore(events, script);
      RunCalm(before, script);
      RunKeeps(before, script);
      var c := Run(before, script);
      if InUse(c) && events[|events| - 1].Replies? {
        OrderlyLast(events, script);
        ProcessCalm(c, events[|events| - 1].replies, events[|events| - 1].flushed, script);
      }
    }
  }

  lemma AllAnswered(c: Context)
    requires InOrder(c) && Calm(c)
    ensures |c.got| == |c.log|
  {
    assert |c.log| > 0 ==> c.log[|c.log| - 1].reply.Some?;
  }

  /** In an orderly run, with any number of disconnects, no callback gets NULL: each that ran got the reply of
      its own place in the stream. */
  lemma {:induction false} NoNulls(events: seq<Event>, script: nat -> seq<Action>)
    requires Orderly(events, script)
    ensures var c := Run(events, script);
            |c.log| <= |Stream(events)|
            && forall i | 0 <= i < |c.log| :: c.log[i] == Invocation(i, Some(Stream(events)[i]))
  {
    RunCalm(events, script);
    RunKeeps(events, script);
    AllAnswered(Run(events, script));
  }

  /** Somebody has asked for `redisAsyncDisconnect`: the program, or a callback that has run. */
  ghost predicate Asked(events: seq<Event>, script: nat -> seq<Action>) {
    || Call(Disconnect) in events
    || exists k | 0 <= k < |Run(events, script).log| :: Disconnect in script(k)
  }

  /** What handing out replies adds to the log, and what its callbacks have asked for. */
  ghost predicate AskedSince(c: Context, d: Context, script: nat -> seq<Action>) {
    exists k | |c.log| <= k < |d.log| :: Disconnect in script(k)
  }

  lemma {:induction false} TeardownAsks(c: Context, script: nat -> seq<Action>)
    requires Closing(c)
    ensures var d := Teardown(c, script);
            d.gone && d.failed == c.failed && (c.freeing ==> d.freeing) && |c.log| <= |d.log| && (d.disconnecting <==> c.disconnecting || AskedSince(c, d, script))
    decreases |c.pending|
  {
    if c.pending != [] {
      var c' := RunHead(c, None, script);
      ActsFlags(c.(pending := c.pending[1..], log := c.log + [Invocation(c.pending[0], None)]), script(|c.log|));
      TeardownAsks(c', script);
      AskedSplit(c, c', Teardown(c', script), script);
    }
  }

  lemma AskedSplit(c: Context, c': Context, d: Context, script: nat -> seq<Action>)
    requires |c'.log| == |c.log| + 1 <= |d.log|
    ensures AskedSince(c, d, script) <==> Disconnect in script(|c.log|) || AskedSince(c', d, script)
  {
  }

  lemma {:induction false} ProcessAsks(c: Context, replies: seq<Reply>, broken: bool, flushed: bool,
                                       script: nat -> seq<Action>)
    requires InUse(c) && !c.failed
    ensures var d := Process(c, replies, broken, flushed, script);
            && |c.log| <= |d.log|
            && (c.disconnecting || AskedSince(c, d, script) ==> d.disconnecting)
            && (!d.failed && d.disconnecting ==> c.disconnecting || AskedSince(c, d, script))
            && (broken && !d.stray ==> d.gone)
            && (flushed && InUse(d) ==> !(d.disconnecting && d.pending == []))
            && (d.gone && !d.failed && !d.freeing ==> d.disconnecting && flushed && d.pending == [])
    decreases |replies|
  {
    if replies == [] {
      if broken { TeardownAsks(c.(failed := true, disconnecting := true), script); }
    } else if c.pending == [] {
      if replies[0].isError { TeardownAsks(c.(failed := true, disconnecting := true), script); }
    } else {
      var c' := RunHead(c.(got := c.got + [replies[0]]), Some(replies[0]), script);
      ActsFlags(c.(got := c.got + [replies[0]], pending := c.pending[1..],
                   log := c.log + [Invocation(c.pending[0], Some(replies[0]))]), script(|c.log|));
      if c'.freeing {
        TeardownAsks(c', script);
        AskedSplit(c, c', Teardown(c', script), script);
      } else {
        ProcessAsks(c', replies[1..], broken, flushed, script);
        AskedSplit(c, c', Process(c', replies[1..], broken, flushed, script), script);
      }
    }
  }

  lemma StepAsks(c: Context, e: Event, script: nat -> seq<Action>)
    requires InUse(c) && !c.failed
    ensures var d := Step(c, e, script);
            && |c.log| <= |d.log|
            && (c.disconnecting || AskedSince(c, d, script) || e == Call(Disconnect) ==> d.disconnecting)
            && (!d.failed && d.disconnecting ==> c.disconnecting || AskedSince(c, d, script) || e == Call(Disconnect))
            && (d.gone && !d.failed && !d.freeing ==> d.disconnecting)
  {
    match e
    case Call(Command) =>
    case Call(Disconnect) => if c.pending == [] { TeardownAsks(c.(disconnecting := true), script); }
    case Call(Free) => TeardownAsks(c.(freeing := true), script);
    case Replies(replies, broken, flushed) => ProcessAsks(c, replies, broken, flushed, script);
  }

  lemma {:induction false} RunAsks(events: seq<Event>, script: nat -> seq<Action>)
    ensures var c := Run(events, script);
            && (InUse(c) && Asked(events, script) ==> c.disconnecting)
            && (!c.failed && c.disconnecting ==> Asked(events, script))
            && (c.gone && !c.failed && !c.freeing ==> c.disconnecting)
  {
    if events != [] {
      var before, e := events[..|events| - 1], events[|events| - 1];
      var c := Run(before, script);
      RunAsks(before, script);
      RunKeeps(before, script);
      assert events == before + [e];
      if InUse(c) { StepAsks(c, e, script); }
    }
  }

  /** Once a disconnect was asked for, a context that has got all replies and sent all commands goes with the
      last of them. */
  lemma GoneWhenDone(events: seq<Event>, e: Event, script: nat -> seq<Action>)
    requires e.Replies? && e.flushed && Asked(events + [e], script) && Run(events + [e], script).pending == []
    ensures var c := Run(events + [e], script); c.gone || c.stray
  {
    RunAsks(events + [e], script);
    RunKeeps(events + [e], script);
    RunKeeps(events, script);
    RunSnoc(events, e, script);
    if InUse(Run(events, script)) {
      ProcessAsks(Run(events, script), e.replies, e.broken, e.flushed, script);
    }
  }

  /** A disconnect that finds no command waiting is carried out at once, and one that does leaves them all
      waiting. */
  lemma DisconnectCall(events: seq<Event>, script: nat -> seq<Action>)
    requires InUse(Run(events, script))
    ensures var c, d := Run(events, script), Run(events + [Call(Disconnect)], script);
            d.log == c.log && d.pending == c.pending && d.disconnecting && (d.gone <==> c.pending == [])
  {
    RunSnoc(events, Call(Disconnect), script);
    RunKeeps(events, script);
  }

  /** In an orderly run the context goes only if a disconnect was asked for, and all replies were handed out
      to the commands accepted by then. */
  lemma GoneWhenAsked(events: seq<Event>, script: nat -> seq<Action>)
    requires Orderly(events, script) && Run(events, script).gone
    ensures Asked(events, script) && |Run(events, script).log| == Run(events, script).accepted
  {
    RunAsks(events, script);
    RunCalm(events, script);
    RunKeeps(events, script);
  }

  /** A disconnect waits until all commands are sent: in an orderly run, replies that come before that do not
      end the context. */
  lemma StaysUnflushed(events: seq<Event>, e: Event, script: nat -> seq<Action>)
    requires Orderly(events + [e], script) && InUse(Run(events, script)) && e.Replies? && !e.flushed
    ensures !Run(events + [e], script).gone
  {
    RunCalm(events + [e], script);
    RunKeeps(events, script);
    RunSnoc(events, e, script);
    ProcessAsks(Run(events, script), e.replies, e.broken, e.flushed, script);
  }

  lemma {:induction false} ProcessError(c: Context, replies: seq<Reply>, k: nat, broken: bool, flushed: bool,
                                        script: nat -> seq<Action>)
    requires InOrder(c) && |c.log| == |c.got| && InUse(c) && Bare(c, replies, k, script) && replies[k].isError
    ensures Process(c, replies, broken, flushed, script).gone
    decreases |replies|
  {
    if c.pending == [] {
      StrayAtOnce(c, replies, script);
      FirstBare(c, replies, k, script);
      TeardownRunsAll(c.(failed := true, disconnecting := true), script);
    } else {
      BareLater(c, replies, k, script);
      RunReplyInOrder(c, replies[0], script);
      ProcessError(RunHead(c.(got := c.got + [replies[0]]), Some(replies[0]), script), replies[1..], k - 1, broken,
                   flushed, script);
    }
  }

  lemma FirstBare(c: Context, replies: seq<Reply>, k: nat, script: nat -> seq<Action>)
    requires InOrder(c) && InUse(c) && c.pending == [] && Bare(c, replies, k, script)
    ensures k == 0
  {
    if k > 0 {
      assert replies[..k][0] == replies[0];
      TeardownRunsAll(c.(failed := true, disconnecting := true), script);
    }
  }

  /** An error that comes while no command waits ends the context. */
  lemma ErrorEnds(events: seq<Event>, e: Event, k: nat, script: nat -> seq<Action>)
    requires Unawaited(events + [e], |events|, k, script) && e.replies[k].isError
    ensures Run(events + [e], script).gone
  {
    assert (events + [e])[..|events|] == events;
    UnawaitedBare(events + [e], |events|, k, script);
    RunKeeps(events, script);
    RunSnoc(events, e, script);
    ProcessError(Run(events, script), e.replies, k, e.broken, e.flushed, script);
  }

  /** A broken connection and a call of `redisAsyncFree` end the context whatever waits. */
  lemma EndsAtOnce(events: seq<Event>, e: Event, script: nat -> seq<Action>)
    requires e == Call(Free) || (e.Replies? && e.broken)
    ensures var c := Run(events + [e], script); c.gone || c.stray
  {
    RunKeeps(events, script);
    RunSnoc(events, e, script);
    var c := Run(events, script);
    if InUse(c) {
      match e
      case Replies(replies, broken, flushed) => ProcessAsks(c, replies, broken, flushed, script);
      case Call(_) => TeardownAsks(c.(freeing := true), script);
    }
  }

  lemma {:induction false} ProcessFrees(c: Context, replies: seq<Reply>, broken: bool, flushed: bool,
                                        script: nat -> seq<Action>)
    requires !c.freeing && (!c.failed || c.disconnecting)
    ensures var d := Process(c, replies, broken, flushed, script);
            !d.gone ==> !d.freeing && forall k | |c.log| <= k < |d.log| :: Free !in script(k)
    decreases |replies|
  {
    if replies == [] {
      if broken { TeardownAsks(c.(failed := true, disconnecting := true), script); }
      else if c.failed && c.disconnecting { TeardownAsks(c, script); }
    } else if c.pending == [] {
      if replies[0].isError { TeardownAsks(c.(failed := true, disconnecting := true), script); }
    } else {
      var c' := RunHead(c.(got := c.got + [replies[0]]), Some(replies[0]), script);
      ActsFlags(c.(got := c.got + [replies[0]], pending := c.pending[1..],
                   log := c.log + [Invocation(c.pending[0], Some(replies[0]))]), script(|c.log|));
      if c'.freeing {
        TeardownAsks(c', script);
      } else {
        ProcessFrees(c', replies[1..], broken, flushed, script);
      }
    }
  }

  /** A callback that calls `redisAsyncFree` is the end of the context. */
  lemma {:induction false} FreeEnds(events: seq<Event>, script: nat -> seq<Action>)
    ensures var c := Run(events, script);
            !c.gone ==> !c.freeing && forall k | 0 <= k < |c.log| :: Free !in script(k)
  {
    if events != [] {
      var before, e := events[..|events| - 1], events[|events| - 1];
      FreeEnds(before, script);
      RunKeeps(before, script);
      var c := Run(before, script);
      if InUse(c) {
        match e
        case Replies(replies, broken, flushed) => ProcessFrees(c, replies, broken, flushed, script);
        case Call(Free) => TeardownAsks(c.(freeing := true), script);
        case _ =>
      }
    }
  }

  // ----- which commands are accepted -----

  function Commands(actions: seq<Action>): (n: nat) {
    if actions == [] then 0 else (if actions[0] == Command then 1 else 0) + Commands(actions[1..])
  }

  /** The commands of the callback runs number i to j - 1. */
  function CommandsOf(script: nat -> seq<Action>, i: nat, j: nat): (n: nat)
    decreases j
  {
    if j <= i then 0 else CommandsOf(script, i, j - 1) + Commands(script(j - 1))
  }

  /** The commands the program has issued outside of callbacks. */
  function Calls(events: seq<Event>): (n: nat) {
    if events == [] then 0
    else Calls(events[..|events| - 1]) + if events[|events| - 1] == Call(Command) then 1 else 0
  }

  lemma {:induction false} ActsAccept(c: Context, actions: seq<Action>)
    ensures var d := Acts(c, actions);
            !Closing(d) ==> !Closing(c) && d.accepted == c.accepted + Commands(actions)
    decreases |actions|
  {
    if actions != [] { ActsAccept(Act(c, actions[0]), actions[1..]); }
  }

  lemma {:induction false} CommandsFrom(script: nat -> seq<Action>, i: nat, j: nat)
    requires i < j
    ensures CommandsOf(script, i, j) == Commands(script(i)) + CommandsOf(script, i + 1, j)
    decreases j
  {
    if i < j - 1 { CommandsFrom(script, i, j - 1); }
  }

  lemma {:induction false} ProcessAccepts(c: Context, replies: seq<Reply>, broken: bool, flushed: bool,
                                          script: nat -> seq<Action>)
    ensures var d := Process(c, replies, broken, flushed, script);
            !Closing(d) ==> !Closing(c) && |c.log| <= |d.log|
                            && d.accepted == c.accepted + CommandsOf(script, |c.log|, |d.log|)
    decreases |replies|
  {
    if replies != [] && c.pending != [] {
      var start := c.(got := c.got + [replies[0]], pending := c.pending[1..],
                      log := c.log + [Invocation(c.pending[0], Some(replies[0]))]);
      var c' := RunHead(c.(got := c.got + [replies[0]]), Some(replies[0]), script);
      ActsAccept(start, script(|c.log|));
      if !c'.freeing {
        var d := Process(c', replies[1..], broken, flushed, script);
        ProcessAccepts(c', replies[1..], broken, flushed, script);
        if !Closing(d) { CommandsFrom(script, |c.log|, |d.log|); }
      }
    }
  }

  lemma {:induction false} CommandsJoin(script: nat -> seq<Action>, i: nat, j: nat)
    requires i <= j
    ensures CommandsOf(script, 0, j) == CommandsOf(script, 0, i) + CommandsOf(script, i, j)
    decreases j
  {
    if i < j { CommandsJoin(script, i, j - 1); }
  }

  /** While the context is open every command is accepted, whether the program or a callback issues it. */
  lemma {:induction false} AllAccepted(events: seq<Event>, script: nat -> seq<Action>)
    requires InUse(Run(events, script)) && !Closing(Run(events, script))
    ensures var c := Run(events, script); c.accepted == Calls(events) + CommandsOf(script, 0, |c.log|)
  {
    if events != [] {
      var before, e := events[..|events| - 1], events[|events| - 1];
      var b, c := Run(before, script), Run(events, script);
      AllAccepted(before, script);
      if e.Replies? {
        ProcessAccepts(b, e.replies, e.broken, e.flushed, script);
        CommandsJoin(script, |b.log|, |c.log|);
      }
    }
  }

  /** After a call that closes the context no command is accepted, not even from a callback. */
  lemma {:induction false} NothingAccepted(c: Context, events: seq<Event>, n: nat, script: nat -> seq<Action>)
    requires n <= |events| && c == Run(events[..n], script) && Closing(c)
    ensures Closing(Run(events, script)) && Run(events, script).accepted == c.accepted
  {
    if n < |events| {
      var before := events[..|events| - 1];
      assert events[..n] == before[..n];
      NothingAccepted(c, before, n, script);
    } else {
      assert events[..n] == events;
    }
  }
}
