/** The linked callback queue of async.c and the functions that work on it in place. */
module AsyncClass {
  import opened Wrappers
  import opened AsyncRuns

  const REDIS_ERR_IO: nat := 1
  const REDIS_ERR_OTHER: nat := 2

  class Callback {
    const privdata: nat
    var next: Callback?

    constructor (privdata: nat)
      ensures this.privdata == privdata && next == null
    {
      this.privdata, next := privdata, null;
    }
  }

  class CallbackList {
    var head: Callback?
    var tail: Callback?
    ghost var nodes: seq<Callback>
    /** All nodes that were ever in the list. */
    ghost var repr: set<Callback>

    ghost predicate Valid()
      reads this, repr
    {
      && (forall i | 0 <= i < |nodes| :: nodes[i] in repr)
      && (forall i, j | 0 <= i < j < |nodes| :: nodes[i] != nodes[j])
      && (forall i | 0 <= i < |nodes| - 1 :: nodes[i].next == nodes[i + 1])
      && (if nodes == [] then head == null && tail == null
          else head == nodes[0] && tail == nodes[|nodes| - 1] && tail.next == null)
    }

    ghost function Contents(): seq<nat>
      reads this
    {
      seq(|nodes|, i requires 0 <= i < |nodes| reads this => nodes[i].privdata)
    }

    constructor ()
      ensures Valid() && nodes == [] && repr == {}
    {
      head, tail, nodes, repr := null, null, [], {};
    }

    method Push(privdata: nat)
      requires Valid()
      modifies this, repr
      ensures Valid() && Contents() == old(Contents()) + [privdata] && fresh(repr - old(repr))
    {
      var cb := new Callback(privdata);
      if head == null { head := cb; }
      if tail != null { tail.next := cb; }
      tail := cb;
      nodes, repr := nodes + [cb], repr + {cb};
    }

    method Shift() returns (cb: Callback?)
      requires Valid()
      modifies this
      ensures Valid() && (cb == null <==> old(nodes) == [])
      ensures if cb == null then Contents() == old(Contents())
              else cb.privdata == old(Contents())[0] && Contents() == old(Contents())[1..]
      ensures repr == old(repr)
    {
      cb := head;
      if cb != null {
        head := cb.next;
        if cb == tail { tail := null; }
        nodes := nodes[1..];
      }
    }
  }

  class AsyncContext {
    var disconnecting: bool
    var freeing: bool
    var inCallback: bool
    var err: nat
    const replies: CallbackList
    /** How many commands were accepted; the number stands for a command's function and private data. */
    var accepted: nat
    /** What the n-th callback that runs does, and how many have run. */
    const script: nat -> seq<Action>
    var runs: nat
    ghost var log: seq<Invocation>
    ghost var got: seq<Reply>
    ghost var gone: bool
    ghost var stray: bool

    ghost function State(): Context
      reads this, replies
    {
      Context(disconnecting, freeing, err != 0, replies.Contents(), accepted, log, got, gone, false, stray)
    }

    ghost predicate Valid()
      reads this, replies, replies.repr
    {
      replies.Valid() && !gone && !stray && runs == |log|
    }

    constructor (script: nat -> seq<Action>)
      ensures Valid() && State() == START && !inCallback && this.script == script
    {
      disconnecting, freeing, inCallback, err, accepted, runs := false, false, false, 0, 0, 0;
      replies := new CallbackList();
      this.script := script;
      log, got, gone, stray := [], [], false, false;
    }

    /** Accepts a command unless the context is closing. */
    method AsyncCommand() returns (ok: bool)
      requires Valid()
      modifies this`accepted, replies, replies.repr
      ensures Valid() && fresh(replies.repr - old(replies.repr))
      ensures State() == Issue(old(State())) && (ok <==> !Closing(old(State())))
      ensures ok ==> replies.Contents() == old(replies.Contents()) + [old(accepted)] && accepted == old(accepted) + 1
      ensures !ok ==> replies.Contents() == old(replies.Contents()) && accepted == old(accepted)
    {
      if disconnecting || freeing { return false; }
      replies.Push(accepted);
      accepted := accepted + 1;
      ok := true;
    }

    /** What a callback asks for; it may close the context but nothing is torn down below it. */
    method Perform(a: Action)
      requires Valid() && inCallback
      modifies this, replies, replies.repr
      ensures Valid() && fresh(replies.repr - old(replies.repr)) && inCallback && State() == Act(old(State()), a)
      decreases 0, 2
    {
      match a
      case Command => var _ := AsyncCommand();
      case Disconnect => AsyncDisconnect();
      case Free => AsyncFree();
    }

    /** Runs a callback; the flag keeps the calls it makes from tearing the context down. */
    method RunCallback(id: nat, reply: Option<Reply>)
      requires Valid() && !inCallback
      modifies this, replies, replies.repr
      ensures Valid() && fresh(replies.repr - old(replies.repr)) && !inCallback
      ensures State() == Acts(old(State()).(log := old(log) + [Invocation(id, reply)]), script(old(runs)))
      decreases 1, 0
    {
      inCallback := true;
      var actions, i := script(runs), 0;
      runs, log := runs + 1, log + [Invocation(id, reply)];
      ghost var start := State();
      while i < |actions|
        invariant 0 <= i <= |actions| && Valid() && fresh(replies.repr - old(replies.repr)) && inCallback
        invariant Acts(State(), actions[i..]) == Acts(start, actions)
      {
        Perform(actions[i]);
        assert actions[i..][1..] == actions[i + 1..];
        i := i + 1;
      }
      inCallback := false;
    }

    /** Runs the callback at the head of the queue. */
    method RunFirst(cb: Callback, reply: Option<Reply>, ghost before: Context)
      requires Valid() && !inCallback && before.pending != [] && cb.privdata == before.pending[0]
      requires State() == before.(pending := before.pending[1..])
      modifies this, replies, replies.repr
      ensures Valid() && fresh(replies.repr - old(replies.repr))
      ensures !inCallback && State() == RunHead(before, reply, script)
      decreases 1, 1
    {
      RunCallback(cb.privdata, reply);
    }

    /** Runs the callbacks that are left with NULL and frees the context. */
    method Teardown()
      requires Valid() && !inCallback && Closing(State())
      modifies this, replies, replies.repr
      ensures gone && !inCallback && State() == AsyncRuns.Teardown(old(State()), script)
      decreases 2, 0
    {
      ghost var end := AsyncRuns.Teardown(State(), script);
      while true
        invariant Valid() && !inCallback && fresh(replies.repr - old(replies.repr))
        invariant Closing(State()) && AsyncRuns.Teardown(State(), script) == end
        decreases |State().pending|
      {
        ghost var before := State();
        var cb := replies.Shift();
        if cb == null { break; }
        RunFirst(cb, None, before);
      }
      gone := true;
    }

    /** Frees the context, at once or when the callback that runs returns. */
    method AsyncFree()
      requires Valid()
      modifies this, replies, replies.repr
      ensures if inCallback then Valid() && fresh(replies.repr - old(replies.repr)) else gone
      ensures inCallback == old(inCallback)
      ensures State() == if inCallback then Act(old(State()), Free)
                         else AsyncRuns.Teardown(old(State()).(freeing := true), script)
      decreases if inCallback then 0 else 4, 1
    {
      freeing := true;
      if !inCallback { Teardown(); }
    }

    /** The connection is closed; without an error there is no callback left. */
    method DisconnectNow()
      requires Valid() && !inCallback && (err == 0 ==> Closing(State()) && State().pending == [])
      modifies this, replies, replies.repr
      ensures gone && !inCallback && State() == AsyncRuns.DisconnectNow(old(State()), script)
      decreases 3, 0
    {
      if err == 0 {
        var cb := replies.Shift();
        assert cb == null;
      } else {
        disconnecting := true;
      }
      Teardown();
    }

    /** Takes no more commands, and disconnects at once if no callback waits. */
    method AsyncDisconnect()
      requires Valid() && (inCallback || err == 0)
      modifies this, replies, replies.repr
      ensures inCallback == old(inCallback)
      ensures inCallback ==> Valid() && fresh(replies.repr - old(replies.repr))
      ensures State() == if inCallback then Act(old(State()), Disconnect)
                         else Step(old(State()), Call(Disconnect), script)
      decreases if inCallback then 0 else 4, 1
    {
      disconnecting := true;
      if !inCallback && replies.head == null { DisconnectNow(); }
    }

    /** A reply that no command waits for closes the connection if it is an error. */
    method Spontaneous(reply: Reply)
      requires Valid() && !inCallback && err == 0 && State().pending == []
      modifies this, replies, replies.repr
      ensures forall rest, broken, flushed ::
                State() == Process(old(State()), [reply] + rest, broken, flushed, script)
      decreases 4, 0
    {
      if reply.isError {
        err := REDIS_ERR_OTHER;
        DisconnectNow();
      } else {
        stray := true;
      }
    }

    /** One turn of the loop over the replies; true if it was the last one. */
    method Deliver(reply: Reply, ghost rest: seq<Reply>, ghost broken: bool, ghost flushed: bool)
      returns (done: bool)
      requires Valid() && !inCallback && err == 0
      modifies this, replies, replies.repr
      ensures !done ==> Valid() && !inCallback && err == 0 && fresh(replies.repr - old(replies.repr))
      ensures Process(old(State()), [reply] + rest, broken, flushed, script)
           == if done then State() else Process(State(), rest, broken, flushed, script)
      decreases 5, 0
    {
      ghost var before := State();
      assert ([reply] + rest)[1..] == rest;
      var cb := replies.Shift();
      if cb == null {
        Spontaneous(reply);
        return true;
      }
      got := got + [reply];
      RunFirst(cb, Some(reply), before.(got := before.got + [reply]));
      done := freeing;
      if freeing { Teardown(); }
    }

    /** No complete reply is left: disconnects on an error, or if that was asked for and all is done. */
    method NoMoreReplies(broken: bool, flushed: bool)
      requires Valid() && !inCallback && err == 0
      modifies this, replies, replies.repr
      ensures State() == Process(old(State()), [], broken, flushed, script)
      decreases 4, 0
    {
      if broken {
        err := REDIS_ERR_IO;
        DisconnectNow();
      } else if disconnecting && flushed && replies.head == null {
        DisconnectNow();
      }
    }

    /** The read handler: hands out the replies that arrived, which are then used up or cut off by an error. */
    method ProcessCallbacks(arrived: seq<Reply>, broken: bool, flushed: bool)
      requires Valid() && !inCallback && err == 0
      modifies this, replies, replies.repr
      ensures State() == Process(old(State()), arrived, broken, flushed, script)
      decreases 6, 0
    {
      ghost var end := Process(State(), arrived, broken, flushed, script);
      var i := 0;
      while i < |arrived|
        invariant 0 <= i <= |arrived| && Valid() && !inCallback && err == 0
        invariant fresh(replies.repr - old(replies.repr))
        invariant Process(State(), arrived[i..], broken, flushed, script) == end
      {
        assert arrived[i..] == [arrived[i]] + arrived[i + 1..];
        var done := Deliver(arrived[i], arrived[i + 1..], broken, flushed);
        if done { return; }
        i := i + 1;
      }
      assert arrived[i..] == [];
      NoMoreReplies(broken, flushed);
    }
  }
}
