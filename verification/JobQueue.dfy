/** The linked job queue inside the thread pool, as the locked sections update it in place. */
module JobQueues {
  import opened ThreadPool

  class Job {
    const payload: nat
    var next: Job?

    constructor (payload: nat)
      ensures this.payload == payload && next == null
    {
      this.payload := payload;
      next := null;
    }
  }

  class JobQueue {
    var head: Job?
    var tail: Job?
    var queueCurNum: int
    const queueMaxNum: nat
    var queueClose: bool
    var poolClose: bool

    /** The linked jobs, from the head on. */
    ghost var nodes: seq<Job>

    /** `queue_cur_num` is the length of the list and `tail` its last node. */
    ghost predicate Valid()
      reads this, nodes
    {
      && queueCurNum == |nodes|
      && (forall i, j | 0 <= i < j < |nodes| :: nodes[i] != nodes[j])
      && (forall i | 0 <= i < |nodes| - 1 :: nodes[i].next == nodes[i + 1])
      && (if nodes == [] then head == null && tail == null
          else head == nodes[0] && tail == nodes[|nodes| - 1] && tail.next == null)
    }

    /** The queue that the transition system sees. */
    ghost function Contents(): seq<nat>
      reads this
    {
      seq(|nodes|, i requires 0 <= i < |nodes| reads this => nodes[i].payload)
    }

    /** The fields are those of a pool in the state `s`. */
    ghost predicate Represents(s: Pool)
      reads this, nodes
    {
      && Valid() && Contents() == s.queue && queueMaxNum == s.max
      && queueClose == s.queueClose && poolClose == s.poolClose
    }

    constructor (queueMaxNum: nat)
      ensures Valid() && Contents() == [] && this.queueMaxNum == queueMaxNum && !queueClose && !poolClose
    {
      head, tail, queueCurNum := null, null, 0;
      this.queueMaxNum, queueClose, poolClose := queueMaxNum, false, false;
      nodes := [];
    }

    /** The end of `threadpool_add_job`; `announce` tells whether it broadcasts queue_not_empty. */
    method Append(payload: nat) returns (announce: bool)
      requires Valid()
      modifies `head, `tail, `queueCurNum, `nodes, nodes
      ensures Valid() && Contents() == old(Contents()) + [payload]
      ensures announce <==> old(Contents()) == []
      ensures |nodes| > 0 && fresh(nodes[|nodes| - 1]) && nodes[..|nodes| - 1] == old(nodes)
    {
      var pjob := new Job(payload);
      announce := head == null;
      if head == null {
        head, tail := pjob, pjob;
      } else {
        tail.next := pjob;
        tail := pjob;
      }
      queueCurNum := queueCurNum + 1;
      nodes := nodes + [pjob];
    }

    /** The locked part of `threadpool_function` that takes a job; `empty` and `notFull` tell which
        condition variables are notified. */
    method Take() returns (pjob: Job, empty: bool, notFull: bool)
      requires Valid() && Contents() != []
      modifies `head, `tail, `queueCurNum, `nodes
      ensures Valid() && [pjob.payload] + Contents() == old(Contents())
      ensures empty <==> Contents() == []
      ensures notFull <==> |Contents()| == queueMaxNum - 1
    {
      queueCurNum := queueCurNum - 1;
      pjob := head;
      if queueCurNum == 0 {
        head, tail := null, null;
      } else {
        head := pjob.next;
      }
      nodes := nodes[1..];
      empty := queueCurNum == 0;
      notFull := queueCurNum == queueMaxNum - 1;
    }

    /** The locked section of `threadpool_add_job`, up to its wait or its unlock, is the turn of the producer:
        `p` is what becomes of it, and `announce` tells whether it broadcasts queue_not_empty. */
    method AddJob(job: nat, ghost s: Pool, ghost i: nat) returns (p: Producer, announce: bool)
      requires Represents(s) && Enabled(s, Offer(i)) && s.producers[i].job == job
      modifies this, nodes
      ensures Represents(OfferTurn(s, i))
      ensures OfferTurn(s, i).producers == s.producers[i := p]
      ensures OfferTurn(s, i).workers == if announce then WakeWorkers(s.workers) else s.workers
    {
      announce := false;
      if queueCurNum == queueMaxNum && !(queueClose || poolClose) {
        p := Blocked(job);
      } else if queueClose || poolClose {
        p := Returned(-1);
      } else {
        announce := Append(job);
        p := Returned(0);
      }
    }

    /** The locked section of `threadpool_function` is the turn of a worker. */
    method TakeJob(ghost s: Pool, ghost i: nat, ghost woken: nat) returns (w: Worker, empty: bool, notFull: bool)
      requires Represents(s) && Enabled(s, Work(i, woken)) && s.workers[i].Contending?
      modifies this
      ensures var s' := WorkTurn(s, i, woken);
              && Represents(s') && s'.workers == s.workers[i := w]
              && s'.producers == (if notFull then WakeProducers(s.producers) else s.producers)
              && s'.destroyers == if empty && woken < |s.destroyers| && s.destroyers[woken].AwaitingEmpty?
                                  then s.destroyers[woken := Woken] else s.destroyers
    {
      empty, notFull := false, false;
      if queueCurNum == 0 && !poolClose {
        w := Waiting;
      } else if poolClose {
        w := Exited;
      } else {
        var pjob;
        pjob, empty, notFull := Take();
        w := Running(pjob.payload);
      }
    }

    /** The locked section of `threadpool_destroy`; `back` tells that it goes on after a wait. */
    method Close(back: bool, ghost s: Pool, ghost i: nat) returns (d: Destroyer)
      requires Represents(s) && i < |s.destroyers| && s.destroyers[i] == if back then Woken else Entering
      modifies `queueClose, `poolClose
      ensures Represents(DestroyTurn(s, i)) && DestroyTurn(s, i).destroyers == s.destroyers[i := d]
    {
      if !back && (queueClose || poolClose) {
        return Done(-1);
      }
      if !back { queueClose := true; }
      if queueCurNum != 0 {
        d := AwaitingEmpty;
      } else {
        poolClose := true;
        d := Announcing;
      }
    }
  }
}
