/** The bounded thread pool of test_ThreadPool.cpp as a transition system.  A turn is what one
    thread does between acquiring the mutex and releasing it or waiting; the two broadcasts of
    `threadpool_destroy` after its unlock, every join and the run of a job are turns of their own.
    A thread that waits on a condition variable runs again only when it is notified, or by a
    spurious wakeup. */
module ThreadPool {
  import opened Arithmetic
  import opened Wrappers

  /** `Contending` threads are about to lock the mutex, at first or on the way out of a wait. */
  datatype Worker = Contending | Waiting | Running(job: nat) | Exited

  datatype Producer = Offering(job: nat) | Blocked(job: nat) | Returned(code: int)

  datatype Destroyer =
    | Entering
    | AwaitingEmpty
    | Woken
    | Announcing            // pool_close is set, nothing is broadcast yet
    | HalfAnnounced         // queue_not_empty is broadcast
    | Joining(next: nat)
    | Done(code: int)

  /** `accepted`, `taken` and `finished` record what has happened; `owner` is the destroyer that
      set `queue_close`. */
  datatype Pool = Pool(
    max: nat,
    queue: seq<nat>,
    queueClose: bool,
    poolClose: bool,
    workers: seq<Worker>,
    producers: seq<Producer>,
    destroyers: seq<Destroyer>,
    owner: Option<nat>,
    accepted: seq<nat>,
    taken: seq<nat>,
    finished: seq<nat>)

  /** `woken` is the destroyer that `pthread_cond_signal` picks, if one waits. */
  datatype Turn =
    | Work(i: nat, woken: nat)
    | Offer(i: nat)
    | Destroy(i: nat)
    | SpuriousWorker(i: nat)
    | SpuriousProducer(i: nat)
    | SpuriousDestroyer(i: nat)

  predicate Spurious(t: Turn) {
    t.SpuriousWorker? || t.SpuriousProducer? || t.SpuriousDestroyer?
  }

  // ----- broadcasts -----

  function WakeWorkers(ws: seq<Worker>): (r: seq<Worker>)
    ensures |r| == |ws|
    ensures forall i | 0 <= i < |ws| :: r[i] == if ws[i].Waiting? then Contending else ws[i]
  {
    seq(|ws|, i requires 0 <= i < |ws| => if ws[i].Waiting? then Contending else ws[i])
  }

  function WakeProducers(ps: seq<Producer>): (r: seq<Producer>)
    ensures |r| == |ps|
    ensures forall i | 0 <= i < |ps| :: r[i] == if ps[i].Blocked? then Offering(ps[i].job) else ps[i]
  {
    seq(|ps|, i requires 0 <= i < |ps| => if ps[i].Blocked? then Offering(ps[i].job) else ps[i])
  }

  // ----- turns -----

  predicate Enabled(s: Pool, t: Turn) {
    match t
    case Work(i, woken) =>
      && i < |s.workers| && (s.workers[i].Contending? || s.workers[i].Running?)
      && ((exists d :: d in s.destroyers && d.AwaitingEmpty?) ==>
            woken < |s.destroyers| && s.destroyers[woken].AwaitingEmpty?)
    case Offer(i) => i < |s.producers| && s.producers[i].Offering?
    case Destroy(i) =>
      && i < |s.destroyers|
      && (match s.destroyers[i]
          case AwaitingEmpty => false
          case Done(_) => false
          case Joining(j) => j >= |s.workers| || s.workers[j].Exited?
          case _ => true)
    case SpuriousWorker(i) => i < |s.workers| && s.workers[i].Waiting?
    case SpuriousProducer(i) => i < |s.producers| && s.producers[i].Blocked?
    case SpuriousDestroyer(i) => i < |s.destroyers| && s.destroyers[i].AwaitingEmpty?
  }

  /** `threadpool_function`: one round of its outer loop up to the job, or the job. */
  function WorkTurn(s: Pool, i: nat, woken: nat): Pool
    requires Enabled(s, Work(i, woken))
  {
    match s.workers[i]
    case Running(job) => s.(workers := s.workers[i := Contending], finished := s.finished + [job])
    case _ =>
      if s.queue == [] && !s.poolClose then s.(workers := s.workers[i := Waiting])
      else if s.poolClose then s.(workers := s.workers[i := Exited])
      else
        var job, queue := s.queue[0], s.queue[1..];
        s.(queue := queue,
           taken := s.taken + [job],
           workers := s.workers[i := Running(job)],
           destroyers := if queue == [] && woken < |s.destroyers| && s.destroyers[woken].AwaitingEmpty?
                         then s.destroyers[woken := Woken] else s.destroyers,
           producers := if |queue| == s.max - 1 then WakeProducers(s.producers) else s.producers)
  }

  /** `threadpool_add_job`. */
  function OfferTurn(s: Pool, i: nat): Pool
    requires Enabled(s, Offer(i))
  {
    var job := s.producers[i].job;
    if |s.queue| == s.max && !(s.queueClose || s.poolClose) then s.(producers := s.producers[i := Blocked(job)])
    else if s.queueClose || s.poolClose then s.(producers := s.producers[i := Returned(-1)])
    else
      s.(queue := s.queue + [job],
         accepted := s.accepted + [job],
         producers := s.producers[i := Returned(0)],
         workers := if s.queue == [] then WakeWorkers(s.workers) else s.workers)
  }

  /** `threadpool_destroy`. */
  function DestroyTurn(s: Pool, i: nat): Pool
    requires Enabled(s, Destroy(i))
  {
    match s.destroyers[i]
    case Entering =>
      if s.queueClose || s.poolClose then s.(destroyers := s.destroyers[i := Done(-1)])
      else AwaitEmpty(s.(queueClose := true, owner := Some(i)), i)
    case Woken => AwaitEmpty(s, i)
    case Announcing => s.(destroyers := s.destroyers[i := HalfAnnounced], workers := WakeWorkers(s.workers))
    case HalfAnnounced => s.(destroyers := s.destroyers[i := Joining(0)], producers := WakeProducers(s.producers))
    case Joining(j) =>
      s.(destroyers := s.destroyers[i := if j >= |s.workers| then Done(0) else Joining(j + 1)])
    case _ => s
  }

  /** The test of the loop that waits for the queue to be empty. */
  function AwaitEmpty(s: Pool, i: nat): Pool
    requires i < |s.destroyers|
  {
    if s.queue != [] then s.(destroyers := s.destroyers[i := AwaitingEmpty])
    else s.(poolClose := true, destroyers := s.destroyers[i := Announcing])
  }

  function Next(s: Pool, t: Turn): Pool
    requires Enabled(s, t)
  {
    match t
    case Work(i, woken) => WorkTurn(s, i, woken)
    case Offer(i) => OfferTurn(s, i)
    case Destroy(i) => DestroyTurn(s, i)
    case SpuriousWorker(i) => s.(workers := s.workers[i := Contending])
    case SpuriousProducer(i) => s.(producers := s.producers[i := Offering(s.producers[i].job)])
    case SpuriousDestroyer(i) => s.(destroyers := s.destroyers[i := Woken])
  }

  /** `threadpool_init`, with the calls that will be made. */
  predicate Initial(s: Pool) {
    && s.max >= 1 && |s.workers| >= 1
    && s.queue == [] && !s.queueClose && !s.poolClose && s.owner == None
    && (forall i | 0 <= i < |s.workers| :: s.workers[i] == Contending)
    && (forall i | 0 <= i < |s.producers| :: s.producers[i].Offering?)
    && (forall i | 0 <= i < |s.destroyers| :: s.destroyers[i] == Entering)
    && s.accepted == [] && s.taken == [] && s.finished == []
  }

  predicate Possible(s: Pool, turns: seq<Turn>)
    decreases |turns|
  {
    turns != [] ==> Enabled(s, turns[0]) && Possible(Next(s, turns[0]), turns[1..])
  }

  function Run(s: Pool, turns: seq<Turn>): Pool
    requires Possible(s, turns)
    decreases |turns|
  {
    if turns == [] then s else Run(Next(s, turns[0]), turns[1..])
  }

  // ----- the invariant -----

  function Runs(w: Worker, job: nat): nat {
    if w == Running(job) then 1 else 0
  }

  /** How many workers are running `job`. */
  function InWork(ws: seq<Worker>, job: nat): nat {
    if ws == [] then 0 else Runs(ws[0], job) + InWork(ws[1..], job)
  }

  lemma {:induction false} InWorkUpdate(ws: seq<Worker>, i: nat, w: Worker, job: nat)
    requires i < |ws|
    ensures InWork(ws[i := w], job) == InWork(ws, job) - Runs(ws[i], job) + Runs(w, job)
  {
    var us := ws[i := w];
    if i > 0 {
      assert us[1..] == ws[1..][i - 1 := w];
      InWorkUpdate(ws[1..], i - 1, w, job);
    } else {
      assert us[1..] == ws[1..];
    }
  }

  lemma {:induction false} InWorkWake(ws: seq<Worker>, job: nat)
    ensures InWork(WakeWorkers(ws), job) == InWork(ws, job)
  {
    if ws != [] {
      assert WakeWorkers(ws)[1..] == WakeWorkers(ws[1..]);
      InWorkWake(ws[1..], job);
    } else {
      assert WakeWorkers(ws) == [];
    }
  }

  lemma {:induction false} InWorkNone(ws: seq<Worker>, job: nat)
    requires forall w <- ws :: !w.Running?
    ensures InWork(ws, job) == 0
  {
    if ws != [] { InWorkNone(ws[1..], job); }
  }

  /** What is queued, in work and finished is what was accepted, in the order of acceptance. */
  ghost predicate Conserved(s: Pool) {
    && s.accepted == s.taken + s.queue
    && (forall job: nat :: multiset(s.taken)[job] == multiset(s.finished)[job] + InWork(s.workers, job))
  }

  /** No wakeup is lost: what each kind of waiter waits for has not come about unannounced. */
  ghost predicate NoLostWakeup(s: Pool) {
    && (forall i | 0 <= i < |s.workers| :: s.workers[i].Waiting? ==>
          s.queue == [] && (s.poolClose ==> s.owner.Some? && s.owner.value < |s.destroyers|
                                            && s.destroyers[s.owner.value].Announcing?))
    && (forall i | 0 <= i < |s.producers| :: s.producers[i].Blocked? ==> |s.queue| == s.max)
    && (forall i | 0 <= i < |s.destroyers| :: s.destroyers[i].AwaitingEmpty? ==> s.queue != [])
  }

  predicate Closing(d: Destroyer) {
    d.Announcing? || d.HalfAnnounced? || d.Joining? || d == Done(0)
  }

  /** The phases of shutting down. */
  ghost predicate Phased(s: Pool) {
    && s.max >= 1 && |s.workers| >= 1 && |s.queue| <= s.max
    && (s.queueClose <==> s.owner.Some?)
    && (s.poolClose ==> s.queueClose && s.queue == [])
    && (s.owner.Some? ==>
          && s.owner.value < |s.destroyers|
          && if s.poolClose then Closing(s.destroyers[s.owner.value])
             else s.destroyers[s.owner.value].AwaitingEmpty? || s.destroyers[s.owner.value].Woken?)
    && (forall i | 0 <= i < |s.destroyers| ::
          s.owner == Some(i) || s.destroyers[i] == Entering || (s.destroyers[i] == Done(-1) && s.queueClose))
    && (forall i | 0 <= i < |s.workers| :: s.workers[i].Exited? ==> s.poolClose)
    && (forall i, j | 0 <= i < |s.destroyers| && 0 <= j < |s.workers| ::
          && (s.destroyers[i].Joining? && j < s.destroyers[i].next ==> s.workers[j].Exited?)
          && (s.destroyers[i] == Done(0) ==> s.workers[j].Exited?))
  }

  ghost predicate Inv(s: Pool) {
    Phased(s) && NoLostWakeup(s) && Conserved(s)
  }

  lemma FinishConserves(s: Pool, i: nat, job: nat)
    requires Conserved(s) && i < |s.workers| && s.workers[i] == Running(job)
    ensures Conserved(s.(workers := s.workers[i := Contending], finished := s.finished + [job]))
  {
    forall j: nat
      ensures InWork(s.workers[i := Contending], j) == InWork(s.workers, j) - if j == job then 1 else 0
    {
      InWorkUpdate(s.workers, i, Contending, j);
    }
  }

  lemma TakeConserves(s: Pool, i: nat)
    requires Conserved(s) && i < |s.workers| && s.workers[i] == Contending && s.queue != []
    ensures var job := s.queue[0];
            Conserved(s.(queue := s.queue[1..], taken := s.taken + [job], workers := s.workers[i := Running(job)]))
  {
    var job := s.queue[0];
    assert s.taken + s.queue == s.taken + [job] + s.queue[1..];
    forall j: nat
      ensures InWork(s.workers[i := Running(job)], j) == InWork(s.workers, j) + if j == job then 1 else 0
    {
      InWorkUpdate(s.workers, i, Running(job), j);
    }
  }

  lemma RestConserves(s: Pool, i: nat, w: Worker)
    requires Conserved(s) && i < |s.workers| && s.workers[i] == Contending && !w.Running?
    ensures Conserved(s.(workers := s.workers[i := w]))
  {
    forall j: nat
      ensures InWork(s.workers[i := w], j) == InWork(s.workers, j)
    {
      InWorkUpdate(s.workers, i, w, j);
    }
  }

  lemma WorkConserves(s: Pool, i: nat, woken: nat)
    requires Conserved(s) && Enabled(s, Work(i, woken))
    ensures Conserved(WorkTurn(s, i, woken))
  {
    if s.workers[i].Running? {
      FinishConserves(s, i, s.workers[i].job);
    } else if s.queue != [] && !s.poolClose {
      TakeConserves(s, i);
    } else {
      RestConserves(s, i, WorkTurn(s, i, woken).workers[i]);
    }
  }

  lemma WakeConserves(s: Pool)
    requires Conserved(s)
    ensures Conserved(s.(workers := WakeWorkers(s.workers)))
  {
    forall job: nat
      ensures InWork(WakeWorkers(s.workers), job) == InWork(s.workers, job)
    {
      InWorkWake(s.workers, job);
    }
  }

  /** The only destroyer that can wait is the one that closed the queue. */
  lemma OneWaits(s: Pool, d: nat)
    requires Phased(s) && d < |s.destroyers| && s.destroyers[d].AwaitingEmpty?
    ensures s.owner == Some(d) && !s.poolClose
  {
  }

  lemma WorkPhased(s: Pool, i: nat, woken: nat)
    requires Phased(s) && Enabled(s, Work(i, woken))
    ensures Phased(WorkTurn(s, i, woken))
  {
    var r := WorkTurn(s, i, woken);
    if woken < |s.destroyers| && s.destroyers[woken].AwaitingEmpty? { OneWaits(s, woken); }
  }

  lemma WorkWakes(s: Pool, i: nat, woken: nat)
    requires Phased(s) && NoLostWakeup(s) && Enabled(s, Work(i, woken))
    ensures NoLostWakeup(WorkTurn(s, i, woken))
  {
    var r := WorkTurn(s, i, woken);
    forall d | 0 <= d < |r.destroyers| && r.destroyers[d].AwaitingEmpty?
      ensures r.queue != []
    {
      assert s.destroyers[d] in s.destroyers;
      OneWaits(s, d);
      if s.destroyers[woken].AwaitingEmpty? { OneWaits(s, woken); }
    }
  }

  lemma WorkKeeps(s: Pool, i: nat, woken: nat)
    requires Inv(s) && Enabled(s, Work(i, woken))
    ensures Inv(WorkTurn(s, i, woken))
  {
    WorkPhased(s, i, woken);
    WorkWakes(s, i, woken);
    WorkConserves(s, i, woken);
  }

  lemma OfferKeeps(s: Pool, i: nat)
    requires Inv(s) && Enabled(s, Offer(i))
    ensures Inv(OfferTurn(s, i))
  {
    WakeConserves(s);
    assert s.taken + (s.queue + [s.producers[i].job]) == s.taken + s.queue + [s.producers[i].job];
  }

  lemma DestroyPhased(s: Pool, i: nat)
    requires Inv(s) && Enabled(s, Destroy(i))
    ensures Phased(DestroyTurn(s, i))
  {
  }

  lemma DestroyKeeps(s: Pool, i: nat)
    requires Inv(s) && Enabled(s, Destroy(i))
    ensures Inv(DestroyTurn(s, i))
  {
    WakeConserves(s);
    DestroyPhased(s, i);
  }

  lemma SpuriousKeeps(s: Pool, t: Turn)
    requires Inv(s) && Enabled(s, t) && Spurious(t)
    ensures Inv(Next(s, t))
  {
    if t.SpuriousWorker? {
      forall job: nat
        ensures InWork(s.workers[t.i := Contending], job) == InWork(s.workers, job)
      {
        InWorkUpdate(s.workers, t.i, Contending, job);
      }
    }
  }

  lemma NextKeeps(s: Pool, t: Turn)
    requires Inv(s) && Enabled(s, t)
    ensures Inv(Next(s, t))
  {
    match t
    case Work(i, woken) => WorkKeeps(s, i, woken);
    case Offer(i) => OfferKeeps(s, i);
    case Destroy(i) => DestroyKeeps(s, i);
    case _ => SpuriousKeeps(s, t);
  }

  lemma {:induction false} RunKeeps(s: Pool, turns: seq<Turn>)
    requires Inv(s) && Possible(s, turns)
    ensures Inv(Run(s, turns))
    decreases |turns|
  {
    if turns != [] {
      NextKeeps(s, turns[0]);
      RunKeeps(Next(s, turns[0]), turns[1..]);
    }
  }

  lemma Reachable(s: Pool, turns: seq<Turn>)
    requires Initial(s) && Possible(s, turns)
    ensures Inv(Run(s, turns))
  {
    forall job: nat
      ensures InWork(s.workers, job) == 0
    {
      InWorkNone(s.workers, job);
    }
    RunKeeps(s, turns);
  }

  // ----- what the producers are told -----

  /** The jobs of the producers. */
  function Offered(start: seq<Producer>): (jobs: seq<nat>)
    requires forall i | 0 <= i < |start| :: start[i].Offering?
    ensures |jobs| == |start|
  {
    seq<nat>(|start|, i requires 0 <= i < |start| => start[i].job)
  }

  /** How many of the producers offered `job` and were told 0. */
  function Granted(jobs: seq<nat>, ps: seq<Producer>, job: nat): nat
    requires |jobs| == |ps|
  {
    if ps == [] then 0
    else (if ps[0] == Returned(0) && jobs[0] == job then 1 else 0) + Granted(jobs[1..], ps[1..], job)
  }

  lemma {:induction false} GrantedUpdate(jobs: seq<nat>, ps: seq<Producer>, i: nat, p: Producer, job: nat)
    requires |jobs| == |ps| && i < |ps| && ps[i] != Returned(0)
    ensures Granted(jobs, ps[i := p], job)
         == Granted(jobs, ps, job) + if p == Returned(0) && jobs[i] == job then 1 else 0
  {
    if i > 0 {
      assert ps[i := p][1..] == ps[1..][i - 1 := p];
      GrantedUpdate(jobs[1..], ps[1..], i - 1, p, job);
    } else {
      assert ps[i := p][1..] == ps[1..];
    }
  }

  lemma {:induction false} GrantedWake(jobs: seq<nat>, ps: seq<Producer>, job: nat)
    requires |jobs| == |ps|
    ensures Granted(jobs, WakeProducers(ps), job) == Granted(jobs, ps, job)
  {
    if ps != [] {
      assert WakeProducers(ps)[1..] == WakeProducers(ps[1..]);
      GrantedWake(jobs[1..], ps[1..], job);
    }
  }

  lemma {:induction false} GrantedNone(jobs: seq<nat>, ps: seq<Producer>, job: nat)
    requires |jobs| == |ps| && forall i | 0 <= i < |ps| :: ps[i].Offering?
    ensures Granted(jobs, ps, job) == 0
  {
    if ps != [] { GrantedNone(jobs[1..], ps[1..], job); }
  }

  lemma {:induction false} GrantedAll(jobs: seq<nat>, ps: seq<Producer>, job: nat)
    requires |jobs| == |ps| && forall i | 0 <= i < |ps| :: ps[i] == Returned(0)
    ensures Granted(jobs, ps, job) == multiset(jobs)[job]
  {
    if ps != [] {
      GrantedAll(jobs[1..], ps[1..], job);
      assert jobs == [jobs[0]] + jobs[1..];
    } else {
      assert jobs == [];
    }
  }

  /** A call that has not returned still has its job; one that has returned was told 0, or -1 because the
      queue was closed; and the jobs of those that were told 0 are the jobs accepted. */
  ghost predicate Answered(jobs: seq<nat>, s: Pool) {
    && |jobs| == |s.producers|
    && (forall i | 0 <= i < |jobs| :: Answer(jobs[i], s.producers[i], s.queueClose))
    && (forall job: nat :: Granted(jobs, s.producers, job) == multiset(s.accepted)[job])
  }

  predicate Answer(job: nat, p: Producer, closed: bool) {
    match p
    case Offering(j) => j == job
    case Blocked(j) => j == job
    case Returned(code) => code == 0 || (code == -1 && closed)
  }

  lemma WakeAnswered(jobs: seq<nat>, s: Pool)
    requires Answered(jobs, s)
    ensures Answered(jobs, s.(producers := WakeProducers(s.producers)))
  {
    forall job: nat
      ensures Granted(jobs, WakeProducers(s.producers), job) == Granted(jobs, s.producers, job)
    {
      GrantedWake(jobs, s.producers, job);
    }
  }

  lemma OfferAnswered(jobs: seq<nat>, s: Pool, i: nat)
    requires Answered(jobs, s) && Phased(s) && Enabled(s, Offer(i))
    ensures Answered(jobs, OfferTurn(s, i))
  {
    var r := OfferTurn(s, i);
    assert Answer(jobs[i], s.producers[i], s.queueClose);
    forall job: nat
      ensures Granted(jobs, r.producers, job) == multiset(r.accepted)[job]
    {
      GrantedUpdate(jobs, s.producers, i, r.producers[i], job);
    }
  }

  lemma TurnAnswered(jobs: seq<nat>, s: Pool, t: Turn)
    requires Answered(jobs, s) && Phased(s) && Enabled(s, t)
    ensures Answered(jobs, Next(s, t))
  {
    WakeAnswered(jobs, s);
    match t
    case Offer(i) => OfferAnswered(jobs, s, i);
    case SpuriousProducer(i) =>
      assert Answer(jobs[i], s.producers[i], s.queueClose);
      forall job: nat
        ensures Granted(jobs, Next(s, t).producers, job) == Granted(jobs, s.producers, job)
      {
        GrantedUpdate(jobs, s.producers, i, Next(s, t).producers[i], job);
      }
    case _ =>
  }

  lemma {:induction false} RunAnswered(jobs: seq<nat>, s: Pool, turns: seq<Turn>)
    requires Answered(jobs, s) && Inv(s) && Possible(s, turns)
    ensures Answered(jobs, Run(s, turns))
    decreases |turns|
  {
    if turns != [] {
      TurnAnswered(jobs, s, turns[0]);
      NextKeeps(s, turns[0]);
      RunAnswered(jobs, Next(s, turns[0]), turns[1..]);
    }
  }

  // ----- wakeups -----

  /** No thread is notified in vain: when a turn wakes a waiter, what it waits for has come about. */
  ghost predicate WokenForCause(s: Pool, r: Pool) {
    && |r.workers| == |s.workers| && |r.producers| == |s.producers| && |r.destroyers| == |s.destroyers|
    && (forall i | 0 <= i < |s.workers| && s.workers[i].Waiting? && !r.workers[i].Waiting? ::
          r.queue != [] || r.poolClose)
    && (forall i | 0 <= i < |s.producers| && s.producers[i].Blocked? && !r.producers[i].Blocked? ::
          |r.queue| < r.max || r.poolClose)
    && (forall i | 0 <= i < |s.destroyers| && s.destroyers[i].AwaitingEmpty? && !r.destroyers[i].AwaitingEmpty? ::
          r.queue == [])
  }

  lemma WakesForCause(s: Pool, turns: seq<Turn>, t: Turn)
    requires Initial(s) && Possible(s, turns) && Enabled(Run(s, turns), t) && !Spurious(t)
    ensures WokenForCause(Run(s, turns), Next(Run(s, turns), t))
  {
    Reachable(s, turns);
  }

  // ----- main results: safety -----

  /** No deadlock while jobs are queued: every worker can go on. */
  lemma QueuedJobsProgress(s: Pool, turns: seq<Turn>, i: nat)
    requires Initial(s) && Possible(s, turns)
    requires i < |Run(s, turns).workers| && Run(s, turns).queue != []
    ensures var r := Run(s, turns); r.workers[i].Contending? || r.workers[i].Running?
    ensures exists woken :: Enabled(Run(s, turns), Work(i, woken))
  {
    Reachable(s, turns);
    var r := Run(s, turns);
    if exists d :: d in r.destroyers && d.AwaitingEmpty? {
      var d :| d in r.destroyers && d.AwaitingEmpty?;
      var woken :| 0 <= woken < |r.destroyers| && r.destroyers[woken] == d;
      assert Enabled(r, Work(i, woken));
    } else {
      assert Enabled(r, Work(i, 0));
    }
  }

  /** Exactly once, in order: the jobs taken are a prefix of the jobs accepted, and each of them is
      finished or being run. */
  lemma ExactlyOnce(s: Pool, turns: seq<Turn>, job: nat)
    requires Initial(s) && Possible(s, turns)
    ensures var r := Run(s, turns);
            && r.taken <= r.accepted && r.queue == r.accepted[|r.taken|..] && |r.queue| <= r.max
            && multiset(r.taken)[job] == multiset(r.finished)[job] + InWork(r.workers, job)
  {
    Reachable(s, turns);
  }

  /** When a `threadpool_destroy` has joined the workers, every accepted job has been run. */
  lemma DestroyedDone(s: Pool, turns: seq<Turn>, d: nat)
    requires Initial(s) && Possible(s, turns)
    requires d < |Run(s, turns).destroyers| && Run(s, turns).destroyers[d] == Done(0)
    ensures var r := Run(s, turns);
            && r.queue == [] && multiset(r.finished) == multiset(r.accepted)
            && forall i | 0 <= i < |r.workers| :: r.workers[i].Exited?
  {
    Reachable(s, turns);
    var r := Run(s, turns);
    AllFinished(r);
  }

  lemma AllFinished(r: Pool)
    requires Inv(r) && r.queue == []
    requires forall i | 0 <= i < |r.workers| :: !r.workers[i].Running?
    ensures multiset(r.finished) == multiset(r.accepted)
  {
    assert r.accepted == r.taken;
    forall job: nat
      ensures multiset(r.finished)[job] == multiset(r.accepted)[job]
    {
      InWorkNone(r.workers, job);
    }
  }

  lemma StartAnswered(s: Pool)
    requires Initial(s)
    ensures Answered(Offered(s.producers), s) && Inv(s)
  {
    Reachable(s, []);
    forall job: nat
      ensures Granted(Offered(s.producers), s.producers, job) == 0
    {
      GrantedNone(Offered(s.producers), s.producers, job);
    }
  }

  /** What `threadpool_add_job` returns is 0 or -1, and -1 only when the queue is closed; the jobs of the calls
      that returned 0 are exactly the jobs accepted; and a call that has not returned still has its job. */
  lemma ReturnCodes(s: Pool, turns: seq<Turn>)
    requires Initial(s) && Possible(s, turns)
    ensures var r, jobs := Run(s, turns), Offered(s.producers);
            && |r.producers| == |s.producers|
            && (forall i, c | 0 <= i < |r.producers| && r.producers[i] == Returned(c) ::
                  c == 0 || (c == -1 && r.queueClose))
            && (forall i | 0 <= i < |r.producers| && !r.producers[i].Returned? :: r.producers[i].job == jobs[i])
            && (forall job: nat :: Granted(jobs, r.producers, job) == multiset(r.accepted)[job])
  {
    var jobs := Offered(s.producers);
    StartAnswered(s);
    RunAnswered(jobs, s, turns);
    var r := Run(s, turns);
    assert forall i | 0 <= i < |jobs| :: Answer(jobs[i], r.producers[i], r.queueClose);
  }

  /** When nobody destroys the pool and no thread can go on, every call has returned 0 and every job that was
      offered has been run. */
  lemma AllOffersRun(s: Pool, turns: seq<Turn>)
    requires Initial(s) && Possible(s, turns) && s.destroyers == []
    requires forall t: Turn | !Spurious(t) :: !Enabled(Run(s, turns), t)
    ensures var r := Run(s, turns);
            && (forall i | 0 <= i < |r.producers| :: r.producers[i] == Returned(0))
            && multiset(r.finished) == multiset(Offered(s.producers))
  {
    var r := Run(s, turns);
    var jobs: seq<nat> := Offered(s.producers);
    Quiescence(s, turns);
    ReturnCodes(s, turns);
    DestroyersStay(s, turns);
    assert forall i | 0 <= i < |r.producers| :: r.producers[i] == Returned(r.producers[i].code);
    forall job: nat
      ensures multiset(r.finished)[job] == multiset(jobs)[job]
    {
      GrantedAll(jobs, r.producers, job);
    }
  }

  lemma {:induction false} DestroyersStay(s: Pool, turns: seq<Turn>)
    requires Possible(s, turns)
    ensures |Run(s, turns).destroyers| == |s.destroyers|
    decreases |turns|
  {
    if turns != [] { DestroyersStay(Next(s, turns[0]), turns[1..]); }
  }

  /** When a destroy call is made and no thread can go on, exactly one such call has returned 0. */
  lemma OneDestroys(s: Pool, turns: seq<Turn>) returns (d: nat)
    requires Initial(s) && Possible(s, turns) && s.destroyers != []
    requires forall t: Turn | !Spurious(t) :: !Enabled(Run(s, turns), t)
    ensures var r := Run(s, turns);
            d < |r.destroyers| && forall e | 0 <= e < |r.destroyers| :: r.destroyers[e] == Done(if e == d then 0 else -1)
  {
    Quiescence(s, turns);
    Reachable(s, turns);
    DestroyersStay(s, turns);
    d := Run(s, turns).owner.value;
  }

  /** A closed queue accepts nothing more, and stays closed. */
  lemma {:induction false} ClosedAcceptsNothing(s: Pool, turns: seq<Turn>)
    requires Possible(s, turns) && s.queueClose
    ensures Run(s, turns).accepted == s.accepted && Run(s, turns).queueClose
    decreases |turns|
  {
    if turns != [] { ClosedAcceptsNothing(Next(s, turns[0]), turns[1..]); }
  }

  /** Quiescence: when no thread can go on without a spurious wakeup, every accepted job has been
      run, every producer has returned, and either nobody destroys the pool and all workers wait,
      or the destroyer has returned and all workers have exited. */
  lemma Quiescence(s: Pool, turns: seq<Turn>)
    requires Initial(s) && Possible(s, turns)
    requires forall t: Turn | !Spurious(t) :: !Enabled(Run(s, turns), t)
    ensures var r := Run(s, turns);
            && r.queue == [] && multiset(r.finished) == multiset(r.accepted)
            && (forall i | 0 <= i < |r.producers| :: r.producers[i].Returned?)
            && (forall d | 0 <= d < |r.destroyers| :: r.destroyers[d].Done?)
            && (r.queueClose <==> |r.destroyers| > 0)
            && (forall i | 0 <= i < |r.workers| :: if r.queueClose then r.workers[i].Exited? else r.workers[i].Waiting?)
  {
    var r := Run(s, turns);
    Reachable(s, turns);
    if r.queue != [] {
      assert r.workers[0].Contending? || r.workers[0].Running?;
      QueuedJobsProgress(s, turns, 0);
      assert false;
    }
    forall i | 0 <= i < |r.workers|
      ensures r.workers[i].Waiting? || r.workers[i].Exited?
    {
      assert forall d <- r.destroyers :: !d.AwaitingEmpty?;
      assert !Enabled(r, Work(i, 0));
    }
    forall i | 0 <= i < |r.producers|
      ensures r.producers[i].Returned?
    {
      assert !Enabled(r, Offer(i));
    }
    forall d | 0 <= d < |r.destroyers|
      ensures r.destroyers[d].Done?
    {
      assert !Enabled(r, Destroy(d));
    }
    if |r.destroyers| > 0 { assert r.destroyers[0].Done?; }
    AllFinished(r);
  }

  // ----- main results: progress -----

  /** How much is left to do for a thread, and whether it is about to lock the mutex. */
  function WorkerRank(w: Worker): nat {
    match w
    case Running(_) => 2
    case Exited => 0
    case _ => 1
  }

  function ProducerRank(p: Producer): nat {
    if p.Returned? then 0 else 4
  }

  function DestroyerRank(d: Destroyer, n: nat): nat {
    match d
    case Entering => n + 5
    case AwaitingEmpty => n + 4
    case Woken => n + 4
    case Announcing => n + 3
    case HalfAnnounced => n + 2
    case Joining(j) => if j <= n then n + 1 - j else 1
    case Done(_) => 0
  }

  function WorkersLeft(ws: seq<Worker>): nat {
    if ws == [] then 0 else WorkerRank(ws[0]) + WorkersLeft(ws[1..])
  }

  function ProducersLeft(ps: seq<Producer>): nat {
    if ps == [] then 0 else ProducerRank(ps[0]) + ProducersLeft(ps[1..])
  }

  function DestroyersLeft(ds: seq<Destroyer>, n: nat): nat {
    if ds == [] then 0 else DestroyerRank(ds[0], n) + DestroyersLeft(ds[1..], n)
  }

  function WorkersAwake(ws: seq<Worker>): (k: nat)
    ensures k <= |ws|
  {
    if ws == [] then 0 else (if ws[0].Waiting? then 0 else 1) + WorkersAwake(ws[1..])
  }

  function ProducersAwake(ps: seq<Producer>): (k: nat)
    ensures k <= |ps|
  {
    if ps == [] then 0 else (if ps[0].Blocked? then 0 else 1) + ProducersAwake(ps[1..])
  }

  function DestroyersAwake(ds: seq<Destroyer>): (k: nat)
    ensures k <= |ds|
  {
    if ds == [] then 0 else (if ds[0].AwaitingEmpty? then 0 else 1) + DestroyersAwake(ds[1..])
  }

  /** The work that is left in the pool: jobs to offer, to take and to run, and calls to finish. */
  function WorkLeft(s: Pool): nat {
    2 * |s.queue| + WorkersLeft(s.workers) + ProducersLeft(s.producers)
    + DestroyersLeft(s.destroyers, |s.workers|)
  }

  /** The threads that do not wait on a condition variable. */
  function Awake(s: Pool): nat {
    WorkersAwake(s.workers) + ProducersAwake(s.producers) + DestroyersAwake(s.destroyers)
  }

  function Threads(s: Pool): nat {
    |s.workers| + |s.producers| + |s.destroyers|
  }

  function Weighted(n: nat, a: nat, x: nat): nat {
    n * a + x
  }

  /** What every turn that is not a spurious wakeup makes smaller. */
  function Measure(s: Pool): nat {
    Weighted(Threads(s) + 1, WorkLeft(s), Awake(s))
  }

  lemma {:induction false} WorkerUpdate(ws: seq<Worker>, i: nat, w: Worker)
    requires i < |ws|
    ensures WorkersLeft(ws[i := w]) == WorkersLeft(ws) - WorkerRank(ws[i]) + WorkerRank(w)
    ensures WorkersAwake(ws[i := w])
         == WorkersAwake(ws) - (if ws[i].Waiting? then 0 else 1) + (if w.Waiting? then 0 else 1)
  {
    if i > 0 {
      assert ws[i := w][1..] == ws[1..][i - 1 := w];
      WorkerUpdate(ws[1..], i - 1, w);
    } else {
      assert ws[i := w][1..] == ws[1..];
    }
  }

  lemma {:induction false} ProducerUpdate(ps: seq<Producer>, i: nat, p: Producer)
    requires i < |ps|
    ensures ProducersLeft(ps[i := p]) == ProducersLeft(ps) - ProducerRank(ps[i]) + ProducerRank(p)
    ensures ProducersAwake(ps[i := p])
         == ProducersAwake(ps) - (if ps[i].Blocked? then 0 else 1) + (if p.Blocked? then 0 else 1)
  {
    if i > 0 {
      assert ps[i := p][1..] == ps[1..][i - 1 := p];
      ProducerUpdate(ps[1..], i - 1, p);
    } else {
      assert ps[i := p][1..] == ps[1..];
    }
  }

  lemma {:induction false} DestroyerUpdate(ds: seq<Destroyer>, i: nat, d: Destroyer, n: nat)
    requires i < |ds|
    ensures DestroyersLeft(ds[i := d], n) == DestroyersLeft(ds, n) - DestroyerRank(ds[i], n) + DestroyerRank(d, n)
    ensures DestroyersAwake(ds[i := d])
         == DestroyersAwake(ds) - (if ds[i].AwaitingEmpty? then 0 else 1) + (if d.AwaitingEmpty? then 0 else 1)
  {
    if i > 0 {
      assert ds[i := d][1..] == ds[1..][i - 1 := d];
      DestroyerUpdate(ds[1..], i - 1, d, n);
    } else {
      assert ds[i := d][1..] == ds[1..];
    }
  }

  lemma {:induction false} WakeLeft(ws: seq<Worker>)
    ensures WorkersLeft(WakeWorkers(ws)) == WorkersLeft(ws)
  {
    if ws == [] {
      assert WakeWorkers(ws) == [];
    } else {
      assert WakeWorkers(ws)[1..] == WakeWorkers(ws[1..]);
      WakeLeft(ws[1..]);
    }
  }

  lemma {:induction false} WakeProducersLeft(ps: seq<Producer>)
    ensures ProducersLeft(WakeProducers(ps)) == ProducersLeft(ps)
  {
    if ps == [] {
      assert WakeProducers(ps) == [];
    } else {
      assert WakeProducers(ps)[1..] == WakeProducers(ps[1..]);
      WakeProducersLeft(ps[1..]);
    }
  }

  /** A turn leaves less work, or the same work and one thread less awake. */
  ghost predicate Advances(s: Pool, r: Pool) {
    && |r.workers| == |s.workers| && |r.producers| == |s.producers| && |r.destroyers| == |s.destroyers|
    && (WorkLeft(r) < WorkLeft(s) || (WorkLeft(r) == WorkLeft(s) && Awake(r) < Awake(s)))
  }

  lemma WorkerMoves(s: Pool, r: Pool, i: nat, w: Worker)
    requires i < |s.workers| && r.workers == s.workers[i := w]
    requires |r.producers| == |s.producers| && ProducersLeft(r.producers) == ProducersLeft(s.producers)
    requires |r.destroyers| == |s.destroyers|
             && DestroyersLeft(r.destroyers, |s.workers|) == DestroyersLeft(s.destroyers, |s.workers|)
    requires 2 * |r.queue| + WorkerRank(w) < 2 * |s.queue| + WorkerRank(s.workers[i])
             || (s.workers[i].Contending? && w.Waiting? && r.queue == s.queue && r.producers == s.producers
                 && r.destroyers == s.destroyers)
    ensures Advances(s, r)
  {
    WorkerUpdate(s.workers, i, w);
  }

  lemma WorkAdvances(s: Pool, i: nat, woken: nat)
    requires Enabled(s, Work(i, woken))
    ensures Advances(s, WorkTurn(s, i, woken))
  {
    WakeProducersLeft(s.producers);
    if woken < |s.destroyers| { DestroyerUpdate(s.destroyers, woken, Woken, |s.workers|); }
    WorkerMoves(s, WorkTurn(s, i, woken), i, WorkTurn(s, i, woken).workers[i]);
  }

  lemma OfferAdvances(s: Pool, i: nat)
    requires Enabled(s, Offer(i))
    ensures Advances(s, OfferTurn(s, i))
  {
    ProducerUpdate(s.producers, i, OfferTurn(s, i).producers[i]);
    WakeLeft(s.workers);
  }

  lemma DestroyerMoves(s: Pool, r: Pool, i: nat, d: Destroyer)
    requires i < |s.destroyers| && r.destroyers == s.destroyers[i := d] && r.queue == s.queue
    requires |r.workers| == |s.workers| && WorkersLeft(r.workers) == WorkersLeft(s.workers)
    requires |r.producers| == |s.producers| && ProducersLeft(r.producers) == ProducersLeft(s.producers)
    requires DestroyerRank(d, |s.workers|) < DestroyerRank(s.destroyers[i], |s.workers|)
             || (s.destroyers[i].Woken? && d.AwaitingEmpty? && r.workers == s.workers && r.producers == s.producers)
    ensures Advances(s, r)
  {
    DestroyerUpdate(s.destroyers, i, d, |s.workers|);
  }

  lemma DestroyAdvances(s: Pool, i: nat)
    requires Enabled(s, Destroy(i))
    ensures Advances(s, DestroyTurn(s, i))
  {
    WakeLeft(s.workers);
    WakeProducersLeft(s.producers);
    DestroyerMoves(s, DestroyTurn(s, i), i, DestroyTurn(s, i).destroyers[i]);
  }

  lemma Lexicographic(n: nat, a: nat, x: nat, b: nat, y: nat)
    requires x < n && (a < b || (a == b && x < y))
    ensures Weighted(n, a, x) < Weighted(n, b, y)
  {
    if a < b {
      MulMono(n, a + 1, b);
      MulDistributes(n, a, 1);
    }
  }

  lemma AdvanceMeasure(s: Pool, r: Pool)
    requires Advances(s, r)
    ensures Measure(r) < Measure(s)
  {
    Lexicographic(Threads(s) + 1, WorkLeft(r), Awake(r), WorkLeft(s), Awake(s));
  }

  lemma SpuriousAwake(s: Pool, t: Turn)
    requires Enabled(s, t) && Spurious(t)
    ensures var r := Next(s, t);
            Threads(r) == Threads(s) && WorkLeft(r) == WorkLeft(s) && Awake(r) == Awake(s) + 1
  {
    match t
    case SpuriousWorker(i) => WorkerUpdate(s.workers, i, Contending);
    case SpuriousProducer(i) => ProducerUpdate(s.producers, i, Offering(s.producers[i].job));
    case SpuriousDestroyer(i) => DestroyerUpdate(s.destroyers, i, Woken, |s.workers|);
    case _ =>
  }

  lemma SpuriousMeasure(s: Pool, t: Turn)
    requires Enabled(s, t) && Spurious(t)
    ensures Measure(Next(s, t)) == Measure(s) + 1
  {
    SpuriousAwake(s, t);
  }

  function SpuriousTurns(turns: seq<Turn>): nat {
    if turns == [] then 0 else (if Spurious(turns[0]) then 1 else 0) + SpuriousTurns(turns[1..])
  }

  /** Progress: a run is no longer than its start allows, but for its spurious wakeups.  With
      `Quiescence`, the pool always comes to rest with every accepted job done. */
  lemma {:induction false} RunsEnd(s: Pool, turns: seq<Turn>)
    requires Possible(s, turns)
    ensures |turns| <= Measure(s) + 2 * SpuriousTurns(turns)
    decreases |turns|
  {
    if turns != [] {
      var t := turns[0];
      var r := Next(s, t);
      RunsEnd(r, turns[1..]);
      match t {
        case Work(i, woken) => WorkAdvances(s, i, woken); AdvanceMeasure(s, r);
        case Offer(i) => OfferAdvances(s, i); AdvanceMeasure(s, r);
        case Destroy(i) => DestroyAdvances(s, i); AdvanceMeasure(s, r);
        case _ => SpuriousMeasure(s, t);
      }
    }
  }
}
