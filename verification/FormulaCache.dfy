// The bounded cache of rendered formulas and the serial typesetting queue that interleaved requests
// share (`typesetFormula` and `enqueueMathJaxTypeset` in frontend/src/mathTypesetting.ts).
//
// Typesetting is a deterministic function of the request, the parameter `render`. Everything between
// two suspension points of a request is one event.
module FormulaCache {
  import opened FormulaKey
  import opened Options

  const FORMULA_CACHE_LIMIT := 200

  // ---------------------------------------------------------------- an insertion-ordered map

  type Cache<N> = seq<(string, N)>

  // Index of the key, or the size.
  function Position<N>(cache: Cache<N>, key: string): (i: nat)
    ensures i <= |cache|
  {
    if cache == [] then 0 else if cache[0].0 == key then 0 else 1 + Position(cache[1..], key)
  }

  function Lookup<N>(cache: Cache<N>, key: string): Option<N> {
    var i := Position(cache, key);
    if i < |cache| then Some(cache[i].1) else None
  }

  // Setting a present key keeps its place in the order.
  function Set<N>(cache: Cache<N>, key: string, node: N): Cache<N> {
    var i := Position(cache, key);
    if i < |cache| then cache[i := (key, node)] else cache + [(key, node)]
  }

  function Delete<N>(cache: Cache<N>, key: string): Cache<N> {
    var i := Position(cache, key);
    if i < |cache| then cache[..i] + cache[i + 1..] else cache
  }

  // A hit moves its entry to the end.
  function Touch<N>(cache: Cache<N>, key: string, node: N): Cache<N> {
    Set(Delete(cache, key), key, node)
  }

  // A completed rendering is kept, and the oldest entry leaves a cache that became too large.
  function Store<N>(cache: Cache<N>, key: string, node: N): Cache<N> {
    var larger := Set(cache, key, node);
    if |larger| > FORMULA_CACHE_LIMIT then Delete(larger, larger[0].0) else larger
  }

  predicate DistinctKeys<N>(cache: Cache<N>) {
    forall i, j | 0 <= i < j < |cache| :: cache[i].0 != cache[j].0
  }

  lemma {:induction false} PositionFinds<N>(cache: Cache<N>, key: string)
    ensures var i := Position(cache, key);
            && (i < |cache| ==> cache[i].0 == key)
            && forall j | 0 <= j < i :: cache[j].0 != key
  {
    if cache != [] && cache[0].0 != key {
      PositionFinds(cache[1..], key);
    }
  }

  lemma {:induction false} PositionOfDistinct<N>(cache: Cache<N>, i: nat)
    requires DistinctKeys(cache) && i < |cache|
    ensures Position(cache, cache[i].0) == i
  {
    PositionFinds(cache, cache[i].0);
    var p := Position(cache, cache[i].0);
    assert p <= i;
    assert cache[p].0 == cache[i].0;
  }

  lemma {:induction false} SetKeepsDistinct<N>(cache: Cache<N>, key: string, node: N)
    requires DistinctKeys(cache)
    ensures DistinctKeys(Set(cache, key, node))
    ensures Lookup(Set(cache, key, node), key) == Some(node)
    ensures forall entry | entry in Set(cache, key, node) :: entry == (key, node) || entry in cache
    ensures |cache| <= |Set(cache, key, node)| <= |cache| + 1
  {
    PositionFinds(cache, key);
    var c := Set(cache, key, node);
    PositionOfDistinct(c, Position(cache, key));
  }

  lemma {:induction false} DeleteKeepsDistinct<N>(cache: Cache<N>, key: string)
    requires DistinctKeys(cache)
    ensures DistinctKeys(Delete(cache, key))
    ensures forall entry | entry in Delete(cache, key) :: entry in cache
    ensures |Delete(cache, key)| == if Position(cache, key) < |cache| then |cache| - 1 else |cache|
  {
  }

  // Eviction never removes the entry that was just stored.
  lemma {:induction false} StoreKeepsTheNewEntry<N>(cache: Cache<N>, key: string, node: N)
    requires DistinctKeys(cache) && |cache| <= FORMULA_CACHE_LIMIT
    ensures Lookup(Store(cache, key, node), key) == Some(node)
    ensures |Store(cache, key, node)| <= FORMULA_CACHE_LIMIT && DistinctKeys(Store(cache, key, node))
    ensures forall entry | entry in Store(cache, key, node) :: entry == (key, node) || entry in cache
  {
    SetKeepsDistinct(cache, key, node);
    if |Set(cache, key, node)| > FORMULA_CACHE_LIMIT {
      var larger := cache + [(key, node)];
      assert Set(cache, key, node) == larger;
      EvictionDropsTheFirst(larger);
      assert Store(cache, key, node) == larger[1..];
      assert forall entry | entry in larger[1..] :: entry in larger;
    }
  }

  lemma {:induction false} EvictionDropsTheFirst<N>(larger: Cache<N>)
    requires DistinctKeys(larger) && |larger| >= 2
    ensures Delete(larger, larger[0].0) == larger[1..] && DistinctKeys(larger[1..])
    ensures Lookup(larger[1..], larger[|larger| - 1].0) == Some(larger[|larger| - 1].1)
  {
    PositionOfDistinct(larger, 0);
    RestIsDistinct(larger);
    LastIsFound(larger[1..]);
  }

  lemma {:induction false} RestIsDistinct<N>(cache: Cache<N>)
    requires DistinctKeys(cache) && cache != []
    ensures DistinctKeys(cache[1..])
  {
  }

  lemma {:induction false} LastIsFound<N>(cache: Cache<N>)
    requires DistinctKeys(cache) && cache != []
    ensures Lookup(cache, cache[|cache| - 1].0) == Some(cache[|cache| - 1].1)
  {
    PositionOfDistinct(cache, |cache| - 1);
  }

  // ---------------------------------------------------------------- requests in flight

  datatype Stage<N> =
    | Loading                        // waiting for the typesetter to load
    | LoadFailed
    | Queued(after: Option<nat>)     // waiting for the request enqueued before it
    | Running
    | TaskFailed
    | Settled(node: N)               // rendered, not yet stored
    | Delivered(node: N)             // stored and returned
    | Hit(node: N)                   // returned from the cache

  datatype Job<N> = Job(request: Request, stage: Stage<N>)

  // `tail` is the last request put in the queue; `order` records all of them.
  datatype System<N> = System(cache: Cache<N>, tail: Option<nat>, jobs: seq<Job<N>>, order: seq<nat>)

  datatype Event =
    | Ask(request: Request)
    | FailToLoad(job: nat)
    | Enqueue(job: nat)
    | Start(job: nat)
    | Finish(job: nat, ok: bool)
    | Deliver(job: nat)

  // The promise of the queued task is settled, either way.
  predicate IsFinished<N>(stage: Stage<N>) {
    stage.TaskFailed? || stage.Settled? || stage.Delivered?
  }

  predicate IsEnqueued<N>(stage: Stage<N>) {
    stage.Queued? || stage.Running? || IsFinished(stage)
  }

  predicate Enabled<N>(s: System<N>, e: Event) {
    if e.Ask? then true
    else e.job < |s.jobs| && var stage := s.jobs[e.job].stage;
      match e
      case FailToLoad(_) => stage.Loading?
      case Enqueue(_) => stage.Loading?
      case Start(_) =>
        stage.Queued? && (stage.after.None?
                          || (stage.after.value < |s.jobs| && IsFinished(s.jobs[stage.after.value].stage)))
      case Finish(_, _) => stage.Running?
      case Deliver(_) => stage.Settled?
  }

  function SetStage<N>(s: System<N>, job: nat, stage: Stage<N>): System<N>
    requires job < |s.jobs|
  {
    s.(jobs := s.jobs[job := s.jobs[job].(stage := stage)])
  }

  function Initial<N>(): System<N> {
    System([], None, [], [])
  }

  // An event that cannot happen changes nothing.
  function Step<N>(s: System<N>, e: Event, render: Request -> N): System<N> {
    if !Enabled(s, e) then s
    else match e
      case Ask(request) =>
        var cached := Lookup(s.cache, CacheKey(request));
        if cached.Some? then
          s.(cache := Touch(s.cache, CacheKey(request), cached.value),
             jobs := s.jobs + [Job(request, Hit(cached.value))])
        else s.(jobs := s.jobs + [Job(request, Loading)])
      case FailToLoad(job) => SetStage(s, job, LoadFailed)
      case Enqueue(job) => SetStage(s, job, Queued(s.tail)).(tail := Some(job), order := s.order + [job])
      case Start(job) => SetStage(s, job, Running)
      case Finish(job, ok) => SetStage(s, job, if ok then Settled(render(s.jobs[job].request)) else TaskFailed)
      case Deliver(job) =>
        var node := s.jobs[job].stage.node;
        SetStage(s, job, Delivered(node)).(cache := Store(s.cache, CacheKey(s.jobs[job].request), node))
  }

  function Run<N>(s: System<N>, events: seq<Event>, render: Request -> N): System<N>
    decreases |events|
  {
    if events == [] then s else Run(Step(s, events[0], render), events[1..], render)
  }

  // ---------------------------------------------------------------- what every run keeps

  // The entry is the rendering of the request that its key stands for.
  ghost predicate IsRendering<N(!new)>(entry: (string, N), render: Request -> N) {
    exists r: Request :: CacheKey(r) == entry.0 && render(r) == entry.1
  }

  ghost predicate CacheInvariant<N(!new)>(cache: Cache<N>, render: Request -> N) {
    && |cache| <= FORMULA_CACHE_LIMIT
    && DistinctKeys(cache)
    && forall entry | entry in cache :: IsRendering(entry, render)
  }

  // Whatever a request was given is its own rendering.
  ghost predicate JobsInvariant<N>(jobs: seq<Job<N>>, render: Request -> N) {
    forall i | 0 <= i < |jobs| ::
      var stage := jobs[i].stage;
      stage.Settled? || stage.Delivered? || stage.Hit? ==> stage.node == render(jobs[i].request)
  }

  // The order lists exactly the enqueued requests, once each.
  ghost predicate ListsEnqueued<N>(jobs: seq<Job<N>>, order: seq<nat>) {
    && (forall p | 0 <= p < |order| :: order[p] < |jobs| && IsEnqueued(jobs[order[p]].stage))
    && (forall p, q | 0 <= p < q < |order| :: order[p] != order[q])
    && forall i | 0 <= i < |jobs| && IsEnqueued(jobs[i].stage) :: i in order
  }

  function Before(order: seq<nat>, p: nat): Option<nat>
    requires p <= |order|
  {
    if p == 0 then None else Some(order[p - 1])
  }

  // Each of them waits for the one before it.
  ghost predicate IsChain<N>(tail: Option<nat>, jobs: seq<Job<N>>, order: seq<nat>)
    requires ListsEnqueued(jobs, order)
  {
    && tail == Before(order, |order|)
    && forall p | 0 <= p < |order| && jobs[order[p]].stage.Queued? ::
         jobs[order[p]].stage.after == Before(order, p)
  }

  // Everything before a request that has left the waiting state is finished.
  ghost predicate RunsInOrder<N>(jobs: seq<Job<N>>, order: seq<nat>)
    requires ListsEnqueued(jobs, order)
  {
    forall p, q | 0 <= p < q < |order| && !jobs[order[q]].stage.Queued? :: IsFinished(jobs[order[p]].stage)
  }

  ghost predicate QueueInvariant<N>(tail: Option<nat>, jobs: seq<Job<N>>, order: seq<nat>) {
    ListsEnqueued(jobs, order) && IsChain(tail, jobs, order) && RunsInOrder(jobs, order)
  }

  ghost predicate Invariant<N(!new)>(s: System<N>, render: Request -> N) {
    CacheInvariant(s.cache, render) && JobsInvariant(s.jobs, render) && QueueInvariant(s.tail, s.jobs, s.order)
  }

  // A hit returns the rendering of exactly the formula, display mode and macros that were asked for.
  lemma {:induction false} HitIsOwnRendering<N(!new)>(cache: Cache<N>, request: Request, render: Request -> N)
    requires CacheInvariant(cache, render) && Lookup(cache, CacheKey(request)).Some?
    ensures Lookup(cache, CacheKey(request)).value == render(request)
  {
    PositionFinds(cache, CacheKey(request));
    var entry := cache[Position(cache, CacheKey(request))];
    assert entry in cache;
    var r :| CacheKey(r) == entry.0 && render(r) == entry.1;
    CacheKeyInjective(r, request);
  }

  lemma {:induction false} TouchKeepsInvariant<N(!new)>(cache: Cache<N>, request: Request, render: Request -> N)
    requires CacheInvariant(cache, render) && Lookup(cache, CacheKey(request)).Some?
    ensures CacheInvariant(Touch(cache, CacheKey(request), Lookup(cache, CacheKey(request)).value), render)
  {
    var key := CacheKey(request);
    HitIsOwnRendering(cache, request, render);
    var node := Lookup(cache, key).value;
    DeleteKeepsDistinct(cache, key);
    SetKeepsDistinct(Delete(cache, key), key, node);
    assert IsRendering((key, node), render);
  }

  lemma {:induction false} StoreKeepsInvariant<N(!new)>(cache: Cache<N>, request: Request, render: Request -> N)
    requires CacheInvariant(cache, render)
    ensures CacheInvariant(Store(cache, CacheKey(request), render(request)), render)
  {
    StoreKeepsTheNewEntry(cache, CacheKey(request), render(request));
    assert IsRendering((CacheKey(request), render(request)), render);
  }

  // A new request that is not enqueued.
  lemma {:induction false} QueueIgnoresNewJob<N>(tail: Option<nat>, jobs: seq<Job<N>>, order: seq<nat>, job: Job<N>)
    requires QueueInvariant(tail, jobs, order) && !IsEnqueued(job.stage)
    ensures QueueInvariant(tail, jobs + [job], order)
  {
  }

  lemma {:induction false} WaitsForPrevious<N>(tail: Option<nat>, jobs: seq<Job<N>>, order: seq<nat>, p: nat)
    requires QueueInvariant(tail, jobs, order) && p < |order| && jobs[order[p]].stage.Queued?
    ensures jobs[order[p]].stage.after == Before(order, p)
  {
  }

  // A request whose stage changes outside the queue.
  lemma {:induction false} QueueIgnoresOutsider<N>(tail: Option<nat>, jobs: seq<Job<N>>, order: seq<nat>, job: nat,
                                                   stage: Stage<N>)
    requires QueueInvariant(tail, jobs, order) && job < |jobs|
    requires !IsEnqueued(jobs[job].stage) && !IsEnqueued(stage)
    ensures QueueInvariant(tail, jobs[job := jobs[job].(stage := stage)], order)
  {
    var jobs' := jobs[job := jobs[job].(stage := stage)];
    OutsiderIsNotListed(jobs, order, job, stage);
    assert forall p | 0 <= p < |order| :: jobs'[order[p]] == jobs[order[p]];
  }

  lemma {:induction false} OutsiderIsNotListed<N>(jobs: seq<Job<N>>, order: seq<nat>, job: nat, stage: Stage<N>)
    requires ListsEnqueued(jobs, order) && job < |jobs| && !IsEnqueued(jobs[job].stage) && !IsEnqueued(stage)
    ensures ListsEnqueued(jobs[job := jobs[job].(stage := stage)], order)
    ensures forall p | 0 <= p < |order| :: order[p] != job
  {
  }

  lemma {:induction false} QueueTakesJob<N>(tail: Option<nat>, jobs: seq<Job<N>>, order: seq<nat>, job: nat)
    requires QueueInvariant(tail, jobs, order) && job < |jobs| && jobs[job].stage.Loading?
    ensures QueueInvariant(Some(job), jobs[job := jobs[job].(stage := Queued(tail))], order + [job])
  {
    var jobs', order' := jobs[job := jobs[job].(stage := Queued(tail))], order + [job];
    QueueListsJob(jobs, order, job, Queued(tail));
    forall p | 0 <= p < |order'| && jobs'[order'[p]].stage.Queued?
      ensures jobs'[order'[p]].stage.after == Before(order', p)
    {
      if p < |order| {
        WaitsForPrevious(tail, jobs, order, p);
      }
    }
    forall p, q | 0 <= p < q < |order'| && !jobs'[order'[q]].stage.Queued?
      ensures IsFinished(jobs'[order'[p]].stage)
    {
      assert q < |order|;
      FinishedBefore(jobs, order, p, q);
    }
  }

  lemma {:induction false} QueueListsJob<N>(jobs: seq<Job<N>>, order: seq<nat>, job: nat, stage: Stage<N>)
    requires ListsEnqueued(jobs, order) && job < |jobs| && !IsEnqueued(jobs[job].stage) && IsEnqueued(stage)
    ensures ListsEnqueued(jobs[job := jobs[job].(stage := stage)], order + [job])
    ensures forall p | 0 <= p < |order| :: order[p] != job
  {
    var jobs', order' := jobs[job := jobs[job].(stage := stage)], order + [job];
    forall i | 0 <= i < |jobs'| && IsEnqueued(jobs'[i].stage)
      ensures i in order'
    {
      if i == job {
        assert order'[|order|] == job;
      } else {
        assert i in order;
      }
    }
  }

  // A request of the queue that starts, or that finishes or is delivered after it ran.
  lemma {:induction false} QueueAdvances<N>(tail: Option<nat>, jobs: seq<Job<N>>, order: seq<nat>, job: nat,
                                            stage: Stage<N>)
    requires QueueInvariant(tail, jobs, order) && job < |jobs|
    requires IsEnqueued(jobs[job].stage)
    requires if stage.Running? then
               && jobs[job].stage.Queued?
               && (jobs[job].stage.after.None?
                   || (jobs[job].stage.after.value < |jobs| && IsFinished(jobs[jobs[job].stage.after.value].stage)))
             else IsFinished(stage) && (jobs[job].stage.Running? || IsFinished(jobs[job].stage))
    ensures QueueInvariant(tail, jobs[job := jobs[job].(stage := stage)], order)
  {
    AdvanceLists(jobs, order, job, stage);
    AdvanceChain(tail, jobs, order, job, stage);
    var jobs' := jobs[job := jobs[job].(stage := stage)];
    forall p, q | 0 <= p < q < |order| && !jobs'[order[q]].stage.Queued?
      ensures IsFinished(jobs'[order[p]].stage)
    {
      if order[q] == job && jobs[job].stage.Queued? {
        StartIsInOrder(tail, jobs, order, q);
      }
      FinishedBefore(jobs, order, p, q);
    }
  }

  lemma {:induction false} AdvanceLists<N>(jobs: seq<Job<N>>, order: seq<nat>, job: nat, stage: Stage<N>)
    requires ListsEnqueued(jobs, order) && job < |jobs| && IsEnqueued(jobs[job].stage) && IsEnqueued(stage)
    ensures ListsEnqueued(jobs[job := jobs[job].(stage := stage)], order)
  {
  }

  lemma {:induction false} AdvanceChain<N>(tail: Option<nat>, jobs: seq<Job<N>>, order: seq<nat>, job: nat,
                                           stage: Stage<N>)
    requires QueueInvariant(tail, jobs, order) && job < |jobs| && !stage.Queued?
    requires ListsEnqueued(jobs[job := jobs[job].(stage := stage)], order)
    ensures IsChain(tail, jobs[job := jobs[job].(stage := stage)], order)
  {
    var jobs' := jobs[job := jobs[job].(stage := stage)];
    forall p | 0 <= p < |order| && jobs'[order[p]].stage.Queued?
      ensures jobs'[order[p]].stage.after == Before(order, p)
    {
      WaitsForPrevious(tail, jobs, order, p);
    }
  }

  lemma {:induction false} FinishedBefore<N>(jobs: seq<Job<N>>, order: seq<nat>, p: nat, q: nat)
    requires ListsEnqueued(jobs, order) && RunsInOrder(jobs, order) && p < q < |order|
    ensures !jobs[order[q]].stage.Queued? ==> IsFinished(jobs[order[p]].stage)
  {
  }

  // A request may start only when everything enqueued before it is finished.
  lemma {:induction false} StartIsInOrder<N>(tail: Option<nat>, jobs: seq<Job<N>>, order: seq<nat>, q: nat)
    requires QueueInvariant(tail, jobs, order) && q < |order|
    requires jobs[order[q]].stage.Queued?
    requires jobs[order[q]].stage.after.None?
             || (jobs[order[q]].stage.after.value < |jobs| && IsFinished(jobs[jobs[order[q]].stage.after.value].stage))
    ensures forall p | 0 <= p < q :: IsFinished(jobs[order[p]].stage)
  {
    if q > 0 {
      assert IsFinished(jobs[order[q - 1]].stage);
    }
  }

  lemma {:induction false} AskKeepsInvariant<N(!new)>(s: System<N>, request: Request, render: Request -> N)
    requires Invariant(s, render)
    ensures Invariant(Step(s, Ask(request), render), render)
  {
    if Lookup(s.cache, CacheKey(request)).Some? {
      HitIsOwnRendering(s.cache, request, render);
      TouchKeepsInvariant(s.cache, request, render);
      QueueIgnoresNewJob(s.tail, s.jobs, s.order, Job(request, Hit(render(request))));
    } else {
      QueueIgnoresNewJob(s.tail, s.jobs, s.order, Job(request, Loading));
    }
  }

  lemma {:induction false} FinishKeepsInvariant<N(!new)>(s: System<N>, job: nat, ok: bool, render: Request -> N)
    requires Invariant(s, render) && Enabled(s, Finish(job, ok))
    ensures Invariant(Step(s, Finish(job, ok), render), render)
  {
    QueueAdvances(s.tail, s.jobs, s.order, job, if ok then Settled(render(s.jobs[job].request)) else TaskFailed);
  }

  lemma {:induction false} DeliverKeepsInvariant<N(!new)>(s: System<N>, job: nat, render: Request -> N)
    requires Invariant(s, render) && Enabled(s, Deliver(job))
    ensures Invariant(Step(s, Deliver(job), render), render)
  {
    QueueAdvances(s.tail, s.jobs, s.order, job, Delivered(s.jobs[job].stage.node));
    StoreKeepsInvariant(s.cache, s.jobs[job].request, render);
  }

  lemma {:induction false} StepKeepsInvariant<N(!new)>(s: System<N>, e: Event, render: Request -> N)
    requires Invariant(s, render)
    ensures Invariant(Step(s, e, render), render)
  {
    if Enabled(s, e) {
      match e
      case Ask(request) => AskKeepsInvariant(s, request, render);
      case FailToLoad(job) => QueueIgnoresOutsider(s.tail, s.jobs, s.order, job, LoadFailed);
      case Enqueue(job) => QueueTakesJob(s.tail, s.jobs, s.order, job);
      case Start(job) => QueueAdvances(s.tail, s.jobs, s.order, job, Running);
      case Finish(job, ok) => FinishKeepsInvariant(s, job, ok, render);
      case Deliver(job) => DeliverKeepsInvariant(s, job, render);
    }
  }

  // Under every interleaving of requests, failures and completions the cache stays within its limit,
  // every entry and every answer is the rendering of its own request, and the queue stays a chain.
  lemma {:induction false} RunKeepsInvariant<N(!new)>(s: System<N>, events: seq<Event>, render: Request -> N)
    requires Invariant(s, render)
    ensures Invariant(Run(s, events, render), render)
    decreases |events|
  {
    if events != [] {
      StepKeepsInvariant(s, events[0], render);
      RunKeepsInvariant(Step(s, events[0], render), events[1..], render);
    }
  }

  lemma {:induction false} RunsFromTheStart<N(!new)>(events: seq<Event>, render: Request -> N)
    ensures Invariant(Run(Initial(), events, render), render)
  {
    RunKeepsInvariant(Initial(), events, render);
  }

  // At most one task runs at a time, and when it runs everything enqueued before it is finished and
  // everything enqueued after it still waits.
  lemma {:induction false} OneTaskAtATime<N(!new)>(s: System<N>, render: Request -> N, running: nat)
    requires Invariant(s, render) && running < |s.jobs| && s.jobs[running].stage.Running?
    ensures forall i | 0 <= i < |s.jobs| && s.jobs[i].stage.Running? :: i == running
    ensures exists q | 0 <= q < |s.order| ::
              && s.order[q] == running
              && (forall p | 0 <= p < q :: IsFinished(s.jobs[s.order[p]].stage))
              && forall p | q < p < |s.order| :: s.jobs[s.order[p]].stage.Queued?
  {
    var q := PlaceOf(s.jobs, s.order, running);
    forall i | 0 <= i < |s.jobs| && s.jobs[i].stage.Running?
      ensures i == running
    {
      var p := PlaceOf(s.jobs, s.order, i);
      if p < q {
        FinishedBefore(s.jobs, s.order, p, q);
      } else if q < p {
        FinishedBefore(s.jobs, s.order, q, p);
      }
    }
    forall p | 0 <= p < q
      ensures IsFinished(s.jobs[s.order[p]].stage)
    {
      FinishedBefore(s.jobs, s.order, p, q);
    }
    forall p | q < p < |s.order|
      ensures s.jobs[s.order[p]].stage.Queued?
    {
      FinishedBefore(s.jobs, s.order, q, p);
    }
  }

  lemma {:induction false} PlaceOf<N>(jobs: seq<Job<N>>, order: seq<nat>, job: nat) returns (p: nat)
    requires ListsEnqueued(jobs, order) && job < |jobs| && IsEnqueued(jobs[job].stage)
    ensures p < |order| && order[p] == job
  {
    assert job in order;
    p :| 0 <= p < |order| && order[p] == job;
  }

  // The queue never stalls: while nothing runs, the first waiting request can start, also after
  // failures of the requests before it.
  lemma {:induction false} QueueNeverStalls<N(!new)>(s: System<N>, render: Request -> N) returns (job: nat)
    requires Invariant(s, render)
    requires forall i | 0 <= i < |s.jobs| :: !s.jobs[i].stage.Running?
    requires exists i :: 0 <= i < |s.jobs| && s.jobs[i].stage.Queued?
    ensures Enabled(s, Start(job))
  {
    var i :| 0 <= i < |s.jobs| && s.jobs[i].stage.Queued?;
    var from := PlaceOf(s.jobs, s.order, i);
    var q := FirstWaiting(s.jobs, s.order, from);
    WaitsForPrevious(s.tail, s.jobs, s.order, q);
    job := s.order[q];
  }

  // Going back from a waiting request to the first one that waits.
  lemma {:induction false} FirstWaiting<N>(jobs: seq<Job<N>>, order: seq<nat>, from: nat) returns (q: nat)
    requires ListsEnqueued(jobs, order) && from < |order| && jobs[order[from]].stage.Queued?
    requires forall i | 0 <= i < |jobs| :: !jobs[i].stage.Running?
    ensures q < |order| && jobs[order[q]].stage.Queued?
    ensures q > 0 ==> IsFinished(jobs[order[q - 1]].stage)
  {
    if from > 0 && jobs[order[from - 1]].stage.Queued? {
      q := FirstWaiting(jobs, order, from - 1);
    } else {
      q := from;
      assert from > 0 ==> IsEnqueued(jobs[order[from - 1]].stage);
    }
  }

  // ---------------------------------------------------------------- the module's variables

  class FormulaTypesetter<N> {
    var formulaCache: Cache<N>
    var mathJaxTypesetQueue: Option<nat>
    var jobs: seq<Job<N>>
    ghost var order: seq<nat>

    ghost function State(): System<N>
      reads this
    {
      System(formulaCache, mathJaxTypesetQueue, jobs, order)
    }

    constructor ()
      ensures State() == Initial()
    {
      formulaCache, mathJaxTypesetQueue, jobs := [], None, [];
      order := [];
    }

    // A request up to its first suspension: a hit is answered at once.
    method TypesetFormula(request: Request, ghost render: Request -> N) returns (job: nat)
      modifies this
      ensures job == |old(jobs)|
      ensures State() == Step(old(State()), Ask(request), render)
    {
      job := |jobs|;
      var key := CacheKey(request);
      var cached := Lookup(formulaCache, key);
      if cached.Some? {
        formulaCache := Delete(formulaCache, key);
        formulaCache := Set(formulaCache, key, cached.value);
        jobs := jobs + [Job(request, Hit(cached.value))];
      } else {
        jobs := jobs + [Job(request, Loading)];
      }
    }

    // The task is chained behind the current end of the queue, whatever becomes of that.
    method EnqueueMathJaxTypeset(job: nat, ghost render: Request -> N)
      requires Enabled(State(), Enqueue(job))
      modifies this
      ensures State() == Step(old(State()), Enqueue(job), render)
    {
      jobs := jobs[job := jobs[job].(stage := Queued(mathJaxTypesetQueue))];
      mathJaxTypesetQueue := Some(job);
      order := order + [job];
    }

    // The continuation of a request after its rendering.
    method StoreRendering(job: nat, ghost render: Request -> N) returns (node: N)
      requires Enabled(State(), Deliver(job))
      modifies this
      ensures node == old(jobs[job].stage.node)
      ensures State() == Step(old(State()), Deliver(job), render)
    {
      node := jobs[job].stage.node;
      formulaCache := Set(formulaCache, CacheKey(jobs[job].request), node);
      jobs := jobs[job := jobs[job].(stage := Delivered(node))];
      if |formulaCache| > FORMULA_CACHE_LIMIT {
        var oldest := formulaCache[0].0;
        formulaCache := Delete(formulaCache, oldest);
      }
    }
  }
}
