// What becomes of a request for a formula (`typesetFormula` in frontend/src/mathTypesetting.ts): it is
// answered from the cache, or rendered in its turn and then answered from the cache.
module FormulaRequests {
  import opened FormulaKey
  import opened Options
  import opened FormulaCache
  import opened FormulaRecency

  predicate HasKey<N>(cache: Cache<N>, key: string) {
    exists i | 0 <= i < |cache| :: cache[i].0 == key
  }

  lemma {:induction false} FoundIffHasKey<N>(cache: Cache<N>, key: string)
    ensures Lookup(cache, key).Some? <==> HasKey(cache, key)
  {
    PositionFinds(cache, key);
  }

  // A request is a hit exactly when its key is there. Then it has its own rendering; otherwise it waits for
  // the typesetter.
  lemma {:induction false} AskIsHitIff<N(!new)>(s: System<N>, request: Request, render: Request -> N)
    requires Invariant(s, render)
    ensures Step(s, Ask(request), render).jobs
            == s.jobs + [Job(request, if HasKey(s.cache, CacheKey(request)) then Hit(render(request)) else Loading)]
  {
    FoundIffHasKey(s.cache, CacheKey(request));
    if Lookup(s.cache, CacheKey(request)).Some? {
      HitIsOwnRendering(s.cache, request, render);
    }
  }

  // Only requests and deliveries touch the cache, and a hit keeps every entry.
  lemma {:induction false} EntriesStay<N(!new)>(s: System<N>, e: Event, render: Request -> N, key: string)
    requires Invariant(s, render) && !e.Deliver?
    ensures HasKey(Step(s, e, render).cache, key) <==> HasKey(s.cache, key)
  {
    if e.Ask? && Lookup(s.cache, CacheKey(e.request)).Some? {
      var asked := CacheKey(e.request);
      var touched := Touch(s.cache, asked, Lookup(s.cache, asked).value);
      TouchKeepsEntries(s.cache, asked, key);
    }
  }

  lemma {:induction false} TouchKeepsEntries<N>(cache: Cache<N>, asked: string, key: string)
    requires DistinctKeys(cache) && Lookup(cache, asked).Some?
    ensures HasKey(Touch(cache, asked, Lookup(cache, asked).value), key) <==> HasKey(cache, key)
  {
    PositionFinds(cache, asked);
    HitMovesToEnd(cache, asked);
    MovedHasSame(cache, Position(cache, asked), key);
  }

  lemma {:induction false} MovedHasSame<N>(cache: Cache<N>, i: nat, key: string)
    requires i < |cache|
    ensures HasKey(cache[..i] + cache[i + 1..] + [cache[i]], key) <==> HasKey(cache, key)
  {
    var moved := cache[..i] + cache[i + 1..] + [cache[i]];
    if HasKey(cache, key) {
      var k :| 0 <= k < |cache| && cache[k].0 == key;
      assert moved[if k < i then k else if k == i then |cache| - 1 else k - 1] == cache[k];
    }
    if HasKey(moved, key) {
      var k :| 0 <= k < |moved| && moved[k].0 == key;
      assert cache[if k < i then k else if k == |cache| - 1 then i else k + 1] == moved[k];
    }
  }

  // An event concerns one request; what the others asked for and how far they are stays.
  lemma {:induction false} OthersStay<N>(s: System<N>, e: Event, render: Request -> N, i: nat)
    requires i < |s.jobs|
    ensures i < |Step(s, e, render).jobs| && Step(s, e, render).jobs[i].request == s.jobs[i].request
    ensures e.Ask? || e.job != i ==> Step(s, e, render).jobs[i] == s.jobs[i]
  {
  }

  // Every task that was enqueued is finished.
  ghost predicate AllFinished<N>(jobs: seq<Job<N>>, order: seq<nat>) {
    forall p | 0 <= p < |order| && order[p] < |jobs| :: IsFinished(jobs[order[p]].stage)
  }

  ghost predicate Idle<N>(s: System<N>) {
    AllFinished(s.jobs, s.order)
  }

  lemma {:induction false} FinishedStay<N>(jobs: seq<Job<N>>, order: seq<nat>, job: nat, stage: Stage<N>)
    requires AllFinished(jobs, order) && job < |jobs| && IsFinished(stage)
    ensures AllFinished(jobs[job := jobs[job].(stage := stage)], order)
  {
  }

  lemma {:induction false} TailIsFinished<N(!new)>(s: System<N>, render: Request -> N)
    requires Invariant(s, render) && Idle(s)
    ensures s.tail.Some? ==> s.tail.value < |s.jobs| && IsFinished(s.jobs[s.tail.value].stage)
  {
    if s.tail.Some? {
      assert s.tail == Before(s.order, |s.order|);
    }
  }

  // A request that nothing else disturbs, up to the end of its task.
  function Task(job: nat, ok: bool): seq<Event> {
    [Enqueue(job), Start(job), Finish(job, ok)]
  }

  function Outcome<N>(job: Job<N>, ok: bool, render: Request -> N): Job<N> {
    job.(stage := if ok then Settled(render(job.request)) else TaskFailed)
  }

  lemma {:induction false} TaskGoesThrough<N>(s: System<N>, job: nat, ok: bool, render: Request -> N)
    requires s.tail.Some? ==> s.tail.value < |s.jobs| && IsFinished(s.jobs[s.tail.value].stage)
    requires job < |s.jobs| && s.jobs[job].stage.Loading?
    ensures Run(s, Task(job, ok), render)
            == System(s.cache, Some(job), s.jobs[job := Outcome(s.jobs[job], ok, render)], s.order + [job])
  {
    RunOfThree(s, Enqueue(job), Start(job), Finish(job, ok), render);
    var s1 := Step(s, Enqueue(job), render);
    var s2 := Step(s1, Start(job), render);
    assert s1.jobs[job].stage == Queued(s.tail);
    assert s2.jobs[job].stage.Running?;
  }

  lemma {:induction false} TaskRuns<N(!new)>(s: System<N>, job: nat, ok: bool, render: Request -> N)
    requires Invariant(s, render) && Idle(s) && job < |s.jobs| && s.jobs[job].stage.Loading?
    ensures var after := Run(s, Task(job, ok), render);
            && after.cache == s.cache && Idle(after) && Invariant(after, render)
            && after.jobs == s.jobs[job := Outcome(s.jobs[job], ok, render)]
  {
    TailIsFinished(s, render);
    TaskGoesThrough(s, job, ok, render);
    RunKeepsInvariant(s, Task(job, ok), render);
    FinishedStay(s.jobs, s.order, job, Outcome(s.jobs[job], ok, render).stage);
  }

  lemma {:induction false} RunOfThree<N>(s: System<N>, a: Event, b: Event, c: Event, render: Request -> N)
    ensures Run(s, [a, b, c], render) == Step(Step(Step(s, a, render), b, render), c, render)
  {
    assert [a, b, c][1..] == [b, c] && [b, c][1..] == [c] && [c][1..] == [];
    var t := Step(s, a, render);
    var u := Step(t, b, render);
    assert Run(u, [c], render) == Step(u, c, render);
    assert Run(t, [b, c], render) == Run(u, [c], render);
  }

  lemma {:induction false} DeliveryIsKept<N(!new)>(ended: System<N>, job: nat, render: Request -> N)
    requires CacheInvariant(ended.cache, render) && Idle(ended)
    requires job < |ended.jobs| && ended.jobs[job].stage.Settled?
    ensures var delivered := Step(ended, Deliver(job), render);
            && Idle(delivered) && HasKey(delivered.cache, CacheKey(ended.jobs[job].request))
            && delivered.jobs == ended.jobs[job := ended.jobs[job].(stage := Delivered(ended.jobs[job].stage.node))]
  {
    var key, node := CacheKey(ended.jobs[job].request), ended.jobs[job].stage.node;
    FinishedStay(ended.jobs, ended.order, job, Delivered(node));
    StoreKeepsTheNewEntry(ended.cache, key, node);
    FoundIffHasKey(Store(ended.cache, key, node), key);
  }

  // A rendering that succeeds is delivered, and every later request for the formula is a hit; one that fails
  // leaves the cache as it was, and the next request can start at once.
  lemma {:induction false} RequestIsServed<N(!new)>(s: System<N>, job: nat, ok: bool, render: Request -> N)
    requires Invariant(s, render) && Idle(s) && job < |s.jobs| && s.jobs[job].stage.Loading?
    ensures var ended := Run(s, Task(job, ok), render);
            var delivered := Step(ended, Deliver(job), render);
            && Idle(ended) && Idle(delivered) && |ended.jobs| == |delivered.jobs| == |s.jobs|
            && if ok then && delivered.jobs[job] == Job(s.jobs[job].request, Delivered(render(s.jobs[job].request)))
                          && HasKey(delivered.cache, CacheKey(s.jobs[job].request))
               else ended.jobs[job].stage.TaskFailed? && delivered == ended && ended.cache == s.cache
  {
    TaskRuns(s, job, ok, render);
    if ok {
      DeliveryIsKept(Run(s, Task(job, ok), render), job, render);
    }
  }
}
