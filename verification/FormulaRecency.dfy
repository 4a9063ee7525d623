// The insertion order of the formula cache is the order of use: eviction drops the entry whose last hit, or
// whose first store when it was never hit, is earliest (frontend/src/mathTypesetting.ts).
module FormulaRecency {
  import opened FormulaKey
  import opened FormulaCache
  import opened Sequences

  // What happens to the cache: a request hits an entry, or a completed rendering is stored.
  datatype Use<N> = HitOf(key: string) | StoreOf(key: string, node: N)

  function UseOn<N>(cache: Cache<N>, use: Use<N>): Cache<N> {
    match use
    case HitOf(key) => if Lookup(cache, key).Some? then Touch(cache, key, Lookup(cache, key).value) else cache
    case StoreOf(key, node) => Store(cache, key, node)
  }

  function After<N>(uses: seq<Use<N>>): Cache<N> {
    if uses == [] then [] else UseOn(After(uses[..|uses| - 1]), uses[|uses| - 1])
  }

  // A hit refreshes its entry. A store refreshes it when the key was absent, not when a second
  // completion finds it present.
  predicate Refreshes<N>(cache: Cache<N>, use: Use<N>, key: string) {
    use.key == key && (use.HitOf? <==> Lookup(cache, key).Some?)
  }

  // The time of the last refresh, -1 when there was none.
  function LastRefresh<N>(uses: seq<Use<N>>, key: string): (time: int)
    ensures -1 <= time < |uses|
  {
    if uses == [] then -1
    else
      var before := uses[..|uses| - 1];
      if Refreshes(After(before), uses[|uses| - 1], key) then |before| else LastRefresh(before, key)
  }

  function Times<N>(uses: seq<Use<N>>): string -> int {
    (key: string) => LastRefresh(uses, key)
  }

  // The entries come in the order of these times.
  ghost predicate InOrder<N>(cache: Cache<N>, time: string -> int) {
    && (forall i | 0 <= i < |cache| :: time(cache[i].0) >= 0)
    && forall i, j | 0 <= i < j < |cache| :: time(cache[i].0) < time(cache[j].0)
  }

  // ---------------------------------------------------------------- one use

  lemma {:induction false} HitMovesToEnd<N>(cache: Cache<N>, key: string)
    requires DistinctKeys(cache) && Lookup(cache, key).Some?
    ensures var i := Position(cache, key);
            Touch(cache, key, cache[i].1) == cache[..i] + cache[i + 1..] + [(key, cache[i].1)]
  {
    PositionFinds(cache, key);
    var shorter := Delete(cache, key);
    PositionFinds(shorter, key);
    assert forall k | 0 <= k < |shorter| :: shorter[k].0 != key;
  }

  // A second completion of a present key leaves the order of the keys as it was.
  lemma {:induction false} SecondStoreKeepsOrder<N>(cache: Cache<N>, key: string, node: N)
    requires DistinctKeys(cache) && |cache| <= FORMULA_CACHE_LIMIT && Lookup(cache, key).Some?
    ensures |Store(cache, key, node)| == |cache|
    ensures forall i | 0 <= i < |cache| :: Store(cache, key, node)[i].0 == cache[i].0
  {
    PositionFinds(cache, key);
  }

  lemma {:induction false} NewEntryIsLast<N>(cache: Cache<N>, key: string, node: N)
    requires DistinctKeys(cache) && |cache| <= FORMULA_CACHE_LIMIT && Lookup(cache, key).None?
    ensures Store(cache, key, node) == (if |cache| < FORMULA_CACHE_LIMIT then cache else cache[1..]) + [(key, node)]
    ensures forall i | 0 <= i < |cache| :: cache[i].0 != key
  {
    PositionFinds(cache, key);
    PositionFinds(cache + [(key, node)], (cache + [(key, node)])[0].0);
  }

  lemma {:induction false} UseKeepsDistinct<N>(cache: Cache<N>, use: Use<N>)
    requires DistinctKeys(cache) && |cache| <= FORMULA_CACHE_LIMIT
    ensures DistinctKeys(UseOn(cache, use)) && |UseOn(cache, use)| <= FORMULA_CACHE_LIMIT
  {
    match use
    case HitOf(key) =>
      if Lookup(cache, key).Some? {
        PositionFinds(cache, key);
        HitMovesToEnd(cache, key);
      }
    case StoreOf(key, node) => StoreKeepsTheNewEntry(cache, key, node);
  }

  lemma {:induction false} AfterIsDistinct<N>(uses: seq<Use<N>>)
    ensures DistinctKeys(After(uses)) && |After(uses)| <= FORMULA_CACHE_LIMIT
  {
    if uses != [] {
      AfterIsDistinct(uses[..|uses| - 1]);
      UseKeepsDistinct(After(uses[..|uses| - 1]), uses[|uses| - 1]);
    }
  }

  lemma {:induction false} MovingKeepsOrder<N>(cache: Cache<N>, moved: Cache<N>, i: nat, was: string -> int,
                                               now: string -> int)
    requires i < |cache| && InOrder(cache, was)
    requires moved == cache[..i] + cache[i + 1..] + [cache[i]]
    requires forall k | 0 <= k < |cache| && k != i :: now(cache[k].0) == was(cache[k].0)
    requires forall k | 0 <= k < |cache| :: was(cache[k].0) < now(cache[i].0)
    ensures InOrder(moved, now)
  {
    var last := |cache| - 1;
    assert forall k | 0 <= k < last :: moved[k] == cache[if k < i then k else k + 1];
    assert moved[last] == cache[i];
  }

  lemma {:induction false} AppendingKeepsOrder<N>(cache: Cache<N>, entry: (string, N), was: string -> int,
                                                  now: string -> int)
    requires InOrder(cache, was)
    requires forall k | 0 <= k < |cache| :: now(cache[k].0) == was(cache[k].0) < now(entry.0)
    requires now(entry.0) >= 0
    ensures InOrder(cache + [entry], now)
  {
  }

  lemma {:induction false} RestIsInOrder<N>(cache: Cache<N>, time: string -> int)
    requires InOrder(cache, time) && cache != []
    ensures InOrder(cache[1..], time)
  {
  }

  // Other keys keep their times.
  lemma {:induction false} LastUse<N>(uses: seq<Use<N>>, use: Use<N>, key: string)
    ensures LastRefresh(uses + [use], key) == if Refreshes(After(uses), use, key) then |uses|
            else LastRefresh(uses, key)
    ensures After(uses + [use]) == UseOn(After(uses), use)
  {
    assert (uses + [use])[..|uses|] == uses;
  }

  lemma {:induction false} OtherKeepsTime<N>(uses: seq<Use<N>>, key: string, other: string)
    requires other != key
    ensures Times(uses + [HitOf(key)])(other) == Times(uses)(other)
  {
    LastUse(uses, HitOf(key), other);
  }

  lemma {:induction false} HitKeepsOrder<N>(uses: seq<Use<N>>, key: string)
    requires DistinctKeys(After(uses)) && InOrder(After(uses), Times(uses)) && Lookup(After(uses), key).Some?
    ensures InOrder(After(uses + [HitOf(key)]), Times(uses + [HitOf(key)]))
  {
    var cache, longer := After(uses), uses + [HitOf(key)];
    var i := Position(cache, key);
    PositionFinds(cache, key);
    HitMovesToEnd(cache, key);
    LastUse(uses, HitOf(key), key);
    forall k | 0 <= k < |cache| && k != i
      ensures Times(longer)(cache[k].0) == Times(uses)(cache[k].0)
    {
      OtherKeepsTime(uses, key, cache[k].0);
    }
    MovingKeepsOrder(cache, After(longer), i, Times(uses), Times(longer));
  }

  // A store refreshes an absent key only.
  lemma {:induction false} StoringKeepsOrder<N>(cache: Cache<N>, key: string, node: N, was: string -> int,
                                                now: string -> int)
    requires DistinctKeys(cache) && |cache| <= FORMULA_CACHE_LIMIT && InOrder(cache, was)
    requires forall k | 0 <= k < |cache| :: now(cache[k].0) == was(cache[k].0)
    requires Lookup(cache, key).None? ==> now(key) >= 0 && forall k | 0 <= k < |cache| :: was(cache[k].0) < now(key)
    ensures InOrder(Store(cache, key, node), now)
  {
    if Lookup(cache, key).Some? {
      SecondStoreKeepsOrder(cache, key, node);
    } else {
      NewEntryIsLast(cache, key, node);
      AppendingKeepsOrder(cache, (key, node), was, now);
      if |cache| == FORMULA_CACHE_LIMIT {
        RestIsInOrder(cache + [(key, node)], now);
        assert (cache + [(key, node)])[1..] == cache[1..] + [(key, node)];
      }
    }
  }

  lemma {:induction false} StoreKeepsOrder<N>(uses: seq<Use<N>>, key: string, node: N)
    requires DistinctKeys(After(uses)) && |After(uses)| <= FORMULA_CACHE_LIMIT && InOrder(After(uses), Times(uses))
    ensures InOrder(After(uses + [StoreOf(key, node)]), Times(uses + [StoreOf(key, node)]))
  {
    var cache, longer := After(uses), uses + [StoreOf(key, node)];
    LastUse(uses, StoreOf(key, node), key);
    forall k | 0 <= k < |cache|
      ensures Times(longer)(cache[k].0) == Times(uses)(cache[k].0)
    {
      LastUse(uses, StoreOf(key, node), cache[k].0);
      PresentKeys(cache, k);
    }
    StoringKeepsOrder(cache, key, node, Times(uses), Times(longer));
  }

  lemma {:induction false} PresentKeys<N>(cache: Cache<N>, k: nat)
    requires DistinctKeys(cache) && k < |cache|
    ensures Lookup(cache, cache[k].0).Some?
  {
    PositionFinds(cache, cache[k].0);
  }

  // After any uses the entries are in the order of their last refresh.
  lemma {:induction false} OrderIsRecency<N>(uses: seq<Use<N>>)
    ensures InOrder(After(uses), Times(uses))
  {
    if uses != [] {
      var before, use := uses[..|uses| - 1], uses[|uses| - 1];
      OrderIsRecency(before);
      AfterIsDistinct(before);
      assert uses == before + [use];
      if use.StoreOf? {
        StoreKeepsOrder(before, use.key, use.node);
      } else if Lookup(After(before), use.key).Some? {
        HitKeepsOrder(before, use.key);
      } else {
        MissChangesNothing(before, use);
      }
    }
  }

  lemma {:induction false} MissChangesNothing<N>(uses: seq<Use<N>>, use: Use<N>)
    requires use.HitOf? && Lookup(After(uses), use.key).None?
    ensures After(uses + [use]) == After(uses)
    ensures forall key :: Times(uses + [use])(key) == Times(uses)(key)
  {
    forall key
      ensures LastRefresh(uses + [use], key) == LastRefresh(uses, key)
    {
      LastUse(uses, use, key);
    }
    LastUse(uses, use, use.key);
  }

  // The entry that is first leaves a full cache when a new key is stored, and no other ever does.
  lemma {:induction false} StoreDropsFirst<N>(cache: Cache<N>, key: string, node: N, other: string)
    requires DistinctKeys(cache) && |cache| <= FORMULA_CACHE_LIMIT && Lookup(cache, other).Some?
    ensures Lookup(Store(cache, key, node), other).None?
       <==> |cache| == FORMULA_CACHE_LIMIT && Lookup(cache, key).None? && cache[0].0 == other
  {
    PositionFinds(cache, other);
    var place := Position(cache, other);
    var stored := Store(cache, key, node);
    PositionFinds(stored, other);
    if Lookup(cache, key).Some? {
      SecondStoreKeepsOrder(cache, key, node);
      assert stored[place].0 == other;
    } else {
      NewEntryIsLast(cache, key, node);
      if |cache| < FORMULA_CACHE_LIMIT {
        assert stored[place] == cache[place];
      } else if place > 0 {
        assert stored[place - 1] == cache[place];
      } else {
        assert forall i | 0 <= i < |stored| :: stored[i].0 != other;
      }
    }
  }

  ghost predicate LeastRecent<N>(cache: Cache<N>, time: string -> int, key: string) {
    forall i | 0 <= i < |cache| && cache[i].0 != key :: time(key) < time(cache[i].0)
  }

  lemma {:induction false} FirstIsLeastRecent<N>(cache: Cache<N>, time: string -> int, key: string)
    requires DistinctKeys(cache) && InOrder(cache, time) && Lookup(cache, key).Some?
    ensures cache[0].0 == key <==> LeastRecent(cache, time, key)
  {
    PositionFinds(cache, key);
    assert cache[Position(cache, key)].0 == key;
  }

  // A store drops an entry exactly when the cache is full, the key is absent, and every other entry was
  // refreshed later.
  lemma {:induction false} EvictionDropsLeastRecent<N>(uses: seq<Use<N>>, key: string, node: N, other: string)
    requires Lookup(After(uses), other).Some?
    ensures Lookup(After(uses + [StoreOf(key, node)]), other).None?
       <==> && |After(uses)| == FORMULA_CACHE_LIMIT && Lookup(After(uses), key).None?
            && LeastRecent(After(uses), Times(uses), other)
  {
    LastUse(uses, StoreOf(key, node), key);
    OrderIsRecency(uses);
    AfterIsDistinct(uses);
    StoreDropsFirst(After(uses), key, node, other);
    FirstIsLeastRecent(After(uses), Times(uses), other);
  }

  // ---------------------------------------------------------------- runs

  function UseBy<N>(s: System<N>, e: Event): seq<Use<N>> {
    if !Enabled(s, e) then []
    else match e
      case Ask(request) => [HitOf(CacheKey(request))]
      case Deliver(job) => [StoreOf(CacheKey(s.jobs[job].request), s.jobs[job].stage.node)]
      case _ => []
  }

  function UsesOf<N>(s: System<N>, events: seq<Event>, render: Request -> N): seq<Use<N>>
    decreases |events|
  {
    if events == [] then [] else UseBy(s, events[0]) + UsesOf(Step(s, events[0], render), events[1..], render)
  }

  lemma {:induction false} RunIsUses<N>(s: System<N>, before: seq<Use<N>>, events: seq<Event>, render: Request -> N)
    requires s.cache == After(before)
    ensures Run(s, events, render).cache == After(before + UsesOf(s, events, render))
    decreases |events|
  {
    if events == [] {
      assert before + [] == before;
    } else {
      var next, rest := Step(s, events[0], render), events[1..];
      StepIsUse(s, before, events[0], render);
      RunIsUses(next, before + UseBy(s, events[0]), rest, render);
      UsesUnfold(s, next, events, render);
      Assoc3(before, UseBy(s, events[0]), UsesOf(next, rest, render));
    }
  }

  lemma {:induction false} UsesUnfold<N>(s: System<N>, next: System<N>, events: seq<Event>, render: Request -> N)
    requires events != [] && next == Step(s, events[0], render)
    ensures UsesOf(s, events, render) == UseBy(s, events[0]) + UsesOf(next, events[1..], render)
    ensures Run(s, events, render) == Run(next, events[1..], render)
  {
  }

  lemma {:induction false} StepIsUse<N>(s: System<N>, before: seq<Use<N>>, e: Event, render: Request -> N)
    requires s.cache == After(before)
    ensures Step(s, e, render).cache == After(before + UseBy(s, e))
  {
    var use := UseBy(s, e);
    if use == [] {
      assert before + use == before;
    } else {
      assert (before + use)[..|before|] == before && (before + use)[|before|] == use[0];
    }
  }

  // Whatever is interleaved with what, the cache is in the order of use.
  lemma {:induction false} RunsKeepRecency<N>(events: seq<Event>, render: Request -> N)
    ensures InOrder(Run(Initial(), events, render).cache, Times(UsesOf(Initial(), events, render)))
  {
    RunIsUses(Initial(), [], events, render);
    var uses := UsesOf(Initial(), events, render);
    assert [] + uses == uses;
    OrderIsRecency(uses);
  }
}
