/** Ordered expectations of mock functions: sequences build a graph of prerequisites, calls retire what came before.
    An expectation is named by its position in the order of creation. */
module ExpectationOrder {

  /** The immediate prerequisites of each expectation. */
  type Graph = seq<set<nat>>

  /** How often an expectation may be called, and whether it retires once it has been called often enough. */
  datatype Spec = Spec(min: nat, max: nat, retiresOnSaturation: bool)

  predicate IsSatisfied(spec: Spec, calls: nat) {
    spec.min <= calls <= spec.max
  }

  predicate IsSaturated(spec: Spec, calls: nat) {
    calls >= spec.max
  }

  /** Prerequisites were created earlier, so there are no cycles. */
  ghost predicate Acyclic(g: Graph) {
    forall e, p :: 0 <= e < |g| && p in g[e] ==> p < e
  }

  /** `q` is a prerequisite of `e`, directly or through others. */
  ghost predicate Precedes(g: Graph, q: nat, e: nat)
    requires Acyclic(g) && e < |g|
    decreases e
  {
    q in g[e] || exists p :: p in g[e] && Precedes(g, q, p)
  }

  lemma {:induction false} PrecedesIsEarlier(g: Graph, q: nat, e: nat)
    requires Acyclic(g) && e < |g| && Precedes(g, q, e)
    ensures q < e
    decreases e
  {
    if q !in g[e] {
      var p :| p in g[e] && Precedes(g, q, p);
      PrecedesIsEarlier(g, q, p);
    }
  }

  lemma {:induction false} PrecedesTransitively(g: Graph, q: nat, p: nat, e: nat)
    requires Acyclic(g) && p < |g| && e < |g| && Precedes(g, q, p) && Precedes(g, p, e)
    ensures Precedes(g, q, e)
    decreases e
  {
    if p !in g[e] {
      var r :| r in g[e] && Precedes(g, p, r);
      PrecedesTransitively(g, q, p, r);
    }
  }

  /** More prerequisites for the newest expectation do not concern older ones. */
  lemma {:induction false} OlderUnaffected(g: Graph, g': Graph, q: nat, e: nat)
    requires Acyclic(g) && Acyclic(g') && e < |g| && e < |g'|
    requires forall x :: 0 <= x <= e ==> g'[x] == g[x]
    ensures Precedes(g', q, e) <==> Precedes(g, q, e)
    decreases e
  {
    forall p | p in g[e] ensures Precedes(g', q, p) <==> Precedes(g, q, p) {
      OlderUnaffected(g, g', q, p);
    }
  }

  // ----- Retirement -----

  /** No expectation is retired before its prerequisites. */
  ghost predicate RetiredInOrder(g: Graph, retired: seq<bool>) {
    |retired| == |g| && forall e, p :: 0 <= e < |g| && retired[e] && p in g[e] && p < |g| ==> retired[p]
  }

  lemma {:induction false} RetiredMeansAllRetired(g: Graph, retired: seq<bool>, q: nat, e: nat)
    requires Acyclic(g) && RetiredInOrder(g, retired) && e < |g| && retired[e] && Precedes(g, q, e)
    ensures q < |g| && retired[q]
    decreases e
  {
    if q !in g[e] {
      var p :| p in g[e] && Precedes(g, q, p);
      RetiredMeansAllRetired(g, retired, q, p);
    }
  }

  /** `retired'` is `retired` with everything retired that `e` depends on. */
  ghost predicate RetiresBefore(g: Graph, retired: seq<bool>, retired': seq<bool>, e: nat)
    requires Acyclic(g) && e < |g|
  {
    && |retired| == |retired'| == |g|
    && forall q :: 0 <= q < |g| ==> (retired'[q] <==> retired[q] || Precedes(g, q, e))
  }

  /** `q` is one of `done` or a prerequisite of one of them. */
  ghost predicate Covered(g: Graph, q: nat, done: set<nat>)
    requires Acyclic(g)
  {
    exists p :: p in done && p < |g| && (q == p || Precedes(g, q, p))
  }

  lemma CoveredByAll(g: Graph, q: nat, e: nat)
    requires Acyclic(g) && e < |g|
    ensures Covered(g, q, g[e]) <==> Precedes(g, q, e)
  {
    if q in g[e] { assert q < |g|; }
  }

  lemma CoveredByOneMore(g: Graph, q: nat, done: set<nat>, p: nat)
    requires Acyclic(g) && p < |g|
    ensures Covered(g, q, done + {p}) <==> Covered(g, q, done) || q == p || Precedes(g, q, p)
  {
    if Covered(g, q, done) {
      var r :| r in done && r < |g| && (q == r || Precedes(g, q, r));
      assert r in done + {p};
    }
    if q == p || Precedes(g, q, p) { assert p in done + {p}; }
  }

  /** One step of the loop over the prerequisites: `p` and everything before it is retired now. */
  lemma RetiredOneMore(g: Graph, before: seq<bool>, now: seq<bool>, done: set<nat>, p: nat, after: seq<bool>)
    requires Acyclic(g) && p < |g| && |before| == |now| == |after| == |g| && RetiredInOrder(g, now)
    requires forall q :: 0 <= q < |g| ==> (now[q] <==> before[q] || Covered(g, q, done))
    requires if now[p] then after == now
             else exists deep: seq<bool> :: RetiresBefore(g, now, deep, p) && RetiredInOrder(g, deep) && after == deep[p := true]
    ensures RetiredInOrder(g, after)
    ensures forall q :: 0 <= q < |g| ==> (after[q] <==> before[q] || Covered(g, q, done + {p}))
  {
    forall q | 0 <= q < |g| ensures after[q] <==> before[q] || Covered(g, q, done + {p}) {
      CoveredByOneMore(g, q, done, p);
      if now[p] && Precedes(g, q, p) { RetiredMeansAllRetired(g, now, q, p); }
    }
    forall r | r in g[p] ensures Precedes(g, r, p) {}
  }

  // ----- Satisfaction -----

  ghost predicate AllSatisfied(g: Graph, specs: seq<Spec>, calls: seq<nat>, e: nat)
    requires Acyclic(g) && |specs| == |calls| == |g| && e < |g|
  {
    forall q :: 0 <= q < |g| && Precedes(g, q, e) ==> specs[q].min <= calls[q] <= specs[q].max
  }

  /** `q` is blamed for `e`: an unsatisfied prerequisite, reached through satisfied ones that were never called. */
  ghost predicate Blames(g: Graph, specs: seq<Spec>, calls: seq<nat>, q: nat, e: nat)
    requires Acyclic(g) && |specs| == |calls| == |g| && e < |g|
    decreases e
  {
    exists p :: p in g[e] &&
      if IsSatisfied(specs[p], calls[p]) then calls[p] == 0 && Blames(g, specs, calls, q, p) else q == p
  }

  /** Whatever may be called at all and was called had all its prerequisites satisfied, and they are out of reach since. */
  ghost predicate CalledInOrder(g: Graph, specs: seq<Spec>, calls: seq<nat>, retired: seq<bool>)
    requires Acyclic(g) && |specs| == |calls| == |retired| == |g|
  {
    forall e, q :: 0 <= e < |g| && 0 <= q < |g| && 0 < calls[e] && 0 < specs[e].max && Precedes(g, q, e) ==>
      retired[q] && IsSatisfied(specs[q], calls[q])
  }

  lemma {:induction false} BlamedIsUnsatisfied(g: Graph, specs: seq<Spec>, calls: seq<nat>, q: nat, e: nat)
    requires Acyclic(g) && |specs| == |calls| == |g| && e < |g| && Blames(g, specs, calls, q, e)
    ensures Precedes(g, q, e) && q < |g| && !IsSatisfied(specs[q], calls[q])
    decreases e
  {
    var p :| p in g[e] &&
      if IsSatisfied(specs[p], calls[p]) then calls[p] == 0 && Blames(g, specs, calls, q, p) else q == p;
    if IsSatisfied(specs[p], calls[p]) { BlamedIsUnsatisfied(g, specs, calls, q, p); }
  }

  lemma NotAllSatisfied(g: Graph, specs: seq<Spec>, calls: seq<nat>, u: nat, e: nat)
    requires Acyclic(g) && |specs| == |calls| == |g| && e < |g| && u < |g|
    requires Precedes(g, u, e) && !IsSatisfied(specs[u], calls[u])
    ensures !AllSatisfied(g, specs, calls, e)
  {
  }

  /** The shortcut past called prerequisites is sound: if anything is unsatisfied, something is blamed. */
  lemma {:induction false} SomethingIsBlamed(g: Graph, specs: seq<Spec>, calls: seq<nat>, retired: seq<bool>, e: nat)
    requires Acyclic(g) && |specs| == |calls| == |retired| == |g| && e < |g|
    requires CalledInOrder(g, specs, calls, retired) && !AllSatisfied(g, specs, calls, e)
    ensures exists q :: Blames(g, specs, calls, q, e)
    decreases e
  {
    var u :| 0 <= u < |g| && Precedes(g, u, e) && !IsSatisfied(specs[u], calls[u]);
    var p: nat;
    if u in g[e] { p := u; } else { p :| p in g[e] && Precedes(g, u, p); }
    if IsSatisfied(specs[p], calls[p]) {
      assert calls[p] == 0;
      NotAllSatisfied(g, specs, calls, u, p);
      SomethingIsBlamed(g, specs, calls, retired, p);
      var q :| Blames(g, specs, calls, q, p);
      assert Blames(g, specs, calls, q, e);
    } else {
      assert Blames(g, specs, calls, p, e);
    }
  }

  // ----- Runs of calls -----

  /** How far a run has come. */
  datatype Progress = Progress(calls: seq<nat>, retired: seq<bool>)

  ghost predicate Fits(g: Graph, specs: seq<Spec>, s: Progress) {
    Acyclic(g) && |specs| == |s.calls| == |s.retired| == |g|
  }

  ghost predicate InOrder(g: Graph, specs: seq<Spec>, s: Progress) {
    Fits(g, specs, s) && RetiredInOrder(g, s.retired) && CalledInOrder(g, specs, s.calls, s.retired)
  }

  /** A matching call would be handled by `e`. */
  ghost predicate Callable(g: Graph, specs: seq<Spec>, s: Progress, e: nat)
    requires Fits(g, specs, s)
  {
    e < |g| && !s.retired[e] && AllSatisfied(g, specs, s.calls, e)
  }

  /** An expected call retires what came before, and possibly the expectation itself; an excessive call only counts. */
  ghost function Called(g: Graph, specs: seq<Spec>, s: Progress, e: nat): (s': Progress)
    requires Fits(g, specs, s) && e < |g|
    ensures Fits(g, specs, s')
  {
    var calls := s.calls[e := s.calls[e] + 1];
    Progress(calls,
             if IsSaturated(specs[e], s.calls[e]) then s.retired
             else seq(|g|, q requires 0 <= q < |g| =>
                        s.retired[q] || Precedes(g, q, e)
                        || (q == e && specs[e].retiresOnSaturation && IsSaturated(specs[e], calls[e]))))
  }

  ghost predicate Allowed(g: Graph, specs: seq<Spec>, s: Progress, run: seq<nat>)
    requires Fits(g, specs, s)
    decreases |run|
  {
    run == [] || (Callable(g, specs, s, run[0]) && Allowed(g, specs, Called(g, specs, s, run[0]), run[1..]))
  }

  ghost function After(g: Graph, specs: seq<Spec>, s: Progress, run: seq<nat>): (s': Progress)
    requires Fits(g, specs, s) && Allowed(g, specs, s, run)
    ensures Fits(g, specs, s')
    decreases |run|
  {
    if run == [] then s else After(g, specs, Called(g, specs, s, run[0]), run[1..])
  }

  /** `q` can be called once too often, rather than retire when it has been called often enough. */
  predicate CanExceed(specs: seq<Spec>, s: Progress, q: nat)
    requires q < |specs| && q < |s.calls| && q < |s.retired|
  {
    !s.retired[q] && !(specs[q].retiresOnSaturation && s.calls[q] < specs[q].max)
  }

  /** A call that was allowed keeps the order of calls and of retirement. */
  lemma CallKeepsOrder(g: Graph, specs: seq<Spec>, s: Progress, e: nat)
    requires InOrder(g, specs, s) && Callable(g, specs, s, e)
    ensures InOrder(g, specs, Called(g, specs, s, e))
  {
    NotBeforeItself(g, e);
    var s' := Called(g, specs, s, e);
    forall x, p | 0 <= x < |g| && s'.retired[x] && p in g[x] && p < |g| ensures s'.retired[p] {
      assert Precedes(g, p, x);
      if Precedes(g, x, e) { PrecedesTransitively(g, p, x, e); }
    }
  }

  /** In every run, what may be called at all and was called keeps having all its prerequisites satisfied. */
  lemma {:induction false} RunKeepsVouching(g: Graph, specs: seq<Spec>, s: Progress, run: seq<nat>, e: nat)
    requires InOrder(g, specs, s) && Allowed(g, specs, s, run)
    requires e < |g| && s.calls[e] > 0 && specs[e].max > 0
    ensures InOrder(g, specs, After(g, specs, s, run)) && AllSatisfied(g, specs, After(g, specs, s, run).calls, e)
    decreases |run|
  {
    if run != [] {
      CallKeepsOrder(g, specs, s, run[0]);
      RunKeepsVouching(g, specs, Called(g, specs, s, run[0]), run[1..], e);
    }
  }

  /** No prerequisite of `e` can be called once too often. */
  ghost predicate NoneCanExceed(g: Graph, specs: seq<Spec>, s: Progress, e: nat)
    requires Fits(g, specs, s) && e < |g|
  {
    forall q :: 0 <= q < |g| && Precedes(g, q, e) ==> !CanExceed(specs, s, q)
  }

  lemma CallKeepsLimits(g: Graph, specs: seq<Spec>, s: Progress, k: nat, e: nat)
    requires Fits(g, specs, s) && e < |g| && Callable(g, specs, s, k)
    requires NoneCanExceed(g, specs, s, e) && AllSatisfied(g, specs, s.calls, e)
    ensures NoneCanExceed(g, specs, Called(g, specs, s, k), e)
    ensures AllSatisfied(g, specs, Called(g, specs, s, k).calls, e)
  {
  }

  lemma {:induction false} RunKeepsLimits(g: Graph, specs: seq<Spec>, s: Progress, run: seq<nat>, e: nat)
    requires Fits(g, specs, s) && e < |g| && Allowed(g, specs, s, run)
    requires NoneCanExceed(g, specs, s, e) && AllSatisfied(g, specs, s.calls, e)
    ensures AllSatisfied(g, specs, After(g, specs, s, run).calls, e)
    decreases |run|
  {
    hide NoneCanExceed, AllSatisfied, Precedes;
    if run != [] {
      CallKeepsLimits(g, specs, s, run[0], e);
      RunKeepsLimits(g, specs, Called(g, specs, s, run[0]), run[1..], e);
    }
  }

  ghost function Repeated(q: nat, n: nat): seq<nat> {
    if n == 0 then [] else [q] + Repeated(q, n - 1)
  }

  /** What can be called once too often can be called any number of times in a row. */
  lemma {:induction false} Exceeds(g: Graph, specs: seq<Spec>, s: Progress, q: nat, n: nat)
    requires Fits(g, specs, s) && Callable(g, specs, s, q) && CanExceed(specs, s, q)
    ensures Allowed(g, specs, s, Repeated(q, n))
    ensures After(g, specs, s, Repeated(q, n)).calls[q] == s.calls[q] + n
    decreases n
  {
    if n > 0 {
      var s' := Called(g, specs, s, q);
      NotBeforeItself(g, q);
      Exceeds(g, specs, s', q, n - 1);
      assert Repeated(q, n)[1..] == Repeated(q, n - 1);
    }
  }

  /** An excessive first call leaves a prerequisite callable, and so it can be called once too often. */
  lemma ExcessBreaksVouching(g: Graph, specs: seq<Spec>, s: Progress, e: nat, q: nat) returns (later: seq<nat>)
    requires InOrder(g, specs, s) && Callable(g, specs, s, e) && specs[e].max == 0
    requires q < |g| && Precedes(g, q, e) && CanExceed(specs, s, q)
    ensures Allowed(g, specs, Called(g, specs, s, e), later)
    ensures !AllSatisfied(g, specs, After(g, specs, Called(g, specs, s, e), later).calls, e)
  {
    var s' := Called(g, specs, s, e);
    PrecedesIsEarlier(g, q, e);
    forall r | 0 <= r < |g| && Precedes(g, r, q) ensures IsSatisfied(specs[r], s'.calls[r]) {
      PrecedesIsEarlier(g, r, q);
      PrecedesTransitively(g, r, q, e);
    }
    var n: nat := specs[q].max - s.calls[q] + 1;
    later := Repeated(q, n);
    Exceeds(g, specs, s', q, n);
  }

  /** A call of `e` vouches for its prerequisites in every continuation of the run if and only if `e` may be called at all
      or none of its prerequisites can be called once too often. */
  lemma CallVouchesExactly(g: Graph, specs: seq<Spec>, s: Progress, e: nat)
    requires InOrder(g, specs, s) && Callable(g, specs, s, e)
    ensures (forall later :: Allowed(g, specs, Called(g, specs, s, e), later) ==>
               AllSatisfied(g, specs, After(g, specs, Called(g, specs, s, e), later).calls, e))
       <==> specs[e].max > 0 || NoneCanExceed(g, specs, s, e)
  {
    hide AllSatisfied, Precedes, CalledInOrder, Allowed, After, RetiredInOrder;
    var s' := Called(g, specs, s, e);
    CallKeepsOrder(g, specs, s, e);
    if specs[e].max > 0 {
      forall later | Allowed(g, specs, s', later) ensures AllSatisfied(g, specs, After(g, specs, s', later).calls, e) {
        RunKeepsVouching(g, specs, s', later, e);
      }
    } else if NoneCanExceed(g, specs, s, e) {
      CallKeepsLimits(g, specs, s, e, e);
      forall later | Allowed(g, specs, s', later) ensures AllSatisfied(g, specs, After(g, specs, s', later).calls, e) {
        RunKeepsLimits(g, specs, s', later, e);
      }
    } else {
      var q :| 0 <= q < |g| && Precedes(g, q, e) && CanExceed(specs, s, q);
      var later := ExcessBreaksVouching(g, specs, s, e, q);
    }
  }

  // ----- The objects -----

  class ExpectationRegistry {
    var graph: seq<set<nat>>
    var specs: seq<Spec>
    var calls: seq<nat>
    var retired: seq<bool>

    ghost predicate Shaped()
      reads this
    {
      Acyclic(graph) && |specs| == |calls| == |retired| == |graph|
    }

    /** What holds in every run. */
    ghost predicate Valid()
      reads this
    {
      Shaped() && RetiredInOrder(graph, retired) && CalledInOrder(graph, specs, calls, retired)
    }

    constructor ()
      ensures Valid() && graph == []
    {
      graph, specs, calls, retired := [], [], [], [];
    }

    /** A new expectation, the newest one, without prerequisites so far. */
    method AddNewExpectation(spec: Spec) returns (e: nat)
      requires Valid()
      modifies this
      ensures Valid() && e == |old(graph)|
      ensures graph == old(graph) + [{}] && specs == old(specs) + [spec]
      ensures calls == old(calls) + [0] && retired == old(retired) + [false]
    {
      e := |graph|;
      graph, specs, calls, retired := graph + [{}], specs + [spec], calls + [0], retired + [false];
      GraphExtended(old(graph), graph, e);
    }

    /** A prerequisite for an expectation that is still being set up. */
    method AddPrerequisite(p: nat, e: nat)
      requires Valid() && e + 1 == |graph| && p < e && calls[e] == 0 && !retired[e]
      modifies this`graph
      ensures Valid() && graph == old(graph)[e := old(graph)[e] + {p}]
    {
      graph := graph[e := graph[e] + {p}];
      GraphExtended(old(graph), graph, e);
    }

    method RetireAllPreRequisites(e: nat)
      requires Shaped() && RetiredInOrder(graph, retired) && e < |graph|
      modifies this`retired
      ensures |retired| == |graph| && RetiresBefore(graph, old(retired), retired, e)
      ensures RetiredInOrder(graph, retired)
      decreases e
    {
      if retired[e] {
        forall q | 0 <= q < |graph| && Precedes(graph, q, e) ensures retired[q] {
          RetiredMeansAllRetired(graph, retired, q, e);
        }
        return;
      }
      ghost var before := retired;
      var todo := graph[e];
      NothingCovered(graph);
      while todo != {}
        invariant todo <= graph[e] && Shaped() && RetiredInOrder(graph, retired)
        invariant forall q :: 0 <= q < |graph| ==> (retired[q] <==> before[q] || Covered(graph, q, graph[e] - todo))
        decreases todo
      {
        hide Covered, Precedes;
        var p :| p in todo;
        ghost var now := retired;
        if !retired[p] {
          RetireAllPreRequisites(p);
          retired := retired[p := true];
        }
        RetiredOneMore(graph, before, now, graph[e] - todo, p, retired);
        assert graph[e] - (todo - {p}) == graph[e] - todo + {p};
        todo := todo - {p};
      }
      assert graph[e] - {} == graph[e];
      forall q | 0 <= q < |graph| ensures Covered(graph, q, graph[e]) <==> Precedes(graph, q, e) {
        CoveredByAll(graph, q, e);
      }
    }

    method AllPrerequisitesAreSatisfied(e: nat) returns (ok: bool)
      requires Shaped() && e < |graph|
      ensures ok <==> AllSatisfied(graph, specs, calls, e)
      decreases e
    {
      var todo := graph[e];
      while todo != {}
        invariant todo <= graph[e]
        invariant forall p :: p in graph[e] - todo ==>
                    IsSatisfied(specs[p], calls[p]) && AllSatisfied(graph, specs, calls, p)
        decreases todo
      {
        var p :| p in todo;
        var deep := false;
        if IsSatisfied(specs[p], calls[p]) {
          deep := AllPrerequisitesAreSatisfied(p);
        }
        if !deep {
          SomethingUnsatisfied(graph, specs, calls, p, e);
          return false;
        }
        todo := todo - {p};
      }
      assert graph[e] - todo == graph[e];
      return true;
    }

    /** Adds to `result` the prerequisites to blame. */
    method FindUnsatisfiedPrerequisites(e: nat, result: set<nat>) returns (result': set<nat>)
      requires Shaped() && e < |graph|
      ensures forall q :: q in result' <==> q in result || Blames(graph, specs, calls, q, e)
      decreases e
    {
      result' := result;
      var todo := graph[e];
      while todo != {}
        invariant todo <= graph[e]
        invariant forall q :: q in result' <==> q in result || BlamedAmong(graph, specs, calls, q, graph[e] - todo)
        decreases todo
      {
        var p :| p in todo;
        ghost var before, done := result', graph[e] - todo;
        if IsSatisfied(specs[p], calls[p]) {
          if calls[p] == 0 {
            result' := FindUnsatisfiedPrerequisites(p, result');
          }
        } else {
          result' := result' + {p};
        }
        BlamedAmongOneMore(graph, specs, calls, done, p);
        assert graph[e] - (todo - {p}) == done + {p};
        todo := todo - {p};
      }
      assert graph[e] - {} == graph[e];
    }

    /** The explanation of a refused call names a culprit exactly when there is one. */
    method Explain(e: nat) returns (culprits: set<nat>)
      requires Valid() && e < |graph|
      ensures culprits == {} <==> AllSatisfied(graph, specs, calls, e)
      ensures forall q :: q in culprits ==> q < |graph| && Precedes(graph, q, e) && !(specs[q].min <= calls[q] <= specs[q].max)
    {
      culprits := FindUnsatisfiedPrerequisites(e, {});
      forall q | q in culprits ensures Precedes(graph, q, e) && q < |graph| && !IsSatisfied(specs[q], calls[q]) {
        BlamedIsUnsatisfied(graph, specs, calls, q, e);
      }
      if !AllSatisfied(graph, specs, calls, e) {
        SomethingIsBlamed(graph, specs, calls, retired, e);
      }
    }

    method ShouldHandleArguments(e: nat, matches: bool) returns (ok: bool)
      requires Shaped() && e < |graph|
      ensures ok <==> !retired[e] && AllSatisfied(graph, specs, calls, e) && matches
    {
      ok := false;
      if !retired[e] {
        ok := AllPrerequisitesAreSatisfied(e);
        ok := ok && matches;
      }
    }

    /** Counts a call to an expectation that should handle it. False for a call that is one too many. */
    method GetActionForArguments(e: nat) returns (expected: bool)
      requires Valid() && e < |graph| && !retired[e] && AllSatisfied(graph, specs, calls, e)
      modifies this`calls, this`retired
      ensures Valid() && (expected == !(old(calls[e]) >= specs[e].max))
      ensures Progress(calls, retired) == Called(graph, specs, Progress(old(calls), old(retired)), e)
      ensures calls == old(calls)[e := old(calls[e]) + 1]
      ensures !expected ==> retired == old(retired)
      ensures expected ==>
                forall q :: 0 <= q < |graph| ==>
                  (retired[q] <==> old(retired[q]) || Precedes(graph, q, e)
                                   || (q == e && specs[e].retiresOnSaturation && calls[e] >= specs[e].max))
    {
      ghost var before := Progress(calls, retired);
      CallKeepsOrder(graph, specs, before, e);
      expected := !IsSaturated(specs[e], calls[e]);
      calls := calls[e := calls[e] + 1];
      NotBeforeItself(graph, e);
      if expected {
        RetireAllPreRequisites(e);
        if specs[e].retiresOnSaturation && IsSaturated(specs[e], calls[e]) {
          retired := retired[e := true];
        }
      }
      assert Progress(calls, retired) == Called(graph, specs, before, e);
    }
  }

  lemma NothingCovered(g: Graph)
    requires Acyclic(g)
    ensures forall q :: 0 <= q < |g| ==> !Covered(g, q, {})
  {
  }

  lemma NotBeforeItself(g: Graph, e: nat)
    requires Acyclic(g) && e < |g|
    ensures !Precedes(g, e, e)
  {
    if Precedes(g, e, e) { PrecedesIsEarlier(g, e, e); }
  }

  lemma SomethingUnsatisfied(g: Graph, specs: seq<Spec>, calls: seq<nat>, p: nat, e: nat)
    requires Acyclic(g) && |specs| == |calls| == |g| && e < |g| && p in g[e]
    requires !IsSatisfied(specs[p], calls[p]) || !AllSatisfied(g, specs, calls, p)
    ensures !AllSatisfied(g, specs, calls, e)
  {
    assert Precedes(g, p, e);
    if IsSatisfied(specs[p], calls[p]) {
      var q :| 0 <= q < |g| && Precedes(g, q, p) && !IsSatisfied(specs[q], calls[q]);
      assert Precedes(g, q, e);
    }
  }

  /** `q` is blamed on account of one of `done`. */
  ghost predicate BlamedAmong(g: Graph, specs: seq<Spec>, calls: seq<nat>, q: nat, done: set<nat>)
    requires Acyclic(g) && |specs| == |calls| == |g|
  {
    exists p :: p in done && p < |g| &&
      if IsSatisfied(specs[p], calls[p]) then calls[p] == 0 && Blames(g, specs, calls, q, p) else q == p
  }

  lemma BlamedAmongOneMore(g: Graph, specs: seq<Spec>, calls: seq<nat>, done: set<nat>, p: nat)
    requires Acyclic(g) && |specs| == |calls| == |g| && p < |g|
    ensures forall q :: BlamedAmong(g, specs, calls, q, done + {p}) <==>
              || BlamedAmong(g, specs, calls, q, done)
              || (if IsSatisfied(specs[p], calls[p]) then calls[p] == 0 && Blames(g, specs, calls, q, p) else q == p)
  {
    assert p in done + {p};
    assert forall r :: r in done ==> r in done + {p};
  }

  /** A change to the newest expectation only. */
  lemma GraphExtended(g: Graph, g': Graph, e: nat)
    requires Acyclic(g) && e + 1 == |g'| && e <= |g| && forall x :: 0 <= x < e ==> x < |g| && g'[x] == g[x]
    requires forall p :: p in g'[e] ==> p < e
    ensures Acyclic(g')
    ensures forall x, q :: 0 <= x < e && 0 <= q < e ==> (Precedes(g', q, x) <==> Precedes(g, q, x))
    ensures forall x :: 0 <= x < e ==> !Precedes(g', e, x)
  {
    forall x, q | 0 <= x < e && 0 <= q < e ensures Precedes(g', q, x) <==> Precedes(g, q, x) {
      OlderUnaffected(g, g', q, x);
    }
    forall x | 0 <= x < e ensures !Precedes(g', e, x) {
      if Precedes(g', e, x) { PrecedesIsEarlier(g', e, x); }
    }
  }

  // ----- Sequences -----

  /** Each member of a sequence is an immediate prerequisite of the next. */
  ghost predicate Chained(g: Graph, members: seq<nat>) {
    && (forall i :: 0 <= i < |members| ==> members[i] < |g|)
    && (forall i :: 0 <= i < |members| - 1 ==> members[i] in g[members[i + 1]])
  }

  /** Every earlier member of a sequence is a prerequisite of every later one. */
  lemma {:induction false} EarlierMembersPrecede(g: Graph, members: seq<nat>, i: nat, j: nat)
    requires Acyclic(g) && Chained(g, members) && i < j < |members|
    ensures Precedes(g, members[i], members[j])
    decreases j
  {
    assert members[j - 1] in g[members[j - 1 + 1]];
    if i < j - 1 {
      EarlierMembersPrecede(g, members, i, j - 1);
      PrecedesTransitively(g, members[i], members[j - 1], members[j]);
    }
  }

  /** Expectations set up later leave a sequence chained. */
  lemma ChainedStays(g: Graph, g': Graph, members: seq<nat>)
    requires Chained(g, members) && |g| <= |g'| && forall e :: 0 <= e < |g| ==> g[e] <= g'[e]
    ensures Chained(g', members)
  {
  }

  class Sequence {
    /** The expectation added last, if any. */
    var last: int
    ghost var members: seq<nat>

    ghost predicate Valid(g: Graph)
      reads this
    {
      && Chained(g, members)
      && last == if members == [] then -1 else members[|members| - 1]
    }

    constructor ()
      ensures forall g :: Valid(g)
      ensures members == []
    {
      last, members := -1, [];
    }

    /** Adds an expectation that is still being set up; adding it twice in a row changes nothing. */
    method AddExpectation(registry: ExpectationRegistry, e: nat)
      requires registry.Valid() && Valid(registry.graph)
      requires e + 1 == |registry.graph| && registry.calls[e] == 0 && !registry.retired[e]
      modifies this, registry`graph
      ensures registry.Valid() && Valid(registry.graph)
      ensures members == if old(last) == e then old(members) else old(members) + [e]
      ensures registry.graph == if old(last) == e || old(last) == -1 then old(registry.graph)
                                else old(registry.graph)[e := old(registry.graph)[e] + {old(last)}]
    {
      if last != e {
        if last != -1 {
          registry.AddPrerequisite(last, e);
        }
        last := e;
        members := members + [e];
      }
    }
  }

  /** Two expectations in one sequence: at most one call of the first, then no call of the second. */
  method OneThenNever() returns (registry: ExpectationRegistry)
    ensures fresh(registry) && registry.Valid() && registry.graph == [{}, {0}]
    ensures registry.specs == [Spec(0, 1, false), Spec(0, 0, false)]
    ensures registry.calls == [0, 0] && registry.retired == [false, false]
  {
    hide Precedes, CalledInOrder, RetiredInOrder;
    registry := new ExpectationRegistry();
    var sequence := new Sequence();
    var first := registry.AddNewExpectation(Spec(0, 1, false));
    sequence.AddExpectation(registry, first);
    ghost var before := registry.graph;
    var never := registry.AddNewExpectation(Spec(0, 0, false));
    ChainedStays(before, registry.graph, sequence.members);
    sequence.AddExpectation(registry, never);
    assert registry.graph[0] == {} && registry.graph[1] == {0};
  }

  /** An instance of a call that vouches for nothing: the expectation allows no calls, so the call retires nothing,
      and its prerequisite can be called once too often afterwards. */
  method ExcessiveCallVouchesForNothing() returns (registry: ExpectationRegistry)
    ensures registry.Valid() && |registry.graph| == 2
    ensures registry.calls[1] > 0 && Precedes(registry.graph, 0, 1)
    ensures !AllSatisfied(registry.graph, registry.specs, registry.calls, 1)
  {
    hide Precedes, CalledInOrder, RetiredInOrder;
    registry := OneThenNever();
    OneBeforeTheOther(registry.graph);
    var expected := registry.GetActionForArguments(1);
    assert registry.retired == [false, false];
    expected := registry.GetActionForArguments(0);
    assert registry.calls == [1, 1] && registry.retired == [false, false];
    expected := registry.GetActionForArguments(0);
    assert !IsSatisfied(registry.specs[0], registry.calls[0]);
  }

  lemma OneBeforeTheOther(g: Graph)
    requires g == [{}, {0}]
    ensures Acyclic(g) && Precedes(g, 0, 1) && forall q :: !Precedes(g, q, 0)
  {
  }
}
