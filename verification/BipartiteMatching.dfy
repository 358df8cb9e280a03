/** Maximum bipartite matching between the elements (left nodes) and the matchers (right nodes)
    of an unordered-elements matcher, by in-place augmenting-path search. */
module BipartiteMatching {
  import opened Basics

  /** The edges of a match matrix as a mathematical value. */
  datatype Graph = Graph(lhs: nat, rhs: nat, edges: set<(int, int)>)

  const UNUSED: int := -1

  /** An edge {element, matcher} of a reported match. */
  type Pair = (int, int)

  /** A set of edges of `g` in which no element and no matcher is repeated. */
  ghost predicate IsMatching(g: Graph, m: seq<Pair>) {
    && (forall i :: 0 <= i < |m| ==> m[i] in g.edges && 0 <= m[i].0 < g.lhs && 0 <= m[i].1 < g.rhs)
    && (forall i, j :: 0 <= i < j < |m| ==> m[i].0 != m[j].0 && m[i].1 != m[j].1)
  }

  /** Every edge of `g` ends in the left part `a` or in the right part `d`. */
  ghost predicate IsCover(g: Graph, a: set<int>, d: set<int>) {
    && (forall l <- a :: 0 <= l < g.lhs)
    && (forall r <- d :: 0 <= r < g.rhs)
    && (forall l, r :: 0 <= l < g.lhs && 0 <= r < g.rhs && (l, r) in g.edges ==> l in a || r in d)
  }

  /** Weak duality: no matching is larger than a vertex cover. */
  lemma {:induction false} MatchingFitsCover(g: Graph, m: seq<Pair>, a: set<int>, d: set<int>)
    requires IsMatching(g, m)
    requires forall i :: 0 <= i < |m| ==> m[i].0 in a || m[i].1 in d
    ensures |m| <= |a| + |d|
    decreases |m|
  {
    if m != [] {
      var n := |m| - 1;
      if m[n].0 in a {
        MatchingFitsCover(g, m[..n], a - {m[n].0}, d);
      } else {
        MatchingFitsCover(g, m[..n], a, d - {m[n].1});
      }
    }
  }

  /** A cover whose every node is matched, and whose nodes lie on different edges, is as small as the matching. */
  lemma {:induction false} MatchedCoverIsSmall(m: seq<Pair>, a: set<int>, d: set<int>)
    requires forall l <- a :: exists i :: 0 <= i < |m| && m[i].0 == l
    requires forall r <- d :: exists i :: 0 <= i < |m| && m[i].1 == r
    requires forall i :: 0 <= i < |m| ==> !(m[i].0 in a && m[i].1 in d)
    ensures |a| + |d| <= |m|
    decreases |m|
  {
    if m == [] {
      assert forall l :: l !in a;
      assert forall r :: r !in d;
    } else {
      var n := |m| - 1;
      MatchedCoverIsSmall(m[..n], a - {m[n].0}, d - {m[n].1});
    }
  }

  /** A minimum cover certifies that a matching of its size is maximum. */
  lemma CoverCertifiesMaximum(g: Graph, m: seq<Pair>, a: set<int>, d: set<int>, other: seq<Pair>)
    requires IsCover(g, a, d) && |a| + |d| <= |m|
    requires IsMatching(g, other)
    ensures |other| <= |m|
  {
    forall i | 0 <= i < |other| ensures other[i].0 in a || other[i].1 in d {
      assert other[i] == (other[i].0, other[i].1);
    }
    MatchingFitsCover(g, other, a, d);
  }

  // ----- The search state as values -----

  /** `left` and `right` refer to each other along edges, except that right node `hole` may be stale. */
  ghost predicate InverseExcept(g: Graph, left: seq<int>, right: seq<int>, hole: int) {
    && |left| == g.lhs && |right| == g.rhs
    && (forall l :: 0 <= l < |left| && left[l] != UNUSED ==>
          0 <= left[l] < |right| && (l, left[l]) in g.edges && right[left[l]] == l)
    && (forall r :: 0 <= r < |right| && right[r] != UNUSED ==>
          0 <= right[r] < |left| && (r != hole ==> left[right[r]] == r))
  }

  ghost predicate Inverse(g: Graph, left: seq<int>, right: seq<int>) {
    InverseExcept(g, left, right, UNUSED)
  }

  /** All neighbours of left node `l` are in `z`. */
  ghost predicate Within(g: Graph, l: int, z: set<int>) {
    forall r :: 0 <= r < g.rhs && (l, r) in g.edges ==> r in z
  }

  /** A dead end of the residual graph: matched right nodes whose partners lead only back into `z`. */
  ghost predicate DeadEnd(g: Graph, right: seq<int>, z: set<int>) {
    forall r <- z :: 0 <= r < |right| && right[r] != UNUSED && Within(g, right[r], z)
  }

  function Marked(seen: seq<bool>): set<int> {
    set r | 0 <= r < |seen| && seen[r]
  }

  function Unmarked(seen: seq<bool>): set<int> {
    set r | 0 <= r < |seen| && !seen[r]
  }

  /** Exactly one right node, `end`, became matched and none became free. */
  ghost predicate GainsOnly(right: seq<int>, right': seq<int>, end: int) {
    && |right'| == |right| && 0 <= end < |right|
    && right[end] == UNUSED
    && forall r :: 0 <= r < |right| ==> (right'[r] != UNUSED <==> right[r] != UNUSED || r == end)
  }

  /** What a successful search from `l` may have done: `l` is now matched, exactly one right node was gained,
      nothing that was already `seen` and nothing in the dead end `z` has a new partner.
      The old partner of `l`, if it had one, still refers to `l`. */
  ghost predicate Augmented(g: Graph, left: seq<int>, right: seq<int>, left': seq<int>, right': seq<int>,
                            l: int, seen: seq<bool>, z: set<int>)
    requires |left| == g.lhs && |right| == |seen| == g.rhs && 0 <= l < g.lhs
  {
    && InverseExcept(g, left', right', left[l])
    && left'[l] != UNUSED && !seen[left'[l]]
    && (forall k :: 0 <= k < |left| && k != l ==> (left'[k] == UNUSED <==> left[k] == UNUSED))
    && (forall k :: 0 <= k < |left| && k != l && (left[k] == UNUSED || (0 <= left[k] < |seen| && seen[left[k]]))
          ==> left'[k] == left[k])
    && (forall r :: 0 <= r < |right| && (seen[r] || r in z) ==> right'[r] == right[r])
    && (exists end :: GainsOnly(right, right', end))
  }

  /** What a failed search from `l` has learned: the newly seen right nodes are all matched, and
      `l` and their partners have no neighbour that is still unseen. */
  ghost predicate Exhausted(g: Graph, right: seq<int>, l: int, seen: seq<bool>, seen': seq<bool>)
    requires |seen| == |seen'| == |right|
  {
    && Within(g, l, Marked(seen'))
    && (forall r :: 0 <= r < |right| && seen'[r] && !seen[r] ==>
          right[r] != UNUSED && Within(g, right[r], Marked(seen')))
  }

  /** The situation in which a search from `l` may start: `l` is free or its partner was already seen. */
  ghost predicate CanSearch(g: Graph, left: seq<int>, right: seq<int>, l: int, seen: seq<bool>, z: set<int>) {
    && Inverse(g, left, right) && |seen| == |right| && 0 <= l < |left|
    && (left[l] == UNUSED || seen[left[l]])
    && DeadEnd(g, right, z)
  }

  /** Progress of the search loop at `l` after trying right nodes below `upTo`, the marks having grown to `now`. */
  ghost predicate Searching(g: Graph, right: seq<int>, l: int, upTo: nat, seen: seq<bool>, now: seq<bool>)
    requires |seen| == |now| == |right|
  {
    && (forall r :: 0 <= r < |seen| && seen[r] ==> now[r])
    && (forall r :: 0 <= r < upTo && r < |now| && (l, r) in g.edges ==> now[r])
    && (forall r :: 0 <= r < |now| && now[r] && !seen[r] ==>
          right[r] != UNUSED && Within(g, right[r], Marked(now)))
  }

  lemma SearchBegins(g: Graph, right: seq<int>, l: int, seen: seq<bool>)
    requires |seen| == |right|
    ensures Searching(g, right, l, 0, seen, seen)
  {
  }

  lemma SearchSkips(g: Graph, right: seq<int>, l: int, r: nat, seen: seq<bool>, now: seq<bool>)
    requires |seen| == |now| == |right| && r < |right|
    requires Searching(g, right, l, r, seen, now)
    requires now[r] || (l, r as int) !in g.edges
    ensures Searching(g, right, l, r + 1, seen, now)
  {
  }

  lemma SearchFails(g: Graph, right: seq<int>, l: int, seen: seq<bool>, now: seq<bool>)
    requires |seen| == |now| == |right| == g.rhs
    requires Searching(g, right, l, |right|, seen, now)
    ensures Exhausted(g, right, l, seen, now)
    ensures forall k :: 0 <= k < |seen| && seen[k] ==> now[k]
  {
  }

  /** The partner of a newly marked right node may be searched from, with fewer nodes left to mark. */
  lemma RecursionReady(g: Graph, left: seq<int>, right: seq<int>, l: int, r: nat, seen: seq<bool>, now: seq<bool>, z: set<int>)
    requires CanSearch(g, left, right, l, seen, z)
    requires |now| == |right| && r < |right| && !now[r]
    requires Searching(g, right, l, r, seen, now)
    ensures right[r] != UNUSED ==> CanSearch(g, left, right, right[r], now[r := true], z)
    ensures Unmarked(now[r := true]) < Unmarked(seen)
    ensures !seen[r]
    ensures forall k :: 0 <= k < |seen| && seen[k] ==> now[r := true][k]
  {
    assert r in Unmarked(seen) && r !in Unmarked(now[r := true]);
  }

  /** A failed recursive search through `r` keeps the loop going. */
  lemma SearchContinues(g: Graph, right: seq<int>, l: int, r: nat, seen: seq<bool>, now: seq<bool>, after: seq<bool>)
    requires |seen| == |now| == |after| == |right| && r < |right|
    requires Searching(g, right, l, r, seen, now)
    requires right[r] != UNUSED && Exhausted(g, right, right[r], now[r := true], after)
    requires forall k :: 0 <= k < |now| && now[r := true][k] ==> after[k]
    ensures Searching(g, right, l, r + 1, seen, after)
  {
    assert now[r := true][r];
    forall k | 0 <= k < |now| && after[k] && !seen[k]
      ensures right[k] != UNUSED && Within(g, right[k], Marked(after))
    {
      if k != r && now[k] {
        assert now[r := true][k];
        assert Marked(now) <= Marked(after) by {
          forall x | x in Marked(now) ensures x in Marked(after) { assert now[r := true][x]; }
        }
      }
    }
  }

  /** A search whose first node leads only into a dead end cannot succeed. */
  lemma SearchStaysInDeadEnd(g: Graph, left: seq<int>, right: seq<int>, left': seq<int>, right': seq<int>,
                             l: int, seen: seq<bool>, z: set<int>)
    requires CanSearch(g, left, right, l, seen, z) && Within(g, l, z)
    ensures !Augmented(g, left, right, left', right', l, seen, z)
  {
  }

  /** Linking `l` to `r` after the old partner of `r` has moved elsewhere. */
  lemma LinkAfterRecursion(g: Graph, left: seq<int>, right: seq<int>, left': seq<int>, right': seq<int>,
                           l: int, r: nat, seen: seq<bool>, now: seq<bool>, z: set<int>)
    requires |left| == g.lhs && |right| == |seen| == |now| == g.rhs && 0 <= l < g.lhs && r < g.rhs
    requires CanSearch(g, left, right, l, seen, z)
    requires (l, r as int) in g.edges && !seen[r]
    requires Searching(g, right, l, r, seen, now)
    requires if right[r] == UNUSED then left' == left && right' == right
             else Augmented(g, left, right, left', right', right[r], now[r := true], z)
    requires |left'| == |left| && |right'| == |right|
    ensures Augmented(g, left, right, left'[l := r], right'[r := l], l, seen, z)
  {
    if right[r] == UNUSED {
      assert GainsOnly(right, right'[r := l], r);
    } else {
      if r in z { SearchStaysInDeadEnd(g, left, right, left', right', right[r], now[r := true], z); }
      var end :| GainsOnly(right, right', end);
      assert GainsOnly(right, right'[r := l], end);
    }
  }

  /** The state after one try for each left node below `l`: whoever failed leads only into the dead end `z`. */
  ghost predicate Explored(g: Graph, left: seq<int>, right: seq<int>, l: nat, z: set<int>) {
    && Inverse(g, left, right)
    && DeadEnd(g, right, z)
    && (forall k :: 0 <= k < l && k < |left| && left[k] == UNUSED ==> Within(g, k, z))
    && (forall k :: l <= k < |left| ==> left[k] == UNUSED)
  }

  lemma NothingExplored(g: Graph, left: seq<int>, right: seq<int>)
    requires |left| == g.lhs && |right| == g.rhs
    requires forall l :: 0 <= l < |left| ==> left[l] == UNUSED
    requires forall r :: 0 <= r < |right| ==> right[r] == UNUSED
    ensures Explored(g, left, right, 0, {})
  {
  }

  lemma ReadyToSearch(g: Graph, left: seq<int>, right: seq<int>, l: nat, seen: seq<bool>, z: set<int>)
    requires Explored(g, left, right, l, z) && l < |left| && |seen| == |right|
    ensures CanSearch(g, left, right, l, seen, z) && left[l] == UNUSED
  {
  }

  /** A success elsewhere does not revive a dead end, nor does it free a left node. */
  lemma ExploredBySuccess(g: Graph, left: seq<int>, right: seq<int>, left': seq<int>, right': seq<int>,
                          l: nat, seen: seq<bool>, z: set<int>)
    requires Explored(g, left, right, l, z) && l < |left| && |seen| == |right|
    requires Augmented(g, left, right, left', right', l, seen, z)
    ensures Explored(g, left', right', l + 1, z)
  {
  }

  /** What a failed search has marked joins the dead end. */
  lemma ExploredByFailure(g: Graph, left: seq<int>, right: seq<int>, l: nat, seen: seq<bool>, seen': seq<bool>, z: set<int>)
    requires Explored(g, left, right, l, z) && l < |left| && |seen| == |seen'| == |right|
    requires forall r :: 0 <= r < |seen| ==> !seen[r]
    requires Exhausted(g, right, l, seen, seen')
    ensures Explored(g, left, right, l + 1, z + Marked(seen'))
  {
  }

  lemma ExploredInverse(g: Graph, left: seq<int>, right: seq<int>, z: set<int>)
    requires Explored(g, left, right, |left|, z)
    ensures Inverse(g, left, right)
  {
  }

  // ----- The imperative search -----

  /** The connectivity matrix, stored flat in left-major order. */
  class MatchMatrix {
    const numElements: nat
    const numMatchers: nat
    const matched: array<bool>

    ghost function Cells(): nat {
      numElements * numMatchers
    }

    ghost predicate Valid() {
      matched.Length == Cells()
    }

    constructor (numElements: nat, numMatchers: nat)
      ensures Valid() && fresh(matched)
      ensures this.numElements == numElements && this.numMatchers == numMatchers
      ensures View() == Graph(numElements, numMatchers, {})
    {
      this.numElements, this.numMatchers := numElements, numMatchers;
      matched := new bool[numElements * numMatchers](_ => false);
    }

    function SpaceIndex(l: nat, r: nat): (i: nat)
      ensures l < numElements && r < numMatchers ==> i < Cells()
    {
      if l < numElements && r < numMatchers then
        SpaceIndexInRange(l, r, numElements, numMatchers); l * numMatchers + r
      else
        l * numMatchers + r
    }

    predicate HasEdge(l: nat, r: nat)
      requires Valid() && l < numElements && r < numMatchers
      reads matched
    {
      matched[SpaceIndex(l, r)]
    }

    lemma HasEdgeInView(l: nat, r: nat)
      requires Valid() && l < numElements && r < numMatchers
      ensures HasEdge(l, r) <==> (l as int, r as int) in View().edges
      ensures View().lhs == numElements && View().rhs == numMatchers
    {
    }

    ghost function View(): Graph
      requires Valid()
      reads matched
    {
      Graph(numElements, numMatchers,
            set l, r | 0 <= l < numElements && 0 <= r < numMatchers && HasEdge(l, r) :: (l, r))
    }

    method SetEdge(l: nat, r: nat, b: bool)
      requires Valid() && l < numElements && r < numMatchers
      modifies matched
      ensures View() == old(View()).(edges := if b then old(View()).edges + {(l, r)} else old(View()).edges - {(l, r)})
    {
      matched[SpaceIndex(l, r)] := b;
      forall k, s | 0 <= k < numElements && 0 <= s < numMatchers
        ensures HasEdge(k, s) == if (k, s) == (l, r) then b else old(HasEdge(k, s))
      {
        SpaceIndexInjective(k, s, l, r, numMatchers);
      }
    }

    /** Adds one to the matrix as a number; false exactly when it wrapped around to the empty graph. */
    method NextGraph() returns (more: bool)
      requires Valid()
      modifies matched
      ensures more <==> Value(old(matched[..])) + 1 < Pow2(Cells())
      ensures Value(matched[..]) == if more then Value(old(matched[..])) + 1 else 0
    {
      hide Value, Pow2;
      ghost var bits := matched[..];
      for l := 0 to numElements
        invariant Carried(bits, matched[..], l * numMatchers)
      {
        for r := 0 to numMatchers
          invariant Carried(bits, matched[..], l * numMatchers + r)
        {
          var i := SpaceIndex(l, r);
          if !matched[i] {
            matched[i] := true;
            CarryAddsOne(bits, i, matched[..]);
            ValueIsFaithful(matched[..], bits);
            return true;
          }
          matched[i] := false;
        }
        assert (l + 1) * numMatchers == l * numMatchers + numMatchers;
      }
      ValueOfAllTrue(bits);
      ValueOfAllFalse(Cells());
      assert matched[..] == AllFalse(Cells());
      return false;
    }
  }

  /** The first `upTo` ones have been carried over. */
  ghost predicate Carried(bits: seq<bool>, now: seq<bool>, upTo: int) {
    && |now| == |bits| && 0 <= upTo <= |bits|
    && (forall i :: 0 <= i < upTo ==> bits[i] && !now[i])
    && (forall i :: upTo <= i < |bits| ==> now[i] == bits[i])
  }

  /** The connectivity matrix read as a number, first cell least significant. */
  ghost function Value(bits: seq<bool>): nat {
    if bits == [] then 0 else (if bits[0] then 1 else 0) + 2 * Value(bits[1..])
  }

  ghost function Pow2(n: nat): nat {
    if n == 0 then 1 else 2 * Pow2(n - 1)
  }

  ghost function AllFalse(n: nat): seq<bool> {
    seq(n, _ => false)
  }

  lemma {:induction false} ValueOfAllFalse(n: nat)
    ensures Value(AllFalse(n)) == 0
  {
    if n > 0 {
      assert AllFalse(n)[1..] == AllFalse(n - 1);
      ValueOfAllFalse(n - 1);
    }
  }

  lemma {:induction false} ValueOfAllTrue(bits: seq<bool>)
    requires forall i :: 0 <= i < |bits| ==> bits[i]
    ensures Value(bits) + 1 == Pow2(|bits|)
  {
    if bits != [] { ValueOfAllTrue(bits[1..]); }
  }

  /** Clearing a run of leading ones and setting the zero behind it adds one. */
  lemma {:induction false} CarryAddsOne(bits: seq<bool>, k: nat, bits': seq<bool>)
    requires |bits'| == |bits| && k < |bits|
    requires forall i :: 0 <= i < k ==> bits[i] && !bits'[i]
    requires !bits[k] && bits'[k]
    requires forall i :: k < i < |bits| ==> bits'[i] == bits[i]
    ensures Value(bits') == Value(bits) + 1
  {
    if k == 0 {
      assert bits'[1..] == bits[1..];
    } else {
      CarryAddsOne(bits[1..], k - 1, bits'[1..]);
    }
  }

  /** Different matrices are different numbers below 2^cells, so counting visits each of them once. */
  lemma {:induction false} ValueIsFaithful(a: seq<bool>, b: seq<bool>)
    requires |a| == |b|
    ensures Value(a) < Pow2(|a|)
    ensures Value(a) == Value(b) <==> a == b
  {
    if a != [] {
      ValueIsFaithful(a[1..], b[1..]);
      assert a == [a[0]] + a[1..] && b == [b[0]] + b[1..];
    }
  }

  /** Counting from the empty graph until the counter wraps around visits every edge configuration exactly once. */
  method VisitAllGraphs(matrix: MatchMatrix) returns (visited: seq<seq<bool>>)
    requires matrix.Valid() && matrix.matched[..] == AllFalse(matrix.Cells())
    modifies matrix.matched
    ensures |visited| == Pow2(matrix.Cells())
    ensures forall i, j :: 0 <= i < j < |visited| ==> visited[i] != visited[j]
    ensures forall bits: seq<bool> :: |bits| == matrix.Cells() ==> bits in visited
    ensures matrix.matched[..] == AllFalse(matrix.Cells())
  {
    hide Value, Pow2;
    visited := [];
    var more := true;
    ValueOfAllFalse(matrix.Cells());
    ValueIsFaithful(matrix.matched[..], matrix.matched[..]);
    while more
      invariant forall i :: 0 <= i < |visited| ==> |visited[i]| == matrix.Cells() && Value(visited[i]) == i
      invariant Value(matrix.matched[..]) == if more then |visited| else 0
      invariant if more then |visited| < Pow2(matrix.Cells()) else |visited| == Pow2(matrix.Cells())
      decreases more, Pow2(matrix.Cells()) - |visited|
    {
      visited := visited + [matrix.matched[..]];
      more := matrix.NextGraph();
      ValueIsFaithful(matrix.matched[..], matrix.matched[..]);
    }
    ValueIsFaithful(matrix.matched[..], AllFalse(matrix.Cells()));
    AllCounted(visited, matrix.Cells());
  }

  lemma AllCounted(visited: seq<seq<bool>>, n: nat)
    requires |visited| == Pow2(n) && forall i :: 0 <= i < |visited| ==> |visited[i]| == n && Value(visited[i]) == i
    ensures forall i, j :: 0 <= i < j < |visited| ==> visited[i] != visited[j]
    ensures forall bits: seq<bool> :: |bits| == n ==> bits in visited
  {
    forall bits: seq<bool> | |bits| == n ensures bits in visited {
      ValueIsFaithful(bits, bits);
      ValueIsFaithful(bits, visited[Value(bits)]);
    }
  }

  lemma SpaceIndexInRange(l: nat, r: nat, lhs: nat, rhs: nat)
    requires l < lhs && r < rhs
    ensures l * rhs + r < lhs * rhs
  {
    assert l * rhs + rhs == (l + 1) * rhs <= lhs * rhs;
  }

  lemma SpaceIndexInjective(k: nat, s: nat, l: nat, r: nat, rhs: nat)
    requires s < rhs && r < rhs
    ensures k * rhs + s == l * rhs + r ==> k == l && s == r
  {
    if k < l {
      assert k * rhs + rhs == (k + 1) * rhs <= l * rhs;
    } else if l < k {
      assert l * rhs + rhs == (l + 1) * rhs <= k * rhs;
    }
  }

  class MaxBipartiteMatchState {
    const graph: MatchMatrix
    const left: array<int>
    const right: array<int>

    ghost predicate Valid() {
      && graph.Valid()
      && left.Length == graph.numElements && right.Length == graph.numMatchers
      && left != right
    }

    constructor (graph: MatchMatrix)
      requires graph.Valid()
      ensures Valid() && this.graph == graph && fresh(left) && fresh(right)
      ensures forall l :: 0 <= l < left.Length ==> left[l] == UNUSED
      ensures forall r :: 0 <= r < right.Length ==> right[r] == UNUSED
    {
      this.graph := graph;
      left := new int[graph.numElements](_ => UNUSED);
      right := new int[graph.numMatchers](_ => UNUSED);
    }

    /** Depth-first search from left node `l` to a free right node.
        `z` is any dead end: the search never gets out of one, so it leaves `z` alone. */
    method TryAugment(l: nat, seen: array<bool>, ghost z: set<int>) returns (found: bool)
      requires Valid() && l < graph.numElements
      requires seen.Length == graph.numMatchers && seen != graph.matched
      requires CanSearch(graph.View(), left[..], right[..], l, seen[..], z)
      modifies left, right, seen
      ensures forall r :: 0 <= r < seen.Length && old(seen[r]) ==> seen[r]
      ensures found ==>
                Augmented(graph.View(), old(left[..]), old(right[..]), left[..], right[..], l, old(seen[..]), z)
      ensures !found ==>
                && left[..] == old(left[..]) && right[..] == old(right[..])
                && Exhausted(graph.View(), right[..], l, old(seen[..]), seen[..])
      decreases Unmarked(seen[..])
    {
      hide CanSearch, Searching, Augmented, Exhausted;
      ghost var g, l0, r0, s0 := graph.View(), left[..], right[..], seen[..];
      SearchBegins(g, r0, l, s0);
      for r := 0 to graph.numMatchers
        invariant left[..] == l0 && right[..] == r0
        invariant Searching(g, r0, l, r, s0, seen[..])
      {
        ghost var s := seen[..];
        graph.HasEdgeInView(l, r);
        if seen[r] || !graph.HasEdge(l, r) {
          SearchSkips(g, r0, l, r, s0, s);
          continue;
        }
        seen[r] := true;
        assert seen[..] == s[r := true];
        RecursionReady(g, l0, r0, l, r, s0, s, z);
        var reached := right[r] == UNUSED;
        if !reached {
          reached := TryAugment(right[r], seen, z);
        }
        if reached {
          ghost var l1, r1 := left[..], right[..];
          left[l] := r;
          right[r] := l;
          LinkAfterRecursion(g, l0, r0, l1, r1, l, r, s0, s, z);
          assert left[..] == l1[l := r] && right[..] == r1[r := l];
          return true;
        }
        SearchContinues(g, r0, l, r, s0, s, seen[..]);
      }
      SearchFails(g, r0, l, s0, seen[..]);
      return false;
    }

    /** Tries every left node once. The dead ends left behind by the failed tries make up one half of a
        vertex cover as small as the matching; the matched left nodes outside them make up the other half. */
    method Compute() returns (result: seq<Pair>)
      requires Valid()
      requires forall l :: 0 <= l < left.Length ==> left[l] == UNUSED
      requires forall r :: 0 <= r < right.Length ==> right[r] == UNUSED
      modifies left, right
      ensures IsMatching(graph.View(), result)
      ensures exists a, d :: IsCover(graph.View(), a, d) && |a| + |d| <= |result|
    {
      hide CanSearch, Augmented, Exhausted, Explored, IsMatching, IsCover;
      ghost var g := graph.View();
      ghost var z: set<int> := {};
      NothingExplored(g, left[..], right[..]);
      for l := 0 to graph.numElements
        invariant Explored(g, left[..], right[..], l, z)
      {
        var seen := new bool[graph.numMatchers](_ => false);
        ghost var l0, r0, s0 := left[..], right[..], seen[..];
        ReadyToSearch(g, l0, r0, l, s0, z);
        assert left[l] == UNUSED;
        var found := TryAugment(l, seen, z);
        if found {
          ExploredBySuccess(g, l0, r0, left[..], right[..], l, s0, z);
        } else {
          ExploredByFailure(g, l0, r0, l, s0, seen[..], z);
          z := z + Marked(seen[..]);
        }
      }
      ExploredInverse(g, left[..], right[..], z);
      result := [];
      for l := 0 to left.Length
        invariant Lists(left[..], l, result)
      {
        var r := left[l];
        if r == UNUSED { continue; }
        result := result + [(l, r)];
      }
      ListedIsMatching(g, left[..], right[..], result);
      KonigCover(g, left[..], right[..], z, result);
    }
  }

  /** `m` lists the matched left nodes below `upTo` in order, each with its partner. */
  ghost predicate Lists(left: seq<int>, upTo: nat, m: seq<Pair>) {
    && (forall i :: 0 <= i < |m| ==> 0 <= m[i].0 < upTo && m[i].0 < |left| && m[i].1 == left[m[i].0] != UNUSED)
    && (forall i, j :: 0 <= i < j < |m| ==> m[i].0 < m[j].0)
    && (forall l :: 0 <= l < upTo && l < |left| && left[l] != UNUSED ==> (l, left[l]) in m)
  }

  lemma ListedIsMatching(g: Graph, left: seq<int>, right: seq<int>, m: seq<Pair>)
    requires Inverse(g, left, right) && Lists(left, |left|, m)
    ensures IsMatching(g, m)
  {
    forall i | 0 <= i < |m| ensures m[i] in g.edges {
      assert m[i] == (m[i].0, left[m[i].0]);
    }
  }

  /** After one pass, the dead ends on the right and the matched left nodes outside them cover every edge. */
  lemma KonigCover(g: Graph, left: seq<int>, right: seq<int>, z: set<int>, m: seq<Pair>)
    requires Explored(g, left, right, |left|, z)
    requires Lists(left, |left|, m)
    ensures exists a, d :: IsCover(g, a, d) && |a| + |d| <= |m|
  {
    var a := set l | 0 <= l < |left| && left[l] != UNUSED && left[l] !in z;
    forall l | l in a ensures exists i :: 0 <= i < |m| && m[i].0 == l {
      assert (l, left[l]) in m;
    }
    forall r | r in z ensures exists i :: 0 <= i < |m| && m[i].1 == r {
      assert left[right[r]] == r && (right[r], left[right[r]]) in m;
    }
    MatchedCoverIsSmall(m, a, z);
    forall l, r | 0 <= l < g.lhs && 0 <= r < g.rhs && (l, r) in g.edges ensures l in a || r in z {
      if left[l] != UNUSED && left[l] in z {
        assert Within(g, right[left[l]], z);
      }
    }
    assert IsCover(g, a, z);
  }

  // ----- The functions built on the search -----

  method FindMaxBipartiteMatching(g: MatchMatrix) returns (result: seq<Pair>)
    requires g.Valid()
    ensures IsMatching(g.View(), result)
    ensures forall other :: IsMatching(g.View(), other) ==> |other| <= |result|
    ensures exists a, d :: IsCover(g.View(), a, d) && |a| + |d| <= |result|
  {
    var state := new MaxBipartiteMatchState(g);
    result := state.Compute();
    ghost var a, d :| IsCover(g.View(), a, d) && |a| + |d| <= |result|;
    forall other | IsMatching(g.View(), other) ensures |other| <= |result| {
      CoverCertifiesMaximum(g.View(), result, a, d, other);
    }
  }

  /** `f` gives every matcher an element of its own. */
  ghost predicate IsAssignment(g: Graph, f: seq<int>) {
    && |f| == g.rhs
    && (forall r :: 0 <= r < |f| ==> 0 <= f[r] < g.lhs && (f[r], r) in g.edges)
    && (forall r, s :: 0 <= r < s < |f| ==> f[r] != f[s])
  }

  ghost function Neighbours(g: Graph, s: set<int>): set<int> {
    set l, r | 0 <= l < g.lhs && r in s && (l, r) in g.edges :: l
  }

  /** A set of matchers that together have fewer candidate elements than members. */
  ghost predicate IsHallViolator(g: Graph, s: set<int>) {
    && (forall r <- s :: 0 <= r < g.rhs)
    && |Neighbours(g, s)| < |s|
  }

  method FindPairing(matrix: MatchMatrix) returns (result: bool)
    requires matrix.Valid()
    ensures result <==> exists f :: IsAssignment(matrix.View(), f)
    ensures !result ==> exists s :: IsHallViolator(matrix.View(), s)
  {
    var matches := FindMaxBipartiteMatching(matrix);
    result := |matches| == matrix.numMatchers;
    ghost var g := matrix.View();
    MatchingFitsCover(g, matches, {}, Range(g.rhs));
    forall f | IsAssignment(g, f) ensures g.rhs <= |matches| {
      var m := AssignmentMatches(g, f);
    }
    if result {
      PerfectMatchingAssigns(g, matches);
    } else {
      ghost var a, d :| IsCover(g, a, d) && |a| + |d| <= |matches|;
      SmallCoverViolatesHall(g, a, d);
    }
  }

  ghost function Range(n: nat): (s: set<int>)
    ensures |s| == n
    ensures forall r :: r in s <==> 0 <= r < n
  {
    if n == 0 then {} else Range(n - 1) + {n - 1}
  }

  lemma AssignmentMatches(g: Graph, f: seq<int>) returns (m: seq<Pair>)
    requires IsAssignment(g, f)
    ensures IsMatching(g, m) && |m| == g.rhs
    ensures forall i :: 0 <= i < |m| ==> m[i] == (f[i], i)
  {
    m := seq(g.rhs, r requires 0 <= r < |f| => (f[r], r));
  }

  ghost predicate HasRightEnd(m: seq<Pair>, r: int) {
    exists i :: 0 <= i < |m| && m[i].1 == r
  }

  /** The element that a matching gives to matcher `r`. */
  ghost function ElementFor(m: seq<Pair>, r: int): (l: int)
    ensures HasRightEnd(m, r) ==> exists i :: 0 <= i < |m| && m[i] == (l, r)
  {
    if i :| 0 <= i < |m| && m[i].1 == r then m[i].0 else UNUSED
  }

  lemma PerfectMatchingAssigns(g: Graph, m: seq<Pair>)
    requires IsMatching(g, m) && |m| == g.rhs
    ensures exists f :: IsAssignment(g, f)
  {
    forall r | 0 <= r < g.rhs ensures HasRightEnd(m, r) {
      if !HasRightEnd(m, r) { MatchingFitsCover(g, m, {}, Range(g.rhs) - {r}); }
    }
    var f := seq(g.rhs, r => ElementFor(m, r));
    forall r, s | 0 <= r < s < g.rhs ensures f[r] != f[s] {
      assert HasRightEnd(m, r) && HasRightEnd(m, s);
    }
    assert IsAssignment(g, f);
  }

  /** A cover smaller than the number of matchers leaves out matchers whose only candidates are its left part. */
  lemma SmallCoverViolatesHall(g: Graph, a: set<int>, d: set<int>)
    requires IsCover(g, a, d) && |a| + |d| < g.rhs
    ensures exists s :: IsHallViolator(g, s)
  {
    var s := Range(g.rhs) - d;
    assert d <= Range(g.rhs);
    assert |s| == g.rhs - |d|;
    assert Neighbours(g, s) <= a;
    SubsetSize(Neighbours(g, s), a);
    assert IsHallViolator(g, s);
  }

  /** Hall's condition is also necessary: a violator rules out every assignment. */
  lemma ViolatorExcludesAssignment(g: Graph, s: set<int>, f: seq<int>)
    requires IsHallViolator(g, s)
    ensures !IsAssignment(g, f)
  {
    if IsAssignment(g, f) {
      var m := AssignmentMatches(g, f);
      var rest := Range(g.rhs) - s;
      assert s <= Range(g.rhs);
      MatchingFitsCover(g, m, Neighbours(g, s), rest);
    }
  }

  /** Left node `l` has an edge to some right node below `upTo`. */
  ghost predicate ElementMatched(g: Graph, l: int, upTo: nat) {
    exists r :: 0 <= r < upTo && (l, r) in g.edges
  }

  /** Right node `r` has an edge from some left node below `upTo`. */
  ghost predicate MatcherMatched(g: Graph, r: int, upTo: nat) {
    exists l :: 0 <= l < upTo && (l, r) in g.edges
  }

  /** Every element has a matcher and every matcher has an element. */
  ghost predicate AllMatched(g: Graph) {
    && (forall l :: 0 <= l < g.lhs ==> ElementMatched(g, l, g.rhs))
    && (forall r :: 0 <= r < g.rhs ==> MatcherMatched(g, r, g.lhs))
  }

  /** The flags after row `l` of the matrix was scanned up to column `r`, earlier rows completely. */
  ghost predicate Tallied(g: Graph, elementMatched: seq<bool>, matcherMatched: seq<bool>, l: nat, r: nat) {
    && |elementMatched| == g.lhs && |matcherMatched| == g.rhs
    && (forall k :: 0 <= k < |elementMatched| ==>
          (elementMatched[k] <==> ElementMatched(g, k, if k < l then g.rhs else if k == l then r else 0)))
    && (forall s :: 0 <= s < |matcherMatched| ==>
          (matcherMatched[s] <==> MatcherMatched(g, s, if s < r then l + 1 else l)))
  }

  lemma TallyBegins(g: Graph, elementMatched: seq<bool>, matcherMatched: seq<bool>)
    requires |elementMatched| == g.lhs && |matcherMatched| == g.rhs
    requires forall k :: 0 <= k < |elementMatched| ==> !elementMatched[k]
    requires forall s :: 0 <= s < |matcherMatched| ==> !matcherMatched[s]
    ensures Tallied(g, elementMatched, matcherMatched, 0, 0)
  {
  }

  lemma TallyCell(g: Graph, elementMatched: seq<bool>, matcherMatched: seq<bool>, l: nat, r: nat, matched: bool)
    requires Tallied(g, elementMatched, matcherMatched, l, r) && l < g.lhs && r < g.rhs
    requires matched <==> (l as int, r as int) in g.edges
    ensures Tallied(g, elementMatched[l := elementMatched[l] || matched],
                    matcherMatched[r := matcherMatched[r] || matched], l, r + 1)
  {
  }

  lemma TallyRow(g: Graph, elementMatched: seq<bool>, matcherMatched: seq<bool>, l: nat)
    requires Tallied(g, elementMatched, matcherMatched, l, g.rhs)
    ensures Tallied(g, elementMatched, matcherMatched, l + 1, 0)
  {
  }

  lemma TallyEnds(g: Graph, elementMatched: seq<bool>, matcherMatched: seq<bool>)
    requires Tallied(g, elementMatched, matcherMatched, g.lhs, 0)
    ensures |elementMatched| == g.lhs && |matcherMatched| == g.rhs
    ensures AllMatched(g) <==>
              && (forall k :: 0 <= k < |elementMatched| ==> elementMatched[k])
              && (forall s :: 0 <= s < |matcherMatched| ==> matcherMatched[s])
  {
    assert forall k :: 0 <= k < g.lhs ==> (elementMatched[k] <==> ElementMatched(g, k, g.rhs));
    assert forall s :: 0 <= s < g.rhs ==> (matcherMatched[s] <==> MatcherMatched(g, s, g.lhs));
  }

  /** The cheap necessary test that runs before the search. */
  method VerifyAllElementsAndMatchersAreMatched(matrix: MatchMatrix) returns (result: bool)
    requires matrix.Valid()
    ensures result <==> AllMatched(matrix.View())
  {
    hide Tallied;
    ghost var g := matrix.View();
    var elementMatched := new bool[matrix.numElements](_ => false);
    var matcherMatched := new bool[matrix.numMatchers](_ => false);
    TallyBegins(g, elementMatched[..], matcherMatched[..]);
    for l := 0 to matrix.numElements
      invariant Tallied(g, elementMatched[..], matcherMatched[..], l, 0)
    {
      for r := 0 to matrix.numMatchers
        invariant Tallied(g, elementMatched[..], matcherMatched[..], l, r)
      {
        var matched := matrix.HasEdge(l, r);
        ghost var e, m := elementMatched[..], matcherMatched[..];
        elementMatched[l] := elementMatched[l] || matched;
        matcherMatched[r] := matcherMatched[r] || matched;
        assert elementMatched[..] == e[l := e[l] || matched] && matcherMatched[..] == m[r := m[r] || matched];
        TallyCell(g, e, m, l, r, matched);
      }
      TallyRow(g, elementMatched[..], matcherMatched[..], l);
    }
    TallyEnds(g, elementMatched[..], matcherMatched[..]);
    result := true;
    for r := 0 to matrix.numMatchers
      invariant result <==> forall s :: 0 <= s < r ==> matcherMatched[s]
    {
      if matcherMatched[r] { continue; }
      result := false;
    }
    ghost var matchersOk := result;
    for l := 0 to matrix.numElements
      invariant result <==> matchersOk && forall k :: 0 <= k < l ==> elementMatched[k]
    {
      if elementMatched[l] { continue; }
      result := false;
    }
  }

  /** The whole unordered comparison: sizes first, then the cheap test, then the search. */
  method MatchAndExplain(matrix: MatchMatrix) returns (result: bool)
    requires matrix.Valid()
    ensures result <==> matrix.numElements == matrix.numMatchers && exists f :: IsAssignment(matrix.View(), f)
  {
    if matrix.numElements == 0 && matrix.numMatchers == 0 {
      assert IsAssignment(matrix.View(), []);
      return true;
    }
    if matrix.numElements != matrix.numMatchers {
      return false;
    }
    result := VerifyAllElementsAndMatchersAreMatched(matrix);
    if result {
      result := FindPairing(matrix);
    } else if f :| IsAssignment(matrix.View(), f) {
      AssignmentMatchesEverything(matrix.View(), f);
    }
  }

  /** On a square matrix the cheap test never rejects what the search would accept. */
  lemma AssignmentMatchesEverything(g: Graph, f: seq<int>)
    requires IsAssignment(g, f) && g.lhs == g.rhs
    ensures AllMatched(g)
  {
    forall l | 0 <= l < g.lhs ensures ElementMatched(g, l, g.rhs) {
      if !ElementMatched(g, l, g.rhs) {
        var m := AssignmentMatches(g, f);
        MatchingFitsCover(g, m, Range(g.lhs) - {l}, {});
      }
    }
    forall r | 0 <= r < g.rhs ensures MatcherMatched(g, r, g.lhs) {
      assert (f[r], r) in g.edges;
    }
  }
}
