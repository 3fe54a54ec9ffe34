/** The order in which the stack traversal visits, and when it is a depth-first order. */
module GraphDepth {
  import opened Sequences
  import opened GraphSearch

  /** The vertices visited and the vertices waiting on the stack, top last. */
  datatype Progress = Progress(order: seq<int>, stack: seq<int>)

  function Neighbours(adj: Lists, v: int): seq<int> { if 0 <= v < |adj| then adj[v] else [] }

  /** The stack after pushing the vertices of l not seen before, last first. */
  function Pushes(order: seq<int>, stack: seq<int>, l: seq<int>): seq<int>
    decreases |l|
  {
    if l == [] then stack
    else
      var u := l[|l| - 1];
      Pushes(order, if u in order + stack then stack else stack + [u], l[..|l| - 1])
  }

  function Turn(adj: Lists, p: Progress): Progress {
    if p.stack == [] then p
    else
      var v := p.stack[|p.stack| - 1];
      Progress(p.order + [v], Pushes(p.order + [v], p.stack[..|p.stack| - 1], Neighbours(adj, v)))
  }

  function StackAt(adj: Lists, s: int, n: nat): Progress {
    if n == 0 then Progress([], [s]) else Turn(adj, StackAt(adj, s, n - 1))
  }

  /** All visits from s: there are at most as many as vertex slots. */
  function StackOrder(adj: Lists, s: int): seq<int> { StackAt(adj, s, |adj|).order }

  // ---- Invariant of the traversal -----------------------------------------------------------

  /** Every waiting vertex is entered by an arc from a visited one. */
  ghost predicate Entered(adj: Lists, order: seq<int>, stack: seq<int>) {
    forall w :: w in stack ==> exists a :: 0 <= a < |order| && HasArc(adj, order[a], w)
  }

  lemma {:induction false} PushesShape(order: seq<int>, stack: seq<int>, l: seq<int>)
    ensures var r := Pushes(order, stack, l);
            stack <= r && forall m :: |stack| <= m < |r| ==> r[m] in l
    decreases |l|
  {
    if l != [] {
      var u := l[|l| - 1];
      var t := if u in order + stack then stack else stack + [u];
      PushesShape(order, t, l[..|l| - 1]);
    }
  }

  lemma {:induction false} PushesInv(adj: Lists, s: int, order: seq<int>, stack: seq<int>, v: int, i: nat)
    requires order != [] && v == order[|order| - 1] && 0 <= v < |adj| && i <= |adj[v]|
    requires Stacked(adj, s, order, stack) && Followed(adj, order, stack, |order| - 1) && Entered(adj, order, stack)
    requires forall k :: i <= k < |adj[v]| ==> adj[v][k] in order + stack
    ensures var r := Pushes(order, stack, adj[v][..i]);
            Stacked(adj, s, order, r) && Followed(adj, order, r, |order|) && Entered(adj, order, r)
    decreases i
  {
    if i == 0 {
      FollowedNext(adj, order, stack, v);
    } else {
      var u := adj[v][i - 1];
      assert adj[v][..i][..i - 1] == adj[v][..i - 1];
      if u in order + stack {
        PushesInv(adj, s, order, stack, v, i - 1);
      } else {
        PushNeighbour(adj, s, order, stack, v, u);
        FollowedMono(adj, order, stack, |order| - 1, u);
        assert order + (stack + [u]) == order + stack + [u];
        assert HasArc(adj, order[|order| - 1], u);
        PushesInv(adj, s, order, stack + [u], v, i - 1);
      }
    }
  }

  lemma {:induction false} FollowedNext(adj: Lists, order: seq<int>, stack: seq<int>, v: int)
    requires order != [] && v == order[|order| - 1] && Followed(adj, order, stack, |order| - 1) && 0 <= v < |adj|
    requires forall k :: 0 <= k < |adj[v]| ==> adj[v][k] in order + stack
    ensures Followed(adj, order, stack, |order|)
  {
  }

  ghost predicate ProgressOk(adj: Lists, s: int, p: Progress) {
    && Stacked(adj, s, p.order, p.stack) && Followed(adj, p.order, p.stack, |p.order|)
    && (if p.order == [] then p.stack == [s] else Entered(adj, p.order, p.stack))
  }

  lemma {:induction false} StackedStart(adj: Lists, s: int)
    requires Closed(adj) && 0 <= s < |adj|
    ensures ProgressOk(adj, s, Progress([], [s]))
  {
    assert Walk(adj, s, s, [s]);
    assert [] + [s] == [s];
  }

  /** What is left of the stack after a pop stays entered. */
  lemma {:induction false} EnteredPopped(adj: Lists, order: seq<int>, stack: seq<int>, v: int)
    requires order != [] && Entered(adj, order, stack + [v])
    ensures Entered(adj, order + [v], stack)
  {
    forall w | w in stack ensures exists a :: 0 <= a < |order + [v]| && HasArc(adj, (order + [v])[a], w) {
      assert w in stack + [v];
      var a :| 0 <= a < |order| && HasArc(adj, order[a], w);
      assert (order + [v])[a] == order[a];
    }
  }

  lemma {:induction false} TurnInv(adj: Lists, s: int, p: Progress)
    requires ProgressOk(adj, s, p)
    ensures ProgressOk(adj, s, Turn(adj, p))
  {
    if p.stack != [] {
      var v, t := p.stack[|p.stack| - 1], p.stack[..|p.stack| - 1];
      assert p.stack == t + [v];
      PopToVisited(adj, s, p.order, t, v);
      if p.order != [] { EnteredPopped(adj, p.order, t, v); }
      var order := p.order + [v];
      assert v == (order + t)[|order| - 1];
      assert adj[v][..|adj[v]|] == adj[v];
      PushesInv(adj, s, order, t, v, |adj[v]|);
    }
  }

  lemma {:induction false} StackAtInv(adj: Lists, s: int, n: nat)
    requires Closed(adj) && 0 <= s < |adj|
    ensures ProgressOk(adj, s, StackAt(adj, s, n))
    ensures |StackAt(adj, s, n).order| <= n && (|StackAt(adj, s, n).order| == n || StackAt(adj, s, n).stack == [])
  {
    if n == 0 {
      StackedStart(adj, s);
    } else {
      StackAtInv(adj, s, n - 1);
      TurnInv(adj, s, StackAt(adj, s, n - 1));
    }
  }

  /** Later turns only add visits, and none once the stack is empty. */
  lemma {:induction false} VisitsGrow(adj: Lists, s: int, n: nat, m: nat)
    requires n <= m
    ensures StackAt(adj, s, n).order <= StackAt(adj, s, m).order
    ensures StackAt(adj, s, n).stack == [] ==> StackAt(adj, s, m) == StackAt(adj, s, n)
    decreases m
  {
    if n < m { VisitsGrow(adj, s, n, m - 1); }
  }

  /** The traversal is over after as many turns as there are slots, and its visits are the reachable vertices. */
  lemma {:induction false} OrderIsReachable(adj: Lists, s: int)
    requires Closed(adj) && 0 <= s < |adj|
    ensures StackAt(adj, s, |adj|).stack == []
    ensures var order := StackOrder(adj, s);
            && order != [] && order[0] == s && Distinct(order) && |order| <= |adj|
            && forall v :: v in order <==> Reachable(adj, s, v)
  {
    var p := StackAt(adj, s, |adj|);
    StackAtInv(adj, s, |adj|);
    Pigeonhole(p.order + p.stack, |adj|);
    assert p.stack == [];
    assert p.order + [] == p.order;
    AllFollowed(adj, s, p.order);
  }

  lemma {:induction false} AllFollowed(adj: Lists, s: int, order: seq<int>)
    requires Stacked(adj, s, order, []) && Followed(adj, order, [], |order|)
    ensures order != [] && forall v :: v in order <==> Reachable(adj, s, v)
  {
    assert order + [] == order;
    forall v | Reachable(adj, s, v) ensures v in order {
      var w :| Walk(adj, s, v, w);
      ClosedUnderArcs(adj, s, order, w, v);
    }
  }

  // ---- Depth-first order --------------------------------------------------------------------

  /** Before the k-th visit, the vertex visited at a still has a neighbour not visited. */
  ghost predicate Open(adj: Lists, order: seq<int>, k: nat, a: int)
    requires k <= |order| && 0 <= a < k
  {
    exists u :: HasArc(adj, order[a], u) && u !in order[..k]
  }

  /** The k-th visit follows an arc from the latest visited vertex that still has a neighbour not visited. */
  ghost predicate FromLatest(adj: Lists, order: seq<int>, k: nat)
    requires k < |order|
  {
    exists a :: 0 <= a < k && HasArc(adj, order[a], order[k]) && forall x :: a < x < k ==> !Open(adj, order, k, x)
  }

  /** A depth-first order of the vertices reachable from s. */
  ghost predicate DepthFirst(adj: Lists, s: int, order: seq<int>) {
    && order != [] && order[0] == s && Distinct(order)
    && (forall v :: v in order <==> Reachable(adj, s, v))
    && forall k :: 0 < k < |order| ==> FromLatest(adj, order, k)
  }

  /** The latest of the first k visits with an arc to w, or -1. */
  function LastTouch(adj: Lists, order: seq<int>, k: nat, w: int): (a: int)
    requires k <= |order|
    ensures -1 <= a < k && (a >= 0 ==> HasArc(adj, order[a], w))
    ensures forall x :: a < x < k ==> !HasArc(adj, order[x], w)
  {
    if k == 0 then -1 else if HasArc(adj, order[k - 1], w) then k - 1 else LastTouch(adj, order, k - 1, w)
  }

  lemma {:induction false} TouchOfPrefix(adj: Lists, a: seq<int>, b: seq<int>, k: nat, w: int)
    requires k <= |a| && k <= |b| && a[..k] == b[..k]
    ensures LastTouch(adj, a, k, w) == LastTouch(adj, b, k, w)
  {
    if k > 0 {
      assert a[k - 1] == a[..k][k - 1] && b[k - 1] == b[..k][k - 1];
      assert a[..k - 1] == a[..k][..k - 1] && b[..k - 1] == b[..k][..k - 1];
      TouchOfPrefix(adj, a, b, k - 1, w);
    }
  }

  /** No waiting vertex was touched by a later visit than the vertex on top. */
  predicate NewestOnTop(adj: Lists, p: Progress) {
    forall w :: p.stack != [] && w in p.stack ==>
      LastTouch(adj, p.order, |p.order|, w) <= LastTouch(adj, p.order, |p.order|, p.stack[|p.stack| - 1])
  }

  /** The state of the traversal before its k-th visit. */
  lemma {:induction false} BeforeVisit(adj: Lists, s: int, k: nat)
    requires Closed(adj) && 0 <= s < |adj| && k < |StackOrder(adj, s)|
    ensures var p, order := StackAt(adj, s, k), StackOrder(adj, s);
            ProgressOk(adj, s, p) && |p.order| == k && p.order == order[..k] && p.stack != [] && p.stack[|p.stack| - 1] == order[k]
  {
    var n := |adj|;
    OrderIsReachable(adj, s);
    StackAtInv(adj, s, k);
    VisitsGrow(adj, s, k, n);
    NextVisit(adj, s, k, n);
  }

  lemma {:induction false} NextVisit(adj: Lists, s: int, k: nat, n: nat)
    requires k < n && |StackAt(adj, s, k).order| < |StackAt(adj, s, n).order|
    ensures var p, order := StackAt(adj, s, k), StackAt(adj, s, n).order;
            p.stack != [] && p.order <= order && p.stack[|p.stack| - 1] == order[|p.order|]
  {
    VisitsGrow(adj, s, k, n);
    VisitsGrow(adj, s, k + 1, n);
    var p := StackAt(adj, s, k);
    assert StackAt(adj, s, k + 1) == Turn(adj, p);
    assert p.stack != [] ==> StackAt(adj, s, k + 1).order == p.order + [p.stack[|p.stack| - 1]];
  }

  /** order continues the visits of p with the vertex on top. */
  ghost predicate Continues(p: Progress, order: seq<int>) {
    && p.order != [] && p.stack != [] && |p.order| < |order| && p.order == order[..|p.order|]
    && p.stack[|p.stack| - 1] == order[|p.order|]
  }

  lemma {:induction false} SameTouches(adj: Lists, p: Progress, order: seq<int>)
    requires Continues(p, order)
    ensures forall w :: LastTouch(adj, p.order, |p.order|, w) == LastTouch(adj, order, |p.order|, w)
  {
    forall w ensures LastTouch(adj, p.order, |p.order|, w) == LastTouch(adj, order, |p.order|, w) {
      TouchOfPrefix(adj, p.order, order, |p.order|, w);
    }
  }

  lemma {:induction false} TopTouched(adj: Lists, s: int, p: Progress, order: seq<int>)
    requires ProgressOk(adj, s, p) && Continues(p, order)
    ensures LastTouch(adj, order, |p.order|, order[|p.order|]) >= 0
  {
    var top := order[|p.order|];
    assert top in p.stack;
    var x :| 0 <= x < |p.order| && HasArc(adj, p.order[x], top);
    assert order[x] == p.order[x];
  }

  /** With the newest on top, the next visit comes from the latest vertex that is not done. */
  lemma {:induction false} NewestGoesLatest(adj: Lists, s: int, p: Progress, order: seq<int>)
    requires ProgressOk(adj, s, p) && Continues(p, order) && NewestOnTop(adj, p)
    ensures FromLatest(adj, order, |p.order|)
  {
    var k := |p.order|;
    var a := LastTouch(adj, order, k, order[k]);
    SameTouches(adj, p, order);
    TopTouched(adj, s, p, order);
    forall x | a < x < k ensures !Open(adj, order, k, x) { NotOpen(adj, s, p, order, a, x); }
  }

  /** A waiting vertex touched later than the next visit makes that visit come too early. */
  lemma {:induction false} LatestIsNewest(adj: Lists, s: int, p: Progress, order: seq<int>)
    requires ProgressOk(adj, s, p) && Continues(p, order) && FromLatest(adj, order, |p.order|)
    ensures NewestOnTop(adj, p)
  {
    var k := |p.order|;
    SameTouches(adj, p, order);
    WaitingNotVisited(adj, s, p);
    var a :| 0 <= a < k && HasArc(adj, order[a], order[k]) && forall x :: a < x < k ==> !Open(adj, order, k, x);
    forall w | w in p.stack ensures LastTouch(adj, order, k, w) <= a { TouchedBefore(adj, order, k, a, w); }
  }

  lemma {:induction false} TouchedBefore(adj: Lists, order: seq<int>, k: nat, a: int, w: int)
    requires k <= |order| && 0 <= a < k && w !in order[..k] && forall x :: a < x < k ==> !Open(adj, order, k, x)
    ensures LastTouch(adj, order, k, w) <= a
  {
    var t := LastTouch(adj, order, k, w);
    assert t >= 0 ==> HasArc(adj, order[t], w);
    assert t >= 0 ==> Open(adj, order, k, t);
  }

  lemma {:induction false} WaitingNotVisited(adj: Lists, s: int, p: Progress)
    requires Stacked(adj, s, p.order, p.stack)
    ensures forall w :: w in p.stack ==> w !in p.order
  {
    forall w | w in p.stack ensures w !in p.order {
      var m :| 0 <= m < |p.stack| && p.stack[m] == w;
      assert (p.order + p.stack)[|p.order| + m] == w;
      assert forall i :: 0 <= i < |p.order| ==> (p.order + p.stack)[i] == p.order[i];
    }
  }

  lemma {:induction false} NotOpen(adj: Lists, s: int, p: Progress, order: seq<int>, a: int, x: int)
    requires ProgressOk(adj, s, p) && |p.order| <= |order| && p.order == order[..|p.order|]
    requires forall w :: w in p.stack ==> LastTouch(adj, order, |p.order|, w) <= a
    requires a < x < |p.order| && 0 <= x
    ensures !Open(adj, order, |p.order|, x)
  {
    forall u | HasArc(adj, order[x], u) ensures u in order[..|p.order|] {
      assert p.order[x] == order[x];
      assert u in p.order + p.stack;
    }
  }

  /** The k-th visit takes a vertex that was touched as late as any that waits. */
  ghost predicate Timely(adj: Lists, s: int, k: nat) { NewestOnTop(adj, StackAt(adj, s, k)) }

  ghost predicate TimelyBelow(adj: Lists, s: int, n: nat) { forall i: nat :: 0 < i < n ==> Timely(adj, s, i) }

  lemma {:induction false} VisitTimelyIff(adj: Lists, s: int, order: seq<int>, k: nat)
    requires Closed(adj) && 0 <= s < |adj| && order == StackOrder(adj, s) && 0 < k < |order|
    ensures FromLatest(adj, order, k) <==> Timely(adj, s, k)
  {
    BeforeVisit(adj, s, k);
    var p := StackAt(adj, s, k);
    if NewestOnTop(adj, p) { NewestGoesLatest(adj, s, p, order); }
    if FromLatest(adj, order, k) { LatestIsNewest(adj, s, p, order); }
  }

  lemma {:induction false} EachVisitIff(adj: Lists, s: int, order: seq<int>)
    requires Closed(adj) && 0 <= s < |adj| && order == StackOrder(adj, s)
    ensures (forall k :: 0 < k < |order| ==> FromLatest(adj, order, k)) <==> TimelyBelow(adj, s, |order|)
  {
    forall k: nat | 0 < k < |order| ensures FromLatest(adj, order, k) <==> Timely(adj, s, k) {
      VisitTimelyIff(adj, s, order, k);
    }
  }

  /**
    * The visits are a depth-first order if and only if, whenever a vertex is popped, no vertex still
    * waiting was touched by a later visit. A vertex is pushed when it is first touched and never moved,
    * so a second arc to a waiting vertex can break this.
    */
  lemma {:induction false} DepthFirstIff(adj: Lists, s: int)
    requires Closed(adj) && 0 <= s < |adj|
    ensures DepthFirst(adj, s, StackOrder(adj, s)) <==> TimelyBelow(adj, s, |StackOrder(adj, s)|)
  {
    OrderIsReachable(adj, s);
    EachVisitIff(adj, s, StackOrder(adj, s));
  }

  /** One turn of the traversal, with the test of its pop. */
  method CheckTurn(adj: Lists, s: int, p: Progress, k: nat) returns (timely: bool, p': Progress)
    requires p == StackAt(adj, s, k) && p.stack != []
    ensures timely <==> k == 0 || Timely(adj, s, k)
    ensures p' == StackAt(adj, s, k + 1)
  {
    timely := k == 0 || NewestOnTop(adj, p);
    p' := Turn(adj, p);
  }

  /** Are all pops timely? */
  method CheckPops(adj: Lists, s: int) returns (b: bool)
    requires Closed(adj) && 0 <= s < |adj|
    ensures b <==> TimelyBelow(adj, s, |StackOrder(adj, s)|)
  {
    var p, k := Progress([], [s]), 0;
    while p.stack != []
      invariant p == StackAt(adj, s, k) && 0 <= k <= |adj| && TimelyBelow(adj, s, k)
      decreases |adj| - k
    {
      CheckNext(adj, s, k);
      var timely;
      timely, p := CheckTurn(adj, s, p, k);
      if !timely { return false; }
      k := k + 1;
    }
    CheckEnds(adj, s, k);
    return true;
  }

  /** Decides before any visit whether the order will be depth-first. */
  method CheckDepthFirst(adj: Lists, s: int) returns (b: bool)
    requires Closed(adj) && 0 <= s < |adj|
    ensures b <==> DepthFirst(adj, s, StackOrder(adj, s))
  {
    b := CheckPops(adj, s);
    DepthFirstIff(adj, s);
  }

  lemma {:induction false} CheckNext(adj: Lists, s: int, k: nat)
    requires Closed(adj) && 0 <= s < |adj| && StackAt(adj, s, k).stack != []
    ensures k < |StackOrder(adj, s)| <= |adj|
  {
    WithinSlots(adj, s, k);
    OrderIsReachable(adj, s);
  }

  lemma {:induction false} CheckEnds(adj: Lists, s: int, k: nat)
    requires Closed(adj) && 0 <= s < |adj| && k <= |adj| && StackAt(adj, s, k).stack == []
    ensures |StackOrder(adj, s)| <= k
  {
    VisitsGrow(adj, s, k, |adj|);
    StackAtInv(adj, s, k);
  }

  // ---- Graphs on which it is one ------------------------------------------------------------

  /** Expanding the vertex on top passes over no waiting vertex. */
  ghost predicate PassesNone(adj: Lists, p: Progress) {
    p.stack != [] ==> NoArcInto(adj, p.stack[|p.stack| - 1], p.stack[..|p.stack| - 1])
  }

  ghost predicate NoArcInto(adj: Lists, v: int, t: seq<int>) { forall u :: u in t ==> !HasArc(adj, v, u) }

  /** Waiting vertices lie in the order they were last touched in. */
  ghost predicate TouchSorted(adj: Lists, order: seq<int>, stack: seq<int>) {
    forall m, n :: 0 <= m <= n < |stack| ==> LastTouch(adj, order, |order|, stack[m]) <= LastTouch(adj, order, |order|, stack[n])
  }

  lemma {:induction false} TurnKeepsSorted(adj: Lists, p: Progress)
    requires TouchSorted(adj, p.order, p.stack) && PassesNone(adj, p)
    ensures TouchSorted(adj, Turn(adj, p).order, Turn(adj, p).stack)
  {
    if p.stack != [] {
      var v, t := p.stack[|p.stack| - 1], p.stack[..|p.stack| - 1];
      var order, k := p.order + [v], |p.order|;
      var r := Pushes(order, t, Neighbours(adj, v));
      PushesShape(order, t, Neighbours(adj, v));
      forall m | 0 <= m < |r|
        ensures LastTouch(adj, order, k + 1, r[m]) == if m < |t| then LastTouch(adj, p.order, k, t[m]) else k
      {
        if m < |t| {
          assert r[m] == t[m] && t[m] in t;
          assert order[k] == v && !HasArc(adj, v, t[m]);
          TouchOfPrefix(adj, order, p.order, k, t[m]);
        } else {
          assert HasArc(adj, order[k], r[m]);
        }
      }
    }
  }

  lemma {:induction false} PassedNoneSorted(adj: Lists, s: int, n: nat)
    requires forall k: nat :: k < n ==> PassesNone(adj, StackAt(adj, s, k))
    ensures TouchSorted(adj, StackAt(adj, s, n).order, StackAt(adj, s, n).stack)
  {
    if n > 0 {
      PassedNoneSorted(adj, s, n - 1);
      TurnKeepsSorted(adj, StackAt(adj, s, n - 1));
    }
  }

  /** A traversal that never passes over a waiting vertex is depth-first. */
  lemma {:induction false} PassedNoneIsDepthFirst(adj: Lists, s: int)
    requires Closed(adj) && 0 <= s < |adj| && forall k: nat :: PassesNone(adj, StackAt(adj, s, k))
    ensures DepthFirst(adj, s, StackOrder(adj, s))
  {
    forall k: nat | 0 < k < |StackOrder(adj, s)| ensures Timely(adj, s, k) {
      PassedNoneSorted(adj, s, k);
    }
    DepthFirstIff(adj, s);
  }

  /** No reachable vertex other than s is entered from two reachable vertices. */
  ghost predicate EnteredOnce(adj: Lists, s: int) {
    forall x, y, w :: HasArc(adj, x, w) && HasArc(adj, y, w) && w != s && Reachable(adj, s, x) && Reachable(adj, s, y) ==> x == y
  }

  lemma {:induction false} EnteredOncePasses(adj: Lists, s: int, p: Progress)
    requires ProgressOk(adj, s, p) && EnteredOnce(adj, s)
    ensures PassesNone(adj, p)
  {
    if p.stack != [] && p.order != [] {
      var v, t := p.stack[|p.stack| - 1], p.stack[..|p.stack| - 1];
      WaitingNotVisited(adj, s, p);
      assert v in p.stack && v in p.order + p.stack;
      forall u | u in t ensures !HasArc(adj, v, u) {
        assert u in p.stack && p.order[0] == s;
        var a :| 0 <= a < |p.order| && HasArc(adj, p.order[a], u);
        assert p.order[a] in p.order && p.order[a] in p.order + p.stack;
      }
    }
  }

  /** On every graph whose reachable vertices are entered once, the traversal is depth-first. */
  lemma {:induction false} EnteredOnceIsDepthFirst(adj: Lists, s: int)
    requires Closed(adj) && 0 <= s < |adj| && EnteredOnce(adj, s)
    ensures DepthFirst(adj, s, StackOrder(adj, s))
  {
    forall k: nat ensures PassesNone(adj, StackAt(adj, s, k)) {
      StackAtInv(adj, s, k);
      EnteredOncePasses(adj, s, StackAt(adj, s, k));
    }
    PassedNoneIsDepthFirst(adj, s);
  }

  /** A walk that repeats no vertex. */
  ghost predicate SimplePath(adj: Lists, s: int, v: int, w: seq<int>) { Walk(adj, s, v, w) && Distinct(w) }

  /** At most one simple path leads from s to each vertex, as in a forest, directed or undirected. */
  ghost predicate OnePath(adj: Lists, s: int) {
    forall v, w, w' :: SimplePath(adj, s, v, w) && SimplePath(adj, s, v, w') ==> w == w'
  }

  lemma {:induction false} PathExtends(adj: Lists, s: int, u: int, w: seq<int>, v: int)
    requires SimplePath(adj, s, u, w) && HasArc(adj, u, v) && v !in w
    ensures SimplePath(adj, s, v, w + [v])
  {
    WalkExtends(adj, s, u, w, v);
  }

  /** A visited vertex has a simple path through visited vertices only. */
  lemma {:induction false} VisitedPath(adj: Lists, s: int, order: seq<int>, k: nat) returns (w: seq<int>)
    requires Closed(adj) && 0 <= s < |adj| && order == StackOrder(adj, s) && k < |order|
    ensures SimplePath(adj, s, order[k], w) && forall x :: x in w ==> x in order[..k + 1]
    decreases k, 1
  {
    OrderIsReachable(adj, s);
    if k == 0 {
      w := [s];
    } else {
      BeforeVisit(adj, s, k);
      var a, t := WaitingPath(adj, s, order, k, order[k]);
      w := t + [order[k]];
      assert order[..k + 1] == order[..k] + [order[k]];
    }
  }

  /** A waiting vertex has a simple path through visited vertices only; a is the visit before it. */
  lemma {:induction false} WaitingPath(adj: Lists, s: int, order: seq<int>, k: nat, u: int) returns (a: nat, t: seq<int>)
    requires Closed(adj) && 0 <= s < |adj| && order == StackOrder(adj, s) && 0 < k < |order| && u in StackAt(adj, s, k).stack
    ensures a < k && SimplePath(adj, s, order[a], t) && SimplePath(adj, s, u, t + [u]) && forall x :: x in t ==> x in order[..k]
    decreases k, 0
  {
    BeforeVisit(adj, s, k);
    var p := StackAt(adj, s, k);
    WaitingNotVisited(adj, s, p);
    a :| 0 <= a < k && HasArc(adj, p.order[a], u);
    assert p.order[a] == order[a];
    t := VisitedPath(adj, s, order, a);
    assert order[..a + 1] <= order[..k];
    PathExtends(adj, s, order[a], t, u);
  }

  /** Two simple paths to u that come from different vertices cannot both be the only one. */
  lemma {:induction false} LastStep(adj: Lists, s: int, t: seq<int>, w: seq<int>, x: int, y: int, u: int)
    requires OnePath(adj, s) && SimplePath(adj, s, x, t) && SimplePath(adj, s, u, t + [u])
    requires SimplePath(adj, s, y, w) && SimplePath(adj, s, u, w + [u])
    ensures x == y
  {
    assert t + [u] == w + [u];
    assert (t + [u])[|t| - 1] == x && (w + [u])[|w| - 1] == y;
  }

  /** Passing over a waiting vertex u takes two simple paths to u: through the vertex that pushed it and through v. */
  lemma {:induction false} TwoPaths(adj: Lists, s: int, order: seq<int>, k: nat, u: int)
    requires Closed(adj) && 0 <= s < |adj| && order == StackOrder(adj, s) && 0 < k < |order| && OnePath(adj, s)
    requires u in StackAt(adj, s, k).stack && u != order[k] && u !in order[..k] && order[k] !in order[..k]
    ensures !HasArc(adj, order[k], u)
  {
    if HasArc(adj, order[k], u) {
      var a, t := WaitingPath(adj, s, order, k, u);
      var w := VisitedPath(adj, s, order, k);
      assert order[..k + 1] == order[..k] + [order[k]];
      PathExtends(adj, s, order[k], w, u);
      assert order[a] in order[..k];
      LastStep(adj, s, t, w, order[a], order[k], u);
    }
  }

  lemma {:induction false} TopApart(order: seq<int>, stack: seq<int>, u: int)
    requires Distinct(order + stack) && stack != [] && u in stack[..|stack| - 1]
    ensures u in stack && u != stack[|stack| - 1]
  {
    var m :| 0 <= m < |stack| - 1 && stack[m] == u;
    assert (order + stack)[|order| + m] == u && (order + stack)[|order| + |stack| - 1] == stack[|stack| - 1];
  }

  lemma {:induction false} NotPassedOver(adj: Lists, s: int, order: seq<int>, k: nat, p: Progress, u: int)
    requires Closed(adj) && 0 <= s < |adj| && OnePath(adj, s) && order == StackOrder(adj, s) && 0 < k < |order|
    requires p == StackAt(adj, s, k) && ProgressOk(adj, s, p) && p.order == order[..k]
    requires p.stack != [] && p.stack[|p.stack| - 1] == order[k] && u in p.stack[..|p.stack| - 1]
    ensures !HasArc(adj, order[k], u)
  {
    WaitingNotVisited(adj, s, p);
    TopApart(p.order, p.stack, u);
    assert order[k] in p.stack;
    TwoPaths(adj, s, order, k, u);
  }

  lemma {:induction false} OnePathPasses(adj: Lists, s: int, order: seq<int>, k: nat)
    requires Closed(adj) && 0 <= s < |adj| && OnePath(adj, s) && order == StackOrder(adj, s)
    ensures PassesNone(adj, StackAt(adj, s, k))
  {
    var p := StackAt(adj, s, k);
    if k > 0 && p.stack != [] {
      WithinSlots(adj, s, k);
      BeforeVisit(adj, s, k);
      var v, below := order[k], p.stack[..|p.stack| - 1];
      forall u | u in below ensures !HasArc(adj, v, u) { NotPassedOver(adj, s, order, k, p, u); }
    }
  }

  lemma {:induction false} OneMoreVisit(adj: Lists, s: int, k: nat)
    requires StackAt(adj, s, k).stack != []
    ensures |StackAt(adj, s, k + 1).order| == |StackAt(adj, s, k).order| + 1
  {
  }

  lemma {:induction false} BeforeEnd(adj: Lists, s: int, k: nat, n: nat)
    requires StackAt(adj, s, k).stack != [] && StackAt(adj, s, n).stack == []
    ensures k < n && |StackAt(adj, s, k).order| < |StackAt(adj, s, n).order|
  {
    if k >= n { VisitsGrow(adj, s, n, k); }
    OneMoreVisit(adj, s, k);
    VisitsGrow(adj, s, k + 1, n);
  }

  lemma {:induction false} WithinSlots(adj: Lists, s: int, k: nat)
    requires Closed(adj) && 0 <= s < |adj| && StackAt(adj, s, k).stack != []
    ensures k < |StackOrder(adj, s)|
  {
    OrderIsReachable(adj, s);
    BeforeEnd(adj, s, k, |adj|);
    StackAtInv(adj, s, k);
  }

  /** On every graph with one simple path from s to each vertex, so on every forest, the traversal is depth-first. */
  lemma {:induction false} OnePathIsDepthFirst(adj: Lists, s: int)
    requires Closed(adj) && 0 <= s < |adj| && OnePath(adj, s)
    ensures DepthFirst(adj, s, StackOrder(adj, s))
  {
    forall k: nat ensures PassesNone(adj, StackAt(adj, s, k)) { OnePathPasses(adj, s, StackOrder(adj, s), k); }
    PassedNoneIsDepthFirst(adj, s);
  }

  /** Pushing 1, 2, 3 leaves 1 on top; pushing 3 again does nothing. */
  lemma {:induction false} PushedThree(one: seq<int>, three: seq<int>)
    requires one == [3] && three == [1, 2, 3]
    ensures Pushes([0], [], three) == [3, 2, 1] && Pushes([0, 1], [3, 2], one) == [3, 2]
  {
    var two := three[..2];
    assert Pushes([0], [3, 2, 1], []) == [3, 2, 1];
    assert two[..1] == [1] && [1][..0] == [];
    assert Pushes([0], [3, 2], [1]) == Pushes([0], [3, 2] + [1], []);
    assert Pushes([0], [3], two) == Pushes([0], [3] + [2], [1]);
    assert Pushes([0], [], three) == Pushes([0], [] + [3], two);
  }

  lemma {:induction false} TurnOf(adj: Lists, order: seq<int>, t: seq<int>, v: int, r: seq<int>)
    requires Pushes(order + [v], t, Neighbours(adj, v)) == r
    ensures Turn(adj, Progress(order, t + [v])) == Progress(order + [v], r)
  {
    assert (t + [v])[..|t + [v]| - 1] == t;
  }

  /** The graph with arcs 0 to 1, 2, 3 and 1 to 3. */
  predicate Fork(adj: Lists) { |adj| == 4 && adj[0] == [1, 2, 3] && adj[1] == [3] && adj[2] == [] && adj[3] == [] }

  lemma {:induction false} FirstVisits(adj: Lists)
    requires Fork(adj)
    ensures Turn(adj, Progress([], [0])) == Progress([0], [3, 2, 1])
    ensures Turn(adj, Progress([0], [3, 2, 1])) == Progress([0, 1], [3, 2])
  {
    PushedThree(adj[1], adj[0]);
    assert [] + [0] == [0] && [3, 2] + [1] == [3, 2, 1] && [0] + [1] == [0, 1];
    TurnOf(adj, [], [], 0, [3, 2, 1]);
    TurnOf(adj, [0], [3, 2], 1, [3, 2]);
  }

  lemma {:induction false} LastVisits(adj: Lists)
    requires Fork(adj)
    ensures Turn(adj, Progress([0, 1], [3, 2])) == Progress([0, 1, 2], [3])
    ensures Turn(adj, Progress([0, 1, 2], [3])) == Progress([0, 1, 2, 3], [])
  {
    assert [3] + [2] == [3, 2] && [0, 1] + [2] == [0, 1, 2] && [] + [3] == [3] && [0, 1, 2] + [3] == [0, 1, 2, 3];
    TurnOf(adj, [0, 1], [3], 2, [3]);
    TurnOf(adj, [0, 1, 2], [], 3, []);
  }

  lemma {:induction false} FourVisits(adj: Lists)
    requires Fork(adj)
    ensures StackOrder(adj, 0) == [0, 1, 2, 3]
  {
    FirstVisits(adj);
    LastVisits(adj);
    FourTurns(adj, Progress([], [0]), Progress([0], [3, 2, 1]), Progress([0, 1], [3, 2]), Progress([0, 1, 2], [3]),
              Progress([0, 1, 2, 3], []));
  }

  lemma {:induction false} FourTurns(adj: Lists, p0: Progress, p1: Progress, p2: Progress, p3: Progress, p4: Progress)
    requires p0 == Progress([], [0])
    requires Turn(adj, p0) == p1 && Turn(adj, p1) == p2 && Turn(adj, p2) == p3 && Turn(adj, p3) == p4
    ensures StackAt(adj, 0, 4) == p4
  {
    assert StackAt(adj, 0, 0) == p0;
    assert StackAt(adj, 0, 1) == p1;
    assert StackAt(adj, 0, 2) == p2;
    assert StackAt(adj, 0, 3) == p3;
  }

  /** Arcs 0 to 1, 2, 3 and 1 to 3: the visits are 0, 1, 2, 3, but after 1 a depth-first traversal goes to 3. */
  lemma {:induction false} NotDepthFirst(adj: Lists)
    requires adj == [[1, 2, 3], [3], [], []]
    ensures Closed(adj) && StackOrder(adj, 0) == [0, 1, 2, 3] && !DepthFirst(adj, 0, [0, 1, 2, 3])
  {
    FourVisits(adj);
    var order := [0, 1, 2, 3];
    assert Open(adj, order, 2, 1) by { assert HasArc(adj, order[1], 3) && 3 !in order[..2]; }
    assert !HasArc(adj, order[1], order[2]);
    assert !FromLatest(adj, order, 2);
  }
}
