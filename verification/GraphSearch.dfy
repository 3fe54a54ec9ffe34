/** Walks, distances and what a traversal's queue or stack keeps at every step. */
module GraphSearch {
  import opened Sequences

  type Lists = seq<seq<int>>

  ghost predicate Closed(adj: Lists) {
    forall u, k :: 0 <= u < |adj| && 0 <= k < |adj[u]| ==> 0 <= adj[u][k] < |adj|
  }

  predicate HasArc(adj: Lists, u: int, v: int) { 0 <= u < |adj| && v in adj[u] }

  predicate Hop(adj: Lists, w: seq<int>, i: int)
    requires 0 <= i < |w| - 1
  {
    HasArc(adj, w[i], w[i + 1])
  }

  /** w is a walk from s to v along the arcs; it has |w| - 1 of them. */
  ghost predicate Walk(adj: Lists, s: int, v: int, w: seq<int>) {
    && |w| > 0 && w[0] == s && w[|w| - 1] == v
    && forall i {:trigger Hop(adj, w, i)} :: 0 <= i < |w| - 1 ==> Hop(adj, w, i)
  }

  ghost predicate Reachable(adj: Lists, s: int, v: int) { exists w :: Walk(adj, s, v, w) }

  /** v is at most d arcs away from s. */
  ghost predicate Near(adj: Lists, s: int, v: int, d: nat) {
    exists w :: Walk(adj, s, v, w) && |w| <= d + 1
  }

  lemma {:induction false} WalkExtends(adj: Lists, s: int, u: int, w: seq<int>, v: int)
    requires Walk(adj, s, u, w) && HasArc(adj, u, v)
    ensures Walk(adj, s, v, w + [v])
  {
    forall i | 0 <= i < |w| ensures Hop(adj, w + [v], i) {
      if i < |w| - 1 { assert Hop(adj, w, i); }
    }
  }

  lemma {:induction false} WalkPrefix(adj: Lists, s: int, v: int, w: seq<int>)
    requires Walk(adj, s, v, w) && |w| >= 2
    ensures var n := |w| - 1;
            Walk(adj, s, w[n - 1], w[..n]) && HasArc(adj, w[n - 1], v)
  {
    var n := |w| - 1;
    var p := w[..n];
    assert Hop(adj, w, n - 1);
    forall i | 0 <= i < n - 1 ensures Hop(adj, p, i) { assert Hop(adj, w, i); }
  }

  lemma {:induction false} NearStep(adj: Lists, s: int, d: nat, u: int, v: int)
    requires Near(adj, s, u, d) && HasArc(adj, u, v)
    ensures Near(adj, s, v, d + 1)
  {
    var w :| Walk(adj, s, u, w) && |w| <= d + 1;
    WalkExtends(adj, s, u, w, v);
  }

  /** What is d arcs away is nearer, or one arc behind something nearer. */
  lemma {:induction false} NearSource(adj: Lists, s: int, d: nat, v: int) returns (u: int)
    requires d > 0 && Near(adj, s, v, d)
    ensures Near(adj, s, v, d - 1) || (Near(adj, s, u, d - 1) && HasArc(adj, u, v))
  {
    var w :| Walk(adj, s, v, w) && |w| <= d + 1;
    u := s;
    if |w| > d {
      WalkPrefix(adj, s, v, w);
      u := w[|w| - 2];
    }
  }

  ghost predicate AtDistance(adj: Lists, s: int, v: int, d: nat) {
    Near(adj, s, v, d) && (d > 0 ==> !Near(adj, s, v, d - 1))
  }

  /** u is queued at level d or lower. */
  ghost predicate Queued(q: seq<int>, lev: seq<nat>, u: int, d: int) {
    exists j :: 0 <= j < |q| && j < |lev| && q[j] == u && lev[j] <= d
  }

  ghost predicate Rising(lev: seq<nat>) { forall i, j :: 0 <= i <= j < |lev| ==> lev[i] <= lev[j] }

  /** The first k neighbours of u are queued at level d or lower. */
  ghost predicate Expanded(adj: Lists, q: seq<int>, lev: seq<nat>, u: int, k: int, d: int) {
    0 <= u < |adj| && k <= |adj[u]| && forall i :: 0 <= i < k ==> Queued(q, lev, adj[u][i], d)
  }

  /** The queue holds distinct vertices from s on, in order of level, and at most two levels wait. */
  ghost predicate Lined(adj: Lists, s: int, q: seq<int>, lev: seq<nat>, h: int) {
    && Closed(adj) && 0 < |q| == |lev| && 0 <= h <= |q| && Distinct(q) && InRange(q, |adj|)
    && q[0] == s && lev[0] == 0 && Rising(lev)
    && (h < |q| ==> lev[|q| - 1] <= lev[h] + 1)
  }

  /** Levels are distances. */
  ghost predicate Leveled(adj: Lists, s: int, q: seq<int>, lev: seq<nat>) {
    |q| == |lev| && forall i :: 0 <= i < |q| ==> AtDistance(adj, s, q[i], lev[i])
  }

  /** The neighbours of the first h entries are queued, one level further at most. */
  ghost predicate Served(adj: Lists, q: seq<int>, lev: seq<nat>, h: int) {
    && 0 <= h <= |q| == |lev| && InRange(q, |adj|)
    && forall i :: 0 <= i < h ==> Expanded(adj, q, lev, q[i], |adj[q[i]]|, lev[i] + 1)
  }

  /** The queue q, all that was ever put in it, with the distances lev of its entries; h of them are dequeued. */
  ghost predicate Frontier(adj: Lists, s: int, q: seq<int>, lev: seq<nat>, h: int) {
    Lined(adj, s, q, lev, h) && Leveled(adj, s, q, lev) && Served(adj, q, lev, h)
  }

  /** The entry at h is being expanded and its first k neighbours are done. */
  ghost predicate Expanding(adj: Lists, s: int, q: seq<int>, lev: seq<nat>, h: int, k: int) {
    Frontier(adj, s, q, lev, h) && h < |q| && Expanded(adj, q, lev, q[h], k, lev[h] + 1)
  }

  /** Once everything nearer than d is expanded, everything within distance d is queued. */
  lemma {:induction false} NearQueued(adj: Lists, s: int, q: seq<int>, lev: seq<nat>, h: int, d: nat, v: int)
    requires Frontier(adj, s, q, lev, h) && Near(adj, s, v, d)
    requires forall j :: 0 <= j < |q| && lev[j] < d ==> j < h
    ensures Queued(q, lev, v, d)
  {
    if d > 0 {
      var u := NearSource(adj, s, d, v);
      if Near(adj, s, v, d - 1) {
        NearQueued(adj, s, q, lev, h, d - 1, v);
      } else {
        NearQueued(adj, s, q, lev, h, d - 1, u);
        var j :| 0 <= j < |q| && q[j] == u && lev[j] <= d - 1;
        NeighbourQueued(adj, q, lev, h, j, v);
      }
    }
  }

  lemma {:induction false} NeighbourQueued(adj: Lists, q: seq<int>, lev: seq<nat>, h: int, j: int, v: int)
    requires Served(adj, q, lev, h) && 0 <= j < h && v in adj[q[j]]
    ensures Queued(q, lev, v, lev[j] + 1)
  {
    var u := q[j];
    assert Expanded(adj, q, lev, u, |adj[u]|, lev[j] + 1);
    var i :| 0 <= i < |adj[u]| && adj[u][i] == v;
    assert Queued(q, lev, adj[u][i], lev[j] + 1);
  }

  lemma {:induction false} QueuedMono(q: seq<int>, lev: seq<nat>, u: int, d: int, x: int, l: nat)
    requires |q| == |lev| && Queued(q, lev, u, d)
    ensures Queued(q + [x], lev + [l], u, d)
  {
    var j :| 0 <= j < |q| && q[j] == u && lev[j] <= d;
    assert (q + [x])[j] == u && (lev + [l])[j] <= d;
  }

  lemma {:induction false} ExpandedMono(adj: Lists, q: seq<int>, lev: seq<nat>, u: int, k: int, d: int, x: int, l: nat)
    requires |q| == |lev| && Expanded(adj, q, lev, u, k, d)
    ensures Expanded(adj, q + [x], lev + [l], u, k, d)
  {
    forall i | 0 <= i < k ensures Queued(q + [x], lev + [l], adj[u][i], d) {
      QueuedMono(q, lev, adj[u][i], d, x, l);
    }
  }

  /** An unseen neighbour of the entry at h is one arc further out, and no nearer. */
  lemma {:induction false} UnseenDistance(adj: Lists, s: int, q: seq<int>, lev: seq<nat>, h: int, k: int)
    requires Expanding(adj, s, q, lev, h, k) && k >= 0 && k < |adj[q[h]]| && adj[q[h]][k] !in q
    ensures AtDistance(adj, s, adj[q[h]][k], lev[h] + 1)
  {
    var x, d := adj[q[h]][k], lev[h];
    assert AtDistance(adj, s, q[h], d);
    NearStep(adj, s, d, q[h], x);
    if Near(adj, s, x, d) {
      NearQueued(adj, s, q, lev, h, d, x);
    }
  }

  lemma {:induction false} LinedGrows(adj: Lists, s: int, q: seq<int>, lev: seq<nat>, h: int, x: int)
    requires Lined(adj, s, q, lev, h) && h < |q| && x !in q && 0 <= x < |adj|
    ensures Lined(adj, s, q + [x], lev + [lev[h] + 1], h)
  {
  }

  lemma {:induction false} LeveledGrows(adj: Lists, s: int, q: seq<int>, lev: seq<nat>, x: int, l: nat)
    requires Leveled(adj, s, q, lev) && AtDistance(adj, s, x, l)
    ensures Leveled(adj, s, q + [x], lev + [l])
  {
    var q', lev' := q + [x], lev + [l];
    forall i | 0 <= i < |q'| ensures AtDistance(adj, s, q'[i], lev'[i]) {
      if i < |q| { assert q'[i] == q[i] && lev'[i] == lev[i]; }
    }
  }

  lemma {:induction false} ServedGrows(adj: Lists, q: seq<int>, lev: seq<nat>, h: int, x: int, l: nat)
    requires Served(adj, q, lev, h) && 0 <= x < |adj|
    ensures Served(adj, q + [x], lev + [l], h)
  {
    var q', lev' := q + [x], lev + [l];
    forall i | 0 <= i < h ensures Expanded(adj, q', lev', q'[i], |adj[q'[i]]|, lev'[i] + 1) {
      ExpandedMono(adj, q, lev, q[i], |adj[q[i]]|, lev[i] + 1, x, l);
    }
  }

  lemma {:induction false} FrontierGrows(adj: Lists, s: int, q: seq<int>, lev: seq<nat>, h: int, x: int)
    requires Frontier(adj, s, q, lev, h) && h < |q| && x !in q && 0 <= x < |adj| && AtDistance(adj, s, x, lev[h] + 1)
    ensures Frontier(adj, s, q + [x], lev + [lev[h] + 1], h)
  {
    LinedGrows(adj, s, q, lev, h, x);
    LeveledGrows(adj, s, q, lev, x, lev[h] + 1);
    ServedGrows(adj, q, lev, h, x, lev[h] + 1);
  }

  lemma {:induction false} Discover(adj: Lists, s: int, q: seq<int>, lev: seq<nat>, h: int, k: int)
    requires Expanding(adj, s, q, lev, h, k) && k >= 0 && k < |adj[q[h]]| && adj[q[h]][k] !in q
    ensures Expanding(adj, s, q + [adj[q[h]][k]], lev + [lev[h] + 1], h, k + 1)
  {
    var x, l: nat := adj[q[h]][k], lev[h] + 1;
    UnseenDistance(adj, s, q, lev, h, k);
    FrontierGrows(adj, s, q, lev, h, x);
    ExpandedMono(adj, q, lev, q[h], k, l, x, l);
    assert (q + [x])[|q|] == x && (lev + [l])[|q|] == l;
    assert Queued(q + [x], lev + [l], x, l);
  }

  lemma {:induction false} Skip(adj: Lists, s: int, q: seq<int>, lev: seq<nat>, h: int, k: int)
    requires Expanding(adj, s, q, lev, h, k) && k >= 0 && k < |adj[q[h]]| && adj[q[h]][k] in q
    ensures Expanding(adj, s, q, lev, h, k + 1)
  {
    var j :| 0 <= j < |q| && q[j] == adj[q[h]][k];
    assert lev[j] <= lev[|q| - 1];
    assert Queued(q, lev, adj[q[h]][k], lev[h] + 1);
  }

  ghost predicate AllReachable(adj: Lists, s: int, order: seq<int>) { forall v :: v in order ==> Reachable(adj, s, v) }

  /** Whatever is within a distance when it is visited, everything visited before it is too. */
  ghost predicate NearestFirst(adj: Lists, s: int, order: seq<int>) {
    forall i, j, d: nat :: 0 <= i < j < |order| && Near(adj, s, order[j], d) ==> Near(adj, s, order[i], d)
  }

  /** Every vertex strictly nearer than the last one visited has been visited. */
  ghost predicate NoneNearerLeft(adj: Lists, s: int, order: seq<int>) {
    order != [] && forall v, d: nat :: Near(adj, s, v, d) && !Near(adj, s, order[|order| - 1], d) ==> v in order
  }

  /** The order of visits of a breadth-first traversal, complete or stopped. */
  ghost predicate BreadthFirst(adj: Lists, s: int, order: seq<int>) {
    && order != [] && order[0] == s && Distinct(order)
    && AllReachable(adj, s, order) && NearestFirst(adj, s, order) && NoneNearerLeft(adj, s, order)
  }

  lemma {:induction false} LevelAtMost(adj: Lists, s: int, v: int, l: nat, d: nat)
    requires AtDistance(adj, s, v, l)
    ensures Near(adj, s, v, d) <==> l <= d
  {
  }

  lemma {:induction false} NearerVisited(adj: Lists, s: int, q: seq<int>, lev: seq<nat>, h: int, v: int, d: nat)
    requires Frontier(adj, s, q, lev, h) && h < |q|
    requires Near(adj, s, v, d) && !Near(adj, s, q[h], d)
    ensures v in q[..h]
  {
    assert AtDistance(adj, s, q[h], lev[h]);
    LevelAtMost(adj, s, q[h], lev[h], d);
    NearQueued(adj, s, q, lev, h, d, v);
    var j :| 0 <= j < |q| && q[j] == v && lev[j] <= d;
    assert q[..h][j] == v;
  }

  lemma {:induction false} QueuedReachable(adj: Lists, s: int, q: seq<int>, lev: seq<nat>, n: nat)
    requires Leveled(adj, s, q, lev) && n <= |q|
    ensures AllReachable(adj, s, q[..n])
  {
    forall v | v in q[..n] ensures Reachable(adj, s, v) {
      var i :| 0 <= i < n && q[i] == v;
      assert AtDistance(adj, s, q[i], lev[i]);
      var w :| Walk(adj, s, v, w) && |w| <= lev[i] + 1;
    }
  }

  lemma {:induction false} QueuedNearestFirst(adj: Lists, s: int, q: seq<int>, lev: seq<nat>, n: nat)
    requires Leveled(adj, s, q, lev) && Rising(lev) && n <= |q|
    ensures NearestFirst(adj, s, q[..n])
  {
    forall i, j, d: nat | 0 <= i < j < n && Near(adj, s, q[..n][j], d) ensures Near(adj, s, q[..n][i], d) {
      assert AtDistance(adj, s, q[i], lev[i]) && AtDistance(adj, s, q[j], lev[j]);
      LevelAtMost(adj, s, q[j], lev[j], d);
      LevelAtMost(adj, s, q[i], lev[i], d);
    }
  }

  lemma {:induction false} QueuedNoneNearer(adj: Lists, s: int, q: seq<int>, lev: seq<nat>, h: int)
    requires Frontier(adj, s, q, lev, h) && h < |q|
    ensures NoneNearerLeft(adj, s, q[..h + 1])
  {
    var order := q[..h + 1];
    forall v, d: nat | Near(adj, s, v, d) && !Near(adj, s, order[h], d) ensures v in order {
      NearerVisited(adj, s, q, lev, h, v, d);
      assert q[..h] <= order;
    }
  }

  /** The entries up to and including the one just dequeued are visited in breadth-first order. */
  lemma {:induction false} VisitedInOrder(adj: Lists, s: int, q: seq<int>, lev: seq<nat>, h: int)
    requires Frontier(adj, s, q, lev, h) && h < |q|
    ensures BreadthFirst(adj, s, q[..h + 1])
  {
    QueuedReachable(adj, s, q, lev, h + 1);
    QueuedNearestFirst(adj, s, q, lev, h + 1);
    QueuedNoneNearer(adj, s, q, lev, h);
    assert Distinct(q[..h + 1]);
  }

  /** With an empty queue, every reachable vertex has been visited. */
  lemma {:induction false} AllVisited(adj: Lists, s: int, q: seq<int>, lev: seq<nat>, v: int)
    requires Frontier(adj, s, q, lev, |q|) && Reachable(adj, s, v)
    ensures v in q
  {
    var w :| Walk(adj, s, v, w);
    assert Near(adj, s, v, |w| - 1);
    NearQueued(adj, s, q, lev, |q|, |w| - 1, v);
  }

  /** The visited vertices and the stack of a depth-first traversal, disjoint and free of duplicates. */
  ghost predicate Stacked(adj: Lists, s: int, order: seq<int>, stack: seq<int>) {
    && Closed(adj) && Distinct(order + stack) && InRange(order + stack, |adj|) && s in order + stack
    && (order != [] ==> order[0] == s)
    && forall v :: v in order + stack ==> Reachable(adj, s, v)
  }

  /** Every neighbour of the first n visited vertices is visited or stacked. */
  ghost predicate Followed(adj: Lists, order: seq<int>, stack: seq<int>, n: int) {
    forall i, v :: 0 <= i < n && i < |order| && HasArc(adj, order[i], v) ==> v in order + stack
  }

  lemma {:induction false} PopToVisited(adj: Lists, s: int, order: seq<int>, stack: seq<int>, v: int)
    requires Stacked(adj, s, order, stack + [v]) && Followed(adj, order, stack + [v], |order|)
    requires order == [] ==> v == s
    ensures Stacked(adj, s, order + [v], stack) && Followed(adj, order + [v], stack, |order|)
  {
    var a, b := order + (stack + [v]), order + [v] + stack;
    assert a == order + stack + [v];
    assert Elems(a) == Elems(b) by {
      forall x ensures x in a <==> x in b {}
    }
    Rearranged(a, b);
    forall x | x in b ensures x in a { assert x in Elems(b); }
    forall i | 0 <= i < |b| ensures 0 <= b[i] < |adj| {
      assert b[i] in a;
      var k :| 0 <= k < |a| && a[k] == b[i];
    }
    assert s in b by { assert s in Elems(a); }
    forall x | x in a ensures x in b { assert x in Elems(a); }
  }

  lemma {:induction false} PushNeighbour(adj: Lists, s: int, order: seq<int>, stack: seq<int>, u: int, x: int)
    requires Stacked(adj, s, order, stack) && u in order && HasArc(adj, u, x) && x !in order + stack
    ensures Stacked(adj, s, order, stack + [x])
  {
    assert order + (stack + [x]) == order + stack + [x];
    assert u in order + stack;
    var w :| Walk(adj, s, u, w);
    WalkExtends(adj, s, u, w, x);
    assert exists k :: 0 <= k < |adj[u]| && adj[u][k] == x;
  }

  lemma {:induction false} FollowedMono(adj: Lists, order: seq<int>, stack: seq<int>, n: int, x: int)
    requires Followed(adj, order, stack, n)
    ensures Followed(adj, order, stack + [x], n)
  {
    assert order + (stack + [x]) == order + stack + [x];
  }

  lemma {:induction false} ClosedUnderArcs(adj: Lists, s: int, order: seq<int>, w: seq<int>, v: int)
    requires Stacked(adj, s, order, []) && Followed(adj, order, [], |order|) && Walk(adj, s, v, w)
    ensures v in order
    decreases |w|
  {
    var n := |w| - 1;
    assert order + [] == order;
    if n > 0 {
      WalkPrefix(adj, s, v, w);
      ClosedUnderArcs(adj, s, order, w[..n], w[n - 1]);
      var i :| 0 <= i < |order| && order[i] == w[n - 1];
    }
  }
}
