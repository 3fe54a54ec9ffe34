/** The mutable graph and its traversals. */
module Graph {
  import opened Sequences
  import opened Words
  import opened GraphSearch
  import opened GraphDepth
  import opened GraphSpec
  import opened GraphLists

  /** Growing reaches the slot after the last one if and only if the capacity is not 1. */
  lemma GrowthMakesRoomIff(cap: nat)
    ensures Grown(cap) > cap <==> cap != 1
  {
  }

  ghost predicate Mirrors(visited: seq<bool>, q: seq<int>) {
    forall u :: 0 <= u < |visited| ==> (visited[u] <==> u in q)
  }

  lemma {:induction false} RoomForOneMore(q: seq<int>, x: int, n: nat)
    requires Distinct(q) && InRange(q, n) && x !in q && 0 <= x < n
    ensures |q| < n
  {
    Pigeonhole(q, n);
  }

  class Graph {
    const directed: bool
    var adj: Lists
    var capacities: seq<nat>
    var removed: seq<bool>
    var vertexCount: nat
    var edgeCount: nat

    ghost function Abs(): State
      reads this
    {
      State(directed, |adj|, Active(removed), Arcs(adj), edgeCount)
    }

    ghost predicate Valid()
      reads this
    {
      && Sized(adj, removed, capacities) && edgeCount < WORD
      && vertexCount == |Active(removed)| && WellFormed(Abs())
    }

    constructor (initial: nat, directed: bool)
      ensures Valid() && Abs() == State(directed, if initial == 0 then 8 else initial, {}, {}, 0)
    {
      var cap := if initial == 0 then DEFAULT_CAPACITY else initial;
      this.directed := directed;
      adj := seq(cap, i => []);
      capacities := seq(cap, i => 0);
      removed := seq(cap, i => true);
      vertexCount, edgeCount := 0, 0;
      new;
      assert Active(removed) == {} && Arcs(adj) == {};
    }

    predicate IsActive(v: int)
      reads this
    {
      0 <= v < |removed| && !removed[v]
    }

    method FirstTombstone() returns (slot: int)
      requires Valid()
      ensures -1 <= slot < |removed|
      ensures slot >= 0 ==> removed[slot] && forall i :: 0 <= i < slot ==> !removed[i]
      ensures slot == -1 ==> forall i :: 0 <= i < |removed| ==> !removed[i]
    {
      for i := 0 to |removed|
        invariant forall k :: 0 <= k < i ==> !removed[k]
      {
        if removed[i] { return i; }
      }
      return -1;
    }

    /** The four arrays grow together; new slots are tombstones. */
    method GrowVertices()
      requires Valid()
      modifies this`adj, this`capacities, this`removed
      ensures Valid() && Abs() == old(Abs()).(slots := Grown(old(|adj|)))
      ensures removed[..old(|removed|)] == old(removed)
      ensures forall i :: old(|removed|) <= i < |removed| ==> removed[i]
    {
      var extra := Grown(|adj|) - |adj|;
      ghost var was := adj;
      adj := adj + seq(extra, i => []);
      capacities := capacities + seq(extra, i => 0);
      removed := removed + seq(extra, i => true);
      assert Active(removed) == old(Active(removed));
      assert forall u, v :: HasArc(adj, u, v) <==> HasArc(was, u, v);
      assert Arcs(adj) == Arcs(was);
    }

    method Activate(slot: int)
      requires Valid() && 0 <= slot < |removed| && removed[slot]
      modifies this`removed, this`vertexCount
      ensures Valid() && Abs() == old(Abs()).(vertices := old(Abs()).vertices + {slot})
    {
      ghost var was := Active(removed);
      removed := removed[slot := false];
      vertexCount := vertexCount + 1;
      assert Active(removed) == was + {slot};
    }

    /**
      * The lowest tombstone becomes a vertex; without one the arrays grow first. From a single, occupied
      * slot growing adds nothing, and the write to the slot after it leaves the array.
      */
    method AddVertex(grows: bool) returns (r: Result)
      requires Valid()
      modifies this
      ensures r == AdditionResult(old(Abs()), grows)
      ensures r != Overrun ==> Valid() && Step(old(Abs()), Op.AddVertex(grows), r, Abs())
      ensures r == Overrun ==> |adj| == old(|adj|) < vertexCount == old(vertexCount) + 1
    {
      ghost var s := Abs();
      var slot := FirstTombstone();
      if slot == -1 {
        ActiveFull(removed);
        if !grows { return NoMemory; }
        GrowthMakesRoomIff(|adj|);
        if Grown(|adj|) == |adj| {
          vertexCount := vertexCount + 1;
          return Overrun;
        }
        GrowVertices();
        slot := vertexCount;
      } else {
        NotFull(removed, slot);
      }
      assert Lowest(s.vertices, slot);
      Activate(slot);
      return Done;
    }

    /** The scan of a list for a neighbour. */
    method Scan(u: int, v: int) returns (k: nat)
      requires 0 <= u < |adj|
      ensures k <= |adj[u]| && (k < |adj[u]| <==> HasArc(adj, u, v)) && (k < |adj[u]| ==> adj[u][k] == v)
    {
      k := 0;
      while k < |adj[u]|
        invariant k <= |adj[u]| && v !in adj[u][..k]
      {
        if adj[u][k] == v { return; }
        k := k + 1;
      }
      assert adj[u][..k] == adj[u];
    }

    method HasEdge(u: int, v: int) returns (b: bool)
      requires Valid()
      ensures b <==> (u, v) in Abs().arcs
    {
      if !IsActive(u) || !IsActive(v) {
        assert HasArc(adj, u, v) ==> (u, v) in Abs().arcs && u in Abs().vertices && v in Abs().vertices;
        return false;
      }
      var k := Scan(u, v);
      return k < |adj[u]|;
    }

    /** Append v to u's list, growing the list when it is full. */
    method Append(u: int, v: int, grows: bool) returns (ok: bool)
      requires Sized(adj, removed, capacities) && 0 <= u < |adj| && v !in adj[u]
      modifies this`adj, this`capacities
      ensures Sized(adj, removed, capacities)
      ensures ok <==> grows || old(|adj[u]|) < old(capacities[u])
      ensures adj == if ok then old(adj)[u := old(adj[u]) + [v]] else old(adj)
      ensures capacities[u] == if !ok || old(|adj[u]|) < old(capacities[u]) then old(capacities[u])
                               else if old(capacities[u]) == 0 then 8 else old(capacities[u]) + old(capacities[u]) / 2
      ensures |adj| == old(|adj|) && forall i :: 0 <= i < |adj| && i != u ==> capacities[i] == old(capacities[i])
    {
      if |adj[u]| == capacities[u] {
        if !grows { return false; }
        capacities := capacities[u := Grown(capacities[u])];
      }
      adj := adj[u := adj[u] + [v]];
      return true;
    }

    /** Drop the k-th entry of u's list. */
    method Erase(u: int, k: nat)
      requires Sized(adj, removed, capacities) && 0 <= u < |adj| && k < |adj[u]|
      modifies this`adj
      ensures Sized(adj, removed, capacities)
      ensures adj == old(adj)[u := Drop(old(adj[u]), k)] && Arcs(adj) == old(Arcs(adj)) - {(u, old(adj[u][k]))}
    {
      ArcDropped(adj, u, k);
      DropElems(adj[u], k);
      adj := adj[u := Drop(adj[u], k)];
    }

    /** The reverse arc of an undirected edge; when its list cannot grow, the forward arc is taken back. */
    method LinkBack(u: int, v: int, grows: bool, ghost was: Lists, ghost count: nat) returns (ok: bool)
      requires Sized(was, removed, capacities) && Sized(adj, removed, capacities) && count < WORD
      requires 0 <= u < |was| && 0 <= v < |was| && u != v && u !in was[v]
      requires adj == was[u := was[u] + [v]] && edgeCount == Wrap(count + 1)
      modifies this`adj, this`capacities, this`edgeCount
      ensures ok <==> grows || |was[v]| < old(capacities[v])
      ensures Sized(adj, removed, capacities)
      ensures ok ==> adj == was[u := was[u] + [v]][v := was[v] + [u]] && edgeCount == Wrap(count + 1)
      ensures !ok ==> adj == was && edgeCount == count
    {
      ok := Append(v, u, grows);
      if !ok {
        adj := adj[u := adj[u][..|adj[u]| - 1]];
        WrapAdd(count + 1, -1);
        edgeCount := Wrap(edgeCount - 1);
        assert adj == was;
      }
    }

    /** A full list, of u or for an undirected edge of v, that gets no memory to grow. */
    predicate CannotLink(u: int, v: int, growsFrom: bool, growsTo: bool)
      reads this
      requires 0 <= u < |adj| && 0 <= v < |adj| && |adj| == |capacities|
    {
      || (|adj[u]| == capacities[u] && !growsFrom)
      || (!directed && u != v && |adj[v]| == capacities[v] && !growsTo)
    }

    /** The writes of a new edge: the forward arc and, in an undirected graph, the reverse one, or nothing. */
    method Link(u: int, v: int, growsFrom: bool, growsTo: bool) returns (ok: bool)
      requires Sized(adj, removed, capacities) && edgeCount < WORD && 0 <= u < |adj| && 0 <= v < |adj|
      requires v !in adj[u] && (!directed && u != v ==> u !in adj[v])
      modifies this`adj, this`capacities, this`edgeCount
      ensures Sized(adj, removed, capacities) && (ok <==> !old(CannotLink(u, v, growsFrom, growsTo)))
      ensures ok ==> adj == WithEdge(old(adj), directed, u, v) && edgeCount == Wrap(old(edgeCount) + 1)
      ensures !ok ==> adj == old(adj) && edgeCount == old(edgeCount)
    {
      ghost var was, count := adj, edgeCount;
      ok := Append(u, v, growsFrom);
      if ok {
        edgeCount := Wrap(edgeCount + 1);
        if !directed && u != v { ok := LinkBack(u, v, growsTo, was, count); }
      }
    }

    /** The forward arc and, in an undirected graph, the reverse one. */
    method LinkNew(u: int, v: int, growsFrom: bool, growsTo: bool) returns (r: Result)
      requires Valid() && IsActive(u) && IsActive(v) && !HasArc(adj, u, v)
      modifies this`adj, this`capacities, this`edgeCount
      ensures Valid()
      ensures r == Done ==> Abs() == Linked(old(Abs()), u, v)
      ensures r != Done ==> r == NoMemory && Abs() == old(Abs()) && adj == old(adj)
      ensures r == NoMemory <==> old(CannotLink(u, v, growsFrom, growsTo))
    {
      LinkedWellFormed(Abs(), u, v);
      LinkedArcs(Abs(), adj, u, v);
      var ok := Link(u, v, growsFrom, growsTo);
      r := if ok then Done else NoMemory;
    }

    method AddEdge(u: int, v: int, growsFrom: bool, growsTo: bool) returns (r: Result)
      requires Valid()
      modifies this
      ensures Valid() && Step(old(Abs()), Op.AddEdge(u, v, growsFrom, growsTo), r, Abs())
      ensures r == NoMemory <==>
                old(IsActive(u) && IsActive(v) && !HasArc(adj, u, v) && CannotLink(u, v, growsFrom, growsTo))
      ensures r == Done ==> (u, v) in Abs().arcs && (!directed ==> (v, u) in Abs().arcs)
    {
      if !IsActive(u) || !IsActive(v) { return Refused; }
      var there := HasEdge(u, v);
      if there { return Done; }
      r := LinkNew(u, v, growsFrom, growsTo);
    }

    method RemoveEdge(u: int, v: int) returns (r: Result)
      requires Valid()
      modifies this
      ensures Valid() && Step(old(Abs()), Op.RemoveEdge(u, v), r, Abs())
      ensures r == Done ==> (u, v) !in Abs().arcs && (!directed ==> (v, u) !in Abs().arcs)
    {
      if !IsActive(u) || !IsActive(v) { return Refused; }
      ghost var s := Abs();
      var k := Scan(u, v);
      if k < |adj[u]| {
        Erase(u, k);
        edgeCount := Wrap(edgeCount - 1);
        if !directed && u != v {
          assert (v, u) in s.arcs;
          k := Scan(v, u);
          assert (v, u) in Arcs(adj);
          Erase(v, k);
        }
        assert Abs() == Unlinked(s, u, v);
      }
      StepKeepsWellFormed(s, Op.RemoveEdge(u, v), Done, Abs());
      return Done;
    }

    method ShiftLeft(i: int, j: nat)
      requires 0 <= i < |adj| && j < |adj[i]| && edgeCount < WORD
      modifies this`adj, this`edgeCount
      ensures adj == old(adj)[i := Drop(old(adj[i]), j)] && edgeCount < WORD
      ensures edgeCount == if directed then Wrap(old(edgeCount) - 1) else old(edgeCount)
    {
      adj := adj[i := Drop(adj[i], j)];
      if directed { edgeCount := Wrap(edgeCount - 1); }
    }

    /** Examine the entry at j of the list of i, whose first p entries were examined before. */
    method Examine(i: int, j: nat, v: int, ghost was: Lists, ghost p: nat, ghost count: nat) returns (j': nat)
      requires 0 <= i < |was| && p <= |was[i]| && j == |Without(was[i][..p], v)| < |Partly(was[i], p, v)|
      requires adj == was[i := Partly(was[i], p, v)] && edgeCount < WORD
      requires edgeCount == if directed then Wrap(count - (p - j)) else count
      modifies this`adj, this`edgeCount
      ensures p < |was[i]| && j' == |Without(was[i][..p + 1], v)|
      ensures adj == was[i := Partly(was[i], p + 1, v)] && edgeCount < WORD
      ensures edgeCount == if directed then Wrap(count - (p + 1 - j')) else count
    {
      PartlyNext(was[i], p, v);
      if adj[i][j] == v {
        WrapAdd(count - (p - j), -1);
        ShiftLeft(i, j);
        return j;
      }
      return j + 1;
    }

    /** Remove every occurrence of v from the list of i, one shift at a time. */
    method RemoveFromList(i: int, v: int)
      requires 0 <= i < |adj| && edgeCount < WORD
      modifies this`adj, this`edgeCount
      ensures adj == old(adj)[i := Without(old(adj[i]), v)]
      ensures edgeCount == if directed then Wrap(old(edgeCount) - (old(|adj[i]|) - |Without(old(adj[i]), v)|)) else old(edgeCount)
      ensures edgeCount < WORD
    {
      ghost var was, p, count := adj, 0, edgeCount;
      var j := 0;
      assert Partly(was[i], 0, v) == was[i];
      while j < |adj[i]|
        invariant |adj| == |was| && edgeCount < WORD && 0 <= p <= |was[i]| && j == |Without(was[i][..p], v)|
        invariant adj == was[i := Partly(was[i], p, v)]
        invariant edgeCount == if directed then Wrap(count - (p - j)) else count
        decreases |was[i]| - p
      {
        j := Examine(i, j, v, was, p, count);
        p := p + 1;
      }
      PartlyAll(was[i], p, v);
    }

    /** One list of the walk below; a tombstone is skipped, and its list is empty. */
    method PurgeList(i: nat, v: int, ghost was: Lists, ghost count: nat)
      requires i < |was| == |removed| && adj == Purged(was, v, i) && Distinct(was[i]) && (removed[i] ==> was[i] == [])
      requires edgeCount == if directed then Wrap(count - |InBelow(was, v, i)|) else count
      requires edgeCount < WORD
      modifies this`adj, this`edgeCount
      ensures adj == Purged(was, v, i + 1) && edgeCount < WORD
      ensures edgeCount == if directed then Wrap(count - |InBelow(was, v, i + 1)|) else count
    {
      InBelowNext(was, v, i);
      PurgedNext(was, v, i);
      if !removed[i] {
        RemoveFromList(i, v);
        WrapAdd(count - |InBelow(was, v, i)|, -(|was[i]| - |Without(was[i], v)|));
      }
    }

    /** The walk over all the lists. */
    method RemoveFromAll(v: int)
      requires |adj| == |removed| && edgeCount < WORD
      requires forall i :: 0 <= i < |adj| ==> Distinct(adj[i]) && (removed[i] ==> adj[i] == [])
      modifies this`adj, this`edgeCount
      ensures adj == Purged(old(adj), v, old(|adj|)) && edgeCount < WORD
      ensures edgeCount == if directed then Wrap(old(edgeCount) - |InBelow(old(adj), v, old(|adj|))|) else old(edgeCount)
    {
      ghost var was, count := adj, edgeCount;
      var i := 0;
      assert Purged(was, v, 0) == was && InBelow(was, v, 0) == {};
      while i < |adj|
        invariant 0 <= i <= |adj| == |was| && edgeCount < WORD
        invariant adj == Purged(was, v, i)
        invariant edgeCount == if directed then Wrap(count - |InBelow(was, v, i)|) else count
      {
        PurgeList(i, v, was, count);
        i := i + 1;
      }
    }

    /** The list of v is freed and v becomes a tombstone. */
    method Bury(v: int)
      requires 0 <= v < |adj| == |removed| == |capacities| && !removed[v] && vertexCount == |Active(removed)|
      modifies this`adj, this`capacities, this`removed, this`vertexCount
      ensures adj == old(adj)[v := []] && removed == old(removed)[v := true] && capacities == old(capacities)[v := 0]
      ensures Active(removed) == old(Active(removed)) - {v} && vertexCount == |Active(removed)|
    {
      ghost var was := Active(removed);
      assert v in was;
      adj := adj[v := []];
      capacities := capacities[v := 0];
      removed := removed[v := true];
      vertexCount := vertexCount - 1;
      assert Active(removed) == was - {v};
    }

    /** The counter and every list. */
    method DropArcs(v: int)
      requires 0 <= v < |adj| == |removed| && forall i :: 0 <= i < |adj| ==> Distinct(adj[i]) && (removed[i] ==> adj[i] == [])
      modifies this`adj, this`edgeCount
      ensures adj == Purged(old(adj), v, old(|adj|))
      ensures edgeCount == CountWithout(old(adj), directed, old(edgeCount), v) < WORD
    {
      edgeCount := Wrap(edgeCount - |adj[v]|);
      RemoveFromAll(v);
    }

    /** The writes of a removal: the counter, every list, and v's own slot. */
    method Detach(v: int)
      requires 0 <= v < |adj| == |removed| == |capacities| && !removed[v] && vertexCount == |Active(removed)|
      requires forall i :: 0 <= i < |adj| ==> Distinct(adj[i]) && (removed[i] ==> adj[i] == [])
      modifies this
      ensures adj == Purged(old(adj), v, old(|adj|))[v := []]
      ensures removed == old(removed)[v := true] && capacities == old(capacities)[v := 0]
      ensures Active(removed) == old(Active(removed)) - {v} && vertexCount == |Active(removed)|
      ensures edgeCount == CountWithout(old(adj), directed, old(edgeCount), v) < WORD
    {
      DropArcs(v);
      Bury(v);
    }

    method RemoveVertex(v: int) returns (r: Result)
      requires Valid()
      modifies this
      ensures Valid() && Step(old(Abs()), Op.RemoveVertex(v), r, Abs())
      ensures r == Done ==> forall e :: e in Abs().arcs ==> e.0 != v && e.1 != v
    {
      if v < 0 || v >= |adj| || removed[v] { return Refused; }
      TombstonesEmpty(Abs(), adj, removed);
      RemovalFacts(Abs(), adj, removed, capacities, v);
      Detach(v);
      return Done;
    }

    method Clear()
      requires Valid()
      modifies this
      ensures Valid() && Abs() == State(directed, old(|adj|), {}, {}, 0)
    {
      var i := 0;
      while i < |adj|
        invariant 0 <= i <= |adj| == |removed| == |capacities| == old(|adj|)
        invariant forall k :: 0 <= k < i ==> adj[k] == [] && capacities[k] == 0 && removed[k]
      {
        adj := adj[i := []];
        capacities := capacities[i := 0];
        removed := removed[i := true];
        i := i + 1;
      }
      vertexCount, edgeCount := 0, 0;
      assert Active(removed) == {} && Arcs(adj) == {};
    }

    method Perform(op: Op) returns (r: Result)
      requires Valid()
      modifies this
      ensures r != Overrun ==> Valid() && Step(old(Abs()), op, r, Abs())
      ensures r == Overrun ==> op.AddVertex? && AdditionResult(old(Abs()), op.grows) == Overrun
    {
      match op {
        case AddVertex(grows) => r := AddVertex(grows);
        case RemoveVertex(v) => r := RemoveVertex(v);
        case AddEdge(u, v, gf, gt) => r := AddEdge(u, v, gf, gt);
        case RemoveEdge(u, v) => r := RemoveEdge(u, v);
        case Clear =>
          Clear();
          r := Done;
      }
    }

    lemma ListsClosed()
      requires Valid()
      ensures Closed(adj)
    {
      forall u, k | 0 <= u < |adj| && 0 <= k < |adj[u]| ensures 0 <= adj[u][k] < |adj| {
        assert HasArc(adj, u, adj[u][k]);
        assert (u, adj[u][k]) in Abs().arcs;
      }
    }

    /** One neighbour of the entry at h: enqueued unless it was seen. */
    method EnqueueOne(s: int, queue: array<int>, visited: array<bool>, h: nat, tail: nat, i: nat, ghost lev: seq<nat>)
        returns (tail': nat, ghost lev': seq<nat>)
      requires queue.Length == |adj| == visited.Length && h < tail <= queue.Length
      requires Expanding(adj, s, queue[..tail], lev, h, i) && i < |adj[queue[h]]|
      requires Mirrors(visited[..], queue[..tail])
      modifies queue, visited
      ensures tail <= tail' <= queue.Length && queue[..tail] == old(queue[..tail])
      ensures Expanding(adj, s, queue[..tail'], lev', h, i + 1) && Mirrors(visited[..], queue[..tail'])
    {
      ghost var q := queue[..tail];
      var u := adj[queue[h]][i];
      assert q[h] == queue[h] && visited[..][u] == visited[u];
      if visited[u] {
        Skip(adj, s, q, lev, h, i);
        return tail, lev;
      }
      RoomForOneMore(q, u, |adj|);
      Discover(adj, s, q, lev, h, i);
      SeenOneMore(visited[..], q, u);
      visited[u] := true;
      queue[tail] := u;
      tail', lev' := tail + 1, lev + [lev[h] + 1];
      assert visited[..] == old(visited[..])[u := true];
      assert queue[..tail'] == q + [u];
    }

    /** Enqueue the unvisited neighbours of the entry at h. */
    method Enqueue(s: int, queue: array<int>, visited: array<bool>, h: nat, tail: nat, ghost lev: seq<nat>)
        returns (tail': nat, ghost lev': seq<nat>)
      requires queue.Length == |adj| == visited.Length && h < tail <= queue.Length
      requires Frontier(adj, s, queue[..tail], lev, h) && Mirrors(visited[..], queue[..tail])
      modifies queue, visited
      ensures tail <= tail' <= queue.Length && queue[..tail] == old(queue[..tail])
      ensures Frontier(adj, s, queue[..tail'], lev', h + 1) && Mirrors(visited[..], queue[..tail'])
    {
      tail', lev' := tail, lev;
      var v := queue[h];
      assert queue[..tail][h] == v;
      var i := 0;
      while i < |adj[v]|
        invariant tail <= tail' <= queue.Length && queue[..tail] == old(queue[..tail]) && queue[h] == v
        invariant 0 <= i <= |adj[v]| && Expanding(adj, s, queue[..tail'], lev', h, i)
        invariant Mirrors(visited[..], queue[..tail'])
      {
        ghost var q := queue[..tail'];
        tail', lev' := EnqueueOne(s, queue, visited, h, tail', i, lev');
        PrefixKept(q, queue[..tail'], queue[..], tail, h, tail');
        i := i + 1;
      }
      ExpandedAll(adj, s, queue[..tail'], lev', h);
    }

    /** One turn of the loop: dequeue, visit and, unless the callback stops, enqueue. */
    method BfsTurn(s: int, stop: seq<int> -> bool, queue: array<int>, visited: array<bool>, head: nat, tail: nat,
                   ghost lev: seq<nat>, order: seq<int>) returns (stopped: bool, order': seq<int>, tail': nat, ghost lev': seq<nat>)
      requires queue.Length == |adj| == visited.Length && head < tail <= queue.Length
      requires Frontier(adj, s, queue[..tail], lev, head) && Mirrors(visited[..], queue[..tail])
      requires order == queue[..head] && Unstopped(stop, order, |order|)
      modifies queue, visited
      ensures |order'| == |order| + 1 && BreadthFirst(adj, s, order')
      ensures stopped == stop(order') && Unstopped(stop, order', |order|)
      ensures !stopped ==>
                && head < tail' <= queue.Length && order' == queue[..head + 1]
                && Frontier(adj, s, queue[..tail'], lev', head + 1) && Mirrors(visited[..], queue[..tail'])
                && Unstopped(stop, order', |order'|)
    {
      ghost var q := queue[..tail];
      order' := order + [queue[head]];
      VisitNext(adj, s, q, lev, head, order, queue[head]);
      UnstoppedNext(stop, order, queue[head]);
      stopped, tail', lev' := stop(order'), tail, lev;
      if !stopped {
        tail', lev' := Enqueue(s, queue, visited, head, tail, lev);
        assert order' == queue[..tail][..head + 1];
      }
    }

    /**
      * Breadth-first traversal. The callback is `stop`, which sees every vertex visited so far, and ends the
      * traversal by answering true.
      */
    method Bfs(start: int, stop: seq<int> -> bool, allocates: bool) returns (r: Result, order: seq<int>)
      requires Valid()
      ensures r == if !IsActive(start) then Refused else if !allocates then NoMemory else Done
      ensures r != Done ==> order == []
      ensures r == Done ==> BreadthFirst(adj, start, order) && Unstopped(stop, order, |order| - 1)
      ensures r == Done && !stop(order) ==> forall v :: v in order <==> Reachable(adj, start, v)
    {
      if !IsActive(start) { return Refused, []; }
      if !allocates { return NoMemory, []; }
      ListsClosed();
      var visited := new bool[|adj|](i => false);
      var queue := new int[|adj|];
      visited[start] := true;
      queue[0] := start;
      var head, tail := 0, 1;
      ghost var lev: seq<nat> := [0];
      assert queue[..1] == [start];
      FrontierStart(adj, start);
      order := [];
      var stopped := false;
      while head < tail
        invariant 0 <= head <= tail <= queue.Length == |adj| == visited.Length && tail > 0
        invariant Frontier(adj, start, queue[..tail], lev, head) && Mirrors(visited[..], queue[..tail])
        invariant order == queue[..head] && Unstopped(stop, order, |order|)
        invariant head > 0 ==> BreadthFirst(adj, start, order)
        decreases queue.Length - head
      {
        stopped, order, tail, lev := BfsTurn(start, stop, queue, visited, head, tail, lev, order);
        if stopped { return Done, order; }
        head := head + 1;
      }
      VisitedIsReachable(adj, start, order, lev);
      r := Done;
    }

    /** One neighbour of the vertex just visited: pushed unless it was seen. */
    method PushOne(s: int, stack: array<int>, visited: array<bool>, sp: nat, order: seq<int>, v: int, i: nat, ghost goal: seq<int>)
        returns (sp': nat)
      requires stack.Length == |adj| == visited.Length && sp <= stack.Length
      requires Pushing(adj, s, order, stack[..sp], v, i, goal) && i > 0 && Mirrors(visited[..], order + stack[..sp])
      modifies stack, visited
      ensures sp' <= stack.Length && Mirrors(visited[..], order + stack[..sp'])
      ensures Pushing(adj, s, order, stack[..sp'], v, i - 1, goal)
    {
      var u := adj[v][i - 1];
      ghost var t := stack[..sp];
      PushingNext(adj, s, order, t, v, i, goal);
      assert visited[..][u] == visited[u];
      if visited[u] { return sp; }
      SeenOneMore(visited[..], order + t, u);
      visited[u] := true;
      stack[sp] := u;
      sp' := sp + 1;
      assert visited[..] == old(visited[..])[u := true];
      assert stack[..sp'] == t + [u];
      assert order + (t + [u]) == order + t + [u];
    }

    /** Push the unvisited neighbours of the vertex just visited, last neighbour first. */
    method PushAll(s: int, stack: array<int>, visited: array<bool>, sp: nat, order: seq<int>, v: int) returns (sp': nat)
      requires stack.Length == |adj| == visited.Length && sp <= stack.Length && order != [] && v == order[|order| - 1]
      requires 0 <= v < |adj| && Stacked(adj, s, order, stack[..sp]) && Followed(adj, order, stack[..sp], |order| - 1)
      requires Mirrors(visited[..], order + stack[..sp])
      modifies stack, visited
      ensures sp' <= stack.Length && Stacked(adj, s, order, stack[..sp']) && Followed(adj, order, stack[..sp'], |order|)
      ensures Mirrors(visited[..], order + stack[..sp']) && stack[..sp'] == Pushes(order, old(stack[..sp]), adj[v])
    {
      sp' := sp;
      ghost var goal := Pushes(order, stack[..sp], adj[v]);
      assert adj[v][..|adj[v]|] == adj[v];
      var i := |adj[v]|;
      while i > 0
        invariant 0 <= i <= |adj[v]| && sp' <= stack.Length
        invariant Pushing(adj, s, order, stack[..sp'], v, i, goal) && Mirrors(visited[..], order + stack[..sp'])
      {
        sp' := PushOne(s, stack, visited, sp', order, v, i, goal);
        i := i - 1;
      }
      AllPushed(adj, s, order, stack[..sp'], v, goal);
    }

    /** One turn of the loop: pop, visit and, unless the callback stops, push. */
    method DfsTurn(s: int, stop: seq<int> -> bool, stack: array<int>, visited: array<bool>, sp: nat, order: seq<int>)
        returns (stopped: bool, order': seq<int>, sp': nat)
      requires stack.Length == |adj| == visited.Length && 0 < sp <= stack.Length
      requires Traversing(adj, s, order, stack[..sp], visited[..]) && Unstopped(stop, order, |order|)
      modifies stack, visited
      ensures |order'| == |order| + 1 && Visits(adj, s, order') && order' <= StackOrder(adj, s)
      ensures stopped == stop(order') && Unstopped(stop, order', |order|)
      ensures !stopped ==>
                && sp' <= stack.Length && Traversing(adj, s, order', stack[..sp'], visited[..])
                && Unstopped(stop, order', |order'|)
    {
      sp' := sp - 1;
      var v := stack[sp'];
      assert stack[..sp] == stack[..sp'] + [v];
      Popped(adj, s, order, stack[..sp'], v, visited[..]);
      UnstoppedNext(stop, order, v);
      order' := order + [v];
      stopped := stop(order');
      if !stopped { sp' := PushAll(s, stack, visited, sp', order', v); }
    }

    /** Depth-first traversal with an explicit stack. */
    method Dfs(start: int, stop: seq<int> -> bool, allocates: bool) returns (r: Result, order: seq<int>)
      requires Valid()
      ensures r == if !IsActive(start) then Refused else if !allocates then NoMemory else Done
      ensures r != Done ==> order == []
      ensures r == Done ==> order != [] && order[0] == start && Distinct(order) && Unstopped(stop, order, |order| - 1)
      ensures forall v :: v in order ==> Reachable(adj, start, v)
      ensures r == Done ==> order <= StackOrder(adj, start)
      ensures r == Done && !stop(order) ==> order == StackOrder(adj, start) && forall v :: v in order <==> Reachable(adj, start, v)
    {
      order := [];
      if !IsActive(start) { return Refused, []; }
      if !allocates { return NoMemory, []; }
      ListsClosed();
      var visited := new bool[|adj|](i => false);
      var stack := new int[|adj|];
      visited[start] := true;
      stack[0] := start;
      var sp := 1;
      assert stack[..1] == [start];
      TraversalStarts(adj, start, visited[..]);
      var stopped := false;
      while sp > 0
        invariant 0 <= sp <= stack.Length == |adj| == visited.Length
        invariant Traversing(adj, start, order, stack[..sp], visited[..])
        invariant Unstopped(stop, order, |order|) && (order != [] ==> Visits(adj, start, order))
        decreases |adj| - |order|
      {
        stopped, order, sp := DfsTurn(start, stop, stack, visited, sp, order);
        if stopped { return Done, order; }
      }
      assert stack[..0] == [];
      TraversalEnds(adj, start, order, visited[..]);
      r := Done;
    }
  }

  /** What the loop of the stack traversal keeps. */
  ghost predicate Traversing(adj: Lists, s: int, order: seq<int>, stack: seq<int>, visited: seq<bool>) {
    && Stacked(adj, s, order, stack) && Followed(adj, order, stack, |order|)
    && Mirrors(visited, order + stack) && (order == [] ==> stack == [s]) && OnTrack(adj, s, order, stack)
  }

  lemma {:induction false} TraversalStarts(adj: Lists, s: int, visited: seq<bool>)
    requires Closed(adj) && 0 <= s < |adj| && forall u :: 0 <= u < |visited| ==> (visited[u] <==> u == s)
    ensures Traversing(adj, s, [], [s], visited)
  {
    assert [] + [s] == [s];
    StackedStart(adj, s);
  }

  lemma {:induction false} TraversalEnds(adj: Lists, s: int, order: seq<int>, visited: seq<bool>)
    requires Traversing(adj, s, order, [], visited) && (order != [] ==> Visits(adj, s, order))
    ensures Visits(adj, s, order) && order == StackOrder(adj, s) && forall v :: v in order <==> Reachable(adj, s, v)
  {
    AllFollowed(adj, s, order);
    TrackEnds(adj, s, order);
  }

  /** A pop moves the top of the stack to the visits. */
  lemma {:induction false} Popped(adj: Lists, s: int, order: seq<int>, t: seq<int>, v: int, visited: seq<bool>)
    requires Traversing(adj, s, order, t + [v], visited)
    ensures Stacked(adj, s, order + [v], t) && Followed(adj, order + [v], t, |order|) && Mirrors(visited, order + [v] + t)
    ensures 0 <= v < |adj| && Visits(adj, s, order + [v]) && order + [v] <= StackOrder(adj, s)
    ensures OnTrack(adj, s, order + [v], Pushes(order + [v], t, adj[v]))
  {
    PopToVisited(adj, s, order, t, v);
    VisitedSeen(visited, order, t, v);
    VisitedFacts(adj, s, order + [v], t);
    assert (order + [v])[|order|] == v;
    StaysOnTrack(adj, s, order, t, v);
  }

  /** The callback let the traversal go on after each of the first n visits. */
  ghost predicate Unstopped(stop: seq<int> -> bool, order: seq<int>, n: int) {
    forall k :: 0 < k <= n && k <= |order| ==> !stop(order[..k])
  }

  lemma {:induction false} UnstoppedNext(stop: seq<int> -> bool, order: seq<int>, v: int)
    requires Unstopped(stop, order, |order|)
    ensures Unstopped(stop, order + [v], |order|)
    ensures !stop(order + [v]) ==> Unstopped(stop, order + [v], |order| + 1)
  {
    assert forall k :: 0 < k <= |order| ==> (order + [v])[..k] == order[..k];
    assert (order + [v])[..|order| + 1] == order + [v];
  }

  lemma {:induction false} SeenOneMore(visited: seq<bool>, q: seq<int>, u: int)
    requires Mirrors(visited, q) && 0 <= u < |visited|
    ensures Mirrors(visited[u := true], q + [u])
  {
  }

  lemma {:induction false} PrefixKept(q: seq<int>, q': seq<int>, a: seq<int>, n: nat, h: nat, m: nat)
    requires h < n <= |q| <= m <= |a| && q' == a[..m] && a[..|q|] == q
    ensures a[..n] == q[..n] && a[h] == q[h]
  {
  }

  lemma {:induction false} ExpandedAll(adj: Lists, s: int, q: seq<int>, lev: seq<nat>, h: int)
    requires Frontier(adj, s, q, lev, h) && h < |q| && Expanding(adj, s, q, lev, h, |adj[q[h]]|)
    ensures Frontier(adj, s, q, lev, h + 1)
  {
  }

  lemma {:induction false} FrontierStart(adj: Lists, s: int)
    requires Closed(adj) && 0 <= s < |adj|
    ensures Frontier(adj, s, [s], [0], 0)
  {
    assert Walk(adj, s, s, [s]);
    assert AtDistance(adj, s, s, 0);
  }

  lemma {:induction false} VisitNext(adj: Lists, s: int, q: seq<int>, lev: seq<nat>, h: int, order: seq<int>, v: int)
    requires Frontier(adj, s, q, lev, h) && h < |q| && order == q[..h] && v == q[h]
    ensures order + [v] == q[..h + 1] && BreadthFirst(adj, s, order + [v])
  {
    assert order + [v] == q[..h + 1];
    VisitedInOrder(adj, s, q, lev, h);
  }

  lemma {:induction false} VisitedIsReachable(adj: Lists, s: int, q: seq<int>, lev: seq<nat>)
    requires Frontier(adj, s, q, lev, |q|) && BreadthFirst(adj, s, q)
    ensures forall v :: v in q <==> Reachable(adj, s, v)
  {
    forall v | Reachable(adj, s, v) ensures v in q { AllVisited(adj, s, q, lev, v); }
  }

  /** Distinct reachable vertices, s first. */
  ghost predicate Visits(adj: Lists, s: int, order: seq<int>) {
    && 0 < |order| <= |adj| && order[0] == s && Distinct(order)
    && forall v :: v in order ==> Reachable(adj, s, v)
  }

  lemma {:induction false} VisitedFacts(adj: Lists, s: int, order: seq<int>, t: seq<int>)
    requires Stacked(adj, s, order, t) && order != []
    ensures Visits(adj, s, order) && forall i :: 0 <= i < |order| ==> 0 <= order[i] < |adj|
  {
    Pigeonhole(order + t, |adj|);
    assert forall i :: 0 <= i < |order| ==> (order + t)[i] == order[i];
    assert forall v :: v in order ==> v in order + t;
  }

  /** The visits and the stack are those of the specification after as many turns. */
  ghost predicate OnTrack(adj: Lists, s: int, order: seq<int>, stack: seq<int>) {
    StackAt(adj, s, |order|) == Progress(order, stack)
  }

  lemma {:induction false} StaysOnTrack(adj: Lists, s: int, order: seq<int>, t: seq<int>, v: int)
    requires OnTrack(adj, s, order, t + [v]) && |order| < |adj|
    ensures order + [v] <= StackOrder(adj, s) && OnTrack(adj, s, order + [v], Pushes(order + [v], t, Neighbours(adj, v)))
  {
    TurnOf(adj, order, t, v, Pushes(order + [v], t, Neighbours(adj, v)));
    VisitsGrow(adj, s, |order| + 1, |adj|);
  }

  lemma {:induction false} TrackEnds(adj: Lists, s: int, order: seq<int>)
    requires OnTrack(adj, s, order, []) && |order| <= |adj|
    ensures order == StackOrder(adj, s)
  {
    VisitsGrow(adj, s, |order|, |adj|);
  }

  function PushedOne(order: seq<int>, stack: seq<int>, u: int): seq<int> {
    if u in order + stack then stack else stack + [u]
  }

  /** v was just visited, its neighbours from i on are visited or stacked, and pushing the others leads to `goal`. */
  ghost predicate Pushing(adj: Lists, s: int, order: seq<int>, stack: seq<int>, v: int, i: int, goal: seq<int>) {
    && order != [] && v == order[|order| - 1] && 0 <= v < |adj| && 0 <= i <= |adj[v]|
    && Stacked(adj, s, order, stack) && Followed(adj, order, stack, |order| - 1)
    && (forall k :: i <= k < |adj[v]| ==> adj[v][k] in order + stack)
    && Pushes(order, stack, adj[v][..i]) == goal
  }

  lemma {:induction false} PushingNext(adj: Lists, s: int, order: seq<int>, stack: seq<int>, v: int, i: int, goal: seq<int>)
    requires Pushing(adj, s, order, stack, v, i, goal) && i > 0
    ensures var u := adj[v][i - 1];
            && 0 <= u < |adj| && Pushing(adj, s, order, PushedOne(order, stack, u), v, i - 1, goal)
            && (u !in order + stack ==> |stack| < |adj|)
  {
    var u := adj[v][i - 1];
    PushesNext(order, stack, adj[v], i);
    if u !in order + stack {
      RoomForOneMore(order + stack, u, |adj|);
      PushNeighbour(adj, s, order, stack, v, u);
      FollowedMono(adj, order, stack, |order| - 1, u);
      assert order + (stack + [u]) == order + stack + [u];
    }
  }

  lemma {:induction false} PushesNext(order: seq<int>, stack: seq<int>, l: seq<int>, i: int)
    requires 0 < i <= |l|
    ensures Pushes(order, stack, l[..i]) == Pushes(order, PushedOne(order, stack, l[i - 1]), l[..i - 1])
  {
    assert l[..i][..i - 1] == l[..i - 1];
  }

  lemma {:induction false} AllPushed(adj: Lists, s: int, order: seq<int>, stack: seq<int>, v: int, goal: seq<int>)
    requires Pushing(adj, s, order, stack, v, 0, goal)
    ensures stack == goal && Stacked(adj, s, order, stack) && Followed(adj, order, stack, |order|)
  {
    FollowedNext(adj, order, stack, v);
  }

  lemma {:induction false} VisitedSeen(visited: seq<bool>, order: seq<int>, t: seq<int>, v: int)
    requires Mirrors(visited, order + (t + [v]))
    ensures Mirrors(visited, order + [v] + t)
  {
  }

  lemma {:induction false} NotFull(removed: seq<bool>, slot: int)
    requires 0 <= slot < |removed| && removed[slot]
    ensures |Active(removed)| < |removed|
  {
    RangeSize(|removed|);
    SubsetSize(Active(removed), Range(|removed|));
    assert slot in Range(|removed|) && slot !in Active(removed);
  }

  /** The lists after a new edge. */
  function WithEdge(adj: Lists, directed: bool, u: int, v: int): (r: Lists)
    requires 0 <= u < |adj| && 0 <= v < |adj|
    ensures |r| == |adj|
  {
    var one := adj[u := adj[u] + [v]];
    if directed || u == v then one else one[v := adj[v] + [u]]
  }

  lemma {:induction false} LinkedArcs(s: State, adj: Lists, u: int, v: int)
    requires WellFormed(s) && s.arcs == Arcs(adj) && 0 <= u < |adj| && 0 <= v < |adj| && !HasArc(adj, u, v)
    ensures Arcs(WithEdge(adj, s.directed, u, v)) == Linked(s, u, v).arcs
    ensures !s.directed && u != v ==> u !in adj[v]
  {
    ArcAdded(adj, u, v);
    if !s.directed && u != v {
      assert (v, u) in s.arcs ==> (u, v) in s.arcs;
      assert HasArc(adj, v, u) ==> (v, u) in s.arcs;
      ArcAdded(adj[u := adj[u] + [v]], v, u);
    }
  }

  lemma {:induction false} PurgedNext(adj: Lists, v: int, i: nat)
    requires i < |adj|
    ensures Purged(adj, v, i)[i] == adj[i]
    ensures Purged(adj, v, i + 1) == Purged(adj, v, i)[i := Without(adj[i], v)]
    ensures adj[i] == [] ==> Purged(adj, v, i + 1) == Purged(adj, v, i)
  {
  }

  lemma LinkedWellFormed(s: State, u: int, v: int)
    requires WellFormed(s) && u in s.vertices && v in s.vertices
    ensures WellFormed(Linked(s, u, v))
  {
  }

  lemma {:induction false} TombstonesEmpty(s: State, adj: Lists, removed: seq<bool>)
    requires WellFormed(s) && s.arcs == Arcs(adj) && s.vertices == Active(removed) && |adj| == |removed|
    ensures forall i :: 0 <= i < |adj| && removed[i] ==> adj[i] == []
  {
    forall i | 0 <= i < |adj| && adj[i] != [] ensures !removed[i] {
      assert HasArc(adj, i, adj[i][0]);
      assert (i, adj[i][0]) in s.arcs && i in Active(removed);
    }
  }

  /** The counter as the removal of v leaves it. */
  ghost function CountWithout(adj: Lists, directed: bool, count: nat, v: int): nat
    requires 0 <= v < |adj|
  {
    var c := Wrap(count - |adj[v]|);
    if directed then Wrap(c - |InBelow(adj, v, |adj|)|) else c
  }

  /** What the walk over the lists leaves is the graph without v. */
  lemma {:induction false} RemovalFacts(s: State, adj: Lists, removed: seq<bool>, capacities: seq<nat>, v: int)
    requires WellFormed(s) && s.arcs == Arcs(adj) && s.vertices == Active(removed) && Sized(adj, removed, capacities)
    requires v in s.vertices
    ensures Sized(Purged(adj, v, |adj|)[v := []], removed[v := true], capacities[v := 0])
    ensures Arcs(Purged(adj, v, |adj|)[v := []]) == Isolated(s, v).arcs
    ensures Isolated(s, v).count == CountWithout(adj, s.directed, s.count, v)
    ensures WellFormed(Isolated(s, v)) && Isolated(s, v).vertices == s.vertices - {v}
  {
    OutSize(adj, v);
    PurgedArcs(adj, v);
    PurgedSized(adj, removed, capacities, v);
    WrapAdd(s.count - |adj[v]|, -|In(s.arcs, v)|);
    StepKeepsWellFormed(s, Op.RemoveVertex(v), Done, Isolated(s, v));
  }

  /** A list of which the first p entries were examined. */
  function Partly(l: seq<int>, p: nat, v: int): seq<int>
    requires p <= |l|
  {
    Without(l[..p], v) + l[p..]
  }

  lemma {:induction false} WithoutNext(l: seq<int>, p: nat, v: int)
    requires p < |l|
    ensures Without(l[..p + 1], v) == Without(l[..p], v) + (if l[p] == v then [] else [l[p]])
  {
    var u := l[..p + 1];
    assert u[..p] == l[..p] && u[p] == l[p] && |u| == p + 1;
  }

  lemma {:induction false} Middle(a: seq<int>, x: int, r: seq<int>)
    ensures (a + ([x] + r))[|a|] == x && Drop(a + ([x] + r), |a|) == a + r && a + [x] + r == a + ([x] + r)
  {
  }

  lemma {:induction false} PartlyNext(l: seq<int>, p: nat, v: int)
    requires p <= |l| && |Without(l[..p], v)| < |Partly(l, p, v)|
    ensures var j := |Without(l[..p], v)|;
            && p < |l| && Partly(l, p, v)[j] == l[p]
            && Partly(l, p + 1, v) == (if l[p] == v then Drop(Partly(l, p, v), j) else Partly(l, p, v))
            && |Without(l[..p + 1], v)| == (if l[p] == v then j else j + 1)
  {
    var a, r := Without(l[..p], v), l[p + 1..];
    WithoutNext(l, p, v);
    assert l[p..] == [l[p]] + r;
    Middle(a, l[p], r);
    assert a + [] == a;
  }

  lemma {:induction false} PartlyAll(l: seq<int>, p: nat, v: int)
    requires p <= |l| && |Without(l[..p], v)| >= |Partly(l, p, v)|
    ensures p == |l| && Partly(l, p, v) == Without(l, v)
  {
    assert l[..|l|] == l;
  }

  /** NULL exactly when an allocation fails. */
  method Create(initial: nat, directed: bool, allocates: bool) returns (g: Graph?)
    ensures (g == null) == !allocates
    ensures g != null ==>
              fresh(g) && g.Valid() && g.Abs() == State(directed, if initial == 0 then 8 else initial, {}, {}, 0)
  {
    if !allocates { return null; }
    g := new Graph(initial, directed);
  }

  /** A graph created with one slot overruns it with its second vertex, which the code counts all the same. */
  method SecondVertexOverruns(directed: bool) returns (g: Graph, first: Result, second: Result)
    ensures first == Done && second == Overrun && |g.adj| == 1 && g.vertexCount == 2
  {
    g := new Graph(1, directed);
    first := g.AddVertex(true);
    assert |g.Abs().vertices| == 1;
    second := g.AddVertex(true);
  }

  /** The next operation adds a vertex that overruns its array. */
  ghost predicate Overruns(s: State, op: Op) { op.AddVertex? && AdditionResult(s, op.grows) == Overrun }

  /** One more operation of a run. */
  method ExecuteNext(g: Graph, ops: seq<Op>, results: seq<Result>, ghost trace: seq<State>)
      returns (r: Result, ghost trace': seq<State>)
    requires g.Valid() && |results| < |ops| && IsRun(trace, ops[..|results|], results) && g.Abs() == trace[|results|]
    modifies g
    ensures r == Overrun ==> Overruns(trace[|results|], ops[|results|]) && trace' == trace
    ensures r != Overrun ==> |trace'| > 0 && trace'[0] == trace[0]
    ensures r != Overrun ==>
              g.Valid() && IsRun(trace', ops[..|results| + 1], results + [r]) && g.Abs() == trace'[|results| + 1]
  {
    var op := ops[|results|];
    r := g.Perform(op);
    trace' := trace;
    if r != Overrun {
      RunExtends(trace, ops[..|results|], results, op, r, g.Abs());
      assert ops[..|results|] + [op] == ops[..|results| + 1];
      trace' := trace + [g.Abs()];
    }
  }

  /**
    * Every run of mutations, from any initial capacity, follows the specification step by step, to the end of
    * `ops` or up to the first vertex that overruns its array.
    */
  method Execute(initial: nat, directed: bool, ops: seq<Op>)
      returns (g: Graph, results: seq<Result>, overrun: bool, ghost trace: seq<State>)
    ensures |results| <= |ops| && IsRun(trace, ops[..|results|], results)
    ensures trace[0] == State(directed, if initial == 0 then 8 else initial, {}, {}, 0)
    ensures if overrun then |results| < |ops| && Overruns(trace[|results|], ops[|results|])
            else |results| == |ops| && fresh(g) && g.Valid() && g.Abs() == trace[|ops|]
  {
    g := new Graph(initial, directed);
    results, overrun, trace := [], false, [g.Abs()];
    ghost var first := g.Abs();
    while |results| < |ops|
      invariant |results| <= |ops| && fresh(g) && g.Valid()
      invariant IsRun(trace, ops[..|results|], results) && g.Abs() == trace[|results|] && trace[0] == first
      decreases |ops| - |results|
    {
      var r;
      r, trace := ExecuteNext(g, ops, results, trace);
      if r == Overrun {
        overrun := true;
        return;
      }
      results := results + [r];
    }
  }
}
