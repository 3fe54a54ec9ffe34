/** The graph as sets of vertices and arcs, and the edge counter the C code keeps beside them. */
module GraphSpec {
  import opened Words
  import opened Sequences

  type Arc = (int, int)

  const DEFAULT_CAPACITY: nat := 8

  /** Growth by half, from 8. */
  function Grown(cap: nat): nat { if cap == 0 then DEFAULT_CAPACITY else cap + cap / 2 }

  /** An undirected edge is stored as two opposite arcs; slots and count are vertex_capacity and edge_count as stored. */
  datatype State = State(directed: bool, slots: nat, vertices: set<int>, arcs: set<Arc>, count: nat)

  /** Overrun: the code answers OK after a write outside the vertex arrays. */
  datatype Result = Done | Refused | NoMemory | Overrun

  datatype Op = AddVertex(grows: bool) | RemoveVertex(v: int) | AddEdge(from: int, to: int, growsFrom: bool, growsTo: bool)
              | RemoveEdge(from: int, to: int) | Clear

  function Both(directed: bool, u: int, v: int): set<Arc> {
    if directed then {(u, v)} else {(u, v), (v, u)}
  }

  function Out(arcs: set<Arc>, v: int): set<Arc> { set e | e in arcs && e.0 == v }
  function In(arcs: set<Arc>, v: int): set<Arc> { set e | e in arcs && e.1 == v }

  /** The logical edges: an undirected edge is represented once, by its arc from the smaller end. */
  function Edges(s: State): set<Arc> { set e | e in s.arcs && (s.directed || e.0 <= e.1) }

  ghost predicate WellFormed(s: State) {
    && s.vertices <= Range(s.slots)
    && (forall e :: e in s.arcs ==> e.0 in s.vertices && e.1 in s.vertices)
    && (!s.directed ==> forall e :: e in s.arcs ==> (e.1, e.0) in s.arcs)
  }

  /** Vertex v is the lowest number not in use. */
  ghost predicate Lowest(vertices: set<int>, v: int) {
    v >= 0 && v !in vertices && forall u :: 0 <= u < v ==> u in vertices
  }

  function Linked(s: State, u: int, v: int): State {
    s.(arcs := s.arcs + Both(s.directed, u, v), count := Wrap(s.count + 1))
  }

  function Unlinked(s: State, u: int, v: int): State {
    if (u, v) in s.arcs then s.(arcs := s.arcs - Both(s.directed, u, v), count := Wrap(s.count - 1)) else s
  }

  /** The counter loses the out-degree and, in a directed graph, the in-degree as well. */
  function Isolated(s: State, v: int): State {
    s.(vertices := s.vertices - {v}, arcs := s.arcs - Out(s.arcs, v) - In(s.arcs, v),
       count := Wrap(s.count - |Out(s.arcs, v)| - (if s.directed then |In(s.arcs, v)| else 0)))
  }

  /** The arrays hold no tombstone. */
  predicate Full(s: State) { |s.vertices| == s.slots }

  /** An addition that has to grow fails without memory, and with one slot it gains none. */
  function AdditionResult(s: State, grows: bool): Result {
    if !Full(s) then Done else if !grows then NoMemory else if s.slots == 1 then Overrun else Done
  }

  function Added(s: State, v: int): State {
    s.(vertices := s.vertices + {v}, slots := if Full(s) then Grown(s.slots) else s.slots)
  }

  /** A list that has to grow, forward or reverse, may be refused memory. */
  predicate MayFail(s: State, u: int, v: int, growsFrom: bool, growsTo: bool) {
    !growsFrom || (!s.directed && u != v && !growsTo)
  }

  ghost predicate Step(s: State, op: Op, r: Result, s': State) {
    match op
    case AddVertex(grows) =>
      && r == AdditionResult(s, grows)
      && (r == Done ==> exists v :: Lowest(s.vertices, v) && s' == Added(s, v))
      && (r == NoMemory ==> s' == s)
    case RemoveVertex(v) =>
      if v in s.vertices then r == Done && s' == Isolated(s, v) else r == Refused && s' == s
    case AddEdge(u, v, growsFrom, growsTo) =>
      if u !in s.vertices || v !in s.vertices then r == Refused && s' == s
      else if (u, v) in s.arcs then r == Done && s' == s
      else (r == Done && s' == Linked(s, u, v)) || (r == NoMemory && s' == s && MayFail(s, u, v, growsFrom, growsTo))
    case RemoveEdge(u, v) =>
      if u !in s.vertices || v !in s.vertices then r == Refused && s' == s
      else r == Done && s' == Unlinked(s, u, v)
    case Clear => r == Done && s' == State(s.directed, s.slots, {}, {}, 0)
  }

  /** Does removing v subtract its self-loop from the counter twice? */
  predicate CountsTwice(s: State, op: Op) {
    op.RemoveVertex? && s.directed && op.v in s.vertices && (op.v, op.v) in s.arcs
  }

  /** The counter is short of the number of edges by `lost`. */
  ghost predicate ShortBy(s: State, lost: nat) {
    s.count == Wrap(|Edges(s)| - lost)
  }

  function NextLost(s: State, op: Op, lost: nat): nat {
    if op.Clear? then 0 else if CountsTwice(s, op) then lost + 1 else lost
  }

  /** The lowest free number lies within the slots, grown if need be. */
  lemma {:induction false} LowestFits(s: State, v: int)
    requires s.slots >= 1 && s.vertices <= Range(s.slots) && Lowest(s.vertices, v)
    ensures Full(s) ==> s.vertices == Range(s.slots) && v == s.slots
    ensures !Full(s) ==> v < s.slots
  {
    var all := Range(s.slots);
    RangeSize(s.slots);
    SubsetSize(s.vertices, all);
    assert v <= s.slots by { assert s.slots !in all; }
    if v == s.slots {
      assert forall x :: x in all ==> x in s.vertices;
      assert s.vertices == all;
    } else {
      assert v in all;
      assert s.vertices != all;
    }
  }

  lemma {:induction false} AddedFits(s: State, grows: bool, v: int)
    requires s.slots >= 1 && s.vertices <= Range(s.slots) && Lowest(s.vertices, v) && AdditionResult(s, grows) == Done
    ensures Added(s, v).vertices <= Range(Added(s, v).slots)
  {
    LowestFits(s, v);
  }

  lemma {:induction false} StepKeepsWellFormed(s: State, op: Op, r: Result, s': State)
    requires WellFormed(s) && s.slots >= 1 && Step(s, op, r, s') && r != Overrun
    ensures WellFormed(s') && s'.slots >= s.slots && s'.directed == s.directed
  {
    if op.AddVertex? && r == Done {
      var v :| Lowest(s.vertices, v) && s' == Added(s, v);
      AddedFits(s, op.grows, v);
    }
  }

  /** The arc that stands for the edge between u and v. */
  function Edge(directed: bool, u: int, v: int): Arc { if directed || u <= v then (u, v) else (v, u) }

  lemma {:induction false} LinkedEdges(s: State, u: int, v: int)
    ensures Edges(Linked(s, u, v)) == Edges(s) + {Edge(s.directed, u, v)}
  {
    var t := Linked(s, u, v);
    forall x ensures x in Edges(t) <==> x in Edges(s) || x == Edge(s.directed, u, v) {
      if s.directed { assert x in t.arcs <==> x in s.arcs || x == (u, v); }
    }
  }

  lemma {:induction false} LinkedCount(s: State, u: int, v: int, lost: nat)
    requires WellFormed(s) && ShortBy(s, lost) && (u, v) !in s.arcs
    ensures ShortBy(Linked(s, u, v), lost)
  {
    LinkedEdges(s, u, v);
    assert (v, u) in s.arcs && !s.directed ==> (u, v) in s.arcs;
    assert Edge(s.directed, u, v) !in Edges(s);
    WrapAdd(|Edges(s)| - lost, 1);
  }

  lemma {:induction false} UnlinkedCount(s: State, u: int, v: int, lost: nat)
    requires WellFormed(s) && ShortBy(s, lost)
    ensures ShortBy(Unlinked(s, u, v), lost)
  {
    if (u, v) in s.arcs {
      var e := if s.directed || u <= v then (u, v) else (v, u);
      assert Edges(Unlinked(s, u, v)) == Edges(s) - {e};
      assert e in Edges(s);
      WrapAdd(|Edges(s)| - lost, -1);
    }
  }

  function Normal(e: Arc): Arc { if e.0 <= e.1 then e else (e.1, e.0) }

  lemma {:induction false} ImageSize(a: set<Arc>, b: set<Arc>, v: int)
    requires forall e :: e in a ==> e.0 == v
    requires b == set e | e in a :: Normal(e)
    ensures |a| == |b|
  {
    if a != {} {
      var e := AnyOf(a);
      var b' := set x | x in a - {e} :: Normal(x);
      assert Normal(e) !in b';
      assert b == b' + {Normal(e)};
      ImageSize(a - {e}, b', v);
    }
  }

  /** Undirected: the out-degree is the number of edges that go, self-loops included. */
  lemma {:induction false} UndirectedRemoval(s: State, v: int)
    requires WellFormed(s) && !s.directed
    ensures |Edges(Isolated(s, v))| == |Edges(s)| - |Out(s.arcs, v)|
  {
    var out := Out(s.arcs, v);
    var gone := set e | e in out :: Normal(e);
    ImageSize(out, gone, v);
    forall e | e in Edges(s) && (e.0 == v || e.1 == v) ensures e in gone {
      assert Normal(if e.0 == v then e else (e.1, e.0)) == e;
      assert (if e.0 == v then e else (e.1, e.0)) in out;
    }
    assert gone <= Edges(s);
    assert Edges(Isolated(s, v)) == Edges(s) - gone;
  }

  /** Directed: out-degree plus in-degree counts a self-loop twice. */
  lemma {:induction false} DirectedRemoval(s: State, v: int)
    requires s.directed
    ensures |Edges(Isolated(s, v))|
         == |Edges(s)| - |Out(s.arcs, v)| - |In(s.arcs, v)| + (if (v, v) in s.arcs then 1 else 0)
  {
    var out, into := Out(s.arcs, v), In(s.arcs, v);
    assert Edges(s) == s.arcs && Edges(Isolated(s, v)) == s.arcs - (out + into);
    assert out + into <= s.arcs;
    assert out * into == if (v, v) in s.arcs then {(v, v)} else {};
    assert |out + into| == |out| + |into| - |out * into|;
  }

  lemma {:induction false} IsolatedCount(s: State, v: int, lost: nat)
    requires WellFormed(s) && ShortBy(s, lost) && v in s.vertices
    ensures ShortBy(Isolated(s, v), NextLost(s, RemoveVertex(v), lost))
  {
    var d := |Out(s.arcs, v)| + (if s.directed then |In(s.arcs, v)| else 0);
    WrapAdd(|Edges(s)| - lost, -d);
    if s.directed { DirectedRemoval(s, v); } else { UndirectedRemoval(s, v); }
  }

  /** Every mutation keeps the counter's exact relation to the number of edges. */
  lemma {:induction false} StepCounts(s: State, op: Op, r: Result, s': State, lost: nat)
    requires WellFormed(s) && s.slots >= 1 && ShortBy(s, lost) && Step(s, op, r, s') && r != Overrun
    ensures WellFormed(s') && s'.slots >= 1 && ShortBy(s', NextLost(s, op, lost))
  {
    StepKeepsWellFormed(s, op, r, s');
    match op
    case AddVertex(_) =>
      assert s'.arcs == s.arcs && s'.directed == s.directed && s'.count == s.count;
      assert Edges(s') == Edges(s);
    case RemoveVertex(v) => if v in s.vertices { IsolatedCount(s, v, lost); }
    case AddEdge(u, v, _, _) => if s' != s { LinkedCount(s, u, v, lost); }
    case RemoveEdge(u, v) => if s' != s { UnlinkedCount(s, u, v, lost); }
    case Clear => assert Edges(s') == {};
  }

  // ---- What the steps do, arc by arc --------------------------------------------------------

  /** Adding an edge between two vertices: that edge, with its reverse in an undirected graph, and no other arc. */
  lemma {:induction false} AddEdgeEffect(s: State, u: int, v: int, growsFrom: bool, growsTo: bool, r: Result, s': State)
    requires WellFormed(s) && Step(s, AddEdge(u, v, growsFrom, growsTo), r, s')
    ensures r == Refused <==> u !in s.vertices || v !in s.vertices
    ensures growsFrom && growsTo ==> r != NoMemory
    ensures r != Done ==> s' == s
    ensures r == Done ==>
              && (forall e :: e in s'.arcs <==> e in s.arcs || e == (u, v) || (!s.directed && e == (v, u)))
              && s'.vertices == s.vertices && s'.slots == s.slots && s'.directed == s.directed
              && |Edges(s')| == |Edges(s)| + (if (u, v) in s.arcs then 0 else 1)
  {
    if (u, v) !in s.arcs && r == Done {
      LinkedEdges(s, u, v);
      assert (v, u) in s.arcs && !s.directed ==> (u, v) in s.arcs;
      assert Edge(s.directed, u, v) !in Edges(s);
    }
  }

  /** Removing an edge between two vertices: neither it nor its reverse remains, and no other arc goes. */
  lemma {:induction false} RemoveEdgeEffect(s: State, u: int, v: int, r: Result, s': State)
    requires WellFormed(s) && Step(s, RemoveEdge(u, v), r, s')
    ensures r == if u in s.vertices && v in s.vertices then Done else Refused
    ensures r == Refused ==> s' == s
    ensures r == Done ==>
              && (forall e :: e in s'.arcs <==> e in s.arcs && e != (u, v) && (s.directed || e != (v, u)))
              && s'.vertices == s.vertices && s'.slots == s.slots && s'.directed == s.directed
              && |Edges(s')| == |Edges(s)| - (if (u, v) in s.arcs then 1 else 0)
  {
    if (u, v) in s.arcs && r == Done {
      assert Edges(s') == Edges(s) - {Edge(s.directed, u, v)};
      assert Edge(s.directed, u, v) in Edges(s);
    }
  }

  function EdgesAt(s: State, v: int): set<Arc> { set e | e in Edges(s) && (e.0 == v || e.1 == v) }

  /** Removing a vertex: it goes with exactly the arcs at it. */
  lemma {:induction false} RemoveVertexEffect(s: State, v: int, r: Result, s': State)
    requires WellFormed(s) && Step(s, RemoveVertex(v), r, s')
    ensures r == if v in s.vertices then Done else Refused
    ensures r == Refused ==> s' == s
    ensures r == Done ==>
              && (forall e :: e in s'.arcs <==> e in s.arcs && e.0 != v && e.1 != v)
              && (forall x :: x in s'.vertices <==> x in s.vertices && x != v) && |s'.vertices| == |s.vertices| - 1
              && s'.slots == s.slots && s'.directed == s.directed
              && |Edges(s')| == |Edges(s)| - |EdgesAt(s, v)|
  {
    if r == Done {
      assert EdgesAt(s, v) <= Edges(s);
      assert Edges(s') == Edges(s) - EdgesAt(s, v);
    }
  }

  /** Adding a vertex: the lowest number that is none, with no arc; full arrays grow by half first, rounded down. */
  lemma {:induction false} AddVertexEffect(s: State, grows: bool, r: Result, s': State)
    requires WellFormed(s) && s.slots >= 1 && Step(s, AddVertex(grows), r, s')
    ensures r == NoMemory <==> |s.vertices| == s.slots && !grows
    ensures r == Overrun <==> |s.vertices| == s.slots == 1 && grows
    ensures r == NoMemory ==> s' == s
    ensures r == Done ==>
              && (exists v :: 0 <= v < s'.slots && v !in s.vertices && s'.vertices == s.vertices + {v}
                              && forall u :: 0 <= u < v ==> u in s.vertices)
              && s'.arcs == s.arcs && s'.count == s.count && s'.directed == s.directed
              && 2 * s'.slots == (if |s.vertices| == s.slots then 3 * s.slots - s.slots % 2 else 2 * s.slots)
  {
    if r == Done {
      var v :| Lowest(s.vertices, v) && s' == Added(s, v);
      LowestFits(s, v);
    }
  }

  /** One step of a run, as a trigger. */
  ghost predicate StepAt(trace: seq<State>, ops: seq<Op>, results: seq<Result>, i: nat)
    requires i < |ops| && |trace| == |ops| + 1 && |results| == |ops|
  {
    Step(trace[i], ops[i], results[i], trace[i + 1])
  }

  ghost predicate Initial(s: State) { s.slots >= 1 && s == State(s.directed, s.slots, {}, {}, 0) }

  /** A run of mutations from an empty graph, none of which writes outside the arrays. */
  ghost predicate IsRun(trace: seq<State>, ops: seq<Op>, results: seq<Result>) {
    && |trace| == |ops| + 1 && |results| == |ops|
    && Initial(trace[0])
    && (forall i :: 0 <= i < |ops| ==> results[i] != Overrun)
    && forall i: nat {:trigger StepAt(trace, ops, results, i)} :: i < |ops| ==> StepAt(trace, ops, results, i)
  }

  /** Self-looped directed vertices removed in the first n steps, since the last clear. */
  function Lost(trace: seq<State>, ops: seq<Op>, n: nat): nat
    requires n <= |ops| < |trace|
  {
    if n == 0 then 0 else NextLost(trace[n - 1], ops[n - 1], Lost(trace, ops, n - 1))
  }

  lemma {:induction false} RunCounts(trace: seq<State>, ops: seq<Op>, results: seq<Result>, n: nat)
    requires IsRun(trace, ops, results) && n <= |ops|
    ensures WellFormed(trace[n]) && trace[n].slots >= 1 && ShortBy(trace[n], Lost(trace, ops, n))
  {
    if n == 0 {
      assert Edges(trace[0]) == {};
    } else {
      RunCounts(trace, ops, results, n - 1);
      assert StepAt(trace, ops, results, n - 1);
      StepCounts(trace[n - 1], ops[n - 1], results[n - 1], trace[n], Lost(trace, ops, n - 1));
    }
  }

  /** After every run, the counter is right if and only if no self-looped directed vertex was lost (mod 2^64). */
  lemma {:induction false} CountExactIff(trace: seq<State>, ops: seq<Op>, results: seq<Result>, n: nat)
    requires IsRun(trace, ops, results) && n <= |ops|
    ensures trace[n].count == Wrap(|Edges(trace[n])|) <==> Wrap(Lost(trace, ops, n)) == 0
  {
    RunCounts(trace, ops, results, n);
    SameWrap(|Edges(trace[n])|, Lost(trace, ops, n));
  }

  /** One removal from a correctly counted graph: exact unless the graph is directed and v has a self-loop. */
  lemma {:induction false} RemovalExactIff(s: State, v: int)
    requires WellFormed(s) && s.count == Wrap(|Edges(s)|) && v in s.vertices
    ensures Isolated(s, v).count == Wrap(|Edges(Isolated(s, v))|) <==> !(s.directed && (v, v) in s.arcs)
  {
    IsolatedCount(s, v, 0);
    SameWrap(|Edges(Isolated(s, v))|, NextLost(s, RemoveVertex(v), 0));
  }

  /** A lone directed self-loop: after the removal the counter reads 2^64 - 1. */
  lemma SelfLoopUnderflows()
    ensures var s := State(true, 2, {0}, {(0, 0)}, 1);
            WellFormed(s) && |Edges(s)| == s.count && Edges(Isolated(s, 0)) == {} && Isolated(s, 0).count == WORD - 1
  {
    var s := State(true, 2, {0}, {(0, 0)}, 1);
    assert Edges(s) == {(0, 0)} && Out(s.arcs, 0) == {(0, 0)} && In(s.arcs, 0) == {(0, 0)};
    WrapIsMod(-1);
  }

  // ---- Vertex numbers -----------------------------------------------------------------------

  /** The numbers handed out in the first n steps. */
  ghost function Used(trace: seq<State>, n: nat): set<int>
    requires n < |trace|
  {
    if n == 0 then trace[0].vertices else Used(trace, n - 1) + trace[n].vertices
  }

  /** A step adds at most the next number to those used so far. */
  lemma {:induction false} StepUses(s: State, op: Op, r: Result, s': State, m: nat) returns (m': nat)
    requires s.vertices <= Range(m) && Step(s, op, r, s') && r != Overrun
    ensures Range(m) + s'.vertices == Range(m')
  {
    m' := m;
    if op.AddVertex? && r == Done {
      var v :| Lowest(s.vertices, v) && s' == Added(s, v);
      m' := LowestExtends(s.vertices, m, v);
      assert Range(m) + s'.vertices == Range(m) + {v};
    } else {
      assert s'.vertices <= s.vertices;
    }
  }

  /** Numbers are handed out without gaps: those used so far are 0, 1, ..., m - 1. */
  lemma {:induction false} UsedIsSegment(trace: seq<State>, ops: seq<Op>, results: seq<Result>, n: nat) returns (m: nat)
    requires IsRun(trace, ops, results) && n <= |ops|
    ensures Used(trace, n) == Range(m) && trace[n].vertices <= Used(trace, n)
  {
    m := 0;
    if n > 0 {
      m := UsedIsSegment(trace, ops, results, n - 1);
      assert StepAt(trace, ops, results, n - 1);
      m := StepUses(trace[n - 1], ops[n - 1], results[n - 1], trace[n], m);
    }
  }

  lemma {:induction false} LowestExtends(vertices: set<int>, m: nat, v: int) returns (m': nat)
    requires vertices <= Range(m) && Lowest(vertices, v)
    ensures v <= m && (v == m <==> vertices == Range(m))
    ensures Range(m) + {v} == Range(m')
  {
    assert v <= m by { assert m !in Range(m); }
    m' := if v == m then m + 1 else m;
  }

  /** A new vertex gets a number that was in use before if and only if some number handed out earlier is free now. */
  lemma {:induction false} NumberReusedIff(trace: seq<State>, ops: seq<Op>, results: seq<Result>, n: nat, v: int)
    requires IsRun(trace, ops, results) && n <= |ops| && Lowest(trace[n].vertices, v)
    ensures v in Used(trace, n) <==> trace[n].vertices != Used(trace, n)
    ensures v in Used(trace, n) <==> exists u :: u in Used(trace, n) && u !in trace[n].vertices
  {
    var m := UsedIsSegment(trace, ops, results, n);
    var m' := LowestExtends(trace[n].vertices, m, v);
  }

  /** Add, remove, add: number 0 is handed out twice. */
  lemma {:induction false} NumberHandedOutTwice(directed: bool) returns (trace: seq<State>)
    ensures var ops := [AddVertex(true), RemoveVertex(0), AddVertex(true)];
            && IsRun(trace, ops, [Done, Done, Done])
            && trace[0].vertices == {} && trace[1].vertices == {0} && trace[2].vertices == {} && trace[3].vertices == {0}
  {
    var ops, results := [AddVertex(true), RemoveVertex(0), AddVertex(true)], [Done, Done, Done];
    var s0 := State(directed, 2, {}, {}, 0);
    var s1 := Added(s0, 0);
    var s2 := Isolated(s1, 0);
    var s3 := Added(s2, 0);
    trace := [s0, s1, s2, s3];
    assert Lowest({}, 0);
    assert s1.vertices == {0} && s2.vertices == {};
    assert StepAt(trace, ops, results, 0) && StepAt(trace, ops, results, 1) && StepAt(trace, ops, results, 2);
  }

  lemma {:induction false} RunExtends(trace: seq<State>, ops: seq<Op>, results: seq<Result>, op: Op, r: Result, s: State)
    requires IsRun(trace, ops, results) && Step(trace[|ops|], op, r, s) && r != Overrun
    ensures IsRun(trace + [s], ops + [op], results + [r])
  {
    forall i: nat | i < |ops| + 1 ensures StepAt(trace + [s], ops + [op], results + [r], i) {
      if i < |ops| { assert StepAt(trace, ops, results, i); }
    }
  }
}

/** Adjacency lists as the arcs they hold. */
module GraphLists {
  import opened Sequences
  import opened GraphSearch
  import opened GraphSpec

  ghost function Arcs(adj: Lists): (r: set<Arc>)
    ensures forall u, v :: (u, v) in r <==> HasArc(adj, u, v)
  {
    set u, v | 0 <= u < |adj| && v in adj[u] :: (u, v)
  }

  ghost function Active(removed: seq<bool>): set<int> { set i | 0 <= i < |removed| && !removed[i] }

  /** One list per slot, without duplicates and within its capacity, which is zero or grown from 8. */
  ghost predicate Sized(adj: Lists, removed: seq<bool>, capacities: seq<nat>) {
    && 0 < |adj| == |removed| == |capacities|
    && forall i :: 0 <= i < |adj| ==>
         Distinct(adj[i]) && |adj[i]| <= capacities[i] && (capacities[i] == 0 || capacities[i] >= DEFAULT_CAPACITY)
  }

  lemma {:induction false} ActiveFull(removed: seq<bool>)
    requires forall i :: 0 <= i < |removed| ==> !removed[i]
    ensures |Active(removed)| == |removed|
  {
    RangeSize(|removed|);
    assert Active(removed) == Range(|removed|);
  }

  lemma {:induction false} ArcAdded(adj: Lists, u: int, v: int)
    requires 0 <= u < |adj|
    ensures Arcs(adj[u := adj[u] + [v]]) == Arcs(adj) + {(u, v)}
  {
  }

  lemma {:induction false} ArcDropped(adj: Lists, u: int, k: nat)
    requires 0 <= u < |adj| && k < |adj[u]| && Distinct(adj[u])
    ensures Arcs(adj[u := Drop(adj[u], k)]) == Arcs(adj) - {(u, adj[u][k])}
  {
    var v, l := adj[u][k], Drop(adj[u], k);
    DropElems(adj[u], k);
    assert forall x :: x in l <==> x in Elems(l);
    assert forall x :: x in adj[u] <==> x in Elems(adj[u]);
    assert forall a, b :: HasArc(adj[u := l], a, b) <==> HasArc(adj, a, b) && (a, b) != (u, v);
  }

  /** s without the occurrences of v. */
  function Without(s: seq<int>, v: int): seq<int> {
    if s == [] then [] else Without(s[..|s| - 1], v) + (if s[|s| - 1] == v then [] else [s[|s| - 1]])
  }

  lemma {:induction false} WithoutFacts(s: seq<int>, v: int)
    ensures |Without(s, v)| <= |s|
    ensures forall x :: x in Without(s, v) <==> x in s && x != v
    ensures Distinct(s) ==> Distinct(Without(s, v)) && |Without(s, v)| == |s| - (if v in s then 1 else 0)
  {
    if s != [] {
      var t := s[..|s| - 1];
      WithoutFacts(t, v);
      var z := s[|s| - 1];
      assert s == t + [z];
      assert forall x :: x in s <==> x in t || x == z;
      assert Distinct(s) ==> Distinct(t) && z !in t;
    }
  }

  /** The first n lists without v. */
  function Purged(adj: Lists, v: int, n: int): (r: Lists)
    ensures |r| == |adj|
  {
    seq(|adj|, k requires 0 <= k < |adj| => if k < n then Without(adj[k], v) else adj[k])
  }

  /** The arcs into v from the first n vertices. */
  ghost function InBelow(adj: Lists, v: int, n: nat): set<Arc>
    requires n <= |adj|
  {
    set k | 0 <= k < n && v in adj[k] :: (k, v)
  }

  lemma {:induction false} InBelowNext(adj: Lists, v: int, n: nat)
    requires n < |adj| && Distinct(adj[n])
    ensures |InBelow(adj, v, n + 1)| == |InBelow(adj, v, n)| + (|adj[n]| - |Without(adj[n], v)|)
  {
    WithoutFacts(adj[n], v);
    assert (n, v) !in InBelow(adj, v, n);
    assert InBelow(adj, v, n + 1) == InBelow(adj, v, n) + (if v in adj[n] then {(n, v)} else {});
  }

  /** The arcs from v to the members of l. */
  ghost function Fan(v: int, l: seq<int>): (r: set<Arc>)
    ensures forall e :: e in r <==> e.0 == v && e.1 in l
  {
    if l == [] then {}
    else
      assert l == l[..|l| - 1] + [l[|l| - 1]];
      Fan(v, l[..|l| - 1]) + {(v, l[|l| - 1])}
  }

  lemma {:induction false} FanSize(v: int, l: seq<int>)
    requires Distinct(l)
    ensures |Fan(v, l)| == |l|
  {
    if l != [] {
      FanSize(v, l[..|l| - 1]);
      assert l[|l| - 1] !in l[..|l| - 1];
    }
  }

  lemma {:induction false} OutSize(adj: Lists, v: int)
    requires 0 <= v < |adj| && Distinct(adj[v])
    ensures |Out(Arcs(adj), v)| == |adj[v]|
  {
    FanSize(v, adj[v]);
    assert Out(Arcs(adj), v) == Fan(v, adj[v]);
  }

  /** Purging every list of v and emptying v's own list removes exactly the arcs at v. */
  lemma {:induction false} PurgedArcs(adj: Lists, v: int)
    requires 0 <= v < |adj|
    ensures InBelow(adj, v, |adj|) == In(Arcs(adj), v)
    ensures Arcs(Purged(adj, v, |adj|)[v := []]) == Arcs(adj) - Out(Arcs(adj), v) - In(Arcs(adj), v)
  {
    var p := Purged(adj, v, |adj|)[v := []];
    forall a, b ensures HasArc(p, a, b) <==> HasArc(adj, a, b) && a != v && b != v {
      if 0 <= a < |adj| && a != v { WithoutFacts(adj[a], v); }
    }
  }

  lemma {:induction false} PurgedSized(adj: Lists, removed: seq<bool>, capacities: seq<nat>, v: int)
    requires Sized(adj, removed, capacities) && 0 <= v < |adj|
    ensures Sized(Purged(adj, v, |adj|)[v := []], removed[v := true], capacities[v := 0])
  {
    forall i | 0 <= i < |adj| ensures Distinct(Without(adj[i], v)) && |Without(adj[i], v)| <= |adj[i]| {
      WithoutFacts(adj[i], v);
    }
  }
}
