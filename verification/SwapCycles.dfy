/** Detecting swap cycles: a graph with at most one edge out of each student, searched depth first. */
module SwapCycles {
  import opened Common

  /** An open request; an empty or missing target is an open offer and gives no edge. */
  datatype Request = Request(requesterId: StudentId, targetStudentId: Option<StudentId>, requesterRoomId: RoomId)

  type Graph = map<StudentId, StudentId>

  datatype Participant = Participant(studentId: StudentId, currentRoomId: RoomId, targetRoomId: RoomId)

  function Members(path: seq<StudentId>): set<StudentId> {
    set x | x in path
  }

  // ---------- The request graph ----------

  predicate IsTargeted(r: Request) {
    r.targetStudentId.Some? && r.targetStudentId.value != ""
  }

  /** The last targeted request of a student. */
  function LastRequest(requests: seq<Request>, id: StudentId): (r: Option<Request>)
    ensures r.Some? ==> IsTargeted(r.value)
  {
    if requests == [] then None
    else
      var n := |requests| - 1;
      if requests[n].requesterId == id && IsTargeted(requests[n]) then Some(requests[n])
      else LastRequest(requests[..n], id)
  }

  /** Students with a targeted request, by their first one: the insertion order of the graph's keys. */
  function Requesters(requests: seq<Request>): seq<StudentId> {
    if requests == [] then []
    else
      var n := |requests| - 1;
      var before := Requesters(requests[..n]);
      if IsTargeted(requests[n]) && requests[n].requesterId !in before then before + [requests[n].requesterId] else before
  }

  predicate Targeted(graph: Graph) {
    forall id :: id in graph ==> graph[id] != ""
  }

  /** `graph.set` for every targeted request; a later one of the same student overwrites. */
  function Edges(requests: seq<Request>): (graph: Graph)
    ensures Targeted(graph)
  {
    if requests == [] then map[]
    else
      var r := requests[|requests| - 1];
      var before := Edges(requests[..|requests| - 1]);
      if IsTargeted(r) then before[r.requesterId := r.targetStudentId.value] else before
  }

  /** The room each student asked to give up in that request. */
  function RoomsAsked(requests: seq<Request>): (rooms: map<StudentId, RoomId>)
    ensures rooms.Keys == Edges(requests).Keys
  {
    if requests == [] then map[]
    else
      var r := requests[|requests| - 1];
      var before := RoomsAsked(requests[..|requests| - 1]);
      if IsTargeted(r) then before[r.requesterId := r.requesterRoomId] else before
  }

  /** Each student points at the target of the last targeted request, and is listed once. */
  lemma {:induction false} EdgesAreLast(requests: seq<Request>, id: StudentId)
    ensures id in Edges(requests) <==> LastRequest(requests, id).Some?
    ensures id in Edges(requests) ==>
              && LastRequest(requests, id).value in requests
              && Edges(requests)[id] == LastRequest(requests, id).value.targetStudentId.value
              && RoomsAsked(requests)[id] == LastRequest(requests, id).value.requesterRoomId
    ensures id in Requesters(requests) <==> id in Edges(requests)
    ensures Unique(Requesters(requests))
  {
    if requests != [] {
      var n := |requests| - 1;
      assert requests == requests[..n] + [requests[n]];
      EdgesAreLast(requests[..n], id);
      EdgesAreLast(requests[..n], requests[n].requesterId);
    }
  }

  method BuildGraph(requests: seq<Request>)
    returns (graph: Graph, rooms: map<StudentId, RoomId>, order: seq<StudentId>)
    ensures graph == Edges(requests) && rooms == RoomsAsked(requests) && order == Requesters(requests)
  {
    graph, rooms, order := map[], map[], [];
    var k := 0;
    while k < |requests|
      invariant 0 <= k <= |requests|
      invariant graph == Edges(requests[..k]) && rooms == RoomsAsked(requests[..k]) && order == Requesters(requests[..k])
    {
      var r := requests[k];
      assert requests[..k + 1][..k] == requests[..k];
      EdgesAreLast(requests[..k], r.requesterId);
      if r.targetStudentId.Some? && r.targetStudentId.value != "" {
        if r.requesterId !in graph {
          order := order + [r.requesterId];
        }
        graph := graph[r.requesterId := r.targetStudentId.value];
        rooms := rooms[r.requesterId := r.requesterRoomId];
      }
      k := k + 1;
    }
    assert requests[..k] == requests;
  }

  // ---------- Walks and cycles ----------

  function Nodes(graph: Graph): set<StudentId> {
    graph.Keys + graph.Values
  }

  ghost predicate IsWalk(graph: Graph, path: seq<StudentId>) {
    && Unique(path)
    && Members(path) <= Nodes(graph)
    && forall i :: 0 <= i < |path| - 1 ==> path[i] in graph && graph[path[i]] == path[i + 1]
  }

  /** A simple cycle: distinct students, each pointing at the next and the last at the first. */
  ghost predicate IsCycle(graph: Graph, c: seq<StudentId>) {
    && |c| >= 1 && Unique(c)
    && (forall i :: 0 <= i < |c| - 1 ==> c[i] in graph && graph[c[i]] == c[i + 1])
    && c[|c| - 1] in graph && graph[c[|c| - 1]] == c[0]
  }

  ghost predicate IsRotation(a: seq<StudentId>, b: seq<StudentId>) {
    exists k :: 0 <= k <= |b| && a == b[k..] + b[..k]
  }

  lemma WalkOneMore(graph: Graph, path: seq<StudentId>)
    requires IsWalk(graph, path) && |path| > 0 && path[|path| - 1] in graph
    requires graph[path[|path| - 1]] !in path
    ensures IsWalk(graph, path + [graph[path[|path| - 1]]])
    ensures Members(path + [graph[path[|path| - 1]]]) == Members(path) + {graph[path[|path| - 1]]}
  {
  }

  /** The walk continued until it meets itself or runs out of edges. */
  ghost function Walk(graph: Graph, path: seq<StudentId>): (full: seq<StudentId>)
    requires IsWalk(graph, path) && |path| > 0
    ensures IsWalk(graph, full) && |path| <= |full| && full[..|path|] == path
    ensures full[|full| - 1] in graph ==> graph[full[|full| - 1]] in full
    decreases Nodes(graph) - Members(path)
  {
    var last := path[|path| - 1];
    if last !in graph || graph[last] in path then path
    else
      WalkOneMore(graph, path);
      var full := Walk(graph, path + [graph[last]]);
      assert full[..|path|] == full[..|path| + 1][..|path|];
      full
  }

  function PositionOf(path: seq<StudentId>, x: StudentId): (k: nat)
    requires x in path
    ensures k < |path| && path[k] == x && x !in path[..k]
  {
    if path[0] == x then 0
    else
      assert path == [path[0]] + path[1..];
      var k := PositionOf(path[1..], x);
      assert path[..k + 1] == [path[0]] + path[1..][..k];
      k + 1
  }

  /** The part of a finished walk that closes on itself. */
  ghost function Closed(graph: Graph, full: seq<StudentId>): Option<seq<StudentId>>
    requires IsWalk(graph, full) && |full| > 0
    requires full[|full| - 1] in graph ==> graph[full[|full| - 1]] in full
  {
    var last := full[|full| - 1];
    if last in graph then Some(full[PositionOf(full, graph[last])..]) else None
  }

  /** What a search from a fresh start finds. */
  ghost function CycleFrom(graph: Graph, start: StudentId): Option<seq<StudentId>>
    requires start in graph
  {
    Closed(graph, Walk(graph, [start]))
  }

  ghost function Visited(graph: Graph, start: StudentId): set<StudentId>
    requires start in graph
  {
    Members(Walk(graph, [start]))
  }

  lemma StaysWalk(graph: Graph, path: seq<StudentId>, node: StudentId)
    requires IsWalk(graph, path) && node !in path && node in Nodes(graph)
    requires |path| > 0 ==> path[|path| - 1] in graph && graph[path[|path| - 1]] == node
    ensures IsWalk(graph, path + [node]) && Members(path + [node]) == Members(path) + {node}
    ensures node in graph ==> graph[node] in Nodes(graph)
  {
  }

  /** Stepping onto a new node from which the walk goes on. */
  lemma StepGoesOn(graph: Graph, path: seq<StudentId>, node: StudentId)
    requires IsWalk(graph, path) && node !in path && node in graph && graph[node] !in path + [node]
    requires |path| > 0 ==> path[|path| - 1] in graph && graph[path[|path| - 1]] == node
    ensures var onto := path + [node]; IsWalk(graph, onto) && IsWalk(graph, onto + [graph[node]])
    ensures Walk(graph, path + [node]) == Walk(graph, path + [node] + [graph[node]])
  {
    StaysWalk(graph, path, node);
    StaysWalk(graph, path + [node], graph[node]);
  }

  /** Stepping onto a new node at which the walk ends: it has no edge, or its edge leads back. */
  lemma StepEnds(graph: Graph, path: seq<StudentId>, node: StudentId)
    requires IsWalk(graph, path) && node !in path && node in Nodes(graph) && (node in graph ==> graph[node] in path + [node])
    requires |path| > 0 ==> path[|path| - 1] in graph && graph[path[|path| - 1]] == node
    ensures var onto := path + [node];
            && IsWalk(graph, onto) && Walk(graph, onto) == onto
            && Closed(graph, onto) == if node in graph then Some(onto[PositionOf(onto, graph[node])..]) else None
  {
    StaysWalk(graph, path, node);
  }

  /**
   The cycle is the closed part of the walk that the path leads into, and
   exactly the walk has been visited; stated so that the search need not look
   at the walk.
   */
  ghost predicate Explored(graph: Graph, path: seq<StudentId>, cycle: Option<seq<StudentId>>, visited: set<StudentId>) {
    forall p :: IsPath(path, p) ==> FoundAlong(graph, p, cycle, visited)
  }

  predicate IsPath(path: seq<StudentId>, p: seq<StudentId>) {
    path == p
  }

  ghost predicate FoundAlong(graph: Graph, path: seq<StudentId>, cycle: Option<seq<StudentId>>, visited: set<StudentId>) {
    && |path| > 0 && IsWalk(graph, path)
    && cycle == Closed(graph, Walk(graph, path)) && visited == Members(Walk(graph, path))
  }

  /** What a search at node with the given path behind it finds, and whom it has visited: nothing new on the path itself. */
  ghost predicate Searched(graph: Graph, path: seq<StudentId>, node: StudentId, cycle: Option<seq<StudentId>>, before: set<StudentId>,
                           after: set<StudentId>)
  {
    if node in path then cycle == Some(path[PositionOf(path, node)..]) && after == before else Explored(graph, path + [node], cycle, after)
  }

  /** What the search found from the next node on is what it finds from this one. */
  lemma SearchedOnward(graph: Graph, path: seq<StudentId>, node: StudentId, cycle: Option<seq<StudentId>>, before: set<StudentId>,
                       after: set<StudentId>)
    requires IsWalk(graph, path) && node !in path && node in graph
    requires |path| > 0 ==> path[|path| - 1] in graph && graph[path[|path| - 1]] == node
    requires Searched(graph, path + [node], graph[node], cycle, Members(path + [node]), after)
    ensures Searched(graph, path, node, cycle, before, after)
  {
    var onto := path + [node];
    assert IsPath(onto + [graph[node]], onto + [graph[node]]);
    if graph[node] in onto {
      StepEnds(graph, path, node);
    } else {
      StepGoesOn(graph, path, node);
    }
  }

  lemma SearchedNoFurther(graph: Graph, path: seq<StudentId>, node: StudentId, before: set<StudentId>)
    requires IsWalk(graph, path) && node !in path && node in Nodes(graph) && node !in graph
    requires |path| > 0 ==> path[|path| - 1] in graph && graph[path[|path| - 1]] == node
    ensures Searched(graph, path, node, None, before, Members(path + [node]))
  {
    StepEnds(graph, path, node);
  }

  lemma ExploredMeans(graph: Graph, path: seq<StudentId>, cycle: Option<seq<StudentId>>, visited: set<StudentId>)
    requires Explored(graph, path, cycle, visited)
    ensures FoundAlong(graph, path, cycle, visited)
  {
    assert IsPath(path, path);
  }

  // ---------- The search ----------

  class CycleSearch {
    const graph: Graph
    var visited: set<StudentId>
    var recStack: set<StudentId>
    var path: seq<StudentId>

    constructor (requests: Graph)
      ensures graph == requests && visited == {} && recStack == {} && path == []
    {
      graph, visited, recStack, path := requests, {}, {}, [];
    }

    /** The nodes on the path are the visited ones, and the path leads to the node about to be looked at. */
    ghost predicate Descending(node: StudentId)
      reads this
    {
      && visited == recStack == Members(path)
      && IsWalk(graph, path)
      && node in Nodes(graph)
      && (|path| > 0 ==> path[|path| - 1] in graph && graph[path[|path| - 1]] == node)
    }

    method FindCycleDFS(node: StudentId) returns (cycle: Option<seq<StudentId>>)
      requires Targeted(graph) && Descending(node)
      modifies this
      ensures Searched(graph, old(path), node, cycle, old(visited), visited)
      ensures cycle.None? ==> path == old(path) && recStack == old(recStack)
      decreases Nodes(graph) - visited
    {
      if node in recStack {
        var cycleStart := PositionOf(path, node);
        return Some(path[cycleStart..]);
      }
      if node in visited {
        return None;
      }
      StaysWalk(graph, path, node);
      visited := visited + {node};
      recStack := recStack + {node};
      path := path + [node];
      if node in graph && graph[node] != "" {
        cycle := FindCycleDFS(graph[node]);
        SearchedOnward(graph, old(path), node, cycle, old(visited), visited);
        if cycle.Some? {
          return;
        }
      } else {
        SearchedNoFurther(graph, old(path), node, old(visited));
      }
      BackOut(old(path), old(recStack), node);
      recStack := recStack - {node};
      path := path[..|path| - 1];
      return None;
    }
  }

  lemma BackOut(path: seq<StudentId>, recStack: set<StudentId>, node: StudentId)
    requires node !in recStack
    ensures (path + [node])[..|path + [node]| - 1] == path && recStack + {node} - {node} == recStack
  {
  }

  // ---------- All cycles ----------

  /** A student asking for the own room is no cycle worth reporting. */
  function Reported(cycle: Option<seq<StudentId>>): seq<seq<StudentId>> {
    if cycle.Some? && |cycle.value| >= 2 then [cycle.value] else []
  }

  /** The nodes seen and the cycles found after searching from the keys in order. */
  ghost function Detect(graph: Graph, order: seq<StudentId>): (set<StudentId>, seq<seq<StudentId>>)
    requires forall k :: 0 <= k < |order| ==> order[k] in graph
  {
    if order == [] then ({}, [])
    else
      var n := |order| - 1;
      var before := Detect(graph, order[..n]);
      if order[n] in before.0 then before
      else
        (before.0 + Visited(graph, order[n]), before.1 + Reported(CycleFrom(graph, order[n])))
  }

  /** Participants of a cycle; each is offered the room its target asked to give up. */
  ghost predicate Describes(graph: Graph, rooms: map<StudentId, RoomId>, cycle: seq<StudentId>, chain: seq<Participant>) {
    && |chain| == |cycle|
    && forall i :: 0 <= i < |cycle| ==>
         && cycle[i] in rooms && cycle[i] in graph && graph[cycle[i]] in rooms
         && chain[i] == Participant(cycle[i], rooms[cycle[i]], rooms[graph[cycle[i]]])
  }

  ghost predicate DescribesAll(graph: Graph, rooms: map<StudentId, RoomId>, cycles: seq<seq<StudentId>>, chains: seq<seq<Participant>>) {
    |chains| == |cycles| && forall i :: 0 <= i < |cycles| ==> Describes(graph, rooms, cycles[i], chains[i])
  }

  /** Progress of the loop over the keys: what was seen and described is what the first k searches give. */
  ghost predicate Detected(graph: Graph, rooms: map<StudentId, RoomId>, order: seq<StudentId>, k: int, seen: set<StudentId>,
                           chains: seq<seq<Participant>>)
  {
    && 0 <= k <= |order| && (forall i :: 0 <= i < |order| ==> order[i] in graph)
    && seen == Detect(graph, order[..k]).0
    && DescribesAll(graph, rooms, Detect(graph, order[..k]).1, chains)
  }

  lemma DetectedNext(graph: Graph, rooms: map<StudentId, RoomId>, order: seq<StudentId>, k: int, seen: set<StudentId>,
                     chains: seq<seq<Participant>>)
    requires Detected(graph, rooms, order, k, seen, chains) && k < |order|
    ensures order[k] in graph
    ensures order[k] in seen ==> Detected(graph, rooms, order, k + 1, seen, chains)
    ensures order[k] !in seen ==> forall more ::
              DescribesAll(graph, rooms, Reported(CycleFrom(graph, order[k])), more)
              ==> Detected(graph, rooms, order, k + 1, seen + Visited(graph, order[k]), chains + more)
  {
    assert order[..k] + [order[k]] == order[..k + 1];
  }

  /** The reported chains: each describes a simple cycle of two or more, and each such cycle is described up to rotation. */
  ghost predicate ExactlyTheCycles(graph: Graph, rooms: map<StudentId, RoomId>, chains: seq<seq<Participant>>) {
    && (forall i :: 0 <= i < |chains| ==> TellsOfCycle(graph, rooms, chains[i]))
    && (forall c :: IsCycle(graph, c) && |c| >= 2 ==> IsTold(graph, rooms, chains, c))
  }

  ghost predicate TellsOfCycle(graph: Graph, rooms: map<StudentId, RoomId>, chain: seq<Participant>) {
    exists c :: IsCycle(graph, c) && |c| >= 2 && Describes(graph, rooms, c, chain)
  }

  /** Some chain describes the cycle, read from one of its students. */
  ghost predicate IsTold(graph: Graph, rooms: map<StudentId, RoomId>, chains: seq<seq<Participant>>, c: seq<StudentId>) {
    exists i, found :: 0 <= i < |chains| && IsRotation(found, c) && Describes(graph, rooms, found, chains[i])
  }

  method DetectSwapCycles(requests: seq<Request>) returns (chains: seq<seq<Participant>>)
    ensures DescribesAll(Edges(requests), RoomsAsked(requests), DetectAll(requests), chains)
    ensures ExactlyTheCycles(Edges(requests), RoomsAsked(requests), chains)
  {
    var graph, nodeData, order := BuildGraph(requests);
    KeysInGraph(requests);
    chains := [];
    var globalVisited: set<StudentId> := {};
    var k := 0;
    while k < |order|
      invariant 0 <= k <= |order|
      invariant Detected(graph, nodeData, order, k, globalVisited, chains)
    {
      DetectedNext(graph, nodeData, order, k, globalVisited, chains);
      if order[k] !in globalVisited {
        var seen, more := SearchFrom(graph, nodeData, order[k]);
        globalVisited := globalVisited + seen;
        chains := chains + more;
      }
      k := k + 1;
    }
    assert order[..k] == order;
    DetectsExactly(requests);
    ChainsAreTheCycles(graph, nodeData, DetectAll(requests), chains);
  }

  lemma KeysInGraph(requests: seq<Request>)
    ensures forall k :: 0 <= k < |Requesters(requests)| ==> Requesters(requests)[k] in Edges(requests)
  {
  }

  /** The cycles found by searching from every key in turn. */
  ghost function DetectAll(requests: seq<Request>): seq<seq<StudentId>> {
    KeysInGraph(requests);
    Detect(Edges(requests), Requesters(requests)).1
  }

  /** One turn of the loop: the nodes seen and the chain found, if it is of two or more. */
  method SearchFrom(graph: Graph, rooms: map<StudentId, RoomId>, start: StudentId)
    returns (seen: set<StudentId>, chains: seq<seq<Participant>>)
    requires Targeted(graph) && graph.Keys == rooms.Keys && start in graph
    ensures seen == Visited(graph, start)
    ensures DescribesAll(graph, rooms, Reported(CycleFrom(graph, start)), chains)
  {
    var cycle;
    cycle, seen := Search(graph, start);
    if cycle.Some? && |cycle.value| >= 2 {
      FoundIsCycle(graph, start);
      var chain := Describe(graph, rooms, cycle.value);
      chains := [chain];
    } else {
      chains := [];
    }
  }

  /** One search with fresh bookkeeping. */
  method Search(graph: Graph, start: StudentId) returns (cycle: Option<seq<StudentId>>, seen: set<StudentId>)
    requires Targeted(graph) && start in graph
    ensures cycle == CycleFrom(graph, start) && seen == Visited(graph, start)
  {
    var search := new CycleSearch(graph);
    assert search.path + [start] == [start];
    cycle := search.FindCycleDFS(start);
    seen := search.visited;
    ExploredMeans(graph, [start], cycle, seen);
  }

  method Describe(graph: Graph, rooms: map<StudentId, RoomId>, cycle: seq<StudentId>) returns (chain: seq<Participant>)
    requires IsCycle(graph, cycle) && graph.Keys == rooms.Keys
    ensures Describes(graph, rooms, cycle, chain)
  {
    chain := [];
    var i := 0;
    while i < |cycle|
      invariant 0 <= i <= |cycle| && |chain| == i
      invariant forall j :: 0 <= j < i ==>
                  && cycle[j] in rooms && cycle[j] in graph && graph[cycle[j]] in rooms
                  && chain[j] == Participant(cycle[j], rooms[cycle[j]], rooms[graph[cycle[j]]])
    {
      NextOnCycle(graph, cycle, i);
      var own := if cycle[i] in rooms then rooms[cycle[i]] else 0;
      var target := graph[cycle[i]];
      chain := chain + [Participant(cycle[i], own, if target in rooms then rooms[target] else 0)];
      i := i + 1;
    }
  }

  lemma NextOnCycle(graph: Graph, c: seq<StudentId>, i: nat)
    requires IsCycle(graph, c) && i < |c|
    ensures c[i] in graph && graph[c[i]] in graph && graph[c[i]] in c
  {
    assert c[0] in graph;
    if i < |c| - 1 {
      assert c[i + 1] in graph;
    }
  }

  // ---------- Soundness ----------

  /** Whatever a search finds is a simple cycle. */
  lemma FoundIsCycle(graph: Graph, start: StudentId)
    requires start in graph && CycleFrom(graph, start).Some?
    ensures IsCycle(graph, CycleFrom(graph, start).value)
  {
  }

  lemma {:induction false} DetectSound(graph: Graph, order: seq<StudentId>)
    requires forall k :: 0 <= k < |order| ==> order[k] in graph
    ensures forall i :: 0 <= i < |Detect(graph, order).1| ==>
              IsCycle(graph, Detect(graph, order).1[i]) && |Detect(graph, order).1[i]| >= 2
  {
    if order != [] {
      var n := |order| - 1;
      DetectSound(graph, order[..n]);
      if order[n] !in Detect(graph, order[..n]).0 && CycleFrom(graph, order[n]).Some? {
        FoundIsCycle(graph, order[n]);
      }
    }
  }

  // ---------- Completeness ----------

  /** Along a walk that meets a cycle, everything from the meeting point on is on the cycle. */
  lemma {:induction false} StaysOnCycle(graph: Graph, path: seq<StudentId>, c: seq<StudentId>, i: nat, j: nat)
    requires IsWalk(graph, path) && IsCycle(graph, c) && i <= j < |path| && path[i] in c
    ensures path[j] in c
  {
    if i < j {
      StaysOnCycle(graph, path, c, i, j - 1);
      var k :| 0 <= k < |c| && c[k] == path[j - 1];
      NextOnCycle(graph, c, k);
    }
  }

  /** Two simple cycles with a common first student are the same. */
  lemma {:induction false} SameFirstPrefix(graph: Graph, a: seq<StudentId>, b: seq<StudentId>, n: nat)
    requires IsCycle(graph, a) && IsCycle(graph, b) && a[0] == b[0] && n < |a| && n < |b|
    ensures a[n] == b[n]
  {
    if n > 0 {
      SameFirstPrefix(graph, a, b, n - 1);
    }
  }

  lemma NotBackYet(graph: Graph, c: seq<StudentId>, n: nat)
    requires IsCycle(graph, c) && n < |c| - 1
    ensures c[n] in graph && graph[c[n]] != c[0]
  {
    assert c[0] != c[n + 1];
  }

  lemma NotLonger(graph: Graph, a: seq<StudentId>, b: seq<StudentId>)
    requires IsCycle(graph, a) && IsCycle(graph, b) && a[0] == b[0]
    ensures |a| <= |b|
  {
    if |b| < |a| {
      SameFirstPrefix(graph, a, b, |b| - 1);
      NotBackYet(graph, a, |b| - 1);
    }
  }

  lemma SameFirstSame(graph: Graph, a: seq<StudentId>, b: seq<StudentId>)
    requires IsCycle(graph, a) && IsCycle(graph, b) && a[0] == b[0]
    ensures a == b
  {
    NotLonger(graph, a, b);
    NotLonger(graph, b, a);
    forall n | 0 <= n < |a|
      ensures a[n] == b[n]
    {
      SameFirstPrefix(graph, a, b, n);
    }
  }

  lemma SharedNodeRotation(graph: Graph, found: seq<StudentId>, c: seq<StudentId>)
    requires IsCycle(graph, found) && IsCycle(graph, c) && found[0] in c
    ensures IsRotation(found, c)
  {
    var k :| 0 <= k < |c| && c[k] == found[0];
    SameFirstSame(graph, found, c[k..] + c[..k]);
  }

  /** A search that sees a student of a cycle finds that cycle. */
  lemma SearchFinds(graph: Graph, start: StudentId, c: seq<StudentId>, x: StudentId)
    requires start in graph && IsCycle(graph, c) && x in c && x in Visited(graph, start)
    ensures CycleFrom(graph, start).Some? && IsRotation(CycleFrom(graph, start).value, c)
  {
    var full := Walk(graph, [start]);
    var i :| 0 <= i < |full| && full[i] == x;
    var last := full[|full| - 1];
    StaysOnCycle(graph, full, c, i, |full| - 1);
    var k :| 0 <= k < |c| && c[k] == last;
    NextOnCycle(graph, c, k);
    FoundIsCycle(graph, start);
    SharedNodeRotation(graph, CycleFrom(graph, start).value, c);
  }

  /** Every cycle of two or more with a student already seen has been reported. */
  lemma {:induction false} SeenReported(graph: Graph, order: seq<StudentId>, c: seq<StudentId>, x: StudentId)
    requires forall k :: 0 <= k < |order| ==> order[k] in graph
    requires IsCycle(graph, c) && |c| >= 2 && x in c && x in Detect(graph, order).0
    ensures exists i :: 0 <= i < |Detect(graph, order).1| && IsRotation(Detect(graph, order).1[i], c)
  {
    if order != [] {
      var n := |order| - 1;
      var before, after := Detect(graph, order[..n]), Detect(graph, order);
      if x in before.0 {
        SeenReported(graph, order[..n], c, x);
        var i :| 0 <= i < |before.1| && IsRotation(before.1[i], c);
        assert after.1[i] == before.1[i];
      } else {
        SearchFinds(graph, order[n], c, x);
        assert after.1[|before.1|] == CycleFrom(graph, order[n]).value;
      }
    }
  }

  lemma {:induction false} AllSeen(graph: Graph, order: seq<StudentId>, k: nat)
    requires forall k :: 0 <= k < |order| ==> order[k] in graph
    requires k < |order|
    ensures order[k] in Detect(graph, order).0
  {
    var n := |order| - 1;
    if k < n {
      AllSeen(graph, order[..n], k);
    } else {
      assert Walk(graph, [order[n]])[..1] == [order[n]];
      assert Walk(graph, [order[n]])[0] == order[n];
    }
  }

  /**
   The detection is sound and complete: everything reported is a simple cycle
   of two or more students, and every such cycle is reported, up to the
   student it is read from.
   */
  lemma DetectsExactly(requests: seq<Request>)
    ensures forall i :: 0 <= i < |DetectAll(requests)| ==> IsCycle(Edges(requests), DetectAll(requests)[i]) && |DetectAll(requests)[i]| >= 2
    ensures forall c :: IsCycle(Edges(requests), c) && |c| >= 2 ==>
              exists i :: 0 <= i < |DetectAll(requests)| && IsRotation(DetectAll(requests)[i], c)
  {
    var graph, order := Edges(requests), Requesters(requests);
    KeysInGraph(requests);
    DetectSound(graph, order);
    forall c | IsCycle(graph, c) && |c| >= 2
      ensures exists i :: 0 <= i < |DetectAll(requests)| && IsRotation(DetectAll(requests)[i], c)
    {
      CycleReported(requests, c);
    }
  }

  lemma CycleReported(requests: seq<Request>, c: seq<StudentId>)
    requires IsCycle(Edges(requests), c) && |c| >= 2
    ensures exists i :: 0 <= i < |DetectAll(requests)| && IsRotation(DetectAll(requests)[i], c)
  {
    var graph, order := Edges(requests), Requesters(requests);
    KeysInGraph(requests);
    assert c[0] in graph && c[0] in c;
    EdgesAreLast(requests, c[0]);
    var k :| 0 <= k < |order| && order[k] == c[0];
    AllSeen(graph, order, k);
    SeenReported(graph, order, c, c[0]);
    assert DetectAll(requests) == Detect(graph, order).1;
  }

  lemma ChainsAreTheCycles(graph: Graph, rooms: map<StudentId, RoomId>, cycles: seq<seq<StudentId>>, chains: seq<seq<Participant>>)
    requires DescribesAll(graph, rooms, cycles, chains)
    requires forall i :: 0 <= i < |cycles| ==> IsCycle(graph, cycles[i]) && |cycles[i]| >= 2
    requires forall c :: IsCycle(graph, c) && |c| >= 2 ==> exists i :: 0 <= i < |cycles| && IsRotation(cycles[i], c)
    ensures ExactlyTheCycles(graph, rooms, chains)
  {
    forall i | 0 <= i < |chains|
      ensures TellsOfCycle(graph, rooms, chains[i])
    {
      assert IsCycle(graph, cycles[i]) && Describes(graph, rooms, cycles[i], chains[i]);
    }
    forall c | IsCycle(graph, c) && |c| >= 2
      ensures IsTold(graph, rooms, chains, c)
    {
      CycleHasChain(graph, rooms, cycles, chains, c);
    }
  }

  lemma CycleHasChain(graph: Graph, rooms: map<StudentId, RoomId>, cycles: seq<seq<StudentId>>, chains: seq<seq<Participant>>,
                      c: seq<StudentId>)
    requires DescribesAll(graph, rooms, cycles, chains)
    requires exists i :: 0 <= i < |cycles| && IsRotation(cycles[i], c)
    ensures IsTold(graph, rooms, chains, c)
  {
    var i :| 0 <= i < |cycles| && IsRotation(cycles[i], c);
    assert Describes(graph, rooms, cycles[i], chains[i]);
  }

  lemma {:induction false} ReportedSeen(graph: Graph, order: seq<StudentId>, i: nat, x: StudentId)
    requires forall k :: 0 <= k < |order| ==> order[k] in graph
    requires i < |Detect(graph, order).1| && x in Detect(graph, order).1[i]
    ensures x in Detect(graph, order).0
  {
    var n := |order| - 1;
    if i < |Detect(graph, order[..n]).1| {
      ReportedSeen(graph, order[..n], i, x);
    } else {
      var full := Walk(graph, [order[n]]);
      var k := PositionOf(full, graph[full[|full| - 1]]);
      assert CycleFrom(graph, order[n]) == Some(full[k..]);
    }
  }

  /**
   Why a cycle can be reported twice: a student not seen yet whose requests
   lead into a cycle always has that cycle reported, and it was reported before
   exactly when the search runs into students seen before.
   */
  lemma ReportedAgainIff(graph: Graph, order: seq<StudentId>, start: StudentId)
    requires (forall k :: 0 <= k < |order| ==> order[k] in graph) && start in graph && start !in Detect(graph, order).0
    requires CycleFrom(graph, start).Some? && |CycleFrom(graph, start).value| >= 2
    ensures var found, before := CycleFrom(graph, start).value, Detect(graph, order).1;
            && Detect(graph, order + [start]).1 == before + [found]
            && ((exists i :: 0 <= i < |before| && IsRotation(before[i], found)) <==> found[0] in Detect(graph, order).0)
  {
    var found, before := CycleFrom(graph, start).value, Detect(graph, order).1;
    FoundIsCycle(graph, start);
    if found[0] in Detect(graph, order).0 {
      SeenReported(graph, order, found, found[0]);
    }
    if i :| 0 <= i < |before| && IsRotation(before[i], found) {
      ReportedSeen(graph, order, i, found[0]);
    }
  }

}
