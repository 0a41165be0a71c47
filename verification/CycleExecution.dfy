/** Executing what the cycle detection announced: the rows of a chain come in query order. */
module CycleExecution {
  import opened Common
  import opened Swaps
  import Cycles = SwapCycles
  import RoomTrigger

  /** The row is the last targeted request of its student among those the detection read. */
  ghost predicate IsLast(requests: seq<Cycles.Request>, row: SwapRequest) {
    Cycles.LastRequest(requests, row.requesterId) == Some(Cycles.Request(row.requesterId, row.targetStudentId, row.requesterRoomId))
  }

  /** One row for each student of the cycle, in any order. */
  ghost predicate RowsOfCycle(requests: seq<Cycles.Request>, cycle: seq<StudentId>, rows: seq<SwapRequest>) {
    && |rows| == |cycle|
    && (forall i :: 0 <= i < |rows| ==> rows[i].requesterId in cycle && IsLast(requests, rows[i]))
    && (forall id :: id in cycle ==> exists i :: 0 <= i < |rows| && rows[i].requesterId == id)
  }

  ghost predicate DistinctRooms(rows: seq<SwapRequest>) {
    forall i, j :: 0 <= i < j < |rows| ==> rows[i].requesterRoomId != rows[j].requesterRoomId
  }

  /** Each row asks for the student of the row after it. */
  ghost predicate InCycleOrder(rows: seq<SwapRequest>) {
    forall i :: 0 <= i < |rows| ==> AsksNext(rows, i)
  }

  ghost predicate AsksNext(rows: seq<SwapRequest>, i: nat)
    requires i < |rows|
  {
    rows[i].targetStudentId == Some(rows[Next(i, |rows|)].requesterId)
  }

  /** Every participant ends in the room that was announced. */
  ghost predicate AsAnnounced(rooms: RoomTrigger.Housing, chain: seq<Cycles.Participant>) {
    forall k :: 0 <= k < |chain| ==> chain[k].studentId in rooms && rooms[chain[k].studentId] == Some(chain[k].targetRoomId)
  }

  lemma OnCycle(requests: seq<Cycles.Request>, cycle: seq<StudentId>, rows: seq<SwapRequest>, i: nat) returns (j: nat)
    requires Cycles.IsCycle(Cycles.Edges(requests), cycle) && RowsOfCycle(requests, cycle, rows) && i < |rows|
    ensures j < |rows| && rows[i].targetStudentId == Some(rows[j].requesterId)
    ensures Cycles.Edges(requests)[rows[i].requesterId] == rows[j].requesterId
    ensures rows[j].requesterId in Cycles.RoomsAsked(requests)
    ensures Cycles.RoomsAsked(requests)[rows[j].requesterId] == rows[j].requesterRoomId
  {
    var graph := Cycles.Edges(requests);
    Cycles.EdgesAreLast(requests, rows[i].requesterId);
    var k :| 0 <= k < |cycle| && cycle[k] == rows[i].requesterId;
    var t := graph[cycle[k]];
    assert t in cycle by {
      assert t == if k < |cycle| - 1 then cycle[k + 1] else cycle[0];
    }
    j :| 0 <= j < |rows| && rows[j].requesterId == t;
    Cycles.EdgesAreLast(requests, t);
  }

  /** The room announced to the student of a row is the recorded room of the row whose student it asks for. */
  lemma AnnouncedRoom(requests: seq<Cycles.Request>, cycle: seq<StudentId>, chain: seq<Cycles.Participant>, rows: seq<SwapRequest>, i: nat,
                      k: nat) returns (j: nat)
    requires Cycles.IsCycle(Cycles.Edges(requests), cycle) && RowsOfCycle(requests, cycle, rows) && i < |rows|
    requires Cycles.Describes(Cycles.Edges(requests), Cycles.RoomsAsked(requests), cycle, chain)
    requires k < |chain| && chain[k].studentId == rows[i].requesterId
    ensures j < |rows| && rows[i].targetStudentId == Some(rows[j].requesterId) && chain[k].targetRoomId == rows[j].requesterRoomId
  {
    j := OnCycle(requests, cycle, rows, i);
    assert chain[k].studentId == cycle[k];
  }

  /** What the two sides have in common: a detected cycle, its announcement, and rows of its requests that can be told apart. */
  ghost predicate Announced(requests: seq<Cycles.Request>, cycle: seq<StudentId>, chain: seq<Cycles.Participant>, rows: seq<SwapRequest>) {
    && Cycles.IsCycle(Cycles.Edges(requests), cycle) && |cycle| >= 2
    && Cycles.Describes(Cycles.Edges(requests), Cycles.RoomsAsked(requests), cycle, chain)
    && RowsOfCycle(requests, cycle, rows) && DistinctRooms(rows)
  }

  ghost predicate Apart(rows: seq<SwapRequest>) {
    forall a, b :: 0 <= a < b < |rows| ==> rows[a].requesterId != rows[b].requesterId
  }

  /** Everyone has the next one's recorded room. */
  ghost predicate Rotated(rows: seq<SwapRequest>, rooms: RoomTrigger.Housing) {
    forall i :: 0 <= i < |rows| ==> rows[i].requesterId in rooms && rooms[rows[i].requesterId] == Some(rows[Next(i, |rows|)].requesterRoomId)
  }

  /** Given the next one's room, a participant has the announced one exactly when the row asks for the next one. */
  lemma AnnouncedIff(requests: seq<Cycles.Request>, cycle: seq<StudentId>, chain: seq<Cycles.Participant>, rows: seq<SwapRequest>, i: nat,
                     k: nat)
    requires Announced(requests, cycle, chain, rows) && Apart(rows)
    requires i < |rows| && k < |chain| && chain[k].studentId == rows[i].requesterId
    ensures chain[k].targetRoomId == rows[Next(i, |rows|)].requesterRoomId <==> AsksNext(rows, i)
  {
    var j := AnnouncedRoom(requests, cycle, chain, rows, i, k);
  }

  lemma RowOf(requests: seq<Cycles.Request>, cycle: seq<StudentId>, chain: seq<Cycles.Participant>, rows: seq<SwapRequest>, k: nat)
    returns (i: nat)
    requires Announced(requests, cycle, chain, rows) && k < |chain|
    ensures i < |rows| && chain[k].studentId == rows[i].requesterId
  {
    assert cycle[k] in cycle;
    i :| 0 <= i < |rows| && rows[i].requesterId == cycle[k];
  }

  lemma ParticipantOf(requests: seq<Cycles.Request>, cycle: seq<StudentId>, chain: seq<Cycles.Participant>, rows: seq<SwapRequest>, i: nat)
    returns (k: nat)
    requires Announced(requests, cycle, chain, rows) && i < |rows|
    ensures k < |chain| && chain[k].studentId == rows[i].requesterId
  {
    k :| 0 <= k < |cycle| && cycle[k] == rows[i].requesterId;
  }

  lemma RotatedAsAnnouncedIff(requests: seq<Cycles.Request>, cycle: seq<StudentId>, chain: seq<Cycles.Participant>, rows: seq<SwapRequest>,
                              rooms: RoomTrigger.Housing)
    requires Announced(requests, cycle, chain, rows) && Apart(rows) && Rotated(rows, rooms)
    ensures AsAnnounced(rooms, chain) <==> InCycleOrder(rows)
  {
    if AsAnnounced(rooms, chain) {
      forall i | 0 <= i < |rows|
        ensures AsksNext(rows, i)
      {
        var k := ParticipantOf(requests, cycle, chain, rows, i);
        AnnouncedIff(requests, cycle, chain, rows, i, k);
      }
    }
    if InCycleOrder(rows) {
      forall k | 0 <= k < |chain|
        ensures chain[k].studentId in rooms && rooms[chain[k].studentId] == Some(chain[k].targetRoomId)
      {
        var i := RowOf(requests, cycle, chain, rows, k);
        AnnouncedIff(requests, cycle, chain, rows, i, k);
      }
    }
  }

  lemma CommittedRotates(db: SwapDb, genders: map<StudentId, bool>, ids: seq<int>, chainId: int)
    requires ChainError(db, genders, ids).None?
    ensures Apart(Requested(db, ids)) && Rotated(Requested(db, ids), AfterChain(db, ids, chainId).rooms)
  {
    var rows := Requested(db, ids);
    ChainOutcome(db, genders, ids, chainId);
    ChainGuards(db, genders, ids);
    forall a, b | 0 <= a < b < |rows|
      ensures rows[a].requesterId != rows[b].requesterId
    {
      assert Participants(Plan(rows))[a] != Participants(Plan(rows))[b];
    }
  }

  /**
   A detected cycle whose requests commit as a chain, with distinct recorded
   rooms, gives every participant the announced room if and only if the
   requests were read in the order of the cycle. With two participants this
   is always so.
   */
  lemma AsAnnouncedIff(requests: seq<Cycles.Request>, cycle: seq<StudentId>, chain: seq<Cycles.Participant>, db: SwapDb,
                       genders: map<StudentId, bool>, ids: seq<int>, chainId: int)
    requires ChainError(db, genders, ids).None? && Announced(requests, cycle, chain, Requested(db, ids))
    ensures AsAnnounced(AfterChain(db, ids, chainId).rooms, chain) <==> InCycleOrder(Requested(db, ids))
    ensures |cycle| == 2 ==> InCycleOrder(Requested(db, ids))
  {
    CommittedRotates(db, genders, ids, chainId);
    RotatedAsAnnouncedIff(requests, cycle, chain, Requested(db, ids), AfterChain(db, ids, chainId).rooms);
    if |cycle| == 2 {
      PairInOrder(requests, cycle, Requested(db, ids));
    }
  }

  lemma PairInOrder(requests: seq<Cycles.Request>, cycle: seq<StudentId>, rows: seq<SwapRequest>)
    requires Cycles.IsCycle(Cycles.Edges(requests), cycle) && |cycle| == 2 && RowsOfCycle(requests, cycle, rows)
    ensures InCycleOrder(rows)
  {
    forall i | 0 <= i < |rows|
      ensures AsksNext(rows, i)
    {
      var j := OnCycle(requests, cycle, rows, i);
      var k :| 0 <= k < |cycle| && cycle[k] == rows[i].requesterId;
    }
  }
}
