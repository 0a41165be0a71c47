/**
 Executing swaps under the capacity trigger: the direct exchange of two rooms,
 and the rotation of rooms along a chain of requests.
 */
module Swaps {
  import opened Common
  import opened RoomTrigger

  datatype RequestStatus = Pending | Accepted | Rejected | Cancelled | Completed | Expired

  datatype SwapRequest = SwapRequest(
    id: int,
    requesterId: StudentId,
    targetStudentId: Option<StudentId>,
    requesterRoomId: RoomId,
    status: RequestStatus,
    chainId: Option<int>)

  datatype ExecutionType = Direct | Chain

  datatype History = History(
    studentId: StudentId,
    previousRoomId: RoomId,
    newRoomId: RoomId,
    execution: ExecutionType,
    swapRequestId: Option<int>,
    chainId: Option<int>)

  datatype SwapError =
    | Finalized | RequestNotFound | NotAccepted | NoTarget | StudentsNotLocked | NoRoom
    | ChainInvalid | StudentsMissing | StudentMoved | RoomFull

  datatype Outcome = Done(histories: seq<History>) | Failed(error: SwapError)

  // ---------- The direct exchange ----------

  function Exchanged(h: Housing, a: StudentId, b: StudentId): Housing
    requires a in h && b in h
  {
    h[a := h[b]][b := h[a]]
  }

  /** The three updates: vacate the requester, move the target, move the requester. */
  function ExchangeUpdates(h: Housing, a: StudentId, b: StudentId): seq<Update>
    requires a in h && b in h
  {
    [Update(a, None), Update(b, h[a]), Update(a, h[b])]
  }

  /**
   From any state within capacity, none of the three updates is stopped by the
   trigger, full rooms and a shared room included, and together they exchange
   the two rooms.
   */
  lemma ExchangePasses(h: Housing, capacities: Capacities, a: StudentId, b: StudentId)
    requires WithinCapacity(h, capacities)
    requires a in h && b in h && a != b && h[a].Some? && h[b].Some?
    ensures var h1 := h[a := None]; var h2 := h1[b := h[a]];
            && Allows(h, capacities, a, None) && Allows(h1, capacities, b, h[a]) && Allows(h2, capacities, a, h[b])
            && h2[a := h[b]] == Exchanged(h, a, b)
  {
    TargetEntersVacatedBed(h, capacities, a, b);
    RequesterEntersLeftBed(h, capacities, a, b);
    assert h[a := None][b := h[a]][a := h[b]] == Exchanged(h, a, b);
  }

  lemma TargetEntersVacatedBed(h: Housing, capacities: Capacities, a: StudentId, b: StudentId)
    requires WithinCapacity(h, capacities) && a in h && b in h && a != b && h[a].Some?
    ensures Allows(h[a := None], capacities, b, h[a])
  {
    var ra := h[a].value;
    OccupantsAfter(h, a, None, ra);
    assert a in Occupants(h, ra);
    SizeWithout(Occupants(h, ra), a);
    SizeWithout(Occupants(h, ra) - {a}, b);
  }

  lemma RequesterEntersLeftBed(h: Housing, capacities: Capacities, a: StudentId, b: StudentId)
    requires WithinCapacity(h, capacities) && a in h && b in h && a != b && h[b].Some?
    ensures Allows(h[a := None][b := h[a]], capacities, a, h[b])
  {
    var rb := h[b].value;
    var h2 := h[a := None][b := h[a]];
    assert b in Occupants(h, rb);
    SizeWithout(Occupants(h, rb), b);
    SizeWithout(Occupants(h, rb), a);
    if h[a] != h[b] {
      assert Occupants(h2, rb) - {a} == Occupants(h, rb) - {b};
    } else {
      assert Occupants(h2, rb) - {a} == Occupants(h, rb) - {a};
      assert a in Occupants(h, rb);
    }
  }

  lemma ExchangeRun(h: Housing, capacities: Capacities, a: StudentId, b: StudentId)
    requires WithinCapacity(h, capacities)
    requires a in h && b in h && a != b && h[a].Some? && h[b].Some?
    ensures Run(h, capacities, ExchangeUpdates(h, a, b)) == Some(Exchanged(h, a, b))
  {
    ExchangePasses(h, capacities, a, b);
    var updates := ExchangeUpdates(h, a, b);
    assert updates[..2][..1][..0] == [];
    assert updates[..2][..1] == [updates[0]];
    assert Run(h, capacities, updates[..2][..1]) == Some(h[a := None]);
    assert Run(h, capacities, updates[..2]) == Some(h[a := None][b := h[a]]);
  }

  lemma MoveChangesCount(h: Housing, id: StudentId, room: Option<RoomId>, r: RoomId)
    requires id in h
    ensures |Occupants(h[id := room], r)|
            == |Occupants(h, r)| - (if h[id] == Some(r) then 1 else 0) + (if room == Some(r) then 1 else 0)
  {
    OccupantsAfter(h, id, room, r);
    SizeWithout(Occupants(h, r), id);
  }

  /** The exchange moves nobody else and leaves the number of occupants of every room as it was. */
  lemma ExchangeKeepsOccupancy(h: Housing, a: StudentId, b: StudentId, r: RoomId)
    requires a in h && b in h && a != b
    ensures |Occupants(Exchanged(h, a, b), r)| == |Occupants(h, r)|
    ensures Exchanged(Exchanged(h, a, b), a, b) == h
  {
    MoveChangesCount(h, a, h[b], r);
    MoveChangesCount(h[a := h[b]], b, h[a], r);
  }

  /**
   Why the requester is vacated first: writing the requester's new room at
   once is stopped exactly when the rooms differ and the target room is full.
   */
  lemma NaiveOrderStopsIff(h: Housing, capacities: Capacities, a: StudentId, b: StudentId)
    requires WithinCapacity(h, capacities)
    requires a in h && b in h && a != b && h[a].Some? && h[b].Some?
    ensures !Allows(h, capacities, a, h[b])
            <==> h[a] != h[b] && |Occupants(h, h[b].value)| == capacities[h[b].value]
  {
  }

  // ---------- The rotation along a chain ----------

  datatype Move = Move(student: StudentId, oldRoom: RoomId, newRoom: RoomId)

  function Next(i: nat, n: nat): (j: nat)
    requires i < n
    ensures j < n && j == if i == n - 1 then 0 else i + 1
  {
    (i + 1) % n
  }

  /** Each participant, in the order the rows were read, receives the next one's recorded room. */
  function Plan(rows: seq<SwapRequest>): (plan: seq<Move>)
    ensures |plan| == |rows|
    ensures forall i :: 0 <= i < |rows| ==>
              plan[i] == Move(rows[i].requesterId, rows[i].requesterRoomId, rows[Next(i, |rows|)].requesterRoomId)
  {
    seq(|rows|, i requires 0 <= i < |rows| =>
      Move(rows[i].requesterId, rows[i].requesterRoomId, rows[Next(i, |rows|)].requesterRoomId))
  }

  function MoveUpdates(plan: seq<Move>): (r: seq<Update>)
    ensures |r| == |plan|
    ensures forall i :: 0 <= i < |plan| ==> r[i] == Update(plan[i].student, Some(plan[i].newRoom))
  {
    seq(|plan|, i requires 0 <= i < |plan| => Update(plan[i].student, Some(plan[i].newRoom)))
  }

  function Participants(plan: seq<Move>): (r: seq<StudentId>)
    ensures |r| == |plan| && forall i :: 0 <= i < |plan| ==> r[i] == plan[i].student
  {
    seq(|plan|, i requires 0 <= i < |plan| => plan[i].student)
  }

  function Locked(h: Housing, plan: seq<Move>): set<StudentId> {
    set m | m in plan && m.student in h :: m.student
  }

  ghost predicate DistinctAndKnown(h: Housing, plan: seq<Move>) {
    Unique(Participants(plan)) && forall m :: m in plan ==> m.student in h
  }

  /** Locking as many rows as there are participants means the participants are distinct and exist. */
  lemma {:induction false} LockCountMeansDistinct(h: Housing, plan: seq<Move>)
    ensures |Locked(h, plan)| <= |plan|
    ensures |Locked(h, plan)| == |plan| <==> DistinctAndKnown(h, plan)
  {
    if plan != [] {
      var n := |plan| - 1;
      assert plan == plan[..n] + [plan[n]];
      LockCountMeansDistinct(h, plan[..n]);
      LockOneMore(h, plan[..n], plan[n]);
      DistinctOneMore(h, plan[..n], plan[n]);
    }
  }

  lemma LockOneMore(h: Housing, before: seq<Move>, m: Move)
    ensures |Locked(h, before + [m])|
            == |Locked(h, before)| + (if m.student in h && m.student !in Locked(h, before) then 1 else 0)
  {
    assert Locked(h, before + [m]) == Locked(h, before) + (if m.student in h then {m.student} else {});
    SizeWithout(Locked(h, before), m.student);
  }

  lemma DistinctOneMore(h: Housing, before: seq<Move>, m: Move)
    ensures DistinctAndKnown(h, before + [m])
            <==> DistinctAndKnown(h, before) && m.student in h && m.student !in Locked(h, before)
  {
    var plan := before + [m];
    var ids := Participants(before);
    assert Participants(plan) == ids + [m.student];
    if DistinctAndKnown(h, plan) {
      assert m in plan;
      forall i, j | 0 <= i < j < |ids|
        ensures ids[i] != ids[j]
      {
        assert Participants(plan)[i] != Participants(plan)[j];
      }
      forall x | x in before
        ensures x.student != m.student && x in plan
      {
        var i :| 0 <= i < |before| && before[i] == x;
        assert Participants(plan)[i] != Participants(plan)[|before|];
      }
    }
    if DistinctAndKnown(h, before) && m.student in h && m.student !in Locked(h, before) {
      forall i | 0 <= i < |ids|
        ensures ids[i] != m.student
      {
        assert before[i] in before;
      }
    }
  }

  /** Nobody has moved since the requests recorded their rooms. */
  ghost predicate Current(h: Housing, plan: seq<Move>) {
    forall i :: 0 <= i < |plan| ==> plan[i].student in h && h[plan[i].student] == Some(plan[i].oldRoom)
  }

  /** The rooms after the first k moves, trigger aside. */
  function Moved(h: Housing, plan: seq<Move>, k: nat): Housing
    requires k <= |plan|
  {
    if k == 0 then h else Moved(h, plan, k - 1)[plan[k - 1].student := Some(plan[k - 1].newRoom)]
  }

  lemma {:induction false} MovedRooms(h: Housing, plan: seq<Move>, k: nat)
    requires k <= |plan| && Unique(Participants(plan)) && Current(h, plan)
    ensures Moved(h, plan, k).Keys == h.Keys
    ensures forall i :: 0 <= i < |plan| ==>
              Moved(h, plan, k)[plan[i].student] == Some(if i < k then plan[i].newRoom else plan[i].oldRoom)
    ensures forall s :: s in h && s !in Participants(plan) ==> Moved(h, plan, k)[s] == h[s]
  {
    if k > 0 {
      MovedRooms(h, plan, k - 1);
      assert plan[k - 1].student in h;
      forall i | 0 <= i < |plan|
        ensures Moved(h, plan, k)[plan[i].student] == Some(if i < k then plan[i].newRoom else plan[i].oldRoom)
      {
        if i != k - 1 {
          assert Participants(plan)[i] != Participants(plan)[k - 1];
        }
      }
      assert Participants(plan)[k - 1] == plan[k - 1].student;
    }
  }

  lemma {:induction false} RunIsMoved(h: Housing, capacities: Capacities, plan: seq<Move>, k: nat)
    requires k <= |plan| && Unique(Participants(plan)) && Current(h, plan)
    requires Run(h, capacities, MoveUpdates(plan)[..k]).Some?
    ensures Run(h, capacities, MoveUpdates(plan)[..k]) == Some(Moved(h, plan, k))
  {
    if k > 0 {
      assert MoveUpdates(plan)[..k][..k - 1] == MoveUpdates(plan)[..k - 1];
      RunIsMoved(h, capacities, plan, k - 1);
      MovedRooms(h, plan, k - 1);
      assert plan[k - 1].student in h;
    }
  }

  // ---------- Occupancy of a rotation ----------

  function CountOld(plan: seq<Move>, r: RoomId): nat {
    if plan == [] then 0
    else CountOld(plan[..|plan| - 1], r) + (if plan[|plan| - 1].oldRoom == r then 1 else 0)
  }

  function CountNew(plan: seq<Move>, r: RoomId): nat {
    if plan == [] then 0
    else CountNew(plan[..|plan| - 1], r) + (if plan[|plan| - 1].newRoom == r then 1 else 0)
  }

  function CountRecorded(rows: seq<SwapRequest>, r: RoomId): nat {
    if rows == [] then 0
    else CountRecorded(rows[..|rows| - 1], r) + (if rows[|rows| - 1].requesterRoomId == r then 1 else 0)
  }

  lemma {:induction false} OldIsRecorded(rows: seq<SwapRequest>, k: nat, r: RoomId)
    requires k <= |rows|
    ensures CountOld(Plan(rows)[..k], r) == CountRecorded(rows[..k], r)
  {
    if k > 0 {
      assert Plan(rows)[..k][..k - 1] == Plan(rows)[..k - 1] && rows[..k][..k - 1] == rows[..k - 1];
      OldIsRecorded(rows, k - 1, r);
    }
  }

  /** Shifting by one and wrapping round gives away exactly the rooms there were. */
  lemma {:induction false} NewIsShifted(rows: seq<SwapRequest>, k: nat, r: RoomId)
    requires 0 < |rows| && k < |rows|
    ensures CountNew(Plan(rows)[..k], r) == CountRecorded(rows[..k + 1], r) - (if rows[0].requesterRoomId == r then 1 else 0)
  {
    if k == 0 {
      assert rows[..1][..0] == [];
    } else {
      assert Plan(rows)[..k][..k - 1] == Plan(rows)[..k - 1] && rows[..k + 1][..k] == rows[..k];
      NewIsShifted(rows, k - 1, r);
    }
  }

  lemma PlanKeepsRooms(rows: seq<SwapRequest>, r: RoomId)
    ensures CountNew(Plan(rows), r) == CountOld(Plan(rows), r)
  {
    var plan := Plan(rows);
    assert plan[..|rows|] == plan && rows[..|rows|] == rows;
    OldIsRecorded(rows, |rows|, r);
    if rows != [] {
      var n := |rows| - 1;
      NewIsShifted(rows, n, r);
      assert rows[..n + 1] == rows;
    }
  }

  lemma {:induction false} MovedOccupancy(h: Housing, plan: seq<Move>, k: nat, r: RoomId)
    requires k <= |plan| && Unique(Participants(plan)) && Current(h, plan)
    ensures |Occupants(Moved(h, plan, k), r)| == |Occupants(h, r)| - CountOld(plan[..k], r) + CountNew(plan[..k], r)
  {
    if k > 0 {
      assert plan[..k][..k - 1] == plan[..k - 1];
      MovedOccupancy(h, plan, k - 1, r);
      MovedRooms(h, plan, k - 1);
      var before := Moved(h, plan, k - 1);
      var m := plan[k - 1];
      assert before[m.student] == Some(m.oldRoom);
      OccupantsAfter(before, m.student, Some(m.newRoom), r);
      SizeWithout(Occupants(before, r), m.student);
    }
  }

  /** A completed rotation leaves the number of occupants of every room as it was, whatever the chain. */
  lemma RotationKeepsOccupancy(h: Housing, rows: seq<SwapRequest>, r: RoomId)
    requires Unique(Participants(Plan(rows))) && Current(h, Plan(rows))
    ensures |Occupants(Moved(h, Plan(rows), |rows|), r)| == |Occupants(h, r)|
  {
    var plan := Plan(rows);
    assert plan[..|rows|] == plan;
    MovedOccupancy(h, plan, |rows|, r);
    PlanKeepsRooms(rows, r);
  }

  // ---------- When a rotation gets past the trigger ----------

  predicate HasSpare(h: Housing, capacities: Capacities, r: RoomId) {
    r in capacities && |Occupants(h, r)| < capacities[r]
  }

  function At(rows: seq<SwapRequest>, k: nat, r: RoomId): nat
    requires k < |rows|
  {
    if rows[k].requesterRoomId == r then 1 else 0
  }

  lemma OneMoreRecorded(rows: seq<SwapRequest>, k: nat, r: RoomId)
    requires k < |rows|
    ensures CountRecorded(rows[..k + 1], r) == CountRecorded(rows[..k], r) + At(rows, k, r)
  {
    assert rows[..k + 1][..k] == rows[..k];
  }

  /** The occupants of a room after the first k moves: all that went in and out cancels but for the two ends. */
  lemma OccupancyTelescopes(h: Housing, rows: seq<SwapRequest>, k: nat, r: RoomId)
    requires Unique(Participants(Plan(rows))) && Current(h, Plan(rows)) && k < |rows|
    ensures |Occupants(Moved(h, Plan(rows), k), r)| == |Occupants(h, r)| + At(rows, k, r) - At(rows, 0, r)
  {
    MovedOccupancy(h, Plan(rows), k, r);
    OldIsRecorded(rows, k, r);
    NewIsShifted(rows, k, r);
    OneMoreRecorded(rows, k, r);
  }

  lemma AllowsByCount(g: Housing, capacities: Capacities, s: StudentId, r: RoomId)
    requires s in g && r in capacities
    ensures Allows(g, capacities, s, Some(r)) <==> g[s] == Some(r) || |Occupants(g, r)| + 1 <= capacities[r]
  {
    if g[s] != Some(r) {
      assert Occupants(g, r) - {s} == Occupants(g, r);
    }
  }

  /** Participant i's recorded room must take in the one before, who comes from elsewhere, with no bed left in it by the first move. */
  predicate NeedsBed(rows: seq<SwapRequest>, i: int) {
    && 1 <= i < |rows|
    && rows[i].requesterRoomId != rows[i - 1].requesterRoomId
    && rows[i].requesterRoomId != rows[0].requesterRoomId
  }

  /** The room that move k enters exists and was within its capacity. */
  lemma TargetRoom(h: Housing, capacities: Capacities, rows: seq<SwapRequest>, k: nat)
    requires WithinCapacity(h, capacities) && Current(h, Plan(rows)) && k < |rows|
    ensures var r := rows[Next(k, |rows|)].requesterRoomId; r in capacities && |Occupants(h, r)| <= capacities[r]
  {
    assert Plan(rows)[Next(k, |rows|)].oldRoom == rows[Next(k, |rows|)].requesterRoomId;
  }

  lemma MoveAllowedIff(h: Housing, capacities: Capacities, rows: seq<SwapRequest>, k: nat)
    requires WithinCapacity(h, capacities)
    requires Unique(Participants(Plan(rows))) && Current(h, Plan(rows)) && k < |rows|
    ensures var plan := Plan(rows);
            && plan[k].student in Moved(h, plan, k)
            && (Allows(Moved(h, plan, k), capacities, plan[k].student, Some(plan[k].newRoom))
                <==> (NeedsBed(rows, k + 1) ==> HasSpare(h, capacities, rows[k + 1].requesterRoomId)))
  {
    var plan := Plan(rows);
    MovedRooms(h, plan, k);
    TargetRoom(h, capacities, rows, k);
    OccupancyTelescopes(h, rows, k, plan[k].newRoom);
    AllowsByCount(Moved(h, plan, k), capacities, plan[k].student, plan[k].newRoom);
    assert Moved(h, plan, k)[plan[k].student] == Some(rows[k].requesterRoomId);
  }

  lemma RunOneMore(h: Housing, capacities: Capacities, plan: seq<Move>, k: nat)
    requires k < |plan| && Unique(Participants(plan)) && Current(h, plan)
    ensures plan[k].student in Moved(h, plan, k)
    ensures Run(h, capacities, MoveUpdates(plan)[..k + 1]).Some?
            <==> Run(h, capacities, MoveUpdates(plan)[..k]).Some?
                 && Allows(Moved(h, plan, k), capacities, plan[k].student, Some(plan[k].newRoom))
  {
    RunNext(h, capacities, MoveUpdates(plan), k);
    MovedRooms(h, plan, k);
    assert plan[k].student in h;
    if Run(h, capacities, MoveUpdates(plan)[..k]).Some? {
      RunIsMoved(h, capacities, plan, k);
    }
  }

  /** Of rooms 1 to k of the chain, each that needs a bed has one to spare. */
  ghost predicate SpareUpTo(h: Housing, capacities: Capacities, rows: seq<SwapRequest>, k: int) {
    forall i :: NeedsBed(rows, i) && i <= k ==> HasSpare(h, capacities, rows[i].requesterRoomId)
  }

  ghost predicate PassesUpTo(h: Housing, capacities: Capacities, rows: seq<SwapRequest>, k: nat)
    requires k <= |rows|
  {
    Run(h, capacities, MoveUpdates(Plan(rows))[..k]).Some?
  }

  lemma PassesOneMore(h: Housing, capacities: Capacities, rows: seq<SwapRequest>, k: nat)
    requires WithinCapacity(h, capacities)
    requires Unique(Participants(Plan(rows))) && Current(h, Plan(rows)) && k < |rows|
    ensures PassesUpTo(h, capacities, rows, k + 1)
            <==> PassesUpTo(h, capacities, rows, k) && (NeedsBed(rows, k + 1) ==> HasSpare(h, capacities, rows[k + 1].requesterRoomId))
  {
    RunOneMore(h, capacities, Plan(rows), k);
    MoveAllowedIff(h, capacities, rows, k);
  }

  lemma {:induction false} MovesPassIff(h: Housing, capacities: Capacities, rows: seq<SwapRequest>, k: nat)
    requires WithinCapacity(h, capacities)
    requires Unique(Participants(Plan(rows))) && Current(h, Plan(rows)) && k <= |rows|
    ensures PassesUpTo(h, capacities, rows, k) <==> SpareUpTo(h, capacities, rows, k)
  {
    if k > 0 {
      MovesPassIff(h, capacities, rows, k - 1);
      PassesOneMore(h, capacities, rows, k - 1);
      SpareOneMore(h, capacities, rows, k);
    }
  }

  lemma SpareOneMore(h: Housing, capacities: Capacities, rows: seq<SwapRequest>, k: nat)
    requires 0 < k
    ensures SpareUpTo(h, capacities, rows, k)
            <==> SpareUpTo(h, capacities, rows, k - 1) && (NeedsBed(rows, k) ==> HasSpare(h, capacities, rows[k].requesterRoomId))
  {
  }

  /**
   The rotation is not neutral for the trigger, although it is for occupancy:
   it gets through exactly when every recorded room has a spare bed to begin
   with, but for the first participant's room and rooms that the one before
   in the chain shares. With pairwise distinct rooms these are all rooms but
   the first.
   */
  lemma RotationPassesIff(h: Housing, capacities: Capacities, rows: seq<SwapRequest>)
    requires WithinCapacity(h, capacities)
    requires Unique(Participants(Plan(rows))) && Current(h, Plan(rows))
    ensures Run(h, capacities, MoveUpdates(Plan(rows))).Some?
            <==> forall i :: NeedsBed(rows, i) ==> HasSpare(h, capacities, rows[i].requesterRoomId)
  {
    MovesPassIff(h, capacities, rows, |rows|);
    assert MoveUpdates(Plan(rows))[..|rows|] == MoveUpdates(Plan(rows));
  }

  /** Two students in two single rooms: the exchange goes through, the chain of the same two requests never does. */
  lemma FullRoomsRotation(a: StudentId, b: StudentId, r: RoomId, q: RoomId)
    requires a != b && r != q
    ensures var h: Housing := map[a := Some(r), b := Some(q)];
            var capacities: Capacities := map[r := 1, q := 1];
            var rows := [SwapRequest(1, a, Some(b), r, Accepted, None), SwapRequest(2, b, Some(a), q, Accepted, None)];
            && Run(h, capacities, ExchangeUpdates(h, a, b)).Some?
            && Run(h, capacities, MoveUpdates(Plan(rows))).None?
  {
    var h: Housing := map[a := Some(r), b := Some(q)];
    var capacities: Capacities := map[r := 1, q := 1];
    var rows := [SwapRequest(1, a, Some(b), r, Accepted, None), SwapRequest(2, b, Some(a), q, Accepted, None)];
    assert Occupants(h, r) == {a} && Occupants(h, q) == {b};
    ExchangeRun(h, capacities, a, b);
    RotationPassesIff(h, capacities, rows);
    assert NeedsBed(rows, 1) && !HasSpare(h, capacities, rows[1].requesterRoomId);
  }

  // ---------- The service ----------

  datatype SwapDb = SwapDb(rooms: Housing, requests: seq<SwapRequest>, history: seq<History>, finalized: bool)

  function FindRequest(requests: seq<SwapRequest>, id: int): (i: Option<nat>)
    ensures i.Some? ==> i.value < |requests| && requests[i.value].id == id
    ensures i.None? ==> forall r :: r in requests ==> r.id != id
  {
    if requests == [] then None
    else if requests[0].id == id then Some(0)
    else
      var i := FindRequest(requests[1..], id);
      if i.Some? then Some(i.value + 1) else None
  }

  /** The checks of a direct swap, in order. */
  function DirectError(db: SwapDb, id: int): Option<SwapError> {
    if db.finalized then Some(Finalized)
    else
      var i := FindRequest(db.requests, id);
      if i.None? then Some(RequestNotFound)
      else
        var request := db.requests[i.value];
        if !request.status.Accepted? then Some(NotAccepted)
        else if request.targetStudentId.None? || request.targetStudentId == Some("") then Some(NoTarget)
        else
          var a, b := request.requesterId, request.targetStudentId.value;
          if a == b || a !in db.rooms || b !in db.rooms then Some(StudentsNotLocked)
          else if db.rooms[a].None? || db.rooms[b].None? then Some(NoRoom)
          else None
  }

  /** A direct swap meets no error exactly when these all hold; any error it meets is one that does not. */
  lemma DirectErrorIs(db: SwapDb, id: int)
    ensures DirectError(db, id).None? <==>
            && !db.finalized
            && exists i :: 0 <= i < |db.requests| && db.requests[i].id == id && FindRequest(db.requests, id) == Some(i) && MayExchange(db, db.requests[i])
    ensures match DirectError(db, id)
            case None => true
            case Some(Finalized) => db.finalized
            case Some(RequestNotFound) => forall r :: r in db.requests ==> r.id != id
            case Some(NotAccepted) => exists r :: r in db.requests && r.id == id && r.status != Accepted
            case Some(NoTarget) => exists r :: r in db.requests && r.id == id && r.targetStudentId in {None, Some("")}
            case Some(StudentsNotLocked) =>
              exists r :: r in db.requests && r.id == id && r.targetStudentId.Some? && (r.requesterId == r.targetStudentId.value || r.requesterId !in db.rooms || r.targetStudentId.value !in db.rooms)
            case Some(NoRoom) =>
              exists r :: r in db.requests && r.id == id && r.targetStudentId.Some? && r.requesterId in db.rooms && r.targetStudentId.value in db.rooms && (db.rooms[r.requesterId] == None || db.rooms[r.targetStudentId.value] == None)
            case Some(_) => false
  {
    var i := FindRequest(db.requests, id);
    if i.Some? {
      assert db.requests[i.value] in db.requests;
    }
  }

  /** An accepted request between two different students who both have a room. */
  ghost predicate MayExchange(db: SwapDb, r: SwapRequest) {
    && r.status == Accepted && r.targetStudentId.Some? && r.targetStudentId.value != ""
    && r.requesterId != r.targetStudentId.value
    && r.requesterId in db.rooms && db.rooms[r.requesterId].Some?
    && r.targetStudentId.value in db.rooms && db.rooms[r.targetStudentId.value].Some?
  }

  function Complete(requests: seq<SwapRequest>, i: nat): seq<SwapRequest>
    requires i < |requests|
  {
    requests[i := requests[i].(status := Completed)]
  }

  /** The database after a direct swap that met no error. */
  function AfterDirect(db: SwapDb, id: int): SwapDb
    requires DirectError(db, id).None?
  {
    var i := FindRequest(db.requests, id).value;
    var a, b := db.requests[i].requesterId, db.requests[i].targetStudentId.value;
    var ra, rb := db.rooms[a].value, db.rooms[b].value;
    SwapDb(
      Exchanged(db.rooms, a, b),
      Complete(db.requests, i),
      db.history + [History(a, ra, rb, Direct, Some(id), None), History(b, rb, ra, Direct, Some(id), None)],
      db.finalized)
  }

  function Requested(db: SwapDb, ids: seq<int>): seq<SwapRequest> {
    Filter(db.requests, (r: SwapRequest) => r.id in ids)
  }

  function ChainHistories(plan: seq<Move>, chainId: int): (r: seq<History>)
    ensures |r| == |plan|
  {
    seq(|plan|, i requires 0 <= i < |plan| =>
      History(plan[i].student, plan[i].oldRoom, plan[i].newRoom, Chain, None, Some(chainId)))
  }

  function CompleteAll(requests: seq<SwapRequest>, ids: seq<int>, chainId: int): (r: seq<SwapRequest>)
    ensures |r| == |requests|
  {
    seq(|requests|, i requires 0 <= i < |requests| =>
      if requests[i].id in ids then requests[i].(status := Completed, chainId := Some(chainId)) else requests[i])
  }

  predicate SomeoneMoved(h: Housing, plan: seq<Move>) {
    exists i :: 0 <= i < |plan| && (plan[i].student !in h || h[plan[i].student] != Some(plan[i].oldRoom))
  }

  /** The checks of a chain that do not involve the trigger, in order. */
  function ChainError(db: SwapDb, genders: map<StudentId, bool>, ids: seq<int>): Option<SwapError> {
    var rows := Requested(db, ids);
    var plan := Plan(rows);
    if db.finalized then Some(Finalized)
    else if |rows| != |ids| || !GendersMatch(genders, rows) then Some(ChainInvalid)
    else if |Locked(db.rooms, plan)| != |plan| then Some(StudentsMissing)
    else if SomeoneMoved(db.rooms, plan) then Some(StudentMoved)
    else None
  }

  predicate GendersMatch(genders: map<StudentId, bool>, rows: seq<SwapRequest>) {
    forall i :: 0 <= i < |rows| && rows[i].targetStudentId.Some?
      && rows[i].requesterId in genders && rows[i].targetStudentId.value in genders
      ==> genders[rows[i].requesterId] == genders[rows[i].targetStudentId.value]
  }

  /** What a chain that commits leaves: next one's room for each, a history row each, all requests completed. */
  function AfterChain(db: SwapDb, ids: seq<int>, chainId: int): SwapDb {
    var plan := Plan(Requested(db, ids));
    SwapDb(
      Moved(db.rooms, plan, |plan|),
      CompleteAll(db.requests, ids, chainId),
      db.history + ChainHistories(plan, chainId),
      db.finalized)
  }

  /** The guards leave pairwise distinct participants, each still in the recorded room. */
  lemma ChainGuards(db: SwapDb, genders: map<StudentId, bool>, ids: seq<int>)
    requires ChainError(db, genders, ids).None?
    ensures var plan := Plan(Requested(db, ids)); Unique(Participants(plan)) && Current(db.rooms, plan)
  {
    GuardedPlan(db.rooms, Plan(Requested(db, ids)));
  }

  lemma GuardedPlan(h: Housing, plan: seq<Move>)
    requires |Locked(h, plan)| == |plan| && !SomeoneMoved(h, plan)
    ensures Unique(Participants(plan)) && Current(h, plan)
  {
    LockCountMeansDistinct(h, plan);
  }

  /** A chain that commits gives each participant the next one's recorded room and keeps every room's occupancy. */
  lemma ChainOutcome(db: SwapDb, genders: map<StudentId, bool>, ids: seq<int>, chainId: int)
    requires ChainError(db, genders, ids).None?
    ensures var rows := Requested(db, ids); var after := AfterChain(db, ids, chainId).rooms;
            && (forall i :: 0 <= i < |rows| ==>
                  rows[i].requesterId in after && after[rows[i].requesterId] == Some(rows[Next(i, |rows|)].requesterRoomId))
            && (forall r :: |Occupants(after, r)| == |Occupants(db.rooms, r)|)
            && (forall s :: s in db.rooms && (forall i :: 0 <= i < |rows| ==> rows[i].requesterId != s) ==>
                  s in after && after[s] == db.rooms[s])
  {
    var rows := Requested(db, ids);
    var plan := Plan(rows);
    ChainGuards(db, genders, ids);
    MovedRooms(db.rooms, plan, |plan|);
    forall i | 0 <= i < |rows|
      ensures rows[i].requesterId in db.rooms
    {
      assert plan[i].student == rows[i].requesterId;
    }
    forall r
      ensures |Occupants(Moved(db.rooms, plan, |plan|), r)| == |Occupants(db.rooms, r)|
    {
      RotationKeepsOccupancy(db.rooms, rows, r);
    }
    forall s | s in db.rooms && forall i :: 0 <= i < |rows| ==> rows[i].requesterId != s
      ensures s !in Participants(plan)
    {
    }
  }

  /** It writes a history row for each and completes exactly the requests of the chain. */
  lemma ChainRecords(db: SwapDb, ids: seq<int>, chainId: int)
    ensures var after, rows := AfterChain(db, ids, chainId), Requested(db, ids);
            && |after.history| == |db.history| + |rows| && after.history[..|db.history|] == db.history
            && (forall i :: 0 <= i < |rows| ==>
                  after.history[|db.history| + i] == History(rows[i].requesterId, rows[i].requesterRoomId, rows[Next(i, |rows|)].requesterRoomId, Chain, None, Some(chainId)))
            && |after.requests| == |db.requests| && after.finalized == db.finalized
            && forall i :: 0 <= i < |db.requests| ==>
                 after.requests[i] == if db.requests[i].id in ids then db.requests[i].(status := Completed, chainId := Some(chainId)) else db.requests[i]
  {
  }

  /** The requests of a chain, in table order. */
  lemma RequestedInOrder(db: SwapDb, ids: seq<int>) returns (places: seq<nat>)
    ensures PicksFrom(Requested(db, ids), db.requests, places)
    ensures forall r :: r in Requested(db, ids) <==> r in db.requests && r.id in ids
  {
    places := FilterPicks(db.requests, (r: SwapRequest) => r.id in ids);
  }

  /** The genders match exactly when no request is between a student and a target known to be of another one. */
  lemma GendersMatchIs(genders: map<StudentId, bool>, rows: seq<SwapRequest>)
    ensures GendersMatch(genders, rows) <==>
            forall i, t :: 0 <= i < |rows| && rows[i].targetStudentId == Some(t) && rows[i].requesterId in genders && t in genders
              ==> genders[rows[i].requesterId] == genders[t]
  {
  }

  /** The guards of a chain pass exactly when these all hold. */
  lemma ChainErrorIs(db: SwapDb, genders: map<StudentId, bool>, ids: seq<int>)
    ensures var rows := Requested(db, ids);
            ChainError(db, genders, ids).None? <==>
            && !db.finalized && |rows| == |ids|
            && GendersMatch(genders, rows) && RequesterOnce(rows) && StillThere(db.rooms, rows)
  {
    ParticipantsGuarded(db.rooms, Requested(db, ids));
  }

  ghost predicate RequesterOnce(rows: seq<SwapRequest>) {
    forall i, j :: 0 <= i < j < |rows| ==> rows[i].requesterId != rows[j].requesterId
  }

  ghost predicate StillThere(h: Housing, rows: seq<SwapRequest>) {
    forall i :: 0 <= i < |rows| ==> rows[i].requesterId in h && h[rows[i].requesterId] == Some(rows[i].requesterRoomId)
  }

  lemma ParticipantsGuarded(h: Housing, rows: seq<SwapRequest>)
    ensures |Locked(h, Plan(rows))| == |Plan(rows)| && !SomeoneMoved(h, Plan(rows)) <==> RequesterOnce(rows) && StillThere(h, rows)
  {
    LockCountMeansDistinct(h, Plan(rows));
    NobodyMovedIff(h, rows);
    if StillThere(h, rows) {
      DistinctIff(h, rows);
    } else {
      assert SomeoneMoved(h, Plan(rows));
    }
  }

  lemma NobodyMovedIff(h: Housing, rows: seq<SwapRequest>)
    ensures !SomeoneMoved(h, Plan(rows)) <==> StillThere(h, rows)
  {
    var plan := Plan(rows);
    if i :| 0 <= i < |plan| && (plan[i].student !in h || h[plan[i].student] != Some(plan[i].oldRoom)) {
      assert rows[i].requesterId == plan[i].student && rows[i].requesterRoomId == plan[i].oldRoom;
    }
  }

  lemma DistinctIff(h: Housing, rows: seq<SwapRequest>)
    requires StillThere(h, rows)
    ensures DistinctAndKnown(h, Plan(rows)) <==> RequesterOnce(rows)
  {
    var plan := Plan(rows);
    forall m | m in plan
      ensures m.student in h
    {
      var i :| 0 <= i < |plan| && plan[i] == m;
      assert rows[i].requesterId in h;
    }
    if DistinctAndKnown(h, plan) {
      forall i, j | 0 <= i < j < |rows|
        ensures rows[i].requesterId != rows[j].requesterId
      {
        assert Participants(plan)[i] != Participants(plan)[j];
      }
    }
  }

  class SwapsService {
    const table: StudentsTable
    const genders: map<StudentId, bool>
    var requests: seq<SwapRequest>
    var history: seq<History>
    var finalized: bool
    var nextChain: int

    constructor (students: StudentsTable, studentGenders: map<StudentId, bool>)
      ensures table == students && genders == studentGenders && requests == [] && history == [] && !finalized
    {
      table, genders := students, studentGenders;
      requests, history, finalized, nextChain := [], [], false, 1;
    }

    ghost function View(): SwapDb
      reads this, table
    {
      SwapDb(table.currentRoom, requests, history, finalized)
    }

    /**
     From any state within capacity, a direct swap fails only by one of its own
     checks, and then changes nothing; otherwise it exchanges the two rooms,
     writes two history rows and completes the request.
     */
    method ExecuteDirectSwap(requestId: int) returns (outcome: Outcome)
      requires WithinCapacity(table.currentRoom, table.capacity)
      modifies this, table
      ensures DirectError(old(View()), requestId).Some? ==>
                outcome == Failed(DirectError(old(View()), requestId).value) && View() == old(View())
      ensures DirectError(old(View()), requestId).None? ==>
                && outcome.Done? && View() == AfterDirect(old(View()), requestId) && history == old(history) + outcome.histories
      ensures outcome.Done? ==> exists i ::
                && 0 <= i < |old(requests)| && old(requests)[i].id == requestId && old(requests)[i].targetStudentId.Some?
                && requests == old(requests)[i := old(requests)[i].(status := Completed)]
                && var a, b := old(requests)[i].requesterId, old(requests)[i].targetStudentId.value;
                   && a in old(table.currentRoom) && b in old(table.currentRoom)
                   && var ra, rb := old(table.currentRoom)[a], old(table.currentRoom)[b];
                      && ra.Some? && rb.Some? && table.currentRoom == old(table.currentRoom)[a := rb][b := ra]
                      && outcome.histories == [History(a, ra.value, rb.value, Direct, Some(requestId), None),
                                               History(b, rb.value, ra.value, Direct, Some(requestId), None)]
      ensures WithinCapacity(table.currentRoom, table.capacity)
    {
      if finalized {
        return Failed(Finalized);
      }
      var i := FindRequest(requests, requestId);
      if i.None? {
        return Failed(RequestNotFound);
      }
      var request := requests[i.value];
      if request.status != Accepted {
        return Failed(NotAccepted);
      }
      if request.targetStudentId.None? || request.targetStudentId.value == "" {
        return Failed(NoTarget);
      }
      var requester, target := request.requesterId, request.targetStudentId.value;
      var locked := set s | s in {requester, target} && s in table.currentRoom;
      LockedPair(requester, target, table.currentRoom);
      if |locked| != 2 {
        return Failed(StudentsNotLocked);
      }
      var requesterOldRoom, targetOldRoom := table.currentRoom[requester], table.currentRoom[target];
      if requesterOldRoom.None? || targetOldRoom.None? {
        return Failed(NoRoom);
      }
      var exchanged := Exchange(requester, target);
      var histories := [
        History(requester, requesterOldRoom.value, targetOldRoom.value, Direct, Some(requestId), None),
        History(target, targetOldRoom.value, requesterOldRoom.value, Direct, Some(requestId), None)];
      history := history + histories;
      requests := Complete(requests, i.value);
      return Done(histories);
    }

    /** The three writes of a direct swap. */
    method Exchange(a: StudentId, b: StudentId) returns (ok: bool)
      requires WithinCapacity(table.currentRoom, table.capacity)
      requires a in table.currentRoom && b in table.currentRoom && a != b
      requires table.currentRoom[a].Some? && table.currentRoom[b].Some?
      modifies table
      ensures ok && table.currentRoom == Exchanged(old(table.currentRoom), a, b)
      ensures WithinCapacity(table.currentRoom, table.capacity)
    {
      ghost var h := table.currentRoom;
      var aOld, bOld := table.currentRoom[a], table.currentRoom[b];
      ExchangePasses(h, table.capacity, a, b);
      ExchangeRun(h, table.capacity, a, b);
      RunStaysWithin(h, table.capacity, ExchangeUpdates(h, a, b));
      var ok1 := table.UpdateRoom(a, None);
      var ok2 := table.UpdateRoom(b, aOld);
      var ok3 := table.UpdateRoom(a, bOld);
      ok := ok1 && ok2 && ok3;
    }

    /**
     A chain commits exactly when its guards pass and the trigger lets every
     move through; otherwise nothing changes.
     */
    method ExecuteSwapChain(ids: seq<int>) returns (outcome: Outcome)
      modifies this, table
      ensures ChainError(old(View()), genders, ids).Some? ==>
                outcome == Failed(ChainError(old(View()), genders, ids).value) && View() == old(View())
      ensures ChainError(old(View()), genders, ids).None? ==>
                var passes := Run(old(table.currentRoom), table.capacity, MoveUpdates(Plan(Requested(old(View()), ids)))).Some?;
                && (passes ==> outcome.Done? && View() == AfterChain(old(View()), ids, old(nextChain)))
                && (!passes ==> outcome == Failed(RoomFull) && View() == old(View()))
    {
      var error := CheckChain(ids);
      if error.Some? {
        return Failed(error.value);
      }
      var plan := Plan(Requested'(ids));
      ghost var h := table.currentRoom;
      ChainGuards(View(), genders, ids);
      var ok := table.UpdateRooms(MoveUpdates(plan));
      if !ok {
        return Failed(RoomFull);
      }
      WholePlan(h, table.capacity, plan);
      var histories := ChainHistories(plan, nextChain);
      history := history + histories;
      requests := CompleteAll(requests, ids, nextChain);
      nextChain := nextChain + 1;
      return Done(histories);
    }

    function Requested'(ids: seq<int>): seq<SwapRequest>
      reads this, table
      ensures Requested'(ids) == Requested(View(), ids)
    {
      Filter(requests, (r: SwapRequest) => r.id in ids)
    }

    /** Validation, row locks and the staleness check. */
    method CheckChain(ids: seq<int>) returns (error: Option<SwapError>)
      ensures error == ChainError(View(), genders, ids)
    {
      if finalized {
        return Some(Finalized);
      }
      var rows := Requested'(ids);
      if |rows| != |ids| || !GendersMatch(genders, rows) {
        return Some(ChainInvalid);
      }
      var plan := Plan(rows);
      var locked := Locked(table.currentRoom, plan);
      if |locked| != |plan| {
        return Some(StudentsMissing);
      }
      var moved := CheckMoved(plan);
      return if moved then Some(StudentMoved) else None;
    }

    /** Whether a participant's room changed since the request recorded it. */
    method CheckMoved(plan: seq<Move>) returns (moved: bool)
      requires |Locked(table.currentRoom, plan)| == |plan|
      ensures moved == SomeoneMoved(table.currentRoom, plan)
    {
      LockCountMeansDistinct(table.currentRoom, plan);
      var k := 0;
      while k < |plan|
        invariant 0 <= k <= |plan|
        invariant forall i :: 0 <= i < k ==> plan[i].student in table.currentRoom
                                             && table.currentRoom[plan[i].student] == Some(plan[i].oldRoom)
      {
        assert plan[k] in plan;
        if table.currentRoom[plan[k].student] != Some(plan[k].oldRoom) {
          return true;
        }
        k := k + 1;
      }
      return false;
    }
  }

  lemma WholePlan(h: Housing, capacities: Capacities, plan: seq<Move>)
    requires Unique(Participants(plan)) && Current(h, plan)
    requires Run(h, capacities, MoveUpdates(plan)).Some?
    ensures Run(h, capacities, MoveUpdates(plan)).value == Moved(h, plan, |plan|)
  {
    assert MoveUpdates(plan)[..|plan|] == MoveUpdates(plan);
    RunIsMoved(h, capacities, plan, |plan|);
  }

  lemma LockedPair(a: StudentId, b: StudentId, h: Housing)
    ensures |set s | s in {a, b} && s in h| == 2 <==> a != b && a in h && b in h
  {
    var locked := set s | s in {a, b} && s in h;
    if a != b && a in h && b in h {
      assert locked == {a, b};
    } else if a in h && (b == a || b !in h) {
      assert locked == {a};
    } else if b in h && a !in h {
      assert locked == {b};
    } else {
      assert locked == {};
    }
  }
}
