/**
 The capacity trigger on the students table: every row update is checked by
 itself against the rooms as they stand at that moment.
 */
module RoomTrigger {
  import opened Common

  /** currentRoomId per student; None is NULL. */
  type Housing = map<StudentId, Option<RoomId>>
  type Capacities = map<RoomId, nat>

  function Occupants(h: Housing, room: RoomId): set<StudentId> {
    set s | s in h && h[s] == Some(room)
  }

  /** What the trigger function decides for an update of one existing row. */
  predicate Allows(h: Housing, capacities: Capacities, id: StudentId, room: Option<RoomId>)
    requires id in h
  {
    room.None? || h[id] == room
    || (room.value in capacities && |Occupants(h, room.value) - {id}| + 1 <= capacities[room.value])
  }

  /** Rooms exist and none is over its capacity. */
  ghost predicate WithinCapacity(h: Housing, capacities: Capacities) {
    && (forall s :: s in h && h[s].Some? ==> h[s].value in capacities)
    && (forall r :: r in capacities ==> |Occupants(h, r)| <= capacities[r])
  }

  lemma OccupantsAfter(h: Housing, id: StudentId, room: Option<RoomId>, r: RoomId)
    requires id in h
    ensures Occupants(h[id := room], r) == if room == Some(r) then Occupants(h, r) + {id} else Occupants(h, r) - {id}
  {
  }

  lemma SizeWithout(s: set<StudentId>, id: StudentId)
    ensures |s - {id}| == if id in s then |s| - 1 else |s|
    ensures |s + {id}| == |s - {id}| + 1
  {
  }

  /** From a state within capacity, the trigger rejects exactly the updates that would leave it. */
  lemma AllowsIffWithin(h: Housing, capacities: Capacities, id: StudentId, room: Option<RoomId>)
    requires WithinCapacity(h, capacities) && id in h
    ensures Allows(h, capacities, id, room) <==> WithinCapacity(h[id := room], capacities)
  {
    var h' := h[id := room];
    forall r | r in capacities
      ensures |Occupants(h', r)| == (if room == Some(r) then |Occupants(h, r) - {id}| + 1 else |Occupants(h, r) - {id}|)
      ensures |Occupants(h, r) - {id}| <= |Occupants(h, r)|
    {
      OccupantsAfter(h, id, room, r);
      SizeWithout(Occupants(h, r), id);
    }
    if h[id] == room {
      assert h' == h;
    }
    if room.Some? && WithinCapacity(h', capacities) {
      assert h'[id] == room;
    }
  }

  // ---------- A transaction's updates, one after another ----------

  datatype Update = Update(id: StudentId, room: Option<RoomId>)

  /** The table after the updates, or None when the trigger stops one. An update of no row does nothing. */
  function Run(h: Housing, capacities: Capacities, updates: seq<Update>): Option<Housing> {
    if updates == [] then Some(h)
    else
      var n := |updates| - 1;
      var before := Run(h, capacities, updates[..n]);
      if before.None? then None
      else if updates[n].id !in before.value then before
      else if Allows(before.value, capacities, updates[n].id, updates[n].room)
      then Some(before.value[updates[n].id := updates[n].room])
      else None
  }

  lemma RunNext(h: Housing, capacities: Capacities, updates: seq<Update>, k: nat)
    requires k < |updates|
    ensures var before, u := Run(h, capacities, updates[..k]), updates[k];
            Run(h, capacities, updates[..k + 1])
            == if before.None? then None
               else if u.id !in before.value then before
               else if Allows(before.value, capacities, u.id, u.room) then Some(before.value[u.id := u.room])
               else None
  {
    assert updates[..k + 1][..k] == updates[..k];
  }

  /** However a transaction goes, no state it passes through is over capacity. */
  lemma {:induction false} RunStaysWithin(h: Housing, capacities: Capacities, updates: seq<Update>)
    requires WithinCapacity(h, capacities)
    ensures Run(h, capacities, updates).Some? ==> WithinCapacity(Run(h, capacities, updates).value, capacities)
    ensures Run(h, capacities, updates).Some? ==> Run(h, capacities, updates).value.Keys == h.Keys
  {
    if updates != [] {
      var n := |updates| - 1;
      RunStaysWithin(h, capacities, updates[..n]);
      var before := Run(h, capacities, updates[..n]);
      if before.Some? && updates[n].id in before.value {
        AllowsIffWithin(before.value, capacities, updates[n].id, updates[n].room);
      }
    }
  }

  // ---------- Which transactions get through ----------

  /** Every student is written at most once, and has a row. */
  ghost predicate OnceEach(h: Housing, updates: seq<Update>) {
    && (forall i, j :: 0 <= i < j < |updates| ==> updates[i].id != updates[j].id)
    && (forall k :: 0 <= k < |updates| ==> updates[k].id in h)
  }

  function Written(updates: seq<Update>): set<StudentId> {
    set u | u in updates :: u.id
  }

  function WrittenInto(updates: seq<Update>, room: RoomId): set<StudentId> {
    set u | u in updates && u.room == Some(room) :: u.id
  }

  /** Who is in the room after updates that all got through, in terms of the table before them. */
  function RoomAfter(h: Housing, updates: seq<Update>, room: RoomId): set<StudentId> {
    Occupants(h, room) - Written(updates) + WrittenInto(updates, room)
  }

  /** Update k, judged on the table before the transaction. */
  ghost predicate BedFor(h: Housing, capacities: Capacities, updates: seq<Update>, k: nat)
    requires k < |updates| && updates[k].id in h
  {
    var id, room := updates[k].id, updates[k].room;
    room.None? || h[id] == room
    || (room.value in capacities && |RoomAfter(h, updates[..k], room.value)| + 1 <= capacities[room.value])
  }

  ghost predicate IsAfter(h: Housing, updates: seq<Update>, h': Housing) {
    && h'.Keys == h.Keys
    && (forall id :: id in h && id !in Written(updates) ==> h'[id] == h[id])
    && (forall k :: 0 <= k < |updates| ==> updates[k].id in h' && h'[updates[k].id] == updates[k].room)
  }

  lemma AfterOneMore(h: Housing, earlier: seq<Update>, h': Housing, u: Update)
    requires OnceEach(h, earlier + [u]) && IsAfter(h, earlier, h')
    ensures IsAfter(h, earlier + [u], h'[u.id := u.room])
    ensures u.id !in Written(earlier) && u.id in h' && h'[u.id] == h[u.id]
  {
    var updates := earlier + [u];
    forall k | 0 <= k < |earlier|
      ensures earlier[k].id != u.id
    {
      assert updates[k].id != updates[|earlier|].id;
    }
    forall x | x in earlier
      ensures x.id != u.id
    {
      var k :| 0 <= k < |earlier| && earlier[k] == x;
    }
    assert Written(updates) == Written(earlier) + {u.id};
  }

  lemma OccupantsOfAfter(h: Housing, updates: seq<Update>, h': Housing, room: RoomId)
    requires OnceEach(h, updates) && IsAfter(h, updates, h')
    ensures Occupants(h', room) == RoomAfter(h, updates, room)
  {
    forall id | id in Written(updates)
      ensures id in h' && (h'[id] == Some(room) <==> id in WrittenInto(updates, room))
    {
      var u :| u in updates && u.id == id;
      var k :| 0 <= k < |updates| && updates[k] == u;
      if id in WrittenInto(updates, room) {
        var v :| v in updates && v.id == id && v.room == Some(room);
        var j :| 0 <= j < |updates| && updates[j] == v;
      }
    }
  }

  lemma OnceEachPrefix(h: Housing, updates: seq<Update>, k: nat)
    requires OnceEach(h, updates) && k <= |updates|
    ensures OnceEach(h, updates[..k])
  {
  }

  /** The trigger's verdict on the next update, on the table as it stands, is the verdict on the table before all of them. */
  lemma AllowsIffBed(h: Housing, capacities: Capacities, updates: seq<Update>, k: nat, now: Housing)
    requires OnceEach(h, updates) && k < |updates| && IsAfter(h, updates[..k], now)
    ensures updates[k].id in now
    ensures Allows(now, capacities, updates[k].id, updates[k].room) <==> BedFor(h, capacities, updates, k)
  {
    var u := updates[k];
    assert updates[..k] + [u] == updates[..k + 1];
    OnceEachPrefix(h, updates, k + 1);
    OnceEachPrefix(h, updates, k);
    AfterOneMore(h, updates[..k], now, u);
    if u.room.Some? && h[u.id] != u.room {
      OccupantsOfAfter(h, updates[..k], now, u.room.value);
      assert u.id !in Occupants(now, u.room.value);
      assert Occupants(now, u.room.value) - {u.id} == Occupants(now, u.room.value);
    }
  }

  /**
   A transaction that writes no student twice gets through exactly when each
   of its updates clears a room, keeps one, or finds a bed: counted on the
   table before the transaction, less those written before, plus those
   written into the room before. It then leaves just what it wrote.
   */
  lemma {:induction false} RunIff(h: Housing, capacities: Capacities, updates: seq<Update>)
    requires OnceEach(h, updates)
    ensures Run(h, capacities, updates).Some? <==> forall k :: 0 <= k < |updates| ==> BedFor(h, capacities, updates, k)
    ensures Run(h, capacities, updates).Some? ==> IsAfter(h, updates, Run(h, capacities, updates).value)
  {
    if updates != [] {
      var n := |updates| - 1;
      OnceEachPrefix(h, updates, n);
      RunIff(h, capacities, updates[..n]);
      BedsOfPrefix(h, capacities, updates, n);
      if Run(h, capacities, updates[..n]).Some? {
        AllowsIffBed(h, capacities, updates, n, Run(h, capacities, updates[..n]).value);
        assert updates == updates[..n] + [updates[n]];
        AfterOneMore(h, updates[..n], Run(h, capacities, updates[..n]).value, updates[n]);
      }
    }
  }

  lemma BedsOfPrefix(h: Housing, capacities: Capacities, updates: seq<Update>, n: nat)
    requires OnceEach(h, updates) && n == |updates| - 1
    ensures (forall k :: 0 <= k < |updates| ==> BedFor(h, capacities, updates, k))
            <==> (forall k :: 0 <= k < n ==> updates[..n][k].id in h && BedFor(h, capacities, updates[..n], k)) && BedFor(h, capacities, updates, n)
  {
    forall k | 0 <= k < n
      ensures updates[..n][k].id in h && (BedFor(h, capacities, updates[..n], k) <==> BedFor(h, capacities, updates, k))
    {
      assert updates[..n][..k] == updates[..k];
    }
  }

  // ---------- Whatever the order ----------

  /** The students that the updates bring into the room from elsewhere. */
  function Arrivals(h: Housing, updates: seq<Update>, room: RoomId): set<StudentId> {
    set u | u in updates && u.room == Some(room) && u.id in h && h[u.id] != Some(room) :: u.id
  }

  /** Every room that anyone is to enter has beds for all who are in it and all who are to come. */
  ghost predicate BedsForAll(h: Housing, capacities: Capacities, updates: seq<Update>) {
    forall r :: Arrivals(h, updates, r) != {} ==> BedsAt(h, capacities, updates, r)
  }

  predicate BedsAt(h: Housing, capacities: Capacities, updates: seq<Update>, room: RoomId) {
    room in capacities && |Occupants(h, room)| + |Arrivals(h, updates, room)| <= capacities[room]
  }

  /** Whoever is in a room after some of the updates was there before, or arrives by one of them; the next one does neither. */
  lemma RoomAfterWithin(h: Housing, updates: seq<Update>, k: nat, r: RoomId)
    requires OnceEach(h, updates) && k < |updates|
    ensures RoomAfter(h, updates[..k], r) <= Occupants(h, r) + Arrivals(h, updates, r)
    ensures h[updates[k].id] != Some(r) ==> updates[k].id !in RoomAfter(h, updates[..k], r)
  {
    forall x | x in updates[..k]
      ensures x.id != updates[k].id && x in updates && x.id in h
    {
      var j :| 0 <= j < k && updates[j] == x;
    }
  }

  lemma BedsSuffice(h: Housing, capacities: Capacities, updates: seq<Update>, k: nat)
    requires OnceEach(h, updates) && BedsForAll(h, capacities, updates) && k < |updates|
    ensures BedFor(h, capacities, updates, k)
  {
    var id, room := updates[k].id, updates[k].room;
    if room.Some? && h[id] != room {
      var r := room.value;
      assert updates[k] in updates && id in Arrivals(h, updates, r);
      RoomAfterWithin(h, updates, k, r);
      OneMoreFits(RoomAfter(h, updates[..k], r), id, Occupants(h, r), Arrivals(h, updates, r));
    }
  }

  lemma OneMoreFits(now: set<StudentId>, id: StudentId, there: set<StudentId>, coming: set<StudentId>)
    requires now <= there + coming && id !in now && id in coming
    ensures |now| + 1 <= |there| + |coming|
  {
    SubsetSize(now + {id}, there + coming);
    assert |there + coming| == |there| + |coming| - |there * coming|;
  }

  function Entering(h: Housing, room: RoomId): Update -> bool {
    (u: Update) => u.room == Some(room) && u.id in h && h[u.id] != Some(room)
  }

  function Others(h: Housing, room: RoomId): Update -> bool {
    (u: Update) => !Entering(h, room)(u)
  }

  /** The order that hurts most: all who enter the room go first. */
  function EntrantsFirst(h: Housing, updates: seq<Update>, room: RoomId): seq<Update> {
    Filter(updates, Entering(h, room)) + Filter(updates, Others(h, room))
  }

  lemma {:induction false} EntrantsFirstPermutes(h: Housing, updates: seq<Update>, room: RoomId)
    ensures multiset(EntrantsFirst(h, updates, room)) == multiset(updates)
  {
    if updates != [] {
      var n := |updates| - 1;
      assert updates == updates[..n] + [updates[n]];
      EntrantsFirstPermutes(h, updates[..n], room);
    }
  }

  lemma OnceEachPermuted(h: Housing, a: seq<Update>, b: seq<Update>)
    requires OnceEach(h, a) && multiset(a) == multiset(b)
    ensures OnceEach(h, b)
  {
    SameElements(a, b);
    UniquePermuted(a, b);
    forall i, j | 0 <= i < j < |b|
      ensures b[i].id != b[j].id
    {
      assert b[i] in a && b[j] in a;
    }
    forall k | 0 <= k < |b|
      ensures b[k].id in h
    {
      assert b[k] in a;
    }
  }

  lemma {:induction false} WrittenCount(h: Housing, updates: seq<Update>)
    requires OnceEach(h, updates)
    ensures |Written(updates)| == |updates|
  {
    if updates != [] {
      var n := |updates| - 1;
      assert updates == updates[..n] + [updates[n]];
      OnceEachPrefix(h, updates, n);
      WrittenCount(h, updates[..n]);
      assert Written(updates) == Written(updates[..n]) + {updates[n].id};
      forall x | x in updates[..n]
        ensures x.id != updates[n].id
      {
        var j :| 0 <= j < n && updates[j] == x;
      }
    }
  }

  lemma RoomOfEntrants(h: Housing, entrants: seq<Update>, room: RoomId)
    requires OnceEach(h, entrants) && forall u :: u in entrants ==> Entering(h, room)(u)
    ensures |RoomAfter(h, entrants, room)| == |Occupants(h, room)| + |entrants|
  {
    WrittenCount(h, entrants);
    assert WrittenInto(entrants, room) == Written(entrants);
    assert Occupants(h, room) !! Written(entrants);
    assert RoomAfter(h, entrants, room) == Occupants(h, room) + Written(entrants);
  }

  /** When all who enter a room go first, the last of them needs a bed beside everyone else. */
  lemma LastEntrant(h: Housing, capacities: Capacities, first: seq<Update>, rest: seq<Update>, room: RoomId)
    requires OnceEach(h, first + rest) && Run(h, capacities, first + rest).Some?
    requires |first| > 0 && forall u :: u in first ==> Entering(h, room)(u)
    ensures room in capacities && |Occupants(h, room)| + |first| <= capacities[room]
  {
    var order, k := first + rest, |first| - 1;
    RunIff(h, capacities, order);
    assert BedFor(h, capacities, order, k);
    assert order[k] == first[k] && Entering(h, room)(first[k]);
    assert order[..k] == first[..k];
    OnceEachPrefix(h, order, k);
    RoomOfEntrants(h, first[..k], room);
  }

  lemma ArrivalsCount(h: Housing, updates: seq<Update>, room: RoomId)
    requires OnceEach(h, Filter(updates, Entering(h, room)))
    ensures |Arrivals(h, updates, room)| == |Filter(updates, Entering(h, room))|
  {
    WrittenCount(h, Filter(updates, Entering(h, room)));
    assert Written(Filter(updates, Entering(h, room))) == Arrivals(h, updates, room);
  }

  lemma EveryOrderLeavesBeds(h: Housing, capacities: Capacities, updates: seq<Update>, room: RoomId)
    requires OnceEach(h, updates) && Arrivals(h, updates, room) != {}
    requires Run(h, capacities, EntrantsFirst(h, updates, room)).Some?
    ensures BedsAt(h, capacities, updates, room)
  {
    var first, rest := Filter(updates, Entering(h, room)), Filter(updates, Others(h, room));
    EntrantsFirstPermutes(h, updates, room);
    OnceEachPermuted(h, updates, first + rest);
    OnceEachPrefix(h, first + rest, |first|);
    assert (first + rest)[..|first|] == first;
    ArrivalsCount(h, updates, room);
    LastEntrant(h, capacities, first, rest, room);
  }

  ghost predicate AnyOrderPasses(h: Housing, capacities: Capacities, updates: seq<Update>) {
    forall order :: multiset(order) == multiset(updates) ==> Run(h, capacities, order).Some?
  }

  /**
   Writing the same students in any order gets through exactly when every
   room has beds for all its present occupants and all who are to enter.
   */
  lemma AnyOrderIff(h: Housing, capacities: Capacities, updates: seq<Update>)
    requires OnceEach(h, updates)
    ensures AnyOrderPasses(h, capacities, updates) <==> BedsForAll(h, capacities, updates)
  {
    if BedsForAll(h, capacities, updates) {
      forall order | multiset(order) == multiset(updates)
        ensures Run(h, capacities, order).Some?
      {
        BedsForOrder(h, capacities, updates, order);
      }
    }
    if AnyOrderPasses(h, capacities, updates) {
      forall r | Arrivals(h, updates, r) != {}
        ensures BedsAt(h, capacities, updates, r)
      {
        EntrantsFirstPermutes(h, updates, r);
        EveryOrderLeavesBeds(h, capacities, updates, r);
      }
    }
  }

  lemma BedsForOrder(h: Housing, capacities: Capacities, updates: seq<Update>, order: seq<Update>)
    requires OnceEach(h, updates) && BedsForAll(h, capacities, updates) && multiset(order) == multiset(updates)
    ensures Run(h, capacities, order).Some?
  {
    OnceEachPermuted(h, updates, order);
    BedsForAllPermuted(h, capacities, updates, order);
    forall k | 0 <= k < |order|
      ensures BedFor(h, capacities, order, k)
    {
      BedsSuffice(h, capacities, order, k);
    }
    RunIff(h, capacities, order);
  }

  lemma BedsForAllPermuted(h: Housing, capacities: Capacities, a: seq<Update>, b: seq<Update>)
    requires multiset(a) == multiset(b) && BedsForAll(h, capacities, a)
    ensures BedsForAll(h, capacities, b)
  {
    SameElements(a, b);
    forall r
      ensures Arrivals(h, a, r) == Arrivals(h, b, r)
    {
    }
  }

  /** The trigger body, with its early returns; true means the row may be written. */
  method CheckRoomCapacity(rooms: Housing, capacities: Capacities, id: StudentId, room: Option<RoomId>) returns (pass: bool)
    requires id in rooms
    ensures pass <==> Allows(rooms, capacities, id, room)
  {
    if room.None? {
      return true;
    }
    if rooms[id] == room {
      return true;
    }
    if room.value !in capacities {
      return false;
    }
    var currentOccupants := |set s | s in rooms && rooms[s] == room && s != id|;
    assert (set s | s in rooms && rooms[s] == room && s != id) == Occupants(rooms, room.value) - {id};
    return currentOccupants + 1 <= capacities[room.value];
  }

  /** The students table with its trigger. */
  class StudentsTable {
    var currentRoom: Housing
    const capacity: Capacities

    constructor (rooms: Housing, capacities: Capacities)
      ensures currentRoom == rooms && capacity == capacities
    {
      currentRoom, capacity := rooms, capacities;
    }

    /** UPDATE of one student's room; false when the trigger raised. */
    method UpdateRoom(id: StudentId, room: Option<RoomId>) returns (ok: bool)
      modifies this
      ensures ok <==> id !in old(currentRoom) || Allows(old(currentRoom), capacity, id, room)
      ensures currentRoom == if ok && id in old(currentRoom) then old(currentRoom)[id := room] else old(currentRoom)
    {
      if id !in currentRoom {
        return true;
      }
      ok := CheckRoomCapacity(currentRoom, capacity, id, room);
      if ok {
        currentRoom := currentRoom[id := room];
      }
    }

    /** A batch of updates; on the first rejection everything is rolled back. */
    method UpdateRooms(updates: seq<Update>) returns (ok: bool)
      modifies this
      ensures ok <==> Run(old(currentRoom), capacity, updates).Some?
      ensures currentRoom == if ok then Run(old(currentRoom), capacity, updates).value else old(currentRoom)
    {
      var saved := currentRoom;
      var k := 0;
      while k < |updates|
        invariant 0 <= k <= |updates|
        invariant Run(saved, capacity, updates[..k]) == Some(currentRoom)
      {
        assert updates[..k + 1][..k] == updates[..k];
        var passed := UpdateRoom(updates[k].id, updates[k].room);
        if !passed {
          RunStops(saved, capacity, updates, k + 1);
          currentRoom := saved;
          return false;
        }
        k := k + 1;
      }
      assert updates[..k] == updates;
      return true;
    }
  }

  lemma {:induction false} RunStops(h: Housing, capacities: Capacities, updates: seq<Update>, k: nat)
    requires k <= |updates| && Run(h, capacities, updates[..k]).None?
    ensures Run(h, capacities, updates).None?
  {
    if k < |updates| {
      var n := |updates| - 1;
      assert updates[..n][..k] == updates[..k];
      RunStops(h, capacities, updates[..n], k);
    } else {
      assert updates[..k] == updates;
    }
  }
}
