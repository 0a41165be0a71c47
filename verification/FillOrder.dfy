/** In which order the rooms of a wing are filled, and what that leaves. */
module FillOrder {
  import opened Common
  import opened AllocationModel
  import opened AtomicUnits
  import opened Individuals
  import opened GroupPacking
  import opened EngineSteps

  // ---------- The order ----------

  function FillKey(priorities: map<RoomId, int>, occupancy: map<RoomId, seq<StudentId>>, r: Room): seq<int> {
    var occupants: int := if r.id in occupancy then |occupancy[r.id]| else 0;
    [-(if r.id in priorities then priorities[r.id] else 0), -occupants, if r.floor.Some? then r.floor.value else 0, r.numberKey]
  }

  /** Higher priority first, then the fuller room, then the lower floor and number. */
  ghost predicate FillsBefore(priorities: map<RoomId, int>, s: State, a: Room, b: Room) {
    var pa, pb := if a.id in priorities then priorities[a.id] else 0, if b.id in priorities then priorities[b.id] else 0;
    var oa, ob := Occ(s, a.id), Occ(s, b.id);
    var fa, fb := if a.floor.Some? then a.floor.value else 0, if b.floor.Some? then b.floor.value else 0;
    pa > pb || (pa == pb && (oa > ob || (oa == ob && (fa < fb || (fa == fb && a.numberKey <= b.numberKey)))))
  }

  lemma LexAllFour(a: seq<int>, b: seq<int>)
    requires |a| == 4 && |b| == 4 && LexLeq(a, b)
    ensures a[0] < b[0] || (a[0] == b[0] && (a[1] < b[1] || (a[1] == b[1] && (a[2] < b[2] || (a[2] == b[2] && a[3] <= b[3])))))
  {
    var a1, b1 := a[1..], b[1..];
    var a2, b2 := a1[1..], b1[1..];
    var a3, b3 := a2[1..], b2[1..];
    assert LexLeq(a, b) == (a[0] < b[0] || (a[0] == b[0] && LexLeq(a1, b1)));
    assert LexLeq(a1, b1) == (a[1] < b[1] || (a[1] == b[1] && LexLeq(a2, b2)));
    assert LexLeq(a2, b2) == (a[2] < b[2] || (a[2] == b[2] && LexLeq(a3, b3)));
    assert a3 == [a[3]] && b3 == [b[3]];
  }

  lemma SortedFillsBefore(priorities: map<RoomId, int>, s: State, open: seq<Room>, key: Room -> seq<int>)
    requires forall r :: r in open ==> key(r) == FillKey(priorities, s.rooms, r)
    ensures forall i, k :: 0 <= i < k < |SortBy(open, key)| ==> FillsBefore(priorities, s, SortBy(open, key)[i], SortBy(open, key)[k])
    ensures forall r :: r in SortBy(open, key) <==> r in open
  {
    var rooms := SortBy(open, key);
    SortByPermutes(open, key);
    SortBySorted(open, key);
    forall i, k | 0 <= i < k < |rooms|
      ensures FillsBefore(priorities, s, rooms[i], rooms[k])
    {
      assert rooms[i] in rooms && rooms[k] in rooms;
      LexAllFour(key(rooms[i]), key(rooms[k]));
    }
  }

  // ---------- One room ----------

  ghost predicate InSome(units: seq<Unit>, id: StudentId) {
    exists u :: u in units && id in IdSet(u)
  }

  /** Whoever has been placed since s is of the units, and in the room. */
  ghost predicate SeatedFrom(units: seq<Unit>, s: State, s': State, room: RoomId) {
    forall id :: id in s'.placed && id !in s.placed ==> s'.placed[id] == room && InSome(units, id)
  }

  lemma SeatedStep(units: seq<Unit>, s: State, s': State, room: RoomId, u: Unit)
    requires SeatedFrom(units, s, s', room) && u in units
    ensures SeatedFrom(units, s, Seat(s', Ids(u), room), room)
  {
    forall id | id in Ids(u)
      ensures InSome(units, id)
    {
      var i :| 0 <= i < |u| && Ids(u)[i] == id;
      assert u[i] in u && id in IdSet(u);
    }
  }

  /** No unit of the list fits into the room. */
  ghost predicate NoneFits(s: State, room: Room, units: seq<Unit>) {
    forall u :: u in units ==> !Fits(s, room, |u|)
  }

  ghost predicate Among(some: seq<Unit>, all: seq<Unit>) {
    forall u :: u in some ==> u in all
  }

  /** The walk over the units ends with none left that fits. */
  lemma NoneFitsAtEnd(inp: Inputs, among: set<StudentId>, w: WingKey, owed: nat, room: Room, s: State, s': State, units: seq<Unit>,
                      left: seq<Unit>, rs: seq<Result>, free: int, spots: int, i: int)
    requires FillLoop(inp, among, w, owed, room, s, s', units, left, rs, free, spots, i)
    requires i >= |left| || spots <= 0
    ensures NoneFits(s', room, left)
  {
    UnitSizes(inp, among, s', left);
    forall u | u in left
      ensures !Fits(s', room, |u|)
    {
      var k :| 0 <= k < |left| && left[k] == u;
    }
  }

  lemma AmongRemove(left: seq<Unit>, units: seq<Unit>, i: nat)
    requires Among(left, units) && i < |left|
    ensures Among(left[..i] + left[i + 1..], units)
  {
  }

  ghost predicate RoomOnly(s: State, s': State, room: RoomId) {
    (forall r :: r != room ==> Occ(s', r) == Occ(s, r)) && forall id :: id in s.placed ==> id in s'.placed && s'.placed[id] == s.placed[id]
  }

  lemma RoomDoneOnly(inp: Inputs, among: set<StudentId>, w: WingKey, owed: nat, room: Room, s: State, s': State, units: seq<Unit>,
                     left: seq<Unit>, rs: seq<Result>)
    requires RoomDone(inp, among, w, owed, room, s, s', units, left, rs)
    ensures RoomOnly(s, s', room.id)
  {
    RoomDoneMeans(inp, among, w, owed, room, s, s', units, left, rs);
    ProgressIsAdvance(inp, among, s, s', rs);
  }

  // ---------- The rooms in turn ----------

  ghost predicate NewIn(s: State, s': State, room: RoomId, id: StudentId) {
    id in s'.placed && id !in s.placed && s'.placed[id] == room
  }

  /** The unit of id did not fit into the room as it is in s. */
  ghost predicate NoBedFor(s: State, room: Room, units: seq<Unit>, id: StudentId) {
    exists u :: u in units && id in IdSet(u) && !Fits(s, room, |u|)
  }

  /** Nobody is in one of the first j rooms whose unit still fits into a room before it, and nobody new is in the others. */
  ghost predicate InOrder(s: State, s': State, rooms: seq<Room>, j: nat, units: seq<Unit>) {
    && (forall i, k, id :: 0 <= i < k < j && k < |rooms| && NewIn(s, s', rooms[k].id, id) ==> NoBedFor(s', rooms[i], units, id))
    && (forall k, id :: j <= k < |rooms| ==> !NewIn(s, s', rooms[k].id, id))
  }

  /** The units left fit into none of the first j rooms. */
  ghost predicate Refused(s: State, rooms: seq<Room>, j: nat, left: seq<Unit>) {
    forall i :: 0 <= i < j && i < |rooms| ==> NoneFits(s, rooms[i], left)
  }

  lemma RefusedNext(s: State, s': State, rooms: seq<Room>, j: nat, left: seq<Unit>, left': seq<Unit>)
    requires j < |rooms| && DistinctRooms(rooms) && Refused(s, rooms, j, left) && RoomOnly(s, s', rooms[j].id)
    requires NoneFits(s', rooms[j], left') && Among(left', left)
    ensures Refused(s', rooms, j + 1, left')
  {
    forall i | 0 <= i < j + 1
      ensures NoneFits(s', rooms[i], left')
    {
      if i < j {
        assert NoneFits(s, rooms[i], left);
      }
    }
  }

  ghost predicate DistinctRooms(rooms: seq<Room>) {
    forall k, m :: 0 <= k < m < |rooms| ==> rooms[k].id != rooms[m].id
  }

  lemma InOrderNext(s: State, s': State, s'': State, rooms: seq<Room>, j: nat, units: seq<Unit>, left: seq<Unit>)
    requires j < |rooms| && DistinctRooms(rooms) && InOrder(s, s', rooms, j, units) && Refused(s', rooms, j, left) && Among(left, units)
    requires RoomOnly(s', s'', rooms[j].id) && SeatedFrom(left, s', s'', rooms[j].id)
    ensures InOrder(s, s'', rooms, j + 1, units)
  {
    forall i, k, id | 0 <= i < k < j + 1 && NewIn(s, s'', rooms[k].id, id)
      ensures NoBedFor(s'', rooms[i], units, id)
    {
      if k < j {
        StillNoBed(s, s', s'', rooms, j, units, i, k, id, left);
      } else {
        NewlyNoBed(s, s', s'', rooms, j, units, i, id, left);
      }
    }
    forall k, id | j + 1 <= k < |rooms|
      ensures !NewIn(s, s'', rooms[k].id, id)
    {
      assert !NewIn(s, s', rooms[k].id, id);
    }
  }

  lemma StillNoBed(s: State, s': State, s'': State, rooms: seq<Room>, j: nat, units: seq<Unit>, i: nat, k: nat, id: StudentId, left: seq<Unit>)
    requires i < k < j < |rooms| && DistinctRooms(rooms) && InOrder(s, s', rooms, j, units) && NewIn(s, s'', rooms[k].id, id)
    requires RoomOnly(s', s'', rooms[j].id) && SeatedFrom(left, s', s'', rooms[j].id)
    ensures NoBedFor(s'', rooms[i], units, id)
  {
    assert NewIn(s, s', rooms[k].id, id);
    var u: Unit :| u in units && id in IdSet(u) && !Fits(s', rooms[i], |u|);
    assert !Fits(s'', rooms[i], |u|);
  }

  lemma NewlyNoBed(s: State, s': State, s'': State, rooms: seq<Room>, j: nat, units: seq<Unit>, i: nat, id: StudentId, left: seq<Unit>)
    requires i < j < |rooms| && DistinctRooms(rooms) && InOrder(s, s', rooms, j, units) && NewIn(s, s'', rooms[j].id, id)
    requires RoomOnly(s', s'', rooms[j].id) && SeatedFrom(left, s', s'', rooms[j].id) && Refused(s', rooms, j, left) && Among(left, units)
    ensures NoBedFor(s'', rooms[i], units, id)
  {
    assert !NewIn(s, s', rooms[j].id, id);
    var u: Unit :| u in left && id in IdSet(u);
    assert NoneFits(s', rooms[i], left);
    assert u in units && !Fits(s'', rooms[i], |u|);
  }

  /** The loop over the rooms keeps to the order; stated so that the loop need not look inside. */
  ghost predicate Ordered(s: State, s': State, rooms: seq<Room>, j: nat, units: seq<Unit>, left: seq<Unit>) {
    forall n: nat :: IsNumber(n, j) ==> n <= |rooms| && DistinctRooms(rooms) && InOrder(s, s', rooms, n, units) && Refused(s', rooms, n, left) && Among(left, units)
  }

  lemma OrderedStart(s: State, rooms: seq<Room>, units: seq<Unit>)
    requires DistinctRooms(rooms)
    ensures Ordered(s, s, rooms, 0, units, units)
  {
  }

  lemma OrderedNext(inp: Inputs, among: set<StudentId>, w: WingKey, owed: nat, s: State, s': State, s'': State, rooms: seq<Room>, j: nat,
                    units: seq<Unit>, left: seq<Unit>, left': seq<Unit>, rs: seq<Result>)
    requires j < |rooms| && Ordered(s, s', rooms, j, units, left) && RoomDone(inp, among, w, owed, rooms[j], s', s'', left, left', rs)
    requires NoneFits(s'', rooms[j], left') && Among(left', left) && SeatedFrom(left, s', s'', rooms[j].id)
    ensures Ordered(s, s'', rooms, j + 1, units, left')
  {
    assert IsNumber(j, j);
    RoomDoneOnly(inp, among, w, owed, rooms[j], s', s'', left, left', rs);
    InOrderNext(s, s', s'', rooms, j, units, left);
    RefusedNext(s', s'', rooms, j, left, left');
  }

  /** Whoever has been placed in a later room had no bed in any room before it: not one, or with a roommate among the members not two. */
  ghost predicate LeavesNoBed(inp: Inputs, members: seq<Student>, s: State, s': State, rooms: seq<Room>) {
    forall i, k, id :: 0 <= i < k < |rooms| && NewIn(s, s', rooms[k].id, id) ==>
      Occ(s', rooms[i].id) + (if id in inp.roommates && inp.roommates[id] in IdSet(members) then 2 else 1) > rooms[i].capacity
  }

  lemma UnitNeeds(rm: Roommates, members: seq<Student>, u: Unit, id: StudentId)
    requires IsMatching(rm) && ProperUnit(rm, members, u) && id in IdSet(u)
    ensures |u| <= if id in rm && rm[id] in IdSet(members) then 2 else 1
  {
    if |u| == 2 {
      assert u[0] in u && u[1] in u;
      assert u[0].userId == id || u[1].userId == id;
    }
  }

  lemma OrderedMeans(inp: Inputs, members: seq<Student>, s: State, s': State, rooms: seq<Room>, j: nat, left: seq<Unit>, i: nat, k: nat, id: StudentId)
    requires IsMatching(inp.roommates) && Ordered(s, s', rooms, j, SortUnits(Units(inp.roommates, members)), left)
    requires i < k < |rooms| && NewIn(s, s', rooms[k].id, id)
    ensures Occ(s', rooms[i].id) + (if id in inp.roommates && inp.roommates[id] in IdSet(members) then 2 else 1) > rooms[i].capacity
  {
    assert IsNumber(j, j);
    NoBedMeans(inp, members, s', rooms[i], id);
  }

  lemma NoBedMeans(inp: Inputs, members: seq<Student>, s: State, room: Room, id: StudentId)
    requires IsMatching(inp.roommates) && NoBedFor(s, room, SortUnits(Units(inp.roommates, members)), id)
    ensures Occ(s, room.id) + (if id in inp.roommates && inp.roommates[id] in IdSet(members) then 2 else 1) > room.capacity
  {
    var units := Units(inp.roommates, members);
    SortUnitsPairsFirst(units);
    PartitionOfUnits(inp.roommates, members);
    var u: Unit :| u in SortUnits(units) && id in IdSet(u) && !Fits(s, room, |u|);
    UnitNeeds(inp.roommates, members, u, id);
  }

  // ---------- The wing as a whole ----------

  ghost predicate OpenRoomsOf(inp: Inputs, w: WingKey, s: State, rooms: seq<Room>) {
    forall r :: r in rooms <==> r in inp.rooms && r.status.Available? && KeyOf(r) == w && Occ(s, r.id) < r.capacity
  }

  ghost predicate SortedToFill(priorities: map<RoomId, int>, s: State, rooms: seq<Room>) {
    forall i, k :: 0 <= i < k < |rooms| ==> FillsBefore(priorities, s, rooms[i], rooms[k])
  }

  /** The open rooms of the wing, in the order in which they are filled; stated so that the engine's loops need not look inside. */
  ghost predicate FillingOrder(inp: Inputs, priorities: map<RoomId, int>, w: WingKey, s: State, rooms: seq<Room>) {
    forall n: nat :: IsNumber(n, |rooms|) ==> OpenRoomsOf(inp, w, s, rooms) && SortedToFill(priorities, s, rooms)
  }

  lemma SortedIsFillingOrder(inp: Inputs, priorities: map<RoomId, int>, w: WingKey, s: State, isOpen: Room -> bool, key: Room -> seq<int>)
    requires forall r :: isOpen(r) <==> Occ(s, r.id) < r.capacity
    requires forall r :: key(r) == FillKey(priorities, s.rooms, r)
    ensures FillingOrder(inp, priorities, w, s, SortBy(Filter(WingRooms(inp, w), isOpen), key))
  {
    SortedFillsBefore(priorities, s, Filter(WingRooms(inp, w), isOpen), key);
  }

  lemma LaterOne(inp: Inputs, priorities: map<RoomId, int>, w: WingKey, s: State, rooms: seq<Room>, i: nat, k: nat)
    requires FillingOrder(inp, priorities, w, s, rooms) && i < |rooms| && k < |rooms|
    requires !FillsBefore(priorities, s, rooms[k], rooms[i])
    ensures i <= k
  {
    assert IsNumber(|rooms|, |rooms|);
  }

  /** Both of what a filled wing owes its order; stated so that the engine's loops need not look inside. */
  ghost predicate InFillingOrder(inp: Inputs, priorities: map<RoomId, int>, w: WingKey, members: seq<Student>, s: State, s': State) {
    forall n: nat :: IsNumber(n, |members|) ==> exists rooms :: FillingOrder(inp, priorities, w, s, rooms) && LeavesNoBed(inp, members, s, s', rooms)
  }

  /** The same once the wing has been charged. */
  lemma OrderedToEnd(inp: Inputs, priorities: map<RoomId, int>, w: WingKey, members: seq<Student>, s: State, s': State, rooms: seq<Room>,
                     j: nat, left: seq<Unit>, n: int)
    requires WellFormed(inp) && Ordered(s, s', rooms, j, SortUnits(Units(inp.roommates, members)), left)
    requires FillingOrder(inp, priorities, w, s, rooms)
    ensures InFillingOrder(inp, priorities, w, members, s, Charge(s', w, n))
  {
    ChargeOnlyWings(inp, s', w, n);
    forall i, k, id | 0 <= i < k < |rooms| && NewIn(s, Charge(s', w, n), rooms[k].id, id)
      ensures Occ(Charge(s', w, n), rooms[i].id) + (if id in inp.roommates && inp.roommates[id] in IdSet(members) then 2 else 1) > rooms[i].capacity
    {
      OrderedMeans(inp, members, s, s', rooms, j, left, i, k, id);
    }
    assert LeavesNoBed(inp, members, s, Charge(s', w, n), rooms);
  }

  /** The members have been packed into the open rooms of the wing; stated so that the engine need not look inside. */
  ghost predicate Packed(inp: Inputs, priorities: map<RoomId, int>, w: WingKey, members: seq<Student>, s: State, s': State,
                         left: seq<Unit>, rs: seq<Result>)
  {
    forall n: nat :: IsNumber(n, |members|) ==> exists rooms, j: nat :: FillingOrder(inp, priorities, w, s, rooms) && PackedInto(inp, w, members, s, s', rooms, j, left, rs)
  }

  ghost predicate PackedInto(inp: Inputs, w: WingKey, members: seq<Student>, s: State, s': State, rooms: seq<Room>, j: nat,
                             left: seq<Unit>, rs: seq<Result>)
  {
    var units := SortUnits(Units(inp.roommates, members));
    && GroupLoop(inp, IdSet(members), w, s, s', units, left, rs, rooms, j) && Ordered(s, s', rooms, j, units, left)
    && (j >= |rooms| || |left| == 0)
  }

  lemma PackedNow(inp: Inputs, priorities: map<RoomId, int>, w: WingKey, members: seq<Student>, s: State, s': State, rooms: seq<Room>, j: nat,
                  left: seq<Unit>, rs: seq<Result>)
    requires FillingOrder(inp, priorities, w, s, rooms) && PackedInto(inp, w, members, s, s', rooms, j, left, rs)
    ensures Packed(inp, priorities, w, members, s, s', left, rs)
  {
  }

  lemma PackedEnd(inp: Inputs, priorities: map<RoomId, int>, w: WingKey, members: seq<Student>, s: State, s': State, left: seq<Unit>,
                  rs: seq<Result>, seated: int)
    requires WellFormed(inp) && MembersReady(inp, s, members) && Packed(inp, priorities, w, members, s, s', left, rs)
    requires seated == |members| - |Flat(left)|
    ensures |rs| == MostPlaceable(inp, s, w, members)
    ensures Advanced(inp, IdSet(members), s, Charge(s', w, seated), rs) && Counted(inp, Charge(s', w, seated))
    ensures OnlyInWing(inp, w, s, Charge(s', w, seated)) && InFillingOrder(inp, priorities, w, members, s, Charge(s', w, seated))
  {
    assert IsNumber(|members|, |members|);
    var rooms, j: nat :| FillingOrder(inp, priorities, w, s, rooms) && PackedInto(inp, w, members, s, s', rooms, j, left, rs);
    GroupLoopEnd(inp, IdSet(members), w, s, s', members, left, rs, rooms, j);
    OrderedToEnd(inp, priorities, w, members, s, s', rooms, j, left, seated);
  }

  /**
   Two rooms of the wing with free beds, one of higher priority, or as high
   and fuller, or as full and on a lower floor, or there too and of a lower
   number: a group that has a member placed in the other one has left no bed
   for that member, or for the member and a roommate in the group, in it.
   */
  lemma FilledInOrder(inp: Inputs, priorities: map<RoomId, int>, w: WingKey, members: seq<Student>, s: State, s': State,
                      a: Room, b: Room, id: StudentId)
    requires InFillingOrder(inp, priorities, w, members, s, s')
    requires a in inp.rooms && a.status == Available && KeyOf(a) == w && Occ(s, a.id) < a.capacity
    requires b in inp.rooms && b.status == Available && KeyOf(b) == w && Occ(s, b.id) < b.capacity
    requires var pa, pb := if a.id in priorities then priorities[a.id] else 0, if b.id in priorities then priorities[b.id] else 0;
             var fa, fb := if a.floor.Some? then a.floor.value else 0, if b.floor.Some? then b.floor.value else 0;
             || pa > pb
             || (pa == pb && Occ(s, a.id) > Occ(s, b.id))
             || (pa == pb && Occ(s, a.id) == Occ(s, b.id) && fa < fb)
             || (pa == pb && Occ(s, a.id) == Occ(s, b.id) && fa == fb && a.numberKey < b.numberKey)
    requires id in s'.placed && id !in s.placed && s'.placed[id] == b.id
    ensures Occ(s', a.id) + (if id in inp.roommates && inp.roommates[id] in IdSet(members) then 2 else 1) > a.capacity
  {
    assert IsNumber(|members|, |members|);
    var rooms: seq<Room> :| FillingOrder(inp, priorities, w, s, rooms) && LeavesNoBed(inp, members, s, s', rooms);
    assert IsNumber(|rooms|, |rooms|);
    var i :| 0 <= i < |rooms| && rooms[i] == a;
    var k :| 0 <= k < |rooms| && rooms[k] == b;
    assert !FillsBefore(priorities, s, b, a);
    LaterOne(inp, priorities, w, s, rooms, i, k);
    assert NewIn(s, s', rooms[k].id, id);
  }
}
