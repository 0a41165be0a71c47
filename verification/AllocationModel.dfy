/**
 Data of one allocation run and the states the engine moves through: which
 beds are taken, by whom, and the per-wing counters of free beds.
 */
module AllocationModel {
  import opened Common
  import opened Rules

  datatype Gender = Male | Female | CoEd
  datatype RoomStatus = Available | Maintenance | Occupied

  /** timestamp is the application time as a number; None when it is missing. */
  datatype Student = Student(
    userId: StudentId,
    year: int,
    gender: Gender,
    timestamp: Option<int>,
    currentRoomId: Option<RoomId>,
    hostelPreferences: seq<int>)

  datatype Hostel = Hostel(id: int, genderType: Gender)

  /** numberKey stands for the room number in its sorting role. */
  datatype Room = Room(
    id: RoomId,
    hostelId: int,
    numberKey: int,
    floor: Option<int>,
    wing: Option<string>,
    capacity: nat,
    status: RoomStatus)

  datatype Group = Group(id: int, members: seq<Student>, preferences: seq<int>)

  datatype Result = Result(studentId: StudentId, roomId: Option<RoomId>, groupId: Option<int>, reason: Option<string>)

  datatype WingKey = WingKey(hostelId: int, wing: string, floor: int)

  type Unit = seq<Student>

  /**
   What the engine is constructed from. textRank gives the position of a wing
   key's text among all keys, which the engine uses to break ties.
   */
  datatype Inputs = Inputs(
    students: seq<Student>,
    groups: seq<Group>,
    hostels: map<int, Hostel>,
    rooms: seq<Room>,
    rules: seq<Rule>,
    roommates: map<StudentId, StudentId>,
    locked: seq<(RoomId, seq<StudentId>)>,
    textRank: WingKey -> int)

  datatype State = State(
    wings: map<WingKey, int>,
    rooms: map<RoomId, seq<StudentId>>,
    placed: map<StudentId, RoomId>)

  // ---------- Elementary notions ----------

  function KeyOf(room: Room): WingKey {
    WingKey(
      room.hostelId,
      if room.wing.Some? && room.wing.value != "" then room.wing.value else "main",
      if room.floor.Some? then room.floor.value else 0)
  }

  function Ids(students: seq<Student>): (r: seq<StudentId>)
    ensures |r| == |students|
    ensures forall i :: 0 <= i < |students| ==> r[i] == students[i].userId
  {
    seq(|students|, i requires 0 <= i < |students| => students[i].userId)
  }

  function IdSet(students: seq<Student>): set<StudentId> {
    set s | s in students :: s.userId
  }

  function Cohort(inp: Inputs): set<StudentId> {
    IdSet(inp.students)
  }

  function Flat(units: seq<Unit>): seq<Student> {
    if units == [] then [] else Flat(units[..|units| - 1]) + units[|units| - 1]
  }

  function Occ(s: State, room: RoomId): nat {
    if room in s.rooms then |s.rooms[room]| else 0
  }

  function TrulyLocked(inp: Inputs, ids: seq<StudentId>): seq<StudentId> {
    Filter(ids, id => id !in Cohort(inp))
  }

  // ---------- Preconditions on the data ----------

  /** Roommates form a matching of non-empty ids. */
  ghost predicate IsMatching(roommates: map<StudentId, StudentId>) {
    forall a :: a in roommates ==>
      && a != "" && roommates[a] != a
      && roommates[a] in roommates && roommates[roommates[a]] == a
  }

  /** The students entry i of the lock table pins: those outside the cohort. */
  function LockedAt(inp: Inputs, i: nat): seq<StudentId>
    requires i < |inp.locked|
  {
    TrulyLocked(inp, inp.locked[i].1)
  }

  /** One entry per room, each pinned student in one room only, pinned students within capacity. */
  ghost predicate LockedSound(inp: Inputs) {
    && (forall i, j :: 0 <= i < j < |inp.locked| ==> inp.locked[i].0 != inp.locked[j].0)
    && (forall i :: 0 <= i < |inp.locked| ==> Unique(LockedAt(inp, i)))
    && (forall i, j, id :: 0 <= i < j < |inp.locked| && id in LockedAt(inp, i) ==> id !in LockedAt(inp, j))
    && (forall i, k :: 0 <= i < |inp.locked| && 0 <= k < |inp.rooms| && inp.rooms[k].id == inp.locked[i].0
          ==> |LockedAt(inp, i)| <= inp.rooms[k].capacity)
  }

  ghost predicate WellFormed(inp: Inputs) {
    && Unique(Ids(inp.students))
    && (forall i, j :: 0 <= i < j < |inp.rooms| ==> inp.rooms[i].id != inp.rooms[j].id)
    && (forall g :: g in inp.groups ==> Unique(Ids(g.members)))
    && IsMatching(inp.roommates)
    && LockedSound(inp)
  }

  lemma RoomById(inp: Inputs, q: Room, r: Room)
    requires WellFormed(inp) && q in inp.rooms && r in inp.rooms && q.id == r.id
    ensures q == r
  {
    var i :| 0 <= i < |inp.rooms| && inp.rooms[i] == r;
    var j :| 0 <= j < |inp.rooms| && inp.rooms[j] == q;
  }

  /** An accepted pair with both members in the cohort. */
  ghost predicate CohortPair(inp: Inputs, a: StudentId) {
    a in inp.roommates && a in Cohort(inp) && inp.roommates[a] in Cohort(inp)
  }

  /** A pair of the cohort of which every group lists both or neither. */
  ghost predicate KeptPair(inp: Inputs, a: StudentId) {
    CohortPair(inp, a) && forall g :: g in inp.groups ==> (a in IdSet(g.members) <==> inp.roommates[a] in IdSet(g.members))
  }

  /** ids contains the roommate of each member of a cohort pair it contains. */
  ghost predicate PairClosed(inp: Inputs, ids: set<StudentId>) {
    forall a :: a in ids && CohortPair(inp, a) ==> inp.roommates[a] in ids
  }

  /** ids contains the roommate of each member of a kept pair it contains. */
  ghost predicate KeptClosed(inp: Inputs, ids: set<StudentId>) {
    forall a :: a in ids && KeptPair(inp, a) ==> inp.roommates[a] in ids
  }

  /** Every group lists both or neither of each pair of the cohort. */
  ghost predicate GroupsKeepPairs(inp: Inputs) {
    forall g :: g in inp.groups ==> PairClosed(inp, IdSet(g.members))
  }

  lemma KeptOfMate(inp: Inputs, a: StudentId)
    requires IsMatching(inp.roommates) && KeptPair(inp, a)
    ensures KeptPair(inp, inp.roommates[a]) && inp.roommates[inp.roommates[a]] == a
  {
  }

  /** If no group divides any pair, all pairs are kept ones. */
  lemma AllPairsKept(inp: Inputs, s: State)
    requires IsMatching(inp.roommates) && GroupsKeepPairs(inp) && KeptTogether(inp, s)
    ensures Together(inp, s)
  {
    forall a | CohortPair(inp, a)
      ensures KeptPair(inp, a)
    {
      assert CohortPair(inp, inp.roommates[a]) && inp.roommates[inp.roommates[a]] == a;
    }
  }

  // ---------- State invariants ----------

  /** The room lists and the student map are inverse to each other. */
  ghost predicate Agree(s: State) {
    && (forall id :: id in s.placed ==> s.placed[id] in s.rooms && id in s.rooms[s.placed[id]])
    && (forall r, id :: r in s.rooms && id in s.rooms[r] ==> id in s.placed && s.placed[id] == r)
    && (forall r :: r in s.rooms ==> Unique(s.rooms[r]))
  }

  ghost predicate WithinCapacity(inp: Inputs, s: State) {
    forall k :: 0 <= k < |inp.rooms| ==> Occ(s, inp.rooms[k].id) <= inp.rooms[k].capacity
  }

  /** Students locked from earlier runs sit where they were locked. */
  ghost predicate LocksKept(inp: Inputs, s: State) {
    forall i, id :: 0 <= i < |inp.locked| && id in inp.locked[i].1 && id !in Cohort(inp)
      ==> id in s.placed && s.placed[id] == inp.locked[i].0
  }

  /** The student and the roommate share a room or are both unplaced. */
  ghost predicate SameSeat(inp: Inputs, s: State, a: StudentId)
    requires a in inp.roommates
  {
    && (a in s.placed <==> inp.roommates[a] in s.placed)
    && (a in s.placed ==> s.placed[a] == s.placed[inp.roommates[a]])
  }

  /** Accepted pairs inside the cohort share a room or are both unplaced. */
  ghost predicate Together(inp: Inputs, s: State) {
    forall a :: CohortPair(inp, a) ==> SameSeat(inp, s, a)
  }

  /** So do those accepted pairs of which every group lists both or neither. */
  ghost predicate KeptTogether(inp: Inputs, s: State) {
    forall a :: KeptPair(inp, a) ==> SameSeat(inp, s, a)
  }

  function RoomIds(inp: Inputs): set<RoomId> {
    set r | r in inp.rooms :: r.id
  }

  /** Cohort students sit in rooms of the run only. */
  ghost predicate InKnownRooms(inp: Inputs, s: State) {
    forall id :: id in s.placed && id in Cohort(inp) ==> s.placed[id] in RoomIds(inp)
  }

  ghost predicate Sound(inp: Inputs, s: State) {
    Agree(s) && WithinCapacity(inp, s) && LocksKept(inp, s) && InKnownRooms(inp, s)
  }

  /**
   The beds of a room are shared by whoever sits there: the students locked in
   it and the cohort students placed in it are together no more than its beds.
   */
  lemma BedsShared(inp: Inputs, s: State, k: nat)
    requires Sound(inp, s) && k < |inp.rooms|
    ensures |set id | id in s.placed && s.placed[id] == inp.rooms[k].id| <= inp.rooms[k].capacity
    ensures forall i, id :: 0 <= i < |inp.locked| && inp.locked[i].0 == inp.rooms[k].id && id in inp.locked[i].1 && id !in Cohort(inp)
              ==> id in s.placed && s.placed[id] == inp.rooms[k].id
  {
    var r := inp.rooms[k].id;
    var list := if r in s.rooms then s.rooms[r] else [];
    MembersCount(list);
    SubsetSize(set id | id in s.placed && s.placed[id] == r, set id | id in list);
  }

  /** s' came from s by adding occupants; nobody left or moved. */
  ghost predicate Grows(s: State, s': State) {
    && (forall id :: id in s.placed ==> id in s'.placed && s'.placed[id] == s.placed[id])
    && (forall r :: Occ(s, r) <= Occ(s', r))
    && s'.wings.Keys == s.wings.Keys
  }

  // ---------- Seating a unit ----------

  function Seat(s: State, ids: seq<StudentId>, room: RoomId): State {
    State(
      s.wings,
      s.rooms[room := (if room in s.rooms then s.rooms[room] else []) + ids],
      s.placed + map id | id in ids :: room)
  }

  lemma SeatOcc(s: State, ids: seq<StudentId>, room: RoomId)
    ensures forall r :: Occ(Seat(s, ids, room), r) == Occ(s, r) + (if r == room then |ids| else 0)
  {
  }

  lemma SeatAgrees(s: State, ids: seq<StudentId>, room: RoomId)
    requires Agree(s) && Unique(ids)
    requires forall id :: id in ids ==> id !in s.placed
    ensures Agree(Seat(s, ids, room))
  {
    var s' := Seat(s, ids, room);
    var before := if room in s.rooms then s.rooms[room] else [];
    assert s'.rooms[room] == before + ids;
    forall id | id in s'.placed
      ensures s'.placed[id] in s'.rooms && id in s'.rooms[s'.placed[id]]
    {
      if id !in ids && s.placed[id] == room {
        assert id in before;
      }
    }
    assert Unique(before + ids) by {
      forall i, j | 0 <= i < j < |before + ids|
        ensures (before + ids)[i] != (before + ids)[j]
      {
        if i < |before| <= j {
          assert before[i] in s.placed && ids[j - |before|] in ids;
        }
      }
    }
  }

  lemma SeatGrows(s: State, ids: seq<StudentId>, room: RoomId)
    requires forall id :: id in ids ==> id !in s.placed
    ensures Grows(s, Seat(s, ids, room))
  {
  }

  /** Seating unplaced students within a room's capacity keeps every safety property. */
  lemma SeatKeepsSound(inp: Inputs, s: State, ids: seq<StudentId>, room: Room)
    requires WellFormed(inp) && Sound(inp, s)
    requires room in inp.rooms && Unique(ids)
    requires forall id :: id in ids ==> id !in s.placed
    requires Occ(s, room.id) + |ids| <= room.capacity
    ensures Sound(inp, Seat(s, ids, room.id))
  {
    SeatAgrees(s, ids, room.id);
    SeatOcc(s, ids, room.id);
    var s' := Seat(s, ids, room.id);
    forall k | 0 <= k < |inp.rooms|
      ensures Occ(s', inp.rooms[k].id) <= inp.rooms[k].capacity
    {
      var m :| 0 <= m < |inp.rooms| && inp.rooms[m] == room;
      if inp.rooms[k].id == room.id {
        assert k == m;
      }
    }
  }

  /**
   Seating a set of unplaced students keeps pairs together exactly when the
   set splits no pair. This is the whole of what atomicity needs from a step.
   */
  lemma SeatKeepsTogetherIff(inp: Inputs, s: State, ids: seq<StudentId>, room: RoomId)
    requires IsMatching(inp.roommates) && Together(inp, s)
    requires forall id :: id in ids ==> id !in s.placed
    ensures Together(inp, Seat(s, ids, room)) <==> PairClosed(inp, set id | id in ids)
  {
  }

  /** Exactly which pairs a placement keeps: those of which it seats both or neither. */
  lemma SeatKeepsPairIff(inp: Inputs, s: State, ids: seq<StudentId>, room: RoomId, a: StudentId)
    requires a in inp.roommates && SameSeat(inp, s, a)
    requires forall id :: id in ids ==> id !in s.placed
    ensures SameSeat(inp, Seat(s, ids, room), a) <==> (a in ids <==> inp.roommates[a] in ids)
  {
  }

  lemma SeatKeepsKept(inp: Inputs, s: State, ids: seq<StudentId>, room: RoomId)
    requires IsMatching(inp.roommates) && KeptTogether(inp, s)
    requires (forall id :: id in ids ==> id !in s.placed) && KeptClosed(inp, set id | id in ids)
    ensures KeptTogether(inp, Seat(s, ids, room))
  {
    forall a | KeptPair(inp, a)
      ensures SameSeat(inp, Seat(s, ids, room), a)
    {
      KeptOfMate(inp, a);
      SeatKeepsPairIff(inp, s, ids, room, a);
    }
  }

  // ---------- Wing counters ----------

  function BedsIn(rooms: seq<Room>, w: WingKey): int {
    if rooms == [] then 0
    else
      var n := |rooms| - 1;
      BedsIn(rooms[..n], w) + (if KeyOf(rooms[n]) == w && rooms[n].status.Available? then rooms[n].capacity else 0)
  }

  function OccIn(rooms: seq<Room>, s: State, w: WingKey): int {
    if rooms == [] then 0
    else
      var n := |rooms| - 1;
      OccIn(rooms[..n], s, w) + (if KeyOf(rooms[n]) == w then Occ(s, rooms[n].id) else 0)
  }

  /** Occupants of rooms of the wing that are not open for allocation. */
  function ShutIn(rooms: seq<Room>, s: State, w: WingKey): int {
    if rooms == [] then 0
    else
      var n := |rooms| - 1;
      ShutIn(rooms[..n], s, w) + (if KeyOf(rooms[n]) == w && !rooms[n].status.Available? then Occ(s, rooms[n].id) else 0)
  }

  function FreeIn(rooms: seq<Room>, s: State, w: WingKey): int {
    if rooms == [] then 0
    else
      var n := |rooms| - 1;
      FreeIn(rooms[..n], s, w)
      + (if KeyOf(rooms[n]) == w && rooms[n].status.Available? then rooms[n].capacity - Occ(s, rooms[n].id) else 0)
  }

  /** What the counters should read: the beds of the open rooms minus the occupants of all rooms of the wing. */
  function Expected(inp: Inputs, s: State): map<WingKey, int> {
    map w | w in s.wings :: BedsIn(inp.rooms, w) - OccIn(inp.rooms, s, w)
  }

  ghost predicate Counted(inp: Inputs, s: State) {
    s.wings == Expected(inp, s)
  }

  function Charge(s: State, w: WingKey, n: int): State {
    if w in s.wings then s.(wings := s.wings[w := s.wings[w] - n]) else s
  }

  lemma {:induction false} FreeAccount(rooms: seq<Room>, s: State, w: WingKey)
    ensures FreeIn(rooms, s, w) == BedsIn(rooms, w) - OccIn(rooms, s, w) + ShutIn(rooms, s, w)
    ensures ShutIn(rooms, s, w) >= 0
  {
    if rooms != [] {
      FreeAccount(rooms[..|rooms| - 1], s, w);
    }
  }

  /**
   A wing counter never overstates the free beds of the wing, and equals them
   exactly when no room closed for allocation holds an occupant.
   */
  lemma CounterVersusFreeBeds(inp: Inputs, s: State, w: WingKey)
    requires Counted(inp, s) && w in s.wings
    ensures s.wings[w] <= FreeIn(inp.rooms, s, w)
    ensures s.wings[w] == FreeIn(inp.rooms, s, w) <==> ShutIn(inp.rooms, s, w) == 0
  {
    FreeAccount(inp.rooms, s, w);
  }

  lemma {:induction false} OccInAfterSeat(rooms: seq<Room>, s: State, ids: seq<StudentId>, room: Room, w: WingKey)
    requires forall i, j :: 0 <= i < j < |rooms| ==> rooms[i].id != rooms[j].id
    requires forall r :: r in rooms && r.id == room.id ==> r == room
    ensures OccIn(rooms, Seat(s, ids, room.id), w)
            == OccIn(rooms, s, w) + (if room in rooms && KeyOf(room) == w then |ids| else 0)
  {
    if rooms != [] {
      var n := |rooms| - 1;
      OccInAfterSeat(rooms[..n], s, ids, room, w);
      SeatOcc(s, ids, room.id);
      LastOrBefore(rooms, room);
    }
  }

  /** A room listed once is the last one or among those before. */
  lemma LastOrBefore(rooms: seq<Room>, room: Room)
    requires |rooms| > 0 && forall i, j :: 0 <= i < j < |rooms| ==> rooms[i].id != rooms[j].id
    ensures var n := |rooms| - 1;
            && (room in rooms <==> room in rooms[..n] || room == rooms[n])
            && (room in rooms[..n] ==> room.id != rooms[n].id)
  {
    var n := |rooms| - 1;
    assert rooms == rooms[..n] + [rooms[n]];
    if room in rooms[..n] {
      var k :| 0 <= k < n && rooms[k] == room;
    }
  }

  /** Seating a unit and charging its wing keeps every counter exact. */
  lemma SeatAndChargeCounted(inp: Inputs, s: State, ids: seq<StudentId>, room: Room)
    requires WellFormed(inp) && Counted(inp, s) && room in inp.rooms
    ensures Counted(inp, Charge(Seat(s, ids, room.id), KeyOf(room), |ids|))
  {
    var s1 := Seat(s, ids, room.id);
    var s2 := Charge(s1, KeyOf(room), |ids|);
    forall w | w in s2.wings
      ensures s2.wings[w] == Expected(inp, s2)[w]
    {
      OccInAfterSeat(inp.rooms, s, ids, room, w);
      OccInSameRooms(inp.rooms, s1, s2, w);
    }
  }

  lemma {:induction false} OccInSameRooms(rooms: seq<Room>, s: State, s': State, w: WingKey)
    requires forall r :: Occ(s, r) == Occ(s', r)
    ensures OccIn(rooms, s, w) == OccIn(rooms, s', w)
  {
    if rooms != [] {
      OccInSameRooms(rooms[..|rooms| - 1], s, s', w);
    }
  }

  // ---------- Eligibility ----------

  predicate GenderAdmits(hostel: Hostel, s: Student) {
    && !(hostel.genderType.Male? && s.gender.Female?)
    && !(hostel.genderType.Female? && s.gender.Male?)
  }

  predicate IsCurrentRoom(s: Student, room: Room) {
    s.currentRoomId == Some(room.id)
  }

  /** The room passes status, hostel, gender and rules for the student, or is the student's current room. */
  predicate ValidRoom(inp: Inputs, s: Student, room: Room) {
    && room.status.Available?
    && room.hostelId in inp.hostels
    && GenderAdmits(inp.hostels[room.hostelId], s)
    && (EngineAllows(inp.rules, room.hostelId, room.wing, s.year) || IsCurrentRoom(s, room))
  }

  function ValidFor(inp: Inputs, s: Student): Room -> bool {
    (r: Room) => ValidRoom(inp, s, r)
  }

  function ValidRooms(inp: Inputs, s: Student): seq<Room> {
    Filter(inp.rooms, ValidFor(inp, s))
  }

  function MatchPriority(inp: Inputs, s: Student, room: Room): int {
    if IsCurrentRoom(s, room) then -1
    else
      var rule := DecidingRule(inp.rules, room.hostelId, room.wing, s.year);
      if rule.Some? then rule.value.priority else 0
  }

  /** Available, in a known hostel, and not in one for the other gender. */
  ghost predicate OpenTo(inp: Inputs, s: Student, room: Room) {
    && room.status.Available? && room.hostelId in inp.hostels
    && (inp.hostels[room.hostelId].genderType.Male? ==> !s.gender.Female?)
    && (inp.hostels[room.hostelId].genderType.Female? ==> !s.gender.Male?)
  }

  /**
   When a room is valid: it must be open to the student; then the student's
   current room always is, and any other room is unless the rule that comes
   first of those that cover it forbids it.
   */
  lemma ValidRoomIs(inp: Inputs, s: Student, room: Room)
    ensures !OpenTo(inp, s, room) ==> !ValidRoom(inp, s, room)
    ensures OpenTo(inp, s, room) && s.currentRoomId == Some(room.id) ==> ValidRoom(inp, s, room)
    ensures OpenTo(inp, s, room) && (forall i :: !Covers(inp.rules, i, room.hostelId, room.wing, s.year)) ==> ValidRoom(inp, s, room)
    ensures forall i :: Decides(inp.rules, i, room.hostelId, room.wing, s.year) && OpenTo(inp, s, room) && s.currentRoomId != Some(room.id)
              ==> (ValidRoom(inp, s, room) <==> inp.rules[i].isAllowed)
  {
    if forall i :: !Covers(inp.rules, i, room.hostelId, room.wing, s.year) {
      UncoveredAllowed(inp.rules, room.hostelId, room.wing, s.year);
    }
    forall i | Decides(inp.rules, i, room.hostelId, room.wing, s.year)
      ensures EngineAllows(inp.rules, room.hostelId, room.wing, s.year) <==> inp.rules[i].isAllowed
    {
      DecidingRuleIs(inp.rules, room.hostelId, room.wing, s.year, i);
    }
  }

  /** The priority a student gives a room: -1 for the current one, else that of the rule that comes first, else 0. */
  lemma MatchPriorityIs(inp: Inputs, s: Student, room: Room)
    ensures s.currentRoomId == Some(room.id) ==> MatchPriority(inp, s, room) == -1
    ensures (forall i :: !Covers(inp.rules, i, room.hostelId, room.wing, s.year)) && s.currentRoomId != Some(room.id) ==>
              MatchPriority(inp, s, room) == 0
    ensures forall i :: Decides(inp.rules, i, room.hostelId, room.wing, s.year) && s.currentRoomId != Some(room.id)
              ==> MatchPriority(inp, s, room) == inp.rules[i].priority
  {
    if forall i :: !Covers(inp.rules, i, room.hostelId, room.wing, s.year) {
      UncoveredAllowed(inp.rules, room.hostelId, room.wing, s.year);
    }
    forall i | Decides(inp.rules, i, room.hostelId, room.wing, s.year)
      ensures DecidingRule(inp.rules, room.hostelId, room.wing, s.year) == Some(inp.rules[i])
    {
      DecidingRuleIs(inp.rules, room.hostelId, room.wing, s.year, i);
    }
  }

  /** Two rooms share a wing key exactly when they agree on hostel, wing and floor, a missing or empty wing being "main", a missing floor 0. */
  lemma KeyOfIs(a: Room, b: Room)
    ensures KeyOf(a) == KeyOf(b) <==>
            && a.hostelId == b.hostelId
            && (a.wing == b.wing || (a.wing in {None, Some(""), Some("main")} && b.wing in {None, Some(""), Some("main")}))
            && (a.floor == b.floor || (a.floor in {None, Some(0)} && b.floor in {None, Some(0)}))
    ensures KeyOf(a).hostelId == a.hostelId
    ensures a.wing.Some? && a.wing.value != "" ==> KeyOf(a).wing == a.wing.value
  {
  }

  function IndexOf(xs: seq<int>, x: int): (r: nat)
    ensures r <= |xs|
    ensures r < |xs| ==> xs[r] == x && x !in xs[..r]
    ensures x in xs <==> r < |xs|
  {
    if xs == [] then 0 else if xs[0] == x then 0 else 1 + IndexOf(xs[1..], x)
  }
}
