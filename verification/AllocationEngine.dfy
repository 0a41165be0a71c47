/**
 The allocation engine: state dictionaries updated in place by nested loops,
 in three greedy modes.

 Class AllocationState holds the three dictionaries, class Engine the inputs,
 the wing dictionary and the room priorities, which all students share and
 which each eligibility test overwrites. Each method is tied to the states and
 functions of the model by its contract; what those states and functions
 satisfy is proved beside them, in the modules imported here.
 */
module AllocationEngine {
  import opened Common
  import opened Rules
  import opened AllocationModel
  import opened AtomicUnits
  import opened Individuals
  import opened WingPacking
  import opened GroupPacking
  import opened InitialState
  import opened Fcfs
  import opened FcfsRun
  import opened EngineSteps
  import opened FillOrder
  import opened ResultCleanup
  import opened RunSteps
  import opened WingChoice
  import opened GroupRuns
  import opened WingEligibility
  import opened SolverObjective

  /** The three dictionaries a run updates. */
  class AllocationState {
    var wingCapacities: map<WingKey, int>
    var roomAssignments: map<RoomId, seq<StudentId>>
    var studentAllocations: map<StudentId, RoomId>

    constructor (capacities: map<WingKey, int>)
      ensures View() == State(capacities, map[], map[])
    {
      wingCapacities := capacities;
      roomAssignments := map[];
      studentAllocations := map[];
    }

    ghost function View(): State
      reads this
    {
      State(wingCapacities, roomAssignments, studentAllocations)
    }

    function Occupancy(room: RoomId): (n: nat)
      reads this
      ensures n == Occ(View(), room)
    {
      if room in roomAssignments then |roomAssignments[room]| else 0
    }

    method SeatStudent(id: StudentId, room: RoomId)
      modifies this
      ensures View() == Seat(old(View()), [id], room)
    {
      if room !in roomAssignments {
        roomAssignments := roomAssignments[room := []];
      }
      roomAssignments := roomAssignments[room := roomAssignments[room] + [id]];
      studentAllocations := studentAllocations[id := room];
    }

    /** Appends every member of a unit to one room's list. */
    method SeatUnit(unit: Unit, room: RoomId)
      requires |unit| >= 1
      modifies this
      ensures View() == Seat(old(View()), Ids(unit), room)
    {
      ghost var s := View();
      ghost var ids := Ids(unit);
      SeatStudent(unit[0].userId, room);
      assert ids[..1] == [ids[0]];
      var k := 1;
      while k < |unit|
        invariant 1 <= k <= |unit|
        invariant View() == Seat(s, ids[..k], room)
      {
        SeatOneMore(s, ids[..k], ids[k], room);
        assert ids[..k + 1] == ids[..k] + [ids[k]];
        SeatStudent(unit[k].userId, room);
        k := k + 1;
      }
      assert ids[..|unit|] == ids;
    }

    /** Overwrites a room's list with locked students and records each of them. */
    method LockRoom(room: RoomId, ids: seq<StudentId>)
      modifies this
      ensures View() == Assign(old(View()), ids, room)
    {
      ghost var s := View();
      roomAssignments := roomAssignments[room := ids];
      var k := 0;
      while k < |ids|
        invariant 0 <= k <= |ids|
        invariant roomAssignments == s.rooms[room := ids] && wingCapacities == s.wings
        invariant studentAllocations == s.placed + map id | id in ids[..k] :: room
      {
        assert ids[..k + 1] == ids[..k] + [ids[k]];
        LockOneMore(s.placed, ids[..k], ids[k], room);
        studentAllocations := studentAllocations[ids[k] := room];
        k := k + 1;
      }
      assert ids[..k] == ids;
    }

    method ChargeWing(w: WingKey, n: int)
      modifies this`wingCapacities
      ensures View() == Charge(old(View()), w, n)
    {
      if w in wingCapacities {
        wingCapacities := wingCapacities[w := wingCapacities[w] - n];
      }
    }
  }

  class Engine {
    const inp: Inputs
    /** The wing dictionary: its keys in order, and the open rooms of each. */
    const wingOrder: seq<WingKey>
    const wings: map<WingKey, seq<Room>>
    /** `room.match_priority`, shared by all students; absent means 0. */
    var matchPriority: map<RoomId, int>

    ghost predicate Ready()
      reads this
    {
      && WellFormed(inp)
      && WingsOf(inp.rooms, wingOrder, wings)
    }

    constructor (inputs: Inputs)
      requires WellFormed(inputs)
      ensures Ready() && inp == inputs && matchPriority == map[]
    {
      inp := inputs;
      var order, rooms := BuildWings(inputs);
      wingOrder, wings := order, rooms;
      matchPriority := map[];
    }

    static method BuildWings(inputs: Inputs) returns (order: seq<WingKey>, rooms: map<WingKey, seq<Room>>)
      ensures WingsOf(inputs.rooms, order, rooms)
    {
      order, rooms := [], map[];
      var k := 0;
      while k < |inputs.rooms|
        invariant 0 <= k <= |inputs.rooms|
        invariant WingsOf(inputs.rooms[..k], order, rooms)
      {
        assert inputs.rooms[..k + 1] == inputs.rooms[..k] + [inputs.rooms[k]];
        order, rooms := AddToWing(inputs.rooms[..k], inputs.rooms[k], order, rooms);
        k := k + 1;
      }
      assert inputs.rooms[..k] == inputs.rooms;
    }

    /** One turn of the loop: an available room joins its wing, which is opened if need be. */
    static method AddToWing(ghost seen: seq<Room>, room: Room, order: seq<WingKey>, rooms: map<WingKey, seq<Room>>)
      returns (order': seq<WingKey>, rooms': map<WingKey, seq<Room>>)
      requires WingsOf(seen, order, rooms)
      ensures WingsOf(seen + [room], order', rooms')
    {
      order', rooms' := order, rooms;
      if room.status.Available? {
        var w := KeyOf(room);
        if w in rooms {
          WingsKnown(seen, room, order, rooms);
          rooms' := rooms[w := rooms[w] + [room]];
        } else {
          WingsNew(seen, room, order, rooms);
          order' := order + [w];
          rooms' := rooms[w := [room]];
        }
      } else {
        WingsShut(seen, room, order, rooms);
      }
    }

    /** Roommate pairs inside the list become pairs, everyone else a single. */
    method GetAtomicUnits(students: seq<Student>) returns (units: seq<Unit>)
      ensures units == Units(inp.roommates, students)
    {
      var studentMap := ById(students);
      var processed: set<StudentId> := {};
      units := [];
      var n := 0;
      while n < |students|
        invariant 0 <= n <= |students|
        invariant PassedOver(inp.roommates, students, n, units, processed)
      {
        if students[n].userId !in processed {
          var unit := MakeUnit(students[n], students, studentMap);
          units := units + [unit];
          processed := processed + IdSet(unit);
        }
        n := n + 1;
      }
    }

    method MakeUnit(s: Student, ghost students: seq<Student>, studentMap: map<StudentId, Student>) returns (unit: Unit)
      requires studentMap == ById(students)
      ensures unit == UnitFor(inp.roommates, students, s)
    {
      unit := [s];
      if s.userId in inp.roommates && inp.roommates[s.userId] != "" && inp.roommates[s.userId] in studentMap {
        unit := [s, studentMap[inp.roommates[s.userId]]];
      }
    }

    // ---------- Eligibility ----------

    /** The rule loop for one room: stops at the first rule that matches. */
    method EvaluateRules(student: Student, room: Room) returns (blocked: bool, priority: int)
      ensures blocked == !EngineAllows(inp.rules, room.hostelId, room.wing, student.year)
      ensures var rule := DecidingRule(inp.rules, room.hostelId, room.wing, student.year);
              priority == if rule.Some? then rule.value.priority else 0
    {
      blocked, priority := false, 0;
      var sorted := ByPriority(inp.rules);
      var j := 0;
      assert sorted[0..] == sorted;
      while j < |sorted|
        invariant 0 <= j <= |sorted|
        invariant !blocked && priority == 0
        invariant FirstMatch(sorted, room.hostelId, room.wing, student.year)
                  == FirstMatch(sorted[j..], room.hostelId, room.wing, student.year)
      {
        var rule := sorted[j];
        assert sorted[j..][1..] == sorted[j + 1..];
        if EngineMatches(rule, room.hostelId, room.wing, student.year) {
          priority := rule.priority;
          blocked := !rule.isAllowed;
          return;
        }
        j := j + 1;
      }
    }

    /** The rooms valid for a student, in room order; overwrites the priority of each of them. */
    method GetValidRooms(student: Student) returns (valid: seq<Room>)
      requires Ready()
      modifies this`matchPriority
      ensures valid == ValidRooms(inp, student)
      ensures Marked(inp, student, valid, old(matchPriority), matchPriority)
    {
      valid := [];
      var k := 0;
      while k < |inp.rooms|
        invariant 0 <= k <= |inp.rooms|
        invariant valid == Filter(inp.rooms[..k], ValidFor(inp, student))
        invariant Marked(inp, student, valid, old(matchPriority), matchPriority)
      {
        assert inp.rooms[..k + 1] == inp.rooms[..k] + [inp.rooms[k]];
        FilterAppend(inp.rooms[..k], inp.rooms[k], ValidFor(inp, student));
        NewRoomId(inp, k);
        var isValid := MarkRoom(student, inp.rooms[k], valid, old(matchPriority));
        if isValid {
          valid := valid + [inp.rooms[k]];
        }
        k := k + 1;
      }
      assert inp.rooms[..k] == inp.rooms;
    }

    /** One turn: whether the room is valid; if so its priority is overwritten. */
    method MarkRoom(student: Student, room: Room, ghost valid: seq<Room>, ghost before: map<RoomId, int>) returns (isValid: bool)
      requires Marked(inp, student, valid, before, matchPriority)
      requires forall r :: r in valid ==> r.id != room.id
      modifies this`matchPriority
      ensures isValid == ValidRoom(inp, student, room)
      ensures Marked(inp, student, if isValid then valid + [room] else valid, before, matchPriority)
    {
      isValid := false;
      if room.status.Available? && room.hostelId in inp.hostels && GenderAdmits(inp.hostels[room.hostelId], student) {
        var blocked, priority := EvaluateRules(student, room);
        if !blocked || IsCurrentRoom(student, room) {
          MarkOne(inp, student, valid, before, matchPriority, room);
          matchPriority := matchPriority[room.id := if IsCurrentRoom(student, room) then -1 else priority];
          isValid := true;
        }
      }
    }

    /** The wings in which the student may be placed at all. */
    method GetValidWingKeys(student: Student) returns (keys: set<WingKey>)
      requires Ready()
      modifies this`matchPriority
      ensures forall w :: w in keys <==> EligibleWing(inp, student, w)
    {
      var valid := GetValidRooms(student);
      keys := set r | r in valid :: KeyOf(r);
    }

    /**
     The CP-SAT mode's first loop: the valid rooms of every student, and the
     room priorities that the objective is then built from.
     */
    method InstantiateVariables() returns (valid: seq<seq<Room>>)
      requires Ready() && matchPriority == map[]
      modifies this`matchPriority
      ensures |valid| == |inp.students| && forall k :: 0 <= k < |valid| ==> valid[k] == ValidRooms(inp, inp.students[k])
      ensures MarkedBy(inp, inp.students, matchPriority)
    {
      valid := [];
      var k := 0;
      while k < |inp.students|
        invariant 0 <= k <= |inp.students| && |valid| == k
        invariant forall j :: 0 <= j < k ==> valid[j] == ValidRooms(inp, inp.students[j])
        invariant MarkedBy(inp, inp.students[..k], matchPriority)
      {
        ghost var before := matchPriority;
        var rooms := GetValidRooms(inp.students[k]);
        MarkedByOneMore(inp, inp.students, k, rooms, before, matchPriority);
        valid := valid + [rooms];
        k := k + 1;
      }
      assert inp.students[..k] == inp.students;
    }

    // ---------- Individuals ----------

    /** One turn of the unit loop: the rooms valid for the first member, best first, until one fits. */
    method AllocateUnit(unit: Unit, st: AllocationState) returns (results: seq<Result>)
      requires Ready() && |unit| >= 1
      modifies st, this`matchPriority
      ensures (st.View(), results) == Settle(inp, old(st.View()), unit)
    {
      var student := unit[0];
      ghost var s := st.View();
      var valid := GetValidRooms(student);
      var priorities, occupancy := matchPriority, st.roomAssignments;
      var ranked := SortBy(valid, (r: Room) =>
        var preference: int := IndexOf(student.hostelPreferences, r.hostelId);
        var occupants: int := if r.id in occupancy then |occupancy[r.id]| else 0;
        [-(if r.id in priorities then priorities[r.id] else 0), preference, -occupants, r.id]);
      assert ranked == Ranked(inp, s, student) by {
        RankedByFields(inp, s, student, priorities);
      }
      var j := 0;
      assert ranked[0..] == ranked;
      while j < |ranked|
        invariant 0 <= j <= |ranked|
        invariant st.View() == s
        invariant FirstFit(s, ranked, |unit|) == FirstFit(s, ranked[j..], |unit|)
      {
        var room := ranked[j];
        assert ranked[j..][1..] == ranked[j + 1..];
        if st.Occupancy(room.id) + |unit| <= room.capacity {
          st.SeatUnit(unit, room.id);
          st.ChargeWing(KeyOf(room), |unit|);
          results := UnitResults(unit, Some(room.id), None, None);
          return;
        }
        j := j + 1;
      }
      results := UnitResults(unit, None, None, Some(NO_ROOM));
    }

    method AllocateIndividuals(students: seq<Student>, st: AllocationState) returns (results: seq<Result>)
      requires Ready()
      modifies st, this`matchPriority
      ensures var units := SortUnits(Units(inp.roommates, students));
              && (forall u :: u in units ==> |u| >= 1)
              && (st.View(), results) == SettleAll(inp, old(st.View()), units)
      ensures forall r :: r in results ==> Explained(r) && r.groupId.None?
    {
      ghost var s := st.View();
      var found := GetAtomicUnits(students);
      var units := SortUnits(found);
      SortUnitsPairsFirst(found);
      results := [];
      var k := 0;
      while k < |units|
        invariant 0 <= k <= |units|
        invariant forall u :: u in units ==> |u| >= 1
        invariant (st.View(), results) == SettleAll(inp, s, units[..k])
      {
        SettleAllStep(inp, s, units, k);
        var more := AllocateUnit(units[k], st);
        results := results + more;
        k := k + 1;
      }
      assert units[..k] == units;
      SettleAllExplains(inp, s, units);
    }

    // ---------- Groups ----------

    /**
     The inner loop over one room: walks the waiting units, seats those that
     fit, and skips those that do not. `left` are the units not seated.
     */
    method FillRoom(room: Room, units: seq<Unit>, st: AllocationState, groupId: Option<int>,
                    ghost among: set<StudentId>, ghost w: WingKey, ghost owed: nat)
      returns (left: seq<Unit>, results: seq<Result>)
      requires WellFormed(inp) && RoomReady(inp, among, w, owed, room, st.View(), units)
      modifies st
      ensures RoomDone(inp, among, w, owed, room, old(st.View()), st.View(), units, left, results)
      ensures NoneFits(st.View(), room, left) && Among(left, units) && SeatedFrom(units, old(st.View()), st.View(), room.id)
      ensures forall r :: r in results ==> r.groupId == groupId && r.reason.None?
    {
      ghost var s := st.View();
      var spots := room.capacity - st.Occupancy(room.id);
      left, results := units, [];
      ghost var free := spots;
      var i := 0;
      FillLoopStart(inp, among, w, owed, room, s, units, free);
      while i < |left| && spots > 0
        invariant FillLoop(inp, among, w, owed, room, s, st.View(), units, left, results, free, spots, i)
        invariant Among(left, units) && SeatedFrom(units, s, st.View(), room.id)
        invariant forall r :: r in results ==> r.groupId == groupId && r.reason.None?
        decreases |left| - i
      {
        var unit := left[i];
        if spots >= |unit| {
          FillLoopStep(inp, among, w, owed, room, s, st.View(), units, left, results, free, spots, i, groupId);
          SeatedStep(units, s, st.View(), room.id, unit);
          AmongRemove(left, units, i);
          st.SeatUnit(unit, room.id);
          results := results + UnitResults(unit, Some(room.id), groupId, None);
          spots := spots - |unit|;
          left := Remove(left, i);
        } else {
          i := i + 1;
        }
      }
      FillLoopEnd(inp, among, w, owed, room, s, st.View(), units, left, results, free, spots, i);
      NoneFitsAtEnd(inp, among, w, owed, room, s, st.View(), units, left, results, free, spots, i);
    }

    /** The rooms of a wing with a free bed: by priority, then fullest first, then floor and number. */
    method OpenRooms(w: WingKey, st: AllocationState) returns (rooms: seq<Room>)
      requires Ready() && w in wings
      ensures OpensWing(inp, w, st.View(), rooms)
      ensures FillingOrder(inp, matchPriority, w, st.View(), rooms)
    {
      var priorities, occupancy := matchPriority, st.roomAssignments;
      var isOpen := (r: Room) => (if r.id in occupancy then |occupancy[r.id]| else 0) < r.capacity;
      var roomKey := (r: Room) => FillKey(priorities, occupancy, r);
      rooms := SortBy(Filter(wings[w], isOpen), roomKey);
      SortedRoomsOpenWing(inp, w, st.View(), isOpen, roomKey);
      SortedIsFillingOrder(inp, priorities, w, st.View(), isOpen, roomKey);
    }

    /**
     Places as much of a group as fits into the rooms of one wing, pairs first.
     The number placed is the most that any placement of whole units could
     house there (GroupPacking.BestOfWingIsMaximum).
     */
    method AllocateGroupToWing(members: seq<Student>, w: WingKey, st: AllocationState, groupId: Option<int>)
      returns (results: seq<Result>)
      requires Ready() && w in wings && w in st.wingCapacities
      requires Sound(inp, st.View()) && Counted(inp, st.View())
      requires MembersReady(inp, st.View(), members)
      modifies st
      ensures Advanced(inp, IdSet(members), old(st.View()), st.View(), results) && Counted(inp, st.View())
      ensures OnlyInWing(inp, w, old(st.View()), st.View())
      ensures |results| == MostPlaceable(inp, old(st.View()), w, members)
      ensures forall r :: r in results ==> r.groupId == groupId && r.reason.None?
      ensures InFillingOrder(inp, matchPriority, w, members, old(st.View()), st.View())
    {
      ghost var s := st.View();
      var left;
      left, results := FillWing(members, w, st, groupId);
      var seated := |members| - |Flat(left)|;
      PackedEnd(inp, matchPriority, w, members, s, st.View(), left, results, seated);
      st.ChargeWing(w, seated);
    }

    /** Packs the members into the open rooms of the wing, whose counter is not charged yet. */
    method FillWing(members: seq<Student>, w: WingKey, st: AllocationState, groupId: Option<int>)
      returns (left: seq<Unit>, results: seq<Result>)
      requires Ready() && w in wings && w in st.wingCapacities
      requires Sound(inp, st.View()) && Counted(inp, st.View())
      requires MembersReady(inp, st.View(), members)
      modifies st
      ensures Packed(inp, matchPriority, w, members, old(st.View()), st.View(), left, results)
      ensures forall r :: r in results ==> r.groupId == groupId && r.reason.None?
    {
      ghost var s := st.View();
      var rooms := OpenRooms(w, st);
      var found := GetAtomicUnits(members);
      var units := SortUnits(found);
      var turns;
      GroupLoopStart(inp, IdSet(members), w, s, members, rooms);
      left, results, turns := PackRooms(rooms, units, st, groupId, IdSet(members), w);
      PackedNow(inp, matchPriority, w, members, s, st.View(), rooms, turns, left, results);
    }

    /** The outer loop over the open rooms, until they or the units run out. */
    method PackRooms(rooms: seq<Room>, units: seq<Unit>, st: AllocationState, groupId: Option<int>,
                     ghost among: set<StudentId>, ghost w: WingKey)
      returns (left: seq<Unit>, results: seq<Result>, j: nat)
      requires GroupLoop(inp, among, w, st.View(), st.View(), units, units, [], rooms, 0) && DistinctRooms(rooms)
      modifies st
      ensures GroupLoop(inp, among, w, old(st.View()), st.View(), units, left, results, rooms, j)
      ensures j >= |rooms| || |left| == 0
      ensures Ordered(old(st.View()), st.View(), rooms, j, units, left)
      ensures forall r :: r in results ==> r.groupId == groupId && r.reason.None?
    {
      ghost var s := st.View();
      left, results := units, [];
      j := 0;
      OrderedStart(s, rooms, units);
      while j < |rooms| && |left| > 0
        invariant 0 <= j <= |rooms|
        invariant Ordered(s, st.View(), rooms, j, units, left)
        invariant forall r :: r in results ==> r.groupId == groupId && r.reason.None?
        invariant GroupLoop(inp, among, w, s, st.View(), units, left, results, rooms, j)
      {
        left, results := PackRoom(rooms, j, left, st, groupId, among, w, s, units, results);
        j := j + 1;
      }
    }

    /** One turn of the outer loop; adds the results of one room. */
    method PackRoom(rooms: seq<Room>, j: nat, waiting: seq<Unit>, st: AllocationState, groupId: Option<int>,
                    ghost among: set<StudentId>, ghost w: WingKey, ghost s: State, ghost units: seq<Unit>, rs: seq<Result>)
      returns (left: seq<Unit>, results: seq<Result>)
      requires j < |rooms|
      requires GroupLoop(inp, among, w, s, st.View(), units, waiting, rs, rooms, j) && Ordered(s, st.View(), rooms, j, units, waiting)
      requires forall r :: r in rs ==> r.groupId == groupId && r.reason.None?
      modifies st
      ensures GroupLoop(inp, among, w, s, st.View(), units, left, results, rooms, j + 1)
      ensures Ordered(s, st.View(), rooms, j + 1, units, left)
      ensures forall r :: r in results ==> r.groupId == groupId && r.reason.None?
    {
      ghost var before := st.View();
      var more;
      GroupLoopRoom(inp, among, w, s, before, units, waiting, rs, rooms, j);
      left, more := FillRoom(rooms[j], waiting, st, groupId, among, w, |rs|);
      GroupLoopStep(inp, among, w, s, before, st.View(), units, waiting, left, rs, more, rooms, j);
      OrderedNext(inp, among, w, |rs|, s, before, st.View(), rooms, j, units, waiting, left, more);
      results := rs + more;
    }

    // ---------- Choosing a wing ----------

    /** The wings all members may enter. */
    method CommonWings(members: seq<Student>) returns (keys: set<WingKey>)
      requires Ready() && |members| > 0
      modifies this`matchPriority
      ensures forall w :: w in keys <==> forall m :: m in members ==> EligibleWing(inp, m, w)
    {
      keys := GetValidWingKeys(members[0]);
      var k := 1;
      while k < |members|
        invariant 1 <= k <= |members|
        invariant forall w :: w in keys <==> forall m :: m in members[..k] ==> EligibleWing(inp, m, w)
      {
        var more := GetValidWingKeys(members[k]);
        assert members[..k + 1] == members[..k] + [members[k]];
        keys := keys * more;
        k := k + 1;
      }
      assert members[..k] == members;
    }

    /** The best wing that can take the whole group, if there is one. */
    method FindBestWing(members: seq<Student>, st: AllocationState, preferences: seq<int>) returns (best: Option<WingKey>)
      requires Ready() && st.wingCapacities.Keys == wings.Keys
      modifies this`matchPriority
      ensures best.None? <==> members == [] || forall w :: !Suitable(inp, st.View(), members, w)
      ensures best.Some? ==> members != [] && BestSuitable(inp, st.View(), members, preferences, best.value)
    {
      if members == [] {
        return None;
      }
      var available := CandidateWings(members, st);
      if |available| == 0 {
        return None;
      }
      var units := GetAtomicUnits(members);
      best := TopWing(members, st, preferences, available, LargestUnit(units));
    }

    method CandidateWings(members: seq<Student>, st: AllocationState) returns (available: seq<WingKey>)
      requires Ready() && st.wingCapacities.Keys == wings.Keys && |members| > 0
      modifies this`matchPriority
      ensures forall w :: w in available <==> Candidate(inp, st.View(), members, w)
    {
      var eligible := CommonWings(members);
      var counters := st.wingCapacities;
      available := Filter(wingOrder, (w: WingKey) => w in counters && w in eligible && counters[w] >= |members|);
    }

    method TopWing(members: seq<Student>, st: AllocationState, preferences: seq<int>, available: seq<WingKey>, largest: nat)
      returns (best: Option<WingKey>)
      requires Ready() && |members| > 0 && |available| > 0
      requires largest == LargestUnit(Units(inp.roommates, members))
      requires forall w :: w in available <==> Candidate(inp, st.View(), members, w)
      ensures best.None? <==> forall w :: !Suitable(inp, st.View(), members, w)
      ensures best.Some? ==> BestSuitable(inp, st.View(), members, preferences, best.value)
    {
      var counters, year := st.wingCapacities, members[0].year;
      var key := (w: WingKey) => WingScore(inp, counters, w, year, preferences, largest);
      var sorted := SortBy(available, key);
      TopOfCandidates(inp, st.View(), members, preferences, available, key);
      best := if HasRoomFor(inp, sorted[0], largest) then Some(sorted[0]) else None;
    }

    // ---------- Splitting a group over wings ----------

    /**
     Open wings some remaining member may enter, by closeness to the first wing
     used and then by how many may enter. `lastKey` is the last key the loop
     over the counters looked at.
     */
    method RankWings(flat: seq<Student>, st: AllocationState, first: Option<WingKey>)
      returns (ranked: seq<(WingKey, int, int)>, lastKey: Option<WingKey>)
      requires Ready() && st.wingCapacities.Keys == wings.Keys
      modifies this`matchPriority
      ensures lastKey == LastKey(wingOrder)
      ensures |ranked| == 0 <==> forall w :: !Open(inp, st.View(), flat, w)
      ensures |ranked| > 0 ==> lastKey.Some? && ranked[0].0 in wings && TopRanked(inp, st.View(), flat, first, ranked[0].0)
    {
      var found;
      found, lastKey := LookAtWings(flat, st, first);
      ranked := SortBy(found, ByRank);
      TopOfRanked(inp, st.View(), flat, first, wingOrder, found);
    }

    method LookAtWings(flat: seq<Student>, st: AllocationState, first: Option<WingKey>)
      returns (found: seq<(WingKey, int, int)>, lastKey: Option<WingKey>)
      requires Ready()
      modifies this`matchPriority
      ensures lastKey == LastKey(wingOrder) && RankedSoFar(inp, st.View(), flat, first, wingOrder, found)
    {
      found, lastKey := [], None;
      var k := 0;
      while k < |wingOrder|
        invariant 0 <= k <= |wingOrder|
        invariant lastKey == LastKey(wingOrder[..k])
        invariant RankedSoFar(inp, st.View(), flat, first, wingOrder[..k], found)
      {
        assert wingOrder[..k + 1] == wingOrder[..k] + [wingOrder[k]];
        lastKey := Some(wingOrder[k]);
        found := RankWing(flat, st, first, wingOrder[..k], found, wingOrder[k]);
        k := k + 1;
      }
      assert wingOrder[..k] == wingOrder;
    }

    /** One turn: a wing with a positive counter that some member may enter joins the list. */
    method RankWing(flat: seq<Student>, st: AllocationState, first: Option<WingKey>, ghost keys: seq<WingKey>,
                    found: seq<(WingKey, int, int)>, w: WingKey)
      returns (more: seq<(WingKey, int, int)>)
      requires Ready() && RankedSoFar(inp, st.View(), flat, first, keys, found)
      modifies this`matchPriority
      ensures RankedSoFar(inp, st.View(), flat, first, keys + [w], more)
    {
      more := found;
      if w in st.wingCapacities && st.wingCapacities[w] > 0 {
        var eligible := CountEligible(flat, w);
        if eligible > 0 {
          var proximity := if first.Some? then Proximity(w, first.value) else 50;
          more := found + [(w, eligible, proximity)];
        }
      }
    }

    method CountEligible(flat: seq<Student>, w: WingKey) returns (n: nat)
      requires Ready()
      modifies this`matchPriority
      ensures n == EligibleCount(inp, flat, w)
    {
      n := 0;
      var k := 0;
      while k < |flat|
        invariant 0 <= k <= |flat|
        invariant n == EligibleCount(inp, flat[..k], w)
      {
        var keys := GetValidWingKeys(flat[k]);
        assert flat[..k + 1][..k] == flat[..k];
        if w in keys {
          n := n + 1;
        }
        k := k + 1;
      }
      assert flat[..k] == flat;
    }

    /**
     The units to send to the next wing: eligible members only, within the
     counter. Eligibility is tested against `key`, which is not the wing they
     are sent to but the last one the ranking loop looked at.
     */
    method TakeBatch(remaining: seq<Unit>, key: WingKey, capacity: int) returns (chosen: seq<Unit>, rest: seq<Unit>)
      requires Ready() && forall u :: u in remaining ==> |u| >= 1
      modifies this`matchPriority
      ensures chosen == Batch(inp, remaining, key, capacity) && rest == Kept(inp, remaining, key, capacity)
    {
      chosen, rest := [], [];
      var size := 0;
      var i := 0;
      while i < |remaining|
        invariant 0 <= i <= |remaining|
        invariant chosen == Batch(inp, remaining[..i], key, capacity) && rest == Kept(inp, remaining[..i], key, capacity)
        invariant size == |Flat(chosen)|
      {
        var unit := remaining[i];
        BatchNext(inp, remaining, i, key, capacity);
        var common := CommonWings(unit);
        if key in common && size + |unit| <= capacity {
          chosen := chosen + [unit];
          size := size + |unit|;
        } else {
          rest := rest + [unit];
        }
        i := i + 1;
      }
      assert remaining[..i] == remaining;
    }

    /** Fills wings one after another with parts of a group; never splits a unit. */
    method AllocateGroupSplit(group: Group, members: seq<Student>, st: AllocationState) returns (results: seq<Result>)
      requires Ready() && st.wingCapacities.Keys == wings.Keys
      requires Sound(inp, st.View()) && Counted(inp, st.View())
      requires MembersReady(inp, st.View(), members)
      modifies st, this`matchPriority
      ensures Advanced(inp, IdSet(members), old(st.View()), st.View(), results) && Counted(inp, st.View())
      ensures SplitOver(inp, LastKey(wingOrder), members, old(st.View()), st.View(), results)
      ensures forall r :: r in results ==> r.groupId == Some(group.id) && r.reason.None?
    {
      ghost var s, n := st.View(), 0;
      var remaining := GetAtomicUnits(members);
      var first: Option<WingKey> := None;
      results := [];
      SplittingStart(inp, LastKey(wingOrder), s, members);
      var stuck := false;
      while |remaining| > 0 && !stuck
        invariant Ready() && st.View().wings.Keys == wings.Keys
        invariant Splitting(inp, LastKey(wingOrder), members, n, s, st.View(), remaining, first, results)
        invariant stuck ==> SplitStuck(inp, LastKey(wingOrder), st.View(), remaining, first)
        invariant forall r :: r in results ==> r.groupId == Some(group.id) && r.reason.None?
        decreases |remaining|, !stuck
      {
        stuck, remaining, first, results, n := SplitOnce(group, members, remaining, first, st, results, s, n);
      }
      SplittingOver(inp, LastKey(wingOrder), members, n, s, st.View(), remaining, first, results);
    }

    /** One turn of the split: ranks the wings, takes a batch and sends it, or finds that nothing can be sent. */
    method SplitOnce(group: Group, ghost members: seq<Student>, remaining: seq<Unit>, first: Option<WingKey>, st: AllocationState,
                     results: seq<Result>, ghost s: State, ghost n: nat)
      returns (stuck: bool, left: seq<Unit>, first': Option<WingKey>, all: seq<Result>, ghost n': nat)
      requires Ready() && st.wingCapacities.Keys == wings.Keys
      requires Splitting(inp, LastKey(wingOrder), members, n, s, st.View(), remaining, first, results)
      requires forall r :: r in results ==> r.groupId == Some(group.id) && r.reason.None?
      modifies st, this`matchPriority
      ensures forall r :: r in all ==> r.groupId == Some(group.id) && r.reason.None?
      ensures Ready() && st.View().wings.Keys == wings.Keys
      ensures Splitting(inp, LastKey(wingOrder), members, n', s, st.View(), left, first', all)
      ensures stuck ==> left == remaining && SplitStuck(inp, LastKey(wingOrder), st.View(), left, first')
      ensures !stuck ==> |left| < |remaining|
    {
      left, first', all, n' := remaining, first, results, n;
      SplittingUnits(inp, LastKey(wingOrder), members, n, s, st.View(), remaining, first, results);
      var ranked, lastKey := RankWings(Flat(remaining), st, first);
      if |ranked| == 0 {
        stuck := true;
        return;
      }
      var best := ranked[0].0;
      var chosen, rest := TakeBatch(remaining, lastKey.value, st.wingCapacities[best]);
      stuck := |chosen| == 0;
      if !stuck {
        left, all := SendBatch(group, members, remaining, chosen, rest, best, lastKey.value, first, st, results, s, n);
        first', n' := FirstUsed(first, best), n + 1;
      }
    }

    /** Sends a batch to its wing. */
    method SendBatch(group: Group, ghost members: seq<Student>, ghost remaining: seq<Unit>, chosen: seq<Unit>, rest: seq<Unit>,
                     best: WingKey, ghost key: WingKey, ghost first: Option<WingKey>, st: AllocationState, results: seq<Result>,
                     ghost s: State, ghost n: nat)
      returns (left: seq<Unit>, all: seq<Result>)
      requires Ready() && st.wingCapacities.Keys == wings.Keys && best in wings && Some(key) == LastKey(wingOrder)
      requires Splitting(inp, Some(key), members, n, s, st.View(), remaining, first, results)
      requires TopRanked(inp, st.View(), Flat(remaining), first, best) && |chosen| > 0
      requires chosen == Batch(inp, remaining, key, st.wingCapacities[best]) && rest == Kept(inp, remaining, key, st.wingCapacities[best])
      requires forall r :: r in results ==> r.groupId == Some(group.id) && r.reason.None?
      modifies st, this`matchPriority
      ensures forall r :: r in all ==> r.groupId == Some(group.id) && r.reason.None?
      ensures Ready() && st.View().wings.Keys == wings.Keys && left == rest && |left| < |remaining|
      ensures Splitting(inp, LastKey(wingOrder), members, n + 1, s, st.View(), left, FirstUsed(first, best), all)
    {
      ghost var before := st.View();
      SplittingReady(inp, key, members, n, s, before, remaining, first, results, best);
      var more := AllocateGroupToWing(Flat(chosen), best, st, Some(group.id));
      SplittingStep(inp, key, members, n, s, before, remaining, first, results, best, st.View(), more);
      left, all := rest, results + more;
    }

    // ---------- Runs ----------

    /** All wings open, minus the beds of locked students who are not applying again. */
    method BuildInitialState() returns (st: AllocationState)
      requires Ready()
      ensures fresh(st) && st.View() == Initial(inp)
      ensures forall i :: 0 <= i < |inp.locked| ==> HoldsEntry(inp, st.View(), i)
    {
      st := new AllocationState(map w | w in wings :: BedsIn(inp.rooms, w));
      var i := 0;
      while i < |inp.locked|
        invariant 0 <= i <= |inp.locked|
        invariant st.View() == LockUpTo(inp, i)
      {
        ApplyLock(st, i);
        i := i + 1;
      }
      LocksAreHeld(inp);
    }

    method ApplyLock(st: AllocationState, i: nat)
      requires i < |inp.locked|
      modifies st
      ensures st.View() == LockStep(inp, old(st.View()), i)
    {
      var ids := TrulyLocked(inp, inp.locked[i].1);
      st.LockRoom(inp.locked[i].0, ids);
      var room := RoomWithId(inp.rooms, inp.locked[i].0);
      if room.Some? {
        st.ChargeWing(KeyOf(room.value), |ids|);
      }
    }

    /** One group: into the best wing for all of it, or split over wings. */
    method PlaceGroup(group: Group, st: AllocationState, ghost rs: seq<Result>) returns (results: seq<Result>)
      requires Ready() && group in inp.groups && Underway(inp, st.View(), rs)
      modifies st, this`matchPriority
      ensures Underway(inp, st.View(), rs + results)
      ensures GroupPlaced(inp, LastKey(wingOrder), group, old(st.View()), st.View(), results)
      ensures forall r :: r in results ==> r.groupId == Some(group.id) && r.reason.None?
    {
      ghost var s := st.View();
      var placed := st.studentAllocations;
      var cohort := Cohort(inp);
      var members := Filter(group.members, (m: Student) => m.userId in cohort && m.userId !in placed);
      UnderwayNow(inp, s, rs);
      OutstandingReady(inp, s, group, members);
      results := PlaceMembers(group, members, st);
      UnderwayThen(inp, IdSet(members), s, st.View(), rs, results);
    }

    /** The outstanding members of a group: together if a wing is suitable for all, else split. */
    method PlaceMembers(group: Group, members: seq<Student>, st: AllocationState) returns (results: seq<Result>)
      requires Ready() && st.wingCapacities.Keys == wings.Keys
      requires Sound(inp, st.View()) && Counted(inp, st.View()) && MembersReady(inp, st.View(), members)
      modifies st, this`matchPriority
      ensures Advanced(inp, IdSet(members), old(st.View()), st.View(), results) && Counted(inp, st.View())
      ensures MembersPlaced(inp, LastKey(wingOrder), group.preferences, members, old(st.View()), st.View(), results)
      ensures forall r :: r in results ==> r.groupId == Some(group.id) && r.reason.None?
    {
      ghost var s := st.View();
      if |members| == 0 {
        return [];
      }
      var best := FindBestWing(members, st, group.preferences);
      if best.Some? {
        results := AllocateGroupToWing(members, best.value, st, Some(group.id));
      } else {
        results := AllocateGroupSplit(group, members, st);
      }
    }

    /** Groups in the given order, then everyone still without a room, then one result per student. */
    method RunGroups(order: seq<Group>) returns (results: seq<Result>, ghost final: State)
      requires Ready() && forall g :: g in order ==> g in inp.groups
      modifies this`matchPriority
      ensures RunEnds(inp, final, results) && GroupRun(inp, LastKey(wingOrder), order, final, results)
      ensures forall r :: r in results ==> Explained(r)
    {
      var st := BuildInitialState();
      var all := PlaceGroups(order, st);
      ghost var s := st.View();
      PlacingNow(inp, LastKey(wingOrder), order, |order|, s, all);
      var remaining, last := PlaceRemaining(st, all);
      final := st.View();
      GroupRunNow(inp, LastKey(wingOrder), order, s, all, remaining, final, all + last);
      RunEndsByRules(inp, order, final, all + last);
      results := Cleanup(all + last);
    }

    method PlaceGroups(order: seq<Group>, st: AllocationState) returns (all: seq<Result>)
      requires Ready() && st.View() == Initial(inp) && forall g :: g in order ==> g in inp.groups
      modifies st, this`matchPriority
      ensures Ready() && Placing(inp, LastKey(wingOrder), order, |order|, st.View(), all)
      ensures forall r :: r in all ==> r.roomId.Some? && Explained(r)
    {
      all := [];
      PlacingStart(inp, LastKey(wingOrder), order);
      var k := 0;
      while k < |order|
        invariant 0 <= k <= |order| && Ready()
        invariant Placing(inp, LastKey(wingOrder), order, k, st.View(), all)
        invariant forall r :: r in all ==> r.roomId.Some? && Explained(r)
      {
        all := PlaceNext(order, k, st, all);
        k := k + 1;
      }
    }

    method PlaceNext(order: seq<Group>, k: nat, st: AllocationState, rs: seq<Result>) returns (all: seq<Result>)
      requires Ready() && k < |order| && order[k] in inp.groups
      requires Placing(inp, LastKey(wingOrder), order, k, st.View(), rs)
      requires forall r :: r in rs ==> r.roomId.Some? && Explained(r)
      modifies st, this`matchPriority
      ensures Ready() && Placing(inp, LastKey(wingOrder), order, k + 1, st.View(), all)
      ensures forall r :: r in all ==> r.roomId.Some? && Explained(r)
    {
      ghost var before := st.View();
      PlacingNow(inp, LastKey(wingOrder), order, k, before, rs);
      var more := PlaceGroup(order[k], st, rs);
      PlacingNext(inp, LastKey(wingOrder), order, k, before, rs, st.View(), more);
      all := rs + more;
    }

    /** The last phase: the students without a room, as individuals. */
    method PlaceRemaining(st: AllocationState, ghost rs: seq<Result>) returns (remaining: seq<Student>, results: seq<Result>)
      requires Ready() && Underway(inp, st.View(), rs)
      modifies st, this`matchPriority
      ensures RunSettles(inp, st.View(), rs + results)
      ensures IndividualPhase(inp, old(st.View()), remaining, rs, st.View(), rs + results)
      ensures forall r :: r in results ==> Explained(r) && r.groupId.None?
    {
      ghost var s := st.View();
      var placed := st.studentAllocations;
      remaining := Filter(inp.students, (m: Student) => m.userId !in placed);
      SameFilter(inp.students, (m: Student) => m.userId !in placed, (m: Student) => m.userId !in s.placed);
      IndividualsFinish(inp, s, rs, remaining);
      results := AllocateIndividuals(remaining, st);
    }

    /**
     One result per student, in the order in which the students are first
     named: the first success, else the first failure with a reason, else the
     first result. Changes nothing when every student already has one result.
     */
    method Cleanup(results: seq<Result>) returns (final: seq<Result>)
      ensures IsCleanup(results, final)
      ensures OncePerStudent(results) ==> final == results
    {
      var index: map<StudentId, nat> := map[];
      final := [];
      var k := 0;
      while k < |results|
        invariant 0 <= k <= |results|
        invariant Cleaned(results[..k], index, final)
      {
        assert results[..k + 1] == results[..k] + [results[k]];
        index, final := MergeResult(results[..k], index, final, results[k]);
        k := k + 1;
      }
      assert results[..k] == results;
      CleanupKeeps(results, final);
    }

    /** One turn: a student's first result is appended; a later one may replace a failure. */
    method MergeResult(ghost seen: seq<Result>, index: map<StudentId, nat>, final: seq<Result>, r: Result)
      returns (index': map<StudentId, nat>, final': seq<Result>)
      requires Cleaned(seen, index, final)
      ensures Cleaned(seen + [r], index', final')
    {
      index', final' := index, final;
      if r.studentId !in index {
        CleanedNew(seen, index, final, r);
        index' := index[r.studentId := |final|];
        final' := final + [r];
      } else {
        CleanedAgain(seen, index, final, r);
        var existing := final[index[r.studentId]];
        if Replaces(existing, r) {
          final' := final[index[r.studentId] := r];
        }
      }
    }

    /** Groups by size, largest first. */
    method RunGroupBased() returns (results: seq<Result>, ghost final: State)
      requires Ready()
      modifies this`matchPriority
      ensures RunEnds(inp, final, results) && GroupRun(inp, LastKey(wingOrder), BySize(inp.groups), final, results)
      ensures forall r :: r in results ==> Explained(r)
    {
      var order := BySize(inp.groups);
      OrderedGroups(inp.groups);
      results, final := RunGroups(order);
    }

    /** Groups by the earliest application among their members. */
    method RunWingFcfs() returns (results: seq<Result>, ghost final: State)
      requires Ready()
      modifies this`matchPriority
      ensures RunEnds(inp, final, results) && GroupRun(inp, LastKey(wingOrder), ByArrival(inp.groups), final, results)
      ensures forall r :: r in results ==> Explained(r)
    {
      var order := ByArrival(inp.groups);
      OrderedGroups(inp.groups);
      results, final := RunGroups(order);
    }

    /** Places an unplaced student, with the roommate if that one is in the cohort and unplaced. */
    method ServeStudent(student: Student, st: AllocationState) returns (results: seq<Result>)
      requires Ready() && student.userId !in st.studentAllocations
      modifies this`matchPriority, st
      ensures Ready()
      ensures var party := Party(inp, old(st.View()), student);
              && (forall u :: u in SortUnits(Units(inp.roommates, party)) ==> |u| >= 1)
              && (st.View(), results) == SettleAll(inp, old(st.View()), SortUnits(Units(inp.roommates, party)))
    {
      var unit := [student];
      if student.userId in inp.roommates {
        var mate := inp.roommates[student.userId];
        var students := ById(inp.students);
        if mate != "" && mate in students && mate !in st.studentAllocations {
          unit := unit + [students[mate]];
        }
      }
      assert unit == Party(inp, st.View(), student);
      results := AllocateIndividuals(unit, st);
    }

    /** Students by application time; each is placed on the spot, with an unplaced roommate. */
    method RunFcfs() returns (results: seq<Result>, ghost final: State)
      requires Ready()
      modifies this`matchPriority
      ensures (final, results) == Serve(inp, Initial(inp), ArrivalOrder(inp))
      ensures FcfsEnds(inp, final, results)
      ensures forall r :: r in results ==> Explained(r) && r.groupId.None?
    {
      var st := BuildInitialState();
      var order := ArrivalOrder(inp);
      results := ServeInOrder(order, st);
      final := st.View();
      ServingEnd(inp, order, final, results);
      ServeExplains(inp, Initial(inp), order);
    }

    method ServeInOrder(order: seq<Student>, st: AllocationState) returns (results: seq<Result>)
      requires Ready() && Serving(inp, order, 0, st.View(), [])
      modifies this`matchPriority, st
      ensures Serving(inp, order, |order|, st.View(), results)
    {
      results := [];
      var k := 0;
      while k < |order|
        invariant 0 <= k <= |order| && Ready()
        invariant Serving(inp, order, k, st.View(), results)
      {
        results := ServeNext(order, k, st, results);
        k := k + 1;
      }
    }

    /** One turn: nothing for a student who is placed already. */
    method ServeNext(order: seq<Student>, k: nat, st: AllocationState, rs: seq<Result>) returns (results: seq<Result>)
      requires Ready() && k < |order| && Serving(inp, order, k, st.View(), rs)
      modifies this`matchPriority, st
      ensures Ready() && Serving(inp, order, k + 1, st.View(), results)
    {
      results := rs;
      if order[k].userId in st.studentAllocations {
        ServingPlaced(inp, order, k, st.View(), results);
      } else {
        ghost var before := st.View();
        var more := ServeStudent(order[k], st);
        ServingOne(inp, order, k, before, results, st.View(), more);
        results := results + more;
      }
    }
  }
}
