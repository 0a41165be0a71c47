/**
 Steps of the engine's loops on states: filling a room, filling a wing,
 splitting a group, marking priorities. Each loop of the engine has a predicate
 that says what is true between two turns, a lemma that it holds before the
 first turn, one that a turn keeps it, and one that draws the conclusion after
 the last turn. The loops themselves only call these lemmas.
 */
module EngineSteps {
  import opened Common
  import opened AllocationModel
  import opened AtomicUnits
  import opened Individuals
  import opened WingPacking
  import opened GroupPacking
  import opened InitialState

  // ---------- Filling one room ----------

  ghost predicate RoomWithin(inp: Inputs, s: State, room: Room) {
    Occ(s, room.id) <= room.capacity
  }

  lemma RoomOfInputs(inp: Inputs, s: State, room: Room)
    requires room in inp.rooms && WithinCapacity(inp, s)
    ensures RoomWithin(inp, s, room)
  {
    var k :| 0 <= k < |inp.rooms| && inp.rooms[k] == room;
  }

  ghost predicate IsCount(rs: seq<Result>, n: nat) {
    n == |rs|
  }

  /** Advanced, stated through the number of results so that a step need not look inside. */
  ghost predicate Progress(inp: Inputs, among: set<StudentId>, s: State, s': State, rs: seq<Result>) {
    forall n: nat :: IsCount(rs, n) ==> Advanced(inp, among, s, s', rs)
  }

  lemma ProgressIsAdvance(inp: Inputs, among: set<StudentId>, s: State, s': State, rs: seq<Result>)
    ensures Progress(inp, among, s, s', rs) <==> Advanced(inp, among, s, s', rs)
  {
    assert IsCount(rs, |rs|);
  }

  lemma ProgressThen(inp: Inputs, among: set<StudentId>, s: State, s': State, s'': State, a: seq<Result>, b: seq<Result>)
    requires Progress(inp, among, s, s', a) && Progress(inp, among, s', s'', b)
    ensures Progress(inp, among, s, s'', a + b)
  {
    ProgressIsAdvance(inp, among, s, s', a);
    ProgressIsAdvance(inp, among, s', s'', b);
    AdvancedThen(inp, among, s, s', s'', a, b);
  }

  /** Seating rs in one room: safety kept, counters owed, other rooms as they were. */
  ghost predicate FilledState(inp: Inputs, among: set<StudentId>, w: WingKey, owed: nat, room: Room, s: State, s': State, rs: seq<Result>) {
    && Progress(inp, among, s, s', rs)
    && s'.wings == s.wings
    && Owing(inp, w, owed + |rs|, s')
    && forall r :: r != room.id ==> Occ(s', r) == Occ(s, r)
  }

  /** n students of the units have been seated; the rest wait. */
  ghost predicate LeftOver(inp: Inputs, among: set<StudentId>, s': State, units: seq<Unit>, left: seq<Unit>, n: nat) {
    && Waiting(inp, among, s', left) && PairsFirst(left)
    && Pairs(left) <= Pairs(units) && Singles(left) <= Singles(units)
    && n == 2 * (Pairs(units) - Pairs(left)) + (Singles(units) - Singles(left))
  }

  ghost predicate Filled(inp: Inputs, among: set<StudentId>, w: WingKey, owed: nat, room: Room, s: State, s': State,
                         units: seq<Unit>, left: seq<Unit>, rs: seq<Result>)
  {
    FilledState(inp, among, w, owed, room, s, s', rs) && LeftOver(inp, among, s', units, left, |rs|)
  }

  lemma FilledStateStep(inp: Inputs, among: set<StudentId>, w: WingKey, owed: nat, room: Room, s: State, s': State, rs: seq<Result>,
                        unit: Unit, groupId: Option<int>)
    requires WellFormed(inp) && room in inp.rooms && KeyOf(room) == w
    requires FilledState(inp, among, w, owed, room, s, s', rs)
    requires Placeable(inp, among, s', unit) && Unique(Ids(unit)) && Fits(s', room, |unit|)
    ensures FilledState(inp, among, w, owed, room, s, Seat(s', Ids(unit), room.id),
                        rs + UnitResults(unit, Some(room.id), groupId, None))
  {
    var more := UnitResults(unit, Some(room.id), groupId, None);
    ProgressStep(inp, among, s, s', rs, unit, room, groupId);
    OwingStep(inp, w, owed + |rs|, owed + |rs + more|, s', unit, room);
    SeatElsewhere(s, s', Ids(unit), room.id);
  }

  lemma SeatElsewhere(s: State, s': State, ids: seq<StudentId>, room: RoomId)
    requires forall r :: r != room ==> Occ(s', r) == Occ(s, r)
    ensures forall r :: r != room ==> Occ(Seat(s', ids, room), r) == Occ(s, r)
  {
    SeatOcc(s', ids, room);
  }

  lemma OwingStep(inp: Inputs, w: WingKey, n: nat, m: nat, s: State, unit: Unit, room: Room)
    requires WellFormed(inp) && Owing(inp, w, n, s) && room in inp.rooms && KeyOf(room) == w
    requires m == n + |unit|
    ensures Owing(inp, w, m, Seat(s, Ids(unit), room.id))
  {
    SeatOwes(inp, w, n, s, unit, room);
  }

  lemma ProgressStep(inp: Inputs, among: set<StudentId>, s: State, s': State, rs: seq<Result>, unit: Unit, room: Room, groupId: Option<int>)
    requires WellFormed(inp) && room in inp.rooms && Progress(inp, among, s, s', rs)
    requires Placeable(inp, among, s', unit) && Unique(Ids(unit)) && Fits(s', room, |unit|)
    ensures Progress(inp, among, s, Seat(s', Ids(unit), room.id), rs + UnitResults(unit, Some(room.id), groupId, None))
  {
    ProgressIsAdvance(inp, among, s, s', rs);
    SeatAdvances(inp, among, s', unit, room, groupId);
    ProgressThen(inp, among, s, s', Seat(s', Ids(unit), room.id), rs, UnitResults(unit, Some(room.id), groupId, None));
  }

  lemma LeftOverStep(inp: Inputs, among: set<StudentId>, s': State, units: seq<Unit>, left: seq<Unit>, n: nat, i: nat, room: RoomId)
    requires LeftOver(inp, among, s', units, left, n) && i < |left|
    ensures LeftOver(inp, among, Seat(s', Ids(left[i]), room), units, Remove(left, i), n + |left[i]|)
  {
    assert Placeable(inp, among, s', left[i]);
    WaitingAfterSeat(inp, among, s', left, i, room);
    CountRemove(left, i);
  }

  lemma UnitSizes(inp: Inputs, among: set<StudentId>, s: State, units: seq<Unit>)
    requires Waiting(inp, among, s, units)
    ensures forall k :: 0 <= k < |units| ==> 1 <= |units[k]| <= 2 && Placeable(inp, among, s, units[k]) && Unique(Ids(units[k]))
  {
    forall k | 0 <= k < |units|
      ensures Placeable(inp, among, s, units[k]) && Unique(Ids(units[k]))
    {
      assert units[k] in units;
    }
  }

  /** The pass has taken singles only once no pair could be taken. */
  ghost predicate PairsBeforeSingles(free: nat, units: seq<Unit>, left: seq<Unit>) {
    Singles(left) < Singles(units) ==> Pairs(left) == 0 || free - 2 * (Pairs(units) - Pairs(left)) <= 1
  }

  lemma PairsBeforeSinglesStep(free: nat, spots: nat, units: seq<Unit>, left: seq<Unit>, i: nat)
    requires PairsFirst(left) && i < |left| && 1 <= |left[i]| <= 2 && |left[i]| <= spots
    requires Pairs(left) <= Pairs(units) && Singles(left) <= Singles(units)
    requires free == spots + 2 * (Pairs(units) - Pairs(left)) + (Singles(units) - Singles(left))
    requires forall k :: 0 <= k < i ==> |left[k]| > spots
    requires PairsBeforeSingles(free, units, left)
    ensures PairsBeforeSingles(free, units, Remove(left, i))
    ensures forall k :: 0 <= k < i ==> |Remove(left, i)[k]| > spots - |left[i]|
  {
    CountRemove(left, i);
    PairExists(left);
    if |left[i]| == 1 && Pairs(left) > 0 {
      var k :| 0 <= k < |left| && |left[k]| == 2;
      assert k < i;
    }
  }

  /** The inner loop: units before i are too large for the spots left. */
  ghost predicate FillLoop(inp: Inputs, among: set<StudentId>, w: WingKey, owed: nat, room: Room, s: State, s': State, units: seq<Unit>,
                           left: seq<Unit>, rs: seq<Result>, free: int, spots: int, i: int)
  {
    && 0 <= i <= |left| && 0 <= spots
    && spots == room.capacity - Occ(s', room.id)
    && free == spots + |rs|
    && (forall k :: 0 <= k < i ==> |left[k]| > spots)
    && Filled(inp, among, w, owed, room, s, s', units, left, rs)
    && PairsBeforeSingles(free, units, left)
  }

  /** What the inner loop is entered with. */
  ghost predicate RoomReady(inp: Inputs, among: set<StudentId>, w: WingKey, owed: nat, room: Room, s: State, units: seq<Unit>) {
    && room in inp.rooms && KeyOf(room) == w
    && Sound(inp, s) && Owing(inp, w, owed, s)
    && Waiting(inp, among, s, units) && PairsFirst(units)
  }

  /** What it leaves: units seated safely, and as many as an optimal packing puts into the room's free beds. */
  ghost predicate RoomDone(inp: Inputs, among: set<StudentId>, w: WingKey, owed: nat, room: Room, s: State, s': State,
                           units: seq<Unit>, left: seq<Unit>, rs: seq<Result>)
  {
    exists free: nat :: free == FreeBeds(s, room) && TookItsShare(free, units, left)
                        && Filled(inp, among, w, owed, room, s, s', units, left, rs)
  }

  lemma FillLoopStart(inp: Inputs, among: set<StudentId>, w: WingKey, owed: nat, room: Room, s: State, units: seq<Unit>, free: int)
    requires RoomReady(inp, among, w, owed, room, s, units) && free == room.capacity - Occ(s, room.id)
    ensures FillLoop(inp, among, w, owed, room, s, s, units, units, [], free, free, 0)
    ensures free == FreeBeds(s, room)
    ensures room in inp.rooms && KeyOf(room) == w
  {
    RoomOfInputs(inp, s, room);
  }

  lemma FillLoopEnd(inp: Inputs, among: set<StudentId>, w: WingKey, owed: nat, room: Room, s: State, s': State, units: seq<Unit>,
                    left: seq<Unit>, rs: seq<Result>, free: int, spots: int, i: int)
    requires FillLoop(inp, among, w, owed, room, s, s', units, left, rs, free, spots, i)
    requires i >= |left| || spots <= 0
    requires free == FreeBeds(s, room)
    ensures RoomDone(inp, among, w, owed, room, s, s', units, left, rs)
  {
    UnitSizes(inp, among, s', left);
    ShareTaken(free, spots, units, left);
  }

  lemma FillLoopStep(inp: Inputs, among: set<StudentId>, w: WingKey, owed: nat, room: Room, s: State, s': State, units: seq<Unit>,
                     left: seq<Unit>, rs: seq<Result>, free: int, spots: int, i: int, groupId: Option<int>)
    requires WellFormed(inp) && room in inp.rooms && KeyOf(room) == w
    requires FillLoop(inp, among, w, owed, room, s, s', units, left, rs, free, spots, i)
    requires i < |left| && |left[i]| <= spots
    ensures FillLoop(inp, among, w, owed, room, s, Seat(s', Ids(left[i]), room.id), units, Remove(left, i),
                     rs + UnitResults(left[i], Some(room.id), groupId, None), free, spots - |left[i]|, i)
    ensures |left[i]| >= 1
  {
    UnitSizes(inp, among, s', left);
    FilledStateStep(inp, among, w, owed, room, s, s', rs, left[i], groupId);
    LeftOverStep(inp, among, s', units, left, |rs|, i, room.id);
    PairsBeforeSinglesStep(free, spots, units, left, i);
    SeatOcc(s', Ids(left[i]), room.id);
  }

  /** The share of one room in an optimal packing; stated so that a step over the room need not look at the numbers. */
  ghost predicate TookItsShare(free: nat, units: seq<Unit>, left: seq<Unit>) {
    forall n: nat :: IsNumber(free, n) ==>
      && Pairs(units) - Pairs(left) == PairsTaken(n, Pairs(units))
      && Singles(units) - Singles(left) == SinglesTaken(n, Pairs(units), Singles(units))
  }

  predicate IsNumber(a: nat, b: nat) {
    a == b
  }

  lemma ShareIs(free: nat, units: seq<Unit>, left: seq<Unit>)
    ensures TookItsShare(free, units, left)
            <==> Pairs(units) - Pairs(left) == PairsTaken(free, Pairs(units))
                 && Singles(units) - Singles(left) == SinglesTaken(free, Pairs(units), Singles(units))
  {
    assert IsNumber(free, free);
  }

  lemma ShareTaken(free: nat, spots: nat, units: seq<Unit>, left: seq<Unit>)
    requires Pairs(left) <= Pairs(units) && Singles(left) <= Singles(units)
    requires free == spots + 2 * (Pairs(units) - Pairs(left)) + (Singles(units) - Singles(left))
    requires forall k :: 0 <= k < |left| ==> 1 <= |left[k]| <= 2
    requires spots == 0 || forall k :: 0 <= k < |left| ==> |left[k]| > spots
    requires PairsBeforeSingles(free, units, left)
    ensures TookItsShare(free, units, left)
  {
    PairExists(left);
  }

  // ---------- Filling one wing ----------

  ghost predicate MembersReady(inp: Inputs, s: State, members: seq<Student>) {
    && Unique(Ids(members)) && Unplaced(s, members)
    && KeptClosed(inp, IdSet(members))
  }

  ghost predicate OnlyInWing(inp: Inputs, w: WingKey, s: State, s': State) {
    forall r :: Occ(s', r) == Occ(s, r) || exists q :: q in WingRooms(inp, w) && q.id == r
  }

  /** The best any placement of the members' whole units into the wing could do. */
  ghost function MostPlaceable(inp: Inputs, s: State, w: WingKey, members: seq<Student>): int {
    var units := Units(inp.roommates, members);
    Best(FreeTotal(s, WingRooms(inp, w)), TwoBedTotal(s, WingRooms(inp, w)), Pairs(units), Singles(units))
  }

  ghost predicate RoomsOfWing(inp: Inputs, w: WingKey, rooms: seq<Room>) {
    && (forall k :: 0 <= k < |rooms| ==> rooms[k] in WingRooms(inp, w))
    && (forall k, m :: 0 <= k < m < |rooms| ==> rooms[k].id != rooms[m].id)
  }

  /** Distinct rooms of the wing, with all of its free beds and two-bed spaces. */
  ghost predicate OpensWing(inp: Inputs, w: WingKey, s: State, rooms: seq<Room>) {
    && RoomsOfWing(inp, w, rooms)
    && FreeTotal(s, rooms) == FreeTotal(s, WingRooms(inp, w))
    && TwoBedTotal(s, rooms) == TwoBedTotal(s, WingRooms(inp, w))
  }

  lemma SortedRoomsOpenWing(inp: Inputs, w: WingKey, s: State, isOpen: Room -> bool, roomKey: Room -> seq<int>)
    requires WellFormed(inp)
    requires forall r :: isOpen(r) <==> Occ(s, r.id) < r.capacity
    ensures OpensWing(inp, w, s, SortBy(Filter(WingRooms(inp, w), isOpen), roomKey))
  {
    SameFilter(WingRooms(inp, w), isOpen, (r: Room) => Occ(s, r.id) < r.capacity);
    TotalsOfOpenRooms(s, WingRooms(inp, w), roomKey);
    SortedRoomsOfWing(inp, w, isOpen, roomKey);
  }

  /** Nothing has been lost so far: seated students plus the best of the remaining rooms is the best of all. */
  ghost predicate StillBest(s: State, rooms: seq<Room>, j: nat, units: seq<Unit>, left: seq<Unit>, seated: nat)
    requires j <= |rooms|
  {
    Best(FreeTotal(s, rooms), TwoBedTotal(s, rooms), Pairs(units), Singles(units))
    == seated + Best(FreeTotal(s, rooms[j..]), TwoBedTotal(s, rooms[j..]), Pairs(left), Singles(left))
  }

  lemma TotalsFrom(s: State, rooms: seq<Room>, j: nat)
    requires j < |rooms|
    ensures FreeTotal(s, rooms[j..]) == FreeBeds(s, rooms[j]) + FreeTotal(s, rooms[j + 1..])
    ensures TwoBedTotal(s, rooms[j..]) == FreeBeds(s, rooms[j]) / 2 + TwoBedTotal(s, rooms[j + 1..])
    ensures 0 <= 2 * TwoBedTotal(s, rooms[j + 1..]) <= FreeTotal(s, rooms[j + 1..])
  {
    assert rooms[j..][0] == rooms[j] && rooms[j..][1..] == rooms[j + 1..];
    TotalsHead(s, rooms[j..]);
    TotalsNonNegative(s, rooms[j + 1..]);
  }

  lemma StillBestStep(s: State, rooms: seq<Room>, j: nat, units: seq<Unit>, left: seq<Unit>, left': seq<Unit>, seated: nat, more: nat)
    requires j < |rooms| && StillBest(s, rooms, j, units, left, seated)
    requires TookItsShare(FreeBeds(s, rooms[j]), left, left')
    requires more == 2 * (Pairs(left) - Pairs(left')) + (Singles(left) - Singles(left'))
    ensures StillBest(s, rooms, j + 1, units, left', seated + more)
  {
    TotalsFrom(s, rooms, j);
    ShareLosesNothing(FreeBeds(s, rooms[j]), FreeTotal(s, rooms[j..]), TwoBedTotal(s, rooms[j..]), FreeTotal(s, rooms[j + 1..]),
                      TwoBedTotal(s, rooms[j + 1..]), left, left');
  }

  lemma ShareLosesNothing(free: nat, beds: int, twoBeds: int, beds': nat, twoBeds': nat, left: seq<Unit>, left': seq<Unit>)
    requires beds == free + beds' && twoBeds == free / 2 + twoBeds' && 2 * twoBeds' <= beds' && TookItsShare(free, left, left')
    ensures Best(beds, twoBeds, Pairs(left), Singles(left))
            == 2 * (Pairs(left) - Pairs(left')) + (Singles(left) - Singles(left')) + Best(beds', twoBeds', Pairs(left'), Singles(left'))
  {
    ShareIs(free, left, left');
    FillStepIsOptimal(free, beds', twoBeds', Pairs(left), Singles(left));
  }

  lemma StillBestEnd(s: State, rooms: seq<Room>, j: nat, units: seq<Unit>, left: seq<Unit>, seated: nat)
    requires j <= |rooms| && StillBest(s, rooms, j, units, left, seated)
    requires j == |rooms| || left == []
    ensures seated == Best(FreeTotal(s, rooms), TwoBedTotal(s, rooms), Pairs(units), Singles(units))
  {
    TotalsNonNegative(s, rooms[j..]);
  }

  /** The loop over the rooms; stated through the number of results so that the loop itself need not look inside. */
  ghost predicate GroupLoop(inp: Inputs, among: set<StudentId>, w: WingKey, s: State, s': State, units: seq<Unit>, left: seq<Unit>,
                            rs: seq<Result>, rooms: seq<Room>, j: int)
  {
    forall n: nat :: IsCount(rs, n) ==>
      WellFormed(inp) && GroupSafe(inp, among, w, s, s', rs) && GroupCourse(inp, among, w, s, s', units, left, n, rooms, j)
  }

  ghost predicate GroupSafe(inp: Inputs, among: set<StudentId>, w: WingKey, s: State, s': State, rs: seq<Result>) {
    Progress(inp, among, s, s', rs) && Owing(inp, w, |rs|, s') && OnlyInWing(inp, w, s, s')
  }

  ghost predicate GroupCourse(inp: Inputs, among: set<StudentId>, w: WingKey, s: State, s': State, units: seq<Unit>, left: seq<Unit>,
                              n: nat, rooms: seq<Room>, j: int)
  {
    && 0 <= j <= |rooms| && OpensWing(inp, w, s, rooms)
    && LeftOver(inp, among, s', units, left, n)
    && (forall k :: j <= k < |rooms| ==> Occ(s', rooms[k].id) == Occ(s, rooms[k].id))
    && StillBest(s, rooms, j, units, left, n)
  }

  lemma GroupLoopStart(inp: Inputs, among: set<StudentId>, w: WingKey, s: State, members: seq<Student>, rooms: seq<Room>)
    requires WellFormed(inp) && Sound(inp, s) && Counted(inp, s) && w in s.wings && MembersReady(inp, s, members)
    requires OpensWing(inp, w, s, rooms) && among == IdSet(members)
    ensures var units := SortUnits(Units(inp.roommates, members));
            GroupLoop(inp, among, w, s, s, units, units, [], rooms, 0)
  {
    var units := SortUnits(Units(inp.roommates, members));
    GroupSafeStart(inp, among, w, s);
    MembersWaiting(inp, among, s, members);
    SortUnitsPairsFirst(Units(inp.roommates, members));
    assert rooms[0..] == rooms;
    assert GroupCourse(inp, among, w, s, s, units, units, 0, rooms, 0);
  }

  lemma GroupSafeStart(inp: Inputs, among: set<StudentId>, w: WingKey, s: State)
    requires Sound(inp, s) && Counted(inp, s) && w in s.wings
    ensures GroupSafe(inp, among, w, s, s, [])
  {
    assert Charge(s, w, 0) == s;
  }

  lemma SortedRoomsOfWing(inp: Inputs, w: WingKey, isOpen: Room -> bool, roomKey: Room -> seq<int>)
    requires WellFormed(inp)
    ensures RoomsOfWing(inp, w, SortBy(Filter(WingRooms(inp, w), isOpen), roomKey))
  {
    var open := Filter(WingRooms(inp, w), isOpen);
    var rooms := SortBy(open, roomKey);
    SortByPermutes(open, roomKey);
    assert Unique(inp.rooms);
    FilterUnique(inp.rooms, OpenIn(w));
    FilterUnique(WingRooms(inp, w), isOpen);
    UniquePermuted(open, rooms);
    forall k | 0 <= k < |rooms|
      ensures rooms[k] in WingRooms(inp, w) && rooms[k] in inp.rooms
    {
      assert rooms[k] in rooms;
    }
    forall k, m | 0 <= k < m < |rooms|
      ensures rooms[k].id != rooms[m].id
    {
    }
  }

  lemma {:induction false} FilterUnique<T(!new)>(xs: seq<T>, p: T -> bool)
    requires Unique(xs)
    ensures Unique(Filter(xs, p))
  {
    if xs != [] {
      var n := |xs| - 1;
      assert xs == xs[..n] + [xs[n]];
      FilterUnique(xs[..n], p);
    }
  }

  /** The next room is in the state FillRoom asks for. */
  lemma GroupLoopRoom(inp: Inputs, among: set<StudentId>, w: WingKey, s: State, s': State, units: seq<Unit>, left: seq<Unit>,
                      rs: seq<Result>, rooms: seq<Room>, j: int)
    requires GroupLoop(inp, among, w, s, s', units, left, rs, rooms, j) && 0 <= j < |rooms|
    ensures WellFormed(inp) && RoomReady(inp, among, w, |rs|, rooms[j], s', left)
  {
    assert IsCount(rs, |rs|);
    assert rooms[j] in WingRooms(inp, w);
  }

  lemma RoomDoneMeans(inp: Inputs, among: set<StudentId>, w: WingKey, owed: nat, room: Room, s: State, s': State, units: seq<Unit>,
                      left: seq<Unit>, rs: seq<Result>)
    requires RoomDone(inp, among, w, owed, room, s, s', units, left, rs)
    ensures FilledState(inp, among, w, owed, room, s, s', rs) && LeftOver(inp, among, s', units, left, |rs|)
    ensures TookItsShare(FreeBeds(s, room), units, left)
  {
  }

  lemma GroupLoopNow(inp: Inputs, among: set<StudentId>, w: WingKey, s: State, s': State, units: seq<Unit>, left: seq<Unit>,
                     rs: seq<Result>, rooms: seq<Room>, j: int)
    ensures GroupLoop(inp, among, w, s, s', units, left, rs, rooms, j)
            <==> WellFormed(inp) && GroupSafe(inp, among, w, s, s', rs) && GroupCourse(inp, among, w, s, s', units, left, |rs|, rooms, j)
  {
    assert IsCount(rs, |rs|);
  }

  lemma GroupStaysSafe(inp: Inputs, among: set<StudentId>, w: WingKey, s: State, s': State, s'': State, units: seq<Unit>, left: seq<Unit>,
                       left': seq<Unit>, rs: seq<Result>, more: seq<Result>, rooms: seq<Room>, j: int)
    requires GroupLoop(inp, among, w, s, s', units, left, rs, rooms, j) && 0 <= j < |rooms|
    requires RoomDone(inp, among, w, |rs|, rooms[j], s', s'', left, left', more)
    ensures WellFormed(inp) && GroupSafe(inp, among, w, s, s'', rs + more)
  {
    GroupLoopNow(inp, among, w, s, s', units, left, rs, rooms, j);
    RoomDoneMeans(inp, among, w, |rs|, rooms[j], s', s'', left, left', more);
    GroupSafeStep(inp, among, w, s, s', s'', rs, more, rooms[j]);
  }

  lemma GroupStaysOnCourse(inp: Inputs, among: set<StudentId>, w: WingKey, s: State, s': State, s'': State, units: seq<Unit>,
                           left: seq<Unit>, left': seq<Unit>, rs: seq<Result>, more: seq<Result>, rooms: seq<Room>, j: int)
    requires GroupLoop(inp, among, w, s, s', units, left, rs, rooms, j) && 0 <= j < |rooms|
    requires RoomDone(inp, among, w, |rs|, rooms[j], s', s'', left, left', more)
    ensures GroupCourse(inp, among, w, s, s'', units, left', |rs + more|, rooms, j + 1)
  {
    GroupLoopNow(inp, among, w, s, s', units, left, rs, rooms, j);
    RoomDoneMeans(inp, among, w, |rs|, rooms[j], s', s'', left, left', more);
    GroupCourseStep(inp, among, w, s, s', s'', units, left, left', |rs|, |more|, rooms, j);
  }

  lemma GroupLoopStep(inp: Inputs, among: set<StudentId>, w: WingKey, s: State, s': State, s'': State, units: seq<Unit>, left: seq<Unit>,
                      left': seq<Unit>, rs: seq<Result>, more: seq<Result>, rooms: seq<Room>, j: int)
    requires GroupLoop(inp, among, w, s, s', units, left, rs, rooms, j) && 0 <= j < |rooms|
    requires RoomDone(inp, among, w, |rs|, rooms[j], s', s'', left, left', more)
    ensures GroupLoop(inp, among, w, s, s'', units, left', rs + more, rooms, j + 1)
  {
    GroupStaysSafe(inp, among, w, s, s', s'', units, left, left', rs, more, rooms, j);
    GroupStaysOnCourse(inp, among, w, s, s', s'', units, left, left', rs, more, rooms, j);
    GroupLoopNow(inp, among, w, s, s'', units, left', rs + more, rooms, j + 1);
  }

  lemma GroupSafeStep(inp: Inputs, among: set<StudentId>, w: WingKey, s: State, s': State, s'': State, rs: seq<Result>, more: seq<Result>, room: Room)
    requires GroupSafe(inp, among, w, s, s', rs) && FilledState(inp, among, w, |rs|, room, s', s'', more)
    requires room in WingRooms(inp, w)
    ensures GroupSafe(inp, among, w, s, s'', rs + more)
  {
    ProgressThen(inp, among, s, s', s'', rs, more);
    OwingCount(inp, w, |rs| + |more|, |rs + more|, s'');
  }

  lemma GroupCourseStep(inp: Inputs, among: set<StudentId>, w: WingKey, s: State, s': State, s'': State, units: seq<Unit>, left: seq<Unit>,
                        left': seq<Unit>, n: nat, m: nat, rooms: seq<Room>, j: int)
    requires GroupCourse(inp, among, w, s, s', units, left, n, rooms, j) && j < |rooms|
    requires LeftOver(inp, among, s'', left, left', m) && TookItsShare(FreeBeds(s', rooms[j]), left, left')
    requires forall r :: r != rooms[j].id ==> Occ(s'', r) == Occ(s', r)
    ensures GroupCourse(inp, among, w, s, s'', units, left', n + m, rooms, j + 1)
  {
    assert FreeBeds(s', rooms[j]) == FreeBeds(s, rooms[j]);
    StillBestStep(s, rooms, j, units, left, left', n, m);
  }

  lemma OwingCount(inp: Inputs, w: WingKey, n: nat, m: nat, s: State)
    requires n == m && Owing(inp, w, n, s)
    ensures Owing(inp, w, m, s)
  {
  }

  lemma GroupLoopEnd(inp: Inputs, among: set<StudentId>, w: WingKey, s: State, s': State, members: seq<Student>, left: seq<Unit>,
                     rs: seq<Result>, rooms: seq<Room>, j: nat)
    requires WellFormed(inp) && MembersReady(inp, s, members)
    requires GroupLoop(inp, among, w, s, s', SortUnits(Units(inp.roommates, members)), left, rs, rooms, j)
    requires j >= |rooms| || |left| == 0
    ensures |rs| == MostPlaceable(inp, s, w, members)
    ensures |members| - |Flat(left)| == |rs|
    ensures Advanced(inp, among, s, Charge(s', w, |rs|), rs) && Counted(inp, Charge(s', w, |rs|))
    ensures OnlyInWing(inp, w, s, Charge(s', w, |rs|))
  {
    var units := Units(inp.roommates, members);
    assert IsCount(rs, |rs|);
    StillBestEnd(s, rooms, j, SortUnits(units), left, |rs|);
    SortUnitsPairsFirst(units);
    CountPermuted(units, SortUnits(units));
    SeatedCount(inp, among, s, s', members, SortUnits(units), left, |rs|);
    GroupSafeEnd(inp, among, w, s, s', rs);
  }

  lemma GroupSafeEnd(inp: Inputs, among: set<StudentId>, w: WingKey, s: State, s': State, rs: seq<Result>)
    requires GroupSafe(inp, among, w, s, s', rs)
    ensures Advanced(inp, among, s, Charge(s', w, |rs|), rs) && Counted(inp, Charge(s', w, |rs|))
    ensures OnlyInWing(inp, w, s, Charge(s', w, |rs|))
  {
    ProgressIsAdvance(inp, among, s, s', rs);
    ChargedAdvances(inp, among, w, s, s', rs, |rs|);
    ChargedInWing(inp, w, s, s', |rs|);
  }

  lemma ChargedAdvances(inp: Inputs, among: set<StudentId>, w: WingKey, s: State, s': State, rs: seq<Result>, n: int)
    requires Advanced(inp, among, s, s', rs)
    ensures Advanced(inp, among, s, Charge(s', w, n), rs)
  {
    ChargeOnlyWings(inp, s', w, n);
    ChargedReports(s, s', w, n, rs);
  }

  lemma ChargedReports(s: State, s': State, w: WingKey, n: int, rs: seq<Result>)
    requires Reports(s, s', rs) && Grows(s, s')
    ensures Reports(s, Charge(s', w, n), rs) && Grows(s, Charge(s', w, n))
  {
  }

  lemma ChargedInWing(inp: Inputs, w: WingKey, s: State, s': State, n: int)
    requires OnlyInWing(inp, w, s, s')
    ensures OnlyInWing(inp, w, s, Charge(s', w, n))
  {
    ChargeOnlyWings(inp, s', w, n);
  }

  lemma SeatedCount(inp: Inputs, among: set<StudentId>, s: State, s': State, members: seq<Student>, units: seq<Unit>, left: seq<Unit>, n: nat)
    requires IsMatching(inp.roommates) && MembersReady(inp, s, members)
    requires multiset(units) == multiset(Units(inp.roommates, members)) && LeftOver(inp, among, s', units, left, n)
    ensures |members| - |Flat(left)| == n
  {
    CountPermuted(Units(inp.roommates, members), units);
    UnitsCountMembers(inp, s, members);
    FlatSize(left);
  }

  /** The units of distinct members have as many students as there are members. */
  lemma UnitsCountMembers(inp: Inputs, s: State, members: seq<Student>)
    requires IsMatching(inp.roommates) && MembersReady(inp, s, members)
    ensures var units := Units(inp.roommates, members); 2 * Pairs(units) + Singles(units) == |members|
  {
    var units := Units(inp.roommates, members);
    PartitionOfUnits(inp.roommates, members);
    FlatSize(units);
    UniqueIdsCount(members);
    UniqueIdsCount(Flat(units));
  }

  lemma {:induction false} UniqueIdsCount(students: seq<Student>)
    requires Unique(Ids(students))
    ensures |IdSet(students)| == |students|
  {
    if students != [] {
      var n := |students| - 1;
      assert students == students[..n] + [students[n]];
      UniqueSplit(students[..n], [students[n]]);
      UniqueIdsCount(students[..n]);
      assert IdSet(students) == IdSet(students[..n]) + {students[n].userId};
    }
  }

  ghost predicate EligibleWing(inp: Inputs, student: Student, w: WingKey) {
    exists r :: r in inp.rooms && ValidRoom(inp, student, r) && KeyOf(r) == w
  }

  /** With the priorities just marked for the student, sorting by the room fields is the ranking. */
  lemma RankedByFields(inp: Inputs, s: State, student: Student, priorities: map<RoomId, int>)
    requires forall r :: r in ValidRooms(inp, student) ==> r.id in priorities && priorities[r.id] == MatchPriority(inp, student, r)
    ensures SortBy(ValidRooms(inp, student), (r: Room) =>
              var preference: int := IndexOf(student.hostelPreferences, r.hostelId);
              var occupants: int := if r.id in s.rooms then |s.rooms[r.id]| else 0;
              [-(if r.id in priorities then priorities[r.id] else 0), preference, -occupants, r.id])
            == Ranked(inp, s, student)
  {
    SortByCongruence(ValidRooms(inp, student), (r: Room) =>
      var preference: int := IndexOf(student.hostelPreferences, r.hostelId);
      var occupants: int := if r.id in s.rooms then |s.rooms[r.id]| else 0;
      [-(if r.id in priorities then priorities[r.id] else 0), preference, -occupants, r.id],
      r => RankKey(inp, s, student, r));
  }

  lemma NewRoomId(inp: Inputs, k: nat)
    requires WellFormed(inp) && k < |inp.rooms|
    ensures forall r :: r in inp.rooms[..k] ==> r.id != inp.rooms[k].id
  {
    forall r | r in inp.rooms[..k]
      ensures r.id != inp.rooms[k].id
    {
      var m :| 0 <= m < k && inp.rooms[m] == r;
    }
  }

  /** Priorities after the valid rooms were marked for a student: theirs are the student's, the rest unchanged. */
  ghost predicate Marked(inp: Inputs, student: Student, valid: seq<Room>, before: map<RoomId, int>, now: map<RoomId, int>) {
    && (forall r :: r in valid ==> r.id in now && now[r.id] == MatchPriority(inp, student, r))
    && (forall id :: id in before ==> id in now && (now[id] == before[id] || exists r :: r in valid && r.id == id))
    && (forall id :: id in now ==> id in before || exists r :: r in valid && r.id == id)
  }

  lemma MarkOne(inp: Inputs, student: Student, valid: seq<Room>, before: map<RoomId, int>, now: map<RoomId, int>, room: Room)
    requires Marked(inp, student, valid, before, now)
    requires forall r :: r in valid ==> r.id != room.id
    ensures Marked(inp, student, valid + [room], before, now[room.id := MatchPriority(inp, student, room)])
  {
    assert room in valid + [room];
    forall r | r in valid
      ensures r in valid + [room]
    {
    }
  }

  /** The keys of the open wings, in the order in which the rooms first name them. */
  function WingOrder(rooms: seq<Room>): seq<WingKey> {
    if rooms == [] then []
    else
      var last, before := rooms[|rooms| - 1], WingOrder(rooms[..|rooms| - 1]);
      if last.status.Available? && KeyOf(last) !in before then before + [KeyOf(last)] else before
  }

  /**
   The last key in the order: that of an open room with which its wing first
   appears, when no open room after it is the first of another wing.
   */
  lemma {:induction false} LastWingIs(rooms: seq<Room>, k: nat)
    requires k < |rooms| && rooms[k].status.Available? && forall j :: 0 <= j < k && rooms[j].status.Available? ==> KeyOf(rooms[j]) != KeyOf(rooms[k])
    requires forall m :: k < m < |rooms| && rooms[m].status.Available? ==>
               exists j :: 0 <= j <= k && rooms[j].status.Available? && KeyOf(rooms[j]) == KeyOf(rooms[m])
    ensures WingOrder(rooms) != [] && WingOrder(rooms)[|WingOrder(rooms)| - 1] == KeyOf(rooms[k])
  {
    var n := |rooms| - 1;
    WingOrderHolds(rooms[..n]);
    if k < n {
      LastWingIs(rooms[..n], k);
      if rooms[n].status.Available? {
        var j :| 0 <= j <= k && rooms[j].status.Available? && KeyOf(rooms[j]) == KeyOf(rooms[n]);
        assert rooms[..n][j] == rooms[j];
      }
    }
  }

  lemma {:induction false} WingOrderHolds(rooms: seq<Room>)
    ensures forall w :: w in WingOrder(rooms) <==> exists k :: 0 <= k < |rooms| && rooms[k].status.Available? && KeyOf(rooms[k]) == w
  {
    if rooms != [] {
      var n := |rooms| - 1;
      WingOrderHolds(rooms[..n]);
      forall w
        ensures w in WingOrder(rooms) <==> exists k :: 0 <= k < |rooms| && rooms[k].status.Available? && KeyOf(rooms[k]) == w
      {
        if k :| 0 <= k < |rooms| && rooms[k].status.Available? && KeyOf(rooms[k]) == w {
          assert k < n ==> rooms[..n][k] == rooms[k];
        }
        if k :| 0 <= k < n && rooms[..n][k].status.Available? && KeyOf(rooms[..n][k]) == w {
          assert rooms[k] == rooms[..n][k];
        }
      }
    }
  }

  /** The wings of a list of rooms: one key per open wing, in order, with the wing's open rooms in order. */
  ghost predicate WingsOf(rooms: seq<Room>, order: seq<WingKey>, wings: map<WingKey, seq<Room>>) {
    order == WingOrder(rooms) && Lists(order, wings.Keys) && HoldsRooms(rooms, wings)
  }

  ghost predicate HoldsRooms(rooms: seq<Room>, wings: map<WingKey, seq<Room>>) {
    wings.Keys == OpenKeys(rooms) && forall w :: w in wings ==> wings[w] == Filter(rooms, OpenIn(w))
  }

  ghost predicate Lists(order: seq<WingKey>, keys: set<WingKey>) {
    (forall w :: w in order <==> w in keys) && Unique(order)
  }

  lemma ListsOneMore(order: seq<WingKey>, keys: set<WingKey>, w: WingKey)
    requires Lists(order, keys) && w !in keys
    ensures Lists(order + [w], keys + {w})
  {
  }

  lemma WingOrderNext(seen: seq<Room>, room: Room)
    ensures WingOrder(seen + [room])
            == WingOrder(seen) + if room.status.Available? && KeyOf(room) !in WingOrder(seen) then [KeyOf(room)] else []
  {
    assert (seen + [room])[..|seen|] == seen;
  }

  lemma WingsShut(seen: seq<Room>, room: Room, order: seq<WingKey>, wings: map<WingKey, seq<Room>>)
    requires WingsOf(seen, order, wings) && !room.status.Available?
    ensures WingsOf(seen + [room], order, wings)
  {
    WingOrderNext(seen, room);
    OpenKeysNext(seen, room);
    forall w | w in wings
      ensures wings[w] == Filter(seen + [room], OpenIn(w))
    {
      RoomJoins(seen, room, w);
    }
  }

  lemma WingsKnown(seen: seq<Room>, room: Room, order: seq<WingKey>, wings: map<WingKey, seq<Room>>)
    requires WingsOf(seen, order, wings) && room.status.Available? && KeyOf(room) in wings
    ensures WingsOf(seen + [room], order, wings[KeyOf(room) := wings[KeyOf(room)] + [room]])
  {
    WingOrderNext(seen, room);
    HoldsKnownWing(seen, room, wings);
  }

  lemma KeyIsKnown(wings: map<WingKey, seq<Room>>, w: WingKey, rooms: seq<Room>)
    requires w in wings
    ensures wings[w := rooms].Keys == wings.Keys && wings.Keys + {w} == wings.Keys
  {
  }

  lemma HoldsKnownWing(seen: seq<Room>, room: Room, wings: map<WingKey, seq<Room>>)
    requires HoldsRooms(seen, wings) && room.status.Available? && KeyOf(room) in wings
    ensures HoldsRooms(seen + [room], wings[KeyOf(room) := wings[KeyOf(room)] + [room]])
    ensures wings[KeyOf(room) := wings[KeyOf(room)] + [room]].Keys == wings.Keys
  {
    var grown := wings[KeyOf(room)] + [room];
    KeyIsKnown(wings, KeyOf(room), grown);
    OpenKeysNext(seen, room);
    forall w | w in wings
      ensures (if w == KeyOf(room) then grown else wings[w]) == Filter(seen + [room], OpenIn(w))
    {
      RoomJoins(seen, room, w);
    }
  }

  lemma OpenKeysNext(seen: seq<Room>, room: Room)
    ensures OpenKeys(seen + [room]) == OpenKeys(seen) + (if room.status.Available? then {KeyOf(room)} else {})
  {
  }

  lemma RoomJoins(seen: seq<Room>, room: Room, w: WingKey)
    ensures Filter(seen + [room], OpenIn(w))
            == if room.status.Available? && KeyOf(room) == w then Filter(seen, OpenIn(w)) + [room] else Filter(seen, OpenIn(w))
  {
    FilterAppend(seen, room, OpenIn(w));
  }

  lemma WingsNew(seen: seq<Room>, room: Room, order: seq<WingKey>, wings: map<WingKey, seq<Room>>)
    requires WingsOf(seen, order, wings) && room.status.Available? && KeyOf(room) !in wings
    ensures WingsOf(seen + [room], order + [KeyOf(room)], wings[KeyOf(room) := [room]])
  {
    ListsOneMore(order, wings.Keys, KeyOf(room));
    WingOrderNext(seen, room);
    HoldsNewWing(seen, room, wings);
  }

  lemma HoldsNewWing(seen: seq<Room>, room: Room, wings: map<WingKey, seq<Room>>)
    requires HoldsRooms(seen, wings) && room.status.Available? && KeyOf(room) !in wings
    ensures HoldsRooms(seen + [room], wings[KeyOf(room) := [room]])
    ensures wings[KeyOf(room) := [room]].Keys == wings.Keys + {KeyOf(room)}
  {
    var wings' := wings[KeyOf(room) := [room]];
    assert wings'.Keys == wings.Keys + {KeyOf(room)};
    OpenKeysNext(seen, room);
    FilterNone(seen, OpenIn(KeyOf(room)));
    forall w | w in wings'
      ensures wings'[w] == Filter(seen + [room], OpenIn(w))
    {
      RoomJoins(seen, room, w);
    }
  }

  lemma {:induction false} FilterNone<T(!new)>(xs: seq<T>, p: T -> bool)
    requires forall x :: x in xs ==> !p(x)
    ensures Filter(xs, p) == []
  {
    if xs != [] {
      assert xs == xs[..|xs| - 1] + [xs[|xs| - 1]];
      FilterNone(xs[..|xs| - 1], p);
    }
  }

  lemma {:induction false} SameFilter<T(!new)>(xs: seq<T>, p: T -> bool, q: T -> bool)
    requires forall x :: x in xs ==> p(x) == q(x)
    ensures Filter(xs, p) == Filter(xs, q)
  {
    if xs != [] {
      var n := |xs| - 1;
      assert xs == xs[..n] + [xs[n]];
      SameFilter(xs[..n], p, q);
    }
  }

  lemma SeatOneMore(s: State, ids: seq<StudentId>, id: StudentId, room: RoomId)
    ensures Seat(Seat(s, ids, room), [id], room) == Seat(s, ids + [id], room)
  {
    var before := if room in s.rooms then s.rooms[room] else [];
    assert before + (ids + [id]) == before + ids + [id];
    assert Seat(Seat(s, ids, room), [id], room).rooms[room] == Seat(s, ids + [id], room).rooms[room];
    PlacedOneMore(s.placed, ids, id, room);
  }

  lemma LockOneMore(placed: map<StudentId, RoomId>, ids: seq<StudentId>, id: StudentId, room: RoomId)
    ensures (placed + map i | i in ids :: room)[id := room] == placed + map i | i in ids + [id] :: room
  {
  }

  lemma PlacedOneMore(placed: map<StudentId, RoomId>, ids: seq<StudentId>, id: StudentId, room: RoomId)
    ensures (placed + map i | i in ids :: room) + (map i | i in [id] :: room) == placed + map i | i in ids + [id] :: room
  {
  }
}
