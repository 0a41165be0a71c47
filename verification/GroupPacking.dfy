/**
 What placing part of a group into one wing preserves, and how the rooms of
 the wing add up: free beds, two-bed spaces, and what the wing counter owes
 while a placement is underway.
 */
module GroupPacking {
  import opened Common
  import opened AllocationModel
  import opened AtomicUnits
  import opened Individuals
  import opened WingPacking

  // ---------- The rooms of a wing ----------

  function OpenIn(w: WingKey): Room -> bool {
    (r: Room) => r.status.Available? && KeyOf(r) == w
  }

  function WingRooms(inp: Inputs, w: WingKey): seq<Room> {
    Filter(inp.rooms, OpenIn(w))
  }

  function FreeBeds(s: State, room: Room): nat {
    if Occ(s, room.id) <= room.capacity then room.capacity - Occ(s, room.id) else 0
  }

  function FreeTotal(s: State, rooms: seq<Room>): int {
    Total(rooms, (r: Room) => FreeBeds(s, r))
  }

  function TwoBedTotal(s: State, rooms: seq<Room>): int {
    Total(rooms, (r: Room) => FreeBeds(s, r) / 2)
  }

  lemma {:induction false} TotalsNonNegative(s: State, rooms: seq<Room>)
    ensures 0 <= 2 * TwoBedTotal(s, rooms) <= FreeTotal(s, rooms)
  {
    if rooms != [] {
      TotalsNonNegative(s, rooms[..|rooms| - 1]);
    }
  }

  lemma TotalsHead(s: State, rooms: seq<Room>)
    requires |rooms| > 0
    ensures FreeTotal(s, rooms) == FreeBeds(s, rooms[0]) + FreeTotal(s, rooms[1..])
    ensures TwoBedTotal(s, rooms) == FreeBeds(s, rooms[0]) / 2 + TwoBedTotal(s, rooms[1..])
  {
    var one := [rooms[0]];
    assert rooms == one + rooms[1..];
    TotalConcat(one, rooms[1..], (r: Room) => FreeBeds(s, r));
    TotalConcat(one, rooms[1..], (r: Room) => FreeBeds(s, r) / 2);
  }

  /** Dropping full rooms and reordering the rest changes no total. */
  lemma TotalsOfOpenRooms(s: State, rooms: seq<Room>, key: Room -> seq<int>)
    ensures var open := SortBy(Filter(rooms, (r: Room) => Occ(s, r.id) < r.capacity), key);
            FreeTotal(s, open) == FreeTotal(s, rooms) && TwoBedTotal(s, open) == TwoBedTotal(s, rooms)
  {
    var p := (r: Room) => Occ(s, r.id) < r.capacity;
    var kept := Filter(rooms, p);
    SortByPermutes(kept, key);
    TotalPermuted(SortBy(kept, key), kept, (r: Room) => FreeBeds(s, r));
    TotalPermuted(SortBy(kept, key), kept, (r: Room) => FreeBeds(s, r) / 2);
    TotalFiltered(rooms, p, (r: Room) => FreeBeds(s, r));
    TotalFiltered(rooms, p, (r: Room) => FreeBeds(s, r) / 2);
  }

  /** The free beds counted room by room are the free beds of the wing. */
  lemma WingFreeBeds(inp: Inputs, s: State, w: WingKey)
    requires WithinCapacity(inp, s)
    ensures FreeTotal(s, WingRooms(inp, w)) == FreeIn(inp.rooms, s, w)
  {
    forall r | r in inp.rooms
      ensures Occ(s, r.id) <= r.capacity
    {
      var k :| 0 <= k < |inp.rooms| && inp.rooms[k] == r;
    }
    FreeOfPrefix(inp.rooms, s, w);
  }

  lemma {:induction false} FreeOfPrefix(rooms: seq<Room>, s: State, w: WingKey)
    requires forall r :: r in rooms ==> Occ(s, r.id) <= r.capacity
    ensures FreeTotal(s, Filter(rooms, OpenIn(w))) == FreeIn(rooms, s, w)
  {
    if rooms != [] {
      var n := |rooms| - 1;
      assert rooms == rooms[..n] + [rooms[n]];
      FreeOfPrefix(rooms[..n], s, w);
      FreeTotalAppend(s, Filter(rooms[..n], OpenIn(w)), rooms[n]);
      assert Filter(rooms[..n], OpenIn(w)) + [] == Filter(rooms[..n], OpenIn(w));
    }
  }

  lemma FreeTotalAppend(s: State, rooms: seq<Room>, room: Room)
    ensures FreeTotal(s, rooms + [room]) == FreeTotal(s, rooms) + FreeBeds(s, room)
  {
  }

  // ---------- Units waiting to be placed ----------

  /** The units share no student. */
  ghost predicate Apart(units: seq<Unit>) {
    && Unique(units)
    && (forall u :: u in units ==> Unique(Ids(u)))
    && (forall u, v :: u in units && v in units && u != v ==> IdSet(u) !! IdSet(v))
  }

  ghost predicate Placeable(inp: Inputs, among: set<StudentId>, s: State, u: Unit) {
    && 1 <= |u| <= 2
    && Unplaced(s, u)
    && IdSet(u) <= among
    && KeptClosed(inp, IdSet(u))
  }

  ghost predicate Waiting(inp: Inputs, among: set<StudentId>, s: State, units: seq<Unit>) {
    Apart(units) && forall u :: u in units ==> Placeable(inp, among, s, u)
  }

  lemma WaitingAfterSeat(inp: Inputs, among: set<StudentId>, s: State, units: seq<Unit>, i: nat, room: RoomId)
    requires Waiting(inp, among, s, units) && i < |units|
    ensures Waiting(inp, among, Seat(s, Ids(units[i]), room), Remove(units, i))
  {
    IdsOfUnit(units[i]);
    var rest := Remove(units, i);
    forall u | u in rest
      ensures Placeable(inp, among, Seat(s, Ids(units[i]), room), u)
    {
      assert Placeable(inp, among, s, u) && IdSet(u) !! IdSet(units[i]);
    }
  }

  lemma {:induction false} UnitsApart(units: seq<Unit>)
    requires Unique(Ids(Flat(units))) && forall u :: u in units ==> |u| >= 1
    ensures Apart(units)
  {
    if units != [] {
      var n := |units| - 1;
      LastUnit(units);
      assert Flat(units) == Flat(units[..n]) + units[n];
      UniqueSplit(Flat(units[..n]), units[n]);
      UnitsApart(units[..n]);
      forall u: Unit | u in units[..n]
        ensures IdSet(u) <= IdSet(Flat(units[..n])) && u != units[n]
      {
        UnitInFlat(units[..n], u);
        assert u[0].userId in IdSet(u);
      }
    }
  }

  lemma ApartPermuted(a: seq<Unit>, b: seq<Unit>)
    requires Apart(a) && multiset(a) == multiset(b)
    ensures Apart(b)
  {
    SameElements(a, b);
    UniquePermuted(a, b);
  }

  /** The atomic units of unplaced members, pairs first, are waiting. */
  lemma MembersWaiting(inp: Inputs, among: set<StudentId>, s: State, members: seq<Student>)
    requires IsMatching(inp.roommates) && Unplaced(s, members) && IdSet(members) <= among
    requires KeptClosed(inp, IdSet(members))
    ensures Waiting(inp, among, s, SortUnits(Units(inp.roommates, members)))
  {
    var units := Units(inp.roommates, members);
    PartitionOfUnits(inp.roommates, members);
    UnitsApart(units);
    SortUnitsPairsFirst(units);
    ApartPermuted(units, SortUnits(units));
    forall u | u in units
      ensures Placeable(inp, among, s, u)
    {
      ProperUnitPlaceable(inp, among, s, members, u);
    }
  }

  lemma ProperUnitPlaceable(inp: Inputs, among: set<StudentId>, s: State, members: seq<Student>, u: Unit)
    requires IsMatching(inp.roommates) && Unplaced(s, members) && IdSet(members) <= among
    requires ProperUnit(inp.roommates, members, u)
    requires KeptClosed(inp, IdSet(members))
    ensures Placeable(inp, among, s, u)
  {
  }

  lemma ProperUnitClosed(inp: Inputs, members: seq<Student>, u: Unit)
    requires IsMatching(inp.roommates) && ProperUnit(inp.roommates, members, u)
    requires KeptClosed(inp, IdSet(members))
    ensures KeptClosed(inp, IdSet(u))
  {
  }

  // ---------- Progress of a placement ----------

  function ReportedIds(rs: seq<Result>): set<StudentId> {
    set r | r in rs :: r.studentId
  }

  /** rs reports exactly the students placed between s and s', once each, with their rooms. */
  ghost predicate Reports(s: State, s': State, rs: seq<Result>) {
    && (forall i, j :: 0 <= i < j < |rs| ==> rs[i].studentId != rs[j].studentId)
    && (forall r :: r in rs ==> r.studentId !in s.placed && r.studentId in s'.placed && r.roomId == Some(s'.placed[r.studentId]))
    && s'.placed.Keys == s.placed.Keys + ReportedIds(rs)
  }

  lemma ReportsThen(s: State, s': State, s'': State, a: seq<Result>, b: seq<Result>)
    requires Reports(s, s', a) && Reports(s', s'', b) && Grows(s', s'')
    ensures Reports(s, s'', a + b)
  {
  }

  lemma SeatReports(s: State, unit: Unit, room: RoomId, groupId: Option<int>)
    requires Unique(Ids(unit)) && Unplaced(s, unit)
    ensures Reports(s, Seat(s, Ids(unit), room), UnitResults(unit, Some(room), groupId, None))
  {
    IdsOfUnit(unit);
    var rs := UnitResults(unit, Some(room), groupId, None);
    forall i, j | 0 <= i < j < |rs|
      ensures rs[i].studentId != rs[j].studentId
    {
      assert Ids(unit)[i] != Ids(unit)[j];
    }
    forall id | id in IdSet(unit)
      ensures id in ReportedIds(rs)
    {
      assert id in Ids(unit);
      var i :| 0 <= i < |unit| && Ids(unit)[i] == id;
      assert rs[i] in rs && rs[i].studentId == id;
    }
  }

  /** Safety of a placement phase among the given students that started in s0 and has reported rs. */
  ghost predicate Advanced(inp: Inputs, among: set<StudentId>, s0: State, s: State, rs: seq<Result>) {
    && Sound(inp, s)
    && Grows(s0, s)
    && (KeptTogether(inp, s0) ==> KeptTogether(inp, s))
    && Reports(s0, s, rs)
    && s.placed.Keys <= s0.placed.Keys + among
  }

  lemma AdvancedThen(inp: Inputs, among: set<StudentId>, s: State, s': State, s'': State, a: seq<Result>, b: seq<Result>)
    requires Advanced(inp, among, s, s', a) && Advanced(inp, among, s', s'', b)
    ensures Advanced(inp, among, s, s'', a + b)
  {
    ReportsThen(s, s', s'', a, b);
  }

  /** Counters are exact once the n students seated in wing w are charged to it. */
  ghost predicate Owing(inp: Inputs, w: WingKey, n: nat, s: State) {
    w in s.wings && Counted(inp, Charge(s, w, n))
  }

  lemma SeatAdvances(inp: Inputs, among: set<StudentId>, s: State, unit: Unit, room: Room, groupId: Option<int>)
    requires WellFormed(inp) && Sound(inp, s) && room in inp.rooms
    requires Placeable(inp, among, s, unit) && Unique(Ids(unit)) && Fits(s, room, |unit|)
    ensures Advanced(inp, among, s, Seat(s, Ids(unit), room.id), UnitResults(unit, Some(room.id), groupId, None))
  {
    IdsOfUnit(unit);
    SeatKeepsSound(inp, s, Ids(unit), room);
    SeatGrows(s, Ids(unit), room.id);
    SeatReports(s, unit, room.id, groupId);
    if KeptTogether(inp, s) {
      SeatKeepsKept(inp, s, Ids(unit), room.id);
    }
  }

  lemma SeatOwes(inp: Inputs, w: WingKey, n: nat, s: State, unit: Unit, room: Room)
    requires WellFormed(inp) && Owing(inp, w, n, s) && room in inp.rooms && KeyOf(room) == w
    ensures Owing(inp, w, n + |unit|, Seat(s, Ids(unit), room.id))
  {
    SeatAndChargeCounted(inp, Charge(s, w, n), Ids(unit), room);
    var a := Charge(Seat(Charge(s, w, n), Ids(unit), room.id), w, |unit|);
    var b := Charge(Seat(s, Ids(unit), room.id), w, n + |unit|);
    assert a.wings == b.wings;
    assert a == b;
  }

  // ---------- Consequences for a whole group ----------

  /**
   A group of singles no larger than the wing counter finds its beds, so the
   pass places it entirely; with pairs it does so exactly when there are
   enough two-bed spaces.
   */
  lemma GroupFitsIff(inp: Inputs, s: State, w: WingKey, pairs: nat, singles: nat)
    requires WithinCapacity(inp, s) && Counted(inp, s) && w in s.wings
    requires 2 * pairs + singles <= s.wings[w]
    ensures Best(FreeTotal(s, WingRooms(inp, w)), TwoBedTotal(s, WingRooms(inp, w)), pairs, singles) == 2 * pairs + singles
            <==> pairs <= TwoBedTotal(s, WingRooms(inp, w))
    ensures pairs == 0 ==>
              Best(FreeTotal(s, WingRooms(inp, w)), TwoBedTotal(s, WingRooms(inp, w)), pairs, singles) == singles
  {
    CounterVersusFreeBeds(inp, s, w);
    WingFreeBeds(inp, s, w);
    TotalsNonNegative(s, WingRooms(inp, w));
    WholeGroupFitsIff(FreeTotal(s, WingRooms(inp, w)), TwoBedTotal(s, WingRooms(inp, w)), pairs, singles);
  }

  /** The free beds of the listed rooms, in the order of the list. */
  function FreeList(s: State, rooms: seq<Room>): (r: seq<nat>)
    ensures |r| == |rooms|
    ensures forall i :: 0 <= i < |rooms| ==> r[i] == FreeBeds(s, rooms[i])
  {
    seq(|rooms|, i requires 0 <= i < |rooms| => FreeBeds(s, rooms[i]))
  }

  lemma {:induction false} FreeListTotals(s: State, rooms: seq<Room>)
    ensures Beds(FreeList(s, rooms)) == FreeTotal(s, rooms)
    ensures TwoBeds(FreeList(s, rooms)) == TwoBedTotal(s, rooms)
  {
    if rooms != [] {
      var n := |rooms| - 1;
      FreeListTotals(s, rooms[..n]);
      assert FreeList(s, rooms)[..n] == FreeList(s, rooms[..n]);
    }
  }

  /** No way of putting whole units into the rooms of the wing houses more students than Best of its totals. */
  lemma BestOfWingIsMaximum(inp: Inputs, s: State, w: WingKey, units: seq<Unit>, alt: seq<Option<nat>>)
    requires Feasible(FreeList(s, WingRooms(inp, w)), units, alt)
    requires forall u :: u in units ==> 1 <= |u| <= 2
    ensures Housed(units, alt)
            <= Best(FreeTotal(s, WingRooms(inp, w)), TwoBedTotal(s, WingRooms(inp, w)), Pairs(units), Singles(units))
  {
    FreeListTotals(s, WingRooms(inp, w));
    NoPlacementBeatsBest(FreeList(s, WingRooms(inp, w)), units, alt);
  }
}
