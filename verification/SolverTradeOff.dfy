/**
 Where the objective of the CP-SAT mode stops putting beds first: a chain of
 rooms in which housing the last student makes all the others change rooms.
 The chain is given for every length; its two extreme allocations are valued,
 and every maximiser is shown to leave a student without a bed once the chain
 is long enough.
 */
module SolverTradeOff {
  import opened Common
  import opened Rules
  import opened AllocationModel
  import opened InitialState
  import opened SolverModel
  import opened SolverObjective

  // ---------- The chain ----------

  // Rooms 0 to 2n of two beds each, every one a hostel of its own. A student of
  // year y may enter rooms y - 1 and y only. There is a roommate pair for each
  // odd year and a single student for each even one. The single students live
  // in the odd rooms, and keep them as their current rooms.

  function IdOf(i: nat): (id: StudentId)
    ensures |id| == i + 1
  {
    seq(i + 1, _ => 'x')
  }

  function MateOf(i: nat): nat {
    if i % 2 == 0 then i + 1 else i - 1
  }

  function YearOf(n: nat, i: nat): int {
    if i >= 2 * n then 2 * (i - 2 * n) else if i % 2 == 0 then i + 1 else i
  }

  function StudentAt(n: nat, i: nat): Student {
    Student(IdOf(i), YearOf(n, i), Male, None, if i >= 2 * n then Some(YearOf(n, i) - 1) else None, [])
  }

  function RoomAt(r: nat): Room {
    Room(r, r, r, None, None, 2, Available)
  }

  predicate Opens(h: int, y: int) {
    h == y || h == y - 1
  }

  function RuleFor(h: int, y: int): Rule {
    Rule(Some(h), Some(y), None, Opens(h, y), 0)
  }

  function Gather(k: nat, part: nat -> seq<Rule>): seq<Rule> {
    if k == 0 then [] else Gather(k - 1, part) + part(k - 1)
  }

  lemma {:induction false} Gathered(k: nat, part: nat -> seq<Rule>, r: Rule)
    ensures r in Gather(k, part) <==> exists h: nat :: h < k && r in part(h)
  {
    if k > 0 {
      Gathered(k - 1, part, r);
      assert r in part(k - 1) ==> exists h: nat :: h < k && r in part(h);
    }
  }

  function RuleOfYear(h: nat): nat -> seq<Rule> {
    (y: nat) => [RuleFor(h, y)]
  }

  function RulesOfHostel(years: nat): nat -> seq<Rule> {
    (h: nat) => Gather(years, RuleOfYear(h))
  }

  function ChainRules(n: nat): seq<Rule> {
    Gather(2 * n + 1, RulesOfHostel(2 * n + 1))
  }

  lemma RuleInChain(n: nat, h: nat, y: nat)
    requires h <= 2 * n && y <= 2 * n
    ensures RuleFor(h, y) in ChainRules(n)
  {
    assert RuleFor(h, y) in RuleOfYear(h)(y);
    Gathered(2 * n + 1, RuleOfYear(h), RuleFor(h, y));
    assert RuleFor(h, y) in RulesOfHostel(2 * n + 1)(h);
    Gathered(2 * n + 1, RulesOfHostel(2 * n + 1), RuleFor(h, y));
  }

  lemma RuleOfChain(n: nat, r: Rule) returns (h: nat, y: nat)
    requires r in ChainRules(n)
    ensures r == RuleFor(h, y)
  {
    Gathered(2 * n + 1, RulesOfHostel(2 * n + 1), r);
    h :| h < 2 * n + 1 && r in RulesOfHostel(2 * n + 1)(h);
    Gathered(2 * n + 1, RuleOfYear(h), r);
    y :| y < 2 * n + 1 && r in RuleOfYear(h)(y);
  }

  function IdsBelow(k: nat): (ids: set<StudentId>)
    ensures forall a :: a in ids <==> 0 < |a| <= k && a == IdOf(|a| - 1)
  {
    var ids := set i: int | 0 <= i < k :: IdOf(i);
    assert forall a :: 0 < |a| <= k && a == IdOf(|a| - 1) ==> a in ids;
    ids
  }

  function ChainStudents(n: nat): seq<Student> {
    seq(3 * n + 1, i requires 0 <= i => StudentAt(n, i))
  }

  function ChainRooms(n: nat): seq<Room> {
    seq(2 * n + 1, r requires 0 <= r => RoomAt(r))
  }

  function Chain(n: nat): Inputs {
    Inputs(
      ChainStudents(n),
      [],
      map h: int | 0 <= h <= 2 * n :: Hostel(h, CoEd),
      ChainRooms(n),
      ChainRules(n),
      map a | a in IdsBelow(2 * n) :: IdOf(MateOf(|a| - 1)),
      [],
      _ => 0)
  }

  lemma IdsDiffer(i: nat, j: nat)
    ensures IdOf(i) == IdOf(j) <==> i == j
  {
    assert |IdOf(i)| == i + 1 && |IdOf(j)| == j + 1;
  }

  lemma MateOfMate(n: nat, i: nat)
    requires i < 2 * n
    ensures MateOf(i) < 2 * n && MateOf(MateOf(i)) == i && MateOf(i) != i
  {
  }

  lemma Roommates(n: nat, i: nat)
    requires i < 2 * n
    ensures IdOf(i) in Chain(n).roommates && Chain(n).roommates[IdOf(i)] == IdOf(MateOf(i))
  {
    assert |IdOf(i)| == i + 1 && IdOf(i) in IdsBelow(2 * n);
  }

  lemma ChainMatching(n: nat)
    ensures IsMatching(Chain(n).roommates)
  {
    forall a | a in Chain(n).roommates
      ensures IsMate(Chain(n).roommates, a)
    {
      RoommatesMatch(n, |a| - 1);
    }
  }

  ghost predicate IsMate(rm: map<StudentId, StudentId>, a: StudentId) {
    a in rm && a != "" && rm[a] != a && rm[a] in rm && rm[rm[a]] == a
  }

  lemma ChainIds(n: nat)
    ensures Unique(Ids(Chain(n).students))
  {
    forall i, j | 0 <= i < j < |Chain(n).students|
      ensures Ids(Chain(n).students)[i] != Ids(Chain(n).students)[j]
    {
      IdsDiffer(i, j);
    }
  }

  lemma ChainWellFormed(n: nat)
    ensures WellFormed(Chain(n))
  {
    ChainIds(n);
    ChainMatching(n);
  }

  lemma RoommatesMatch(n: nat, i: nat)
    requires i < 2 * n
    ensures IsMate(Chain(n).roommates, IdOf(i))
  {
    MateOfMate(n, i);
    Roommates(n, i);
    Roommates(n, MateOf(i));
    IdsDiffer(i, MateOf(i));
  }

  // ---------- Who may go where ----------

  lemma ChainAllows(n: nat, h: nat, y: nat)
    requires h <= 2 * n && y <= 2 * n
    ensures EngineAllows(Chain(n).rules, h, None, y) <==> Opens(h, y)
    ensures DecidingRule(Chain(n).rules, h, None, y) == Some(RuleFor(h, y))
  {
    var rules := Chain(n).rules;
    DecidingRuleIsTop(rules, h, None, y);
    RuleInChain(n, h, y);
    assert EngineMatches(RuleFor(h, y), h, None, y);
    var _, _ := RuleOfChain(n, DecidingRule(rules, h, None, y).value);
  }

  lemma YearInRange(n: nat, i: nat)
    requires i <= 3 * n
    ensures 0 <= YearOf(n, i) <= 2 * n
  {
  }

  lemma ChainValid(n: nat, i: nat, r: nat)
    requires i <= 3 * n && r <= 2 * n
    ensures ValidRoom(Chain(n), StudentAt(n, i), RoomAt(r)) <==> Opens(r, YearOf(n, i))
    ensures MatchPriority(Chain(n), StudentAt(n, i), RoomAt(r)) == if i >= 2 * n && r == YearOf(n, i) - 1 then -1 else 0
  {
    YearInRange(n, i);
    ChainAllows(n, r, YearOf(n, i));
  }

  /** Of all who may enter a room, a single student is listed last: the one who lives there, if the room is odd. */
  lemma LastOfRoom(n: nat, r: nat)
    requires r <= 2 * n
    ensures var j := 2 * n + (r + 1) / 2;
            && 2 * n <= j <= 3 * n && YearOf(n, j) == (if r % 2 == 1 then r + 1 else r)
            && forall i :: j < i <= 3 * n ==> YearOf(n, i) > r + 1
  {
  }

  lemma ChainPriority(n: nat, r: nat)
    requires r <= 2 * n
    ensures SharedPriority(Chain(n), Chain(n).students, RoomAt(r)) == if r % 2 == 1 then -1 else 0
  {
    var j, all := 2 * n + (r + 1) / 2, Chain(n).students;
    LastOfRoom(n, r);
    ChainValid(n, j, r);
    assert |all| == 3 * n + 1 && all[j] == StudentAt(n, j);
    forall i | j < i < |all|
      ensures !ValidRoom(Chain(n), all[i], RoomAt(r))
    {
      assert YearOf(n, i) > r + 1;
      ChainValid(n, i, r);
    }
    LastWriter(Chain(n), all, RoomAt(r), j);
  }

  // ---------- Two allocations of the chain ----------

  /** Everyone in the room of their year less d; for d == 1 the first single student has none. */
  function Placement(n: nat, d: nat): map<StudentId, RoomId> {
    map a | a in IdsBelow(3 * n + 1) && YearOf(n, |a| - 1) >= d :: YearOf(n, |a| - 1) - d
  }

  lemma PlacementAt(n: nat, d: nat, i: nat)
    requires i <= 3 * n
    ensures IdOf(i) in Placement(n, d) <==> YearOf(n, i) >= d
    ensures IdOf(i) in Placement(n, d) ==> Placement(n, d)[IdOf(i)] == YearOf(n, i) - d
  {
    assert |IdOf(i)| == i + 1 && IdOf(i) in IdsBelow(3 * n + 1);
  }

  lemma StudentIndex(n: nat, i: nat)
    requires i <= 3 * n
    ensures StudentAt(n, i) in Chain(n).students && IdOf(i) in Cohort(Chain(n))
    ensures forall m :: m in Chain(n).students && m.userId == IdOf(i) ==> m == StudentAt(n, i)
  {
    assert Chain(n).students[i] == StudentAt(n, i);
    forall m | m in Chain(n).students && m.userId == IdOf(i)
      ensures m == StudentAt(n, i)
    {
      var j :| 0 <= j < |Chain(n).students| && Chain(n).students[j] == m;
      IdsDiffer(i, j);
    }
  }

  lemma ChainVariable(n: nat, i: nat, r: int)
    requires i <= 3 * n
    ensures IsVariable(Chain(n), (IdOf(i), r)) <==> 0 <= r <= 2 * n && Opens(r, YearOf(n, i))
  {
    StudentIndex(n, i);
    if 0 <= r <= 2 * n && Opens(r, YearOf(n, i)) {
      ChainValid(n, i, r);
      assert Chain(n).rooms[r] == RoomAt(r);
      assert StudentAt(n, i) in Chain(n).students && RoomAt(r) in Chain(n).rooms;
    }
    if IsVariable(Chain(n), (IdOf(i), r)) {
      var s, q :| s in Chain(n).students && q in Chain(n).rooms && s.userId == IdOf(i) && q.id == r && ValidRoom(Chain(n), s, q);
      var k :| 0 <= k < |Chain(n).rooms| && Chain(n).rooms[k] == q;
      ChainValid(n, i, k);
    }
  }

  lemma MatesShareYear(n: nat, i: nat)
    requires i < 2 * n
    ensures YearOf(n, MateOf(i)) == YearOf(n, i)
  {
  }

  /** A student with the given year, and the roommate if there is one. */
  function OfYear(n: nat, y: nat): set<StudentId> {
    if y % 2 == 1 then {IdOf(y - 1), IdOf(y)} else {IdOf(2 * n + y / 2)}
  }

  lemma YearMembers(n: nat, i: nat)
    requires i <= 3 * n
    ensures YearOf(n, i) >= 0 && IdOf(i) in OfYear(n, YearOf(n, i))
  {
  }

  lemma OfYearSize(n: nat, y: nat)
    ensures |OfYear(n, y)| <= 2
  {
  }

  lemma RoomersOfYear(n: nat, d: nat, r: int, a: StudentId)
    requires a in Roomers(Placement(n, d), r)
    ensures r + d >= 0 && a in OfYear(n, r + d)
  {
    YearMembers(n, |a| - 1);
  }

  lemma PlacementRoomers(n: nat, d: nat, r: int)
    requires d <= 1
    ensures |Roomers(Placement(n, d), r)| <= 2
  {
    forall a | a in Roomers(Placement(n, d), r)
      ensures r + d >= 0 && a in OfYear(n, r + d)
    {
      RoomersOfYear(n, d, r, a);
    }
    if r + d >= 0 {
      OfYearSize(n, r + d);
      SmallSubset(Roomers(Placement(n, d), r), OfYear(n, r + d));
    } else {
      assert Roomers(Placement(n, d), r) == {};
    }
  }

  lemma SmallSubset(a: set<StudentId>, b: set<StudentId>)
    requires a <= b && |b| <= 2
    ensures |a| <= 2
  {
    assert b == a + (b - a);
  }

  lemma PlacementKeepsPairs(n: nat, d: nat, i: nat)
    requires i < 2 * n
    ensures SameFate(Placement(n, d), IdOf(i), IdOf(MateOf(i)))
  {
    MateOfMate(n, i);
    MatesShareYear(n, i);
    PlacementAt(n, d, i);
    PlacementAt(n, d, MateOf(i));
  }

  lemma PlacementVariables(n: nat, d: nat, id: StudentId)
    requires d <= 1 && id in Placement(n, d)
    ensures IsVariable(Chain(n), (id, Placement(n, d)[id]))
  {
    YearInRange(n, |id| - 1);
    ChainVariable(n, |id| - 1, Placement(n, d)[id]);
  }

  lemma PlacementWithin(n: nat, d: nat, k: nat)
    requires d <= 1 && k < |Chain(n).rooms|
    ensures var room := Chain(n).rooms[k];
            Occ(Initial(Chain(n)), room.id) + |Roomers(Placement(n, d), room.id)| <= room.capacity
  {
    PlacementRoomers(n, d, k);
  }

  lemma PlacementIsValid(n: nat, d: nat)
    requires d <= 1
    ensures ValidAllocation(Chain(n), Placement(n, d))
  {
    var inp, a := Chain(n), Placement(n, d);
    forall id | id in a
      ensures IsVariable(inp, (id, a[id]))
    {
      PlacementVariables(n, d, id);
    }
    forall k | 0 <= k < |inp.rooms|
      ensures Occ(Initial(inp), inp.rooms[k].id) + |Roomers(a, inp.rooms[k].id)| <= inp.rooms[k].capacity
    {
      PlacementWithin(n, d, k);
    }
    forall b | b in inp.roommates
      ensures SameFate(a, b, inp.roommates[b])
    {
      Roommates(n, |b| - 1);
      PlacementKeepsPairs(n, d, |b| - 1);
    }
  }

  // ---------- Housing everyone leaves no choice ----------

  /** What is used below of a valid allocation of the chain that houses everyone. */
  ghost predicate HousesAll(n: nat, a: map<StudentId, RoomId>) {
    && (forall i: nat :: i <= 3 * n ==> IdOf(i) in a && 0 <= a[IdOf(i)] <= 2 * n && Opens(a[IdOf(i)], YearOf(n, i)))
    && (forall i: nat :: i < 2 * n ==> IdOf(MateOf(i)) in a && a[IdOf(MateOf(i))] == a[IdOf(i)])
    && (forall r: nat :: r <= 2 * n ==> |Roomers(a, r)| <= 2)
  }

  lemma AllocationHousesAll(n: nat, a: map<StudentId, RoomId>)
    requires ValidAllocation(Chain(n), a) && forall i: nat :: i <= 3 * n ==> IdOf(i) in a
    ensures HousesAll(n, a)
  {
    forall i: nat | i <= 3 * n
      ensures 0 <= a[IdOf(i)] <= 2 * n && Opens(a[IdOf(i)], YearOf(n, i))
    {
      assert IsVariable(Chain(n), (IdOf(i), a[IdOf(i)]));
      ChainVariable(n, i, a[IdOf(i)]);
    }
    forall i: nat | i < 2 * n
      ensures IdOf(MateOf(i)) in a && a[IdOf(MateOf(i))] == a[IdOf(i)]
    {
      MateInSameRoom(n, a, i);
    }
    forall r: nat | r <= 2 * n
      ensures |Roomers(a, r)| <= 2
    {
      RoomHoldsTwo(n, a, r);
    }
  }

  lemma MateInSameRoom(n: nat, a: map<StudentId, RoomId>, i: nat)
    requires ValidAllocation(Chain(n), a) && i < 2 * n && IdOf(i) in a && IdOf(MateOf(i)) in a
    ensures a[IdOf(MateOf(i))] == a[IdOf(i)]
  {
    MateOfMate(n, i);
    Roommates(n, i);
    StudentIndex(n, i);
    StudentIndex(n, MateOf(i));
    assert SameFate(a, IdOf(i), Chain(n).roommates[IdOf(i)]);
  }

  lemma RoomHoldsTwo(n: nat, a: map<StudentId, RoomId>, r: nat)
    requires ValidAllocation(Chain(n), a) && r <= 2 * n
    ensures |Roomers(a, r)| <= 2
  {
    assert |Chain(n).rooms| == 2 * n + 1 && Chain(n).rooms[r] == RoomAt(r);
  }

  lemma AtLeastThree(s: set<StudentId>, a: StudentId, b: StudentId, c: StudentId)
    requires a in s && b in s && c in s && a != b && a != c && b != c
    ensures |s| >= 3
  {
    assert |{a, b, c}| == 3;
    assert s == {a, b, c} + (s - {a, b, c});
  }

  lemma ThreeInRoom(a: map<StudentId, RoomId>, r: nat, i: nat, j: nat, k: nat)
    requires |Roomers(a, r)| <= 2 && i != j && i != k && j != k
    requires IdOf(i) in a && IdOf(j) in a && IdOf(k) in a && a[IdOf(i)] == a[IdOf(j)] == r
    ensures a[IdOf(k)] != r
  {
    IdsDiffer(i, j);
    IdsDiffer(i, k);
    IdsDiffer(j, k);
    if a[IdOf(k)] == r {
      AtLeastThree(Roomers(a, r), IdOf(i), IdOf(j), IdOf(k));
    }
  }

  ghost predicate InYearRoom(n: nat, a: map<StudentId, RoomId>, y: int) {
    forall i: nat :: i <= 3 * n && YearOf(n, i) == y && IdOf(i) in a ==> a[IdOf(i)] == y
  }

  lemma EvenYear(n: nat, y: nat, i: nat)
    requires y > 0 && y % 2 == 0 && i <= 3 * n && YearOf(n, i) == y
    ensures 2 <= y <= 2 * n <= i && YearOf(n, y - 2) == y - 1 && YearOf(n, y - 1) == y - 1
  {
  }

  lemma OddYear(n: nat, y: nat, i: nat)
    requires y % 2 == 1 && i <= 3 * n && YearOf(n, i) == y
    ensures i < 2 * n && y < 2 * n && 2 * n + (y - 1) / 2 <= 3 * n && YearOf(n, 2 * n + (y - 1) / 2) == y - 1
  {
  }

  /** The room below is taken by the year below: what is left is the room of the own year. */
  lemma NextYear(n: nat, a: map<StudentId, RoomId>, y: nat, i: nat)
    requires HousesAll(n, a) && y > 0 && InYearRoom(n, a, y - 1) && i <= 3 * n && YearOf(n, i) == y
    ensures a[IdOf(i)] == y
  {
    if y % 2 == 0 {
      EvenYear(n, y, i);
      ThreeInRoom(a, y - 1, y - 2, y - 1, i);
    } else if a[IdOf(i)] == y - 1 {
      OddYear(n, y, i);
      MateOfMate(n, i);
      ThreeInRoom(a, y - 1, i, 2 * n + (y - 1) / 2, MateOf(i));
    }
  }

  lemma {:induction false} EveryYearInItsRoom(n: nat, a: map<StudentId, RoomId>, y: nat)
    requires HousesAll(n, a)
    ensures InYearRoom(n, a, y)
  {
    if y > 0 {
      EveryYearInItsRoom(n, a, y - 1);
      forall i: nat | i <= 3 * n && YearOf(n, i) == y
        ensures a[IdOf(i)] == y
      {
        NextYear(n, a, y, i);
      }
    }
  }

  lemma OnlyStudents(n: nat, a: map<StudentId, RoomId>)
    requires ValidAllocation(Chain(n), a)
    ensures a.Keys <= IdsBelow(3 * n + 1)
  {
    forall id | id in a
      ensures id in IdsBelow(3 * n + 1)
    {
      assert IsVariable(Chain(n), (id, a[id]));
      var s :| s in Chain(n).students && s.userId == id;
      var i :| 0 <= i < |Chain(n).students| && Chain(n).students[i] == s;
      assert s == StudentAt(n, i) && |IdOf(i)| == i + 1;
    }
  }

  lemma InYearRooms(n: nat, a: map<StudentId, RoomId>, i: nat)
    requires HousesAll(n, a) && i <= 3 * n
    ensures IdOf(i) in a && a[IdOf(i)] == YearOf(n, i)
  {
    YearInRange(n, i);
    EveryYearInItsRoom(n, a, YearOf(n, i));
  }

  lemma AllInYearRooms(n: nat, a: map<StudentId, RoomId>)
    requires HousesAll(n, a) && a.Keys <= IdsBelow(3 * n + 1)
    ensures a == Placement(n, 0)
  {
    forall id | id in IdsBelow(3 * n + 1)
      ensures id in a && id in Placement(n, 0) && a[id] == Placement(n, 0)[id]
    {
      InYearRooms(n, a, |id| - 1);
      YearInRange(n, |id| - 1);
      PlacementAt(n, 0, |id| - 1);
    }
    SameMap(a, Placement(n, 0), IdsBelow(3 * n + 1));
  }

  lemma SameMap(a: map<StudentId, RoomId>, b: map<StudentId, RoomId>, ids: set<StudentId>)
    requires a.Keys <= ids && b.Keys <= ids && forall id :: id in ids ==> id in a && id in b && a[id] == b[id]
    ensures a == b
  {
  }

  /** The only allocation that houses everyone has everyone in the room of their year. */
  lemma OnlyOneHousesAll(n: nat, a: map<StudentId, RoomId>)
    requires ValidAllocation(Chain(n), a) && forall i: nat :: i <= 3 * n ==> IdOf(i) in a
    ensures a == Placement(n, 0)
  {
    AllocationHousesAll(n, a);
    OnlyStudents(n, a);
    AllInYearRooms(n, a);
  }

  // ---------- What the two allocations are worth ----------

  lemma {:induction false} NoPriority(rules: seq<Rule>)
    requires forall r :: r in rules ==> r.priority == 0
    ensures MaxPriority(rules) == 0
  {
    if |rules| > 0 {
      var n := |rules| - 1;
      assert rules[n] in rules && forall r :: r in rules[..n] ==> r in rules;
      NoPriority(rules[..n]);
    }
  }

  lemma {:induction false} NoPreferences(students: seq<Student>)
    requires forall m :: m in students ==> m.hostelPreferences == []
    ensures MaxPreferences(students) == 0
  {
    if |students| > 0 {
      var n := |students| - 1;
      assert students[n] in students && forall m :: m in students[..n] ==> m in students;
      NoPreferences(students[..n]);
    }
  }

  lemma ChainBase(n: nat)
    ensures Base(Chain(n)) == 1_000_000
    ensures forall r :: r in Chain(n).rules ==> r.priority == 0
  {
    forall r | r in Chain(n).rules
      ensures r.priority == 0
    {
      var _, _ := RuleOfChain(n, r);
    }
    NoPriority(Chain(n).rules);
    NoPreferences(Chain(n).students);
    assert MaxBonus(Chain(n)) == 0;
  }

  /** What one student's placement is worth: less in an odd room. */
  function Worth(n: nat, d: nat, i: nat): int {
    var r := YearOf(n, i) - d;
    if r < 0 then 0 else if r % 2 == 1 then 999_000 else 1_000_000
  }

  lemma ChainWeight(n: nat, i: nat, r: nat)
    requires i <= 3 * n && r <= 2 * n
    ensures Weight(Chain(n), StudentAt(n, i), RoomAt(r)) == if r % 2 == 1 then 999_000 else 1_000_000
  {
    ChainPriority(n, r);
    ChainBase(n);
  }

  lemma PlacementFeasible(n: nat, d: nat)
    requires d <= 1
    ensures WellFormed(Chain(n)) && Feasible(Chain(n), AsChoice(Placement(n, d)))
  {
    ChainWellFormed(n);
    PlacementIsValid(n, d);
    FeasibleOfAllocation(Chain(n), Placement(n, d));
  }

  /** x solves the constraints of the chain; stated so that a proof need not look inside. */
  ghost predicate Solves(n: nat, x: Choice) {
    forall inp :: inp == Chain(n) ==> WellFormed(inp) && Feasible(inp, x)
  }

  lemma ShareInRoom(n: nat, x: Choice, i: nat, r: nat)
    requires Solves(n, x) && i <= 3 * n && r <= 2 * n && (IdOf(i), r) in x
    ensures Share(Chain(n), x)(StudentAt(n, i)) == if r % 2 == 1 then 999_000 else 1_000_000
  {
    StudentIndex(n, i);
    ChainWeight(n, i, r);
    assert Chain(n).rooms[r] == RoomAt(r);
    ShareIs(Chain(n), x, StudentAt(n, i));
  }

  lemma PlacementSolves(n: nat, d: nat)
    requires d <= 1
    ensures Solves(n, AsChoice(Placement(n, d)))
  {
    PlacementFeasible(n, d);
  }

  lemma ShareWithout(n: nat, x: Choice, i: nat)
    requires Solves(n, x) && i <= 3 * n && IdOf(i) !in Housed(x)
    ensures Share(Chain(n), x)(StudentAt(n, i)) == 0
  {
    StudentIndex(n, i);
    ShareIs(Chain(n), x, StudentAt(n, i));
  }

  lemma PlacementChoice(n: nat, d: nat, i: nat)
    requires i <= 3 * n
    ensures YearOf(n, i) >= d ==> (IdOf(i), YearOf(n, i) - d) in AsChoice(Placement(n, d))
    ensures YearOf(n, i) < d ==> IdOf(i) !in Housed(AsChoice(Placement(n, d)))
  {
    PlacementAt(n, d, i);
  }

  lemma ShareOfPlacement(n: nat, d: nat, i: nat)
    requires d <= 1 && i <= 3 * n
    ensures Share(Chain(n), AsChoice(Placement(n, d)))(StudentAt(n, i)) == Worth(n, d, i)
  {
    PlacementSolves(n, d);
    PlacementChoice(n, d, i);
    ShareByChoice(n, d, i, AsChoice(Placement(n, d)));
  }

  lemma ShareByChoice(n: nat, d: nat, i: nat, x: Choice)
    requires d <= 1 && i <= 3 * n && Solves(n, x)
    requires YearOf(n, i) >= d ==> (IdOf(i), YearOf(n, i) - d) in x
    requires YearOf(n, i) < d ==> IdOf(i) !in Housed(x)
    ensures Share(Chain(n), x)(StudentAt(n, i)) == Worth(n, d, i)
  {
    YearInRange(n, i);
    if YearOf(n, i) >= d {
      ShareInRoom(n, x, i, YearOf(n, i) - d);
    } else {
      ShareWithout(n, x, i);
    }
  }

  lemma {:induction false} TotalConstant(students: seq<Student>, f: Student -> int, c: int)
    requires forall i :: 0 <= i < |students| ==> f(students[i]) == c
    ensures Total(students, f) == c * |students|
  {
    if students != [] {
      TotalConstant(students[..|students| - 1], f, c);
    }
  }

  lemma WorthOfAll(n: nat, d: nat)
    requires d <= 1
    ensures forall i: nat :: i < 2 * n ==> Worth(n, d, i) == if d == 0 then 999_000 else 1_000_000
    ensures Worth(n, d, 2 * n) == if d == 0 then 1_000_000 else 0
    ensures forall i: nat :: 2 * n < i <= 3 * n ==> Worth(n, d, i) == if d == 0 then 1_000_000 else 999_000
  {
  }

  lemma ThreeStretches(all: seq<Student>, a: seq<Student>, b: seq<Student>, c: seq<Student>, f: Student -> int)
    requires all == a + b + c
    ensures Total(all, f) == Total(a, f) + Total(b, f) + Total(c, f)
  {
    TotalConcat(a, b, f);
    TotalConcat(a + b, c, f);
  }

  function Stretch(n: nat, lo: nat, size: nat): (part: seq<Student>)
    ensures |part| == size && forall i :: 0 <= i < size ==> part[i] == StudentAt(n, lo + i)
  {
    seq(size, i requires 0 <= i => StudentAt(n, lo + i))
  }

  lemma StretchesAreAll(n: nat)
    ensures ChainStudents(n) == Stretch(n, 0, 2 * n) + Stretch(n, 2 * n, 1) + Stretch(n, 2 * n + 1, n)
  {
  }

  lemma StretchTotal(n: nat, d: nat, lo: nat, size: nat, f: Student -> int, c: int)
    requires lo + size <= 3 * n + 1 && forall i: nat :: i <= 3 * n ==> f(StudentAt(n, i)) == Worth(n, d, i)
    requires forall i: nat :: lo <= i < lo + size ==> Worth(n, d, i) == c
    ensures Total(Stretch(n, lo, size), f) == c * size
  {
    TotalConstant(Stretch(n, lo, size), f, c);
  }

  lemma TotalOfLow(n: nat, d: nat, f: Student -> int)
    requires d <= 1 && forall i: nat :: i <= 3 * n ==> f(StudentAt(n, i)) == Worth(n, d, i)
    ensures Total(Stretch(n, 0, 2 * n), f) == (if d == 0 then 999_000 else 1_000_000) * (2 * n)
  {
    WorthOfAll(n, d);
    StretchTotal(n, d, 0, 2 * n, f, if d == 0 then 999_000 else 1_000_000);
  }

  lemma TotalOfTurn(n: nat, d: nat, f: Student -> int)
    requires d <= 1 && forall i: nat :: i <= 3 * n ==> f(StudentAt(n, i)) == Worth(n, d, i)
    ensures Total(Stretch(n, 2 * n, 1), f) == if d == 0 then 1_000_000 else 0
  {
    WorthOfAll(n, d);
    StretchTotal(n, d, 2 * n, 1, f, if d == 0 then 1_000_000 else 0);
  }

  lemma TotalOfHigh(n: nat, d: nat, f: Student -> int)
    requires d <= 1 && forall i: nat :: i <= 3 * n ==> f(StudentAt(n, i)) == Worth(n, d, i)
    ensures Total(Stretch(n, 2 * n + 1, n), f) == (if d == 0 then 1_000_000 else 999_000) * n
  {
    WorthOfAll(n, d);
    StretchTotal(n, d, 2 * n + 1, n, f, if d == 0 then 1_000_000 else 999_000);
  }

  lemma TotalOfWorth(n: nat, d: nat, f: Student -> int)
    requires d <= 1 && forall i: nat :: i <= 3 * n ==> f(StudentAt(n, i)) == Worth(n, d, i)
    ensures Total(ChainStudents(n), f)
            == if d == 0 then 999_000 * (2 * n) + 1_000_000 * (n + 1) else 1_000_000 * (2 * n) + 999_000 * n
  {
    TotalOfLow(n, d, f);
    TotalOfTurn(n, d, f);
    TotalOfHigh(n, d, f);
    StretchesAreAll(n);
    ThreeStretches(ChainStudents(n), Stretch(n, 0, 2 * n), Stretch(n, 2 * n, 1), Stretch(n, 2 * n + 1, n), f);
  }

  lemma PlacementWorth(n: nat, d: nat)
    requires d <= 1
    ensures Objective(Chain(n), AsChoice(Placement(n, d)))
            == if d == 0 then 999_000 * (2 * n) + 1_000_000 * (n + 1) else 1_000_000 * (2 * n) + 999_000 * n
  {
    var f := Share(Chain(n), AsChoice(Placement(n, d)));
    forall i: nat | i <= 3 * n
      ensures f(StudentAt(n, i)) == Worth(n, d, i)
    {
      ShareOfPlacement(n, d, i);
    }
    TotalOfWorth(n, d, f);
  }

  // ---------- Beds do not come first ----------

  lemma {:induction false} CountedAllHoused(students: seq<Student>, x: Choice)
    requires Total(students, IsHoused(x)) == |students|
    ensures forall m :: m in students ==> m.userId in Housed(x)
  {
    if students != [] {
      var n := |students| - 1;
      assert students == students[..n] + [students[n]];
      HousedAtMostAll(students[..n], x);
      CountedAllHoused(students[..n], x);
    }
  }

  lemma {:induction false} AllHousedCounted(students: seq<Student>, x: Choice)
    requires forall m :: m in students ==> m.userId in Housed(x)
    ensures Total(students, IsHoused(x)) == |students|
  {
    if students != [] {
      var n := |students| - 1;
      assert students[n] in students && forall m :: m in students[..n] ==> m in students;
      AllHousedCounted(students[..n], x);
    }
  }

  /** A feasible choice that houses everyone is the one with everyone in the room of their year. */
  lemma AllHousedIsPlacement(n: nat, x: Choice)
    requires Feasible(Chain(n), x) && HousedCount(Chain(n), x) == |Chain(n).students|
    ensures x == AsChoice(Placement(n, 0))
  {
    ChainWellFormed(n);
    SolutionsAreAllocations(Chain(n), x);
    CountedAllHoused(Chain(n).students, x);
    forall i: nat | i <= 3 * n
      ensures IdOf(i) in Decode(x)
    {
      StudentIndex(n, i);
    }
    OnlyOneHousesAll(n, Decode(x));
  }

  lemma PlacementHouses(n: nat, m: Student)
    requires m in Chain(n).students
    ensures m.userId in Housed(AsChoice(Placement(n, 0)))
  {
    var i :| 0 <= i < |Chain(n).students| && Chain(n).students[i] == m;
    YearInRange(n, i);
    PlacementChoice(n, 0, i);
    ChosenIsHoused(AsChoice(Placement(n, 0)), IdOf(i), YearOf(n, i));
  }

  lemma PlacementHousesAll(n: nat)
    ensures Feasible(Chain(n), AsChoice(Placement(n, 0)))
    ensures HousedCount(Chain(n), AsChoice(Placement(n, 0))) == |Chain(n).students|
  {
    var x := AsChoice(Placement(n, 0));
    PlacementFeasible(n, 0);
    forall m | m in Chain(n).students
      ensures m.userId in Housed(x)
    {
      PlacementHouses(n, m);
    }
    AllHousedCounted(Chain(n).students, x);
  }

  lemma AllHousedIsNoMaximiser(n: nat, x: Choice)
    requires n > 1000 && HousedCount(Chain(n), x) == |Chain(n).students|
    ensures !Maximises(Chain(n), x)
  {
    if Feasible(Chain(n), x) {
      AllHousedIsPlacement(n, x);
      PlacementFeasible(n, 1);
      PlacementWorth(n, 0);
      PlacementWorth(n, 1);
      assert Objective(Chain(n), AsChoice(Placement(n, 1))) > Objective(Chain(n), x);
    }
  }

  /**
   In a chain of more than a thousand pairs everyone can be housed, and no
   maximiser of the objective houses everyone, although every rule priority
   is 0: the fallback priority of the current rooms costs more than the bed
   of the last student is worth.
   */
  lemma DominanceFails(n: nat, x: Choice)
    requires n > 1000 && Maximises(Chain(n), x)
    ensures WellFormed(Chain(n)) && forall r :: r in Chain(n).rules ==> r.priority == 0
    ensures exists y :: Feasible(Chain(n), y) && HousedCount(Chain(n), y) == |Chain(n).students|
    ensures HousedCount(Chain(n), x) < |Chain(n).students|
  {
    ChainBase(n);
    ChainWellFormed(n);
    PlacementHousesAll(n);
    HousedAtMostAll(Chain(n).students, x);
    if HousedCount(Chain(n), x) == |Chain(n).students| {
      AllHousedIsNoMaximiser(n, x);
    }
  }
}
