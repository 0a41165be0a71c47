/** The objective of the CP-SAT mode and the range of its values. */
module SolverObjective {
  import opened Common
  import opened Rules
  import opened AllocationModel
  import opened SolverModel
  import EngineSteps

  const W_RULE := 1000
  const W_PREF := 10

  function MaxPriority(rules: seq<Rule>): int {
    if rules == [] then 0
    else if |rules| == 1 then rules[0].priority
    else
      var before := MaxPriority(rules[..|rules| - 1]);
      if rules[|rules| - 1].priority > before then rules[|rules| - 1].priority else before
  }

  function MaxPreferences(students: seq<Student>): nat {
    if students == [] then 0
    else
      var before := MaxPreferences(students[..|students| - 1]);
      var own := |students[|students| - 1].hostelPreferences|;
      if own > before then own else before
  }

  function MaxBonus(inp: Inputs): int {
    W_RULE * MaxPriority(inp.rules) + W_PREF * MaxPreferences(inp.students)
  }

  function Base(inp: Inputs): int {
    |inp.students| * MaxBonus(inp) + 1_000_000
  }

  /**
   The priority a room is left with when the students of the list have been
   tested in turn: what the last one for whom the room is valid wrote to it,
   or 0 if there is none.
   */
  function SharedPriority(inp: Inputs, students: seq<Student>, room: Room): int {
    if students == [] then 0
    else
      var last := students[|students| - 1];
      if ValidRoom(inp, last, room) then MatchPriority(inp, last, room)
      else SharedPriority(inp, students[..|students| - 1], room)
  }

  lemma {:induction false} LastWriter(inp: Inputs, students: seq<Student>, room: Room, j: nat)
    requires j < |students| && ValidRoom(inp, students[j], room)
    requires forall i :: j < i < |students| ==> !ValidRoom(inp, students[i], room)
    ensures SharedPriority(inp, students, room) == MatchPriority(inp, students[j], room)
  {
    if j < |students| - 1 {
      LastWriter(inp, students[..|students| - 1], room, j);
    }
  }

  lemma {:induction false} NobodyWrites(inp: Inputs, students: seq<Student>, room: Room)
    requires forall m :: m in students ==> !ValidRoom(inp, m, room)
    ensures SharedPriority(inp, students, room) == 0
  {
    if students != [] {
      var n := |students| - 1;
      assert students == students[..n] + [students[n]];
      assert students[n] in students;
      NobodyWrites(inp, students[..n], room);
    }
  }

  /** The rooms' priorities in the engine after the students of the list have been tested. */
  ghost predicate MarkedBy(inp: Inputs, students: seq<Student>, priorities: map<RoomId, int>) {
    forall r :: r in inp.rooms ==> (if r.id in priorities then priorities[r.id] else 0) == SharedPriority(inp, students, r)
  }

  /** Testing one more student. */
  lemma MarkedByOneMore(inp: Inputs, students: seq<Student>, k: nat, valid: seq<Room>, before: map<RoomId, int>, now: map<RoomId, int>)
    requires WellFormed(inp) && k < |students| && MarkedBy(inp, students[..k], before)
    requires valid == ValidRooms(inp, students[k]) && EngineSteps.Marked(inp, students[k], valid, before, now)
    ensures MarkedBy(inp, students[..k + 1], now)
  {
    assert students[..k + 1][..k] == students[..k];
    forall r, q | r in inp.rooms && q in valid && q.id == r.id
      ensures q == r
    {
      RoomById(inp, q, r);
    }
  }

  /** The weight of one variable. The room's priority may come from another student. */
  function Weight(inp: Inputs, m: Student, room: Room): int {
    Base(inp) + W_RULE * SharedPriority(inp, inp.students, room) + W_PREF * (|m.hostelPreferences| - IndexOf(m.hostelPreferences, room.hostelId))
  }

  function Term(inp: Inputs, x: Choice, m: Student): Room -> int {
    (r: Room) => if (m.userId, r.id) in x then Weight(inp, m, r) else 0
  }

  /** The terms of one student. */
  function Share(inp: Inputs, x: Choice): Student -> int {
    (m: Student) => Total(ValidRooms(inp, m), Term(inp, x, m))
  }

  function Objective(inp: Inputs, x: Choice): int {
    Total(inp.students, Share(inp, x))
  }

  function IsHoused(x: Choice): Student -> int {
    (m: Student) => if m.userId in Housed(x) then 1 else 0
  }

  function HousedCount(inp: Inputs, x: Choice): int {
    Total(inp.students, IsHoused(x))
  }

  ghost predicate InRange(inp: Inputs, low: int) {
    forall r :: r in inp.rooms ==> low <= SharedPriority(inp, inp.students, r) <= MaxPriority(inp.rules)
  }

  lemma {:induction false} LongestList(students: seq<Student>, m: Student)
    requires m in students
    ensures |m.hostelPreferences| <= MaxPreferences(students)
  {
    var n := |students| - 1;
    assert students == students[..n] + [students[n]];
    if m in students[..n] {
      LongestList(students[..n], m);
    }
  }

  lemma WeightRange(inp: Inputs, low: int, m: Student, room: Room)
    requires InRange(inp, low) && m in inp.students && room in inp.rooms
    ensures Base(inp) + W_RULE * low <= Weight(inp, m, room) <= Base(inp) + MaxBonus(inp)
  {
    LongestList(inp.students, m);
    assert low <= SharedPriority(inp, inp.students, room) <= MaxPriority(inp.rules);
  }

  lemma NotElsewhere(x: Choice, id: StudentId, a: RoomId, b: RoomId)
    requires OneRoomEach(x) && a != b && (id, b) in x
    ensures (id, a) !in x
  {
  }

  /** A sum with at most one term that is not zero. */
  lemma OneTerm(inp: Inputs, x: Choice, m: Student, rooms: seq<Room>)
    requires DistinctIds(rooms) && OneRoomEach(x)
    ensures (forall r :: r in rooms ==> (m.userId, r.id) !in x) ==> Total(rooms, Term(inp, x, m)) == 0
    ensures forall r :: r in rooms && (m.userId, r.id) in x ==> Total(rooms, Term(inp, x, m)) == Weight(inp, m, r)
  {
    if forall r :: r in rooms ==> (m.userId, r.id) !in x {
      NoTerm(inp, x, m, rooms);
    }
    forall r | r in rooms && (m.userId, r.id) in x
      ensures Total(rooms, Term(inp, x, m)) == Weight(inp, m, r)
    {
      var k :| 0 <= k < |rooms| && rooms[k] == r;
      TheTerm(inp, x, m, rooms, k);
    }
  }

  lemma {:induction false} NoTerm(inp: Inputs, x: Choice, m: Student, rooms: seq<Room>)
    requires forall r :: r in rooms ==> (m.userId, r.id) !in x
    ensures Total(rooms, Term(inp, x, m)) == 0
  {
    if rooms != [] {
      var n := |rooms| - 1;
      assert rooms == rooms[..n] + [rooms[n]];
      assert rooms[n] in rooms;
      NoTerm(inp, x, m, rooms[..n]);
    }
  }

  lemma {:induction false} TheTerm(inp: Inputs, x: Choice, m: Student, rooms: seq<Room>, k: nat)
    requires DistinctIds(rooms) && OneRoomEach(x) && k < |rooms| && (m.userId, rooms[k].id) in x
    ensures Total(rooms, Term(inp, x, m)) == Weight(inp, m, rooms[k])
  {
    var n := |rooms| - 1;
    if k < n {
      NotElsewhere(x, m.userId, rooms[n].id, rooms[k].id);
      TheTerm(inp, x, m, rooms[..n], k);
    } else {
      forall r | r in rooms[..n]
        ensures (m.userId, r.id) !in x
      {
        var i :| 0 <= i < n && rooms[i] == r;
        NotElsewhere(x, m.userId, r.id, rooms[n].id);
      }
      NoTerm(inp, x, m, rooms[..n]);
    }
  }

  /** Every weight lies between the two numbers. */
  ghost predicate WeightsBetween(inp: Inputs, least: int, most: int) {
    forall m, r :: m in inp.students && r in inp.rooms ==> least <= Weight(inp, m, r) <= most
  }

  lemma AllWeights(inp: Inputs, low: int)
    requires InRange(inp, low)
    ensures WeightsBetween(inp, Base(inp) + W_RULE * low, Base(inp) + MaxBonus(inp))
  {
    forall m, r | m in inp.students && r in inp.rooms
      ensures Base(inp) + W_RULE * low <= Weight(inp, m, r) <= Base(inp) + MaxBonus(inp)
    {
      WeightRange(inp, low, m, r);
    }
  }

  /** A student's terms: the weight of the student's room, or nothing. */
  lemma ShareIs(inp: Inputs, x: Choice, m: Student)
    requires WellFormed(inp) && Feasible(inp, x) && m in inp.students
    ensures m.userId !in Housed(x) ==> Share(inp, x)(m) == 0
    ensures forall r :: r in inp.rooms && (m.userId, r.id) in x ==> Share(inp, x)(m) == Weight(inp, m, r)
    ensures m.userId in Housed(x) ==> exists r :: r in inp.rooms && (m.userId, r.id) in x
  {
    var rooms := ValidRooms(inp, m);
    ValidRoomsDistinct(inp, m);
    OneTerm(inp, x, m, rooms);
    forall r | r in inp.rooms && (m.userId, r.id) in x
      ensures r in rooms
    {
      var s, q :| s in inp.students && q in inp.rooms && s.userId == m.userId && q.id == r.id && ValidRoom(inp, s, q);
      StudentById(inp, s, m);
      RoomById(inp, q, r);
    }
    if m.userId in Housed(x) {
      var v :| v in x && v.0 == m.userId;
      assert IsVariable(inp, v);
    } else {
      forall r | r in rooms
        ensures (m.userId, r.id) !in x
      {
        ChosenIsHoused(x, m.userId, r.id);
      }
    }
  }

  lemma ShareRange(inp: Inputs, least: int, most: int, x: Choice, m: Student)
    requires WellFormed(inp) && Feasible(inp, x) && WeightsBetween(inp, least, most) && m in inp.students
    ensures least * IsHoused(x)(m) <= Share(inp, x)(m) <= most * IsHoused(x)(m)
  {
    ShareIs(inp, x, m);
    if m.userId in Housed(x) {
      var r :| r in inp.rooms && (m.userId, r.id) in x;
      assert least <= Weight(inp, m, r) <= most;
    }
  }

  ghost predicate DistinctIds(rooms: seq<Room>) {
    forall i, j :: 0 <= i < j < |rooms| ==> rooms[i].id != rooms[j].id
  }

  lemma ValidRoomsDistinct(inp: Inputs, m: Student)
    requires WellFormed(inp)
    ensures DistinctIds(ValidRooms(inp, m))
  {
    DistinctAfterFilter(inp.rooms, ValidFor(inp, m));
  }

  lemma {:induction false} DistinctAfterFilter(rooms: seq<Room>, p: Room -> bool)
    requires DistinctIds(rooms)
    ensures DistinctIds(Filter(rooms, p))
  {
    if rooms != [] {
      var n := |rooms| - 1;
      assert rooms == rooms[..n] + [rooms[n]];
      DistinctAfterFilter(rooms[..n], p);
      var kept := Filter(rooms[..n], p);
      forall i | 0 <= i < |kept|
        ensures kept[i].id != rooms[n].id
      {
        assert kept[i] in kept;
        var k :| 0 <= k < n && rooms[..n][k] == kept[i];
        assert rooms[k].id != rooms[n].id;
      }
      assert Filter(rooms, p) == if p(rooms[n]) then kept + [rooms[n]] else kept;
    }
  }

  lemma {:induction false} SumRange(students: seq<Student>, f: Student -> int, h: Student -> int, low: int, high: int)
    requires forall m :: m in students ==> low * h(m) <= f(m) <= high * h(m)
    ensures low * Total(students, h) <= Total(students, f) <= high * Total(students, h)
  {
    if students != [] {
      var n := |students| - 1;
      assert students == students[..n] + [students[n]];
      assert students[n] in students;
      SumRange(students[..n], f, h, low, high);
      Distribute(low, Total(students[..n], h), h(students[n]));
      Distribute(high, Total(students[..n], h), h(students[n]));
    }
  }

  lemma Distribute(a: int, b: int, c: int)
    ensures a * (b + c) == a * b + a * c
  {
  }

  lemma ObjectiveRange(inp: Inputs, least: int, most: int, x: Choice)
    requires WellFormed(inp) && Feasible(inp, x) && WeightsBetween(inp, least, most)
    ensures 0 <= HousedCount(inp, x) <= |inp.students|
    ensures least * HousedCount(inp, x) <= Objective(inp, x) <= most * HousedCount(inp, x)
  {
    var f, h := Share(inp, x), IsHoused(x);
    forall m | m in inp.students
      ensures least * h(m) <= f(m) <= most * h(m)
    {
      ShareRange(inp, least, most, x, m);
    }
    SumRange(inp.students, f, h, least, most);
    HousedAtMostAll(inp.students, x);
  }

  lemma {:induction false} HousedAtMostAll(students: seq<Student>, x: Choice)
    ensures 0 <= Total(students, IsHoused(x)) <= |students|
  {
    if students != [] {
      HousedAtMostAll(students[..|students| - 1], x);
    }
  }

  /** With rule priorities of at least 0, what any student writes to a room is in range; -1 only for the current room. */
  lemma MatchPriorityInRange(inp: Inputs, m: Student, room: Room)
    requires forall r :: r in inp.rules ==> r.priority >= 0
    ensures -1 <= MatchPriority(inp, m, room) <= MaxPriority(inp.rules)
    ensures MatchPriority(inp, m, room) == -1 <==> IsCurrentRoom(m, room)
    ensures 0 <= MaxPriority(inp.rules)
  {
    DecidingRuleIsTop(inp.rules, room.hostelId, room.wing, m.year);
    var rule := DecidingRule(inp.rules, room.hostelId, room.wing, m.year);
    if rule.Some? {
      HighestPriority(inp.rules, rule.value);
    }
    MaxPriorityNotNegative(inp.rules);
  }

  lemma MaxPriorityNotNegative(rules: seq<Rule>)
    requires forall r :: r in rules ==> r.priority >= 0
    ensures 0 <= MaxPriority(rules)
  {
    if |rules| > 0 {
      HighestPriority(rules, rules[0]);
    }
  }

  /** No student may keep the room they live in: the fallback priority -1 never occurs. */
  ghost predicate NoFallback(inp: Inputs) {
    forall m, r :: m in inp.students && r in inp.rooms && ValidRoom(inp, m, r) ==> !IsCurrentRoom(m, r)
  }

  lemma {:induction false} SharedPriorityInRange(inp: Inputs, students: seq<Student>, room: Room)
    requires forall r :: r in inp.rules ==> r.priority >= 0
    requires room in inp.rooms && forall m :: m in students ==> m in inp.students
    ensures -1 <= SharedPriority(inp, students, room) <= MaxPriority(inp.rules)
    ensures NoFallback(inp) ==> 0 <= SharedPriority(inp, students, room)
  {
    if students == [] {
      MaxPriorityNotNegative(inp.rules);
    } else {
      var n := |students| - 1;
      assert students[n] in students && forall m :: m in students[..n] ==> m in students;
      MatchPriorityInRange(inp, students[n], room);
      SharedPriorityInRange(inp, students[..n], room);
    }
  }

  lemma {:induction false} HighestPriority(rules: seq<Rule>, r: Rule)
    requires r in rules
    ensures r.priority <= MaxPriority(rules)
  {
    var n := |rules| - 1;
    assert rules == rules[..n] + [rules[n]];
    if r in rules[..n] {
      HighestPriority(rules[..n], r);
    }
  }

  /** The figures in the base weight are the highest rule priority and the longest list there are, or 0. */
  lemma {:induction false} LargestFigures(rules: seq<Rule>, students: seq<Student>)
    ensures forall r :: r in rules ==> r.priority <= MaxPriority(rules)
    ensures if rules == [] then MaxPriority(rules) == 0 else exists r :: r in rules && r.priority == MaxPriority(rules)
    ensures forall m :: m in students ==> |m.hostelPreferences| <= MaxPreferences(students)
    ensures MaxPreferences(students) == 0 || exists m :: m in students && |m.hostelPreferences| == MaxPreferences(students)
  {
    HighestAttained(rules);
    LongestAttained(students);
    forall r | r in rules
      ensures r.priority <= MaxPriority(rules)
    {
      HighestPriority(rules, r);
    }
    forall m | m in students
      ensures |m.hostelPreferences| <= MaxPreferences(students)
    {
      LongestList(students, m);
    }
  }

  lemma {:induction false} HighestAttained(rules: seq<Rule>)
    ensures if rules == [] then MaxPriority(rules) == 0 else exists r :: r in rules && r.priority == MaxPriority(rules)
  {
    if rules != [] {
      var n := |rules| - 1;
      assert rules == rules[..n] + [rules[n]];
      HighestAttained(rules[..n]);
      assert rules[n] in rules && forall r :: r in rules[..n] ==> r in rules;
    }
  }

  lemma {:induction false} LongestAttained(students: seq<Student>)
    ensures MaxPreferences(students) == 0 || exists m :: m in students && |m.hostelPreferences| == MaxPreferences(students)
  {
    if students != [] {
      var n := |students| - 1;
      assert students == students[..n] + [students[n]];
      LongestAttained(students[..n]);
      assert students[n] in students && forall m :: m in students[..n] ==> m in students;
    }
  }

  // ---------- Dominance ----------

  lemma OneLess(a: int, h: int)
    ensures (h - 1) * a == h * a - a
  {
  }

  lemma Monotone(a: int, b: int, c: int)
    requires a >= 0 && b <= c
    ensures b * a <= c * a && a * b <= a * c
  {
  }

  ghost predicate Maximises(inp: Inputs, x: Choice) {
    Feasible(inp, x) && forall y :: Feasible(inp, y) ==> Objective(inp, y) <= Objective(inp, x)
  }
}
