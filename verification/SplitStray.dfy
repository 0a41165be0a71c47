/**
 A group that a split sends astray: the batch is tested against the leftover
 wing key, and goes to another wing, which its student may not enter. The
 example is followed from the initial state to the end of the run.
 */
module SplitStray {
  import opened Common
  import opened Rules
  import opened AllocationModel
  import opened AtomicUnits
  import opened WingPacking
  import opened GroupPacking
  import opened InitialState
  import opened EngineSteps
  import opened RunSteps
  import opened WingChoice
  import opened GroupRuns
  import opened WingEligibility

  // Two wings of one double room each. Students of year 1 may enter wing FIRST
  // only, students of year 2 wing LAST only. The group has two students of
  // year 1 and one of year 2, more than either wing has beds.

  const FIRST := WingKey(1, "main", 0)
  const LAST := WingKey(2, "main", 0)

  const FIRST_ROOM := Room(1, 1, 1, None, None, 2, Available)
  const LAST_ROOM := Room(2, 2, 2, None, None, 2, Available)

  function Member(id: StudentId, year: int): Student {
    Student(id, year, Male, None, None, [])
  }

  function Members(): seq<Student> {
    [Member("a", 1), Member("b", 1), Member("c", 2)]
  }

  function Example(): Inputs {
    Inputs(
      Members(),
      [Group(1, Members(), [])],
      map[1 := Hostel(1, CoEd), 2 := Hostel(2, CoEd)],
      [FIRST_ROOM, LAST_ROOM],
      [Rule(Some(1), Some(2), None, false, 0), Rule(Some(2), Some(1), None, false, 0)],
      map[],
      [],
      _ => 0)
  }

  lemma ExampleWings()
    ensures WellFormed(Example()) && LastKey(WingOrder(Example().rooms)) == Some(LAST)
    ensures WingRooms(Example(), FIRST) == [FIRST_ROOM]
  {
    ExampleOrder();
    FirstWing();
  }

  lemma ExampleOrder()
    ensures WingOrder(Example().rooms) == [FIRST, LAST]
  {
    var rooms := Example().rooms;
    assert rooms[..1] == [FIRST_ROOM] && rooms[..1][..0] == [];
    assert WingOrder(rooms[..1]) == [FIRST];
  }

  lemma FirstWing()
    ensures WingRooms(Example(), FIRST) == [FIRST_ROOM]
  {
    var rooms := Example().rooms;
    assert rooms[..1] == [FIRST_ROOM] && rooms[..1][..0] == [];
    assert Filter(rooms[..1], OpenIn(FIRST)) == [FIRST_ROOM];
  }

  /** Who may enter which hostel. */
  lemma ExampleAllows(h: int, y: int)
    requires 1 <= h <= 2 && 1 <= y <= 2
    ensures EngineAllows(Example().rules, h, None, y) <==> h == y
  {
    var rules := Example().rules;
    DecidingRuleIsTop(rules, h, None, y);
    if h != y {
      assert rules[h - 1] in rules && EngineMatches(rules[h - 1], h, None, y);
    }
  }

  lemma ExampleEligible(m: Student, w: WingKey)
    requires m in Members()
    ensures EligibleWing(Example(), m, w) <==> w == if m.year == 1 then FIRST else LAST
  {
    ExampleAllows(1, m.year);
    ExampleAllows(2, m.year);
    assert FIRST_ROOM in Example().rooms && LAST_ROOM in Example().rooms;
    assert ValidRoom(Example(), m, FIRST_ROOM) <==> m.year == 1;
    assert ValidRoom(Example(), m, LAST_ROOM) <==> m.year == 2;
  }

  lemma ExampleStart()
    ensures var s := Initial(Example());
            && s.rooms == map[] && s.placed == map[] && s.wings.Keys == {FIRST, LAST} && s.wings[FIRST] == 2 && s.wings[LAST] == 2
  {
    var rooms := Example().rooms;
    assert rooms[..1] == [FIRST_ROOM] && rooms[..1][..0] == [];
    assert BedsIn(rooms[..1], FIRST) == 2 && BedsIn(rooms[..1], LAST) == 0;
    assert BedsIn(rooms, FIRST) == 2 && BedsIn(rooms, LAST) == 2;
    assert OpenKeys(rooms) == {FIRST, LAST} by {
      assert rooms[0] in rooms && rooms[1] in rooms;
    }
  }

  function Ones(): seq<Unit> {
    [[Member("a", 1)], [Member("b", 1)], [Member("c", 2)]]
  }

  lemma ExampleUnits()
    ensures Units(map[], Members()) == Ones() && Flat(Ones()) == Members()
    ensures Units(map[], [Member("c", 2)]) == [[Member("c", 2)]]
  {
    var rm: Roommates, all := map[], Members();
    assert UnitsUpTo(rm, all, 1) == [[all[0]]];
    assert Flat([[all[0]]]) == [all[0]] by { assert [[all[0]]][..0] == []; }
    assert UnitsUpTo(rm, all, 2) == [[all[0]], [all[1]]];
    assert [[all[0]], [all[1]]][..1] == [[all[0]]];
    assert Flat([[all[0]], [all[1]]]) == [all[0], all[1]];
    assert UnitsUpTo(rm, all, 3) == Ones();
    assert Ones()[..2] == [[all[0]], [all[1]]];
    assert UnitsUpTo(rm, [all[2]], 1) == [[all[2]]];
  }

  lemma CountUpTo(flat: seq<Student>, k: nat, w: WingKey)
    requires k < |flat|
    ensures EligibleCount(Example(), flat[..k + 1], w)
            == EligibleCount(Example(), flat[..k], w) + if EligibleWing(Example(), flat[k], w) then 1 else 0
  {
    assert flat[..k + 1][..k] == flat[..k];
  }

  /** Two members may enter the first wing, one the last. */
  lemma ExampleCounts(w: WingKey)
    ensures EligibleCount(Example(), Members(), w) == if w == FIRST then 2 else if w == LAST then 1 else 0
  {
    var all := Members();
    ExampleEligible(all[0], w);
    ExampleEligible(all[1], w);
    ExampleEligible(all[2], w);
    CountUpTo(all, 0, w);
    CountUpTo(all, 1, w);
    CountUpTo(all, 2, w);
    assert all[..3] == all && all[..0] == [];
  }

  /** So the first wing is the top-ranked one. */
  lemma FirstIsTop(best: WingKey)
    ensures TopRanked(Example(), Initial(Example()), Members(), None, best) <==> best == FIRST
  {
    ExampleStart();
    ExampleCounts(FIRST);
    ExampleCounts(LAST);
    ExampleCounts(best);
    assert Rank(Example(), Members(), None, FIRST) == [-50, -2] && Rank(Example(), Members(), None, LAST) == [-50, -1];
    assert [-50, -2][1..] == [-2] && [-50, -1][1..] == [-1];
    forall w | Open(Example(), Initial(Example()), Members(), w)
      ensures w == FIRST || w == LAST
    {
    }
    LexTotal([-50, -2], [-50, -2]);
  }

  /** The batch for the leftover key is the one student of year 2. */
  lemma StrayBatch()
    ensures Batch(Example(), Ones(), LAST, 2) == [[Member("c", 2)]]
  {
    var all := Ones();
    OnlyThirdTaken();
    BatchNext(Example(), all, 0, LAST, 2);
    BatchNext(Example(), all, 1, LAST, 2);
    BatchNext(Example(), all, 2, LAST, 2);
    assert all[..3] == all && all[..0] == [];
    assert Batch(Example(), all[..0], LAST, 2) == [];
  }

  lemma OnlyThirdTaken()
    ensures !Taken(Example(), [], Ones()[0], LAST, 2) && !Taken(Example(), [], Ones()[1], LAST, 2)
    ensures Taken(Example(), [], Ones()[2], LAST, 2)
  {
    ExampleEligible(Member("a", 1), LAST);
    ExampleEligible(Member("b", 1), LAST);
    ExampleEligible(Member("c", 2), LAST);
    assert Member("a", 1) in Ones()[0] && Member("b", 1) in Ones()[1];
  }

  // ---------- What the split does with it ----------

  /** The student of year 2 sits in the first wing. */
  predicate Astray(s: State) {
    "c" in s.placed && s.placed["c"] == FIRST_ROOM.id
  }

  lemma OneSeat()
    ensures MostPlaceable(Example(), Initial(Example()), FIRST, [Member("c", 2)]) == 1
  {
    ExampleWings();
    ExampleStart();
    ExampleUnits();
    var s, one := Initial(Example()), [FIRST_ROOM];
    assert one[..0] == [];
    assert FreeTotal(s, one) == 2 && TwoBedTotal(s, one) == 1;
    var units: seq<Unit> := [[Member("c", 2)]];
    assert units[..0] == [];
    assert Pairs(units) == 0 && Singles(units) == 1;
  }

  lemma FirstTurn(best: WingKey, s': State, units': seq<Unit>, rs: seq<Result>)
    requires SplitTurn(Example(), Some(LAST), None, best, Initial(Example()), Ones(), s', units', rs)
    ensures Astray(s')
  {
    ExampleStart();
    ExampleUnits();
    FirstIsTop(best);
    StrayBatch();
    TurnMeans(Example(), LAST, best, Initial(Example()), Ones(), s', units', rs, [[Member("c", 2)]]);
    BatchOfOne();
    OneSeat();
    OneReported(s', rs);
    SeatInFirst(s');
  }

  lemma OneReported(s': State, rs: seq<Result>)
    requires |rs| == 1 && Reports(Initial(Example()), s', rs) && s'.placed.Keys <= {"c"}
    ensures "c" in s'.placed
  {
    assert rs[0] in rs;
  }

  lemma BatchOfOne()
    ensures Flat([[Member("c", 2)]]) == [Member("c", 2)] && IdSet([Member("c", 2)]) == {"c"}
  {
    var units: seq<Unit> := [[Member("c", 2)]];
    assert units[..0] == [] && Member("c", 2) in [Member("c", 2)];
  }

  lemma SeatInFirst(s': State)
    requires Agree(s') && OnlyInWing(Example(), FIRST, Initial(Example()), s') && "c" in s'.placed
    ensures Astray(s')
  {
    ExampleWings();
    ExampleStart();
    var r := s'.placed["c"];
    assert r in s'.rooms && "c" in s'.rooms[r];
    assert Occ(s', r) != Occ(Initial(Example()), r);
  }

  lemma NotStuckAtOnce()
    ensures !SplitStuck(Example(), Some(LAST), Initial(Example()), Ones(), None)
  {
    ExampleStart();
    ExampleUnits();
    StrayBatch();
    FirstIsTop(FIRST);
    forall best | TopRanked(Example(), Initial(Example()), Flat(Ones()), None, best)
      ensures |Batch(Example(), Ones(), LAST, Initial(Example()).wings[best])| == 1
    {
      FirstIsTop(best);
    }
  }

  lemma SplitGoesAstray(s': State, rs: seq<Result>)
    requires SplitOver(Example(), Some(LAST), Members(), Initial(Example()), s', rs)
    ensures Astray(s')
  {
    ExampleUnits();
    var n, units, first :|
      SplitTurns(Example(), Some(LAST), n, Initial(Example()), Units(map[], Members()), s', units, first, rs)
      && SplitStuck(Example(), Some(LAST), s', units, first);
    if n == 0 {
      NotStuckAtOnce();
    } else {
      FirstOfTurns(Example(), Some(LAST), n, Initial(Example()), Ones(), s', units, first, rs);
      var s, left, best, b :| BeganWith(Example(), Some(LAST), Initial(Example()), Ones(), s, left, best, b, s');
      assert Grows(s, s');
      FirstTurn(best, s, left, b);
    }
  }

  // ---------- The whole run ----------

  lemma GroupGoesAstray(s': State, rs: seq<Result>)
    requires GroupPlaced(Example(), Some(LAST), Example().groups[0], Initial(Example()), s', rs)
    ensures Astray(s')
  {
    ExampleStart();
    var members :| IsOutstanding(Example(), Initial(Example()), Members(), members)
                   && MembersPlaced(Example(), Some(LAST), [], members, Initial(Example()), s', rs);
    AllOutstanding(members);
    NothingSuitable();
    SplitGoesAstray(s', rs);
  }

  lemma NothingSuitable()
    ensures forall w :: !Suitable(Example(), Initial(Example()), Members(), w)
  {
    ExampleStart();
    assert |Members()| == 3;
  }

  lemma AllOutstanding(members: seq<Student>)
    requires IsOutstanding(Example(), Initial(Example()), Members(), members)
    ensures members == Members()
  {
    ExampleStart();
    var p := (m: Student) => m.userId in Cohort(Example()) && m.userId !in Initial(Example()).placed;
    EngineSteps.SameFilter(Members(), p, (m: Student) => m.userId in Cohort(Example()) && m.userId !in Initial(Example()).placed);
    FilterAll(Members(), p);
  }

  /** The leftover wing is the last one, which is not the strictest: it admits a student whom the first one refuses. */
  lemma LastIsNotStrictest()
    ensures !LeftoverIsStrictest(Example())
  {
    var c := Member("c", 2);
    ExampleWings();
    ExampleStart();
    ExampleEligible(c, FIRST);
    ExampleEligible(c, LAST);
    assert Example().groups[0] in Example().groups && c in Members();
    assert Listed(Example(), c) && c.userId in Cohort(Example());
    assert FIRST_ROOM in Example().rooms && KeyOf(FIRST_ROOM) in OpenKeys(Example().rooms);
  }

  lemma OnlyOneC(m: Student)
    requires m in Members() && m.userId == "c"
    ensures m == Member("c", 2)
  {
    assert Member("a", 1).userId == "a" && Member("b", 1).userId == "b";
  }

  lemma NotAdmitted()
    ensures !Admitted(Example(), "c", FIRST_ROOM)
  {
    ExampleEligible(Member("c", 2), FIRST);
    ExampleAllows(1, 2);
    forall m | m in Members() && m.userId == "c"
      ensures !ValidRoom(Example(), m, FIRST_ROOM) && !EligibleWing(Example(), m, FIRST)
    {
      OnlyOneC(m);
    }
  }

  lemma AstrayBreaksRules(s: State)
    requires Astray(s)
    ensures !KeepsToRules(Example(), s)
  {
    NotAdmitted();
    assert Member("c", 2) in Members();
    assert "c" in Cohort(Example());
    forall r | r in Example().rooms && r.id == s.placed["c"]
      ensures r == FIRST_ROOM
    {
    }
  }

  /**
   However a group-based run on this input goes, the student of year 2 ends in
   the wing closed to year 2: without its condition, what RunEnds says of the
   rules would be false.
   */
  lemma SplitSendsAstray(final: State, rs: seq<Result>)
    requires GroupRun(Example(), LastKey(WingOrder(Example().rooms)), BySize(Example().groups), final, rs)
    ensures Astray(final) && !ValidRoom(Example(), Member("c", 2), FIRST_ROOM) && !EligibleWing(Example(), Member("c", 2), FIRST)
    ensures !KeepsToRules(Example(), final) && !LeftoverIsStrictest(Example())
  {
    LastIsNotStrictest();
    ExampleWings();
    ExampleEligible(Member("c", 2), FIRST);
    ExampleAllows(1, 2);
    var groups := BySize(Example().groups);
    OneGroup();
    var s, a, remaining :| GroupPhase(Example(), Some(LAST), groups, |groups|, s, a) && IndividualPhase(Example(), s, remaining, a, final, rs);
    PhaseGoesAstray(s, a);
    SettlingStays(Example(), s, remaining, a, final, rs);
    AstrayBreaksRules(final);
  }

  lemma OneGroup()
    ensures BySize(Example().groups) == Example().groups
  {
    var groups := Example().groups;
    assert groups[1..] == [];
    assert SortBy(groups, SizeKey) == groups;
  }

  lemma PhaseGoesAstray(s: State, a: seq<Result>)
    requires GroupPhase(Example(), Some(LAST), Example().groups, 1, s, a)
    ensures Astray(s)
  {
    var s0, a0, b :| PhaseStep(Example(), Some(LAST), Example().groups, 1, s0, a0, s, b, a)
                     && GroupPhase(Example(), Some(LAST), Example().groups, 0, s0, a0);
    assert IsCount(a, |a|);
    GroupGoesAstray(s, b);
  }
}
