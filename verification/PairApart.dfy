/**
 A group that lists one member of a pair and not the other. The group phase
 places the one, and no bed is left for the other when the individual phase
 comes. The example shows what the engine does with such a group; that every
 group lists both or neither of a pair is the condition under which runs keep
 that pair together, whatever groups do to other pairs.
 */
module PairApart {
  import opened Common
  import opened AllocationModel
  import opened AtomicUnits
  import opened WingPacking
  import opened GroupPacking
  import opened InitialState
  import opened EngineSteps
  import opened RunSteps
  import opened WingChoice
  import opened GroupRuns

  // One single room, open to all. Students "a" and "b" are roommates; the
  // group lists "a" only.

  const WING := WingKey(1, "main", 0)
  const ROOM := Room(1, 1, 1, None, None, 1, Available)
  const A := Student("a", 1, Male, None, None, [])
  const B := Student("b", 1, Male, None, None, [])

  function Example(): Inputs {
    Inputs([A, B], [Group(1, [A], [])], map[1 := Hostel(1, CoEd)], [ROOM], [], map["a" := "b", "b" := "a"], [], _ => 0)
  }

  lemma ExampleFormed()
    ensures WellFormed(Example())
  {
    var ids := Ids(Example().students);
    assert ids[0] == "a" && ids[1] == "b" && "a" != "b";
    assert IsMatching(Example().roommates);
  }

  lemma GroupListsOne()
    ensures CohortPair(Example(), "a") && Example().roommates["a"] == "b" && !KeptPair(Example(), "a")
  {
    assert A in Example().students && B in Example().students;
    assert Example().groups[0] in Example().groups && A in [A];
    assert "a" in IdSet([A]) && "b" !in IdSet([A]);
    assert "a" in Cohort(Example()) && "b" in Cohort(Example());
    assert "a" in Example().roommates && Example().roommates["a"] == "b";
  }

  lemma ExampleStart()
    ensures var s := Initial(Example()); s.rooms == map[] && s.placed == map[] && s.wings.Keys == {WING} && s.wings[WING] == 1
  {
    var rooms := Example().rooms;
    assert rooms[..0] == [] && rooms[0] in rooms;
    assert BedsIn(rooms, WING) == 1;
    assert OpenKeys(rooms) == {WING};
  }

  lemma ExampleWing()
    ensures WingRooms(Example(), WING) == [ROOM] && EligibleWing(Example(), A, WING)
  {
    assert Example().rooms[..0] == [] && Example().rooms[0] in Example().rooms;
    assert ValidRoom(Example(), A, ROOM);
  }

  lemma ExampleUnits()
    ensures Units(Example().roommates, [A]) == [[A]] && Pairs([[A]]) == 0 && Singles([[A]]) == 1
  {
    assert UnitsUpTo(Example().roommates, [A], 0) == [];
    assert UnitsUpTo(Example().roommates, [A], 1) == [[A]];
    assert [[A]][..0] == [];
  }

  lemma OneBed()
    ensures MostPlaceable(Example(), Initial(Example()), WING, [A]) == 1
  {
    ExampleStart();
    ExampleWing();
    ExampleUnits();
    var s, one := Initial(Example()), [ROOM];
    assert one[..0] == [];
    assert FreeTotal(s, one) == 1 && TwoBedTotal(s, one) == 0;
  }

  lemma WingSuits()
    ensures Suitable(Example(), Initial(Example()), [A], WING)
  {
    ExampleStart();
    ExampleWing();
    ExampleUnits();
    assert [[A]][..0] == [];
    assert LargestUnit([[A]]) == 1;
    assert ROOM in WingRooms(Example(), WING);
  }

  lemma NoOtherWing(w: WingKey)
    requires Suitable(Example(), Initial(Example()), [A], w)
    ensures w == WING
  {
    ExampleStart();
  }

  lemma OneReported(inp: Inputs, s: State, s': State, m: Student, rs: seq<Result>)
    requires |rs| == 1 && Advanced(inp, IdSet([m]), s, s', rs)
    ensures m.userId in s'.placed
  {
    assert rs[0] in rs && rs[0].studentId in s'.placed.Keys;
  }

  lemma GroupTakesBed(s': State, rs: seq<Result>)
    requires MembersPlaced(Example(), Some(WING), [], [A], Initial(Example()), s', rs)
    ensures "a" in s'.placed
  {
    WingSuits();
    var w := WingTaken(Example(), Some(WING), [], [A], Initial(Example()), s', rs, WING);
    NoOtherWing(w);
    OneBed();
    OneReported(Example(), Initial(Example()), s', A, rs);
  }

  lemma WingTaken(inp: Inputs, key: Option<WingKey>, preferences: seq<int>, members: seq<Student>, s: State, s': State, rs: seq<Result>,
                  v: WingKey)
    returns (w: WingKey)
    requires |members| > 0 && MembersPlaced(inp, key, preferences, members, s, s', rs) && Suitable(inp, s, members, v)
    ensures Suitable(inp, s, members, w) && |rs| == MostPlaceable(inp, s, w, members) && Advanced(inp, IdSet(members), s, s', rs)
  {
    w :| BestSuitable(inp, s, members, preferences, w) && OnlyInWing(inp, w, s, s') && |rs| == MostPlaceable(inp, s, w, members)
         && Advanced(inp, IdSet(members), s, s', rs);
  }

  lemma GroupTakesBedInTurn(s': State, rs: seq<Result>)
    requires GroupPlaced(Example(), Some(WING), Example().groups[0], Initial(Example()), s', rs)
    ensures "a" in s'.placed
  {
    ExampleStart();
    var members :| IsOutstanding(Example(), Initial(Example()), [A], members)
                   && MembersPlaced(Example(), Some(WING), [], members, Initial(Example()), s', rs);
    OnlyA(members);
    GroupTakesBed(s', rs);
  }

  lemma OnlyA(members: seq<Student>)
    requires IsOutstanding(Example(), Initial(Example()), [A], members)
    ensures members == [A]
  {
    ExampleStart();
    assert A in Example().students;
    var p := (m: Student) => m.userId in Cohort(Example()) && m.userId !in Initial(Example()).placed;
    SameFilter([A], p, (m: Student) => m.userId in Cohort(Example()) && m.userId !in Initial(Example()).placed);
    FilterAll([A], p);
  }

  lemma PhaseTakesBed(s: State, a: seq<Result>)
    requires GroupPhase(Example(), Some(WING), Example().groups, 1, s, a)
    ensures "a" in s.placed
  {
    var s0, a0, b :| PhaseStep(Example(), Some(WING), Example().groups, 1, s0, a0, s, b, a)
                     && GroupPhase(Example(), Some(WING), Example().groups, 0, s0, a0);
    assert IsCount(a, |a|);
    GroupTakesBedInTurn(s, b);
  }

  lemma TwoOccupants(s: State, x: StudentId, y: StudentId)
    requires Agree(s) && x != y && x in s.placed && y in s.placed && s.placed[x] == s.placed[y]
    ensures Occ(s, s.placed[x]) >= 2
  {
    var sitting := s.rooms[s.placed[x]];
    var i :| 0 <= i < |sitting| && sitting[i] == x;
    var j :| 0 <= j < |sitting| && sitting[j] == y;
  }

  lemma InOnlyRoom(s: State, m: Student)
    requires Sound(Example(), s) && m in Example().students && m.userId in s.placed
    ensures s.placed[m.userId] == ROOM.id
  {
    assert s.placed[m.userId] in RoomIds(Example());
  }

  lemma NoBedForBoth(s: State)
    requires Sound(Example(), s) && "a" in s.placed
    ensures "b" !in s.placed
  {
    assert A in Example().students && B in Example().students;
    assert Occ(s, Example().rooms[0].id) <= 1;
    InOnlyRoom(s, A);
    if "b" in s.placed {
      InOnlyRoom(s, B);
      TwoOccupants(s, "a", "b");
      assert false;
    }
  }

  /** However a group-based run on this input goes, one roommate ends with a room and the other without. */
  lemma GroupDividesPair(final: State, rs: seq<Result>)
    requires RunSettles(Example(), final, rs)
    requires GroupRun(Example(), LastKey(WingOrder(Example().rooms)), BySize(Example().groups), final, rs)
    ensures WellFormed(Example()) && CohortPair(Example(), "a") && !KeptPair(Example(), "a")
    ensures "a" in final.placed && "b" !in final.placed && !SameSeat(Example(), final, "a")
  {
    ExampleFormed();
    GroupListsOne();
    var groups := BySize(Example().groups);
    OrderOfOne();
    var s, a, remaining :| GroupPhase(Example(), Some(WING), groups, 1, s, a) && IndividualPhase(Example(), s, remaining, a, final, rs);
    PhaseTakesBed(s, a);
    SettlingStays(Example(), s, remaining, a, final, rs);
    NoBedForBoth(final);
  }

  lemma OrderOfOne()
    ensures BySize(Example().groups) == Example().groups && LastKey(WingOrder(Example().rooms)) == Some(WING)
  {
    var groups, rooms := Example().groups, Example().rooms;
    assert groups[1..] == [] && rooms[..0] == [];
    assert SortBy(groups, SizeKey) == groups;
  }
}
