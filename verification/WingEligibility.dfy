/** Who sits in a wing that the rules open to them, split groups included. */
module WingEligibility {
  import opened Common
  import opened AllocationModel
  import opened AtomicUnits
  import opened Individuals
  import opened GroupPacking
  import opened InitialState
  import opened EngineSteps
  import opened RunSteps
  import opened WingChoice
  import opened WingPacking
  import opened GroupRuns
  import opened FcfsRun

  // ---------- Whom a step into one wing seats there ----------

  lemma DistinctFit<T(!new)>(a: seq<T>, b: seq<T>)
    requires Unique(a) && forall x :: x in a ==> x in b
    ensures |a| <= |b|
  {
    forall x
      ensures multiset(a)[x] <= multiset(b)[x]
    {
      UniqueCount(a, x);
      if x in multiset(a) {
        assert x in a && x in b;
      }
    }
    assert multiset(a) <= multiset(b);
    assert multiset(b) == multiset(a) + (multiset(b) - multiset(a));
    assert |multiset(a)| == |a| && |multiset(b)| == |b|;
  }

  ghost predicate SitsIn(inp: Inputs, s: State, id: StudentId, w: WingKey) {
    id in s.placed && exists q :: q in WingRooms(inp, w) && q.id == s.placed[id]
  }

  /** Whoever is newly placed by a step that fills the rooms of one wing only sits in one of them. */
  lemma NewlySeatedInWing(inp: Inputs, w: WingKey, s: State, s': State, id: StudentId)
    requires Agree(s) && Agree(s') && Grows(s, s') && OnlyInWing(inp, w, s, s')
    requires id in s'.placed && id !in s.placed
    ensures SitsIn(inp, s', id, w)
  {
    var r := s'.placed[id];
    var before := if r in s.rooms then s.rooms[r] else [];
    assert Unique(before + [id]) by {
      assert forall x :: x in before ==> x in s.placed;
    }
    forall x | x in before + [id]
      ensures x in s'.rooms[r]
    {
      if x in before {
        assert s'.placed[x] == r;
      }
    }
    DistinctFit(before + [id], s'.rooms[r]);
    assert Occ(s', r) != Occ(s, r);
  }

  /** A group for which some wing is suitable goes to the best one: as many of it as fit, and nobody elsewhere. */
  lemma GroupGoesTogether(inp: Inputs, key: Option<WingKey>, g: Group, s: State, s': State, rs: seq<Result>, members: seq<Student>, w: WingKey)
    requires Agree(s) && GroupPlaced(inp, key, g, s, s', rs) && IsOutstanding(inp, s, g.members, members)
    requires |members| > 0 && Suitable(inp, s, members, w)
    ensures exists best ::
              && BestSuitable(inp, s, members, g.preferences, best)
              && |set id | id in s'.placed && id !in s.placed| == MostPlaceable(inp, s, best, members)
              && forall id :: id in s'.placed && id !in s.placed ==> SitsIn(inp, s', id, best)
  {
    var best :| BestSuitable(inp, s, members, g.preferences, best)
                && OnlyInWing(inp, best, s, s') && |rs| == MostPlaceable(inp, s, best, members)
                && Advanced(inp, IdSet(members), s, s', rs);
    AllInOneWing(inp, best, IdSet(members), s, s', rs);
  }

  lemma AllInOneWing(inp: Inputs, w: WingKey, among: set<StudentId>, s: State, s': State, rs: seq<Result>)
    requires Agree(s) && OnlyInWing(inp, w, s, s') && Advanced(inp, among, s, s', rs)
    ensures |set id | id in s'.placed && id !in s.placed| == |rs|
    ensures forall id :: id in s'.placed && id !in s.placed ==> SitsIn(inp, s', id, w)
  {
    forall id | id in s'.placed && id !in s.placed
      ensures SitsIn(inp, s', id, w)
    {
      NewlySeatedInWing(inp, w, s, s', id);
    }
    NewlyPlacedCount(s, s', rs);
  }

  lemma NewlyPlacedCount(s: State, s': State, rs: seq<Result>)
    requires Reports(s, s', rs)
    ensures |set id | id in s'.placed && id !in s.placed| == |rs|
  {
    assert (set id | id in s'.placed && id !in s.placed) == ReportedIds(rs);
    ReportedCount(rs);
  }

  lemma {:induction false} ReportedCount(rs: seq<Result>)
    requires forall i, j :: 0 <= i < j < |rs| ==> rs[i].studentId != rs[j].studentId
    ensures |ReportedIds(rs)| == |rs|
  {
    if rs != [] {
      var n := |rs| - 1;
      ReportedCount(rs[..n]);
      assert rs == rs[..n] + [rs[n]];
      assert ReportedIds(rs) == ReportedIds(rs[..n]) + {rs[n].studentId};
    }
  }

  // ---------- One turn of a split ----------

  /** The student sits in a wing the student may enter. */
  ghost predicate SeatedLawfully(inp: Inputs, s: State, m: Student) {
    m.userId in s.placed && exists r :: r in inp.rooms && r.id == s.placed[m.userId] && EligibleWing(inp, m, KeyOf(r))
  }

  lemma LawfulInWing(inp: Inputs, s: State, m: Student, w: WingKey)
    requires WellFormed(inp) && SitsIn(inp, s, m.userId, w)
    ensures SeatedLawfully(inp, s, m) <==> EligibleWing(inp, m, w)
  {
    var q :| q in WingRooms(inp, w) && q.id == s.placed[m.userId];
    forall r | r in inp.rooms && r.id == q.id
      ensures r == q
    {
      RoomById(inp, q, r);
    }
  }

  /** Reporting as many students as were to be placed means having placed them all. */
  lemma AllOfThem(s: State, s': State, members: seq<Student>, rs: seq<Result>)
    requires Reports(s, s', rs) && s'.placed.Keys <= s.placed.Keys + IdSet(members)
    requires |rs| == |members|
    ensures IdSet(members) <= s'.placed.Keys
  {
    var ids := seq(|rs|, i requires 0 <= i < |rs| => rs[i].studentId);
    forall id | id in IdSet(members)
      ensures id in s'.placed
    {
      if id !in s'.placed {
        forall x | x in [id] + ids
          ensures x in Ids(members)
        {
        }
        DistinctFit([id] + ids, Ids(members));
      }
    }
  }

  lemma {:induction false} BatchWithin(inp: Inputs, units: seq<Unit>, key: WingKey, capacity: int)
    ensures forall u :: u in Batch(inp, units, key, capacity) || u in Kept(inp, units, key, capacity) ==> u in units
  {
    if |units| > 0 {
      var n := |units| - 1;
      assert units == units[..n] + [units[n]];
      BatchWithin(inp, units[..n], key, capacity);
    }
  }

  lemma BatchMembersEnter(inp: Inputs, units: seq<Unit>, key: WingKey, capacity: int, m: Student)
    requires m in Flat(Batch(inp, units, key, capacity))
    ensures EligibleWing(inp, m, key) && m in Flat(units)
  {
    var batch := Batch(inp, units, key, capacity);
    BatchIsGreedy(inp, units, key, capacity);
    BatchWithin(inp, units, key, capacity);
    InFlat(batch, m);
    var u: Unit :| u in batch && m in u;
    assert MayEnter(inp, u, key);
    InFlat(units, m);
  }

  lemma TurnSeats(inp: Inputs, key: WingKey, first: Option<WingKey>, best: WingKey, s: State, units: seq<Unit>, s': State,
                  units': seq<Unit>, rs: seq<Result>, m: Student)
    requires Agree(s) && SplitTurn(inp, Some(key), first, best, s, units, s', units', rs)
    requires m.userId in s'.placed && m.userId !in s.placed
    ensures SitsIn(inp, s', m.userId, best)
  {
    NewlySeatedInWing(inp, best, s, s', m.userId);
  }

  lemma LawfulForGood(inp: Inputs, s: State, later: State, m: Student, w: WingKey)
    requires WellFormed(inp) && SitsIn(inp, s, m.userId, w) && Grows(s, later)
    ensures SeatedLawfully(inp, later, m) <==> EligibleWing(inp, m, w)
  {
    LawfulInWing(inp, later, m, w);
  }

  /** The top-ranked wing takes the whole batch exactly when it has a two-bed space for each pair. */
  lemma BatchFitsIff(inp: Inputs, units: seq<Unit>, key: WingKey, s: State, best: WingKey, batch: seq<Unit>)
    requires WellFormed(inp) && Sound(inp, s) && Counted(inp, s) && best in s.wings
    requires batch == Batch(inp, units, key, s.wings[best]) && |batch| >= 1 && MembersReady(inp, s, Flat(batch))
    ensures MostPlaceable(inp, s, best, Flat(batch)) == |Flat(batch)|
            <==> Pairs(Units(inp.roommates, Flat(batch))) <= TwoBedTotal(s, WingRooms(inp, best))
  {
    var apart := Units(inp.roommates, Flat(batch));
    BatchIsGreedy(inp, units, key, s.wings[best]);
    UnitsCountMembers(inp, s, Flat(batch));
    GroupFitsIff(inp, s, best, Pairs(apart), Singles(apart));
  }

  /**
   A turn seats its students in the top-ranked wing for good. When that wing
   has a two-bed space for each pair of the batch, from then on they all sit in a wing they may enter if and
   only if every unit of the batch may enter the top-ranked wing. When that
   wing is the one the batch was tested against, they always do.
   */
  lemma TurnIsLawfulIff(inp: Inputs, key: WingKey, first: Option<WingKey>, best: WingKey, s: State, units: seq<Unit>, s': State,
                        units': seq<Unit>, rs: seq<Result>, batch: seq<Unit>, later: State)
    requires WellFormed(inp) && Sound(inp, s) && Counted(inp, s)
    requires SplitTurn(inp, Some(key), first, best, s, units, s', units', rs) && Grows(s', later)
    requires batch == Batch(inp, units, key, s.wings[best]) && MembersReady(inp, s, Flat(batch))
    ensures forall m :: m in Flat(batch) && m.userId in s'.placed ==>
              (SeatedLawfully(inp, later, m) <==> EligibleWing(inp, m, best))
    ensures Pairs(Units(inp.roommates, Flat(batch))) <= TwoBedTotal(s, WingRooms(inp, best)) ==>
              ((forall m :: m in Flat(batch) ==> SeatedLawfully(inp, later, m)) <==> (forall u :: u in batch ==> MayEnter(inp, u, best)))
    ensures best == key ==> forall m :: m in Flat(batch) && m.userId in s'.placed ==> SeatedLawfully(inp, later, m)
  {
    forall m | m in Flat(batch) && m.userId in s'.placed
      ensures SeatedLawfully(inp, later, m) <==> EligibleWing(inp, m, best)
      ensures EligibleWing(inp, m, key)
    {
      TurnSeats(inp, key, first, best, s, units, s', units', rs, m);
      LawfulForGood(inp, s', later, m, best);
      BatchMembersEnter(inp, units, key, s.wings[best], m);
    }
    BatchFitsIff(inp, units, key, s, best, batch);
    if MostPlaceable(inp, s, best, Flat(batch)) == |Flat(batch)| {
      AllOfThem(s, s', Flat(batch), rs);
      MayAllEnterFlat(inp, batch, best);
    }
  }

  lemma MayAllEnterFlat(inp: Inputs, units: seq<Unit>, w: WingKey)
    ensures (forall u :: u in units ==> MayEnter(inp, u, w)) <==> (forall m :: m in Flat(units) ==> EligibleWing(inp, m, w))
  {
    forall m
      ensures m in Flat(units) <==> exists u :: u in units && m in u
    {
      InFlat(units, m);
    }
    forall u, m | u in units && m in u
      ensures m in Flat(units)
    {
    }
  }

  // ---------- A whole run ----------

  ghost predicate Listed(inp: Inputs, m: Student) {
    exists g :: g in inp.groups && m in g.members
  }

  /** Listed in a group, and open to the wing. */
  ghost predicate EntersWithGroup(inp: Inputs, id: StudentId, w: WingKey) {
    exists m :: Listed(inp, m) && m.userId == id && EligibleWing(inp, m, w)
  }

  /** The room is valid for the student or for the roommate. */
  ghost predicate EntersWithUnit(inp: Inputs, id: StudentId, room: Room) {
    exists m :: m in inp.students && (m.userId == id || (id in inp.roommates && inp.roommates[id] == m.userId)) && ValidRoom(inp, m, room)
  }

  ghost predicate Admitted(inp: Inputs, id: StudentId, room: Room) {
    room.status.Available? && (EntersWithUnit(inp, id, room) || EntersWithGroup(inp, id, KeyOf(room)))
  }

  ghost predicate AdmittedByLeftover(inp: Inputs, key: Option<WingKey>, id: StudentId) {
    key.Some? && EntersWithGroup(inp, id, key.value)
  }

  ghost predicate AdmittedTo(inp: Inputs, id: StudentId, room: RoomId) {
    exists r :: r in inp.rooms && r.id == room && Admitted(inp, id, r)
  }

  ghost predicate AdmittedOrTested(inp: Inputs, key: Option<WingKey>, id: StudentId, room: RoomId) {
    exists r :: r in inp.rooms && r.id == room && r.status.Available? && (Admitted(inp, id, r) || AdmittedByLeftover(inp, key, id))
  }

  /** Every cohort student with a room was admitted to it, or to the wing a split tested. */
  ghost predicate SeatedByRules(inp: Inputs, key: Option<WingKey>, s: State) {
    forall id :: id in s.placed && id in Cohort(inp) ==> AdmittedOrTested(inp, key, id, s.placed[id])
  }

  /** Every cohort student with a room was admitted to it. */
  ghost predicate KeepsToRules(inp: Inputs, s: State) {
    forall id :: id in s.placed && id in Cohort(inp) ==> AdmittedTo(inp, id, s.placed[id])
  }

  /** A cohort student listed in a group who may enter the last wing of the order may enter every open wing. */
  ghost predicate LeftoverIsStrictest(inp: Inputs) {
    var key := LastKey(WingOrder(inp.rooms));
    key.Some? ==> forall m, w :: Listed(inp, m) && m.userId in Cohort(inp) && EligibleWing(inp, m, key.value) && w in OpenKeys(inp.rooms)
                                 ==> EligibleWing(inp, m, w)
  }

  lemma StrictestKeeps(inp: Inputs, s: State)
    requires SeatedByRules(inp, LastKey(WingOrder(inp.rooms)), s) && LeftoverIsStrictest(inp)
    ensures KeepsToRules(inp, s)
  {
    var key := LastKey(WingOrder(inp.rooms));
    forall id | id in s.placed && id in Cohort(inp)
      ensures AdmittedTo(inp, id, s.placed[id])
    {
      var r :| r in inp.rooms && r.id == s.placed[id] && r.status.Available? && (Admitted(inp, id, r) || AdmittedByLeftover(inp, key, id));
      assert KeyOf(r) in OpenKeys(inp.rooms);
    }
  }

  /** A step into one wing, of listed students who may enter it or the leftover one. */
  lemma StepByRules(inp: Inputs, key: Option<WingKey>, w: WingKey, s: State, s': State, members: seq<Student>)
    requires SeatedByRules(inp, key, s) && Agree(s) && Agree(s') && Grows(s, s') && OnlyInWing(inp, w, s, s')
    requires s'.placed.Keys <= s.placed.Keys + IdSet(members)
    requires forall m :: m in members ==> Listed(inp, m) && (EligibleWing(inp, m, w) || (key.Some? && EligibleWing(inp, m, key.value)))
    ensures SeatedByRules(inp, key, s')
  {
    forall id | id in s'.placed && id in Cohort(inp)
      ensures AdmittedOrTested(inp, key, id, s'.placed[id])
    {
      if id !in s.placed {
        NewlySeatedInWing(inp, w, s, s', id);
        var q :| q in WingRooms(inp, w) && q.id == s'.placed[id];
        var m :| m in members && m.userId == id;
        assert EligibleWing(inp, m, w) ==> EntersWithGroup(inp, id, KeyOf(q));
        assert q in inp.rooms;
      }
    }
  }

  lemma TurnByRules(inp: Inputs, key: WingKey, first: Option<WingKey>, best: WingKey, s: State, units: seq<Unit>, s': State,
                    units': seq<Unit>, rs: seq<Result>)
    requires SeatedByRules(inp, Some(key), s) && Agree(s) && SplitTurn(inp, Some(key), first, best, s, units, s', units', rs)
    requires forall m :: m in Flat(units) ==> Listed(inp, m)
    ensures SeatedByRules(inp, Some(key), s') && Agree(s') && forall m :: m in Flat(units') ==> Listed(inp, m)
  {
    var batch := Batch(inp, units, key, s.wings[best]);
    forall m | m in Flat(batch)
      ensures Listed(inp, m) && EligibleWing(inp, m, key)
    {
      BatchMembersEnter(inp, units, key, s.wings[best], m);
    }
    StepByRules(inp, Some(key), best, s, s', Flat(batch));
    BatchWithin(inp, units, key, s.wings[best]);
    forall m | m in Flat(units')
      ensures Listed(inp, m)
    {
      InFlat(units', m);
      InFlat(units, m);
    }
  }

  lemma LastOfTurns(inp: Inputs, key: Option<WingKey>, n: nat, s0: State, units0: seq<Unit>, s': State, units': seq<Unit>,
                    first': Option<WingKey>, rs: seq<Result>)
    returns (s: State, units: seq<Unit>, first: Option<WingKey>, best: WingKey, a: seq<Result>, b: seq<Result>)
    requires n > 0 && SplitTurns(inp, key, n, s0, units0, s', units', first', rs)
    ensures Turned(inp, key, n - 1, s0, units0, s, units, first, a) && SplitTurn(inp, key, first, best, s, units, s', units', b)
    ensures first' == FirstUsed(first, best) && rs == a + b
  {
    s, units, first, best, a, b :|
      && Turned(inp, key, n - 1, s0, units0, s, units, first, a)
      && SplitTurn(inp, key, first, best, s, units, s', units', b)
      && first' == FirstUsed(first, best) && rs == a + b;
  }

  lemma {:induction false} TurnsByRules(inp: Inputs, key: Option<WingKey>, n: nat, s0: State, units0: seq<Unit>, s': State, units': seq<Unit>,
                                        first': Option<WingKey>, rs: seq<Result>)
    requires SeatedByRules(inp, key, s0) && Agree(s0) && forall m :: m in Flat(units0) ==> Listed(inp, m)
    requires SplitTurns(inp, key, n, s0, units0, s', units', first', rs)
    ensures SeatedByRules(inp, key, s') && Agree(s') && forall m :: m in Flat(units') ==> Listed(inp, m)
  {
    if n > 0 {
      var s, units, first, best, a, b := LastOfTurns(inp, key, n, s0, units0, s', units', first', rs);
      assert IsTurn(n - 1, n - 1);
      TurnsByRules(inp, key, n - 1, s0, units0, s, units, first, a);
      TurnByRules(inp, key.value, first, best, s, units, s', units', b);
    }
  }

  lemma GroupByRules(inp: Inputs, key: Option<WingKey>, g: Group, s: State, s': State, rs: seq<Result>)
    requires WellFormed(inp) && g in inp.groups && SeatedByRules(inp, key, s) && Agree(s)
    requires GroupPlaced(inp, key, g, s, s', rs)
    ensures SeatedByRules(inp, key, s') && Agree(s')
  {
    var members :| IsOutstanding(inp, s, g.members, members) && MembersPlaced(inp, key, g.preferences, members, s, s', rs);
    forall m | m in members
      ensures Listed(inp, m)
    {
      assert m in g.members;
    }
    MembersByRules(inp, key, g.preferences, members, s, s', rs);
  }

  lemma MembersByRules(inp: Inputs, key: Option<WingKey>, preferences: seq<int>, members: seq<Student>, s: State, s': State, rs: seq<Result>)
    requires WellFormed(inp) && SeatedByRules(inp, key, s) && Agree(s) && forall m :: m in members ==> Listed(inp, m)
    requires MembersPlaced(inp, key, preferences, members, s, s', rs)
    ensures SeatedByRules(inp, key, s') && Agree(s')
  {
    if |members| == 0 {
    } else if w :| Suitable(inp, s, members, w) {
      var v :| BestSuitable(inp, s, members, preferences, v) && OnlyInWing(inp, v, s, s') && Advanced(inp, IdSet(members), s, s', rs);
      StepByRules(inp, key, v, s, s', members);
    } else {
      SplitByRules(inp, key, members, s, s', rs);
    }
  }

  lemma SplitByRules(inp: Inputs, key: Option<WingKey>, members: seq<Student>, s: State, s': State, rs: seq<Result>)
    requires WellFormed(inp) && SeatedByRules(inp, key, s) && Agree(s) && forall m :: m in members ==> Listed(inp, m)
    requires SplitOver(inp, key, members, s, s', rs)
    ensures SeatedByRules(inp, key, s') && Agree(s')
  {
    var n, units, first :|
      SplitTurns(inp, key, n, s, Units(inp.roommates, members), s', units, first, rs) && SplitStuck(inp, key, s', units, first);
    PartitionOfUnits(inp.roommates, members);
    forall m | m in Flat(Units(inp.roommates, members))
      ensures Listed(inp, m)
    {
      InFlat(Units(inp.roommates, members), m);
    }
    TurnsByRules(inp, key, n, s, Units(inp.roommates, members), s', units, first, rs);
  }

  lemma StartByRules(inp: Inputs, key: Option<WingKey>)
    requires WellFormed(inp)
    ensures SeatedByRules(inp, key, Initial(inp)) && Agree(Initial(inp))
  {
    InitialSound(inp);
  }

  lemma PhaseStepByRules(inp: Inputs, key: Option<WingKey>, groups: seq<Group>, k: nat, s: State, a: seq<Result>, s': State, b: seq<Result>,
                         rs: seq<Result>)
    requires WellFormed(inp) && 0 < k <= |groups| && groups[k - 1] in inp.groups && PhaseStep(inp, key, groups, k, s, a, s', b, rs)
    requires SeatedByRules(inp, key, s) && Agree(s)
    ensures SeatedByRules(inp, key, s') && Agree(s')
  {
    assert IsCount(rs, |rs|);
    GroupByRules(inp, key, groups[k - 1], s, s', b);
  }

  lemma LastOfPhase(inp: Inputs, key: Option<WingKey>, groups: seq<Group>, k: nat, s': State, rs: seq<Result>)
    returns (s: State, a: seq<Result>, b: seq<Result>)
    requires 0 < k && GroupPhase(inp, key, groups, k, s', rs)
    ensures k <= |groups| && PhaseStep(inp, key, groups, k, s, a, s', b, rs) && GroupPhase(inp, key, groups, k - 1, s, a)
  {
    s, a, b :| PhaseStep(inp, key, groups, k, s, a, s', b, rs) && GroupPhase(inp, key, groups, k - 1, s, a);
  }

  lemma {:induction false} PhaseByRules(inp: Inputs, key: Option<WingKey>, groups: seq<Group>, k: nat, s': State, rs: seq<Result>)
    requires WellFormed(inp) && (forall g :: g in groups ==> g in inp.groups) && GroupPhase(inp, key, groups, k, s', rs)
    ensures SeatedByRules(inp, key, s') && Agree(s')
  {
    if k == 0 {
      StartByRules(inp, key);
    } else {
      var s, a, b := LastOfPhase(inp, key, groups, k, s', rs);
      PhaseByRules(inp, key, groups, k - 1, s, a);
      PhaseStepByRules(inp, key, groups, k, s, a, s', b, rs);
    }
  }

  // ---------- The individual phase ----------

  /** A unit of the cohort: its first member and at most that student's roommate. */
  ghost predicate LedByStudent(inp: Inputs, u: Unit) {
    |u| >= 1 && u[0] in inp.students
    && forall m :: m in u ==> m == u[0] || (m.userId in inp.roommates && inp.roommates[m.userId] == u[0].userId)
  }

  lemma SettleByRules(inp: Inputs, key: Option<WingKey>, s: State, u: Unit)
    requires SeatedByRules(inp, key, s) && LedByStudent(inp, u)
    ensures SeatedByRules(inp, key, Settle(inp, s, u).0)
  {
    BestRoomIsBest(inp, s, u[0], |u|);
    IdsOfUnit(u);
    var s', room := Settle(inp, s, u).0, BestRoom(inp, s, u[0], |u|);
    forall id | id in s'.placed && id in Cohort(inp)
      ensures AdmittedOrTested(inp, key, id, s'.placed[id])
    {
      if id in IdSet(u) && room.Some? {
        assert EntersWithUnit(inp, id, room.value);
      }
    }
  }

  lemma {:induction false} SettleAllByRules(inp: Inputs, key: Option<WingKey>, s: State, units: seq<Unit>)
    requires SeatedByRules(inp, key, s) && forall u :: u in units ==> |u| >= 1 && LedByStudent(inp, u)
    ensures SeatedByRules(inp, key, SettleAll(inp, s, units).0)
  {
    if units != [] {
      LastUnit(units);
      SettleAllByRules(inp, key, s, units[..|units| - 1]);
      SettleByRules(inp, key, SettleAll(inp, s, units[..|units| - 1]).0, units[|units| - 1]);
    }
  }

  lemma RemainingLed(inp: Inputs, s: State, remaining: seq<Student>, u: Unit)
    requires IsMatching(inp.roommates) && IsRemaining(inp, s, remaining) && u in SortUnits(Units(inp.roommates, remaining))
    ensures LedByStudent(inp, u)
  {
    PartitionOfUnits(inp.roommates, remaining);
    SortUnitsPairsFirst(Units(inp.roommates, remaining));
    ProperUnitLed(inp, remaining, u);
  }

  lemma ProperUnitLed(inp: Inputs, remaining: seq<Student>, u: Unit)
    requires IsMatching(inp.roommates) && ProperUnit(inp.roommates, remaining, u) && forall m :: m in remaining ==> m in inp.students
    ensures LedByStudent(inp, u)
  {
    assert u[0] in u;
  }

  /**
   At the end of every group-based or wing-FCFS run each cohort student with a
   room may enter its wing, or was tested against the leftover wing instead.
   */
  lemma GroupRunByRules(inp: Inputs, key: Option<WingKey>, groups: seq<Group>, final: State, rs: seq<Result>)
    requires WellFormed(inp) && (forall g :: g in groups ==> g in inp.groups) && GroupRun(inp, key, groups, final, rs)
    ensures SeatedByRules(inp, key, final)
  {
    var s, a, remaining :| GroupPhase(inp, key, groups, |groups|, s, a) && IndividualPhase(inp, s, remaining, a, final, rs);
    PhaseByRules(inp, key, groups, |groups|, s, a);
    forall u | u in SortUnits(Units(inp.roommates, remaining))
      ensures LedByStudent(inp, u)
    {
      RemainingLed(inp, s, remaining, u);
    }
    SettleAllByRules(inp, key, s, SortUnits(Units(inp.roommates, remaining)));
  }

  /**
   What a group-based or wing-FCFS run ends with, the rules included. That
   nobody enters a wing closed to them rests on the leftover wing being the
   strictest.
   */
  ghost predicate RunEnds(inp: Inputs, s: State, rs: seq<Result>) {
    && RunSettles(inp, s, rs)
    && SeatedByRules(inp, LastKey(WingOrder(inp.rooms)), s)
    && (LeftoverIsStrictest(inp) ==> KeepsToRules(inp, s))
  }

  lemma GroupRunNow(inp: Inputs, key: Option<WingKey>, groups: seq<Group>, s: State, a: seq<Result>, remaining: seq<Student>, final: State,
                    rs: seq<Result>)
    requires GroupPhase(inp, key, groups, |groups|, s, a) && IndividualPhase(inp, s, remaining, a, final, rs)
    ensures GroupRun(inp, key, groups, final, rs)
  {
  }

  lemma RunEndsByRules(inp: Inputs, groups: seq<Group>, final: State, rs: seq<Result>)
    requires WellFormed(inp) && (forall g :: g in groups ==> g in inp.groups) && RunSettles(inp, final, rs)
    requires GroupRun(inp, LastKey(WingOrder(inp.rooms)), groups, final, rs)
    ensures RunEnds(inp, final, rs)
  {
    GroupRunByRules(inp, LastKey(WingOrder(inp.rooms)), groups, final, rs);
    if LeftoverIsStrictest(inp) {
      StrictestKeeps(inp, final);
    }
  }

  // ---------- From wings to rooms ----------

  /** The open rooms behind the key carry one and the same wing name. */
  ghost predicate NamedAlike(inp: Inputs, w: WingKey) {
    forall q, r :: q in WingRooms(inp, w) && r in WingRooms(inp, w) ==> q.wing == r.wing
  }

  ghost predicate LivesElsewhere(inp: Inputs, m: Student, w: WingKey) {
    forall r :: r in WingRooms(inp, w) ==> !IsCurrentRoom(m, r)
  }

  /**
   A student who does not live in a wing whose rooms are named alike may
   enter it if and only if it has open rooms and all of them are valid.
   */
  lemma EligibleWingIff(inp: Inputs, m: Student, w: WingKey)
    requires NamedAlike(inp, w) && LivesElsewhere(inp, m, w)
    ensures EligibleWing(inp, m, w)
            <==> WingRooms(inp, w) != [] && forall r :: r in WingRooms(inp, w) ==> ValidRoom(inp, m, r)
  {
    if r :| r in inp.rooms && ValidRoom(inp, m, r) && KeyOf(r) == w {
      assert r in WingRooms(inp, w);
    }
    if WingRooms(inp, w) != [] {
      assert WingRooms(inp, w)[0] in WingRooms(inp, w);
    }
  }

  /** Group members of the cohort are listed as in the cohort, live in no open room, and wings are named alike. */
  ghost predicate PlainWings(inp: Inputs) {
    forall m, w :: Listed(inp, m) && m.userId in Cohort(inp) && w in OpenKeys(inp.rooms)
                   ==> m in inp.students && NamedAlike(inp, w) && LivesElsewhere(inp, m, w)
  }

  lemma PlainForMember(inp: Inputs, m: Student, r: Room)
    requires PlainWings(inp) && Listed(inp, m) && m.userId in Cohort(inp) && r in inp.rooms && r.status.Available?
    ensures m in inp.students && NamedAlike(inp, KeyOf(r)) && LivesElsewhere(inp, m, KeyOf(r))
  {
    assert KeyOf(r) in OpenKeys(inp.rooms);
  }

  lemma ValidWithGroup(inp: Inputs, m: Student, r: Room)
    requires WellFormed(inp) && PlainWings(inp) && m in inp.students
    requires r in inp.rooms && r.status.Available? && EntersWithGroup(inp, m.userId, KeyOf(r))
    ensures RoomFor(inp, m, r.id)
  {
    var n :| Listed(inp, n) && n.userId == m.userId && EligibleWing(inp, n, KeyOf(r));
    PlainForMember(inp, n, r);
    SameStudent(inp, m, n);
    EligibleWingIff(inp, m, KeyOf(r));
    assert r in WingRooms(inp, KeyOf(r));
    assert ValidForLead(inp, m, r.id, r, m);
  }

  lemma ValidWithUnit(inp: Inputs, m: Student, r: Room)
    requires WellFormed(inp) && m in inp.students
    requires r in inp.rooms && EntersWithUnit(inp, m.userId, r)
    ensures RoomFor(inp, m, r.id)
  {
    var n :| n in inp.students && (n.userId == m.userId || (m.userId in inp.roommates && inp.roommates[m.userId] == n.userId))
             && ValidRoom(inp, n, r);
    if n.userId == m.userId {
      SameStudent(inp, m, n);
    }
    assert ValidForLead(inp, m, r.id, r, n);
  }

  /** Then everyone admitted to a room has one that is valid for them or their roommate. */
  lemma AdmittedToValidRooms(inp: Inputs, s: State)
    requires WellFormed(inp) && KeepsToRules(inp, s) && PlainWings(inp)
    ensures AllInValidRooms(inp, s)
  {
    forall m | m in inp.students && m.userId in s.placed
      ensures RoomFor(inp, m, s.placed[m.userId])
    {
      var r :| r in inp.rooms && r.id == s.placed[m.userId] && Admitted(inp, m.userId, r);
      if EntersWithGroup(inp, m.userId, KeyOf(r)) {
        ValidWithGroup(inp, m, r);
      } else {
        ValidWithUnit(inp, m, r);
      }
    }
  }
}
