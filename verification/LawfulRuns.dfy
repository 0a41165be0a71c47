/** Exactly which runs seat their groups in wings open to the members: those whose split turns all do. */
module LawfulRuns {
  import opened Common
  import opened AllocationModel
  import opened AtomicUnits
  import opened Individuals
  import opened GroupPacking
  import opened InitialState
  import opened EngineSteps
  import opened RunSteps
  import opened WingChoice
  import opened GroupRuns
  import opened WingEligibility

  // ---------- Courses of lawful turns ----------

  /** Whoever of the batch is seated may enter the top-ranked wing. */
  ghost predicate LawfulTurn(inp: Inputs, key: Option<WingKey>, best: WingKey, s: State, units: seq<Unit>, s': State) {
    && key.Some? && best in s.wings
    && forall m :: m in Flat(Batch(inp, units, key.value, s.wings[best])) && m.userId in s'.placed ==> EligibleWing(inp, m, best)
  }

  /** n turns from s0 and units0, all of them lawful. */
  ghost predicate LawfulTurns(inp: Inputs, key: Option<WingKey>, n: nat, s0: State, units0: seq<Unit>, s': State, units': seq<Unit>,
                              first': Option<WingKey>, rs: seq<Result>)
    decreases n, 0
  {
    if n == 0 then s' == s0 && units' == units0 && first'.None? && rs == []
    else exists s, units, first, best, a, b ::
           && LawfullyTurned(inp, key, n - 1, s0, units0, s, units, first, a)
           && SplitTurn(inp, key, first, best, s, units, s', units', b) && LawfulTurn(inp, key, best, s, units, s')
           && first' == FirstUsed(first, best) && rs == a + b
  }

  /** The same, stated so that a proof about the last turn need not look at those before. */
  ghost predicate LawfullyTurned(inp: Inputs, key: Option<WingKey>, n: nat, s0: State, units0: seq<Unit>, s: State, units: seq<Unit>,
                                 first: Option<WingKey>, rs: seq<Result>)
    decreases n, 1
  {
    forall m: nat :: IsTurn(m, n) ==> LawfulTurns(inp, key, m, s0, units0, s, units, first, rs)
  }

  ghost predicate LawfullyOver(inp: Inputs, key: Option<WingKey>, members: seq<Student>, s: State, s': State, rs: seq<Result>) {
    exists n, units, first ::
      LawfulTurns(inp, key, n, s, Units(inp.roommates, members), s', units, first, rs) && SplitStuck(inp, key, s', units, first)
  }

  /** A group placed with a lawful split, if it is split at all. */
  ghost predicate MembersLawful(inp: Inputs, key: Option<WingKey>, preferences: seq<int>, members: seq<Student>, s: State, s': State,
                                rs: seq<Result>)
  {
    && MembersPlaced(inp, key, preferences, members, s, s', rs)
    && (|members| == 0 || (exists w :: Suitable(inp, s, members, w)) || LawfullyOver(inp, key, members, s, s', rs))
  }

  // ---------- One turn ----------

  /** Those of the students who have a room in s sit in a wing open to them in the end. */
  ghost predicate AllLawful(inp: Inputs, students: seq<Student>, s: State, later: State) {
    forall m :: m in students && m.userId in s.placed ==> SeatedLawfully(inp, later, m)
  }

  /** Safe, with the kept pairs together. */
  ghost predicate Orderly(inp: Inputs, s: State) {
    Sound(inp, s) && KeptTogether(inp, s)
  }

  /** A turn leaves a sound state and waiting units, and its batch was unplaced. */
  lemma TurnKeepsWaiting(inp: Inputs, key: Option<WingKey>, first: Option<WingKey>, best: WingKey, among: set<StudentId>, s: State,
                         units: seq<Unit>, s': State, units': seq<Unit>, rs: seq<Result>)
    requires Orderly(inp, s) && Waiting(inp, among, s, units) && SplitTurn(inp, key, first, best, s, units, s', units', rs)
    ensures Waiting(inp, among, s', units') && Orderly(inp, s') && Stays(s, s')
    ensures Unplaced(s, Flat(Batch(inp, units, key.value, s.wings[best])))
    ensures s'.placed.Keys <= s.placed.Keys + IdSet(Flat(Batch(inp, units, key.value, s.wings[best])))
  {
    var batch, kept := Batch(inp, units, key.value, s.wings[best]), Kept(inp, units, key.value, s.wings[best]);
    BatchDivides(inp, units, key.value, s.wings[best]);
    BatchReady(inp, among, s, units, batch, kept);
    RestWaits(inp, among, IdSet(Flat(batch)), s, s', kept);
  }

  /** A turn is lawful if and only if its students sit lawfully in the end. */
  lemma LawfulTurnIff(inp: Inputs, key: Option<WingKey>, first: Option<WingKey>, best: WingKey, s: State, units: seq<Unit>, s': State,
                      units': seq<Unit>, rs: seq<Result>, later: State)
    requires WellFormed(inp) && Agree(s) && SplitTurn(inp, key, first, best, s, units, s', units', rs) && Stays(s', later)
    requires Unplaced(s, Flat(Batch(inp, units, key.value, s.wings[best])))
    ensures LawfulTurn(inp, key, best, s, units, s')
            <==> AllLawful(inp, Flat(Batch(inp, units, key.value, s.wings[best])), s', later)
  {
    forall m | m in Flat(Batch(inp, units, key.value, s.wings[best])) && m.userId in s'.placed
      ensures SeatedLawfully(inp, later, m) <==> EligibleWing(inp, m, best)
    {
      TurnSeats(inp, key.value, first, best, s, units, s', units', rs, m);
      assert SitsIn(inp, later, m.userId, best);
      LawfulInWing(inp, later, m, best);
    }
  }

  // ---------- All turns of a split ----------

  /** What holds between the turns of a split among the students that began in s0: waiting units of these, nobody else placed. */
  ghost predicate BetweenTurns(inp: Inputs, students: seq<Student>, s0: State, s: State, units: seq<Unit>) {
    && Orderly(inp, s) && Waiting(inp, IdSet(students), s, units) && Unique(Ids(students))
    && (forall m :: m in Flat(units) ==> m in students)
    && Stays(s0, s) && s.placed.Keys <= s0.placed.Keys + IdSet(students)
  }

  lemma TurnStaysBetween(inp: Inputs, key: Option<WingKey>, first: Option<WingKey>, best: WingKey, students: seq<Student>, s0: State,
                           s: State, units: seq<Unit>, s': State, units': seq<Unit>, rs: seq<Result>)
    requires BetweenTurns(inp, students, s0, s, units) && SplitTurn(inp, key, first, best, s, units, s', units', rs)
    ensures BetweenTurns(inp, students, s0, s', units')
    ensures forall m :: m in Flat(Batch(inp, units, key.value, s.wings[best])) ==> m in students
  {
    TurnKeepsWaiting(inp, key, first, best, IdSet(students), s, units, s', units', rs);
    BatchWithin(inp, units, key.value, s.wings[best]);
    forall m | m in Flat(units') || m in Flat(Batch(inp, units, key.value, s.wings[best]))
      ensures m in students
    {
      InFlat(units', m);
      InFlat(Batch(inp, units, key.value, s.wings[best]), m);
      InFlat(units, m);
    }
  }

  lemma SameRecord(students: seq<Student>, m: Student, n: Student)
    requires Unique(Ids(students)) && m in students && n in students && m.userId == n.userId
    ensures m == n
  {
    var i :| 0 <= i < |students| && students[i] == m;
    var j :| 0 <= j < |students| && students[j] == n;
    assert Ids(students)[i] == Ids(students)[j];
  }

  /** Those with a room after a step are those with one before and those of the batch. */
  lemma AllLawfulThen(inp: Inputs, students: seq<Student>, batch: seq<Student>, s: State, s': State, later: State)
    requires Unique(Ids(students)) && (forall m :: m in batch ==> m in students) && Stays(s, s')
    requires s'.placed.Keys <= s.placed.Keys + IdSet(batch)
    ensures AllLawful(inp, students, s', later) <==> AllLawful(inp, students, s, later) && AllLawful(inp, batch, s', later)
  {
    forall m | m in students && m.userId in s'.placed && m.userId !in s.placed
      ensures m in batch
    {
      var n :| n in batch && n.userId == m.userId;
      SameRecord(students, m, n);
    }
  }

  lemma LastLawful(inp: Inputs, key: Option<WingKey>, n: nat, s0: State, units0: seq<Unit>, s': State, units': seq<Unit>,
                   first': Option<WingKey>, rs: seq<Result>)
    returns (s: State, units: seq<Unit>, first: Option<WingKey>, best: WingKey, a: seq<Result>, b: seq<Result>)
    requires n > 0 && LawfulTurns(inp, key, n, s0, units0, s', units', first', rs)
    ensures LawfullyTurned(inp, key, n - 1, s0, units0, s, units, first, a)
    ensures SplitTurn(inp, key, first, best, s, units, s', units', b) && LawfulTurn(inp, key, best, s, units, s')
    ensures first' == FirstUsed(first, best) && rs == a + b
  {
    s, units, first, best, a, b :|
      && LawfullyTurned(inp, key, n - 1, s0, units0, s, units, first, a)
      && SplitTurn(inp, key, first, best, s, units, s', units', b) && LawfulTurn(inp, key, best, s, units, s')
      && first' == FirstUsed(first, best) && rs == a + b;
  }

  /** One turn more: it is lawful exactly when no student it adds sits unlawfully. */
  lemma TurnAddsIff(inp: Inputs, key: Option<WingKey>, first: Option<WingKey>, best: WingKey, students: seq<Student>, s0: State,
                    s: State, units: seq<Unit>, s': State, units': seq<Unit>, rs: seq<Result>, later: State)
    requires WellFormed(inp) && BetweenTurns(inp, students, s0, s, units) && Stays(s', later)
    requires SplitTurn(inp, key, first, best, s, units, s', units', rs)
    ensures BetweenTurns(inp, students, s0, s', units') && Stays(s, s') && Stays(s, later)
    ensures AllLawful(inp, students, s', later) <==> AllLawful(inp, students, s, later) && LawfulTurn(inp, key, best, s, units, s')
  {
    TurnKeepsWaiting(inp, key, first, best, IdSet(students), s, units, s', units', rs);
    TurnStaysBetween(inp, key, first, best, students, s0, s, units, s', units', rs);
    LawfulTurnIff(inp, key, first, best, s, units, s', units', rs, later);
    AllLawfulThen(inp, students, Flat(Batch(inp, units, key.value, s.wings[best])), s, s', later);
  }

  /** Lawful turns are turns, and seat lawfully. */
  lemma {:induction false} LawfulTurnsSeat(inp: Inputs, key: Option<WingKey>, n: nat, students: seq<Student>, s0: State,
                                           units0: seq<Unit>, s': State, units': seq<Unit>, first': Option<WingKey>, rs: seq<Result>,
                                           later: State)
    requires WellFormed(inp) && BetweenTurns(inp, students, s0, s0, units0) && AllLawful(inp, students, s0, later) && Stays(s', later)
    requires LawfulTurns(inp, key, n, s0, units0, s', units', first', rs)
    ensures BetweenTurns(inp, students, s0, s', units') && AllLawful(inp, students, s', later)
  {
    if n > 0 {
      var s, units, first, best, a, b := LastLawful(inp, key, n, s0, units0, s', units', first', rs);
      assert IsTurn(n - 1, n - 1);
      assert Stays(s, later);
      LawfulTurnsSeat(inp, key, n - 1, students, s0, units0, s, units, first, a, later);
      TurnAddsIff(inp, key, first, best, students, s0, s, units, s', units', b, later);
    }
  }

  lemma LawfulOneTurn(inp: Inputs, key: Option<WingKey>, n: nat, s0: State, units0: seq<Unit>, s: State, units: seq<Unit>,
                      first: Option<WingKey>, a: seq<Result>, best: WingKey, s': State, units': seq<Unit>, b: seq<Result>)
    requires LawfullyTurned(inp, key, n, s0, units0, s, units, first, a)
    requires SplitTurn(inp, key, first, best, s, units, s', units', b) && LawfulTurn(inp, key, best, s, units, s')
    ensures LawfulTurns(inp, key, n + 1, s0, units0, s', units', FirstUsed(first, best), a + b)
  {
  }

  lemma LawfullyTurnedOnce(inp: Inputs, key: Option<WingKey>, n: nat, s0: State, units0: seq<Unit>, s: State, units: seq<Unit>,
                           first: Option<WingKey>, a: seq<Result>, best: WingKey, s': State, units': seq<Unit>, b: seq<Result>)
    requires LawfullyTurned(inp, key, n, s0, units0, s, units, first, a)
    requires SplitTurn(inp, key, first, best, s, units, s', units', b) && LawfulTurn(inp, key, best, s, units, s')
    ensures LawfullyTurned(inp, key, n + 1, s0, units0, s', units', FirstUsed(first, best), a + b)
  {
    LawfulOneTurn(inp, key, n, s0, units0, s, units, first, a, best, s', units', b);
  }

  /** Turns that seat lawfully are lawful turns. */
  lemma {:induction false} SeatingTurnsLawful(inp: Inputs, key: Option<WingKey>, n: nat, students: seq<Student>,
                                              s0: State, units0: seq<Unit>, s': State, units': seq<Unit>, first': Option<WingKey>,
                                              rs: seq<Result>, later: State)
    requires WellFormed(inp) && BetweenTurns(inp, students, s0, s0, units0) && Stays(s', later)
    requires SplitTurns(inp, key, n, s0, units0, s', units', first', rs)
    ensures BetweenTurns(inp, students, s0, s', units')
    ensures AllLawful(inp, students, s', later) ==> LawfullyTurned(inp, key, n, s0, units0, s', units', first', rs)
  {
    if n > 0 {
      var s, units, first, best, a, b := LastOfTurns(inp, key, n, s0, units0, s', units', first', rs);
      assert IsTurn(n - 1, n - 1);
      assert Stays(s, later);
      SeatingTurnsLawful(inp, key, n - 1, students, s0, units0, s, units, first, a, later);
      TurnAddsIff(inp, key, first, best, students, s0, s, units, s', units', b, later);
      if AllLawful(inp, students, s', later) {
        LawfullyTurnedOnce(inp, key, n - 1, s0, units0, s, units, first, a, best, s', units', b);
      }
    }
  }

  // ---------- Groups ----------

  lemma MembersToSplit(inp: Inputs, s: State, members: seq<Student>)
    requires WellFormed(inp) && Orderly(inp, s) && MembersReady(inp, s, members)
    ensures BetweenTurns(inp, members, s, s, Units(inp.roommates, members))
  {
    UnitsWait(inp, s, members);
    PartitionOfUnits(inp.roommates, members);
    forall m | m in Flat(Units(inp.roommates, members))
      ensures m in members
    {
      InFlat(Units(inp.roommates, members), m);
    }
  }

  /** Orderly still, nobody moved, and only members newly placed. */
  ghost predicate Grown(inp: Inputs, members: seq<Student>, s: State, s': State) {
    Orderly(inp, s') && Stays(s, s') && s'.placed.Keys <= s.placed.Keys + IdSet(members)
  }

  /** A split is lawful if and only if the members it seats sit in wings open to them in the end. */
  lemma SplitLawfulIff(inp: Inputs, key: Option<WingKey>, members: seq<Student>, s: State, s': State, rs: seq<Result>, later: State)
    requires WellFormed(inp) && Orderly(inp, s) && MembersReady(inp, s, members) && Stays(s', later)
    requires SplitOver(inp, key, members, s, s', rs)
    ensures Grown(inp, members, s, s')
    ensures LawfullyOver(inp, key, members, s, s', rs) <==> AllLawful(inp, members, s', later)
  {
    MembersToSplit(inp, s, members);
    var units0 := Units(inp.roommates, members);
    var n, units, first :| SplitTurns(inp, key, n, s, units0, s', units, first, rs) && SplitStuck(inp, key, s', units, first);
    SeatingTurnsLawful(inp, key, n, members, s, units0, s', units, first, rs, later);
    if AllLawful(inp, members, s', later) {
      assert IsTurn(n, n);
    }
    if LawfullyOver(inp, key, members, s, s', rs) {
      var m, left, used :| LawfulTurns(inp, key, m, s, units0, s', left, used, rs) && SplitStuck(inp, key, s', left, used);
      LawfulTurnsSeat(inp, key, m, members, s, units0, s', left, used, rs, later);
    }
  }

  /** A group that finds a suitable wing is always seated lawfully. */
  lemma UnsplitLawful(inp: Inputs, key: Option<WingKey>, preferences: seq<int>, members: seq<Student>, s: State, s': State, rs: seq<Result>,
                      later: State)
    requires WellFormed(inp) && Orderly(inp, s) && Unplaced(s, members) && Stays(s', later) && |members| > 0
    requires MembersPlaced(inp, key, preferences, members, s, s', rs) && exists w :: Suitable(inp, s, members, w)
    ensures Grown(inp, members, s, s') && AllLawful(inp, members, s', later)
  {
    var w :| BestSuitable(inp, s, members, preferences, w) && OnlyInWing(inp, w, s, s') && Advanced(inp, IdSet(members), s, s', rs);
    forall m | m in members && m.userId in s'.placed
      ensures SeatedLawfully(inp, later, m)
    {
      NewlySeatedInWing(inp, w, s, s', m.userId);
      assert SitsIn(inp, later, m.userId, w);
      LawfulInWing(inp, later, m, w);
    }
  }

  lemma MembersLawfulIff(inp: Inputs, key: Option<WingKey>, preferences: seq<int>, members: seq<Student>, s: State, s': State,
                         rs: seq<Result>, later: State)
    requires WellFormed(inp) && Orderly(inp, s) && MembersReady(inp, s, members) && Stays(s', later)
    requires MembersPlaced(inp, key, preferences, members, s, s', rs)
    ensures Grown(inp, members, s, s')
    ensures MembersLawful(inp, key, preferences, members, s, s', rs) <==> AllLawful(inp, members, s', later)
  {
    if |members| > 0 {
      if exists w :: Suitable(inp, s, members, w) {
        UnsplitLawful(inp, key, preferences, members, s, s', rs, later);
      } else {
        SplitLawfulIff(inp, key, members, s, s', rs, later);
      }
    }
  }

  // ---------- Groups in turn ----------

  ghost predicate GroupLawful(inp: Inputs, key: Option<WingKey>, g: Group, s: State, s': State, rs: seq<Result>) {
    exists members :: IsOutstanding(inp, s, g.members, members) && MembersLawful(inp, key, g.preferences, members, s, s', rs)
  }

  /** The first k groups in order, every split turn lawful; a step is stated like GroupLoop. */
  ghost predicate LawfulPhase(inp: Inputs, key: Option<WingKey>, groups: seq<Group>, k: nat, s': State, rs: seq<Result>) {
    && k <= |groups|
    && if k == 0 then s' == Initial(inp) && rs == []
       else exists s, a, b :: LawfulStep(inp, key, groups, k, s, a, s', b, rs) && LawfulPhase(inp, key, groups, k - 1, s, a)
  }

  ghost predicate LawfulStep(inp: Inputs, key: Option<WingKey>, groups: seq<Group>, k: nat, s: State, a: seq<Result>, s': State,
                             b: seq<Result>, rs: seq<Result>)
    requires 0 < k <= |groups|
  {
    forall m: nat :: IsCount(rs, m) ==> GroupLawful(inp, key, groups[k - 1], s, s', b) && rs == a + b
  }

  /** No two groups list a student of the cohort with different data. */
  ghost predicate OneRecord(inp: Inputs) {
    forall m, n :: Listed(inp, m) && Listed(inp, n) && m.userId == n.userId && m.userId in Cohort(inp) ==> m == n
  }

  /** The group members of the cohort who have a room in s sit in a wing open to them in the end. */
  ghost predicate ListedLawful(inp: Inputs, s: State, later: State) {
    forall m :: Listed(inp, m) && m.userId in Cohort(inp) && m.userId in s.placed ==> SeatedLawfully(inp, later, m)
  }

  lemma ListedThen(inp: Inputs, members: seq<Student>, s: State, s': State, later: State)
    requires OneRecord(inp) && Grown(inp, members, s, s')
    requires forall m :: m in members ==> Listed(inp, m) && m.userId in Cohort(inp)
    ensures ListedLawful(inp, s', later) <==> ListedLawful(inp, s, later) && AllLawful(inp, members, s', later)
  {
    forall m | Listed(inp, m) && m.userId in Cohort(inp) && m.userId in s'.placed && m.userId !in s.placed
      ensures m in members
    {
      var n :| n in members && n.userId == m.userId;
      assert Listed(inp, n);
    }
  }

  lemma OutstandingListed(inp: Inputs, g: Group, s: State, members: seq<Student>)
    requires WellFormed(inp) && g in inp.groups && Orderly(inp, s) && IsOutstanding(inp, s, g.members, members)
    ensures MembersReady(inp, s, members) && forall m :: m in members ==> Listed(inp, m) && m.userId in Cohort(inp)
  {
    OutstandingReady(inp, s, g, members);
    forall m | m in members
      ensures Listed(inp, m) && m.userId in Cohort(inp)
    {
      assert m in g.members;
    }
  }

  /** One group more: it is placed lawfully exactly when no member it seats sits unlawfully. */
  lemma GroupAddsIff(inp: Inputs, key: Option<WingKey>, g: Group, s: State, s': State, rs: seq<Result>, later: State)
    requires WellFormed(inp) && OneRecord(inp) && g in inp.groups && Orderly(inp, s) && Stays(s', later)
    requires GroupPlaced(inp, key, g, s, s', rs)
    ensures Orderly(inp, s') && Stays(s, s')
    ensures ListedLawful(inp, s', later) <==> ListedLawful(inp, s, later) && GroupLawful(inp, key, g, s, s', rs)
  {
    var members :| IsOutstanding(inp, s, g.members, members) && MembersPlaced(inp, key, g.preferences, members, s, s', rs);
    OutstandingListed(inp, g, s, members);
    MembersLawfulIff(inp, key, g.preferences, members, s, s', rs, later);
    ListedThen(inp, members, s, s', later);
  }

  lemma StartOrderly(inp: Inputs, later: State)
    requires WellFormed(inp)
    ensures Orderly(inp, Initial(inp)) && ListedLawful(inp, Initial(inp), later)
  {
    InitialSound(inp);
  }

  lemma StepAddsIff(inp: Inputs, key: Option<WingKey>, groups: seq<Group>, k: nat, s: State, a: seq<Result>, s': State, b: seq<Result>,
                    rs: seq<Result>, later: State)
    requires WellFormed(inp) && OneRecord(inp) && 0 < k <= |groups| && groups[k - 1] in inp.groups && Orderly(inp, s) && Stays(s', later)
    requires PhaseStep(inp, key, groups, k, s, a, s', b, rs)
    ensures Orderly(inp, s')
    ensures ListedLawful(inp, s', later) <==> ListedLawful(inp, s, later) && LawfulStep(inp, key, groups, k, s, a, s', b, rs)
  {
    assert IsCount(rs, |rs|);
    GroupAddsIff(inp, key, groups[k - 1], s, s', b, later);
  }

  lemma StepStays(inp: Inputs, key: Option<WingKey>, groups: seq<Group>, k: nat, s: State, a: seq<Result>, s': State, b: seq<Result>,
                  rs: seq<Result>)
    requires WellFormed(inp) && OneRecord(inp) && 0 < k <= |groups| && groups[k - 1] in inp.groups && Orderly(inp, s)
    requires PhaseStep(inp, key, groups, k, s, a, s', b, rs)
    ensures Stays(s, s')
  {
    assert IsCount(rs, |rs|);
    GroupAddsIff(inp, key, groups[k - 1], s, s', b, s');
  }

  lemma LawfulStepIsStep(inp: Inputs, key: Option<WingKey>, groups: seq<Group>, k: nat, s: State, a: seq<Result>, s': State,
                         b: seq<Result>, rs: seq<Result>)
    requires 0 < k <= |groups| && LawfulStep(inp, key, groups, k, s, a, s', b, rs)
    ensures PhaseStep(inp, key, groups, k, s, a, s', b, rs)
  {
    assert IsCount(rs, |rs|);
  }

  lemma LastOfLawfulPhase(inp: Inputs, key: Option<WingKey>, groups: seq<Group>, k: nat, s': State, rs: seq<Result>)
    returns (s: State, a: seq<Result>, b: seq<Result>)
    requires 0 < k && LawfulPhase(inp, key, groups, k, s', rs)
    ensures k <= |groups| && LawfulStep(inp, key, groups, k, s, a, s', b, rs) && LawfulPhase(inp, key, groups, k - 1, s, a)
    ensures PhaseStep(inp, key, groups, k, s, a, s', b, rs)
  {
    s, a, b :| LawfulStep(inp, key, groups, k, s, a, s', b, rs) && LawfulPhase(inp, key, groups, k - 1, s, a);
    LawfulStepIsStep(inp, key, groups, k, s, a, s', b, rs);
  }

  lemma {:induction false} PhaseOrderly(inp: Inputs, key: Option<WingKey>, groups: seq<Group>, k: nat, s': State, rs: seq<Result>)
    requires WellFormed(inp) && OneRecord(inp) && (forall g :: g in groups ==> g in inp.groups)
    requires GroupPhase(inp, key, groups, k, s', rs)
    ensures Orderly(inp, s')
  {
    if k == 0 {
      StartOrderly(inp, s');
    } else {
      var s, a, b := LastOfPhase(inp, key, groups, k, s', rs);
      PhaseOrderly(inp, key, groups, k - 1, s, a);
      StepAddsIff(inp, key, groups, k, s, a, s', b, rs, s');
    }
  }

  /** A group phase that seats lawfully has only lawful turns. */
  lemma {:induction false} SeatingPhaseLawful(inp: Inputs, key: Option<WingKey>, groups: seq<Group>, k: nat, s': State, rs: seq<Result>,
                                              later: State)
    requires WellFormed(inp) && OneRecord(inp) && (forall g :: g in groups ==> g in inp.groups) && Stays(s', later)
    requires GroupPhase(inp, key, groups, k, s', rs) && ListedLawful(inp, s', later)
    ensures LawfulPhase(inp, key, groups, k, s', rs)
  {
    if k > 0 {
      var s, a, b := LastOfPhase(inp, key, groups, k, s', rs);
      PhaseOrderly(inp, key, groups, k - 1, s, a);
      StepStays(inp, key, groups, k, s, a, s', b, rs);
      StepAddsIff(inp, key, groups, k, s, a, s', b, rs, later);
      SeatingPhaseLawful(inp, key, groups, k - 1, s, a, later);
    }
  }

  /** A group phase with only lawful turns seats lawfully. */
  lemma {:induction false} LawfulPhaseSeats(inp: Inputs, key: Option<WingKey>, groups: seq<Group>, k: nat, s': State, rs: seq<Result>,
                                            later: State)
    requires WellFormed(inp) && OneRecord(inp) && (forall g :: g in groups ==> g in inp.groups) && Stays(s', later)
    requires LawfulPhase(inp, key, groups, k, s', rs)
    ensures Orderly(inp, s') && ListedLawful(inp, s', later)
  {
    if k == 0 {
      StartOrderly(inp, later);
    } else {
      var s, a, b := LastOfLawfulPhase(inp, key, groups, k, s', rs);
      LawfulPhaseSeats(inp, key, groups, k - 1, s, a, s);
      StepStays(inp, key, groups, k, s, a, s', b, rs);
      LawfulPhaseSeats(inp, key, groups, k - 1, s, a, later);
      StepAddsIff(inp, key, groups, k, s, a, s', b, rs, later);
    }
  }

  // ---------- A whole run ----------

  /**
   At the end of a run everyone whom the group phase seated sits in a wing
   open to them if and only if every split turn of the run seated students
   only who may enter its wing.
   */
  lemma RunLawfulIff(inp: Inputs, key: Option<WingKey>, groups: seq<Group>, s: State, a: seq<Result>, remaining: seq<Student>,
                     final: State, rs: seq<Result>)
    requires WellFormed(inp) && OneRecord(inp) && forall g :: g in groups ==> g in inp.groups
    requires GroupPhase(inp, key, groups, |groups|, s, a) && IndividualPhase(inp, s, remaining, a, final, rs)
    ensures LawfulPhase(inp, key, groups, |groups|, s, a) <==> ListedLawful(inp, s, final)
  {
    SettlingStays(inp, s, remaining, a, final, rs);
    if ListedLawful(inp, s, final) {
      SeatingPhaseLawful(inp, key, groups, |groups|, s, a, final);
    }
    if LawfulPhase(inp, key, groups, |groups|, s, a) {
      LawfulPhaseSeats(inp, key, groups, |groups|, s, a, final);
    }
  }

  lemma ListedAdmitted(inp: Inputs, key: Option<WingKey>, s: State, id: StudentId)
    requires WellFormed(inp) && SeatedByRules(inp, key, s) && ListedLawful(inp, s, s) && id in s.placed && id in Cohort(inp)
    ensures AdmittedTo(inp, id, s.placed[id])
  {
    assert AdmittedOrTested(inp, key, id, s.placed[id]);
    var r :| r in inp.rooms && r.id == s.placed[id] && r.status.Available? && (Admitted(inp, id, r) || AdmittedByLeftover(inp, key, id));
    if !Admitted(inp, id, r) {
      var m :| Listed(inp, m) && m.userId == id && EligibleWing(inp, m, key.value);
      assert SeatedLawfully(inp, s, m);
      var q :| q in inp.rooms && q.id == s.placed[id] && EligibleWing(inp, m, KeyOf(q));
      RoomById(inp, q, r);
    }
  }

  /** A run whose split turns are all lawful keeps to the rules, the individual phase included. */
  lemma LawfulRunKeeps(inp: Inputs, key: Option<WingKey>, groups: seq<Group>, s: State, a: seq<Result>, remaining: seq<Student>,
                       final: State, rs: seq<Result>)
    requires WellFormed(inp) && OneRecord(inp) && forall g :: g in groups ==> g in inp.groups
    requires GroupPhase(inp, key, groups, |groups|, s, a) && IndividualPhase(inp, s, remaining, a, final, rs)
    requires LawfulPhase(inp, key, groups, |groups|, s, a)
    ensures KeepsToRules(inp, final)
  {
    PhaseByRules(inp, key, groups, |groups|, s, a);
    LawfulPhaseSeats(inp, key, groups, |groups|, s, a, s);
    forall id | id in s.placed && id in Cohort(inp)
      ensures AdmittedOrTested(inp, None, id, s.placed[id])
    {
      ListedAdmitted(inp, key, s, id);
    }
    forall u | u in SortUnits(Units(inp.roommates, remaining))
      ensures LedByStudent(inp, u)
    {
      RemainingLed(inp, s, remaining, u);
    }
    SettleAllByRules(inp, None, s, SortUnits(Units(inp.roommates, remaining)));
    NothingLeftOver(inp, final);
  }

  lemma NothingLeftOver(inp: Inputs, s: State)
    requires SeatedByRules(inp, None, s)
    ensures KeepsToRules(inp, s)
  {
    forall id | id in s.placed && id in Cohort(inp)
      ensures AdmittedTo(inp, id, s.placed[id])
    {
      assert AdmittedOrTested(inp, None, id, s.placed[id]);
    }
  }
}
