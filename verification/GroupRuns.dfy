/** What the phases of a group-based or wing-FCFS run do, turn by turn. */
module GroupRuns {
  import opened Common
  import opened AllocationModel
  import opened AtomicUnits
  import opened Individuals
  import opened GroupPacking
  import opened InitialState
  import opened EngineSteps
  import opened RunSteps
  import opened WingChoice

  // ---------- The next batch of a split ----------

  ghost predicate MayEnter(inp: Inputs, u: Unit, w: WingKey) {
    forall m :: m in u ==> EligibleWing(inp, m, w)
  }

  ghost predicate Taken(inp: Inputs, before: seq<Unit>, u: Unit, key: WingKey, capacity: int) {
    MayEnter(inp, u, key) && |Flat(before)| + |u| <= capacity
  }

  /** The units a pass takes for the next wing. */
  ghost function Batch(inp: Inputs, units: seq<Unit>, key: WingKey, capacity: int): seq<Unit> {
    if |units| == 0 then []
    else
      var n := |units| - 1;
      var before := Batch(inp, units[..n], key, capacity);
      if Taken(inp, before, units[n], key, capacity) then before + [units[n]] else before
  }

  /** The units the pass leaves. */
  ghost function Kept(inp: Inputs, units: seq<Unit>, key: WingKey, capacity: int): seq<Unit> {
    if |units| == 0 then []
    else
      var n := |units| - 1;
      var before := Batch(inp, units[..n], key, capacity);
      Kept(inp, units[..n], key, capacity) + (if Taken(inp, before, units[n], key, capacity) then [] else [units[n]])
  }

  lemma BatchNext(inp: Inputs, units: seq<Unit>, k: nat, key: WingKey, capacity: int)
    requires k < |units|
    ensures var before, kept, u := Batch(inp, units[..k], key, capacity), Kept(inp, units[..k], key, capacity), units[k];
            && Batch(inp, units[..k + 1], key, capacity) == (if Taken(inp, before, u, key, capacity) then before + [u] else before)
            && Kept(inp, units[..k + 1], key, capacity) == (if Taken(inp, before, u, key, capacity) then kept else kept + [u])
  {
    assert units[..k + 1][..k] == units[..k];
    var kept := Kept(inp, units[..k], key, capacity);
    assert kept + [] == kept;
  }

  /** The pass divides the units in two. */
  lemma {:induction false} BatchDivides(inp: Inputs, units: seq<Unit>, key: WingKey, capacity: int)
    requires Unique(units)
    ensures SplitInTwo(units, Batch(inp, units, key, capacity), Kept(inp, units, key, capacity))
  {
    if |units| > 0 {
      var n := |units| - 1;
      assert units == units[..n] + [units[n]];
      BatchDivides(inp, units[..n], key, capacity);
      var kept := Kept(inp, units[..n], key, capacity);
      assert kept + [] == kept;
      SplitOneMore(units[..n], Batch(inp, units[..n], key, capacity), kept, units[n]);
    }
  }

  /**
   Those taken may all enter and stay within the counter; no unit is left that
   may enter and would still fit.
   */
  lemma BatchIsGreedy(inp: Inputs, units: seq<Unit>, key: WingKey, capacity: int)
    ensures var batch, kept := Batch(inp, units, key, capacity), Kept(inp, units, key, capacity);
            && (forall u :: u in batch ==> MayEnter(inp, u, key))
            && (|Flat(batch)| <= capacity || |batch| == 0)
            && (forall u :: u in kept && MayEnter(inp, u, key) ==> |Flat(batch)| + |u| > capacity)
  {
    GreedySoFar(inp, units, key, capacity);
  }

  ghost predicate Greedy(inp: Inputs, batch: seq<Unit>, kept: seq<Unit>, key: WingKey, capacity: int) {
    && (forall u :: u in batch ==> MayEnter(inp, u, key))
    && (|Flat(batch)| <= capacity || |batch| == 0)
    && (forall u :: u in kept && MayEnter(inp, u, key) ==> |Flat(batch)| + |u| > capacity)
  }

  lemma GreedyNext(inp: Inputs, batch: seq<Unit>, kept: seq<Unit>, u: Unit, key: WingKey, capacity: int)
    requires Greedy(inp, batch, kept, key, capacity)
    ensures Taken(inp, batch, u, key, capacity) ==> Greedy(inp, batch + [u], kept, key, capacity)
    ensures !Taken(inp, batch, u, key, capacity) ==> Greedy(inp, batch, kept + [u], key, capacity)
  {
    assert (batch + [u])[..|batch|] == batch;
    assert |Flat(batch + [u])| == |Flat(batch)| + |u|;
  }

  lemma {:induction false} GreedySoFar(inp: Inputs, units: seq<Unit>, key: WingKey, capacity: int)
    ensures Greedy(inp, Batch(inp, units, key, capacity), Kept(inp, units, key, capacity), key, capacity)
  {
    if |units| > 0 {
      var n := |units| - 1;
      var kept := Kept(inp, units[..n], key, capacity);
      GreedySoFar(inp, units[..n], key, capacity);
      GreedyNext(inp, Batch(inp, units[..n], key, capacity), kept, units[n], key, capacity);
      assert kept + [] == kept;
    }
  }

  // ---------- Ranking the wings ----------

  ghost function EligibleCount(inp: Inputs, flat: seq<Student>, w: WingKey): nat {
    if |flat| == 0 then 0
    else EligibleCount(inp, flat[..|flat| - 1], w) + (if EligibleWing(inp, flat[|flat| - 1], w) then 1 else 0)
  }

  /** A wing with free beds on its counter that some of the students may enter. */
  ghost predicate Open(inp: Inputs, s: State, flat: seq<Student>, w: WingKey) {
    w in s.wings && s.wings[w] > 0 && EligibleCount(inp, flat, w) > 0
  }

  ghost function Closeness(first: Option<WingKey>, w: WingKey): int {
    if first.Some? then Proximity(w, first.value) else 50
  }

  ghost function Rank(inp: Inputs, flat: seq<Student>, first: Option<WingKey>, w: WingKey): seq<int> {
    var count: int := EligibleCount(inp, flat, w);
    [-Closeness(first, w), -count]
  }

  /** An open wing that no other open wing beats in closeness, then in the number of students who may enter. */
  ghost predicate TopRanked(inp: Inputs, s: State, flat: seq<Student>, first: Option<WingKey>, best: WingKey) {
    && Open(inp, s, flat, best)
    && forall w :: Open(inp, s, flat, w) ==> LexLeq(Rank(inp, flat, first, best), Rank(inp, flat, first, w))
  }

  lemma LexOfTwo(a: seq<int>, b: seq<int>)
    requires |a| == 2 && |b| == 2 && LexLeq(a, b)
    ensures a[0] < b[0] || (a[0] == b[0] && a[1] <= b[1])
  {
    assert a[1..] == [a[1]] && b[1..] == [b[1]];
  }

  /** The students counted are those who may enter the wing. */
  lemma EligibleCountIs(inp: Inputs, flat: seq<Student>, w: WingKey)
    ensures EligibleCount(inp, flat, w) == |set i | 0 <= i < |flat| && EligibleWing(inp, flat[i], w)|
  {
    var p := (m: Student) => EligibleWing(inp, m, w);
    CountsEligible(inp, flat, w, p);
    assert Places(flat, p) == set i | 0 <= i < |flat| && EligibleWing(inp, flat[i], w);
  }

  lemma {:induction false} CountsEligible(inp: Inputs, flat: seq<Student>, w: WingKey, p: Student -> bool)
    requires forall m :: p(m) <==> EligibleWing(inp, m, w)
    ensures EligibleCount(inp, flat, w) == |Places(flat, p)|
  {
    if flat != [] {
      var n := |flat| - 1;
      CountsEligible(inp, flat[..n], w, p);
      PlacesNext(flat[..n], flat[n], p);
      assert flat[..n] + [flat[n]] == flat;
    }
  }

  /**
   What makes an open wing the top one: being the first wing used, else lying
   in the same wing on another floor, else in the same hostel; and among those
   as close, or when no wing has been used, that the most students may enter it.
   */
  lemma TopRankedMeans(inp: Inputs, s: State, flat: seq<Student>, first: Option<WingKey>, best: WingKey, w: WingKey)
    requires TopRanked(inp, s, flat, first, best) && Open(inp, s, flat, w)
    ensures first.Some? && w == first.value ==> best == w
    ensures first.Some? && w.hostelId == first.value.hostelId && w.wing == first.value.wing ==>
              best.hostelId == w.hostelId && best.wing == w.wing
    ensures first.Some? && w.hostelId == first.value.hostelId ==> best.hostelId == w.hostelId
    ensures first.None? || (w.hostelId != first.value.hostelId && best.hostelId != first.value.hostelId)
            || (w != first.value && best != first.value && best.hostelId == w.hostelId == first.value.hostelId
                && (best.wing == first.value.wing <==> w.wing == first.value.wing))
            ==> EligibleCount(inp, flat, best) >= EligibleCount(inp, flat, w)
  {
    LexOfTwo(Rank(inp, flat, first, best), Rank(inp, flat, first, w));
  }

  // ---------- Splitting a group ----------

  function LastKey(order: seq<WingKey>): Option<WingKey> {
    if order == [] then None else Some(order[|order| - 1])
  }

  /**
   One turn: the batch for the leftover key goes to the top-ranked wing, which
   takes as much of it as it can, and seats and reports nobody else.
   */
  ghost predicate SplitTurn(inp: Inputs, key: Option<WingKey>, first: Option<WingKey>, best: WingKey, s: State, units: seq<Unit>,
                            s': State, units': seq<Unit>, rs: seq<Result>)
  {
    && key.Some? && TopRanked(inp, s, Flat(units), first, best)
    && var batch := Batch(inp, units, key.value, s.wings[best]);
    && |batch| >= 1
    && units' == Kept(inp, units, key.value, s.wings[best])
    && OnlyInWing(inp, best, s, s') && |rs| == MostPlaceable(inp, s, best, Flat(batch))
    && Advanced(inp, IdSet(Flat(batch)), s, s', rs)
  }

  function FirstUsed(first: Option<WingKey>, best: WingKey): Option<WingKey> {
    if first.Some? then first else Some(best)
  }

  /** n turns from s0 and units0. */
  ghost predicate SplitTurns(inp: Inputs, key: Option<WingKey>, n: nat, s0: State, units0: seq<Unit>, s': State, units': seq<Unit>,
                             first': Option<WingKey>, rs: seq<Result>)
    decreases n, 0
  {
    if n == 0 then s' == s0 && units' == units0 && first'.None? && rs == []
    else exists s, units, first, best, a, b ::
           && Turned(inp, key, n - 1, s0, units0, s, units, first, a)
           && SplitTurn(inp, key, first, best, s, units, s', units', b)
           && first' == FirstUsed(first, best) && rs == a + b
  }

  /** The same, stated so that a proof about the last turn need not look at those before. */
  ghost predicate Turned(inp: Inputs, key: Option<WingKey>, n: nat, s0: State, units0: seq<Unit>, s: State, units: seq<Unit>,
                         first: Option<WingKey>, rs: seq<Result>)
    decreases n, 1
  {
    forall m: nat :: IsTurn(m, n) ==> SplitTurns(inp, key, m, s0, units0, s, units, first, rs)
  }

  predicate IsTurn(m: nat, n: nat) {
    m == n
  }

  /** Why the splitting stops: nothing left, no open wing, or nothing the leftover key admits that fits the top-ranked wing. */
  ghost predicate SplitStuck(inp: Inputs, key: Option<WingKey>, s: State, units: seq<Unit>, first: Option<WingKey>) {
    || |units| == 0
    || (forall w :: !Open(inp, s, Flat(units), w))
    || (key.Some? && exists best :: TopRanked(inp, s, Flat(units), first, best) && |Batch(inp, units, key.value, s.wings[best])| == 0)
  }

  ghost predicate SplitOver(inp: Inputs, key: Option<WingKey>, members: seq<Student>, s: State, s': State, rs: seq<Result>) {
    exists n, units, first ::
      SplitTurns(inp, key, n, s, Units(inp.roommates, members), s', units, first, rs) && SplitStuck(inp, key, s', units, first)
  }

  lemma SplitOneTurn(inp: Inputs, key: Option<WingKey>, n: nat, s0: State, units0: seq<Unit>, s: State, units: seq<Unit>,
                     first: Option<WingKey>, a: seq<Result>, best: WingKey, s': State, units': seq<Unit>, b: seq<Result>)
    requires SplitTurns(inp, key, n, s0, units0, s, units, first, a)
    requires SplitTurn(inp, key, first, best, s, units, s', units', b)
    ensures SplitTurns(inp, key, n + 1, s0, units0, s', units', FirstUsed(first, best), a + b)
  {
  }

  /** The first turn led to state s, and s' has kept what it did; stated so that a proof need not look inside. */
  ghost predicate BeganWith(inp: Inputs, key: Option<WingKey>, s0: State, units0: seq<Unit>, s: State, units: seq<Unit>, best: WingKey,
                            b: seq<Result>, s': State)
  {
    forall t :: t == s ==> SplitTurn(inp, key, None, best, s0, units0, t, units, b) && Grows(t, s')
  }

  lemma BeganThen(inp: Inputs, key: Option<WingKey>, s0: State, units0: seq<Unit>, s: State, units: seq<Unit>, best: WingKey,
                  b: seq<Result>, s': State, s'': State)
    requires BeganWith(inp, key, s0, units0, s, units, best, b, s') && Grows(s', s'')
    ensures BeganWith(inp, key, s0, units0, s, units, best, b, s'')
  {
    assert Grows(s, s');
  }

  /** The last turn of a split only adds. */
  lemma LastTurn(inp: Inputs, key: Option<WingKey>, n: nat, s0: State, units0: seq<Unit>, s': State, units': seq<Unit>,
                 first': Option<WingKey>, rs: seq<Result>)
    returns (s: State, units: seq<Unit>, first: Option<WingKey>, best: WingKey, a: seq<Result>, b: seq<Result>)
    requires n > 0 && SplitTurns(inp, key, n, s0, units0, s', units', first', rs)
    ensures Turned(inp, key, n - 1, s0, units0, s, units, first, a) && Grows(s, s')
    ensures n == 1 ==> BeganWith(inp, key, s0, units0, s', units', best, b, s')
    ensures first' == if n == 1 then Some(best) else if first.Some? then first else Some(best)
  {
    s, units, first, best, a, b :|
      && Turned(inp, key, n - 1, s0, units0, s, units, first, a)
      && SplitTurn(inp, key, first, best, s, units, s', units', b)
      && first' == FirstUsed(first, best) && rs == a + b;
    assert n == 1 ==> IsTurn(0, n - 1);
  }

  /** What the first turn of a split did is still there after all turns, and its wing is the one closeness is measured from. */
  lemma {:induction false} FirstOfTurns(inp: Inputs, key: Option<WingKey>, n: nat, s0: State, units0: seq<Unit>, s': State, units': seq<Unit>,
                                        first': Option<WingKey>, rs: seq<Result>)
    requires n > 0 && SplitTurns(inp, key, n, s0, units0, s', units', first', rs)
    ensures exists s, units, best, b :: BeganWith(inp, key, s0, units0, s, units, best, b, s') && first' == Some(best)
  {
    var s, units, first, best, a, b := LastTurn(inp, key, n, s0, units0, s', units', first', rs);
    if n > 1 {
      assert IsTurn(n - 1, n - 1);
      FirstOfTurns(inp, key, n - 1, s0, units0, s, units, first, a);
      var t, left, v, c :| BeganWith(inp, key, s0, units0, t, left, v, c, s) && first == Some(v);
      BeganThen(inp, key, s0, units0, t, left, v, c, s, s');
    }
  }

  /** A turn sends no more students to a wing than its counter says. */
  lemma TurnStaysWithin(inp: Inputs, key: WingKey, first: Option<WingKey>, best: WingKey, s: State, units: seq<Unit>, s': State,
                        units': seq<Unit>, rs: seq<Result>)
    requires SplitTurn(inp, Some(key), first, best, s, units, s', units', rs)
    ensures |set id | id in s'.placed && id !in s.placed| <= s.wings[best]
  {
    var batch := Batch(inp, units, key, s.wings[best]);
    BatchIsGreedy(inp, units, key, s.wings[best]);
    IdsAtMost(Flat(batch));
    SubsetSize((set id | id in s'.placed && id !in s.placed), IdSet(Flat(batch)));
  }

  lemma {:induction false} BatchSizes(inp: Inputs, units: seq<Unit>, key: WingKey, capacity: int)
    ensures |Flat(units)| == |Flat(Batch(inp, units, key, capacity))| + |Flat(Kept(inp, units, key, capacity))|
  {
    if |units| > 0 {
      var n := |units| - 1;
      var kept := Kept(inp, units[..n], key, capacity);
      BatchSizes(inp, units[..n], key, capacity);
      assert kept + [] == kept;
      assert (kept + [units[n]])[..|kept|] == kept;
      var batch := Batch(inp, units[..n], key, capacity);
      assert (batch + [units[n]])[..|batch|] == batch;
    }
  }

  /** It removes as many students as fit the counter: no more, and none of the units it leaves could go along by the leftover key. */
  lemma TurnTakesWhatFits(inp: Inputs, key: WingKey, first: Option<WingKey>, best: WingKey, s: State, units: seq<Unit>, s': State,
                          units': seq<Unit>, rs: seq<Result>)
    requires SplitTurn(inp, Some(key), first, best, s, units, s', units', rs)
    ensures 0 <= |Flat(units)| - |Flat(units')| <= s.wings[best]
    ensures forall u :: u in units' && (forall m :: m in u ==> EligibleWing(inp, m, key)) ==>
              |Flat(units)| - |Flat(units')| + |u| > s.wings[best]
  {
    BatchSizes(inp, units, key, s.wings[best]);
    BatchIsGreedy(inp, units, key, s.wings[best]);
    forall u | u in units' && forall m :: m in u ==> EligibleWing(inp, m, key)
      ensures |Flat(units)| - |Flat(units')| + |u| > s.wings[best]
    {
      assert MayEnter(inp, u, key);
    }
  }

  /**
   A split that ends with units left while some wing is open to their members:
   no unit that may enter the leftover key fits the counter of the top-ranked
   wing.
   */
  lemma StuckMeans(inp: Inputs, key: WingKey, s: State, units: seq<Unit>, first: Option<WingKey>, w: WingKey) returns (best: WingKey)
    requires SplitStuck(inp, Some(key), s, units, first) && |units| > 0 && Open(inp, s, Flat(units), w)
    ensures TopRanked(inp, s, Flat(units), first, best)
    ensures forall u :: u in units && (forall m :: m in u ==> EligibleWing(inp, m, key)) ==> |u| > s.wings[best]
  {
    best :| TopRanked(inp, s, Flat(units), first, best) && |Batch(inp, units, key, s.wings[best])| == 0;
    var kept := Kept(inp, units, key, s.wings[best]);
    BatchIsGreedy(inp, units, key, s.wings[best]);
    EmptyBatch(inp, units, key, s.wings[best]);
    forall u | u in units && forall m :: m in u ==> EligibleWing(inp, m, key)
      ensures |u| > s.wings[best]
    {
      assert MayEnter(inp, u, key) && u in kept;
    }
  }

  lemma {:induction false} EmptyBatch(inp: Inputs, units: seq<Unit>, key: WingKey, capacity: int)
    requires |Batch(inp, units, key, capacity)| == 0
    ensures Kept(inp, units, key, capacity) == units
  {
    if |units| > 0 {
      EmptyBatch(inp, units[..|units| - 1], key, capacity);
      assert units == units[..|units| - 1] + [units[|units| - 1]];
    }
  }

  /** Whoever it places is of a unit that the turn removes, and all of the unit may enter the leftover key. */
  lemma TurnPlacesUnits(inp: Inputs, key: WingKey, first: Option<WingKey>, best: WingKey, s: State, units: seq<Unit>, s': State,
                        units': seq<Unit>, rs: seq<Result>, id: StudentId) returns (u: Unit)
    requires SplitTurn(inp, Some(key), first, best, s, units, s', units', rs) && Unique(units)
    requires id in s'.placed && id !in s.placed
    ensures u in units && u !in units' && id in IdSet(u) && forall m :: m in u ==> EligibleWing(inp, m, key)
  {
    var batch := Batch(inp, units, key, s.wings[best]);
    assert id in IdSet(Flat(batch));
    u := UnitWith(batch, id);
    BatchDivides(inp, units, key, s.wings[best]);
    BatchIsGreedy(inp, units, key, s.wings[best]);
    assert MayEnter(inp, u, key);
  }

  lemma UnitWith(units: seq<Unit>, id: StudentId) returns (u: Unit)
    requires id in IdSet(Flat(units))
    ensures u in units && id in IdSet(u)
  {
    var m :| m in Flat(units) && m.userId == id;
    InFlat(units, m);
    u :| u in units && m in u;
  }

  lemma IdsAtMost(students: seq<Student>)
    ensures |IdSet(students)| <= |students|
  {
    MembersCount(Ids(students));
    assert IdSet(students) == (set id | id in Ids(students)) by {
      assert forall id :: id in IdSet(students) ==> id in Ids(students) by {
        forall id | id in IdSet(students)
          ensures id in Ids(students)
        {
          var m :| m in students && m.userId == id;
          var i :| 0 <= i < |students| && students[i] == m;
          assert Ids(students)[i] == id;
        }
      }
    }
  }

  lemma TurnMeans(inp: Inputs, key: WingKey, best: WingKey, s: State, units: seq<Unit>, s': State, units': seq<Unit>, rs: seq<Result>,
                  batch: seq<Unit>)
    requires SplitTurn(inp, Some(key), None, best, s, units, s', units', rs) && batch == Batch(inp, units, key, s.wings[best])
    ensures Agree(s') && OnlyInWing(inp, best, s, s') && |rs| == MostPlaceable(inp, s, best, Flat(batch))
    ensures Reports(s, s', rs) && s'.placed.Keys <= s.placed.Keys + IdSet(Flat(batch))
  {
  }

  // ---------- Groups in turn ----------

  /** One group: nothing to do, the best suitable wing as far as it goes, or split if no wing is suitable. */
  ghost predicate GroupPlaced(inp: Inputs, key: Option<WingKey>, g: Group, s: State, s': State, rs: seq<Result>) {
    exists members :: IsOutstanding(inp, s, g.members, members) && MembersPlaced(inp, key, g.preferences, members, s, s', rs)
  }

  ghost predicate MembersPlaced(inp: Inputs, key: Option<WingKey>, preferences: seq<int>, members: seq<Student>, s: State, s': State,
                                rs: seq<Result>)
  {
    if |members| == 0 then s' == s && rs == []
    else if exists w :: Suitable(inp, s, members, w) then
      exists w :: BestSuitable(inp, s, members, preferences, w)
                  && OnlyInWing(inp, w, s, s') && |rs| == MostPlaceable(inp, s, w, members)
                  && Advanced(inp, IdSet(members), s, s', rs)
    else SplitOver(inp, key, members, s, s', rs)
  }

  /** The first k groups in order, from the initial state; a step is stated like GroupLoop. */
  ghost predicate GroupPhase(inp: Inputs, key: Option<WingKey>, groups: seq<Group>, k: nat, s': State, rs: seq<Result>) {
    && k <= |groups|
    && if k == 0 then s' == Initial(inp) && rs == []
       else exists s, a, b :: PhaseStep(inp, key, groups, k, s, a, s', b, rs) && GroupPhase(inp, key, groups, k - 1, s, a)
  }

  ghost predicate PhaseStep(inp: Inputs, key: Option<WingKey>, groups: seq<Group>, k: nat, s: State, a: seq<Result>, s': State,
                            b: seq<Result>, rs: seq<Result>)
    requires 0 < k <= |groups|
  {
    forall m: nat :: IsCount(rs, m) ==> GroupPlaced(inp, key, groups[k - 1], s, s', b) && rs == a + b
  }

  /** The whole run: the groups, then everyone still unplaced settled as individuals. */
  ghost predicate GroupRun(inp: Inputs, key: Option<WingKey>, groups: seq<Group>, s': State, rs: seq<Result>) {
    exists s, a, remaining :: GroupPhase(inp, key, groups, |groups|, s, a) && IndividualPhase(inp, s, remaining, a, s', rs)
  }

  ghost predicate IndividualPhase(inp: Inputs, s: State, remaining: seq<Student>, a: seq<Result>, s': State, rs: seq<Result>) {
    var units := SortUnits(Units(inp.roommates, remaining));
    && IsRemaining(inp, s, remaining) && (forall u :: u in units ==> |u| >= 1)
    && s' == SettleAll(inp, s, units).0 && rs == a + SettleAll(inp, s, units).1
  }

  /** Nobody placed in s has moved in s'. */
  ghost predicate Stays(s: State, s': State) {
    forall id :: id in s.placed ==> id in s'.placed && s'.placed[id] == s.placed[id]
  }

  /** The individual phase moves nobody. */
  lemma SettlingStays(inp: Inputs, s: State, remaining: seq<Student>, a: seq<Result>, final: State, rs: seq<Result>)
    requires WellFormed(inp) && IndividualPhase(inp, s, remaining, a, final, rs)
    ensures Stays(s, final)
  {
    var units := SortUnits(Units(inp.roommates, remaining));
    RemainingUnitsReady(inp, s, remaining);
    RemainingIds(inp, s, remaining);
    forall id | id in s.placed
      ensures id in final.placed && final.placed[id] == s.placed[id]
    {
      SettledElsewhere(inp, s, units, id);
    }
  }

  lemma GroupPhaseNext(inp: Inputs, key: Option<WingKey>, groups: seq<Group>, k: nat, s: State, a: seq<Result>, s': State, b: seq<Result>)
    requires k < |groups| && GroupPhase(inp, key, groups, k, s, a) && GroupPlaced(inp, key, groups[k], s, s', b)
    ensures GroupPhase(inp, key, groups, k + 1, s', a + b)
  {
    assert PhaseStep(inp, key, groups, k + 1, s, a, s', b, a + b);
  }

  function SizeKey(g: Group): seq<int> {
    [-|g.members|]
  }

  function ArrivalKey(g: Group): seq<int> {
    [EarliestTimestamp(g.members)]
  }

  function BySize(groups: seq<Group>): seq<Group> {
    SortBy(groups, SizeKey)
  }

  function ByArrival(groups: seq<Group>): seq<Group> {
    SortBy(groups, ArrivalKey)
  }

  /** Both orders list the same groups, largest first and earliest application first, equals in the order given. */
  lemma OrderedGroups(groups: seq<Group>)
    ensures multiset(BySize(groups)) == multiset(groups) == multiset(ByArrival(groups))
    ensures forall g :: (g in BySize(groups) <==> g in groups) && (g in ByArrival(groups) <==> g in groups)
    ensures forall i, j :: 0 <= i < j < |BySize(groups)| ==> |BySize(groups)[i].members| >= |BySize(groups)[j].members|
    ensures forall i, j :: 0 <= i < j < |ByArrival(groups)| ==>
              EarliestTimestamp(ByArrival(groups)[i].members) <= EarliestTimestamp(ByArrival(groups)[j].members)
    ensures forall i, j :: 0 <= i < j < |groups| && |groups[i].members| == |groups[j].members| ==>
              Precedes(BySize(groups), groups[i], groups[j])
    ensures forall i, j :: 0 <= i < j < |groups| && EarliestTimestamp(groups[i].members) == EarliestTimestamp(groups[j].members) ==>
              Precedes(ByArrival(groups), groups[i], groups[j])
  {
    SortByPermutes(groups, SizeKey);
    SortBySorted(groups, SizeKey);
    SortByPermutes(groups, ArrivalKey);
    SortBySorted(groups, ArrivalKey);
    forall i, j | 0 <= i < j < |BySize(groups)|
      ensures |BySize(groups)[i].members| >= |BySize(groups)[j].members|
    {
      assert LexLeq(SizeKey(BySize(groups)[i]), SizeKey(BySize(groups)[j]));
    }
    forall i, j | 0 <= i < j < |ByArrival(groups)|
      ensures EarliestTimestamp(ByArrival(groups)[i].members) <= EarliestTimestamp(ByArrival(groups)[j].members)
    {
      assert LexLeq(ArrivalKey(ByArrival(groups)[i]), ArrivalKey(ByArrival(groups)[j]));
    }
    EqualsKeepOrder(groups);
  }

  lemma EqualsKeepOrder(groups: seq<Group>)
    ensures forall i, j :: 0 <= i < j < |groups| && |groups[i].members| == |groups[j].members| ==>
              Precedes(BySize(groups), groups[i], groups[j])
    ensures forall i, j :: 0 <= i < j < |groups| && EarliestTimestamp(groups[i].members) == EarliestTimestamp(groups[j].members) ==>
              Precedes(ByArrival(groups), groups[i], groups[j])
  {
    forall i, j | 0 <= i < j < |groups| && |groups[i].members| == |groups[j].members|
      ensures Precedes(BySize(groups), groups[i], groups[j])
    {
      SortByStable(groups, SizeKey, i, j);
    }
    forall i, j | 0 <= i < j < |groups| && EarliestTimestamp(groups[i].members) == EarliestTimestamp(groups[j].members)
      ensures Precedes(ByArrival(groups), groups[i], groups[j])
    {
      SortByStable(groups, ArrivalKey, i, j);
    }
  }

  /** The earliest application of a group, a missing time counting as the last second of the year 9999. */
  lemma {:induction false} EarliestTimestampIs(members: seq<Student>)
    ensures members == [] ==> EarliestTimestamp(members) == 99991231235959
    ensures forall m :: m in members ==> EarliestTimestamp(members) <= if m.timestamp.Some? then m.timestamp.value else 99991231235959
    ensures members == []
            || exists m :: m in members && EarliestTimestamp(members) == if m.timestamp.Some? then m.timestamp.value else 99991231235959
  {
    if members == [] {
      return;
    }
    assert members[0] in members && members == [members[0]] + members[1..];
    if |members| > 1 {
      EarliestTimestampIs(members[1..]);
      var m :| m in members[1..]
               && EarliestTimestamp(members[1..]) == if m.timestamp.Some? then m.timestamp.value else 99991231235959;
      assert m in members;
    }
  }

  // ---------- The loops of the engine ----------

  /** The wings of the keys looked at, with their counts and closeness. */
  ghost predicate RankedSoFar(inp: Inputs, s: State, flat: seq<Student>, first: Option<WingKey>, keys: seq<WingKey>,
                              found: seq<(WingKey, int, int)>)
  {
    && (forall e :: e in found ==>
          Open(inp, s, flat, e.0) && e.0 in keys && e.1 == EligibleCount(inp, flat, e.0) && e.2 == Closeness(first, e.0))
    && (forall w :: w in keys && Open(inp, s, flat, w) ==> (w, EligibleCount(inp, flat, w), Closeness(first, w)) in found)
  }

  /** Closest first, then most eligible members. */
  function ByRank(e: (WingKey, int, int)): seq<int> {
    [-e.2, -e.1]
  }

  lemma TopOfRanked(inp: Inputs, s: State, flat: seq<Student>, first: Option<WingKey>, keys: seq<WingKey>,
                    found: seq<(WingKey, int, int)>)
    requires RankedSoFar(inp, s, flat, first, keys, found) && forall w :: w in s.wings ==> w in keys
    ensures |SortBy(found, ByRank)| == 0 <==> forall w :: !Open(inp, s, flat, w)
    ensures |SortBy(found, ByRank)| > 0 ==>
              SortBy(found, ByRank)[0].0 in keys && TopRanked(inp, s, flat, first, SortBy(found, ByRank)[0].0)
  {
    var ranked := SortBy(found, ByRank);
    SortByPermutes(found, ByRank);
    SortBySorted(found, ByRank);
    if |ranked| > 0 {
      assert ranked[0] in ranked && ranked[0] in found;
      forall w | Open(inp, s, flat, w)
        ensures LexLeq(Rank(inp, flat, first, ranked[0].0), Rank(inp, flat, first, w))
      {
        FirstBeats(ranked, ByRank, (w, EligibleCount(inp, flat, w), Closeness(first, w)));
      }
    } else {
      forall w
        ensures !Open(inp, s, flat, w)
      {
        assert (w, EligibleCount(inp, flat, w), Closeness(first, w)) !in ranked;
      }
    }
  }

  lemma FirstBeats(ranked: seq<(WingKey, int, int)>, key: ((WingKey, int, int)) -> seq<int>, e: (WingKey, int, int))
    requires |ranked| > 0 && SortedBy(ranked, key) && e in ranked
    ensures LexLeq(key(ranked[0]), key(e))
  {
    var j :| 0 <= j < |ranked| && ranked[j] == e;
    if j == 0 {
      LexTotal(key(e), key(e));
    }
  }

  /** Safety and course of a split between two turns; stated like GroupLoop, so that the loop need not look inside. */
  ghost predicate Splitting(inp: Inputs, key: Option<WingKey>, members: seq<Student>, n: nat, s0: State, s: State, units: seq<Unit>,
                            first: Option<WingKey>, rs: seq<Result>)
  {
    forall m: nat :: IsCount(rs, m) ==>
      && SplitLoop(inp, IdSet(members), s0, s, units, rs)
      && SplitTurns(inp, key, n, s0, Units(inp.roommates, members), s, units, first, rs)
  }

  lemma SplittingStart(inp: Inputs, key: Option<WingKey>, s: State, members: seq<Student>)
    requires WellFormed(inp) && Sound(inp, s) && Counted(inp, s) && MembersReady(inp, s, members)
    ensures Splitting(inp, key, members, 0, s, s, Units(inp.roommates, members), None, [])
  {
    SplitLoopStart(inp, s, members);
  }

  lemma SplittingUnits(inp: Inputs, key: Option<WingKey>, members: seq<Student>, n: nat, s0: State, s: State, units: seq<Unit>,
                       first: Option<WingKey>, rs: seq<Result>)
    requires Splitting(inp, key, members, n, s0, s, units, first, rs)
    ensures forall u :: u in units ==> |u| >= 1
  {
    assert IsCount(rs, |rs|);
  }

  lemma SplittingOver(inp: Inputs, key: Option<WingKey>, members: seq<Student>, n: nat, s0: State, s: State, units: seq<Unit>,
                      first: Option<WingKey>, rs: seq<Result>)
    requires Splitting(inp, key, members, n, s0, s, units, first, rs) && SplitStuck(inp, key, s, units, first)
    ensures SplitOver(inp, key, members, s0, s, rs)
    ensures Advanced(inp, IdSet(members), s0, s, rs) && Counted(inp, s)
  {
    assert IsCount(rs, |rs|);
  }

  /** The batch of a turn is fit to be sent to its wing. */
  lemma SplittingReady(inp: Inputs, key: WingKey, members: seq<Student>, n: nat, s0: State, s: State, units: seq<Unit>,
                       first: Option<WingKey>, rs: seq<Result>, best: WingKey)
    requires Splitting(inp, Some(key), members, n, s0, s, units, first, rs) && best in s.wings
    ensures var batch, kept := Batch(inp, units, key, s.wings[best]), Kept(inp, units, key, s.wings[best]);
            && Sound(inp, s) && Counted(inp, s) && MembersReady(inp, s, Flat(batch)) && |batch| + |kept| == |units|
  {
    assert IsCount(rs, |rs|);
    BatchDivides(inp, units, key, s.wings[best]);
    BatchReady(inp, IdSet(members), s, units, Batch(inp, units, key, s.wings[best]), Kept(inp, units, key, s.wings[best]));
  }

  lemma SplittingStep(inp: Inputs, key: WingKey, members: seq<Student>, n: nat, s0: State, s: State, units: seq<Unit>,
                      first: Option<WingKey>, rs: seq<Result>, best: WingKey, s': State, more: seq<Result>)
    requires Splitting(inp, Some(key), members, n, s0, s, units, first, rs) && TopRanked(inp, s, Flat(units), first, best)
    requires var batch := Batch(inp, units, key, s.wings[best]);
             && |batch| >= 1 && Advanced(inp, IdSet(Flat(batch)), s, s', more) && Counted(inp, s')
             && OnlyInWing(inp, best, s, s') && |more| == MostPlaceable(inp, s, best, Flat(batch))
    ensures Splitting(inp, Some(key), members, n + 1, s0, s', Kept(inp, units, key, s.wings[best]), FirstUsed(first, best), rs + more)
  {
    var batch, kept := Batch(inp, units, key, s.wings[best]), Kept(inp, units, key, s.wings[best]);
    assert IsCount(rs, |rs|);
    BatchDivides(inp, units, key, s.wings[best]);
    SplitLoopStep(inp, IdSet(members), s0, s, s', units, batch, kept, rs, more);
    SplitOneTurn(inp, Some(key), n, s0, Units(inp.roommates, members), s, units, first, rs, best, s', kept, more);
  }

  /** The loop over the groups; stated like GroupLoop. */
  ghost predicate Placing(inp: Inputs, key: Option<WingKey>, groups: seq<Group>, k: nat, s: State, rs: seq<Result>) {
    forall m: nat :: IsCount(rs, m) ==> Underway(inp, s, rs) && GroupPhase(inp, key, groups, k, s, rs)
  }

  lemma PlacingStart(inp: Inputs, key: Option<WingKey>, groups: seq<Group>)
    requires WellFormed(inp)
    ensures Placing(inp, key, groups, 0, Initial(inp), [])
  {
    UnderwayStart(inp);
  }

  lemma PlacingNow(inp: Inputs, key: Option<WingKey>, groups: seq<Group>, k: nat, s: State, rs: seq<Result>)
    requires Placing(inp, key, groups, k, s, rs)
    ensures Underway(inp, s, rs) && GroupPhase(inp, key, groups, k, s, rs)
  {
    assert IsCount(rs, |rs|);
  }

  lemma PlacingNext(inp: Inputs, key: Option<WingKey>, groups: seq<Group>, k: nat, s: State, rs: seq<Result>, s': State, more: seq<Result>)
    requires k < |groups| && Placing(inp, key, groups, k, s, rs)
    requires GroupPlaced(inp, key, groups[k], s, s', more) && Underway(inp, s', rs + more)
    ensures Placing(inp, key, groups, k + 1, s', rs + more)
  {
    PlacingNow(inp, key, groups, k, s, rs);
    GroupPhaseNext(inp, key, groups, k, s, rs, s', more);
  }
}
