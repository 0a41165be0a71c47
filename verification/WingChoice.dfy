/**
 Choosing one wing for a whole group: wings every member may enter with a
 counter no smaller than the group, best score first.
 */
module WingChoice {
  import opened Common
  import opened Rules
  import opened AllocationModel
  import opened AtomicUnits
  import opened GroupPacking
  import opened WingPacking
  import opened EngineSteps

  /** The highest priority, above 0, of the allowing rules that cover the wing and year. */
  function RulePriority(rules: seq<Rule>, w: WingKey, year: int): (p: int)
    ensures p >= 0
    ensures forall r :: r in rules && Favours(r, w, year) ==> r.priority <= p
    ensures p > 0 ==> exists r :: r in rules && Favours(r, w, year) && r.priority == p
  {
    if rules == [] then 0
    else
      var n := |rules| - 1;
      assert rules == rules[..n] + [rules[n]];
      assert forall r :: r in rules[..n] ==> r in rules;
      assert rules[n] in rules;
      var before := RulePriority(rules[..n], w, year);
      if Favours(rules[n], w, year) && rules[n].priority > before then rules[n].priority else before
  }

  predicate Favours(rule: Rule, w: WingKey, year: int) {
    && rule.isAllowed
    && (rule.hostelId.None? || rule.hostelId.value == w.hostelId)
    && (rule.wing.None? || rule.wing.value == w.wing)
    && (rule.year.None? || rule.year.value == year)
  }

  /**
   A rule of higher priority than the wing's score forbids, or is for another
   hostel, wing or year; and a score above 0 is that of an allowing rule for
   the wing and year.
   */
  lemma RulePriorityIs(rules: seq<Rule>, w: WingKey, year: int)
    ensures var p := RulePriority(rules, w, year);
            && p >= 0
            && (forall r :: r in rules && r.priority > p ==>
                  || !r.isAllowed || (r.hostelId.Some? && r.hostelId.value != w.hostelId)
                  || (r.wing.Some? && r.wing.value != w.wing) || (r.year.Some? && r.year.value != year))
            && (p > 0 ==> exists r ::
                  && r in rules && r.priority == p && r.isAllowed && (r.hostelId.Some? ==> r.hostelId.value == w.hostelId)
                  && (r.wing.Some? ==> r.wing.value == w.wing) && (r.year.Some? ==> r.year.value == year))
  {
    var p := RulePriority(rules, w, year);
    if p > 0 {
      var r :| r in rules && Favours(r, w, year) && r.priority == p;
      assert r.isAllowed;
    }
  }

  function LargestUnit(units: seq<Unit>): (n: nat)
    requires forall u :: u in units ==> |u| >= 1
    ensures n >= 1 && forall u :: u in units ==> |u| <= n
    ensures units == [] || exists u :: u in units && |u| == n
  {
    if units == [] then 1
    else
      var k := |units| - 1;
      assert units == units[..k] + [units[k]];
      assert forall u :: u in units[..k] ==> u in units;
      assert units[k] in units;
      if k == 0 || |units[k]| > LargestUnit(units[..k]) then |units[k]| else LargestUnit(units[..k])
  }

  predicate HasRoomFor(inp: Inputs, w: WingKey, n: nat) {
    exists r :: r in WingRooms(inp, w) && r.capacity >= n
  }

  function WingScore(inp: Inputs, wings: map<WingKey, int>, w: WingKey, year: int, preferences: seq<int>, largest: nat): seq<int> {
    var preference: int := IndexOf(preferences, w.hostelId);
    [if HasRoomFor(inp, w, largest) then 0 else 1,
     -RulePriority(inp.rules, w, year),
     preference,
     -(if w in wings then wings[w] else 0),
     inp.textRank(w)]
  }

  /** Every member may enter the wing and its counter is no smaller than the group. */
  ghost predicate Candidate(inp: Inputs, s: State, members: seq<Student>, w: WingKey) {
    && w in s.wings
    && (forall m :: m in members ==> EligibleWing(inp, m, w))
    && s.wings[w] >= |members|
  }

  /** A candidate with a room large enough for the largest unit of the group. */
  ghost predicate Suitable(inp: Inputs, s: State, members: seq<Student>, w: WingKey) {
    Candidate(inp, s, members, w) && HasRoomFor(inp, w, LargestUnit(Units(inp.roommates, members)))
  }

  /**
   When a wing is suitable for a group: its counter covers the group, every
   member has a valid room in it, and some open room of it has a bed, or, if
   two of the members are roommates, two beds.
   */
  lemma SuitableIs(inp: Inputs, s: State, members: seq<Student>, w: WingKey)
    requires IsMatching(inp.roommates) && |members| > 0
    ensures Suitable(inp, s, members, w) <==>
            && w in s.wings && s.wings[w] >= |members|
            && (forall m :: m in members ==> exists r :: r in inp.rooms && ValidRoom(inp, m, r) && KeyOf(r) == w)
            && var beds := if exists m :: m in members && m.userId in inp.roommates && inp.roommates[m.userId] in IdSet(members) then 2 else 1;
               exists r :: r in inp.rooms && r.status == Available && KeyOf(r) == w && r.capacity >= beds
  {
    LargestIs(inp.roommates, members);
    forall m | m in members
      ensures EligibleWing(inp, m, w) <==> exists r :: r in inp.rooms && ValidRoom(inp, m, r) && KeyOf(r) == w
    {
    }
  }

  lemma LargestIs(rm: Roommates, members: seq<Student>)
    requires IsMatching(rm) && |members| > 0
    ensures LargestUnit(Units(rm, members))
            == if exists m :: m in members && m.userId in rm && rm[m.userId] in IdSet(members) then 2 else 1
  {
    var units := Units(rm, members);
    PartitionOfUnits(rm, members);
    if m :| m in members && m.userId in rm && rm[m.userId] in IdSet(members) {
      var u := PairUnit(rm, members, m.userId);
      assert u in units && |u| == 2;
    }
    if u: Unit :| u in units && |u| == 2 {
      assert ProperUnit(rm, members, u) && u[0] in u && u[1] in u;
    }
  }

  ghost predicate BestSuitable(inp: Inputs, s: State, members: seq<Student>, preferences: seq<int>, w: WingKey)
    requires |members| > 0
  {
    var largest := LargestUnit(Units(inp.roommates, members));
    && Suitable(inp, s, members, w)
    && forall v :: Suitable(inp, s, members, v)
         ==> LexLeq(WingScore(inp, s.wings, w, members[0].year, preferences, largest),
                    WingScore(inp, s.wings, v, members[0].year, preferences, largest))
  }

  /**
   What makes a suitable wing best: the highest rule priority; among those the
   hostel listed first in the group's preferences, an unlisted one counting as
   behind all listed; among those the largest counter; and then the first key.
   */
  lemma BestSuitableMeans(inp: Inputs, s: State, members: seq<Student>, preferences: seq<int>, w: WingKey)
    requires |members| > 0 && BestSuitable(inp, s, members, preferences, w)
    ensures forall v :: Suitable(inp, s, members, v) ==>
              var year := members[0].year;
              var pw, pv := RulePriority(inp.rules, w, year), RulePriority(inp.rules, v, year);
              var iw, iv := IndexOf(preferences, w.hostelId), IndexOf(preferences, v.hostelId);
              && v in s.wings && w in s.wings && pw >= pv
              && (pw == pv ==> iw <= iv)
              && (pw == pv && iw == iv ==> s.wings[w] >= s.wings[v])
              && (pw == pv && iw == iv && s.wings[w] == s.wings[v] ==> inp.textRank(w) <= inp.textRank(v))
  {
    var largest := LargestUnit(Units(inp.roommates, members));
    forall v | Suitable(inp, s, members, v)
      ensures var year := members[0].year;
              var pw, pv := RulePriority(inp.rules, w, year), RulePriority(inp.rules, v, year);
              var iw, iv := IndexOf(preferences, w.hostelId), IndexOf(preferences, v.hostelId);
              && v in s.wings && w in s.wings && pw >= pv
              && (pw == pv ==> iw <= iv)
              && (pw == pv && iw == iv ==> s.wings[w] >= s.wings[v])
              && (pw == pv && iw == iv && s.wings[w] == s.wings[v] ==> inp.textRank(w) <= inp.textRank(v))
    {
      ScoreMeans(inp, s.wings, w, v, members[0].year, preferences, largest);
    }
  }

  lemma ScoreMeans(inp: Inputs, wings: map<WingKey, int>, w: WingKey, v: WingKey, year: int, preferences: seq<int>, largest: nat)
    requires HasRoomFor(inp, w, largest) && HasRoomFor(inp, v, largest) && w in wings && v in wings
    requires LexLeq(WingScore(inp, wings, w, year, preferences, largest), WingScore(inp, wings, v, year, preferences, largest))
    ensures var pw, pv := RulePriority(inp.rules, w, year), RulePriority(inp.rules, v, year);
            var iw, iv := IndexOf(preferences, w.hostelId), IndexOf(preferences, v.hostelId);
            && pw >= pv && (pw == pv ==> iw <= iv) && (pw == pv && iw == iv ==> wings[w] >= wings[v])
            && (pw == pv && iw == iv && wings[w] == wings[v] ==> inp.textRank(w) <= inp.textRank(v))
  {
    LexOfFive(WingScore(inp, wings, w, year, preferences, largest), WingScore(inp, wings, v, year, preferences, largest));
  }

  predicate ScoresFirst(a: seq<int>, b: seq<int>)
    requires |a| == 5 && |b| == 5
  {
    a[0] < b[0] || (a[0] == b[0] && (a[1] < b[1] || (a[1] == b[1] && (a[2] < b[2] || (a[2] == b[2] && (a[3] < b[3]
    || (a[3] == b[3] && a[4] <= b[4])))))))
  }

  lemma LexOfFive(a: seq<int>, b: seq<int>)
    requires |a| == 5 && |b| == 5 && LexLeq(a, b)
    ensures ScoresFirst(a, b)
  {
    var a1, b1 := a[1..], b[1..];
    var a2, b2 := a1[1..], b1[1..];
    var a3, b3 := a2[1..], b2[1..];
    var a4, b4 := a3[1..], b3[1..];
    assert LexLeq(a, b) == (a[0] < b[0] || (a[0] == b[0] && LexLeq(a1, b1)));
    assert LexLeq(a1, b1) == (a[1] < b[1] || (a[1] == b[1] && LexLeq(a2, b2)));
    assert LexLeq(a2, b2) == (a[2] < b[2] || (a[2] == b[2] && LexLeq(a3, b3)));
    assert LexLeq(a3, b3) == (a[3] < b[3] || (a[3] == b[3] && LexLeq(a4, b4)));
    assert a4 == [a[4]] && b4 == [b[4]];
  }

  /** The first of the sorted candidates is the best suitable wing, or no candidate is suitable. */
  lemma TopOfCandidates(inp: Inputs, s: State, members: seq<Student>, preferences: seq<int>, available: seq<WingKey>,
                        key: WingKey -> seq<int>)
    requires |members| > 0 && |available| > 0
    requires forall w :: w in available <==> Candidate(inp, s, members, w)
    requires forall w :: key(w) == WingScore(inp, s.wings, w, members[0].year, preferences,
                                             LargestUnit(Units(inp.roommates, members)))
    ensures var largest := LargestUnit(Units(inp.roommates, members));
            |SortBy(available, key)| > 0 && var top := SortBy(available, key)[0];
            && (HasRoomFor(inp, top, largest) ==> BestSuitable(inp, s, members, preferences, top))
            && (!HasRoomFor(inp, top, largest) ==> forall v :: !Suitable(inp, s, members, v))
  {
    var sorted := SortBy(available, key);
    SortByPermutes(available, key);
    SortBySorted(available, key);
    var largest := LargestUnit(Units(inp.roommates, members));
    assert sorted[0] in sorted;
    forall v | Suitable(inp, s, members, v)
      ensures LexLeq(key(sorted[0]), key(v)) && HasRoomFor(inp, sorted[0], largest)
    {
      assert v in sorted;
      var j :| 0 <= j < |sorted| && sorted[j] == v;
      if j == 0 {
        LexTotal(key(v), key(v));
      }
    }
  }

  /** No member's accepted roommate is a member. */
  ghost predicate AllSingle(inp: Inputs, members: seq<Student>) {
    forall m :: m in members && m.userId in inp.roommates ==> inp.roommates[m.userId] !in IdSet(members)
  }

  lemma SinglesHaveNoPairs(inp: Inputs, members: seq<Student>)
    requires IsMatching(inp.roommates) && Unique(Ids(members)) && AllSingle(inp, members)
    ensures Pairs(Units(inp.roommates, members)) == 0
  {
    var units := Units(inp.roommates, members);
    PartitionOfUnits(inp.roommates, members);
    forall u: Unit | u in units
      ensures |u| != 2
    {
    }
    NoPairs(units);
  }

  lemma {:induction false} NoPairs(units: seq<Unit>)
    requires forall u :: u in units ==> |u| != 2
    ensures Pairs(units) == 0
  {
    if units != [] {
      var n := |units| - 1;
      assert units == units[..n] + [units[n]];
      NoPairs(units[..n]);
    }
  }

  /**
   A wing whose counter covers the group takes all of it exactly when the
   wing's rooms hold as many two-bed spaces as the group has pairs; so a
   group without pairs is always placed entirely.
   */
  lemma CandidateTakesAllIff(inp: Inputs, s: State, members: seq<Student>, w: WingKey)
    requires WellFormed(inp) && WithinCapacity(inp, s) && Counted(inp, s) && MembersReady(inp, s, members)
    requires Candidate(inp, s, members, w)
    ensures MostPlaceable(inp, s, w, members) == |members|
            <==> Pairs(Units(inp.roommates, members)) <= TwoBedTotal(s, WingRooms(inp, w))
    ensures AllSingle(inp, members) ==> MostPlaceable(inp, s, w, members) == |members|
  {
    var units := Units(inp.roommates, members);
    UnitsCountMembers(inp, s, members);
    GroupFitsIff(inp, s, w, Pairs(units), Singles(units));
    if AllSingle(inp, members) {
      SinglesHaveNoPairs(inp, members);
    }
  }

  /** Closeness of two wings: same wing, same wing on another floor, same hostel, elsewhere. */
  function Proximity(a: WingKey, b: WingKey): int {
    if a == b then 100
    else if a.hostelId == b.hostelId && a.wing == b.wing then 60
    else if a.hostelId == b.hostelId then 30
    else 0
  }
}
