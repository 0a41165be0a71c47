/**
 Atomic units: roommate pairs whose members are both in a list, and single
 students. Built by one pass over the list.
 */
module AtomicUnits {
  import opened Common
  import opened AllocationModel

  type Roommates = map<StudentId, StudentId>

  function ById(all: seq<Student>): (m: map<StudentId, Student>)
    ensures m.Keys == IdSet(all)
    ensures forall id :: id in m ==> m[id] in all && m[id].userId == id
  {
    if all == [] then map[]
    else
      var n := |all| - 1;
      assert all == all[..n] + [all[n]];
      ById(all[..n])[all[n].userId := all[n]]
  }

  /** The unit the pass forms when it meets a student not covered yet. */
  function UnitFor(rm: Roommates, all: seq<Student>, s: Student): (u: Unit)
    ensures |u| >= 1 && u[0] == s
  {
    if s.userId in rm && rm[s.userId] != "" && rm[s.userId] in ById(all)
    then [s, ById(all)[rm[s.userId]]]
    else [s]
  }

  /** The pass after its first n students. */
  function UnitsUpTo(rm: Roommates, all: seq<Student>, n: nat): (units: seq<Unit>)
    requires n <= |all|
    ensures forall u :: u in units ==> |u| >= 1
  {
    if n == 0 then []
    else
      var before := UnitsUpTo(rm, all, n - 1);
      var s := all[n - 1];
      if s.userId in IdSet(Flat(before)) then before
      else before + [UnitFor(rm, all, s)]
  }

  function Units(rm: Roommates, all: seq<Student>): seq<Unit> {
    UnitsUpTo(rm, all, |all|)
  }

  /** A pair of mutual roommates from the list, or a single whose roommate is not in the list. */
  ghost predicate ProperUnit(rm: Roommates, all: seq<Student>, u: Unit) {
    && 1 <= |u| <= 2
    && (forall s :: s in u ==> s in all)
    && (|u| == 2 ==> u[0].userId in rm && rm[u[0].userId] == u[1].userId)
    && (|u| == 1 ==> !(u[0].userId in rm && rm[u[0].userId] in IdSet(all)))
  }

  lemma {:induction false} InFlat(units: seq<Unit>, s: Student)
    ensures s in Flat(units) <==> exists u :: u in units && s in u
  {
    if units != [] {
      var n := |units| - 1;
      assert units == units[..n] + [units[n]];
      InFlat(units[..n], s);
    }
  }

  /** The pass after its first n students, with the ids it has marked as processed. */
  ghost predicate PassedOver(rm: Roommates, all: seq<Student>, n: nat, units: seq<Unit>, processed: set<StudentId>) {
    n <= |all| && units == UnitsUpTo(rm, all, n) && processed == IdSet(Flat(units))
  }

  /** If the roommate of a listed student is covered by proper units, so is the student. */
  lemma MateCovered(rm: Roommates, all: seq<Student>, units: seq<Unit>, a: StudentId)
    requires IsMatching(rm) && a in rm && a in IdSet(all)
    requires forall u :: u in units ==> ProperUnit(rm, all, u)
    requires rm[a] in IdSet(Flat(units))
    ensures a in IdSet(Flat(units))
  {
    var b :| b in Flat(units) && b.userId == rm[a];
    InFlat(units, b);
    var u: Unit :| u in units && b in u;
    assert rm[b.userId] == a;
    assert |u| == 2;
    assert u[0].userId == a || u[1].userId == a by {
      assert rm[rm[u[0].userId]] == u[0].userId;
    }
    var s := if u[0].userId == a then u[0] else u[1];
    InFlat(units, s);
  }

  ghost predicate Covers(rm: Roommates, all: seq<Student>, units: seq<Unit>, n: nat)
    requires n <= |all|
  {
    && (forall u :: u in units ==> ProperUnit(rm, all, u))
    && Unique(Ids(Flat(units)))
    && IdSet(all[..n]) <= IdSet(Flat(units)) <= IdSet(all)
  }

  /**
   Whatever the list, with repetitions or not, the units of a matching are a
   partition of its students: every listed student is in exactly one unit.
   */
  lemma {:induction false} UnitsPartition(rm: Roommates, all: seq<Student>, n: nat)
    requires IsMatching(rm) && n <= |all|
    ensures Covers(rm, all, UnitsUpTo(rm, all, n), n)
  {
    if n == 0 {
      CoversNone(rm, all);
    } else {
      UnitsPartition(rm, all, n - 1);
      CoversNext(rm, all, UnitsUpTo(rm, all, n - 1), n);
    }
  }

  lemma CoversNone(rm: Roommates, all: seq<Student>)
    ensures Covers(rm, all, UnitsUpTo(rm, all, 0), 0)
  {
    assert all[..0] == [];
  }

  lemma CoversNext(rm: Roommates, all: seq<Student>, before: seq<Unit>, n: nat)
    requires IsMatching(rm) && 0 < n <= |all| && Covers(rm, all, before, n - 1)
    ensures var s := all[n - 1];
            Covers(rm, all, if s.userId in IdSet(Flat(before)) then before else before + [UnitFor(rm, all, s)], n)
  {
    var s := all[n - 1];
    if s.userId !in IdSet(Flat(before)) {
      NewUnitIsFresh(rm, all, before, s);
      CoversExtend(rm, all, before, UnitFor(rm, all, s), n);
    } else {
      CoversStay(rm, all, before, n);
    }
  }

  lemma OneMoreId(all: seq<Student>, n: nat)
    requires 0 < n <= |all|
    ensures IdSet(all[..n]) == IdSet(all[..n - 1]) + {all[n - 1].userId}
  {
  }

  lemma CoversStay(rm: Roommates, all: seq<Student>, units: seq<Unit>, n: nat)
    requires 0 < n <= |all| && Covers(rm, all, units, n - 1) && all[n - 1].userId in IdSet(Flat(units))
    ensures Covers(rm, all, units, n)
  {
  }

  lemma NewUnitIsFresh(rm: Roommates, all: seq<Student>, before: seq<Unit>, s: Student)
    requires IsMatching(rm) && s in all
    requires forall u :: u in before ==> ProperUnit(rm, all, u)
    requires s.userId !in IdSet(Flat(before))
    ensures ProperUnit(rm, all, UnitFor(rm, all, s))
    ensures Unique(Ids(UnitFor(rm, all, s)))
    ensures s in UnitFor(rm, all, s)
    ensures forall m :: m in UnitFor(rm, all, s) ==> m.userId !in IdSet(Flat(before))
  {
    if |UnitFor(rm, all, s)| == 2 && rm[s.userId] in IdSet(Flat(before)) {
      MateCovered(rm, all, before, s.userId);
    }
  }

  lemma CoversExtend(rm: Roommates, all: seq<Student>, before: seq<Unit>, u: Unit, n: nat)
    requires 0 < n <= |all| && Covers(rm, all, before, n - 1)
    requires ProperUnit(rm, all, u) && Unique(Ids(u)) && all[n - 1] in u
    requires forall s :: s in u ==> s.userId !in IdSet(Flat(before))
    ensures Covers(rm, all, before + [u], n)
  {
    UniqueExtend(Flat(before), u);
    OneMoreId(all, n);
    assert all[n - 1].userId in IdSet(u) && IdSet(u) <= IdSet(all);
  }

  lemma UniqueExtend(a: seq<Student>, u: Unit)
    requires Unique(Ids(a)) && Unique(Ids(u))
    requires forall s :: s in u ==> s.userId !in IdSet(a)
    ensures Unique(Ids(a + u))
  {
  }

  lemma PartitionOfUnits(rm: Roommates, all: seq<Student>)
    requires IsMatching(rm)
    ensures forall u :: u in Units(rm, all) ==> ProperUnit(rm, all, u)
    ensures Unique(Ids(Flat(Units(rm, all))))
    ensures IdSet(Flat(Units(rm, all))) == IdSet(all)
  {
    UnitsPartition(rm, all, |all|);
    assert all[..|all|] == all;
  }

  lemma UnitOf(rm: Roommates, all: seq<Student>, b: StudentId) returns (u: Unit, i: nat)
    requires IsMatching(rm) && b in IdSet(all)
    ensures u in Units(rm, all) && ProperUnit(rm, all, u)
    ensures i < |u| && u[i].userId == b
  {
    var units := Units(rm, all);
    PartitionOfUnits(rm, all);
    assert b in IdSet(Flat(units));
    var m :| m in Flat(units) && m.userId == b;
    InFlat(units, m);
    u :| u in units && m in u;
    i :| 0 <= i < |u| && u[i] == m;
  }

  /** Two listed roommates form one unit. */
  lemma PairUnit(rm: Roommates, all: seq<Student>, b: StudentId) returns (u: Unit)
    requires IsMatching(rm) && b in rm && b in IdSet(all) && rm[b] in IdSet(all)
    ensures u in Units(rm, all) && |u| == 2 && u[0] in all && u[1] in all
    ensures (u[0].userId == b && u[1].userId == rm[b]) || (u[1].userId == b && u[0].userId == rm[b])
  {
    var i;
    u, i := UnitOf(rm, all, b);
    UnitHoldsPair(rm, all, u, i);
  }

  lemma UnitHoldsPair(rm: Roommates, all: seq<Student>, u: Unit, i: nat)
    requires IsMatching(rm) && ProperUnit(rm, all, u) && i < |u|
    requires u[i].userId in rm && rm[u[i].userId] in IdSet(all)
    ensures |u| == 2 && u[0] in all && u[1] in all && u[1 - i].userId == rm[u[i].userId]
  {
  }

  /** Student k of the list leads its unit: it has no roommate in the list, or comes before it. */
  ghost predicate Leads(rm: Roommates, all: seq<Student>, k: nat)
    requires k < |all|
  {
    all[k].userId in rm ==> forall j :: 0 <= j < k ==> all[j].userId != rm[all[k].userId]
  }

  function UnitSize(rm: Roommates, all: seq<Student>, s: Student): nat {
    if s.userId in rm && rm[s.userId] in IdSet(all) then 2 else 1
  }

  /** Some unit is led by s and has the size s calls for. */
  ghost predicate HasLead(rm: Roommates, all: seq<Student>, units: seq<Unit>, s: Student) {
    exists u :: u in units && |u| == UnitSize(rm, all, s) && u[0] == s
  }

  /** The same of the units formed by the first n students; stated so that recursion need not look inside. */
  ghost predicate LedBy(rm: Roommates, all: seq<Student>, n: nat, s: Student)
    requires n <= |all|
  {
    forall units :: units == UnitsUpTo(rm, all, n) ==> HasLead(rm, all, units, s)
  }

  /** No unit formed by the first n students has a member of that id. */
  ghost predicate Uncovered(rm: Roommates, all: seq<Student>, n: nat, id: StudentId)
    requires n <= |all|
  {
    forall units :: units == UnitsUpTo(rm, all, n) ==> id !in IdSet(Flat(units))
  }

  lemma StillLed(rm: Roommates, all: seq<Student>, n: nat, s: Student)
    requires n < |all| && LedBy(rm, all, n, s)
    ensures LedBy(rm, all, n + 1, s)
  {
    assert HasLead(rm, all, UnitsUpTo(rm, all, n), s);
    var u: Unit :| u in UnitsUpTo(rm, all, n) && |u| == UnitSize(rm, all, s) && u[0] == s;
    assert u in UnitsUpTo(rm, all, n + 1);
  }

  lemma FormsUnit(rm: Roommates, all: seq<Student>, k: nat)
    requires IsMatching(rm) && k < |all| && Uncovered(rm, all, k, all[k].userId)
    ensures LedBy(rm, all, k + 1, all[k])
  {
    var u, before := UnitFor(rm, all, all[k]), UnitsUpTo(rm, all, k);
    assert all[k].userId !in IdSet(Flat(before));
    assert u in UnitsUpTo(rm, all, k + 1) && |u| == UnitSize(rm, all, all[k]) && u[0] == all[k];
  }

  lemma UncoveredNext(rm: Roommates, all: seq<Student>, n: nat, id: StudentId)
    requires n < |all| && Uncovered(rm, all, n, id) && id !in IdSet(UnitFor(rm, all, all[n]))
    ensures Uncovered(rm, all, n + 1, id)
  {
    var before := UnitsUpTo(rm, all, n);
    assert id !in IdSet(Flat(before));
    assert Flat(before + [UnitFor(rm, all, all[n])]) == Flat(before) + UnitFor(rm, all, all[n]);
  }

  /** The first members of the units are exactly the leading students, with the unit size they call for. */
  lemma {:induction false} LeadersLead(rm: Roommates, all: seq<Student>, n: nat, k: nat)
    requires IsMatching(rm) && Unique(Ids(all)) && k < n <= |all| && Leads(rm, all, k)
    ensures LedBy(rm, all, n, all[k])
  {
    if k < n - 1 {
      LeadersLead(rm, all, n - 1, k);
      StillLed(rm, all, n - 1, all[k]);
    } else {
      NotYetCovered(rm, all, k, k);
      FormsUnit(rm, all, k);
    }
  }

  /** A leader is not covered before the pass reaches it. */
  lemma {:induction false} NotYetCovered(rm: Roommates, all: seq<Student>, n: nat, k: nat)
    requires IsMatching(rm) && Unique(Ids(all)) && n <= k < |all| && Leads(rm, all, k)
    ensures Uncovered(rm, all, n, all[k].userId)
  {
    if n > 0 {
      NotYetCovered(rm, all, n - 1, k);
      LeaderIsNoMate(rm, all, n - 1, k);
      OthersUnitIsApart(rm, all, all[n - 1], all[k]);
      UncoveredNext(rm, all, n - 1, all[k].userId);
    }
  }

  lemma LeaderIsNoMate(rm: Roommates, all: seq<Student>, j: nat, k: nat)
    requires IsMatching(rm) && Unique(Ids(all)) && j < k < |all| && Leads(rm, all, k)
    ensures all[j].userId != all[k].userId && (all[j].userId in rm ==> rm[all[j].userId] != all[k].userId)
  {
    assert Ids(all)[j] != Ids(all)[k];
  }

  lemma OthersUnitIsApart(rm: Roommates, all: seq<Student>, s: Student, other: Student)
    requires s.userId != other.userId
    requires s.userId in rm ==> rm[s.userId] != other.userId
    ensures other.userId !in IdSet(UnitFor(rm, all, s))
  {
  }

  // ---------- Pairs first ----------

  function SortUnits(units: seq<Unit>): seq<Unit> {
    SortBy(units, SizeOf)
  }

  function SizeOf(u: Unit): seq<int> {
    [-|u|]
  }

  ghost predicate PairsFirst(units: seq<Unit>) {
    forall i, j :: 0 <= i < j < |units| ==> |units[i]| >= |units[j]|
  }

  lemma SortUnitsPairsFirst(units: seq<Unit>)
    ensures PairsFirst(SortUnits(units))
    ensures multiset(SortUnits(units)) == multiset(units)
    ensures forall u :: u in SortUnits(units) <==> u in units
  {
    SortByPermutes(units, SizeOf);
    SortBySorted(units, SizeOf);
    var sorted := SortUnits(units);
    forall i, j | 0 <= i < j < |sorted|
      ensures |sorted[i]| >= |sorted[j]|
    {
      assert LexLeq(SizeOf(sorted[i]), SizeOf(sorted[j]));
    }
  }

  /** Units of one size stay in the order given. */
  lemma SortUnitsStable(units: seq<Unit>, i: nat, j: nat)
    requires i < j < |units| && |units[i]| == |units[j]|
    ensures Precedes(SortUnits(units), units[i], units[j])
  {
    SortByStable(units, SizeOf, i, j);
  }

  ghost predicate LedFrom(all: seq<Student>, n: nat, units: seq<Unit>, places: seq<nat>) {
    && n <= |all| && |places| == |units|
    && (forall i, j :: 0 <= i < j < |places| ==> places[i] < places[j])
    && forall i :: 0 <= i < |places| ==> places[i] < n && |units[i]| >= 1 && units[i][0] == all[places[i]]
  }

  lemma LedFromNext(all: seq<Student>, n: nat, units: seq<Unit>, places: seq<nat>, u: Unit)
    requires LedFrom(all, n, units, places) && n < |all| && |u| >= 1 && u[0] == all[n]
    ensures LedFrom(all, n + 1, units, places) && LedFrom(all, n + 1, units + [u], places + [n])
  {
  }

  /** The units stand in the order in which the list names their first members. */
  lemma UnitsInOrder(rm: Roommates, all: seq<Student>) returns (places: seq<nat>)
    ensures |places| == |Units(rm, all)| && forall i, j :: 0 <= i < j < |places| ==> places[i] < places[j]
    ensures forall i :: 0 <= i < |places| ==> places[i] < |all| && |Units(rm, all)[i]| >= 1 && Units(rm, all)[i][0] == all[places[i]]
  {
    places := UnitPlaces(rm, all, |all|);
  }

  lemma {:induction false} UnitPlaces(rm: Roommates, all: seq<Student>, n: nat) returns (places: seq<nat>)
    requires n <= |all|
    ensures LedFrom(all, n, UnitsUpTo(rm, all, n), places)
  {
    places := [];
    if n > 0 {
      var before, u := UnitsUpTo(rm, all, n - 1), UnitFor(rm, all, all[n - 1]);
      places := UnitPlaces(rm, all, n - 1);
      LedFromNext(all, n - 1, before, places, u);
      if all[n - 1].userId in IdSet(Flat(before)) {
        assert UnitsUpTo(rm, all, n) == before;
      } else {
        assert UnitsUpTo(rm, all, n) == before + [u];
        places := places + [n - 1];
      }
    }
  }
}
