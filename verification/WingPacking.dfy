/**
 Filling the rooms of one wing pairs first, and why no other placement of
 whole units houses more.
 */
module WingPacking {
  import opened Common
  import opened AllocationModel

  function Min(a: int, b: int): int {
    if a <= b then a else b
  }

  function Pairs(units: seq<Unit>): nat {
    if units == [] then 0 else Pairs(units[..|units| - 1]) + (if |units[|units| - 1]| == 2 then 1 else 0)
  }

  function Singles(units: seq<Unit>): nat {
    if units == [] then 0 else Singles(units[..|units| - 1]) + (if |units[|units| - 1]| == 2 then 0 else 1)
  }

  /** The three limits on any packing: the students themselves, the beds, and the two-bed spaces. */
  function Best(beds: int, twoBeds: int, pairs: int, singles: int): int {
    Min(2 * pairs + singles, Min(beds, 2 * twoBeds + singles))
  }

  /** What a pairs-first pass puts into a room with `free` free beds. */
  function PairsTaken(free: nat, pairs: nat): nat {
    Min(pairs, free / 2)
  }

  function SinglesTaken(free: nat, pairs: nat, singles: nat): nat {
    Min(singles, free - 2 * PairsTaken(free, pairs))
  }

  /** Filling one room pairs-first loses nothing for the rooms that follow. */
  lemma FillStepIsOptimal(free: nat, beds: nat, twoBeds: nat, pairs: nat, singles: nat)
    requires 2 * twoBeds <= beds
    ensures var a := PairsTaken(free, pairs); var b := SinglesTaken(free, pairs, singles);
            Best(free + beds, free / 2 + twoBeds, pairs, singles)
            == 2 * a + b + Best(beds, twoBeds, pairs - a, singles - b)
  {
  }

  // ---------- Any other placement ----------

  /** Beds that placement `alt` uses in room r: alt[k] is the room index of unit k, if any. */
  function Load(units: seq<Unit>, alt: seq<Option<nat>>, r: nat): nat
    requires |alt| == |units|
  {
    if units == [] then 0
    else
      var n := |units| - 1;
      Load(units[..n], alt[..n], r) + (if alt[n] == Some(r) then |units[n]| else 0)
  }

  function Housed(units: seq<Unit>, alt: seq<Option<nat>>): nat
    requires |alt| == |units|
  {
    if units == [] then 0
    else
      var n := |units| - 1;
      Housed(units[..n], alt[..n]) + (if alt[n].Some? then |units[n]| else 0)
  }

  ghost predicate Feasible(free: seq<nat>, units: seq<Unit>, alt: seq<Option<nat>>) {
    && |alt| == |units|
    && (forall k :: 0 <= k < |alt| && alt[k].Some? ==> alt[k].value < |free|)
    && (forall r :: 0 <= r < |free| ==> Load(units, alt, r) <= free[r])
  }

  function Beds(free: seq<nat>): nat {
    if free == [] then 0 else Beds(free[..|free| - 1]) + free[|free| - 1]
  }

  function TwoBeds(free: seq<nat>): nat
    ensures 2 * TwoBeds(free) <= Beds(free)
  {
    if free == [] then 0 else TwoBeds(free[..|free| - 1]) + free[|free| - 1] / 2
  }

  lemma {:induction false} TakeBeds(free: seq<nat>, r: nat, n: nat)
    requires r < |free| && n <= free[r]
    ensures Beds(free[r := free[r] - n]) == Beds(free) - n
    ensures TwoBeds(free[r := free[r] - n]) == TwoBeds(free) - free[r] / 2 + (free[r] - n) / 2
  {
    var m := |free| - 1;
    var free' := free[r := free[r] - n];
    if r == m {
      assert free'[..m] == free[..m];
    } else {
      assert free'[..m] == free[..m][r := free[r] - n];
      TakeBeds(free[..m], r, n);
    }
  }

  /** The room list with the bed uses of the last unit taken off. */
  function FreeWithoutLast(free: seq<nat>, units: seq<Unit>, alt: seq<Option<nat>>): seq<nat>
    requires Feasible(free, units, alt) && units != []
  {
    var n := |units| - 1;
    if alt[n].None? then free
    else
      assert Load(units, alt, alt[n].value) <= free[alt[n].value];
      free[alt[n].value := free[alt[n].value] - |units[n]|]
  }

  lemma FeasibleWithoutLast(free: seq<nat>, units: seq<Unit>, alt: seq<Option<nat>>)
    requires Feasible(free, units, alt) && units != []
    ensures var n := |units| - 1; Feasible(FreeWithoutLast(free, units, alt), units[..n], alt[..n])
  {
  }

  /** No placement of whole units of size one or two houses more than Best. */
  lemma {:induction false} NoPlacementBeatsBest(free: seq<nat>, units: seq<Unit>, alt: seq<Option<nat>>)
    requires Feasible(free, units, alt)
    requires forall u :: u in units ==> 1 <= |u| <= 2
    ensures Housed(units, alt) <= Best(Beds(free), TwoBeds(free), Pairs(units), Singles(units))
    decreases |units|
  {
    if units != [] {
      var n := |units| - 1;
      assert units == units[..n] + [units[n]];
      FeasibleWithoutLast(free, units, alt);
      NoPlacementBeatsBest(FreeWithoutLast(free, units, alt), units[..n], alt[..n]);
      LastUnitGains(free, units, alt);
    }
  }

  /** What the last unit adds to a placement is no more than what Best gains from it. */
  lemma LastUnitGains(free: seq<nat>, units: seq<Unit>, alt: seq<Option<nat>>)
    requires Feasible(free, units, alt) && |units| > 0 && 1 <= |units[|units| - 1]| <= 2
    ensures var n := |units| - 1; var free' := FreeWithoutLast(free, units, alt);
            (if alt[n].Some? then |units[n]| else 0) + Best(Beds(free'), TwoBeds(free'), Pairs(units[..n]), Singles(units[..n]))
            <= Best(Beds(free), TwoBeds(free), Pairs(units), Singles(units))
  {
    var n := |units| - 1;
    if alt[n].None? {
      BestWithUnitOut(Beds(free), TwoBeds(free), units);
    } else {
      assert Load(units, alt, alt[n].value) <= free[alt[n].value];
      BestWithUnitIn(free, alt[n].value, units);
    }
  }

  /** Putting the last unit into room r costs no more than Best gains from having it. */
  lemma BestWithUnitIn(free: seq<nat>, r: nat, units: seq<Unit>)
    requires r < |free| && units != [] && 1 <= |units[|units| - 1]| <= 2
    requires |units[|units| - 1]| <= free[r]
    ensures var n := |units| - 1; var free' := free[r := free[r] - |units[n]|];
            |units[n]| + Best(Beds(free'), TwoBeds(free'), Pairs(units[..n]), Singles(units[..n]))
            <= Best(Beds(free), TwoBeds(free), Pairs(units), Singles(units))
  {
    var n := |units| - 1;
    var free' := free[r := free[r] - |units[n]|];
    TakeUnitBeds(free, r, |units[n]|);
    BestOfOneMore(Beds(free), TwoBeds(free), Beds(free'), TwoBeds(free'), |units[n]|,
                  Pairs(units[..n]), Singles(units[..n]), Pairs(units), Singles(units));
  }

  lemma BestWithUnitOut(beds: int, twoBeds: int, units: seq<Unit>)
    requires units != []
    ensures Best(beds, twoBeds, Pairs(units[..|units| - 1]), Singles(units[..|units| - 1]))
            <= Best(beds, twoBeds, Pairs(units), Singles(units))
  {
  }

  lemma TakeUnitBeds(free: seq<nat>, r: nat, size: nat)
    requires r < |free| && 1 <= size <= 2 && size <= free[r]
    ensures Beds(free[r := free[r] - size]) == Beds(free) - size
    ensures TwoBeds(free[r := free[r] - size]) <= TwoBeds(free) - (size - 1)
  {
    TakeBeds(free, r, size);
  }

  /** One more unit of the given size costs at most what it adds to the limits. */
  lemma BestOfOneMore(beds: int, twoBeds: int, beds': int, twoBeds': int, size: nat, pairs: nat, singles: nat, pairs': nat, singles': nat)
    requires 1 <= size <= 2 && beds' == beds - size && twoBeds' <= twoBeds - (size - 1)
    requires pairs' == (if size == 2 then pairs + 1 else pairs)
    requires singles' == (if size == 2 then singles else singles + 1)
    ensures size + Best(beds', twoBeds', pairs, singles) <= Best(beds, twoBeds, pairs', singles')
  {
  }

  /** Best equals the whole group exactly when the pairs find two-bed spaces and everyone finds a bed. */
  lemma WholeGroupFitsIff(beds: int, twoBeds: int, pairs: int, singles: int)
    ensures Best(beds, twoBeds, pairs, singles) == 2 * pairs + singles
            <==> pairs <= twoBeds && 2 * pairs + singles <= beds
  {
  }

  // ---------- Counting units ----------

  lemma {:induction false} CountAppend(a: seq<Unit>, b: seq<Unit>)
    ensures Pairs(a + b) == Pairs(a) + Pairs(b)
    ensures Singles(a + b) == Singles(a) + Singles(b)
  {
    if b == [] {
      assert a + b == a;
    } else {
      var n := |b| - 1;
      assert (a + b)[..|a + b| - 1] == a + b[..n];
      CountAppend(a, b[..n]);
    }
  }

  function Remove(units: seq<Unit>, i: nat): seq<Unit>
    requires i < |units|
  {
    units[..i] + units[i + 1..]
  }

  lemma CountRemove(units: seq<Unit>, i: nat)
    requires i < |units|
    ensures Pairs(units) == Pairs(Remove(units, i)) + (if |units[i]| == 2 then 1 else 0)
    ensures Singles(units) == Singles(Remove(units, i)) + (if |units[i]| == 2 then 0 else 1)
  {
    assert units == units[..i] + [units[i]] + units[i + 1..];
    CountAppend(units[..i] + [units[i]], units[i + 1..]);
    CountAppend(units[..i], [units[i]]);
    CountAppend(units[..i], units[i + 1..]);
    assert [units[i]][..0] == [];
  }

  lemma {:induction false} PairExists(units: seq<Unit>)
    ensures Pairs(units) > 0 <==> exists k :: 0 <= k < |units| && |units[k]| == 2
    ensures Singles(units) > 0 <==> exists k :: 0 <= k < |units| && |units[k]| != 2
  {
    if units != [] {
      var n := |units| - 1;
      PairExists(units[..n]);
      if Pairs(units[..n]) > 0 {
        var k :| 0 <= k < n && |units[..n][k]| == 2;
        assert |units[k]| == 2;
      }
      if Singles(units[..n]) > 0 {
        var k :| 0 <= k < n && |units[..n][k]| != 2;
        assert |units[k]| != 2;
      }
      if k :| 0 <= k < |units| && |units[k]| == 2 && k < n {
        assert |units[..n][k]| == 2;
      }
      if k :| 0 <= k < |units| && |units[k]| != 2 && k < n {
        assert |units[..n][k]| != 2;
      }
    }
  }

  lemma {:induction false} FlatSize(units: seq<Unit>)
    requires forall u :: u in units ==> 1 <= |u| <= 2
    ensures |Flat(units)| == 2 * Pairs(units) + Singles(units)
  {
    if units != [] {
      var n := |units| - 1;
      assert units == units[..n] + [units[n]];
      FlatSize(units[..n]);
    }
  }

  lemma {:induction false} CountPermuted(a: seq<Unit>, b: seq<Unit>)
    requires multiset(a) == multiset(b)
    ensures Pairs(a) == Pairs(b) && Singles(a) == Singles(b)
  {
    SameElements(a, b);
    if a != [] {
      var n := |a| - 1;
      assert a == a[..n] + [a[n]];
      assert a[n] in b;
      var k :| 0 <= k < |b| && b[k] == a[n];
      assert b == b[..k] + [b[k]] + b[k + 1..];
      CountRemove(b, k);
      RemoveOne(a, n, b, k);
      assert a[..n] + a[n + 1..] == a[..n];
      CountPermuted(a[..n], Remove(b, k));
    }
  }
}
