/**
 The last pass over the results of a run: one result per student.
 */
module ResultCleanup {
  import opened Common
  import opened AllocationModel
  import opened GroupPacking

  predicate NoReason(r: Result) {
    r.reason.None? || r.reason.value == ""
  }

  ghost predicate OncePerStudent(rs: seq<Result>) {
    forall i, j :: 0 <= i < j < |rs| ==> rs[i].studentId != rs[j].studentId
  }

  // ---------- What the pass is to compute ----------

  function FirstThat(rs: seq<Result>, p: Result -> bool): Option<Result> {
    if rs == [] then None
    else
      var n := |rs| - 1;
      var before := FirstThat(rs[..n], p);
      if before.Some? then before else if p(rs[n]) then Some(rs[n]) else None
  }

  lemma {:induction false} FirstThatFinds(rs: seq<Result>, p: Result -> bool)
    ensures FirstThat(rs, p).None? <==> forall r :: r in rs ==> !p(r)
    ensures FirstThat(rs, p).Some? ==>
              exists i :: 0 <= i < |rs| && rs[i] == FirstThat(rs, p).value && p(rs[i]) && forall k :: 0 <= k < i ==> !p(rs[k])
  {
    if rs != [] {
      var n := |rs| - 1;
      assert rs == rs[..n] + [rs[n]];
      FirstThatFinds(rs[..n], p);
      if FirstThat(rs[..n], p).Some? {
        var i :| 0 <= i < n && rs[..n][i] == FirstThat(rs[..n], p).value && p(rs[..n][i]) && forall k :: 0 <= k < i ==> !p(rs[..n][k]);
        assert rs[i] == rs[..n][i] && forall k :: 0 <= k < i ==> rs[k] == rs[..n][k];
      } else {
        assert forall k :: 0 <= k < n ==> rs[k] in rs[..n];
      }
    }
  }

  function Naming(id: StudentId): Result -> bool {
    (r: Result) => r.studentId == id
  }

  function Succeeding(id: StudentId): Result -> bool {
    (r: Result) => r.studentId == id && r.roomId.Some?
  }

  function Explaining(id: StudentId): Result -> bool {
    (r: Result) => r.studentId == id && !NoReason(r)
  }

  /** A student's first success, else the first result with a reason, else the first result. */
  function Survivor(rs: seq<Result>, id: StudentId): Option<Result> {
    if FirstThat(rs, Succeeding(id)).Some? then FirstThat(rs, Succeeding(id))
    else if FirstThat(rs, Explaining(id)).Some? then FirstThat(rs, Explaining(id))
    else FirstThat(rs, Naming(id))
  }

  /** Which result survives: the first success, or if there is none the first with a reason, or if none has one the first. */
  lemma SurvivorIs(rs: seq<Result>, id: StudentId, i: nat)
    requires i < |rs| && rs[i].studentId == id
    requires (exists k :: 0 <= k < |rs| && rs[k].studentId == id && rs[k].roomId.Some?) ==> rs[i].roomId.Some?
    requires (exists k :: 0 <= k < |rs| && rs[k].studentId == id && rs[k].reason.Some? && rs[k].reason.value != "") && rs[i].roomId.None? ==>
               rs[i].reason.Some? && rs[i].reason.value != ""
    requires forall k :: 0 <= k < i && rs[k].studentId == id ==> if rs[i].roomId.Some? then rs[k].roomId.None? else rs[k].reason.None? || rs[k].reason.value == ""
    requires rs[i].roomId.None? && (rs[i].reason.None? || rs[i].reason.value == "") ==> forall k :: 0 <= k < i ==> rs[k].studentId != id
    ensures Survivor(rs, id) == Some(rs[i])
  {
    FirstThatFinds(rs, Succeeding(id));
    FirstThatFinds(rs, Explaining(id));
    assert rs[i] in rs;
    FirstHere(rs, if rs[i].roomId.Some? then Succeeding(id) else if NoReason(rs[i]) then Naming(id) else Explaining(id), i);
  }

  lemma {:induction false} FirstHere(rs: seq<Result>, p: Result -> bool, i: nat)
    requires i < |rs| && p(rs[i]) && forall k :: 0 <= k < i ==> !p(rs[k])
    ensures FirstThat(rs, p) == Some(rs[i])
  {
    var n := |rs| - 1;
    if i < n {
      FirstHere(rs[..n], p, i);
    } else {
      FirstThatFinds(rs[..n], p);
    }
  }

  /** The students named, in the order in which they are first named. */
  function FirstNamed(rs: seq<Result>): seq<StudentId> {
    if rs == [] then []
    else
      var before := FirstNamed(rs[..|rs| - 1]);
      if rs[|rs| - 1].studentId in before then before else before + [rs[|rs| - 1].studentId]
  }

  /** The survivors of all students named, in the order in which they are first named. */
  ghost predicate IsCleanup(rs: seq<Result>, final: seq<Result>) {
    && |final| == |FirstNamed(rs)|
    && forall i :: 0 <= i < |final| ==> final[i].studentId == FirstNamed(rs)[i] && Survivor(rs, FirstNamed(rs)[i]) == Some(final[i])
  }

  // ---------- One turn of the pass ----------

  /** Whether a later result takes the place of an earlier one of the same student. */
  predicate Replaces(existing: Result, r: Result) {
    existing.roomId.None? && (r.roomId.Some? || (NoReason(existing) && !NoReason(r)))
  }

  /** Replacing one result at a time, by what was seen last, keeps the survivor. */
  lemma SurvivorNext(seen: seq<Result>, r: Result, id: StudentId)
    ensures Survivor(seen + [r], id) ==
              var e := Survivor(seen, id);
              if r.studentId != id then e
              else if e.None? || Replaces(e.value, r) then Some(r)
              else e
  {
    assert (seen + [r])[..|seen|] == seen;
    SurvivorNamed(seen, id);
    FirstThatFinds(seen, Succeeding(id));
    FirstThatFinds(seen, Explaining(id));
    var e := Survivor(seen, id);
    if e.Some? {
      assert e.value.roomId.Some? <==> Succeeding(id)(e.value);
      assert !NoReason(e.value) <==> Explaining(id)(e.value);
    }
  }

  lemma SurvivorNamed(rs: seq<Result>, id: StudentId)
    ensures Survivor(rs, id).Some? ==> Survivor(rs, id).value in rs && Survivor(rs, id).value.studentId == id
    ensures Survivor(rs, id).None? <==> forall r :: r in rs ==> r.studentId != id
    ensures (exists r :: r in rs && r.studentId == id && r.roomId.Some?) ==> Survivor(rs, id).Some? && Survivor(rs, id).value.roomId.Some?
  {
    FirstThatFinds(rs, Succeeding(id));
    FirstThatFinds(rs, Explaining(id));
    FirstThatFinds(rs, Naming(id));
  }

  /** index says where each student's result sits in rs. */
  ghost predicate IndexOfResults(index: map<StudentId, nat>, rs: seq<Result>) {
    && (forall id :: id in index ==> index[id] < |rs| && rs[index[id]].studentId == id)
    && (forall i :: 0 <= i < |rs| ==> rs[i].studentId in index)
  }

  ghost predicate Cleaned(seen: seq<Result>, index: map<StudentId, nat>, final: seq<Result>) {
    IndexOfResults(index, final) && OncePerStudent(final) && IsCleanup(seen, final)
  }

  lemma CleanedNew(seen: seq<Result>, index: map<StudentId, nat>, final: seq<Result>, r: Result)
    requires Cleaned(seen, index, final) && r.studentId !in index
    ensures Cleaned(seen + [r], index[r.studentId := |final|], final + [r])
  {
    assert (seen + [r])[..|seen|] == seen;
    NamesIndexed(seen, index, final, r.studentId);
    FirstNamedMembers(seen);
    SurvivorNamed(seen, r.studentId);
    forall i | 0 <= i < |final + [r]|
      ensures Survivor(seen + [r], (final + [r])[i].studentId) == Some((final + [r])[i])
    {
      SurvivorNext(seen, r, (final + [r])[i].studentId);
    }
  }

  lemma NamesIndexed(seen: seq<Result>, index: map<StudentId, nat>, final: seq<Result>, id: StudentId)
    requires Cleaned(seen, index, final)
    ensures id in index <==> id in FirstNamed(seen)
  {
    if id in index {
      assert FirstNamed(seen)[index[id]] == id;
    }
  }

  /** A further result of a known student takes the place of the earlier one, or is dropped. */
  lemma CleanedAgain(seen: seq<Result>, index: map<StudentId, nat>, final: seq<Result>, r: Result)
    requires Cleaned(seen, index, final) && r.studentId in index
    ensures index[r.studentId] < |final|
    ensures var at := index[r.studentId];
            Cleaned(seen + [r], index, if Replaces(final[at], r) then final[at := r] else final)
  {
    var at := index[r.studentId];
    var final' := if Replaces(final[at], r) then final[at := r] else final;
    assert (seen + [r])[..|seen|] == seen;
    NamesIndexed(seen, index, final, r.studentId);
    forall i | 0 <= i < |final|
      ensures final'[i].studentId == final[i].studentId && Survivor(seen + [r], final[i].studentId) == Some(final'[i])
    {
      SurvivorNext(seen, r, final[i].studentId);
    }
  }

  // ---------- What the pass leaves ----------

  lemma {:induction false} FirstNamedMembers(rs: seq<Result>)
    ensures Unique(FirstNamed(rs))
    ensures forall id :: id in FirstNamed(rs) <==> id in ReportedIds(rs)
  {
    if rs != [] {
      var n := |rs| - 1;
      assert rs == rs[..n] + [rs[n]];
      FirstNamedMembers(rs[..n]);
    }
  }

  /** Result p is the first that names the student. */
  ghost predicate NamesFirst(rs: seq<Result>, p: nat, id: StudentId) {
    p < |rs| && rs[p].studentId == id && forall k :: 0 <= k < p ==> rs[k].studentId != id
  }

  ghost predicate FirstPlaces(rs: seq<Result>, names: seq<StudentId>, places: seq<nat>) {
    && |places| == |names|
    && (forall i, j :: 0 <= i < j < |places| ==> places[i] < places[j])
    && forall i :: 0 <= i < |places| ==> NamesFirst(rs, places[i], names[i])
  }

  lemma FirstPlacesNext(rs: seq<Result>, names: seq<StudentId>, places: seq<nat>, r: Result)
    requires FirstPlaces(rs, names, places)
    ensures FirstPlaces(rs + [r], names, places)
    ensures NamesFirst(rs + [r], |rs|, r.studentId) ==> FirstPlaces(rs + [r], names + [r.studentId], places + [|rs|])
  {
  }

  /** The students stand in the order of their first results. */
  lemma {:induction false} FirstNamedInOrder(rs: seq<Result>) returns (places: seq<nat>)
    ensures |places| == |FirstNamed(rs)| && forall i, j :: 0 <= i < j < |places| ==> places[i] < places[j]
    ensures forall i :: 0 <= i < |places| ==>
              && places[i] < |rs| && rs[places[i]].studentId == FirstNamed(rs)[i]
              && forall k :: 0 <= k < places[i] ==> rs[k].studentId != FirstNamed(rs)[i]
  {
    places := FirstNamedPlaces(rs);
    forall i | 0 <= i < |places|
      ensures NamesFirst(rs, places[i], FirstNamed(rs)[i])
    {
    }
  }

  lemma {:induction false} FirstNamedPlaces(rs: seq<Result>) returns (places: seq<nat>)
    ensures FirstPlaces(rs, FirstNamed(rs), places)
  {
    places := [];
    if rs != [] {
      var n := |rs| - 1;
      places := FirstNamedPlaces(rs[..n]);
      FirstPlacesNext(rs[..n], FirstNamed(rs[..n]), places, rs[n]);
      assert rs[..n] + [rs[n]] == rs;
      if rs[n].studentId !in FirstNamed(rs[..n]) {
        NotNamedBefore(rs[..n], rs[n].studentId);
        assert NamesFirst(rs, n, rs[n].studentId);
        places := places + [n];
      }
    }
  }

  lemma NotNamedBefore(rs: seq<Result>, id: StudentId)
    requires id !in FirstNamed(rs)
    ensures forall k :: 0 <= k < |rs| ==> rs[k].studentId != id
  {
    FirstNamedMembers(rs);
    assert forall k :: 0 <= k < |rs| ==> rs[k] in rs && rs[k].studentId in ReportedIds(rs);
  }

  /** One result per student named; whoever has a success keeps one; a list with one result each is left as it is. */
  lemma CleanupKeeps(rs: seq<Result>, final: seq<Result>)
    requires IsCleanup(rs, final)
    ensures OncePerStudent(final) && ReportedIds(final) == ReportedIds(rs)
    ensures forall f :: f in final ==> f in rs
    ensures forall r :: r in rs && r.roomId.Some? ==> exists f :: f in final && f.studentId == r.studentId && f.roomId.Some?
    ensures OncePerStudent(rs) ==> final == rs
  {
    FirstNamedMembers(rs);
    forall f | f in final
      ensures f in rs
    {
      SurvivorNamed(rs, f.studentId);
    }
    forall r | r in rs
      ensures exists f :: f in final && f.studentId == r.studentId && (r.roomId.Some? ==> f.roomId.Some?)
    {
      var _ := ResultOf(rs, final, r);
    }
    if OncePerStudent(rs) {
      CleanupOfOnce(rs, final);
    }
  }

  lemma ResultOf(rs: seq<Result>, final: seq<Result>, r: Result) returns (f: Result)
    requires IsCleanup(rs, final) && r in rs
    ensures f in final && f.studentId == r.studentId && (r.roomId.Some? ==> f.roomId.Some?)
  {
    FirstNamedMembers(rs);
    SurvivorNamed(rs, r.studentId);
    assert r.studentId in FirstNamed(rs);
    var i :| 0 <= i < |FirstNamed(rs)| && FirstNamed(rs)[i] == r.studentId;
    f := final[i];
  }

  lemma CleanupOfOnce(rs: seq<Result>, final: seq<Result>)
    requires IsCleanup(rs, final) && OncePerStudent(rs)
    ensures final == rs
  {
    NamedOnce(rs);
    forall i | 0 <= i < |rs|
      ensures final[i] == rs[i]
    {
      SurvivorNamed(rs, rs[i].studentId);
      var k :| 0 <= k < |rs| && rs[k] == final[i];
    }
  }

  lemma {:induction false} NamedOnce(rs: seq<Result>)
    requires OncePerStudent(rs)
    ensures |FirstNamed(rs)| == |rs| && forall i :: 0 <= i < |rs| ==> FirstNamed(rs)[i] == rs[i].studentId
  {
    if rs != [] {
      NamedOnce(rs[..|rs| - 1]);
    }
  }
}
