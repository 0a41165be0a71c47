/**
 The state a run starts from: open wings with all their beds, minus the beds
 of students locked by earlier runs who are not applying again. The engine
 builds it from the lock table, one entry after another.
 */
module InitialState {
  import opened Common
  import opened AllocationModel

  function OpenKeys(rooms: seq<Room>): set<WingKey> {
    set r | r in rooms && r.status.Available? :: KeyOf(r)
  }

  function RoomWithId(rooms: seq<Room>, id: RoomId): (r: Option<Room>)
    ensures r.Some? ==> r.value in rooms && r.value.id == id
    ensures r.None? ==> forall q :: q in rooms ==> q.id != id
  {
    if rooms == [] then None
    else if rooms[0].id == id then Some(rooms[0])
    else RoomWithId(rooms[1..], id)
  }

  function Assign(s: State, ids: seq<StudentId>, room: RoomId): State {
    State(s.wings, s.rooms[room := ids], s.placed + map id | id in ids :: room)
  }

  /** Entry i of the lock table: its students seated, their beds deducted if the room is known. */
  function LockStep(inp: Inputs, s: State, i: nat): State
    requires i < |inp.locked|
  {
    var s1 := Assign(s, LockedAt(inp, i), inp.locked[i].0);
    var room := RoomWithId(inp.rooms, inp.locked[i].0);
    if room.Some? then Charge(s1, KeyOf(room.value), |LockedAt(inp, i)|) else s1
  }

  /** The first n entries of the lock table applied. */
  function LockUpTo(inp: Inputs, n: nat): State
    requires n <= |inp.locked|
  {
    if n == 0 then
      State(map w | w in OpenKeys(inp.rooms) :: BedsIn(inp.rooms, w), map[], map[])
    else
      LockStep(inp, LockUpTo(inp, n - 1), n - 1)
  }

  function Initial(inp: Inputs): State {
    LockUpTo(inp, |inp.locked|)
  }

  function LockRooms(inp: Inputs, n: nat): set<RoomId>
    requires n <= |inp.locked|
  {
    if n == 0 then {} else LockRooms(inp, n - 1) + {inp.locked[n - 1].0}
  }

  lemma {:induction false} LockRoomsMember(inp: Inputs, n: nat, r: RoomId)
    requires n <= |inp.locked|
    ensures r in LockRooms(inp, n) <==> exists i :: 0 <= i < n && inp.locked[i].0 == r
  {
    if n > 0 {
      LockRoomsMember(inp, n - 1, r);
      if r == inp.locked[n - 1].0 {
        assert 0 <= n - 1 < n && inp.locked[n - 1].0 == r;
      } else if r in LockRooms(inp, n - 1) {
        var i :| 0 <= i < n - 1 && inp.locked[i].0 == r;
        assert 0 <= i < n && inp.locked[i].0 == r;
      }
    }
  }

  /** The room lists are exactly the first n entries of the lock table. */
  ghost predicate HoldsLocks(inp: Inputs, s: State, n: nat)
    requires n <= |inp.locked|
  {
    && s.rooms.Keys == LockRooms(inp, n)
    && (forall i :: 0 <= i < n ==> inp.locked[i].0 in s.rooms && s.rooms[inp.locked[i].0] == LockedAt(inp, i))
  }

  lemma {:induction false} EmptyOcc(rooms: seq<Room>, s: State, w: WingKey)
    requires s.rooms == map[]
    ensures OccIn(rooms, s, w) == 0
  {
    if rooms != [] {
      EmptyOcc(rooms[..|rooms| - 1], s, w);
    }
  }

  lemma {:induction false} OccInElsewhere(rooms: seq<Room>, s: State, s': State, w: WingKey)
    requires forall r :: r in rooms ==> Occ(s, r.id) == Occ(s', r.id)
    ensures OccIn(rooms, s, w) == OccIn(rooms, s', w)
  {
    if rooms != [] {
      var n := |rooms| - 1;
      assert rooms == rooms[..n] + [rooms[n]];
      OccInElsewhere(rooms[..n], s, s', w);
    }
  }

  ghost predicate LocksSound(inp: Inputs, s: State, n: nat)
    requires n <= |inp.locked|
  {
    HoldsLocks(inp, s, n) && Agree(s) && WithinCapacity(inp, s) && Counted(inp, s)
  }

  lemma {:induction false} LocksSoundUpTo(inp: Inputs, n: nat)
    requires WellFormed(inp) && n <= |inp.locked|
    ensures LocksSound(inp, LockUpTo(inp, n), n)
  {
    if n == 0 {
      EmptyCounted(inp);
    } else {
      LocksSoundUpTo(inp, n - 1);
      LockStepSound(inp, LockUpTo(inp, n - 1), n - 1);
    }
  }

  lemma LockStepSound(inp: Inputs, s: State, i: nat)
    requires WellFormed(inp) && i < |inp.locked|
    requires LocksSound(inp, s, i)
    ensures LocksSound(inp, LockStep(inp, s, i), i + 1)
  {
    LockRoomFresh(inp, s, i + 1);
    LockStepHeld(inp, s, i + 1);
    LockStepCounted(inp, s, i);
  }

  lemma AssignIsSeat(s: State, ids: seq<StudentId>, room: RoomId)
    requires room !in s.rooms
    ensures Assign(s, ids, room) == Seat(s, ids, room)
  {
    assert [] + ids == ids;
  }

  lemma LockStepHeld(inp: Inputs, s: State, n: nat)
    requires 0 < n <= |inp.locked| && Unique(LockedAt(inp, n - 1))
    requires HoldsLocks(inp, s, n - 1) && Agree(s)
    requires inp.locked[n - 1].0 !in s.rooms
    requires forall id :: id in LockedAt(inp, n - 1) ==> id !in s.placed
    ensures HoldsLocks(inp, LockStep(inp, s, n - 1), n)
    ensures Agree(LockStep(inp, s, n - 1))
  {
    AssignIsSeat(s, LockedAt(inp, n - 1), inp.locked[n - 1].0);
    SeatAgrees(s, LockedAt(inp, n - 1), inp.locked[n - 1].0);
    HoldsOneMore(inp, s, n, LockStep(inp, s, n - 1));
  }

  lemma HoldsOneMore(inp: Inputs, s: State, n: nat, s': State)
    requires 0 < n <= |inp.locked| && HoldsLocks(inp, s, n - 1) && inp.locked[n - 1].0 !in s.rooms
    requires s'.rooms == s.rooms[inp.locked[n - 1].0 := LockedAt(inp, n - 1)]
    ensures HoldsLocks(inp, s', n)
  {
  }

  /** Whoever is placed so far is locked by an earlier entry. */
  lemma PlacedEarlier(inp: Inputs, s: State, n: nat, id: StudentId) returns (i: nat)
    requires n <= |inp.locked| && HoldsLocks(inp, s, n) && Agree(s) && id in s.placed
    ensures i < n && id in LockedAt(inp, i)
  {
    var r := s.placed[id];
    LockRoomsMember(inp, n, r);
    i :| 0 <= i < n && inp.locked[i].0 == r;
  }

  lemma LockRoomFresh(inp: Inputs, s: State, n: nat)
    requires LockedSound(inp) && 0 < n <= |inp.locked|
    requires HoldsLocks(inp, s, n - 1) && Agree(s)
    ensures inp.locked[n - 1].0 !in s.rooms
    ensures forall id :: id in LockedAt(inp, n - 1) ==> id !in s.placed
  {
    LockRoomsMember(inp, n - 1, inp.locked[n - 1].0);
    forall id | id in s.placed
      ensures id !in LockedAt(inp, n - 1)
    {
      var _ := PlacedEarlier(inp, s, n - 1, id);
    }
  }

  lemma EmptyCounted(inp: Inputs)
    ensures WithinCapacity(inp, LockUpTo(inp, 0)) && Counted(inp, LockUpTo(inp, 0))
  {
    var s := LockUpTo(inp, 0);
    forall w | w in s.wings
      ensures s.wings[w] == Expected(inp, s)[w]
    {
      EmptyOcc(inp.rooms, s, w);
    }
  }

  /** Locking students into a room the run does not know changes no counter that matters. */
  lemma UnknownRoomCounted(inp: Inputs, s: State, ids: seq<StudentId>, room: RoomId)
    requires WithinCapacity(inp, s) && Counted(inp, s) && forall r :: r in inp.rooms ==> r.id != room
    ensures WithinCapacity(inp, Assign(s, ids, room)) && Counted(inp, Assign(s, ids, room))
  {
    var s' := Assign(s, ids, room);
    forall w | w in s'.wings
      ensures s'.wings[w] == Expected(inp, s')[w]
    {
      OccInElsewhere(inp.rooms, s, s', w);
    }
  }

  lemma KnownRoomCounted(inp: Inputs, s: State, ids: seq<StudentId>, room: Room)
    requires WellFormed(inp) && WithinCapacity(inp, s) && Counted(inp, s) && room in inp.rooms && room.id !in s.rooms
    requires |ids| <= room.capacity
    ensures WithinCapacity(inp, Charge(Assign(s, ids, room.id), KeyOf(room), |ids|))
    ensures Counted(inp, Charge(Assign(s, ids, room.id), KeyOf(room), |ids|))
  {
    AssignIsSeat(s, ids, room.id);
    SeatAndChargeCounted(inp, s, ids, room);
    forall k | 0 <= k < |inp.rooms| && inp.rooms[k].id == room.id
      ensures inp.rooms[k] == room
    {
      var m :| 0 <= m < |inp.rooms| && inp.rooms[m] == room;
    }
  }

  lemma LockStepCounted(inp: Inputs, s: State, i: nat)
    requires WellFormed(inp) && i < |inp.locked|
    requires WithinCapacity(inp, s) && Counted(inp, s)
    requires inp.locked[i].0 !in s.rooms
    ensures WithinCapacity(inp, LockStep(inp, s, i)) && Counted(inp, LockStep(inp, s, i))
  {
    var room := RoomWithId(inp.rooms, inp.locked[i].0);
    if room.Some? {
      var k :| 0 <= k < |inp.rooms| && inp.rooms[k] == room.value;
      KnownRoomCounted(inp, s, LockedAt(inp, i), room.value);
    } else {
      UnknownRoomCounted(inp, s, LockedAt(inp, i), inp.locked[i].0);
    }
  }

  /**
   A run starts sound, with exact counters, with nobody of the cohort placed,
   and with exactly the locked students in their rooms.
   */
  lemma InitialSound(inp: Inputs)
    requires WellFormed(inp)
    ensures Sound(inp, Initial(inp)) && Counted(inp, Initial(inp)) && Together(inp, Initial(inp)) && KeptTogether(inp, Initial(inp))
    ensures HoldsLocks(inp, Initial(inp), |inp.locked|)
    ensures Initial(inp).placed.Keys !! Cohort(inp)
  {
    var s := Initial(inp);
    LocksSoundUpTo(inp, |inp.locked|);
    forall id | id in s.placed
      ensures id !in Cohort(inp)
    {
      LockRoomsMember(inp, |inp.locked|, s.placed[id]);
      var i :| 0 <= i < |inp.locked| && inp.locked[i].0 == s.placed[id];
      assert id in LockedAt(inp, i);
    }
    LocksInPlace(inp, s);
  }

  lemma LocksInPlace(inp: Inputs, s: State)
    requires Agree(s) && HoldsLocks(inp, s, |inp.locked|)
    ensures LocksKept(inp, s)
  {
    forall i, id | 0 <= i < |inp.locked| && id in inp.locked[i].1 && id !in Cohort(inp)
      ensures id in s.placed && s.placed[id] == inp.locked[i].0
    {
      var r := inp.locked[i].0;
      assert r in s.rooms && s.rooms[r] == LockedAt(inp, i) && id in LockedAt(inp, i);
      assert id in s.rooms[r];
    }
  }

  lemma {:induction false} WingsOfLockUpTo(inp: Inputs, n: nat)
    requires n <= |inp.locked|
    ensures LockUpTo(inp, n).wings.Keys == OpenKeys(inp.rooms)
  {
    if n > 0 {
      WingsOfLockUpTo(inp, n - 1);
    }
  }

  /** Room i of the lock table is listed with exactly the ids of its entry that are not in the cohort, in order, with every copy. */
  ghost predicate HoldsEntry(inp: Inputs, s: State, i: nat)
    requires i < |inp.locked|
  {
    && inp.locked[i].0 in s.rooms
    && (exists places :: PicksFrom(s.rooms[inp.locked[i].0], inp.locked[i].1, places))
    && forall id :: multiset(s.rooms[inp.locked[i].0])[id] == if id in Cohort(inp) then 0 else multiset(inp.locked[i].1)[id]
  }

  /** The state a run starts from holds every entry of the lock table, and each locked student is placed there. */
  lemma LocksAreHeld(inp: Inputs)
    requires WellFormed(inp)
    ensures forall i :: 0 <= i < |inp.locked| ==> HoldsEntry(inp, Initial(inp), i)
    ensures forall i, id :: 0 <= i < |inp.locked| && id in inp.locked[i].1 && id !in Cohort(inp)
              ==> id in Initial(inp).placed && Initial(inp).placed[id] == inp.locked[i].0
    ensures forall id :: id in Initial(inp).placed
              ==> exists i :: 0 <= i < |inp.locked| && inp.locked[i].0 == Initial(inp).placed[id] && id in inp.locked[i].1 && id !in Cohort(inp)
  {
    var s := Initial(inp);
    InitialSound(inp);
    forall i | 0 <= i < |inp.locked|
      ensures HoldsEntry(inp, s, i)
    {
      var places := FilterPicks(inp.locked[i].1, id => id !in Cohort(inp));
      assert s.rooms[inp.locked[i].0] == LockedAt(inp, i);
    }
    forall id | id in s.placed
      ensures exists i :: 0 <= i < |inp.locked| && inp.locked[i].0 == s.placed[id] && id in inp.locked[i].1 && id !in Cohort(inp)
    {
      LockRoomsMember(inp, |inp.locked|, s.placed[id]);
      var j :| 0 <= j < |inp.locked| && inp.locked[j].0 == s.placed[id];
      assert id in LockedAt(inp, j);
    }
  }
}
