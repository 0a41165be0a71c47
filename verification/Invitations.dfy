/**
 Roommate invitations: sending, responding, and the roommate map the engine
 builds from the accepted ones.
 */
module Invitations {
  import opened Common
  import AllocationModel

  type InvitationId = nat

  datatype Status = Pending | Accepted | Rejected | Cancelled

  datatype Invitation = Invitation(senderId: StudentId, receiverId: StudentId, groupId: int, status: Status)

  type Table = map<InvitationId, Invitation>

  /** What the other tables say at the time of a call; memberships are the accepted ones in query order. */
  datatype Campus = Campus(
    fcfsPolicy: bool,
    submitted: set<StudentId>,
    rollNumbers: map<string, StudentId>,
    memberships: seq<(StudentId, int)>)

  datatype InvitationError =
    | DisabledInFcfs | AlreadySubmitted | SenderNotInGroup | ReceiverNotFound | InvitesSelf | NotSameGroup
    | ReceiverTaken | SenderTaken | AlreadyPending
    | NotFound | NoLongerPending | UserTaken

  /** The group of the user's first accepted membership. */
  function GroupOf(memberships: seq<(StudentId, int)>, user: StudentId): (group: Option<int>)
    ensures group.None? <==> forall k :: 0 <= k < |memberships| ==> memberships[k].0 != user
    ensures group.Some? ==> exists k :: 0 <= k < |memberships| && memberships[k] == (user, group.value) && forall j :: 0 <= j < k ==> memberships[j].0 != user
  {
    if memberships == [] then None
    else if memberships[0].0 == user then Some(memberships[0].1)
    else
      var group := GroupOf(memberships[1..], user);
      assert forall k :: 0 < k < |memberships| ==> memberships[1..][k - 1] == memberships[k];
      assert group.Some? ==> exists k :: 0 < k < |memberships| && memberships[k] == (user, group.value) && forall j :: 0 <= j < k ==> memberships[j].0 != user;
      group
  }

  predicate Touches(inv: Invitation, user: StudentId) {
    inv.senderId == user || inv.receiverId == user
  }

  /** The user has an accepted invitation, on either side. */
  predicate IsTaken(t: Table, user: StudentId) {
    exists id :: id in t && t[id].status.Accepted? && Touches(t[id], user)
  }

  // ---------- Sending ----------

  function SendError(t: Table, campus: Campus, sender: StudentId, roll: string): Option<InvitationError> {
    if campus.fcfsPolicy then Some(DisabledInFcfs)
    else if sender in campus.submitted then Some(AlreadySubmitted)
    else if GroupOf(campus.memberships, sender).None? then Some(SenderNotInGroup)
    else if roll !in campus.rollNumbers then Some(ReceiverNotFound)
    else if campus.rollNumbers[roll] == sender then Some(InvitesSelf)
    else if (campus.rollNumbers[roll], GroupOf(campus.memberships, sender).value) !in campus.memberships then Some(NotSameGroup)
    else if IsTaken(t, campus.rollNumbers[roll]) then Some(ReceiverTaken)
    else if IsTaken(t, sender) then Some(SenderTaken)
    else if IsPendingBetween(t, sender, campus.rollNumbers[roll]) then Some(AlreadyPending)
    else None
  }

  /** Which condition each refusal reports; the first of them in this order that holds is the one reported. */
  lemma SendErrorIs(t: Table, campus: Campus, sender: StudentId, roll: string)
    ensures var taken := (user: StudentId) => exists id :: id in t && t[id].status == Accepted && (t[id].senderId == user || t[id].receiverId == user);
            SendError(t, campus, sender, roll)
            == if campus.fcfsPolicy then Some(DisabledInFcfs)
               else if sender in campus.submitted then Some(AlreadySubmitted)
               else if forall k :: 0 <= k < |campus.memberships| ==> campus.memberships[k].0 != sender then Some(SenderNotInGroup)
               else if roll !in campus.rollNumbers then Some(ReceiverNotFound)
               else
                 var receiver := campus.rollNumbers[roll];
                 if receiver == sender then Some(InvitesSelf)
                 else if (receiver, GroupOf(campus.memberships, sender).value) !in campus.memberships then Some(NotSameGroup)
                 else if taken(receiver) then Some(ReceiverTaken)
                 else if taken(sender) then Some(SenderTaken)
                 else if exists id :: id in t && t[id] == Invitation(sender, receiver, t[id].groupId, Pending) then Some(AlreadyPending)
                 else None
  {
  }

  predicate IsPendingBetween(t: Table, sender: StudentId, receiver: StudentId) {
    exists id :: id in t && t[id].status.Pending? && t[id].senderId == sender && t[id].receiverId == receiver
  }

  /** One row more, pending, under an id not used before. */
  ghost predicate Sent(t: Table, campus: Campus, sender: StudentId, roll: string, t': Table)
    requires SendError(t, campus, sender, roll).None?
  {
    exists id: InvitationId :: id !in t && t' == t[id := Invitation(sender, campus.rollNumbers[roll], GroupOf(campus.memberships, sender).value, Pending)]
  }

  // ---------- Responding ----------

  function RespondError(t: Table, campus: Campus, user: StudentId, id: InvitationId, accept: bool): Option<InvitationError> {
    if campus.fcfsPolicy then Some(DisabledInFcfs)
    else if user in campus.submitted then Some(AlreadySubmitted)
    else if id !in t || t[id].receiverId != user then Some(NotFound)
    else if !t[id].status.Pending? then Some(NoLongerPending)
    else if accept && IsTaken(t, user) then Some(UserTaken)
    else None
  }

  lemma RespondErrorIs(t: Table, campus: Campus, user: StudentId, id: InvitationId, accept: bool)
    ensures RespondError(t, campus, user, id, accept)
            == if campus.fcfsPolicy then Some(DisabledInFcfs)
               else if user in campus.submitted then Some(AlreadySubmitted)
               else if id !in t || t[id].receiverId != user then Some(NotFound)
               else if t[id].status != Pending then Some(NoLongerPending)
               else if accept && exists j :: j in t && t[j].status == Accepted && (t[j].senderId == user || t[j].receiverId == user) then Some(UserTaken)
               else None
  {
  }

  function CancelPending(t: Table, user: StudentId): Table {
    map id | id in t :: if t[id].status.Pending? && Touches(t[id], user) then t[id].(status := Cancelled) else t[id]
  }

  /** The pending rows a user sent, or the pending rows the user received, cancelled. */
  function CancelSide(t: Table, user: StudentId, sent: bool): Table {
    map id | id in t ::
      if t[id].status.Pending? && (if sent then t[id].senderId == user else t[id].receiverId == user)
      then t[id].(status := Cancelled) else t[id]
  }

  lemma CancelBothSides(t: Table, user: StudentId)
    ensures CancelSide(CancelSide(t, user, false), user, true) == CancelPending(t, user)
  {
  }

  function AfterRespond(t: Table, id: InvitationId, accept: bool): Table
    requires id in t
  {
    if accept then CancelPending(CancelPending(t, t[id].receiverId), t[id].senderId)[id := t[id].(status := Accepted)]
    else t[id := t[id].(status := Rejected)]
  }

  /**
   A refusal changes the one row; an acceptance changes that row and cancels
   whatever else is pending from or to either of the two.
   */
  lemma AfterRespondIs(t: Table, id: InvitationId, accept: bool)
    requires id in t
    ensures AfterRespond(t, id, accept).Keys == t.Keys
    ensures AfterRespond(t, id, accept)[id] == t[id].(status := if accept then Accepted else Rejected)
    ensures forall other :: other in t && other != id ==>
              var inv, sender, receiver := t[other], t[id].senderId, t[id].receiverId;
              AfterRespond(t, id, accept)[other] ==
              if accept && inv.status == Pending && (inv.senderId == sender || inv.senderId == receiver || inv.receiverId == sender || inv.receiverId == receiver)
              then inv.(status := Cancelled) else inv
  {
  }

  // ---------- The invariant ----------

  ghost predicate Disjoint(a: Invitation, b: Invitation) {
    !Touches(a, b.senderId) && !Touches(a, b.receiverId)
  }

  /** Accepted invitations form a matching, and no pending one touches a matched student. */
  ghost predicate Paired(t: Table) {
    && (forall id :: id in t ==> t[id].senderId != t[id].receiverId && t[id].senderId != "" && t[id].receiverId != "")
    && (forall i, j :: i in t && j in t && i != j && t[i].status.Accepted? && (t[j].status.Accepted? || t[j].status.Pending?)
          ==> Disjoint(t[i], t[j]))
  }

  lemma SendKeeps(t: Table, campus: Campus, sender: StudentId, roll: string, t': Table)
    requires Paired(t) && SendError(t, campus, sender, roll).None? && Sent(t, campus, sender, roll, t')
    requires sender != "" && campus.rollNumbers[roll] != ""
    ensures Paired(t')
  {
  }

  lemma RespondKeeps(t: Table, id: InvitationId, accept: bool)
    requires Paired(t) && id in t && t[id].status.Pending?
    ensures Paired(AfterRespond(t, id, accept))
  {
    var t' := AfterRespond(t, id, accept);
    forall i, j | i in t' && j in t' && i != j && t'[i].status.Accepted? && (t'[j].status.Accepted? || t'[j].status.Pending?)
      ensures Disjoint(t'[i], t'[j])
    {
      if i == id {
        assert t[j] == t'[j];
      } else if j == id {
        assert t[i] == t'[i];
      } else {
        assert t[i] == t'[i] && t[j] == t'[j];
      }
    }
  }

  /**
   Why checking the receiver alone is enough on accept, and why even that
   check never fires: the parties of a pending invitation are both free.
   */
  lemma AcceptNeverConflicts(t: Table, campus: Campus, user: StudentId, id: InvitationId)
    requires Paired(t)
    ensures RespondError(t, campus, user, id, true) != Some(UserTaken)
  {
  }

  /** Accepting takes both parties and settles every other invitation of theirs. */
  lemma AcceptSettles(t: Table, id: InvitationId)
    requires Paired(t) && id in t && t[id].status.Pending?
    ensures var t' := AfterRespond(t, id, true);
            && IsTaken(t', t[id].senderId) && IsTaken(t', t[id].receiverId)
            && forall j :: j in t' && j != id && !Disjoint(t[id], t'[j]) ==> t'[j].status.Rejected? || t'[j].status.Cancelled?
  {
    var t' := AfterRespond(t, id, true);
    assert id in t' && t'[id].status.Accepted?;
    forall j | j in t' && j != id && !Disjoint(t[id], t'[j])
      ensures t'[j].status.Rejected? || t'[j].status.Cancelled?
    {
      assert t'[j].senderId == t[j].senderId && t'[j].receiverId == t[j].receiverId;
    }
  }

  // ---------- Any sequence of calls ----------

  datatype Call =
    | Send(campus: Campus, sender: StudentId, roll: string)
    | Respond(campus: Campus, user: StudentId, id: InvitationId, accept: bool)

  /** Students have non-empty ids. */
  predicate Named(c: Call) {
    c.Send? ==> c.sender != "" && forall r :: r in c.campus.rollNumbers ==> c.campus.rollNumbers[r] != ""
  }

  /** What one call may do to the table. */
  ghost predicate CallStep(t: Table, c: Call, t': Table) {
    match c
    case Send(campus, sender, roll) =>
      if SendError(t, campus, sender, roll).Some? then t' == t else Sent(t, campus, sender, roll, t')
    case Respond(campus, user, id, accept) =>
      if RespondError(t, campus, user, id, accept).Some? then t' == t else t' == AfterRespond(t, id, accept)
  }

  ghost predicate Course(tables: seq<Table>, calls: seq<Call>) {
    && |tables| == |calls| + 1
    && forall k :: 0 <= k < |calls| ==> Named(calls[k]) && CallStep(tables[k], calls[k], tables[k + 1])
  }

  lemma StepKeeps(t: Table, c: Call, t': Table)
    requires Paired(t) && Named(c) && CallStep(t, c, t')
    ensures Paired(t')
  {
    match c
    case Send(campus, sender, roll) =>
      if SendError(t, campus, sender, roll).None? {
        SendKeeps(t, campus, sender, roll, t');
      }
    case Respond(campus, user, id, accept) =>
      if RespondError(t, campus, user, id, accept).None? {
        RespondKeeps(t, id, accept);
      }
  }

  /** Over every sequence of calls the accepted invitations stay a matching that no pending one touches. */
  lemma {:induction false} CourseKeeps(tables: seq<Table>, calls: seq<Call>, k: nat)
    requires Course(tables, calls) && Paired(tables[0]) && k <= |calls|
    ensures Paired(tables[k])
  {
    if k > 0 {
      CourseKeeps(tables, calls, k - 1);
      StepKeeps(tables[k - 1], calls[k - 1], tables[k]);
    }
  }

  // ---------- The roommate map ----------

  type Roommates = map<StudentId, StudentId>

  /** Each accepted invitation writes both directions; later ones overwrite. */
  function RoommateMap(list: seq<Invitation>): Roommates {
    if list == [] then map[]
    else
      var inv := list[|list| - 1];
      var before := RoommateMap(list[..|list| - 1]);
      if inv.status.Accepted? then before[inv.senderId := inv.receiverId][inv.receiverId := inv.senderId] else before
  }

  method BuildRoommateMap(list: seq<Invitation>) returns (roommates: Roommates)
    ensures roommates == RoommateMap(list)
  {
    roommates := map[];
    var k := 0;
    while k < |list|
      invariant 0 <= k <= |list|
      invariant roommates == RoommateMap(list[..k])
    {
      assert list[..k + 1][..k] == list[..k];
      if list[k].status.Accepted? {
        roommates := roommates[list[k].senderId := list[k].receiverId];
        roommates := roommates[list[k].receiverId := list[k].senderId];
      }
      k := k + 1;
    }
    assert list[..k] == list;
  }

  predicate Joins(inv: Invitation, a: StudentId, b: StudentId) {
    inv.status.Accepted? && ((inv.senderId == a && inv.receiverId == b) || (inv.senderId == b && inv.receiverId == a))
  }

  /** The accepted invitations of the list form a matching. */
  ghost predicate Matching(list: seq<Invitation>) {
    && (forall i :: 0 <= i < |list| && list[i].status.Accepted? ==>
          list[i].senderId != list[i].receiverId && list[i].senderId != "" && list[i].receiverId != "")
    && (forall i, j :: 0 <= i < j < |list| && list[i].status.Accepted? && list[j].status.Accepted? ==> Disjoint(list[i], list[j]))
  }

  /** Two students are roommates in the map exactly when an accepted invitation joins them. */
  lemma {:induction false} RoommatesIffJoined(list: seq<Invitation>, a: StudentId, b: StudentId)
    requires Matching(list)
    ensures a in RoommateMap(list) && RoommateMap(list)[a] == b <==> exists i :: 0 <= i < |list| && Joins(list[i], a, b)
  {
    if list != [] {
      var n := |list| - 1;
      RoommatesIffJoined(list[..n], a, b);
      if i :| 0 <= i < n && Joins(list[..n][i], a, b) {
        assert Joins(list[i], a, b);
        assert list[n].status.Accepted? ==> Disjoint(list[i], list[n]);
      }
      if i :| 0 <= i < |list| && Joins(list[i], a, b) {
        if i < n {
          assert Joins(list[..n][i], a, b);
          assert list[n].status.Accepted? ==> Disjoint(list[i], list[n]);
        }
      }
    }
  }

  /** The engine's roommate map is an involution without fixed points. */
  lemma RoommateMapIsMatching(list: seq<Invitation>)
    requires Matching(list)
    ensures AllocationModel.IsMatching(RoommateMap(list))
  {
    var m := RoommateMap(list);
    forall a | a in m
      ensures a != "" && m[a] != a && m[a] in m && m[m[a]] == a
    {
      var b := m[a];
      RoommatesIffJoined(list, a, b);
      var i :| 0 <= i < |list| && Joins(list[i], a, b);
      assert Joins(list[i], b, a);
      RoommatesIffJoined(list, b, a);
    }
  }

  /** The order in which the invitations arrive does not matter. */
  lemma OrderIrrelevant(xs: seq<Invitation>, ys: seq<Invitation>)
    requires Matching(xs) && Matching(ys)
    requires forall inv :: inv in xs <==> inv in ys
    ensures RoommateMap(xs) == RoommateMap(ys)
  {
    SubMap(xs, ys);
    SubMap(ys, xs);
  }

  lemma SubMap(xs: seq<Invitation>, ys: seq<Invitation>)
    requires Matching(xs) && Matching(ys)
    requires forall inv :: inv in xs ==> inv in ys
    ensures forall a :: a in RoommateMap(xs) ==> a in RoommateMap(ys) && RoommateMap(ys)[a] == RoommateMap(xs)[a]
  {
    forall a | a in RoommateMap(xs)
      ensures a in RoommateMap(ys) && RoommateMap(ys)[a] == RoommateMap(xs)[a]
    {
      var b := RoommateMap(xs)[a];
      RoommatesIffJoined(xs, a, b);
      var i :| 0 <= i < |xs| && Joins(xs[i], a, b);
      assert xs[i] in xs;
      var j :| 0 <= j < |ys| && ys[j] == xs[i];
      RoommatesIffJoined(ys, a, b);
    }
  }

  /** The rows of a table under distinct ids, in any order. */
  ghost predicate RowsOf(t: Table, ids: seq<InvitationId>, list: seq<Invitation>) {
    && Unique(ids) && |list| == |ids|
    && forall k :: 0 <= k < |ids| ==> ids[k] in t && list[k] == t[ids[k]]
  }

  /**
   From an empty table, after any sequence of calls, the invitations handed to
   the engine in any order give a roommate map that is an involution without
   fixed points.
   */
  lemma CallsGiveMatching(tables: seq<Table>, calls: seq<Call>, ids: seq<InvitationId>, list: seq<Invitation>)
    requires Course(tables, calls) && tables[0] == map[]
    requires RowsOf(tables[|calls|], ids, list)
    ensures AllocationModel.IsMatching(RoommateMap(list))
  {
    CourseKeeps(tables, calls, |calls|);
    RoommateMapIsMatching(list);
  }

  // ---------- The service ----------

  class InvitationsService {
    var invitations: Table
    var nextId: InvitationId

    ghost predicate Valid()
      reads this
    {
      Paired(invitations) && forall id :: id in invitations ==> id < nextId
    }

    constructor ()
      ensures Valid() && invitations == map[]
    {
      invitations, nextId := map[], 1;
    }

    method SendInvitation(campus: Campus, sender: StudentId, roll: string) returns (error: Option<InvitationError>)
      requires Valid() && Named(Send(campus, sender, roll))
      modifies this
      ensures Valid()
      ensures error == SendError(old(invitations), campus, sender, roll)
      ensures CallStep(old(invitations), Send(campus, sender, roll), invitations)
      ensures error.Some? ==> invitations == old(invitations)
      ensures error.None? ==>
                && !campus.fcfsPolicy && sender !in campus.submitted && roll in campus.rollNumbers && campus.rollNumbers[roll] != sender
                && exists id: InvitationId, group: int ::
                     && id !in old(invitations) && invitations == old(invitations)[id := Invitation(sender, campus.rollNumbers[roll], group, Pending)]
                     && (sender, group) in campus.memberships && (campus.rollNumbers[roll], group) in campus.memberships
      ensures error.None? ==> forall id :: id in old(invitations) ==>
                var inv, receiver := old(invitations)[id], campus.rollNumbers[roll];
                && (inv.status == Accepted ==> inv.senderId != sender && inv.senderId != receiver && inv.receiverId != sender && inv.receiverId != receiver)
                && (inv.status == Pending ==> inv.senderId != sender || inv.receiverId != receiver)
    {
      if campus.fcfsPolicy {
        return Some(DisabledInFcfs);
      }
      if sender in campus.submitted {
        return Some(AlreadySubmitted);
      }
      var group := GroupOf(campus.memberships, sender);
      if group.None? {
        return Some(SenderNotInGroup);
      }
      if roll !in campus.rollNumbers {
        return Some(ReceiverNotFound);
      }
      var receiver := campus.rollNumbers[roll];
      if receiver == sender {
        return Some(InvitesSelf);
      }
      if (receiver, group.value) !in campus.memberships {
        return Some(NotSameGroup);
      }
      if IsTaken(invitations, receiver) {
        return Some(ReceiverTaken);
      }
      if IsTaken(invitations, sender) {
        return Some(SenderTaken);
      }
      if IsPendingBetween(invitations, sender, receiver) {
        return Some(AlreadyPending);
      }
      assert nextId !in invitations;
      invitations := invitations[nextId := Invitation(sender, receiver, group.value, Pending)];
      nextId := nextId + 1;
      SendKeeps(old(invitations), campus, sender, roll, invitations);
      return None;
    }

    method RespondToInvitation(campus: Campus, user: StudentId, id: InvitationId, accept: bool) returns (error: Option<InvitationError>)
      requires Valid()
      modifies this
      ensures Valid()
      ensures error == RespondError(old(invitations), campus, user, id, accept)
      ensures CallStep(old(invitations), Respond(campus, user, id, accept), invitations)
      ensures error.Some? ==> invitations == old(invitations)
      ensures error.None? ==>
                && !campus.fcfsPolicy && user !in campus.submitted
                && id in old(invitations) && old(invitations)[id].receiverId == user && old(invitations)[id].status == Pending
    {
      if campus.fcfsPolicy {
        return Some(DisabledInFcfs);
      }
      if user in campus.submitted {
        return Some(AlreadySubmitted);
      }
      if id !in invitations || invitations[id].receiverId != user {
        return Some(NotFound);
      }
      var invitation := invitations[id];
      if invitation.status != Pending {
        return Some(NoLongerPending);
      }
      if accept {
        if IsTaken(invitations, user) {
          return Some(UserTaken);
        }
        invitation := invitation.(status := Accepted);
        CancelAllPending(user);
        CancelAllPending(invitation.senderId);
      } else {
        invitation := invitation.(status := Rejected);
      }
      invitations := invitations[id := invitation];
      assert invitations == AfterRespond(old(invitations), id, accept);
      RespondKeeps(old(invitations), id, accept);
      return None;
    }

    /** Two updates: the pending rows the user received, then those the user sent. */
    method CancelAllPending(user: StudentId)
      modifies this`invitations
      ensures invitations == CancelPending(old(invitations), user)
    {
      CancelWhere(user, false);
      CancelWhere(user, true);
      CancelBothSides(old(invitations), user);
    }

    method CancelWhere(user: StudentId, sent: bool)
      modifies this`invitations
      ensures invitations == CancelSide(old(invitations), user, sent)
    {
      var rows := invitations;
      invitations := map id | id in rows ::
        if rows[id].status.Pending? && (if sent then rows[id].senderId == user else rows[id].receiverId == user)
        then rows[id].(status := Cancelled) else rows[id];
    }
  }
}
