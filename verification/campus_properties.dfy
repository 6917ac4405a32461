/** Properties of whole runs of the campus directory: every state reachable from the
    default data by any sequence of operations, with cancellation in its corrected form,
    is consistent and never double-books a cell, the reservation history only grows and only ever cancels, and the listing
    and filtering queries see bookings and catalog types as expected. Also the
    re-cancellation defect of cancelReservation, and the corrected operation. */
module CampusProperties {
  import opened Wrappers
  import opened Exceptions
  import opened Text
  import Seqs
  import opened Reservations
  import opened Resources
  import opened Users
  import opened Schedules
  import opened CampusSystem
  import opened CampusInvariant

  // ---------------------------------------------------------------- runs of operations

  /** One call of a mutating directory operation, with its arguments */
  datatype Op =
    | AddUserOp(username: string, isAdmin: bool)
    | AddResourceOp(resource: Resource, actor: string)
    | EditResourceOp(resourceId: string, newName: Option<string>, actor: string)
    | EditStudyRoomOp(resourceId: string, newName: Option<string>, newCapacity: Option<int>, actor: string)
    | EditLabEquipmentOp(resourceId: string, newName: Option<string>, newType: Option<string>, actor: string)
    | RemoveResourceOp(resourceId: string, actor: string)
    | MakeReservationOp(resourceId: string, username: string, day: int, slot: int)
    | CancelReservationOp(reservationId: string, username: string)

  /** Resources reach the directory only through their constructors, which reject a
      non-positive capacity */
  predicate Admissible(op: Op) {
    op.AddResourceOp? ==> Valid(op.resource)
  }

  /** The state an operation leaves behind, whether it succeeded or threw; cancellation
      is the corrected one */
  function Apply(c: Campus, op: Op): Campus {
    match op
    case AddUserOp(u, a) => AddUser(c, u, a).state
    case AddResourceOp(r, u) => AddResource(c, r, u).state
    case EditResourceOp(id, n, u) => EditResource(c, id, n, u).state
    case EditStudyRoomOp(id, n, cap, u) => EditStudyRoom(c, id, n, cap, u).state
    case EditLabEquipmentOp(id, n, t, u) => EditLabEquipment(c, id, n, t, u).state
    case RemoveResourceOp(id, u) => RemoveResource(c, id, u).state
    case MakeReservationOp(id, u, d, sl) => MakeReservation(c, id, u, d, sl).state
    case CancelReservationOp(id, u) => CancelReservationChecked(c, id, u).state
  }

  /** The state after the operations, applied in order */
  function Run(c: Campus, ops: seq<Op>): Campus
    decreases |ops|
  {
    if |ops| == 0 then c else Run(Apply(c, ops[0]), ops[1..])
  }

  lemma ApplyPreservesInv(c: Campus, op: Op)
    requires Inv(c) && Admissible(op)
    ensures Inv(Apply(c, op))
  {
    match op
    case AddUserOp(u, a) => AddUserPreservesInv(c, u, a);
    case AddResourceOp(r, u) => AddResourcePreservesInv(c, r, u);
    case EditResourceOp(id, n, u) => EditResourcePreservesInv(c, id, n, u);
    case EditStudyRoomOp(id, n, cap, u) => EditStudyRoomPreservesInv(c, id, n, cap, u);
    case EditLabEquipmentOp(id, n, t, u) => EditLabEquipmentPreservesInv(c, id, n, t, u);
    case RemoveResourceOp(id, u) => RemoveResourcePreservesInv(c, id, u);
    case MakeReservationOp(id, u, d, sl) => MakeReservationPreservesInv(c, id, u, d, sl);
    case CancelReservationOp(id, u) => CancelCheckedPreservesInv(c, id, u);
  }

  lemma {:induction false} RunPreservesInv(c: Campus, ops: seq<Op>)
    requires Inv(c)
    requires forall i :: 0 <= i < |ops| ==> Admissible(ops[i])
    ensures Inv(Run(c, ops))
    decreases |ops|
  {
    if |ops| > 0 {
      ApplyPreservesInv(c, ops[0]);
      assert forall i :: 0 <= i < |ops[1..]| ==> ops[1..][i] == ops[i + 1];
      RunPreservesInv(Apply(c, ops[0]), ops[1..]);
    }
  }

  /** Whatever the operations, with cancellation in its corrected form, no state reachable
      from the default data holds two active reservations for the same cell (with the
      cancellation as written this fails: see RecancelDoubleBooks) */
  lemma ReachableNeverDoubleBooks(g: IdGen, ops: seq<Op>, i: int, j: int)
    requires forall k :: 0 <= k < |ops| ==> Admissible(ops[k])
    requires 0 <= i < |Run(InitialState(g), ops).reservations|
    requires 0 <= j < |Run(InitialState(g), ops).reservations|
    requires i != j
    ensures var rs := Run(InitialState(g), ops).reservations;
      rs[i].active && rs[j].active ==>
        !(rs[i].resourceId == rs[j].resourceId && rs[i].day == rs[j].day && rs[i].slot == rs[j].slot)
  {
    InitialStateSatisfiesInv(g);
    RunPreservesInv(InitialState(g), ops);
    var c := Run(InitialState(g), ops);
    if c.reservations[i].active && c.reservations[j].active {
      NoDoubleBooking(c.reservations, c.schedules, i, j);
    }
  }

  // ---------------------------------------------------------------- the reservation history

  /** The later list extends the earlier one, and each earlier reservation is either
      unchanged or its cancelled form */
  predicate HistoryKept(before: seq<Reservation>, after: seq<Reservation>) {
    && |before| <= |after|
    && forall i :: 0 <= i < |before| ==> after[i] == before[i] || after[i] == Cancel(before[i])
  }

  lemma ApplyKeepsHistory(c: Campus, op: Op)
    ensures HistoryKept(c.reservations, Apply(c, op).reservations)
  {
    match op
    case MakeReservationOp(id, u, d, sl) => MakeReservationKeepsHistory(c, id, u, d, sl);
    case CancelReservationOp(id, u) => CancelCheckedKeepsHistory(c, id, u);
    case _ =>
  }

  /** A booking only ever appends to the reservation list */
  lemma MakeReservationKeepsHistory(c: Campus, resourceId: string, username: string, day: int, slot: int)
    ensures var st := MakeReservation(c, resourceId, username, day, slot);
      st.state.reservations == c.reservations ||
      (st.result.Success? && st.state.reservations == c.reservations + [st.result.value])
  {
    var st := MakeReservation(c, resourceId, username, day, slot);
    if !IsBlank(username) && !IsBlank(resourceId) && InBounds(day, slot) && FindResource(c, resourceId).Some? {
      MakeReservationOutcome(c, resourceId, username, day, slot);
    }
  }

  /** A cancellation only ever replaces one entry by its cancelled form */
  lemma CancelCheckedKeepsHistory(c: Campus, reservationId: string, username: string)
    ensures var st := CancelReservationChecked(c, reservationId, username);
      |st.state.reservations| == |c.reservations| &&
      forall i :: 0 <= i < |c.reservations| ==>
        st.state.reservations[i] == c.reservations[i] || st.state.reservations[i] == Cancel(c.reservations[i])
  {
    if CancelReservationChecked(c, reservationId, username).result.Success? {
      CancelledReplacesEntry(c, reservationId, username);
    }
  }

  lemma {:induction false} RunKeepsHistory(c: Campus, ops: seq<Op>)
    ensures HistoryKept(c.reservations, Run(c, ops).reservations)
    decreases |ops|
  {
    if |ops| > 0 {
      var c1 := Apply(c, ops[0]);
      ApplyKeepsHistory(c, ops[0]);
      RunKeepsHistory(c1, ops[1..]);
      var rs := c.reservations;
      var rs1 := c1.reservations;
      var rs2 := Run(c, ops).reservations;
      forall i | 0 <= i < |rs|
        ensures rs2[i] == rs[i] || rs2[i] == Cancel(rs[i])
      {
        CancelIdempotent(rs[i]);
      }
    }
  }

  // ---------------------------------------------------------------- cancelling twice

  /** Generated reservation ids start with `RES-`, so they are never blank */
  lemma GeneratedReservationIdNotBlank(rs: seq<Reservation>)
    ensures !IsBlank(NextReservationId(rs))
  {
    var id := NextReservationId(rs);
    assert StartsWith(id, ReservationIdPrefix);
    assert id[0] == 'R';
  }

  /** Booking a free cell of a catalog resource succeeds, keeps the invariant and the
      catalog, appends the new active reservation and takes the cell */
  lemma BookFreeCell(c: Campus, k: string, u: string, d: int, sl: int)
    requires Inv(c) && FindResource(c, k).Some? && InBounds(d, sl)
    requires !IsBlank(u) && !IsBlank(k) && !CellTaken(c, k, d, sl)
    ensures var st := MakeReservation(c, k, u, d, sl);
      && st.result.Success? && Inv(st.state) && st.state.resources == c.resources
      && st.state.reservations == c.reservations + [st.result.value]
      && st.result.value.active && st.result.value.username == u
      && st.result.value.resourceId == k && st.result.value.day == d && st.result.value.slot == sl
      && !IsBlank(st.result.value.id)
  {
    MakeReservationOutcome(c, k, u, d, sl);
    MakeReservationPreservesInv(c, k, u, d, sl);
    GeneratedReservationIdNotBlank(c.reservations);
  }

  /** The owner cancels the reservation at index i with the operation as written: it
      succeeds, marks that entry cancelled and empties the reservation's cell, whatever
      that cell held and whether or not the reservation was still active */
  lemma OwnerCancels(c: Campus, i: int)
    requires CoreInv(c) && 0 <= i < |c.reservations|
    requires !IsBlank(c.reservations[i].username) && !IsBlank(c.reservations[i].id)
    ensures var r := c.reservations[i];
      var st := CancelReservation(c, r.id, r.username);
      && st.result.Success? && st.state.resources == c.resources
      && st.state.reservations == c.reservations[i := Cancel(r)]
      && (r.resourceId in c.schedules ==>
            r.resourceId in st.state.schedules && st.state.schedules[r.resourceId].cells[r.day][r.slot].None?)
  {
    FindByIdAt(c.reservations, i);
    assert IndexOfId(c.reservations, c.reservations[i].id) == Some(i);
  }

  /** cancelReservation as written: book a free cell, cancel, let someone else book the
      same cell, cancel the first reservation again (it is already cancelled, and the
      operation does not check that), and the cell reads as free although the second
      booking is still active; a third booking of the same cell then succeeds, and two
      active reservations hold one cell */
  lemma RecancelDoubleBooks(c: Campus, k: string, d: int, sl: int, u: string, v: string, w: string)
    requires Inv(c) && FindResource(c, k).Some? && InBounds(d, sl) && !IsBlank(k) && !CellTaken(c, k, d, sl)
    requires !IsBlank(u) && !IsBlank(v) && !IsBlank(w)
    ensures
      var s1 := MakeReservation(c, k, u, d, sl);
      var r1 := s1.result.value;
      var s2 := CancelReservation(s1.state, r1.id, u);
      var s3 := MakeReservation(s2.state, k, v, d, sl);
      var s4 := CancelReservation(s3.state, r1.id, u);
      var s5 := MakeReservation(s4.state, k, w, d, sl);
      var n := |c.reservations|;
      && s1.result.Success? && s2.result.Success? && s3.result.Success? && s4.result.Success? && s5.result.Success?
      && |s5.state.reservations| == n + 3
      && s5.state.reservations[n + 1].active && s5.state.reservations[n + 2].active
      && s5.state.reservations[n + 1].resourceId == k && s5.state.reservations[n + 2].resourceId == k
      && s5.state.reservations[n + 1].day == d && s5.state.reservations[n + 2].day == d
      && s5.state.reservations[n + 1].slot == sl && s5.state.reservations[n + 2].slot == sl
      && !BookingsConsistent(s4.state.reservations, s4.state.schedules)
  {
    var n := |c.reservations|;
    BookFreeCell(c, k, u, d, sl);
    var s1 := MakeReservation(c, k, u, d, sl);
    var r1 := s1.result.value;
    assert s1.state.reservations[n] == r1;
    assert k in s1.state.schedules by { assert Booked(s1.state.schedules, r1); }

    OwnerCancels(s1.state, n);
    var s2 := CancelReservation(s1.state, r1.id, u);
    CancelActivePreservesInv(s1.state, r1.id, u);
    assert !CellTaken(s2.state, k, d, sl);
    assert FindResource(s2.state, k).Some?;

    BookFreeCell(s2.state, k, v, d, sl);
    var s3 := MakeReservation(s2.state, k, v, d, sl);
    var r2 := s3.result.value;
    assert s3.state.reservations[n] == Cancel(r1);
    assert s3.state.reservations[n + 1] == r2;
    assert k in s3.state.schedules by { assert Booked(s3.state.schedules, r2); }

    OwnerCancels(s3.state, n);
    var s4 := CancelReservation(s3.state, r1.id, u);
    assert s4.state.reservations[n + 1] == r2;
    assert !CellTaken(s4.state, k, d, sl);
    assert !Booked(s4.state.schedules, r2);
    assert FindResource(s4.state, k).Some?;

    var s5 := MakeReservation(s4.state, k, w, d, sl);
    MakeReservationOutcome(s4.state, k, w, d, sl);
    assert s5.state.reservations == s4.state.reservations + [s5.result.value];
  }

  /** The corrected cancellation is idempotent: repeating a successful cancellation
      succeeds again with the same result and changes nothing further */
  lemma CancelCheckedTwiceIsOnce(c: Campus, reservationId: string, username: string)
    requires CancelReservationChecked(c, reservationId, username).result.Success?
    ensures var s1 := CancelReservationChecked(c, reservationId, username);
      var s2 := CancelReservationChecked(s1.state, reservationId, username);
      s2 == Step(s1.state, s1.result)
  {
    var s1 := CancelReservationChecked(c, reservationId, username);
    var r := c.reservations[IndexOfId(c.reservations, reservationId).value];
    CancelledFindsCancelled(c, reservationId, username);
    RecancelIsPermitted(c, reservationId, username);
    CancelIdempotent(r);
    CancelInactiveIsNoOp(s1.state, reservationId, username);
  }

  /** Whoever could cancel a reservation may cancel it again afterwards */
  lemma RecancelIsPermitted(c: Campus, reservationId: string, username: string)
    requires CancelReservationChecked(c, reservationId, username).result.Success?
    ensures CancelReservation(CancelReservationChecked(c, reservationId, username).state,
      reservationId, username).result.Success?
  {
    var c1 := CancelReservationChecked(c, reservationId, username).state;
    CancelledKeepsUsersAndKeys(c, reservationId, username);
    CancelledFindsCancelled(c, reservationId, username);
    var i := IndexOfId(c.reservations, reservationId).value;
    assert FindReservation(c, reservationId) == Some(c.reservations[i]);
    PermissionSurvivesCancel(c, c1, reservationId, username);
  }

  /** Permission to cancel depends only on users, schedule keys and the entry's
      owner and cell, none of which cancelling changes */
  lemma PermissionSurvivesCancel(c: Campus, c1: Campus, reservationId: string, username: string)
    requires CancelReservation(c, reservationId, username).result.Success?
    requires c1.users == c.users && c1.schedules.Keys == c.schedules.Keys
    requires FindReservation(c1, reservationId) == Some(Cancel(FindReservation(c, reservationId).value))
    ensures CancelReservation(c1, reservationId, username).result.Success?
  {
    var r := FindReservation(c, reservationId).value;
    assert (r.username == username || IsUserAdmin(c, username))
      && (r.resourceId in c.schedules ==> InBounds(r.day, r.slot));
    AdminDependsOnUsers(c, c1, username);
  }

  lemma AdminDependsOnUsers(c: Campus, c1: Campus, username: string)
    requires c1.users == c.users
    ensures IsUserAdmin(c1, username) == IsUserAdmin(c, username)
  {
    assert UserIndex(c1, username) == UserIndex(c, username);
  }

  /** Under the corrected cancellation, a permitted cancellation of an already
      cancelled reservation leaves the directory as it is */
  lemma CancelInactiveIsNoOp(c: Campus, reservationId: string, username: string)
    requires CancelReservation(c, reservationId, username).result.Success?
    requires FindReservation(c, reservationId).Some? && !FindReservation(c, reservationId).value.active
    ensures CancelReservationChecked(c, reservationId, username)
      == Step(c, Success(Cancel(FindReservation(c, reservationId).value)))
  {
  }

  /** A successful corrected cancellation leaves users and schedule keys alone */
  lemma CancelledKeepsUsersAndKeys(c: Campus, reservationId: string, username: string)
    requires CancelReservationChecked(c, reservationId, username).result.Success?
    ensures var c1 := CancelReservationChecked(c, reservationId, username).state;
      c1.users == c.users && c1.schedules.Keys == c.schedules.Keys
  {
  }

  /** A successful corrected cancellation replaces the target entry by its cancelled form */
  lemma CancelledReplacesEntry(c: Campus, reservationId: string, username: string)
    requires CancelReservationChecked(c, reservationId, username).result.Success?
    ensures var c1 := CancelReservationChecked(c, reservationId, username).state;
      var i := IndexOfId(c.reservations, reservationId).value;
      c1.reservations == c.reservations[i := Cancel(c.reservations[i])]
  {
  }

  /** After a successful corrected cancellation the same id finds the cancelled entry
      at the same place */
  lemma CancelledFindsCancelled(c: Campus, reservationId: string, username: string)
    requires CancelReservationChecked(c, reservationId, username).result.Success?
    ensures var c1 := CancelReservationChecked(c, reservationId, username).state;
      var i := IndexOfId(c.reservations, reservationId).value;
      && IndexOfId(c1.reservations, reservationId) == Some(i)
      && FindReservation(c1, reservationId) == Some(Cancel(c.reservations[i]))
  {
    CancelledReplacesEntry(c, reservationId, username);
    CancelAtKeepsLookup(c.reservations, IndexOfId(c.reservations, reservationId).value, reservationId);
  }

  /** Cancelling the entry an id's lookup finds keeps that lookup on the same place */
  lemma CancelAtKeepsLookup(rs: seq<Reservation>, i: nat, id: string)
    requires IndexOfId(rs, id) == Some(i)
    ensures IndexOfId(rs[i := Cancel(rs[i])], id) == Some(i)
    ensures FindById(rs[i := Cancel(rs[i])], id) == Some(Cancel(rs[i]))
  {
    IndexOfIdSameIds(rs, rs[i := Cancel(rs[i])], id);
  }

  // ---------------------------------------------------------------- queries

  /** Against a consistent directory, a validated booking of a catalog resource
      succeeds exactly when no active reservation in the list holds that cell, and
      isTimeSlotAvailable predicts the outcome */
  lemma BookingSucceedsIffCellFree(c: Campus, k: string, u: string, d: int, sl: int)
    requires CoreInv(c) && !IsBlank(u) && !IsBlank(k) && InBounds(d, sl) && FindResource(c, k).Some?
    ensures MakeReservation(c, k, u, d, sl).result.Success? <==>
      !exists i :: (0 <= i < |c.reservations| && c.reservations[i].active &&
        c.reservations[i].resourceId == k && c.reservations[i].day == d && c.reservations[i].slot == sl)
    ensures IsTimeSlotAvailable(c, k, d, sl) == Success(MakeReservation(c, k, u, d, sl).result.Success?)
  {
    MakeReservationOutcome(c, k, u, d, sl);
    CellTakenIffActiveReservation(c, k, d, sl);
    InCatalogIffFound(c, k);
  }

  /** A successful booking extends the booker's list of active reservations by exactly
      the new reservation */
  lemma UserReservationsAfterBooking(c: Campus, k: string, u: string, d: int, sl: int)
    ensures var st := MakeReservation(c, k, u, d, sl);
      st.result.Success? ==> GetUserReservations(st.state, u) == GetUserReservations(c, u) + [st.result.value]
  {
    var st := MakeReservation(c, k, u, d, sl);
    if st.result.Success? {
      MakeReservationOutcome(c, k, u, d, sl);
      Seqs.FilterSnoc(c.reservations, st.result.value, (r: Reservation) => r.username == u && r.active);
    }
  }

  /** In a consistent directory the schedule's listing of a resource and the
      reservation list's listing name the same reservations */
  lemma ScheduleListingMatchesReservationList(c: Campus, k: string)
    requires CoreInv(c) && k in c.schedules
    ensures forall x :: x in GetAllReservations(c.schedules[k], c.reservations) <==> x in GetResourceReservations(c, k)
  {
    ScheduleListingIsBooked(c, k);
    BookedAreScheduleListed(c, k);
  }

  lemma ScheduleListingIsBooked(c: Campus, k: string)
    requires CoreInv(c) && k in c.schedules
    ensures forall x :: x in GetAllReservations(c.schedules[k], c.reservations) ==> x in GetResourceReservations(c, k)
  {
    var s := c.schedules[k];
    var rs := c.reservations;
    var all := GetAllReservations(s, rs);
    var cells := ActiveCells(s, rs);
    forall x | x in all
      ensures x in GetResourceReservations(c, k)
    {
      var i :| 0 <= i < |all| && all[i] == x;
      var cell := cells[i];
      assert CellHoldsActive(rs, c.schedules, k, cell.0, cell.1);
      var j := FoundAt(rs, s.cells[cell.0][cell.1].value);
      assert rs[j] == x;
    }
  }

  lemma BookedAreScheduleListed(c: Campus, k: string)
    requires CoreInv(c) && k in c.schedules
    ensures forall x :: x in GetResourceReservations(c, k) ==> x in GetAllReservations(c.schedules[k], c.reservations)
  {
    var s := c.schedules[k];
    var rs := c.reservations;
    forall x | x in GetResourceReservations(c, k)
      ensures x in GetAllReservations(s, rs)
    {
      var j :| 0 <= j < |rs| && rs[j] == x;
      assert Booked(c.schedules, x);
      FindByIdAt(rs, j);
      assert Occupied(s, rs, x.day, x.slot);
    }
  }

  /** Filtering by the type name "Study Room" selects exactly the study rooms */
  lemma FilterByStudyRoomType(c: Campus)
    ensures forall i :: 0 <= i < |c.resources| ==>
      (c.resources[i] in FilterByType(c, "Study Room") <==> c.resources[i].StudyRoom?)
  {
    StudyRoomQuery();
    var rs := FilterByType(c, "Study Room");
    forall i | 0 <= i < |c.resources|
      ensures c.resources[i] in rs <==> c.resources[i].StudyRoom?
    {
      if c.resources[i] in rs {
        var j :| 0 <= j < |rs| && rs[j] == c.resources[i];
        assert |ToLower(ResourceType(rs[j]))| == 10;
      }
    }
  }

  /** The query "Study Room" is not blank, and lower-cased and trimmed it still has the
      length of "study room", which "lab equipment" has not */
  lemma StudyRoomQuery()
    ensures !IsBlank("Study Room")
    ensures Trim(ToLower("Study Room")) == ToLower("Study Room")
    ensures ToLower(ResourceType(StudyRoom("", "", 1))) == ToLower("Study Room")
    ensures |ToLower("Study Room")| == 10 && |ToLower("Lab Equipment")| == 13
  {
    var q := ToLower("Study Room");
    assert q[0] == 's' && q[|q| - 1] == 'm';
    assert TrimLeft(q) == q && TrimRight(q) == q;
    assert !IsTrimmable("Study Room"[0]);
  }
}
