/** The consistency the campus directory keeps between its lists and its schedules:
    ids are unique, every catalog resource has exactly one schedule, every active
    reservation is written in its cell, and every written cell names an active
    reservation for exactly that cell. From it follows that no cell is ever booked
    twice. Every operation preserves it, and the reservation history only grows. */
module CampusInvariant {
  import opened Wrappers
  import opened Exceptions
  import opened Text
  import opened Reservations
  import opened Resources
  import opened Users
  import opened Schedules
  import opened CampusSystem

  // ---------------------------------------------------------------- the invariant

  predicate UniqueResourceIds(rs: seq<Resource>) {
    forall i, j :: 0 <= i < j < |rs| ==> rs[i].id != rs[j].id
  }

  predicate UniqueUsernames(us: seq<User>) {
    forall i, j :: 0 <= i < j < |us| ==> us[i].username != us[j].username
  }

  predicate UniqueUserIds(us: seq<User>) {
    forall i, j :: 0 <= i < j < |us| ==> us[i].userId != us[j].userId
  }

  predicate UniqueReservationIds(rs: seq<Reservation>) {
    forall i, j :: 0 <= i < j < |rs| ==> rs[i].id != rs[j].id
  }

  predicate ResourcesValid(rs: seq<Resource>) {
    forall i :: 0 <= i < |rs| ==> Valid(rs[i])
  }

  /** The ids of the catalog */
  function ResourceIds(rs: seq<Resource>): set<string> {
    set i | 0 <= i < |rs| :: rs[i].id
  }

  /** Exactly the catalog's resources have a schedule, each filed under its own id */
  predicate SchedulesMatchCatalog(rs: seq<Resource>, sch: map<string, Schedule>) {
    && sch.Keys == ResourceIds(rs)
    && forall k :: k in sch ==> sch[k].resourceId == k
  }

  /** The reservation is written in its own cell of its resource's schedule */
  predicate Booked(sch: map<string, Schedule>, r: Reservation) {
    && InBounds(r.day, r.slot)
    && r.resourceId in sch
    && sch[r.resourceId].cells[r.day][r.slot] == Some(r.id)
  }

  /** A written cell names an active reservation booked for exactly that cell */
  predicate CellHoldsActive(rs: seq<Reservation>, sch: map<string, Schedule>, k: string, d: int, sl: int)
    requires k in sch && InBounds(d, sl)
  {
    sch[k].cells[d][sl].Some? ==>
      var r := FindById(rs, sch[k].cells[d][sl].value);
      r.Some? && r.value.active && r.value.resourceId == k && r.value.day == d && r.value.slot == sl
  }

  /** The reservation list and the schedules describe the same bookings */
  predicate BookingsConsistent(rs: seq<Reservation>, sch: map<string, Schedule>) {
    && UniqueReservationIds(rs)
    && (forall i :: 0 <= i < |rs| ==> InBounds(rs[i].day, rs[i].slot))
    && (forall i :: 0 <= i < |rs| && rs[i].active ==> Booked(sch, rs[i]))
    && (forall k, d, sl :: k in sch && 0 <= d < DaysPerWeek && 0 <= sl < SlotsPerDay ==>
          CellHoldsActive(rs, sch, k, d, sl))
  }

  /** Everything about the directory that a reload keeps as it is */
  predicate CoreInv(c: Campus) {
    && UniqueResourceIds(c.resources)
    && ResourcesValid(c.resources)
    && UniqueUsernames(c.users)
    && UniqueUserIds(c.users)
    && SchedulesMatchCatalog(c.resources, c.schedules)
    && BookingsConsistent(c.reservations, c.schedules)
  }

  /** The highest user-id number the generator has accounted for */
  function IssuedBound(g: IdGen): int {
    if g.lastSavedMaxId >= g.counter then g.lastSavedMaxId else g.counter
  }

  /** No user holds a well-formed id number the generator could still hand out */
  predicate UserIdsIssued(c: Campus) {
    forall i :: 0 <= i < |c.users| && UserIdNumber(c.users[i]).Some? ==>
      UserIdNumber(c.users[i]).value <= IssuedBound(c.gen)
  }

  predicate Inv(c: Campus) {
    CoreInv(c) && UserIdsIssued(c)
  }

  // ---------------------------------------------------------------- lookups under unique ids

  /** With unique ids, looking up a listed reservation's id finds that reservation */
  lemma FindByIdAt(rs: seq<Reservation>, j: int)
    requires UniqueReservationIds(rs) && 0 <= j < |rs|
    ensures FindById(rs, rs[j].id) == Some(rs[j])
  {
    var k := IndexOfId(rs, rs[j].id);
    assert k.Some?;
    assert k.value == j;
  }

  /** A found reservation sits at some index of the list */
  lemma FoundAt(rs: seq<Reservation>, id: string) returns (j: int)
    requires FindById(rs, id).Some?
    ensures 0 <= j < |rs| && rs[j] == FindById(rs, id).value && rs[j].id == id
  {
    var r := FindById(rs, id).value;
    j :| 0 <= j < |rs| && rs[j] == r;
  }

  /** Lookups by id see only the ids, so lists with the same ids position every id alike */
  lemma IndexOfIdSameIds(rs: seq<Reservation>, rs': seq<Reservation>, id: string)
    requires |rs| == |rs'| && forall j :: 0 <= j < |rs| ==> rs[j].id == rs'[j].id
    ensures IndexOfId(rs, id) == IndexOfId(rs', id)
  {
    var a := IndexOfId(rs, id);
    var b := IndexOfId(rs', id);
  }

  // ---------------------------------------------------------------- consequences

  /** No double booking: two different active reservations never share a cell */
  lemma {:induction false} NoDoubleBooking(rs: seq<Reservation>, sch: map<string, Schedule>, i: int, j: int)
    requires BookingsConsistent(rs, sch)
    requires 0 <= i < |rs| && 0 <= j < |rs| && i != j
    requires rs[i].active && rs[j].active
    ensures !(rs[i].resourceId == rs[j].resourceId && rs[i].day == rs[j].day && rs[i].slot == rs[j].slot)
  {
    assert Booked(sch, rs[i]) && Booked(sch, rs[j]);
    if i < j {
      assert rs[i].id != rs[j].id;
    } else {
      assert rs[j].id != rs[i].id;
    }
  }

  /** The schedule view and the list view of a cell agree: the cell is taken exactly
      when some active reservation in the list is booked for it */
  lemma CellTakenIffActiveReservation(c: Campus, k: string, d: int, sl: int)
    requires CoreInv(c) && InBounds(d, sl)
    ensures CellTaken(c, k, d, sl) <==> exists i :: (0 <= i < |c.reservations| && c.reservations[i].active &&
      c.reservations[i].resourceId == k && c.reservations[i].day == d && c.reservations[i].slot == sl)
  {
    var rs := c.reservations;
    if CellTaken(c, k, d, sl) {
      assert CellHoldsActive(rs, c.schedules, k, d, sl);
      var j := FoundAt(rs, c.schedules[k].cells[d][sl].value);
      assert rs[j].active && rs[j].resourceId == k && rs[j].day == d && rs[j].slot == sl;
    }
    if exists i :: 0 <= i < |rs| && rs[i].active && rs[i].resourceId == k && rs[i].day == d && rs[i].slot == sl {
      var i :| 0 <= i < |rs| && rs[i].active && rs[i].resourceId == k && rs[i].day == d && rs[i].slot == sl;
      assert Booked(c.schedules, rs[i]);
      FindByIdAt(rs, i);
    }
  }

  // ---------------------------------------------------------------- the catalog's ids

  lemma ResourceIdsSnoc(rs: seq<Resource>, r: Resource)
    ensures ResourceIds(rs + [r]) == ResourceIds(rs) + {r.id}
  {
    var rs' := rs + [r];
    forall x | x in ResourceIds(rs')
      ensures x in ResourceIds(rs) + {r.id}
    {
      var i :| 0 <= i < |rs'| && rs'[i].id == x;
      if i < |rs| {
        assert rs[i].id == x;
      }
    }
    forall x | x in ResourceIds(rs) + {r.id}
      ensures x in ResourceIds(rs')
    {
      if x == r.id {
        assert rs'[|rs|].id == x;
      } else {
        var i :| 0 <= i < |rs| && rs[i].id == x;
        assert rs'[i].id == x;
      }
    }
  }

  lemma ResourceIdsUpdate(rs: seq<Resource>, i: int, r: Resource)
    requires 0 <= i < |rs| && r.id == rs[i].id
    ensures ResourceIds(rs[i := r]) == ResourceIds(rs)
  {
    var rs' := rs[i := r];
    forall x | x in ResourceIds(rs)
      ensures x in ResourceIds(rs')
    {
      var j :| 0 <= j < |rs| && rs[j].id == x;
      assert rs'[j].id == x;
    }
    forall x | x in ResourceIds(rs')
      ensures x in ResourceIds(rs)
    {
      var j :| 0 <= j < |rs'| && rs'[j].id == x;
      assert rs[j].id == x;
    }
  }

  lemma ResourceIdsRemove(rs: seq<Resource>, i: int)
    requires UniqueResourceIds(rs) && 0 <= i < |rs|
    ensures ResourceIds(rs[..i] + rs[i + 1..]) == ResourceIds(rs) - {rs[i].id}
    ensures UniqueResourceIds(rs[..i] + rs[i + 1..])
  {
    RemoveDropsOnlyId(rs, i);
    RemoveKeepsOtherIds(rs, i);
  }

  /** Where each entry of the catalog with entry i taken out comes from */
  lemma RemovedAt(rs: seq<Resource>, i: int)
    requires 0 <= i < |rs|
    ensures |rs[..i] + rs[i + 1..]| == |rs| - 1
    ensures forall j :: 0 <= j < i ==> (rs[..i] + rs[i + 1..])[j] == rs[j]
    ensures forall j :: i < j < |rs| ==> (rs[..i] + rs[i + 1..])[j - 1] == rs[j]
  {
  }

  lemma RemoveDropsOnlyId(rs: seq<Resource>, i: int)
    requires UniqueResourceIds(rs) && 0 <= i < |rs|
    ensures ResourceIds(rs[..i] + rs[i + 1..]) <= ResourceIds(rs) - {rs[i].id}
    ensures UniqueResourceIds(rs[..i] + rs[i + 1..])
  {
    var rs' := rs[..i] + rs[i + 1..];
    RemovedAt(rs, i);
    forall x | x in ResourceIds(rs')
      ensures x in ResourceIds(rs) - {rs[i].id}
    {
      var j :| 0 <= j < |rs'| && rs'[j].id == x;
      if j < i {
        assert rs[j].id == x;
      } else {
        assert rs[j + 1].id == x;
      }
    }
  }

  lemma RemoveKeepsOtherIds(rs: seq<Resource>, i: int)
    requires 0 <= i < |rs|
    ensures ResourceIds(rs) - {rs[i].id} <= ResourceIds(rs[..i] + rs[i + 1..])
  {
    var rs' := rs[..i] + rs[i + 1..];
    RemovedAt(rs, i);
    forall x | x in ResourceIds(rs) - {rs[i].id}
      ensures x in ResourceIds(rs')
    {
      var j :| 0 <= j < |rs| && rs[j].id == x;
      if j < i {
        assert rs'[j].id == x;
      } else {
        assert rs'[j - 1].id == x;
      }
    }
  }

  /** A resource id is in the catalog exactly when findResource finds it */
  lemma InCatalogIffFound(c: Campus, k: string)
    ensures k in ResourceIds(c.resources) <==> FindResource(c, k).Some?
  {
    if FindResource(c, k).Some? {
      var i := ResourceIndex(c, k).value;
      assert c.resources[i].id == k;
    }
  }

  // ---------------------------------------------------------------- how the bookings evolve

  /** Registering an empty schedule for a new resource keeps the bookings consistent */
  lemma BookingsAddSchedule(rs: seq<Reservation>, sch: map<string, Schedule>, k: string)
    requires BookingsConsistent(rs, sch) && k !in sch
    ensures BookingsConsistent(rs, sch[k := NewSchedule(k)])
  {
    var sch' := sch[k := NewSchedule(k)];
    forall i | 0 <= i < |rs| && rs[i].active
      ensures Booked(sch', rs[i])
    {
      assert Booked(sch, rs[i]);
    }
    forall k', d, sl | k' in sch' && 0 <= d < DaysPerWeek && 0 <= sl < SlotsPerDay
      ensures CellHoldsActive(rs, sch', k', d, sl)
    {
      if k' != k {
        assert CellHoldsActive(rs, sch, k', d, sl);
      }
    }
  }

  /** Dropping the schedule of a resource without active reservations keeps the
      bookings consistent */
  lemma BookingsDropSchedule(rs: seq<Reservation>, sch: map<string, Schedule>, k: string)
    requires BookingsConsistent(rs, sch)
    requires forall i :: 0 <= i < |rs| && rs[i].active ==> rs[i].resourceId != k
    ensures BookingsConsistent(rs, sch - {k})
  {
    var sch' := sch - {k};
    forall i | 0 <= i < |rs| && rs[i].active
      ensures Booked(sch', rs[i])
    {
      assert Booked(sch, rs[i]);
    }
    forall k', d, sl | k' in sch' && 0 <= d < DaysPerWeek && 0 <= sl < SlotsPerDay
      ensures CellHoldsActive(rs, sch', k', d, sl)
    {
      assert CellHoldsActive(rs, sch, k', d, sl);
    }
  }

  /** Appending a fresh active reservation and writing its id into its free cell keeps
      the bookings consistent */
  lemma BookingsAddBooking(rs: seq<Reservation>, sch: map<string, Schedule>, r: Reservation, s': Schedule)
    requires BookingsConsistent(rs, sch)
    requires r.active && InBounds(r.day, r.slot) && r.resourceId in sch
    requires forall j :: 0 <= j < |rs| ==> rs[j].id != r.id
    requires sch[r.resourceId].cells[r.day][r.slot].None?
    requires s'.cells[r.day][r.slot] == Some(r.id)
    requires forall d, sl :: InBounds(d, sl) && (d != r.day || sl != r.slot) ==>
      s'.cells[d][sl] == sch[r.resourceId].cells[d][sl]
    ensures BookingsConsistent(rs + [r], sch[r.resourceId := s'])
  {
    var rs' := rs + [r];
    var sch' := sch[r.resourceId := s'];
    var k := r.resourceId;
    forall i, j | 0 <= i < j < |rs'|
      ensures rs'[i].id != rs'[j].id
    {
      if j < |rs| {
        assert rs'[i] == rs[i] && rs'[j] == rs[j];
      }
    }
    forall i | 0 <= i < |rs'| && rs'[i].active
      ensures Booked(sch', rs'[i])
    {
      if i < |rs| {
        assert rs'[i] == rs[i];
        assert Booked(sch, rs[i]);
        if rs[i].resourceId == k && rs[i].day == r.day && rs[i].slot == r.slot {
          assert false;
        }
      }
    }
    forall k', d, sl | k' in sch' && 0 <= d < DaysPerWeek && 0 <= sl < SlotsPerDay
      ensures CellHoldsActive(rs', sch', k', d, sl)
    {
      if k' == k && d == r.day && sl == r.slot {
        FindByIdAt(rs', |rs|);
      } else if sch'[k'].cells[d][sl].Some? {
        assert sch'[k'].cells[d][sl] == sch[k'].cells[d][sl];
        assert CellHoldsActive(rs, sch, k', d, sl);
        var j := FoundAt(rs, sch[k'].cells[d][sl].value);
        assert rs'[j] == rs[j];
        FindByIdAt(rs', j);
      }
    }
  }

  /** Cancelling an active reservation and emptying its cell keeps the bookings consistent */
  lemma BookingsCancel(rs: seq<Reservation>, sch: map<string, Schedule>, i: int, s': Schedule)
    requires BookingsConsistent(rs, sch)
    requires 0 <= i < |rs| && rs[i].active
    requires rs[i].resourceId in sch && InBounds(rs[i].day, rs[i].slot)
    requires s'.cells[rs[i].day][rs[i].slot].None?
    requires forall d, sl :: InBounds(d, sl) && (d != rs[i].day || sl != rs[i].slot) ==>
      s'.cells[d][sl] == sch[rs[i].resourceId].cells[d][sl]
    ensures BookingsConsistent(rs[i := Cancel(rs[i])], sch[rs[i].resourceId := s'])
  {
    var r := rs[i];
    var rs' := rs[i := Cancel(r)];
    var sch' := sch[r.resourceId := s'];
    assert forall j :: 0 <= j < |rs'| ==> rs'[j].id == rs[j].id;
    forall j | 0 <= j < |rs'| && rs'[j].active
      ensures Booked(sch', rs'[j])
    {
      assert j != i && rs'[j] == rs[j];
      assert Booked(sch, rs[j]);
      NoDoubleBooking(rs, sch, i, j);
    }
    forall k', d, sl | k' in sch' && 0 <= d < DaysPerWeek && 0 <= sl < SlotsPerDay
      ensures CellHoldsActive(rs', sch', k', d, sl)
    {
      if sch'[k'].cells[d][sl].Some? {
        assert !(k' == r.resourceId && d == r.day && sl == r.slot);
        assert sch'[k'].cells[d][sl] == sch[k'].cells[d][sl];
        assert CellHoldsActive(rs, sch, k', d, sl);
        var j := FoundAt(rs, sch[k'].cells[d][sl].value);
        assert j != i;
        assert rs'[j] == rs[j];
        FindByIdAt(rs', j);
      }
    }
  }

  // ---------------------------------------------------------------- how the catalog evolves

  /** Appending a valid resource with a new id, with an empty schedule, keeps the catalog consistent */
  lemma CatalogSnoc(rs: seq<Resource>, sch: map<string, Schedule>, r: Resource)
    requires UniqueResourceIds(rs) && ResourcesValid(rs) && SchedulesMatchCatalog(rs, sch)
    requires r.id !in ResourceIds(rs) && Valid(r)
    ensures UniqueResourceIds(rs + [r]) && ResourcesValid(rs + [r])
    ensures SchedulesMatchCatalog(rs + [r], sch[r.id := NewSchedule(r.id)])
  {
    var rs' := rs + [r];
    assert forall j :: 0 <= j < |rs| ==> rs'[j] == rs[j];
    forall i, j | 0 <= i < j < |rs'|
      ensures rs'[i].id != rs'[j].id
    {
      if j < |rs| {
        assert rs'[i] == rs[i] && rs'[j] == rs[j];
      } else {
        assert rs'[i].id in ResourceIds(rs);
      }
    }
    ResourceIdsSnoc(rs, r);
  }

  /** Dropping one resource and its schedule keeps the catalog consistent */
  lemma CatalogRemove(rs: seq<Resource>, sch: map<string, Schedule>, i: int)
    requires UniqueResourceIds(rs) && ResourcesValid(rs) && SchedulesMatchCatalog(rs, sch)
    requires 0 <= i < |rs|
    ensures UniqueResourceIds(rs[..i] + rs[i + 1..]) && ResourcesValid(rs[..i] + rs[i + 1..])
    ensures SchedulesMatchCatalog(rs[..i] + rs[i + 1..], sch - {rs[i].id})
  {
    var rs' := rs[..i] + rs[i + 1..];
    ResourceIdsRemove(rs, i);
    assert forall j :: 0 <= j < |rs'| ==> rs'[j] == if j < i then rs[j] else rs[j + 1];
  }

  /** Rewriting a registered schedule under the same resource id keeps the catalog consistent */
  lemma CatalogReplaceSchedule(rs: seq<Resource>, sch: map<string, Schedule>, k: string, s': Schedule)
    requires SchedulesMatchCatalog(rs, sch) && k in sch && s'.resourceId == sch[k].resourceId
    ensures SchedulesMatchCatalog(rs, sch[k := s'])
  {
  }

  // ---------------------------------------------------------------- users

  /** addUser hands out an id no existing user holds */
  lemma {:induction false} AddUserIdIsFresh(c: Campus, username: string, isAdmin: bool)
    requires UserIdsIssued(c)
    ensures AddUser(c, username, isAdmin).result.Success? ==>
      forall j :: 0 <= j < |c.users| ==> c.users[j].userId != AddUser(c, username, isAdmin).result.value.userId
  {
    var st := AddUser(c, username, isAdmin);
    if st.result.Success? {
      var g := GenerateUserId(c.gen);
      assert NumberedSuffix(st.result.value.userId, UserIdPrefix) == Some(g.n);
      forall j | 0 <= j < |c.users|
        ensures c.users[j].userId != st.result.value.userId
      {
        assert UserIdNumber(c.users[j]).Some? ==> UserIdNumber(c.users[j]).value < g.n;
      }
    }
  }

  lemma {:induction false} AddUserPreservesInv(c: Campus, username: string, isAdmin: bool)
    requires Inv(c)
    ensures Inv(AddUser(c, username, isAdmin).state)
  {
    var st := AddUser(c, username, isAdmin);
    if st.result.Success? {
      var c' := st.state;
      var g := GenerateUserId(c.gen);
      assert c'.resources == c.resources && c'.schedules == c.schedules && c'.reservations == c.reservations;
      UsersSnocConsistent(c.users, c.gen, st.result.value, c'.gen, g.n);
      assert CoreInv(c');
    }
  }

  /** Appending a user with a new name whose id number lies beyond everything the
      generator accounted for, and advancing the generator to that number, keeps the
      user list consistent */
  lemma UsersSnocConsistent(us: seq<User>, g: IdGen, u: User, g': IdGen, n: int)
    requires UniqueUsernames(us) && UniqueUserIds(us)
    requires forall i :: 0 <= i < |us| && UserIdNumber(us[i]).Some? ==> UserIdNumber(us[i]).value <= IssuedBound(g)
    requires forall j :: 0 <= j < |us| ==> us[j].username != u.username
    requires UserIdNumber(u) == Some(n) && n > IssuedBound(g) && g'.counter == n
    ensures UniqueUsernames(us + [u]) && UniqueUserIds(us + [u])
    ensures forall i :: 0 <= i < |us + [u]| && UserIdNumber((us + [u])[i]).Some? ==>
      UserIdNumber((us + [u])[i]).value <= IssuedBound(g')
  {
    var us' := us + [u];
    assert forall j :: 0 <= j < |us| ==> us'[j] == us[j];
    forall i, j | 0 <= i < j < |us'|
      ensures us'[i].username != us'[j].username && us'[i].userId != us'[j].userId
    {
      if j < |us| {
        assert us'[i] == us[i] && us'[j] == us[j];
      } else {
        assert UserIdNumber(us[i]) != UserIdNumber(u);
      }
    }
  }

  // ---------------------------------------------------------------- the catalog

  lemma {:induction false} AddResourcePreservesInv(c: Campus, resource: Resource, username: string)
    requires Inv(c) && Valid(resource)
    ensures Inv(AddResource(c, resource, username).state)
  {
    var st := AddResource(c, resource, username);
    if st.result.Success? {
      var c' := st.state;
      var rs := c'.resources;
      assert rs == c.resources + [resource];
      assert c'.users == c.users && c'.gen == c.gen && c'.reservations == c.reservations;
      assert c'.schedules == c.schedules[resource.id := NewSchedule(resource.id)];
      InCatalogIffFound(c, resource.id);
      CatalogSnoc(c.resources, c.schedules, resource);
      BookingsAddSchedule(c.reservations, c.schedules, resource.id);
      assert CoreInv(c');
    }
  }

  /** Replacing a catalog entry by one with the same id that is still valid keeps the invariant */
  lemma ReplaceResourcePreservesInv(c: Campus, i: int, r: Resource)
    requires Inv(c) && 0 <= i < |c.resources| && r.id == c.resources[i].id && Valid(r)
    ensures Inv(c.(resources := c.resources[i := r]))
  {
    ResourceIdsUpdate(c.resources, i, r);
  }

  lemma EditResourcePreservesInv(c: Campus, resourceId: string, newName: Option<string>, username: string)
    requires Inv(c)
    ensures Inv(EditResource(c, resourceId, newName, username).state)
  {
    var loc := LocateForEdit(c, resourceId, username);
    if loc.Success? {
      ReplaceResourcePreservesInv(c, loc.value, ApplyName(c.resources[loc.value], newName));
    }
  }

  lemma EditStudyRoomPreservesInv(c: Campus, roomId: string, newName: Option<string>, newCapacity: Option<int>,
                                  username: string)
    requires Inv(c)
    ensures Inv(EditStudyRoom(c, roomId, newName, newCapacity, username).state)
  {
    var st := EditStudyRoom(c, roomId, newName, newCapacity, username);
    if st.result.Success? {
      var i := LocateForEdit(c, roomId, username).value;
      assert Valid(c.resources[i]);
      ReplaceResourcePreservesInv(c, i, st.state.resources[i]);
    }
  }

  lemma EditLabEquipmentPreservesInv(c: Campus, equipId: string, newName: Option<string>, newType: Option<string>,
                                     username: string)
    requires Inv(c)
    ensures Inv(EditLabEquipment(c, equipId, newName, newType, username).state)
  {
    var st := EditLabEquipment(c, equipId, newName, newType, username);
    if st.result.Success? {
      var i := LocateForEdit(c, equipId, username).value;
      ReplaceResourcePreservesInv(c, i, st.state.resources[i]);
    }
  }

  lemma {:induction false} RemoveResourcePreservesInv(c: Campus, resourceId: string, username: string)
    requires Inv(c)
    ensures Inv(RemoveResource(c, resourceId, username).state)
  {
    var st := RemoveResource(c, resourceId, username);
    if st.result.Success? {
      var i := LocateForEdit(c, resourceId, username).value;
      var c' := st.state;
      var rs := c'.resources;
      assert rs == c.resources[..i] + c.resources[i + 1..];
      assert c'.users == c.users && c'.gen == c.gen && c'.reservations == c.reservations;
      assert c'.schedules == c.schedules - {resourceId};
      CatalogRemove(c.resources, c.schedules, i);
      forall j | 0 <= j < |c.reservations| && c.reservations[j].active
        ensures c.reservations[j].resourceId != resourceId
      {
        assert !HasActiveReservationsFor(c, resourceId);
      }
      BookingsDropSchedule(c.reservations, c.schedules, resourceId);
      assert CoreInv(c');
    }
  }

  // ---------------------------------------------------------------- bookings

  lemma {:induction false} BookCellPreservesInv(c: Campus, resource: Resource, username: string, day: int, slot: int)
    requires Inv(c) && resource in c.resources && InBounds(day, slot)
    ensures Inv(BookCell(c, resource, username, day, slot).state)
  {
    var st := BookCell(c, resource, username, day, slot);
    var k := resource.id;
    var j :| 0 <= j < |c.resources| && c.resources[j] == resource;
    assert k in ResourceIds(c.resources);
    if st.result.Success? {
      var r := st.result.value;
      assert CellHoldsActive(c.reservations, c.schedules, k, day, slot);
      BookingsAddBooking(c.reservations, c.schedules, r, st.state.schedules[k]);
    }
  }

  lemma MakeReservationPreservesInv(c: Campus, resourceId: string, username: string, day: int, slot: int)
    requires Inv(c)
    ensures Inv(MakeReservation(c, resourceId, username, day, slot).state)
  {
    if !IsBlank(username) && !IsBlank(resourceId) && InBounds(day, slot) {
      var p := AutoProvision(c, username);
      if FindUser(c, username).None? {
        AddUserPreservesInv(c, username, NameLooksAdmin(username));
      }
      if FindResource(c, resourceId).Some? {
        BookCellPreservesInv(p, FindResource(c, resourceId).value, username, day, slot);
      }
    }
  }

  /** The as-written cancellation keeps the invariant when the reservation it targets
      is still active */
  lemma {:induction false} CancelActivePreservesInv(c: Campus, reservationId: string, username: string)
    requires Inv(c)
    requires FindReservation(c, reservationId).Some? ==> FindReservation(c, reservationId).value.active
    ensures Inv(CancelReservation(c, reservationId, username).state)
  {
    var st := CancelReservation(c, reservationId, username);
    if st.result.Success? {
      var i := IndexOfId(c.reservations, reservationId).value;
      var r := c.reservations[i];
      var c' := st.state;
      FindByIdAt(c.reservations, i);
      assert r.active && Booked(c.schedules, r);
      assert c'.users == c.users && c'.gen == c.gen && c'.resources == c.resources;
      assert c'.reservations == c.reservations[i := Cancel(r)];
      assert c'.schedules == c.schedules[r.resourceId := c'.schedules[r.resourceId]];
      BookingsCancel(c.reservations, c.schedules, i, c'.schedules[r.resourceId]);
      CatalogReplaceSchedule(c.resources, c.schedules, r.resourceId, c'.schedules[r.resourceId]);
      assert CoreInv(c');
    }
  }

  /** The corrected cancellation keeps the invariant whatever it targets */
  lemma CancelCheckedPreservesInv(c: Campus, reservationId: string, username: string)
    requires Inv(c)
    ensures Inv(CancelReservationChecked(c, reservationId, username).state)
  {
    var st := CancelReservationChecked(c, reservationId, username);
    if st.result.Success? {
      var i := IndexOfId(c.reservations, reservationId).value;
      FindByIdAt(c.reservations, i);
      if c.reservations[i].active {
        CancelActivePreservesInv(c, reservationId, username);
      }
    }
  }

  // ---------------------------------------------------------------- initial state and reload

  /** The default data satisfies the invariant, whatever state the id generator is in */
  lemma InitialStateSatisfiesInv(g: IdGen)
    ensures Inv(InitialState(g))
  {
    var c := InitialState(g);
    DefaultCatalogConsistent(c.schedules);
    var a := GenerateUserId(g);
    var b := GenerateUserId(a.gen);
    GeneratedUsersConsistent(g, c.users, c.gen);
    EmptySchedulesConsistent(c.schedules);
  }

  /** With no reservations and only empty schedules, the bookings are trivially consistent */
  lemma EmptySchedulesConsistent(sch: map<string, Schedule>)
    requires forall k :: k in sch ==> sch[k] == NewSchedule(k)
    ensures BookingsConsistent([], sch)
  {
    forall k, d, sl | k in sch && 0 <= d < DaysPerWeek && 0 <= sl < SlotsPerDay
      ensures CellHoldsActive([], sch, k, d, sl)
    {
      var s := NewSchedule(k);
      assert InBounds(d, sl);
      assert s.cells[d][sl].None?;
    }
  }

  lemma DefaultResourceIdsDistinct()
    ensures UniqueResourceIds(DefaultResources)
  {
    var ids := ["SR101", "SR102", "SR103", "LE201", "LE202", "LE203"];
    assert forall i :: 0 <= i < 6 ==> DefaultResources[i].id == ids[i];
    assert forall i :: 0 <= i < 6 ==> ids[i][4] == "123123"[i] && ids[i][0] == "SSSLLL"[i];
  }

  lemma DefaultCatalogConsistent(sch: map<string, Schedule>)
    requires forall i :: 0 <= i < |DefaultResources| ==> DefaultResources[i].id in sch
    requires forall k :: k in sch ==> sch[k] == NewSchedule(k) && exists i :: 0 <= i < |DefaultResources| && DefaultResources[i].id == k
    ensures UniqueResourceIds(DefaultResources) && ResourcesValid(DefaultResources)
    ensures SchedulesMatchCatalog(DefaultResources, sch)
  {
    DefaultResourceIdsDistinct();
    DefaultResourcesValid();
    FreshSchedulesMatchCatalog(DefaultResources, sch);
  }

  lemma DefaultResourcesValid()
    ensures ResourcesValid(DefaultResources)
  {
  }

  /** Fresh schedules filed under exactly the catalog's ids match the catalog */
  lemma FreshSchedulesMatchCatalog(rs: seq<Resource>, sch: map<string, Schedule>)
    requires forall i :: 0 <= i < |rs| ==> rs[i].id in sch
    requires forall k :: k in sch ==> sch[k] == NewSchedule(k) && exists i :: 0 <= i < |rs| && rs[i].id == k
    ensures SchedulesMatchCatalog(rs, sch)
  {
    forall k | k in sch
      ensures k in ResourceIds(rs)
    {
      var i :| 0 <= i < |rs| && rs[i].id == k;
    }
  }

  /** Three users created one after another from the generator: distinct names as given,
      distinct ids, and every id number accounted for by the final generator state */
  lemma GeneratedUsersConsistent(g: IdGen, us: seq<User>, gEnd: IdGen)
    requires |us| == 3
    requires us[0].username == "admin" && us[1].username == "student1" && us[2].username == "student2"
    requires us[0].userId == GenerateUserId(g).id
    requires us[1].userId == GenerateUserId(GenerateUserId(g).gen).id
    requires us[2].userId == GenerateUserId(GenerateUserId(GenerateUserId(g).gen).gen).id
    requires gEnd == GenerateUserId(GenerateUserId(GenerateUserId(g).gen).gen).gen
    ensures UniqueUsernames(us) && UniqueUserIds(us)
    ensures forall i :: 0 <= i < |us| && UserIdNumber(us[i]).Some? ==> UserIdNumber(us[i]).value <= IssuedBound(gEnd)
  {
    DefaultUsernamesDistinct(us);
    var a := GenerateUserId(g);
    var b := GenerateUserId(a.gen);
    var d := GenerateUserId(b.gen);
    GeneratedIdsDistinct(us, a.n, b.n, d.n);
  }

  lemma DefaultUsernamesDistinct(us: seq<User>)
    requires |us| == 3
    requires us[0].username == "admin" && us[1].username == "student1" && us[2].username == "student2"
    ensures UniqueUsernames(us)
  {
    assert us[0].username[0] != us[1].username[0];
    assert us[0].username[0] != us[2].username[0];
    assert us[1].username[7] != us[2].username[7];
  }

  /** Users whose ids read back as increasing numbers have distinct ids */
  lemma GeneratedIdsDistinct(us: seq<User>, n0: int, n1: int, n2: int)
    requires |us| == 3 && n0 < n1 < n2
    requires UserIdNumber(us[0]) == Some(n0) && UserIdNumber(us[1]) == Some(n1) && UserIdNumber(us[2]) == Some(n2)
    ensures UniqueUserIds(us)
  {
  }

  /** A reload of consistent data re-seeds the generator past every loaded id number,
      so the reloaded directory satisfies the whole invariant */
  lemma LoadEstablishesInv(loaded: Campus, processGen: IdGen)
    requires CoreInv(loaded)
    ensures Inv(Load(loaded, processGen))
  {
    var c := Load(loaded, processGen);
    assert IssuedBound(c.gen) >= c.gen.lastSavedMaxId;
  }
}
