/** The campus directory: the resource catalog, the user list, every reservation ever
    made (active and cancelled) and one weekly schedule per resource. It guards the
    catalog with an administrator check, lets only the owner or an administrator
    cancel, books the fixed grid with conflict detection and issues `RES-<n>` ids.

    Every mutating operation returns the state it leaves behind together with its
    value or exception: most operations leave the state untouched on failure, but a
    booking can fail after it has already registered a new user. */
module CampusSystem {
  import opened Wrappers
  import opened Exceptions
  import opened Text
  import Seqs
  import opened Reservations
  import opened Resources
  import opened Users
  import opened Schedules

  datatype Campus = Campus(
    resources: seq<Resource>,
    users: seq<User>,
    reservations: seq<Reservation>,
    schedules: map<string, Schedule>,
    gen: IdGen)

  /** The state after an operation, with the value it returned or the exception it threw */
  datatype Step<+T> = Step(state: Campus, result: Result<T, Error>)

  /** The state after getOrCreateSchedule, with the schedule it returned */
  datatype WithSchedule = WithSchedule(state: Campus, schedule: Schedule)

  const ReservationIdPrefix := "RES-"

  // ---------------------------------------------------------------- initial state

  /** The catalog initializeDefaultData installs: three study rooms and three pieces of lab equipment */
  const DefaultResources: seq<Resource> := [
    StudyRoom("SR101", "Computer Lab", 20),
    StudyRoom("SR102", "Group Study Room", 8),
    StudyRoom("SR103", "Presentation Room", 12),
    LabEquipment("LE201", "Microscopes", "Biology"),
    LabEquipment("LE202", "Bunsen Burners", "Chemistry"),
    LabEquipment("LE203", "3D Printers", "Engineering")]

  /** An empty schedule for each resource of a catalog, filed under its id */
  function EmptySchedulesFor(rs: seq<Resource>): (m: map<string, Schedule>)
    ensures forall i :: 0 <= i < |rs| ==> rs[i].id in m
    ensures forall k :: k in m ==> m[k] == NewSchedule(k) && exists i :: 0 <= i < |rs| && rs[i].id == k
  {
    map i | 0 <= i < |rs| :: rs[i].id := NewSchedule(rs[i].id)
  }

  /** initializeDefaultData: the default catalog with an empty schedule for each resource,
      no reservations, and one administrator and two students whose ids come from the
      generator in that order */
  function InitialState(g: IdGen): (c: Campus)
    ensures c.resources == DefaultResources && c.reservations == []
    ensures forall i :: 0 <= i < |c.resources| ==> c.resources[i].id in c.schedules
    ensures forall k :: k in c.schedules ==> c.schedules[k] == NewSchedule(k)
    ensures forall k :: k in c.schedules ==> c.schedules[k].resourceId == k && !HasActiveReservations(c.schedules[k], c.reservations)
    ensures |c.users| == 3
    ensures c.users[0].username == "admin" && c.users[0].role == Administrator
    ensures c.users[1].username == "student1" && c.users[1].role == Student
    ensures c.users[2].username == "student2" && c.users[2].role == Student
    ensures c.users[0].userId == GenerateUserId(g).id
    ensures c.users[1].userId == GenerateUserId(GenerateUserId(g).gen).id
    ensures c.users[2].userId == GenerateUserId(GenerateUserId(GenerateUserId(g).gen).gen).id
    ensures c.gen == GenerateUserId(GenerateUserId(GenerateUserId(g).gen).gen).gen
  {
    var schedules := EmptySchedulesFor(DefaultResources);
    var admin := NewUser(g, "admin", Administrator);
    var s1 := NewUser(admin.gen, "student1", Student);
    var s2 := NewUser(s1.gen, "student2", Student);
    NewSchedulesAreFree(schedules, []);
    Campus(DefaultResources, [admin.user, s1.user, s2.user], [], schedules, s2.gen)
  }

  lemma NewSchedulesAreFree(schedules: map<string, Schedule>, store: seq<Reservation>)
    requires forall k :: k in schedules ==> schedules[k] == NewSchedule(k)
    ensures forall k :: k in schedules ==> !HasActiveReservations(schedules[k], store)
  {
    forall k | k in schedules
      ensures !HasActiveReservations(schedules[k], store)
    {
      NewScheduleIsFree(k, store);
    }
  }

  // ---------------------------------------------------------------- validators

  /** validateUsername: a null or blank username is invalid input */
  function ValidateUsername(username: string): (e: Option<Error>)
    ensures e.None? <==> !IsBlank(username)
    ensures e.Some? ==> e.value == InvalidInput
  {
    if Trim(username) == [] then Some(InvalidInput) else None
  }

  /** validateResourceId: a null or blank resource id is invalid input */
  function ValidateResourceId(resourceId: string): (e: Option<Error>)
    ensures e.None? <==> !IsBlank(resourceId)
    ensures e.Some? ==> e.value == InvalidInput
  {
    if Trim(resourceId) == [] then Some(InvalidInput) else None
  }

  /** validateDayIndex: days run Monday 0 to Friday 4 */
  function ValidateDayIndex(day: int): (e: Option<Error>)
    ensures e.None? <==> 0 <= day < 5
    ensures e.Some? ==> e.value == InvalidTimeSlot
  {
    if day < 0 || day >= 5 then Some(InvalidTimeSlot) else None
  }

  /** validateSlotIndex: slots run 0 (8:00-10:00) to 7 (23:00-1:00) */
  function ValidateSlotIndex(slot: int): (e: Option<Error>)
    ensures e.None? <==> 0 <= slot < 8
    ensures e.Some? ==> e.value == InvalidTimeSlot
  {
    if slot < 0 || slot >= 8 then Some(InvalidTimeSlot) else None
  }

  // ---------------------------------------------------------------- reservation ids

  /** The number n of a `RES-<n>` id; None for ids the generator skips */
  function ReservationNumber(r: Reservation): Option<int> {
    NumberedSuffix(r.id, ReservationIdPrefix)
  }

  /** The largest well-formed reservation number in the list, 0 when there is none */
  function MaxReservationNumber(rs: seq<Reservation>): (m: int)
    ensures m >= 0
    ensures forall i :: 0 <= i < |rs| && ReservationNumber(rs[i]).Some? ==> ReservationNumber(rs[i]).value <= m
    ensures m == 0 || exists i :: 0 <= i < |rs| && ReservationNumber(rs[i]) == Some(m)
    decreases |rs|
  {
    if |rs| == 0 then 0
    else
      var m := MaxReservationNumber(rs[..|rs| - 1]);
      var n := ReservationNumber(rs[|rs| - 1]);
      assert forall i :: 0 <= i < |rs| - 1 ==> rs[i] == rs[..|rs| - 1][i];
      if n.Some? && n.value > m then n.value else m
  }

  /** getNextReservationId: `RES-(max + 1)`; it reads back as that number, so it
      cannot equal any id already in the list */
  function NextReservationId(rs: seq<Reservation>): (id: string)
    ensures NumberedSuffix(id, ReservationIdPrefix) == Some(MaxReservationNumber(rs) + 1)
    ensures forall i :: 0 <= i < |rs| ==> rs[i].id != id
  {
    var n := MaxReservationNumber(rs) + 1;
    NumberedSuffixRoundTrip(ReservationIdPrefix, n);
    NumberAboveMaxIsFresh(rs, ReservationIdPrefix + IntToString(n));
    ReservationIdPrefix + IntToString(n)
  }

  /** An id reading back as a number above every number in the list is not in the list */
  lemma NumberAboveMaxIsFresh(rs: seq<Reservation>, id: string)
    requires NumberedSuffix(id, ReservationIdPrefix) == Some(MaxReservationNumber(rs) + 1)
    ensures forall i :: 0 <= i < |rs| ==> rs[i].id != id
  {
    forall i | 0 <= i < |rs|
      ensures rs[i].id != id
    {
      assert ReservationNumber(rs[i]) != Some(MaxReservationNumber(rs) + 1);
    }
  }

  // ---------------------------------------------------------------- lookups

  /** Position of the first resource with the given id */
  function ResourceIndex(c: Campus, resourceId: string): (r: Option<nat>)
    ensures r.Some? ==> r.value < |c.resources| && c.resources[r.value].id == resourceId
    ensures r.Some? ==> forall j :: 0 <= j < r.value ==> c.resources[j].id != resourceId
    ensures r.None? <==> forall j :: 0 <= j < |c.resources| ==> c.resources[j].id != resourceId
  {
    Seqs.FirstIndex(c.resources, (x: Resource) => x.id == resourceId)
  }

  /** findResource: the resource with the given id, None (null) when unknown */
  function FindResource(c: Campus, resourceId: string): (r: Option<Resource>)
    ensures r.Some? ==> r.value in c.resources && r.value.id == resourceId
    ensures r.None? <==> forall j :: 0 <= j < |c.resources| ==> c.resources[j].id != resourceId
    ensures r.Some? ==> ResourceIndex(c, resourceId).Some? && r.value == c.resources[ResourceIndex(c, resourceId).value]
  {
    match ResourceIndex(c, resourceId)
    case Some(i) => Some(c.resources[i])
    case None => None
  }

  /** Position of the first user with the given username */
  function UserIndex(c: Campus, username: string): (r: Option<nat>)
    ensures r.Some? ==> r.value < |c.users| && c.users[r.value].username == username
    ensures r.Some? ==> forall j :: 0 <= j < r.value ==> c.users[j].username != username
    ensures r.None? <==> forall j :: 0 <= j < |c.users| ==> c.users[j].username != username
  {
    Seqs.FirstIndex(c.users, (u: User) => u.username == username)
  }

  /** findUser: the user with the given username, None (null) when unknown */
  function FindUser(c: Campus, username: string): (r: Option<User>)
    ensures r.Some? ==> r.value in c.users && r.value.username == username
    ensures r.None? <==> forall j :: 0 <= j < |c.users| ==> c.users[j].username != username
    ensures r.Some? ==> UserIndex(c, username).Some? && r.value == c.users[UserIndex(c, username).value]
  {
    match UserIndex(c, username)
    case Some(i) => Some(c.users[i])
    case None => None
  }

  /** findReservation: the reservation with the given id, None (null) when unknown */
  function FindReservation(c: Campus, reservationId: string): (r: Option<Reservation>)
    ensures r.Some? ==> r.value in c.reservations && r.value.id == reservationId
    ensures r.None? <==> forall j :: 0 <= j < |c.reservations| ==> c.reservations[j].id != reservationId
    ensures r.Some? ==> (IndexOfId(c.reservations, reservationId).Some? &&
      r.value == c.reservations[IndexOfId(c.reservations, reservationId).value])
  {
    FindById(c.reservations, reservationId)
  }

  /** getSchedule: the schedule kept for a resource id, None (null) when there is none */
  function GetSchedule(c: Campus, resourceId: string): (r: Option<Schedule>)
    ensures r.Some? <==> resourceId in c.schedules
    ensures r.Some? ==> r.value == c.schedules[resourceId]
  {
    if resourceId in c.schedules then Some(c.schedules[resourceId]) else None
  }

  /** getOrCreateSchedule: the existing schedule, or a new empty one that is also
      registered; nothing else changes */
  function GetOrCreateSchedule(c: Campus, resourceId: string): (r: WithSchedule)
    ensures resourceId in c.schedules ==> r.state == c && r.schedule == c.schedules[resourceId]
    ensures resourceId !in c.schedules ==>
      r.schedule == NewSchedule(resourceId) && r.state == c.(schedules := c.schedules[resourceId := r.schedule])
  {
    if resourceId in c.schedules then WithSchedule(c, c.schedules[resourceId])
    else
      var s := NewSchedule(resourceId);
      WithSchedule(c.(schedules := c.schedules[resourceId := s]), s)
  }

  // ---------------------------------------------------------------- users

  /** isUserAdmin: the user with that name exists and may manage resources */
  function IsUserAdmin(c: Campus, username: string): (b: bool)
    ensures b <==> FindUser(c, username).Some? && FindUser(c, username).value.role == Administrator
  {
    match UserIndex(c, username)
    case Some(i) => CanManageResources(c.users[i])
    case None => false
  }

  /** addUser: rejects a blank or taken username; otherwise appends one user with the
      requested role and a freshly generated id, advancing the generator */
  function AddUser(c: Campus, username: string, isAdmin: bool): (st: Step<User>)
    ensures IsBlank(username) ==> st == Step(c, Failure(InvalidInput))
    ensures !IsBlank(username) && FindUser(c, username).Some? ==> st == Step(c, Failure(DuplicateUser))
    ensures st.result.Success? <==> !IsBlank(username) && FindUser(c, username).None?
    ensures st.result.Success? ==>
      var u := st.result.value;
      && u.username == username
      && (u.role == Administrator <==> isAdmin)
      && u.userId == GenerateUserId(c.gen).id
      && st.state == c.(users := c.users + [u], gen := GenerateUserId(c.gen).gen)
  {
    match ValidateUsername(username)
    case Some(e) => Step(c, Failure(e))
    case None =>
      if FindUser(c, username).Some? then Step(c, Failure(DuplicateUser))
      else
        var created := NewUser(c.gen, username, if isAdmin then Administrator else Student);
        Step(c.(users := c.users + [created.user], gen := created.gen), Success(created.user))
  }

  // ---------------------------------------------------------------- resources

  /** addResource: administrators only, checked first; rejects a blank or taken id;
      otherwise appends the resource and registers an empty schedule for it */
  function AddResource(c: Campus, resource: Resource, username: string): (st: Step<Resource>)
    ensures !IsUserAdmin(c, username) ==> st == Step(c, Failure(Unauthorized))
    ensures IsUserAdmin(c, username) && IsBlank(resource.id) ==> st == Step(c, Failure(InvalidInput))
    ensures IsUserAdmin(c, username) && !IsBlank(resource.id) && FindResource(c, resource.id).Some? ==>
      st == Step(c, Failure(DuplicateResource))
    ensures st.result.Success? <==>
      IsUserAdmin(c, username) && !IsBlank(resource.id) && FindResource(c, resource.id).None?
    ensures st.result.Success? ==> (st.result.value == resource &&
      st.state == c.(resources := c.resources + [resource],
                     schedules := c.schedules[resource.id := NewSchedule(resource.id)]))
  {
    if !IsUserAdmin(c, username) then Step(c, Failure(Unauthorized))
    else match ValidateResourceId(resource.id)
      case Some(e) => Step(c, Failure(e))
      case None =>
        if FindResource(c, resource.id).Some? then Step(c, Failure(DuplicateResource))
        else Step(c.(resources := c.resources + [resource],
                     schedules := c.schedules[resource.id := NewSchedule(resource.id)]), Success(resource))
  }

  /** An optional new name counts only when it is non-blank, and is stored trimmed */
  function ApplyName(r: Resource, newName: Option<string>): (r': Resource)
    ensures r'.id == r.id && r'.StudyRoom? == r.StudyRoom?
    ensures r.StudyRoom? ==> r'.capacity == r.capacity
    ensures r.LabEquipment? ==> r'.equipmentType == r.equipmentType
    ensures r'.name == if newName.Some? && !IsBlank(newName.value) then Trim(newName.value) else r.name
  {
    if newName.Some? && Trim(newName.value) != [] then SetName(r, Trim(newName.value)) else r
  }

  /** The shared prologue of the three edit operations: administrator check first, then
      the blank-id check, then the lookup; the index of the resource on success */
  function LocateForEdit(c: Campus, resourceId: string, username: string): (r: Result<nat, Error>)
    ensures !IsUserAdmin(c, username) ==> r == Failure(Unauthorized)
    ensures IsUserAdmin(c, username) && IsBlank(resourceId) ==> r == Failure(InvalidInput)
    ensures IsUserAdmin(c, username) && !IsBlank(resourceId) && FindResource(c, resourceId).None? ==>
      r == Failure(ResourceNotFound)
    ensures r.Success? <==> IsUserAdmin(c, username) && !IsBlank(resourceId) && FindResource(c, resourceId).Some?
    ensures r.Success? ==> (r.value < |c.resources| && c.resources[r.value].id == resourceId &&
      forall j :: 0 <= j < r.value ==> c.resources[j].id != resourceId)
  {
    if !IsUserAdmin(c, username) then Failure(Unauthorized)
    else match ValidateResourceId(resourceId)
      case Some(e) => Failure(e)
      case None =>
        match ResourceIndex(c, resourceId)
        case None => Failure(ResourceNotFound)
        case Some(i) => Success(i)
  }

  /** editResource: administrators only; renames the resource when a non-blank name is given */
  function EditResource(c: Campus, resourceId: string, newName: Option<string>, username: string): (st: Step<bool>)
    ensures LocateForEdit(c, resourceId, username).Failure? ==>
      st == Step(c, Failure(LocateForEdit(c, resourceId, username).error))
    ensures LocateForEdit(c, resourceId, username).Success? ==>
      var i := LocateForEdit(c, resourceId, username).value;
      st == Step(c.(resources := c.resources[i := ApplyName(c.resources[i], newName)]), Success(true))
  {
    match LocateForEdit(c, resourceId, username)
    case Failure(e) => Step(c, Failure(e))
    case Success(i) =>
      Step(c.(resources := c.resources[i := ApplyName(c.resources[i], newName)]), Success(true))
  }

  /** editStudyRoom: administrators only; equipment is rejected as invalid input; a
      non-blank name is applied, and a capacity only when it is given and positive
      (a non-positive one is silently ignored) */
  function EditStudyRoom(c: Campus, roomId: string, newName: Option<string>, newCapacity: Option<int>,
                         username: string): (st: Step<bool>)
    ensures LocateForEdit(c, roomId, username).Failure? ==>
      st == Step(c, Failure(LocateForEdit(c, roomId, username).error))
    ensures (LocateForEdit(c, roomId, username).Success? &&
      !c.resources[LocateForEdit(c, roomId, username).value].StudyRoom?) ==> st == Step(c, Failure(InvalidInput))
    ensures (LocateForEdit(c, roomId, username).Success? &&
      c.resources[LocateForEdit(c, roomId, username).value].StudyRoom?) ==> st.result == Success(true)
    ensures st.result.Success? ==> (st.result == Success(true) &&
      LocateForEdit(c, roomId, username).Success? &&
      var i := LocateForEdit(c, roomId, username).value;
      i < |st.state.resources| &&
      var old_ := c.resources[i];
      var new_ := st.state.resources[i];
      && old_.StudyRoom? && new_.StudyRoom? && new_.id == old_.id
      && new_.name == ApplyName(old_, newName).name
      && new_.capacity == (if newCapacity.Some? && newCapacity.value > 0 then newCapacity.value else old_.capacity)
      && st.state == c.(resources := c.resources[i := new_]))
  {
    match LocateForEdit(c, roomId, username)
    case Failure(e) => Step(c, Failure(e))
    case Success(i) =>
      var room := c.resources[i];
      if !room.StudyRoom? then Step(c, Failure(InvalidInput))
      else
        var named := ApplyName(room, newName);
        var sized := if newCapacity.Some? && newCapacity.value > 0 then SetCapacity(named, newCapacity.value).value else named;
        Step(c.(resources := c.resources[i := sized]), Success(true))
  }

  /** editLabEquipment: administrators only; study rooms are rejected as invalid input;
      a non-blank name and a non-blank type are applied, both trimmed */
  function EditLabEquipment(c: Campus, equipId: string, newName: Option<string>, newType: Option<string>,
                            username: string): (st: Step<bool>)
    ensures LocateForEdit(c, equipId, username).Failure? ==>
      st == Step(c, Failure(LocateForEdit(c, equipId, username).error))
    ensures (LocateForEdit(c, equipId, username).Success? &&
      !c.resources[LocateForEdit(c, equipId, username).value].LabEquipment?) ==> st == Step(c, Failure(InvalidInput))
    ensures (LocateForEdit(c, equipId, username).Success? &&
      c.resources[LocateForEdit(c, equipId, username).value].LabEquipment?) ==> st.result == Success(true)
    ensures st.result.Success? ==> (st.result == Success(true) &&
      LocateForEdit(c, equipId, username).Success? &&
      var i := LocateForEdit(c, equipId, username).value;
      i < |st.state.resources| &&
      var old_ := c.resources[i];
      var new_ := st.state.resources[i];
      && old_.LabEquipment? && new_.LabEquipment? && new_.id == old_.id
      && new_.name == ApplyName(old_, newName).name
      && new_.equipmentType == (if newType.Some? && !IsBlank(newType.value) then Trim(newType.value) else old_.equipmentType)
      && st.state == c.(resources := c.resources[i := new_]))
  {
    match LocateForEdit(c, equipId, username)
    case Failure(e) => Step(c, Failure(e))
    case Success(i) =>
      var equipment := c.resources[i];
      if !equipment.LabEquipment? then Step(c, Failure(InvalidInput))
      else
        var named := ApplyName(equipment, newName);
        var typed :=
          if newType.Some? && Trim(newType.value) != [] then
            TrimIdempotent(newType.value);
            SetEquipmentType(named, Trim(newType.value)).value
          else named;
        Step(c.(resources := c.resources[i := typed]), Success(true))
  }

  /** hasActiveReservations (directory level): some active reservation targets the resource */
  function HasActiveReservationsFor(c: Campus, resourceId: string): (b: bool)
    ensures b <==> exists i :: (0 <= i < |c.reservations| &&
      c.reservations[i].resourceId == resourceId && c.reservations[i].active)
  {
    Seqs.FirstIndex(c.reservations, (r: Reservation) => r.resourceId == resourceId && r.active).Some?
  }

  /** removeResource: administrators only; rejects a blank or unknown id; refuses, as
      invalid input, while an active reservation targets the resource; otherwise drops
      the resource and its schedule and keeps every reservation */
  function RemoveResource(c: Campus, resourceId: string, username: string): (st: Step<bool>)
    ensures LocateForEdit(c, resourceId, username).Failure? ==>
      st == Step(c, Failure(LocateForEdit(c, resourceId, username).error))
    ensures LocateForEdit(c, resourceId, username).Success? && HasActiveReservationsFor(c, resourceId) ==>
      st == Step(c, Failure(InvalidInput))
    ensures st.result.Success? <==>
      LocateForEdit(c, resourceId, username).Success? && !HasActiveReservationsFor(c, resourceId)
    ensures st.result.Success? ==>
      var i := LocateForEdit(c, resourceId, username).value;
      st == Step(c.(resources := c.resources[..i] + c.resources[i + 1..], schedules := c.schedules - {resourceId}),
                 Success(true))
  {
    match LocateForEdit(c, resourceId, username)
    case Failure(e) => Step(c, Failure(e))
    case Success(i) =>
      if HasActiveReservationsFor(c, resourceId) then Step(c, Failure(InvalidInput))
      else Step(c.(resources := c.resources[..i] + c.resources[i + 1..],
                   schedules := c.schedules - {resourceId}), Success(true))
  }

  // ---------------------------------------------------------------- reservations

  /** The name-based admin guess used only when a booking registers an unknown user */
  predicate NameLooksAdmin(username: string) {
    EqualsIgnoreCase(username, "admin") || EqualsIgnoreCase(username, "administrator")
  }

  /** The user registration a booking performs for an unknown username; a known
      username leaves the state as it is */
  function AutoProvision(c: Campus, username: string): (c': Campus)
    ensures FindUser(c, username).Some? ==> c' == c
    ensures FindUser(c, username).None? && !IsBlank(username) ==>
      c' == AddUser(c, username, NameLooksAdmin(username)).state &&
      c'.users == c.users + [AddUser(c, username, NameLooksAdmin(username)).result.value]
    ensures c'.resources == c.resources && c'.reservations == c.reservations && c'.schedules == c.schedules
  {
    if FindUser(c, username).None? then AddUser(c, username, NameLooksAdmin(username)).state else c
  }

  /** The cell is actively booked in the resource's schedule, judged against the store */
  predicate CellTaken(c: Campus, resourceId: string, day: int, slot: int)
    requires InBounds(day, slot)
  {
    resourceId in c.schedules && Occupied(c.schedules[resourceId], c.reservations, day, slot)
  }

  /** The booking step of makeReservation once the user and the resource are known:
      a conflict when the cell is actively booked (state unchanged), otherwise one new
      active reservation with the next id, appended to the list and written into its
      cell, with every other cell and every other schedule left as it was */
  function BookCell(c: Campus, resource: Resource, username: string, day: int, slot: int): (st: Step<Reservation>)
    requires InBounds(day, slot)
    ensures CellTaken(c, resource.id, day, slot) ==> st == Step(c, Failure(ReservationConflict))
    ensures st.result.Success? <==> !CellTaken(c, resource.id, day, slot)
    ensures st.result.Success? ==>
      var r := st.result.value;
      var before := if resource.id in c.schedules then c.schedules[resource.id] else NewSchedule(resource.id);
      && r.active && r.resourceId == resource.id && r.username == username && r.day == day && r.slot == slot
      && r.id == NextReservationId(c.reservations)
      && st.state.reservations == c.reservations + [r]
      && st.state.resources == c.resources && st.state.users == c.users && st.state.gen == c.gen
      && resource.id in st.state.schedules
      && st.state.schedules == c.schedules[resource.id := st.state.schedules[resource.id]]
      && st.state.schedules[resource.id].resourceId == before.resourceId
      && st.state.schedules[resource.id].cells[day][slot] == Some(r.id)
      && forall d, sl :: InBounds(d, sl) && (d != day || sl != slot) ==>
           st.state.schedules[resource.id].cells[d][sl] == before.cells[d][sl]
  {
    var found := GetOrCreateSchedule(c, resource.id);
    var c2 := found.state;
    assert c2.reservations == c.reservations;
    if HasReservationAt(found.schedule, c2.reservations, day, slot).value then
      Step(c2, Failure(ReservationConflict))
    else
      var id := NextReservationId(c2.reservations);
      if FindReservation(c2, id).Some? then Step(c2, Failure(DuplicateReservation))
      else
        var r := NewReservation(id, resource.id, username, day, slot);
        var booked := AddReservation(found.schedule, day, slot, id).value;
        Step(c2.(schedules := c2.schedules[resource.id := booked], reservations := c2.reservations + [r]),
             Success(r))
  }

  /** makeReservation. Checks, in order: blank username, blank resource id, day, slot;
      then registers an unknown user (which survives any later failure); then the
      resource must exist and the cell must not be actively booked. On success exactly
      one new active reservation, with the next `RES-<n>` id, is appended and written
      into its cell; nothing else changes. */
  function MakeReservation(c: Campus, resourceId: string, username: string, day: int, slot: int): (st: Step<Reservation>)
    ensures IsBlank(username) ==> st == Step(c, Failure(InvalidInput))
    ensures !IsBlank(username) && IsBlank(resourceId) ==> st == Step(c, Failure(InvalidInput))
    ensures !IsBlank(username) && !IsBlank(resourceId) && !(0 <= day < 5) ==> st == Step(c, Failure(InvalidTimeSlot))
    ensures !IsBlank(username) && !IsBlank(resourceId) && 0 <= day < 5 && !(0 <= slot < 8) ==>
      st == Step(c, Failure(InvalidTimeSlot))
    ensures !IsBlank(username) && !IsBlank(resourceId) && InBounds(day, slot) && FindResource(c, resourceId).None? ==>
      st == Step(AutoProvision(c, username), Failure(ResourceNotFound))
    ensures !IsBlank(username) && !IsBlank(resourceId) && InBounds(day, slot) && FindResource(c, resourceId).Some? ==>
      FindResource(c, resourceId).value.id == resourceId &&
      st == BookCell(AutoProvision(c, username), FindResource(c, resourceId).value, username, day, slot)
  {
    match ValidateUsername(username)
    case Some(e) => Step(c, Failure(e))
    case None =>
    match ValidateResourceId(resourceId)
    case Some(e) => Step(c, Failure(e))
    case None =>
    match ValidateDayIndex(day)
    case Some(e) => Step(c, Failure(e))
    case None =>
    match ValidateSlotIndex(slot)
    case Some(e) => Step(c, Failure(e))
    case None =>
      var c1 := AutoProvision(c, username);
      match FindResource(c1, resourceId)
      case None => Step(c1, Failure(ResourceNotFound))
      case Some(resource) => BookCell(c1, resource, username, day, slot)
  }

  /** What a booking that passed validation does, stated against the state before it:
      it fails with a conflict exactly when the cell is actively booked, and on success
      the new reservation's id is not already in the list */
  lemma MakeReservationOutcome(c: Campus, resourceId: string, username: string, day: int, slot: int)
    requires !IsBlank(username) && !IsBlank(resourceId) && InBounds(day, slot) && FindResource(c, resourceId).Some?
    ensures var st := MakeReservation(c, resourceId, username, day, slot);
      && (CellTaken(c, resourceId, day, slot) ==> st == Step(AutoProvision(c, username), Failure(ReservationConflict)))
      && (st.result.Success? <==> !CellTaken(c, resourceId, day, slot))
      && (st.result.Success? ==>
            && st.result.value.id == NextReservationId(c.reservations)
            && (forall i :: 0 <= i < |c.reservations| ==> c.reservations[i].id != st.result.value.id)
            && st.state.reservations == c.reservations + [st.result.value]
            && st.state.users == AutoProvision(c, username).users)
  {
    var p := AutoProvision(c, username);
    assert p.reservations == c.reservations && p.schedules == c.schedules;
    assert CellTaken(p, resourceId, day, slot) == CellTaken(c, resourceId, day, slot);
  }

  /** cancelReservation. Checks, in order: blank reservation id, blank username, unknown
      id, then owner-or-administrator. On success the reservation's cell is emptied (when
      its resource still has a schedule) and the reservation is marked cancelled; the
      reservation stays in the list. It does not check whether the reservation was
      already cancelled. */
  function CancelReservation(c: Campus, reservationId: string, username: string): (st: Step<Reservation>)
    ensures IsBlank(reservationId) ==> st == Step(c, Failure(InvalidInput))
    ensures !IsBlank(reservationId) && IsBlank(username) ==> st == Step(c, Failure(InvalidInput))
    ensures !IsBlank(reservationId) && !IsBlank(username) && FindReservation(c, reservationId).None? ==>
      st == Step(c, Failure(ResourceNotFound))
    ensures (!IsBlank(reservationId) && !IsBlank(username) && FindReservation(c, reservationId).Some? &&
      FindReservation(c, reservationId).value.username != username && !IsUserAdmin(c, username)) ==>
      st == Step(c, Failure(Unauthorized))
    ensures st.result.Failure? ==> st.state == c
    ensures st.result.Success? <==>
      && !IsBlank(reservationId) && !IsBlank(username) && FindReservation(c, reservationId).Some?
      && var r := FindReservation(c, reservationId).value;
      && (r.username == username || IsUserAdmin(c, username))
      && (r.resourceId in c.schedules ==> InBounds(r.day, r.slot))
    ensures st.result.Success? ==> IndexOfId(c.reservations, reservationId).Some?
    ensures st.result.Success? ==>
      var i := IndexOfId(c.reservations, reservationId).value;
      var r := c.reservations[i];
      && !IsBlank(reservationId) && !IsBlank(username)
      && (r.username == username || IsUserAdmin(c, username))
      && st.result.value == Cancel(r)
      && st.state.reservations == c.reservations[i := Cancel(r)]
      && st.state.resources == c.resources && st.state.users == c.users && st.state.gen == c.gen
      && (r.resourceId !in c.schedules ==> st.state.schedules == c.schedules)
      && (r.resourceId in c.schedules ==>
           && InBounds(r.day, r.slot)
           && r.resourceId in st.state.schedules
           && st.state.schedules == c.schedules[r.resourceId := st.state.schedules[r.resourceId]]
           && st.state.schedules[r.resourceId].resourceId == c.schedules[r.resourceId].resourceId
           && st.state.schedules[r.resourceId].cells[r.day][r.slot].None?
           && forall d, sl :: InBounds(d, sl) && (d != r.day || sl != r.slot) ==>
                st.state.schedules[r.resourceId].cells[d][sl] == c.schedules[r.resourceId].cells[d][sl])
  {
    if Trim(reservationId) == [] then Step(c, Failure(InvalidInput))
    else match ValidateUsername(username)
      case Some(e) => Step(c, Failure(e))
      case None =>
      match IndexOfId(c.reservations, reservationId)
      case None => Step(c, Failure(ResourceNotFound))
      case Some(i) =>
        var r := c.reservations[i];
        var isOwner := r.username == username;
        var isAdmin := IsUserAdmin(c, username);
        if !isOwner && !isAdmin then Step(c, Failure(Unauthorized))
        else
          match GetSchedule(c, r.resourceId)
          case None =>
            Step(c.(reservations := c.reservations[i := Cancel(r)]), Success(Cancel(r)))
          case Some(schedule) =>
            match RemoveReservation(schedule, r.day, r.slot)
            case Failure(e) => Step(c, Failure(e))
            case Success(cleared) =>
              Step(c.(schedules := c.schedules[r.resourceId := cleared],
                      reservations := c.reservations[i := Cancel(r)]), Success(Cancel(r)))
  }

  /** cancelReservation as evidently intended: the same checks and the same result,
      but the cell is emptied only while the reservation is still active, so that
      cancelling an already-cancelled reservation changes nothing. The as-written
      version would empty the cell even when a later booking has taken it over. */
  function CancelReservationChecked(c: Campus, reservationId: string, username: string): (st: Step<Reservation>)
    ensures st.result.Failure? ==> st == CancelReservation(c, reservationId, username)
    ensures st.result.Success? <==> CancelReservation(c, reservationId, username).result.Success?
    ensures st.result.Success? ==>
      && IndexOfId(c.reservations, reservationId).Some?
      && var r := c.reservations[IndexOfId(c.reservations, reservationId).value];
      && st.result.value == Cancel(r)
      && (r.active ==> st == CancelReservation(c, reservationId, username))
      && (!r.active ==> st.state == c)
  {
    var asWritten := CancelReservation(c, reservationId, username);
    match asWritten.result
    case Failure(_) => asWritten
    case Success(cancelled) =>
      var i := IndexOfId(c.reservations, reservationId).value;
      if c.reservations[i].active then asWritten
      else
        CancelIsOneWay(c.reservations[i]);
        Step(c, Success(cancelled))
  }

  // ---------------------------------------------------------------- availability and queries

  /** isResourceAvailable: no schedule, or a schedule without any occupied cell */
  function IsResourceAvailable(c: Campus, resourceId: string): (b: bool)
    ensures b <==> (resourceId !in c.schedules ||
      forall d, sl :: InBounds(d, sl) ==> !Occupied(c.schedules[resourceId], c.reservations, d, sl))
  {
    match GetSchedule(c, resourceId)
    case None => true
    case Some(s) => !HasActiveReservations(s, c.reservations)
  }

  /** isTimeSlotAvailable: true without a schedule (whatever the indices); otherwise an
      index outside the grid throws, and the answer is whether the cell is unoccupied */
  function IsTimeSlotAvailable(c: Campus, resourceId: string, day: int, slot: int): (r: Result<bool, Error>)
    ensures resourceId !in c.schedules ==> r == Success(true)
    ensures resourceId in c.schedules ==> (r.Success? <==> InBounds(day, slot))
    ensures r.Failure? ==> r.error == IndexOutOfBounds
    ensures resourceId in c.schedules && InBounds(day, slot) ==>
      r == Success(!CellTaken(c, resourceId, day, slot))
  {
    match GetSchedule(c, resourceId)
    case None => Success(true)
    case Some(s) =>
      match HasReservationAt(s, c.reservations, day, slot)
      case Failure(e) => Failure(e)
      case Success(b) => Success(!b)
  }

  /** getUserReservations: the user's active reservations, in list order (Seqs.FilterAppend) */
  function GetUserReservations(c: Campus, username: string): (rs: seq<Reservation>)
    ensures forall i :: 0 <= i < |rs| ==> rs[i] in c.reservations && rs[i].username == username && rs[i].active
    ensures forall i :: 0 <= i < |c.reservations| && c.reservations[i].username == username && c.reservations[i].active ==>
      c.reservations[i] in rs
  {
    Seqs.Filter(c.reservations, (r: Reservation) => r.username == username && r.active)
  }

  /** getResourceReservations: the resource's active reservations, in list order (Seqs.FilterAppend) */
  function GetResourceReservations(c: Campus, resourceId: string): (rs: seq<Reservation>)
    ensures forall i :: 0 <= i < |rs| ==> rs[i] in c.reservations && rs[i].resourceId == resourceId && rs[i].active
    ensures forall i :: 0 <= i < |c.reservations| && c.reservations[i].resourceId == resourceId && c.reservations[i].active ==>
      c.reservations[i] in rs
  {
    Seqs.Filter(c.reservations, (r: Reservation) => r.resourceId == resourceId && r.active)
  }

  /** searchByName: case-insensitive substring match on the name; a blank query finds nothing */
  function SearchByName(c: Campus, query: string): (rs: seq<Resource>)
    ensures IsBlank(query) ==> rs == []
    ensures forall i :: 0 <= i < |rs| ==> rs[i] in c.resources && Contains(ToLower(rs[i].name), Trim(ToLower(query)))
    ensures !IsBlank(query) ==> forall i :: (0 <= i < |c.resources| &&
      Contains(ToLower(c.resources[i].name), Trim(ToLower(query)))) ==> c.resources[i] in rs
  {
    if Trim(query) == [] then []
    else
      var q := Trim(ToLower(query));
      Seqs.Filter(c.resources, (r: Resource) => Contains(ToLower(r.name), q))
  }

  /** filterByType: case-insensitive whole-tag match; a blank query finds nothing */
  function FilterByType(c: Campus, typeName: string): (rs: seq<Resource>)
    ensures IsBlank(typeName) ==> rs == []
    ensures forall i :: 0 <= i < |rs| ==> rs[i] in c.resources && ToLower(ResourceType(rs[i])) == Trim(ToLower(typeName))
    ensures !IsBlank(typeName) ==> forall i :: (0 <= i < |c.resources| &&
      ToLower(ResourceType(c.resources[i])) == Trim(ToLower(typeName))) ==> c.resources[i] in rs
  {
    if Trim(typeName) == [] then []
    else
      var t := Trim(ToLower(typeName));
      Seqs.Filter(c.resources, (r: Resource) => ToLower(ResourceType(r)) == t)
  }

  /** filterByAvailability: the resources whose availability equals the flag */
  function FilterByAvailability(c: Campus, available: bool): (rs: seq<Resource>)
    ensures forall i :: 0 <= i < |rs| ==> rs[i] in c.resources && IsResourceAvailable(c, rs[i].id) == available
    ensures forall i :: 0 <= i < |c.resources| && IsResourceAvailable(c, c.resources[i].id) == available ==>
      c.resources[i] in rs
  {
    Seqs.Filter(c.resources, (r: Resource) => IsResourceAvailable(c, r.id) == available)
  }

  /** searchByPartialId: case-insensitive substring match on the id; a blank query finds nothing */
  function SearchByPartialId(c: Campus, partialId: string): (rs: seq<Resource>)
    ensures IsBlank(partialId) ==> rs == []
    ensures forall i :: 0 <= i < |rs| ==> rs[i] in c.resources && Contains(ToLower(rs[i].id), Trim(ToLower(partialId)))
    ensures !IsBlank(partialId) ==> forall i :: (0 <= i < |c.resources| &&
      Contains(ToLower(c.resources[i].id), Trim(ToLower(partialId)))) ==> c.resources[i] in rs
  {
    if Trim(partialId) == [] then []
    else
      var q := Trim(ToLower(partialId));
      Seqs.Filter(c.resources, (r: Resource) => Contains(ToLower(r.id), q))
  }

  /** filterStudyRoomsByMinCapacity: the study rooms holding at least minCapacity people */
  function FilterStudyRoomsByMinCapacity(c: Campus, minCapacity: int): (rs: seq<Resource>)
    ensures forall i :: 0 <= i < |rs| ==> rs[i] in c.resources && rs[i].StudyRoom? && rs[i].capacity >= minCapacity
    ensures forall i :: 0 <= i < |c.resources| && c.resources[i].StudyRoom? && c.resources[i].capacity >= minCapacity ==>
      c.resources[i] in rs
  {
    Seqs.Filter(c.resources, (r: Resource) => ResourceType(r) == "Study Room" && r.capacity >= minCapacity)
  }

  /** filterLabEquipmentByType: case-insensitive substring match on the equipment type;
      a blank query finds nothing */
  function FilterLabEquipmentByType(c: Campus, equipmentType: string): (rs: seq<Resource>)
    ensures IsBlank(equipmentType) ==> rs == []
    ensures forall i :: 0 <= i < |rs| ==> (rs[i] in c.resources && rs[i].LabEquipment? &&
      Contains(ToLower(rs[i].equipmentType), Trim(ToLower(equipmentType))))
    ensures !IsBlank(equipmentType) ==> forall i :: (0 <= i < |c.resources| && c.resources[i].LabEquipment? &&
      Contains(ToLower(c.resources[i].equipmentType), Trim(ToLower(equipmentType)))) ==> c.resources[i] in rs
  {
    if Trim(equipmentType) == [] then []
    else
      var t := Trim(ToLower(equipmentType));
      Seqs.Filter(c.resources, (r: Resource) => ResourceType(r) == "Lab Equipment" && Contains(ToLower(r.equipmentType), t))
  }

  // ---------------------------------------------------------------- reload

  /** The part of loadFromFile that is not I/O: the loaded directory keeps every entity,
      and the process's user-id generator is re-seeded from the loaded users */
  function Load(loaded: Campus, processGen: IdGen): (c: Campus)
    ensures c.resources == loaded.resources && c.users == loaded.users
    ensures c.reservations == loaded.reservations && c.schedules == loaded.schedules
    ensures c.gen == UpdateFromLoadedUsers(processGen, loaded.users)
  {
    loaded.(gen := UpdateFromLoadedUsers(processGen, loaded.users))
  }
}
