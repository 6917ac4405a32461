# Campus reservation engine in Dafny

A functional model of the reservation engine of a campus-booking system, with proofs
about it. The engine is the `CampusSystem` directory together with the entities it
manages:

- `ResourceSchedule`, the per-resource 5 x 8 weekly grid;
- `Reservation`;
- the `CampusResource` variants `StudyRoom` and `LabEquipment`;
- `User` with its roles `Administrator` and `Student`.

The directory does four things:

- it guards catalog changes with an administrator check;
- it lets only the owner or an administrator cancel a reservation;
- it books the fixed weekly grid with conflict detection;
- it issues `RES-<n>` and `USER-<n>` identifiers.

## Modules

| file | module | contents |
|---|---|---|
| wrappers.dfy | `Wrappers` | `Option` (a Java `null`) and `Result` (a value or a thrown exception) |
| exceptions.dfy | `Exceptions` | one constructor per exception class the engine throws |
| text.dfy | `Text` | the `java.lang.String` operations used: `trim`, blank test, ASCII `toLowerCase`, `contains`, `startsWith`, integer rendering and `Integer.parseInt` |
| seqs.dfy | `Seqs` | the find-first and filter loops over lists |
| reservations.dfy | `Reservations` | the reservation record, `cancel`, the day and slot name tables, lookup by id |
| resources.dfy | `Resources` | the two resource variants, their constructors, setters, type tag and details string |
| users.dfy | `Users` | roles, the user-id generator, re-seeding after a load |
| schedules.dfy | `Schedules` | the bounds-checked 5 x 8 grid |
| campus.dfy | `CampusSystem` | the directory state and every operation of `CampusSystem` |
| campus_invariant.dfy | `CampusInvariant` | the consistency invariant, no double booking, preservation by every operation |
| campus_properties.dfy | `CampusProperties` | runs of operations from the default data, the reservation history, the re-cancellation defect, the queries |

### How the Java object graph is represented

- **Directory state.** It is an immutable record `Campus(resources, users,
  reservations, schedules, gen)`.
- **Operation results.** A mutating operation returns `Step(state, result)`: the state
  it leaves behind, plus either its return value or the exception it threw. A booking
  can fail after it has already registered a new user, so a failure does not always
  leave the state untouched.
- **Schedules.** In Java a schedule cell and the reservation list share one
  `Reservation` object. Here a cell holds the reservation's id (`Option<string>`), and
  the reservation list is the one store of reservations. A cell is *occupied* when the
  reservation its id names is in the store and still active. This matches what
  `hasReservationAt` sees through the shared object.
- **Schedule lookup.** The schedule list is a map from resource id to grid. `getSchedule`
  returns the first schedule whose resource id matches. The invariant keeps one schedule
  per id, filed under that id, so a map gives the same answer.
- **User-id counters.** The process-wide `userCounter` and `lastSavedMaxId` are an
  explicit `IdGen` value inside the state.
- **Reservation's resource.** A reservation keeps the id of its resource, not the
  resource object. `getResourceId` returns that id, and an id never changes after
  construction, so the two agree.

## Model

| member | source | states |
|---|---|---|
| CampusSystem.InitialState | CampusSystem.java:28-48 | the default catalog is SR101/SR102/SR103 (capacities 20, 8, 12) and LE201/LE202/LE203 (Biology, Chemistry, Engineering); each has an empty schedule filed under its id, and no cell is occupied; there are no reservations; the users are admin (Administrator), student1 and student2 (Student), with ids from three successive generator calls |
| CampusInvariant.InitialStateSatisfiesInv | CampusSystem.java:28-48 | the default data satisfies the directory invariant (unique ids and usernames, valid resources, one schedule per catalog entry, list and grid agree, issued user ids accounted for), whatever the generator state |
| CampusSystem.ValidateUsername | CampusSystem.java:53-57 | passes exactly for a non-blank username; otherwise InvalidInput |
| CampusSystem.ValidateResourceId | CampusSystem.java:60-64 | passes exactly for a non-blank resource id; otherwise InvalidInput |
| CampusSystem.ValidateDayIndex | CampusSystem.java:67-72 | passes exactly for day 0..4; otherwise InvalidTimeSlot |
| CampusSystem.ValidateSlotIndex | CampusSystem.java:75-80 | passes exactly for slot 0..7; otherwise InvalidTimeSlot |
| CampusSystem.MaxReservationNumber | CampusSystem.java:83-96 | is at least 0 and at least every well-formed `RES-` number in the list; it is 0 or the number of some listed id |
| CampusSystem.NextReservationId | CampusSystem.java:83-98 | reads back as max + 1, and differs from every id already in the list |
| CampusSystem.FindResource | CampusSystem.java:103-110 | a found resource is the first catalog entry with that id (the one ResourceIndex locates); None exactly when no catalog entry has the id |
| CampusSystem.FindUser | CampusSystem.java:113-120 | a found user is the first one in the list with that name (the one UserIndex locates); None exactly when nobody has the name |
| CampusSystem.FindReservation | CampusSystem.java:123-130 | a found reservation is the first one in the list with that id (the one Reservations.IndexOfId locates); None exactly when no reservation has the id |
| CampusSystem.GetSchedule | CampusSystem.java:133-140 | Some exactly when a schedule is kept for the id, and then it is that schedule |
| CampusSystem.GetOrCreateSchedule | CampusSystem.java:143-150 | an existing schedule is returned with the state unchanged; otherwise a new empty schedule is returned and registered, and nothing else changes |
| CampusSystem.IsUserAdmin | CampusSystem.java:155-158 | true exactly when a user with that name exists and has the Administrator role |
| CampusSystem.AddUser | CampusSystem.java:161-175 | a blank name gives InvalidInput and a taken name gives DuplicateUser, both with no change; success exactly otherwise, with one user appended (that name, Administrator iff isAdmin, a freshly generated id) and the generator advanced |
| CampusInvariant.AddUserIdIsFresh | CampusSystem.java:161-175 | the id of a user added to a consistent directory differs from every existing user's id |
| CampusInvariant.AddUserPreservesInv | CampusSystem.java:161-175 | addUser keeps the directory invariant |
| CampusSystem.AddResource | CampusSystem.java:190-211 | a non-administrator gets Unauthorized before any other check; then a blank id gives InvalidInput and a taken id gives DuplicateResource, each with no change; success exactly otherwise, with the resource appended and an empty schedule registered under its id |
| CampusInvariant.AddResourcePreservesInv | CampusSystem.java:190-211 | adding a constructed (valid) resource keeps the directory invariant |
| CampusSystem.LocateForEdit | CampusSystem.java:217-227 | the shared check order of the edit and remove operations: not administrator gives Unauthorized, then a blank id gives InvalidInput, then an unknown id gives ResourceNotFound; otherwise the index of the first resource with that id |
| CampusSystem.ApplyName | CampusSystem.java:229-232 | a non-blank new name is stored trimmed; otherwise the name is kept; id, variant and variant field never change |
| CampusSystem.EditResource | CampusSystem.java:214-235 | a failed check changes nothing; otherwise only the located resource's name changes, as described for ApplyName |
| CampusInvariant.EditResourcePreservesInv | CampusSystem.java:214-235 | editResource keeps the directory invariant |
| CampusSystem.EditStudyRoom | CampusSystem.java:238-275 | a failed check changes nothing; equipment gives InvalidInput with no change; an administrator's edit of an existing study room always succeeds, and then only that room changes: the name as in ApplyName, and the capacity only when a positive one is given (a non-positive one is silently ignored) |
| CampusInvariant.EditStudyRoomPreservesInv | CampusSystem.java:238-275 | editStudyRoom keeps the directory invariant, in particular every capacity stays positive |
| CampusSystem.EditLabEquipment | CampusSystem.java:278-315 | a failed check changes nothing; a study room gives InvalidInput with no change; an administrator's edit of existing lab equipment always succeeds, and then only that item changes: the name as in ApplyName, and the type replaced by the trimmed value when a non-blank one is given |
| CampusInvariant.EditLabEquipmentPreservesInv | CampusSystem.java:278-315 | editLabEquipment keeps the directory invariant |
| CampusSystem.HasActiveReservationsFor | CampusSystem.java:349-357 | true exactly when some active reservation in the list targets the resource |
| CampusSystem.RemoveResource | CampusSystem.java:318-346 | a failed check changes nothing; an active reservation on the resource gives InvalidInput with no change; success exactly otherwise, removing that catalog entry and its schedule and keeping every reservation |
| CampusInvariant.RemoveResourcePreservesInv | CampusSystem.java:318-346 | removeResource keeps the directory invariant, so no active reservation is left pointing at a removed resource |
| CampusSystem.AutoProvision | CampusSystem.java:374-386 | a known user leaves the state as it is; an unknown non-blank one is registered through addUser, as Administrator when the name is "admin" or "administrator" in any case; the catalog, reservations and schedules are untouched |
| CampusSystem.BookCell | CampusSystem.java:394-420 | an actively booked cell gives ReservationConflict with no change; otherwise success, appending one active reservation with the next id for that resource, user, day and slot; that id is written into its cell, every other cell and schedule is unchanged, and users and catalog are unchanged |
| CampusSystem.MakeReservation | CampusSystem.java:362-421 | checks run in order: blank username, blank resource id (both InvalidInput), day, then slot (both InvalidTimeSlot), each with no change; then an unknown user is registered; an unknown resource gives ResourceNotFound, keeping that registration; otherwise the outcome is BookCell's |
| CampusSystem.MakeReservationOutcome | CampusSystem.java:389-420 | after validation, against the state before the call: a conflict exactly when the cell is actively booked; on success the new id is new to the list and exactly that reservation is appended |
| CampusInvariant.MakeReservationPreservesInv | CampusSystem.java:362-421 | makeReservation keeps the directory invariant, whatever its outcome |
| CampusInvariant.BookCellPreservesInv | CampusSystem.java:394-420 | the booking step keeps the directory invariant |
| CampusSystem.CancelReservation | CampusSystem.java:424-458 | checks run in order: blank id, blank username (both InvalidInput), unknown id (ResourceNotFound), then neither owner nor administrator (Unauthorized); a failure changes nothing; on success that entry becomes its cancelled form and stays in the list, the cell is emptied when the resource still has a schedule, and nothing else changes; it does not look at whether the reservation was already cancelled |
| CampusInvariant.CancelActivePreservesInv | CampusSystem.java:424-458 | the operation as written keeps the directory invariant when the targeted reservation is still active |
| CampusProperties.OwnerCancels | CampusSystem.java:440-457 | in a consistent directory, the owner's cancellation of any listed reservation succeeds; it marks exactly that entry cancelled and empties its cell, whatever the cell held |
| CampusSystem.CancelReservationChecked | CampusSystem.java:424-458 | the corrected cancellation: the same failures and the same returned value; it acts like the original on an active reservation, and leaves the directory unchanged for one already cancelled |
| CampusInvariant.CancelCheckedPreservesInv | CampusSystem.java:424-458 | the corrected cancellation keeps the directory invariant whatever it targets |
| CampusProperties.CancelCheckedTwiceIsOnce | CampusSystem.java:424-458 | repeating a successful corrected cancellation succeeds again, returns the same value and changes nothing |
| CampusProperties.RecancelDoubleBooks | CampusSystem.java:448-455 | with the operation as written, in any consistent directory with a free cell of a catalog resource: book, cancel, another user books the cell, the first reservation is cancelled again, a third user books the cell; every step succeeds, the second cancellation leaves list and grid inconsistent, and two active reservations end up holding the same cell |
| CampusSystem.IsResourceAvailable | CampusSystem.java:463-466 | true exactly when the resource has no schedule or none of its cells is occupied |
| CampusSystem.IsTimeSlotAvailable | CampusSystem.java:469-472 | true without a schedule, whatever the indices; otherwise IndexOutOfBounds outside the grid, and inside it true exactly when the cell is not actively booked |
| CampusProperties.BookFreeCell | CampusSystem.java:362-421 | in a consistent directory a validated booking of a free cell of a catalog resource succeeds, keeps the invariant and the catalog, and appends exactly one active reservation for that user, resource, day and slot, with a non-blank id |
| CampusProperties.BookingSucceedsIffCellFree | CampusSystem.java:362-421 | in a consistent directory a validated booking of a catalog resource succeeds exactly when no active reservation in the list holds that cell, and isTimeSlotAvailable predicts the outcome |
| CampusSystem.GetUserReservations | CampusSystem.java:475-484 | exactly the user's active reservations: each one listed is from the list, and every matching one is listed; the order follows the list, as Seqs.FilterAppend states for the underlying filter |
| CampusProperties.UserReservationsAfterBooking | CampusSystem.java:475-484 | a successful booking extends the booker's list of active reservations by exactly the new reservation, at the end |
| CampusSystem.GetResourceReservations | CampusSystem.java:487-496 | exactly the resource's active reservations: each one listed is from the list, and every matching one is listed; the order follows the list, as Seqs.FilterAppend states for the underlying filter |
| CampusProperties.ScheduleListingMatchesReservationList | CampusSystem.java:487-496 | in a consistent directory the schedule's getAllReservations and the directory's getResourceReservations name the same reservations |
| CampusSystem.SearchByName | CampusSystem.java:501-512 | a blank query finds nothing; otherwise exactly the resources whose lower-cased name contains the lower-cased, trimmed query |
| CampusSystem.FilterByType | CampusSystem.java:515-526 | a blank query finds nothing; otherwise exactly the resources whose lower-cased type tag equals the lower-cased, trimmed query |
| CampusProperties.FilterByStudyRoomType | CampusSystem.java:515-526 | filtering by "Study Room" selects exactly the study rooms |
| CampusSystem.FilterByAvailability | CampusSystem.java:529-537 | exactly the resources whose availability equals the flag |
| CampusSystem.SearchByPartialId | CampusSystem.java:540-551 | a blank query finds nothing; otherwise exactly the resources whose lower-cased id contains the lower-cased, trimmed query |
| CampusSystem.FilterStudyRoomsByMinCapacity | CampusSystem.java:554-565 | exactly the study rooms whose capacity is at least the minimum |
| CampusSystem.FilterLabEquipmentByType | CampusSystem.java:568-582 | a blank query finds nothing; otherwise exactly the lab equipment whose lower-cased type contains the lower-cased, trimmed query |
| CampusSystem.Load | CampusSystem.java:678-685 | a loaded directory keeps every entity, and the process generator is re-seeded from the loaded users |
| CampusInvariant.LoadEstablishesInv | CampusSystem.java:678-685 | reloading consistent data gives a directory that satisfies the full invariant, so no loaded user id is issued again |
| CampusInvariant.NoDoubleBooking | CampusSystem.java:394-401 | in a consistent directory, two different active reservations never hold the same cell |
| CampusInvariant.CellTakenIffActiveReservation | CampusSystem.java:398 | in a consistent directory a cell is actively booked in its schedule exactly when some active reservation in the list is for that cell |
| CampusProperties.RunPreservesInv | CampusSystem.java:161-458 | every sequence of operations (with the corrected cancellation) keeps the directory invariant |
| CampusProperties.ReachableNeverDoubleBooks | CampusSystem.java:362-421 | no state reachable from the default data by a sequence of operations (with the corrected cancellation) holds two active reservations for one cell; with the cancellation as written this fails, see RecancelDoubleBooks |
| CampusProperties.RunKeepsHistory | CampusSystem.java:418 | along any sequence of operations the reservation list only grows, and each earlier entry stays as it was or becomes its cancelled form |
| Schedules.ValidateIndices | ResourceSchedule.java:103-112 | passes exactly for day 0..4 and slot 0..7; otherwise IndexOutOfBounds |
| Schedules.NewSchedule | ResourceSchedule.java:20-23 | a grid for the given resource id with every cell empty |
| Schedules.NewScheduleIsFree | ResourceSchedule.java:54-63 | a new schedule has no occupied cell, so hasActiveReservations is false, whatever the store holds |
| Schedules.AddReservation | ResourceSchedule.java:29-32 | fails exactly outside the grid; otherwise that cell holds the id and no other cell changes |
| Schedules.RemoveReservation | ResourceSchedule.java:35-38 | fails exactly outside the grid; otherwise that cell is empty and no other cell changes |
| Schedules.GetReservation | ResourceSchedule.java:41-44 | fails exactly outside the grid |
| Schedules.GetAfterAddAndRemove | ResourceSchedule.java:29-44 | reading a cell back gives what addReservation or removeReservation left in it, and a write to one cell is invisible from every other |
| Schedules.HasReservationAt | ResourceSchedule.java:47-51 | fails exactly outside the grid; otherwise true exactly when the cell names a reservation that is in the store and active |
| Schedules.HasActiveReservations | ResourceSchedule.java:54-63 | true exactly when some cell of the grid is occupied |
| Schedules.ActiveCells | ResourceSchedule.java:66-77 | the occupied cells, each exactly once, in day-major then slot order; at most 40 |
| Schedules.GetAllReservations | ResourceSchedule.java:66-77 | one active stored reservation per occupied cell, in the scan order of the cells; every occupied cell's reservation is listed; at most 40 |
| Schedules.GetScheduleContents | ResourceSchedule.java:80-100 | one line per entry of getAllReservations, in the same order, each naming that entry's day, time window, user and id |
| Reservations.NewReservation | Reservation.java:22-30 | a new reservation is active and carries the given id, resource, user, day and slot |
| Reservations.Cancel | Reservation.java:48-50 | the cancelled form is inactive and every other field is unchanged |
| Reservations.CancelIdempotent | Reservation.java:48-50 | cancelling twice is the same as cancelling once |
| Reservations.CancelIsOneWay | Reservation.java:48-50 | cancelling never makes a record active; an active record differs from its cancelled form only in the flag |
| Reservations.DayName | Reservation.java:62-65 | defined exactly for day 0..4; otherwise IndexOutOfBounds |
| Reservations.TimeRange | Reservation.java:53-59 | defined exactly for slot 0..7; otherwise IndexOutOfBounds |
| Reservations.DayNameAndTimeRangeInjective | Reservation.java:53-65 | different days have different names and different slots have different time windows |
| Resources.NewStudyRoom | StudyRoom.java:10-17 | construction fails with IllegalArgument exactly when the capacity is not positive; otherwise the room stores id, name and capacity |
| Resources.SetCapacity | StudyRoom.java:23-28 | a non-positive value is rejected with IllegalArgument; otherwise only the capacity changes, to the new value |
| Resources.NewLabEquipment | LabEquipment.java:10-13 | the type is stored as given, with no validation |
| Resources.SetEquipmentType | LabEquipment.java:19-24 | a blank value is rejected with IllegalArgument; otherwise the trimmed value is stored, so the stored type is never blank and has no surrounding whitespace |
| Resources.SetName | CampusResource.java:25-27 | only the name changes, with no validation; id, variant and variant field are kept, and so is validity |
| Resources.ResourceTypeIdentifiesVariant | StudyRoom.java:31-33 | the type tags that Resources.ResourceType gives ("Study Room", and "Lab Equipment" at LabEquipment.java:27-29) tell the two variants apart |
| Resources.SpecificDetailsRecoverable | StudyRoom.java:36-39 | the details string that Resources.SpecificDetails builds (also LabEquipment.java:32-35) carries the variant field recoverably: a room's capacity parses back out of "Capacity: <n> people", and equipment's type is the tail of "Type: <type>" |
| Users.InitialGen | User.java:14-16 | with both counters at 1000, the first generated id is USER-1001 |
| Users.GenerateUserId | User.java:30-37 | the new number exceeds both the last number handed out and the highest loaded one, and the id reads back as that number |
| Users.GeneratedIdsIncrease | User.java:30-37 | successive generations give strictly increasing numbers, hence different ids |
| Users.NewUser | User.java:19-22 | a constructed user keeps the username and role and takes a freshly generated id; the counter advances |
| Users.CanManageResources | Administrator.java:11-14 | true exactly for the Administrator role (false for Student, Student.java:13-15) |
| Users.RoleShownConsistently | Student.java:19-27 | the role name given by Users.UserRole is "Administrator" (Administrator.java:17-20), and the description given by Users.Describe (Administrator.java:23-26) starts with "ADMIN: ", exactly when the user may manage resources |
| Users.UpdateFromLoadedUsers | User.java:40-55 | the counter is untouched and lastSavedMaxId never decreases; the result is at least every well-formed loaded id number, and it is either the old value or one of those numbers |
| Users.NextUserIdAfterLoadIsFresh | User.java:30-55 | after re-seeding, the next generated number exceeds every well-formed loaded id number, so no loaded id is issued again |

## Left out

- Console output and files: all `print*` methods, `saveToFile`, `exportToTextFiles` and
  the `export*ToText` helpers. Only the re-seeding step of `loadFromFile` is modelled
  (`Load`). Reading the object stream is I/O.
- `CampusMenu`, `Main` and `FileManager`: the interactive console and stale file
  helpers, outside the engine.
- `addTestUser` (CampusSystem.java:178-185): it only wraps `addUser` and prints the
  exception.
- `toString` of `Reservation`, `StudyRoom`, `LabEquipment` and `ResourceSchedule`:
  display text only. `Describe` covers the `Administrator` and `Student` forms.
- `null` arguments: blank strings stand for null strings, and an absent optional edit
  value is `None`. A `null` resource passed to `addResource` has no counterpart.
- 32-bit integers: `Integer.parseInt` overflow, and wrap-around of `userCounter` and of
  `maxId + 1`, are not modelled; numbers are unbounded. `parseInt` accepts ASCII
  digits with an optional sign; other Unicode decimal digits are not modelled.
- Text.ToLower: maps ASCII letters only, because Unicode case folding is not modelled;
  its contract states only the length, and its partner is `Text.ToLowerIdempotent`.
- CampusProperties.Admissible: runs of operations add only valid resources. In Java a
  `StudyRoom` with a non-positive capacity cannot be constructed, so `addResource`
  never receives one.
- CampusInvariant.CancelActivePreservesInv: requires that the targeted reservation is
  active, because the operation as written breaks the invariant otherwise (see
  Findings).
- CampusSystem.BookCell: the `DuplicateReservationException` branch of
  `makeReservation` (CampusSystem.java:406-410) is modelled but never taken.
  `NextReservationId` is never already in the list, and `BookCell`'s contract states
  that success happens exactly when the cell is free.
- Object identity and aliasing: the model keeps values, not references. In Java,
  `getResources()`, `getUsers()` and `getReservations()` (CampusSystem.java:763-769)
  return shallow copies, and `findUser`, `findResource` and `findReservation`
  (CampusSystem.java:103-130) return the live objects, so a caller could change an
  entry (for example call `cancel()` on a reservation) without the schedule noticing.
  No caller in the program does so: the console menu only reads what it gets back.
  That is why modelling values is sound here.

## Findings

| source | as written | input that shows it | evidently intended | confidence | as-written member | corrected member |
|---|---|---|---|---|---|---|
| CampusSystem.java:448-455 | `cancelReservation` empties the reservation's cell and marks it cancelled without checking whether it was already cancelled, so cancelling an old reservation again empties a cell that a later booking holds | default data: alice books SR101 day 0 slot 0 (`RES-1`); alice cancels `RES-1`; bob books the same cell (`RES-2`); alice cancels `RES-1` again; the cell now reads free while `RES-2` is active, and carol's booking of the cell (`RES-3`) succeeds, leaving `RES-2` and `RES-3` both active on one cell | cancelling an already cancelled reservation leaves every schedule alone, so a cell is only ever emptied by cancelling the reservation it holds | high; not executed | CampusProperties.RecancelDoubleBooks | CampusInvariant.CancelCheckedPreservesInv |

`CampusSystem.CancelReservation` is the operation as written. `CampusSystem.CancelReservationChecked`
is the corrected operation: it performs the same checks and returns the same value, but
on a reservation that is already cancelled it changes nothing. The runs of operations in
`CampusProperties` use the corrected operation.

## Behaviours worth knowing

- **makeReservation is not all-or-nothing.** It registers an unknown user before it
  checks that the resource exists (CampusSystem.java:374-392). A
  `ResourceNotFoundException` therefore leaves the new user behind.
- **Error kinds.** Both of these throw `InvalidInputException`: an edit of the wrong
  resource variant (CampusSystem.java:255, 295), and a removal blocked by active
  bookings (CampusSystem.java:334-338).
- **editStudyRoom and capacity.** A non-positive capacity is silently ignored, not
  rejected (CampusSystem.java:267). The rest of the edit still succeeds.
- **Admin guess on auto-registration.** A booking can register its user automatically.
  That user is made an administrator when the name is "admin" or "administrator", in any
  letter case (CampusSystem.java:377-378).
- **Re-cancellation.** Cancelling a reservation that is already cancelled succeeds, and
  it clears the reservation's cell again (see Findings).
