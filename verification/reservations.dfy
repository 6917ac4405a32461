/** A booking of one resource cell (day, slot) by one user. The active flag is the
    only mutable part and only ever goes from true to false. */
module Reservations {
  import opened Wrappers
  import opened Exceptions
  import Seqs

  /** The resource is referenced by its id, which never changes after construction */
  datatype Reservation = Reservation(
    id: string,
    resourceId: string,
    username: string,
    day: int,
    slot: int,
    active: bool)

  /** Weekday names indexed by day 0..4 */
  const DayNames: seq<string> := ["Monday", "Tuesday", "Wednesday", "Thursday", "Friday"]

  /** Time windows indexed by slot 0..7 */
  const SlotTimes: seq<string> := [
    "8:00-10:00", "10:00-12:00", "13:00-15:00", "15:00-17:00",
    "17:00-19:00", "19:00-21:00", "21:00-23:00", "23:00-1:00"]

  /** The constructor: every new reservation starts active */
  function NewReservation(id: string, resourceId: string, username: string, day: int, slot: int): (r: Reservation)
    ensures r.active
    ensures r.id == id && r.resourceId == resourceId && r.username == username
    ensures r.day == day && r.slot == slot
  {
    Reservation(id, resourceId, username, day, slot, true)
  }

  /** Marks the reservation cancelled; nothing else about it changes */
  function Cancel(r: Reservation): (c: Reservation)
    ensures !c.active
    ensures c.id == r.id && c.resourceId == r.resourceId && c.username == r.username
    ensures c.day == r.day && c.slot == r.slot
  {
    r.(active := false)
  }

  /** Cancelling twice is the same as cancelling once */
  lemma CancelIdempotent(r: Reservation)
    ensures Cancel(Cancel(r)) == Cancel(r)
  {
  }

  /** Cancellation only ever clears the flag: a cancelled record never comes back active,
      and an active one differs from its cancelled form only in the flag */
  lemma CancelIsOneWay(r: Reservation)
    ensures !r.active ==> Cancel(r) == r
    ensures r.active ==> Cancel(r) != r && Cancel(r).(active := true) == r
  {
  }

  /** getDayName: the weekday of the booking; indexing outside the table throws */
  function DayName(r: Reservation): (n: Result<string, Error>)
    ensures n.Success? <==> 0 <= r.day < 5
    ensures n.Failure? ==> n.error == IndexOutOfBounds
  {
    if 0 <= r.day < |DayNames| then Success(DayNames[r.day]) else Failure(IndexOutOfBounds)
  }

  /** getTimeRange: the time window of the booking; indexing outside the table throws */
  function TimeRange(r: Reservation): (n: Result<string, Error>)
    ensures n.Success? <==> 0 <= r.slot < 8
    ensures n.Failure? ==> n.error == IndexOutOfBounds
  {
    if 0 <= r.slot < |SlotTimes| then Success(SlotTimes[r.slot]) else Failure(IndexOutOfBounds)
  }

  /** Different days and different slots are told apart by their names */
  lemma DayNameAndTimeRangeInjective(a: Reservation, b: Reservation)
    requires DayName(a).Success? && DayName(b).Success?
    requires TimeRange(a).Success? && TimeRange(b).Success?
    ensures DayName(a) == DayName(b) <==> a.day == b.day
    ensures TimeRange(a) == TimeRange(b) <==> a.slot == b.slot
  {
  }

  /** Position of the first reservation with the given id in a reservation list */
  function IndexOfId(rs: seq<Reservation>, id: string): (r: Option<nat>)
    ensures r.Some? ==> r.value < |rs| && rs[r.value].id == id
    ensures r.Some? ==> forall j :: 0 <= j < r.value ==> rs[j].id != id
    ensures r.None? <==> forall j :: 0 <= j < |rs| ==> rs[j].id != id
  {
    Seqs.FirstIndex(rs, (x: Reservation) => x.id == id)
  }

  /** The first reservation with the given id, None when the id is unknown */
  function FindById(rs: seq<Reservation>, id: string): (r: Option<Reservation>)
    ensures r.Some? ==> r.value in rs && r.value.id == id
    ensures r.None? <==> forall j :: 0 <= j < |rs| ==> rs[j].id != id
    ensures r.Some? ==> IndexOfId(rs, id).Some? && r.value == rs[IndexOfId(rs, id).value]
  {
    match IndexOfId(rs, id)
    case Some(i) => Some(rs[i])
    case None => None
  }
}
