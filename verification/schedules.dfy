/** The weekly grid of one resource: 5 days by 8 slots, each cell empty or holding
    the id of a reservation. A cell counts as occupied only while the reservation its
    id names (looked up in the reservation store) is still active. Every operation
    rejects a day or slot outside the grid. */
module Schedules {
  import opened Wrappers
  import opened Exceptions
  import opened Reservations

  const DaysPerWeek := 5
  const SlotsPerDay := 8
  const CellCount := DaysPerWeek * SlotsPerDay

  datatype Grid = Grid(resourceId: string, cells: seq<seq<Option<string>>>)

  /** The Java array is allocated as 5 rows of 8 cells and never resized */
  predicate WellShaped(g: Grid) {
    |g.cells| == DaysPerWeek && forall d :: 0 <= d < DaysPerWeek ==> |g.cells[d]| == SlotsPerDay
  }

  /** A resource's schedule: a well-shaped grid */
  type Schedule = g: Grid | WellShaped(g) witness Grid("", seq(5, _ => seq(8, _ => None)))

  predicate InBounds(day: int, slot: int) {
    0 <= day < DaysPerWeek && 0 <= slot < SlotsPerDay
  }

  /** validateIndices: the day is checked before the slot; either failure is an index error */
  function ValidateIndices(day: int, slot: int): (e: Option<Error>)
    ensures e.None? <==> 0 <= day < 5 && 0 <= slot < 8
    ensures e.Some? ==> e.value == IndexOutOfBounds
  {
    if day < 0 || day >= DaysPerWeek then Some(IndexOutOfBounds)
    else if slot < 0 || slot >= SlotsPerDay then Some(IndexOutOfBounds)
    else None
  }

  /** The constructor: a grid with every cell empty */
  function NewSchedule(resourceId: string): (s: Schedule)
    ensures s.resourceId == resourceId
    ensures forall d, sl :: InBounds(d, sl) ==> s.cells[d][sl].None?
  {
    Grid(resourceId, seq(DaysPerWeek, _ => seq(SlotsPerDay, _ => None)))
  }

  function SetCell(s: Schedule, day: int, slot: int, v: Option<string>): (s': Schedule)
    requires InBounds(day, slot)
    ensures s'.resourceId == s.resourceId
    ensures s'.cells[day][slot] == v
    ensures forall d, sl :: InBounds(d, sl) && (d != day || sl != slot) ==> s'.cells[d][sl] == s.cells[d][sl]
  {
    s.(cells := s.cells[day := s.cells[day][slot := v]])
  }

  /** addReservation: stores the id in cell (day, slot), overwriting it, and changes no other cell */
  function AddReservation(s: Schedule, day: int, slot: int, id: string): (r: Result<Schedule, Error>)
    ensures r.Success? <==> InBounds(day, slot)
    ensures r.Failure? ==> r.error == IndexOutOfBounds
    ensures r.Success? ==> r.value.resourceId == s.resourceId
    ensures r.Success? ==> r.value.cells[day][slot] == Some(id)
    ensures r.Success? ==> forall d, sl :: InBounds(d, sl) && (d != day || sl != slot) ==>
      r.value.cells[d][sl] == s.cells[d][sl]
  {
    match ValidateIndices(day, slot)
    case Some(e) => Failure(e)
    case None => Success(SetCell(s, day, slot, Some(id)))
  }

  /** removeReservation: empties cell (day, slot) and changes no other cell */
  function RemoveReservation(s: Schedule, day: int, slot: int): (r: Result<Schedule, Error>)
    ensures r.Success? <==> InBounds(day, slot)
    ensures r.Failure? ==> r.error == IndexOutOfBounds
    ensures r.Success? ==> r.value.resourceId == s.resourceId
    ensures r.Success? ==> r.value.cells[day][slot].None?
    ensures r.Success? ==> forall d, sl :: InBounds(d, sl) && (d != day || sl != slot) ==>
      r.value.cells[d][sl] == s.cells[d][sl]
  {
    match ValidateIndices(day, slot)
    case Some(e) => Failure(e)
    case None => Success(SetCell(s, day, slot, None))
  }

  /** getReservation: what cell (day, slot) holds, whether or not that booking is still active */
  function GetReservation(s: Schedule, day: int, slot: int): (r: Result<Option<string>, Error>)
    ensures r.Success? <==> InBounds(day, slot)
    ensures r.Failure? ==> r.error == IndexOutOfBounds
  {
    match ValidateIndices(day, slot)
    case Some(e) => Failure(e)
    case None => Success(s.cells[day][slot])
  }

  /** Reading a cell back after writing it gives what was written, and a write to
      one cell is invisible from every other */
  lemma GetAfterAddAndRemove(s: Schedule, day: int, slot: int, id: string, d: int, sl: int)
    requires InBounds(day, slot)
    ensures GetReservation(AddReservation(s, day, slot, id).value, day, slot) == Success(Some(id))
    ensures GetReservation(RemoveReservation(s, day, slot).value, day, slot) == Success(None)
    ensures (d != day || sl != slot) ==>
      GetReservation(AddReservation(s, day, slot, id).value, d, sl) == GetReservation(s, d, sl)
    ensures (d != day || sl != slot) ==>
      GetReservation(RemoveReservation(s, day, slot).value, d, sl) == GetReservation(s, d, sl)
  {
  }

  /** The stored reservation that cell (day, slot) refers to, if any */
  function CellReservation(s: Schedule, store: seq<Reservation>, day: int, slot: int): Option<Reservation>
    requires InBounds(day, slot)
  {
    match s.cells[day][slot]
    case None => None
    case Some(id) => FindById(store, id)
  }

  /** A cell is occupied when it refers to a reservation that is still active */
  predicate Occupied(s: Schedule, store: seq<Reservation>, day: int, slot: int)
    requires InBounds(day, slot)
  {
    var r := CellReservation(s, store, day, slot);
    r.Some? && r.value.active
  }

  /** hasReservationAt: true exactly when the cell is non-empty and the reservation it
      names is active; an index outside the grid is an error */
  function HasReservationAt(s: Schedule, store: seq<Reservation>, day: int, slot: int): (r: Result<bool, Error>)
    ensures r.Success? <==> InBounds(day, slot)
    ensures r.Failure? ==> r.error == IndexOutOfBounds
    ensures r.Success? ==> (r.value <==>
      s.cells[day][slot].Some? && FindById(store, s.cells[day][slot].value).Some? &&
      FindById(store, s.cells[day][slot].value).value.active)
  {
    match ValidateIndices(day, slot)
    case Some(e) => Failure(e)
    case None => Success(Occupied(s, store, day, slot))
  }

  /** Cell a comes before cell b in the day-major scan */
  predicate Before(a: (int, int), b: (int, int)) {
    a.0 < b.0 || (a.0 == b.0 && a.1 < b.1)
  }

  /** Cell c is not before (day, slot) in the day-major scan */
  predicate AtOrAfter(c: (int, int), day: int, slot: int) {
    c.0 > day || (c.0 == day && c.1 >= slot)
  }

  /** The occupied cells from (day, slot) to the end of the week, in the scan order
      of the nested day/slot loops */
  function ActiveCellsFrom(s: Schedule, store: seq<Reservation>, day: int, slot: int): (cells: seq<(int, int)>)
    requires 0 <= day <= DaysPerWeek && 0 <= slot <= SlotsPerDay && (day == DaysPerWeek ==> slot == 0)
    decreases DaysPerWeek - day, SlotsPerDay - slot
    ensures |cells| <= SlotsPerDay * (DaysPerWeek - day) - slot
    ensures forall i :: 0 <= i < |cells| ==> InBounds(cells[i].0, cells[i].1) && AtOrAfter(cells[i], day, slot)
    ensures forall i :: 0 <= i < |cells| ==> Occupied(s, store, cells[i].0, cells[i].1)
    ensures CoversFrom(s, store, cells, day, slot)
    ensures forall i, j :: 0 <= i < j < |cells| ==> Before(cells[i], cells[j])
  {
    if day == DaysPerWeek then []
    else if slot == SlotsPerDay then
      var rest := ActiveCellsFrom(s, store, day + 1, 0);
      NextDayCovers(s, store, day, rest);
      rest
    else
      var rest := ActiveCellsFrom(s, store, day, slot + 1);
      if Occupied(s, store, day, slot) then
        PrependCellCovers(s, store, day, slot, rest);
        [(day, slot)] + rest
      else
        SkipCellCovers(s, store, day, slot, rest);
        rest
  }

  /** Every occupied cell at or after (day, slot) is listed */
  ghost predicate CoversFrom(s: Schedule, store: seq<Reservation>, cells: seq<(int, int)>, day: int, slot: int) {
    forall d, sl :: InBounds(d, sl) && AtOrAfter((d, sl), day, slot) && Occupied(s, store, d, sl) ==>
      (d, sl) in cells
  }

  lemma NextDayCovers(s: Schedule, store: seq<Reservation>, day: int, rest: seq<(int, int)>)
    requires 0 <= day < DaysPerWeek
    requires CoversFrom(s, store, rest, day + 1, 0)
    ensures CoversFrom(s, store, rest, day, SlotsPerDay)
  {
  }

  lemma PrependCellCovers(s: Schedule, store: seq<Reservation>, day: int, slot: int, rest: seq<(int, int)>)
    requires InBounds(day, slot)
    requires CoversFrom(s, store, rest, day, slot + 1)
    requires forall i :: 0 <= i < |rest| ==> AtOrAfter(rest[i], day, slot + 1)
    requires forall i, j :: 0 <= i < j < |rest| ==> Before(rest[i], rest[j])
    ensures CoversFrom(s, store, [(day, slot)] + rest, day, slot)
    ensures forall i, j :: 0 <= i < j < |[(day, slot)] + rest| ==> Before(([(day, slot)] + rest)[i], ([(day, slot)] + rest)[j])
  {
    var cells := [(day, slot)] + rest;
    forall i, j | 0 <= i < j < |cells|
      ensures Before(cells[i], cells[j])
    {
      if i > 0 {
        assert cells[i] == rest[i - 1] && cells[j] == rest[j - 1];
      } else {
        assert AtOrAfter(rest[j - 1], day, slot + 1);
      }
    }
  }

  lemma SkipCellCovers(s: Schedule, store: seq<Reservation>, day: int, slot: int, rest: seq<(int, int)>)
    requires InBounds(day, slot) && !Occupied(s, store, day, slot)
    requires CoversFrom(s, store, rest, day, slot + 1)
    ensures CoversFrom(s, store, rest, day, slot)
  {
  }

  /** The occupied cells of the whole week in day-major, then slot order */
  function ActiveCells(s: Schedule, store: seq<Reservation>): (cells: seq<(int, int)>)
    ensures |cells| <= CellCount
    ensures forall i :: 0 <= i < |cells| ==> InBounds(cells[i].0, cells[i].1) && Occupied(s, store, cells[i].0, cells[i].1)
    ensures forall d, sl :: InBounds(d, sl) && Occupied(s, store, d, sl) ==> (d, sl) in cells
    ensures forall i, j :: 0 <= i < j < |cells| ==> Before(cells[i], cells[j])
  {
    ActiveCellsFrom(s, store, 0, 0)
  }

  /** hasActiveReservations: true exactly when some cell of the week is occupied */
  function HasActiveReservations(s: Schedule, store: seq<Reservation>): (b: bool)
    ensures b <==> exists d, sl :: InBounds(d, sl) && Occupied(s, store, d, sl)
  {
    var cells := ActiveCells(s, store);
    assert |cells| > 0 ==> InBounds(cells[0].0, cells[0].1) && Occupied(s, store, cells[0].0, cells[0].1);
    |cells| > 0
  }

  /** A fresh schedule has no occupied cell, whatever the reservation store holds */
  lemma NewScheduleIsFree(resourceId: string, store: seq<Reservation>)
    ensures !HasActiveReservations(NewSchedule(resourceId), store)
    ensures ActiveCells(NewSchedule(resourceId), store) == []
  {
  }

  /** getAllReservations: the active reservations of the grid, one per occupied cell,
      in day-major, then slot order; at most one per cell, so at most 40 */
  function GetAllReservations(s: Schedule, store: seq<Reservation>): (rs: seq<Reservation>)
    ensures |rs| == |ActiveCells(s, store)| && |rs| <= CellCount
    ensures forall i :: 0 <= i < |rs| ==> rs[i].active && rs[i] in store
    ensures forall i :: 0 <= i < |rs| ==>
      var c := ActiveCells(s, store)[i];
      Some(rs[i]) == CellReservation(s, store, c.0, c.1)
    ensures forall d, sl :: InBounds(d, sl) && Occupied(s, store, d, sl) ==>
      CellReservation(s, store, d, sl).value in rs
  {
    var cells := ActiveCells(s, store);
    var rs := seq(|cells|, i requires 0 <= i < |cells| => CellReservation(s, store, cells[i].0, cells[i].1).value);
    ListedCellsCovered(s, store, cells, rs);
    ListedAreActiveAndStored(s, store, cells, rs);
    rs
  }

  lemma ListedAreActiveAndStored(s: Schedule, store: seq<Reservation>, cells: seq<(int, int)>, rs: seq<Reservation>)
    requires |rs| == |cells|
    requires forall i :: 0 <= i < |cells| ==> InBounds(cells[i].0, cells[i].1) && Occupied(s, store, cells[i].0, cells[i].1)
    requires forall i :: 0 <= i < |cells| ==> Some(rs[i]) == CellReservation(s, store, cells[i].0, cells[i].1)
    ensures forall i :: 0 <= i < |rs| ==> rs[i].active && rs[i] in store
  {
    forall i | 0 <= i < |rs|
      ensures rs[i].active && rs[i] in store
    {
      var c := cells[i];
      assert Occupied(s, store, c.0, c.1);
      assert FindById(store, s.cells[c.0][c.1].value) == Some(rs[i]);
    }
  }

  lemma ListedCellsCovered(s: Schedule, store: seq<Reservation>, cells: seq<(int, int)>, rs: seq<Reservation>)
    requires |rs| == |cells|
    requires forall i :: 0 <= i < |cells| ==> InBounds(cells[i].0, cells[i].1)
    requires forall d, sl :: InBounds(d, sl) && Occupied(s, store, d, sl) ==> (d, sl) in cells
    requires forall i :: 0 <= i < |cells| ==> Some(rs[i]) == CellReservation(s, store, cells[i].0, cells[i].1)
    ensures forall d, sl :: InBounds(d, sl) && Occupied(s, store, d, sl) ==>
      CellReservation(s, store, d, sl).value in rs
  {
    forall d, sl | InBounds(d, sl) && Occupied(s, store, d, sl)
      ensures CellReservation(s, store, d, sl).value in rs
    {
      var i :| 0 <= i < |cells| && cells[i] == (d, sl);
      assert rs[i] == CellReservation(s, store, d, sl).value;
    }
  }

  /** One display line: "<day name> <time window>: <username> (<reservation id>)" */
  function Entry(day: int, slot: int, r: Reservation): string
    requires InBounds(day, slot)
  {
    DayNames[day] + " " + SlotTimes[slot] + ": " + r.username + " (" + r.id + ")"
  }

  /** getScheduleContents: one display line per occupied cell, in the same order as
      getAllReservations, each naming the cell and that reservation */
  function GetScheduleContents(s: Schedule, store: seq<Reservation>): (lines: seq<string>)
    ensures |lines| == |GetAllReservations(s, store)|
    ensures forall i :: 0 <= i < |lines| ==>
      var c := ActiveCells(s, store)[i];
      InBounds(c.0, c.1) && lines[i] == Entry(c.0, c.1, GetAllReservations(s, store)[i])
  {
    var cells := ActiveCells(s, store);
    var rs := GetAllReservations(s, store);
    seq(|cells|, i requires 0 <= i < |cells| => Entry(cells[i].0, cells[i].1, rs[i]))
  }
}
