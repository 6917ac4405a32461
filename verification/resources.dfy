/** Bookable campus resources: a closed choice between a study room (with a capacity)
    and a piece of lab equipment (with an equipment type). The id is fixed at
    construction; the name and the type-specific field are editable. */
module Resources {
  import opened Wrappers
  import opened Exceptions
  import opened Text

  datatype Resource =
    | StudyRoom(id: string, name: string, capacity: int)
    | LabEquipment(id: string, name: string, equipmentType: string)

  /** What construction and every setter guarantee: a room's capacity is positive */
  predicate Valid(r: Resource) {
    r.StudyRoom? ==> r.capacity > 0
  }

  /** StudyRoom constructor: rejects a non-positive capacity */
  function NewStudyRoom(id: string, name: string, capacity: int): (r: Result<Resource, Error>)
    ensures r.Success? <==> capacity > 0
    ensures r.Failure? ==> r.error == IllegalArgument
    ensures r.Success? ==> r.value.StudyRoom? && Valid(r.value)
    ensures r.Success? ==> r.value.id == id && r.value.name == name && r.value.capacity == capacity
  {
    if capacity <= 0 then Failure(IllegalArgument) else Success(StudyRoom(id, name, capacity))
  }

  /** LabEquipment constructor: stores the type as given, without validation */
  function NewLabEquipment(id: string, name: string, equipmentType: string): (r: Resource)
    ensures r.LabEquipment? && Valid(r)
    ensures r.id == id && r.name == name && r.equipmentType == equipmentType
  {
    LabEquipment(id, name, equipmentType)
  }

  /** setName: replaces the name only, with no validation of its own */
  function SetName(r: Resource, newName: string): (r': Resource)
    ensures r'.name == newName
    ensures r'.id == r.id && r'.StudyRoom? == r.StudyRoom?
    ensures r.StudyRoom? ==> r'.capacity == r.capacity
    ensures r.LabEquipment? ==> r'.equipmentType == r.equipmentType
    ensures Valid(r) ==> Valid(r')
  {
    r.(name := newName)
  }

  /** setCapacity: a non-positive value is rejected and the room is left as it was */
  function SetCapacity(r: Resource, newCapacity: int): (r': Result<Resource, Error>)
    requires r.StudyRoom?
    ensures r'.Success? <==> newCapacity > 0
    ensures r'.Failure? ==> r'.error == IllegalArgument
    ensures r'.Success? ==> r'.value.StudyRoom? && r'.value.capacity == newCapacity && Valid(r'.value)
    ensures r'.Success? ==> r'.value.id == r.id && r'.value.name == r.name
  {
    if newCapacity <= 0 then Failure(IllegalArgument) else Success(r.(capacity := newCapacity))
  }

  /** setEquipmentType: a blank value is rejected; otherwise the trimmed value is stored,
      so the stored type is never blank and carries no surrounding whitespace */
  function SetEquipmentType(r: Resource, newType: string): (r': Result<Resource, Error>)
    requires r.LabEquipment?
    ensures r'.Success? <==> !IsBlank(newType)
    ensures r'.Failure? ==> r'.error == IllegalArgument
    ensures r'.Success? ==> r'.value.LabEquipment? && r'.value.id == r.id && r'.value.name == r.name
    ensures r'.Success? ==> r'.value.equipmentType == Trim(newType)
    ensures r'.Success? ==> var t := r'.value.equipmentType;
      t != [] && !IsTrimmable(t[0]) && !IsTrimmable(t[|t| - 1])
  {
    if IsBlank(newType) then Failure(IllegalArgument) else Success(r.(equipmentType := Trim(newType)))
  }

  /** getResourceType: the type tag shown to users and matched by the type filters */
  function ResourceType(r: Resource): string {
    match r
    case StudyRoom(_, _, _) => "Study Room"
    case LabEquipment(_, _, _) => "Lab Equipment"
  }

  /** getSpecificDetails: the one-line variant-specific attribute summary */
  function SpecificDetails(r: Resource): string {
    match r
    case StudyRoom(_, _, c) => "Capacity: " + IntToString(c) + " people"
    case LabEquipment(_, _, t) => "Type: " + t
  }

  /** The type tag identifies the variant: two resources share a tag exactly when
      they are the same kind of resource */
  lemma ResourceTypeIdentifiesVariant(a: Resource, b: Resource)
    ensures ResourceType(a) == ResourceType(b) <==> a.StudyRoom? == b.StudyRoom?
  {
  }

  /** The details string carries the type-specific field recoverably: the capacity
      parses back out of a room's summary, the type is the tail of equipment's */
  lemma SpecificDetailsRecoverable(r: Resource)
    ensures r.StudyRoom? ==> var d := SpecificDetails(r);
      StartsWith(d, "Capacity: ") && |d| >= 17 && ParseInt(d[10..|d| - 7]) == Some(r.capacity)
    ensures r.LabEquipment? ==> var d := SpecificDetails(r);
      StartsWith(d, "Type: ") && Suffix(d, "Type: ") == r.equipmentType
  {
    var d := SpecificDetails(r);
    if r.StudyRoom? {
      var c := IntToString(r.capacity);
      assert d == "Capacity: " + c + " people";
      assert d[10..|d| - 7] == c;
      assert d[..10] == "Capacity: ";
      ParseIntOfIntToString(r.capacity);
    } else {
      assert d[..6] == "Type: ";
    }
  }
}
