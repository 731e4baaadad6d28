/** The three persisted entities and the grid row. A Guid key is an Id; a
    DateTime is a number of clock ticks; a nullable field is an Option. */
module Models {
  import opened Wrappers
  import opened Text

  type Id = nat

  /** The well-known id of the seed location (the Guid 11111111-1111-1111-1111-111111111111).
      Fresh ids handed out by the store are all different from it. */
  const SeedLocationId: Id := 0
  const SeedLocationName: string := "Main Space"
  const SeedLocationCapacity: int := 100

  /** The event type every call site records. */
  const Entry: string := "entry"

  datatype User = User(
    id: Id,
    studentId: string,
    firstName: string,
    lastName: string,
    email: string,
    status: string,
    createdAtUtc: nat)

  /** A capacity of None means the location is unbounded. */
  datatype Location = Location(id: Id, name: string, capacity: Option<int>)

  /** userId may reference no user; locationId always references a location. */
  datatype ScanEvent = ScanEvent(
    id: Id,
    userId: Option<Id>,
    scannedStudentId: string,
    nameAtScan: string,
    eventType: string,
    locationId: Id,
    timestampUtc: nat,
    rawPayloadJson: string)

  /** A row of the events grid: it keeps the event's id, so that deleting or
      editing a row acts on exactly that event. The local-time column is not modelled. */
  datatype ScanEventView = ScanEventView(
    id: Id,
    eventType: string,
    scannedStudentId: string,
    nameAtScan: string,
    userId: Option<Id>,
    locationName: string)

  /** `new User { StudentId = .., FirstName = .., LastName = .. }` with the
      initialisers of the other properties. */
  function NewUser(id: Id, studentId: string, first: string, last: string, now: nat): User {
    User(id, studentId, first, last, "", "active", now)
  }

  /** `new ScanEvent { .. }` as built for a scan: the raw payload keeps its "{}" default. */
  function NewScanEvent(id: Id, user: User, eventType: string, locationId: Id, now: nat): ScanEvent {
    ScanEvent(id, Some(user.id), user.studentId, FullName(user), eventType, locationId, now, "{}")
  }

  /** The seed row. */
  function SeedLocation(): Location {
    Location(SeedLocationId, SeedLocationName, Some(SeedLocationCapacity))
  }

  /** $"{user.FirstName} {user.LastName}".Trim(); with no user both halves are empty. */
  function FullName(user: User): (r: string)
    ensures r == [] <==> IsBlank(user.firstName) && IsBlank(user.lastName)
  {
    var joined := user.firstName + " " + user.lastName;
    assert IsBlank(joined) <==> IsBlank(user.firstName) && IsBlank(user.lastName) by {
      if IsBlank(user.firstName) && IsBlank(user.lastName) {
        assert forall i :: 0 <= i < |joined| ==> IsWhiteSpace(joined[i]) by {
          forall i | 0 <= i < |joined| ensures IsWhiteSpace(joined[i]) {
            if i < |user.firstName| { assert joined[i] == user.firstName[i]; }
            else if i > |user.firstName| { assert joined[i] == user.lastName[i - |user.firstName| - 1]; }
          }
        }
      }
      if !IsBlank(user.firstName) {
        var i :| 0 <= i < |user.firstName| && !IsWhiteSpace(user.firstName[i]);
        assert joined[i] == user.firstName[i];
      }
      if !IsBlank(user.lastName) {
        var i :| 0 <= i < |user.lastName| && !IsWhiteSpace(user.lastName[i]);
        assert joined[|user.firstName| + 1 + i] == user.lastName[i];
      }
    }
    Trim(joined)
  }

  /** The name shown for an event: NameAtScan, or when that is blank the
      linked user's current "First Last" (empty when there is no user). */
  function DisplayName(e: ScanEvent, user: Option<User>): (r: string)
    ensures !IsBlank(e.nameAtScan) ==> r == e.nameAtScan
    ensures IsBlank(e.nameAtScan) && user.None? ==> r == []
    ensures IsBlank(e.nameAtScan) && user.Some? ==> r == FullName(user.value)
  {
    if !IsBlank(e.nameAtScan) then e.nameAtScan
    else if user.None? then []
    else FullName(user.value)
  }
}
