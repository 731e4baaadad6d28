/** What a scan does to the tables (RecordEvent), the invariants the tables
    keep, and the keyboard-hook line buffer that feeds scans in. */
module Recording {
  import opened Wrappers
  import opened Text
  import opened Models
  import opened Normalizer
  import opened Directory
  import opened Locations
  import opened Occupancy
  import opened EventLog

  /** The MessageBox a handler shows, if any. */
  datatype Notice =
    | Silent
    | EnterLocationName       // "Enter a name for the location."
    | LocationAdded           // "Location added."
    | SelectLocationToSave    // "Select a location to save."
    | LocationNotFound        // "Location not found."
    | LocationUpdated         // "Location updated."
    | SelectLocationToDelete  // "Select a location to delete."
    | CannotDeleteSeed        // "Cannot delete the seed location."
    | LocationDeleted         // "Location deleted."
    | EnterStudentId          // "Enter Student ID."
    | SelectEventToDelete     // "Select an event to delete."

  /** The primary key of Users. */
  predicate LocationExists(locations: seq<Location>, id: Id) {
    FindLocation(locations, id).Some?
  }

  predicate UserExists(users: seq<User>, id: Id) {
    FindUser(users, id).Some?
  }

  /** Users: unique keys and student ids, every key below nextId. */
  ghost predicate UsersValid(users: seq<User>, nextId: nat) {
    && UniqueStudentIds(users) && UniqueUserIds(users)
    && forall u :: u in users ==> u.id < nextId
  }

  /** A location row: its key is below nextId, its name is stored trimmed
      and its capacity fits an Int32. */
  ghost predicate LocationRowValid(l: Location, nextId: nat) {
    && l.id < nextId
    && Trimmed(l.name)
    && (l.capacity.Some? ==> InInt32(l.capacity.value))
  }

  /** Locations: unique keys, every row valid. */
  ghost predicate LocationsValid(locations: seq<Location>, nextId: nat) {
    && UniqueLocationIds(locations)
    && forall l :: l in locations ==> LocationRowValid(l, nextId)
  }

  /** An event row: its key is below nextId; it refers to an existing
      location and, when it has one, an existing user. */
  ghost predicate EventRowValid(e: ScanEvent, users: seq<User>, locations: seq<Location>, nextId: nat) {
    && e.id < nextId
    && LocationExists(locations, e.locationId)
    && (e.userId.Some? ==> UserExists(users, e.userId.value))
  }

  /** Events: unique keys, every row valid. */
  ghost predicate EventsValid(events: seq<ScanEvent>, users: seq<User>, locations: seq<Location>, nextId: nat) {
    && UniqueEventIds(events)
    && forall e :: e in events ==> EventRowValid(e, users, locations, nextId)
  }

  /** What the database guarantees: unique keys and student ids, and foreign
      keys that resolve. */
  ghost predicate TablesValid(users: seq<User>, locations: seq<Location>, events: seq<ScanEvent>, nextId: nat) {
    && 0 < nextId
    && UsersValid(users, nextId)
    && LocationsValid(locations, nextId)
    && EventsValid(events, users, locations, nextId)
  }

  /** The tables after RecordEvent, and its message. */
  datatype Recorded = Recorded(users: seq<User>, events: seq<ScanEvent>, nextId: nat, notice: Notice)

  /** RecordEvent(type, idRaw) at location loc with the name boxes holding
      firstText and lastText: a payload that normalises to a blank id is
      refused; otherwise the user is resolved (or created) and one event is
      appended that carries the user's id, student id and current full name.
      The user, if created, takes key nextId and the event nextId + 1. */
  function Record(users: seq<User>, events: seq<ScanEvent>, nextId: nat, loc: Id, eventType: string,
                  idRaw: string, firstText: string, lastText: string, now: nat): (r: Recorded)
    ensures IsBlank(NormalizeScannedId(idRaw)) ==> r == Recorded(users, events, nextId, EnterStudentId)
    ensures !IsBlank(NormalizeScannedId(idRaw)) ==>
      && r.notice == Silent && r.nextId == nextId + 2
      && |r.events| == |events| + 1 && r.events[..|events|] == events
    ensures !IsBlank(NormalizeScannedId(idRaw)) ==>
      var e := r.events[|events|];
      && e.scannedStudentId == NormalizeScannedId(idRaw)
      && e.eventType == eventType && e.locationId == loc && e.timestampUtc == now && e.id == nextId + 1
      && e.rawPayloadJson == "{}"
      && e.userId.Some?
      && exists u :: u in r.users && u.id == e.userId.value && u.studentId == e.scannedStudentId && e.nameAtScan == FullName(u)
    ensures !IsBlank(NormalizeScannedId(idRaw)) ==>
      r.users == GetOrCreate(users, NormalizeScannedId(idRaw), Trim(firstText), Trim(lastText), nextId, now).users
  {
    var id := NormalizeScannedId(idRaw);
    if IsBlank(id) then Recorded(users, events, nextId, EnterStudentId)
    else
      var res := GetOrCreate(users, id, Trim(firstText), Trim(lastText), nextId, now);
      var e := NewScanEvent(nextId + 1, res.user, eventType, loc, now);
      assert (events + [e])[..|events|] == events;
      Recorded(res.users, events + [e], nextId + 2, Silent)
  }

  /** A scan at an existing location keeps every database guarantee. */
  lemma RecordKeepsValid(users: seq<User>, locations: seq<Location>, events: seq<ScanEvent>, nextId: nat,
                         loc: Id, eventType: string, idRaw: string, firstText: string, lastText: string, now: nat)
    requires TablesValid(users, locations, events, nextId)
    requires LocationExists(locations, loc)
    ensures var r := Record(users, events, nextId, loc, eventType, idRaw, firstText, lastText, now);
            TablesValid(r.users, locations, r.events, r.nextId)
  {
    var r := Record(users, events, nextId, loc, eventType, idRaw, firstText, lastText, now);
    var id := NormalizeScannedId(idRaw);
    if !IsBlank(id) {
      var res := GetOrCreate(users, id, Trim(firstText), Trim(lastText), nextId, now);
      UsersKeepIds(users, res, nextId);
      UserLinksSurvive(users, res.users, events, locations, nextId);
      var e := r.events[|events|];
      assert r.events == events + [e];
      AppendEventValid(events, res.users, locations, nextId, e);
      assert LocationsValid(locations, r.nextId);
    }
  }

  /** Users only ever gain rows and keep their keys, so links into them survive. */
  lemma UserLinksSurvive(users: seq<User>, users': seq<User>, events: seq<ScanEvent>, locations: seq<Location>, nextId: nat)
    requires EventsValid(events, users, locations, nextId)
    requires |users| <= |users'|
    requires forall i :: 0 <= i < |users| ==> users'[i].id == users[i].id
    ensures EventsValid(events, users', locations, nextId + 2)
  {
    forall x | x in events && x.userId.Some? ensures UserExists(users', x.userId.value) {
      var u := FindUser(users, x.userId.value).value;
      var i :| 0 <= i < |users| && users[i] == u;
      assert users'[i] in users';
    }
  }

  /** Appending an event with the key nextId + 1, at an existing location and
      linked to an existing user, keeps the events valid. */
  lemma AppendEventValid(events: seq<ScanEvent>, users: seq<User>, locations: seq<Location>, nextId: nat, e: ScanEvent)
    requires EventsValid(events, users, locations, nextId + 2)
    requires forall x :: x in events ==> x.id < nextId
    requires e.id == nextId + 1 && LocationExists(locations, e.locationId)
    requires e.userId.Some? ==> exists u :: u in users && u.id == e.userId.value
    ensures EventsValid(events + [e], users, locations, nextId + 2)
  {
    var es := events + [e];
    forall x | x in es ensures x.id < nextId + 2 && LocationExists(locations, x.locationId) {
      if x in events {} else { assert x == e; }
    }
    forall x | x in es && x.userId.Some? ensures UserExists(users, x.userId.value) {
      if x in events {} else { assert x == e; }
    }
    forall a, b | 0 <= a < b < |es| ensures es[a].id != es[b].id {
      assert es[a] == events[a] && events[a] in events;
      if b < |events| {
        assert es[b] == events[b];
      }
    }
  }

  /** GetOrCreate with a fresh key keeps the primary key of Users unique and
      below the next key. */
  lemma UsersKeepIds(users: seq<User>, res: Resolution, nextId: nat)
    requires UniqueUserIds(users) && forall u :: u in users ==> u.id < nextId
    requires |users| <= |res.users|
    requires forall i :: 0 <= i < |users| ==> res.users[i].id == users[i].id
    requires res.created ==> res.users == users + [res.user] && res.user.id == nextId
    requires !res.created ==> |res.users| == |users|
    ensures UniqueUserIds(res.users)
    ensures forall u :: u in res.users ==> u.id < nextId + 2
  {
    forall u | u in res.users ensures u.id < nextId + 2 {
      var i :| 0 <= i < |res.users| && res.users[i] == u;
      if i < |users| {
        assert users[i] in users;
      }
    }
    forall a, b | 0 <= a < b < |res.users| ensures res.users[a].id != res.users[b].id {
      assert users[a] in users;
      if b < |users| {
      } else {
        assert res.users[b] == res.user;
      }
    }
  }

  /** A scan of a student with no later event at loc puts the student inside
      loc exactly when it is an entry, and moves the count by one at most:
      up for an entry of someone outside, down for another type of event from
      someone inside. */
  lemma RecordPresence(users: seq<User>, events: seq<ScanEvent>, nextId: nat, loc: Id, eventType: string,
                       idRaw: string, firstText: string, lastText: string, now: nat)
    requires !IsBlank(NormalizeScannedId(idRaw))
    requires forall x :: x in AtLocation(events, loc) && x.scannedStudentId == NormalizeScannedId(idRaw) ==> x.timestampUtc <= now
    ensures var r := Record(users, events, nextId, loc, eventType, idRaw, firstText, lastText, now);
            var sid := NormalizeScannedId(idRaw);
            && (sid in Present(r.events, loc) <==> eventType == Entry)
            && (eventType == Entry ==>
                  OccupancyCount(r.events, loc) == if sid in Present(events, loc) then OccupancyCount(events, loc) else OccupancyCount(events, loc) + 1)
            && (eventType != Entry ==>
                  OccupancyCount(r.events, loc) == if sid in Present(events, loc) then OccupancyCount(events, loc) - 1 else OccupancyCount(events, loc))
  {
    var r := Record(users, events, nextId, loc, eventType, idRaw, firstText, lastText, now);
    var e := r.events[|events|];
    assert r.events == events + [e];
    if eventType == Entry {
      EntryCountsOnce(events, e, loc);
    } else {
      LatestExitRemoves(events, e, loc);
    }
  }

  /** A scan at loc leaves who is present at every other location as it was. */
  lemma RecordElsewhere(users: seq<User>, events: seq<ScanEvent>, nextId: nat, loc: Id, eventType: string,
                        idRaw: string, firstText: string, lastText: string, now: nat, other: Id)
    requires other != loc
    ensures var r := Record(users, events, nextId, loc, eventType, idRaw, firstText, lastText, now);
            Present(r.events, other) == Present(events, other)
  {
    var r := Record(users, events, nextId, loc, eventType, idRaw, firstText, lastText, now);
    if !IsBlank(NormalizeScannedId(idRaw)) {
      var e := r.events[|events|];
      assert r.events == events + [e];
      OtherLocationUnchanged(events, e, other);
    }
  }

  /** A scan stamped before the student's latest event at loc changes nothing
      about who is present there. */
  lemma RecordLateArrival(users: seq<User>, events: seq<ScanEvent>, nextId: nat, loc: Id, eventType: string,
                          idRaw: string, firstText: string, lastText: string, now: nat)
    requires exists x :: x in AtLocation(events, loc) && x.scannedStudentId == NormalizeScannedId(idRaw) && x.timestampUtc > now
    ensures var r := Record(users, events, nextId, loc, eventType, idRaw, firstText, lastText, now);
            Present(r.events, loc) == Present(events, loc)
  {
    var r := Record(users, events, nextId, loc, eventType, idRaw, firstText, lastText, now);
    if !IsBlank(NormalizeScannedId(idRaw)) {
      var e := r.events[|events|];
      assert r.events == events + [e];
      OlderEventUnchanged(events, e, loc);
    }
  }

  /** Scanning the same card twice creates at most one user, and the second
      scan, with empty name boxes, leaves Users as the first scan left it. */
  lemma RecordTwice(users: seq<User>, events: seq<ScanEvent>, nextId: nat, loc: Id, eventType: string,
                    idRaw: string, firstText: string, lastText: string, now1: nat, now2: nat)
    requires UniqueStudentIds(users)
    ensures var r1 := Record(users, events, nextId, loc, eventType, idRaw, firstText, lastText, now1);
            var r2 := Record(r1.users, r1.events, r1.nextId, loc, eventType, idRaw, "", "", now2);
            r2.users == r1.users && |r1.users| <= |users| + 1
  {
    var id := NormalizeScannedId(idRaw);
    if !IsBlank(id) {
      assert Trim("") == "" by {
        assert IsBlank("");
      }
      GetOrCreateTwice(users, id, Trim(firstText), Trim(lastText), nextId, nextId + 2, now1, now2);
    }
  }
}
