/** The main window: the tables as the window's DbContexts see them, the two
    location selections, the keyboard-hook buffer, and one method per
    handler that changes them. */
module Window {
  import opened Wrappers
  import opened Text
  import opened Models
  import opened Normalizer
  import opened Directory
  import opened Locations
  import opened Occupancy
  import opened EventLog
  import opened Recording
  import opened Keyboard

  /** The LocationCombo selection after LoadLocations: a selection that still
      names a location stays; otherwise the location that comes first by name
      is picked, and nothing when there are no locations. */
  function Reselect(locations: seq<Location>, selected: Option<Id>): (r: Option<Id>)
    ensures r.None? <==> locations == []
    ensures r.Some? ==> LocationExists(locations, r.value)
    ensures selected.Some? && LocationExists(locations, selected.value) ==> r == selected
  {
    if selected.Some? && LocationExists(locations, selected.value) then selected
    else
      match FirstByName(locations)
      case None => None
      case Some(l) =>
        assert FindLocation(locations, l.id).Some?;
        Some(l.id)
  }

  /** When the selection is gone, Reselect picks a location whose name no
      other location's name precedes. */
  lemma ReselectPicksFirstByName(locations: seq<Location>, selected: Option<Id>)
    requires locations != []
    requires selected.None? || !LocationExists(locations, selected.value)
    ensures exists l :: (&& l in locations && Some(l.id) == Reselect(locations, selected)
                         && forall m :: m in locations ==> NameAtMost(l.name, m.name))
  {
    var l := FirstByName(locations).value;
    assert Some(l.id) == Reselect(locations, selected);
  }

  /** The occupancy panel: the count, the capacity box ("—" when unbounded)
      and the status line. */
  datatype Report = Report(count: nat, capacityText: string, status: string)

  const NoCapacityText: string := "—"

  /** Every event row stays valid when the location table only gains keys. */
  lemma EventsKeepLocations(events: seq<ScanEvent>, users: seq<User>, a: seq<Location>, b: seq<Location>, nextId: nat)
    requires EventsValid(events, users, a, nextId)
    requires forall id :: LocationExists(a, id) ==> LocationExists(b, id)
    ensures EventsValid(events, users, b, nextId)
  {
    forall e | e in events ensures EventRowValid(e, users, b, nextId) {
      assert EventRowValid(e, users, a, nextId);
    }
  }

  /** A freshly opened database, once seeded, meets every guarantee and has
      the seed location. */
  lemma SeededValid(users: seq<User>, locations: seq<Location>, events: seq<ScanEvent>, nextId: nat)
    requires TablesValid(users, locations, events, nextId)
    ensures TablesValid(users, Seeded(locations), events, nextId)
    ensures LocationExists(Seeded(locations), SeedLocationId)
  {
    var s := Seeded(locations);
    SeededRowsValid(locations, nextId);
    forall id | LocationExists(locations, id) ensures LocationExists(s, id) {
      var k := FindLocation(locations, id).value;
      assert locations[k] in s;
    }
    EventsKeepLocations(events, users, locations, s, nextId);
  }

  lemma SeedNameTrimmed()
    ensures Trimmed(SeedLocationName)
  {
    var n := SeedLocationName;
    assert n[0] == 'M' && n[|n| - 1] == 'e';
  }

  lemma SeededRowsValid(locations: seq<Location>, nextId: nat)
    requires LocationsValid(locations, nextId) && 0 < nextId
    ensures LocationsValid(Seeded(locations), nextId)
  {
    var s := Seeded(locations);
    SeedNameTrimmed();
    assert InInt32(SeedLocationCapacity);
    forall l | l in s ensures LocationRowValid(l, nextId) {
      if l !in locations {
        assert l == SeedLocation();
      }
    }
  }

  /** Removing a location other than the seed, together with its events,
      keeps every guarantee and the seed. */
  lemma DeleteLocationValid(users: seq<User>, locations: seq<Location>, events: seq<ScanEvent>, nextId: nat, id: Id)
    requires TablesValid(users, locations, events, nextId)
    requires LocationExists(locations, SeedLocationId) && id != SeedLocationId
    ensures TablesValid(users, RemoveLocation(locations, id), EventsNotAt(events, id), nextId)
    ensures LocationExists(RemoveLocation(locations, id), SeedLocationId)
  {
    var ls := RemoveLocation(locations, id);
    var es := EventsNotAt(events, id);
    RemoveLocationUnique(locations, id);
    forall loc | loc != id && LocationExists(locations, loc) ensures LocationExists(ls, loc) {
      var k := FindLocation(locations, loc).value;
      assert locations[k] in ls;
    }
    forall e | e in es ensures EventRowValid(e, users, ls, nextId) {
      assert EventRowValid(e, users, locations, nextId);
    }
  }

  /** Two location tables with the same keys in the same places resolve the
      same foreign keys. */
  lemma SameLocationKeys(a: seq<Location>, b: seq<Location>)
    requires |a| == |b| && forall i :: 0 <= i < |a| ==> a[i].id == b[i].id
    ensures forall id :: LocationExists(a, id) <==> LocationExists(b, id)
  {
    forall id ensures LocationExists(a, id) <==> LocationExists(b, id) {
      if LocationExists(a, id) {
        var k := FindLocation(a, id).value;
        assert b[k] in b;
      }
      if LocationExists(b, id) {
        var k := FindLocation(b, id).value;
        assert a[k] in a;
      }
    }
  }

  /** Rewriting the row at index k with the same key keeps every guarantee. */
  lemma EditLocationValid(users: seq<User>, locations: seq<Location>, events: seq<ScanEvent>, nextId: nat, k: nat, l: Location)
    requires TablesValid(users, locations, events, nextId)
    requires k < |locations| && l.id == locations[k].id
    requires LocationRowValid(l, nextId)
    ensures TablesValid(users, locations[k := l], events, nextId)
    ensures forall id :: LocationExists(locations[k := l], id) <==> LocationExists(locations, id)
  {
    var ls := locations[k := l];
    assert forall i :: 0 <= i < |locations| ==> ls[i].id == locations[i].id;
    SameLocationKeys(locations, ls);
    EditedRowsValid(locations, nextId, k, l);
    EventsKeepLocations(events, users, locations, ls, nextId);
  }

  /** The save of an existing row keeps the guarantees, the seed and the row. */
  lemma SaveKeepsValid(users: seq<User>, locations: seq<Location>, events: seq<ScanEvent>, nextId: nat, k: nat, l: Location)
    requires TablesValid(users, locations, events, nextId) && LocationExists(locations, SeedLocationId)
    requires k < |locations| && l.id == locations[k].id
    requires LocationRowValid(l, nextId)
    ensures TablesValid(users, locations[k := l], events, nextId)
    ensures LocationExists(locations[k := l], SeedLocationId) && LocationExists(locations[k := l], l.id)
  {
    EditLocationValid(users, locations, events, nextId, k, l);
    assert locations[k] in locations;
    assert LocationExists(locations, l.id);
  }

  lemma EditedRowsValid(locations: seq<Location>, nextId: nat, k: nat, l: Location)
    requires LocationsValid(locations, nextId)
    requires k < |locations| && l.id == locations[k].id
    requires LocationRowValid(l, nextId)
    ensures LocationsValid(locations[k := l], nextId)
  {
    var ls := locations[k := l];
    forall m | m in ls ensures LocationRowValid(m, nextId) {
      var i :| 0 <= i < |ls| && ls[i] == m;
      if i != k {
        assert locations[i] in locations;
      }
    }
  }

  /** Appending a new location with the next key keeps every guarantee. */
  lemma AddLocationValid(users: seq<User>, locations: seq<Location>, events: seq<ScanEvent>, nextId: nat, l: Location)
    requires TablesValid(users, locations, events, nextId) && LocationExists(locations, SeedLocationId)
    requires l.id == nextId
    requires LocationRowValid(l, nextId + 1)
    ensures TablesValid(users, locations + [l], events, nextId + 1)
    ensures LocationExists(locations + [l], SeedLocationId) && LocationExists(locations + [l], l.id)
  {
    var ls := locations + [l];
    assert ls[|locations|] == l;
    forall id | LocationExists(locations, id) ensures LocationExists(ls, id) {
      var k := FindLocation(locations, id).value;
      assert ls[k] in ls;
    }
    AddedRowsValid(locations, nextId, l);
    forall e | e in events ensures EventRowValid(e, users, ls, nextId + 1) {
      assert EventRowValid(e, users, locations, nextId);
    }
  }

  lemma AddedRowsValid(locations: seq<Location>, nextId: nat, l: Location)
    requires LocationsValid(locations, nextId)
    requires l.id == nextId && LocationRowValid(l, nextId + 1)
    ensures LocationsValid(locations + [l], nextId + 1)
  {
    var ls := locations + [l];
    forall a, b | 0 <= a < b < |ls| ensures ls[a].id != ls[b].id {
      assert ls[a] == locations[a] && locations[a] in locations;
      if b < |locations| {
        assert ls[b] == locations[b];
      }
    }
    forall m | m in ls ensures LocationRowValid(m, nextId + 1) {
      if m in locations {
        assert LocationRowValid(m, nextId);
      }
    }
  }

  /** Deleting an event keeps every guarantee. */
  lemma DeleteEventValid(users: seq<User>, locations: seq<Location>, events: seq<ScanEvent>, nextId: nat, id: Id)
    requires TablesValid(users, locations, events, nextId)
    ensures TablesValid(users, locations, DeleteEvent(events, id), nextId)
  {
  }

  /** Users with the same keys and student ids in the same places: every
      link into them still resolves. */
  lemma SameUserKeys(a: seq<User>, b: seq<User>)
    requires |a| == |b| && forall i :: 0 <= i < |a| ==> a[i].id == b[i].id
    ensures forall id :: UserExists(a, id) <==> UserExists(b, id)
  {
    forall id ensures UserExists(a, id) <==> UserExists(b, id) {
      if UserExists(a, id) {
        var u := FindUser(a, id).value;
        var k :| 0 <= k < |a| && a[k] == u;
        assert b[k] in b;
      }
      if UserExists(b, id) {
        var u := FindUser(b, id).value;
        var k :| 0 <= k < |b| && b[k] == u;
        assert a[k] in a;
      }
    }
  }

  /** A name edit keeps every guarantee: it changes neither keys nor student ids. */
  lemma EditNameValid(users: seq<User>, locations: seq<Location>, events: seq<ScanEvent>, nextId: nat, i: nat, name: string, us: seq<User>)
    requires TablesValid(users, locations, events, nextId)
    requires i < |events|
    requires |us| == |users|
    requires forall k :: 0 <= k < |users| ==> us[k].id == users[k].id && us[k].studentId == users[k].studentId
    ensures TablesValid(us, locations, RenameEvent(events, i, name), nextId)
  {
    var es := RenameEvent(events, i, name);
    SameUserKeys(users, us);
    assert UsersValid(us, nextId) by {
      forall u | u in us ensures u.id < nextId {
        var k :| 0 <= k < |us| && us[k] == u;
        assert users[k] in users;
      }
    }
    forall x | x in es ensures EventRowValid(x, us, locations, nextId) {
      var k :| 0 <= k < |es| && es[k] == x;
      assert events[k] in events;
      assert EventRowValid(events[k], users, locations, nextId);
    }
  }

  class MainWindow {
    /** The three tables. */
    var users: seq<User>
    var locations: seq<Location>
    var events: seq<ScanEvent>
    /** The next key to hand out (a fresh Guid in the application). */
    var nextId: nat
    /** LocationCombo.SelectedValue. */
    var selectedLocation: Option<Id>
    /** _selectedManageLocationId: the row selected in the manage grid. */
    var manageSelection: Option<Id>
    /** _kbBuffer: characters the keyboard hook has collected since the last Enter. */
    var kbBuffer: string

    /** The tables meet every database guarantee, the seed location exists,
        and the combo selects an existing location. */
    ghost predicate Valid()
      reads this
    {
      && TablesValid(users, locations, events, nextId)
      && LocationExists(locations, SeedLocationId)
      && selectedLocation.Some? && LocationExists(locations, selectedLocation.value)
    }

    /** The window over the database found on disk: EnsureCreatedAndSeed,
        then LoadLocations, which selects the location first by name. */
    constructor(users0: seq<User>, locations0: seq<Location>, events0: seq<ScanEvent>, nextId0: nat)
      requires TablesValid(users0, locations0, events0, nextId0)
      ensures Valid()
      ensures users == users0 && locations == Seeded(locations0) && events == events0 && nextId == nextId0
      ensures selectedLocation == Reselect(Seeded(locations0), None)
      ensures manageSelection.None? && kbBuffer == []
    {
      SeededValid(users0, locations0, events0, nextId0);
      users := users0;
      locations := Seeded(locations0);
      events := events0;
      nextId := nextId0;
      selectedLocation := Reselect(Seeded(locations0), None);
      manageSelection := None;
      kbBuffer := [];
    }

    /** `CurrentLocationId`: the combo's selection, or the seed location. */
    function CurrentLocationId(): (id: Id)
      reads this
      ensures Valid() ==> LocationExists(locations, id) && selectedLocation == Some(id)
      ensures selectedLocation.None? ==> id == SeedLocationId
    {
      if selectedLocation.Some? then selectedLocation.value else SeedLocationId
    }

    /** The occupancy panel of RefreshUi for the current location. */
    function OccupancyReport(): (r: Report)
      reads this
      ensures r.count == |Present(events, CurrentLocationId())|
      ensures r.capacityText == NoCapacityText <==> CapacityOf(locations, CurrentLocationId()).None?
      ensures CapacityOf(locations, CurrentLocationId()).Some? ==>
        r.capacityText == CapacityText(CapacityOf(locations, CurrentLocationId()))
      ensures r.status == OverCapacityText <==>
        CapacityOf(locations, CurrentLocationId()).Some? && r.count > CapacityOf(locations, CurrentLocationId()).value
    {
      var loc := CurrentLocationId();
      var cap := CapacityOf(locations, loc);
      var count := OccupancyCount(events, loc);
      Report(count, if cap.None? then NoCapacityText else ShowInt(cap.value), Status(count, cap))
    }

    /** ReloadLocationsAndKeepSelection: LoadLocations (which also clears the
        manage grid's selection) and then select selectId when given. */
    method ReloadLocationsAndKeepSelection(selectId: Option<Id>)
      requires selectId.Some? ==> LocationExists(locations, selectId.value)
      requires LocationExists(locations, SeedLocationId)
      requires TablesValid(users, locations, events, nextId)
      modifies this
      ensures Valid()
      ensures users == old(users) && locations == old(locations) && events == old(events)
      ensures nextId == old(nextId) && kbBuffer == old(kbBuffer)
      ensures selectedLocation == if selectId.Some? then selectId else Reselect(locations, old(selectedLocation))
      ensures selectedLocation.Some? && LocationExists(locations, selectedLocation.value)
      ensures manageSelection.None?
    {
      selectedLocation := Reselect(locations, selectedLocation);
      manageSelection := None;
      if selectId.Some? {
        selectedLocation := selectId;
      }
    }

    /** LocationsGrid_SelectionChanged: remember the row and fill the two
        boxes with its name and capacity (both empty when nothing is selected). */
    method SelectManageLocation(sel: Option<Location>) returns (nameText: string, capacityText: string)
      modifies this`manageSelection
      ensures manageSelection == if sel.Some? then Some(sel.value.id) else None
      ensures sel.Some? ==> nameText == sel.value.name && capacityText == CapacityText(sel.value.capacity)
      ensures sel.None? ==> nameText == [] && capacityText == []
    {
      if sel.Some? {
        manageSelection := Some(sel.value.id);
        nameText := sel.value.name;
        capacityText := CapacityText(sel.value.capacity);
      } else {
        manageSelection := None;
        nameText := "";
        capacityText := "";
      }
    }

    /** AddLocation_Click: a blank name is refused; otherwise a location with
        the trimmed name, the parsed capacity and a fresh key is added and
        selected in the combo. */
    method AddLocation(nameText: string, capacityText: string) returns (notice: Notice)
      requires Valid()
      modifies this
      ensures Valid()
      ensures notice == if IsBlank(Trim(nameText)) then EnterLocationName else LocationAdded
      ensures notice == EnterLocationName ==>
        && locations == old(locations) && nextId == old(nextId)
        && selectedLocation == old(selectedLocation) && manageSelection == old(manageSelection)
      ensures notice == LocationAdded ==>
        && locations == old(locations) + [EditedLocation(old(nextId), nameText, capacityText)]
        && nextId == old(nextId) + 1
        && selectedLocation == Some(old(nextId)) && manageSelection.None?
      ensures users == old(users) && events == old(events) && kbBuffer == old(kbBuffer)
    {
      if IsBlank(Trim(nameText)) {
        return EnterLocationName;
      }
      var loc := EditedLocation(nextId, nameText, capacityText);
      var locations' := locations + [loc];
      assert TablesValid(users, locations', events, nextId + 1)
        && LocationExists(locations', SeedLocationId) && LocationExists(locations', loc.id) by {
        AddLocationValid(users, locations, events, nextId, loc);
      }
      locations, nextId := locations', nextId + 1;
      ReloadLocationsAndKeepSelection(Some(loc.id));
      notice := LocationAdded;
    }

    /** SaveLocation_Click: with a row selected that still exists, rewrite it
        with the trimmed name (blank allowed) and the parsed capacity (null
        when it does not parse), and select it in the combo. */
    method SaveLocation(nameText: string, capacityText: string) returns (notice: Notice)
      requires Valid()
      modifies this
      ensures Valid()
      ensures old(manageSelection).None? ==> notice == SelectLocationToSave && unchanged(this)
      ensures old(manageSelection).Some? && !LocationExists(old(locations), old(manageSelection).value) ==>
        notice == LocationNotFound && unchanged(this)
      ensures old(manageSelection).Some? && LocationExists(old(locations), old(manageSelection).value) ==>
        notice == LocationUpdated && selectedLocation == old(manageSelection) && manageSelection.None?
      ensures old(manageSelection).Some? && LocationExists(old(locations), old(manageSelection).value) ==>
        locations == old(locations)[FindLocation(old(locations), old(manageSelection).value).value :=
                                    EditedLocation(old(manageSelection).value, nameText, capacityText)]
      ensures users == old(users) && events == old(events) && nextId == old(nextId) && kbBuffer == old(kbBuffer)
    {
      if manageSelection.None? {
        return SelectLocationToSave;
      }
      var id := manageSelection.value;
      var found := FindLocation(locations, id);
      if found.None? {
        return LocationNotFound;
      }
      var k := found.value;
      var loc := EditedLocation(id, nameText, capacityText);
      SaveKeepsValid(users, locations, events, nextId, k, loc);
      locations := locations[k := loc];
      ReloadLocationsAndKeepSelection(Some(id));
      notice := LocationUpdated;
    }

    /** DeleteLocation_Click: nothing selected, the seed location, or a
        declined confirmation change nothing; otherwise the location goes, and
        with it every event recorded there (the foreign key cascades). */
    method DeleteLocation(confirmed: bool) returns (notice: Notice)
      requires Valid()
      modifies this
      ensures Valid()
      ensures old(manageSelection).None? ==> notice == SelectLocationToDelete
      ensures old(manageSelection) == Some(SeedLocationId) ==> notice == CannotDeleteSeed
      ensures old(manageSelection).Some? && old(manageSelection) != Some(SeedLocationId) ==>
        notice == if confirmed then LocationDeleted else Silent
      ensures notice != LocationDeleted ==>
        && locations == old(locations) && events == old(events)
        && selectedLocation == old(selectedLocation) && manageSelection == old(manageSelection)
      ensures notice == LocationDeleted ==>
        && locations == RemoveLocation(old(locations), old(manageSelection).value)
        && events == EventsNotAt(old(events), old(manageSelection).value)
        && selectedLocation == Reselect(locations, old(selectedLocation))
        && manageSelection.None?
      ensures users == old(users) && nextId == old(nextId) && kbBuffer == old(kbBuffer)
    {
      if manageSelection.None? {
        return SelectLocationToDelete;
      }
      var id := manageSelection.value;
      if id == SeedLocationId {
        return CannotDeleteSeed;
      }
      if !confirmed {
        return Silent;
      }
      RemoveLocationAndEvents(id);
      notice := LocationDeleted;
    }

    /** The confirmed branch of DeleteLocation_Click: remove the location and,
        through the cascade, every event recorded there; then reload the combo. */
    method RemoveLocationAndEvents(id: Id)
      requires Valid() && id != SeedLocationId
      modifies this
      ensures Valid()
      ensures locations == RemoveLocation(old(locations), id) && events == EventsNotAt(old(events), id)
      ensures selectedLocation == Reselect(locations, old(selectedLocation)) && manageSelection.None?
      ensures users == old(users) && nextId == old(nextId) && kbBuffer == old(kbBuffer)
    {
      var locations', events' := RemoveLocation(locations, id), EventsNotAt(events, id);
      assert TablesValid(users, locations', events', nextId) && LocationExists(locations', SeedLocationId) by {
        DeleteLocationValid(users, locations, events, nextId, id);
      }
      locations, events := locations', events';
      ghost var selected := selectedLocation;
      ReloadLocationsAndKeepSelection(None);
      assert selectedLocation == Reselect(locations', selected);
    }

    /** RecordEvent(type, idRaw) with the name boxes holding firstText and
        lastText, at the current location, at time now. */
    method RecordEvent(eventType: string, idRaw: string, firstText: string, lastText: string, now: nat) returns (notice: Notice)
      requires Valid()
      modifies this
      ensures Valid()
      ensures Record(old(users), old(events), old(nextId), old(CurrentLocationId()), eventType, idRaw, firstText, lastText, now)
              == Recorded(users, events, nextId, notice)
      ensures locations == old(locations) && selectedLocation == old(selectedLocation)
      ensures manageSelection == old(manageSelection) && kbBuffer == old(kbBuffer)
    {
      var loc := CurrentLocationId();
      RecordKeepsValid(users, locations, events, nextId, loc, eventType, idRaw, firstText, lastText, now);
      var r := Record(users, events, nextId, loc, eventType, idRaw, firstText, lastText, now);
      users, events, nextId := r.users, r.events, r.nextId;
      notice := r.notice;
    }

    /** HookCallback for one key-down: an ignored key changes nothing, a
        character is buffered, and Enter empties the buffer and records an
        entry for the buffered line with its white space taken out. */
    method HookKeyDown(key: int, firstText: string, lastText: string, now: nat) returns (notice: Notice)
      requires Valid()
      modifies this
      ensures Valid()
      ensures kbBuffer == KeyDown(old(kbBuffer), key).0
      ensures KeyDown(old(kbBuffer), key).1.None? ==>
        notice == Silent && users == old(users) && events == old(events) && nextId == old(nextId)
      ensures KeyDown(old(kbBuffer), key).1.Some? ==>
        var r := Record(old(users), old(events), old(nextId), old(CurrentLocationId()), Entry,
                        KeyDown(old(kbBuffer), key).1.value, firstText, lastText, now);
        users == r.users && events == r.events && nextId == r.nextId && notice == r.notice
      ensures locations == old(locations) && selectedLocation == old(selectedLocation)
      ensures manageSelection == old(manageSelection)
    {
      var ch := VkToChar(key);
      notice := Silent;
      if ch != '\0' {
        if ch == '\r' || ch == '\n' {
          var raw := kbBuffer;
          kbBuffer := [];
          var cleaned := RemoveWhiteSpace(raw);
          notice := RecordEvent(Entry, cleaned, firstText, lastText, now);
        } else {
          kbBuffer := kbBuffer + [ch];
        }
      }
    }

    /** DeleteEntry_Click on the selected grid row (None when no row with an
        id is selected, as after a search): after confirmation the event with
        that id is removed; a missing id removes nothing. */
    method DeleteEntry(selected: Option<Id>, confirmed: bool) returns (notice: Notice)
      requires Valid()
      modifies this`events
      ensures Valid()
      ensures selected.None? ==> notice == SelectEventToDelete && events == old(events)
      ensures selected.Some? && !confirmed ==> notice == Silent && events == old(events)
      ensures selected.Some? && confirmed ==> notice == Silent && events == DeleteEvent(old(events), selected.value)
    {
      if selected.None? {
        return SelectEventToDelete;
      }
      if !confirmed {
        return Silent;
      }
      DeleteEventValid(users, locations, events, nextId, selected.value);
      events := DeleteEvent(events, selected.value);
      notice := Silent;
    }

    /** EventsGrid_CellEditEnding on the row of event `selected` with the
        edited text: the event's NameAtScan becomes the trimmed text, and a
        linked user that still exists takes its first word as first name and
        the rest, when there is a rest, as last name. */
    method EditEventName(selected: Option<Id>, text: string)
      requires Valid()
      modifies this`events, this`users
      ensures Valid()
      ensures selected.None? || FindEvent(old(events), selected.value).None? ==>
        events == old(events) && users == old(users)
      ensures selected.Some? && FindEvent(old(events), selected.value).Some? ==>
        events == RenameEvent(old(events), FindEvent(old(events), selected.value).value, Trim(text))
      ensures selected.Some? && FindEvent(old(events), selected.value).Some? ==>
        users == RenameLinkedUser(old(users), old(events)[FindEvent(old(events), selected.value).value].userId, Trim(text))
    {
      if selected.None? {
        return;
      }
      var found := FindEvent(events, selected.value);
      if found.None? {
        return;
      }
      var i := found.value;
      var newVal := Trim(text);
      var users' := RenameLinkedUser(users, events[i].userId, newVal);
      var events' := RenameEvent(events, i, newVal);
      assert TablesValid(users', locations, events', nextId) by {
        EditNameValid(users, locations, events, nextId, i, newVal, users');
      }
      events, users := events', users';
    }
  }
}
