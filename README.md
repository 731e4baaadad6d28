# Makerspace access logger — a Dafny model of the scan pipeline

The application is a WPF desktop tool for a makerspace front desk. A card
scanner or the keyboard supplies a student id. The id is normalised, and the
student is looked up in the Users table or created there. One scan event is
appended to the Events table. For the location selected in the window, the
count of people inside is derived from the event log and compared with the
location's capacity. Operators manage the Locations table (add, save,
delete, with a protected seed location). They can also delete or rename
events in the log, and search it.

This project models that pipeline on three in-memory tables and proves its
properties:

- `Text`: the .NET string primitives the handlers use. These are
  `IsNullOrWhiteSpace`, `Trim`, the regular expressions `\D` and `\s+`,
  `Contains`, `Split(' ', 2, RemoveEmptyEntries)`, `int.TryParse` and
  `Int32.ToString`.
- `Models`: the `User`, `Location`, `ScanEvent` and `ScanEventView` records,
  the seed constants, and the "First Last" display name.
- `Normalizer`: `NormalizeScannedId`.
- `Directory`: `GetOrCreateUser`, keyed by the unique student id.
- `Locations`: lookup, the capacity box, the row a save writes, seeding
  (`EnsureCreatedAndSeed`), removal, and the location `LoadLocations` picks
  first by name.
- `Occupancy`: the occupancy block of `RefreshUi` as a pure function of the
  log (latest event per student at the location, counted when it is an
  entry), and the capacity status line.
- `EventLog`: event lookup and deletion, the rename cascade into the linked
  user, the newest-first page of 200 events, the grid rows, the search filter,
  and the cascade of a location delete into its events.
- `Recording`: `RecordEvent` as a function on the tables, and the database
  guarantees (unique keys, unique student ids, foreign keys that resolve)
  that every handler keeps.
- `Keyboard`: the background keyboard hook's `VkToChar` and its line buffer.
- `Window`: a `MainWindow` class whose fields are the three tables, the
  next fresh key, the location combo's selection, the manage grid's
  selection and the hook buffer. It has one method per handler that changes
  them.

Modelling choices:

- A `Guid` key is a natural number. The seed location's well-known id is 0.
  Fresh keys come from a counter in the window, and every fresh key is above
  all keys in use.
- A scan reserves two keys, whether or not it creates a user: `nextId` is
  for the user and `nextId + 1` is for the event.
- `DateTime.UtcNow` becomes a parameter `now`, a number of ticks.
- A confirmation dialog becomes a `confirmed` parameter. A `MessageBox` that
  a handler shows becomes the `Notice` it returns.
- The selected grid row becomes an `Option` of the event's id. It is `None`
  when no row with an id is selected, as after a search, whose rows carry no
  id.
- `StudentIdBox_KeyDown` and `CheckInBtn_Click` both call `RecordEvent("entry")`
  with the text box contents. Both are covered by `MainWindow.RecordEvent`
  with the event type `Entry`.
- Deleting a location also removes every event recorded there. The model
  assumes the database cascades the delete, as Entity Framework Core
  configures a required foreign key by default.
- When two events of one student at a location have the same timestamp, the
  one appended later counts as the latest.
- The window starts from tables that already meet the database guarantees,
  including location names stored trimmed. This holds for a database written
  only by this application.
- `Window.Reselect` assumes that WPF clears the combo's `SelectedValue` when
  the reloaded items no longer hold it. `LoadLocations` picks the first
  location by name only when `SelectedValue` is null
  (MainWindow.xaml.cs:354), so a selection that still exists stays.

A few behaviours of the code may be unexpected; the model follows the code:

- `NormalizeScannedId` is not idempotent. Applied again, it drops two more
  digits (`Normalizer.NotIdempotent`: "12345" gives "123", and "123" gives
  "1").
- `SaveLocation_Click` accepts a blank name and stores it as the empty
  string. Only `AddLocation_Click` refuses a blank name.
- `DeleteLocation_Click` on an id that no longer exists removes nothing but
  still reports "Location deleted." It does not report a not-found error.
- `DeleteEntry_Click` shows no message after a delete.

## Model

| member | source | states |
|---|---|---|
| Text.Trim | MainWindow.xaml.cs:392 | The result is a contiguous piece of the input with only white space cut from either end; it is empty exactly when the input is blank, and otherwise starts and ends with a non-white-space character |
| Text.IsBlank | MainWindow.xaml.cs:393 | `string.IsNullOrWhiteSpace`: every character is white space, the empty string included |
| Text.DigitsOf | MainWindow.xaml.cs:520 | `Regex.Replace(raw, "\\D", "")` keeps only digits, never lengthens the text, and is empty exactly when the input has no digit; `DigitsOfConcat` and `DigitsOfChar` fix which digits, in which order |
| Text.DigitsOfChar | MainWindow.xaml.cs:520 | A single character is kept exactly when it is a digit |
| Text.DigitsOfConcat | MainWindow.xaml.cs:520 | The digits of a concatenation are the digits of each part, in order, so every digit of the input is kept and nothing else |
| Text.RemoveWhiteSpace | MainWindow.xaml.cs:298 | `Regex.Replace(raw, "\\s+", "")` leaves no white space and keeps every other character |
| Text.RemoveWhiteSpaceChar | MainWindow.xaml.cs:298 | A single character is dropped exactly when it is white space |
| Text.RemoveWhiteSpaceConcat | MainWindow.xaml.cs:298 | Removing white space from a concatenation removes it from each part and keeps their order, so nothing is added or reordered |
| Text.DigitsOfRemoveWhiteSpace | MainWindow.xaml.cs:298 | Taking white space out of a line never adds, drops or reorders a digit |
| Text.SplitOnce | MainWindow.xaml.cs:689 | `Split(' ', 2, RemoveEmptyEntries)` gives at most two non-empty parts, none exactly when the text is all spaces. After the leading spaces, the first part is the text up to the first space. A second part exists exactly when something other than spaces follows; it is then all of that, from its first non-space character on (`FirstTokenSplit`) |
| Text.SplitOnceJoined | MainWindow.xaml.cs:689 | "First Last" with a one-word first name splits back into exactly [First, Last] |
| Text.SplitOnceSingle | MainWindow.xaml.cs:689 | A single word with no space splits into just itself |
| Text.SplitOnceSuffix | MainWindow.xaml.cs:689 | The second part of a split is the end of the text split |
| Text.Contains | MainWindow.xaml.cs:608-613 | `string.Contains(q)`: q occurs somewhere in the text as a contiguous piece |
| Text.ParseInt32 | MainWindow.xaml.cs:399 | `int.TryParse` accepts only numerals (`IsNumeral`: digits with an optional leading sign) whose value fits in 32 bits, so blank text, "abc" and "12x" are rejected |
| Text.ParseInt32Numeral | MainWindow.xaml.cs:399 | Every numeral, with or without a sign or leading zeros, is read as its signed decimal value, and accepted exactly when that value fits in 32 bits ("+5" gives 5, "007" gives 7) |
| Text.ParseShowInt | MainWindow.xaml.cs:380 | A 32-bit capacity written by `ToString()` is parsed back to the same value |
| Text.ShowInt | MainWindow.xaml.cs:380 | `Int32.ToString()` writes a non-negative value as its decimal digits, and a negative one as '-' followed by the digits of its magnitude, never with a leading zero except for 0 itself |
| Models.FullName | MainWindow.xaml.cs:548 | The trimmed "First Last" is empty exactly when both names are blank |
| Models.DisplayName | MainWindow.xaml.cs:477 | The grid shows NameAtScan unless it is blank; then it shows the linked user's current full name, or the empty string when there is no user |
| Models.NewUser | MainWindow.xaml.cs:505 | The user `GetOrCreateUser` creates: the given key, student id and names, no email, status "active" and the current time (the defaults of Models.cs:7-16) |
| Models.NewScanEvent | MainWindow.xaml.cs:544-553 | The event `RecordEvent` builds: the user's key, student id and full name, the type, location and time, and the "{}" payload |
| Models.SeedLocation | AccessContext.cs:28 | The seed row: the well-known key, "Main Space" and capacity 100 |
| Normalizer.NormalizeScannedId | MainWindow.xaml.cs:516-526 | Blank input comes back unchanged. Otherwise the result is all digits and a prefix of the input's digits: exactly those digits when there are at most two, two fewer when there are more. It is blank exactly when the input has no digit |
| Normalizer.NotIdempotent | MainWindow.xaml.cs:523-524 | Normalising twice is not normalising once: "12345" gives "123", and "123" gives "1" |
| Normalizer.NormalizeDigits | MainWindow.xaml.cs:523-524 | An all-digit scan longer than two loses exactly its last two digits |
| Normalizer.NormalizeIgnoresWhiteSpace | MainWindow.xaml.cs:296-299 | Taking the white space out of a hook line before normalising gives the same id, and blank exactly when the raw line's id is blank |
| Directory.FindByStudentId | MainWindow.xaml.cs:502 | `FirstOrDefault` finds the first user with the student id, and finds nothing exactly when no user has it |
| Directory.UniqueStudentIds | AccessContext.cs:26 | The unique index on StudentId: no two users share a student id |
| Directory.FindUser | MainWindow.xaml.cs:686 | `Users.Find` returns a stored user with the key, and nothing exactly when no user has it |
| Directory.FindUserIndex | MainWindow.xaml.cs:686 | The position of a user with the key, and nothing exactly when no user has it |
| Directory.MergeNames | MainWindow.xaml.cs:510-511 | An existing user takes a supplied name only when it is not blank, and nothing else changes |
| Directory.GetOrCreate | MainWindow.xaml.cs:500-514 | A user is created exactly when no user has the student id. The new user has the fresh key, the given names, status "active", no email and the current time, and is appended. Otherwise the row `FirstOrDefault` finds is replaced in place by `MergeNames` of it, and that merged row is the user returned. Keys and student ids of existing rows never change, and unique student ids stay unique |
| Directory.GetOrCreateTwice | MainWindow.xaml.cs:500-514 | Resolving the same student id twice creates no second user, and the second call with blank names leaves the table and the user as the first call left them |
| Locations.FindLocation | MainWindow.xaml.cs:418 | `Locations.Find` returns the position of the location with the key, and nothing exactly when there is none |
| Locations.CapacityOf | MainWindow.xaml.cs:493 | The capacity of the location with the key: that stored row's capacity when the key is found, and null when it is not |
| Locations.LocationName | MainWindow.xaml.cs:478 | An event's location name is that location's name, or "?" when the location is gone |
| Locations.ParseCapacity | MainWindow.xaml.cs:399 | The capacity box gives a 32-bit value or null; it gives null whenever it is blank and whenever its trimmed text is not a numeral |
| Locations.CapacityText | MainWindow.xaml.cs:380 | The capacity box is empty exactly when the capacity is null |
| Locations.CapacityRoundTrip | MainWindow.xaml.cs:423 | The text shown for a capacity parses back to that capacity, null included |
| Locations.BlankTrim | MainWindow.xaml.cs:392-393 | The trimmed name is blank exactly when the typed name is |
| Locations.EditedLocation | MainWindow.xaml.cs:421-424 | A saved row keeps its key and gets the trimmed name and the capacity `ParseCapacity` reads from the box (a 32-bit value, or null exactly when the box does not parse) |
| Locations.SaveUntouched | MainWindow.xaml.cs:376-380 | Selecting a stored location and saving it without edits writes back the same row |
| Locations.Seeded | AccessContext.cs:33-42 | Afterwards the seed location exists. Tables without it gain exactly the seed row ("Main Space", capacity 100). Tables with it are unchanged, so an existing seed keeps its name and capacity. Unique keys stay unique |
| Locations.SeededIdempotent | AccessContext.cs:37 | Seeding twice is seeding once |
| Locations.RemoveLocation | MainWindow.xaml.cs:450-455 | Exactly the location with the key goes, the others stay, and an unknown key changes nothing |
| Locations.RemoveLocationUnique | MainWindow.xaml.cs:453 | Removing a location keeps the primary key unique |
| Locations.RemoveLocationCount | MainWindow.xaml.cs:450-455 | Removing a stored location removes exactly one row |
| Locations.FirstByName | MainWindow.xaml.cs:350-355 | `OrderBy(l => l.Name).First()` picks a stored location whose name no other name precedes, and nothing only for an empty table |
| Occupancy.AtLocation | MainWindow.xaml.cs:487 | The filtered log holds exactly the events at the location |
| Occupancy.Latest | MainWindow.xaml.cs:488-489 | The latest event of a student has no later event of that student, and none at an equal timestamp after it; it is missing exactly when the student has no event |
| Occupancy.LatestIsUnique | MainWindow.xaml.cs:489 | Each student's group has one latest event |
| Occupancy.Inside | MainWindow.xaml.cs:488-491 | The students whose latest event is an entry; each of them has an event in the log |
| Occupancy.Present | MainWindow.xaml.cs:486-492 | The students inside at a location, all of them seen there |
| Occupancy.InsideIff | MainWindow.xaml.cs:488-491 | A student is inside exactly when the event `OrderByDescending(..).First()` picks from their group is an entry |
| Occupancy.OccupancyCount | MainWindow.xaml.cs:492 | The count never exceeds the number of distinct students seen at the location |
| Occupancy.Status | MainWindow.xaml.cs:497 | "OVER CAPACITY" exactly when a capacity is set and the count is strictly above it; otherwise "OK", for an unbounded location and a full one alike |
| Occupancy.OtherLocationUnchanged | MainWindow.xaml.cs:486-492 | An event at another location changes neither who is present nor the count |
| Occupancy.AppendLatest | MainWindow.xaml.cs:486-492 | A student's new latest event decides their status alone: an entry puts them inside, any other type takes them out, and every other student keeps their status |
| Occupancy.EntryCountsOnce | MainWindow.xaml.cs:492 | A repeated entry leaves the count as it was; an entry from someone outside adds exactly one |
| Occupancy.LatestExitRemoves | MainWindow.xaml.cs:492 | A latest event other than an entry takes the student out, and lowers the count by one when they were inside |
| Occupancy.OlderEventUnchanged | MainWindow.xaml.cs:489 | An event stamped before the student's latest one at the location changes nothing, whatever order it arrives in |
| Occupancy.DeleteOlderUnchanged | MainWindow.xaml.cs:486-492 | Removing an event at another location, or one older than a later event of the same student, leaves who is present as it was |
| Occupancy.DeleteKeepsOthers | MainWindow.xaml.cs:659-663 | Deleting any event, a student's latest included, keeps every other student's status at every location; the student whose event went is inside exactly when their latest remaining event there is an entry |
| Occupancy.InsideRemoveOthers | MainWindow.xaml.cs:488-491 | Removing one event from a location's log keeps the status of every other student |
| Occupancy.PresentShape | MainWindow.xaml.cs:486-492 | Occupancy reads only student, type, location and time: logs that differ in names, links, keys or payloads have the same occupants and count |
| EventLog.FindEvent | MainWindow.xaml.cs:659 | `Events.Find` returns the position of the event with the key, and nothing exactly when there is none |
| EventLog.DeleteEvent | MainWindow.xaml.cs:659-663 | With unique keys exactly the event with the key goes and every other stays; the log shrinks by one when it was there, and an unknown key changes nothing |
| EventLog.DeleteEventOccupancy | MainWindow.xaml.cs:659-663 | Deleting an event elsewhere, or one superseded by a later event of the same student, leaves occupancy as it was |
| EventLog.RenameUser | MainWindow.xaml.cs:689-691 | Only the names change. The first part of the split becomes the first name, and the second part, when there is one, the last name; otherwise the last name stays. An all-space text changes nothing |
| EventLog.RenameToFullName | MainWindow.xaml.cs:689-691 | Editing an event's name to its user's own "First Last" leaves that user's names as they were |
| EventLog.RenameOneWord | MainWindow.xaml.cs:689-691 | A one-word edit sets the first name to that word and keeps the last name |
| EventLog.RenameLinkedUser | MainWindow.xaml.cs:684-693 | With unique keys only the linked user, when it still exists, is renamed; no key or student id changes, and an event without a user changes no user |
| EventLog.Insert | MainWindow.xaml.cs:468 | Inserting an event keeps a list newest first and adds just that event |
| EventLog.NewestFirst | MainWindow.xaml.cs:468 | `OrderByDescending(TimestampUtc)` holds the same events, newest first |
| EventLog.NewestPage | MainWindow.xaml.cs:468-469 | `Take(200)` gives at most 200 events of the log, newest first, all of them when there are no more, exactly 200 otherwise |
| EventLog.NewestPageIsNewest | MainWindow.xaml.cs:468-469 | Every event left off the page is no newer than any event on it |
| EventLog.ToView | MainWindow.xaml.cs:471-479 | A grid row keeps its event's key, type and student id, shows the event's display name with its linked user and the name of its location, and leaves UserId unset |
| EventLog.RecentViews | MainWindow.xaml.cs:465-480 | The grid has one row per event of the newest page, in order, each the `ToView` of its event |
| EventLog.LinkedUser | MainWindow.xaml.cs:467 | `e.User` is the stored user whose key the event holds, found by `FindUser`, and nothing when the event holds no key |
| EventLog.Filter | MainWindow.xaml.cs:605-614 | The search keeps exactly the events whose student id, linked user's first or last name, or NameAtScan contains the query, and keeps all of them for a blank query |
| EventLog.Matches | MainWindow.xaml.cs:607-613 | The search predicate: the query occurs in the student id, in the linked user's first or last name, or in NameAtScan |
| EventLog.SearchPage | MainWindow.xaml.cs:601-616 | The search shows the newest page of the filtered log; a blank query shows the same page as the grid. A matching event left off the page means the page is full and every event on it is at least as new |
| EventLog.Search | MainWindow.xaml.cs:616-625 | One search row per event of the search page, in order, with its type, student id, display name and location name |
| EventLog.EventsNotAt | MainWindow.xaml.cs:449-455 | The cascade keeps exactly the events at other locations, and unique keys stay unique |
| EventLog.EventsNotAtOthers | MainWindow.xaml.cs:449-455 | After a location delete, the deleted location has no events, and every other location keeps its log and occupants |
| EventLog.RenameEvent | MainWindow.xaml.cs:680 | Only the edited event changes, and only its NameAtScan |
| EventLog.RenameKeepsPresence | MainWindow.xaml.cs:680 | A name edit never changes who is present or the count |
| Recording.Record | MainWindow.xaml.cs:528-560 | A blank normalised id changes nothing and asks for a student id. Otherwise the users are those `GetOrCreateUser` leaves, and exactly one event is appended with every earlier one kept. It carries the normalised id, the resolved user's key and full name, the type, location and time, and the "{}" payload |
| Recording.TablesValid | AccessContext.cs:26 | The database guarantees: a fresh key above every key in use, unique keys, unique student ids, and event links that resolve |
| Recording.RecordKeepsValid | MainWindow.xaml.cs:541-554 | A scan at an existing location keeps unique keys, unique student ids and resolving foreign keys |
| Recording.RecordPresence | MainWindow.xaml.cs:544-553 | A scan with no later event of the student puts them inside exactly when it is an entry, and moves the count by at most one |
| Recording.RecordElsewhere | MainWindow.xaml.cs:550 | A scan leaves who is present at every other location as it was |
| Recording.RecordLateArrival | MainWindow.xaml.cs:551 | A scan stamped before the student's latest event there changes nothing about who is present |
| Recording.RecordTwice | MainWindow.xaml.cs:542 | Scanning one card twice creates at most one user, and the second scan with empty name boxes leaves the users as they were |
| Keyboard.VkToChar | MainWindow.xaml.cs:310-321 | Either row of digit keys gives its digit, each letter key gives its own capital, Space gives ' ', Enter gives '\r', and every other key gives '\0' |
| Keyboard.KeyDown | MainWindow.xaml.cs:292-304 | An ignored key changes nothing; Enter empties the buffer and hands on the line without white space; any other key is appended |
| Keyboard.Feed | MainWindow.xaml.cs:285-308 | A run of key-downs hands on at most one line per key, none containing white space; with no Enter it hands on none and only appends to the buffer |
| Keyboard.FeedDigits | MainWindow.xaml.cs:303 | Typing digits appends exactly those digits to the buffer and hands on no line |
| Keyboard.ScanLine | MainWindow.xaml.cs:294-299 | Digits followed by Enter hand on exactly one line (the earlier buffer then the digits, without white space) and leave the buffer empty |
| Window.Reselect | MainWindow.xaml.cs:354-355 | After a reload a selection that still exists stays; otherwise an existing location is picked, and nothing only when there are none |
| Window.ReselectPicksFirstByName | MainWindow.xaml.cs:350-355 | When the selection is gone, the picked location comes first by name |
| Window.SeededValid | MainWindow.xaml.cs:29 | Seeding at start-up keeps the database guarantees and leaves the seed location present |
| Window.AddLocationValid | MainWindow.xaml.cs:401-404 | Adding a row with a fresh key keeps the guarantees, the seed and the new row |
| Window.SaveKeepsValid | MainWindow.xaml.cs:421-426 | Rewriting a stored row under its own key keeps the guarantees, the seed and the row |
| Window.DeleteLocationValid | MainWindow.xaml.cs:449-455 | Removing a non-seed location with its events keeps the guarantees and the seed |
| Window.DeleteEventValid | MainWindow.xaml.cs:658-663 | Deleting an event keeps the guarantees |
| Window.EditNameValid | MainWindow.xaml.cs:675-693 | A name edit keeps the guarantees, since it changes no key or student id |
| Window.MainWindow.constructor | MainWindow.xaml.cs:26-32 | The window opens on the seeded tables with the location first by name selected, no manage selection and an empty buffer, and the guarantees hold |
| Window.MainWindow.CurrentLocationId | MainWindow.xaml.cs:344-345 | The current location is the combo's selection, or the seed location when nothing is selected; in a valid window it exists |
| Window.MainWindow.OccupancyReport | MainWindow.xaml.cs:486-497 | The panel shows the number of occupants of the current location; the capacity as the capacity box writes it, or "—" exactly when it is unbounded; and "OVER CAPACITY" exactly when the count is above its capacity |
| Window.MainWindow.ReloadLocationsAndKeepSelection | MainWindow.xaml.cs:362-371 | A reload changes no table. It selects the requested location, or otherwise keeps or re-picks the selection, and it clears the manage selection |
| Window.MainWindow.SelectManageLocation | MainWindow.xaml.cs:374-388 | Selecting a row remembers its key and fills the boxes with its name and capacity; no row clears the key and both boxes |
| Window.MainWindow.AddLocation | MainWindow.xaml.cs:390-408 | A blank name is refused and changes nothing. Otherwise exactly the edited row with a fresh key is appended and selected, and the guarantees hold |
| Window.MainWindow.SaveLocation | MainWindow.xaml.cs:410-429 | With no selection, or a selection that no longer exists, it reports so and changes nothing. Otherwise the selected row is rewritten in place with the edited name and capacity and selected in the combo |
| Window.MainWindow.DeleteLocation | MainWindow.xaml.cs:431-459 | No selection, the seed location, or a declined confirmation changes nothing. Otherwise the location and its events go, the combo re-selects, and "Location deleted." is shown |
| Window.MainWindow.RemoveLocationAndEvents | MainWindow.xaml.cs:449-457 | The confirmed delete removes the location and every event there, keeps the guarantees and the seed, and re-selects in the combo |
| Window.MainWindow.RecordEvent | MainWindow.xaml.cs:528-560 | The tables and the message are those `Record` gives at the current location, the guarantees hold, and no selection changes |
| Window.MainWindow.HookKeyDown | MainWindow.xaml.cs:285-308 | The buffer follows `KeyDown`. A key that ends no line changes no table. Enter records an entry for the cleaned line at the current location |
| Window.MainWindow.DeleteEntry | MainWindow.xaml.cs:648-666 | No selected row asks for one, and a declined confirmation changes nothing. Otherwise the event with the row's key is deleted and the guarantees hold |
| Window.MainWindow.EditEventName | MainWindow.xaml.cs:668-700 | For an event that still exists, its NameAtScan becomes the trimmed text and the linked user is renamed from it; otherwise nothing changes, and the guarantees hold |

## Left out

- The Win32 low-level keyboard hook, Raw Input registration and the
  P/Invoke declarations (MainWindow.xaml.cs:35-340) are operating-system
  interop. `HookKeyDown` starts from the WPF `Key` value that
  `KeyInterop.KeyFromVirtualKey` returns, and only for key-down messages.
- `Dispatcher.Invoke` is cross-thread marshalling. The hook's call into
  `RecordEvent` is modelled as a direct call.
- WPF controls, focus, and clearing `StudentIdBox` after a scan are user
  interface state with no bearing on the tables.
  `EventsGrid_MouseRightButtonUp` only selects a row, and the selected row is
  a parameter.
- `Refresh_Click`, `ClearSearch_Click` and the `RefreshUi` calls at the end
  of each handler only redraw. The grid and the occupancy panel are
  functions of the tables (`RecentViews`, `OccupancyReport`).
- Entity Framework Core and SQLite are persistence: the database path, the
  connection per operation, `SaveChanges`, and the
  `(LocationId, TimestampUtc)` index. Each handler is modelled as one atomic
  change to in-memory tables. Persistence errors are not modelled.
- CSV export (`Export_Click`, MainWindow.xaml.cs:574-595) is file I/O with
  culture formatting.
- The local-time column of the grid and of search rows
  (`ToLocalTime().ToString(...)`) depends on time zone and culture.
- `Guid.NewGuid()` and `DateTime.UtcNow` are replaced by a key counter and
  the `now` parameter.
- The initialisers of `ScanEvent.ScannedStudentId`, `NameAtScan` and
  `EventType` (Models.cs:31-33) are never observable in the core, since
  every event built there sets all three.
- Window.MainWindow.EditEventName: the source writes NameAtScan whichever text column
  of the row was edited. An edit whose editing element is not a text box
  changes nothing, which is the same as calling it with no row.
- Occupancy.Latest: equal timestamps are broken in favour of the event
  appended later. The SQL query the source runs fixes no order among equal
  timestamps.
- Text.DigitsOf: keeps the ASCII digits only. The .NET class `\D` also
  treats other Unicode decimal digits as digits.
- Text.ParseInt32: accepts an optional ASCII sign followed by ASCII digits.
  The current culture's positive and negative signs, when they differ from
  '+' and '-', are not modelled. Neither are the trailing NUL characters
  that `int.TryParse` ignores ("12\0" gives 12); the model rejects them.
- Text.ShowInt: writes '-' for a negative value. `Int32.ToString()` uses the
  current culture's negative sign.
- Text.Contains: ordinal and case-sensitive. With SQLite, case sensitivity
  depends on the database collation.
- Locations.FirstByName: orders names ordinally, character by character.
  The database's collation may order them differently.
