/** The Events table seen from the grid: lookup and deletion by id, the
    rename cascade into the linked user, the newest-first listing and the
    search filter. */
module EventLog {
  import opened Wrappers
  import opened Text
  import opened Models
  import opened Directory
  import opened Locations
  import opened Occupancy

  /** How many rows the grid shows (`Take(200)`). */
  const PageSize: nat := 200

  ghost predicate UniqueEventIds(es: seq<ScanEvent>) {
    forall i, j :: 0 <= i < j < |es| ==> es[i].id != es[j].id
  }

  /** `Events.Find(id)`, as an index. */
  function FindEvent(es: seq<ScanEvent>, id: Id): (r: Option<nat>)
    ensures r.None? <==> forall e :: e in es ==> e.id != id
    ensures r.Some? ==> r.value < |es| && es[r.value].id == id
  {
    if es == [] then None
    else if es[0].id == id then Some(0)
    else
      var r := FindEvent(es[1..], id);
      assert forall e :: e in es <==> e == es[0] || e in es[1..];
      if r.None? then None else Some(r.value + 1)
  }

  /** DeleteEntry: remove the event with this id; a missing id changes nothing. */
  function DeleteEvent(es: seq<ScanEvent>, id: Id): (r: seq<ScanEvent>)
    ensures (forall e :: e in es ==> e.id != id) ==> r == es
    ensures UniqueEventIds(es) ==> forall e :: e in r <==> e in es && e.id != id
    ensures UniqueEventIds(es) ==> UniqueEventIds(r)
    ensures (exists e :: e in es && e.id == id) ==> |r| == |es| - 1
  {
    match FindEvent(es, id)
    case None => es
    case Some(i) =>
      var r := RemoveAt(es, i);
      assert forall j :: 0 <= j < |r| ==> r[j] == es[if j < i then j else j + 1];
      assert forall e :: e in r ==> e in es;
      assert UniqueEventIds(es) ==> forall e :: e in es && e.id != id ==> e in r by {
        if UniqueEventIds(es) {
          forall e | e in es && e.id != id ensures e in r {
            var j :| 0 <= j < |es| && es[j] == e;
            assert r[if j < i then j else j - 1] == e;
          }
        }
      }
      r
  }

  /** Deleting an event at another location, or one older than a later event
      of the same student at loc, leaves the occupancy of loc unchanged. */
  lemma DeleteEventOccupancy(es: seq<ScanEvent>, id: Id, loc: Id)
    requires forall e :: e in es && e.id == id ==>
      e.locationId != loc ||
      exists x :: x in es && x.locationId == loc && x.scannedStudentId == e.scannedStudentId && x.timestampUtc > e.timestampUtc
    ensures Present(DeleteEvent(es, id), loc) == Present(es, loc)
  {
    match FindEvent(es, id)
    case None =>
    case Some(i) =>
      assert es[i] in es;
      if es[i].locationId == loc {
        var x :| x in es && x.locationId == loc && x.scannedStudentId == es[i].scannedStudentId && x.timestampUtc > es[i].timestampUtc;
        var j :| 0 <= j < |es| && es[j] == x;
      }
      DeleteOlderUnchanged(es, i, loc);
  }

  /** The user half of a name edit: `Split(' ', 2, RemoveEmptyEntries)` of the
      trimmed text; the first part becomes the first name, and the last name
      changes only when there is a second part. */
  function RenameUser(u: User, newName: string): (r: User)
    ensures r.(firstName := u.firstName, lastName := u.lastName) == u
    ensures (forall i :: 0 <= i < |newName| ==> newName[i] == ' ') ==> r == u
    ensures r.firstName != u.firstName ==> r.firstName != [] && ' ' !in r.firstName
    ensures |SplitOnce(newName)| >= 1 ==> r.firstName == SplitOnce(newName)[0]
    ensures |SplitOnce(newName)| == 2 ==> r.lastName == SplitOnce(newName)[1]
    ensures |SplitOnce(newName)| < 2 ==> r.lastName == u.lastName
  {
    var parts := SplitOnce(newName);
    var u' := if |parts| >= 1 then u.(firstName := parts[0]) else u;
    if |parts| == 2 then u'.(lastName := parts[1]) else u'
  }

  /** Editing an event's name to the linked user's own "First Last" leaves the
      user's names as they are, when the first name is one word and neither
      half is blank or padded. */
  lemma RenameToFullName(u: User)
    requires u.firstName != [] && ' ' !in u.firstName
    requires u.lastName != [] && !IsWhiteSpace(u.lastName[0]) && !IsWhiteSpace(u.lastName[|u.lastName| - 1])
    requires !IsWhiteSpace(u.firstName[0])
    ensures FullName(u) == u.firstName + " " + u.lastName
    ensures RenameUser(u, Trim(FullName(u))) == u
  {
    var joined := u.firstName + " " + u.lastName;
    assert joined[0] == u.firstName[0];
    assert joined[|joined| - 1] == u.lastName[|u.lastName| - 1];
    TrimNoEdges(joined);
    SplitOnceJoined(u.firstName, u.lastName);
  }

  /** Editing an event's name to a single word sets the linked user's first
      name to it and keeps the last name. */
  lemma RenameOneWord(u: User, word: string)
    requires word != [] && ' ' !in word
    ensures RenameUser(u, word) == u.(firstName := word)
  {
    SplitOnceSingle(word);
  }

  /** The users table after a name edit on an event linked to userId: the
      user with that key, when there is one, is renamed; every other row and
      every key stays as it was. */
  function RenameLinkedUser(users: seq<User>, userId: Option<Id>, newName: string): (r: seq<User>)
    ensures |r| == |users|
    ensures forall k :: 0 <= k < |users| ==> r[k].id == users[k].id && r[k].studentId == users[k].studentId
    ensures userId.None? || (forall u :: u in users ==> u.id != userId.value) ==> r == users
    ensures UniqueUserIds(users) ==>
      forall k :: 0 <= k < |users| ==> r[k] == if Some(users[k].id) == userId then RenameUser(users[k], newName) else users[k]
  {
    if userId.None? then users
    else match FindUserIndex(users, userId.value)
      case None => users
      case Some(j) =>
        var renamed := RenameUser(users[j], newName);
        assert renamed.id == users[j].id && renamed.studentId == users[j].studentId by {
          assert renamed.(firstName := users[j].firstName, lastName := users[j].lastName) == users[j];
        }
        ReplaceRow(users, j, renamed);
        users[j := renamed]
  }

  /** Replacing row j by a row with the same keys keeps every key; with
      unique ids, row j is the only one carrying its id. */
  lemma ReplaceRow(users: seq<User>, j: nat, v: User)
    requires j < |users| && v.id == users[j].id && v.studentId == users[j].studentId
    ensures forall k :: 0 <= k < |users| ==> users[j := v][k].id == users[k].id && users[j := v][k].studentId == users[k].studentId
    ensures UniqueUserIds(users) ==> forall k :: 0 <= k < |users| && users[k].id == users[j].id ==> k == j
  {
  }

  /** Timestamps never increase along r. */
  ghost predicate NewestFirstOrder(r: seq<ScanEvent>) {
    forall i, j :: 0 <= i < j < |r| ==> r[i].timestampUtc >= r[j].timestampUtc
  }

  /** Put e into a newest-first list. */
  function Insert(e: ScanEvent, sorted: seq<ScanEvent>): (r: seq<ScanEvent>)
    requires NewestFirstOrder(sorted)
    ensures NewestFirstOrder(r)
    ensures multiset(r) == multiset(sorted) + multiset{e}
    ensures forall x :: x in r <==> x == e || x in sorted
  {
    if sorted == [] then [e]
    else if e.timestampUtc >= sorted[0].timestampUtc then [e] + sorted
    else
      var rest := Insert(e, sorted[1..]);
      assert sorted == [sorted[0]] + sorted[1..];
      assert forall x :: x in sorted[1..] ==> x.timestampUtc <= sorted[0].timestampUtc by {
        forall x | x in sorted[1..] ensures x.timestampUtc <= sorted[0].timestampUtc {
          var k :| 0 <= k < |sorted[1..]| && sorted[1..][k] == x;
          assert x == sorted[k + 1];
        }
      }
      PrependNewest(sorted[0], rest);
      [sorted[0]] + rest
  }

  lemma PrependNewest(x: ScanEvent, s: seq<ScanEvent>)
    requires NewestFirstOrder(s)
    requires forall y :: y in s ==> y.timestampUtc <= x.timestampUtc
    ensures NewestFirstOrder([x] + s)
  {
    var r := [x] + s;
    forall i, j | 0 <= i < j < |r| ensures r[i].timestampUtc >= r[j].timestampUtc {
      assert r[j] == s[j - 1];
      if i > 0 {
        assert r[i] == s[i - 1];
      } else {
        assert s[j - 1] in s;
      }
    }
  }

  /** `OrderByDescending(e => e.TimestampUtc)`: the same events, newest first. */
  function NewestFirst(es: seq<ScanEvent>): (r: seq<ScanEvent>)
    ensures NewestFirstOrder(r)
    ensures multiset(r) == multiset(es)
  {
    if es == [] then []
    else
      assert es == [es[0]] + es[1..];
      Insert(es[0], NewestFirst(es[1..]))
  }

  /** `OrderByDescending(e => e.TimestampUtc).Take(200)`: newest first, at most
      200 of them, all of them when there are no more than 200
      (NewestPageIsNewest: none left out is newer than one shown). */
  function NewestPage(es: seq<ScanEvent>): (page: seq<ScanEvent>)
    ensures |page| <= PageSize && NewestFirstOrder(page)
    ensures multiset(page) <= multiset(es)
    ensures |es| <= PageSize ==> multiset(page) == multiset(es)
    ensures |es| > PageSize ==> |page| == PageSize
  {
    var sorted := NewestFirst(es);
    if |sorted| <= PageSize then sorted
    else
      assert sorted == sorted[..PageSize] + sorted[PageSize..];
      sorted[..PageSize]
  }

  /** No event left off the page is newer than an event on it. */
  lemma NewestPageIsNewest(es: seq<ScanEvent>)
    ensures var page := NewestPage(es);
      forall x, y :: x in multiset(es) - multiset(page) && y in page ==> x.timestampUtc <= y.timestampUtc
  {
    var sorted := NewestFirst(es);
    var n := if |sorted| <= PageSize then |sorted| else PageSize;
    assert NewestPage(es) == sorted[..n];
    TakeNewest(sorted, n);
  }

  /** Cutting a newest-first list after n events leaves out nothing newer
      than an event kept. */
  lemma TakeNewest(sorted: seq<ScanEvent>, n: nat)
    requires NewestFirstOrder(sorted) && n <= |sorted|
    ensures multiset(sorted) - multiset(sorted[..n]) == multiset(sorted[n..])
    ensures forall x, y :: x in multiset(sorted[n..]) && y in sorted[..n] ==> x.timestampUtc <= y.timestampUtc
  {
    var page, rest := sorted[..n], sorted[n..];
    assert sorted == page + rest;
    forall x: ScanEvent, y: ScanEvent | x in multiset(rest) && y in page ensures x.timestampUtc <= y.timestampUtc {
      var j :| 0 <= j < |rest| && rest[j] == x;
      var i :| 0 <= i < |page| && page[i] == y;
      assert sorted[i] == y && sorted[n + j] == x;
    }
  }

  /** The grid row for an event: its id, and the display name with its fallback. */
  function ToView(e: ScanEvent, users: seq<User>, locations: seq<Location>): (v: ScanEventView)
    ensures v.id == e.id && v.eventType == e.eventType && v.scannedStudentId == e.scannedStudentId
    ensures v.userId.None?
    ensures v.nameAtScan == DisplayName(e, LinkedUser(e, users))
    ensures v.locationName == LocationName(locations, e.locationId)
  {
    ScanEventView(e.id, e.eventType, e.scannedStudentId, DisplayName(e, LinkedUser(e, users)), None, LocationName(locations, e.locationId))
  }

  /** The events grid after a refresh: one row per event of the newest page,
      in that order, each carrying the id of the event it shows. */
  function RecentViews(es: seq<ScanEvent>, users: seq<User>, locations: seq<Location>): (r: seq<ScanEventView>)
    ensures |r| == |NewestPage(es)|
    ensures forall i :: 0 <= i < |r| ==> r[i].id == NewestPage(es)[i].id
    ensures forall i :: 0 <= i < |r| ==> r[i] == ToView(NewestPage(es)[i], users, locations)
  {
    var page := NewestPage(es);
    seq(|page|, i requires 0 <= i < |page| => ToView(page[i], users, locations))
  }

  /** The search predicate: the query occurs in the scanned id, in the linked
      user's first or last name, or in NameAtScan. */
  predicate Matches(e: ScanEvent, user: Option<User>, q: string) {
    || Contains(e.scannedStudentId, q)
    || (user.Some? && (Contains(user.value.firstName, q) || Contains(user.value.lastName, q)))
    || Contains(e.nameAtScan, q)
  }

  /** `e.User`: the user the event links to, if it still exists. */
  function LinkedUser(e: ScanEvent, users: seq<User>): (r: Option<User>)
    ensures r.Some? ==> e.userId == Some(r.value.id) && r.value in users
    ensures e.userId.Some? ==> r == FindUser(users, e.userId.value)
  {
    if e.userId.None? then None else FindUser(users, e.userId.value)
  }

  /** The events a search keeps, in log order; a blank query keeps them all. */
  function Filter(es: seq<ScanEvent>, users: seq<User>, q: string): (r: seq<ScanEvent>)
    ensures multiset(r) <= multiset(es)
    ensures forall e :: e in r <==> e in es && (IsBlank(q) || Matches(e, LinkedUser(e, users), q))
    ensures IsBlank(q) ==> r == es
  {
    if es == [] then []
    else
      var rest := Filter(es[1..], users, q);
      assert es == [es[0]] + es[1..];
      assert forall e :: e in es <==> e == es[0] || e in es[1..];
      if IsBlank(q) || Matches(es[0], LinkedUser(es[0], users), q) then [es[0]] + rest else rest
  }

  /** A search result row. It has no Id, so a row found by search can be
      neither deleted nor edited. */
  datatype SearchRow = SearchRow(eventType: string, scannedStudentId: string, nameAtScan: string, locationName: string)

  /** The events Search_Click shows: those matching the trimmed query (all of
      them for a blank query), newest first, at most 200. */
  function SearchPage(es: seq<ScanEvent>, users: seq<User>, text: string): (page: seq<ScanEvent>)
    ensures |page| <= PageSize && NewestFirstOrder(page)
    ensures forall e :: e in page ==> e in es && (IsBlank(text) || Matches(e, LinkedUser(e, users), Trim(text)))
    ensures IsBlank(text) ==> page == NewestPage(es)
    ensures page == NewestPage(Filter(es, users, Trim(text)))
    ensures forall x :: x in es && (IsBlank(text) || Matches(x, LinkedUser(x, users), Trim(text))) && x !in page ==>
      |page| == PageSize && forall y :: y in page ==> x.timestampUtc <= y.timestampUtc
  {
    var q := Trim(text);
    var kept := Filter(es, users, q);
    var page := NewestPage(kept);
    assert forall e :: e in page ==> e in kept by {
      forall e | e in page ensures e in kept {
        assert e in multiset(page);
      }
    }
    assert IsBlank(text) <==> IsBlank(q);
    NewestPageIsNewest(kept);
    forall x | x in es && (IsBlank(text) || Matches(x, LinkedUser(x, users), q)) && x !in page
      ensures |page| == PageSize && forall y :: y in page ==> x.timestampUtc <= y.timestampUtc
    {
      assert x in kept;
      assert x in multiset(kept) - multiset(page);
    }
    page
  }

  /** The rows of a search, one per event of the search page, in order. */
  function Search(es: seq<ScanEvent>, users: seq<User>, locations: seq<Location>, text: string): (r: seq<SearchRow>)
    ensures |r| == |SearchPage(es, users, text)|
    ensures forall i :: 0 <= i < |r| ==> r[i].scannedStudentId == SearchPage(es, users, text)[i].scannedStudentId
    ensures forall i :: 0 <= i < |r| ==>
      var e := SearchPage(es, users, text)[i];
      r[i] == SearchRow(e.eventType, e.scannedStudentId, DisplayName(e, LinkedUser(e, users)), LocationName(locations, e.locationId))
  {
    var page := SearchPage(es, users, text);
    seq(|page|, i requires 0 <= i < |page| =>
      SearchRow(page[i].eventType, page[i].scannedStudentId, DisplayName(page[i], LinkedUser(page[i], users)), LocationName(locations, page[i].locationId)))
  }

  /** The cascade of a location delete: every event at loc goes, the others
      stay in order. */
  function EventsNotAt(es: seq<ScanEvent>, loc: Id): (r: seq<ScanEvent>)
    ensures forall e :: e in r <==> e in es && e.locationId != loc
    ensures UniqueEventIds(es) ==> UniqueEventIds(r)
    ensures |r| <= |es|
  {
    if es == [] then []
    else
      var n := |es| - 1;
      assert es == es[..n] + [es[n]];
      var init := EventsNotAt(es[..n], loc);
      assert UniqueEventIds(es) ==> UniqueEventIds(es[..n]) && es[n] !in es[..n];
      if es[n].locationId == loc then init else init + [es[n]]
  }

  /** Deleting a location empties it and leaves the log of every other
      location, and so its occupancy, as it was. */
  lemma {:induction false} EventsNotAtOthers(es: seq<ScanEvent>, loc: Id, other: Id)
    requires other != loc
    ensures AtLocation(EventsNotAt(es, loc), other) == AtLocation(es, other)
    ensures AtLocation(EventsNotAt(es, loc), loc) == []
    ensures Present(EventsNotAt(es, loc), other) == Present(es, other)
    decreases |es|
  {
    if es != [] {
      var n := |es| - 1;
      assert es == es[..n] + [es[n]];
      EventsNotAtOthers(es[..n], loc, other);
      var init := EventsNotAt(es[..n], loc);
      if es[n].locationId != loc {
        AtLocationAppend(init, es[n], other);
        AtLocationAppend(init, es[n], loc);
      }
    }
  }

  /** The event half of a name edit: NameAtScan of event i becomes the new text. */
  function RenameEvent(es: seq<ScanEvent>, i: nat, name: string): (r: seq<ScanEvent>)
    requires i < |es|
    ensures |r| == |es| && r[i].nameAtScan == name
    ensures r[i] == es[i].(nameAtScan := name)
    ensures forall j :: 0 <= j < |es| && j != i ==> r[j] == es[j]
    ensures SameShape(r, es)
    ensures UniqueEventIds(es) ==> UniqueEventIds(r)
  {
    es[i := es[i].(nameAtScan := name)]
  }

  /** Editing a name never changes who is present anywhere. */
  lemma RenameKeepsPresence(es: seq<ScanEvent>, i: nat, name: string, loc: Id)
    requires i < |es|
    ensures Present(RenameEvent(es, i, name), loc) == Present(es, loc)
    ensures OccupancyCount(RenameEvent(es, i, name), loc) == OccupancyCount(es, loc)
  {
    PresentShape(RenameEvent(es, i, name), es, loc);
  }
}
