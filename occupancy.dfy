/** Occupancy derived from the event log: filter to a location, group by
    scanned student id, take each group's latest event by timestamp and count
    the groups whose latest event is an "entry". Nothing is stored: the count
    is a function of the log. */
module Occupancy {
  import opened Wrappers
  import opened Models

  /** `Where(e => e.LocationId == loc)`, in log order. */
  function AtLocation(es: seq<ScanEvent>, loc: Id): (r: seq<ScanEvent>)
    ensures |r| <= |es|
    ensures forall e :: e in r <==> e in es && e.locationId == loc
  {
    if es == [] then []
    else
      var n := |es| - 1;
      assert es == es[..n] + [es[n]];
      var init := AtLocation(es[..n], loc);
      if es[n].locationId == loc then init + [es[n]] else init
  }

  /** The group keys: every scanned student id in the log. */
  function Students(es: seq<ScanEvent>): set<string> {
    set e | e in es :: e.scannedStudentId
  }

  /** k is the event `OrderByDescending(x => x.TimestampUtc).First()` picks in
      the group of sid: no event of sid is later, and among events with the
      same timestamp the one appended last wins. */
  ghost predicate IsLatest(es: seq<ScanEvent>, sid: string, k: nat) {
    && k < |es| && es[k].scannedStudentId == sid
    && (forall j :: 0 <= j < |es| && es[j].scannedStudentId == sid ==> es[j].timestampUtc <= es[k].timestampUtc)
    && (forall j :: k < j < |es| && es[j].scannedStudentId == sid ==> es[j].timestampUtc < es[k].timestampUtc)
  }

  /** The latest event of sid, by index; None when sid has no event. */
  function Latest(es: seq<ScanEvent>, sid: string): (r: Option<nat>)
    ensures r.None? <==> forall j :: 0 <= j < |es| ==> es[j].scannedStudentId != sid
    ensures r.Some? ==> IsLatest(es, sid, r.value)
  {
    if es == [] then None
    else
      var n := |es| - 1;
      var prev := Latest(es[..n], sid);
      assert forall j :: 0 <= j < n ==> es[..n][j] == es[j];
      if es[n].scannedStudentId == sid && (prev.None? || es[prev.value].timestampUtc <= es[n].timestampUtc)
      then Some(n)
      else prev
  }

  /** At most one event is the latest of a group. */
  lemma LatestIsUnique(es: seq<ScanEvent>, sid: string, k1: nat, k2: nat)
    requires IsLatest(es, sid, k1) && IsLatest(es, sid, k2)
    ensures k1 == k2
  {
  }

  /** The latest event of sid is an entry. */
  predicate LastIsEntry(es: seq<ScanEvent>, sid: string) {
    var k := Latest(es, sid);
    k.Some? && es[k.value].eventType == Entry
  }

  /** The students of a log whose latest event is an entry. */
  function Inside(here: seq<ScanEvent>): (r: set<string>)
    ensures r <= Students(here)
  {
    set s | s in Students(here) && LastIsEntry(here, s)
  }

  /** The students counted as inside loc. */
  function Present(es: seq<ScanEvent>, loc: Id): (r: set<string>)
    ensures r <= Students(AtLocation(es, loc))
  {
    Inside(AtLocation(es, loc))
  }

  /** Two logs with the same students and the same verdict for each have the same inside set. */
  lemma InsideSame(h1: seq<ScanEvent>, h2: seq<ScanEvent>)
    requires Students(h1) == Students(h2)
    requires forall s :: s in Students(h1) ==> (LastIsEntry(h1, s) <==> LastIsEntry(h2, s))
    ensures Inside(h1) == Inside(h2)
  {
  }

  /** `lastByUser.Count(e => e.EventType == "entry")`: never more than the
      number of distinct students seen at the location. */
  function OccupancyCount(es: seq<ScanEvent>, loc: Id): (n: nat)
    ensures n <= |Students(AtLocation(es, loc))|
  {
    var p := Present(es, loc);
    SubsetCardinality(p, Students(AtLocation(es, loc)));
    |p|
  }

  lemma {:induction false} SubsetCardinality<T>(a: set<T>, b: set<T>)
    requires a <= b
    ensures |a| <= |b|
    decreases b
  {
    if a != {} {
      var x :| x in a;
      SubsetCardinality(a - {x}, b - {x});
    }
  }

  const OverCapacityText: string := "OVER CAPACITY"
  const OkText: string := "OK"

  /** The status line: over capacity exactly when a capacity is set and the
      count is strictly above it; an unbounded location and a full one are "OK". */
  function Status(count: nat, capacity: Option<int>): (r: string)
    ensures r == OverCapacityText <==> capacity.Some? && count > capacity.value
    ensures r == OkText <==> !(capacity.Some? && count > capacity.value)
  {
    if capacity.Some? && count > capacity.value then OverCapacityText else OkText
  }

  /** Appending one event extends the filtered log by that event or by nothing. */
  lemma AtLocationAppend(es: seq<ScanEvent>, e: ScanEvent, loc: Id)
    ensures AtLocation(es + [e], loc) == AtLocation(es, loc) + (if e.locationId == loc then [e] else [])
  {
    assert (es + [e])[..|es|] == es;
  }

  /** Filtering distributes over concatenation. */
  lemma {:induction false} AtLocationConcat(a: seq<ScanEvent>, b: seq<ScanEvent>, loc: Id)
    ensures AtLocation(a + b, loc) == AtLocation(a, loc) + AtLocation(b, loc)
    decreases |b|
  {
    if b == [] {
      assert a + b == a;
    } else {
      var n := |b| - 1;
      assert a + b == (a + b[..n]) + [b[n]];
      assert b == b[..n] + [b[n]];
      AtLocationConcat(a, b[..n], loc);
      AtLocationAppend(a + b[..n], b[n], loc);
      AtLocationAppend(b[..n], b[n], loc);
    }
  }

  /** Appending an event moves the latest of its own student only. */
  lemma LatestAppend(es: seq<ScanEvent>, e: ScanEvent, sid: string)
    ensures Latest(es + [e], sid) ==
      if e.scannedStudentId == sid && (Latest(es, sid).None? || es[Latest(es, sid).value].timestampUtc <= e.timestampUtc)
      then Some(|es|) else Latest(es, sid)
  {
    assert (es + [e])[..|es|] == es;
  }

  /** An event recorded elsewhere leaves the occupancy of loc as it was. */
  lemma OtherLocationUnchanged(es: seq<ScanEvent>, e: ScanEvent, loc: Id)
    requires e.locationId != loc
    ensures Present(es + [e], loc) == Present(es, loc)
    ensures OccupancyCount(es + [e], loc) == OccupancyCount(es, loc)
  {
    AtLocationAppend(es, e, loc);
  }

  /** Appending an event to a log: the students of the longer log, and the
      verdict for every student other than the new event's. */
  lemma PresentAppendOthers(here: seq<ScanEvent>, e: ScanEvent)
    ensures Students(here + [e]) == Students(here) + {e.scannedStudentId}
    ensures forall s :: s != e.scannedStudentId ==> (LastIsEntry(here + [e], s) <==> LastIsEntry(here, s))
  {
    var here' := here + [e];
    assert forall x :: x in here' <==> x in here || x == e;
    forall s | s != e.scannedStudentId
      ensures LastIsEntry(here', s) <==> LastIsEntry(here, s)
    {
      LatestAppend(here, e, s);
      var k := Latest(here, s);
      if k.Some? {
        assert here'[k.value] == here[k.value];
      }
    }
  }

  /** A new event for student sid at loc that is at least as recent as every
      earlier event of sid there decides sid's status alone: an entry puts sid
      in the count, anything else takes sid out. Every other student keeps
      their status. */
  lemma AppendLatest(es: seq<ScanEvent>, e: ScanEvent, loc: Id)
    requires e.locationId == loc
    requires forall x :: x in AtLocation(es, loc) && x.scannedStudentId == e.scannedStudentId ==> x.timestampUtc <= e.timestampUtc
    ensures Present(es + [e], loc) ==
      if e.eventType == Entry then Present(es, loc) + {e.scannedStudentId}
      else Present(es, loc) - {e.scannedStudentId}
  {
    AtLocationAppend(es, e, loc);
    InsideAppendLatest(AtLocation(es, loc), e);
  }

  /** The same on the log of one location. */
  lemma InsideAppendLatest(here: seq<ScanEvent>, e: ScanEvent)
    requires forall x :: x in here && x.scannedStudentId == e.scannedStudentId ==> x.timestampUtc <= e.timestampUtc
    ensures Inside(here + [e]) ==
      if e.eventType == Entry then Inside(here) + {e.scannedStudentId}
      else Inside(here) - {e.scannedStudentId}
  {
    var sid := e.scannedStudentId;
    PresentAppendOthers(here, e);
    LatestAppend(here, e, sid);
    var k := Latest(here, sid);
    if k.Some? {
      assert here[k.value] in here;
    }
    assert Latest(here + [e], sid) == Some(|here|);
    assert (here + [e])[|here|] == e;
    assert LastIsEntry(here + [e], sid) <==> e.eventType == Entry;
    assert sid in Students(here + [e]);
  }

  /** Repeated entries count once: an entry for a student already inside
      leaves the count as it was, one for a student outside adds exactly one. */
  lemma EntryCountsOnce(es: seq<ScanEvent>, e: ScanEvent, loc: Id)
    requires e.locationId == loc && e.eventType == Entry
    requires forall x :: x in AtLocation(es, loc) && x.scannedStudentId == e.scannedStudentId ==> x.timestampUtc <= e.timestampUtc
    ensures e.scannedStudentId in Present(es + [e], loc)
    ensures OccupancyCount(es + [e], loc) ==
      if e.scannedStudentId in Present(es, loc) then OccupancyCount(es, loc) else OccupancyCount(es, loc) + 1
  {
    AppendLatest(es, e, loc);
    CardinalityAdd(Present(es, loc), e.scannedStudentId);
  }

  lemma CardinalityAdd<T>(p: set<T>, x: T)
    ensures |p + {x}| == if x in p then |p| else |p| + 1
  {
    if x in p {
      assert p + {x} == p;
    }
  }

  /** A latest event other than an entry removes the student: the count drops
      by one when they were inside and stays put otherwise. */
  lemma LatestExitRemoves(es: seq<ScanEvent>, e: ScanEvent, loc: Id)
    requires e.locationId == loc && e.eventType != Entry
    requires forall x :: x in AtLocation(es, loc) && x.scannedStudentId == e.scannedStudentId ==> x.timestampUtc <= e.timestampUtc
    ensures e.scannedStudentId !in Present(es + [e], loc)
    ensures OccupancyCount(es + [e], loc) ==
      if e.scannedStudentId in Present(es, loc) then OccupancyCount(es, loc) - 1 else OccupancyCount(es, loc)
  {
    AppendLatest(es, e, loc);
    CardinalityRemove(Present(es, loc), e.scannedStudentId);
  }

  lemma CardinalityRemove<T>(p: set<T>, x: T)
    ensures |p - {x}| == if x in p then |p| - 1 else |p|
  {
    if x in p {
      assert p == (p - {x}) + {x};
    } else {
      assert p - {x} == p;
    }
  }

  /** Occupancy depends on the latest event per student only: an event that is
      older than one already logged for the same student there changes nothing,
      in whatever order it arrives. */
  lemma OlderEventUnchanged(es: seq<ScanEvent>, e: ScanEvent, loc: Id)
    requires e.locationId == loc
    requires exists x :: x in AtLocation(es, loc) && x.scannedStudentId == e.scannedStudentId && x.timestampUtc > e.timestampUtc
    ensures Present(es + [e], loc) == Present(es, loc)
  {
    AtLocationAppend(es, e, loc);
    InsideOlderUnchanged(AtLocation(es, loc), e);
  }

  /** The same on the log of one location. */
  lemma InsideOlderUnchanged(here: seq<ScanEvent>, e: ScanEvent)
    requires exists x :: x in here && x.scannedStudentId == e.scannedStudentId && x.timestampUtc > e.timestampUtc
    ensures Inside(here + [e]) == Inside(here)
  {
    OlderKeepsLatest(here, e);
    PresentAppendOthers(here, e);
    InsideSame(here + [e], here);
  }

  /** Appending an event older than one already logged for its student keeps
      that student's latest event and verdict. */
  lemma OlderKeepsLatest(here: seq<ScanEvent>, e: ScanEvent)
    requires exists x :: x in here && x.scannedStudentId == e.scannedStudentId && x.timestampUtc > e.timestampUtc
    ensures e.scannedStudentId in Students(here)
    ensures LastIsEntry(here + [e], e.scannedStudentId) <==> LastIsEntry(here, e.scannedStudentId)
  {
    var sid := e.scannedStudentId;
    var x :| x in here && x.scannedStudentId == sid && x.timestampUtc > e.timestampUtc;
    var i :| 0 <= i < |here| && here[i] == x;
    LatestAppend(here, e, sid);
    var k := Latest(here, sid);
    assert here[k.value].timestampUtc >= here[i].timestampUtc;
    assert Latest(here + [e], sid) == k;
    assert (here + [e])[k.value] == here[k.value];
  }

  /** The log without its i-th event (`Events.Remove`). */
  function RemoveAt(es: seq<ScanEvent>, i: nat): (r: seq<ScanEvent>)
    requires i < |es|
    ensures |r| == |es| - 1
    ensures forall j :: 0 <= j < i ==> r[j] == es[j]
    ensures forall j :: i <= j < |r| ==> r[j] == es[j + 1]
  {
    es[..i] + es[i + 1..]
  }

  /** Removing an event that is not the latest of its group keeps every
      group's latest event (at a shifted index). */
  lemma LatestAfterRemove(es: seq<ScanEvent>, i: nat, sid: string)
    requires i < |es|
    requires Latest(es, sid) != Some(i)
    ensures Latest(RemoveAt(es, i), sid).Some? == Latest(es, sid).Some?
    ensures Latest(es, sid).Some? ==> RemoveAt(es, i)[Latest(RemoveAt(es, i), sid).value] == es[Latest(es, sid).value]
  {
    var r := RemoveAt(es, i);
    var k := Latest(es, sid);
    if k.Some? {
      var kk := k.value;
      var k' := if kk < i then kk else kk - 1;
      IsLatestAfterRemove(es, i, sid, kk);
      LatestIsUnique(r, sid, k', Latest(r, sid).value);
    } else {
      forall j | 0 <= j < |r| ensures r[j].scannedStudentId != sid {
        assert r[j] == es[if j < i then j else j + 1];
      }
    }
  }

  /** The latest event of a group stays the latest once another event goes. */
  lemma IsLatestAfterRemove(es: seq<ScanEvent>, i: nat, sid: string, k: nat)
    requires i < |es| && IsLatest(es, sid, k) && k != i
    ensures var k' := if k < i then k else k - 1;
      IsLatest(RemoveAt(es, i), sid, k') && RemoveAt(es, i)[k'] == es[k]
  {
    var r := RemoveAt(es, i);
    var k' := if k < i then k else k - 1;
    assert r[k'] == es[k];
    forall j | 0 <= j < |r| && r[j].scannedStudentId == sid
      ensures r[j].timestampUtc <= r[k'].timestampUtc
      ensures k' < j ==> r[j].timestampUtc < r[k'].timestampUtc
    {
      var jj := if j < i then j else j + 1;
      assert r[j] == es[jj];
      assert k' < j ==> k < jj;
    }
  }

  /** Deleting an event that is not the latest of its student keeps every
      student's verdict, and the set of students. */
  lemma InsideAfterRemove(here: seq<ScanEvent>, m: nat)
    requires m < |here|
    requires exists j :: 0 <= j < |here| && here[j].scannedStudentId == here[m].scannedStudentId && here[j].timestampUtc > here[m].timestampUtc
    ensures Inside(RemoveAt(here, m)) == Inside(here)
  {
    var r := RemoveAt(here, m);
    var j :| 0 <= j < |here| && here[j].scannedStudentId == here[m].scannedStudentId && here[j].timestampUtc > here[m].timestampUtc;
    forall s ensures Latest(here, s) != Some(m) {
    }
    forall s ensures (s in Students(r) <==> s in Students(here)) && (LastIsEntry(r, s) <==> LastIsEntry(here, s)) {
      LatestAfterRemove(here, m, s);
      StudentsOfLatest(here, s);
      StudentsOfLatest(r, s);
    }
    InsideSame(r, here);
  }

  /** Where an event at loc sits in the filtered log. */
  lemma AtLocationRemove(es: seq<ScanEvent>, i: nat, loc: Id)
    requires i < |es|
    ensures es[i].locationId != loc ==> AtLocation(RemoveAt(es, i), loc) == AtLocation(es, loc)
    ensures es[i].locationId == loc ==>
      var m := |AtLocation(es[..i], loc)|;
      m < |AtLocation(es, loc)| && AtLocation(es, loc)[m] == es[i] &&
      AtLocation(RemoveAt(es, i), loc) == RemoveAt(AtLocation(es, loc), m)
  {
    var a, b := es[..i], es[i + 1..];
    assert es == (a + [es[i]]) + b;
    assert RemoveAt(es, i) == a + b;
    AtLocationConcat(a + [es[i]], b, loc);
    AtLocationConcat(a, b, loc);
    AtLocationAppend(a, es[i], loc);
    var here, A, B := AtLocation(es, loc), AtLocation(a, loc), AtLocation(b, loc);
    if es[i].locationId == loc {
      assert here == A + [es[i]] + B;
      var m := |A|;
      assert here[..m] == A;
      assert here[m + 1..] == B;
    }
  }

  /** Deleting an event at another location, or one of a student who has a
      strictly later event at loc, leaves the occupancy of loc as it was. */
  lemma DeleteOlderUnchanged(es: seq<ScanEvent>, i: nat, loc: Id)
    requires i < |es|
    requires es[i].locationId != loc ||
      exists j :: 0 <= j < |es| && es[j].locationId == loc && es[j].scannedStudentId == es[i].scannedStudentId && es[j].timestampUtc > es[i].timestampUtc
    ensures Present(RemoveAt(es, i), loc) == Present(es, loc)
  {
    AtLocationRemove(es, i, loc);
    if es[i].locationId == loc {
      var here := AtLocation(es, loc);
      var m := |AtLocation(es[..i], loc)|;
      var j :| 0 <= j < |es| && es[j].locationId == loc && es[j].scannedStudentId == es[i].scannedStudentId && es[j].timestampUtc > es[i].timestampUtc;
      assert es[j] in here;
      var jj :| 0 <= jj < |here| && here[jj] == es[j];
      InsideAfterRemove(here, m);
    }
  }

  /** A student is inside exactly when their latest event (in the sense of
      IsLatest, the group's `OrderByDescending(..).First()`) is an entry. */
  lemma InsideIff(here: seq<ScanEvent>, s: string)
    ensures s in Inside(here) <==> exists k: nat :: IsLatest(here, s, k) && here[k].eventType == Entry
  {
    StudentsOfLatest(here, s);
    if exists k: nat :: IsLatest(here, s, k) && here[k].eventType == Entry {
      var k: nat :| IsLatest(here, s, k) && here[k].eventType == Entry;
      LatestIsUnique(here, s, k, Latest(here, s).value);
    }
  }

  /** Deleting any event, the latest of its student included, keeps every
      other student's status at loc; the student whose event went is inside
      afterwards exactly when their latest remaining event there is an entry. */
  lemma DeleteKeepsOthers(es: seq<ScanEvent>, i: nat, loc: Id)
    requires i < |es|
    ensures forall t :: t != es[i].scannedStudentId ==> (t in Present(RemoveAt(es, i), loc) <==> t in Present(es, loc))
    ensures var here := AtLocation(RemoveAt(es, i), loc);
      es[i].scannedStudentId in Present(RemoveAt(es, i), loc) <==>
      exists k: nat :: IsLatest(here, es[i].scannedStudentId, k) && here[k].eventType == Entry
  {
    AtLocationRemove(es, i, loc);
    InsideIff(AtLocation(RemoveAt(es, i), loc), es[i].scannedStudentId);
    if es[i].locationId == loc {
      InsideRemoveOthers(AtLocation(es, loc), |AtLocation(es[..i], loc)|);
    }
  }

  /** The same on the log of one location. */
  lemma InsideRemoveOthers(here: seq<ScanEvent>, m: nat)
    requires m < |here|
    ensures forall t :: t != here[m].scannedStudentId ==> (t in Inside(RemoveAt(here, m)) <==> t in Inside(here))
  {
    var r := RemoveAt(here, m);
    forall t | t != here[m].scannedStudentId ensures t in Inside(r) <==> t in Inside(here) {
      assert Latest(here, t) != Some(m);
      LatestAfterRemove(here, m, t);
      StudentsOfLatest(here, t);
      StudentsOfLatest(r, t);
    }
  }

  /** A student belongs to the group keys exactly when they have a latest event. */
  lemma StudentsOfLatest(es: seq<ScanEvent>, s: string)
    ensures s in Students(es) <==> Latest(es, s).Some?
  {
    if s in Students(es) {
      var e :| e in es && e.scannedStudentId == s;
      var j :| 0 <= j < |es| && es[j] == e;
    }
  }

  /** What occupancy looks at in an event: who, what, where and when. */
  function Shape(e: ScanEvent): (string, string, Id, nat) {
    (e.scannedStudentId, e.eventType, e.locationId, e.timestampUtc)
  }

  /** Two logs that differ at most in names, user links, ids and payloads. */
  ghost predicate SameShape(a: seq<ScanEvent>, b: seq<ScanEvent>) {
    |a| == |b| && forall i :: 0 <= i < |a| ==> Shape(a[i]) == Shape(b[i])
  }

  lemma {:induction false} AtLocationShape(a: seq<ScanEvent>, b: seq<ScanEvent>, loc: Id)
    requires SameShape(a, b)
    ensures SameShape(AtLocation(a, loc), AtLocation(b, loc))
    decreases |a|
  {
    if a != [] {
      var n := |a| - 1;
      assert SameShape(a[..n], b[..n]);
      AtLocationShape(a[..n], b[..n], loc);
      var ia := AtLocation(a[..n], loc);
      var ib := AtLocation(b[..n], loc);
      assert Shape(a[n]) == Shape(b[n]);
      if a[n].locationId == loc {
        SameShapeSnoc(ia, ib, a[n], b[n]);
      }
    }
  }

  lemma SameShapeSnoc(a: seq<ScanEvent>, b: seq<ScanEvent>, x: ScanEvent, y: ScanEvent)
    requires SameShape(a, b) && Shape(x) == Shape(y)
    ensures SameShape(a + [x], b + [y])
  {
    forall i | 0 <= i < |a| + 1 ensures Shape((a + [x])[i]) == Shape((b + [y])[i]) {
      if i < |a| {
        assert (a + [x])[i] == a[i] && (b + [y])[i] == b[i];
      }
    }
  }

  lemma {:induction false} LatestShape(a: seq<ScanEvent>, b: seq<ScanEvent>, sid: string)
    requires SameShape(a, b)
    ensures Latest(a, sid) == Latest(b, sid)
    decreases |a|
  {
    if a != [] {
      var n := |a| - 1;
      assert SameShape(a[..n], b[..n]);
      LatestShape(a[..n], b[..n], sid);
      var prev := Latest(a[..n], sid);
      if prev.Some? {
        assert Shape(a[prev.value]) == Shape(b[prev.value]);
      }
      assert Shape(a[n]) == Shape(b[n]);
    }
  }

  lemma StudentsShape(h1: seq<ScanEvent>, h2: seq<ScanEvent>)
    requires SameShape(h1, h2)
    ensures Students(h1) == Students(h2)
  {
    forall s | s in Students(h1) ensures s in Students(h2) {
      var e :| e in h1 && e.scannedStudentId == s;
      var i :| 0 <= i < |h1| && h1[i] == e;
      assert Shape(h1[i]) == Shape(h2[i]);
      assert h2[i] in h2;
    }
    forall s | s in Students(h2) ensures s in Students(h1) {
      var e :| e in h2 && e.scannedStudentId == s;
      var i :| 0 <= i < |h2| && h2[i] == e;
      assert Shape(h1[i]) == Shape(h2[i]);
      assert h1[i] in h1;
    }
  }

  lemma InsideShape(h1: seq<ScanEvent>, h2: seq<ScanEvent>)
    requires SameShape(h1, h2)
    ensures Inside(h1) == Inside(h2)
  {
    StudentsShape(h1, h2);
    forall s | s in Students(h1) ensures LastIsEntry(h1, s) <==> LastIsEntry(h2, s) {
      LatestShape(h1, h2, s);
      var k := Latest(h1, s);
      if k.Some? {
        assert Shape(h1[k.value]) == Shape(h2[k.value]);
      }
    }
    InsideSame(h1, h2);
  }

  /** Occupancy reads only the shape of the log: renaming events, or relinking
      them to users, never changes who is present. */
  lemma PresentShape(a: seq<ScanEvent>, b: seq<ScanEvent>, loc: Id)
    requires SameShape(a, b)
    ensures Present(a, loc) == Present(b, loc)
    ensures OccupancyCount(a, loc) == OccupancyCount(b, loc)
  {
    AtLocationShape(a, b, loc);
    InsideShape(AtLocation(a, loc), AtLocation(b, loc));
  }
}
