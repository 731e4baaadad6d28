/** The Locations table: lookup, seeding, capacity parsing and removal. */
module Locations {
  import opened Wrappers
  import opened Text
  import opened Models

  ghost predicate UniqueLocationIds(locations: seq<Location>) {
    forall i, j :: 0 <= i < j < |locations| ==> locations[i].id != locations[j].id
  }

  /** `Locations.Find(id)`, as an index. */
  function FindLocation(locations: seq<Location>, id: Id): (r: Option<nat>)
    ensures r.None? <==> forall l :: l in locations ==> l.id != id
    ensures r.Some? ==> r.value < |locations| && locations[r.value].id == id
  {
    if locations == [] then None
    else if locations[0].id == id then Some(0)
    else
      var r := FindLocation(locations[1..], id);
      assert forall l :: l in locations <==> l == locations[0] || l in locations[1..];
      if r.None? then None else Some(r.value + 1)
  }

  /** The capacity of a location; None when it is unbounded or absent. */
  function CapacityOf(locations: seq<Location>, id: Id): (r: Option<int>)
    ensures r.Some? ==> exists l :: l in locations && l.id == id && l.capacity == r
    ensures FindLocation(locations, id).Some? ==> r == locations[FindLocation(locations, id).value].capacity
  {
    match FindLocation(locations, id)
    case None => None
    case Some(k) => assert locations[k] in locations; locations[k].capacity
  }

  /** `e.Location?.Name ?? "?"`. */
  function LocationName(locations: seq<Location>, id: Id): (r: string)
    ensures (forall l :: l in locations ==> l.id != id) ==> r == "?"
    ensures (exists l :: l in locations && l.id == id) ==> exists l :: l in locations && l.id == id && l.name == r
  {
    match FindLocation(locations, id)
    case None => "?"
    case Some(k) => assert locations[k] in locations; locations[k].name
  }

  /** The capacity box: `int.TryParse(text.Trim(), ..)`, null when it does not parse. */
  function ParseCapacity(text: string): (r: Option<int>)
    ensures r.Some? ==> InInt32(r.value)
    ensures IsBlank(text) ==> r.None?
    ensures !IsNumeral(Trim(text)) ==> r.None?
  {
    ParseInt32(Trim(text))
  }

  /** What the capacity box shows for a selected location. */
  function CapacityText(capacity: Option<int>): (r: string)
    ensures capacity.None? <==> r == []
  {
    if capacity.None? then "" else ShowInt(capacity.value)
  }

  /** A capacity shown in the box and saved untouched is saved as it was. */
  lemma CapacityRoundTrip(capacity: Option<int>)
    requires capacity.Some? ==> InInt32(capacity.value)
    ensures ParseCapacity(CapacityText(capacity)) == capacity
  {
    if capacity.Some? {
      var s := ShowInt(capacity.value);
      assert s[0] == '-' || IsDigit(s[0]);
      assert !IsWhiteSpace(s[0]) && !IsWhiteSpace(s[|s| - 1]);
      TrimNoEdges(s);
      ParseShowInt(capacity.value);
    } else {
      assert IsBlank("");
    }
  }

  lemma TrimNoEdges(s: string)
    requires s != [] && !IsWhiteSpace(s[0]) && !IsWhiteSpace(s[|s| - 1])
    ensures Trim(s) == s
  {
    assert SkipWhiteSpace(s, 0) == 0;
    assert SkipWhiteSpaceBack(s, 0, |s|) == |s|;
    assert s[0..|s|] == s;
  }

  /** No white space at either end: what Trim leaves. */
  predicate Trimmed(s: string) {
    s == [] || (!IsWhiteSpace(s[0]) && !IsWhiteSpace(s[|s| - 1]))
  }

  /** A name is blank exactly when its trimmed form is. */
  lemma BlankTrim(s: string)
    ensures IsBlank(Trim(s)) <==> IsBlank(s)
  {
    var t := Trim(s);
    if t != [] {
      assert !IsWhiteSpace(t[0]);
    }
  }

  /** Trim leaves a trimmed string as it is. */
  lemma TrimmedFixed(s: string)
    requires Trimmed(s)
    ensures Trim(s) == s
  {
    if s != [] {
      TrimNoEdges(s);
    } else {
      assert IsBlank(s);
    }
  }

  /** The row SaveLocation writes: the trimmed name and the parsed capacity
      (null when the box does not parse). */
  function EditedLocation(id: Id, nameText: string, capacityText: string): (l: Location)
    ensures l.id == id && l.name == Trim(nameText) && Trimmed(l.name)
    ensures l.capacity.Some? ==> InInt32(l.capacity.value)
    ensures l.capacity.None? <==> ParseInt32(Trim(capacityText)).None?
    ensures l.capacity == ParseCapacity(capacityText)
  {
    Location(id, Trim(nameText), ParseCapacity(capacityText))
  }

  /** Selecting a location in the manage grid and saving it untouched writes
      back the very same row. */
  lemma SaveUntouched(l: Location)
    requires Trimmed(l.name)
    requires l.capacity.Some? ==> InInt32(l.capacity.value)
    ensures EditedLocation(l.id, l.name, CapacityText(l.capacity)) == l
  {
    TrimmedFixed(l.name);
    CapacityRoundTrip(l.capacity);
  }

  /** EnsureCreatedAndSeed: insert the seed row if, and only if, no location
      has its id; an existing seed row keeps its name and capacity. */
  function Seeded(locations: seq<Location>): (r: seq<Location>)
    ensures FindLocation(r, SeedLocationId).Some?
    ensures (exists l :: l in locations && l.id == SeedLocationId) ==> r == locations
    ensures (forall l :: l in locations ==> l.id != SeedLocationId) ==> r == locations + [SeedLocation()]
    ensures UniqueLocationIds(locations) ==> UniqueLocationIds(r)
  {
    if FindLocation(locations, SeedLocationId).None? then
      var r := locations + [SeedLocation()];
      assert SeedLocation() in r;
      r
    else locations
  }

  /** Seeding twice is seeding once. */
  lemma SeededIdempotent(locations: seq<Location>)
    ensures Seeded(Seeded(locations)) == Seeded(locations)
  {
    var r := Seeded(locations);
    var k := FindLocation(r, SeedLocationId).value;
    assert r[k] in r;
  }

  /** `Locations.Remove(loc)`: every other location stays, in order. */
  function RemoveLocation(locations: seq<Location>, id: Id): (r: seq<Location>)
    ensures forall l :: l in r <==> l in locations && l.id != id
    ensures (forall l :: l in locations ==> l.id != id) ==> r == locations
  {
    if locations == [] then []
    else
      var rest := RemoveLocation(locations[1..], id);
      assert forall l :: l in locations <==> l == locations[0] || l in locations[1..];
      assert locations == [locations[0]] + locations[1..];
      if locations[0].id == id then rest else [locations[0]] + rest
  }

  /** Removing rows keeps a primary key unique. */
  lemma {:induction false} RemoveLocationUnique(locations: seq<Location>, id: Id)
    requires UniqueLocationIds(locations)
    ensures UniqueLocationIds(RemoveLocation(locations, id))
    decreases |locations|
  {
    if locations != [] && locations[0].id != id {
      var tail := locations[1..];
      var rest := RemoveLocation(tail, id);
      UniqueTail(locations);
      RemoveLocationUnique(tail, id);
      UniqueCons(locations[0], rest);
    } else if locations != [] {
      UniqueTail(locations);
      RemoveLocationUnique(locations[1..], id);
    }
  }

  /** On a table with a primary key, removing a stored location removes
      exactly one row. */
  lemma {:induction false} RemoveLocationCount(locations: seq<Location>, id: Id)
    requires UniqueLocationIds(locations)
    requires exists l :: l in locations && l.id == id
    ensures |RemoveLocation(locations, id)| == |locations| - 1
    decreases |locations|
  {
    var tail := locations[1..];
    UniqueTail(locations);
    if locations[0].id == id {
      assert RemoveLocation(locations, id) == RemoveLocation(tail, id) == tail;
    } else {
      var l :| l in locations && l.id == id;
      assert l in tail;
      RemoveLocationCount(tail, id);
    }
  }

  /** A row whose key no later row has, ahead of a table with a primary key. */
  lemma UniqueCons(x: Location, rest: seq<Location>)
    requires UniqueLocationIds(rest)
    requires forall l :: l in rest ==> l.id != x.id
    ensures UniqueLocationIds([x] + rest)
  {
    var r := [x] + rest;
    forall i, j | 0 <= i < j < |r| ensures r[i].id != r[j].id {
      if i == 0 {
        assert r[j] in rest;
      } else {
        assert r[i] == rest[i - 1] && r[j] == rest[j - 1];
      }
    }
  }

  /** The tail of a table with a primary key has one, and none of its keys is the head's. */
  lemma UniqueTail(locations: seq<Location>)
    requires locations != [] && UniqueLocationIds(locations)
    ensures UniqueLocationIds(locations[1..])
    ensures forall l :: l in locations[1..] ==> l.id != locations[0].id
  {
    var tail := locations[1..];
    forall i, j | 0 <= i < j < |tail| ensures tail[i].id != tail[j].id {
      assert tail[i] == locations[i + 1] && tail[j] == locations[j + 1];
    }
    forall l | l in tail ensures l.id != locations[0].id {
      var k :| 0 <= k < |tail| && tail[k] == l;
      assert locations[k + 1] == l;
    }
  }

  /** Ordinal order on names, character by character, a prefix first. */
  predicate NameAtMost(a: string, b: string) {
    if a == [] then true
    else if b == [] then false
    else if a[0] != b[0] then a[0] < b[0]
    else NameAtMost(a[1..], b[1..])
  }

  lemma {:induction false} NameAtMostTotal(a: string, b: string)
    ensures NameAtMost(a, b) || NameAtMost(b, a)
    decreases |a|
  {
    if a != [] && b != [] && a[0] == b[0] {
      NameAtMostTotal(a[1..], b[1..]);
    }
  }

  lemma {:induction false} NameAtMostTrans(a: string, b: string, c: string)
    requires NameAtMost(a, b) && NameAtMost(b, c)
    ensures NameAtMost(a, c)
    decreases |a|
  {
    if a != [] && b != [] && c != [] && a[0] == b[0] && b[0] == c[0] {
      NameAtMostTrans(a[1..], b[1..], c[1..]);
    }
  }

  /** `OrderBy(l => l.Name).First()`: a location whose name no other
      location's name precedes; among equal names the first stored. */
  function FirstByName(locations: seq<Location>): (r: Option<Location>)
    ensures r.None? <==> locations == []
    ensures r.Some? ==> r.value in locations
    ensures r.Some? ==> forall l :: l in locations ==> NameAtMost(r.value.name, l.name)
  {
    if locations == [] then None
    else
      var rest := FirstByName(locations[1..]);
      assert forall l :: l in locations <==> l == locations[0] || l in locations[1..];
      if rest.None? then
        assert locations == [locations[0]];
        NameAtMostRefl(locations[0].name);
        Some(locations[0])
      else if NameAtMost(locations[0].name, rest.value.name) then
        NameAtMostRefl(locations[0].name);
        forall l | l in locations[1..] ensures NameAtMost(locations[0].name, l.name) {
          NameAtMostTrans(locations[0].name, rest.value.name, l.name);
        }
        Some(locations[0])
      else
        NameAtMostTotal(locations[0].name, rest.value.name);
        rest
  }

  lemma {:induction false} NameAtMostRefl(a: string)
    ensures NameAtMost(a, a)
    decreases |a|
  {
    if a != [] {
      NameAtMostRefl(a[1..]);
    }
  }
}
