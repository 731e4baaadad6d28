/** The Users table: create-if-absent keyed by StudentId (GetOrCreateUser). */
module Directory {
  import opened Wrappers
  import opened Text
  import opened Models

  /** The unique index on User.StudentId. */
  ghost predicate UniqueStudentIds(users: seq<User>) {
    forall i, j :: 0 <= i < j < |users| ==> users[i].studentId != users[j].studentId
  }

  /** `Users.FirstOrDefault(u => u.StudentId == sid)`, as an index. */
  function FindByStudentId(users: seq<User>, sid: string): (r: Option<nat>)
    ensures r.None? <==> forall i :: 0 <= i < |users| ==> users[i].studentId != sid
    ensures r.Some? ==> r.value < |users| && users[r.value].studentId == sid
    ensures r.Some? ==> forall i :: 0 <= i < r.value ==> users[i].studentId != sid
  {
    if users == [] then None
    else if users[0].studentId == sid then Some(0)
    else
      var r := FindByStudentId(users[1..], sid);
      assert forall i :: 1 <= i < |users| ==> users[i] == users[1..][i - 1];
      if r.None? then None else Some(r.value + 1)
  }

  /** `Users.Find(id)`. */
  function FindUser(users: seq<User>, id: Id): (r: Option<User>)
    ensures r.None? <==> forall u :: u in users ==> u.id != id
    ensures r.Some? ==> r.value in users && r.value.id == id
  {
    if users == [] then None
    else if users[0].id == id then Some(users[0])
    else FindUser(users[1..], id)
  }

  /** The primary key on User.Id. */
  ghost predicate UniqueUserIds(users: seq<User>) {
    forall i, j :: 0 <= i < j < |users| ==> users[i].id != users[j].id
  }

  /** `Users.Find(id)`, as an index. */
  function FindUserIndex(users: seq<User>, id: Id): (r: Option<nat>)
    ensures r.None? <==> forall u :: u in users ==> u.id != id
    ensures r.Some? ==> r.value < |users| && users[r.value].id == id
  {
    if users == [] then None
    else if users[0].id == id then Some(0)
    else
      var r := FindUserIndex(users[1..], id);
      assert forall u :: u in users <==> u == users[0] || u in users[1..];
      if r.None? then None else Some(r.value + 1)
  }

  /** The outcome of GetOrCreateUser: the new table, the resolved user and
      whether it was created. */
  datatype Resolution = Resolution(users: seq<User>, user: User, created: bool)

  /** An existing user takes a supplied name only when it is not blank. */
  function MergeNames(u: User, first: string, last: string): (r: User)
    ensures r.(firstName := u.firstName, lastName := u.lastName) == u
    ensures IsBlank(first) ==> r.firstName == u.firstName
    ensures IsBlank(last) ==> r.lastName == u.lastName
    ensures !IsBlank(first) ==> r.firstName == first
    ensures !IsBlank(last) ==> r.lastName == last
  {
    var u' := if IsBlank(first) then u else u.(firstName := first);
    if IsBlank(last) then u' else u'.(lastName := last)
  }

  /** GetOrCreateUser: a user with the student id exists afterwards; it is
      created (with the given names, status "active", no email) exactly when
      none existed; otherwise it keeps its id and only non-blank names are
      written. The table never gains a second user with the same student id. */
  function GetOrCreate(users: seq<User>, sid: string, first: string, last: string, freshId: Id, now: nat): (r: Resolution)
    ensures r.created <==> forall u :: u in users ==> u.studentId != sid
    ensures r.user in r.users && r.user.studentId == sid
    ensures r.created ==> r.users == users + [r.user] && r.user.id == freshId
    ensures r.created ==> r.user.firstName == first && r.user.lastName == last
    ensures r.created ==> r.user.status == "active" && r.user.email == "" && r.user.createdAtUtc == now
    ensures !r.created ==> exists k :: 0 <= k < |users| && users[k].studentId == sid && r.users == users[k := r.user]
    ensures !r.created ==> r.user.id in (set u | u in users :: u.id)
    ensures !r.created ==>
      && FindByStudentId(users, sid).Some?
      && r.user == MergeNames(users[FindByStudentId(users, sid).value], first, last)
      && r.users == users[FindByStudentId(users, sid).value := r.user]
    ensures !r.created && IsBlank(first) && IsBlank(last) ==> r.users == users
    ensures |r.users| == if r.created then |users| + 1 else |users|
    ensures forall i :: 0 <= i < |users| ==> r.users[i].id == users[i].id && r.users[i].studentId == users[i].studentId
    ensures UniqueStudentIds(users) ==> UniqueStudentIds(r.users)
  {
    match FindByStudentId(users, sid)
    case None =>
      var u := NewUser(freshId, sid, first, last, now);
      Resolution(users + [u], u, true)
    case Some(k) =>
      assert users[k] in users;
      var u := MergeNames(users[k], first, last);
      assert IsBlank(first) && IsBlank(last) ==> users[k := u] == users;
      assert users[k := u][k] == u;
      Resolution(users[k := u], u, false)
  }

  /** Resolving the same student id twice never creates a second user, and a
      second call with blank names changes nothing. */
  lemma GetOrCreateTwice(users: seq<User>, sid: string, first: string, last: string, id1: Id, id2: Id, now1: nat, now2: nat)
    requires UniqueStudentIds(users)
    ensures var r1 := GetOrCreate(users, sid, first, last, id1, now1);
            var r2 := GetOrCreate(r1.users, sid, "", "", id2, now2);
            !r2.created && r2.users == r1.users && r2.user == r1.user
  {
    var r1 := GetOrCreate(users, sid, first, last, id1, now1);
    assert r1.user in r1.users;
    var r2 := GetOrCreate(r1.users, sid, "", "", id2, now2);
    var k :| 0 <= k < |r1.users| && r1.users[k] == r1.user;
    assert FindByStudentId(r1.users, sid) == Some(k);
  }
}
