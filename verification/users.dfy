/** Principals: a username, a generated `USER-<n>` id and a role. The generator's
    process-wide counters are an explicit IdGen value threaded through construction
    and re-seeded after a load. */
module Users {
  import opened Wrappers
  import opened Text

  datatype Role = Administrator | Student

  datatype User = User(username: string, userId: string, role: Role)

  /** userCounter is the last number handed out; lastSavedMaxId the highest number seen in loaded data */
  datatype IdGen = IdGen(counter: int, lastSavedMaxId: int)

  /** One generated id together with the generator state that follows it */
  datatype Generated = Generated(n: int, id: string, gen: IdGen)

  /** A constructed user together with the generator state that follows it */
  datatype Created = Created(user: User, gen: IdGen)

  const UserIdPrefix := "USER-"

  /** Both counters start at 1000 in a fresh process */
  function InitialGen(): (g: IdGen)
    ensures GenerateUserId(g).id == "USER-1001"
  {
    var g := IdGen(1000, 1000);
    assert IntToString(1001) == "1001";
    g
  }

  /** generateUserId: the next number is above both the last one handed out and
      every number seen in loaded data; the id reads back as that number */
  function GenerateUserId(g: IdGen): (r: Generated)
    ensures r.n > g.counter && r.n > g.lastSavedMaxId
    ensures r.n == g.counter + 1 || r.n == g.lastSavedMaxId + 1
    ensures NumberedSuffix(r.id, UserIdPrefix) == Some(r.n)
    ensures r.gen.counter == r.n && r.gen.lastSavedMaxId == g.lastSavedMaxId
  {
    var base := if g.lastSavedMaxId >= g.counter then g.lastSavedMaxId else g.counter;
    var n := base + 1;
    NumberedSuffixRoundTrip(UserIdPrefix, n);
    Generated(n, UserIdPrefix + IntToString(n), IdGen(n, g.lastSavedMaxId))
  }

  /** Successive generations give strictly increasing numbers, hence distinct ids */
  lemma GeneratedIdsIncrease(g: IdGen)
    ensures GenerateUserId(GenerateUserId(g).gen).n > GenerateUserId(g).n
    ensures GenerateUserId(GenerateUserId(g).gen).id != GenerateUserId(g).id
  {
    var a := GenerateUserId(g);
    var b := GenerateUserId(a.gen);
    assert NumberedSuffix(a.id, UserIdPrefix) != NumberedSuffix(b.id, UserIdPrefix);
  }

  /** The User constructor (through Administrator or Student): stores the username
      and takes a freshly generated id */
  function NewUser(g: IdGen, username: string, role: Role): (c: Created)
    ensures c.user.username == username && c.user.role == role
    ensures c.user.userId == GenerateUserId(g).id && c.gen == GenerateUserId(g).gen
    ensures c.gen.counter > g.counter
  {
    var r := GenerateUserId(g);
    Created(User(username, r.id, role), r.gen)
  }

  /** canManageResources: administrators may manage resources, students may not */
  function CanManageResources(u: User): (b: bool)
    ensures b <==> u.role == Administrator
  {
    match u.role
    case Administrator => true
    case Student => false
  }

  /** getUserRole: the role name shown to users */
  function UserRole(u: User): string {
    match u.role
    case Administrator => "Administrator"
    case Student => "Student"
  }

  /** toString of Administrator and Student */
  function Describe(u: User): string {
    match u.role
    case Administrator => "ADMIN: " + u.username + " [ID: " + u.userId + "]"
    case Student => "STUDENT: " + u.username + " [ID: " + u.userId + "]"
  }

  /** The role name and the description both reveal the permission level */
  lemma RoleShownConsistently(u: User)
    ensures UserRole(u) == "Administrator" <==> CanManageResources(u)
    ensures StartsWith(Describe(u), "ADMIN: ") <==> CanManageResources(u)
  {
    if u.role == Student {
      assert Describe(u)[0] == 'S';
    } else {
      assert Describe(u)[..7] == "ADMIN: ";
    }
  }

  /** The number of a well-formed `USER-<n>` id, None for ids the re-seeding ignores */
  function UserIdNumber(u: User): Option<int> {
    NumberedSuffix(u.userId, UserIdPrefix)
  }

  /** updateFromLoadedUsers: raises lastSavedMaxId to the largest well-formed id number
      among the loaded users; malformed ids are skipped and the counter is untouched */
  function UpdateFromLoadedUsers(g: IdGen, users: seq<User>): (r: IdGen)
    decreases |users|
    ensures r.counter == g.counter
    ensures r.lastSavedMaxId >= g.lastSavedMaxId
    ensures forall i :: 0 <= i < |users| && UserIdNumber(users[i]).Some? ==>
      UserIdNumber(users[i]).value <= r.lastSavedMaxId
    ensures r.lastSavedMaxId == g.lastSavedMaxId ||
      exists i :: 0 <= i < |users| && UserIdNumber(users[i]) == Some(r.lastSavedMaxId)
  {
    if |users| == 0 then g
    else
      var num := UserIdNumber(users[0]);
      var g' := if num.Some? && num.value > g.lastSavedMaxId then g.(lastSavedMaxId := num.value) else g;
      var r := UpdateFromLoadedUsers(g', users[1..]);
      assert forall i :: 1 <= i < |users| ==> users[i] == users[1..][i - 1];
      r
  }

  /** After re-seeding from a loaded user list, the next generated id number exceeds
      every well-formed id number in that list, so no loaded id is issued again */
  lemma NextUserIdAfterLoadIsFresh(g: IdGen, users: seq<User>)
    ensures forall i :: 0 <= i < |users| && UserIdNumber(users[i]).Some? ==>
      GenerateUserId(UpdateFromLoadedUsers(g, users)).n > UserIdNumber(users[i]).value
    ensures forall i :: 0 <= i < |users| ==>
      GenerateUserId(UpdateFromLoadedUsers(g, users)).id != users[i].userId
  {
    var r := GenerateUserId(UpdateFromLoadedUsers(g, users));
  }
}
