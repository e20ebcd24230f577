/**
  The backend's registration, friendship, solved-problem and user-profile rules, as
  transitions on an in-memory copy of the three collections the routes touch. A lookup by a
  field finds the first matching document in collection order, and an update touches that
  document only; a missing request field is the empty string (or `None` for identifiers).
 */
module Server {

  import opened Seqs
  import opened Roster

  const StatusOk := 200
  const StatusCreated := 201
  const StatusBadRequest := 400
  const StatusNotFound := 404
  const StatusServerError := 500

  /** A document of the users collection; missing arrays are empty. */
  datatype User = User(
    id: nat,
    email: string,
    name: string,
    cfHandle: Option<string>,
    friends: seq<nat>,
    solvedProblems: seq<string>,
    contests: seq<ContestRef>)

  /**
    A contest document; `key` is the field a route looks it up by (`contestId` for private
    contests, `id` for published ones).
   */
  datatype ContestDoc = ContestDoc(key: string, name: string, authoremail: Option<string>, participants: seq<Participant>)

  /** The two contest collections a participant can register in. */
  datatype Collection = PrivateContests | UpcomingContests

  /** The store: users, both contest collections, and the identifier the next inserted user gets. */
  datatype Store = Store(users: seq<User>, privateContests: seq<ContestDoc>, upcomingContests: seq<ContestDoc>, nextId: nat)

  /** A route's answer: the HTTP status and the store afterwards. */
  datatype Response = Response(status: nat, store: Store)

  function ContestsIn(st: Store, col: Collection): seq<ContestDoc> {
    match col
    case PrivateContests => st.privateContests
    case UpcomingContests => st.upcomingContests
  }

  function WithContests(st: Store, col: Collection, cs: seq<ContestDoc>): Store {
    match col
    case PrivateContests => st.(privateContests := cs)
    case UpcomingContests => st.(upcomingContests := cs)
  }

  function HasKey(key: string): ContestDoc -> bool {
    (c: ContestDoc) => c.key == key
  }

  function HasEmail(email: string): User -> bool {
    (u: User) => u.email == email
  }

  function HasId(id: nat): User -> bool {
    (u: User) => u.id == id
  }

  function UserEmail(u: User): string {
    u.email
  }

  /** `participants?.some(p => p.email === email)`. */
  predicate IsRegistered(c: ContestDoc, email: string) {
    exists p :: p in c.participants && p.email == email
  }

  /**
    `user?.cfHandle || null`: the handle of the first user with this email, or `None` when there
    is no such user or the handle is missing or empty.
   */
  function HandleFor(users: seq<User>, email: string): (h: Option<string>)
    ensures FindFirst(HasEmail(email), users).None? ==> h.None?
    ensures h.Some? ==> h.value != ""
    ensures forall k :: FindFirst(HasEmail(email), users) == Some(k) ==>
      (h.Some? <==> users[k].cfHandle.Some? && users[k].cfHandle.value != "")
      && (h.Some? ==> h == users[k].cfHandle)
  {
    match FindFirst(HasEmail(email), users)
    case None => None
    case Some(k) =>
      if users[k].cfHandle.Some? && users[k].cfHandle.value != "" then users[k].cfHandle else None
  }

  /** `$push: { contests: ref }` on the first user with this email, if there is one. */
  function PushContest(users: seq<User>, email: string, ref: ContestRef): (r: seq<User>)
    ensures |r| == |users|
    ensures forall k :: FindFirst(HasEmail(email), users) == Some(k) ==> r[k].contests == users[k].contests + [ref]
    ensures forall k :: 0 <= k < |r| ==> r[k].(contests := users[k].contests) == users[k]
    ensures forall k :: 0 <= k < |r| && FindFirst(HasEmail(email), users) != Some(k) ==> r[k] == users[k]
  {
    match FindFirst(HasEmail(email), users)
    case None => users
    case Some(k) => users[k := users[k].(contests := users[k].contests + [ref])]
  }

  // ---------------------------------------------------------------------------------------
  // Registration.

  /**
    What both register routes do after their own checks: 404 when no contest has the key, 400
    when the email is already among its participants, otherwise the participant is appended to
    that contest and the contest is appended to the user's history.
   */
  function Register(st: Store, col: Collection, key: string, name: string, email: string, url: string): (r: Response)
    ensures r.status == StatusOk || r.status == StatusBadRequest || r.status == StatusNotFound
    ensures r.status != StatusOk ==> r.store == st
    ensures r.status == StatusNotFound <==> forall c :: c in ContestsIn(st, col) ==> c.key != key
    ensures forall k :: FindFirst(HasKey(key), ContestsIn(st, col)) == Some(k) ==>
      (r.status == StatusBadRequest <==> IsRegistered(ContestsIn(st, col)[k], email))
    ensures r.status == StatusOk ==>
      exists k :: FindFirst(HasKey(key), ContestsIn(st, col)) == Some(k) && Enrolled(st, r.store, col, k, name, email, url)
  {
    var cs := ContestsIn(st, col);
    match FindFirst(HasKey(key), cs)
    case None =>
      forall c | c in cs
        ensures c.key != key
      {
        var j :| 0 <= j < |cs| && cs[j] == c;
      }
      Response(StatusNotFound, st)
    case Some(k) =>
      assert cs[k] in cs;
      if IsRegistered(cs[k], email) then Response(StatusBadRequest, st)
      else
        var c := cs[k];
        var enrolled := c.(participants := c.participants + [Participant(name, email, HandleFor(st.users, email))]);
        var st' := WithContests(st, col, cs[k := enrolled]).(users := PushContest(st.users, email, ContestRef(c.name, url)));
        Response(StatusOk, st')
  }

  /**
    The effect of a successful registration in contest `k` of collection `col`: exactly one
    participant `{name, email, cfHandle}` appended to that contest, the contest's name and `url`
    appended to the user's history, and nothing else changed.
   */
  ghost predicate Enrolled(st: Store, st': Store, col: Collection, k: nat, name: string, email: string, url: string) {
    var cs := ContestsIn(st, col);
    var cs' := ContestsIn(st', col);
    && k < |cs| && |cs'| == |cs|
    && cs'[k].participants == cs[k].participants + [Participant(name, email, HandleFor(st.users, email))]
    && cs'[k].(participants := cs[k].participants) == cs[k]
    && (forall j :: 0 <= j < |cs| && j != k ==> cs'[j] == cs[j])
    && st'.users == PushContest(st.users, email, ContestRef(cs[k].name, url))
    && (col.PrivateContests? ==> st'.upcomingContests == st.upcomingContests)
    && (col.UpcomingContests? ==> st'.privateContests == st.privateContests)
    && st'.nextId == st.nextId
  }

  /** `POST /privatecontests/:id/register`: name and email are required. */
  function RegisterPrivate(st: Store, contestId: string, name: string, email: string, frontendUrl: string): (r: Response)
    ensures name == "" || email == "" ==> r == Response(StatusBadRequest, st)
    ensures r.status == StatusOk || r.status == StatusBadRequest || r.status == StatusNotFound
    ensures r.status != StatusOk ==> r.store == st
    ensures name != "" && email != "" ==>
      (r.status == StatusNotFound <==> forall c :: c in st.privateContests ==> c.key != contestId)
    ensures forall k :: FindFirst(HasKey(contestId), st.privateContests) == Some(k) ==>
      (r.status == StatusBadRequest <==> name == "" || email == "" || IsRegistered(st.privateContests[k], email))
    ensures r.status == StatusOk ==> name != "" && email != ""
    ensures r.status == StatusOk ==>
      exists k :: FindFirst(HasKey(contestId), st.privateContests) == Some(k)
        && Enrolled(st, r.store, PrivateContests, k, name, email, frontendUrl + "/CostumContests/" + contestId)
  {
    if name == "" || email == "" then Response(StatusBadRequest, st)
    else Register(st, PrivateContests, contestId, name, email, frontendUrl + "/CostumContests/" + contestId)
  }

  /**
    `POST /contests/:contestid/register`: no field checks. After a successful registration the
    route still answers 500, keeping the registration, when the contest has no organizer email
    or the confirmation mail could not be sent (`mailSent`).
   */
  function RegisterPublic(st: Store, contestId: string, name: string, email: string, frontendUrl: string, mailSent: bool): (r: Response)
    ensures r.status == StatusOk || r.status == StatusBadRequest || r.status == StatusNotFound
         || r.status == StatusServerError
    ensures r.status == StatusBadRequest || r.status == StatusNotFound ==> r.store == st
    ensures r.status == StatusNotFound <==> forall c :: c in st.upcomingContests ==> c.key != contestId
    ensures forall k :: FindFirst(HasKey(contestId), st.upcomingContests) == Some(k) ==>
      && (r.status == StatusBadRequest <==> IsRegistered(st.upcomingContests[k], email))
      && (r.status == StatusServerError <==>
            (!IsRegistered(st.upcomingContests[k], email) && (OrganizerMissing(st.upcomingContests[k]) || !mailSent)))
    ensures r.status == StatusOk || r.status == StatusServerError ==>
      exists k :: FindFirst(HasKey(contestId), st.upcomingContests) == Some(k)
        && Enrolled(st, r.store, UpcomingContests, k, name, email, frontendUrl + "/contests/" + contestId)
  {
    var url := frontendUrl + "/contests/" + contestId;
    var r := Register(st, UpcomingContests, contestId, name, email, url);
    if r.status != StatusOk then r
    else
      var k := FindFirst(HasKey(contestId), st.upcomingContests).value;
      if OrganizerMissing(st.upcomingContests[k]) || !mailSent then Response(StatusServerError, r.store)
      else r
  }

  /** `!contest.authoremail`: the contest has no organizer address to send the confirmation from. */
  predicate OrganizerMissing(c: ContestDoc) {
    c.authoremail.None? || c.authoremail.value == ""
  }

  /** Participant emails of every contest in a collection are pairwise distinct. */
  ghost predicate DistinctParticipants(st: Store, col: Collection) {
    forall k :: 0 <= k < |ContestsIn(st, col)| ==> NoDupBy(EmailOf, ContestsIn(st, col)[k].participants)
  }

  /** Registration never lets the same email into a contest twice. */
  lemma RegisterKeepsParticipantsDistinct(st: Store, col: Collection, key: string, name: string, email: string, url: string)
    requires DistinctParticipants(st, col)
    ensures DistinctParticipants(Register(st, col, key, name, email, url).store, col)
  {
    var r := Register(st, col, key, name, email, url);
    if r.status == StatusOk {
      var k :| FindFirst(HasKey(key), ContestsIn(st, col)) == Some(k) && Enrolled(st, r.store, col, k, name, email, url);
      var ps := ContestsIn(st, col)[k].participants;
      var ps' := ContestsIn(r.store, col)[k].participants;
      assert !IsRegistered(ContestsIn(st, col)[k], email);
      forall i, j | 0 <= i < j < |ps'|
        ensures EmailOf(ps'[i]) != EmailOf(ps'[j])
      {
        if j == |ps| {
          assert ps'[i] == ps[i];
          assert ps[i] in ps;
        } else {
          assert ps'[i] == ps[i] && ps'[j] == ps[j];
        }
      }
    }
  }

  /** Once registered, the same email is turned away from the same contest, and nothing changes. */
  lemma RegisterAgainRejected(st: Store, col: Collection, key: string, name: string, email: string, url: string,
                              name2: string, url2: string)
    requires Register(st, col, key, name, email, url).status == StatusOk
    ensures var st' := Register(st, col, key, name, email, url).store;
      Register(st', col, key, name2, email, url2) == Response(StatusBadRequest, st')
  {
    var st' := Register(st, col, key, name, email, url).store;
    var k :| FindFirst(HasKey(key), ContestsIn(st, col)) == Some(k) && Enrolled(st, st', col, k, name, email, url);
    var cs := ContestsIn(st, col);
    var cs' := ContestsIn(st', col);
    assert cs'[k].key == key;
    forall j | 0 <= j < k
      ensures !HasKey(key)(cs'[j])
    {
      assert cs'[j] == cs[j];
    }
    FindFirstIs(HasKey(key), cs', k);
    var p := Participant(name, email, HandleFor(st.users, email));
    assert cs'[k].participants[|cs'[k].participants| - 1] == p;
    assert p in cs'[k].participants;
  }

  // ---------------------------------------------------------------------------------------
  // Friends and solved problems.

  /** `POST /users/add-friend`: `$addToSet` of the friend's id on the user with `userId`. */
  function AddFriend(st: Store, userId: Option<nat>, friendId: Option<nat>): (r: Response)
    ensures userId.None? || friendId.None? ==> r == Response(StatusBadRequest, st)
    ensures r.status != StatusOk ==> r.store == st
    ensures userId.Some? && friendId.Some? ==>
      (r.status == StatusNotFound <==> FindFirst(HasId(userId.value), st.users).None?)
    ensures userId.Some? && friendId.Some? && FindFirst(HasId(userId.value), st.users).Some? ==>
      r.status == StatusOk
    ensures r.status == StatusOk ==> r.store.(users := st.users) == st && |r.store.users| == |st.users|
    ensures r.status == StatusOk ==> forall k :: FindFirst(HasId(userId.value), st.users) == Some(k) ==>
      && (forall f :: f in r.store.users[k].friends <==> f in st.users[k].friends || f == friendId.value)
      && (NoDup(st.users[k].friends) ==> NoDup(r.store.users[k].friends))
      && r.store.users[k].(friends := st.users[k].friends) == st.users[k]
      && (forall j :: 0 <= j < |st.users| && j != k ==> r.store.users[j] == st.users[j])
  {
    if userId.None? || friendId.None? then Response(StatusBadRequest, st)
    else match FindFirst(HasId(userId.value), st.users)
      case None => Response(StatusNotFound, st)
      case Some(k) =>
        var u := st.users[k];
        Response(StatusOk, st.(users := st.users[k := u.(friends := AddToSet(u.friends, friendId.value))]))
  }

  /** `POST /users/remove-friend`: `$pull` of the friend's id from the user with `userId`. */
  function RemoveFriend(st: Store, userId: Option<nat>, friendId: Option<nat>): (r: Response)
    ensures userId.None? || friendId.None? ==> r == Response(StatusBadRequest, st)
    ensures r.status != StatusOk ==> r.store == st
    ensures userId.Some? && friendId.Some? ==>
      (r.status == StatusNotFound <==> FindFirst(HasId(userId.value), st.users).None?)
    ensures userId.Some? && friendId.Some? && FindFirst(HasId(userId.value), st.users).Some? ==>
      r.status == StatusOk
    ensures r.status == StatusOk ==> r.store.(users := st.users) == st && |r.store.users| == |st.users|
    ensures r.status == StatusOk ==> forall k :: FindFirst(HasId(userId.value), st.users) == Some(k) ==>
      && friendId.value !in r.store.users[k].friends
      && (forall f :: f != friendId.value ==> (f in r.store.users[k].friends <==> f in st.users[k].friends))
      && r.store.users[k].(friends := st.users[k].friends) == st.users[k]
      && (forall j :: 0 <= j < |st.users| && j != k ==> r.store.users[j] == st.users[j])
  {
    if userId.None? || friendId.None? then Response(StatusBadRequest, st)
    else match FindFirst(HasId(userId.value), st.users)
      case None => Response(StatusNotFound, st)
      case Some(k) =>
        var u := st.users[k];
        Response(StatusOk, st.(users := st.users[k := u.(friends := Pull(u.friends, friendId.value))]))
  }

  /** Adding the same friend twice leaves the store as adding once did. */
  lemma AddFriendIdempotent(st: Store, userId: Option<nat>, friendId: Option<nat>)
    ensures var once := AddFriend(st, userId, friendId);
      AddFriend(once.store, userId, friendId) == once
  {
    var once := AddFriend(st, userId, friendId);
    if once.status == StatusOk {
      var k := FindFirst(HasId(userId.value), st.users).value;
      FindFirstIs(HasId(userId.value), once.store.users, k);
    }
  }

  /** Removing a friend after adding them leaves them absent, and keeps every other friend. */
  lemma RemoveAfterAdd(st: Store, userId: nat, friendId: nat)
    requires FindFirst(HasId(userId), st.users).Some?
    ensures var k := FindFirst(HasId(userId), st.users).value;
      var after := RemoveFriend(AddFriend(st, Some(userId), Some(friendId)).store, Some(userId), Some(friendId));
      && after.status == StatusOk
      && friendId !in after.store.users[k].friends
      && forall f :: f != friendId ==> (f in after.store.users[k].friends <==> f in st.users[k].friends)
  {
    var k := FindFirst(HasId(userId), st.users).value;
    var added := AddFriend(st, Some(userId), Some(friendId));
    FindFirstIs(HasId(userId), added.store.users, k);
  }

  /** `POST /users/mark-problem-solved`: `$addToSet` of the problem on the user with this email. */
  function MarkSolved(st: Store, email: string, problemId: string): (r: Response)
    ensures email == "" || problemId == "" ==> r == Response(StatusBadRequest, st)
    ensures r.status != StatusOk ==> r.store == st
    ensures email != "" && problemId != "" ==>
      (r.status == StatusNotFound <==> forall u :: u in st.users ==> u.email != email)
    ensures email != "" && problemId != "" && FindFirst(HasEmail(email), st.users).Some? ==>
      r.status == StatusOk
    ensures r.status == StatusOk ==> r.store.(users := st.users) == st && |r.store.users| == |st.users|
    ensures r.status == StatusOk ==> forall k :: FindFirst(HasEmail(email), st.users) == Some(k) ==>
      && problemId in r.store.users[k].solvedProblems
      && (forall q :: q in r.store.users[k].solvedProblems <==> q in st.users[k].solvedProblems || q == problemId)
      && (problemId !in st.users[k].solvedProblems ==>
            |r.store.users[k].solvedProblems| == |st.users[k].solvedProblems| + 1)
      && (NoDup(st.users[k].solvedProblems) ==> NoDup(r.store.users[k].solvedProblems))
      && r.store.users[k].(solvedProblems := st.users[k].solvedProblems) == st.users[k]
      && (forall j :: 0 <= j < |st.users| && j != k ==> r.store.users[j] == st.users[j])
  {
    if email == "" || problemId == "" then Response(StatusBadRequest, st)
    else match FindFirst(HasEmail(email), st.users)
      case None =>
        forall u | u in st.users
          ensures u.email != email
        {
          var j :| 0 <= j < |st.users| && st.users[j] == u;
        }
        Response(StatusNotFound, st)
      case Some(k) =>
        assert st.users[k] in st.users;
        var u := st.users[k];
        Response(StatusOk, st.(users := st.users[k := u.(solvedProblems := AddToSet(u.solvedProblems, problemId))]))
  }

  /** Marking the same problem solved twice leaves the store as marking once did. */
  lemma MarkSolvedIdempotent(st: Store, email: string, problemId: string)
    ensures var once := MarkSolved(st, email, problemId);
      MarkSolved(once.store, email, problemId).store == once.store
  {
    var once := MarkSolved(st, email, problemId);
    if once.status == StatusOk {
      var k := FindFirst(HasEmail(email), st.users).value;
      FindFirstIs(HasEmail(email), once.store.users, k);
    }
  }

  /** The answer of `GET /users/:userId/friends`: a status and the friend documents. */
  datatype FriendsReply = FriendsReply(status: nat, friends: seq<User>)

  function IdIn(ids: seq<nat>): User -> bool {
    (u: User) => u.id in ids
  }

  /**
    `GET /users/:userId/friends`: 404 for an unknown user, an empty list when the user has no
    friends, otherwise the users whose id is among the friends, in collection order.
   */
  function FriendsOf(st: Store, userId: nat): (r: FriendsReply)
    ensures r.status == StatusNotFound <==> FindFirst(HasId(userId), st.users).None?
    ensures r.status == StatusNotFound ==> r.friends == []
    ensures r.status != StatusNotFound ==> r.status == StatusOk
    ensures forall k :: FindFirst(HasId(userId), st.users) == Some(k) ==>
      && (st.users[k].friends == [] ==> r.friends == [])
      && (forall u :: u in r.friends <==> u in st.users && u.id in st.users[k].friends)
  {
    match FindFirst(HasId(userId), st.users)
    case None => FriendsReply(StatusNotFound, [])
    case Some(k) =>
      if |st.users[k].friends| == 0 then FriendsReply(StatusOk, [])
      else FriendsReply(StatusOk, Filter(IdIn(st.users[k].friends), st.users))
  }

  /** The early answer for a user without friends is what the general query would return. */
  lemma NoFriendsShortcutAgrees(st: Store, userId: nat)
    requires FindFirst(HasId(userId), st.users).Some?
    ensures FriendsOf(st, userId).friends
         == Filter(IdIn(st.users[FindFirst(HasId(userId), st.users).value].friends), st.users)
  {
    var k := FindFirst(HasId(userId), st.users).value;
    if |st.users[k].friends| == 0 {
      FilterKeepsNone(IdIn(st.users[k].friends), st.users);
    }
  }

  // ---------------------------------------------------------------------------------------
  // Profile upsert.

  /**
    The body of `POST /users`; `None` marks a field the client did not send. Every field of the
    user document except its identifier can be sent.
   */
  datatype UserPatch = UserPatch(
    email: string,
    name: Option<string>,
    cfHandle: Option<string>,
    friends: Option<seq<nat>>,
    solvedProblems: Option<seq<string>>,
    contests: Option<seq<ContestRef>>)

  /** `u` holds every field the patch supplies. */
  predicate Carries(u: User, patch: UserPatch) {
    && u.email == patch.email
    && (patch.name.Some? ==> u.name == patch.name.value)
    && (patch.cfHandle.Some? ==> u.cfHandle == patch.cfHandle)
    && (patch.friends.Some? ==> u.friends == patch.friends.value)
    && (patch.solvedProblems.Some? ==> u.solvedProblems == patch.solvedProblems.value)
    && (patch.contests.Some? ==> u.contests == patch.contests.value)
  }

  /** `u'` has the identifier of `u` and agrees with it on every field the patch leaves out. */
  predicate KeepsUnsupplied(u: User, u': User, patch: UserPatch) {
    && u'.id == u.id
    && (patch.name.None? ==> u'.name == u.name)
    && (patch.cfHandle.None? ==> u'.cfHandle == u.cfHandle)
    && (patch.friends.None? ==> u'.friends == u.friends)
    && (patch.solvedProblems.None? ==> u'.solvedProblems == u.solvedProblems)
    && (patch.contests.None? ==> u'.contests == u.contests)
  }

  /** A field the patch leaves out is missing from the inserted document: empty, or no handle. */
  predicate DefaultsUnsupplied(u: User, patch: UserPatch) {
    && (patch.name.None? ==> u.name == "")
    && (patch.cfHandle.None? ==> u.cfHandle.None?)
    && (patch.friends.None? ==> u.friends == [])
    && (patch.solvedProblems.None? ==> u.solvedProblems == [])
    && (patch.contests.None? ==> u.contests == [])
  }

  /** `$set` of the supplied fields. */
  function Apply(u: User, patch: UserPatch): User {
    u.(name := patch.name.GetOr(u.name),
       cfHandle := if patch.cfHandle.Some? then patch.cfHandle else u.cfHandle,
       friends := patch.friends.GetOr(u.friends),
       solvedProblems := patch.solvedProblems.GetOr(u.solvedProblems),
       contests := patch.contests.GetOr(u.contests))
  }

  /** A user document made of the supplied fields only, under the next identifier. */
  function Fresh(id: nat, patch: UserPatch): User {
    User(id, patch.email, patch.name.GetOr(""), patch.cfHandle,
         patch.friends.GetOr([]), patch.solvedProblems.GetOr([]), patch.contests.GetOr([]))
  }

  /**
    `POST /users`: 400 without an email; 200 and the supplied fields written over the first user
    with that email; otherwise 201 and a new user appended.
   */
  function Upsert(st: Store, patch: UserPatch): (r: Response)
    ensures patch.email == "" <==> r.status == StatusBadRequest
    ensures r.status == StatusBadRequest ==> r.store == st
    ensures patch.email != "" ==>
      (r.status == StatusCreated <==> forall u :: u in st.users ==> u.email != patch.email)
    ensures r.status == StatusOk || r.status == StatusCreated || r.status == StatusBadRequest
    ensures r.status == StatusOk ==> r.store.(users := st.users) == st && |r.store.users| == |st.users|
    ensures r.status == StatusOk ==> forall k :: FindFirst(HasEmail(patch.email), st.users) == Some(k) ==>
      && Carries(r.store.users[k], patch)
      && KeepsUnsupplied(st.users[k], r.store.users[k], patch)
      && (forall j :: 0 <= j < |st.users| && j != k ==> r.store.users[j] == st.users[j])
    ensures r.status == StatusCreated ==>
      && |r.store.users| == |st.users| + 1
      && r.store.users[..|st.users|] == st.users
      && r.store.users[|st.users|].id == st.nextId
      && Carries(r.store.users[|st.users|], patch)
      && DefaultsUnsupplied(r.store.users[|st.users|], patch)
      && r.store.nextId == st.nextId + 1
      && r.store.(users := st.users, nextId := st.nextId) == st
  {
    if patch.email == "" then Response(StatusBadRequest, st)
    else match FindFirst(HasEmail(patch.email), st.users)
      case Some(k) =>
        assert st.users[k] in st.users;
        Response(StatusOk, st.(users := st.users[k := Apply(st.users[k], patch)]))
      case None =>
        forall u | u in st.users
          ensures u.email != patch.email
        {
          var j :| 0 <= j < |st.users| && st.users[j] == u;
        }
        var users := st.users + [Fresh(st.nextId, patch)];
        assert users[..|st.users|] == st.users;
        Response(StatusCreated, st.(users := users, nextId := st.nextId + 1))
  }

  /** After a successful upsert the email finds a user carrying every supplied field. */
  lemma UpsertThenFind(st: Store, patch: UserPatch)
    requires patch.email != ""
    ensures var st' := Upsert(st, patch).store;
      exists k :: FindFirst(HasEmail(patch.email), st'.users) == Some(k)
        && Carries(st'.users[k], patch)
  {
    var st' := Upsert(st, patch).store;
    match FindFirst(HasEmail(patch.email), st.users)
    case Some(k) =>
      FindFirstIs(HasEmail(patch.email), st'.users, k);
    case None =>
      var n := |st.users|;
      assert st'.users[n].email == patch.email;
      forall j | 0 <= j < n
        ensures !HasEmail(patch.email)(st'.users[j])
      {
        assert st'.users[j] == st.users[j];
      }
      FindFirstIs(HasEmail(patch.email), st'.users, n);
  }

  /** Upsert never gives two users the same email. */
  lemma UpsertKeepsEmailsDistinct(st: Store, patch: UserPatch)
    requires NoDupBy(UserEmail, st.users)
    ensures NoDupBy(UserEmail, Upsert(st, patch).store.users)
  {
    var r := Upsert(st, patch);
    var us := r.store.users;
    if r.status == StatusCreated {
      forall i, j | 0 <= i < j < |us|
        ensures UserEmail(us[i]) != UserEmail(us[j])
      {
        if j == |st.users| {
          assert us[i] == st.users[i];
          assert st.users[i] in st.users;
        } else {
          assert us[i] == st.users[i] && us[j] == st.users[j];
        }
      }
    } else if r.status == StatusOk {
      var k := FindFirst(HasEmail(patch.email), st.users).value;
      forall i, j | 0 <= i < j < |us|
        ensures UserEmail(us[i]) != UserEmail(us[j])
      {
        assert UserEmail(st.users[i]) != UserEmail(st.users[j]);
        assert us[i].email == st.users[i].email && us[j].email == st.users[j].email;
      }
    }
  }

  /** Sending the same profile twice leaves the store as sending it once did. */
  lemma UpsertIdempotent(st: Store, patch: UserPatch)
    ensures var once := Upsert(st, patch);
      Upsert(once.store, patch).store == once.store
  {
    var once := Upsert(st, patch);
    if patch.email != "" {
      UpsertThenFind(st, patch);
      var k :| FindFirst(HasEmail(patch.email), once.store.users) == Some(k);
      var u := once.store.users[k];
      assert Apply(u, patch) == u;
    }
  }
}
