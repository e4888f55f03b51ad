/**
 The SCIM user and group store and the live sessions (app/scim/router.py, app/security.py).
 `Db` is the state each request maps to the next; the `Store` class does the same in place, with
 member lists where `Db` has member sets.
 */
module ScimStore {
  import opened Text
  import opened Json
  import opened ScimPatch

  datatype Session = Session(subject: string, email: string, expiresAt: int, revokedAt: Option<int>)

  datatype Db = Db(users: map<Id, User>, groups: map<Id, Group>, sessions: map<Id, Session>)

  /** Python's lower(), the database's lower() and Python's str() of a non-string. */
  datatype Env = Env(lower: string -> string, dbLower: string -> string, repr: Json -> string)

  /** The store after a request, with the number of sessions it revoked or its error. */
  datatype Reply = Reply(db: Db, outcome: Result<nat, ScimError>)

  datatype PersonName = PersonName(formatted: Option<string>, given: Option<string>, family: Option<string>)

  datatype EmailEntry = EmailEntry(value: Option<string>, primary: bool)

  datatype UserPayload = UserPayload(
    userName: Option<string>,
    externalId: Option<string>,
    name: Option<PersonName>,
    displayName: Option<string>,
    emails: seq<EmailEntry>,
    active: bool)

  datatype GroupPayload = GroupPayload(displayName: Option<string>, externalId: Option<string>, members: seq<Option<Id>>)

  // --- revocation -------------------------------------------------------------------------

  function Identifiers(u: User): seq<Option<string>> {
    [Some(u.userName), Some(u.email), u.externalId]
  }

  predicate IsBlank(x: Option<string>) {
    x.None? || Strip(x.value) == ""
  }

  function Wanted(e: Env, identifiers: seq<Option<string>>): set<string> {
    set x | x in identifiers && !IsBlank(x) :: e.lower(Strip(x.value))
  }

  predicate Matches(e: Env, s: Session, wanted: set<string>) {
    e.dbLower(s.subject) in wanted || e.dbLower(s.email) in wanted
  }

  predicate Revocable(e: Env, s: Session, wanted: set<string>) {
    s.revokedAt.None? && Matches(e, s, wanted)
  }

  function Hits(e: Env, sessions: map<Id, Session>, wanted: set<string>): set<Id> {
    set id | id in sessions && Revocable(e, sessions[id], wanted)
  }

  function Mark(sessions: map<Id, Session>, ids: set<Id>, now: int): map<Id, Session> {
    map id | id in sessions :: if id in ids then sessions[id].(revokedAt := Some(now)) else sessions[id]
  }

  /** `revoke_sessions_for_user` */
  function RevokeFor(e: Env, sessions: map<Id, Session>, identifiers: seq<Option<string>>, now: int): map<Id, Session> {
    Mark(sessions, Hits(e, sessions, Wanted(e, identifiers)), now)
  }

  // --- users ----------------------------------------------------------------------------------

  /** `a or b` on an optional string. */
  function OrElse(a: Option<string>, b: string): string {
    if a.None? || a.value == "" then b else a.value
  }

  function PrimaryEmail(emails: seq<EmailEntry>): string {
    var primary := FirstEmail(emails, true);
    if primary != "" then primary else FirstEmail(emails, false)
  }

  function FirstEmail(emails: seq<EmailEntry>, primaryOnly: bool): string {
    if emails == [] then ""
    else if (emails[0].primary || !primaryOnly) && OrElse(emails[0].value, "") != "" then emails[0].value.value
    else FirstEmail(emails[1..], primaryOnly)
  }

  function NamePart(p: UserPayload, part: PersonName -> Option<string>): string {
    if p.name.None? then "" else OrElse(part(p.name.value), "")
  }

  function NewUser(p: UserPayload): User
    requires p.userName.Some?
  {
    User(p.userName.value, p.externalId,
         OrElse(p.displayName, NamePart(p, (n: PersonName) => n.formatted)),
         NamePart(p, (n: PersonName) => n.given), NamePart(p, (n: PersonName) => n.family),
         OrElse(Some(PrimaryEmail(p.emails)), p.userName.value), p.active)
  }

  function ReplacedUser(u: User, p: UserPayload): User {
    User(OrElse(p.userName, u.userName),
         if p.externalId.Some? then p.externalId else u.externalId,
         OrElse(p.displayName, NamePart(p, (n: PersonName) => n.formatted)),
         NamePart(p, (n: PersonName) => n.given), NamePart(p, (n: PersonName) => n.family),
         OrElse(Some(PrimaryEmail(p.emails)), u.email), p.active)
  }

  /** The database's unique constraint on the exact user name. */
  predicate UserNameFree(db: Db, id: Id, name: string) {
    forall other :: other in db.users && other != id ==> db.users[other].userName != name
  }

  function SameUserName(e: Env, db: Db, name: string): set<Id> {
    set id | id in db.users && e.dbLower(db.users[id].userName) == e.lower(name)
  }

  function CreateUser(e: Env, db: Db, id: Id, p: UserPayload): Reply {
    if OrElse(p.userName, "") == "" then Reply(db, Err(NameRequired))
    else
      var same := SameUserName(e, db, p.userName.value);
      if |same| > 1 then Reply(db, Err(Ambiguous))
      else if |same| == 1 then Reply(db, Err(Uniqueness))
      else if id in db.users || !UserNameFree(db, id, p.userName.value) then Reply(db, Err(Conflict))
      else Reply(db.(users := db.users[id := NewUser(p)]), Ok(0))
  }

  /** Writing an updated user: commit, then end the sessions of a user who just became inactive. */
  function CommitUser(e: Env, db: Db, id: Id, u: User, now: int): Reply
    requires id in db.users
  {
    if !UserNameFree(db, id, u.userName) then Reply(db, Err(Conflict))
    else
      var stored := db.(users := db.users[id := u]);
      if db.users[id].active && !u.active then
        Reply(stored.(sessions := RevokeFor(e, db.sessions, Identifiers(u), now)),
              Ok(|Hits(e, db.sessions, Wanted(e, Identifiers(u)))|))
      else Reply(stored, Ok(0))
  }

  function ReplaceUser(e: Env, db: Db, id: Id, p: UserPayload, now: int): Reply {
    if id !in db.users then Reply(db, Err(NotFound))
    else CommitUser(e, db, id, ReplacedUser(db.users[id], p), now)
  }

  function PatchUser(e: Env, db: Db, id: Id, ops: seq<Operation>, now: int): Reply {
    if id !in db.users then Reply(db, Err(NotFound))
    else match ApplyUserAll(db.users[id], ops, e.repr)
         case Err(error) => Reply(db, Err(error))
         case Ok(u) => CommitUser(e, db, id, u, now)
  }

  /** The database's cascade on membership. */
  function GroupsWithout(groups: map<Id, Group>, id: Id): map<Id, Group> {
    map g | g in groups :: groups[g].(members := groups[g].members - {id})
  }

  function DeleteUser(e: Env, db: Db, id: Id, now: int): Reply {
    if id !in db.users then Reply(db, Err(NotFound))
    else
      var identifiers := Identifiers(db.users[id]);
      Reply(Db(db.users - {id}, GroupsWithout(db.groups, id), RevokeFor(e, db.sessions, identifiers, now)),
            Ok(|Hits(e, db.sessions, Wanted(e, identifiers))|))
  }

  // --- groups ------------------------------------------------------------------------------------

  predicate GroupNameFree(db: Db, id: Id, name: string) {
    forall other :: other in db.groups && other != id ==> db.groups[other].displayName != name
  }

  function SameGroupName(e: Env, db: Db, name: string): set<Id> {
    set id | id in db.groups && e.dbLower(db.groups[id].displayName) == e.lower(name)
  }

  /** The stored users a payload lists; blank entries are skipped. */
  function PayloadMembers(db: Db, members: seq<Option<Id>>): set<Id> {
    (set m | m in members && OrElse(m, "") != "" :: m.value) * db.users.Keys
  }

  function CreateGroup(e: Env, db: Db, id: Id, p: GroupPayload): Reply {
    if OrElse(p.displayName, "") == "" then Reply(db, Err(NameRequired))
    else
      var same := SameGroupName(e, db, p.displayName.value);
      if |same| > 1 then Reply(db, Err(Ambiguous))
      else if |same| == 1 then Reply(db, Err(Uniqueness))
      else if id in db.groups || !GroupNameFree(db, id, p.displayName.value) then Reply(db, Err(Conflict))
      else
        var g := Group(p.displayName.value, p.externalId, PayloadMembers(db, p.members));
        Reply(db.(groups := db.groups[id := g]), Ok(0))
  }

  function CommitGroup(db: Db, id: Id, g: Group): Reply {
    if !GroupNameFree(db, id, g.displayName) then Reply(db, Err(Conflict))
    else Reply(db.(groups := db.groups[id := g]), Ok(0))
  }

  function ReplaceGroup(db: Db, id: Id, p: GroupPayload): Reply {
    if id !in db.groups then Reply(db, Err(NotFound))
    else
      var g := db.groups[id];
      CommitGroup(db, id, Group(OrElse(p.displayName, g.displayName),
                                if p.externalId.Some? then p.externalId else g.externalId,
                                PayloadMembers(db, p.members)))
  }

  function PatchGroup(e: Env, db: Db, id: Id, ops: seq<Operation>): Reply {
    if id !in db.groups then Reply(db, Err(NotFound))
    else CommitGroup(db, id, ApplyGroupAll(db.users.Keys, db.groups[id], ops, e.repr))
  }

  function DeleteGroup(db: Db, id: Id): Reply {
    if id !in db.groups then Reply(db, Err(NotFound))
    else Reply(db.(groups := db.groups - {id}), Ok(0))
  }

  // --- sessions ---------------------------------------------------------------------------------------

  function CreateSession(db: Db, id: Id, subject: string, email: string, expiresAt: int): Reply {
    if id in db.sessions then Reply(db, Err(Conflict))
    else Reply(db.(sessions := db.sessions[id := Session(subject, email, expiresAt, None)]), Ok(0))
  }

  function RevokeSession(db: Db, id: Id, now: int): Reply {
    if id in db.sessions && db.sessions[id].revokedAt.None? then
      Reply(db.(sessions := Mark(db.sessions, {id}, now)), Ok(1))
    else Reply(db, Ok(0))
  }

  function ReadSession(db: Db, id: Id, now: int): Option<Session> {
    if id in db.sessions && db.sessions[id].revokedAt.None? && db.sessions[id].expiresAt >= now
    then Some(db.sessions[id]) else None
  }

  // --- runs ---------------------------------------------------------------------------------------------

  datatype Request =
    | PostUser(id: Id, user: UserPayload)
    | PutUser(id: Id, user: UserPayload, now: int)
    | PatchUserBy(id: Id, ops: seq<Operation>, now: int)
    | DeleteUserAt(id: Id, now: int)
    | PostGroup(id: Id, group: GroupPayload)
    | PutGroup(id: Id, group: GroupPayload)
    | PatchGroupBy(id: Id, ops: seq<Operation>)
    | DeleteGroupAt(id: Id)
    | SignIn(id: Id, subject: string, email: string, expiresAt: int)
    | SignOut(id: Id, now: int)

  function Serve(e: Env, db: Db, r: Request): Reply {
    match r
    case PostUser(id, p) => CreateUser(e, db, id, p)
    case PutUser(id, p, now) => ReplaceUser(e, db, id, p, now)
    case PatchUserBy(id, ops, now) => PatchUser(e, db, id, ops, now)
    case DeleteUserAt(id, now) => DeleteUser(e, db, id, now)
    case PostGroup(id, p) => CreateGroup(e, db, id, p)
    case PutGroup(id, p) => ReplaceGroup(db, id, p)
    case PatchGroupBy(id, ops) => PatchGroup(e, db, id, ops)
    case DeleteGroupAt(id) => DeleteGroup(db, id)
    case SignIn(id, subject, email, expiresAt) => CreateSession(db, id, subject, email, expiresAt)
    case SignOut(id, now) => RevokeSession(db, id, now)
  }

  function Run(e: Env, db: Db, requests: seq<Request>): Db
    decreases |requests|
  {
    if requests == [] then db else Run(e, Serve(e, db, requests[0]).db, requests[1..])
  }

  const EMPTY := Db(map[], map[], map[])

  /** Members are stored users, and no two users or groups share an exact name. */
  predicate Consistent(db: Db) {
    && (forall g :: g in db.groups ==> db.groups[g].members <= db.users.Keys)
    && (forall u, v :: u in db.users && v in db.users && u != v ==> db.users[u].userName != db.users[v].userName)
    && (forall g, h :: g in db.groups && h in db.groups && g != h ==> db.groups[g].displayName != db.groups[h].displayName)
  }

  lemma {:induction false} CommitUserConsistent(e: Env, db: Db, id: Id, u: User, now: int)
    requires Consistent(db) && id in db.users
    ensures Consistent(CommitUser(e, db, id, u, now).db)
  {
    hide RevokeFor, Hits, Wanted;
    var after := CommitUser(e, db, id, u, now).db;
    assert after.groups == db.groups && after.users.Keys == db.users.Keys;
    assert after.users == db.users || after.users == db.users[id := u];
  }

  lemma {:induction false} CommitGroupConsistent(db: Db, id: Id, g: Group)
    requires Consistent(db) && id in db.groups && g.members <= db.users.Keys
    ensures Consistent(CommitGroup(db, id, g).db)
  {
  }

  lemma {:induction false} CreateUserConsistent(e: Env, db: Db, id: Id, p: UserPayload)
    requires Consistent(db)
    ensures Consistent(CreateUser(e, db, id, p).db)
  {
  }

  lemma {:induction false} CreateGroupConsistent(e: Env, db: Db, id: Id, p: GroupPayload)
    requires Consistent(db)
    ensures Consistent(CreateGroup(e, db, id, p).db)
  {
  }

  lemma {:induction false} DeleteUserConsistent(e: Env, db: Db, id: Id, now: int)
    requires Consistent(db)
    ensures Consistent(DeleteUser(e, db, id, now).db)
  {
  }

  lemma {:induction false} ReplaceUserConsistent(e: Env, db: Db, id: Id, p: UserPayload, now: int)
    requires Consistent(db)
    ensures Consistent(ReplaceUser(e, db, id, p, now).db)
  {
    hide CommitUser, ReplacedUser, Consistent;
    if id in db.users { CommitUserConsistent(e, db, id, ReplacedUser(db.users[id], p), now); }
  }

  lemma {:induction false} PatchUserConsistent(e: Env, db: Db, id: Id, ops: seq<Operation>, now: int)
    requires Consistent(db)
    ensures Consistent(PatchUser(e, db, id, ops, now).db)
  {
    hide CommitUser, ApplyUserAll, Consistent;
    if id in db.users {
      var u := ApplyUserAll(db.users[id], ops, e.repr);
      if u.Ok? { CommitUserConsistent(e, db, id, u.value, now); }
    }
  }

  lemma {:induction false} ReplaceGroupConsistent(db: Db, id: Id, p: GroupPayload)
    requires Consistent(db)
    ensures Consistent(ReplaceGroup(db, id, p).db)
  {
    hide CommitGroup, Consistent;
    if id in db.groups {
      var g := db.groups[id];
      CommitGroupConsistent(db, id, Group(OrElse(p.displayName, g.displayName),
                                          if p.externalId.Some? then p.externalId else g.externalId,
                                          PayloadMembers(db, p.members)));
    }
  }

  lemma {:induction false} PatchGroupConsistent(e: Env, db: Db, id: Id, ops: seq<Operation>)
    requires Consistent(db)
    ensures Consistent(PatchGroup(e, db, id, ops).db)
  {
    hide CommitGroup, ApplyGroupAll;
    if id in db.groups {
      GroupMembersExist(db.users.Keys, db.groups[id], ops, e.repr);
      CommitGroupConsistent(db, id, ApplyGroupAll(db.users.Keys, db.groups[id], ops, e.repr));
    }
  }

  lemma {:induction false} SessionsKeepConsistent(db: Db, sessions: map<Id, Session>)
    requires Consistent(db)
    ensures Consistent(db.(sessions := sessions))
  {
  }

  lemma {:induction false} DeleteGroupConsistent(db: Db, id: Id)
    requires Consistent(db)
    ensures Consistent(DeleteGroup(db, id).db)
  {
  }

  lemma {:induction false} ServeKeepsConsistent(e: Env, db: Db, r: Request)
    requires Consistent(db)
    ensures Consistent(Serve(e, db, r).db)
  {
    hide Consistent, CreateUser, ReplaceUser, PatchUser, DeleteUser, CreateGroup, ReplaceGroup, PatchGroup, DeleteGroup;
    match r {
      case PostUser(id, p) => CreateUserConsistent(e, db, id, p);
      case PutUser(id, p, now) => ReplaceUserConsistent(e, db, id, p, now);
      case PatchUserBy(id, ops, now) => PatchUserConsistent(e, db, id, ops, now);
      case DeleteUserAt(id, now) => DeleteUserConsistent(e, db, id, now);
      case PostGroup(id, p) => CreateGroupConsistent(e, db, id, p);
      case PutGroup(id, p) => ReplaceGroupConsistent(db, id, p);
      case PatchGroupBy(id, ops) => PatchGroupConsistent(e, db, id, ops);
      case DeleteGroupAt(id) => DeleteGroupConsistent(db, id);
      case _ => SessionsKeepConsistent(db, Serve(e, db, r).db.sessions);
    }
  }

  /** Over every run, group members are stored users and exact names stay unique. */
  lemma {:induction false} RunKeepsConsistent(e: Env, db: Db, requests: seq<Request>)
    requires Consistent(db)
    ensures Consistent(Run(e, db, requests))
    decreases |requests|
  {
    hide Consistent, Serve;
    if requests != [] {
      ServeKeepsConsistent(e, db, requests[0]);
      RunKeepsConsistent(e, Serve(e, db, requests[0]).db, requests[1..]);
    }
  }

  /** A request that fails changes nothing. */
  lemma {:induction false} FailedRequestChangesNothing(e: Env, db: Db, r: Request)
    requires Serve(e, db, r).outcome.Err?
    ensures Serve(e, db, r).db == db
  {
    hide ApplyUserAll, ApplyGroupAll, RevokeFor, Hits, Wanted, Mark, NewUser, ReplacedUser, PayloadMembers, UserNameFree,
         GroupNameFree, SameUserName, SameGroupName;
  }

  // --- deprovisioning -----------------------------------------------------------------------------------

  /** Exactly the live sessions under the wanted identifiers ended, and `count` is their number. */
  predicate Ended(e: Env, before: map<Id, Session>, after: map<Id, Session>, wanted: set<string>, now: int, count: nat) {
    && after.Keys == before.Keys
    && (forall id :: id in after && after[id].revokedAt.None? ==>
          e.dbLower(after[id].subject) !in wanted && e.dbLower(after[id].email) !in wanted)
    && (forall id :: id in before ==>
          if Revocable(e, before[id], wanted) then after[id] == before[id].(revokedAt := Some(now))
          else after[id] == before[id])
    && count == |set id | id in before && before[id].revokedAt.None? && after[id].revokedAt.Some?|
  }

  lemma {:induction false} RevocationExact(e: Env, sessions: map<Id, Session>, identifiers: seq<Option<string>>, now: int)
    ensures Ended(e, sessions, RevokeFor(e, sessions, identifiers, now), Wanted(e, identifiers), now,
                  |Hits(e, sessions, Wanted(e, identifiers))|)
  {
    var wanted := Wanted(e, identifiers);
    var after := RevokeFor(e, sessions, identifiers, now);
    assert Hits(e, sessions, wanted)
        == set id | id in sessions && sessions[id].revokedAt.None? && after[id].revokedAt.Some?;
  }

  /** Identifiers that are all blank match no session at all. */
  lemma {:induction false} BlankIdentifiersRevokeNothing(e: Env, sessions: map<Id, Session>, identifiers: seq<Option<string>>, now: int)
    requires forall x :: x in identifiers ==> x.None? || AllSpace(x.value)
    ensures RevokeFor(e, sessions, identifiers, now) == sessions
  {
    forall x | x in identifiers ensures IsBlank(x) {
      if x.Some? { StripBlank(x.value); }
    }
    assert Wanted(e, identifiers) == {};
  }

  lemma {:induction false} DeleteDeprovisions(e: Env, db: Db, id: Id, now: int)
    requires id in db.users
    ensures var r := DeleteUser(e, db, id, now);
            && r.outcome.Ok? && r.db.users == db.users - {id} && r.db.groups.Keys == db.groups.Keys
            && (forall g :: g in db.groups ==> r.db.groups[g] == db.groups[g].(members := db.groups[g].members - {id}))
            && Ended(e, db.sessions, r.db.sessions, Wanted(e, Identifiers(db.users[id])), now, r.outcome.value)
  {
    RevocationExact(e, db.sessions, Identifiers(db.users[id]), now);
  }

  /** An accepted PATCH ends sessions exactly when its operations take `active` from true to false. */
  lemma {:induction false} PatchDeprovisions(e: Env, db: Db, id: Id, ops: seq<Operation>, now: int)
    requires id in db.users && PatchUser(e, db, id, ops, now).outcome.Ok?
    ensures var r := PatchUser(e, db, id, ops, now);
            && id in r.db.users && r.db.users[id].active == ActiveAfterAll(db.users[id].active, ops)
            && if db.users[id].active && !ActiveAfterAll(db.users[id].active, ops)
               then Ended(e, db.sessions, r.db.sessions, Wanted(e, Identifiers(r.db.users[id])), now, r.outcome.value)
               else r.db.sessions == db.sessions && r.outcome.value == 0
  {
    PatchActive(db.users[id], ops, e.repr);
    RevocationExact(e, db.sessions, Identifiers(PatchUser(e, db, id, ops, now).db.users[id]), now);
  }

  lemma {:induction false} PutDeprovisions(e: Env, db: Db, id: Id, p: UserPayload, now: int)
    requires id in db.users && ReplaceUser(e, db, id, p, now).outcome.Ok?
    ensures var r := ReplaceUser(e, db, id, p, now);
            && id in r.db.users && r.db.users[id].active == p.active
            && if db.users[id].active && !p.active
               then Ended(e, db.sessions, r.db.sessions, Wanted(e, Identifiers(r.db.users[id])), now, r.outcome.value)
               else r.db.sessions == db.sessions && r.outcome.value == 0
  {
    RevocationExact(e, db.sessions, Identifiers(ReplacedUser(db.users[id], p)), now);
  }

  /** A patch with an unsupported operation anywhere leaves the stored user as it was. */
  lemma {:induction false} PatchIsAtomic(e: Env, db: Db, id: Id, ops: seq<Operation>, now: int)
    requires exists i :: 0 <= i < |ops| && !SupportedOp(ops[i])
    ensures PatchUser(e, db, id, ops, now).outcome.Err? && PatchUser(e, db, id, ops, now).db == db
  {
    if id in db.users { PatchFailsExactly(db.users[id], ops, e.repr); }
  }

  /** Whatever happens later, a revoked session stays revoked and is never read again. */
  lemma {:induction false} RevokedForGood(e: Env, db: Db, requests: seq<Request>, id: Id, at: int)
    requires id in db.sessions && db.sessions[id].revokedAt.Some?
    ensures id in Run(e, db, requests).sessions && Run(e, db, requests).sessions[id] == db.sessions[id]
    ensures ReadSession(Run(e, db, requests), id, at) == None
    decreases |requests|
  {
    hide Serve;
    if requests != [] {
      var next := Serve(e, db, requests[0]).db;
      RevokedStepKeeps(e, db, requests[0]);
      RevokedForGood(e, next, requests[1..], id, at);
    }
  }

  /** Every request only adds sessions and marks live ones. */
  predicate KeepsRevoked(before: map<Id, Session>, after: map<Id, Session>) {
    forall id :: id in before && before[id].revokedAt.Some? ==> id in after && after[id] == before[id]
  }

  lemma {:induction false} RevocationKeepsRevoked(e: Env, sessions: map<Id, Session>, identifiers: seq<Option<string>>, now: int)
    ensures KeepsRevoked(sessions, RevokeFor(e, sessions, identifiers, now))
  {
  }

  lemma {:induction false} CommitKeepsRevoked(e: Env, db: Db, id: Id, u: User, now: int)
    requires id in db.users
    ensures KeepsRevoked(db.sessions, CommitUser(e, db, id, u, now).db.sessions)
  {
    hide RevokeFor, Hits, Wanted, UserNameFree;
    RevocationKeepsRevoked(e, db.sessions, Identifiers(u), now);
  }

  lemma {:induction false} ReplaceKeepsRevoked(e: Env, db: Db, id: Id, p: UserPayload, now: int)
    ensures KeepsRevoked(db.sessions, ReplaceUser(e, db, id, p, now).db.sessions)
  {
    hide CommitUser, ReplacedUser;
    if id in db.users { CommitKeepsRevoked(e, db, id, ReplacedUser(db.users[id], p), now); }
  }

  lemma {:induction false} PatchKeepsRevoked(e: Env, db: Db, id: Id, ops: seq<Operation>, now: int)
    ensures KeepsRevoked(db.sessions, PatchUser(e, db, id, ops, now).db.sessions)
  {
    hide CommitUser, ApplyUserAll;
    if id in db.users {
      var u := ApplyUserAll(db.users[id], ops, e.repr);
      if u.Ok? { CommitKeepsRevoked(e, db, id, u.value, now); }
    }
  }

  lemma {:induction false} DeleteKeepsRevoked(e: Env, db: Db, id: Id, now: int)
    ensures KeepsRevoked(db.sessions, DeleteUser(e, db, id, now).db.sessions)
  {
    hide RevokeFor, Hits, Wanted;
    if id in db.users { RevocationKeepsRevoked(e, db.sessions, Identifiers(db.users[id]), now); }
  }

  lemma {:induction false} SignInKeepsRevoked(db: Db, id: Id, subject: string, email: string, expiresAt: int)
    ensures KeepsRevoked(db.sessions, CreateSession(db, id, subject, email, expiresAt).db.sessions)
  {
  }

  lemma {:induction false} SignOutKeepsRevoked(db: Db, id: Id, now: int)
    ensures KeepsRevoked(db.sessions, RevokeSession(db, id, now).db.sessions)
  {
  }

  lemma {:induction false} OtherStepKeeps(e: Env, db: Db, r: Request)
    requires r.PostUser? || r.PostGroup? || r.PutGroup? || r.PatchGroupBy? || r.DeleteGroupAt?
    ensures Serve(e, db, r).db.sessions == db.sessions
  {
    hide ApplyGroupAll, PayloadMembers, SameGroupName, GroupNameFree, SameUserName, UserNameFree, NewUser;
  }

  lemma {:induction false} RevokedStepKeeps(e: Env, db: Db, r: Request)
    ensures KeepsRevoked(db.sessions, Serve(e, db, r).db.sessions)
  {
    hide CreateUser, ReplaceUser, PatchUser, DeleteUser, CreateGroup, ReplaceGroup, PatchGroup, DeleteGroup, CreateSession,
         RevokeSession;
    match r {
      case PutUser(id, p, now) => ReplaceKeepsRevoked(e, db, id, p, now);
      case PatchUserBy(id, ops, now) => PatchKeepsRevoked(e, db, id, ops, now);
      case DeleteUserAt(id, now) => DeleteKeepsRevoked(e, db, id, now);
      case SignIn(id, subject, email, expiresAt) => SignInKeepsRevoked(db, id, subject, email, expiresAt);
      case SignOut(id, now) => SignOutKeepsRevoked(db, id, now);
      case _ => OtherStepKeeps(e, db, r);
    }
  }

  // --- reading a resource and writing it back ------------------------------------------------------------

  /** `user_to_resource`, as a client would send it back. */
  function UserResource(u: User): UserPayload {
    UserPayload(Some(u.userName), u.externalId,
                Some(PersonName(Some(u.displayName), Some(u.givenName), Some(u.familyName))),
                Some(u.displayName),
                if u.email == "" then [] else [EmailEntry(Some(u.email), true)],
                u.active)
  }

  lemma {:induction false} ReadUserReplaced(u: User)
    ensures ReplacedUser(u, UserResource(u)) == u
  {
    var emails := UserResource(u).emails;
    assert emails == [] || emails[0] == EmailEntry(Some(u.email), true);
  }

  /** Putting back a user as read is accepted and changes nothing, sessions included. */
  lemma {:induction false} PutWhatWasRead(e: Env, db: Db, id: Id, now: int)
    requires Consistent(db) && id in db.users
    ensures ReplaceUser(e, db, id, UserResource(db.users[id]), now) == Reply(db, Ok(0))
  {
    ReadUserReplaced(db.users[id]);
    assert db.users[id := db.users[id]] == db.users;
  }

  lemma {:induction false} ReadUserCreated(u: User)
    ensures NewUser(UserResource(u)) == u.(email := if u.email == "" then u.userName else u.email)
  {
    var emails := UserResource(u).emails;
    assert emails == [] || emails[0] == EmailEntry(Some(u.email), true);
  }

  /** Posting a user as read stores that very user exactly when it has a name nobody has and an e-mail address. */
  lemma {:induction false} PostWhatWasRead(e: Env, db: Db, id: Id, u: User)
    ensures CreateUser(e, db, id, UserResource(u)) == Reply(db.(users := db.users[id := u]), Ok(0)) <==>
            && u.userName != "" && u.email != ""
            && SameUserName(e, db, u.userName) == {} && id !in db.users && UserNameFree(db, id, u.userName)
  {
    ReadUserCreated(u);
    var r := CreateUser(e, db, id, UserResource(u));
    if r.outcome == Ok(0) { assert r.db.users[id] == NewUser(UserResource(u)); }
  }

  /** Putting back a group, its members listed in any order, changes nothing. */
  lemma {:induction false} PutGroupWhatWasRead(db: Db, id: Id, members: seq<Option<Id>>)
    requires Consistent(db) && id in db.groups && "" !in db.groups[id].members
    requires forall m :: m in members <==> m.Some? && m.value in db.groups[id].members
    ensures var g := db.groups[id];
            ReplaceGroup(db, id, GroupPayload(Some(g.displayName), g.externalId, members)) == Reply(db, Ok(0))
  {
    var g := db.groups[id];
    assert PayloadMembers(db, members) == g.members by {
      forall m | m in g.members ensures m in PayloadMembers(db, members) {
        assert Some(m) in members;
      }
    }
    assert db.groups[id := g] == db.groups;
  }

  // --- the sessions of a user ------------------------------------------------------------------------------

  /** The identifiers of a user, as stored; one of whitespace alone is none. */
  function Names(u: User): set<string> {
    var external := match u.externalId case Some(x) => x case None => "";
    set x | x in {u.userName, u.email, external} && !AllSpace(x)
  }

  lemma {:induction false} NamesAre(u: User, x: string)
    ensures x in Names(u) <==> Some(x) in Identifiers(u) && !IsBlank(Some(x))
  {
    StripBlank(x);
  }

  /** What is looked for is the lower-cased core of each stored identifier. */
  lemma {:induction false} WantedExactly(e: Env, u: User, w: string)
    ensures w in Wanted(e, Identifiers(u)) <==> exists x :: x in Names(u) && w == e.lower(Strip(x))
  {
    hide Names, Identifiers, Strip;
    if w in Wanted(e, Identifiers(u)) {
      var x :| x in Identifiers(u) && !IsBlank(x) && w == e.lower(Strip(x.value));
      NamesAre(u, x.value);
    }
    if x :| x in Names(u) && w == e.lower(Strip(x)) {
      NamesAre(u, x);
    }
  }

  /** A session recorded under a stored identifier of the user. */
  predicate OwnedBy(s: Session, u: User) {
    s.subject in Names(u) || s.email in Names(u)
  }

  predicate NoneOpen(sessions: map<Id, Session>, u: User) {
    forall id :: id in sessions && OwnedBy(sessions[id], u) ==> sessions[id].revokedAt.Some?
  }

  /** An accepted DELETE, or an accepted PUT or PATCH that takes the user from active to inactive. */
  predicate Deprovisions(e: Env, db: Db, r: Request) {
    match r
    case DeleteUserAt(id, _) => id in db.users
    case PutUser(id, p, now) =>
      id in db.users && ReplaceUser(e, db, id, p, now).outcome.Ok? && db.users[id].active && !p.active
    case PatchUserBy(id, ops, now) =>
      id in db.users && PatchUser(e, db, id, ops, now).outcome.Ok? && db.users[id].active && !ActiveAfterAll(true, ops)
    case _ => false
  }

  /** The user whose identifiers the sessions are looked up under: as updated, or as deleted. */
  function LookedUp(e: Env, db: Db, r: Request): User
    requires Deprovisions(e, db, r)
  {
    match r
    case PutUser(id, p, _) => ReplacedUser(db.users[id], p)
    case PatchUserBy(id, ops, _) => ApplyUserAll(db.users[id], ops, e.repr).value
    case _ => db.users[r.id]
  }

  /** The database's lower() takes every stored identifier of one user to a trimmed, lower-cased one of the other. */
  predicate Covers(e: Env, was: User, becomes: User) {
    forall x :: x in Names(was) ==> e.dbLower(x) in Wanted(e, Identifiers(becomes))
  }

  lemma {:induction false} CommitRevokes(e: Env, db: Db, id: Id, u: User, now: int)
    requires id in db.users && db.users[id].active && !u.active && UserNameFree(db, id, u.userName)
    ensures CommitUser(e, db, id, u, now).db.sessions == RevokeFor(e, db.sessions, Identifiers(u), now)
  {
  }

  /** All three requests revoke the same way. */
  lemma {:induction false} DeprovisioningRevokes(e: Env, db: Db, r: Request)
    requires Deprovisions(e, db, r)
    ensures Serve(e, db, r).db.sessions == RevokeFor(e, db.sessions, Identifiers(LookedUp(e, db, r)), r.now)
  {
    hide RevokeFor, Identifiers, ApplyUserAll, Hits, Wanted, GroupsWithout;
    match r {
      case PutUser(id, p, now) =>
        CommitRevokes(e, db, id, ReplacedUser(db.users[id], p), now);
      case PatchUserBy(id, ops, now) =>
        PatchActive(db.users[id], ops, e.repr);
        CommitRevokes(e, db, id, ApplyUserAll(db.users[id], ops, e.repr).value, now);
      case _ =>
    }
  }

  /** Whether a request deprovisions does not depend on the sessions there are. */
  lemma {:induction false} SessionsDoNotMatter(e: Env, db: Db, r: Request, sessions: map<Id, Session>)
    requires Deprovisions(e, db, r)
    ensures Deprovisions(e, db.(sessions := sessions), r) && LookedUp(e, db.(sessions := sessions), r) == LookedUp(e, db, r)
  {
    hide RevokeFor, ApplyUserAll, ReplacedUser, Hits, Wanted, Identifiers;
    var other := db.(sessions := sessions);
    assert forall id, name :: UserNameFree(other, id, name) <==> UserNameFree(db, id, name);
  }

  lemma {:induction false} RevokedAfterExactly(e: Env, sessions: map<Id, Session>, identifiers: seq<Option<string>>, now: int, id: Id)
    requires id in sessions
    ensures var after := RevokeFor(e, sessions, identifiers, now);
            id in after &&
            (after[id].revokedAt.Some? <==> sessions[id].revokedAt.Some? || Matches(e, sessions[id], Wanted(e, identifiers)))
  {
    hide Wanted;
  }

  /**
   After a deprovisioning request a session is revoked exactly when it was before, or its subject or
   email, lower-cased by the database, is looked for.
   */
  lemma {:induction false} SessionEndsExactly(e: Env, db: Db, r: Request, id: Id)
    requires Deprovisions(e, db, r) && id in db.sessions
    ensures var s, after := db.sessions[id], Serve(e, db, r).db.sessions;
            var wanted := Wanted(e, Identifiers(LookedUp(e, db, r)));
            && id in after
            && (after[id].revokedAt.Some? <==>
                  s.revokedAt.Some? || e.dbLower(s.subject) in wanted || e.dbLower(s.email) in wanted)
  {
    hide Serve, LookedUp, Identifiers, Wanted, RevokeFor;
    DeprovisioningRevokes(e, db, r);
    RevokedAfterExactly(e, db.sessions, Identifiers(LookedUp(e, db, r)), r.now, id);
  }

  lemma {:induction false} RevocationCovers(e: Env, sessions: map<Id, Session>, was: User, becomes: User, now: int)
    requires Covers(e, was, becomes)
    ensures NoneOpen(RevokeFor(e, sessions, Identifiers(becomes), now), was)
  {
    hide Names, Wanted, Identifiers;
  }

  lemma {:induction false} UncoveredStaysOpen(e: Env, was: User, becomes: User, x: string, now: int)
    requires x in Names(was) && e.dbLower(x) !in Wanted(e, Identifiers(becomes))
    ensures var sessions: map<Id, Session> := map["s" := Session(x, x, 0, None)];
            !NoneOpen(RevokeFor(e, sessions, Identifiers(becomes), now), was)
  {
    hide Names, Wanted, Identifiers;
    var s := Session(x, x, 0, None);
    var sessions: map<Id, Session> := map["s" := s];
    assert RevokeFor(e, sessions, Identifiers(becomes), now)["s"] == s;
  }

  /**
   A deprovisioning request ends every session of the user, whatever sessions there are, exactly when
   the database's lower() takes each of their stored identifiers to one that is looked for.
   */
  lemma {:induction false} DeprovisioningCoversExactly(e: Env, db: Db, r: Request)
    requires Deprovisions(e, db, r)
    ensures r.id in db.users
    ensures (forall sessions: map<Id, Session> ::
               NoneOpen(Serve(e, db.(sessions := sessions), r).db.sessions, db.users[r.id]))
       <==> Covers(e, db.users[r.id], LookedUp(e, db, r))
  {
    var was, becomes := db.users[r.id], LookedUp(e, db, r);
    hide Serve, LookedUp, Names, Wanted, Identifiers, Deprovisions, NoneOpen, RevokeFor;
    forall sessions: map<Id, Session>
      ensures Serve(e, db.(sessions := sessions), r).db.sessions == RevokeFor(e, sessions, Identifiers(becomes), r.now)
    {
      SessionsDoNotMatter(e, db, r, sessions);
      DeprovisioningRevokes(e, db.(sessions := sessions), r);
    }
    if Covers(e, was, becomes) {
      forall sessions: map<Id, Session> ensures NoneOpen(Serve(e, db.(sessions := sessions), r).db.sessions, was) {
        RevocationCovers(e, sessions, was, becomes, r.now);
      }
    } else {
      var x :| x in Names(was) && e.dbLower(x) !in Wanted(e, Identifiers(becomes));
      UncoveredStaysOpen(e, was, becomes, x, r.now);
      var sessions: map<Id, Session> := map["s" := Session(x, x, 0, None)];
      assert !NoneOpen(Serve(e, db.(sessions := sessions), r).db.sessions, was);
    }
  }

  /** Identifiers without padding that both sides lower-case alike are covered, as long as the update keeps them. */
  lemma {:induction false} KeptIdentifiersCovered(e: Env, was: User, becomes: User)
    requires Names(was) <= Names(becomes)
    requires forall x :: x in Names(was) ==> Strip(x) == x && e.dbLower(x) == e.lower(x)
    ensures Covers(e, was, becomes)
  {
    forall x | x in Names(was) ensures e.dbLower(x) in Wanted(e, Identifiers(becomes)) {
      WantedExactly(e, becomes, e.dbLower(x));
    }
  }

  lemma {:induction false} RunAfter(e: Env, db: Db, r: Request, requests: seq<Request>)
    ensures Run(e, db, [r] + requests) == Run(e, Serve(e, db, r).db, requests)
  {
    hide Serve;
    assert ([r] + requests)[1..] == requests;
  }

  lemma {:induction false} LiveIsRead(e: Env, db: Db, r: Request, id: Id)
    requires var after := Serve(e, db, r).db.sessions; id in after && after[id].revokedAt.None?
    ensures ReadSession(Run(e, db, [r] + []), id, Serve(e, db, r).db.sessions[id].expiresAt) != None
  {
    hide Serve;
    RunAfter(e, db, r, []);
  }

  /** No run that starts with the request ever reads the session. */
  ghost predicate NeverRead(e: Env, db: Db, r: Request, id: Id) {
    forall requests: seq<Request>, at: int :: ReadSession(Run(e, db, [r] + requests), id, at) == None
  }

  /**
   After a deprovisioning request no run ever reads a given session again exactly when the session was
   revoked before, or its lower-cased subject or email is looked for.
   */
  lemma {:induction false} LockedOutExactly(e: Env, db: Db, r: Request, id: Id)
    requires Deprovisions(e, db, r) && id in db.sessions
    ensures NeverRead(e, db, r, id)
       <==> db.sessions[id].revokedAt.Some? || Matches(e, db.sessions[id], Wanted(e, Identifiers(LookedUp(e, db, r))))
  {
    hide Serve, LookedUp, Wanted, Identifiers, Deprovisions, Run, ReadSession;
    var first := Serve(e, db, r).db;
    SessionEndsExactly(e, db, r, id);
    if first.sessions[id].revokedAt.Some? {
      forall requests: seq<Request>, at: int ensures ReadSession(Run(e, db, [r] + requests), id, at) == None {
        RunAfter(e, db, r, requests);
        RevokedForGood(e, first, requests, id, at);
      }
    } else {
      LiveIsRead(e, db, r, id);
    }
  }

  /** Where the stored identifiers are covered, no run ever reads a session of the user again. */
  lemma {:induction false} DeprovisionedUserLockedOut(e: Env, db: Db, r: Request, requests: seq<Request>, id: Id, at: int)
    requires Deprovisions(e, db, r) && Covers(e, db.users[r.id], LookedUp(e, db, r))
    requires id in db.sessions && OwnedBy(db.sessions[id], db.users[r.id])
    ensures ReadSession(Run(e, db, [r] + requests), id, at) == None
  {
    hide Serve, LookedUp, Wanted, Identifiers, Deprovisions, Run, ReadSession, Names;
    LockedOutExactly(e, db, r, id);
  }

  // --- sessions that outlive their user ----------------------------------------------------------------------

  /** A user named `name` with one session under that name, and nothing else. */
  function Alone(name: string): Db {
    Db(map["1" := User(name, None, "", "", "", name, true)], map[], map["s" := Session(name, name, 9, None)])
  }

  /** Their session stays readable after the request. */
  predicate StillReads(e: Env, name: string, r: Request) {
    && Deprovisions(e, Alone(name), r) && OwnedBy(Alone(name).sessions["s"], Alone(name).users["1"])
    && ReadSession(Serve(e, Alone(name), r).db, "s", 1) == Some(Alone(name).sessions["s"])
  }

  lemma {:induction false} AloneStillReads(e: Env, name: string, r: Request)
    requires Deprovisions(e, Alone(name), r) && Strip(name) != ""
    requires e.dbLower(name) !in Wanted(e, Identifiers(LookedUp(e, Alone(name), r)))
    ensures StillReads(e, name, r)
  {
    hide Serve, Deprovisions, LookedUp, Wanted;
    DeprovisioningRevokes(e, Alone(name), r);
    StripBlank(name);
    assert name in Names(Alone(name).users["1"]);
  }

  lemma {:induction false} OneIdentifier(e: Env, name: string)
    ensures Wanted(e, Identifiers(User(name, None, "", "", "", name, true))) <= {e.lower(Strip(name))}
  {
  }

  /** Identity maps: what both sides do to lower-case ASCII. */
  const PLAIN_ENV := Env(s => s, s => s, v => "")

  /** A PUT that renames and deactivates a user, who then goes on using the session they had. */
  lemma {:induction false} RenamedUserKeepsSession()
    ensures StillReads(PLAIN_ENV, "a", PutUser("1", UserPayload(Some("b"), None, None, None, [EmailEntry(Some("b"), true)], false), 0))
  {
    var p := UserPayload(Some("b"), None, None, None, [EmailEntry(Some("b"), true)], false);
    var r := PutUser("1", p, 0);
    var becomes := ReplacedUser(Alone("a").users["1"], p);
    assert becomes.userName == "b" && becomes.email == "b" && becomes.externalId == None;
    StripTrimmed("a");
    StripTrimmed("b");
    assert Wanted(PLAIN_ENV, Identifiers(becomes)) <= {"b"};
    AloneStillReads(PLAIN_ENV, "a", r);
  }

  /** A user name stored with a leading space is looked up without it, so its session outlives a DELETE. */
  lemma {:induction false} PaddedUserKeepsSession()
    ensures StillReads(PLAIN_ENV, " a", DeleteUserAt("1", 0))
  {
    StripPadded();
    OneIdentifier(PLAIN_ENV, " a");
    AloneStillReads(PLAIN_ENV, " a", DeleteUserAt("1", 0));
  }

  /** It outlives a PUT that only deactivates, too. */
  lemma {:induction false} PaddedUserStaysSignedIn()
    ensures StillReads(PLAIN_ENV, " a", PutUser("1", UserPayload(None, None, None, None, [], false), 0))
  {
    var p := UserPayload(None, None, None, None, [], false);
    var becomes := ReplacedUser(Alone(" a").users["1"], p);
    assert becomes.userName == " a" && becomes.email == " a" && becomes.externalId == None;
    StripPadded();
    assert Wanted(PLAIN_ENV, Identifiers(becomes)) <= {"a"};
    AloneStillReads(PLAIN_ENV, " a", PutUser("1", p, 0));
  }

  lemma {:induction false} StripPadded()
    ensures Strip(" a") == "a"
  {
    StripGaps(" ", "a", "");
    assert " " + "a" + "" == " a";
  }

  /** So does a capital outside ASCII, which Python lower-cases and SQLite does not. */
  lemma {:induction false} AccentedUserKeepsSession()
    ensures var e := Env(s => if s == "\U{00C9}" then "\U{00E9}" else s, s => s, v => "");
            StillReads(e, "\U{00C9}", DeleteUserAt("1", 0))
  {
    var e := Env(s => if s == "\U{00C9}" then "\U{00E9}" else s, s => s, v => "");
    StripTrimmed("\U{00C9}");
    OneIdentifier(e, "\U{00C9}");
    assert "\U{00C9}"[0] != "\U{00E9}"[0];
    AloneStillReads(e, "\U{00C9}", DeleteUserAt("1", 0));
  }

  // --- signing in and out --------------------------------------------------------------------------------------

  /** The request does not end this live session. */
  predicate Spares(e: Env, db: Db, r: Request, id: Id)
    requires id in db.sessions
  {
    && (r.SignOut? ==> r.id != id)
    && (Deprovisions(e, db, r) ==>
          var s, wanted := db.sessions[id], Wanted(e, Identifiers(LookedUp(e, db, r)));
          e.dbLower(s.subject) !in wanted && e.dbLower(s.email) !in wanted)
  }

  predicate AllSpare(e: Env, db: Db, requests: seq<Request>, id: Id)
    decreases |requests|
  {
    requests == [] ||
    (id in db.sessions && Spares(e, db, requests[0], id) && AllSpare(e, Serve(e, db, requests[0]).db, requests[1..], id))
  }

  lemma {:induction false} OtherRequestsKeepSessions(e: Env, db: Db, r: Request)
    requires !Deprovisions(e, db, r) && !r.SignIn? && !r.SignOut?
    ensures Serve(e, db, r).db.sessions == db.sessions
  {
    hide Identifiers, ApplyGroupAll, RevokeFor, Hits, Wanted, GroupsWithout, UserNameFree, PayloadMembers, SameGroupName, GroupNameFree,
         SameUserName, NewUser;
    if r.PatchUserBy? && r.id in db.users && ApplyUserAll(db.users[r.id], r.ops, e.repr).Ok? {
      PatchActive(db.users[r.id], r.ops, e.repr);
    }
  }

  /** What a request does to a live session: nothing, unless it ends it. */
  lemma {:induction false} StepOnSession(e: Env, db: Db, r: Request, id: Id)
    requires id in db.sessions && db.sessions[id].revokedAt.None?
    ensures var after := Serve(e, db, r).db.sessions;
            && id in after
            && (Spares(e, db, r, id) ==> after[id] == db.sessions[id])
            && (!Spares(e, db, r, id) ==> after[id].revokedAt.Some?)
  {
    if Deprovisions(e, db, r) {
      DeprovisioningRevokes(e, db, r);
      hide Wanted, Identifiers, LookedUp;
      RevokedAfterExactly(e, db.sessions, Identifiers(LookedUp(e, db, r)), r.now, id);
    } else if !r.SignIn? && !r.SignOut? {
      hide Serve;
      OtherRequestsKeepSessions(e, db, r);
    }
  }

  lemma {:induction false} RunOnSession(e: Env, db: Db, requests: seq<Request>, id: Id)
    requires id in db.sessions && db.sessions[id].revokedAt.None?
    ensures var after := Run(e, db, requests).sessions;
            && id in after
            && (AllSpare(e, db, requests, id) ==> after[id] == db.sessions[id])
            && (!AllSpare(e, db, requests, id) ==> after[id].revokedAt.Some?)
    decreases |requests|
  {
    hide Serve, Spares;
    if requests != [] {
      var next := Serve(e, db, requests[0]).db;
      StepOnSession(e, db, requests[0], id);
      if Spares(e, db, requests[0], id) {
        RunOnSession(e, next, requests[1..], id);
      } else {
        RevokedForGood(e, next, requests[1..], id, 0);
      }
    }
  }

  /**
   After a sign-in, and whatever happens next, the session reads back as it was opened exactly until it
   expires or some request ends it; after that it does not read at all.
   */
  lemma {:induction false} SignInReadsExactly(e: Env, db: Db, id: Id, subject: string, email: string, t: int,
                                              requests: seq<Request>, at: int)
    requires id !in db.sessions
    ensures var first := Serve(e, db, SignIn(id, subject, email, t)).db;
            ReadSession(Run(e, db, [SignIn(id, subject, email, t)] + requests), id, at) ==
            if at <= t && AllSpare(e, first, requests, id) then Some(Session(subject, email, t, None)) else None
  {
    var r := SignIn(id, subject, email, t);
    var first := Serve(e, db, r).db;
    assert first.sessions[id] == Session(subject, email, t, None);
    hide Serve, AllSpare, Run;
    RunAfter(e, db, r, requests);
    RunOnSession(e, first, requests, id);
  }

  /** Whoever it belongs to, no session is read after it expires. */
  lemma {:induction false} ExpiredNeverRead(db: Db, id: Id, at: int)
    requires id in db.sessions && db.sessions[id].expiresAt < at
    ensures ReadSession(db, id, at) == None
  {
  }

  /** A sign-in adds its session and touches nothing else; a sign-out ends its session and no other. */
  lemma {:induction false} SignInAndOut(e: Env, db: Db, id: Id, subject: string, email: string, t: int, now: int)
    ensures id !in db.sessions ==>
              Serve(e, db, SignIn(id, subject, email, t)) ==
              Reply(db.(sessions := db.sessions[id := Session(subject, email, t, None)]), Ok(0))
    ensures id in db.sessions ==> Serve(e, db, SignIn(id, subject, email, t)) == Reply(db, Err(Conflict))
    ensures var after := Serve(e, db, SignOut(id, now)).db;
            && after.users == db.users && after.groups == db.groups && after.sessions.Keys == db.sessions.Keys
            && (forall other :: other in db.sessions && other != id ==> after.sessions[other] == db.sessions[other])
            && Serve(e, db, SignOut(id, now)).outcome == Ok(if after == db then 0 else 1)
            && (id in db.sessions ==> after.sessions[id] == if db.sessions[id].revokedAt.Some? then db.sessions[id]
                                                            else db.sessions[id].(revokedAt := Some(now)))
  {
    if id in db.sessions && db.sessions[id].revokedAt.None? {
    } else {
      assert Serve(e, db, SignOut(id, now)).db == db;
    }
  }

  // --- what a payload stores -------------------------------------------------------------------------------------

  predicate HasAddress(entry: EmailEntry) {
    entry.value.Some? && entry.value.value != ""
  }

  /** The first primary address wins, else the first address; entries without one are skipped. */
  lemma {:induction false} EmailWins(emails: seq<EmailEntry>, k: nat)
    requires k < |emails| && HasAddress(emails[k])
    requires if emails[k].primary then forall i :: 0 <= i < k && emails[i].primary ==> !HasAddress(emails[i])
             else (forall i :: 0 <= i < |emails| && emails[i].primary ==> !HasAddress(emails[i]))
                  && forall i :: 0 <= i < k ==> !HasAddress(emails[i])
    ensures PrimaryEmail(emails) == emails[k].value.value
  {
    if emails[k].primary {
      FirstEmailIs(emails, true, k);
    } else {
      NoFirstEmail(emails, true);
      FirstEmailIs(emails, false, k);
    }
  }

  lemma {:induction false} FirstEmailIs(emails: seq<EmailEntry>, primaryOnly: bool, k: nat)
    requires k < |emails| && HasAddress(emails[k]) && (primaryOnly ==> emails[k].primary)
    requires forall i :: 0 <= i < k && (primaryOnly ==> emails[i].primary) ==> !HasAddress(emails[i])
    ensures FirstEmail(emails, primaryOnly) == emails[k].value.value
  {
    if k > 0 {
      assert (primaryOnly ==> emails[0].primary) ==> !HasAddress(emails[0]);
      FirstEmailIs(emails[1..], primaryOnly, k - 1);
    }
  }

  lemma {:induction false} NoFirstEmail(emails: seq<EmailEntry>, primaryOnly: bool)
    requires forall i :: 0 <= i < |emails| && (primaryOnly ==> emails[i].primary) ==> !HasAddress(emails[i])
    ensures FirstEmail(emails, primaryOnly) == ""
  {
    if emails != [] {
      assert (primaryOnly ==> emails[0].primary) ==> !HasAddress(emails[0]);
      NoFirstEmail(emails[1..], primaryOnly);
    }
  }

  /** The address a payload gives, or `otherwise` when it gives none. */
  predicate Addressed(emails: seq<EmailEntry>, address: string, otherwise: string) {
    if forall i :: 0 <= i < |emails| ==> !HasAddress(emails[i]) then address == otherwise
    else if exists i :: 0 <= i < |emails| && emails[i].primary && HasAddress(emails[i]) then
      exists k :: 0 <= k < |emails| && emails[k].primary && emails[k].value == Some(address)
                  && HasAddress(emails[k]) && forall i :: 0 <= i < k && emails[i].primary ==> !HasAddress(emails[i])
    else
      exists k :: 0 <= k < |emails| && emails[k].value == Some(address) && HasAddress(emails[k])
                  && forall i :: 0 <= i < k ==> !HasAddress(emails[i])
  }

  lemma {:induction false} EmailAddressed(emails: seq<EmailEntry>, otherwise: string)
    ensures Addressed(emails, OrElse(Some(PrimaryEmail(emails)), otherwise), otherwise)
  {
    if forall i :: 0 <= i < |emails| ==> !HasAddress(emails[i]) {
      NoFirstEmail(emails, true);
      NoFirstEmail(emails, false);
    } else {
      var k := WinningEntry(emails);
      EmailWins(emails, k);
    }
  }

  /** The first entry from k on that has an address, and is primary if asked. */
  lemma {:induction false} FirstEntry(emails: seq<EmailEntry>, primaryOnly: bool, from: nat) returns (k: nat)
    requires exists i :: from <= i < |emails| && HasAddress(emails[i]) && (primaryOnly ==> emails[i].primary)
    ensures from <= k < |emails| && HasAddress(emails[k]) && (primaryOnly ==> emails[k].primary)
    ensures forall i :: from <= i < k && (primaryOnly ==> emails[i].primary) ==> !HasAddress(emails[i])
    decreases |emails| - from
  {
    if HasAddress(emails[from]) && (primaryOnly ==> emails[from].primary) {
      k := from;
    } else {
      k := FirstEntry(emails, primaryOnly, from + 1);
    }
  }

  lemma {:induction false} WinningEntry(emails: seq<EmailEntry>) returns (k: nat)
    requires exists i :: 0 <= i < |emails| && HasAddress(emails[i])
    ensures k < |emails| && HasAddress(emails[k])
    ensures if emails[k].primary then forall i :: 0 <= i < k && emails[i].primary ==> !HasAddress(emails[i])
            else (forall i :: 0 <= i < |emails| && emails[i].primary ==> !HasAddress(emails[i]))
                 && forall i :: 0 <= i < k ==> !HasAddress(emails[i])
  {
    var primaryOnly := exists i :: 0 <= i < |emails| && emails[i].primary && HasAddress(emails[i]);
    k := FirstEntry(emails, primaryOnly, 0);
  }

  /** The names a payload gives: display name, then formatted name; given and family name; blank if it gives none. */
  predicate Named(p: UserPayload, u: User) {
    && (if p.displayName.Some? && p.displayName.value != "" then u.displayName == p.displayName.value
        else if p.name.Some? && p.name.value.formatted.Some? then u.displayName == p.name.value.formatted.value
        else u.displayName == "")
    && u.givenName == (if p.name.Some? && p.name.value.given.Some? then p.name.value.given.value else "")
    && u.familyName == (if p.name.Some? && p.name.value.family.Some? then p.name.value.family.value else "")
  }

  /** What an accepted POST stores. */
  lemma {:induction false} PostStores(e: Env, db: Db, id: Id, p: UserPayload)
    requires CreateUser(e, db, id, p).outcome.Ok?
    ensures var after := CreateUser(e, db, id, p).db;
            && id !in db.users && id in after.users && after == db.(users := db.users[id := after.users[id]])
            && var u := after.users[id];
               && p.userName == Some(u.userName) && u.userName != "" && u.externalId == p.externalId && u.active == p.active
               && Named(p, u) && Addressed(p.emails, u.email, u.userName)
  {
    hide SameUserName, UserNameFree, Named, Addressed;
    CreatedAs(p);
  }

  lemma {:induction false} CreatedAs(p: UserPayload)
    requires p.userName.Some? && p.userName.value != ""
    ensures var u := NewUser(p);
            && p.userName == Some(u.userName) && u.externalId == p.externalId && u.active == p.active
            && Named(p, u) && Addressed(p.emails, u.email, u.userName)
  {
    hide Addressed, PrimaryEmail;
    EmailAddressed(p.emails, p.userName.value);
  }

  lemma {:induction false} ReplacedAs(was: User, p: UserPayload)
    ensures var u := ReplacedUser(was, p);
            && u.userName == (if p.userName.Some? && p.userName.value != "" then p.userName.value else was.userName)
            && u.externalId == (if p.externalId.Some? then p.externalId else was.externalId) && u.active == p.active
            && Named(p, u) && Addressed(p.emails, u.email, was.email)
  {
    hide Addressed, PrimaryEmail;
    EmailAddressed(p.emails, was.email);
  }

  /** What an accepted PUT stores: a user name, externalId or address it does not give stays. */
  lemma {:induction false} PutStores(e: Env, db: Db, id: Id, p: UserPayload, now: int)
    requires id in db.users && ReplaceUser(e, db, id, p, now).outcome.Ok?
    ensures var was, after := db.users[id], ReplaceUser(e, db, id, p, now).db;
            && after.groups == db.groups && id in after.users && after.users == db.users[id := after.users[id]]
            && var u := after.users[id];
               && u.userName == (if p.userName.Some? && p.userName.value != "" then p.userName.value else was.userName)
               && u.externalId == (if p.externalId.Some? then p.externalId else was.externalId) && u.active == p.active
               && Named(p, u) && Addressed(p.emails, u.email, was.email)
  {
    hide RevokeFor, Hits, Wanted, Identifiers, Addressed, Named, UserNameFree;
    ReplacedAs(db.users[id], p);
  }

  // --- when requests on users and groups are refused -----------------------------------------------------------------

  lemma {:induction false} TwoOf<T>(s: set<T>)
    ensures |s| > 0 <==> exists a :: a in s
    ensures |s| > 1 <==> exists a, b :: a in s && b in s && a != b
  {
    if a :| a in s {
      var rest := s - {a};
      assert s == {a} + rest;
      if b :| b in s && a != b {
        assert b in rest;
      } else {
        assert s == {a};
      }
    } else {
      assert s == {};
    }
  }

  /** The user has this name in the case the lookup ignores. */
  predicate HasName(e: Env, db: Db, id: Id, name: string) {
    id in db.users && e.dbLower(db.users[id].userName) == e.lower(name)
  }

  /** A POST is refused exactly without a name, with a name one user or several have, or on a clash in the database. */
  lemma {:induction false} PostRefusedExactly(e: Env, db: Db, id: Id, p: UserPayload)
    ensures var outcome := CreateUser(e, db, id, p).outcome;
            && (outcome == Err(NameRequired) <==> p.userName == None || p.userName == Some(""))
            && (p.userName.Some? && p.userName.value != "" ==>
                  var name := p.userName.value;
                  var taken := exists other :: HasName(e, db, other, name);
                  var twice := exists a, b :: HasName(e, db, a, name) && HasName(e, db, b, name) && a != b;
                  && (outcome == Err(Ambiguous) <==> twice)
                  && (outcome == Err(Uniqueness) <==> taken && !twice)
                  && (outcome == Err(Conflict) <==>
                        !taken && (id in db.users || exists other :: other in db.users && db.users[other].userName == name)))
  {
    hide NewUser;
    if p.userName.Some? && p.userName.value != "" {
      var name := p.userName.value;
      var same := SameUserName(e, db, name);
      assert forall other :: other in same <==> HasName(e, db, other, name);
      TwoOf(same);
    }
  }

  // --- what a group request stores, and when it is refused ------------------------------------------------------------

  predicate GroupHasName(e: Env, db: Db, id: Id, name: string) {
    id in db.groups && e.dbLower(db.groups[id].displayName) == e.lower(name)
  }

  /** The members are the stored users among the ids listed, blank ids aside. */
  ghost predicate Lists(db: Db, members: set<Id>, listed: seq<Option<Id>>) {
    forall m :: m in members <==> m in db.users && m != "" && Some(m) in listed
  }

  lemma {:induction false} PayloadLists(db: Db, listed: seq<Option<Id>>)
    ensures Lists(db, PayloadMembers(db, listed), listed)
  {
    forall m ensures m in PayloadMembers(db, listed) <==> m in db.users && m != "" && Some(m) in listed {
      if m in db.users && m != "" && Some(m) in listed {
        assert OrElse(Some(m), "") != "";
      }
    }
  }

  /** The database has a group of exactly this name, other than `id`. */
  predicate GroupClash(db: Db, id: Id, name: string) {
    exists other :: other in db.groups && other != id && db.groups[other].displayName == name
  }

  lemma {:induction false} GroupPostRefusedExactly(e: Env, db: Db, id: Id, p: GroupPayload)
    ensures var outcome := CreateGroup(e, db, id, p).outcome;
            && (outcome == Err(NameRequired) <==> p.displayName == None || p.displayName == Some(""))
            && (p.displayName.Some? && p.displayName.value != "" ==>
                  var name := p.displayName.value;
                  var taken := exists other :: GroupHasName(e, db, other, name);
                  var twice := exists a, b :: GroupHasName(e, db, a, name) && GroupHasName(e, db, b, name) && a != b;
                  && (outcome == Err(Ambiguous) <==> twice)
                  && (outcome == Err(Uniqueness) <==> taken && !twice)
                  && (outcome == Err(Conflict) <==> !taken && (id in db.groups || GroupClash(db, id, name))))
  {
    hide PayloadMembers;
    if p.displayName.Some? && p.displayName.value != "" {
      var name := p.displayName.value;
      var same := SameGroupName(e, db, name);
      assert forall other :: other in same <==> GroupHasName(e, db, other, name);
      TwoOf(same);
    }
  }

  lemma {:induction false} GroupPostStores(e: Env, db: Db, id: Id, p: GroupPayload)
    requires CreateGroup(e, db, id, p).outcome.Ok?
    ensures var after := CreateGroup(e, db, id, p).db;
            && CreateGroup(e, db, id, p).outcome == Ok(0) && id !in db.groups && id in after.groups
            && after == db.(groups := db.groups[id := after.groups[id]])
            && var g := after.groups[id];
               p.displayName == Some(g.displayName) && g.externalId == p.externalId && Lists(db, g.members, p.members)
  {
    hide PayloadMembers;
    PayloadLists(db, p.members);
  }

  /** A PUT keeps a name or externalId it does not give, always replaces the members, and is refused on a name clash. */
  lemma {:induction false} GroupPutStores(db: Db, id: Id, p: GroupPayload)
    ensures var r := ReplaceGroup(db, id, p);
            if id !in db.groups then r == Reply(db, Err(NotFound))
            else
              var was := db.groups[id];
              var name := if p.displayName.Some? && p.displayName.value != "" then p.displayName.value else was.displayName;
              if GroupClash(db, id, name) then r == Reply(db, Err(Conflict))
              else
                && r.outcome == Ok(0) && id in r.db.groups && r.db == db.(groups := db.groups[id := r.db.groups[id]])
                && var g := r.db.groups[id];
                   && g.displayName == name && Lists(db, g.members, p.members)
                   && g.externalId == (if p.externalId.Some? then p.externalId else was.externalId)
  {
    hide PayloadMembers, Lists;
    PayloadLists(db, p.members);
  }

  lemma {:induction false} GroupDeleted(db: Db, id: Id)
    ensures var r := DeleteGroup(db, id);
            && r.db.users == db.users && r.db.sessions == db.sessions
            && r.outcome == (if id in db.groups then Ok(0) else Err(NotFound))
            && (forall g :: g in r.db.groups <==> g in db.groups && g != id)
            && (forall g :: g in r.db.groups ==> r.db.groups[g] == db.groups[g])
  {
  }

  // --- group operations on the JSON a connector sends -----------------------------------------------------------------

  lemma {:induction false} OnePatch(e: Env, db: Db, id: Id, o: Operation)
    requires Consistent(db) && id in db.groups
    ensures var g := ApplyGroup(db.users.Keys, db.groups[id], o, e.repr);
            PatchGroup(e, db, id, [o]) ==
            if GroupNameFree(db, id, g.displayName) then Reply(db.(groups := db.groups[id := g]), Ok(0)) else Reply(db, Err(Conflict))
  {
    hide ApplyGroup;
    assert [o][..0] == [];
    assert ApplyGroupAll(db.users.Keys, db.groups[id], [o], e.repr)
        == ApplyGroup(db.users.Keys, ApplyGroupAll(db.users.Keys, db.groups[id], [], e.repr), o, e.repr);
  }

  /** PATCH on members, in any case of the operation and the path. */
  lemma {:induction false} MembersPatched(e: Env, db: Db, id: Id, op: string, path: string, v: Json, ids: seq<Id>)
    requires Consistent(db) && id in db.groups && LowerAscii(path) == "members" && ListsIds(v, ids)
    ensures var g, stored := db.groups[id], set x | x in ids && x in db.users;
            var r := PatchGroup(e, db, id, [Operation(op, Some(path), v)]);
            match LowerAscii(op)
            case "add" => r == Reply(db.(groups := db.groups[id := g.(members := g.members + stored)]), Ok(0))
            case "replace" => r == Reply(db.(groups := db.groups[id := g.(members := stored)]), Ok(0))
            case "remove" => ids != [] ==> r == Reply(db.(groups := db.groups[id := g.(members := g.members - set x | x in ids)]), Ok(0))
            case _ => r == Reply(db, Ok(0))
  {
    hide ListsIds, ApplyGroup, LowerAscii, PatchGroup;
    var o := Operation(op, Some(path), v);
    MembersPath(path);
    MembersOperations(db.users.Keys, db.groups[id], o, ids, e.repr);
    OnePatch(e, db, id, o);
    assert (set x | x in ids && x in db.users.Keys) == set x | x in ids && x in db.users;
    assert db.groups[id := db.groups[id]] == db.groups;
  }

  /** PATCH on the display name: members stay, and the name is the text sent unless another group has it. */
  lemma {:induction false} GroupRenamed(e: Env, db: Db, id: Id, o: Operation, s: string)
    requires Consistent(db) && id in db.groups && LowerAscii(o.op) in {"add", "replace"} && s != ""
    requires || (o.path.Some? && LowerAscii(o.path.value) == "displayname" && o.value == JStr(s))
             || (o.path == None && o.value.JObj? && Lookup(o.value.fields, "displayName") == Some(JStr(s)))
    ensures PatchGroup(e, db, id, [o]) ==
            if forall other :: other in db.groups && other != id ==> db.groups[other].displayName != s
            then Reply(db.(groups := db.groups[id := db.groups[id].(displayName := s)]), Ok(0))
            else Reply(db, Err(Conflict))
  {
    hide ApplyGroup, PatchGroup, LowerAscii, PathOf;
    RenamePath(o);
    RenameOperations(db.users.Keys, db.groups[id], o, s, e.repr);
    OnePatch(e, db, id, o);
  }

  lemma {:induction false} RenamePath(o: Operation)
    requires (o.path.Some? && LowerAscii(o.path.value) == "displayname") || o.path == None
    ensures PathOf(o) == if o.path.Some? then "displayname" else ""
  {
    if o.path.Some? {
      var path := o.path.value;
      forall i | 0 <= i < |path| ensures IsLetter(path[i]) {
        assert LowerAscii(path)[i] == "displayname"[i];
      }
      PlainPath(path);
    }
  }
}
