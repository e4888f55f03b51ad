/**
 The request handlers as they run: rows updated in place, member lists rebuilt element by element,
 a failing request rolled back. Each handler is proved against its function in `ScimStore`.
 */
module ScimService {
  import opened Text
  import opened ScimPatch
  import opened ScimStore

  datatype GroupRow = GroupRow(displayName: string, externalId: Option<string>, members: seq<Id>)

  function Elements(ids: seq<Id>): set<Id> {
    set id | id in ids
  }

  function AsGroup(g: GroupRow): Group {
    Group(g.displayName, g.externalId, Elements(g.members))
  }

  function Without(ids: seq<Id>, gone: set<Id>): (r: seq<Id>)
    requires NoDuplicates(ids)
    ensures NoDuplicates(r) && Elements(r) == Elements(ids) - gone
  {
    if ids == [] then []
    else
      assert ids == [ids[0]] + ids[1..];
      assert Elements(ids) == {ids[0]} + Elements(ids[1..]);
      var rest := Without(ids[1..], gone);
      assert ids[0] !in Elements(ids[1..]);
      if ids[0] in gone then rest
      else
        assert Elements([ids[0]] + rest) == {ids[0]} + Elements(rest);
        assert forall i :: 0 <= i < |rest| ==> rest[i] in Elements(rest);
        [ids[0]] + rest
  }

  function AsGroups(rows: map<Id, GroupRow>): map<Id, Group> {
    map g | g in rows :: AsGroup(rows[g])
  }

  predicate NoRepeats(rows: map<Id, GroupRow>) {
    forall g :: g in rows ==> NoDuplicates(rows[g].members)
  }

  function RowsWithout(rows: map<Id, GroupRow>, id: Id): map<Id, GroupRow>
    requires NoRepeats(rows)
  {
    map g | g in rows :: rows[g].(members := Without(rows[g].members, {id}))
  }

  lemma {:induction false} RowsWithoutIs(rows: map<Id, GroupRow>, id: Id)
    requires NoRepeats(rows)
    ensures NoRepeats(RowsWithout(rows, id)) && AsGroups(RowsWithout(rows, id)) == GroupsWithout(AsGroups(rows), id)
  {
    hide Without, Elements, NoDuplicates;
  }

  lemma {:induction false} HitsAreLive(e: Env, sessions: map<Id, Session>, wanted: set<string>)
    ensures Hits(e, sessions, wanted) <= sessions.Keys
  {
  }

  lemma {:induction false} MarkNone(sessions: map<Id, Session>, now: int)
    ensures Mark(sessions, {}, now) == sessions
  {
  }

  lemma {:induction false} MarkOne(sessions: map<Id, Session>, ids: set<Id>, id: Id, now: int)
    requires id in sessions && id !in ids
    ensures var marked := Mark(sessions, ids, now);
            && id in marked && marked[id] == sessions[id]
            && Mark(sessions, ids + {id}, now) == marked[id := marked[id].(revokedAt := Some(now))]
  {
  }

  class Store {
    const env: Env
    var users: map<Id, User>
    var groups: map<Id, GroupRow>
    var sessions: map<Id, Session>

    constructor (env: Env)
      ensures this.env == env && Valid() && View() == EMPTY
    {
      this.env := env;
      users, groups, sessions := map[], map[], map[];
    }

    /** No member list repeats a member. */
    ghost predicate Valid()
      reads this
    {
      NoRepeats(groups)
    }

    ghost function View(): Db
      reads this
    {
      Db(users, AsGroups(groups), sessions)
    }

    /** The handler did what `reply` says: its new store, and its count or error. */
    ghost predicate Gives(outcome: Result<nat, ScimError>, reply: Reply)
      reads this
    {
      Valid() && View() == reply.db && outcome == reply.outcome
    }

    // --- sessions ---------------------------------------------------------------------

    method RevokeSessionsForUser(identifiers: seq<Option<string>>, now: int) returns (count: nat)
      modifies this`sessions
      ensures sessions == RevokeFor(env, old(sessions), identifiers, now)
      ensures count == |Hits(env, old(sessions), Wanted(env, identifiers))|
    {
      var wanted := Wanted(env, identifiers);
      if wanted == {} {
        assert Hits(env, sessions, wanted) == {};
        return 0;
      }
      hide Mark, Hits, Wanted;
      var rows := Hits(env, sessions, wanted);
      HitsAreLive(env, sessions, wanted);
      var left := rows;
      MarkNone(sessions, now);
      assert rows - left == {};
      while left != {}
        invariant left <= rows
        invariant sessions == Mark(old(sessions), rows - left, now)
        decreases left
      {
        var id :| id in left;
        MarkOne(old(sessions), rows - left, id, now);
        assert rows - (left - {id}) == (rows - left) + {id};
        sessions := sessions[id := sessions[id].(revokedAt := Some(now))];
        left := left - {id};
      }
      assert rows - left == rows;
      count := |rows|;
    }

    method OpenSession(id: Id, subject: string, email: string, expiresAt: int) returns (r: Result<nat, ScimError>)
      requires Valid()
      modifies this
      ensures Gives(r, CreateSession(old(View()), id, subject, email, expiresAt))
    {
      if id in sessions {
        return Err(Conflict);
      }
      sessions := sessions[id := Session(subject, email, expiresAt, None)];
      return Ok(0);
    }

    method CloseSession(id: Id, now: int) returns (r: Result<nat, ScimError>)
      requires Valid()
      modifies this
      ensures Gives(r, RevokeSession(old(View()), id, now))
    {
      if id in sessions && sessions[id].revokedAt.None? {
        sessions := sessions[id := sessions[id].(revokedAt := Some(now))];
        return Ok(1);
      }
      return Ok(0);
    }

    method SessionFor(id: Id, now: int) returns (s: Option<Session>)
      ensures s == ReadSession(View(), id, now)
    {
      if id !in sessions || sessions[id].revokedAt.Some? {
        return None;
      }
      if sessions[id].expiresAt < now {
        return None;
      }
      return Some(sessions[id]);
    }

    // --- users ------------------------------------------------------------------------

    method PostUser(id: Id, p: UserPayload) returns (r: Result<nat, ScimError>)
      requires Valid()
      modifies this
      ensures Gives(r, CreateUser(env, old(View()), id, p))
    {
      if OrElse(p.userName, "") == "" {
        return Err(NameRequired);
      }
      var name := p.userName.value;
      var same := set k | k in users && env.dbLower(users[k].userName) == env.lower(name);
      assert same == SameUserName(env, View(), name);
      if |same| > 1 {
        return Err(Ambiguous);
      }
      if |same| == 1 {
        return Err(Uniqueness);
      }
      if id in users || exists k :: k in users && k != id && users[k].userName == name {
        return Err(Conflict);
      }
      users := users[id := NewUser(p)];
      return Ok(0);
    }

    /** Commit a changed row; a name clash rolls the request back. */
    method StoreUser(id: Id, u: User, now: int) returns (r: Result<nat, ScimError>)
      requires Valid() && id in users
      modifies this
      ensures Gives(r, CommitUser(env, old(View()), id, u, now))
    {
      var wasActive := users[id].active;
      if exists k :: k in users && k != id && users[k].userName == u.userName {
        return Err(Conflict);
      }
      users := users[id := u];
      if wasActive && !u.active {
        var revoked := RevokeSessionsForUser(Identifiers(u), now);
        return Ok(revoked);
      }
      return Ok(0);
    }

    method PutUser(id: Id, p: UserPayload, now: int) returns (r: Result<nat, ScimError>)
      requires Valid()
      modifies this
      ensures Gives(r, ReplaceUser(env, old(View()), id, p, now))
    {
      if id !in users {
        return Err(NotFound);
      }
      r := StoreUser(id, ReplacedUser(users[id], p), now);
    }

    method PatchUserRow(id: Id, ops: seq<Operation>, now: int) returns (r: Result<nat, ScimError>)
      requires Valid()
      modifies this
      ensures Gives(r, PatchUser(env, old(View()), id, ops, now))
    {
      if id !in users {
        return Err(NotFound);
      }
      var u := users[id];
      for i := 0 to |ops|
        invariant View() == old(View()) && groups == old(groups)
        invariant ApplyUserAll(users[id], ops[..i], env.repr) == Ok(u)
      {
        assert ops[..i + 1][..i] == ops[..i];
        var next := ApplyUserOperation(u, ops[i], env.repr);
        if next.Err? {
          PatchIsLeftFold(users[id], ops[..i + 1], ops[i + 1..], env.repr);
          assert ops[..i + 1] + ops[i + 1..] == ops;
          return Err(next.error);
        }
        u := next.value;
      }
      assert ops[..|ops|] == ops;
      r := StoreUser(id, u, now);
    }

    method RemoveUser(id: Id, now: int) returns (r: Result<nat, ScimError>)
      requires Valid()
      modifies this
      ensures Gives(r, DeleteUser(env, old(View()), id, now))
    {
      if id !in users {
        return Err(NotFound);
      }
      hide RevokeFor, Hits, Wanted, NoRepeats, RowsWithout, AsGroups, GroupsWithout;
      var identifiers := Identifiers(users[id]);
      users := users - {id};
      RowsWithoutIs(groups, id);
      groups := RowsWithout(groups, id);
      var revoked := RevokeSessionsForUser(identifiers, now);
      return Ok(revoked);
    }

    // --- groups -----------------------------------------------------------------------

    /** The stored users among the ids, once each, in whatever order the database returns them. */
    method ResolveMembers(ids: seq<Id>) returns (found: seq<Id>)
      ensures NoDuplicates(found) && Elements(found) == Elements(ids) * users.Keys
    {
      found := [];
      var left := Elements(ids) * users.Keys;
      while left != {}
        invariant NoDuplicates(found) && Elements(found) !! left
        invariant Elements(found) + left == Elements(ids) * users.Keys
        decreases left
      {
        var id :| id in left;
        assert forall i :: 0 <= i < |found| ==> found[i] in Elements(found);
        assert Elements(found + [id]) == Elements(found) + {id};
        found := found + [id];
        left := left - {id};
      }
    }

    method PayloadIds(members: seq<Option<Id>>) returns (ids: seq<Id>)
      ensures Elements(ids) == set m | m in members && OrElse(m, "") != "" :: m.value
    {
      ids := [];
      for i := 0 to |members|
        invariant Elements(ids) == set m | m in members[..i] && OrElse(m, "") != "" :: m.value
      {
        ghost var was := ids;
        assert members[..i + 1] == members[..i] + [members[i]];
        if OrElse(members[i], "") != "" {
          ids := ids + [members[i].value];
          assert Elements(ids) == Elements(was) + {members[i].value};
        }
      }
      assert members[..|members|] == members;
    }

    method GroupsNamed(name: string) returns (same: set<Id>)
      ensures same == SameGroupName(env, View(), name)
    {
      same := set k | k in groups && env.dbLower(groups[k].displayName) == env.lower(name);
    }

    method PostGroup(id: Id, p: GroupPayload) returns (r: Result<nat, ScimError>)
      requires Valid()
      modifies this
      ensures Gives(r, CreateGroup(env, old(View()), id, p))
    {
      if OrElse(p.displayName, "") == "" {
        return Err(NameRequired);
      }
      var name := p.displayName.value;
      var same := GroupsNamed(name);
      if |same| > 1 {
        return Err(Ambiguous);
      }
      if |same| == 1 {
        return Err(Uniqueness);
      }
      var ids := PayloadIds(p.members);
      var members := ResolveMembers(ids);
      if id in groups {
        return Err(Conflict);
      }
      ghost var g := Group(name, p.externalId, PayloadMembers(View(), p.members));
      assert CreateGroup(env, View(), id, p) == CommitGroup(View(), id, g);
      r := StoreGroup(id, GroupRow(name, p.externalId, members));
    }

    method StoreGroup(id: Id, g: GroupRow) returns (r: Result<nat, ScimError>)
      requires Valid() && NoDuplicates(g.members)
      modifies this
      ensures Gives(r, CommitGroup(old(View()), id, AsGroup(g)))
    {
      if k :| k in groups && k != id && groups[k].displayName == g.displayName {
        assert View().groups[k].displayName == g.displayName;
        assert !GroupNameFree(View(), id, g.displayName);
        return Err(Conflict);
      }
      assert GroupNameFree(View(), id, g.displayName);
      groups := groups[id := g];
      assert View().groups == old(View()).groups[id := AsGroup(g)];
      return Ok(0);
    }

    method PutGroup(id: Id, p: GroupPayload) returns (r: Result<nat, ScimError>)
      requires Valid()
      modifies this
      ensures Gives(r, ReplaceGroup(old(View()), id, p))
    {
      if id !in groups {
        return Err(NotFound);
      }
      var g := groups[id];
      var ids := PayloadIds(p.members);
      var members := ResolveMembers(ids);
      r := StoreGroup(id, GroupRow(OrElse(p.displayName, g.displayName),
                                   if p.externalId.Some? then p.externalId else g.externalId, members));
    }

    /** One operation on the row: `group.members + [...]`, a fresh list, or a filtered one. */
    method ApplyGroupOperation(g: GroupRow, o: Operation) returns (r: GroupRow)
      requires NoDuplicates(g.members)
      ensures NoDuplicates(r.members)
      ensures AsGroup(r) == ApplyGroup(users.Keys, AsGroup(g), o, env.repr)
    {
      hide LowerAscii, PathOf, NamedIds, RenamedTo;
      var op := LowerAscii(o.op);
      if PathOf(o) != "members" {
        return g.(displayName := RenamedTo(g.displayName, o, env.repr));
      }
      var ids := NamedIds(o, env.repr);
      if op == "add" {
        var found := ResolveMembers(ids);
        var added := Without(found, Elements(g.members));
        assert forall i :: 0 <= i < |added| ==> added[i] in Elements(added);
        assert forall i :: 0 <= i < |g.members| ==> g.members[i] in Elements(g.members);
        assert Elements(g.members + added) == Elements(g.members) + Elements(added);
        return g.(members := g.members + added);
      }
      if op == "replace" {
        var found := ResolveMembers(ids);
        return g.(members := found);
      }
      if op == "remove" {
        return g.(members := Without(g.members, Elements(ids)));
      }
      return g;
    }

    method PatchGroupRow(id: Id, ops: seq<Operation>) returns (r: Result<nat, ScimError>)
      requires Valid()
      modifies this
      ensures Gives(r, PatchGroup(env, old(View()), id, ops))
    {
      if id !in groups {
        return Err(NotFound);
      }
      var g := groups[id];
      ghost var stored := AsGroup(g);
      for i := 0 to |ops|
        invariant View() == old(View()) && groups == old(groups) && NoDuplicates(g.members)
        invariant AsGroup(g) == ApplyGroupAll(users.Keys, stored, ops[..i], env.repr)
      {
        assert ops[..i + 1][..i] == ops[..i];
        g := ApplyGroupOperation(g, ops[i]);
      }
      assert ops[..|ops|] == ops;
      r := StoreGroup(id, g);
    }

    method RemoveGroup(id: Id) returns (r: Result<nat, ScimError>)
      requires Valid()
      modifies this
      ensures Gives(r, DeleteGroup(old(View()), id))
    {
      if id !in groups {
        return Err(NotFound);
      }
      groups := groups - {id};
      return Ok(0);
    }
  }
}
