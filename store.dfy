/** The persisted state of the application: the user table, the talk table
    and the session, updated in place by the request handlers. */
module Store {
  import opened Models

  class Site {
    /** The user table, in enumeration order. */
    var users: seq<User>
    /** The talk table, in insertion order. */
    var talks: seq<Talk>
    /** The user the current session is logged in as, if any. */
    var session: Option<UserId>
    /** The primary key the next new user receives. */
    var nextId: UserId

    /** Primary keys are distinct and below `nextId`; every talk's sender
        and recipient are users and its body obeys the field rule; the
        session names a user. */
    ghost predicate Valid()
      reads this
    {
      DistinctIds(users) &&
      (forall u :: u in users ==> u.id < nextId) &&
      (forall t :: t in talks ==> t.sender in Ids(users) && t.recipient in Ids(users) && BodyOk(t.body)) &&
      (session.Some? ==> session.value in Ids(users))
    }

    constructor ()
      ensures Valid()
      ensures users == [] && talks == [] && session == None
    {
      users := [];
      talks := [];
      session := None;
      nextId := 1;
    }

    /** Saving a sign-up form: a new user under the next primary key. */
    method AddUser(username: string, email: string, upload: Option<string>) returns (id: UserId)
      requires Valid()
      modifies this
      ensures Valid()
      ensures id == old(nextId) && id !in Ids(old(users))
      ensures users == old(users) + [NewUser(id, username, email, upload)]
      ensures nextId == old(nextId) + 1
      ensures talks == old(talks) && session == old(session)
    {
      id := nextId;
      var u := NewUser(id, username, email, upload);
      assert Ids(users + [u]) == Ids(users) + {id};
      users := users + [u];
      nextId := nextId + 1;
    }

    /** Saving a talk form: the new talk is stamped with the current time,
        once; no stored talk changes. */
    method AddTalk(body: string, sender: UserId, recipient: UserId, now: int)
      requires Valid()
      requires BodyOk(body) && sender in Ids(users) && recipient in Ids(users)
      modifies this
      ensures Valid()
      ensures talks == old(talks) + [Talk(body, sender, recipient, now)]
      ensures users == old(users) && session == old(session) && nextId == old(nextId)
    {
      talks := talks + [Talk(body, sender, recipient, now)];
    }

    /** Saving a settings form on a user instance. */
    method SaveUser(u: User)
      requires Valid() && u.id in Ids(users)
      modifies this
      ensures Valid()
      ensures users == Replace(old(users), u)
      ensures talks == old(talks) && session == old(session) && nextId == old(nextId)
    {
      var before := users;
      users := Replace(users, u);
      forall v | v in users ensures v.id < nextId {
        var k :| 0 <= k < |users| && users[k] == v;
        assert before[k] in before;
      }
    }

    /** `login(request, user)`: binds the session to the user. */
    method LogIn(id: UserId)
      requires Valid() && id in Ids(users)
      modifies this
      ensures Valid()
      ensures session == Some(id)
      ensures users == old(users) && talks == old(talks) && nextId == old(nextId)
    {
      session := Some(id);
    }

    /** Deleting a user: both foreign keys of a talk cascade, so every talk
        the user sent or received goes too, and a session of theirs ends. */
    method DeleteUser(id: UserId)
      requires Valid()
      modifies this
      ensures Valid()
      ensures users == RemoveUser(old(users), id)
      ensures talks == Cascade(old(talks), id)
      ensures session == if old(session) == Some(id) then None else old(session)
      ensures nextId == old(nextId)
    {
      RemoveUserIds(users, id);
      RemoveUserDistinct(users, id);
      users := RemoveUser(users, id);
      talks := Cascade(talks, id);
      if session == Some(id) {
        session := None;
      }
    }
  }
}
