/** The records of the chat application: users and the talks (direct
    messages) they exchange, with the field rules the model declares. */
module Models {

  datatype Option<T> = None | Some(value: T)

  type UserId = nat

  /** A user account. `icon` is the stored path of the avatar image. */
  datatype User = User(id: UserId, username: string, email: string, icon: string)

  /** One direct message: its body, who sent it, to whom, and the instant it
      was stored, on an abstract integer clock. */
  datatype Talk = Talk(body: string, sender: UserId, recipient: UserId, time: int)

  /** Maximum length of a talk body, in characters. */
  const MaxTalkLength: nat := 500

  /** Avatar path of a user who never uploaded an image. */
  const DefaultIcon: string := "images/noimage.png"

  /** The field rule for a talk body: required (no blank) and at most
      MaxTalkLength characters. */
  predicate BodyOk(body: string)
  {
    0 < |body| <= MaxTalkLength
  }

  /** The user record created from a sign-up; an absent upload leaves the
      default avatar. */
  function NewUser(id: UserId, username: string, email: string, upload: Option<string>): (u: User)
    ensures u.id == id && u.username == username && u.email == email
    ensures upload.None? ==> u.icon == DefaultIcon
    ensures upload.Some? ==> u.icon == upload.value
  {
    User(id, username, email, if upload.Some? then upload.value else DefaultIcon)
  }

  /** The set of ids of the given users. */
  function Ids(users: seq<User>): set<UserId>
  {
    set u | u in users :: u.id
  }

  /** No two users share an id (the primary key). */
  predicate DistinctIds(users: seq<User>)
  {
    forall i, j :: 0 <= i < j < |users| ==> users[i].id != users[j].id
  }

  /** The user with the given primary key, if any. */
  function Lookup(users: seq<User>, id: UserId): (r: Option<User>)
    ensures r.Some? ==> r.value in users && r.value.id == id
    ensures r.None? <==> id !in Ids(users)
  {
    if users == [] then None
    else if users[0].id == id then Some(users[0])
    else
      assert Ids(users) == {users[0].id} + Ids(users[1..]) by {
        assert users == [users[0]] + users[1..];
      }
      Lookup(users[1..], id)
  }

  /** The user table after `form.save()` on user `u`: the row with u's
      primary key now holds `u`; every other row is untouched. */
  function Replace(users: seq<User>, u: User): (r: seq<User>)
    ensures |r| == |users|
    ensures forall k :: 0 <= k < |users| ==> r[k] == if users[k].id == u.id then u else users[k]
    ensures u.id in Ids(users) ==> Ids(r) == Ids(users)
    ensures DistinctIds(users) ==> DistinctIds(r)
  {
    var r := seq(|users|, k requires 0 <= k < |users| => if users[k].id == u.id then u else users[k]);
    assert u.id in Ids(users) ==> Ids(r) == Ids(users) by {
      if u.id in Ids(users) {
        forall x | x in Ids(r) ensures x in Ids(users) {
          var v :| v in r && v.id == x;
          var k :| 0 <= k < |r| && r[k] == v;
          assert users[k].id == x;
        }
        forall x | x in Ids(users) ensures x in Ids(r) {
          var v :| v in users && v.id == x;
          var k :| 0 <= k < |users| && users[k] == v;
          assert r[k].id == x;
        }
      }
    }
    r
  }

  /** Whether talk `t` mentions user `u` as sender or recipient. */
  predicate Involves(t: Talk, u: UserId)
  {
    t.sender == u || t.recipient == u
  }

  /** The talks that remain after user `u` is deleted: both foreign keys
      cascade, so every talk `u` sent or received goes with them. */
  function Cascade(talks: seq<Talk>, u: UserId): (r: seq<Talk>)
    ensures forall t :: t in r <==> t in talks && !Involves(t, u)
    ensures forall t :: multiset(r)[t] == if Involves(t, u) then 0 else multiset(talks)[t]
    ensures |r| <= |talks|
  {
    if talks == [] then []
    else
      assert talks == [talks[0]] + talks[1..];
      (if Involves(talks[0], u) then [] else [talks[0]]) + Cascade(talks[1..], u)
  }

  /** The users that remain after user `u` is deleted. */
  function RemoveUser(users: seq<User>, u: UserId): (r: seq<User>)
    ensures forall x :: x in r <==> x in users && x.id != u
    ensures |r| <= |users|
  {
    if users == [] then []
    else (if users[0].id == u then [] else [users[0]]) + RemoveUser(users[1..], u)
  }

  /** Deletion removes exactly the deleted user's key. */
  lemma RemoveUserIds(users: seq<User>, u: UserId)
    ensures Ids(RemoveUser(users, u)) == Ids(users) - {u}
  {
    var r := RemoveUser(users, u);
    forall x | x in Ids(users) - {u} ensures x in Ids(r) {
      var v :| v in users && v.id == x;
      assert v in r;
    }
  }

  /** Deletion keeps primary keys distinct. */
  lemma {:induction false} RemoveUserDistinct(users: seq<User>, u: UserId)
    requires DistinctIds(users)
    ensures DistinctIds(RemoveUser(users, u))
  {
    if users != [] {
      var tail := users[1..];
      assert DistinctIds(tail) by {
        forall i, j | 0 <= i < j < |tail| ensures tail[i].id != tail[j].id {
          assert tail[i] == users[i + 1] && tail[j] == users[j + 1];
        }
      }
      RemoveUserDistinct(tail, u);
      var rest := RemoveUser(tail, u);
      if users[0].id != u {
        forall x | x in rest ensures x.id != users[0].id {
          var k :| 0 <= k < |tail| && tail[k] == x;
          assert users[k + 1] == x;
        }
        DistinctCons(users[0], rest);
      }
    }
  }

  /** A user whose key no other user has can lead a table of distinct keys. */
  lemma DistinctCons(x: User, rest: seq<User>)
    requires DistinctIds(rest)
    requires forall y :: y in rest ==> y.id != x.id
    ensures DistinctIds([x] + rest)
  {
    var r := [x] + rest;
    forall i, j | 0 <= i < j < |r| ensures r[i].id != r[j].id {
      assert r[j] == rest[j - 1];
      if i > 0 {
        assert r[i] == rest[i - 1];
      }
    }
  }

  /** The text form of a talk: its sender's username, ">>", its recipient's
      username (a user prints as their username). A talk whose sender or
      recipient is not a user has none. */
  function Label(users: seq<User>, t: Talk): (s: Option<string>)
    ensures s.Some? <==> t.sender in Ids(users) && t.recipient in Ids(users)
    ensures s.Some? ==>
      var from := Lookup(users, t.sender).value.username;
      var to := Lookup(users, t.recipient).value.username;
      |s.value| == |from| + 2 + |to| &&
      s.value[..|from|] == from && s.value[|from|..|from| + 2] == ">>" && s.value[|from| + 2..] == to
  {
    var from := Lookup(users, t.sender);
    var to := Lookup(users, t.recipient);
    if from.Some? && to.Some? then Some(from.value.username + ">>" + to.value.username)
    else None
  }

  /** The first index at or after `from` where ">>" starts, or |s| when there
      is none. */
  function FindArrows(s: string, from: nat): (k: nat)
    requires from <= |s|
    ensures from <= k <= |s|
    ensures k < |s| ==> k + 1 < |s| && s[k] == '>' && s[k + 1] == '>'
    ensures forall i :: from <= i < k && i + 1 < |s| ==> !(s[i] == '>' && s[i + 1] == '>')
    decreases |s| - from
  {
    if from + 1 >= |s| then |s|
    else if s[from] == '>' && s[from + 1] == '>' then from
    else FindArrows(s, from + 1)
  }

  /** Reads a label back into its sender and recipient names, splitting at
      the first ">>". */
  function SplitLabel(s: string): (r: Option<(string, string)>)
    ensures r.Some? <==> exists i :: 0 <= i && i + 1 < |s| && s[i] == '>' && s[i + 1] == '>'
    ensures r.Some? ==> r.value.0 + ">>" + r.value.1 == s
    ensures r.Some? ==> forall i :: 0 <= i < |r.value.0| ==> !(s[i] == '>' && s[i + 1] == '>')
  {
    var k := FindArrows(s, 0);
    if k < |s| then
      assert s == s[..k] + ">>" + s[k + 2..] by {
        assert s[k..k + 2] == ">>";
        assert s == s[..k] + s[k..k + 2] + s[k + 2..];
      }
      Some((s[..k], s[k + 2..]))
    else None
  }

  /** A username holds no '>' (the framework only admits letters, digits and
      @ . + - _), which makes the label of a talk unambiguous: it reads back
      as the usernames of its sender and recipient. */
  lemma {:induction false} LabelRoundTrip(users: seq<User>, t: Talk)
    requires t.sender in Ids(users) && t.recipient in Ids(users)
    requires forall i :: 0 <= i < |Lookup(users, t.sender).value.username| ==>
      Lookup(users, t.sender).value.username[i] != '>'
    ensures SplitLabel(Label(users, t).value)
         == Some((Lookup(users, t.sender).value.username, Lookup(users, t.recipient).value.username))
  {
    var s := Label(users, t).value;
    var from := Lookup(users, t.sender).value.username;
    var n := |from|;
    FindArrowsFrom(s, 0, n);
    assert s[..n] == from;
  }

  /** When no '>' occurs before position n and ">>" sits at n, the search
      from any earlier position stops at n. */
  lemma {:induction false} FindArrowsFrom(s: string, from: nat, n: nat)
    requires from <= n && n + 1 < |s|
    requires forall i :: 0 <= i < n ==> s[i] != '>'
    requires s[n] == '>' && s[n + 1] == '>'
    ensures FindArrows(s, from) == n
    decreases n - from
  {
    if from < n {
      FindArrowsFrom(s, from + 1, n);
    }
  }
}
