/** The friends list: every other user with the newest talk exchanged with
    them, users with a talk first (newest first), then the silent ones. */
module FriendsList {
  import opened Models
  import opened Conversations

  /** A row of the friends list: [friend, latest body, latest time], or
      [friend, None, None] for a user never talked with. */
  datatype Entry = Entry(friend: User, body: Option<string>, time: Option<int>)

  /** A row of the with-message list while it is being collected: the
      friend and the newest talk of the pair, whose body and time the row
      shows. */
  datatype Summary = Summary(friend: User, latest: Talk)

  function AsEntry(s: Summary): Entry
  {
    Entry(s.friend, Some(s.latest.body), Some(s.latest.time))
  }

  /** Position of `u` in the user enumeration, or |users| when absent. */
  function IndexOf(users: seq<User>, u: User): (k: nat)
    ensures k <= |users|
    ensures u in users <==> k < |users|
    ensures k < |users| ==> users[k] == u
  {
    if users == [] then 0
    else if users[0] == u then 0
    else 1 + IndexOf(users[1..], u)
  }

  /** The summary reports the newest talk between `me` and its friend. */
  predicate SummaryOk(s: Summary, talks: seq<Talk>, me: UserId)
  {
    IsLatest(talks, me, s.friend.id, s.latest)
  }

  /** The row reports the newest talk between `me` and its friend, and has
      neither body nor time exactly when the two never talked. */
  predicate Summarizes(e: Entry, talks: seq<Talk>, me: UserId)
  {
    (e.body.Some? <==> e.time.Some?) &&
    (e.time.None? <==> forall t :: t in talks ==> !Between(t, me, e.friend.id)) &&
    (e.time.Some? ==>
      NewestIs(talks, me, e.friend.id, e.body.value, e.time.value))
  }

  /** Every user other than `me` has a row, and only they do. */
  predicate ListsOthers(info: seq<Entry>, users: seq<User>, me: UserId)
  {
    (forall i :: 0 <= i < |info| ==> info[i].friend in users && info[i].friend.id != me) &&
    (forall u :: u in users && u.id != me ==> exists i :: 0 <= i < |info| && info[i].friend == u)
  }

  /** No user has two rows. */
  predicate OncePerFriend(info: seq<Entry>)
  {
    forall i, j :: 0 <= i < j < |info| ==> info[i].friend != info[j].friend
  }

  /** Rows with a talk precede rows without. */
  predicate MessagesFirst(info: seq<Entry>)
  {
    forall i, j :: 0 <= i < j < |info| && info[j].time.Some? ==> info[i].time.Some?
  }

  /** Rows with a talk are newest first; equal times keep the user order. */
  predicate NewestFirst(info: seq<Entry>, users: seq<User>)
  {
    forall i, j :: 0 <= i < j < |info| && info[i].time.Some? && info[j].time.Some? ==>
      info[i].time.value > info[j].time.value ||
      (info[i].time.value == info[j].time.value &&
       IndexOf(users, info[i].friend) < IndexOf(users, info[j].friend))
  }

  /** Rows without a talk keep the user order. */
  predicate SilentInUserOrder(info: seq<Entry>, users: seq<User>)
  {
    forall i, j :: 0 <= i < j < |info| && info[i].time.None? && info[j].time.None? ==>
      IndexOf(users, info[i].friend) < IndexOf(users, info[j].friend)
  }

  /** Everything the friends page promises about its list. */
  predicate FriendsListOk(info: seq<Entry>, users: seq<User>, talks: seq<Talk>, me: UserId)
  {
    ListsOthers(info, users, me) && OncePerFriend(info) &&
    (forall i :: 0 <= i < |info| ==> Summarizes(info[i], talks, me)) &&
    MessagesFirst(info) && NewestFirst(info, users) && SilentInUserOrder(info, users)
  }

  /** Descending by time; among equal times, ascending by `rank`. */
  predicate DescendingStable(r: seq<Summary>, rank: Summary -> int)
  {
    forall i, j :: 0 <= i < j < |r| ==>
      r[i].latest.time > r[j].latest.time || (r[i].latest.time == r[j].latest.time && rank(r[i]) < rank(r[j]))
  }

  /** `sorted(have, key=time, reverse=True)`: a stable sort, newest first.
      Stability is stated against any ranking that increases along the
      input: rows with equal times come out in that ranking's order. */
  method SortByTimeDesc(s: seq<Summary>, ghost rank: Summary -> int) returns (r: seq<Summary>)
    requires forall i, j :: 0 <= i < j < |s| ==> rank(s[i]) < rank(s[j])
    ensures multiset(r) == multiset(s)
    ensures DescendingStable(r, rank)
  {
    r := [];
    for n := 0 to |s|
      invariant multiset(r) == multiset(s[..n])
      invariant DescendingStable(r, rank)
    {
      var x := s[n];
      var k := InsertionPoint(r, x);
      RanksBelow(s, n, r, rank);
      InsertKeepsOrder(r, k, x, rank);
      InsertAdds(r, k, x);
      assert s[..n + 1] == s[..n] + [x];
      r := r[..k] + [x] + r[k..];
    }
    assert s[..|s|] == s;
  }

  /** Inserting `x` anywhere adds exactly `x`. */
  lemma InsertAdds(r: seq<Summary>, k: nat, x: Summary)
    requires k <= |r|
    ensures multiset(r[..k] + [x] + r[k..]) == multiset(r) + multiset{x}
  {
    assert r == r[..k] + r[k..];
  }

  /** Where `x` goes in a newest-first sequence: after every row at least as
      new as `x`, before the first older one. */
  method InsertionPoint(r: seq<Summary>, x: Summary) returns (k: nat)
    requires forall i, j :: 0 <= i < j < |r| ==> r[i].latest.time >= r[j].latest.time
    ensures k <= |r|
    ensures forall m :: 0 <= m < k ==> r[m].latest.time >= x.latest.time
    ensures forall m :: k <= m < |r| ==> r[m].latest.time < x.latest.time
  {
    k := 0;
    while k < |r| && r[k].latest.time >= x.latest.time
      invariant k <= |r|
      invariant forall m :: 0 <= m < k ==> r[m].latest.time >= x.latest.time
    {
      k := k + 1;
    }
  }

  /** The rows already sorted all come from the input before position n, so
      they rank below the input's row n. */
  lemma RanksBelow(s: seq<Summary>, n: nat, r: seq<Summary>, rank: Summary -> int)
    requires n < |s|
    requires forall i, j :: 0 <= i < j < |s| ==> rank(s[i]) < rank(s[j])
    requires multiset(r) == multiset(s[..n])
    ensures forall m :: 0 <= m < |r| ==> rank(r[m]) < rank(s[n])
  {
    forall m | 0 <= m < |r| ensures rank(r[m]) < rank(s[n]) {
      assert r[m] in multiset(s[..n]);
      var p :| 0 <= p < n && s[p] == r[m];
    }
  }

  /** Inserting `x` after every row at least as new and before every older
      one keeps the order, when `x` ranks after every row present. */
  lemma InsertKeepsOrder(r: seq<Summary>, k: nat, x: Summary, rank: Summary -> int)
    requires DescendingStable(r, rank)
    requires k <= |r|
    requires forall m :: 0 <= m < k ==> r[m].latest.time >= x.latest.time
    requires forall m :: k <= m < |r| ==> r[m].latest.time < x.latest.time
    requires forall m :: 0 <= m < |r| ==> rank(r[m]) < rank(x)
    ensures DescendingStable(r[..k] + [x] + r[k..], rank)
  {
    var t := r[..k] + [x] + r[k..];
    forall i, j | 0 <= i < j < |t|
      ensures t[i].latest.time > t[j].latest.time || (t[i].latest.time == t[j].latest.time && rank(t[i]) < rank(t[j]))
    {
      if j < k {
        assert t[i] == r[i] && t[j] == r[j];
      } else if j == k {
        assert t[i] == r[i] && t[j] == x;
      } else if i == k {
        assert t[i] == x && t[j] == r[j - 1];
      } else if i < k {
        assert t[i] == r[i] && t[j] == r[j - 1];
      } else {
        assert t[i] == r[i - 1] && t[j] == r[j - 1];
      }
    }
  }

  /** The user enumeration order, as a ranking of collected rows. */
  function UserOrder(users: seq<User>): Summary -> int
  {
    (x: Summary) => IndexOf(users, x.friend)
  }

  /** The rows of a sorted with-message list. */
  function Entries(sorted: seq<Summary>): (r: seq<Entry>)
    ensures |r| == |sorted|
    ensures forall k :: 0 <= k < |r| ==> r[k] == AsEntry(sorted[k])
  {
    seq(|sorted|, k requires 0 <= k < |sorted| => AsEntry(sorted[k]))
  }

  /** `info.extend(have); info.extend(none)`: the sorted with-message rows,
      then the silent ones. */
  function Assemble(sorted: seq<Summary>, none: seq<Entry>): (r: seq<Entry>)
    ensures |r| == |sorted| + |none|
    ensures forall k :: 0 <= k < |sorted| ==> r[k] == AsEntry(sorted[k])
    ensures forall k :: |sorted| <= k < |r| ==> r[k] == none[k - |sorted|]
  {
    Entries(sorted) + none
  }

  /** `friends(request)`: the rows of the friends page of user `me`. Every
      other user is looked up once; the newest talk of the pair decides in
      which list the user lands. */
  method Friends(users: seq<User>, talks: seq<Talk>, me: UserId) returns (info: seq<Entry>)
    requires DistinctIds(users)
    ensures ListsOthers(info, users, me)
    ensures OncePerFriend(info)
    ensures forall i :: 0 <= i < |info| ==> Summarizes(info[i], talks, me)
    ensures MessagesFirst(info)
    ensures NewestFirst(info, users)
    ensures SilentInUserOrder(info, users)
  {
    var have: seq<Summary> := [];
    var none: seq<Entry> := [];
    for i := 0 to |users|
      invariant HaveRows(users, talks, me, i, have)
      invariant NoneRows(users, talks, me, i, none)
      invariant Apart(have, none)
      invariant Covered(users, me, i, have, none)
    {
      var friend := users[i];
      if friend.id != me {
        var latest := Latest(talks, me, friend.id);
        if latest.Some? {
          var row := Summary(friend, latest.value);
          CollectHave(users, talks, me, i, have, none, row);
          have := have + [row];
        } else {
          var row := Entry(friend, None, None);
          CollectNone(users, talks, me, i, have, none, row);
          none := none + [row];
        }
      }
    }
    assert forall a, b :: 0 <= a < b < |have| ==> UserOrder(users)(have[a]) < UserOrder(users)(have[b]);
    var sorted := SortByTimeDesc(have, UserOrder(users));
    info := Assemble(sorted, none);
    Assembled(users, talks, me, have, none, sorted);
  }

  /** The with-message rows collected from users[..i]: other users, in user
      order, each with the newest talk of the pair. */
  predicate HaveRows(users: seq<User>, talks: seq<Talk>, me: UserId, i: nat, have: seq<Summary>)
  {
    (forall a :: 0 <= a < |have| ==>
      have[a].friend in users && have[a].friend.id != me &&
      IndexOf(users, have[a].friend) < i && SummaryOk(have[a], talks, me)) &&
    (forall a, b :: 0 <= a < b < |have| ==>
      IndexOf(users, have[a].friend) < IndexOf(users, have[b].friend))
  }

  /** The silent rows collected from users[..i]: other users, in user order,
      who never talked with `me`. */
  predicate NoneRows(users: seq<User>, talks: seq<Talk>, me: UserId, i: nat, none: seq<Entry>)
  {
    (forall b :: 0 <= b < |none| ==>
      none[b].friend in users && none[b].friend.id != me &&
      IndexOf(users, none[b].friend) < i && none[b].body.None? && none[b].time.None? &&
      forall t :: t in talks ==> !Between(t, me, none[b].friend.id)) &&
    (forall a, b :: 0 <= a < b < |none| ==>
      IndexOf(users, none[a].friend) < IndexOf(users, none[b].friend))
  }

  /** No user is in both lists. */
  predicate Apart(have: seq<Summary>, none: seq<Entry>)
  {
    forall a, b :: 0 <= a < |have| && 0 <= b < |none| ==> have[a].friend != none[b].friend
  }

  /** Every other user among users[..i] is in one of the lists. */
  predicate Covered(users: seq<User>, me: UserId, i: nat, have: seq<Summary>, none: seq<Entry>)
  {
    forall k :: 0 <= k < i && k < |users| && users[k].id != me ==>
      (exists a :: 0 <= a < |have| && have[a].friend == users[k]) ||
      (exists b :: 0 <= b < |none| && none[b].friend == users[k])
  }

  /** User i, who talked with `me`, joins the with-message rows. */
  lemma CollectHave(users: seq<User>, talks: seq<Talk>, me: UserId, i: nat,
                    have: seq<Summary>, none: seq<Entry>, row: Summary)
    requires DistinctIds(users) && i < |users|
    requires row.friend == users[i] && users[i].id != me && SummaryOk(row, talks, me)
    requires HaveRows(users, talks, me, i, have) && NoneRows(users, talks, me, i, none)
    requires Apart(have, none) && Covered(users, me, i, have, none)
    ensures HaveRows(users, talks, me, i + 1, have + [row]) && NoneRows(users, talks, me, i + 1, none)
    ensures Apart(have + [row], none) && Covered(users, me, i + 1, have + [row], none)
  {
    IndexOfDistinct(users, i);
    HaveStep(users, talks, me, i, have, row);
    NoneWiden(users, talks, me, i, none);
    ApartHave(users, talks, me, i, have, none, row);
    CoveredHave(users, me, i, have, none, row);
  }

  /** User i, who never talked with `me`, joins the silent rows. */
  lemma CollectNone(users: seq<User>, talks: seq<Talk>, me: UserId, i: nat,
                    have: seq<Summary>, none: seq<Entry>, row: Entry)
    requires DistinctIds(users) && i < |users|
    requires row == Entry(users[i], None, None) && users[i].id != me
    requires forall t :: t in talks ==> !Between(t, me, users[i].id)
    requires HaveRows(users, talks, me, i, have) && NoneRows(users, talks, me, i, none)
    requires Apart(have, none) && Covered(users, me, i, have, none)
    ensures HaveRows(users, talks, me, i + 1, have) && NoneRows(users, talks, me, i + 1, none + [row])
    ensures Apart(have, none + [row]) && Covered(users, me, i + 1, have, none + [row])
  {
    IndexOfDistinct(users, i);
    NoneStep(users, talks, me, i, none, row);
    HaveWiden(users, talks, me, i, have);
    ApartNone(users, talks, me, i, have, none, row);
    CoveredNone(users, me, i, have, none, row);
  }

  /** With distinct keys, user i is found at position i. */
  lemma IndexOfDistinct(users: seq<User>, i: nat)
    requires DistinctIds(users) && i < |users|
    ensures IndexOf(users, users[i]) == i
  {
    var k := IndexOf(users, users[i]);
    assert users[k].id == users[i].id;
  }

  lemma HaveStep(users: seq<User>, talks: seq<Talk>, me: UserId, i: nat, have: seq<Summary>, row: Summary)
    requires i < |users| && row.friend == users[i] && IndexOf(users, users[i]) == i
    requires row.friend.id != me && SummaryOk(row, talks, me)
    requires HaveRows(users, talks, me, i, have)
    ensures HaveRows(users, talks, me, i + 1, have + [row])
  {
    var have' := have + [row];
    forall a | 0 <= a < |have'|
      ensures have'[a].friend in users && have'[a].friend.id != me
      ensures IndexOf(users, have'[a].friend) < i + 1 && SummaryOk(have'[a], talks, me)
    {
      if a < |have| { assert have'[a] == have[a]; }
    }
    forall a, b | 0 <= a < b < |have'|
      ensures IndexOf(users, have'[a].friend) < IndexOf(users, have'[b].friend)
    {
      assert have'[a] == have[a];
    }
  }

  lemma NoneStep(users: seq<User>, talks: seq<Talk>, me: UserId, i: nat, none: seq<Entry>, row: Entry)
    requires i < |users| && row == Entry(users[i], None, None) && IndexOf(users, users[i]) == i
    requires users[i].id != me
    requires forall t :: t in talks ==> !Between(t, me, users[i].id)
    requires NoneRows(users, talks, me, i, none)
    ensures NoneRows(users, talks, me, i + 1, none + [row])
  {
    var none' := none + [row];
    forall b | 0 <= b < |none'|
      ensures none'[b].friend in users && none'[b].friend.id != me
      ensures IndexOf(users, none'[b].friend) < i + 1
      ensures none'[b].body.None? && none'[b].time.None?
      ensures forall t :: t in talks ==> !Between(t, me, none'[b].friend.id)
    {
      if b < |none| { assert none'[b] == none[b]; }
    }
    forall a, b | 0 <= a < b < |none'|
      ensures IndexOf(users, none'[a].friend) < IndexOf(users, none'[b].friend)
    {
      assert none'[a] == none[a];
    }
  }

  lemma HaveWiden(users: seq<User>, talks: seq<Talk>, me: UserId, i: nat, have: seq<Summary>)
    requires HaveRows(users, talks, me, i, have)
    ensures HaveRows(users, talks, me, i + 1, have)
  {
  }

  lemma NoneWiden(users: seq<User>, talks: seq<Talk>, me: UserId, i: nat, none: seq<Entry>)
    requires NoneRows(users, talks, me, i, none)
    ensures NoneRows(users, talks, me, i + 1, none)
  {
  }

  lemma ApartHave(users: seq<User>, talks: seq<Talk>, me: UserId, i: nat,
                  have: seq<Summary>, none: seq<Entry>, row: Summary)
    requires i < |users| && row.friend == users[i] && IndexOf(users, users[i]) == i
    requires NoneRows(users, talks, me, i, none) && Apart(have, none)
    ensures Apart(have + [row], none)
  {
    var have' := have + [row];
    forall a, b | 0 <= a < |have'| && 0 <= b < |none| ensures have'[a].friend != none[b].friend {
      if a < |have| { assert have'[a] == have[a]; }
    }
  }

  lemma ApartNone(users: seq<User>, talks: seq<Talk>, me: UserId, i: nat,
                  have: seq<Summary>, none: seq<Entry>, row: Entry)
    requires i < |users| && row.friend == users[i] && IndexOf(users, users[i]) == i
    requires HaveRows(users, talks, me, i, have) && Apart(have, none)
    ensures Apart(have, none + [row])
  {
    var none' := none + [row];
    forall a, b | 0 <= a < |have| && 0 <= b < |none'| ensures have[a].friend != none'[b].friend {
      if b < |none| { assert none'[b] == none[b]; }
    }
  }

  /** Adding user i to the with-message rows covers users[..i+1]. */
  lemma CoveredHave(users: seq<User>, me: UserId, i: nat, have: seq<Summary>, none: seq<Entry>, row: Summary)
    requires i < |users| && row.friend == users[i]
    requires Covered(users, me, i, have, none)
    ensures Covered(users, me, i + 1, have + [row], none)
  {
    var have' := have + [row];
    forall k | 0 <= k < i + 1 && users[k].id != me
      ensures (exists a :: 0 <= a < |have'| && have'[a].friend == users[k]) ||
              (exists b :: 0 <= b < |none| && none[b].friend == users[k])
    {
      if k == i {
        assert have'[|have|].friend == users[k];
      } else if b :| 0 <= b < |none| && none[b].friend == users[k] {
      } else {
        var a :| 0 <= a < |have| && have[a].friend == users[k];
        assert have'[a].friend == users[k];
      }
    }
  }

  /** Adding user i to the silent rows covers users[..i+1]. */
  lemma CoveredNone(users: seq<User>, me: UserId, i: nat, have: seq<Summary>, none: seq<Entry>, row: Entry)
    requires i < |users| && row.friend == users[i]
    requires Covered(users, me, i, have, none)
    ensures Covered(users, me, i + 1, have, none + [row])
  {
    var none' := none + [row];
    forall k | 0 <= k < i + 1 && users[k].id != me
      ensures (exists a :: 0 <= a < |have| && have[a].friend == users[k]) ||
              (exists b :: 0 <= b < |none'| && none'[b].friend == users[k])
    {
      if k == i {
        assert none'[|none|].friend == users[k];
      } else if a :| 0 <= a < |have| && have[a].friend == users[k] {
      } else {
        var b :| 0 <= b < |none| && none[b].friend == users[k];
        assert none'[b].friend == users[k];
      }
    }
  }

  /** The collected rows, the with-message ones sorted, then concatenated,
      make the list the friends page promises. */
  lemma Assembled(users: seq<User>, talks: seq<Talk>, me: UserId,
                  have: seq<Summary>, none: seq<Entry>, sorted: seq<Summary>)
    requires HaveRows(users, talks, me, |users|, have)
    requires NoneRows(users, talks, me, |users|, none)
    requires Apart(have, none) && Covered(users, me, |users|, have, none)
    requires multiset(sorted) == multiset(have)
    requires DescendingStable(sorted, UserOrder(users))
    ensures ListsOthers(Assemble(sorted, none), users, me)
    ensures OncePerFriend(Assemble(sorted, none))
    ensures forall i :: 0 <= i < |Assemble(sorted, none)| ==> Summarizes(Assemble(sorted, none)[i], talks, me)
    ensures MessagesFirst(Assemble(sorted, none))
    ensures NewestFirst(Assemble(sorted, none), users)
    ensures SilentInUserOrder(Assemble(sorted, none), users)
  {
    AssembledRows(users, talks, me, have, none, sorted);
    AssembledComplete(users, me, have, none, sorted);
    AssembledOnce(users, talks, me, have, none, sorted);
    AssembledOrder(users, none, sorted);
  }

  /** Each sorted row is one of the collected rows. */
  lemma FromCollected(have: seq<Summary>, sorted: seq<Summary>, i: nat)
    requires multiset(sorted) == multiset(have)
    requires i < |sorted|
    ensures exists a :: 0 <= a < |have| && have[a] == sorted[i]
  {
    assert sorted[i] in multiset(have);
  }

  /** Rows of the assembled list are other users' rows, and each reports
      the newest talk of its pair. */
  lemma AssembledRows(users: seq<User>, talks: seq<Talk>, me: UserId,
                      have: seq<Summary>, none: seq<Entry>, sorted: seq<Summary>)
    requires HaveRows(users, talks, me, |users|, have)
    requires NoneRows(users, talks, me, |users|, none)
    requires multiset(sorted) == multiset(have)
    ensures forall i :: 0 <= i < |Assemble(sorted, none)| ==>
      Assemble(sorted, none)[i].friend in users && Assemble(sorted, none)[i].friend.id != me &&
      Summarizes(Assemble(sorted, none)[i], talks, me)
  {
    var info := Assemble(sorted, none);
    var n := |sorted|;
    forall i | 0 <= i < |info|
      ensures info[i].friend in users && info[i].friend.id != me
      ensures Summarizes(info[i], talks, me)
    {
      if i < n {
        FromCollected(have, sorted, i);
        var a :| 0 <= a < |have| && have[a] == sorted[i];
        assert SummaryOk(have[a], talks, me);
        NewestOfLatest(talks, me, have[a].friend.id, have[a].latest);
        assert info[i] == AsEntry(have[a]);
      } else {
        assert info[i] == none[i - n];
      }
    }
  }

  /** Every other user has a row in the assembled list. */
  lemma AssembledComplete(users: seq<User>, me: UserId,
                          have: seq<Summary>, none: seq<Entry>, sorted: seq<Summary>)
    requires Covered(users, me, |users|, have, none)
    requires multiset(sorted) == multiset(have)
    ensures forall u :: u in users && u.id != me ==>
      exists i :: 0 <= i < |Assemble(sorted, none)| && Assemble(sorted, none)[i].friend == u
  {
    var info := Assemble(sorted, none);
    var n := |sorted|;
    forall u | u in users && u.id != me ensures exists i :: 0 <= i < |info| && info[i].friend == u {
      var k :| 0 <= k < |users| && users[k] == u;
      if b :| 0 <= b < |none| && none[b].friend == u {
        assert info[n + b].friend == u;
      } else {
        var a :| 0 <= a < |have| && have[a].friend == u;
        assert have[a] in multiset(sorted);
        var i :| 0 <= i < n && sorted[i] == have[a];
        assert info[i].friend == u;
      }
    }
  }

  /** No user has two rows in the assembled list. */
  lemma AssembledOnce(users: seq<User>, talks: seq<Talk>, me: UserId,
                      have: seq<Summary>, none: seq<Entry>, sorted: seq<Summary>)
    requires HaveRows(users, talks, me, |users|, have)
    requires NoneRows(users, talks, me, |users|, none)
    requires Apart(have, none)
    requires multiset(sorted) == multiset(have)
    requires DescendingStable(sorted, UserOrder(users))
    ensures OncePerFriend(Assemble(sorted, none))
  {
    var info := Assemble(sorted, none);
    var n := |sorted|;
    forall i, j | 0 <= i < j < |info| ensures info[i].friend != info[j].friend {
      if j < n {
        FromCollected(have, sorted, i);
        FromCollected(have, sorted, j);
        var a :| 0 <= a < |have| && have[a] == sorted[i];
        var b :| 0 <= b < |have| && have[b] == sorted[j];
      } else if i < n {
        FromCollected(have, sorted, i);
        assert info[j] == none[j - n];
      } else {
        assert info[i] == none[i - n] && info[j] == none[j - n];
      }
    }
  }

  /** The assembled list is ordered as the friends page promises. */
  lemma AssembledOrder(users: seq<User>, none: seq<Entry>, sorted: seq<Summary>)
    requires forall b :: 0 <= b < |none| ==> none[b].time.None?
    requires forall a, b :: 0 <= a < b < |none| ==>
      IndexOf(users, none[a].friend) < IndexOf(users, none[b].friend)
    requires DescendingStable(sorted, UserOrder(users))
    ensures MessagesFirst(Assemble(sorted, none))
    ensures NewestFirst(Assemble(sorted, none), users)
    ensures SilentInUserOrder(Assemble(sorted, none), users)
  {
    var info := Assemble(sorted, none);
    var n := |sorted|;
    forall i, j | 0 <= i < j < |info| && info[j].time.Some? ensures info[i].time.Some? {
      assert j < n;
    }
    forall i, j | 0 <= i < j < |info| && info[i].time.Some? && info[j].time.Some?
      ensures info[i].time.value > info[j].time.value ||
              (info[i].time.value == info[j].time.value &&
               IndexOf(users, info[i].friend) < IndexOf(users, info[j].friend))
    {
      assert j < n;
      assert UserOrder(users)(sorted[i]) == IndexOf(users, sorted[i].friend);
      assert UserOrder(users)(sorted[j]) == IndexOf(users, sorted[j].friend);
    }
    forall i, j | 0 <= i < j < |info| && info[i].time.None? && info[j].time.None?
      ensures IndexOf(users, info[i].friend) < IndexOf(users, info[j].friend)
    {
      assert i >= n;
      assert info[i] == none[i - n] && info[j] == none[j - n];
    }
  }
}
