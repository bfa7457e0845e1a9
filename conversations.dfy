/** The conversation query shared by the talk room and the friends list:
    every talk between two users in either direction, ordered by time. */
module Conversations {
  import opened Models

  /** Talk `t` was sent from `a` to `b` or from `b` to `a`. */
  predicate Between(t: Talk, a: UserId, b: UserId)
  {
    (t.sender == a && t.recipient == b) || (t.sender == b && t.recipient == a)
  }

  /** The filter of the query: the talks between `a` and `b`, in store order. */
  function Exchanged(talks: seq<Talk>, a: UserId, b: UserId): (r: seq<Talk>)
    ensures forall t :: t in r <==> t in talks && Between(t, a, b)
  {
    if talks == [] then []
    else (if Between(talks[0], a, b) then [talks[0]] else []) + Exchanged(talks[1..], a, b)
  }

  /** The filter keeps each talk between `a` and `b` as often as the store
      holds it, and no other talk. */
  lemma {:induction false} ExchangedCounts(talks: seq<Talk>, a: UserId, b: UserId)
    ensures forall t :: multiset(Exchanged(talks, a, b))[t] == if Between(t, a, b) then multiset(talks)[t] else 0
  {
    if talks != [] {
      ExchangedCounts(talks[1..], a, b);
      assert talks == [talks[0]] + talks[1..];
    }
  }

  /** Non-decreasing by time. */
  predicate Ascending(s: seq<Talk>)
  {
    forall i, j :: 0 <= i < j < |s| ==> s[i].time <= s[j].time
  }

  /** Puts `t` into an ascending sequence, before the first talk that is not
      older than it. */
  function InsertByTime(t: Talk, s: seq<Talk>): (r: seq<Talk>)
    requires Ascending(s)
    ensures Ascending(r)
    ensures multiset(r) == multiset(s) + multiset{t}
  {
    if s == [] || t.time <= s[0].time then
      AscendingCons(t, s);
      [t] + s
    else
      var rest := InsertByTime(t, s[1..]);
      NoneOlder(s[0], t, s[1..], rest);
      AscendingCons(s[0], rest);
      assert s == [s[0]] + s[1..];
      [s[0]] + rest
  }

  /** A talk no newer than `t` and than every talk of `s` is no newer than
      any talk of a sequence holding `t` and the talks of `s`. */
  lemma NoneOlder(x: Talk, t: Talk, s: seq<Talk>, r: seq<Talk>)
    requires x.time <= t.time
    requires forall j :: 0 <= j < |s| ==> x.time <= s[j].time
    requires multiset(r) == multiset(s) + multiset{t}
    ensures forall j :: 0 <= j < |r| ==> x.time <= r[j].time
  {
    forall j | 0 <= j < |r| ensures x.time <= r[j].time {
      assert r[j] in multiset(r);
      if r[j] != t {
        assert r[j] in multiset(s);
        var k :| 0 <= k < |s| && s[k] == r[j];
      }
    }
  }

  /** A talk no newer than the head of an ascending sequence can lead it. */
  lemma AscendingCons(x: Talk, s: seq<Talk>)
    requires Ascending(s)
    requires forall j :: 0 <= j < |s| ==> x.time <= s[j].time
    ensures Ascending([x] + s)
  {
    forall i, j | 0 <= i < j < |[x] + s| ensures ([x] + s)[i].time <= ([x] + s)[j].time {
      if i > 0 { assert ([x] + s)[i] == s[i - 1]; }
      assert ([x] + s)[j] == s[j - 1];
    }
  }

  /** `order_by("time")`: the same talks, ascending by time. The database
      decides the order of talks with equal times; the contract leaves it
      open, and this definition happens to keep their store order. */
  function OrderByTime(s: seq<Talk>): (r: seq<Talk>)
    ensures Ascending(r)
    ensures multiset(r) == multiset(s)
  {
    if s == [] then []
    else
      assert s == [s[0]] + s[1..];
      InsertByTime(s[0], OrderByTime(s[1..]))
  }

  /** The conversation between `a` and `b` as the talk room shows it. */
  function Conversation(talks: seq<Talk>, a: UserId, b: UserId): (r: seq<Talk>)
    ensures Ascending(r)
    ensures multiset(r) == multiset(Exchanged(talks, a, b))
    ensures forall t :: t in r <==> t in talks && Between(t, a, b)
  {
    var r := OrderByTime(Exchanged(talks, a, b));
    assert forall t :: t in r <==> t in multiset(Exchanged(talks, a, b));
    r
  }

  /** `t` is a talk between `a` and `b` and no talk between them is newer. */
  predicate IsLatest(talks: seq<Talk>, a: UserId, b: UserId, t: Talk)
  {
    t in talks && Between(t, a, b) &&
    forall u :: u in talks && Between(u, a, b) ==> u.time <= t.time
  }

  /** Some talk between `a` and `b`, in one direction or the other, with
      this body and this time, is the newest of their conversation. */
  predicate NewestIs(talks: seq<Talk>, a: UserId, b: UserId, body: string, time: int)
  {
    IsLatest(talks, a, b, Talk(body, a, b, time)) || IsLatest(talks, a, b, Talk(body, b, a, time))
  }

  /** A talk that is the newest of the conversation shows as a body and a
      time of which `NewestIs` holds. */
  lemma NewestOfLatest(talks: seq<Talk>, a: UserId, b: UserId, t: Talk)
    requires IsLatest(talks, a, b, t)
    ensures NewestIs(talks, a, b, t.body, t.time)
  {
    assert t == Talk(t.body, t.sender, t.recipient, t.time);
  }

  /** No talk of an ascending sequence is newer than its last one. */
  lemma AscendingLast(s: seq<Talk>)
    requires Ascending(s) && s != []
    ensures forall u :: u in s ==> u.time <= s[|s| - 1].time
  {
    forall u | u in s ensures u.time <= s[|s| - 1].time {
      var k :| 0 <= k < |s| && s[k] == u;
    }
  }

  /** `order_by('time').last()`: the newest talk between `a` and `b`, or None
      when they never talked. Which of several equally new talks is returned
      is left open. */
  function Latest(talks: seq<Talk>, a: UserId, b: UserId): (r: Option<Talk>)
    ensures r.None? <==> forall t :: t in talks ==> !Between(t, a, b)
    ensures r.Some? ==> IsLatest(talks, a, b, r.value)
  {
    var conv := Conversation(talks, a, b);
    if conv == [] then
      None
    else
      var last := conv[|conv| - 1];
      assert last in conv;
      AscendingLast(conv);
      Some(last)
  }

  /** The query's filter does not depend on which of the two users asks. */
  lemma {:induction false} ExchangedSymmetric(talks: seq<Talk>, a: UserId, b: UserId)
    ensures Exchanged(talks, a, b) == Exchanged(talks, b, a)
  {
    if talks != [] {
      ExchangedSymmetric(talks[1..], a, b);
    }
  }

  /** Both users of a talk room see the very same conversation. */
  lemma ConversationSymmetric(talks: seq<Talk>, a: UserId, b: UserId)
    ensures Conversation(talks, a, b) == Conversation(talks, b, a)
  {
    ExchangedSymmetric(talks, a, b);
  }

  /** Storing a talk between `a` and `b` puts it in their conversation and
      leaves every other conversation as it was. */
  lemma {:induction false} ExchangedAppend(talks: seq<Talk>, t: Talk, a: UserId, b: UserId)
    ensures Exchanged(talks + [t], a, b)
         == Exchanged(talks, a, b) + (if Between(t, a, b) then [t] else [])
  {
    if talks == [] {
      assert talks + [t] == [t];
    } else {
      assert (talks + [t])[1..] == talks[1..] + [t];
      ExchangedAppend(talks[1..], t, a, b);
    }
  }
  /** A stored talk joins the conversation of its sender and recipient and
      leaves the conversation of every other pair as it was. */
  lemma PostJoinsConversation(talks: seq<Talk>, t: Talk, a: UserId, b: UserId)
    ensures t in Conversation(talks + [t], t.sender, t.recipient)
    ensures !Between(t, a, b) ==> Conversation(talks + [t], a, b) == Conversation(talks, a, b)
  {
    ExchangedAppend(talks, t, a, b);
    if !Between(t, a, b) {
      assert Exchanged(talks, a, b) + [] == Exchanged(talks, a, b);
    }
  }

  /** With a clock that never runs backwards, the talk just stored is the
      newest of its pair: the friends list reports its time. */
  lemma PostedIsNewest(talks: seq<Talk>, t: Talk)
    requires forall u :: u in talks ==> u.time <= t.time
    ensures Latest(talks + [t], t.sender, t.recipient).Some?
    ensures Latest(talks + [t], t.sender, t.recipient).value.time == t.time
  {
    var r := Latest(talks + [t], t.sender, t.recipient);
    assert t in talks + [t] && Between(t, t.sender, t.recipient);
    assert r.value in talks + [t];
  }
}
