/** One firing of the daily report: render the document, read the chat ids of
    all subscribers, then try to send the document to each of them in turn.
    A failed send to one chat is caught and logged and the loop goes on with
    the next; the number of successful sends is counted. Whether one send
    succeeds is outside the bot's control, so it is a parameter: `sent(c)`
    tells whether the transport accepted the document for chat `c`. */
module Dispatch {
  import opened Optional
  import opened Registry

  /** One attempted send, as the log records it. */
  datatype Attempt = Attempt(chat: ChatId, ok: bool)

  /** How many of `users` receive the document: the reference count. */
  function CountDelivered(users: seq<ChatId>, sent: ChatId -> bool): (n: nat)
    ensures n <= |users|
    ensures n == |users| <==> forall i :: 0 <= i < |users| ==> sent(users[i])
    ensures n == 0 <==> forall i :: 0 <= i < |users| ==> !sent(users[i])
    decreases |users|
  {
    if |users| == 0 then 0
    else
      var rest := CountDelivered(users[1..], sent);
      assert forall i :: 1 <= i < |users| ==> users[i] == users[1..][i - 1];
      (if sent(users[0]) then 1 else 0) + rest
  }

  /** The send loop. Every chat of `users` is attempted exactly once, in the
      order given, whatever happened to the chats before it; `delivered` is the
      number of attempts that succeeded. */
  method SendToAll(users: seq<ChatId>, sent: ChatId -> bool) returns (log: seq<Attempt>, delivered: nat)
    ensures |log| == |users|
    ensures forall i :: 0 <= i < |users| ==> log[i] == Attempt(users[i], sent(users[i]))
    ensures delivered == CountDelivered(users, sent)
    ensures delivered <= |users|
  {
    log := [];
    delivered := 0;
    var i := 0;
    while i < |users|
      invariant 0 <= i <= |users|
      invariant |log| == i
      invariant forall k :: 0 <= k < i ==> log[k] == Attempt(users[k], sent(users[k]))
      invariant delivered + CountDelivered(users[i..], sent) == CountDelivered(users, sent)
    {
      var chat := users[i];
      var ok := sent(chat);
      if ok {
        delivered := delivered + 1;
      }
      log := log + [Attempt(chat, ok)];
      assert users[i..][1..] == users[i + 1..];
      i := i + 1;
    }
    assert users[i..] == [];
  }

  /** No chat id occurs twice. */
  predicate Distinct(users: seq<ChatId>) {
    forall i, j :: 0 <= i < j < |users| ==> users[i] != users[j]
  }

  lemma DistinctTail(users: seq<ChatId>)
    requires Distinct(users) && |users| > 0
    ensures Distinct(users[1..])
    ensures users[0] !in users[1..]
  {
    var rest := users[1..];
    forall i, j | 0 <= i < j < |rest|
      ensures rest[i] != rest[j]
    {
      assert rest[i] == users[i + 1] && rest[j] == users[j + 1];
    }
    forall k | 0 <= k < |rest|
      ensures rest[k] != users[0]
    {
      assert rest[k] == users[k + 1];
    }
  }

  /** The chats of `users` whose send succeeded. */
  function Reached(users: seq<ChatId>, sent: ChatId -> bool): set<ChatId> {
    set c | c in users && sent(c)
  }

  lemma ReachedSplit(users: seq<ChatId>, sent: ChatId -> bool)
    requires |users| > 0
    ensures Reached(users, sent)
         == (if sent(users[0]) then {users[0]} else {}) + Reached(users[1..], sent)
  {
    assert users == [users[0]] + users[1..];
    forall c
      ensures c in Reached(users, sent) <==> c in (if sent(users[0]) then {users[0]} else {}) + Reached(users[1..], sent)
    {
      assert c in users <==> c == users[0] || c in users[1..];
    }
  }

  /** With no chat listed twice, the count is the number of distinct chats
      whose send succeeded. */
  lemma {:induction false} CountDeliveredIsSuccessfulChats(users: seq<ChatId>, sent: ChatId -> bool)
    requires Distinct(users)
    ensures CountDelivered(users, sent) == |Reached(users, sent)|
    decreases |users|
  {
    if |users| > 0 {
      DistinctTail(users);
      CountDeliveredIsSuccessfulChats(users[1..], sent);
      ReachedSplit(users, sent);
      assert users[0] !in Reached(users[1..], sent);
    }
  }

  /** `users` is what the query for the subscribers' chat ids returns: every
      subscriber once, in some order. */
  predicate ListsSubscribers(users: seq<ChatId>, reg: Subscribers) {
    Distinct(users) && (set c | c in users) == reg.Keys
  }

  /** Counted over the subscriber table: the sends that succeed are exactly
      one per subscriber whose chat accepted the document, whatever order the
      query returned them in. */
  lemma DeliveredPerSubscriber(users: seq<ChatId>, reg: Subscribers, sent: ChatId -> bool)
    requires ListsSubscribers(users, reg)
    ensures CountDelivered(users, sent) == |set c | c in reg && sent(c)|
    ensures |users| == |reg|
  {
    CountDeliveredIsSuccessfulChats(users, sent);
    assert Reached(users, sent) == (set c | c in reg && sent(c));
    DistinctLength(users);
  }

  /** A sequence without repetitions has as many elements as its set. */
  lemma {:induction false} DistinctLength(users: seq<ChatId>)
    requires Distinct(users)
    ensures |set c | c in users| == |users|
    decreases |users|
  {
    if |users| > 0 {
      DistinctTail(users);
      DistinctLength(users[1..]);
      assert users == [users[0]] + users[1..];
      assert (set c | c in users) == {users[0]} + (set c | c in users[1..]);
    }
  }

  /** Three subscribers, the second unreachable: two deliveries. */
  lemma SecondOfThreeFails(a: ChatId, b: ChatId, c: ChatId, sent: ChatId -> bool)
    requires sent(a) && !sent(b) && sent(c)
    ensures CountDelivered([a, b, c], sent) == 2
  {
    assert [a, b, c][1..] == [b, c];
    assert [b, c][1..] == [c];
  }

  /** What one firing amounts to. */
  datatype Firing =
    | RenderFailed
      // rendering the document raised: nothing is read or sent
    | QueryFailed
      // reading the subscribers raised after the document was written
    | Completed(log: seq<Attempt>, delivered: nat, total: nat)
      // every listed chat attempted; `delivered` of `total` succeeded

  /** The whole firing. `rendered` says whether rendering succeeded and
      `users` is the result of the subscriber query, `None` when it raised.
      Besides the outcome it reports whether the document file was written
      and whether it was removed again; removal comes only after the send
      loop, so a failing query leaves the file behind. */
  method DailyFiring(rendered: bool, users: Option<seq<ChatId>>, sent: ChatId -> bool)
    returns (f: Firing, written: bool, removed: bool)
    ensures !rendered ==> f == RenderFailed
    ensures rendered && users.None? ==> f == QueryFailed
    ensures rendered && users.Some? ==> f.Completed?
    ensures f.Completed? ==> users.Some? && f.total == |users.value|
    ensures f.Completed? ==> |f.log| == f.total && f.delivered <= f.total
    ensures f.Completed? ==> forall i :: 0 <= i < f.total ==> f.log[i] == Attempt(users.value[i], sent(users.value[i]))
    ensures f.Completed? ==> f.delivered == CountDelivered(users.value, sent)
    ensures written <==> rendered
    ensures removed <==> f.Completed?
    ensures written && !removed <==> f == QueryFailed
  {
    written := rendered;
    removed := false;
    if !rendered {
      return RenderFailed, written, removed;
    }
    if users.None? {
      return QueryFailed, written, removed;
    }
    var log, delivered := SendToAll(users.value, sent);
    f := Completed(log, delivered, |users.value|);
    removed := true;
  }
}
