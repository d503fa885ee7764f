/** The subscriber table filled by the /start command: one row per chat id
    (the primary key) with the instant of its first registration. The insert
    ignores a chat id that is already present, so registering again changes
    nothing. */
module Registry {
  import opened Clock

  type ChatId = int

  type Subscribers = map<ChatId, Instant>

  /** One /start from chat `id` at `now`. */
  function Register(reg: Subscribers, id: ChatId, now: Instant): (r: Subscribers)
    ensures r.Keys == reg.Keys + {id}
    ensures forall c :: c in reg ==> r[c] == reg[c]
    ensures id !in reg ==> r[id] == now
  {
    if id in reg then reg else reg[id := now]
  }

  /** Registering the same chat twice is the same as registering it once,
      and the first registration instant is the one kept. */
  lemma RegisterIdempotent(reg: Subscribers, id: ChatId, first: Instant, again: Instant)
    ensures Register(Register(reg, id, first), id, again) == Register(reg, id, first)
  {
  }

  /** Registrations of two different chats can happen in either order. */
  lemma RegisterCommutes(reg: Subscribers, a: ChatId, b: ChatId, ta: Instant, tb: Instant)
    requires a != b
    ensures Register(Register(reg, a, ta), b, tb) == Register(Register(reg, b, tb), a, ta)
  {
  }

  /** A /start command: who sent it and when. */
  datatype Start = Start(chat: ChatId, at: Instant)

  /** The table after a series of /start commands, applied in order. */
  function RegisterAll(reg: Subscribers, starts: seq<Start>): Subscribers
    decreases |starts|
  {
    if |starts| == 0 then reg
    else RegisterAll(Register(reg, starts[0].chat, starts[0].at), starts[1..])
  }

  /** The chats that sent at least one of `starts`. */
  function Senders(starts: seq<Start>): set<ChatId> {
    set i | 0 <= i < |starts| :: starts[i].chat
  }

  /** After any series of /start commands the subscribers are exactly the
      chats already present plus those that sent one, however often; a chat
      keeps the instant of its earliest /start. */
  lemma {:induction false} RegisterAllContents(reg: Subscribers, starts: seq<Start>)
    ensures RegisterAll(reg, starts).Keys == reg.Keys + Senders(starts)
    ensures forall c :: c in reg ==> RegisterAll(reg, starts)[c] == reg[c]
    ensures forall i :: 0 <= i < |starts| && starts[i].chat !in reg
              && (forall k :: 0 <= k < i ==> starts[k].chat != starts[i].chat)
              ==> RegisterAll(reg, starts)[starts[i].chat] == starts[i].at
    decreases |starts|
  {
    if |starts| > 0 {
      var next := Register(reg, starts[0].chat, starts[0].at);
      var rest := starts[1..];
      RegisterAllContents(next, rest);
      assert Senders(starts) == {starts[0].chat} + Senders(rest) by {
        forall c | c in Senders(starts)
          ensures c in {starts[0].chat} + Senders(rest)
        {
          var i :| 0 <= i < |starts| && starts[i].chat == c;
          if i > 0 { assert rest[i - 1].chat == c; }
        }
        forall c | c in Senders(rest)
          ensures c in Senders(starts)
        {
          var i :| 0 <= i < |rest| && rest[i].chat == c;
          assert starts[i + 1].chat == c;
        }
      }
      forall i | 0 <= i < |starts| && starts[i].chat !in reg
          && (forall k :: 0 <= k < i ==> starts[k].chat != starts[i].chat)
        ensures RegisterAll(reg, starts)[starts[i].chat] == starts[i].at
      {
        if i > 0 {
          assert rest[i - 1] == starts[i];
          forall k | 0 <= k < i - 1
            ensures rest[k].chat != rest[i - 1].chat
          {
            assert rest[k] == starts[k + 1];
          }
        }
      }
    }
  }
}
