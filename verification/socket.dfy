/**
  The socket server (src/pages/api/socket.ts): the set of connected socket
  ids, the broadcast of an admin event with per-socket acknowledgements and
  bounded retries, and the handlers that relay each client event.

  The asynchronous fan-out is modelled by an ack oracle: `reply(n, id)` is what
  socket `id` answers in attempt `n` (1-based). The retry delay is not
  modelled, only the order of attempts.
 */
module Socket {
  import opened Scores
  import opened Protocol

  // ---------------------------------------------------------------------
  // The registry of connected ids: a set kept in insertion order.

  predicate NoDuplicates(s: seq<string>)
  {
    forall i, j :: 0 <= i < j < |s| ==> s[i] != s[j]
  }

  /** `connectedSockets.add(id)`. */
  function Connect(reg: seq<string>, id: string): (r: seq<string>)
  {
    if id in reg then reg else reg + [id]
  }

  /** `connectedSockets.delete(id)`. */
  function Disconnect(reg: seq<string>, id: string): (r: seq<string>)
    decreases |reg|
  {
    if |reg| == 0 then []
    else if reg[0] == id then Disconnect(reg[1..], id)
    else [reg[0]] + Disconnect(reg[1..], id)
  }

  /** A connect registers the id and leaves every other id as it was. */
  lemma ConnectAdds(reg: seq<string>, id: string)
    requires NoDuplicates(reg)
    ensures id in Connect(reg, id) && NoDuplicates(Connect(reg, id))
    ensures forall x :: x != id ==> (x in Connect(reg, id) <==> x in reg)
    ensures reg == Connect(reg, id)[..|reg|]
  {
  }

  /** A disconnect unregisters the id and leaves every other id as it was. */
  lemma {:induction false} DisconnectRemoves(reg: seq<string>, id: string, x: string)
    requires NoDuplicates(reg)
    ensures id !in Disconnect(reg, id) && NoDuplicates(Disconnect(reg, id))
    ensures x != id ==> (x in Disconnect(reg, id) <==> x in reg)
    decreases |reg|
  {
    if |reg| > 0 {
      DisconnectRemoves(reg[1..], id, x);
      if reg[0] != id {
        DisconnectRemoves(reg[1..], id, reg[0]);
        assert reg[0] !in reg[1..];
      }
    }
  }

  // ---------------------------------------------------------------------
  // Acknowledgements.

  /** What a socket's ack callback receives: nothing (or a falsy value), or an
      object with a `received` flag. */
  datatype Reply = NoReply | Replied(received: bool)

  /** `clientAck && clientAck.received`. */
  predicate Acked(r: Reply)
  {
    r.Replied? && r.received
  }

  datatype AckResult = AckResult(socketId: string, ack: bool)

  /** One attempt's results, in target order. */
  function Results(ids: seq<string>, n: nat, reply: (nat, string) -> Reply): (rs: seq<AckResult>)
    ensures |rs| == |ids|
    ensures forall i :: 0 <= i < |ids| ==> rs[i] == AckResult(ids[i], Acked(reply(n, ids[i])))
  {
    seq(|ids|, i requires 0 <= i < |ids| => AckResult(ids[i], Acked(reply(n, ids[i]))))
  }

  /** The ids whose result is not an ack, in order. */
  function Unacked(rs: seq<AckResult>): seq<string>
    decreases |rs|
  {
    if |rs| == 0 then []
    else (if rs[0].ack then [] else [rs[0].socketId]) + Unacked(rs[1..])
  }

  /** An id is un-acked in an attempt exactly when it was targeted and did not
      acknowledge. */
  lemma {:induction false} UnackedMember(ids: seq<string>, n: nat, reply: (nat, string) -> Reply, x: string)
    ensures x in Unacked(Results(ids, n, reply)) <==> x in ids && !Acked(reply(n, x))
    decreases |ids|
  {
    if |ids| > 0 {
      UnackedMember(ids[1..], n, reply, x);
      assert Results(ids, n, reply)[1..] == Results(ids[1..], n, reply);
    }
  }

  /** The un-acked ids of an attempt keep the targets' order and have no
      duplicates when the targets have none. */
  lemma {:induction false} UnackedNoDuplicates(ids: seq<string>, n: nat, reply: (nat, string) -> Reply)
    requires NoDuplicates(ids)
    ensures NoDuplicates(Unacked(Results(ids, n, reply)))
    decreases |ids|
  {
    if |ids| > 0 {
      UnackedNoDuplicates(ids[1..], n, reply);
      assert Results(ids, n, reply)[1..] == Results(ids[1..], n, reply);
      UnackedMember(ids[1..], n, reply, ids[0]);
      assert ids[0] !in ids[1..];
    }
  }

  // ---------------------------------------------------------------------
  // The broadcast.

  datatype Outcome =
    | Ok(results: seq<AckResult>)
    | Error(results: seq<AckResult>, unacked: seq<string>)

  /** The outcome passed to the callback, and the targets of every attempt
      made (the "Attempt k ... to sockets" trace). */
  datatype Report = Report(outcome: Outcome, rounds: seq<seq<string>>)

  const DefaultMaxRetries := 3

  /** `attemptBroadcast(ids)` after `done` earlier attempts: send, collect the
      acks, and finish with `ok`, retry the un-acked ids while the attempt
      count is below `maxRetries`, or finish with `error`. */
  function Attempt(ids: seq<string>, done: nat, reply: (nat, string) -> Reply, maxRetries: int): Report
    decreases if maxRetries > done then maxRetries - done else 0
  {
    var n := done + 1;
    var results := Results(ids, n, reply);
    var unacked := Unacked(results);
    if |unacked| == 0 then Report(Ok(results), [ids])
    else if n < maxRetries then
      var rest := Attempt(unacked, n, reply, maxRetries);
      Report(rest.outcome, [ids] + rest.rounds)
    else Report(Error(results, unacked), [ids])
  }

  /** `broadcastAdminEvent`: the first attempt targets the whole registry. */
  function Broadcast(reg: seq<string>, reply: (nat, string) -> Reply, maxRetries: int): Report
  {
    Attempt(reg, 0, reply, maxRetries)
  }

  function Max(a: int, b: int): int
  {
    if a >= b then a else b
  }

  /** The shape of the trace: the first attempt targets `ids`, at least one and
      at most `max(1, maxRetries - done)` attempts are made, and each later
      attempt targets exactly the ids the previous one left un-acked. */
  lemma {:induction false} AttemptRounds(ids: seq<string>, done: nat, reply: (nat, string) -> Reply, maxRetries: int)
    ensures var rep := Attempt(ids, done, reply, maxRetries);
      1 <= |rep.rounds| <= Max(1, maxRetries - done) && rep.rounds[0] == ids
    ensures var rep := Attempt(ids, done, reply, maxRetries);
      forall k :: 0 < k < |rep.rounds| ==>
        rep.rounds[k] == Unacked(Results(rep.rounds[k - 1], done + k, reply))
    decreases if maxRetries > done then maxRetries - done else 0
  {
    var n := done + 1;
    var unacked := Unacked(Results(ids, n, reply));
    if |unacked| > 0 && n < maxRetries {
      AttemptRounds(unacked, n, reply, maxRetries);
      var rest := Attempt(unacked, n, reply, maxRetries);
      var rep := Attempt(ids, done, reply, maxRetries);
      assert rep.rounds == [ids] + rest.rounds;
      forall k | 0 < k < |rep.rounds|
        ensures rep.rounds[k] == Unacked(Results(rep.rounds[k - 1], done + k, reply))
      {
        if k > 1 {
          assert rep.rounds[k] == rest.rounds[k - 1] && rep.rounds[k - 1] == rest.rounds[k - 2];
        }
      }
    }
  }

  /** Every attempt after the first has at least one target, and targets only
      ids the attempt before it targeted: the target lists shrink. */
  lemma {:induction false} AttemptRoundsShrink(ids: seq<string>, done: nat, reply: (nat, string) -> Reply, maxRetries: int, k: int, x: string)
    ensures var rep := Attempt(ids, done, reply, maxRetries);
      0 < k < |rep.rounds| ==> |rep.rounds[k]| > 0 && (x in rep.rounds[k] ==> x in rep.rounds[k - 1])
    decreases if maxRetries > done then maxRetries - done else 0
  {
    var rep := Attempt(ids, done, reply, maxRetries);
    if 0 < k < |rep.rounds| {
      AttemptRounds(ids, done, reply, maxRetries);
      UnackedMember(rep.rounds[k - 1], done + k, reply, x);
      var n := done + 1;
      var unacked := Unacked(Results(ids, n, reply));
      assert |unacked| > 0 && n < maxRetries;
      var rest := Attempt(unacked, n, reply, maxRetries);
      assert rep.rounds == [ids] + rest.rounds;
      if k > 1 {
        AttemptRoundsShrink(unacked, n, reply, maxRetries, k - 1, x);
        assert rep.rounds[k] == rest.rounds[k - 1];
      }
    }
  }

  /** The verdict: `ok` exactly when the last attempt left nothing un-acked,
      with that attempt's results; otherwise `error` after the attempt count
      reached `maxRetries`, with the last attempt's results and un-acked ids. */
  lemma {:induction false} AttemptOutcome(ids: seq<string>, done: nat, reply: (nat, string) -> Reply, maxRetries: int)
    ensures var rep := Attempt(ids, done, reply, maxRetries);
      var last := |rep.rounds| - 1;
      last >= 0 &&
      var results := Results(rep.rounds[last], done + last + 1, reply);
      (rep.outcome.Ok? <==> |Unacked(results)| == 0) &&
      rep.outcome.results == results &&
      (rep.outcome.Error? ==> rep.outcome.unacked == Unacked(results) && done + last + 1 >= maxRetries)
    decreases if maxRetries > done then maxRetries - done else 0
  {
    var n := done + 1;
    var unacked := Unacked(Results(ids, n, reply));
    if |unacked| > 0 && n < maxRetries {
      AttemptOutcome(unacked, n, reply, maxRetries);
      var rest := Attempt(unacked, n, reply, maxRetries);
      var rep := Attempt(ids, done, reply, maxRetries);
      assert rep.rounds == [ids] + rest.rounds;
      assert rep.rounds[|rep.rounds| - 1] == rest.rounds[|rest.rounds| - 1];
    }
  }

  /** An id is targeted by the last attempt exactly when it was among the first
      attempt's targets and acknowledged in none of the attempts before. */
  lemma {:induction false} AttemptLastTargets(ids: seq<string>, done: nat, reply: (nat, string) -> Reply, maxRetries: int, x: string)
    ensures var rep := Attempt(ids, done, reply, maxRetries);
      |rep.rounds| >= 1 &&
      (x in rep.rounds[|rep.rounds| - 1] <==>
        x in ids && forall k :: done < k < done + |rep.rounds| ==> !Acked(reply(k, x)))
    decreases if maxRetries > done then maxRetries - done else 0
  {
    var n := done + 1;
    var unacked := Unacked(Results(ids, n, reply));
    AttemptRounds(ids, done, reply, maxRetries);
    if |unacked| > 0 && n < maxRetries {
      AttemptLastTargets(unacked, n, reply, maxRetries, x);
      UnackedMember(ids, n, reply, x);
      var rest := Attempt(unacked, n, reply, maxRetries);
      var rep := Attempt(ids, done, reply, maxRetries);
      assert rep.rounds == [ids] + rest.rounds;
      assert rep.rounds[|rep.rounds| - 1] == rest.rounds[|rest.rounds| - 1];
    }
  }

  /** What the callback learns from a broadcast of the registry: `ok` exactly
      when every registered id acknowledged in some attempt; otherwise `error`
      after `max(1, maxRetries)` attempts, naming exactly the registered ids
      that acknowledged in none of them. */
  lemma BroadcastVerdict(reg: seq<string>, reply: (nat, string) -> Reply, maxRetries: int, x: string)
    ensures var rep := Broadcast(reg, reply, maxRetries);
      |rep.rounds| >= 1 && rep.rounds[0] == reg &&
      (rep.outcome.Error? ==> |rep.rounds| == Max(1, maxRetries)) &&
      (rep.outcome.Error? ==>
        (x in rep.outcome.unacked <==> x in reg && forall k :: 1 <= k <= |rep.rounds| ==> !Acked(reply(k, x))))
    ensures var rep := Broadcast(reg, reply, maxRetries);
      rep.outcome.Ok? && x in reg ==> exists k :: 1 <= k <= |rep.rounds| && Acked(reply(k, x))
  {
    var rep := Broadcast(reg, reply, maxRetries);
    AttemptRounds(reg, 0, reply, maxRetries);
    AttemptOutcome(reg, 0, reply, maxRetries);
    AttemptLastTargets(reg, 0, reply, maxRetries, x);
    var last := |rep.rounds| - 1;
    UnackedMember(rep.rounds[last], last + 1, reply, x);
  }

  /** An attempt that leaves nothing un-acked is the last one, and the
      broadcast is `ok`; with `AttemptOutcome`, the broadcast is `ok` exactly
      when some attempt leaves nothing un-acked. */
  lemma CleanAttemptIsLast(reg: seq<string>, reply: (nat, string) -> Reply, maxRetries: int, k: int)
    ensures var rep := Broadcast(reg, reply, maxRetries);
      0 <= k < |rep.rounds| && |Unacked(Results(rep.rounds[k], k + 1, reply))| == 0 ==>
        k == |rep.rounds| - 1 && rep.outcome.Ok?
  {
    var rep := Broadcast(reg, reply, maxRetries);
    AttemptRounds(reg, 0, reply, maxRetries);
    AttemptOutcome(reg, 0, reply, maxRetries);
    if 0 <= k < |rep.rounds| - 1 {
      AttemptRoundsShrink(reg, 0, reply, maxRetries, k + 1, "");
    }
  }

  /** Under replies that do not change between attempts, an id is left
      un-acked by the last attempt exactly when the first attempt left it
      un-acked. */
  lemma StationaryUnacked(reg: seq<string>, reply: (nat, string) -> Reply, maxRetries: int, x: string)
    requires forall n: nat, x: string :: reply(n, x) == reply(1, x)
    ensures var rep := Broadcast(reg, reply, maxRetries);
      |rep.rounds| >= 1 &&
      (x in Unacked(Results(rep.rounds[|rep.rounds| - 1], |rep.rounds|, reply)) <==>
       x in Unacked(Results(reg, 1, reply)))
  {
    var rep := Broadcast(reg, reply, maxRetries);
    AttemptLastTargets(reg, 0, reply, maxRetries, x);
    var last := |rep.rounds| - 1;
    UnackedMember(rep.rounds[last], last + 1, reply, x);
    UnackedMember(reg, 1, reply, x);
    assert reply(last + 1, x) == reply(1, x);
  }

  /** The un-acked ids of the last attempt, as an `error` reports them. */
  function LastUnacked(rep: Report, reply: (nat, string) -> Reply): seq<string>
    requires |rep.rounds| >= 1
  {
    Unacked(Results(rep.rounds[|rep.rounds| - 1], |rep.rounds|, reply))
  }

  /** When every socket answers the same way in every attempt, retrying cannot
      help: the broadcast is `ok` exactly when the first attempt is. */
  lemma StationaryVerdict(reg: seq<string>, reply: (nat, string) -> Reply, maxRetries: int)
    requires forall n: nat, x: string :: reply(n, x) == reply(1, x)
    ensures Broadcast(reg, reply, maxRetries).outcome.Ok? <==> |Unacked(Results(reg, 1, reply))| == 0
  {
    var rep := Broadcast(reg, reply, maxRetries);
    AttemptOutcome(reg, 0, reply, maxRetries);
    var firstUnacked := Unacked(Results(reg, 1, reply));
    if |firstUnacked| > 0 {
      StationaryUnacked(reg, reply, maxRetries, firstUnacked[0]);
      assert firstUnacked[0] in LastUnacked(rep, reply);
    }
    if |LastUnacked(rep, reply)| > 0 {
      StationaryUnacked(reg, reply, maxRetries, LastUnacked(rep, reply)[0]);
    }
  }

  /** ... and an `error` names exactly the ids the first attempt left
      un-acked. */
  lemma StationaryErrorList(reg: seq<string>, reply: (nat, string) -> Reply, maxRetries: int, x: string)
    requires forall n: nat, x: string :: reply(n, x) == reply(1, x)
    ensures Broadcast(reg, reply, maxRetries).outcome.Error? ==>
      (x in Broadcast(reg, reply, maxRetries).outcome.unacked <==> x in Unacked(Results(reg, 1, reply)))
  {
    AttemptOutcome(reg, 0, reply, maxRetries);
    StationaryUnacked(reg, reply, maxRetries, x);
  }

  // ---------------------------------------------------------------------
  // The handlers.

  /** The name a client event is re-broadcast under: its own, except that
      `update-score` goes out as "admin-next". */
  function RelayName(e: ClientEvent): string
  {
    match e
    case UpdateScore(_) => "admin-next"
    case _ => EventName(e)
  }

  /** Admin events keep their name; an `update-score` is relayed under the
      name of `admin-next`, which no other event but `admin-next` uses. */
  lemma RelayNames(e: ClientEvent)
    ensures RelayName(e) == EventName(e) <==> !e.UpdateScore?
    ensures RelayName(e) == EventName(AdminNext) <==> e.UpdateScore? || e.AdminNext?
  {
    EventNamesDistinct(e, AdminNext);
    EventNamesDistinct(e, UpdateScore([]));
  }

  /** A handler: relay the event under its broadcast name to the registry
      with the default retry budget. */
  function Relay(reg: seq<string>, e: ClientEvent, reply: (nat, string) -> Reply): (string, Report)
  {
    (RelayName(e), Broadcast(reg, reply, DefaultMaxRetries))
  }

  /** With the default budget a relay makes at most three attempts. */
  lemma RelayAttempts(reg: seq<string>, e: ClientEvent, reply: (nat, string) -> Reply)
    ensures 1 <= |Relay(reg, e, reply).1.rounds| <= 3
  {
    AttemptRounds(reg, 0, reply, DefaultMaxRetries);
  }
}
