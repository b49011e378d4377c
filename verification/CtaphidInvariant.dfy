/** Every step of the oracle keeps its invariant, so none of its assertions can
    fail in any run. */
module CtaphidInvariant {
  import opened Bytes
  import opened Framing
  import opened CtaphidOracle

  /** Answering the transaction restores the whole invariant. */
  lemma RespondInv(env: Env, m: Oracle, channel: u32, command: byte, payload: seq<byte>)
    requires Core(m) && Answerable(m, channel)
    requires command < 128 && command != KEEPALIVE
    ensures Inv(env, Respond(m, channel, command, payload))
  {
    var m' := Respond(m, channel, command, payload);
    assert m'.replies[|m.replies|].completes.Some?;
  }

  lemma AsideCore(m: Oracle, channel: u32, command: byte, payload: seq<byte>)
    requires Core(m)
    requires command < 128
    requires command == KEEPALIVE ==> m.owner.Some? && !m.owner.value.responding
    ensures Core(Aside(m, channel, command, payload))
  {
    var m' := Aside(m, channel, command, payload);
    if m.owner.Some? && m.owner.value.responding {
      var i :| 0 <= i < |m.replies| && m.replies[i].completes.Some?;
      assert m'.replies[i].completes.Some?;
    }
  }

  lemma {:induction false} FreshDistinct(denied: seq<Denied>, now: nat)
    requires Distinct(denied)
    ensures Distinct(FreshDenied(denied, now))
  {
    if denied != [] {
      FreshDistinct(denied[1..], now);
      var rest := FreshDenied(denied[1..], now);
      forall j | 0 <= j < |rest|
        ensures denied[0].channel != rest[j].channel || denied[0].request != rest[j].request
      {
        assert rest[j] in rest;
      }
    }
  }

  lemma {:induction false} ElsewhereDistinct(denied: seq<Denied>, channel: u32)
    requires Distinct(denied)
    ensures Distinct(DeniedElsewhere(denied, channel))
  {
    if denied != [] {
      ElsewhereDistinct(denied[1..], channel);
      var rest := DeniedElsewhere(denied[1..], channel);
      forall j | 0 <= j < |rest|
        ensures denied[0].channel != rest[j].channel || denied[0].request != rest[j].request
      {
        assert rest[j] in rest;
      }
    }
  }

  lemma FreshCore(m: Oracle, now: nat)
    requires Core(m)
    ensures Core(m.(denied := FreshDenied(m.denied, now)))
  {
    FreshDistinct(m.denied, now);
  }

  /** Beginning a transaction when none is under way. */
  lemma BeginCore(m: Oracle, channel: u32, command: byte, length: nat, data: seq<byte>, now: nat)
    requires Core(m) && m.owner.None?
    requires m.lease.Some? ==> m.lease.value.channel == channel
    requires m.poll.Some? && m.poll.value.answer.None? ==> m.poll.value.channel == channel && command == MSG
    ensures Core(Begin(m, channel, command, length, data, now))
  {
  }

  lemma LeaseInv(env: Env, m: Oracle, now: nat)
    requires Inv(env, m)
    ensures Inv(env, ExpireLease(m, now))
  {
    hide QueueInv, ChannelsInv;
  }

  lemma TouchInv(env: Env, m: Oracle, channel: u32)
    requires Inv(env, m)
    ensures Inv(env, m.(channels := Touch(m.channels, channel)))
  {
    var channels := Touch(m.channels, channel);
    forall c | c in channels
      ensures c != 0 && c != BROADCAST && multiset(channels)[c] == 1
    {
      assert c in multiset(channels);
      assert c in m.channels;
    }
  }

  lemma ContinuationInv(env: Env, m: Oracle, p: Packet, now: nat)
    requires Inv(env, m) && p.Cont? && WellFormed(p)
    ensures match AdmitContinuation(m, p, now)
            case Settled(m', _) => Inv(env, m')
            case Completes(m') => Core(m')
  {
    if m.owner.Some? && m.owner.value.channel == p.channel && IsReceiving(m.owner.value) {
      RespondInv(env, m, p.channel, ERROR, [ERR_INVALID_SEQ]);
    }
  }

  lemma CancelInv(env: Env, m: Oracle, channel: u32)
    requires Inv(env, m)
    ensures Inv(env, AdmitCancel(m, channel))
  {
    if Answerable(m, channel) {
      RespondInv(env, m, channel, CBOR, KEEPALIVE_CANCEL);
    }
  }

  lemma AsideInv(env: Env, m: Oracle, channel: u32, command: byte, payload: seq<byte>)
    requires Inv(env, m) && command < 128
    requires command == KEEPALIVE ==> m.owner.Some? && !m.owner.value.responding
    ensures Inv(env, Aside(m, channel, command, payload))
  {
    AsideCore(m, channel, command, payload);
  }

  lemma RefuseInitInv(env: Env, m: Oracle, p: Packet, code: byte, free: bool, now: nat)
    requires Inv(env, m) && p.Init? && WellFormed(p)
    requires free ==> m.owner.None?
    requires m.lease.Some? ==> m.lease.value.channel == p.channel
    requires m.poll.Some? && m.poll.value.answer.None? ==> m.poll.value.channel == p.channel
    ensures Inv(env, RefuseInit(m, p, code, free, now))
  {
    if free {
      var m1 := Begin(m, p.channel, p.command, p.length, p.data, now);
      var m2 := Respond(m1, p.channel, ERROR, [code]);
      assert m2.replies[|m.replies|].completes.Some?;
    } else {
      AsideInv(env, m, p.channel, ERROR, [code]);
    }
  }

  lemma {:induction false} ElsewhereSubsequence(replies: seq<Reply>, channel: u32)
    requires forall i :: 0 <= i < |replies| && replies[i].completes.Some? ==> replies[i].channel == channel
    ensures forall i :: 0 <= i < |RepliesElsewhere(replies, channel)| ==>
              RepliesElsewhere(replies, channel)[i].completes.None?
  {
    forall i | 0 <= i < |RepliesElsewhere(replies, channel)|
      ensures RepliesElsewhere(replies, channel)[i].completes.None?
    {
      assert RepliesElsewhere(replies, channel)[i] in replies;
    }
  }

  lemma ResynchroniseInv(env: Env, m: Oracle, p: Packet, cid: u32, now: nat)
    requires Inv(env, m) && p.Init? && WellFormed(p)
    requires m.owner.Some? ==> m.owner.value.channel == p.channel
    requires m.lease.Some? ==> m.lease.value.channel == p.channel
    requires m.poll.Some? && m.poll.value.answer.None? ==> m.poll.value.channel == p.channel
    ensures Inv(env, Resynchronise(m, p, cid, now))
  {
    var m' := Resynchronise(m, p, cid, now);
    ElsewhereDistinct(m.denied, p.channel);
    ElsewhereSubsequence(m.replies, p.channel);
    var kept := RepliesElsewhere(m.replies, p.channel);
    forall i | 0 <= i < |kept| ensures kept[i].command < 128 && |kept[i].payload| <= MAX_MESSAGE_SIZE {
      assert kept[i] in m.replies;
    }
    assert m'.replies[|kept|].completes.Some?;
  }

  lemma AllocateInv(env: Env, m: Oracle, cid: u32)
    requires Inv(env, m) && Assignable(m.channels, cid)
    ensures Inv(env, m.(channels := Allocate(m.channels, cid)))
  {
    var kept := if |m.channels| == MAX_CHANNELS then m.channels[1..] else m.channels;
    assert |m.channels| == MAX_CHANNELS ==> m.channels == [m.channels[0]] + kept;
    forall c | c in kept + [cid]
      ensures c != 0 && c != BROADCAST && multiset(kept + [cid])[c] == 1
    {
      if c in kept {
        assert c in m.channels && multiset(m.channels)[c] == 1;
        assert multiset(kept)[c] >= 1;
      } else {
        assert c !in multiset(kept);
      }
    }
  }

  lemma DrawnInv(env: Env, m: Oracle, drawn: nat)
    requires Inv(env, m)
    ensures Inv(env, m.(drawn := drawn))
  {
    hide QueueInv, ChannelsInv;
  }

  lemma AssignInv(env: Env, m: Oracle, p: Packet, drawn: nat, cid: u32, now: nat)
    requires Inv(env, m) && p.Init? && WellFormed(p) && Assignable(m.channels, cid)
    requires m.lease.Some? ==> m.lease.value.channel == p.channel
    requires Busy(m).Some? ==> Busy(m).value == p.channel
    ensures Inv(env, Resynchronise(m.(drawn := drawn, channels := Allocate(m.channels, cid)), p, cid, now))
  {
    hide QueueInv, ChannelsInv;
    DrawnInv(env, m, drawn);
    AllocateInv(env, m.(drawn := drawn), cid);
    ResynchroniseInv(env, m.(drawn := drawn, channels := Allocate(m.channels, cid)), p, cid, now);
  }

  lemma BroadcastInv(env: Env, m: Oracle, p: Packet, now: nat)
    requires Inv(env, m) && p.Init? && WellFormed(p) && p.channel == BROADCAST && p.length == 8
    requires m.lease.Some? ==> m.lease.value.channel == p.channel
    requires Busy(m).Some? ==> Busy(m).value == p.channel
    ensures Inv(env, AdmitInit(env, m, p, now).m)
  {
    hide QueueInv, ChannelsInv;
    match DrawChannel(env, m.channels, m.drawn) {
      case (None, drawn) =>
        DrawnInv(env, m, drawn);
        RefuseInitInv(env, m.(drawn := drawn), p, ERR_BUSY, m.owner.None?, now);
      case (Some(cid), drawn) =>
        AssignInv(env, m, p, drawn, cid, now);
    }
  }

  lemma InitInv(env: Env, m: Oracle, p: Packet, now: nat)
    requires Inv(env, m) && p.Init? && WellFormed(p)
    requires m.lease.Some? ==> m.lease.value.channel == p.channel
    ensures Inv(env, AdmitInit(env, m, p, now).m)
  {
    hide QueueInv, ChannelsInv;
    var busy := Busy(m);
    if busy.Some? && busy.value != p.channel {
      AsideInv(env, m, p.channel, ERROR, [ERR_BUSY]);
    } else if p.length != 8 {
      RefuseInitInv(env, m, p, ERR_INVALID_LEN, busy.None?, now);
    } else if p.channel == BROADCAST {
      BroadcastInv(env, m, p, now);
    } else if p.channel != 0 && (m.owner.Some? || p.channel in m.channels) {
      ResynchroniseInv(env, m, p, p.channel, now);
    } else {
      RefuseInitInv(env, m, p, ERR_INVALID_CHANNEL, m.owner.None?, now);
    }
  }

  lemma RequestInv(env: Env, m: Oracle, p: Packet, now: nat)
    requires Inv(env, m) && p.Init? && WellFormed(p)
    requires m.lease.Some? ==> m.lease.value.channel == p.channel
    ensures match AdmitRequest(m, p, now)
            case Settled(m', _) => Inv(env, m')
            case Completes(m') => Core(m')
  {
    hide QueueInv, ChannelsInv;
    if RefusedAsBusy(m, p.channel, p.command) {
      AsideInv(env, m, p.channel, ERROR, [ERR_BUSY]);
    } else if m.owner.Some? {
      RespondInv(env, m, p.channel, ERROR, [ERR_INVALID_SEQ]);
    } else {
      BeginCore(m, p.channel, p.command, p.length, p.data, now);
      var m1 := Begin(m, p.channel, p.command, p.length, p.data, now);
      RespondInv(env, m1, p.channel, ERROR, [ERR_INVALID_CHANNEL]);
      RespondInv(env, m1, p.channel, ERROR, [ERR_INVALID_CMD]);
      RespondInv(env, m1, p.channel, ERROR, [ERR_INVALID_LEN]);
    }
  }

  lemma SuppressedInv(env: Env, m: Oracle, i: nat, now: nat)
    requires Core(m) && Completable(m) && i < |m.denied|
    ensures Inv(env, Respond(m.(denied := m.denied[i := m.denied[i].(last := now)]),
                             m.owner.value.channel, MSG, NOT_SATISFIED))
  {
    var m' := m.(denied := m.denied[i := m.denied[i].(last := now)]);
    assert forall d :: d in m'.denied ==>
      d in m.denied || (d.channel == m.denied[i].channel && d.request == m.denied[i].request);
    RespondInv(env, m', m.owner.value.channel, MSG, NOT_SATISFIED);
  }

  lemma PollTouchCore(m: Oracle, now: nat)
    requires Core(m) && m.poll.Some?
    ensures Core(m.(poll := Some(m.poll.value.(last := now))))
  {
  }

  lemma DenialsInv(env: Env, m: Oracle, now: nat)
    requires Core(m) && Completable(m) && m.owner.value.command == MSG
    requires 0 < m.owner.value.length <= MAX_MESSAGE_SIZE
    requires m.poll.None? || m.poll.value.answer.Some?
    ensures Inv(env, CheckDenials(env, m, now))
  {
    hide QueueInv, ChannelsInv;
    var i := FindDenied(m.denied, m.owner.value.channel, m.owner.value.request, now);
    if i < |m.denied| {
      SuppressedInv(env, m, i, now);
    } else {
      FreshCore(m, now);
      var m' := m.(denied := FreshDenied(m.denied, now));
      if env.presence(m.owner.value.request) && |m'.denied| >= MAX_CHANNELS {
        RespondInv(env, m', m.owner.value.channel, ERROR, [ERR_BUSY]);
      }
    }
  }

  lemma CompleteMsgInv(env: Env, m: Oracle, now: nat)
    requires Core(m) && Completable(m) && m.owner.value.command == MSG
    requires 0 < m.owner.value.length <= MAX_MESSAGE_SIZE
    ensures Inv(env, CompleteMsg(env, m, now))
  {
    hide QueueInv, ChannelsInv;
    var channel, request := m.owner.value.channel, m.owner.value.request;
    if Collects(m, now) {
      RespondInv(env, m.(poll := None), channel, MSG, m.poll.value.answer.value.bytes);
    } else {
      var m1 := if Polls(m, channel, request) then m.(poll := Some(m.poll.value.(last := now))) else m;
      if Polls(m, channel, request) {
        PollTouchCore(m, now);
      }
      if m.poll.Some? && m.poll.value.answer.None? {
        if Polls(m, channel, request) {
          RespondInv(env, m1, channel, MSG, NOT_SATISFIED);
        } else {
          RespondInv(env, m1, channel, ERROR, [ERR_BUSY]);
        }
      } else {
        DenialsInv(env, m1, now);
      }
    }
  }

  lemma LockInv(env: Env, m: Oracle, seconds: nat, now: nat)
    requires Core(m) && Completable(m) && m.owner.value.command == LOCK
    ensures var lease := if seconds == 0 then None else Some(Lease(m.owner.value.channel, now + seconds * 1_000));
            Inv(env, Respond(m.(lease := lease), m.owner.value.channel, LOCK, []))
  {
    hide QueueInv, ChannelsInv;
    var lease := if seconds == 0 then None else Some(Lease(m.owner.value.channel, now + seconds * 1_000));
    RespondInv(env, m.(lease := lease), m.owner.value.channel, LOCK, []);
  }

  lemma CompleteInv(env: Env, m: Oracle, now: nat)
    requires Core(m) && Completable(m)
    requires m.owner.value.command in {MSG, CBOR} ==> 0 < m.owner.value.length
    requires m.owner.value.length <= MAX_MESSAGE_SIZE
    requires m.owner.value.command == WINK ==> m.owner.value.length == 0
    ensures Inv(env, Complete(env, m, now))
  {
    hide QueueInv, ChannelsInv;
    var m0 := m.(owner := Some(m.owner.value.(started := now, keepaliveAt := now)));
    var o := m0.owner.value;
    assert Core(m0);
    if o.command == LOCK {
      if o.request[0] > 10 {
        RespondInv(env, m0, o.channel, ERROR, [ERR_INVALID_PAR]);
      } else {
        LockInv(env, m0, o.request[0], now);
      }
    } else if o.command == PING {
      RespondInv(env, m0, o.channel, PING, o.request);
    } else if o.command == MSG {
      CompleteMsgInv(env, m0, now);
    }
  }

  lemma PacketInv(env: Env, m: Oracle, p: Packet, now: nat)
    requires Inv(env, m) && WellFormed(p)
    ensures Inv(env, HandlePacket(env, m, p, now).0)
  {
    hide QueueInv, ChannelsInv;
    var m0 := ExpireLease(m, now);
    LeaseInv(env, m, now);
    AdmitCompletable(env, m, p, now);
    if p.Cont? {
      ContinuationInv(env, m0, p, now);
    } else {
      var m1 := m0.(channels := Touch(m0.channels, p.channel));
      TouchInv(env, m0, p.channel);
      if p.command == CANCEL {
        CancelInv(env, m1, p.channel);
      } else if m1.lease.Some? && p.channel != m1.lease.value.channel {
        AsideInv(env, m1, p.channel, ERROR, [ERR_BUSY]);
      } else if p.command == INIT {
        InitInv(env, m1, p, now);
      } else {
        RequestInv(env, m1, p, now);
      }
    }
    if Admit(env, m, p, now).Completes? {
      CompleteInv(env, Admit(env, m, p, now).m, now);
    }
  }

  lemma ExpireIdentificationInv(env: Env, m: Oracle, now: nat)
    requires Inv(env, m)
    ensures Inv(env, ExpireIdentification(m, now))
  {
    if ExpireIdentification(m, now) != m {
      RespondInv(env, m, m.owner.value.channel, ERROR, [ERR_OTHER]);
    }
  }

  lemma ExpireU2fInv(env: Env, m: Oracle, now: nat)
    requires Inv(env, m)
    ensures Inv(env, ExpireU2f(m, now))
  {
    FreshCore(m, now);
  }

  lemma ExpireOwnerInv(env: Env, m: Oracle, now: nat)
    requires Inv(env, m)
    ensures Inv(env, ExpireOwner(m, now))
  {
    if m.owner.Some? && !m.owner.value.responding {
      var o := m.owner.value;
      if |o.request| < o.length && now >= o.at + CONTINUATION_TIMEOUT_MS {
        RespondInv(env, m, o.channel, ERROR, [ERR_TIMEOUT]);
      } else if ExpireOwner(m, now) != m {
        RespondInv(env, m, o.channel, MSG, NOT_SATISFIED);
      }
    }
  }

  lemma TimeoutInv(env: Env, m: Oracle, now: nat)
    requires Inv(env, m)
    ensures Inv(env, Timeout(m, now))
  {
    hide QueueInv, ChannelsInv;
    LeaseInv(env, m, now);
    ExpireIdentificationInv(env, ExpireLease(m, now), now);
    var m1 := ExpireIdentification(ExpireLease(m, now), now);
    ExpireU2fInv(env, m1, now);
    ExpireOwnerInv(env, ExpireU2f(m1, now), now);
  }

  lemma KeepaliveInv(env: Env, m: Oracle, waiting: bool, now: nat)
    requires Inv(env, m)
    ensures Inv(env, Keepalive(m, waiting, now).0)
  {
    var m1 := ObservePresence(m, waiting);
    var due := KeepaliveDue(m1, waiting, now);
    if due.Some? {
      var o := m1.owner.value.(status := due.value, keepaliveAt := now);
      AsideInv(env, m1.(owner := Some(o)), o.channel, KEEPALIVE, [due.value]);
    }
  }

  lemma IdentificationInv(env: Env, m: Oracle, token: nat, delivered: bool, now: nat)
    requires Inv(env, m)
    ensures WantsIdentification(m) ==> Inv(env, TakeIdentification(m))
    ensures Inv(env, IdentificationResult(m, token, delivered, now))
  {
    if m.owner.Some? && !m.owner.value.responding {
      RespondInv(env, m, m.owner.value.channel, WINK, []);
      RespondInv(env, m, m.owner.value.channel, ERROR, [ERR_OTHER]);
    }
  }

  lemma TakeInv(env: Env, m: Oracle)
    requires Inv(env, m) && WantsRequest(m)
    ensures Inv(env, TakeRequest(env, m))
  {
    hide QueueInv, ChannelsInv;
  }

  /** The worker is free again and the request it held is not yet answered. */
  lemma FreedCore(m: Oracle)
    requires Core(m) && m.worker.Some?
    requires m.poll.Some? ==> m.worker.value.command == MSG
    ensures var m' := m.(worker := None, poll := None);
            && QueueInv(m'.replies, Responding(m'.owner)) && OwnerInv(m') && DeniedInv(m') && ChannelsInv(m'.channels)
            && (!Direct(m) ==> Core(m'))
  {
  }

  /** Answering directly, whatever happened to the worker and its poll. */
  lemma DirectAnswerInv(env: Env, m: Oracle, command: byte, payload: seq<byte>)
    requires QueueInv(m.replies, Responding(m.owner)) && OwnerInv(m) && DeniedInv(m) && ChannelsInv(m.channels)
    requires m.worker.None? && m.owner.Some? && Answerable(m, m.owner.value.channel)
    requires m.poll.Some? ==> m.poll.value.answer.Some? && m.poll.value.id < m.nextId
    requires command < 128 && command != KEEPALIVE
    ensures Inv(env, Respond(m, m.owner.value.channel, command, payload))
  {
    var m' := Respond(m, m.owner.value.channel, command, payload);
    assert m'.replies[|m.replies|].completes.Some?;
  }

  lemma DenyCore(m: Oracle)
    requires Core(m) && m.worker.Some? && m.poll.Some? && m.poll.value.answer.None?
    ensures var p := m.poll.value;
            DeniedInv(m.(worker := None, poll := None, denied := m.denied + [Denied(p.channel, p.request, p.last)]))
  {
  }

  lemma DeniedAnswerInv(env: Env, m: Oracle, response: seq<byte>)
    requires Inv(env, m) && m.worker.Some? && m.worker.value.command == MSG && m.poll.Some?
    ensures var p := m.poll.value;
            var m' := m.(worker := None, poll := None, denied := m.denied + [Denied(p.channel, p.request, p.last)]);
            if Direct(m) then Inv(env, Respond(m', m.owner.value.channel, MSG, response)) else Inv(env, m')
  {
    FreedCore(m);
    DenyCore(m);
    var p := m.poll.value;
    var m' := m.(worker := None, poll := None, denied := m.denied + [Denied(p.channel, p.request, p.last)]);
    if Direct(m) {
      DirectAnswerInv(env, m', MSG, response);
    }
  }

  lemma ApprovedAnswerInv(env: Env, m: Oracle, answer: Answer, late: bool)
    requires Inv(env, m) && m.worker.Some? && m.worker.value.command == MSG && m.poll.Some?
    requires late == Direct(m)
    ensures var m1 := m.(worker := None, poll := None);
            var m2 := if late then Respond(m1, m.poll.value.channel, MSG, NOT_SATISFIED) else m1;
            Inv(env, m2) && Inv(env, m2.(poll := Some(m.poll.value.(answer := Some(answer)))))
  {
    FreedCore(m);
    var m1 := m.(worker := None, poll := None);
    if late {
      DirectAnswerInv(env, m1, MSG, NOT_SATISFIED);
    }
    var m2 := if late then Respond(m1, m.poll.value.channel, MSG, NOT_SATISFIED) else m1;
    StoreInv(env, m2, m.poll.value, answer);
  }

  lemma PlainAnswerInv(env: Env, m: Oracle, response: seq<byte>)
    requires Inv(env, m) && m.worker.Some?
    requires m.poll.Some? ==> m.worker.value.command == MSG
    ensures var m' := m.(worker := None, poll := None);
            if Direct(m) then Inv(env, Respond(m', m.owner.value.channel, m.worker.value.command, response))
            else Inv(env, m')
  {
    FreedCore(m);
    if Direct(m) {
      DirectAnswerInv(env, m.(worker := None, poll := None), m.worker.value.command, response);
    }
  }

  lemma AnswerInv(env: Env, m: Oracle, response: seq<byte>, now: nat, finished: Option<nat>)
    requires Inv(env, m) && m.worker.Some?
    ensures Inv(env, WorkerAnswer(env, m, response, now, finished))
  {
    hide QueueInv, ChannelsInv;
    var r := WorkerAnswer(env, m, response, now, finished);
    var m1 := m.(worker := None, poll := None);
    if m.worker.value.command == MSG && m.poll.Some? && EndsNotSatisfied(response) {
      DeniedAnswerInv(env, m, response);
      var p := m.poll.value;
      var m2 := m1.(denied := m.denied + [Denied(p.channel, p.request, p.last)]);
      assert r == if Direct(m) then Respond(m2, m.owner.value.channel, MSG, response) else m2;
    } else if && m.worker.value.command == MSG && m.poll.Some?
              && (!Direct(m) || Late(m, now, finished)) && finished.Some? {
      var answer := Answer(response, finished.value + U2F_APPROVAL_MS);
      var late := Late(m, now, finished);
      ApprovedAnswerInv(env, m, answer, late);
      var m2 := if late then Respond(m1, m.poll.value.channel, MSG, NOT_SATISFIED) else m1;
      assert r == if now <= answer.expires then m2.(poll := Some(m.poll.value.(answer := Some(answer)))) else m2;
    } else {
      PlainAnswerInv(env, m, response);
      assert m.worker.value.command != MSG ==> m.poll.None?;
      assert m.poll.None? ==> m1 == m.(worker := None);
      assert r == if Direct(m) then Respond(m1, m.owner.value.channel, m.worker.value.command, response) else m1;
    }
  }

  /** An approval kept for the next identical request. */
  lemma StoreInv(env: Env, m: Oracle, poll: Poll, answer: Answer)
    requires Inv(env, m) && m.worker.None? && m.poll.None? && poll.id < m.nextId && !Awaiting(m)
    ensures Inv(env, m.(poll := Some(poll.(answer := Some(answer)))))
  {
    hide QueueInv, ChannelsInv;
  }

  lemma OutputInv(env: Env, m: Oracle)
    requires Inv(env, m) && m.replies != []
    ensures Inv(env, Output(env, m))
  {
    var m' := Output(env, m);
    if m'.owner.Some? && m'.owner.value.responding {
      var i :| 0 <= i < |m.replies| && m.replies[i].completes.Some?;
      assert m'.replies[i - 1].completes.Some?;
    }
  }
}
