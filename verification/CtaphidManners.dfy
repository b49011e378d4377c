/** What every outgoing message looks like, who it goes to, and how far away
    a timer can be. */
module CtaphidManners {
  import opened Bytes
  import opened Framing
  import O = CtaphidOracle
  import H = CtaphidHost

  const ERROR_CODES: set<byte> := {0x01, 0x02, 0x03, 0x04, 0x05, 0x06, 0x0B, 0x7F}

  /** The checks the fuzz target makes on a whole outgoing message. */
  predicate Proper(channel: u32, command: byte, payload: seq<byte>) {
    || (command == O.ERROR && |payload| == 1 && payload[0] in ERROR_CODES)
    || (command == O.KEEPALIVE && |payload| == 1 && payload[0] in {1, 2} && channel != BROADCAST)
    || (command == O.INIT && |payload| == 17 && payload[12] == 2
        && var cid := FromBe32(payload[8..12]);
           if channel == BROADCAST then cid != 0 && cid != BROADCAST else cid == channel)
    || (command in {O.LOCK, O.WINK} && payload == [] && channel != BROADCAST)
    || (command in {O.PING, O.CBOR, O.MSG} && channel != BROADCAST)
  }

  predicate ProperReplies(replies: seq<O.Reply>, senders: set<u32>) {
    forall r :: r in replies ==> Proper(r.channel, r.command, r.payload) && r.channel in senders
  }

  /** All queued messages are proper and addressed to a channel that sent an
      initialization packet, and so is the transaction still to be answered. */
  predicate Polite(m: O.Oracle, senders: set<u32>) {
    && ProperReplies(m.replies, senders)
    && (m.owner.Some? ==>
          && m.owner.value.channel in senders
          && (!m.owner.value.responding ==> m.owner.value.channel != BROADCAST))
  }

  lemma InitReplyProper(channel: u32, data: seq<byte>, cid: u32)
    requires |data| == INIT_DATA
    requires if channel == BROADCAST then cid != 0 && cid != BROADCAST else cid == channel
    ensures Proper(channel, O.INIT, O.InitReply(data, cid))
  {
    Be32RoundTrip(cid);
    assert O.InitReply(data, cid)[8..12] == Be32(cid);
  }

  lemma InitPolite(env: O.Env, m: O.Oracle, senders: set<u32>, p: Packet, now: nat)
    requires p.Init? && O.WellFormed(p) && Polite(m, senders) && p.channel in senders
    ensures Polite(O.AdmitInit(env, m, p, now).m, senders)
  {
    hide O.Misses, O.InitReply;
    if p.channel == BROADCAST {
      var (cid, _) := O.DrawChannel(env, m.channels, m.drawn);
      if cid.Some? {
        InitReplyProper(p.channel, p.data, cid.value);
      }
    } else {
      InitReplyProper(p.channel, p.data, p.channel);
    }
  }

  lemma CompletePolite(env: O.Env, m: O.Oracle, senders: set<u32>, now: nat)
    requires O.Completable(m) && Polite(m, senders)
    ensures Polite(O.Complete(env, m, now), senders)
  {
    hide O.FindDenied, O.FreshDenied;
  }

  lemma RequestPolite(m: O.Oracle, senders: set<u32>, p: Packet, now: nat)
    requires p.Init? && O.WellFormed(p) && Polite(m, senders) && p.channel in senders
    ensures Polite(O.AdmitRequest(m, p, now).m, senders)
    ensures Polite(O.AdmitCancel(m, p.channel), senders)
    ensures Polite(O.Aside(m, p.channel, O.ERROR, [O.ERR_BUSY]), senders)
  {
  }

  lemma ContinuationPolite(m: O.Oracle, senders: set<u32>, p: Packet, now: nat)
    requires p.Cont? && O.WellFormed(p) && Polite(m, senders)
    ensures Polite(O.AdmitContinuation(m, p, now).m, senders)
  {
  }

  lemma PacketPolite(env: O.Env, m: O.Oracle, senders: set<u32>, p: Packet, now: nat)
    requires O.WellFormed(p) && O.Inv(env, m) && Polite(m, senders)
    requires p.Init? ==> p.channel in senders
    ensures Polite(O.HandlePacket(env, m, p, now).0, senders)
  {
    hide O.AdmitInit, O.AdmitRequest, O.AdmitCancel, O.AdmitContinuation, O.Aside, O.Complete, O.Inv, ProperReplies;
    O.AdmitCompletable(env, m, p, now);
    var m0 := O.ExpireLease(m, now);
    if p.Init? {
      var m1 := m0.(channels := O.Touch(m0.channels, p.channel));
      InitPolite(env, m1, senders, p, now);
      RequestPolite(m1, senders, p, now);
    } else {
      ContinuationPolite(m0, senders, p, now);
    }
    if O.Admit(env, m, p, now).Completes? {
      CompletePolite(env, O.Admit(env, m, p, now).m, senders, now);
    }
  }

  lemma TimeoutPolite(env: O.Env, m: O.Oracle, senders: set<u32>, now: nat)
    requires O.Inv(env, m) && Polite(m, senders)
    ensures Polite(O.Timeout(m, now), senders)
  {
    hide O.QueueInv, O.ChannelsInv, O.FreshDenied;
  }

  lemma KeepalivePolite(m: O.Oracle, senders: set<u32>, waiting: bool, now: nat)
    requires Polite(m, senders)
    ensures Polite(O.Keepalive(m, waiting, now).0, senders)
  {
  }

  lemma ResultPolite(m: O.Oracle, senders: set<u32>, token: nat, delivered: bool, now: nat)
    requires Polite(m, senders)
    ensures Polite(O.IdentificationResult(m, token, delivered, now), senders)
  {
  }

  lemma OutputPolite(env: O.Env, m: O.Oracle, senders: set<u32>)
    requires O.Inv(env, m) && Polite(m, senders) && m.replies != []
    ensures Polite(O.Output(env, m), senders)
  {
    hide O.QueueInv, O.ChannelsInv, Proper;
  }

  lemma AnswerPolite(env: O.Env, m: O.Oracle, senders: set<u32>, response: seq<byte>, now: nat, finished: Option<nat>)
    requires O.Inv(env, m) && m.worker.Some? && Polite(m, senders)
    ensures Polite(O.WorkerAnswer(env, m, response, now, finished), senders)
  {
    hide O.QueueInv, O.ChannelsInv, O.EndsNotSatisfied;
  }

  // ---------------------------------------------------------------- timers

  /** Nothing recorded lies in the future but a bounded deadline. */
  predicate Timely(h: H.Host, now: nat) {
    && (h.lease.Some? ==> h.lease.value.expires <= now + 10_000)
    && (h.phase.Receiving? ==> h.phase.lastPacketAt <= now)
    && (h.phase.Processing? ==> h.phase.started <= now && h.phase.keepaliveAt <= now)
    && (h.phase.Identifying? ==> h.phase.identification.deadline <= now + O.IDENTIFICATION_TIMEOUT_MS)
    && (h.u2f.Some? ==>
          && h.u2f.value.lastPoll <= now && h.u2f.value.started <= now
          && (h.u2f.value.answer.Some? ==> h.u2f.value.answer.value.expires <= now + O.U2F_APPROVAL_MS))
  }

  lemma AdvanceTimely(h: H.Host, now: nat, ms: nat)
    requires Timely(h, now)
    ensures Timely(h, now + ms)
  {
  }

  /** No timer is further away than the longest timeout. */
  lemma DeadlineBound(h: H.Host, now: nat)
    requires Timely(h, now)
    ensures forall d :: d in H.Deadlines(h) ==> d <= now + O.U2F_APPROVAL_MS + 1
  {
  }

  lemma SelfFresher(h: H.Host)
    ensures H.Fresher(h.pending, h.nextToken, h.pending, h.nextToken)
  {
  }

  lemma CompleteMsgTimely(env: O.Env, h: H.Host, channel: u32, now: nat)
    requires Timely(h.(phase := H.Idle), now)
    ensures Timely(H.CompleteMsg(env, h, channel, now), now)
  {
    hide H.EnqueueMessage, H.CheckDenials, H.OnlyQueues;
    DenialsTimely(env, h, channel, now);
    if h.u2f.Some? {
      DenialsTimely(env, h.(u2f := Some(h.u2f.value.(lastPoll := now))), channel, now);
    }
  }

  lemma DenialsTimely(env: O.Env, h: H.Host, channel: u32, now: nat)
    requires Timely(h.(phase := H.Idle), now)
    ensures Timely(H.CheckDenials(env, h, channel, now), now)
  {
    hide H.EnqueueMessage, H.FindDenied, O.FreshDenied, H.OnlyQueues;
  }

  lemma CompleteMsgQueues(env: O.Env, h: H.Host, channel: u32, now: nat)
    ensures H.OnlyQueues(h, H.CompleteMsg(env, h, channel, now))
  {
    hide H.QueueMessage, H.EnqueueMessage, H.FindDenied, O.FreshDenied, H.Fresher;
    SelfFresher(h);
  }

  lemma CompleteTimely(env: O.Env, h: H.Host, channel: u32, command: byte, now: nat)
    requires command in {O.PING, O.MSG, O.LOCK, O.WINK, O.CBOR} && (command == O.LOCK ==> h.message != [])
    requires Timely(h.(phase := H.Idle), now)
    ensures Timely(H.CompleteMessage(env, h, channel, command, now), now)
    ensures H.OnlyQueues(h, H.CompleteMessage(env, h, channel, command, now))
  {
    hide H.QueueMessage, H.EnqueueMessage, H.CompleteMsg, H.Fresher;
    SelfFresher(h);
    CompleteMsgTimely(env, h, channel, now);
    CompleteMsgQueues(env, h, channel, now);
  }

  lemma ResynchroniseTimely(h: H.Host, p: Packet, cid: u32, now: nat)
    requires p.Init? && O.WellFormed(p) && Timely(h, now)
    ensures Timely(H.Resynchronise(h, p, cid), now) && H.OnlyQueues(h, H.Resynchronise(h, p, cid))
  {
    hide H.QueueMessage, H.EnqueueMessage, H.FramesElsewhere, O.DeniedElsewhere, O.InitReply;
  }

  lemma InitTimely(env: O.Env, h: H.Host, p: Packet, now: nat)
    requires p.Init? && O.WellFormed(p) && Timely(h, now)
    ensures Timely(H.HandleInit(env, h, p), now)
  {
    hide H.QueueMessage, H.EnqueueMessage, O.DrawChannel, H.Resynchronise, H.Fresher, H.OnlyQueues;
    var (cid, drawn) := O.DrawChannel(env, h.channels, h.drawn);
    if cid.Some? {
      ResynchroniseTimely(h.(drawn := drawn, channels := O.Allocate(h.channels, cid.value)), p, cid.value, now);
    }
    ResynchroniseTimely(h, p, p.channel, now);
  }

  lemma InitQueues(env: O.Env, h: H.Host, p: Packet, now: nat)
    requires p.Init? && O.WellFormed(p) && Timely(h, now)
    ensures H.OnlyQueues(h, H.HandleInit(env, h, p))
  {
    hide H.QueueMessage, H.EnqueueMessage, O.DrawChannel, H.Resynchronise, H.Fresher, Timely;
    var (cid, drawn) := O.DrawChannel(env, h.channels, h.drawn);
    if cid.Some? {
      var h1 := h.(drawn := drawn, channels := O.Allocate(h.channels, cid.value));
      assert Timely(h1, now) by {
        SameTimers(h, h1, now);
      }
      ResynchroniseTimely(h1, p, cid.value, now);
    }
    ResynchroniseTimely(h, p, p.channel, now);
  }

  lemma SameTimers(h: H.Host, h': H.Host, now: nat)
    requires Timely(h, now) && h' == h.(drawn := h'.drawn, channels := h'.channels)
    ensures Timely(h', now)
  {
  }

  lemma ContinuationTimely(env: O.Env, h: H.Host, p: Packet, now: nat)
    requires H.Valid(h) && O.WellFormed(p) && p.Cont? && Timely(h, now)
    ensures Timely(H.HandleContinuation(env, h, p, now), now) && H.OnlyQueues(h, H.HandleContinuation(env, h, p, now))
  {
    hide H.QueueMessage, H.EnqueueMessage, H.CompleteMessage, H.Fresher;
    SelfFresher(h);
    if h.phase.Receiving? {
      var h' := h.(
        phase := h.phase.(nextSequence := h.phase.nextSequence + 1, lastPacketAt := now),
        message := h.message + p.data[..Min(h.phase.length - |h.message|, CONT_DATA)]);
      CompleteTimely(env, h', p.channel, h.phase.command, now);
    }
  }

  lemma ErrorsTimely(h: H.Host, channel: u32, now: nat)
    requires Timely(h, now)
    ensures forall code :: Timely(H.EnqueueError(h, channel, code), now) && Timely(H.FinishError(h, channel, code), now)
  {
    hide H.QueueMessage, H.EnqueueMessage, H.OnlyQueues;
  }

  lemma RequestTimely(env: O.Env, h: H.Host, p: Packet, now: nat)
    requires O.WellFormed(p) && p.Init? && Timely(h, now)
    ensures Timely(H.HandleRequest(env, h, p, now), now)
  {
    hide H.EnqueueError, H.FinishError, H.CompleteMessage, H.BusyChannel, H.LeaseConflicts;
    ErrorsTimely(h, p.channel, now);
    if p.length <= INIT_DATA && p.command in {O.PING, O.CBOR, O.MSG, O.LOCK, O.WINK}
       && !O.InvalidLength(p.command, p.length) {
      CompleteTimely(env, h.(message := p.data[..Min(p.length, INIT_DATA)]), p.channel, p.command, now);
    }
  }

  lemma RequestQueues(env: O.Env, h: H.Host, p: Packet, now: nat)
    requires O.WellFormed(p) && p.Init? && Timely(h, now)
    ensures H.OnlyQueues(h, H.HandleRequest(env, h, p, now))
  {
    hide H.QueueMessage, H.EnqueueMessage, H.CompleteMessage, H.Fresher;
    SelfFresher(h);
    if p.length <= INIT_DATA && p.command in {O.PING, O.CBOR, O.MSG, O.LOCK, O.WINK}
       && !O.InvalidLength(p.command, p.length) {
      CompleteTimely(env, h.(message := p.data[..Min(p.length, INIT_DATA)]), p.channel, p.command, now);
    }
  }

  lemma PacketTimely(env: O.Env, h: H.Host, p: Packet, now: nat)
    requires H.Valid(h) && O.WellFormed(p) && Timely(h, now)
    ensures Timely(H.HandlePacket(env, h, p, now), now) && H.OnlyQueues(h, H.HandlePacket(env, h, p, now))
  {
    hide H.HandleRequest, H.HandleInit, H.HandleContinuation, H.QueueMessage, H.EnqueueMessage;
    var h0 := H.ExpireLease(h, now);
    if p.Init? {
      var h1 := h0.(channels := O.Touch(h0.channels, p.channel));
      InitTimely(env, h1, p, now);
      InitQueues(env, h1, p, now);
      RequestTimely(env, h1, p, now);
      RequestQueues(env, h1, p, now);
    } else {
      ContinuationTimely(env, h0, p, now);
    }
  }

  lemma DeliverTimely(h: H.Host, response: seq<byte>, now: nat)
    requires H.Valid(h) && Timely(h, now)
    ensures Timely(H.Deliver(h, response), now) && H.OnlyQueues(h, H.Deliver(h, response))
  {
    hide H.QueueMessage, H.EnqueueMessage, H.Fresher;
    SelfFresher(h);
  }

  lemma AnswerTimely(h: H.Host, response: seq<byte>, now: nat, finished: Option<nat>)
    requires H.Valid(h) && Timely(h, now) && (finished.Some? ==> finished.value <= now)
    ensures Timely(H.AppResponse(h, response, now, finished), now)
    ensures H.OnlyQueues(h.(appBusy := false), H.AppResponse(h, response, now, finished))
  {
    hide H.QueueMessage, H.EnqueueMessage, H.StatusNotSatisfied, H.Fresher, H.Deliver;
    SelfFresher(h);
    var h0 := h.(appBusy := false, appCommand := None);
    DeliverTimely(h0, response, now);
    if h.u2f.Some? {
      var h1 := h0.(u2f := None);
      DeliverTimely(h1, response, now);
      var p := h.u2f.value;
      DeliverTimely(h1.(denied := h1.denied + [O.Denied(p.channel, p.request, p.lastPoll)]), response, now);
    }
  }

  lemma TimeoutTimely(h: H.Host, now: nat)
    requires Timely(h, now)
    ensures Timely(H.HandleTimeout(h, now), now) && H.OnlyQueues(h, H.HandleTimeout(h, now))
  {
    hide H.QueueMessage, H.EnqueueMessage, O.FreshDenied, H.OnlyQueues;
    var h1 := H.ExpireIdentification(H.ExpireLease(h, now), now);
    assert Timely(h1, now);
    assert Timely(H.ExpireU2f(h1, now), now);
    TimeoutQueues(h, now);
  }

  lemma TimeoutQueues(h: H.Host, now: nat)
    ensures H.OnlyQueues(h, H.HandleTimeout(h, now))
  {
    hide H.QueueMessage, H.EnqueueMessage, O.FreshDenied;
  }

  lemma KeepaliveTimely(h: H.Host, waiting: bool, now: nat)
    requires Timely(h, now)
    ensures var h' := H.SendKeepalive(H.AppPresence(h, waiting), waiting, now).0;
            Timely(h', now) && H.OnlyQueues(h, h')
  {
    hide H.Fresher;
    SelfFresher(h);
  }

  lemma ResultTimely(h: H.Host, token: nat, delivered: bool, now: nat)
    requires Timely(h, now)
    ensures var h' := H.IdentificationResponse(h, token, delivered, now);
            Timely(h', now) && H.OnlyQueues(h, h')
  {
    hide H.QueueMessage, H.EnqueueMessage, H.Fresher;
    SelfFresher(h);
  }
}
