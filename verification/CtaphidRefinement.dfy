/** The production host refines the oracle: every event keeps the two in step,
    frame for frame. */
module CtaphidRefinement {
  import opened Bytes
  import opened Framing
  import opened CtaphidQueue
  import O = CtaphidOracle
  import I = CtaphidInvariant
  import H = CtaphidHost

  /** The host's phase is the oracle's transaction. */
  predicate SameOwner(h: H.Host, m: O.Oracle) {
    && (h.phase.Idle? <==> m.owner.None?)
    && match h.phase
       case Idle => true
       case _ => SameTransaction(h.phase, h.message, m.owner.value)
  }

  predicate SameTransaction(phase: H.Phase, message: seq<byte>, o: O.Owner) {
      match phase
      case Idle => false
      case Receiving(channel, command, length, next, at) =>
        && !o.responding && |o.request| < o.length && o.request == message
        && channel == o.channel && command == o.command && length == o.length && next == o.sequence && at == o.at
      case Processing(channel, command, started, request, at, status) =>
        && !o.responding && |o.request| == o.length && o.command in {O.MSG, O.CBOR}
        && channel == o.channel && command == o.command && started == o.started
        && request == (if o.submitted then None else Some(o.request))
        && at == o.keepaliveAt && status == o.status
      case Identifying(channel, identification, submitted) =>
        && !o.responding && |o.request| == o.length && o.command == O.WINK
        && channel == o.channel && o.identification == Some(identification) && submitted == o.submitted
      case Transmitting(channel, _) => o.responding && channel == o.channel
  }

  predicate SamePoll(u2f: Option<H.U2fPoll>, poll: Option<O.Poll>) {
    match (u2f, poll)
    case (None, None) => true
    case (Some(u), Some(p)) =>
      && u.channel == p.channel && u.request == p.request && u.lastPoll == p.last && u.started == p.started
      && u.presenceStarted == p.presence && u.answer == p.answer
    case _ => false
  }

  /** Everything but the transaction and the queue. */
  predicate SameRest(h: H.Host, m: O.Oracle) {
    && h.lease == m.lease && h.channels == m.channels && h.drawn == m.drawn
    && h.nextIdentification == m.nextIdentification && h.denied == m.denied
    && h.appBusy == m.worker.Some?
    && h.appCommand == (if m.worker.Some? then Some(m.worker.value.command) else None)
    && SamePoll(h.u2f, m.poll)
  }

  function Final(phase: H.Phase): Option<nat> {
    if phase.Transmitting? then Some(phase.finalFrame) else None
  }

  predicate SameQueue(h: H.Host, m: O.Oracle, k: nat) {
    Queued(h.pending, h.nextToken, Final(h.phase), m.replies, k)
  }

  /** Host and oracle agree, with `k` frames of the front reply written. */
  predicate Match(h: H.Host, m: O.Oracle, k: nat) {
    SameOwner(h, m) && SameRest(h, m) && SameQueue(h, m, k)
  }

  predicate Sim(env: O.Env, h: H.Host, m: O.Oracle, k: nat) {
    O.Inv(env, m) && Match(h, m, k)
  }

  lemma SimValid(env: O.Env, h: H.Host, m: O.Oracle, k: nat)
    requires Sim(env, h, m, k)
    ensures H.Valid(h) && h.appBusy == m.worker.Some?
  {
  }

  // ---------------------------------------------------------------- messages

  /** A message beside the transaction. */
  lemma AsideMatch(h: H.Host, m: O.Oracle, k: nat, channel: u32, command: byte, payload: seq<byte>)
    requires Match(h, m, k) && command < 128
    ensures Match(H.QueueMessage(h, channel, command, payload), O.Aside(m, channel, command, payload), k)
  {
    QueuedAppend(h.pending, h.nextToken, Final(h.phase), m.replies, k, O.Sendable(channel, command, payload, None));
  }

  /** The response of the transaction. */
  lemma RespondMatch(h: H.Host, m: O.Oracle, k: nat, channel: u32, command: byte, payload: seq<byte>)
    requires SameRest(h, m) && Queued(h.pending, h.nextToken, None, m.replies, k)
    requires O.Answerable(m, channel) && command < 128
    ensures Match(H.EnqueueMessage(h, channel, command, payload), O.Respond(m, channel, command, payload), k)
  {
    var r := O.Sendable(channel, command, payload, Some(m.owner.value.id));
    var h' := H.EnqueueMessage(h, channel, command, payload);
    assert h'.pending == h.pending + H.Tokened(ReplyFrames(r), h.nextToken);
    QueuedAppend(h.pending, h.nextToken, Some(h'.nextToken - 1), m.replies, k, r);
  }

  // ---------------------------------------------------------------- packets

  lemma FindDeniedSame(denied: seq<O.Denied>, channel: u32, request: seq<byte>, now: nat)
    requires O.Distinct(denied)
    ensures var i := H.FindDenied(denied, channel, request);
            O.FindDenied(denied, channel, request, now)
            == if i < |denied| && Since(now, denied[i].last) <= O.U2F_POLL_TIMEOUT_MS then i else |denied|
  {
    var i := H.FindDenied(denied, channel, request);
    var j := O.FindDenied(denied, channel, request, now);
    if j < |denied| {
      assert O.Suppresses(denied[j], channel, request, now);
      if i < j { assert false; }
      if j < i { assert false; }
    } else if i < |denied| {
      assert !O.Suppresses(denied[i], channel, request, now);
    }
  }

  /** A complete request: the host holds it in `message`. */
  predicate Complete(h: H.Host, m: O.Oracle, command: byte, k: nat) {
    && SameRest(h, m) && Queued(h.pending, h.nextToken, None, m.replies, k)
    && O.Completable(m) && m.owner.value.command == command && m.owner.value.request == h.message
    && m.owner.value.status == 1
  }

  /** A poll settles the request: with its stored answer, with another "not
      yet", or with "busy" if it is for another request. */
  lemma PolledMatch(env: O.Env, h: H.Host, m: O.Oracle, k: nat, now: nat)
    requires Complete(h, m, O.MSG, k) && m.poll.Some?
    requires O.Collects(m, now) || m.poll.value.answer.None?
    ensures Match(H.CompleteMsg(env, h, m.owner.value.channel, now), O.CompleteMsg(env, m, now), k)
  {
    hide Queued, H.QueueMessage, H.EnqueueMessage, O.Respond, H.CheckDenials, O.CheckDenials;
    var channel, request := m.owner.value.channel, m.owner.value.request;
    if O.Collects(m, now) {
      RespondMatch(h.(u2f := None), m.(poll := None), k, channel, O.MSG, m.poll.value.answer.value.bytes);
    } else if O.Polls(m, channel, request) {
      RespondMatch(h.(u2f := Some(h.u2f.value.(lastPoll := now))), m.(poll := Some(m.poll.value.(last := now))), k,
                   channel, O.MSG, O.NOT_SATISFIED);
    } else {
      RespondMatch(h, m, k, channel, O.ERROR, [O.ERR_BUSY]);
    }
  }

  /** Looking for the first denial of this request and then at its age finds
      what looking for the first fresh denial does, as none is denied twice. */
  lemma DenialsMatch(env: O.Env, h: H.Host, m: O.Oracle, k: nat, now: nat)
    requires Complete(h, m, O.MSG, k) && O.Distinct(m.denied)
    requires m.owner.value.started == m.owner.value.keepaliveAt == now
    ensures Match(H.CheckDenials(env, h, m.owner.value.channel, now), O.CheckDenials(env, m, now), k)
  {
    hide Queued, H.QueueMessage, H.EnqueueMessage, O.Respond, O.FindDenied, H.FindDenied, O.FreshDenied;
    var channel, request := m.owner.value.channel, m.owner.value.request;
    FindDeniedSame(m.denied, channel, request, now);
    var i := O.FindDenied(m.denied, channel, request, now);
    if i < |m.denied| {
      var denied := m.denied[i := m.denied[i].(last := now)];
      RespondMatch(h.(denied := denied), m.(denied := denied), k, channel, O.MSG, O.NOT_SATISFIED);
    } else {
      var denied := O.FreshDenied(m.denied, now);
      if env.presence(request) && |denied| >= O.MAX_CHANNELS {
        RespondMatch(h.(denied := denied), m.(denied := denied), k, channel, O.ERROR, [O.ERR_BUSY]);
      }
    }
  }

  lemma CompleteMsgMatch(env: O.Env, h: H.Host, m: O.Oracle, k: nat, now: nat)
    requires Complete(h, m, O.MSG, k) && O.Distinct(m.denied)
    requires m.owner.value.started == m.owner.value.keepaliveAt == now
    ensures Match(H.CompleteMsg(env, h, m.owner.value.channel, now), O.CompleteMsg(env, m, now), k)
  {
    hide Queued, H.EnqueueMessage, O.Respond, H.CheckDenials, O.CheckDenials, Match;
    if O.Collects(m, now) || (m.poll.Some? && m.poll.value.answer.None?) {
      PolledMatch(env, h, m, k, now);
    } else {
      var matching := O.Polls(m, m.owner.value.channel, m.owner.value.request);
      DenialsMatch(env, if matching then h.(u2f := Some(h.u2f.value.(lastPoll := now))) else h,
                   if matching then m.(poll := Some(m.poll.value.(last := now))) else m, k, now);
    }
  }

  lemma CompleteMatch(env: O.Env, h: H.Host, m: O.Oracle, command: byte, k: nat, now: nat)
    requires Complete(h, m, command, k) && O.Distinct(m.denied)
    ensures Match(H.CompleteMessage(env, h, m.owner.value.channel, command, now), O.Complete(env, m, now), k)
  {
    hide Queued, O.QueueInv, O.ChannelsInv, H.QueueMessage, H.EnqueueMessage, O.Respond;
    var m0 := m.(owner := Some(m.owner.value.(started := now, keepaliveAt := now)));
    var channel := m.owner.value.channel;
    if command == O.LOCK {
      var seconds := h.message[0] as nat;
      if seconds > 10 {
        RespondMatch(h, m0, k, channel, O.ERROR, [O.ERR_INVALID_PAR]);
      } else {
        var lease := if seconds == 0 then None else Some(O.Lease(channel, now + seconds * 1_000));
        RespondMatch(h.(lease := lease), m0.(lease := lease), k, channel, O.LOCK, []);
      }
    } else if command == O.PING {
      RespondMatch(h, m0, k, channel, O.PING, h.message);
    } else if command == O.MSG {
      CompleteMsgMatch(env, h, m0, k, now);
    }
  }

  lemma ContinuationMatch(env: O.Env, h: H.Host, m: O.Oracle, k: nat, p: Packet, now: nat)
    requires Sim(env, h, m, k) && H.Valid(h) && p.Cont? && O.WellFormed(p)
    ensures match O.AdmitContinuation(m, p, now)
            case Settled(m', _) => Match(H.HandleContinuation(env, h, p, now), m', k)
            case Completes(m') => O.Completable(m') ==>
              Match(H.HandleContinuation(env, h, p, now), O.Complete(env, m', now), k)
  {
    hide Queued, O.QueueInv, O.ChannelsInv, H.EnqueueMessage, O.Respond, H.CompleteMessage, O.Complete;
    if h.phase.Receiving? && h.phase.channel == p.channel {
      if p.sequence as nat != h.phase.nextSequence {
        RespondMatch(h, m, k, p.channel, O.ERROR, [O.ERR_INVALID_SEQ]);
      } else {
        var a := O.AdmitContinuation(m, p, now);
        var missing := h.phase.length - |h.message|;
        var h' := h.(
          phase := h.phase.(nextSequence := h.phase.nextSequence + 1, lastPacketAt := now),
          message := h.message + p.data[..Min(missing, CONT_DATA)]);
        if a.Completes? && O.Completable(a.m) {
          assert a.m.owner.value.status == 1;
          CompleteMatch(env, h', a.m, h.phase.command, k, now);
        }
      }
    }
  }

  lemma CancelMatch(env: O.Env, h: H.Host, m: O.Oracle, k: nat, channel: u32)
    requires Sim(env, h, m, k)
    ensures Match(H.HandleCancel(h, channel), O.AdmitCancel(m, channel), k)
  {
    hide Queued, O.QueueInv, O.ChannelsInv, H.QueueMessage, H.EnqueueMessage, O.Respond;
    if h.phase.Processing? && h.phase.channel == channel && h.phase.command == O.CBOR && h.phase.request.Some? {
      RespondMatch(h, m, k, channel, O.CBOR, O.KEEPALIVE_CANCEL);
    }
  }

  lemma RefuseInitMatch(h: H.Host, m: O.Oracle, k: nat, p: Packet, code: byte, free: bool, now: nat)
    requires Match(h, m, k) && p.Init? && O.WellFormed(p)
    requires free ==> m.owner.None?
    ensures Match(H.RefuseInit(h, p.channel, code, free), O.RefuseInit(m, p, code, free, now), k)
  {
    if free {
      var m1 := O.Begin(m, p.channel, p.command, p.length, p.data, now);
      RespondMatch(h, m1, k, p.channel, O.ERROR, [code]);
    } else {
      AsideMatch(h, m, k, p.channel, O.ERROR, [code]);
    }
  }

  lemma ResynchroniseMatch(env: O.Env, h: H.Host, m: O.Oracle, k: nat, p: Packet, cid: u32, now: nat)
    requires Sim(env, h, m, k) && p.Init? && O.WellFormed(p)
    requires m.owner.Some? ==> m.owner.value.channel == p.channel
    ensures Match(H.Resynchronise(h, p, cid), O.Resynchronise(m, p, cid, now), KeptFrames(m.replies, k, p.channel))
  {
    hide Sim, Match, SameRest, Queued, H.Forgotten, H.EnqueueMessage, O.Respond, O.InitReply, KeptFrames;
    ForgottenMatch(env, h, m, k, p.channel);
    var m1 := m.(
      replies := O.RepliesElsewhere(m.replies, p.channel),
      poll := if m.poll.Some? && m.poll.value.channel == p.channel then None else m.poll,
      denied := O.DeniedElsewhere(m.denied, p.channel));
    var m2 := O.Begin(m1, p.channel, p.command, p.length, p.data, now);
    var h1 := H.Forgotten(h, p.channel);
    assert SameRest(h1, m2) by {
      BegunSame(h1, m1, p, now);
    }
    RespondMatch(h1, m2, KeptFrames(m.replies, k, p.channel), p.channel, O.INIT, O.InitReply(p.data, cid));
  }

  /** A transaction just begun is not part of the rest. */
  lemma BegunSame(h: H.Host, m: O.Oracle, p: Packet, now: nat)
    requires SameRest(h, m) && p.Init?
    ensures SameRest(h, O.Begin(m, p.channel, p.command, p.length, p.data, now))
  {
  }

  /** Both machines forget the same of a channel. */
  lemma ForgottenMatch(env: O.Env, h: H.Host, m: O.Oracle, k: nat, channel: u32)
    requires Sim(env, h, m, k) && (m.owner.Some? ==> m.owner.value.channel == channel)
    ensures var m1 := m.(
              replies := O.RepliesElsewhere(m.replies, channel),
              poll := if m.poll.Some? && m.poll.value.channel == channel then None else m.poll,
              denied := O.DeniedElsewhere(m.denied, channel));
            var h1 := H.Forgotten(h, channel);
            SameRest(h1, m1) && Queued(h1.pending, h1.nextToken, None, m1.replies, KeptFrames(m.replies, k, channel))
  {
    I.ElsewhereSubsequence(m.replies, channel);
    QueuedPurge(h.pending, h.nextToken, Final(h.phase), m.replies, k, channel);
  }

  /** The written frames that still count after a packet: none if it aborted
      the message they belong to. */
  function Written(m: O.Oracle, k: nat, aborted: Option<u32>): nat {
    if aborted.Some? then KeptFrames(m.replies, k, aborted.value) else k
  }

  lemma InitMatch(env: O.Env, h: H.Host, m: O.Oracle, k: nat, p: Packet, now: nat)
    requires Sim(env, h, m, k) && p.Init? && O.WellFormed(p)
    requires !H.LeaseConflicts(h, p.channel)
    ensures var a := O.AdmitInit(env, m, p, now);
            Match(H.HandleInit(env, h, p), a.m, Written(m, k, a.aborted))
  {
    hide Queued, O.QueueInv, O.ChannelsInv, H.QueueMessage, H.EnqueueMessage, O.Respond;
    var busy := O.Busy(m);
    assert H.BusyChannel(h) == busy;
    if busy.Some? && busy.value != p.channel {
      AsideMatch(h, m, k, p.channel, O.ERROR, [O.ERR_BUSY]);
    } else if p.length != 8 {
      RefuseInitMatch(h, m, k, p, O.ERR_INVALID_LEN, busy.None?, now);
    } else if p.channel == BROADCAST {
      match O.DrawChannel(env, h.channels, h.drawn) {
        case (None, drawn) =>
          RefuseInitMatch(h.(drawn := drawn), m.(drawn := drawn), k, p, O.ERR_BUSY, m.owner.None?, now);
        case (Some(cid), drawn) =>
          I.DrawnInv(env, m, drawn);
          I.AllocateInv(env, m.(drawn := drawn), cid);
          var channels := O.Allocate(h.channels, cid);
          ResynchroniseMatch(env, h.(drawn := drawn, channels := channels), m.(drawn := drawn, channels := channels),
                             k, p, cid, now);
      }
    } else if p.channel != 0 && (m.owner.Some? || p.channel in m.channels) {
      ResynchroniseMatch(env, h, m, k, p, p.channel, now);
    } else {
      RefuseInitMatch(h, m, k, p, O.ERR_INVALID_CHANNEL, m.owner.None?, now);
    }
  }

  lemma RequestMatch(env: O.Env, h: H.Host, m: O.Oracle, k: nat, p: Packet, now: nat)
    requires Sim(env, h, m, k) && p.Init? && O.WellFormed(p)
    requires !H.LeaseConflicts(h, p.channel)
    ensures match O.AdmitRequest(m, p, now)
            case Settled(m', _) => Match(H.HandleRequest(env, h, p, now), m', k)
            case Completes(m') => O.Completable(m') ==>
              Match(H.HandleRequest(env, h, p, now), O.Complete(env, m', now), k)
  {
    hide Queued, O.QueueInv, O.ChannelsInv, H.QueueMessage, H.EnqueueMessage, O.Respond;
    if O.RefusedAsBusy(m, p.channel, p.command) {
      AsideMatch(h, m, k, p.channel, O.ERROR, [O.ERR_BUSY]);
    } else if m.owner.Some? {
      RespondMatch(h, m, k, p.channel, O.ERROR, [O.ERR_INVALID_SEQ]);
    } else {
      NewRequestMatch(env, h, m, k, p, now);
    }
  }

  lemma NewRequestMatch(env: O.Env, h: H.Host, m: O.Oracle, k: nat, p: Packet, now: nat)
    requires Sim(env, h, m, k) && p.Init? && O.WellFormed(p)
    requires !H.LeaseConflicts(h, p.channel)
    requires !O.RefusedAsBusy(m, p.channel, p.command) && m.owner.None?
    ensures match O.AdmitRequest(m, p, now)
            case Settled(m', _) => Match(H.HandleRequest(env, h, p, now), m', k)
            case Completes(m') => O.Completable(m') ==>
              Match(H.HandleRequest(env, h, p, now), O.Complete(env, m', now), k)
  {
    hide Queued, O.QueueInv, O.ChannelsInv, H.QueueMessage, H.EnqueueMessage, O.Respond;
    var m1 := O.Begin(m, p.channel, p.command, p.length, p.data, now);
    if p.channel == 0 || p.channel == BROADCAST {
      RespondMatch(h, m1, k, p.channel, O.ERROR, [O.ERR_INVALID_CHANNEL]);
    } else if p.command !in {O.PING, O.MSG, O.LOCK, O.WINK, O.CBOR} {
      RespondMatch(h, m1, k, p.channel, O.ERROR, [O.ERR_INVALID_CMD]);
    } else if O.InvalidLength(p.command, p.length) {
      RespondMatch(h, m1, k, p.channel, O.ERROR, [O.ERR_INVALID_LEN]);
    } else if p.length <= INIT_DATA && O.Completable(m1) {
      var h' := h.(message := p.data[..Min(p.length, INIT_DATA)]);
      CompleteMatch(env, h', m1, p.command, k, now);
    }
  }

  /** A packet: both machines take the same step. */
  lemma PacketSim(env: O.Env, h: H.Host, m: O.Oracle, k: nat, p: Packet, now: nat)
    requires Sim(env, h, m, k) && H.Valid(h) && O.WellFormed(p)
    ensures var r := O.HandlePacket(env, m, p, now);
            Sim(env, H.HandlePacket(env, h, p, now), r.0, Written(m, k, r.1))
  {
    hide Queued, O.QueueInv, O.ChannelsInv;
    I.PacketInv(env, m, p, now);
    LeaseSim(env, h, m, k, now);
    O.AdmitCompletable(env, m, p, now);
    var m0, h0 := O.ExpireLease(m, now), H.ExpireLease(h, now);
    if p.Cont? {
      ContinuationMatch(env, h0, m0, k, p, now);
    } else {
      InitialPacketSim(env, h0, m0, k, p, now);
    }
  }

  lemma InitialPacketSim(env: O.Env, h: H.Host, m: O.Oracle, k: nat, p: Packet, now: nat)
    requires Sim(env, h, m, k) && H.Valid(h) && O.WellFormed(p) && p.Init?
    ensures var h1 := h.(channels := O.Touch(h.channels, p.channel));
            var h' := if p.command == O.CANCEL then H.HandleCancel(h1, p.channel)
                      else if p.command == O.INIT then H.HandleInit(env, h1, p)
                      else H.HandleRequest(env, h1, p, now);
            var m1 := m.(channels := O.Touch(m.channels, p.channel));
            var a := if p.command == O.CANCEL then O.Settled(O.AdmitCancel(m1, p.channel), None)
                     else if m1.lease.Some? && p.channel != m1.lease.value.channel
                     then O.Settled(O.Aside(m1, p.channel, O.ERROR, [O.ERR_BUSY]), None)
                     else if p.command == O.INIT then O.AdmitInit(env, m1, p, now)
                     else O.AdmitRequest(m1, p, now);
            match a
            case Settled(m', aborted) => Match(h', m', Written(m, k, aborted))
            case Completes(m') => O.Completable(m') ==> Match(h', O.Complete(env, m', now), k)
  {
    hide Queued, O.QueueInv, O.ChannelsInv;
    I.TouchInv(env, m, p.channel);
    var h1 := h.(channels := O.Touch(h.channels, p.channel));
    var m1 := m.(channels := O.Touch(m.channels, p.channel));
    assert Sim(env, h1, m1, k);
    if p.command == O.CANCEL {
      CancelMatch(env, h1, m1, k, p.channel);
    } else if H.LeaseConflicts(h1, p.channel) {
      AsideMatch(h1, m1, k, p.channel, O.ERROR, [O.ERR_BUSY]);
    } else if p.command == O.INIT {
      InitMatch(env, h1, m1, k, p, now);
    } else {
      RequestMatch(env, h1, m1, k, p, now);
    }
  }

  // ---------------------------------------------------------------- timers, the app, writes

  lemma ExpireIdentificationSim(env: O.Env, h: H.Host, m: O.Oracle, k: nat, now: nat)
    requires Sim(env, h, m, k)
    ensures Sim(env, H.ExpireIdentification(h, now), O.ExpireIdentification(m, now), k)
  {
    hide Queued, O.QueueInv, O.ChannelsInv, H.QueueMessage, H.EnqueueMessage, O.Respond;
    I.ExpireIdentificationInv(env, m, now);
    if h.phase.Identifying? && now >= h.phase.identification.deadline {
      RespondMatch(h, m, k, h.phase.channel, O.ERROR, [O.ERR_OTHER]);
    }
  }

  lemma ExpireU2fSim(env: O.Env, h: H.Host, m: O.Oracle, k: nat, now: nat)
    requires Sim(env, h, m, k)
    ensures Sim(env, H.ExpireU2f(h, now), O.ExpireU2f(m, now), k)
  {
    hide Queued, O.QueueInv, O.ChannelsInv;
    I.ExpireU2fInv(env, m, now);
  }

  lemma ExpirePhaseSim(env: O.Env, h: H.Host, m: O.Oracle, k: nat, now: nat)
    requires Sim(env, h, m, k)
    ensures Sim(env, H.ExpirePhase(h, now), O.ExpireOwner(m, now), k)
  {
    hide Queued, O.QueueInv, O.ChannelsInv, H.QueueMessage, H.EnqueueMessage, O.Respond;
    I.ExpireOwnerInv(env, m, now);
    if m.owner.Some? && !m.owner.value.responding {
      if h.phase.Receiving? {
        RespondMatch(h, m, k, h.phase.channel, O.ERROR, [O.ERR_TIMEOUT]);
      } else {
        RespondMatch(h, m, k, h.phase.channel, O.MSG, O.NOT_SATISFIED);
      }
    }
  }

  lemma LeaseSim(env: O.Env, h: H.Host, m: O.Oracle, k: nat, now: nat)
    requires Sim(env, h, m, k)
    ensures Sim(env, H.ExpireLease(h, now), O.ExpireLease(m, now), k)
  {
    hide Queued, O.QueueInv, O.ChannelsInv;
    I.LeaseInv(env, m, now);
  }

  lemma TimeoutSim(env: O.Env, h: H.Host, m: O.Oracle, k: nat, now: nat)
    requires Sim(env, h, m, k)
    ensures Sim(env, H.HandleTimeout(h, now), O.Timeout(m, now), k)
  {
    hide Sim;
    LeaseSim(env, h, m, k, now);
    ExpireIdentificationSim(env, H.ExpireLease(h, now), O.ExpireLease(m, now), k, now);
    var h1 := H.ExpireIdentification(H.ExpireLease(h, now), now);
    var m1 := O.ExpireIdentification(O.ExpireLease(m, now), now);
    ExpireU2fSim(env, h1, m1, k, now);
    ExpirePhaseSim(env, H.ExpireU2f(h1, now), O.ExpireU2f(m1, now), k, now);
  }

  /** The keepalive frame the host builds is the message the oracle expects. */
  lemma KeepaliveFrame(h: H.Host, channel: u32, status: byte)
    ensures H.QueueMessage(h, channel, O.KEEPALIVE, [status])
         == H.QueueFrames(h, [InitFrame(channel, O.KEEPALIVE, 1, [status])])
  {
    assert Chunk([status], INIT_DATA) == [status];
    assert Frames(channel, O.KEEPALIVE, [status], 1) == [InitFrame(channel, O.KEEPALIVE, 1, [status])];
  }

  lemma PresenceMatch(h: H.Host, m: O.Oracle, k: nat, waiting: bool)
    requires Match(h, m, k)
    ensures Match(H.AppPresence(h, waiting), O.ObservePresence(m, waiting), k)
  {
    hide Queued;
  }

  lemma KeepaliveMatch(h: H.Host, m: O.Oracle, k: nat, waiting: bool, now: nat)
    requires Match(h, m, k)
    ensures var (h', sent) := H.SendKeepalive(h, waiting, now);
            match O.KeepaliveDue(m, waiting, now)
            case None => !sent && h' == h
            case Some(status) =>
              var o := m.owner.value.(status := status, keepaliveAt := now);
              sent && Match(h', O.Aside(m.(owner := Some(o)), o.channel, O.KEEPALIVE, [status]), k)
  {
    hide Queued, H.QueueMessage, H.QueueFrames, O.Aside, InitFrame;
    var due := O.KeepaliveDue(m, waiting, now);
    if due.Some? {
      var h2 := h.(phase := h.phase.(keepaliveAt := now, keepaliveStatus := due.value));
      var m2 := m.(owner := Some(m.owner.value.(status := due.value, keepaliveAt := now)));
      AsideMatch(h2, m2, k, h.phase.channel, O.KEEPALIVE, [due.value]);
      KeepaliveFrame(h2, h.phase.channel, due.value);
    }
  }

  lemma KeepaliveSim(env: O.Env, h: H.Host, m: O.Oracle, k: nat, waiting: bool, now: nat)
    requires Sim(env, h, m, k)
    ensures var (h', sent) := H.SendKeepalive(H.AppPresence(h, waiting), waiting, now);
            var (m', expected) := O.Keepalive(m, waiting, now);
            sent == expected && Sim(env, h', m', k)
  {
    hide Match, O.Inv, H.SendKeepalive, H.AppPresence, O.ObservePresence, O.KeepaliveDue, O.Aside;
    I.KeepaliveInv(env, m, waiting, now);
    PresenceMatch(h, m, k, waiting);
    KeepaliveMatch(H.AppPresence(h, waiting), O.ObservePresence(m, waiting), k, waiting, now);
  }

  /** Identification and worker admission: the host hands out exactly what the
      oracle wants handed out. */
  lemma TakeSim(env: O.Env, h: H.Host, m: O.Oracle, k: nat)
    requires Sim(env, h, m, k)
    ensures var (h', request) := H.TakeIdentification(h);
            && request.Some? == O.WantsIdentification(m)
            && (request.Some? ==> m.owner.value.identification == request && Sim(env, h', O.TakeIdentification(m), k))
            && (request.None? ==> h' == h)
    ensures var (h', request) := H.TakeAppRequest(env, h);
            && request.Some? == O.WantsRequest(m)
            && (request.Some? ==>
                  && request.value == (m.owner.value.command, m.owner.value.request)
                  && 0 < |request.value.1| <= MAX_MESSAGE_SIZE
                  && Sim(env, h', O.TakeRequest(env, m), k))
            && (request.None? ==> h' == h)
  {
    hide Queued, O.QueueInv, O.ChannelsInv;
    I.IdentificationInv(env, m, 0, false, 0);
    if O.WantsRequest(m) {
      I.TakeInv(env, m);
    }
  }

  lemma IdentificationSim(env: O.Env, h: H.Host, m: O.Oracle, k: nat, token: nat, delivered: bool, now: nat)
    requires Sim(env, h, m, k)
    ensures Sim(env, H.IdentificationResponse(h, token, delivered, now),
                O.IdentificationResult(m, token, delivered, now), k)
  {
    hide Queued, O.QueueInv, O.ChannelsInv, H.QueueMessage, H.EnqueueMessage, O.Respond;
    I.IdentificationInv(env, m, token, delivered, now);
    if h.phase.Identifying? && h.phase.identification.token == token {
      if delivered && now < h.phase.identification.deadline {
        RespondMatch(h, m, k, h.phase.channel, O.WINK, []);
      } else {
        RespondMatch(h, m, k, h.phase.channel, O.ERROR, [O.ERR_OTHER]);
      }
    }
  }

  /** The host's notion of a direct answer is the oracle's. */
  lemma DirectSame(env: O.Env, h: H.Host, m: O.Oracle, k: nat)
    requires Sim(env, h, m, k) && m.worker.Some?
    ensures O.Direct(m) == (h.phase.Processing? && h.phase.request.None?)
    ensures O.Direct(m) ==> h.phase.command == m.worker.value.command && h.phase.channel == m.owner.value.channel
    ensures O.Direct(m) && m.poll.Some? && m.poll.value.answer.None? ==> m.poll.value.channel == m.owner.value.channel
  {
    hide Queued, O.QueueInv, O.ChannelsInv;
  }

  lemma StatusSame(response: seq<byte>)
    ensures H.StatusNotSatisfied(response) == O.EndsNotSatisfied(response)
  {
  }

  lemma DeliverMatch(h: H.Host, m: O.Oracle, k: nat, command: byte, response: seq<byte>)
    requires SameRest(h, m) && SameQueue(h, m, k) && SameOwner(h, m) && H.Valid(h) && command < 128
    requires h.phase.Processing? && h.phase.request.None? ==> h.phase.command == command
    ensures var direct := h.phase.Processing? && h.phase.request.None?;
            && (direct ==> O.Answerable(m, h.phase.channel))
            && Match(H.Deliver(h, response), if direct then O.Respond(m, h.phase.channel, command, response) else m, k)
  {
    hide Queued, O.QueueInv, O.ChannelsInv;
    if h.phase.Processing? && h.phase.request.None? {
      RespondMatch(h, m, k, h.phase.channel, command, response);
    }
  }

  lemma ApprovedMatch(env: O.Env, h: H.Host, m: O.Oracle, k: nat, response: seq<byte>, now: nat, finished: Option<nat>)
    requires Sim(env, h, m, k) && m.worker.Some? && m.worker.value.command == O.MSG && m.poll.Some? && H.Valid(h)
    requires !O.EndsNotSatisfied(response) && (!O.Direct(m) || O.Late(m, now, finished)) && finished.Some?
    ensures Match(H.AppResponse(h, response, now, finished), O.WorkerAnswer(env, m, response, now, finished), k)
  {
    hide Queued, O.QueueInv, O.ChannelsInv;
    DirectSame(env, h, m, k);
    StatusSame(response);
    var h1, m1 := h.(appBusy := false, appCommand := None, u2f := None), m.(worker := None, poll := None);
    if O.Late(m, now, finished) {
      RespondMatch(h1, m1, k, m.poll.value.channel, O.MSG, O.NOT_SATISFIED);
    }
  }

  lemma PlainAnswerMatch(env: O.Env, h: H.Host, m: O.Oracle, k: nat,
                         response: seq<byte>, now: nat, finished: Option<nat>)
    requires Sim(env, h, m, k) && m.worker.Some? && H.Valid(h)
    requires !(m.worker.value.command == O.MSG && m.poll.Some?)
          || (!O.EndsNotSatisfied(response) && !(!O.Direct(m) || O.Late(m, now, finished)))
    ensures Match(H.AppResponse(h, response, now, finished), O.WorkerAnswer(env, m, response, now, finished), k)
  {
    hide Queued, O.QueueInv, O.ChannelsInv;
    DirectSame(env, h, m, k);
    StatusSame(response);
    var h1, m1 := h.(appBusy := false, appCommand := None, u2f := None), m.(worker := None, poll := None);
    assert m.poll.None? ==> h1 == h.(appBusy := false, appCommand := None) && m1 == m.(worker := None);
    DeliverMatch(h1, m1, k, m.worker.value.command, response);
  }

  lemma AnswerSim(env: O.Env, h: H.Host, m: O.Oracle, k: nat, response: seq<byte>, now: nat, finished: Option<nat>)
    requires Sim(env, h, m, k) && m.worker.Some? && H.Valid(h)
    ensures Sim(env, H.AppResponse(h, response, now, finished), O.WorkerAnswer(env, m, response, now, finished), k)
  {
    hide Queued, O.QueueInv, O.ChannelsInv;
    I.AnswerInv(env, m, response, now, finished);
    DirectSame(env, h, m, k);
    StatusSame(response);
    if !(m.worker.value.command == O.MSG && m.poll.Some?) {
      PlainAnswerMatch(env, h, m, k, response, now, finished);
    } else if O.EndsNotSatisfied(response) {
      var p := m.poll.value;
      var denied := m.denied + [O.Denied(p.channel, p.request, p.last)];
      DeliverMatch(h.(appBusy := false, appCommand := None, u2f := None, denied := denied),
                   m.(worker := None, poll := None, denied := denied), k, O.MSG, response);
    } else if (!O.Direct(m) || O.Late(m, now, finished)) && finished.Some? {
      ApprovedMatch(env, h, m, k, response, now, finished);
    } else if O.Direct(m) {
      PlainAnswerMatch(env, h, m, k, response, now, finished);
    }
  }

  /** Writing a frame: either the front message goes on, or it is complete and
      the oracle sees the whole of it leave. */
  lemma WriteSim(env: O.Env, h: H.Host, m: O.Oracle, k: nat)
    requires Sim(env, h, m, k) && h.pending != []
    ensures m.replies != [] && h.pending[0].frame == ReplyFrames(m.replies[0])[k]
    ensures var h' := H.FrameWritten(h, h.pending[0]).0;
            if k + 1 < |ReplyFrames(m.replies[0])| then Sim(env, h', m, k + 1)
            else Sim(env, h', O.Output(env, m), 0)
  {
    QueuedPartial(h.pending, h.nextToken, Final(h.phase), m.replies, k);
    if k + 1 == |ReplyFrames(m.replies[0])| {
      QueuedLast(h.pending, h.nextToken, Final(h.phase), m.replies, k);
      I.OutputInv(env, m);
    }
  }
}
