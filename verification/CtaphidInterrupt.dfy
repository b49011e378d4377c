/** When the production host asks the app to give up: exactly when a step drops
    work the app still holds, or cancels it. */
module CtaphidInterrupt {
  import opened Bytes
  import opened Framing
  import opened CtaphidRefinement
  import O = CtaphidOracle
  import H = CtaphidHost

  /** The app has the request of the transaction. */
  predicate Held(h: H.Host) {
    h.phase.Processing? && h.phase.request.None?
  }

  /** The app has a U2F request that a later poll may still collect. */
  predicate Prompting(h: H.Host) {
    h.u2f.Some? && h.u2f.value.answer.None?
  }

  /** Work the app holds is wanted no longer: a prompt nobody will poll again,
      or a transaction that is over and not left to its polls. */
  predicate Drops(h: H.Host, h': H.Host) {
    || (Prompting(h) && !Prompting(h'))
    || (Held(h) && !Held(h') && !Prompting(h'))
  }

  /** CANCEL for a CBOR request the app holds: it is to answer early. */
  predicate Cancels(h: H.Host, p: Packet) {
    p.Init? && p.command == O.CANCEL && Held(h) && h.phase.channel == p.channel && h.phase.command == O.CBOR
  }

  /** The flag is raised by a drop, and otherwise stays. */
  predicate RaisedByDrop(h: H.Host, h': H.Host) {
    h'.interruptApp <==> h.interruptApp || Drops(h, h')
  }

  /** Only an app that is at work holds something. */
  lemma HolderIsBusy(env: O.Env, h: H.Host, m: O.Oracle, k: nat)
    requires Sim(env, h, m, k)
    ensures Held(h) || Prompting(h) ==> h.appBusy
    ensures Held(h) && h.u2f.Some? ==> Prompting(h)
    ensures Prompting(h) && h.phase.Receiving? ==> h.phase.command == O.MSG && h.phase.channel == h.u2f.value.channel
    ensures Prompting(h) && !h.phase.Idle? ==> h.phase.channel == h.u2f.value.channel
  {
    hide SameQueue, O.QueueInv, O.ChannelsInv, O.DeniedInv;
  }

  lemma MsgInterrupt(env: O.Env, h: H.Host, channel: u32, now: nat)
    requires !Held(h)
    ensures RaisedByDrop(h, H.CompleteMsg(env, h, channel, now))
  {
    hide H.EnqueueMessage, H.FindDenied, O.FreshDenied, H.OnlyQueues;
  }

  lemma CompleteInterrupt(env: O.Env, h: H.Host, channel: u32, command: byte, now: nat)
    requires command in {O.PING, O.MSG, O.LOCK, O.WINK, O.CBOR} && (command == O.LOCK ==> h.message != [])
    requires !Held(h) && (Prompting(h) ==> command == O.MSG)
    ensures RaisedByDrop(h, H.CompleteMessage(env, h, channel, command, now))
  {
    hide H.EnqueueMessage, H.CompleteMsg, H.OnlyQueues;
    MsgInterrupt(env, h, channel, now);
  }

  lemma ContinuationInterrupt(env: O.Env, h: H.Host, p: Packet, now: nat)
    requires H.Valid(h) && O.WellFormed(p) && p.Cont?
    requires Prompting(h) && h.phase.Receiving? ==> h.phase.command == O.MSG
    ensures RaisedByDrop(h, H.HandleContinuation(env, h, p, now))
  {
    hide H.EnqueueMessage, H.CompleteMessage, H.OnlyQueues;
    if h.phase.Receiving? {
      var h' := h.(
        phase := h.phase.(nextSequence := h.phase.nextSequence + 1, lastPacketAt := now),
        message := h.message + p.data[..Min(h.phase.length - |h.message|, CONT_DATA)]);
      CompleteInterrupt(env, h', p.channel, h.phase.command, now);
    }
  }

  lemma InitInterrupt(env: O.Env, h: H.Host, p: Packet)
    requires O.WellFormed(p) && p.Init?
    requires Prompting(h) && !h.phase.Idle? ==> h.phase.channel == h.u2f.value.channel
    ensures RaisedByDrop(h, H.HandleInit(env, h, p))
  {
    hide H.QueueMessage, H.EnqueueMessage, H.FramesElsewhere, O.DeniedElsewhere,
         O.InitReply, O.DrawChannel, H.OnlyQueues;
  }

  lemma RequestInterrupt(env: O.Env, h: H.Host, p: Packet, now: nat)
    requires O.WellFormed(p) && p.Init?
    requires Prompting(h) && !h.phase.Idle? ==> h.phase.channel == h.u2f.value.channel
    requires Prompting(h) && h.phase.Receiving? ==> h.phase.command == O.MSG
    ensures RaisedByDrop(h, H.HandleRequest(env, h, p, now))
  {
    hide H.QueueMessage, H.EnqueueMessage, H.CompleteMessage, H.OnlyQueues;
    var h' := h.(message := p.data[..Min(p.length, INIT_DATA)]);
    if && p.length <= INIT_DATA && p.command in {O.PING, O.CBOR, O.MSG, O.LOCK, O.WINK}
       && !O.InvalidLength(p.command, p.length) && !Held(h) && (Prompting(h) ==> p.command == O.MSG) {
      CompleteInterrupt(env, h', p.channel, p.command, now);
    }
  }

  /** A packet raises the flag exactly if it drops what the app holds or
      cancels it. */
  lemma PacketInterrupt(env: O.Env, h: H.Host, m: O.Oracle, k: nat, p: Packet, now: nat)
    requires Sim(env, h, m, k) && H.Valid(h) && O.WellFormed(p)
    ensures var h' := H.HandlePacket(env, h, p, now);
            h'.interruptApp <==> h.interruptApp || Drops(h, h') || Cancels(h, p)
  {
    hide Sim, H.HandleRequest, H.HandleInit, H.HandleContinuation, H.EnqueueMessage, H.OnlyQueues, O.Touch;
    HolderIsBusy(env, h, m, k);
    var h0 := H.ExpireLease(h, now);
    if p.Cont? {
      ContinuationInterrupt(env, h0, p, now);
    } else {
      var h1 := h0.(channels := O.Touch(h0.channels, p.channel));
      InitInterrupt(env, h1, p);
      RequestInterrupt(env, h1, p, now);
    }
  }

  /** A timer raises it exactly if it gives a prompt up. */
  lemma TimeoutInterrupt(h: H.Host, now: nat)
    requires Held(h) && h.u2f.Some? ==> Prompting(h)
    ensures RaisedByDrop(h, H.HandleTimeout(h, now))
  {
    hide H.EnqueueMessage, H.OnlyQueues, O.FreshDenied;
  }

  lemma KeepaliveInterrupt(h: H.Host, waiting: bool, now: nat)
    ensures RaisedByDrop(h, H.SendKeepalive(H.AppPresence(h, waiting), waiting, now).0)
  {
    hide H.OnlyQueues;
  }

  lemma TakeInterrupt(env: O.Env, h: H.Host, m: O.Oracle, k: nat)
    requires Sim(env, h, m, k)
    ensures RaisedByDrop(h, H.TakeAppRequest(env, h).0)
    ensures RaisedByDrop(h, H.TakeIdentification(h).0)
  {
    hide Sim;
    HolderIsBusy(env, h, m, k);
  }

  lemma ResultInterrupt(h: H.Host, token: nat, delivered: bool, now: nat)
    ensures RaisedByDrop(h, H.IdentificationResponse(h, token, delivered, now))
  {
    hide H.EnqueueMessage, H.OnlyQueues;
  }

  lemma WriteInterrupt(h: H.Host, f: H.Outgoing)
    ensures RaisedByDrop(h, H.FrameWritten(h, f).0)
  {
  }

  /** Work that is answered is not dropped. */
  lemma AnswerInterrupt(h: H.Host, response: seq<byte>, now: nat, finished: Option<nat>)
    requires H.Valid(h)
    ensures H.AppResponse(h, response, now, finished).interruptApp == h.interruptApp
  {
    hide H.EnqueueMessage, H.OnlyQueues, H.StatusNotSatisfied;
  }
}
