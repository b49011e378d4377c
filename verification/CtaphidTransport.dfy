/** The production host object. Each method computes the step of the state
    machine in the module CtaphidHost. */
module CtaphidTransport {
  import opened Bytes
  import opened Framing
  import opened Machine = CtaphidHost
  import O = CtaphidOracle

  class CtaphidHost {
    const env: O.Env
    var phase: Phase
    var lease: Option<O.Lease>
    var message: seq<byte>
    var pending: seq<Outgoing>
    var nextToken: nat
    var nextIdentification: nat
    var channels: seq<u32>
    var drawn: nat
    var appBusy: bool
    var interruptApp: bool
    var appCommand: Option<byte>
    var u2f: Option<U2fPoll>
    var denied: seq<O.Denied>

    function View(): Host
      reads this
    {
      Host(phase, lease, message, pending, nextToken, nextIdentification, channels, drawn, appBusy, interruptApp,
           appCommand, u2f, denied)
    }

    constructor (env: O.Env)
      ensures this.env == env && View() == INITIAL
    {
      this.env := env;
      phase, lease, message, pending, nextToken, nextIdentification := Idle, None, [], [], 0, 0;
      channels, drawn, appBusy, interruptApp, appCommand, u2f, denied := [], 0, false, false, None, None, [];
    }

    // -------------------------------------------------------------- output

    method QueueFrame(frame: Frame) returns (token: nat)
      modifies this`pending, this`nextToken
      ensures View() == QueueFrames(old(View()), [frame]) && token == old(nextToken) == nextToken - 1
    {
      token := nextToken;
      nextToken := nextToken + 1;
      pending := pending + [Outgoing(frame, token)];
    }

    /** Queue the frames of a message one by one; the last one's token. */
    method Queue(channel: u32, command: byte, payload: seq<byte>) returns (finalFrame: nat)
      requires command < 128
      modifies this`pending, this`nextToken
      ensures View() == QueueMessage(old(View()), channel, command, payload) && finalFrame == nextToken - 1
    {
      var (sent, body) := if |payload| > MAX_MESSAGE_SIZE then (O.ERROR, [O.ERR_OTHER]) else (command, payload);
      var head := Chunk(body, INIT_DATA);
      var rest := body[|head|..];
      var sequence := 0;
      ghost var done := [InitFrame(channel, sent, |body|, head)];
      finalFrame := QueueFrame(InitFrame(channel, sent, |body|, head));
      while rest != []
        invariant View() == QueueFrames(old(View()), done) && finalFrame == nextToken - 1
        invariant done + ContFrames(channel, sequence, rest) == Frames(channel, sent, body, |body|)
        decreases |rest|
      {
        var chunk := Chunk(rest, CONT_DATA);
        var frame := ContFrame(channel, sequence, chunk);
        finalFrame := QueueFrame(frame);
        QueueOneMore(old(View()), done, frame);
        done := done + [frame];
        rest := rest[|chunk|..];
        sequence := sequence + 1;
      }
    }

    static lemma QueueOneMore(h: Host, frames: seq<Frame>, frame: Frame)
      ensures QueueFrames(QueueFrames(h, frames), [frame]) == QueueFrames(h, frames + [frame])
    {
      assert Tokened(frames + [frame], h.nextToken)
          == Tokened(frames, h.nextToken) + Tokened([frame], h.nextToken + |frames|);
    }

    method Enqueue(channel: u32, command: byte, payload: seq<byte>)
      requires command < 128
      modifies this
      ensures View() == EnqueueMessage(old(View()), channel, command, payload)
    {
      var finalFrame := Queue(channel, command, payload);
      phase := Transmitting(channel, finalFrame);
    }

    method QueueError(channel: u32, code: byte)
      modifies this
      ensures View() == EnqueueError(old(View()), channel, code)
    {
      var _ := Queue(channel, O.ERROR, [code]);
    }

    method Finish(channel: u32, code: byte)
      modifies this
      ensures View() == FinishError(old(View()), channel, code)
    {
      Enqueue(channel, O.ERROR, [code]);
    }

    method NextOutgoingFrame() returns (f: Option<Outgoing>)
      ensures f == if pending == [] then None else Some(pending[0])
    {
      f := if pending == [] then None else Some(pending[0]);
    }

    method OutgoingFrameWritten(f: Outgoing) returns (retired: bool)
      modifies this
      ensures (View(), retired) == FrameWritten(old(View()), f)
    {
      if !IsCurrent(View(), f) {
        return false;
      }
      pending := pending[1..];
      if phase.Transmitting? && phase.finalFrame == f.token {
        phase := Idle;
      }
      retired := true;
    }

    // -------------------------------------------------------------- packets

    method DropExpiredLease(now: nat)
      modifies this
      ensures View() == ExpireLease(old(View()), now)
    {
      if lease.Some? && now >= lease.value.expires {
        lease := None;
      }
    }

    method HandleFrame(frame: Frame, now: nat)
      requires Valid(View())
      modifies this
      ensures View() == HandlePacket(env, old(View()), Parse(frame), now)
    {
      DropExpiredLease(now);
      var p := Parse(frame);
      if p.Cont? {
        Continuation(p, now);
        return;
      }
      channels := O.Touch(channels, p.channel);
      if p.command == O.CANCEL {
        Cancel(p.channel);
      } else if p.command == O.INIT {
        Initialise(p);
      } else {
        Request(p, now);
      }
    }

    method Continuation(p: Packet, now: nat)
      requires p.Cont? && |p.data| == CONT_DATA && Valid(View())
      modifies this
      ensures View() == HandleContinuation(env, old(View()), p, now)
    {
      if !phase.Receiving? || phase.channel != p.channel {
        return;
      }
      if p.sequence as nat != phase.nextSequence {
        Finish(p.channel, O.ERR_INVALID_SEQ);
        return;
      }
      phase := phase.(nextSequence := phase.nextSequence + 1, lastPacketAt := now);
      var command, length := phase.command, phase.length;
      var missing := length - |message|;
      message := message + p.data[..Min(missing, CONT_DATA)];
      if |message| == length {
        Complete(p.channel, command, now);
      }
    }

    method Cancel(channel: u32)
      modifies this
      ensures View() == HandleCancel(old(View()), channel)
    {
      if !phase.Processing? || phase.channel != channel || phase.command != O.CBOR {
        return;
      }
      if phase.request.Some? {
        Enqueue(channel, O.CBOR, O.KEEPALIVE_CANCEL);
      } else {
        interruptApp := true;
      }
    }

    /** The channel CTAPHID_INIT assigns on the broadcast channel. */
    method AllocateChannel() returns (cid: Option<u32>)
      modifies this`drawn, this`channels
      ensures var r := O.DrawChannel(env, old(channels), old(drawn));
              && (cid, drawn) == r
              && channels == if cid.Some? then O.Allocate(old(channels), cid.value) else old(channels)
    {
      hide O.Misses, O.Assignable;
      cid := None;
      var left: nat := O.DRAW_LIMIT;
      ghost var misses := O.Misses(env, channels, drawn, left);
      while left > 0
        invariant drawn == old(drawn) + (O.DRAW_LIMIT - left)
        invariant left <= O.DRAW_LIMIT && channels == old(channels)
        invariant misses == (O.DRAW_LIMIT - left) + O.Misses(env, channels, drawn, left)
      {
        O.MissesStep(env, channels, drawn, left);
        var candidate := env.draw(drawn);
        drawn := drawn + 1;
        if O.Assignable(channels, candidate) {
          channels := (if |channels| == O.MAX_CHANNELS then channels[1..] else channels) + [candidate];
          return Some(candidate);
        }
        left := left - 1;
      }
      O.MissesStep(env, channels, drawn, 0);
    }

    method Refuse(channel: u32, code: byte, free: bool)
      modifies this
      ensures View() == RefuseInit(old(View()), channel, code, free)
    {
      if free {
        Finish(channel, code);
      } else {
        QueueError(channel, code);
      }
    }

    method Initialise(p: Packet)
      requires p.Init? && |p.data| == INIT_DATA
      modifies this
      ensures View() == HandleInit(env, old(View()), p)
    {
      hide O.Misses, O.DrawChannel, Resynchronise, QueueMessage, EnqueueMessage;
      var busy := BusyChannel(View());
      if LeaseConflicts(View(), p.channel) || (busy.Some? && busy.value != p.channel) {
        QueueError(p.channel, O.ERR_BUSY);
        return;
      }
      if p.length != 8 {
        Refuse(p.channel, O.ERR_INVALID_LEN, busy.None?);
        return;
      }
      var aborted := !phase.Idle?;
      var cid := p.channel;
      if p.channel == BROADCAST {
        var newCid := AllocateChannel();
        if newCid.None? {
          Refuse(p.channel, O.ERR_BUSY, !aborted);
          return;
        }
        cid := newCid.value;
      } else if !(p.channel != 0 && (aborted || p.channel in channels)) {
        Refuse(p.channel, O.ERR_INVALID_CHANNEL, !aborted);
        return;
      }
      Discard(p, cid);
    }

    method DropPoll(channel: u32)
      modifies this`u2f, this`interruptApp
      ensures var mine := old(u2f).Some? && old(u2f).value.channel == channel;
              && u2f == (if mine then None else old(u2f))
              && interruptApp == (old(interruptApp) || (mine && old(u2f).value.answer.None?))
    {
      if u2f.Some? && u2f.value.channel == channel {
        if u2f.value.answer.None? {
          interruptApp := true;
        }
        u2f := None;
      }
    }

    /** Drop all the channel has under way. */
    method Forget(channel: u32)
      modifies this`pending, this`message, this`u2f, this`denied, this`interruptApp, this`phase
      ensures View() == Forgotten(old(View()), channel)
    {
      hide O.DeniedElsewhere, FramesElsewhere;
      pending := FramesElsewhere(pending, channel);
      message := [];
      DropPoll(channel);
      denied := O.DeniedElsewhere(denied, channel);
      if phase.Processing? && phase.request.None? {
        interruptApp := true;
      }
      if !phase.Idle? {
        phase := Idle;
      }
    }

    /** Validation succeeded: the channel starts afresh and is answered. */
    method Discard(p: Packet, cid: u32)
      requires p.Init? && |p.data| == INIT_DATA
      modifies this
      ensures View() == Resynchronise(old(View()), p, cid)
    {
      hide Forgotten, O.InitReply, EnqueueMessage;
      Forget(p.channel);
      Enqueue(p.channel, O.INIT, O.InitReply(p.data, cid));
    }

    method Request(p: Packet, now: nat)
      requires p.Init? && |p.data| == INIT_DATA
      modifies this
      ensures View() == HandleRequest(env, old(View()), p, now)
    {
      hide CompleteMessage, QueueMessage, EnqueueMessage;
      if LeaseConflicts(View(), p.channel) {
        QueueError(p.channel, O.ERR_BUSY);
        return;
      }
      var busy := BusyChannel(View());
      if busy.Some? {
        if || busy.value != p.channel
           || phase.Processing? || phase.Identifying? || phase.Transmitting?
           || (phase.Idle? && p.command != O.MSG) {
          QueueError(p.channel, O.ERR_BUSY);
          return;
        }
        if phase.Receiving? {
          Finish(p.channel, O.ERR_INVALID_SEQ);
          return;
        }
      }
      if p.channel == 0 || p.channel == BROADCAST {
        Finish(p.channel, O.ERR_INVALID_CHANNEL);
      } else if p.command !in {O.PING, O.CBOR, O.MSG, O.LOCK, O.WINK} {
        Finish(p.channel, O.ERR_INVALID_CMD);
      } else if O.InvalidLength(p.command, p.length) {
        Finish(p.channel, O.ERR_INVALID_LEN);
      } else {
        message := p.data[..Min(p.length, INIT_DATA)];
        if p.length <= INIT_DATA {
          Complete(p.channel, p.command, now);
        } else {
          phase := Receiving(p.channel, p.command, p.length, 0, now);
        }
      }
    }

    method Complete(channel: u32, command: byte, now: nat)
      requires command in {O.PING, O.MSG, O.LOCK, O.WINK, O.CBOR}
      requires command == O.LOCK ==> message != []
      modifies this
      ensures View() == CompleteMessage(env, old(View()), channel, command, now)
    {
      hide QueueMessage, EnqueueMessage, CompleteMsg;
      if command == O.WINK {
        var token := nextIdentification;
        nextIdentification := token + 1;
        phase := Identifying(channel, O.Identification(token, now + O.IDENTIFICATION_TIMEOUT_MS), false);
        return;
      }
      if command == O.LOCK {
        var seconds := message[0] as nat;
        if seconds > 10 {
          Finish(channel, O.ERR_INVALID_PAR);
        } else {
          lease := if seconds != 0 then Some(O.Lease(channel, now + seconds * 1_000)) else None;
          Enqueue(channel, O.LOCK, []);
        }
        return;
      }
      if command == O.MSG {
        var answered := AnswerFromPolls(channel, now);
        if answered {
          return;
        }
      }
      if command == O.PING {
        Enqueue(channel, O.PING, message);
        return;
      }
      u2f := None;
      phase := Processing(channel, command, now, Some(message), now, 1);
    }

    /** The U2F replies that need no worker. */
    method AnswerFromPolls(channel: u32, now: nat) returns (answered: bool)
      modifies this
      ensures CompleteMsg(env, old(View()), channel, now)
           == if answered then View() else StartProcessing(View(), channel, O.MSG, now)
    {
      hide QueueMessage, EnqueueMessage, FinishError, CheckDenials;
      answered := true;
      if u2f.Some? {
        if u2f.value.channel == channel && u2f.value.request == message {
          u2f := Some(u2f.value.(lastPoll := now));
          var response := PollAnswer(u2f.value, now);
          if response.Some? {
            if u2f.value.answer.Some? {
              u2f := None;
            }
            Enqueue(channel, O.MSG, response.value);
            return;
          }
        } else if u2f.value.answer.None? {
          Finish(channel, O.ERR_BUSY);
          return;
        }
      }
      answered := AnswerFromDenials(channel, now);
    }

    method AnswerFromDenials(channel: u32, now: nat) returns (answered: bool)
      modifies this
      ensures CheckDenials(env, old(View()), channel, now)
           == if answered then View() else StartProcessing(View(), channel, O.MSG, now)
    {
      hide QueueMessage, EnqueueMessage;
      answered := true;
      var i := 0;
      while i < |denied| && !(denied[i].channel == channel && denied[i].request == message)
        invariant i <= |denied|
        invariant FindDenied(denied, channel, message) == i + FindDenied(denied[i..], channel, message)
      {
        i := i + 1;
      }
      if i < |denied| && Since(now, denied[i].last) <= O.U2F_POLL_TIMEOUT_MS {
        denied := denied[i := denied[i].(last := now)];
        Enqueue(channel, O.MSG, O.NOT_SATISFIED);
        return;
      }
      denied := O.FreshDenied(denied, now);
      if env.presence(message) && |denied| >= O.MAX_CHANNELS {
        Finish(channel, O.ERR_BUSY);
        return;
      }
      answered := false;
    }

    // -------------------------------------------------------------- timers

    method Timeout(now: nat)
      modifies this
      ensures View() == HandleTimeout(old(View()), now)
    {
      hide EnqueueMessage, ExpirePhase;
      DropExpiredLease(now);
      if phase.Identifying? && now >= phase.identification.deadline {
        Finish(phase.channel, O.ERR_OTHER);
      }
      denied := O.FreshDenied(denied, now);
      if u2f.Some? && now >= Deadline(u2f.value) {
        if u2f.value.answer.None? {
          interruptApp := true;
        }
        u2f := None;
      }
      EndOverdue(now);
    }

    /** A U2F client that has waited long enough, or a packet overdue. */
    method EndOverdue(now: nat)
      modifies this
      ensures View() == ExpirePhase(old(View()), now)
    {
      hide EnqueueMessage;
      if && phase.Processing? && phase.command == O.MSG && phase.request.None?
         && u2f.Some? && u2f.value.presenceStarted && Since(now, u2f.value.started) >= O.U2F_RESPONSE_WAIT_MS {
        Enqueue(phase.channel, O.MSG, O.NOT_SATISFIED);
      }
      if phase.Receiving? && now >= phase.lastPacketAt + O.CONTINUATION_TIMEOUT_MS {
        Finish(phase.channel, O.ERR_TIMEOUT);
      }
    }

    method Presence(waiting: bool)
      modifies this
      ensures View() == AppPresence(old(View()), waiting)
    {
      if waiting && appCommand == Some(O.MSG) && u2f.Some? {
        u2f := Some(u2f.value.(presenceStarted := true));
      }
    }

    method Keepalive(waiting: bool, now: nat) returns (queued: bool)
      modifies this
      ensures (View(), queued) == SendKeepalive(old(View()), waiting, now)
    {
      if !phase.Processing? {
        return false;
      }
      var status: byte := if waiting && phase.request.None? then 2 else 1;
      if status == phase.keepaliveStatus && now < phase.keepaliveAt + O.KEEPALIVE_INTERVAL_MS {
        return false;
      }
      phase := phase.(keepaliveAt := now, keepaliveStatus := status);
      var _ := QueueFrame(InitFrame(phase.channel, O.KEEPALIVE, 1, [status]));
      queued := true;
    }

    /** `take_interrupt`: reading the flag clears it. */
    method TakeInterrupt() returns (raised: bool)
      modifies this
      ensures View() == old(View()).(interruptApp := false) && raised == old(interruptApp)
    {
      raised := interruptApp;
      interruptApp := false;
    }

    /** The earliest of the deadlines, if there is one. */
    method NextDeadline() returns (next: Option<nat>)
      ensures next.None? <==> Deadlines(View()) == []
      ensures next.Some? ==> next.value in Deadlines(View()) && forall d :: d in Deadlines(View()) ==> next.value <= d
    {
      var all := Deadlines(View());
      next := None;
      for i := 0 to |all|
        invariant next.None? <==> i == 0
        invariant next.Some? ==> next.value in all && forall j :: 0 <= j < i ==> next.value <= all[j]
      {
        if next.None? || all[i] < next.value {
          next := Some(all[i]);
        }
      }
    }

    // -------------------------------------------------------------- identification and the app

    method TakeIdentificationRequest() returns (request: Option<O.Identification>)
      modifies this
      ensures (View(), request) == TakeIdentification(old(View()))
    {
      if !phase.Identifying? || phase.submitted {
        return None;
      }
      phase := phase.(submitted := true);
      request := Some(phase.identification);
    }

    method IdentificationDone(token: nat, delivered: bool, now: nat)
      modifies this
      ensures View() == IdentificationResponse(old(View()), token, delivered, now)
    {
      if !phase.Identifying? || phase.identification.token != token {
        return;
      }
      if delivered && now < phase.identification.deadline {
        Enqueue(phase.channel, O.WINK, []);
      } else {
        Finish(phase.channel, O.ERR_OTHER);
      }
    }

    method TakeRequest() returns (request: Option<(byte, seq<byte>)>)
      modifies this
      ensures (View(), request) == TakeAppRequest(env, old(View()))
    {
      if appBusy || !phase.Processing? || phase.request.None? {
        return None;
      }
      var payload, command := phase.request.value, phase.command;
      phase := phase.(request := None);
      if command == O.MSG && env.presence(payload) {
        u2f := Some(U2fPoll(phase.channel, payload, phase.started, phase.started, false, None));
      }
      appBusy := true;
      appCommand := Some(command);
      request := Some((command, payload));
    }

    method Respond(response: seq<byte>, now: nat, finished: Option<nat>)
      requires Valid(View())
      modifies this
      ensures View() == AppResponse(old(View()), response, now, finished)
    {
      hide EnqueueMessage, StatusNotSatisfied, Deliver;
      appBusy := false;
      var command := appCommand;
      appCommand := None;
      if command == Some(O.MSG) && u2f.Some? {
        var poll := u2f.value;
        u2f := None;
        var direct := phase.Processing? && phase.command == O.MSG && phase.request.None?;
        var late := direct && finished.Some? && Since(now, poll.started) > O.U2F_RESPONSE_WAIT_MS;
        if StatusNotSatisfied(response) {
          denied := denied + [O.Denied(poll.channel, poll.request, poll.lastPoll)];
        } else if !direct || late {
          if late {
            Enqueue(poll.channel, O.MSG, O.NOT_SATISFIED);
          }
          if finished.Some? && now <= finished.value + O.U2F_APPROVAL_MS {
            u2f := Some(poll.(answer := Some(O.Answer(response, finished.value + O.U2F_APPROVAL_MS))));
          }
          return;
        }
      }
      DeliverNow(response);
    }

    /** To the transaction that waits for it, if that is still there. */
    method DeliverNow(response: seq<byte>)
      requires Valid(View())
      modifies this
      ensures View() == Deliver(old(View()), response)
    {
      hide EnqueueMessage;
      if !phase.Processing? || phase.request.Some? {
        return;
      }
      Enqueue(phase.channel, phase.command, response);
    }
  }
}
