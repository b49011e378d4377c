/** The oracle as the object the fuzz target keeps beside the real host. Each
    method takes the step of the state machine in CtaphidOracle, and the
    assertions of the source are assertions here. */
module CtaphidModel {
  import opened Bytes
  import opened Framing
  import opened CtaphidOracle
  import I = CtaphidInvariant

  class Model {
    const env: Env
    var drawn: nat
    var channels: seq<u32>
    var owner: Option<Owner>
    var worker: Option<Worker>
    var poll: Option<Poll>
    var denied: seq<Denied>
    var replies: seq<Reply>
    var nextId: nat
    var lease: Option<Lease>
    var nextIdentification: nat

    function View(): Oracle
      reads this
    {
      Oracle(drawn, channels, owner, worker, poll, denied, replies, nextId, lease, nextIdentification)
    }

    predicate Valid()
      reads this
    {
      Inv(env, View())
    }

    constructor (env: Env)
      ensures this.env == env && View() == INITIAL && Valid()
    {
      this.env := env;
      drawn, channels, owner, worker, poll := 0, [], None, None, None;
      denied, replies, nextId, lease, nextIdentification := [], [], 0, None, 0;
    }

    method BeginTransaction(channel: u32, command: byte, length: nat, data: seq<byte>, now: nat)
      modifies this
      ensures View() == Begin(old(View()), channel, command, length, data, now)
    {
      var id := nextId;
      nextId := nextId + 1;
      owner := Some(Owner(id, channel, command, length, data[..Min(length, |data|)], 0, now, now,
                          false, false, now, 1, None));
    }

    method Send(channel: u32, command: byte, payload: seq<byte>, terminal: bool)
      requires terminal ==> Answerable(View(), channel)
      modifies this
      ensures View() == if terminal then Respond(old(View()), channel, command, payload)
                        else Aside(old(View()), channel, command, payload)
    {
      var completes := None;
      if terminal {
        assert owner.Some?;
        assert owner.value.channel == channel;
        assert !owner.value.responding;
        owner := Some(owner.value.(responding := true));
        completes := Some(owner.value.id);
      }
      if |payload| > MAX_MESSAGE_SIZE {
        replies := replies + [Reply(channel, ERROR, [ERR_OTHER], completes)];
      } else {
        replies := replies + [Reply(channel, command, payload, completes)];
      }
    }

    method SendError(channel: u32, code: byte, terminal: bool)
      requires terminal ==> Answerable(View(), channel)
      modifies this
      ensures View() == if terminal then Respond(old(View()), channel, ERROR, [code])
                        else Aside(old(View()), channel, ERROR, [code])
    {
      Send(channel, ERROR, [code], terminal);
    }

    method DropExpiredLease(now: nat)
      modifies this
      ensures View() == ExpireLease(old(View()), now)
    {
      if lease.Some? && now >= lease.value.expires {
        lease := None;
      }
    }

    method Packet(frame: Frame, now: nat) returns (aborted: Option<u32>)
      requires Valid()
      modifies this
      ensures Valid() && (View(), aborted) == HandlePacket(env, old(View()), Parse(frame), now)
    {
      ghost var before := View();
      var p := Parse(frame);
      I.PacketInv(env, before, p, now);
      AdmitCompletable(env, before, p, now);
      aborted := None;
      DropExpiredLease(now);
      if p.Cont? {
        var complete := Continuation(p, now);
        if complete {
          CompleteRequest(now);
        }
        return;
      }
      channels := Touch(channels, p.channel);
      if p.command == CANCEL {
        Cancel(p.channel);
      } else if lease.Some? && p.channel != lease.value.channel {
        SendError(p.channel, ERR_BUSY, false);
      } else if p.command == INIT {
        aborted := Initialise(p, now);
      } else {
        var complete := Request(p, now);
        if complete {
          CompleteRequest(now);
        }
      }
    }

    method Continuation(p: Packet, now: nat) returns (complete: bool)
      requires p.Cont? && |p.data| == CONT_DATA
      modifies this
      ensures AdmitContinuation(old(View()), p, now)
           == if complete then Completes(View()) else Settled(View(), None)
    {
      complete := false;
      if owner.Some? && owner.value.channel == p.channel && IsReceiving(owner.value) {
        var o := owner.value;
        if p.sequence as nat != o.sequence {
          SendError(p.channel, ERR_INVALID_SEQ, true);
        } else {
          var count := Min(o.length - |o.request|, CONT_DATA);
          owner := Some(o.(sequence := o.sequence + 1, at := now, request := o.request + p.data[..count]));
          complete := |owner.value.request| == owner.value.length;
        }
      }
    }

    method Cancel(channel: u32)
      modifies this
      ensures View() == AdmitCancel(old(View()), channel)
    {
      if && owner.Some? && owner.value.channel == channel && owner.value.command == CBOR
         && !owner.value.responding && |owner.value.request| == owner.value.length && !owner.value.submitted {
        Send(channel, CBOR, KEEPALIVE_CANCEL, true);
      }
    }

    /** Draw until a number is free to be a channel, at most DRAW_LIMIT times. */
    method DrawFree() returns (cid: Option<u32>)
      modifies this`drawn
      ensures (cid, drawn) == DrawChannel(env, channels, old(drawn))
    {
      hide Misses, Assignable;
      cid := None;
      var left: nat := DRAW_LIMIT;
      ghost var misses := Misses(env, channels, drawn, left);
      while left > 0
        invariant drawn == old(drawn) + (DRAW_LIMIT - left)
        invariant left <= DRAW_LIMIT
        invariant misses == (DRAW_LIMIT - left) + Misses(env, channels, drawn, left)
      {
        MissesStep(env, channels, drawn, left);
        var candidate := env.draw(drawn);
        drawn := drawn + 1;
        if Assignable(channels, candidate) {
          return Some(candidate);
        }
        left := left - 1;
      }
      MissesStep(env, channels, drawn, 0);
    }

    method Initialise(p: Packet, now: nat) returns (aborted: Option<u32>)
      requires p.Init? && |p.data| == INIT_DATA && p.command == INIT
      modifies this
      ensures AdmitInit(env, old(View()), p, now) == Settled(View(), aborted)
    {
      hide Misses, DrawChannel, Resynchronise;
      aborted := None;
      var busy := Busy(View());
      if busy.Some? && busy.value != p.channel {
        SendError(p.channel, ERR_BUSY, false);
        return;
      }
      if p.length != 8 {
        Refuse(p, ERR_INVALID_LEN, busy.None?, now);
        return;
      }
      var active := owner.Some?;
      var cid := p.channel;
      if p.channel == BROADCAST {
        var drawnCid := DrawFree();
        if drawnCid.None? {
          Refuse(p, ERR_BUSY, !active, now);
          return;
        }
        cid := drawnCid.value;
        if |channels| == MAX_CHANNELS {
          channels := channels[1..];
        }
        channels := channels + [cid];
      } else if !(p.channel != 0 && (active || p.channel in channels)) {
        Refuse(p, ERR_INVALID_CHANNEL, !active, now);
        return;
      }
      Discard(p, cid, now);
      aborted := Some(p.channel);
    }

    /** Drop all the channel has under way and answer. */
    method Discard(p: Packet, cid: u32, now: nat)
      requires p.Init? && |p.data| == INIT_DATA && p.command == INIT
      modifies this
      ensures View() == Resynchronise(old(View()), p, cid, now)
    {
      hide RepliesElsewhere, DeniedElsewhere, InitReply;
      replies := RepliesElsewhere(replies, p.channel);
      if poll.Some? && poll.value.channel == p.channel {
        poll := None;
      }
      denied := DeniedElsewhere(denied, p.channel);
      BeginTransaction(p.channel, p.command, p.length, p.data, now);
      Send(p.channel, INIT, InitReply(p.data, cid), true);
    }

    method Refuse(p: Packet, code: byte, terminal: bool, now: nat)
      requires p.Init?
      modifies this
      ensures View() == RefuseInit(old(View()), p, code, terminal, now)
    {
      if terminal {
        BeginTransaction(p.channel, p.command, p.length, p.data, now);
      }
      SendError(p.channel, code, terminal);
    }

    method Request(p: Packet, now: nat) returns (complete: bool)
      requires p.Init? && |p.data| == INIT_DATA
      modifies this
      ensures AdmitRequest(old(View()), p, now) == if complete then Completes(View()) else Settled(View(), None)
    {
      complete := false;
      var busy := Busy(View());
      if busy.Some? {
        var receiving := owner.Some? && IsReceiving(owner.value);
        if busy.value != p.channel || (owner.Some? && !receiving) || (owner.None? && p.command != MSG) {
          SendError(p.channel, ERR_BUSY, false);
          return;
        }
        if receiving {
          SendError(p.channel, ERR_INVALID_SEQ, true);
          return;
        }
      }
      BeginTransaction(p.channel, p.command, p.length, p.data, now);
      if p.channel == 0 || p.channel == BROADCAST {
        SendError(p.channel, ERR_INVALID_CHANNEL, true);
      } else if p.command !in {PING, MSG, LOCK, WINK, CBOR} {
        SendError(p.channel, ERR_INVALID_CMD, true);
      } else if InvalidLength(p.command, p.length) {
        SendError(p.channel, ERR_INVALID_LEN, true);
      } else {
        complete := p.length <= INIT_DATA;
      }
    }

    method CompleteRequest(now: nat)
      requires Completable(View())
      modifies this
      ensures View() == Complete(env, old(View()), now)
    {
      owner := Some(owner.value.(started := now, keepaliveAt := now));
      var channel, command, request := owner.value.channel, owner.value.command, owner.value.request;
      if command == LOCK {
        var seconds := request[0] as nat;
        if seconds > 10 {
          SendError(channel, ERR_INVALID_PAR, true);
        } else {
          lease := if seconds != 0 then Some(Lease(channel, now + seconds * 1_000)) else None;
          Send(channel, LOCK, [], true);
        }
        return;
      }
      if command == WINK {
        var token := nextIdentification;
        nextIdentification := nextIdentification + 1;
        owner := Some(owner.value.(identification := Some(Identification(token, now + IDENTIFICATION_TIMEOUT_MS))));
        return;
      }
      if command == PING {
        Send(channel, PING, request, true);
        return;
      }
      if command == MSG {
        var answered := AnswerFromPolls(channel, request, now);
        if answered {
          return;
        }
      }
      poll := None;
    }

    /** The U2F replies that need no worker: a stored or pending poll, a recent
        denial, or a full table of denials. */
    method AnswerFromPolls(channel: u32, request: seq<byte>, now: nat) returns (answered: bool)
      requires Completable(View()) && owner.value.command == MSG
      requires channel == owner.value.channel && request == owner.value.request
      modifies this
      ensures CompleteMsg(env, old(View()), now) == if answered then View() else View().(poll := None)
    {
      hide Respond, CheckDenials;
      answered := true;
      if poll.Some? {
        if poll.value.channel == channel && poll.value.request == request {
          poll := Some(poll.value.(last := now));
          if poll.value.answer.None? {
            Send(channel, MSG, NOT_SATISFIED, true);
            return;
          }
          if now <= poll.value.answer.value.expires {
            var response := poll.value.answer.value.bytes;
            poll := None;
            Send(channel, MSG, response, true);
            return;
          }
        } else if poll.value.answer.None? {
          SendError(channel, ERR_BUSY, true);
          return;
        }
      }
      answered := AnswerFromDenials(channel, request, now);
    }

    method AnswerFromDenials(channel: u32, request: seq<byte>, now: nat) returns (answered: bool)
      requires Completable(View()) && owner.value.command == MSG
      requires channel == owner.value.channel && request == owner.value.request
      modifies this
      ensures CheckDenials(env, old(View()), now) == if answered then View() else View().(poll := None)
    {
      answered := true;
      var i := 0;
      while i < |denied| && !Suppresses(denied[i], channel, request, now)
        invariant i <= |denied|
        invariant FindDenied(denied, channel, request, now) == i + FindDenied(denied[i..], channel, request, now)
      {
        i := i + 1;
      }
      if i < |denied| {
        denied := denied[i := denied[i].(last := now)];
        Send(channel, MSG, NOT_SATISFIED, true);
        return;
      }
      denied := FreshDenied(denied, now);
      if env.presence(request) && |denied| >= MAX_CHANNELS {
        SendError(channel, ERR_BUSY, true);
        return;
      }
      answered := false;
    }

    method HandleTimeout(now: nat)
      requires Valid()
      modifies this
      ensures Valid() && View() == Timeout(old(View()), now)
    {
      I.TimeoutInv(env, View(), now);
      DropExpiredLease(now);
      if && owner.Some? && !owner.value.responding && owner.value.identification.Some?
         && now >= owner.value.identification.value.deadline {
        SendError(owner.value.channel, ERR_OTHER, true);
      }
      denied := FreshDenied(denied, now);
      if poll.Some? && now > PollDeadline(poll.value) {
        poll := None;
      }
      if owner.Some? && !owner.value.responding {
        var o := owner.value;
        if |o.request| < o.length && now >= o.at + CONTINUATION_TIMEOUT_MS {
          SendError(o.channel, ERR_TIMEOUT, true);
        } else if && o.command == MSG && o.submitted && poll.Some? && poll.value.presence
                  && Since(now, poll.value.started) >= U2F_RESPONSE_WAIT_MS {
          Send(o.channel, MSG, NOT_SATISFIED, true);
        }
      }
    }

    method SendKeepalive(waiting: bool, now: nat) returns (sent: bool)
      requires Valid()
      modifies this
      ensures Valid() && (View(), sent) == Keepalive(old(View()), waiting, now)
    {
      I.KeepaliveInv(env, View(), waiting, now);
      if waiting && worker.Some? && worker.value.command == MSG && poll.Some? {
        poll := Some(poll.value.(presence := true));
      }
      if || owner.None? || owner.value.responding || |owner.value.request| != owner.value.length
         || owner.value.command !in {MSG, CBOR} {
        return false;
      }
      var status: byte := if waiting && owner.value.submitted then 2 else 1;
      if status == owner.value.status && now < owner.value.keepaliveAt + KEEPALIVE_INTERVAL_MS {
        return false;
      }
      owner := Some(owner.value.(status := status, keepaliveAt := now));
      Send(owner.value.channel, KEEPALIVE, [status], false);
      sent := true;
    }

    method IdentificationTaken(identification: Identification)
      requires Valid() && WantsIdentification(View()) && owner.value.identification == Some(identification)
      modifies this
      ensures Valid() && View() == TakeIdentification(old(View()))
    {
      I.IdentificationInv(env, View(), 0, false, 0);
      owner := Some(owner.value.(submitted := true));
    }

    method IdentificationDone(token: nat, delivered: bool, now: nat)
      requires Valid()
      modifies this
      ensures Valid() && View() == IdentificationResult(old(View()), token, delivered, now)
    {
      I.IdentificationInv(env, View(), token, delivered, now);
      if && owner.Some? && !owner.value.responding && owner.value.identification.Some?
         && owner.value.identification.value.token == token {
        if delivered && now < owner.value.identification.value.deadline {
          Send(owner.value.channel, WINK, [], true);
        } else {
          SendError(owner.value.channel, ERR_OTHER, true);
        }
      }
    }

    method RequestTaken(command: byte, payload: seq<byte>)
      requires Valid() && WantsRequest(View())
      requires command == owner.value.command && payload == owner.value.request
      modifies this
      ensures Valid() && View() == TakeRequest(env, old(View()))
    {
      I.TakeInv(env, View());
      owner := Some(owner.value.(submitted := true));
      worker := Some(Worker(owner.value.id, owner.value.command));
      if owner.value.command == MSG && env.presence(owner.value.request) {
        var o := owner.value;
        poll := Some(Poll(o.id, o.channel, o.request, o.started, o.started, false, None));
      }
    }

    method Answered(response: seq<byte>, now: nat, finished: Option<nat>)
      requires Valid() && worker.Some?
      modifies this
      ensures Valid() && View() == WorkerAnswer(env, old(View()), response, now, finished)
    {
      I.AnswerInv(env, View(), response, now, finished);
      var w := worker.value;
      worker := None;
      var direct := owner.Some? && owner.value.id == w.id && owner.value.submitted && !owner.value.responding;
      if w.command == MSG && poll.Some? {
        var p := poll.value;
        poll := None;
        assert p.id == w.id;
        var late := direct && finished.Some? && Since(now, p.started) > U2F_RESPONSE_WAIT_MS;
        if EndsNotSatisfied(response) {
          denied := denied + [Denied(p.channel, p.request, p.last)];
        } else if (!direct || late) && finished.Some? {
          if late {
            Send(p.channel, MSG, NOT_SATISFIED, true);
          }
          var expiry := finished.value + U2F_APPROVAL_MS;
          if now <= expiry {
            poll := Some(p.(answer := Some(Answer(response, expiry))));
          }
          return;
        } else if !direct || late {
          return;
        }
      }
      if direct {
        Send(owner.value.channel, w.command, response, true);
      }
    }

    method Sent(channel: u32, command: byte, payload: seq<byte>)
      requires Valid() && replies != []
      requires (channel, command, payload) == (replies[0].channel, replies[0].command, replies[0].payload)
      modifies this
      ensures Valid() && View() == Output(env, old(View()))
    {
      I.OutputInv(env, View());
      var expected := replies[0];
      replies := replies[1..];
      if expected.completes.Some? {
        assert owner.value.id == expected.completes.value;
        owner := None;
      }
    }
  }
}
