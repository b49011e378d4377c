/** The production CTAPHID host as a state machine on values: one state in
    place of the oracle's flags, and outgoing frames in place of messages. */
module CtaphidHost {
  import opened Bytes
  import opened Framing
  import O = CtaphidOracle

  datatype Phase =
    | Idle
    | Receiving(channel: u32, command: byte, length: nat, nextSequence: nat, lastPacketAt: nat)
    | Processing(channel: u32, command: byte, started: nat, request: Option<seq<byte>>,
                 keepaliveAt: nat, keepaliveStatus: byte)
    | Identifying(channel: u32, identification: O.Identification, submitted: bool)
    | Transmitting(channel: u32, finalFrame: nat)

  datatype U2fPoll = U2fPoll(
    channel: u32, request: seq<byte>, lastPoll: nat, started: nat, presenceStarted: bool, answer: Option<O.Answer>)

  /** A queued report. Its token is never used again. */
  datatype Outgoing = Outgoing(frame: Frame, token: nat)

  datatype Host = Host(
    phase: Phase, lease: Option<O.Lease>, message: seq<byte>, pending: seq<Outgoing>, nextToken: nat,
    nextIdentification: nat, channels: seq<u32>, drawn: nat, appBusy: bool, interruptApp: bool,
    appCommand: Option<byte>, u2f: Option<U2fPoll>, denied: seq<O.Denied>)

  const INITIAL := Host(Idle, None, [], [], 0, 0, [], 0, false, false, None, None, [])

  // ---------------------------------------------------------------- output

  function Tokened(frames: seq<Frame>, token: nat): (q: seq<Outgoing>)
    ensures |q| == |frames|
  {
    seq(|frames|, i requires 0 <= i < |frames| => Outgoing(frames[i], token + i))
  }

  /** Every frame queued now was queued before or has a token unused before. */
  predicate Fresher(was: seq<Outgoing>, next: nat, pending: seq<Outgoing>, next': nat) {
    next <= next' && forall f :: f in pending ==> f in was || f.token >= next
  }

  predicate OnlyQueues(h: Host, h': Host) {
    Fresher(h.pending, h.nextToken, h'.pending, h'.nextToken) && h'.appBusy == h.appBusy
  }

  function QueueFrames(h: Host, frames: seq<Frame>): (r: Host)
    ensures OnlyQueues(h, r)
  {
    h.(pending := h.pending + Tokened(frames, h.nextToken), nextToken := h.nextToken + |frames|)
  }

  /** A message without a change of ownership; one that does not fit becomes
      ERR_OTHER. */
  function QueueMessage(h: Host, channel: u32, command: byte, payload: seq<byte>): (r: Host)
    requires command < 128
    ensures r == h.(pending := r.pending, nextToken := r.nextToken) && OnlyQueues(h, r)
  {
    if |payload| > MAX_MESSAGE_SIZE then QueueFrames(h, Frames(channel, O.ERROR, [O.ERR_OTHER], 1))
    else QueueFrames(h, Frames(channel, command, payload, |payload|))
  }

  /** The response of the transaction: it owns the host until its last frame
      has been written. */
  function EnqueueMessage(h: Host, channel: u32, command: byte, payload: seq<byte>): (r: Host)
    requires command < 128
    ensures r.phase.Transmitting? && r.phase.channel == channel
    ensures r == h.(pending := r.pending, nextToken := r.nextToken, phase := r.phase) && OnlyQueues(h, r)
  {
    var h' := QueueMessage(h, channel, command, payload);
    h'.(phase := Transmitting(channel, h'.nextToken - 1))
  }

  function EnqueueError(h: Host, channel: u32, code: byte): Host {
    QueueMessage(h, channel, O.ERROR, [code])
  }

  function FinishError(h: Host, channel: u32, code: byte): Host {
    EnqueueMessage(h, channel, O.ERROR, [code])
  }

  predicate IsCurrent(h: Host, f: Outgoing) {
    h.pending != [] && h.pending[0].token == f.token
  }

  function FrameWritten(h: Host, f: Outgoing): (Host, bool) {
    if !IsCurrent(h, f) then (h, false)
    else
      var h' := h.(pending := h.pending[1..]);
      (if h.phase.Transmitting? && h.phase.finalFrame == f.token then h'.(phase := Idle) else h', true)
  }

  /** The frames that are not addressed to `channel`. */
  function FramesElsewhere(pending: seq<Outgoing>, channel: u32): (r: seq<Outgoing>)
    ensures forall f :: f in r ==> f in pending
  {
    if pending == [] then []
    else
      var rest := FramesElsewhere(pending[1..], channel);
      if pending[0].frame[..4] != Be32(channel) then [pending[0]] + rest else rest
  }

  // ---------------------------------------------------------------- packets

  function BusyChannel(h: Host): Option<u32> {
    match h.phase
    case Idle => if h.u2f.Some? && h.u2f.value.answer.None? then Some(h.u2f.value.channel) else None
    case Receiving(channel, _, _, _, _) => Some(channel)
    case Processing(channel, _, _, _, _, _) => Some(channel)
    case Identifying(channel, _, _) => Some(channel)
    case Transmitting(channel, _) => Some(channel)
  }

  function ExpireLease(h: Host, now: nat): Host {
    if h.lease.Some? && now >= h.lease.value.expires then h.(lease := None) else h
  }

  predicate LeaseConflicts(h: Host, channel: u32) {
    h.lease.Some? && h.lease.value.channel != channel
  }

  /** The first denied request with this channel and body, fresh or not. */
  function FindDenied(denied: seq<O.Denied>, channel: u32, request: seq<byte>): (i: nat)
    ensures i <= |denied|
    ensures i < |denied| ==> denied[i].channel == channel && denied[i].request == request
    ensures forall j :: 0 <= j < i ==> !(denied[j].channel == channel && denied[j].request == request)
  {
    if denied == [] then 0
    else if denied[0].channel == channel && denied[0].request == request then 0
    else 1 + FindDenied(denied[1..], channel, request)
  }

  /** The answer a poll gives to a repetition of its request at `now`, if any. */
  function PollAnswer(p: U2fPoll, now: nat): Option<seq<byte>> {
    match p.answer
    case Some(answer) => if now > answer.expires then None else Some(answer.bytes)
    case None => Some(O.NOT_SATISFIED)
  }

  function StartProcessing(h: Host, channel: u32, command: byte, now: nat): Host {
    h.(u2f := None, phase := Processing(channel, command, now, Some(h.message), now, 1))
  }

  function CheckDenials(env: O.Env, h: Host, channel: u32, now: nat): Host {
    var i := FindDenied(h.denied, channel, h.message);
    if i < |h.denied| && Since(now, h.denied[i].last) <= O.U2F_POLL_TIMEOUT_MS then
      EnqueueMessage(h.(denied := h.denied[i := h.denied[i].(last := now)]), channel, O.MSG, O.NOT_SATISFIED)
    else
      var h' := h.(denied := O.FreshDenied(h.denied, now));
      if env.presence(h'.message) && |h'.denied| >= O.MAX_CHANNELS then FinishError(h', channel, O.ERR_BUSY)
      else StartProcessing(h', channel, O.MSG, now)
  }

  function CompleteMsg(env: O.Env, h: Host, channel: u32, now: nat): Host {
    var matching := h.u2f.Some? && h.u2f.value.channel == channel && h.u2f.value.request == h.message;
    if matching && PollAnswer(h.u2f.value, now).Some? then
      var response := PollAnswer(h.u2f.value, now).value;
      var u2f := if h.u2f.value.answer.Some? then None else Some(h.u2f.value.(lastPoll := now));
      EnqueueMessage(h.(u2f := u2f), channel, O.MSG, response)
    else if h.u2f.Some? && !matching && h.u2f.value.answer.None? then FinishError(h, channel, O.ERR_BUSY)
    else CheckDenials(env, if matching then h.(u2f := Some(h.u2f.value.(lastPoll := now))) else h, channel, now)
  }

  function CompleteMessage(env: O.Env, h: Host, channel: u32, command: byte, now: nat): Host
    requires command in {O.PING, O.MSG, O.LOCK, O.WINK, O.CBOR}
    requires command == O.LOCK ==> h.message != []
  {
    if command == O.WINK then
      h.(nextIdentification := h.nextIdentification + 1,
         phase := Identifying(channel,
                              O.Identification(h.nextIdentification, now + O.IDENTIFICATION_TIMEOUT_MS), false))
    else if command == O.LOCK then
      var seconds := h.message[0] as nat;
      if seconds > 10 then FinishError(h, channel, O.ERR_INVALID_PAR)
      else
        var lease := if seconds == 0 then None else Some(O.Lease(channel, now + seconds * 1_000));
        EnqueueMessage(h.(lease := lease), channel, O.LOCK, [])
    else if command == O.MSG then CompleteMsg(env, h, channel, now)
    else if command == O.PING then EnqueueMessage(h, channel, O.PING, h.message)
    else StartProcessing(h, channel, command, now)
  }

  function HandleContinuation(env: O.Env, h: Host, p: Packet, now: nat): Host
    requires p.Cont? && |p.data| == CONT_DATA && Valid(h)
  {
    if !h.phase.Receiving? || h.phase.channel != p.channel then h
    else if p.sequence as nat != h.phase.nextSequence then FinishError(h, p.channel, O.ERR_INVALID_SEQ)
    else
      var missing := h.phase.length - |h.message|;
      var h' := h.(
        phase := h.phase.(nextSequence := h.phase.nextSequence + 1, lastPacketAt := now),
        message := h.message + p.data[..Min(missing, CONT_DATA)]);
      if |h'.message| == h.phase.length then CompleteMessage(env, h', p.channel, h.phase.command, now) else h'
  }

  function HandleCancel(h: Host, channel: u32): Host {
    if !h.phase.Processing? || h.phase.channel != channel || h.phase.command != O.CBOR then h
    else if h.phase.request.Some? then EnqueueMessage(h, channel, O.CBOR, O.KEEPALIVE_CANCEL)
    else h.(interruptApp := true)
  }

  function RefuseInit(h: Host, channel: u32, code: byte, free: bool): Host {
    if free then FinishError(h, channel, code) else EnqueueError(h, channel, code)
  }

  /** All that a channel has under way is dropped. */
  function Forgotten(h: Host, channel: u32): Host {
    var mine := h.u2f.Some? && h.u2f.value.channel == channel;
    var prompting := mine && h.u2f.value.answer.None?;
    var working := h.phase.Processing? && h.phase.request.None?;
    h.(
      pending := FramesElsewhere(h.pending, channel),
      message := [],
      interruptApp := h.interruptApp || prompting || working,
      u2f := if mine then None else h.u2f,
      denied := O.DeniedElsewhere(h.denied, channel),
      phase := Idle)
  }

  function Resynchronise(h: Host, p: Packet, cid: u32): Host
    requires p.Init? && |p.data| == INIT_DATA
  {
    EnqueueMessage(Forgotten(h, p.channel), p.channel, O.INIT, O.InitReply(p.data, cid))
  }

  function HandleInit(env: O.Env, h: Host, p: Packet): Host
    requires p.Init? && |p.data| == INIT_DATA
  {
    var busy := BusyChannel(h);
    var aborted := !h.phase.Idle?;
    if LeaseConflicts(h, p.channel) then EnqueueError(h, p.channel, O.ERR_BUSY)
    else if busy.Some? && busy.value != p.channel then EnqueueError(h, p.channel, O.ERR_BUSY)
    else if p.length != 8 then RefuseInit(h, p.channel, O.ERR_INVALID_LEN, busy.None?)
    else if p.channel == BROADCAST then
      match O.DrawChannel(env, h.channels, h.drawn)
      case (None, drawn) => RefuseInit(h.(drawn := drawn), p.channel, O.ERR_BUSY, !aborted)
      case (Some(cid), drawn) =>
        Resynchronise(h.(drawn := drawn, channels := O.Allocate(h.channels, cid)), p, cid)
    else if p.channel != 0 && (aborted || p.channel in h.channels) then Resynchronise(h, p, p.channel)
    else RefuseInit(h, p.channel, O.ERR_INVALID_CHANNEL, !aborted)
  }

  function HandleRequest(env: O.Env, h: Host, p: Packet, now: nat): Host
    requires p.Init? && |p.data| == INIT_DATA
  {
    var busy := BusyChannel(h);
    if LeaseConflicts(h, p.channel) then EnqueueError(h, p.channel, O.ERR_BUSY)
    else if && busy.Some?
            && (|| busy.value != p.channel
                || h.phase.Processing? || h.phase.Identifying? || h.phase.Transmitting?
                || (h.phase.Idle? && p.command != O.MSG))
    then EnqueueError(h, p.channel, O.ERR_BUSY)
    else if busy.Some? && h.phase.Receiving? then FinishError(h, p.channel, O.ERR_INVALID_SEQ)
    else if p.channel == 0 || p.channel == BROADCAST then FinishError(h, p.channel, O.ERR_INVALID_CHANNEL)
    else if p.command !in {O.PING, O.CBOR, O.MSG, O.LOCK, O.WINK} then
      FinishError(h, p.channel, O.ERR_INVALID_CMD)
    else if O.InvalidLength(p.command, p.length) then FinishError(h, p.channel, O.ERR_INVALID_LEN)
    else
      var h' := h.(message := p.data[..Min(p.length, INIT_DATA)]);
      if p.length <= INIT_DATA then CompleteMessage(env, h', p.channel, p.command, now)
      else h'.(phase := Receiving(p.channel, p.command, p.length, 0, now))
  }

  function HandlePacket(env: O.Env, h: Host, p: Packet, now: nat): Host
    requires O.WellFormed(p) && Valid(h)
  {
    var h0 := ExpireLease(h, now);
    if p.Cont? then HandleContinuation(env, h0, p, now)
    else
      var h1 := h0.(channels := O.Touch(h0.channels, p.channel));
      if p.command == O.CANCEL then HandleCancel(h1, p.channel)
      else if p.command == O.INIT then HandleInit(env, h1, p)
      else HandleRequest(env, h1, p, now)
  }

  // ---------------------------------------------------------------- timers

  function Deadline(p: U2fPoll): nat {
    if p.answer.Some? then p.answer.value.expires + 1 else p.lastPoll + O.U2F_POLL_TIMEOUT_MS + 1
  }

  function ExpireIdentification(h: Host, now: nat): Host {
    if h.phase.Identifying? && now >= h.phase.identification.deadline
    then FinishError(h, h.phase.channel, O.ERR_OTHER) else h
  }

  function ExpireU2f(h: Host, now: nat): Host {
    var h1 := h.(denied := O.FreshDenied(h.denied, now));
    if h1.u2f.Some? && now >= Deadline(h1.u2f.value)
    then h1.(u2f := None, interruptApp := h1.interruptApp || h1.u2f.value.answer.None?) else h1
  }

  /** The U2F wait of a submitted request, then a message whose next packet is
      overdue. */
  function ExpirePhase(h: Host, now: nat): Host {
    var h1 :=
      if && h.phase.Processing? && h.phase.command == O.MSG && h.phase.request.None?
         && h.u2f.Some? && h.u2f.value.presenceStarted
         && Since(now, h.u2f.value.started) >= O.U2F_RESPONSE_WAIT_MS
      then EnqueueMessage(h, h.phase.channel, O.MSG, O.NOT_SATISFIED) else h;
    if h1.phase.Receiving? && now >= h1.phase.lastPacketAt + O.CONTINUATION_TIMEOUT_MS
    then FinishError(h1, h1.phase.channel, O.ERR_TIMEOUT) else h1
  }

  function HandleTimeout(h: Host, now: nat): Host {
    ExpirePhase(ExpireU2f(ExpireIdentification(ExpireLease(h, now), now), now), now)
  }

  function AppPresence(h: Host, waiting: bool): Host {
    if waiting && h.appCommand == Some(O.MSG) && h.u2f.Some?
    then h.(u2f := Some(h.u2f.value.(presenceStarted := true))) else h
  }

  function SendKeepalive(h: Host, waiting: bool, now: nat): (Host, bool) {
    if !h.phase.Processing? then (h, false)
    else
      var status: byte := if waiting && h.phase.request.None? then 2 else 1;
      if status == h.phase.keepaliveStatus && now < h.phase.keepaliveAt + O.KEEPALIVE_INTERVAL_MS then (h, false)
      else
        var h' := h.(phase := h.phase.(keepaliveAt := now, keepaliveStatus := status));
        (QueueFrames(h', [InitFrame(h.phase.channel, O.KEEPALIVE, 1, [status])]), true)
  }

  /** When a timer next has something to do: the earliest of these. */
  function Deadlines(h: Host): seq<nat> {
    var transaction := match h.phase
      case Idle => []
      case Transmitting(_, _) => []
      case Receiving(_, _, _, _, at) => [at + O.CONTINUATION_TIMEOUT_MS]
      case Processing(_, _, _, _, at, _) => [at + O.KEEPALIVE_INTERVAL_MS]
      case Identifying(_, identification, _) => [identification.deadline];
    var polling :=
      if h.u2f.None? then []
      else if && h.u2f.value.answer.None? && h.u2f.value.presenceStarted
              && h.phase.Processing? && h.phase.command == O.MSG && h.phase.request.None?
      then [Min(h.u2f.value.started + O.U2F_RESPONSE_WAIT_MS, Deadline(h.u2f.value))]
      else [Deadline(h.u2f.value)];
    transaction + polling + (if h.lease.Some? then [h.lease.value.expires] else [])
  }

  // ---------------------------------------------------------------- identification and the app

  function TakeIdentification(h: Host): (Host, Option<O.Identification>) {
    if !h.phase.Identifying? || h.phase.submitted then (h, None)
    else (h.(phase := h.phase.(submitted := true)), Some(h.phase.identification))
  }

  function IdentificationResponse(h: Host, token: nat, delivered: bool, now: nat): Host {
    if !h.phase.Identifying? || h.phase.identification.token != token then h
    else if delivered && now < h.phase.identification.deadline then EnqueueMessage(h, h.phase.channel, O.WINK, [])
    else FinishError(h, h.phase.channel, O.ERR_OTHER)
  }

  function TakeAppRequest(env: O.Env, h: Host): (Host, Option<(byte, seq<byte>)>) {
    if h.appBusy || !h.phase.Processing? || h.phase.request.None? then (h, None)
    else
      var payload := h.phase.request.value;
      var command := h.phase.command;
      var u2f :=
        if command == O.MSG && env.presence(payload)
        then Some(U2fPoll(h.phase.channel, payload, h.phase.started, h.phase.started, false, None))
        else h.u2f;
      (h.(phase := h.phase.(request := None), u2f := u2f, appBusy := true, appCommand := Some(command)),
       Some((command, payload)))
  }

  /** The answer goes to the request being processed, if the app had it. */
  function Deliver(h: Host, response: seq<byte>): Host
    requires Valid(h)
  {
    if !h.phase.Processing? || h.phase.request.Some? then h
    else EnqueueMessage(h, h.phase.channel, h.phase.command, response)
  }

  /** `response.get(len.saturating_sub(2)..)` is the U2F status word. */
  predicate StatusNotSatisfied(response: seq<byte>) {
    response[Since(|response|, 2)..] == O.NOT_SATISFIED
  }

  function AppResponse(h: Host, response: seq<byte>, now: nat, finished: Option<nat>): Host
    requires Valid(h)
  {
    var h0 := h.(appBusy := false, appCommand := None);
    if h.appCommand == Some(O.MSG) && h.u2f.Some? then
      var poll := h.u2f.value;
      var h1 := h0.(u2f := None);
      var direct := h.phase.Processing? && h.phase.command == O.MSG && h.phase.request.None?;
      var late := direct && finished.Some? && Since(now, poll.started) > O.U2F_RESPONSE_WAIT_MS;
      var h2 := if late then EnqueueMessage(h1, poll.channel, O.MSG, O.NOT_SATISFIED) else h1;
      if StatusNotSatisfied(response) then
        Deliver(h1.(denied := h1.denied + [O.Denied(poll.channel, poll.request, poll.lastPoll)]), response)
      else if (!direct || late) && finished.Some? && now <= finished.value + O.U2F_APPROVAL_MS then
        h2.(u2f := Some(poll.(answer := Some(O.Answer(response, finished.value + O.U2F_APPROVAL_MS)))))
      else if !direct || late then h2
      else Deliver(h1, response)
    else Deliver(h0, response)
  }

  /** What a host needs to be well defined: a message being received is short
      of its length, and a request being processed is CBOR or MSG. */
  predicate Valid(h: Host) {
    && (h.phase.Receiving? ==>
          |h.message| < h.phase.length && h.phase.command in {O.PING, O.MSG, O.CBOR})
    && (h.phase.Processing? ==> h.phase.command in {O.MSG, O.CBOR})
  }
}
