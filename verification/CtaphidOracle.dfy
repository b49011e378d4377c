/** The CTAPHID transaction oracle: which messages a run of packets, timers,
    worker answers and successful writes must produce, as a state machine on
    values. Where the source asserts, the function has a precondition. */
module CtaphidOracle {
  import opened Bytes
  import opened Framing

  const PING: byte := 0x01
  const MSG: byte := 0x03
  const LOCK: byte := 0x04
  const INIT: byte := 0x06
  const WINK: byte := 0x08
  const CBOR: byte := 0x10
  const CANCEL: byte := 0x11
  const KEEPALIVE: byte := 0x3B
  const ERROR: byte := 0x3F

  const ERR_INVALID_CMD: byte := 0x01
  const ERR_INVALID_PAR: byte := 0x02
  const ERR_INVALID_LEN: byte := 0x03
  const ERR_INVALID_SEQ: byte := 0x04
  const ERR_TIMEOUT: byte := 0x05
  const ERR_BUSY: byte := 0x06
  const ERR_INVALID_CHANNEL: byte := 0x0B
  const ERR_OTHER: byte := 0x7F

  const MAX_CHANNELS := 256
  const DRAW_LIMIT := 64
  const U2F_RESPONSE_WAIT_MS := 100
  const U2F_POLL_TIMEOUT_MS := 3_000
  const U2F_APPROVAL_MS := 10_000
  const CONTINUATION_TIMEOUT_MS := 550
  const KEEPALIVE_INTERVAL_MS := 50
  const IDENTIFICATION_TIMEOUT_MS := 500

  /** CTAP2_ERR_KEEPALIVE_CANCEL and the U2F status CONDITIONS_NOT_SATISFIED. */
  const KEEPALIVE_CANCEL: seq<byte> := [0x2D]
  const NOT_SATISFIED: seq<byte> := [0x69, 0x85]

  /** What the machine cannot see into: the random numbers it draws, in order,
      and whether an APDU asks for user presence. */
  datatype Env = Env(draw: nat -> u32, presence: seq<byte> -> bool)

  datatype Owner = Owner(
    id: nat, channel: u32, command: byte, length: nat, request: seq<byte>, sequence: nat, at: nat,
    started: nat, submitted: bool, responding: bool, keepaliveAt: nat, status: byte,
    identification: Option<Identification>)

  datatype Identification = Identification(token: nat, deadline: nat)
  datatype Worker = Worker(id: nat, command: byte)
  datatype Answer = Answer(bytes: seq<byte>, expires: nat)
  datatype Poll = Poll(
    id: nat, channel: u32, request: seq<byte>, started: nat, last: nat, presence: bool, answer: Option<Answer>)
  datatype Denied = Denied(channel: u32, request: seq<byte>, last: nat)
  datatype Reply = Reply(channel: u32, command: byte, payload: seq<byte>, completes: Option<nat>)
  datatype Lease = Lease(channel: u32, expires: nat)

  datatype Oracle = Oracle(
    drawn: nat, channels: seq<u32>, owner: Option<Owner>, worker: Option<Worker>, poll: Option<Poll>,
    denied: seq<Denied>, replies: seq<Reply>, nextId: nat, lease: Option<Lease>, nextIdentification: nat)

  const INITIAL := Oracle(0, [], None, None, None, [], [], 0, None, 0)

  // ---------------------------------------------------------------- helpers

  function Begin(m: Oracle, channel: u32, command: byte, length: nat, data: seq<byte>, now: nat): Oracle
  {
    m.(nextId := m.nextId + 1,
       owner := Some(Owner(m.nextId, channel, command, length, data[..Min(length, |data|)], 0, now,
                           now, false, false, now, 1, None)))
  }

  /** The transaction `m` holds may be answered on `channel`. */
  predicate Answerable(m: Oracle, channel: u32) {
    m.owner.Some? && m.owner.value.channel == channel && !m.owner.value.responding
  }

  /** A message that does not fit goes out as ERR_OTHER instead. */
  function Sendable(channel: u32, command: byte, payload: seq<byte>, completes: Option<nat>): (r: Reply)
    ensures r.channel == channel && r.completes == completes && |r.payload| <= MAX_MESSAGE_SIZE
  {
    if |payload| > MAX_MESSAGE_SIZE then Reply(channel, ERROR, [ERR_OTHER], completes)
    else Reply(channel, command, payload, completes)
  }

  /** A message beside the transaction: it releases nobody. */
  function Aside(m: Oracle, channel: u32, command: byte, payload: seq<byte>): Oracle {
    m.(replies := m.replies + [Sendable(channel, command, payload, None)])
  }

  /** The one response of the transaction under way. */
  function Respond(m: Oracle, channel: u32, command: byte, payload: seq<byte>): Oracle
    requires Answerable(m, channel)
  {
    m.(owner := Some(m.owner.value.(responding := true)),
       replies := m.replies + [Sendable(channel, command, payload, Some(m.owner.value.id))])
  }

  function Busy(m: Oracle): Option<u32> {
    if m.owner.Some? then Some(m.owner.value.channel)
    else if m.poll.Some? && m.poll.value.answer.None? then Some(m.poll.value.channel)
    else None
  }

  predicate IsReceiving(o: Owner) {
    !o.responding && |o.request| < o.length
  }

  function ExpireLease(m: Oracle, now: nat): Oracle {
    if m.lease.Some? && now >= m.lease.value.expires then m.(lease := None) else m
  }

  function FreshDenied(denied: seq<Denied>, now: nat): (r: seq<Denied>)
    ensures |r| <= |denied|
    ensures forall d :: d in r <==> d in denied && Since(now, d.last) <= U2F_POLL_TIMEOUT_MS
  {
    if denied == [] then []
    else
      var rest := FreshDenied(denied[1..], now);
      if Since(now, denied[0].last) <= U2F_POLL_TIMEOUT_MS then [denied[0]] + rest else rest
  }

  function DeniedElsewhere(denied: seq<Denied>, channel: u32): (r: seq<Denied>)
    ensures |r| <= |denied|
    ensures forall d :: d in r <==> d in denied && d.channel != channel
  {
    if denied == [] then []
    else
      var rest := DeniedElsewhere(denied[1..], channel);
      if denied[0].channel != channel then [denied[0]] + rest else rest
  }

  function RepliesElsewhere(replies: seq<Reply>, channel: u32): (r: seq<Reply>)
    ensures forall x :: x in r <==> x in replies && x.channel != channel
  {
    if replies == [] then []
    else
      var rest := RepliesElsewhere(replies[1..], channel);
      if replies[0].channel != channel then [replies[0]] + rest else rest
  }

  predicate Suppresses(d: Denied, channel: u32, request: seq<byte>, now: nat) {
    d.channel == channel && d.request == request && Since(now, d.last) <= U2F_POLL_TIMEOUT_MS
  }

  /** The first denied request that still suppresses this one; |denied| if none. */
  function FindDenied(denied: seq<Denied>, channel: u32, request: seq<byte>, now: nat): (i: nat)
    ensures i <= |denied|
    ensures i < |denied| ==> Suppresses(denied[i], channel, request, now)
    ensures forall j :: 0 <= j < i ==> !Suppresses(denied[j], channel, request, now)
  {
    if denied == [] then 0
    else if Suppresses(denied[0], channel, request, now) then 0
    else 1 + FindDenied(denied[1..], channel, request, now)
  }

  /** Move an allocated channel to the most recently used end. */
  function Touch(channels: seq<u32>, channel: u32): (r: seq<u32>)
    ensures multiset(r) == multiset(channels) && |r| == |channels|
  {
    if channels == [] then []
    else if channels[0] == channel then
      assert channels == [channels[0]] + channels[1..];
      channels[1..] + [channel]
    else
      assert channels == [channels[0]] + channels[1..];
      [channels[0]] + Touch(channels[1..], channel)
  }

  predicate Assignable(channels: seq<u32>, candidate: u32) {
    candidate != 0 && candidate != BROADCAST && candidate !in channels
  }

  /** How many of at most `tries` draws fail before an assignable one. */
  function Misses(env: Env, channels: seq<u32>, drawn: nat, tries: nat): (n: nat)
    ensures n <= tries
    ensures n < tries ==> Assignable(channels, env.draw(drawn + n))
    ensures forall i :: drawn <= i < drawn + n ==> !Assignable(channels, env.draw(i))
    decreases tries, drawn
  {
    if tries == 0 || Assignable(channels, env.draw(drawn)) then 0
    else 1 + Misses(env, channels, drawn + 1, tries - 1)
  }

  lemma MissesStep(env: Env, channels: seq<u32>, drawn: nat, tries: nat)
    ensures Misses(env, channels, drawn, tries)
         == if tries == 0 || Assignable(channels, env.draw(drawn)) then 0
            else 1 + Misses(env, channels, drawn + 1, tries - 1)
  {
  }

  /** A channel identifier nobody has, if DRAW_LIMIT draws find one, and how
      many numbers have been drawn then. */
  function DrawChannel(env: Env, channels: seq<u32>, drawn: nat): (r: (Option<u32>, nat))
    ensures r.0.Some? ==> Assignable(channels, r.0.value)
  {
    var misses := Misses(env, channels, drawn, DRAW_LIMIT);
    if misses == DRAW_LIMIT then (None, drawn + DRAW_LIMIT)
    else (Some(env.draw(drawn + misses)), drawn + misses + 1)
  }

  /** Keep the newest MAX_CHANNELS channels. */
  function Allocate(channels: seq<u32>, channel: u32): seq<u32> {
    (if |channels| == MAX_CHANNELS then channels[1..] else channels) + [channel]
  }

  // ---------------------------------------------------------------- packets

  /** What a packet does before any message is complete: it either settles
      (with the channel whose unsent output it aborted) or completes the
      transaction `m` now holds. */
  datatype Admission = Settled(m: Oracle, aborted: Option<u32>) | Completes(m: Oracle)

  predicate Completable(m: Oracle) {
    && m.owner.Some?
    && var o := m.owner.value;
    && !o.responding && !o.submitted && |o.request| == o.length && o.identification.None?
    && o.command in {PING, MSG, LOCK, WINK, CBOR}
    && (o.command == LOCK ==> o.length == 1)
  }

  function AdmitContinuation(m: Oracle, p: Packet, now: nat): Admission
    requires p.Cont? && |p.data| == CONT_DATA
  {
    if m.owner.None? || m.owner.value.channel != p.channel || !IsReceiving(m.owner.value) then Settled(m, None)
    else
      var o := m.owner.value;
      if p.sequence as nat != o.sequence then Settled(Respond(m, p.channel, ERROR, [ERR_INVALID_SEQ]), None)
      else
        var count := Min(o.length - |o.request|, CONT_DATA);
        var o' := o.(sequence := o.sequence + 1, at := now, request := o.request + p.data[..count]);
        var m' := m.(owner := Some(o'));
        if |o'.request| == o'.length then Completes(m') else Settled(m', None)
  }

  function AdmitCancel(m: Oracle, channel: u32): Oracle {
    if && Answerable(m, channel)
       && m.owner.value.command == CBOR
       && |m.owner.value.request| == m.owner.value.length
       && !m.owner.value.submitted
    then Respond(m, channel, CBOR, KEEPALIVE_CANCEL)
    else m
  }

  /** An INIT that cannot be served: an answer of its own if the machine is
      free, otherwise a message beside the transaction. */
  function RefuseInit(m: Oracle, p: Packet, code: byte, free: bool, now: nat): Oracle
    requires p.Init?
  {
    if free then Respond(Begin(m, p.channel, p.command, p.length, p.data, now), p.channel, ERROR, [code])
    else Aside(m, p.channel, ERROR, [code])
  }

  function InitReply(data: seq<byte>, cid: u32): (b: seq<byte>)
    requires |data| == INIT_DATA
    ensures |b| == 17
  {
    data[..8] + Be32(cid) + [2, 0, 0, 0, 5]
  }

  /** A valid INIT forgets everything its channel had under way. */
  function Resynchronise(m: Oracle, p: Packet, cid: u32, now: nat): Oracle
    requires p.Init? && |p.data| == INIT_DATA
  {
    var m1 := m.(
      replies := RepliesElsewhere(m.replies, p.channel),
      poll := if m.poll.Some? && m.poll.value.channel == p.channel then None else m.poll,
      denied := DeniedElsewhere(m.denied, p.channel));
    Respond(Begin(m1, p.channel, p.command, p.length, p.data, now), p.channel, INIT, InitReply(p.data, cid))
  }

  function AdmitInit(env: Env, m: Oracle, p: Packet, now: nat): (r: Admission)
    requires p.Init? && |p.data| == INIT_DATA
    ensures r.Settled?
  {
    var busy := Busy(m);
    if busy.Some? && busy.value != p.channel then Settled(Aside(m, p.channel, ERROR, [ERR_BUSY]), None)
    else if p.length != 8 then Settled(RefuseInit(m, p, ERR_INVALID_LEN, busy.None?, now), None)
    else if p.channel == BROADCAST then
      match DrawChannel(env, m.channels, m.drawn)
      case (None, drawn) => Settled(RefuseInit(m.(drawn := drawn), p, ERR_BUSY, m.owner.None?, now), None)
      case (Some(cid), drawn) =>
        var m1 := m.(drawn := drawn, channels := Allocate(m.channels, cid));
        Settled(Resynchronise(m1, p, cid, now), Some(p.channel))
    else if p.channel != 0 && (m.owner.Some? || p.channel in m.channels) then
      Settled(Resynchronise(m, p, p.channel, now), Some(p.channel))
    else Settled(RefuseInit(m, p, ERR_INVALID_CHANNEL, m.owner.None?, now), None)
  }

  /** The busy rules of section 11.2.5.1 of CTAP 2.3. */
  predicate RefusedAsBusy(m: Oracle, channel: u32, command: byte) {
    var busy := Busy(m);
    busy.Some? &&
    (|| busy.value != channel
     || (m.owner.Some? && !IsReceiving(m.owner.value))
     || (m.owner.None? && command != MSG))
  }

  predicate InvalidLength(command: byte, length: nat) {
    || length > MAX_MESSAGE_SIZE
    || (command in {MSG, CBOR} && length == 0)
    || (command == LOCK && length != 1)
    || (command == WINK && length != 0)
  }

  function AdmitRequest(m: Oracle, p: Packet, now: nat): Admission
    requires p.Init? && |p.data| == INIT_DATA
  {
    if RefusedAsBusy(m, p.channel, p.command) then Settled(Aside(m, p.channel, ERROR, [ERR_BUSY]), None)
    else if m.owner.Some? then Settled(Respond(m, p.channel, ERROR, [ERR_INVALID_SEQ]), None)
    else
      var m1 := Begin(m, p.channel, p.command, p.length, p.data, now);
      if p.channel == 0 || p.channel == BROADCAST then
        Settled(Respond(m1, p.channel, ERROR, [ERR_INVALID_CHANNEL]), None)
      else if p.command !in {PING, MSG, LOCK, WINK, CBOR} then
        Settled(Respond(m1, p.channel, ERROR, [ERR_INVALID_CMD]), None)
      else if InvalidLength(p.command, p.length) then
        Settled(Respond(m1, p.channel, ERROR, [ERR_INVALID_LEN]), None)
      else if p.length <= INIT_DATA then Completes(m1)
      else Settled(m1, None)
  }

  predicate WellFormed(p: Packet) {
    match p
    case Init(_, command, length, data) => command < 128 && |data| == INIT_DATA
    case Cont(_, sequence, data) => sequence < 128 && |data| == CONT_DATA
  }

  function Admit(env: Env, m: Oracle, p: Packet, now: nat): Admission
    requires WellFormed(p)
  {
    var m0 := ExpireLease(m, now);
    if p.Cont? then AdmitContinuation(m0, p, now)
    else
      var m1 := m0.(channels := Touch(m0.channels, p.channel));
      if p.command == CANCEL then Settled(AdmitCancel(m1, p.channel), None)
      else if m1.lease.Some? && p.channel != m1.lease.value.channel then
        Settled(Aside(m1, p.channel, ERROR, [ERR_BUSY]), None)
      else if p.command == INIT then AdmitInit(env, m1, p, now)
      else AdmitRequest(m1, p, now)
  }

  // ---------------------------------------------------------------- complete requests

  /** The poll remembered for this very request on this channel. */
  predicate Polls(m: Oracle, channel: u32, request: seq<byte>) {
    m.poll.Some? && m.poll.value.channel == channel && m.poll.value.request == request
  }

  /** An approval is stored for the completed request and has not expired. */
  predicate Collects(m: Oracle, now: nat) {
    && m.owner.Some? && m.owner.value.command == MSG
    && Polls(m, m.owner.value.channel, m.owner.value.request)
    && m.poll.value.answer.Some? && now <= m.poll.value.answer.value.expires
  }

  /** A request no poll settles: a recent denial does, or a full table of
      them; otherwise it waits for the worker. */
  function CheckDenials(env: Env, m: Oracle, now: nat): Oracle
    requires Completable(m) && m.owner.value.command == MSG
  {
    var channel, request := m.owner.value.channel, m.owner.value.request;
    var i := FindDenied(m.denied, channel, request, now);
    if i < |m.denied| then
      Respond(m.(denied := m.denied[i := m.denied[i].(last := now)]), channel, MSG, NOT_SATISFIED)
    else
      var m' := m.(denied := FreshDenied(m.denied, now));
      if env.presence(request) && |m'.denied| >= MAX_CHANNELS then Respond(m', channel, ERROR, [ERR_BUSY])
      else m'.(poll := None)
  }

  function CompleteMsg(env: Env, m: Oracle, now: nat): Oracle
    requires Completable(m) && m.owner.value.command == MSG
  {
    var channel, request := m.owner.value.channel, m.owner.value.request;
    if Collects(m, now) then
      Respond(m.(poll := None), channel, MSG, m.poll.value.answer.value.bytes)
    else
      var matching := Polls(m, channel, request);
      var m1 := if matching then m.(poll := Some(m.poll.value.(last := now))) else m;
      if m.poll.Some? && m.poll.value.answer.None? then
        if matching then Respond(m1, channel, MSG, NOT_SATISFIED)
        else Respond(m1, channel, ERROR, [ERR_BUSY])
      else CheckDenials(env, m1, now)
  }

  function Complete(env: Env, m: Oracle, now: nat): Oracle
    requires Completable(m)
  {
    var m0 := m.(owner := Some(m.owner.value.(started := now, keepaliveAt := now)));
    var o := m0.owner.value;
    if o.command == LOCK then
      var seconds := o.request[0] as nat;
      if seconds > 10 then Respond(m0, o.channel, ERROR, [ERR_INVALID_PAR])
      else
        var lease := if seconds == 0 then None else Some(Lease(o.channel, now + seconds * 1_000));
        Respond(m0.(lease := lease), o.channel, LOCK, [])
    else if o.command == WINK then
      m0.(nextIdentification := m0.nextIdentification + 1,
          owner := Some(o.(identification :=
            Some(Identification(m0.nextIdentification, now + IDENTIFICATION_TIMEOUT_MS)))))
    else if o.command == PING then Respond(m0, o.channel, PING, o.request)
    else if o.command == MSG then CompleteMsg(env, m0, now)
    else m0.(poll := None)
  }

  lemma AdmitCompletable(env: Env, m: Oracle, p: Packet, now: nat)
    requires WellFormed(p) && Inv(env, m)
    ensures Admit(env, m, p, now).Completes? ==> Completable(Admit(env, m, p, now).m)
  {
    hide QueueInv, ChannelsInv, DeniedInv, PollInv, WorkerInv, AdmitInit, Touch, Respond;
  }

  /** One packet: the new state and the channel whose unsent output was
      explicitly aborted. */
  function HandlePacket(env: Env, m: Oracle, p: Packet, now: nat): (r: (Oracle, Option<u32>))
    requires WellFormed(p) && Inv(env, m)
  {
    AdmitCompletable(env, m, p, now);
    match Admit(env, m, p, now)
    case Settled(m', aborted) => (m', aborted)
    case Completes(m') => (Complete(env, m', now), None)
  }

  // ---------------------------------------------------------------- timers

  function PollDeadline(p: Poll): nat {
    if p.answer.Some? then p.answer.value.expires else p.last + U2F_POLL_TIMEOUT_MS
  }

  function ExpireIdentification(m: Oracle, now: nat): Oracle {
    if && m.owner.Some? && !m.owner.value.responding && m.owner.value.identification.Some?
       && now >= m.owner.value.identification.value.deadline
    then Respond(m, m.owner.value.channel, ERROR, [ERR_OTHER])
    else m
  }

  function ExpireU2f(m: Oracle, now: nat): Oracle {
    m.(denied := FreshDenied(m.denied, now),
       poll := if m.poll.Some? && now > PollDeadline(m.poll.value) then None else m.poll)
  }

  function ExpireOwner(m: Oracle, now: nat): Oracle {
    if m.owner.None? || m.owner.value.responding then m
    else
      var o := m.owner.value;
      if |o.request| < o.length && now >= o.at + CONTINUATION_TIMEOUT_MS then
        Respond(m, o.channel, ERROR, [ERR_TIMEOUT])
      else if && o.command == MSG && o.submitted && m.poll.Some? && m.poll.value.presence
              && Since(now, m.poll.value.started) >= U2F_RESPONSE_WAIT_MS then
        Respond(m, o.channel, MSG, NOT_SATISFIED)
      else m
  }

  function Timeout(m: Oracle, now: nat): Oracle {
    ExpireOwner(ExpireU2f(ExpireIdentification(ExpireLease(m, now), now), now), now)
  }

  function ObservePresence(m: Oracle, waiting: bool): Oracle {
    if waiting && m.worker.Some? && m.worker.value.command == MSG && m.poll.Some?
    then m.(poll := Some(m.poll.value.(presence := true)))
    else m
  }

  /** The status a keepalive would carry now, if one is due. */
  function KeepaliveDue(m: Oracle, waiting: bool, now: nat): Option<byte> {
    if || m.owner.None? || m.owner.value.responding
       || |m.owner.value.request| != m.owner.value.length
       || m.owner.value.command !in {MSG, CBOR}
    then None
    else
      var o := m.owner.value;
      var status: byte := if waiting && o.submitted then 2 else 1;
      if status == o.status && now < o.keepaliveAt + KEEPALIVE_INTERVAL_MS then None else Some(status)
  }

  function Keepalive(m: Oracle, waiting: bool, now: nat): (r: (Oracle, bool)) {
    var m1 := ObservePresence(m, waiting);
    match KeepaliveDue(m1, waiting, now)
    case None => (m1, false)
    case Some(status) =>
      var o := m1.owner.value.(status := status, keepaliveAt := now);
      (Aside(m1.(owner := Some(o)), o.channel, KEEPALIVE, [status]), true)
  }

  // ---------------------------------------------------------------- identification and the app

  predicate WantsIdentification(m: Oracle) {
    && m.owner.Some? && m.owner.value.identification.Some?
    && !m.owner.value.submitted && !m.owner.value.responding
  }

  function TakeIdentification(m: Oracle): Oracle
    requires WantsIdentification(m)
  {
    m.(owner := Some(m.owner.value.(submitted := true)))
  }

  function IdentificationResult(m: Oracle, token: nat, delivered: bool, now: nat): Oracle {
    if && m.owner.Some? && !m.owner.value.responding && m.owner.value.identification.Some?
       && m.owner.value.identification.value.token == token
    then
      if delivered && now < m.owner.value.identification.value.deadline
      then Respond(m, m.owner.value.channel, WINK, [])
      else Respond(m, m.owner.value.channel, ERROR, [ERR_OTHER])
    else m
  }

  predicate WantsRequest(m: Oracle) {
    && m.worker.None? && m.owner.Some?
    && !m.owner.value.responding && !m.owner.value.submitted
    && |m.owner.value.request| == m.owner.value.length
    && m.owner.value.command in {MSG, CBOR}
  }

  function TakeRequest(env: Env, m: Oracle): Oracle
    requires WantsRequest(m)
  {
    var o := m.owner.value;
    var m1 := m.(owner := Some(o.(submitted := true)), worker := Some(Worker(o.id, o.command)));
    if o.command == MSG && env.presence(o.request)
    then m1.(poll := Some(Poll(o.id, o.channel, o.request, o.started, o.started, false, None)))
    else m1
  }

  /** The worker's transaction is still waiting for this very answer. */
  predicate Direct(m: Oracle)
    requires m.worker.Some?
  {
    && m.owner.Some? && m.owner.value.id == m.worker.value.id
    && m.owner.value.submitted && !m.owner.value.responding
  }

  predicate EndsNotSatisfied(response: seq<byte>) {
    |response| >= 2 && response[|response| - 2..] == NOT_SATISFIED
  }

  /** The transaction answered directly came after the first U2F wait. */
  predicate Late(m: Oracle, now: nat, finished: Option<nat>)
    requires m.worker.Some? && m.poll.Some?
  {
    Direct(m) && finished.Some? && Since(now, m.poll.value.started) > U2F_RESPONSE_WAIT_MS
  }

  /** The worker's answer. `finished` is when user presence ended, if it did. */
  function WorkerAnswer(env: Env, m: Oracle, response: seq<byte>, now: nat, finished: Option<nat>): Oracle
    requires Inv(env, m) && m.worker.Some?
  {
    var w := m.worker.value;
    var direct := Direct(m);
    if w.command == MSG && m.poll.Some? then
      var poll := m.poll.value;
      assert poll.id == w.id;
      var late := Late(m, now, finished);
      var m1 := m.(worker := None, poll := None);
      if EndsNotSatisfied(response) then
        var m2 := m1.(denied := m1.denied + [Denied(poll.channel, poll.request, poll.last)]);
        if direct then Respond(m2, m2.owner.value.channel, MSG, response) else m2
      else if (!direct || late) && finished.Some? then
        var m2 := if late then Respond(m1, poll.channel, MSG, NOT_SATISFIED) else m1;
        var expiry := finished.value + U2F_APPROVAL_MS;
        if now <= expiry then m2.(poll := Some(poll.(answer := Some(Answer(response, expiry))))) else m2
      else if !direct || late then m1
      else Respond(m1, m1.owner.value.channel, MSG, response)
    else
      var m1 := m.(worker := None);
      if direct then Respond(m1, m1.owner.value.channel, w.command, response) else m1
  }

  /** The front reply has gone out whole. */
  function Output(env: Env, m: Oracle): Oracle
    requires Inv(env, m) && m.replies != []
  {
    var m1 := m.(replies := m.replies[1..]);
    if m.replies[0].completes.Some? then
      assert m.owner.Some? && m.owner.value.id == m.replies[0].completes.value;
      m1.(owner := None)
    else m1
  }

  // ---------------------------------------------------------------- the invariant

  /** The transaction the queue must answer: its id and channel. */
  function Responding(owner: Option<Owner>): Option<(nat, u32)> {
    if owner.Some? && owner.value.responding then Some((owner.value.id, owner.value.channel)) else None
  }

  /** The queue holds the one response of a responding owner, with no keepalive
      behind it, and no response otherwise. */
  predicate QueueInv(replies: seq<Reply>, answering: Option<(nat, u32)>) {
    && (forall i :: 0 <= i < |replies| ==> replies[i].command < 128 && |replies[i].payload| <= MAX_MESSAGE_SIZE)
    && (forall i :: 0 <= i < |replies| && replies[i].completes.Some? ==>
          answering == Some((replies[i].completes.value, replies[i].channel)))
    && (forall i, j :: 0 <= i < j < |replies| && replies[i].completes.Some? ==>
          replies[j].completes.None? && replies[j].command != KEEPALIVE)
    && (answering.Some? ==> exists i :: 0 <= i < |replies| && replies[i].completes.Some?)
  }

  /** A transaction that is not responding is receiving, processing or
      identifying, and nothing else. */
  predicate OwnerShape(o: Owner) {
    o.responding ||
    (|| (&& |o.request| < o.length <= MAX_MESSAGE_SIZE && o.command in {PING, MSG, CBOR}
         && |o.request| == INIT_DATA + CONT_DATA * o.sequence
         && !o.submitted && o.identification.None? && o.status == 1)
     || (&& 0 < |o.request| == o.length <= MAX_MESSAGE_SIZE && o.command in {MSG, CBOR}
         && o.identification.None?)
     || (o.command == WINK && |o.request| == o.length == 0 && o.identification.Some?))
  }

  predicate OwnerInv(m: Oracle) {
    m.owner.Some? ==>
      && m.owner.value.id < m.nextId
      && (m.owner.value.identification.Some? ==> m.owner.value.identification.value.token < m.nextIdentification)
      && (m.lease.Some? ==> m.owner.value.channel == m.lease.value.channel)
  }

  /** A request handed to the worker is the worker's own transaction. */
  predicate WorkerInv(m: Oracle) {
    && (m.worker.Some? ==> m.worker.value.id < m.nextId && m.worker.value.command in {MSG, CBOR})
    && (m.owner.Some? && !m.owner.value.responding ==>
          var o := m.owner.value;
          && (o.submitted && o.identification.None? <==> m.worker.Some? && m.worker.value.id == o.id)
          && (o.submitted && o.identification.None? ==> m.worker.value.command == o.command))
  }

  /** A poll without an answer is the worker's request, on the channel of any
      transaction and lease there is; an answered one has no worker. */
  predicate PollInv(m: Oracle) {
    m.poll.Some? ==>
      var p := m.poll.value;
      && p.id < m.nextId
      && (p.answer.None? <==> m.worker.Some?)
      && (p.answer.None? ==>
            && m.worker.value.id == p.id && m.worker.value.command == MSG
            && (m.owner.Some? ==> m.owner.value.channel == p.channel)
            && (m.owner.Some? && !m.owner.value.responding ==> m.owner.value.command == MSG)
            && (m.lease.Some? ==> m.lease.value.channel == p.channel))
  }

  predicate NotDenied(m: Oracle, channel: u32, request: seq<byte>) {
    && |m.denied| < MAX_CHANNELS
    && forall d :: d in m.denied ==> !(d.channel == channel && d.request == request)
  }

  predicate Distinct(denied: seq<Denied>) {
    forall i, j :: 0 <= i < j < |denied| ==>
      denied[i].channel != denied[j].channel || denied[i].request != denied[j].request
  }

  /** No request is denied twice, and there is room to deny the one that may
      still be. */
  predicate DeniedInv(m: Oracle) {
    && |m.denied| <= MAX_CHANNELS && Distinct(m.denied)
    && (m.poll.Some? && m.poll.value.answer.None? ==> NotDenied(m, m.poll.value.channel, m.poll.value.request))
  }

  /** Allocated channels are distinct, at most MAX_CHANNELS, and never one of
      the reserved ones. */
  predicate ChannelsInv(channels: seq<u32>) {
    && |channels| <= MAX_CHANNELS
    && forall c :: c in channels ==> c != 0 && c != BROADCAST && multiset(channels)[c] == 1
  }

  /** A complete request waits for the worker. */
  predicate Awaiting(m: Oracle) {
    && m.owner.Some? && !m.owner.value.responding && !m.owner.value.submitted
    && |m.owner.value.request| == m.owner.value.length && m.owner.value.command in {MSG, CBOR}
  }

  /** What holds even in the middle of a packet. */
  predicate Core(m: Oracle) {
    && QueueInv(m.replies, Responding(m.owner)) && ChannelsInv(m.channels)
    && OwnerInv(m) && WorkerInv(m) && PollInv(m) && DeniedInv(m)
  }

  /** What every step keeps: no assertion of the machine can fail in it. */
  predicate Inv(env: Env, m: Oracle) {
    && Core(m)
    && (m.owner.Some? ==> OwnerShape(m.owner.value))
    && (Awaiting(m) ==>
          && m.poll.None?
          && (m.owner.value.command == MSG && env.presence(m.owner.value.request)
              ==> NotDenied(m, m.owner.value.channel, m.owner.value.request)))
  }
}
