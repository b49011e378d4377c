/** Whole runs of the oracle: where every answer of the app goes, how often, and
    until when. */
module CtaphidTrace {
  import opened Bytes
  import opened Framing
  import opened CtaphidOracle
  import I = CtaphidInvariant

  datatype Event =
    | Received(p: Packet, now: nat)
    | Timer(now: nat)
    | Waiting(waiting: bool, now: nat)
    | IdentificationTaken
    | Identified(token: nat, delivered: bool, now: nat)
    | RequestTaken
    | AppAnswered(response: seq<byte>, now: nat, finished: Option<nat>)
    | Sent

  /** The environment only reports what can happen. */
  predicate Enabled(m: Oracle, e: Event) {
    match e
    case Received(p, _) => WellFormed(p)
    case IdentificationTaken => WantsIdentification(m)
    case RequestTaken => WantsRequest(m)
    case AppAnswered(_, _, _) => m.worker.Some?
    case Sent => m.replies != []
    case _ => true
  }

  function Next(env: Env, m: Oracle, e: Event): Oracle
    requires Inv(env, m) && Enabled(m, e)
  {
    match e
    case Received(p, now) => HandlePacket(env, m, p, now).0
    case Timer(now) => Timeout(m, now)
    case Waiting(waiting, now) => Keepalive(m, waiting, now).0
    case IdentificationTaken => TakeIdentification(m)
    case Identified(token, delivered, now) => IdentificationResult(m, token, delivered, now)
    case RequestTaken => TakeRequest(env, m)
    case AppAnswered(response, now, finished) => WorkerAnswer(env, m, response, now, finished)
    case Sent => Output(env, m)
  }

  lemma NextInv(env: Env, m: Oracle, e: Event)
    requires Inv(env, m) && Enabled(m, e)
    ensures Inv(env, Next(env, m, e))
  {
    hide Inv;
    match e
    case Received(p, now) => I.PacketInv(env, m, p, now);
    case Timer(now) => I.TimeoutInv(env, m, now);
    case Waiting(waiting, now) => I.KeepaliveInv(env, m, waiting, now);
    case IdentificationTaken => I.IdentificationInv(env, m, 0, false, 0);
    case Identified(token, delivered, now) => I.IdentificationInv(env, m, token, delivered, now);
    case RequestTaken => I.TakeInv(env, m);
    case AppAnswered(response, now, finished) => I.AnswerInv(env, m, response, now, finished);
    case Sent => I.OutputInv(env, m);
  }

  // ---------------------------------------------------------------- the log

  /** What an observer writes down: the app takes a request, the app answers,
      an answer becomes the response of transaction `tx`, the host responds in
      the app's place, a channel is resynchronised, a response has left. */
  datatype Entry =
    | Took(id: nat, channel: u32, command: byte, request: seq<byte>)
    | Answered(id: nat, response: seq<byte>, finished: Option<nat>)
    | Delivered(tx: nat, channel: u32, command: byte, request: seq<byte>, response: seq<byte>, from: nat, at: nat)
    | HostSaid(tx: nat, channel: u32, command: byte, words: seq<byte>)
    | Resynchronised(channel: u32)
    | Released(id: nat)

  /** The worker's answer goes straight to its own transaction. */
  predicate DeliversNow(m: Oracle, response: seq<byte>, now: nat, finished: Option<nat>)
    requires m.worker.Some?
  {
    && Direct(m)
    && (m.worker.value.command == MSG && m.poll.Some? && !EndsNotSatisfied(response) ==> !Late(m, now, finished))
  }

  /** CANCEL for a CBOR request that the app has not taken. */
  predicate CancelsUntaken(m: Oracle, p: Packet) {
    && p.Init? && p.command == CANCEL && Answerable(m, p.channel)
    && m.owner.value.command == CBOR && |m.owner.value.request| == m.owner.value.length && !m.owner.value.submitted
  }

  /** A complete U2F request that the app is at work on already, or whose like
      was denied a moment ago. */
  predicate NotYet(m: Oracle, now: nat) {
    && m.owner.Some? && m.owner.value.command == MSG && !Collects(m, now)
    && var channel, request := m.owner.value.channel, m.owner.value.request;
       if m.poll.Some? && m.poll.value.answer.None? then Polls(m, channel, request)
       else exists d :: d in m.denied && Suppresses(d, channel, request, now)
  }

  /** The app asks the user for longer than a U2F client waits. */
  predicate Prompts(m: Oracle, now: nat) {
    && m.owner.Some? && !m.owner.value.responding && m.owner.value.command == MSG && m.owner.value.submitted
    && m.poll.Some? && m.poll.value.presence && now <= PollDeadline(m.poll.value)
    && Since(now, m.poll.value.started) >= U2F_RESPONSE_WAIT_MS
  }

  function Observe(env: Env, m: Oracle, e: Event): seq<Entry>
    requires Inv(env, m) && Enabled(m, e)
  {
    match e
    case Received(p, now) => (
      match Admit(env, m, p, now)
      case Settled(_, aborted) =>
        if aborted.Some? then [Resynchronised(aborted.value)]
        else if CancelsUntaken(m, p) then [HostSaid(m.owner.value.id, p.channel, CBOR, KEEPALIVE_CANCEL)]
        else []
      case Completes(m') =>
        var o := m'.owner;
        if Collects(m', now) then
          [Delivered(o.value.id, o.value.channel, MSG, o.value.request, m'.poll.value.answer.value.bytes,
                     m'.poll.value.id, now)]
        else if NotYet(m', now) then [HostSaid(o.value.id, o.value.channel, MSG, NOT_SATISFIED)]
        else [])
    case Timer(now) =>
      if Prompts(m, now) then [HostSaid(m.owner.value.id, m.owner.value.channel, MSG, NOT_SATISFIED)] else []
    case RequestTaken =>
      var o := m.owner.value;
      [Took(o.id, o.channel, o.command, o.request)]
    case AppAnswered(response, now, finished) =>
      var w := m.worker.value;
      [Answered(w.id, response, finished)] +
      (if DeliversNow(m, response, now, finished) then
         [Delivered(w.id, m.owner.value.channel, w.command, m.owner.value.request, response, w.id, now)]
       else if Direct(m) then [HostSaid(w.id, m.owner.value.channel, MSG, NOT_SATISFIED)]
       else [])
    case Sent => if m.replies[0].completes.Some? then [Released(m.replies[0].completes.value)] else []
    case _ => []
  }

  /** The reply a log entry is about. */
  predicate Says(x: Entry, r: Reply) {
    || (x.Delivered? && r == Sendable(x.channel, x.command, x.response, Some(x.tx)))
    || (x.HostSaid? && r == Reply(x.channel, x.command, x.words, Some(x.tx)))
  }

  /** A message of the kinds the app's answers are of. */
  predicate IsAnswer(r: Reply) {
    r.command in {CBOR, MSG}
  }

  predicate NoNewAnswer(m: Oracle, m': Oracle) {
    forall r :: r in m'.replies && IsAnswer(r) ==> r in m.replies
  }

  ghost predicate Queues(x: Entry, m: Oracle, m': Oracle) {
    exists r :: Says(x, r) && m'.replies == m.replies + [r]
  }

  lemma AdmitQueues(env: Env, m: Oracle, p: Packet, now: nat)
    requires WellFormed(p)
    ensures CancelsUntaken(m, p) ==> Admit(env, m, p, now) == Settled(Admit(env, m, p, now).m, None)
    ensures if CancelsUntaken(m, p) then
              Queues(HostSaid(m.owner.value.id, p.channel, CBOR, KEEPALIVE_CANCEL), m, Admit(env, m, p, now).m)
            else NoNewAnswer(m, Admit(env, m, p, now).m)
  {
    hide AdmitContinuation, AdmitRequest, AdmitInit, Touch, IsAnswer, Says;
    var m0 := ExpireLease(m, now);
    if p.Init? {
      var m1 := m0.(channels := Touch(m0.channels, p.channel));
      CancelQueues(m1, p.channel);
      InitQueues(env, m1, p, now);
      RequestQueues(m1, p, now);
    } else {
      ContinuationQueues(m0, p, now);
    }
  }

  lemma CancelQueues(m: Oracle, channel: u32)
    ensures Answerable(m, channel) && AdmitCancel(m, channel) != m ==>
              Queues(HostSaid(m.owner.value.id, channel, CBOR, KEEPALIVE_CANCEL), m, AdmitCancel(m, channel))
  {
    if Answerable(m, channel) {
      var r := Reply(channel, CBOR, KEEPALIVE_CANCEL, Some(m.owner.value.id));
      assert Says(HostSaid(m.owner.value.id, channel, CBOR, KEEPALIVE_CANCEL), r);
    }
  }

  lemma InitQueues(env: Env, m: Oracle, p: Packet, now: nat)
    requires WellFormed(p) && p.Init?
    ensures NoNewAnswer(m, AdmitInit(env, m, p, now).m)
    ensures NoNewAnswer(m, Aside(m, p.channel, ERROR, [ERR_BUSY]))
  {
    hide DrawChannel, Resynchronise, Allocate, Busy;
    var (cid, drawn) := DrawChannel(env, m.channels, m.drawn);
    if cid.Some? {
      ResynchroniseQueues(m.(drawn := drawn, channels := Allocate(m.channels, cid.value)), p, cid.value, now);
    }
    ResynchroniseQueues(m, p, p.channel, now);
  }

  lemma ResynchroniseQueues(m: Oracle, p: Packet, cid: u32, now: nat)
    requires WellFormed(p) && p.Init?
    ensures NoNewAnswer(m, Resynchronise(m, p, cid, now))
  {
    hide DeniedElsewhere, InitReply;
  }

  lemma RequestQueues(m: Oracle, p: Packet, now: nat)
    requires WellFormed(p) && p.Init?
    ensures NoNewAnswer(m, AdmitRequest(m, p, now).m)
  {
  }

  lemma ContinuationQueues(m: Oracle, p: Packet, now: nat)
    requires WellFormed(p) && p.Cont?
    ensures NoNewAnswer(m, AdmitContinuation(m, p, now).m)
  {
  }

  lemma CompleteQueues(env: Env, m: Oracle, now: nat)
    requires Completable(m)
    ensures var o := m.owner.value;
            var m' := Complete(env, m, now);
            if Collects(m, now) then
              Queues(Delivered(o.id, o.channel, MSG, o.request, m.poll.value.answer.value.bytes, m.poll.value.id, now),
                     m, m')
            else if NotYet(m, now) then Queues(HostSaid(o.id, o.channel, MSG, NOT_SATISFIED), m, m')
            else NoNewAnswer(m, m')
  {
    hide FindDenied, FreshDenied;
    var o := m.owner.value;
    var i := FindDenied(m.denied, o.channel, o.request, now);
    assert i < |m.denied| ==> m.denied[i] in m.denied;
    var said := HostSaid(o.id, o.channel, MSG, NOT_SATISFIED);
    assert Says(said, Reply(o.channel, MSG, NOT_SATISFIED, Some(o.id)));
    if Collects(m, now) {
      var d := Delivered(o.id, o.channel, MSG, o.request, m.poll.value.answer.value.bytes, m.poll.value.id, now);
      assert Says(d, Sendable(d.channel, MSG, d.response, Some(d.tx)));
    }
  }

  lemma TimerQueues(env: Env, m: Oracle, now: nat)
    requires Inv(env, m)
    ensures if Prompts(m, now) then
              Queues(HostSaid(m.owner.value.id, m.owner.value.channel, MSG, NOT_SATISFIED), m, Timeout(m, now))
            else NoNewAnswer(m, Timeout(m, now))
  {
    hide QueueInv, ChannelsInv, DeniedInv, FreshDenied;
    if Prompts(m, now) {
      var o := m.owner.value;
      assert Says(HostSaid(o.id, o.channel, MSG, NOT_SATISFIED), Reply(o.channel, MSG, NOT_SATISFIED, Some(o.id)));
    }
  }

  lemma AnswerQueues(env: Env, m: Oracle, response: seq<byte>, now: nat, finished: Option<nat>)
    requires Inv(env, m) && m.worker.Some?
    ensures var m' := WorkerAnswer(env, m, response, now, finished);
            var w := m.worker.value;
            if DeliversNow(m, response, now, finished) then
              Queues(Delivered(w.id, m.owner.value.channel, w.command, m.owner.value.request, response, w.id, now),
                     m, m')
            else if Direct(m) then Queues(HostSaid(w.id, m.owner.value.channel, MSG, NOT_SATISFIED), m, m')
            else m'.replies == m.replies
  {
    hide QueueInv, ChannelsInv, DeniedInv, EndsNotSatisfied;
    if Direct(m) {
      var w, o := m.worker.value, m.owner.value;
      var d := Delivered(w.id, o.channel, w.command, o.request, response, w.id, now);
      assert Says(d, Sendable(o.channel, w.command, response, Some(w.id)));
      assert Says(HostSaid(w.id, o.channel, MSG, NOT_SATISFIED), Reply(o.channel, MSG, NOT_SATISFIED, Some(w.id)));
    }
  }

  /** A packet that completes a message has queued nothing yet. */
  lemma AdmitSilent(env: Env, m: Oracle, p: Packet, now: nat)
    requires Inv(env, m) && WellFormed(p) && Admit(env, m, p, now).Completes?
    ensures Admit(env, m, p, now).m.replies == m.replies
  {
    hide Inv, AdmitInit, FreshDenied, Touch, Respond;
  }

  /** A step that logs a delivery, or a word of the host's, queues it as the
      response of the transaction in the log. */
  lemma LoggedIsQueued(env: Env, m: Oracle, e: Event)
    requires Inv(env, m) && Enabled(m, e)
    ensures forall x :: x in Observe(env, m, e) && (x.Delivered? || x.HostSaid?) ==> Queues(x, m, Next(env, m, e))
  {
    hide Inv, Admit, Complete, WorkerAnswer, Timeout, Queues, Collects, NotYet, Prompts, CancelsUntaken, DeliversNow;
    match e
    case Received(p, now) =>
      AdmitCompletable(env, m, p, now);
      AdmitQueues(env, m, p, now);
      var a := Admit(env, m, p, now);
      if a.Completes? {
        AdmitSilent(env, m, p, now);
        CompleteQueues(env, a.m, now);
        QueuesAlike(m, a.m, Complete(env, a.m, now));
      }
    case Timer(now) => TimerQueues(env, m, now);
    case AppAnswered(response, now, finished) => AnswerQueues(env, m, response, now, finished);
    case _ =>
  }

  /** And a step queues no message of the app's kind but what it logs. */
  lemma OnlyLoggedIsQueued(env: Env, m: Oracle, e: Event)
    requires Inv(env, m) && Enabled(m, e)
    ensures NoNewAnswer(m, Next(env, m, e)) || exists x :: x in Observe(env, m, e) && (x.Delivered? || x.HostSaid?)
  {
    hide QueueInv, ChannelsInv, Admit, Complete, WorkerAnswer, Timeout, Queues, Collects, NotYet, Prompts,
         CancelsUntaken, DeliversNow, DeniedInv;
    var log := Observe(env, m, e);
    match e
    case Received(p, now) =>
      AdmitCompletable(env, m, p, now);
      AdmitQueues(env, m, p, now);
      var a := Admit(env, m, p, now);
      if a.Completes? {
        AdmitSilent(env, m, p, now);
        CompleteQueues(env, a.m, now);
      }
      assert log != [] ==> log[0] in log;
    case Timer(now) =>
      TimerQueues(env, m, now);
      assert log != [] ==> log[0] in log;
    case AppAnswered(response, now, finished) =>
      AnswerQueues(env, m, response, now, finished);
      assert |log| > 1 ==> log[1] in log;
    case _ =>
  }

  lemma QueuesAlike(m: Oracle, a: Oracle, m': Oracle)
    requires a.replies == m.replies
    ensures forall x :: Queues(x, a, m') <==> Queues(x, m, m')
  {
  }

  // ---------------------------------------------------------------- what a log must satisfy

  ghost predicate NoResync(log: seq<Entry>, i: nat, channel: u32) {
    forall j :: i < j < |log| ==> log[j] != Resynchronised(channel)
  }

  /** The app took this request, and its channel was not resynchronised since. */
  ghost predicate Standing(log: seq<Entry>, id: nat, channel: u32, request: seq<byte>) {
    exists i :: 0 <= i < |log| && log[i] == Took(id, channel, MSG, request) && NoResync(log, i, channel)
  }

  ghost predicate Undelivered(log: seq<Entry>, id: nat) {
    forall d :: d in log && d.Delivered? ==> d.from != id
  }

  /** A delivery is to the transaction whose request produced the answer, or to
      an identical U2F request on the same channel, before the approval
      expires and with no INIT there since the app took the request; and no
      answer is delivered twice. */
  ghost predicate Justified(log: seq<Entry>, d: Entry)
    requires d.Delivered?
  {
    && Undelivered(log, d.from)
    && (|| (&& d.tx == d.from && Took(d.from, d.channel, d.command, d.request) in log
            && exists finished :: Answered(d.from, d.response, finished) in log)
        || (&& d.tx != d.from && d.command == MSG
            && Standing(log, d.from, d.channel, d.request)
            && exists finished: nat :: Answered(d.from, d.response, Some(finished)) in log
                                    && d.at <= finished + U2F_APPROVAL_MS))
  }

  ghost predicate Honest(log: seq<Entry>) {
    && (forall j :: 0 <= j < |log| && log[j].Delivered? ==> Justified(log[..j], log[j]))
    && (forall i, j :: 0 <= i < j < |log| && log[i].Released? && log[j].Released? ==> log[i].id < log[j].id)
  }

  /** What the oracle's state remembers of the log. */
  ghost predicate Remembers(m: Oracle, log: seq<Entry>) {
    && (forall x :: x in log && x.Released? ==> x.id < m.nextId && (m.owner.Some? ==> x.id < m.owner.value.id))
    && (forall d :: d in log && d.Delivered? ==> d.from < m.nextId)
    && (m.worker.Some? ==> Undelivered(log, m.worker.value.id))
    && (m.owner.Some? ==> RemembersOwner(m, m.owner.value, log))
    && (m.poll.Some? ==> RemembersPoll(m.poll.value, log))
  }

  ghost predicate RemembersOwner(m: Oracle, o: Owner, log: seq<Entry>) {
    && (o.submitted && o.identification.None? ==> Took(o.id, o.channel, o.command, o.request) in log)
    && (!o.submitted ==>
          && Undelivered(log, o.id)
          && (m.worker.Some? ==> m.worker.value.id != o.id) && (m.poll.Some? ==> m.poll.value.id != o.id))
  }

  ghost predicate RemembersPoll(p: Poll, log: seq<Entry>) {
    && Undelivered(log, p.id)
    && Standing(log, p.id, p.channel, p.request)
    && (p.answer.Some? ==>
          exists finished: nat :: Answered(p.id, p.answer.value.bytes, Some(finished)) in log
                               && p.answer.value.expires == finished + U2F_APPROVAL_MS)
  }

  lemma StandingExtends(log: seq<Entry>, more: seq<Entry>, id: nat, channel: u32, request: seq<byte>)
    requires Standing(log, id, channel, request) && Resynchronised(channel) !in more
    ensures Standing(log + more, id, channel, request)
  {
    var i :| 0 <= i < |log| && log[i] == Took(id, channel, MSG, request) && NoResync(log, i, channel);
    assert (log + more)[i] == Took(id, channel, MSG, request);
    forall j | i < j < |log + more| ensures (log + more)[j] != Resynchronised(channel) {
      if j >= |log| {
        assert (log + more)[j] in more;
      }
    }
  }

  lemma HonestExtends(log: seq<Entry>, more: seq<Entry>)
    requires Honest(log)
    requires forall j :: 0 <= j < |more| && more[j].Delivered? ==> Justified(log + more[..j], more[j])
    requires forall x, y :: x in log && x.Released? && y in more && y.Released? ==> x.id < y.id
    requires |more| <= 1 || forall y :: y in more ==> !y.Released?
    ensures Honest(log + more)
  {
    forall j | 0 <= j < |log + more| && (log + more)[j].Delivered?
      ensures Justified((log + more)[..j], (log + more)[j])
    {
      if j < |log| {
        assert (log + more)[..j] == log[..j];
      } else {
        assert (log + more)[..j] == log + more[..j - |log|];
      }
    }
  }

  lemma PollExtends(p: Poll, log: seq<Entry>, more: seq<Entry>)
    requires RemembersPoll(p, log) && Resynchronised(p.channel) !in more
    requires forall d :: d in more && d.Delivered? ==> d.from != p.id
    ensures RemembersPoll(p, log + more)
  {
    StandingExtends(log, more, p.id, p.channel, p.request);
    if p.answer.Some? {
      var finished: nat :| Answered(p.id, p.answer.value.bytes, Some(finished)) in log
                        && p.answer.value.expires == finished + U2F_APPROVAL_MS;
      assert Answered(p.id, p.answer.value.bytes, Some(finished)) in log + more;
    }
  }

  // ---------------------------------------------------------------- steps

  /** The owner is the same transaction, a new one, or gone. */
  predicate OwnerContinues(m: Oracle, m': Oracle) {
    && m.nextId <= m'.nextId
    && (m'.owner.Some? ==>
          var o' := m'.owner.value;
          || (m.nextId <= o'.id < m'.nextId && (!o'.submitted || o'.identification.Some?))
          || (&& m.owner.Some?
              && var o := m.owner.value;
              && o'.id == o.id && o'.channel == o.channel && o'.command == o.command
              && (o'.submitted ==>
                    || o'.identification.Some?
                    || (o.submitted && o.identification.None? && o'.request == o.request))
              && (!o'.submitted ==> !o.submitted)))
  }

  /** A poll only goes on as the same poll, or goes. */
  predicate PollContinues(m: Oracle, m': Oracle) {
    m'.poll.Some? ==>
      && m.poll.Some? && m'.poll.value.id == m.poll.value.id && m'.poll.value.channel == m.poll.value.channel
      && m'.poll.value.request == m.poll.value.request && m'.poll.value.answer == m.poll.value.answer
  }

  predicate Continues(m: Oracle, m': Oracle) {
    OwnerContinues(m, m') && PollContinues(m, m') && m'.worker == m.worker
  }

  lemma ContinuesTransitive(a: Oracle, b: Oracle, c: Oracle)
    requires Continues(a, b) && Continues(b, c)
    ensures Continues(a, c)
  {
  }

  lemma CompleteContinues(env: Env, m: Oracle, now: nat)
    requires Completable(m)
    ensures Continues(m, Complete(env, m, now))
  {
    hide FindDenied, FreshDenied;
  }

  lemma ContinuationContinues(env: Env, m: Oracle, p: Packet, now: nat)
    requires WellFormed(p) && p.Cont? && Inv(env, m)
    ensures var a := AdmitContinuation(m, p, now);
            Continues(m, a.m) && a.m.poll == m.poll && (a.Settled? ==> a.aborted.None?)
  {
    hide QueueInv, ChannelsInv;
  }

  lemma RequestContinues(m: Oracle, p: Packet, now: nat)
    requires WellFormed(p) && p.Init?
    ensures var a := AdmitRequest(m, p, now);
            Continues(m, a.m) && a.m.poll == m.poll && (a.Settled? ==> a.aborted.None?)
    ensures Continues(m, AdmitCancel(m, p.channel))
  {
  }

  lemma InitContinues(env: Env, m: Oracle, p: Packet, now: nat)
    requires WellFormed(p) && p.Init?
    ensures var a := AdmitInit(env, m, p, now);
            && Continues(m, a.m)
            && (a.aborted.Some? && a.m.poll.Some? ==> a.m.poll.value.channel != a.aborted.value)
  {
    hide DrawChannel, Resynchronise, Allocate;
    var (cid, drawn) := DrawChannel(env, m.channels, m.drawn);
    if cid.Some? {
      ResynchroniseContinues(m.(drawn := drawn, channels := Allocate(m.channels, cid.value)), p, cid.value, now);
    }
    ResynchroniseContinues(m, p, p.channel, now);
  }

  lemma ResynchroniseContinues(m: Oracle, p: Packet, cid: u32, now: nat)
    requires WellFormed(p) && p.Init?
    ensures var m' := Resynchronise(m, p, cid, now);
            Continues(m, m') && (m'.poll.Some? ==> m'.poll.value.channel != p.channel)
  {
    hide InitReply, RepliesElsewhere, DeniedElsewhere;
  }

  lemma AdmitContinues(env: Env, m: Oracle, p: Packet, now: nat)
    requires WellFormed(p) && Inv(env, m)
    ensures var a := Admit(env, m, p, now);
            && Continues(m, a.m)
            && (a.Completes? ==> a.m.poll == m.poll)
            && (a.Settled? && a.aborted.Some? && a.m.poll.Some? ==> a.m.poll.value.channel != a.aborted.value)
  {
    hide AdmitContinuation, AdmitRequest, AdmitCancel, AdmitInit, Touch, Inv;
    I.LeaseInv(env, m, now);
    var m0 := ExpireLease(m, now);
    if p.Init? {
      var m1 := m0.(channels := Touch(m0.channels, p.channel));
      RequestContinues(m1, p, now);
      InitContinues(env, m1, p, now);
    } else {
      ContinuationContinues(env, m0, p, now);
    }
  }

  lemma TimerContinues(m: Oracle, now: nat)
    ensures Continues(m, Timeout(m, now))
  {
    hide FreshDenied;
    var m1 := ExpireIdentification(ExpireLease(m, now), now);
    assert Continues(m, m1);
    assert Continues(m1, ExpireU2f(m1, now));
    ContinuesTransitive(m, m1, ExpireU2f(m1, now));
    ContinuesTransitive(m, ExpireU2f(m1, now), Timeout(m, now));
  }

  lemma OtherContinues(env: Env, m: Oracle, e: Event)
    requires Inv(env, m) && Enabled(m, e)
             && (e.Timer? || e.Waiting? || e.Identified? || e.IdentificationTaken? || e.Sent?)
    ensures Continues(m, Next(env, m, e))
  {
    hide QueueInv, ChannelsInv, Timeout;
    if e.Timer? {
      TimerContinues(m, e.now);
    }
  }

  /** A step that continues everything keeps what is remembered, provided what
      it logs does not resynchronise the poll or deliver an open answer. */
  lemma ContinuesRemembers(m: Oracle, m': Oracle, log: seq<Entry>, more: seq<Entry>)
    requires Remembers(m, log) && Continues(m, m')
    requires m.worker.Some? ==> m.worker.value.id < m.nextId
    requires m.poll.Some? ==> m.poll.value.id < m.nextId
    requires m'.poll.Some? ==> Resynchronised(m'.poll.value.channel) !in more
    requires forall x :: x in more ==> !x.Took? && !x.Answered?
    requires forall x :: x in more && x.Released? ==> x.id < m'.nextId && m'.owner.None?
    requires forall d :: d in more && d.Delivered? ==>
               && d.from < m'.nextId && m'.worker.None? && m'.poll.None?
               && (m'.owner.Some? ==> m'.owner.value.id != d.from)
    ensures Remembers(m', log + more)
  {
    if m'.poll.Some? {
      PollExtends(m.poll.value, log, more);
    }
  }

  lemma ReceivedKeeps(env: Env, m: Oracle, p: Packet, now: nat, log: seq<Entry>)
    requires Inv(env, m) && WellFormed(p) && Remembers(m, log) && Honest(log)
    ensures var more := Observe(env, m, Received(p, now));
            Remembers(Next(env, m, Received(p, now)), log + more) && Honest(log + more)
  {
    hide QueueInv, ChannelsInv, Admit, Complete, Remembers, Honest, Justified;
    AdmitCompletable(env, m, p, now);
    AdmitContinues(env, m, p, now);
    var a := Admit(env, m, p, now);
    var more := Observe(env, m, Received(p, now));
    var m' := Next(env, m, Received(p, now));
    if a.Completes? {
      CompleteContinues(env, a.m, now);
      ContinuesTransitive(m, a.m, m');
      if Collects(a.m, now) {
        CollectKeeps(env, m, a.m, now, log);
        assert m' == Complete(env, a.m, now);
      } else {
        ContinuesRemembers(m, m', log, more);
        HonestExtends(log, more);
      }
    } else {
      ContinuesRemembers(m, m', log, more);
      HonestExtends(log, more);
    }
  }

  /** Collecting a stored approval: once, for the same request, in time. */
  lemma CollectKeeps(env: Env, m: Oracle, a: Oracle, now: nat, log: seq<Entry>)
    requires Inv(env, m) && Completable(a) && Collects(a, now) && a.poll == m.poll && Continues(m, a)
    requires Remembers(m, log) && Honest(log)
    ensures var o := a.owner.value;
            var d := Delivered(o.id, o.channel, MSG, o.request, a.poll.value.answer.value.bytes, a.poll.value.id, now);
            Remembers(Complete(env, a, now), log + [d]) && Honest(log + [d])
  {
    hide QueueInv, ChannelsInv, FindDenied, FreshDenied, Honest;
    var o := a.owner.value;
    var p := a.poll.value;
    var d := Delivered(o.id, o.channel, MSG, o.request, p.answer.value.bytes, p.id, now);
    assert o.id != p.id;
    assert Justified(log, d);
    assert log + [d][..0] == log;
    HonestExtends(log, [d]);
    CompleteContinues(env, a, now);
    var m' := Complete(env, a, now);
    ContinuesTransitive(m, a, m');
    assert m'.poll.None?;
    ContinuesRemembers(m, m', log, [d]);
  }

  lemma TakenKeeps(env: Env, m: Oracle, log: seq<Entry>)
    requires Inv(env, m) && WantsRequest(m) && Remembers(m, log) && Honest(log)
    ensures var more := Observe(env, m, RequestTaken);
            Remembers(Next(env, m, RequestTaken), log + more) && Honest(log + more)
  {
    hide QueueInv, ChannelsInv, Honest;
    var o := m.owner.value;
    var more := [Took(o.id, o.channel, o.command, o.request)];
    HonestExtends(log, more);
    var m' := TakeRequest(env, m);
    assert Took(o.id, o.channel, o.command, o.request) in log + more;
    if m'.poll.Some? {
      assert (log + more)[|log|] == Took(o.id, o.channel, MSG, o.request);
      assert NoResync(log + more, |log|, o.channel);
      assert Standing(log + more, o.id, o.channel, o.request);
    }
  }

  lemma AnswerKeeps(env: Env, m: Oracle, response: seq<byte>, now: nat, finished: Option<nat>, log: seq<Entry>)
    requires Inv(env, m) && m.worker.Some? && Remembers(m, log) && Honest(log)
    ensures var more := Observe(env, m, AppAnswered(response, now, finished));
            Remembers(Next(env, m, AppAnswered(response, now, finished)), log + more) && Honest(log + more)
  {
    hide QueueInv, ChannelsInv, Honest, Remembers, EndsNotSatisfied, WorkerAnswer;
    var more := Observe(env, m, AppAnswered(response, now, finished));
    AnswerRemembered(env, m, response, now, finished, log);
    if DeliversNow(m, response, now, finished) {
      AnswerJustified(env, m, response, now, finished, log);
    }
    HonestExtends(log, more);
  }

  lemma AnswerRemembered(env: Env, m: Oracle, response: seq<byte>, now: nat, finished: Option<nat>, log: seq<Entry>)
    requires Inv(env, m) && m.worker.Some? && Remembers(m, log)
    ensures Remembers(WorkerAnswer(env, m, response, now, finished),
                      log + Observe(env, m, AppAnswered(response, now, finished)))
  {
    hide QueueInv, ChannelsInv, DeniedInv, Honest, EndsNotSatisfied, Standing;
    var more := Observe(env, m, AppAnswered(response, now, finished));
    var m' := WorkerAnswer(env, m, response, now, finished);
    assert Answered(m.worker.value.id, response, finished) in log + more;
    if DeliversNow(m, response, now, finished) {
      assert m'.poll.None?;
    } else if m.poll.Some? {
      PollExtends(m.poll.value, log, more);
    }
  }

  /** An answer delivered at once is the app's answer to that transaction. */
  lemma AnswerJustified(env: Env, m: Oracle, response: seq<byte>, now: nat, finished: Option<nat>, log: seq<Entry>)
    requires Inv(env, m) && m.worker.Some? && Remembers(m, log) && DeliversNow(m, response, now, finished)
    ensures var more := Observe(env, m, AppAnswered(response, now, finished));
            && |more| == 2 && !more[0].Delivered? && more[1].Delivered?
            && Justified(log + more[..1], more[1])
  {
    hide QueueInv, ChannelsInv, Honest, EndsNotSatisfied, WorkerAnswer;
    var more := Observe(env, m, AppAnswered(response, now, finished));
    var d := more[1];
    assert more[..1] == [Answered(m.worker.value.id, response, finished)];
    assert Took(d.from, d.channel, d.command, d.request) in log + more[..1];
    assert Answered(d.from, d.response, finished) in log + more[..1];
  }

  lemma OtherKeeps(env: Env, m: Oracle, e: Event, log: seq<Entry>)
    requires Inv(env, m) && Enabled(m, e)
             && (e.Timer? || e.Waiting? || e.Identified? || e.IdentificationTaken? || e.Sent?)
    requires Remembers(m, log) && Honest(log)
    ensures var more := Observe(env, m, e);
            Remembers(Next(env, m, e), log + more) && Honest(log + more)
  {
    hide ChannelsInv, FreshDenied, Honest;
    OtherContinues(env, m, e);
    var more := Observe(env, m, e);
    ContinuesRemembers(m, Next(env, m, e), log, more);
    HonestExtends(log, more);
  }

  // ---------------------------------------------------------------- runs

  ghost predicate ValidRun(env: Env, m: Oracle, events: seq<Event>)
    requires Inv(env, m)
    decreases |events|
  {
    events == [] ||
    (Enabled(m, events[0]) && (NextInv(env, m, events[0]); ValidRun(env, Next(env, m, events[0]), events[1..])))
  }

  /** The log of a run. */
  ghost function LogOf(env: Env, m: Oracle, events: seq<Event>): seq<Entry>
    requires Inv(env, m) && ValidRun(env, m, events)
    decreases |events|
  {
    if events == [] then []
    else
      NextInv(env, m, events[0]);
      Observe(env, m, events[0]) + LogOf(env, Next(env, m, events[0]), events[1..])
  }

  lemma StepHonest(env: Env, m: Oracle, e: Event, log: seq<Entry>)
    requires Inv(env, m) && Enabled(m, e) && Remembers(m, log) && Honest(log)
    ensures var more := Observe(env, m, e);
            Remembers(Next(env, m, e), log + more) && Honest(log + more)
  {
    hide Inv, Remembers, Honest, Next, Observe;
    match e
    case Received(p, now) => ReceivedKeeps(env, m, p, now, log);
    case RequestTaken => TakenKeeps(env, m, log);
    case AppAnswered(response, now, finished) => AnswerKeeps(env, m, response, now, finished, log);
    case _ => OtherKeeps(env, m, e, log);
  }

  lemma {:induction false} RunHonest(env: Env, m: Oracle, events: seq<Event>, log: seq<Entry>)
    requires Inv(env, m) && ValidRun(env, m, events) && Remembers(m, log) && Honest(log)
    ensures Honest(log + LogOf(env, m, events))
    decreases |events|
  {
    hide Inv, Remembers, Honest, Next, Observe;
    if events == [] {
      assert log + LogOf(env, m, events) == log;
    } else {
      var e := events[0];
      StepHonest(env, m, e, log);
      NextInv(env, m, e);
      RunHonest(env, Next(env, m, e), events[1..], log + Observe(env, m, e));
      assert log + Observe(env, m, e) + LogOf(env, Next(env, m, e), events[1..]) == log + LogOf(env, m, events);
    }
  }

  /** In every run from power-up, answers are delivered only as Justified says,
      each at most once, and transactions are released in increasing order. */
  lemma EveryRunHonest(env: Env, events: seq<Event>)
    requires ValidRun(env, INITIAL, events)
    ensures Honest(LogOf(env, INITIAL, events))
  {
    RunHonest(env, INITIAL, events, []);
    assert [] + LogOf(env, INITIAL, events) == LogOf(env, INITIAL, events);
  }

  // ---------------------------------------------------------------- the wire

  ghost predicate AllLogged(replies: seq<Reply>, log: seq<Entry>) {
    forall r :: r in replies && IsAnswer(r) ==> exists x :: x in log && Says(x, r)
  }

  /** What has left, in order: all messages of the app's kind are in the log,
      and no transaction is answered after a later one, or twice. */
  ghost predicate Wire(sent: seq<Reply>, log: seq<Entry>) {
    && AllLogged(sent, log)
    && forall i, j :: 0 <= i < j < |sent| && sent[i].completes.Some? && sent[j].completes.Some? ==>
         sent[i].completes.value < sent[j].completes.value
  }

  ghost predicate Accounted(m: Oracle, log: seq<Entry>, sent: seq<Reply>) {
    && Remembers(m, log) && Honest(log) && AllLogged(m.replies, log) && Wire(sent, log)
    && forall r :: r in sent && r.completes.Some? ==> Released(r.completes.value) in log
  }

  function Leaving(m: Oracle, e: Event): seq<Reply>
    requires Enabled(m, e)
  {
    if e.Sent? then [m.replies[0]] else []
  }

  lemma StaysLogged(replies: seq<Reply>, log: seq<Entry>, more: seq<Entry>)
    requires AllLogged(replies, log)
    ensures AllLogged(replies, log + more)
  {
    forall r | r in replies && IsAnswer(r) ensures exists x :: x in log + more && Says(x, r) {
      var x :| x in log && Says(x, r);
      assert x in log + more;
    }
  }

  /** What a step queues is in the log by then. */
  lemma QueueLogged(env: Env, m: Oracle, e: Event, log: seq<Entry>)
    requires Inv(env, m) && Enabled(m, e) && AllLogged(m.replies, log)
    ensures AllLogged(Next(env, m, e).replies, log + Observe(env, m, e))
  {
    hide Inv, Next, Observe, IsAnswer, Says;
    var more, m' := Observe(env, m, e), Next(env, m, e);
    StaysLogged(m.replies, log, more);
    OnlyLoggedIsQueued(env, m, e);
    LoggedIsQueued(env, m, e);
    if !NoNewAnswer(m, m') {
      var x :| x in more && (x.Delivered? || x.HostSaid?);
      assert x in log + more && Queues(x, m, m');
    }
  }

  lemma WireExtends(sent: seq<Reply>, r: Reply, log: seq<Entry>, more: seq<Entry>)
    requires Wire(sent, log) && AllLogged([r], log)
    requires forall s :: s in sent && s.completes.Some? ==> Released(s.completes.value) in log
    requires r.completes.Some? ==> more == [Released(r.completes.value)]
    requires Honest(log + more)
    ensures Wire(sent + [r], log + more)
  {
    hide Says, IsAnswer, Justified;
    StaysLogged(sent, log, more);
    StaysLogged([r], log, more);
    assert r in [r];
    forall i | 0 <= i < |sent| && sent[i].completes.Some? && r.completes.Some?
      ensures sent[i].completes.value < r.completes.value
    {
      var k :| 0 <= k < |log| && log[k] == Released(sent[i].completes.value);
      assert (log + more)[k] == log[k] && (log + more)[|log|] == more[0];
    }
  }

  lemma StepAccounted(env: Env, m: Oracle, e: Event, log: seq<Entry>, sent: seq<Reply>)
    requires Inv(env, m) && Enabled(m, e) && Accounted(m, log, sent)
    ensures Accounted(Next(env, m, e), log + Observe(env, m, e), sent + Leaving(m, e))
  {
    hide Inv, Remembers, Honest, Next, IsAnswer, Says, Admit, Complete;
    var more := Observe(env, m, e);
    StepHonest(env, m, e, log);
    QueueLogged(env, m, e, log);
    if e.Sent? {
      assert m.replies[0] in m.replies;
      WireExtends(sent, m.replies[0], log, more);
    } else {
      StaysLogged(sent, log, more);
      assert sent + Leaving(m, e) == sent;
    }
  }

  /** Two messages on the wire never carry the same answer of the app. */
  lemma AnswersOnce(sent: seq<Reply>, log: seq<Entry>, i: nat, j: nat, x: Entry, y: Entry)
    requires Wire(sent, log) && Honest(log) && i < j < |sent|
    requires x in log && x.Delivered? && Says(x, sent[i])
    requires y in log && y.Delivered? && Says(y, sent[j])
    ensures x.from != y.from
  {
    assert x.tx < y.tx;
    var a :| 0 <= a < |log| && log[a] == x;
    var b :| 0 <= b < |log| && log[b] == y;
    if a < b {
      assert Justified(log[..b], y) && log[..b][a] == x;
    } else {
      assert Justified(log[..a], x) && log[..a][b] == y;
    }
  }
}
