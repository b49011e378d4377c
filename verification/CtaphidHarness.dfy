/** The fuzz target itself: the production host and the oracle side by side.
    Its assertions are assertions here, proved for every sequence of actions. */
module CtaphidHarness {
  import opened Bytes
  import opened Framing
  import opened CtaphidQueue
  import opened CtaphidRefinement
  import opened CtaphidManners
  import opened CtaphidInterrupt
  import O = CtaphidOracle
  import H = CtaphidHost
  import T = CtaphidTrace
  import Model = CtaphidModel
  import Transport = CtaphidTransport

  /** The actions of the fuzz target; those that send whole messages, transmit
      several reports or abort a channel are sequences of these. */
  datatype Action =
    | Packet(frame: Frame)
    | Advance(ms: nat)
    | Timeout
    | Keepalive(waiting: bool)
    | TakeRequest
    | Respond(response: seq<byte>, presence: bool)
    | SelectOutput
    | WriteOutput
    | FailOutput
    | TakeInterrupt
    | Shutdown
    | TakeIdentification
    | IdentificationResult(previous: bool, delivered: bool)

  /** What `k` written frames of the front reply have been assembled into. */
  predicate Assembled(assembly: Option<Assembly>, replies: seq<O.Reply>, k: nat) {
    if k == 0 then assembly.None?
    else replies != [] &&
         assembly == Some(PartOf(replies[0].channel, replies[0].command, replies[0].payload, k))
  }

  /** A selected frame is the queued one with its token, if that is queued. */
  predicate Selected(selected: Option<H.Outgoing>, pending: seq<H.Outgoing>, next: nat) {
    selected.Some? ==>
      && selected.value.token < next
      && forall f :: f in pending && f.token == selected.value.token ==> f == selected.value
  }

  predicate Consistent(env: O.Env, h: H.Host, m: O.Oracle, k: nat,
                       assembly: Option<Assembly>, senders: set<u32>, now: nat) {
    && Sim(env, h, m, k) && H.Valid(h) && Assembled(assembly, m.replies, k) && Polite(m, senders) && Timely(h, now)
  }

  lemma {:induction false} PrefixKept(replies: seq<O.Reply>, channel: u32)
    requires replies != [] && replies[0].channel != channel
    ensures O.RepliesElsewhere(replies, channel) != [] && O.RepliesElsewhere(replies, channel)[0] == replies[0]
  {
  }

  lemma CompleteJoins(env: O.Env, m: O.Oracle, now: nat)
    requires O.Completable(m)
    ensures m.replies <= O.Complete(env, m, now).replies
  {
    hide O.FindDenied, O.FreshDenied;
  }

  lemma InitKeepsFront(env: O.Env, m: O.Oracle, p: Packet, now: nat)
    requires O.WellFormed(p) && p.Init? && m.replies != []
    ensures var a := O.AdmitInit(env, m, p, now);
            a.aborted.None? || m.replies[0].channel != a.aborted.value ==>
              a.m.replies != [] && a.m.replies[0] == m.replies[0]
  {
    hide O.DrawChannel, O.DeniedElsewhere, O.InitReply, O.RepliesElsewhere;
    if m.replies[0].channel != p.channel {
      PrefixKept(m.replies, p.channel);
    }
  }

  lemma AdmitJoins(m: O.Oracle, p: Packet, now: nat)
    requires O.WellFormed(p)
    ensures p.Cont? ==> m.replies <= O.AdmitContinuation(m, p, now).m.replies
    ensures p.Init? ==> m.replies <= O.AdmitRequest(m, p, now).m.replies
    ensures m.replies <= O.AdmitCancel(m, p.channel).replies
  {
  }

  /** Replies only ever join the back of the queue, but for an abort. */
  lemma FrontKept(env: O.Env, m: O.Oracle, p: Packet, now: nat)
    requires O.WellFormed(p) && O.Inv(env, m) && m.replies != []
    ensures var (m', aborted) := O.HandlePacket(env, m, p, now);
            aborted.None? || m.replies[0].channel != aborted.value ==> m'.replies != [] && m'.replies[0] == m.replies[0]
  {
    hide O.Admit, O.Complete, O.Inv;
    O.AdmitCompletable(env, m, p, now);
    AdmitKeepsFront(env, m, p, now);
    if O.Admit(env, m, p, now).Completes? {
      CompleteJoins(env, O.Admit(env, m, p, now).m, now);
    }
  }

  lemma AdmitKeepsFront(env: O.Env, m: O.Oracle, p: Packet, now: nat)
    requires O.WellFormed(p) && m.replies != []
    ensures var a := O.Admit(env, m, p, now);
            a.Completes? || a.aborted.None? || m.replies[0].channel != a.aborted.value ==>
              a.m.replies != [] && a.m.replies[0] == m.replies[0]
  {
    hide O.AdmitInit, O.AdmitRequest, O.AdmitContinuation, O.AdmitCancel, O.Touch;
    var m0 := O.ExpireLease(m, now);
    AdmitJoins(m0, p, now);
    if p.Init? {
      var m1 := m0.(channels := O.Touch(m0.channels, p.channel));
      InitKeepsFront(env, m1, p, now);
      AdmitJoins(m1, p, now);
    }
  }

  lemma PacketConsistent(env: O.Env, h: H.Host, m: O.Oracle, k: nat, assembly: Option<Assembly>, senders: set<u32>,
                         p: Packet, now: nat)
    requires Consistent(env, h, m, k, assembly, senders, now) && O.WellFormed(p)
    ensures var (m', aborted) := O.HandlePacket(env, m, p, now);
            var assembly' := if aborted.Some? && assembly.Some? && assembly.value.channel == aborted.value
                             then None else assembly;
            var senders' := if p.Init? then senders + {p.channel} else senders;
            Consistent(env, H.HandlePacket(env, h, p, now), m', Written(m, k, aborted), assembly', senders', now)
  {
    hide O.HandlePacket, H.HandlePacket, Match, Timely, Proper, O.Inv;
    PacketSim(env, h, m, k, p, now);
    var (m', aborted) := O.HandlePacket(env, m, p, now);
    SimValid(env, H.HandlePacket(env, h, p, now), m', Written(m, k, aborted));
    PacketTimely(env, h, p, now);
    var senders' := if p.Init? then senders + {p.channel} else senders;
    assert Polite(m, senders');
    PacketPolite(env, m, senders', p, now);
    if m.replies != [] {
      FrontKept(env, m, p, now);
    }
  }

  /** The actions that neither send nor write: replies join the back. */
  lemma TimeoutConsistent(env: O.Env, h: H.Host, m: O.Oracle, k: nat,
                          assembly: Option<Assembly>, senders: set<u32>, now: nat)
    requires Consistent(env, h, m, k, assembly, senders, now)
    ensures Consistent(env, H.HandleTimeout(h, now), O.Timeout(m, now), k, assembly, senders, now)
  {
    hide H.HandleTimeout, Match, Timely, Polite, O.Inv, O.FreshDenied;
    TimeoutSim(env, h, m, k, now);
    SimValid(env, H.HandleTimeout(h, now), O.Timeout(m, now), k);
    TimeoutTimely(h, now);
    TimeoutPolite(env, m, senders, now);
    assert m.replies <= O.Timeout(m, now).replies;
  }

  lemma KeepaliveConsistent(env: O.Env, h: H.Host, m: O.Oracle, k: nat, assembly: Option<Assembly>, senders: set<u32>,
                            waiting: bool, now: nat)
    requires Consistent(env, h, m, k, assembly, senders, now)
    ensures var (h', sent) := H.SendKeepalive(H.AppPresence(h, waiting), waiting, now);
            var (m', expected) := O.Keepalive(m, waiting, now);
            sent == expected && Consistent(env, h', m', k, assembly, senders, now)
  {
    hide H.SendKeepalive, H.AppPresence, Match, Timely, Polite, O.Inv;
    KeepaliveSim(env, h, m, k, waiting, now);
    var (h', sent) := H.SendKeepalive(H.AppPresence(h, waiting), waiting, now);
    var (m', expected) := O.Keepalive(m, waiting, now);
    SimValid(env, h', m', k);
    KeepaliveTimely(h, waiting, now);
    KeepalivePolite(m, senders, waiting, now);
    assert m.replies <= m'.replies;
  }

  lemma TakeConsistent(env: O.Env, h: H.Host, m: O.Oracle, k: nat,
                       assembly: Option<Assembly>, senders: set<u32>, now: nat)
    requires Consistent(env, h, m, k, assembly, senders, now)
    ensures O.WantsRequest(m) ==>
              Consistent(env, H.TakeAppRequest(env, h).0, O.TakeRequest(env, m), k, assembly, senders, now)
    ensures O.WantsIdentification(m) ==>
              Consistent(env, H.TakeIdentification(h).0, O.TakeIdentification(m), k, assembly, senders, now)
  {
    hide Match, O.Inv, Proper;
    TakeSim(env, h, m, k);
    if O.WantsRequest(m) {
      SimValid(env, H.TakeAppRequest(env, h).0, O.TakeRequest(env, m), k);
    }
    if O.WantsIdentification(m) {
      SimValid(env, H.TakeIdentification(h).0, O.TakeIdentification(m), k);
    }
  }

  lemma ResultConsistent(env: O.Env, h: H.Host, m: O.Oracle, k: nat, assembly: Option<Assembly>, senders: set<u32>,
                         token: nat, delivered: bool, now: nat)
    requires Consistent(env, h, m, k, assembly, senders, now)
    ensures Consistent(env, H.IdentificationResponse(h, token, delivered, now),
                       O.IdentificationResult(m, token, delivered, now), k, assembly, senders, now)
  {
    hide H.IdentificationResponse, Match, Timely, Polite, O.Inv;
    IdentificationSim(env, h, m, k, token, delivered, now);
    SimValid(env, H.IdentificationResponse(h, token, delivered, now),
             O.IdentificationResult(m, token, delivered, now), k);
    ResultTimely(h, token, delivered, now);
    ResultPolite(m, senders, token, delivered, now);
    assert m.replies <= O.IdentificationResult(m, token, delivered, now).replies;
  }

  lemma AnswerConsistent(env: O.Env, h: H.Host, m: O.Oracle, k: nat, assembly: Option<Assembly>, senders: set<u32>,
                         response: seq<byte>, now: nat, finished: Option<nat>)
    requires Consistent(env, h, m, k, assembly, senders, now) && m.worker.Some?
    requires finished.Some? ==> finished.value <= now
    ensures Consistent(env, H.AppResponse(h, response, now, finished),
                       O.WorkerAnswer(env, m, response, now, finished), k, assembly, senders, now)
  {
    hide H.AppResponse, Match, Timely, Polite, O.Inv, O.EndsNotSatisfied;
    AnswerSim(env, h, m, k, response, now, finished);
    var m' := O.WorkerAnswer(env, m, response, now, finished);
    SimValid(env, H.AppResponse(h, response, now, finished), m', k);
    AnswerTimely(h, response, now, finished);
    AnswerPolite(env, m, senders, response, now, finished);
    assert m.replies <= m'.replies;
  }

  /** Writing the front frame: it is the frame the assembly waits for, and the
      message is complete exactly when the oracle's front reply is. */
  lemma WriteConsistent(env: O.Env, h: H.Host, m: O.Oracle, k: nat,
                        assembly: Option<Assembly>, senders: set<u32>, now: nat)
    requires Consistent(env, h, m, k, assembly, senders, now) && h.pending != []
    ensures m.replies != [] && k < |ReplyFrames(m.replies[0])|
    ensures var r := m.replies[0];
            var part := PartOf(r.channel, r.command, r.payload, k + 1);
            var h' := H.FrameWritten(h, h.pending[0]).0;
            && Assemble(assembly, h.pending[0].frame) == Some(part)
            && Proper(r.channel, r.command, r.payload) && r.channel in senders
            && (h'.pending != [] ==> h'.pending[0].token != h.pending[0].token)
            && (|part.payload| == part.length <==> k + 1 == |ReplyFrames(r)|)
            && (|part.payload| == part.length ==>
                  part.payload == r.payload && Consistent(env, h', O.Output(env, m), 0, None, senders, now))
            && (|part.payload| != part.length ==> Consistent(env, h', m, k + 1, Some(part), senders, now))
  {
    hide Match, Proper, Timely, O.Inv, Assemble;
    WriteSim(env, h, m, k);
    var r := m.replies[0];
    assert r in m.replies;
    FrontFits(env, h, m, k);
    AssembleStep(r.channel, r.command, r.payload, k);
    FrameAt(r.channel, r.command, r.payload, k + 1);
    OutputPolite(env, m, senders);
    WriteTimely(h, now);
    var h' := H.FrameWritten(h, h.pending[0]).0;
    assert r.payload[..|r.payload|] == r.payload;
    if k + 1 < |ReplyFrames(r)| {
      SimValid(env, h', m, k + 1);
    } else {
      SimValid(env, h', O.Output(env, m), 0);
    }
  }

  lemma FrontFits(env: O.Env, h: H.Host, m: O.Oracle, k: nat)
    requires Sim(env, h, m, k) && m.replies != []
    ensures Fits(m.replies[0]) && k < |ReplyFrames(m.replies[0])|
    ensures |h.pending| > 1 ==> h.pending[1].token != h.pending[0].token
  {
  }

  lemma WriteTimely(h: H.Host, now: nat)
    requires h.pending != [] && Timely(h, now)
    ensures Timely(H.FrameWritten(h, h.pending[0]).0, now)
  {
  }

  class Harness {
    const host: Transport.CtaphidHost
    const model: Model.Model
    var now: nat
    var senders: set<u32>
    var appBusy: bool
    var selected: Option<H.Outgoing>
    var assembly: Option<Assembly>
    var stopped: bool
    var identification: Option<nat>
    var previousIdentification: Option<nat>
    /** Frames of the model's front reply that have been written. */
    ghost var written: nat
    /** The log of the run, and the whole messages the host has written, each
        with the transaction it answers. */
    ghost var log: seq<T.Entry>
    ghost var sent: seq<O.Reply>

    ghost predicate Valid()
      reads this, host, model
    {
      && host.env == model.env
      && Consistent(model.env, host.View(), model.View(), written, assembly, senders, now)
      && Selected(selected, host.pending, host.nextToken)
      && appBusy == host.appBusy
    }

    /** The log accounts for everything queued and everything written. */
    ghost predicate Accounted()
      reads this, model
    {
      T.Accounted(model.View(), log, sent)
    }

    /** The time, the end of the session and the log are not touched. */
    twostate predicate Steady()
      reads this
    {
      now == old(now) && stopped == old(stopped) && log == old(log)
    }

    /** And no message was completed on the wire. */
    twostate predicate Silent()
      reads this
    {
      Steady() && sent == old(sent)
    }

    /** What an action makes of the production host. */
    ghost function HostAfter(action: Action): H.Host
      requires Valid()
      reads this, host, model
    {
      var h := host.View();
      match action
      case Packet(frame) => H.HandlePacket(host.env, h, Parse(frame), now)
      case Timeout => H.HandleTimeout(h, now)
      case Keepalive(waiting) => H.SendKeepalive(H.AppPresence(h, waiting), waiting, now).0
      case TakeRequest => H.TakeAppRequest(host.env, h).0
      case Respond(response, presence) =>
        if appBusy then H.AppResponse(h, response, now, if presence then Some(now) else None) else h
      case WriteOutput => if selected.Some? then H.FrameWritten(h, selected.value).0 else h
      case TakeInterrupt => h.(interruptApp := false)
      case TakeIdentification => H.TakeIdentification(h).0
      case IdentificationResult(previous, delivered) =>
        var token := if previous then previousIdentification else identification;
        if token.Some? then H.IdentificationResponse(h, token.value, delivered, now) else h
      case _ => h
    }

    /** What an action is to the oracle: a reply is sent once the last of its
        frames is. */
    ghost function EventOf(action: Action): (e: Option<T.Event>)
      requires Valid()
      reads this, host, model
      ensures e.Some? ==> T.Enabled(model.View(), e.value)
    {
      var m := model.View();
      match action
      case Packet(frame) => Some(T.Received(Parse(frame), now))
      case Timeout => Some(T.Timer(now))
      case Keepalive(waiting) => Some(T.Waiting(waiting, now))
      case TakeRequest => if O.WantsRequest(m) then Some(T.RequestTaken) else None
      case Respond(response, presence) =>
        if appBusy && m.worker.Some? then Some(T.AppAnswered(response, now, if presence then Some(now) else None))
        else None
      case WriteOutput =>
        if && selected.Some? && H.IsCurrent(host.View(), selected.value) && m.replies != []
           && written + 1 == |ReplyFrames(m.replies[0])|
        then Some(T.Sent) else None
      case TakeIdentification => if O.WantsIdentification(m) then Some(T.IdentificationTaken) else None
      case IdentificationResult(previous, delivered) =>
        var token := if previous then previousIdentification else identification;
        if token.Some? then Some(T.Identified(token.value, delivered, now)) else None
      case _ => None
    }

    ghost function ModelAfter(action: Action): O.Oracle
      requires Valid()
      reads this, host, model
    {
      var e := EventOf(action);
      if e.Some? then T.Next(model.env, model.View(), e.value) else model.View()
    }

    /** What an observer of the action writes down. */
    ghost function Noted(action: Action): seq<T.Entry>
      requires Valid()
      reads this, host, model
    {
      var e := EventOf(action);
      if e.Some? then T.Observe(model.env, model.View(), e.value) else []
    }

    /** The message whose last frame the action writes. */
    ghost function Leaving(action: Action): seq<O.Reply>
      requires Valid()
      reads this, host, model
    {
      var e := EventOf(action);
      if e.Some? then T.Leaving(model.View(), e.value) else []
    }

    lemma ActionAccounted(action: Action)
      requires Valid() && Accounted()
      ensures T.Accounted(ModelAfter(action), log + Noted(action), sent + Leaving(action))
    {
      hide Match, Timely, Polite, Assembled, Selected, O.Inv, T.Accounted, T.Next, T.Observe, T.Leaving, EventOf;
      var e := EventOf(action);
      if e.Some? {
        T.StepAccounted(model.env, model.View(), e.value, log, sent);
      } else {
        assert log + Noted(action) == log && sent + Leaving(action) == sent;
      }
    }

    constructor (env: O.Env)
      ensures Valid() && fresh(host) && fresh(model)
      ensures host.View() == H.INITIAL && model.View() == O.INITIAL && now == 0 && !stopped
      ensures Accounted() && log == [] && sent == []
    {
      host := new Transport.CtaphidHost(env);
      model := new Model.Model(env);
      now, senders, appBusy, selected, assembly, stopped := 0, {}, false, None, None, false;
      identification, previousIdentification := None, None;
      written, log, sent := 0, [], [];
    }

    method HandlePacket(frame: Frame)
      requires Valid()
      modifies this, host, model
      ensures Valid()
      ensures host.View() == old(HostAfter(Packet(frame))) && model.View() == old(ModelAfter(Packet(frame))) && Silent()
    {
      hide Match, Timely, Polite, Assembled, Selected, O.Inv, H.Valid, H.Fresher, H.HandlePacket, O.HandlePacket,
           T.Observe, Written;
      var p := Parse(frame);
      ghost var h, m := host.View(), model.View();
      PacketConsistent(model.env, h, m, written, assembly, senders, p, now);
      PacketTimely(model.env, h, p, now);
      KeepsSelected(h, H.HandlePacket(model.env, h, p, now), selected);
      if p.Init? {
        senders := senders + {p.channel};
      }
      var aborted := model.Packet(frame, now);
      host.HandleFrame(frame, now);
      if aborted.Some? && assembly.Some? && assembly.value.channel == aborted.value {
        assembly := None;
      }
      written := Written(m, written, aborted);
    }

    method Select()
      requires Valid()
      modifies this
      ensures Valid() && selected == if host.pending == [] then None else Some(host.pending[0])
      ensures Silent()
      ensures written == old(written) && assembly == old(assembly)
    {
      selected := host.NextOutgoingFrame();
    }

    /** A written frame continues the message being put together, or begins
        the next one. */
    method Reassemble(frame: Frame)
      requires Assemble(assembly, frame).Some?
      modifies this`assembly
      ensures assembly == Assemble(old(assembly), frame)
    {
      var p := Parse(frame);
      if p.Init? {
        assert assembly.None?;  // no truncation and no interleaved message
        assert p.length <= MAX_MESSAGE_SIZE;
        var head := Min(p.length, INIT_DATA);
        assert p.data[head..] == Zeros(INIT_DATA - head);
        assembly := Some(Assembly(p.channel, p.command, p.length, p.data[..head], 0));
      } else {
        assert assembly.Some?;  // no continuation without an initialization report
        var message := assembly.value;
        assert p.channel == message.channel && p.sequence == message.sequence;
        var count := Min(message.length - |message.payload|, CONT_DATA);
        assert p.data[count..] == Zeros(CONT_DATA - count);
        assembly := Some(message.(sequence := message.sequence + 1, payload := message.payload + p.data[..count]));
      }
    }

    /** A successful device write of the selected frame, unless an INIT made it
        stale in between. */
    method WriteSelected()
      requires Valid()
      modifies this, host, model
      ensures Valid() && selected.None?
      ensures host.View() == old(HostAfter(WriteOutput)) && model.View() == old(ModelAfter(WriteOutput)) && Steady()
      ensures sent == old(sent) + old(Leaving(WriteOutput))
      ensures |host.pending| <= old(|host.pending|)
      ensures old(selected.Some? && host.pending != [] && selected.value == host.pending[0]) ==>
                |host.pending| < old(|host.pending|)
    {
      hide Match, Timely, Polite, Assembled, O.Inv, Sim, O.Output;
      if selected.None? {
        return;
      }
      var f := selected.value;
      selected := None;
      if !H.IsCurrent(host.View(), f) {
        var retired := host.OutgoingFrameWritten(f);
        assert !retired;  // a stale completion is not accepted
        return;
      }
      WriteCurrent(f);
    }

    /** The device has taken the front frame: it is retired, once. */
    method Retire(f: H.Outgoing)
      requires host.pending != [] && f == host.pending[0]
      requires |host.pending| > 1 ==> host.pending[1].token != f.token
      modifies host
      ensures host.View() == old(H.FrameWritten(host.View(), f).0)
    {
      var retired := host.OutgoingFrameWritten(f);
      assert retired;
      var again := host.OutgoingFrameWritten(f);
      assert !again;  // no duplicate completion
    }

    method WriteCurrent(f: H.Outgoing)
      requires Valid() && selected.None? && host.pending != [] && f == host.pending[0]
      modifies this, host, model
      ensures Valid() && selected.None? && Steady() && |host.pending| < old(|host.pending|)
      ensures host.View() == old(H.FrameWritten(host.View(), f).0)
      ensures old(model.replies) != []
      ensures model.View() == old(if written + 1 == |ReplyFrames(model.replies[0])|
                                  then O.Output(model.env, model.View()) else model.View())
      ensures sent == old(sent) + old(if written + 1 == |ReplyFrames(model.replies[0])| then [model.replies[0]] else [])
    {
      hide Match, Timely, Polite, Assembled, O.Inv, Assemble, Proper;
      WriteConsistent(model.env, host.View(), model.View(), written, assembly, senders, now);
      Reassemble(f.frame);
      Retire(f);
      written := written + 1;
      if |assembly.value.payload| == assembly.value.length {
        var message := assembly.value;
        assembly := None;
        sent := sent + [O.Reply(message.channel, message.command, message.payload, model.replies[0].completes)];
        model.Sent(message.channel, message.command, message.payload);
        assert message.channel in senders;
        assert Proper(message.channel, message.command, message.payload);
        written := 0;
      }
    }

    method HandleTimeout()
      requires Valid()
      modifies this, host, model
      ensures Valid()
      ensures host.View() == old(HostAfter(Timeout)) && model.View() == old(ModelAfter(Timeout)) && Silent()
    {
      hide Match, Timely, Polite, Assembled, Selected, O.Inv, H.Fresher, O.Timeout, H.HandleTimeout;
      TimeoutConsistent(model.env, host.View(), model.View(), written, assembly, senders, now);
      TimeoutTimely(host.View(), now);
      KeepsSelected(host.View(), H.HandleTimeout(host.View(), now), selected);
      model.HandleTimeout(now);
      host.Timeout(now);
    }

    method HandleKeepalive(waiting: bool)
      requires Valid()
      modifies this, host, model
      ensures Valid()
      ensures host.View() == old(HostAfter(Keepalive(waiting))) && model.View() == old(ModelAfter(Keepalive(waiting)))
      ensures Silent()
    {
      hide Match, Timely, Polite, Assembled, Selected, O.Inv, H.Fresher;
      KeepaliveConsistent(model.env, host.View(), model.View(), written, assembly, senders, waiting, now);
      KeepaliveTimely(host.View(), waiting, now);
      KeepsSelected(host.View(), H.SendKeepalive(H.AppPresence(host.View(), waiting), waiting, now).0, selected);
      host.Presence(waiting);
      var sent := host.Keepalive(waiting, now);
      var expected := model.SendKeepalive(waiting, now);
      assert sent == expected;
    }

    method HandleTakeRequest()
      requires Valid()
      modifies this, host, model
      ensures Valid()
      ensures host.View() == old(HostAfter(TakeRequest)) && model.View() == old(ModelAfter(TakeRequest)) && Silent()
    {
      hide Match, Timely, Polite, Assembled, Selected, O.Inv, H.Fresher;
      TakeConsistent(model.env, host.View(), model.View(), written, assembly, senders, now);
      TakeSim(model.env, host.View(), model.View(), written);
      var request := host.TakeRequest();
      assert request.Some? == O.WantsRequest(model.View());
      if request.Some? {
        model.RequestTaken(request.value.0, request.value.1);
        assert !appBusy;  // no request for a busy app
        assert 0 < |request.value.1| <= MAX_MESSAGE_SIZE;
        appBusy := true;
      }
    }

    method HandleRespond(response: seq<byte>, presence: bool)
      requires Valid()
      modifies this, host, model
      ensures Valid()
      ensures host.View() == old(HostAfter(Respond(response, presence)))
      ensures model.View() == old(ModelAfter(Respond(response, presence))) && Silent()
    {
      hide Match, Timely, Polite, Assembled, Selected, O.Inv, H.Fresher, O.WorkerAnswer, H.AppResponse, H.Valid;
      if !appBusy {
        return;
      }
      appBusy := false;
      var finished := if presence then Some(now) else None;
      SimValid(model.env, host.View(), model.View(), written);
      AnswerConsistent(model.env, host.View(), model.View(), written, assembly, senders, response, now, finished);
      AnswerTimely(host.View(), response, now, finished);
      KeepsSelected(host.View().(appBusy := false), H.AppResponse(host.View(), response, now, finished), selected);
      model.Answered(response, now, finished);
      host.Respond(response, now, finished);
    }

    method HandleTakeIdentification()
      requires Valid()
      modifies this, host, model
      ensures Valid()
      ensures host.View() == old(HostAfter(TakeIdentification))
      ensures model.View() == old(ModelAfter(TakeIdentification)) && Silent()
    {
      hide Match, Timely, Polite, Assembled, Selected, O.Inv, H.Fresher;
      TakeConsistent(model.env, host.View(), model.View(), written, assembly, senders, now);
      TakeSim(model.env, host.View(), model.View(), written);
      var request := host.TakeIdentificationRequest();
      assert request.Some? == O.WantsIdentification(model.View());
      if request.Some? {
        model.IdentificationTaken(request.value);
        previousIdentification := identification;
        identification := Some(request.value.token);
      }
    }

    method HandleIdentificationResult(previous: bool, delivered: bool)
      requires Valid()
      modifies this, host, model
      ensures Valid()
      ensures host.View() == old(HostAfter(IdentificationResult(previous, delivered)))
      ensures model.View() == old(ModelAfter(IdentificationResult(previous, delivered))) && Silent()
    {
      hide Match, Timely, Polite, Assembled, Selected, O.Inv, H.Valid, H.Fresher, H.IdentificationResponse,
           O.IdentificationResult;
      var token := if previous then previousIdentification else identification;
      if token.Some? {
        ResultConsistent(model.env, host.View(), model.View(), written, assembly, senders, token.value, delivered, now);
        ResultTimely(host.View(), token.value, delivered, now);
        KeepsSelected(host.View(), H.IdentificationResponse(host.View(), token.value, delivered, now), selected);
        model.IdentificationDone(token.value, delivered, now);
        host.IdentificationDone(token.value, delivered, now);
      }
    }

    method CheckTimers()
      requires Valid()
      ensures Valid()
    {
      DeadlineBound(host.View(), now);
      var deadline := host.NextDeadline();
      assert deadline.Some? ==> deadline.value <= now + O.U2F_APPROVAL_MS + 1;
      assert host.appBusy == appBusy;
    }

    /** A failed device write: the selected report stays the next one. */
    method HandleFailure()
      requires Valid()
      modifies this
      ensures Valid() && Silent() && appBusy == old(appBusy)
      ensures written == old(written) && assembly == old(assembly)
      ensures selected == if old(selected).None? && host.pending != [] then Some(host.pending[0]) else old(selected)
    {
      if selected.None? {
        Select();
      }
      if selected.Some? && H.IsCurrent(host.View(), selected.value) {
        var next := host.NextOutgoingFrame();
        assert next.Some?;  // no completion without a successful write
      }
    }

    method HandleTakeInterrupt()
      requires Valid()
      modifies this, host, model
      ensures Valid() && Silent()
      ensures host.View() == old(HostAfter(TakeInterrupt)) && model.View() == old(ModelAfter(TakeInterrupt))
    {
      hide Timely, Polite, Assembled, Selected, O.Inv, SameQueue;
      ReadFlag(model.env, host.View(), model.View(), written, assembly, senders, now);
      var raised := host.TakeInterrupt();
    }

    /** The app is asked to give up exactly if a step drops or cancels work that
        it holds; reading the flag clears it, and an answer leaves it. */
    ghost predicate Interrupts(action: Action, before: H.Host, after: H.Host)
    {
      match action
      case Packet(frame) =>
        after.interruptApp <==> before.interruptApp || Drops(before, after) || Cancels(before, Parse(frame))
      case Respond(_, _) => after.interruptApp == before.interruptApp
      case TakeInterrupt => !after.interruptApp
      case _ => RaisedByDrop(before, after)
    }

    lemma ActionInterrupts(action: Action)
      requires Valid()
      ensures Interrupts(action, host.View(), HostAfter(action))
      ensures HostAfter(action).interruptApp && !host.interruptApp ==> host.appBusy
    {
      hide Match, Timely, Polite, Assembled, Selected, O.Inv, H.Fresher, H.HandlePacket, H.HandleTimeout, H.AppResponse,
           H.SendKeepalive, H.TakeAppRequest, H.FrameWritten, H.IdentificationResponse;
      var h, m := host.View(), model.View();
      HolderIsBusy(model.env, h, m, written);
      match action
      case Packet(frame) => PacketInterrupt(host.env, h, m, written, Parse(frame), now);
      case Timeout => TimeoutInterrupt(h, now);
      case Keepalive(waiting) => KeepaliveInterrupt(h, waiting, now);
      case TakeRequest => CtaphidInterrupt.TakeInterrupt(host.env, h, m, written);
      case TakeIdentification => CtaphidInterrupt.TakeInterrupt(host.env, h, m, written);
      case Respond(response, presence) =>
        AnswerInterrupt(h, response, now, if presence then Some(now) else None);
      case WriteOutput =>
        if selected.Some? {
          WriteInterrupt(h, selected.value);
        }
      case IdentificationResult(previous, delivered) =>
        var token := if previous then previousIdentification else identification;
        if token.Some? {
          ResultInterrupt(h, token.value, delivered, now);
        }
      case _ =>
    }

    method Act(action: Action)
      requires Valid() && Accounted()
      modifies this, host, model
      ensures Valid() && Accounted()
      ensures host.View() == old(HostAfter(action)) && model.View() == old(ModelAfter(action))
      ensures Interrupts(action, old(host.View()), host.View())
      ensures host.interruptApp && !old(host.interruptApp) ==> old(appBusy)
      ensures now == old(now) + if action.Advance? then action.ms else 0
      ensures stopped == (old(stopped) || action.Shutdown?)
      ensures log == old(log) + old(Noted(action)) && sent == old(sent) + old(Leaving(action))
    {
      hide Match, Timely, Polite, Assembled, Selected, O.Inv, H.Fresher, Interrupts, HostAfter, ModelAfter,
           Noted, Leaving, T.Accounted;
      ActionInterrupts(action);
      ActionAccounted(action);
      Dispatch(action);
      log := log + old(Noted(action));
      CheckTimers();
    }

    /** Only a write sends, and some actions are none of the machines'. */
    lemma Untouched(action: Action)
      requires Valid()
      ensures !action.WriteOutput? ==> Leaving(action) == []
      ensures action.Advance? || action.SelectOutput? || action.FailOutput? || action.Shutdown? ==>
                HostAfter(action) == host.View() && ModelAfter(action) == model.View()
    {
      hide Match, Timely, Polite, Assembled, Selected, O.Inv, H.Valid, H.Fresher, Sim, T.Next;
    }

    /** The one step of each machine that an action is. */
    method Dispatch(action: Action)
      requires Valid()
      modifies this, host, model
      ensures Valid()
      ensures host.View() == old(HostAfter(action)) && model.View() == old(ModelAfter(action))
      ensures now == old(now) + if action.Advance? then action.ms else 0
      ensures stopped == (old(stopped) || action.Shutdown?)
      ensures log == old(log) && sent == old(sent) + old(Leaving(action))
    {
      hide Match, Timely, Polite, Assembled, Selected, O.Inv, H.Valid, H.Fresher, Sim, HostAfter, ModelAfter, Leaving;
      Untouched(action);
      match action
      case Packet(frame) => HandlePacket(frame);
      case Advance(ms) =>
        AdvanceTimely(host.View(), now, ms);
        now := now + ms;
      case Timeout => HandleTimeout();
      case Keepalive(waiting) => HandleKeepalive(waiting);
      case TakeRequest => HandleTakeRequest();
      case Respond(response, presence) => HandleRespond(response, presence);
      case SelectOutput => Select();
      case WriteOutput => WriteSelected();
      case FailOutput => HandleFailure();
      case TakeInterrupt => HandleTakeInterrupt();
      case Shutdown => stopped := true;
      case TakeIdentification => HandleTakeIdentification();
      case IdentificationResult(previous, delivered) => HandleIdentificationResult(previous, delivered);
    }

    /** Write everything that is left: every message ends whole. */
    method Drain()
      requires Valid() && Accounted()
      modifies this, host, model
      ensures Valid() && Accounted() && host.pending == [] && assembly.None? && model.replies == []
      ensures now == old(now) && stopped == old(stopped)
    {
      hide T.Accounted, Consistent, Selected, HostAfter, EventOf;
      while host.pending != []
        invariant Valid() && Accounted() && now == old(now) && stopped == old(stopped)
        decreases |host.pending|
      {
        Select();
        ActionAccounted(WriteOutput);
        ghost var noted := Noted(WriteOutput);
        WriteSelected();
        log := log + noted;
      }
      Drained();
    }

    lemma Drained()
      requires Valid() && host.pending == []
      ensures model.replies == [] && assembly.None?
    {
      DrainedQueue(model.env, host.View(), model.View(), written);
    }
  }

  /** The fuzz target: any actions, up to a shutdown, then all output if there
      was none. No assertion can fail. */
  method Run(env: O.Env, actions: seq<Action>) returns (harness: Harness)
    ensures fresh(harness) && fresh(harness.host) && fresh(harness.model) && harness.Valid()
    ensures harness.stopped <==> Shutdown in actions
    ensures !harness.stopped ==>
              harness.host.pending == [] && harness.model.replies == [] && harness.assembly.None?
    ensures T.Honest(harness.log) && T.Wire(harness.sent, harness.log)
  {
    hide Consistent, Selected, Harness.Valid, Harness.HostAfter, Harness.ModelAfter, Harness.Interrupts,
         Harness.Noted, Harness.Leaving, T.Honest, T.Wire, T.Remembers;
    harness := new Harness(env);
    var i := 0;
    while i < |actions| && !harness.stopped
      invariant i <= |actions|
      invariant harness.Valid() && harness.Accounted() && fresh(harness) && fresh(harness.host) && fresh(harness.model)
      invariant harness.stopped <==> Shutdown in actions[..i]
    {
      harness.Act(actions[i]);
      i := i + 1;
    }
    if !harness.stopped {
      assert actions[..|actions|] == actions;
      harness.Drain();
    }
  }

  lemma ReadFlag(env: O.Env, h: H.Host, m: O.Oracle, k: nat, assembly: Option<Assembly>, senders: set<u32>, now: nat)
    requires Consistent(env, h, m, k, assembly, senders, now)
    ensures Consistent(env, h.(interruptApp := false), m, k, assembly, senders, now)
  {
    hide O.Inv, Polite, Assembled;
  }

  lemma DrainedQueue(env: O.Env, h: H.Host, m: O.Oracle, k: nat)
    requires Sim(env, h, m, k) && h.pending == []
    ensures m.replies == [] && k == 0
  {
    assert |View(h.pending, Final(h.phase))| == 0;
  }

  /** A step that only queues frames, or drops some, keeps a selected frame
      what it was. */
  lemma KeepsSelected(h: H.Host, h': H.Host, selected: Option<H.Outgoing>)
    requires Selected(selected, h.pending, h.nextToken) && H.OnlyQueues(h, h')
    ensures Selected(selected, h'.pending, h'.nextToken)
  {
  }
}
