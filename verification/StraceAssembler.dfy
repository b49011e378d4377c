/** The trace decoder's assembler: one dictionary entry per channel, so packets
    of channels may interleave. */
module StraceAssembler {
  import opened Bytes
  import opened Framing

  datatype Partial = Partial(command: byte, length: nat, data: seq<byte>)
  datatype Message = Message(channel: u32, command: byte, payload: seq<byte>)

  function ChannelOf(f: Frame): u32 {
    FromBe32(f[..4])
  }

  /** What the channel's entry becomes before completion is checked; None if
      the frame is dropped. */
  function Grow(entry: Option<Partial>, f: Frame): Option<Partial> {
    match Parse(f)
    case Init(_, command, length, data) => Some(Partial(command, length, Chunk(data, length)))
    case Cont(_, _, data) =>
      if entry.Some? then Some(entry.value.(data := entry.value.data + data)) else None
  }

  function Lookup(cur: map<u32, Partial>, channel: u32): Option<Partial> {
    if channel in cur then Some(cur[channel]) else None
  }

  function Feed(cur: map<u32, Partial>, f: Frame): (map<u32, Partial>, Option<Message>) {
    var channel := ChannelOf(f);
    match Grow(Lookup(cur, channel), f)
    case None => (cur, None)
    case Some(e) =>
      if |e.data| >= e.length then (cur - {channel}, Some(Message(channel, e.command, e.data[..e.length])))
      else (cur[channel := e], None)
  }

  class Assembler {
    var cur: map<u32, Partial>

    constructor ()
      ensures cur == map[]
    {
      cur := map[];
    }

    method FeedFrame(f: Frame) returns (message: Option<Message>)
      modifies this
      ensures (cur, message) == Feed(old(cur), f)
    {
      var channel := ChannelOf(f);
      message := None;
      match Parse(f) {
        case Init(_, command, length, data) =>
          cur := cur[channel := Partial(command, length, Chunk(data, length))];
        case Cont(_, _, data) =>
          if channel !in cur {
            return;
          }
          cur := cur[channel := cur[channel].(data := cur[channel].data + data)];
      }
      var e := cur[channel];
      if |e.data| >= e.length {
        cur := cur - {channel};
        message := Some(Message(channel, e.command, e.data[..e.length]));
        assert cur == old(cur) - {channel};
      }
    }
  }

  /** All messages of a stream, in order. */
  function Messages(cur: map<u32, Partial>, fs: seq<Frame>): seq<Message>
    decreases |fs|
  {
    if fs == [] then []
    else
      var (cur', m) := Feed(cur, fs[0]);
      (if m.Some? then [m.value] else []) + Messages(cur', fs[1..])
  }

  function FramesOn(fs: seq<Frame>, channel: u32): seq<Frame> {
    if fs == [] then []
    else (if ChannelOf(fs[0]) == channel then [fs[0]] else []) + FramesOn(fs[1..], channel)
  }

  function MessagesOn(ms: seq<Message>, channel: u32): seq<Message> {
    if ms == [] then []
    else (if ms[0].channel == channel then [ms[0]] else []) + MessagesOn(ms[1..], channel)
  }

  lemma FeedLocal(cur: map<u32, Partial>, other: map<u32, Partial>, f: Frame, channel: u32)
    requires Lookup(cur, channel) == Lookup(other, channel)
    ensures ChannelOf(f) == channel ==>
              Feed(cur, f).1 == Feed(other, f).1 && Lookup(Feed(cur, f).0, channel) == Lookup(Feed(other, f).0, channel)
    ensures ChannelOf(f) != channel ==> Lookup(Feed(cur, f).0, channel) == Lookup(cur, channel)
    ensures Feed(cur, f).1.Some? ==> Feed(cur, f).1.value.channel == ChannelOf(f)
  {
  }

  /** Whatever is interleaved with them, the frames of a channel give the
      messages they would give alone. */
  lemma {:induction false} Interleaving(cur: map<u32, Partial>, other: map<u32, Partial>, fs: seq<Frame>, channel: u32)
    requires Lookup(cur, channel) == Lookup(other, channel)
    ensures MessagesOn(Messages(cur, fs), channel) == Messages(other, FramesOn(fs, channel))
    decreases |fs|
  {
    if fs != [] {
      FeedLocal(cur, other, fs[0], channel);
      var (cur', m) := Feed(cur, fs[0]);
      if ChannelOf(fs[0]) == channel {
        var (other', _) := Feed(other, fs[0]);
        Interleaving(cur', other', fs[1..], channel);
        assert ([fs[0]] + FramesOn(fs[1..], channel))[1..] == FramesOn(fs[1..], channel);
      } else {
        Interleaving(cur', other, fs[1..], channel);
      }
      var rest := Messages(cur', fs[1..]);
      assert Messages(cur, fs) == if m.Some? then [m.value] + rest else rest;
      assert m.Some? ==> ([m.value] + rest)[1..] == rest;
      assert ChannelOf(fs[0]) != channel ==> FramesOn(fs, channel) == FramesOn(fs[1..], channel);
      assert ChannelOf(fs[0]) != channel ==> MessagesOn(Messages(cur, fs), channel) == MessagesOn(rest, channel);
      assert ChannelOf(fs[0]) == channel && m.None? ==>
          Messages(other, FramesOn(fs, channel)) == Messages(Feed(other, fs[0]).0, FramesOn(fs[1..], channel));
    }
  }

  /** The entry after the first `k` frames of a message with more to come. */
  lemma FeedStep(cur: map<u32, Partial>, channel: u32, command: byte, payload: seq<byte>, k: nat)
    requires command < 128 && |payload| <= MAX_MESSAGE_SIZE
    requires k < |Frames(channel, command, payload, |payload|)|
    requires k > 0 ==> Lookup(cur, channel) == Some(Partial(command, |payload|, payload[..Carried(|payload|, k)]))
    ensures var (cur', m) := Feed(cur, Frames(channel, command, payload, |payload|)[k]);
            if k + 1 < |Frames(channel, command, payload, |payload|)| then
              m.None?
              && Lookup(cur', channel) == Some(Partial(command, |payload|, payload[..Carried(|payload|, k + 1)]))
            else m == Some(Message(channel, command, payload))
  {
    if k == 0 {
      FeedFirst(cur, channel, command, payload);
    } else {
      FeedNext(cur, channel, command, payload, k);
    }
  }

  lemma FeedFirst(cur: map<u32, Partial>, channel: u32, command: byte, payload: seq<byte>)
    requires command < 128 && |payload| <= MAX_MESSAGE_SIZE
    requires 0 < |Frames(channel, command, payload, |payload|)|
    ensures var (cur', m) := Feed(cur, Frames(channel, command, payload, |payload|)[0]);
            if 1 < |Frames(channel, command, payload, |payload|)| then
              m.None? && Lookup(cur', channel) == Some(Partial(command, |payload|, payload[..Carried(|payload|, 1)]))
            else m == Some(Message(channel, command, payload))
  {
    FrameAt(channel, command, payload, 1);
    assert payload[..|payload|] == payload;
    var head := Chunk(payload, INIT_DATA);
    ParseInit(channel, command, |payload|, head);
    var padded := head + Zeros(INIT_DATA - |head|);
    assert Chunk(padded, |payload|) == payload[..Carried(|payload|, 1)];
  }

  lemma FeedNext(cur: map<u32, Partial>, channel: u32, command: byte, payload: seq<byte>, k: nat)
    requires command < 128 && |payload| <= MAX_MESSAGE_SIZE && k > 0
    requires k < |Frames(channel, command, payload, |payload|)|
    requires Lookup(cur, channel) == Some(Partial(command, |payload|, payload[..Carried(|payload|, k)]))
    ensures var (cur', m) := Feed(cur, Frames(channel, command, payload, |payload|)[k]);
            if k + 1 < |Frames(channel, command, payload, |payload|)| then
              m.None?
              && Lookup(cur', channel) == Some(Partial(command, |payload|, payload[..Carried(|payload|, k + 1)]))
            else m == Some(Message(channel, command, payload))
  {
    FrameAt(channel, command, payload, k + 1);
    assert payload[..|payload|] == payload;
    FrameAt(channel, command, payload, k);
    hide Frames, ContFrame, Parse;
    var done := Carried(|payload|, k);
    var c := Chunk(payload[done..], CONT_DATA);
    ParseCont(channel, k - 1, c);
    PaddedPart(payload, k);
  }

  /** With its padding, frame `k` goes on to where frame `k + 1` would, or past
      the end. */
  lemma PaddedPart(payload: seq<byte>, k: nat)
    requires k > 0 && Carried(|payload|, k) < |payload|
    ensures var done := Carried(|payload|, k);
            var c := Chunk(payload[done..], CONT_DATA);
            var data := payload[..done] + (c + Zeros(CONT_DATA - |c|));
            && (Carried(|payload|, k + 1) < |payload| ==> data == payload[..Carried(|payload|, k + 1)])
            && (|data| >= |payload| ==> data[..|payload|] == payload)
            && (Carried(|payload|, k + 1) == |payload| ==> |data| >= |payload|)
  {
    var done := Carried(|payload|, k);
    var c := Chunk(payload[done..], CONT_DATA);
    assert payload[..done] + c == payload[..Carried(|payload|, k + 1)];
    assert |c| == CONT_DATA ==> Zeros(CONT_DATA - |c|) == [];
    assert |c| < CONT_DATA ==> payload[..done] + c == payload;
    assert payload[..done] + (c + Zeros(CONT_DATA - |c|)) == payload[..done] + c + Zeros(CONT_DATA - |c|);
  }

  lemma {:induction false} FeedFrom(cur: map<u32, Partial>, channel: u32, command: byte, payload: seq<byte>, k: nat)
    requires command < 128 && |payload| <= MAX_MESSAGE_SIZE
    requires k < |Frames(channel, command, payload, |payload|)|
    requires k > 0 ==> Lookup(cur, channel) == Some(Partial(command, |payload|, payload[..Carried(|payload|, k)]))
    ensures Messages(cur, Frames(channel, command, payload, |payload|)[k..]) == [Message(channel, command, payload)]
    decreases |Frames(channel, command, payload, |payload|)| - k
  {
    var fs := Frames(channel, command, payload, |payload|);
    FeedStep(cur, channel, command, payload, k);
    var (cur', m) := Feed(cur, fs[k]);
    assert fs[k..][1..] == fs[k + 1..];
    if k + 1 < |fs| {
      FeedFrom(cur', channel, command, payload, k + 1);
    } else {
      assert Messages(cur', fs[k + 1..]) == [];
    }
  }

  /** A message whose frames reach the assembler in order, with anything of
      other channels in between, is decoded exactly and alone on its channel. */
  lemma DecodesInterleaved(fs: seq<Frame>, channel: u32, command: byte, payload: seq<byte>)
    requires command < 128 && |payload| <= MAX_MESSAGE_SIZE
    requires FramesOn(fs, channel) == Frames(channel, command, payload, |payload|)
    ensures MessagesOn(Messages(map[], fs), channel) == [Message(channel, command, payload)]
  {
    Interleaving(map[], map[], fs, channel);
    FeedFrom(map[], channel, command, payload, 0);
    assert Frames(channel, command, payload, |payload|)[0..] == Frames(channel, command, payload, |payload|);
  }
}
