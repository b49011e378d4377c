/** The host's queue of frames against the oracle's queue of messages. */
module CtaphidQueue {
  import opened Bytes
  import opened Framing
  import O = CtaphidOracle
  import H = CtaphidHost

  /** A frame, and whether writing it completes a transaction. */
  datatype Tagged = Tagged(frame: Frame, last: bool)

  predicate Fits(r: O.Reply) {
    r.command < 128 && |r.payload| <= MAX_MESSAGE_SIZE
  }

  function ReplyFrames(r: O.Reply): (fs: seq<Frame>)
    requires Fits(r)
    ensures |fs| > 0
  {
    Frames(r.channel, r.command, r.payload, |r.payload|)
  }

  function TagReply(r: O.Reply): (t: seq<Tagged>)
    requires Fits(r)
    ensures |t| == |ReplyFrames(r)|
  {
    var fs := ReplyFrames(r);
    seq(|fs|, i requires 0 <= i < |fs| => Tagged(fs[i], r.completes.Some? && i == |fs| - 1))
  }

  predicate AllFit(replies: seq<O.Reply>) {
    forall i :: 0 <= i < |replies| ==> Fits(replies[i])
  }

  /** Every frame of every reply, in order. */
  function Line(replies: seq<O.Reply>): seq<Tagged>
    requires AllFit(replies)
  {
    if replies == [] then [] else TagReply(replies[0]) + Line(replies[1..])
  }

  /** What is queued, each frame tagged with whether its token is `final`. */
  function View(pending: seq<H.Outgoing>, final: Option<nat>): (v: seq<Tagged>)
    ensures |v| == |pending|
  {
    seq(|pending|, i requires 0 <= i < |pending| => Tagged(pending[i].frame, final == Some(pending[i].token)))
  }

  predicate Ordered(pending: seq<H.Outgoing>, next: nat) {
    && (forall i, j :: 0 <= i < j < |pending| ==> pending[i].token < pending[j].token)
    && (forall i :: 0 <= i < |pending| ==> pending[i].token < next)
  }

  /** `pending` holds all frames of `replies` but the first `k`, which have
      been written, and `final` is the token whose write completes the
      transaction the replies answer, if they answer one. */
  predicate Queued(pending: seq<H.Outgoing>, next: nat, final: Option<nat>, replies: seq<O.Reply>, k: nat) {
    && AllFit(replies) && Ordered(pending, next) && (final.Some? ==> final.value < next)
    && (if replies == [] then k == 0 else k < |TagReply(replies[0])|)
    && (replies != [] ==> Line(replies) == TagReply(replies[0]) + Line(replies[1..]))
    && k <= |Line(replies)|
    && View(pending, final) == Line(replies)[k..]
  }

  lemma {:induction false} LineAppend(replies: seq<O.Reply>, r: O.Reply)
    requires AllFit(replies) && Fits(r)
    ensures AllFit(replies + [r])
    ensures Line(replies + [r]) == Line(replies) + TagReply(r)
  {
    if replies == [] {
      assert [] + [r] == [r];
      assert Line([r]) == TagReply(r) + Line([r][1..]);
    } else {
      LineAppend(replies[1..], r);
      assert (replies + [r])[1..] == replies[1..] + [r];
    }
  }

  lemma AddedView(next: nat, final: Option<nat>, r: O.Reply)
    requires Fits(r)
    requires if r.completes.Some? then final == Some(next + |ReplyFrames(r)| - 1)
             else final.Some? ==> final.value < next
    ensures View(H.Tokened(ReplyFrames(r), next), final) == TagReply(r)
  {
  }

  lemma AddedOrdered(pending: seq<H.Outgoing>, next: nat, frames: seq<Frame>)
    requires Ordered(pending, next)
    ensures Ordered(pending + H.Tokened(frames, next), next + |frames|)
  {
  }

  /** Queueing the frames of `r` behind `replies`. */
  lemma QueuedAppend(pending: seq<H.Outgoing>, next: nat, final: Option<nat>, replies: seq<O.Reply>, k: nat, r: O.Reply)
    requires Fits(r)
    requires Queued(pending, next, if r.completes.Some? then None else final, replies, k)
    requires r.completes.Some? ==> final == Some(next + |ReplyFrames(r)| - 1)
    ensures Queued(pending + H.Tokened(ReplyFrames(r), next), next + |ReplyFrames(r)|, final, replies + [r], k)
  {
    hide TagReply, ReplyFrames, H.Tokened;
    var added := H.Tokened(ReplyFrames(r), next);
    AddedOrdered(pending, next, ReplyFrames(r));
    LineAppend(replies, r);
    assert (replies + [r])[0] == if replies == [] then r else replies[0];
    AddedView(next, final, r);
    assert View(pending, final) == View(pending, if r.completes.Some? then None else final);
    assert View(pending + added, final) == View(pending, final) + View(added, final);
    assert (Line(replies) + TagReply(r))[k..] == Line(replies)[k..] + TagReply(r);
  }

  lemma FrameChannel(r: O.Reply, i: nat)
    requires Fits(r) && i < |ReplyFrames(r)|
    ensures ReplyFrames(r)[i][..4] == Be32(r.channel)
  {
    if i > 0 {
      FrameAt(r.channel, r.command, r.payload, i);
    }
  }

  function TagsElsewhere(tags: seq<Tagged>, channel: u32): seq<Tagged> {
    if tags == [] then []
    else
      var rest := TagsElsewhere(tags[1..], channel);
      if tags[0].frame[..4] != Be32(channel) then [tags[0]] + rest else rest
  }

  lemma {:induction false} ViewElsewhere(pending: seq<H.Outgoing>, final: Option<nat>, channel: u32)
    ensures View(H.FramesElsewhere(pending, channel), final) == TagsElsewhere(View(pending, final), channel)
  {
    if pending != [] {
      ViewElsewhere(pending[1..], final, channel);
      assert View(pending, final)[1..] == View(pending[1..], final);
    }
  }

  lemma {:induction false} TagsAppend(a: seq<Tagged>, b: seq<Tagged>, channel: u32)
    ensures TagsElsewhere(a + b, channel) == TagsElsewhere(a, channel) + TagsElsewhere(b, channel)
  {
    if a == [] {
      assert a + b == b;
    } else {
      TagsAppend(a[1..], b, channel);
      assert (a + b)[1..] == a[1..] + b;
    }
  }

  /** A filter by channel keeps or drops the frames of a reply as a whole. */
  lemma {:induction false} TagsOfReply(tags: seq<Tagged>, to: u32, channel: u32)
    requires forall i :: 0 <= i < |tags| ==> tags[i].frame[..4] == Be32(to)
    ensures TagsElsewhere(tags, channel) == if to == channel then [] else tags
  {
    if tags != [] {
      TagsOfReply(tags[1..], to, channel);
      Be32RoundTrip(to);
      Be32RoundTrip(channel);
      assert tags == [tags[0]] + tags[1..];
    }
  }

  lemma ReplyElsewhere(r: O.Reply, k: nat, channel: u32)
    requires Fits(r) && k <= |TagReply(r)|
    ensures TagsElsewhere(TagReply(r)[k..], channel) == if r.channel == channel then [] else TagReply(r)[k..]
  {
    forall i | 0 <= i < |TagReply(r)[k..]| ensures TagReply(r)[k..][i].frame[..4] == Be32(r.channel) {
      FrameChannel(r, k + i);
    }
    TagsOfReply(TagReply(r)[k..], r.channel, channel);
  }

  lemma {:induction false} LineElsewhere(replies: seq<O.Reply>, channel: u32)
    requires AllFit(replies)
    ensures AllFit(O.RepliesElsewhere(replies, channel))
    ensures Line(O.RepliesElsewhere(replies, channel)) == TagsElsewhere(Line(replies), channel)
  {
    if replies != [] {
      LineElsewhere(replies[1..], channel);
      ReplyElsewhere(replies[0], 0, channel);
      TagsAppend(TagReply(replies[0]), Line(replies[1..]), channel);
      assert TagReply(replies[0])[0..] == TagReply(replies[0]);
      var rest := O.RepliesElsewhere(replies[1..], channel);
      assert ([replies[0]] + rest)[1..] == rest;
    }
  }

  lemma {:induction false} OrderedElsewhere(pending: seq<H.Outgoing>, next: nat, channel: u32)
    requires Ordered(pending, next)
    ensures Ordered(H.FramesElsewhere(pending, channel), next)
  {
    if pending != [] {
      OrderedElsewhere(pending[1..], next, channel);
      var rest := H.FramesElsewhere(pending[1..], channel);
      forall i | 0 <= i < |rest| ensures pending[0].token < rest[i].token {
        assert rest[i] in pending[1..];
      }
    }
  }

  /** How many frames of the first reply are still written after `channel`'s
      output was dropped. */
  function KeptFrames(replies: seq<O.Reply>, k: nat, channel: u32): nat {
    if replies != [] && replies[0].channel == channel then 0 else k
  }

  /** Filtering what is left of the first reply and all of the others. */
  lemma PurgeParts(replies: seq<O.Reply>, k: nat, channel: u32)
    requires AllFit(replies) && replies != [] && k < |TagReply(replies[0])|
    ensures k <= |Line(replies)| && AllFit(O.RepliesElsewhere(replies[1..], channel))
    ensures TagsElsewhere(Line(replies)[k..], channel)
         == (if replies[0].channel == channel then [] else TagReply(replies[0])[k..])
            + Line(O.RepliesElsewhere(replies[1..], channel))
  {
    hide TagReply, TagsElsewhere;
    var r := replies[0];
    LineElsewhere(replies[1..], channel);
    ReplyElsewhere(r, k, channel);
    assert Line(replies)[k..] == TagReply(r)[k..] + Line(replies[1..]);
    TagsAppend(TagReply(r)[k..], Line(replies[1..]), channel);
  }

  lemma PurgeLine(replies: seq<O.Reply>, k: nat, channel: u32)
    requires AllFit(replies) && replies != [] && k < |TagReply(replies[0])|
    ensures var kept := O.RepliesElsewhere(replies, channel);
            && AllFit(kept) && KeptFrames(replies, k, channel) <= |Line(kept)| && k <= |Line(replies)|
            && TagsElsewhere(Line(replies)[k..], channel) == Line(kept)[KeptFrames(replies, k, channel)..]
            && (kept == [] ==> KeptFrames(replies, k, channel) == 0)
            && (kept != [] ==> KeptFrames(replies, k, channel) < |TagReply(kept[0])|)
  {
    var r := replies[0];
    var rest := O.RepliesElsewhere(replies[1..], channel);
    PurgeParts(replies, k, channel);
    if r.channel == channel {
      assert Line(rest)[0..] == Line(rest) == [] + Line(rest);
    } else {
      PrependLine(r, rest, k);
    }
  }

  lemma PrependLine(r: O.Reply, rest: seq<O.Reply>, k: nat)
    requires Fits(r) && AllFit(rest) && k < |TagReply(r)|
    ensures AllFit([r] + rest) && k <= |Line([r] + rest)|
    ensures Line([r] + rest)[k..] == TagReply(r)[k..] + Line(rest)
  {
    assert ([r] + rest)[1..] == rest;
    assert Line([r] + rest) == TagReply(r) + Line(rest);
  }

  /** Dropping a channel's unsent frames drops exactly its replies. When no
      reply that completes a transaction is left, no frame does. */
  lemma QueuedPurge(pending: seq<H.Outgoing>, next: nat, final: Option<nat>,
                    replies: seq<O.Reply>, k: nat, channel: u32)
    requires Queued(pending, next, final, replies, k)
    requires forall r :: r in O.RepliesElsewhere(replies, channel) ==> r.completes.None?
    ensures Queued(H.FramesElsewhere(pending, channel), next, None, O.RepliesElsewhere(replies, channel),
                   KeptFrames(replies, k, channel))
  {
    hide TagReply, H.FramesElsewhere;
    var kept := O.RepliesElsewhere(replies, channel);
    var frames := H.FramesElsewhere(pending, channel);
    OrderedElsewhere(pending, next, channel);
    ViewElsewhere(pending, final, channel);
    if replies != [] {
      PurgeLine(replies, k, channel);
    }
    NoneLast(kept);
    var line := Line(kept)[KeptFrames(replies, k, channel)..];
    assert View(frames, final) == line;
    forall i | 0 <= i < |frames| ensures View(frames, None)[i] == line[i] {
      assert View(frames, final)[i] == line[i];
      assert line[i] == Line(kept)[KeptFrames(replies, k, channel) + i];
    }
  }

  lemma {:induction false} NoneLast(replies: seq<O.Reply>)
    requires AllFit(replies) && forall r :: r in replies ==> r.completes.None?
    ensures forall i :: 0 <= i < |Line(replies)| ==> !Line(replies)[i].last
  {
    if replies != [] {
      assert replies[0] in replies;
      NoneLast(replies[1..]);
    }
  }

  /** Writing the front frame of a message that has more. */
  lemma QueuedPartial(pending: seq<H.Outgoing>, next: nat, final: Option<nat>, replies: seq<O.Reply>, k: nat)
    requires Queued(pending, next, final, replies, k) && pending != []
    ensures replies != [] && pending[0].frame == ReplyFrames(replies[0])[k]
    ensures (final == Some(pending[0].token)) == (replies[0].completes.Some? && k == |ReplyFrames(replies[0])| - 1)
    ensures k + 1 < |ReplyFrames(replies[0])| ==> Queued(pending[1..], next, final, replies, k + 1)
  {
    assert View(pending, final)[0] == Line(replies)[k];
    assert Line(replies)[k] == TagReply(replies[0])[k];
    assert View(pending[1..], final) == View(pending, final)[1..];
    assert Line(replies)[k..][1..] == Line(replies)[k + 1..];
  }

  /** Writing the last frame of the front message retires it. */
  lemma QueuedLast(pending: seq<H.Outgoing>, next: nat, final: Option<nat>, replies: seq<O.Reply>, k: nat)
    requires Queued(pending, next, final, replies, k) && pending != []
    requires replies != [] && k + 1 == |ReplyFrames(replies[0])|
    ensures Queued(pending[1..], next, if final == Some(pending[0].token) then None else final, replies[1..], 0)
  {
    var final' := if final == Some(pending[0].token) then None else final;
    assert View(pending[1..], final) == View(pending, final)[1..];
    assert Line(replies)[k..][1..] == Line(replies[1..]);
    assert View(pending[1..], final') == View(pending[1..], final);
    assert Line(replies[1..])[0..] == Line(replies[1..]);
  }
}
