/** Bytes, options and the big-endian integers every wire format here uses. */
module Bytes {
  type byte = x: int | 0 <= x < 256
  type u32 = x: int | 0 <= x < 0x1_0000_0000

  datatype Option<+T> = None | Some(value: T)

  /** A request parameter: absent, of another type, or given. */
  datatype Param<+T> = Absent | WrongType | Given(value: T)

  function Min(a: nat, b: nat): nat {
    if a <= b then a else b
  }

  /** Rust's `saturating_sub` on unsigned integers. */
  function Since(now: nat, then': nat): nat {
    if now >= then' then now - then' else 0
  }

  function Zeros(n: nat): (z: seq<byte>)
    ensures |z| == n && forall i :: 0 <= i < n ==> z[i] == 0
  {
    seq(n, _ => 0)
  }

  function Be32(x: u32): (b: seq<byte>)
    ensures |b| == 4
  {
    [x / 0x100_0000, x / 0x1_0000 % 256, x / 256 % 256, x % 256]
  }

  function FromBe32(b: seq<byte>): u32
    requires |b| == 4
  {
    b[0] as int * 0x100_0000 + b[1] as int * 0x1_0000 + b[2] as int * 256 + b[3] as int
  }

  lemma Be32RoundTrip(x: u32)
    ensures FromBe32(Be32(x)) == x
  {
    assert x / 0x1_0000 == (x / 256) / 256;
    assert x / 0x100_0000 == (x / 0x1_0000) / 256;
  }
}

/** CTAPHID reports (section 11.2.4 of CTAP 2.3): splitting a message into
    64-byte frames and putting it together again. */
module Framing {
  import opened Bytes

  const INIT_DATA := 57
  const CONT_DATA := 59
  const MAX_MESSAGE_SIZE := 7609
  const BROADCAST: u32 := 0xffff_ffff

  type Frame = f: seq<byte> | |f| == 64 witness Zeros(64)

  /** A frame as a receiver reads it: byte 4 has its top bit set on an
      initialization packet. */
  datatype Packet =
    | Init(channel: u32, command: byte, length: nat, data: seq<byte>)
    | Cont(channel: u32, sequence: byte, data: seq<byte>)

  function Parse(f: Frame): (p: Packet)
    ensures p.Init? ==> p.command < 128 && p.length < 0x1_0000 && |p.data| == INIT_DATA
    ensures p.Cont? ==> p.sequence < 128 && |p.data| == CONT_DATA
  {
    var channel := FromBe32(f[..4]);
    if f[4] < 128 then Cont(channel, f[4], f[5..])
    else Init(channel, f[4] - 128, f[5] as int * 256 + f[6] as int, f[7..])
  }

  function Chunk(payload: seq<byte>, size: nat): (c: seq<byte>)
    ensures |c| == Min(|payload|, size) && c <= payload
  {
    payload[..Min(|payload|, size)]
  }

  function InitFrame(channel: u32, command: byte, length: nat, head: seq<byte>): Frame
    requires command < 128 && length < 0x1_0000 && |head| <= INIT_DATA
  {
    Be32(channel) + [command + 128, length / 256, length % 256] + head + Zeros(INIT_DATA - |head|)
  }

  function ContFrame(channel: u32, sequence: nat, chunk: seq<byte>): Frame
    requires |chunk| <= CONT_DATA
  {
    Be32(channel) + [sequence % 256] + chunk + Zeros(CONT_DATA - |chunk|)
  }

  /** The continuation frames of `rest`, numbered from `sequence`; the number
      is truncated to one byte, as the cast in the source does. */
  function ContFrames(channel: u32, sequence: nat, rest: seq<byte>): (fs: seq<Frame>)
    decreases |rest|
  {
    if rest == [] then []
    else
      var c := Chunk(rest, CONT_DATA);
      [ContFrame(channel, sequence, c)] + ContFrames(channel, sequence + 1, rest[|c|..])
  }

  /** The frames of a whole message that announces `length` bytes. */
  function Frames(channel: u32, command: byte, payload: seq<byte>, length: nat): (fs: seq<Frame>)
    requires command < 128 && length < 0x1_0000
    ensures |fs| > 0
  {
    var head := Chunk(payload, INIT_DATA);
    [InitFrame(channel, command, length, head)] + ContFrames(channel, 0, payload[|head|..])
  }

  /** How many of `total` payload bytes the first `k` frames carry. */
  function Carried(total: nat, k: nat): (n: nat)
  {
    if k == 0 then 0 else Min(total, INIT_DATA + CONT_DATA * (k - 1))
  }

  lemma ParseInit(channel: u32, command: byte, length: nat, head: seq<byte>)
    requires command < 128 && length < 0x1_0000 && |head| <= INIT_DATA
    ensures Parse(InitFrame(channel, command, length, head))
         == Init(channel, command, length, head + Zeros(INIT_DATA - |head|))
  {
    var f := InitFrame(channel, command, length, head);
    Be32RoundTrip(channel);
    assert f[..4] == Be32(channel);
    assert f[7..] == head + Zeros(INIT_DATA - |head|);
  }

  lemma ParseCont(channel: u32, sequence: nat, chunk: seq<byte>)
    requires |chunk| <= CONT_DATA && sequence < 128
    ensures Parse(ContFrame(channel, sequence, chunk))
         == Cont(channel, sequence, chunk + Zeros(CONT_DATA - |chunk|))
  {
    var f := ContFrame(channel, sequence, chunk);
    Be32RoundTrip(channel);
    assert f[..4] == Be32(channel);
    assert f[5..] == chunk + Zeros(CONT_DATA - |chunk|);
  }

  lemma {:induction false} ContFramesAt(channel: u32, sequence: nat, rest: seq<byte>, i: nat)
    requires i < |ContFrames(channel, sequence, rest)|
    ensures CONT_DATA * i < |rest|
    ensures ContFrames(channel, sequence, rest)[i]
         == ContFrame(channel, sequence + i, Chunk(rest[CONT_DATA * i..], CONT_DATA))
    decreases i
  {
    hide ContFrame;
    var c := Chunk(rest, CONT_DATA);
    if i > 0 {
      ContFramesAt(channel, sequence + 1, rest[|c|..], i - 1);
      assert rest[|c|..][CONT_DATA * (i - 1)..] == rest[CONT_DATA * i..];
    }
  }

  lemma {:induction false} ContFramesCount(channel: u32, sequence: nat, rest: seq<byte>)
    ensures CONT_DATA * |ContFrames(channel, sequence, rest)| >= |rest|
    ensures rest != [] ==> CONT_DATA * (|ContFrames(channel, sequence, rest)| - 1) < |rest|
    decreases |rest|
  {
    if rest != [] {
      ContFramesCount(channel, sequence + 1, rest[|Chunk(rest, CONT_DATA)|..]);
    }
  }

  /** Frame 0 of a message begins it; frame `k > 0` continues it exactly where the first `k`
      frames stop, and frames stop when the payload does. */
  lemma FrameAt(channel: u32, command: byte, payload: seq<byte>, k: nat)
    requires command < 128 && |payload| <= MAX_MESSAGE_SIZE
    requires k <= |Frames(channel, command, payload, |payload|)|
    ensures k == |Frames(channel, command, payload, |payload|)| ==> Carried(|payload|, k) == |payload|
    ensures k == 0 ==>
              && k < |Frames(channel, command, payload, |payload|)|
              && Frames(channel, command, payload, |payload|)[k]
                 == InitFrame(channel, command, |payload|, Chunk(payload, INIT_DATA))
    ensures 0 < k < |Frames(channel, command, payload, |payload|)| ==>
              && Carried(|payload|, k) == INIT_DATA + CONT_DATA * (k - 1) < |payload|
              && k - 1 < 128
              && Frames(channel, command, payload, |payload|)[k]
                 == ContFrame(channel, k - 1, Chunk(payload[Carried(|payload|, k)..], CONT_DATA))
  {
    var head := Chunk(payload, INIT_DATA);
    var rest := payload[|head|..];
    ContFramesCount(channel, 0, rest);
    if 0 < k < |Frames(channel, command, payload, |payload|)| {
      ContFramesAt(channel, 0, rest, k - 1);
      assert rest[CONT_DATA * (k - 1)..] == payload[INIT_DATA + CONT_DATA * (k - 1)..];
    }
  }

  /** A message being read back: what `write_selected` and the CTAPHID
      receiver both keep. */
  datatype Assembly = Assembly(channel: u32, command: byte, length: nat, payload: seq<byte>, sequence: nat)

  /** One frame of an uninterleaved stream; None where the source asserts. */
  function Assemble(a: Option<Assembly>, f: Frame): (r: Option<Assembly>)
  {
    match Parse(f)
    case Init(channel, command, length, data) =>
      var head := Min(length, INIT_DATA);
      if a.None? && length <= MAX_MESSAGE_SIZE && data[head..] == Zeros(INIT_DATA - head)
      then Some(Assembly(channel, command, length, data[..head], 0))
      else None
    case Cont(channel, sequence, data) =>
      if a.Some? && a.value.channel == channel && a.value.sequence == sequence
         && |a.value.payload| <= a.value.length then
        var count := Min(a.value.length - |a.value.payload|, CONT_DATA);
        if data[count..] == Zeros(CONT_DATA - count)
        then Some(a.value.(payload := a.value.payload + data[..count], sequence := sequence + 1))
        else None
      else None
  }

  function AssembleAll(a: Option<Assembly>, fs: seq<Frame>): Option<Assembly>
    decreases |fs|
  {
    if fs == [] then a
    else
      var next := Assemble(a, fs[0]);
      if next.None? then None else AssembleAll(next, fs[1..])
  }

  /** What has been assembled from the first `k > 0` frames of a message. */
  function PartOf(channel: u32, command: byte, payload: seq<byte>, k: nat): (a: Assembly)
    requires k > 0
  {
    Assembly(channel, command, |payload|, payload[..Carried(|payload|, k)], k - 1)
  }

  /** Reading frame `k` of a message after the first `k` frames never fails
      and yields the next prefix of the same payload. */
  lemma AssembleStep(channel: u32, command: byte, payload: seq<byte>, k: nat)
    requires command < 128 && |payload| <= MAX_MESSAGE_SIZE
    requires k < |Frames(channel, command, payload, |payload|)|
    ensures Assemble(if k == 0 then None else Some(PartOf(channel, command, payload, k)),
                     Frames(channel, command, payload, |payload|)[k])
         == Some(PartOf(channel, command, payload, k + 1))
  {
    if k == 0 {
      var head := Chunk(payload, INIT_DATA);
      ParseInit(channel, command, |payload|, head);
      assert (head + Zeros(INIT_DATA - |head|))[|head|..] == Zeros(INIT_DATA - |head|);
      assert (head + Zeros(INIT_DATA - |head|))[..|head|] == payload[..Carried(|payload|, 1)];
    } else {
      FrameAt(channel, command, payload, k);
      var done := Carried(|payload|, k);
      var c := Chunk(payload[done..], CONT_DATA);
      ParseCont(channel, k - 1, c);
      assert (c + Zeros(CONT_DATA - |c|))[|c|..] == Zeros(CONT_DATA - |c|);
      assert (c + Zeros(CONT_DATA - |c|))[..|c|] == c;
      assert payload[..done] + c == payload[..Carried(|payload|, k + 1)];
    }
  }

  lemma {:induction false} AssembleFrom(channel: u32, command: byte, payload: seq<byte>, k: nat)
    requires command < 128 && |payload| <= MAX_MESSAGE_SIZE
    requires k <= |Frames(channel, command, payload, |payload|)|
    ensures AssembleAll(if k == 0 then None else Some(PartOf(channel, command, payload, k)),
                        Frames(channel, command, payload, |payload|)[k..])
         == Some(PartOf(channel, command, payload, |Frames(channel, command, payload, |payload|)|))
    decreases |Frames(channel, command, payload, |payload|)| - k
  {
    var fs := Frames(channel, command, payload, |payload|);
    if k < |fs| {
      AssembleStep(channel, command, payload, k);
      AssembleFrom(channel, command, payload, k + 1);
      assert fs[k..][1..] == fs[k + 1..];
    }
  }

  /** Splitting any message that fits and reading the frames back returns
      exactly that message, and its continuation numbers stay below 128. */
  lemma RoundTrip(channel: u32, command: byte, payload: seq<byte>)
    requires command < 128 && |payload| <= MAX_MESSAGE_SIZE
    ensures var fs := Frames(channel, command, payload, |payload|);
            && |fs| <= 129
            && AssembleAll(None, fs) == Some(Assembly(channel, command, |payload|, payload, |fs| - 1))
  {
    var fs := Frames(channel, command, payload, |payload|);
    AssembleFrom(channel, command, payload, 0);
    FrameAt(channel, command, payload, |fs|);
    FrameAt(channel, command, payload, |fs| - 1);
    assert fs[0..] == fs;
    assert payload[..|payload|] == payload;
  }

  /** `Harness::message_packets`: one frame for the head, then one per chunk. */
  method MessagePackets(channel: u32, command: byte, payload: seq<byte>, length: nat)
    returns (packets: seq<Frame>)
    requires command < 128 && length < 0x1_0000
    ensures packets == Frames(channel, command, payload, length)
  {
    var head := Chunk(payload, INIT_DATA);
    packets := [InitFrame(channel, command, length, head)];
    var rest := payload[|head|..];
    var sequence := 0;
    while rest != []
      invariant packets + ContFrames(channel, sequence, rest) == Frames(channel, command, payload, length)
      decreases |rest|
    {
      var chunk := Chunk(rest, CONT_DATA);
      packets := packets + [ContFrame(channel, sequence, chunk)];
      rest := rest[|chunk|..];
      sequence := sequence + 1;
    }
  }
}
