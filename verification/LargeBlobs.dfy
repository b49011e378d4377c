/** The serialized large-blob array (section 6.10 of CTAP 2.3): fragments are
    staged in memory and the array is replaced once all of them have arrived. */
module LargeBlobs {
  import opened Bytes

  const MAX_FRAGMENT := 57 + 29 * 59 - 64
  const MAX_ARRAY := 16384
  const MIN_ARRAY := 17
  const WRITE_TIMEOUT := 30_000
  const INITIAL: seq<byte> :=
    [0x80, 0x76, 0xbe, 0x8b, 0x52, 0x8d, 0x00, 0x75, 0xf7, 0xaa, 0xe9, 0x8d, 0x6f, 0xa5, 0x7a, 0x6d, 0x3c]

  datatype Status =
    | Success | InvalidParameter | InvalidLength | InvalidSeq | StorageFull | UnexpectedType | PuatRequired
    | MissingParameter | AuthInvalid | IntegrityFailure | Processing | InvalidCbor

  datatype Request =
    | Malformed
    | Request(get: Param<int>, set_: Param<seq<byte>>, offset: Param<int>, length: Param<int>,
              auth: Param<seq<byte>>, protocol: Param<int>)

  /** The token in use: which issuance, over which protocol, and whether it
      carries the large-blob write permission. */
  datatype Token = Token(id: nat, protocol: int, lbw: bool)

  /** An accepted fragment, and the token that authenticated it. */
  datatype Piece = Piece(offset: nat, fragment: seq<byte>, at: nat, token: Option<nat>)

  function Content(run: seq<Piece>): seq<byte> {
    if run == [] then [] else Content(run[..|run| - 1]) + run[|run| - 1].fragment
  }

  /** One uninterrupted write: from offset 0, each fragment where the last one
      ended and less than 30 seconds after it, all under one token. */
  predicate IsRun(run: seq<Piece>, token: Option<nat>) {
    && run != []
    && var last := run[|run| - 1];
    && last.token == token
    && if |run| == 1 then last.offset == 0
       else && var before := run[..|run| - 1];
            && IsRun(before, token) && last.offset == |Content(before)|
            && Since(last.at, before[|before| - 1].at) < WRITE_TIMEOUT
  }

  lemma ContentExtends(run: seq<Piece>, p: Piece)
    ensures Content(run + [p]) == Content(run) + p.fragment
    ensures (&& run != [] && IsRun(run, p.token) && p.offset == |Content(run)|
             && Since(p.at, run[|run| - 1].at) < WRITE_TIMEOUT) ==> IsRun(run + [p], p.token)
    ensures p.offset == 0 ==> IsRun([p], p.token) && Content([p]) == p.fragment
  {
    assert (run + [p])[..|run|] == run;
    assert [p][..0] == [];
  }

  /** `unsigned`. */
  function Unsigned(p: Param<int>): Status {
    match p
    case Absent => InvalidParameter
    case WrongType => UnexpectedType
    case Given(v) => if v < 0 then InvalidParameter else Success
  }

  function Protocol(p: Param<int>): Status {
    match p
    case Absent => MissingParameter
    case WrongType => UnexpectedType
    case Given(v) => if v == 1 || v == 2 then Success else InvalidParameter
  }

  function Le32(n: nat): seq<byte>
    requires n < 0x1_0000_0000
  {
    [n % 256, n / 0x100 % 256, n / 0x1_0000 % 256, n / 0x100_0000]
  }

  type Digest = d: seq<byte> | |d| == 32 witness Zeros(32)
  type Hash = seq<byte> -> Digest

  predicate DigestOk(sha256: Hash) {
    sha256([0x80])[..16] == INITIAL[1..]
  }

  /** `validate_large_blob_array`: the length and the trailing hash only. */
  predicate ValidArray(sha256: Hash, bytes: seq<byte>) {
    MIN_ARRAY <= |bytes| <= MAX_ARRAY && sha256(bytes[..|bytes| - 16])[..16] == bytes[|bytes| - 16..]
  }

  lemma Le32Injective(m: nat, n: nat)
    requires m < 0x1_0000_0000 && n < 0x1_0000_0000 && Le32(m) == Le32(n)
    ensures m == n
  {
    var a, b := Le32(m), Le32(n);
    assert a[0] == b[0] && a[1] == b[1] && a[2] == b[2] && a[3] == b[3];
    assert m / 0x1_0000 == (m / 0x100) / 256 && m / 0x100_0000 == (m / 0x1_0000) / 256;
    assert n / 0x1_0000 == (n / 0x100) / 256 && n / 0x100_0000 == (n / 0x1_0000) / 256;
  }

  lemma ArraySize(sha256: Hash, bytes: seq<byte>)
    requires ValidArray(sha256, bytes)
    ensures MIN_ARRAY <= |bytes| <= MAX_ARRAY
  {
  }

  /** What a fragment's pinUvAuthParam authenticates. */
  function Message(sha256: Hash, offset: nat, fragment: seq<byte>): seq<byte>
    requires offset < 0x1_0000_0000
  {
    seq(32, _ => 0xff as byte) + [0x0c, 0x00] + Le32(offset) + sha256(fragment)
  }

  type Mac = (nat, int, seq<byte>) -> seq<byte>

  /** The fragment is authenticated under the token in use. */
  predicate Authentic(sha256: Hash, mac: Mac, inUse: Option<Token>, offset: nat, fragment: seq<byte>,
                      auth: Param<seq<byte>>, protocol: Param<int>)
  {
    && inUse.Some? && inUse.value.lbw && protocol == Given(inUse.value.protocol) && protocol.value in {1, 2}
    && offset < 0x1_0000_0000
    && auth == Given(mac(inUse.value.id, inUse.value.protocol, Message(sha256, offset, fragment)))
  }

  /** It binds the fragment's place and its digest. */
  lemma MessageBinds(sha256: Hash, o1: nat, f1: seq<byte>, o2: nat, f2: seq<byte>)
    requires o1 < 0x1_0000_0000 && o2 < 0x1_0000_0000
    requires Message(sha256, o1, f1) == Message(sha256, o2, f2)
    ensures o1 == o2 && sha256(f1) == sha256(f2)
  {
    var m1, m2 := Message(sha256, o1, f1), Message(sha256, o2, f2);
    assert m1[34..38] == Le32(o1) && m2[34..38] == Le32(o2);
    assert m1[38..] == sha256(f1) && m2[38..] == sha256(f2);
    Le32Injective(o1, o2);
  }

  class Engine {
    const sha256: Hash
    /** The pinUvAuthParam of a message under a token and a protocol. */
    const mac: Mac

    // What the rest of the engine decides.
    var now: nat
    var protected: bool
    var inUse: Option<Token>

    // The staged write.
    var next: nat
    var length: nat
    var buffer: seq<byte>
    var last: Option<nat>
    var token: Option<nat>
    /** The accepted fragments of the write that may still be continued. */
    ghost var run: seq<Piece>

    // The store.
    var committed: seq<byte>
    /** The write that put the array there, and its token. */
    ghost var origin: seq<Piece>
    ghost var originToken: Option<nat>

    ghost predicate CommittedOk()
      reads this
    {
      && ValidArray(sha256, committed)
      && (committed == INITIAL || (IsRun(origin, originToken) && Content(origin) == committed))
    }

    ghost predicate Valid()
      reads this
    {
      && DigestOk(sha256) && CommittedOk()
      && (next == 0 || next == |buffer|) && |buffer| <= MAX_ARRAY
      && (next == 0 || MIN_ARRAY <= length <= MAX_ARRAY) && next <= length
      && (next != 0 ==>
            && run != [] && IsRun(run, token) && Content(run) == buffer && token.Some? == protected
            && last == Some(run[|run| - 1].at))
    }

    /** The staged write may still be continued. */
    predicate Fresh()
      reads this
    {
      && (last.Some? ==> Since(now, last.value) < WRITE_TIMEOUT)
      && (token.Some? ==> inUse.Some? && inUse.value.id == token.value)
    }

    constructor (sha256: Hash, mac: Mac)
      requires DigestOk(sha256)
      ensures Valid() && committed == INITIAL && this.sha256 == sha256 && this.mac == mac
    {
      this.sha256, this.mac := sha256, mac;
      now, protected, inUse := 0, false, None;
      next, length, buffer, last, token, run := 0, 0, [], None, None, [];
      committed, origin, originToken := INITIAL, [], None;
      new;
      assert INITIAL[..1] == [0x80];
    }

    method Discard()
      modifies this`next, this`length, this`buffer, this`last, this`token, this`run
      ensures next == 0 && length == 0 && buffer == [] && last == None && token == None && run == []
    {
      next, length, buffer, last, token, run := 0, 0, [], None, None, [];
    }

    /** `observe_large_blob_state`, at the start of every command. */
    method Observe(largeBlobs: bool)
      requires Valid()
      modifies this`next, this`length, this`buffer, this`last, this`token, this`run
      ensures Valid() && Fresh()
      ensures if largeBlobs && old(Fresh())
              then && next == old(next) && length == old(length) && buffer == old(buffer) && run == old(run)
                   && last == old(last) && token == old(token)
              else next == 0 && length == 0 && buffer == [] && run == []
    {
      var expired := last.Some? && Since(now, last.value) >= WRITE_TIMEOUT;
      var changed := token.Some? && (inUse.None? || inUse.value.id != token.value);
      if !largeBlobs || expired || changed {
        Discard();
      }
    }

    /** Time passes, and the token in use may expire. */
    method Tick(time: nat, expires: bool)
      requires Valid()
      modifies this`now, this`inUse
      ensures Valid() && now == old(now) + time && inUse == if expires then None else old(inUse)
    {
      now := now + time;
      if expires {
        inUse := None;
      }
    }

    /** Any other command; it may set a PIN, issue a token or reset. */
    method Other(protected: bool, inUse: Option<Token>, reset: bool)
      requires Valid()
      modifies this
      ensures Valid() && next == 0 && run == [] && this.protected == protected && this.inUse == inUse
      ensures committed == if reset then INITIAL else old(committed)
    {
      Observe(false);
      this.protected, this.inUse := protected, inUse;
      if reset {
        committed, origin, originToken := INITIAL, [], None;
        assert INITIAL[..1] == [0x80];
      }
    }

    /** The part of the array a get returns; an array that cannot be read is
        served as the initial one. */
    method Get(offset: nat, count: nat, readable: bool) returns (status: Status, bytes: seq<byte>)
      ensures var served := if readable then committed else INITIAL;
              && (status == Success <==> count <= MAX_FRAGMENT && offset <= |served|)
              && (status == Success ==> bytes == served[offset..Min(offset + count, |served|)])
      ensures status in {Success, InvalidLength, InvalidParameter}
    {
      bytes := [];
      if count > MAX_FRAGMENT {
        return InvalidLength, bytes;
      }
      var served := if readable then committed else INITIAL;
      if offset > |served| {
        return InvalidParameter, bytes;
      }
      return Success, served[offset..Min(offset + count, |served|)];
    }

    method Authorize(offset: nat, fragment: seq<byte>, auth: Param<seq<byte>>, protocol: Param<int>)
      returns (status: Status)
      requires offset < 0x1_0000_0000
      ensures status == Success <==> Authentic(sha256, mac, inUse, offset, fragment, auth, protocol)
      ensures status in {Success, PuatRequired, MissingParameter, UnexpectedType, InvalidParameter, AuthInvalid}
    {
      if auth.Absent? {
        return PuatRequired;
      }
      var parsed := Protocol(protocol);
      if parsed != Success {
        return parsed;
      }
      if auth.WrongType? {
        return UnexpectedType;
      }
      if inUse.None? || inUse.value.protocol != protocol.value {
        return AuthInvalid;
      }
      if auth.value != mac(inUse.value.id, protocol.value, Message(sha256, offset, fragment)) {
        return AuthInvalid;
      }
      status := if inUse.value.lbw then Success else AuthInvalid;
    }

    /** Exactly the fragments that are staged. */
    ghost predicate Accepted(r: Request)
      reads this
    {
      && r.Request? && r.get.Absent? && r.set_.Given? && r.offset.Given? && r.offset.value >= 0
      && var offset, size := r.offset.value, |r.set_.value|;
      && size <= MAX_FRAGMENT && offset + size <= Total(r) <= MAX_ARRAY
      && (if offset == 0 then r.length.Given? && MIN_ARRAY <= r.length.value
          else r.length.Absent? && Fresh() && offset == next)
      && (protected ==> Authentic(sha256, mac, inUse, offset, r.set_.value, r.auth, r.protocol))
    }

    /** The length of the array that is being written. */
    ghost function Total(r: Request): int
      requires r.Request? && r.offset.Given?
      reads this
    {
      if r.offset.value == 0 then (if r.length.Given? then r.length.value else -1) else length
    }

    ghost function Staged(r: Request): seq<byte>
      requires r.Request? && r.offset.Given? && r.set_.Given?
      reads this
    {
      (if r.offset.value == 0 then [] else buffer) + r.set_.value
    }

    ghost function PieceOf(r: Request): Piece
      requires Accepted(r)
      reads this
    {
      Piece(r.offset.value, r.set_.value, now, if protected then Some(inUse.value.id) else None)
    }

    ghost function RunWith(r: Request): seq<Piece>
      requires Accepted(r)
      reads this
    {
      (if r.offset.value == 0 then [] else run) + [PieceOf(r)]
    }

    /** Add an accepted fragment to the staged write. */
    method Append(r: Request)
      requires Valid() && Fresh() && Accepted(r) && length == Total(r) && next == r.offset.value
      modifies this`next, this`buffer, this`last, this`token, this`run
      ensures Valid()
      ensures buffer == old(Staged(r)) && next == |buffer| && run == old(RunWith(r))
      ensures IsRun(run, token) && Content(run) == buffer && last == Some(now) && Fresh()
    {
      hide Message, ValidArray, IsRun, Content;
      var offset := r.offset.value;
      ghost var p := PieceOf(r);
      ContentExtends(if offset == 0 then [] else run, p);
      assert offset == 0 ==> [] + [p] == [p];
      run := (if offset == 0 then [] else run) + [p];
      if offset == 0 {
        buffer := [];
        token := if protected then Some(inUse.value.id) else None;
      }
      assert token == p.token;
      buffer := buffer + r.set_.value;
      next := |buffer|;
      last := Some(now);
    }

    /** Add an accepted fragment, and replace the array once it is complete. */
    method Stage(r: Request, writable: bool) returns (status: Status)
      requires Valid() && Fresh() && Accepted(r) && length == Total(r) && next == r.offset.value
      modifies this`next, this`length, this`buffer, this`last, this`token, this`run,
               this`committed, this`origin, this`originToken
      ensures Valid() && Outcome(r, writable, status)
    {
      hide Message, Authentic, IsRun, Content;
      Append(r);
      status := Success;
      if next == length {
        if !ValidArray(sha256, buffer) {
          Discard();
          return IntegrityFailure;
        }
        if !writable {
          return Processing;
        }
        committed, origin, originToken := buffer, run, token;
      }
    }

    /** A set request that got past the parsing of its parameters. */
    method Set(r: Request, writable: bool) returns (status: Status)
      requires Valid() && Fresh()
      requires r.Request? && r.get.Absent? && !r.set_.Absent? && r.offset.Given? && r.offset.value >= 0
      modifies this`next, this`length, this`buffer, this`last, this`token, this`run,
               this`committed, this`origin, this`originToken
      ensures Valid()
      ensures !old(Accepted(r)) ==>
                && status !in {Success, IntegrityFailure, Processing} && committed == old(committed)
                && origin == old(origin) && originToken == old(originToken)
                && (next != 0 ==> Kept(old(next), old(length), old(buffer), old(run)))
      ensures old(Accepted(r)) ==> Outcome(r, writable, status)
    {
      hide Message, Authentic, ValidArray, IsRun, Content;
      if r.set_.WrongType? {
        Discard();
        return UnexpectedType;
      }
      var offset, fragment := r.offset.value, r.set_.value;
      if |fragment| > MAX_FRAGMENT {
        return InvalidLength;
      }
      if offset == 0 {
        var given := Unsigned(r.length);
        if given != Success {
          return given;
        }
        if r.length.value > MAX_ARRAY {
          return StorageFull;
        }
        if r.length.value < MIN_ARRAY {
          return InvalidParameter;
        }
        length, next := r.length.value, 0;
      } else if !r.length.Absent? {
        return InvalidParameter;
      }
      if offset != next {
        Discard();
        return InvalidSeq;
      }
      if protected {
        status := Authorize(offset, fragment, r.auth, r.protocol);
        if status != Success {
          return;
        }
      }
      if offset + |fragment| > length {
        return InvalidParameter;
      }
      status := Stage(r, writable);
    }

    twostate predicate Kept(next: nat, length: nat, buffer: seq<byte>, run: seq<Piece>)
      reads this
    {
      this.next == next && this.length == length && this.buffer == buffer && this.run == run
    }

    /** What comes of an accepted fragment. */
    twostate predicate Outcome(r: Request, writable: bool, status: Status)
      requires old(Accepted(r))
      reads this
    {
      var whole, total := old(Staged(r)), old(Total(r));
      && (|whole| < total ==>
            status == Success && committed == old(committed) && buffer == whole && next == |whole|)
      && (|whole| == total ==>
            if !ValidArray(sha256, whole) then status == IntegrityFailure && committed == old(committed) && next == 0
            else if !writable then status == Processing && committed == old(committed) && buffer == whole
            else && status == Success && committed == whole && origin == old(RunWith(r))
                 && buffer == whole && next == |whole|)
      && (status != IntegrityFailure ==>
            run == old(RunWith(r)) && length == total && last == Some(now) && Fresh())
      && |whole| <= total
    }

    /** What a get that succeeds asks for. */
    ghost predicate Readable(r: Request, served: seq<byte>)
      reads this
    {
      && r.Request? && r.get.Given? && 0 <= r.get.value <= MAX_FRAGMENT && r.set_.Absent?
      && r.offset.Given? && 0 <= r.offset.value <= |served|
      && r.length.Absent? && r.auth.Absent? && r.protocol.Absent?
    }

    /** `handle_large_blobs`. */
    method Handle(r: Request, readable: bool, writable: bool) returns (status: Status, bytes: seq<byte>)
      requires Valid()
      modifies this`next, this`length, this`buffer, this`last, this`token, this`run,
               this`committed, this`origin, this`originToken
      ensures Valid()
      ensures old(Accepted(r)) ==> Outcome(r, writable, status)
      ensures !old(Accepted(r)) ==>
                committed == old(committed) && origin == old(origin) && originToken == old(originToken)
      ensures !old(Accepted(r)) && !old(Fresh()) ==> next == 0
      ensures var served := if readable then committed else INITIAL;
              && (status == Success ==> old(Accepted(r)) || Readable(r, served))
              && (Readable(r, served) ==>
                    && status == Success && next == 0
                    && bytes == served[r.offset.value..Min(r.offset.value + r.get.value, |served|)])
    {
      hide Message, Authentic, ValidArray, IsRun, Content;
      bytes := [];
      Observe(true);
      if r.Malformed? {
        Discard();
        return InvalidCbor, bytes;
      }
      if !r.get.Absent? || r.set_.Absent? || r.offset.Absent? {
        Discard();
      }
      status := Unsigned(r.offset);
      if status != Success {
        Discard();
        return;
      }
      if r.get.Absent? == r.set_.Absent? {
        return InvalidParameter, bytes;
      }
      if !r.get.Absent? {
        status, bytes := Read(r, readable);
        return;
      }
      status := Set(r, writable);
    }

    /** A request with a get parameter and no set parameter. */
    method Read(r: Request, readable: bool) returns (status: Status, bytes: seq<byte>)
      requires r.Request? && !r.get.Absent? && r.set_.Absent? && r.offset.Given? && r.offset.value >= 0
      ensures var served := if readable then committed else INITIAL;
              && (status == Success <==> Readable(r, served))
              && (status == Success ==>
                    bytes == served[r.offset.value..Min(r.offset.value + r.get.value, |served|)])
    {
      bytes := [];
      if !r.length.Absent? || !r.auth.Absent? || !r.protocol.Absent? {
        return InvalidParameter, bytes;
      }
      status := Unsigned(r.get);
      if status != Success {
        return;
      }
      status, bytes := Get(r.offset.value, r.get.value, readable);
    }

    // -------------------------------------------------------------- a platform

    /** The platform's request for one fragment of `bytes`. */
    function Fragment(bytes: seq<byte>, start: nat, size: nat): (r: Request)
      requires start + size <= |bytes| <= MAX_ARRAY
      requires protected ==> inUse.Some?
      reads this
    {
      var fragment := bytes[start..start + size];
      Request(Absent, Given(fragment), Given(start), if start == 0 then Given(|bytes|) else Absent,
              if protected then Given(mac(inUse.value.id, inUse.value.protocol, Message(sha256, start, fragment)))
              else Absent,
              if protected then Given(inUse.value.protocol) else Absent)
    }

    ghost predicate MayWrite()
      reads this
    {
      protected ==> inUse.Some? && inUse.value.lbw && inUse.value.protocol in {1, 2}
    }

    /** Write an array in fragments of any sizes up to the limit, with any
        pauses under 30 seconds: it replaces the committed array. */
    method WriteArray(bytes: seq<byte>, sizes: seq<nat>, pauses: seq<nat>)
      requires Valid() && ValidArray(sha256, bytes) && MayWrite()
      requires |pauses| == |sizes|
               && forall i :: 0 <= i < |sizes| ==> sizes[i] <= MAX_FRAGMENT && pauses[i] < WRITE_TIMEOUT
      requires Sum(sizes) == |bytes|
      modifies this
      ensures Valid() && committed == bytes
    {
      hide Message, IsRun, Content, ValidArray;
      ArraySize(sha256, bytes);
      var start := 0;
      for i := 0 to |sizes|
        invariant Valid() && MayWrite() && start == Sum(sizes[..i]) && start <= |bytes|
        invariant start > 0 ==>
                    && next == start && buffer == bytes[..start] && length == |bytes| && last == Some(now)
                    && Fresh()
        invariant start == |bytes| ==> committed == bytes
      {
        SumSplits(sizes, i);
        assert sizes[..i + 1][..i] == sizes[..i];
        Tick(pauses[i], false);
        WriteFragment(bytes, start, sizes[i]);
        start := start + sizes[i];
      }
      assert sizes[..|sizes|] == sizes;
    }

    lemma FragmentAccepted(bytes: seq<byte>, start: nat, size: nat)
      requires MIN_ARRAY <= |bytes| <= MAX_ARRAY && MayWrite() && start + size <= |bytes| && size <= MAX_FRAGMENT
      requires start > 0 ==> next == start && buffer == bytes[..start] && length == |bytes| && Fresh()
      ensures var r := Fragment(bytes, start, size);
              Accepted(r) && Staged(r) == bytes[..start + size] && Total(r) == |bytes|
      ensures bytes[..|bytes|] == bytes
    {
      hide Message;
      if start > 0 {
        assert bytes[..start] + bytes[start..start + size] == bytes[..start + size];
      }
    }

    /** One step of it. */
    method WriteFragment(bytes: seq<byte>, start: nat, size: nat)
      requires Valid() && ValidArray(sha256, bytes) && MayWrite() && start + size <= |bytes| && size <= MAX_FRAGMENT
      requires start > 0 ==> next == start && buffer == bytes[..start] && length == |bytes| && Fresh()
      modifies this`next, this`length, this`buffer, this`last, this`token, this`run,
               this`committed, this`origin, this`originToken
      ensures Valid() && next == start + size && buffer == bytes[..start + size] && length == |bytes|
      ensures last == Some(now) && Fresh()
      ensures start + size == |bytes| ==> committed == bytes
    {
      hide Message, Authentic, IsRun, Content, Accepted, RunWith;
      var r := Fragment(bytes, start, size);
      FragmentAccepted(bytes, start, size);
      var status, read := Handle(r, true, true);
    }

    /** Read the array back in chunks: it is the committed one. */
    method ReadArray(count: nat) returns (bytes: seq<byte>)
      requires Valid() && 0 < count <= MAX_FRAGMENT
      modifies this`next, this`length, this`buffer, this`last, this`token, this`run,
               this`committed, this`origin, this`originToken
      ensures Valid() && committed == old(committed) && bytes == committed
    {
      hide Message, IsRun, Content, ValidArray;
      bytes := [];
      while |bytes| < |committed|
        invariant Valid() && committed == old(committed)
        invariant |bytes| <= |committed| && bytes == committed[..|bytes|]
      {
        var r := Request(Given(count), Absent, Given(|bytes|), Absent, Absent, Absent);
        assert Readable(r, committed);
        var status, chunk := Handle(r, true, true);
        bytes := bytes + chunk;
      }
    }

    /** Whatever the fragments and the chunks, what was written is read. */
    method RoundTrip(bytes: seq<byte>, sizes: seq<nat>, pauses: seq<nat>, count: nat) returns (read: seq<byte>)
      requires Valid() && ValidArray(sha256, bytes) && MayWrite()
      requires |pauses| == |sizes|
               && forall i :: 0 <= i < |sizes| ==> sizes[i] <= MAX_FRAGMENT && pauses[i] < WRITE_TIMEOUT
      requires Sum(sizes) == |bytes| && 0 < count <= MAX_FRAGMENT
      modifies this
      ensures Valid() && read == bytes
    {
      WriteArray(bytes, sizes, pauses);
      read := ReadArray(count);
    }

    // -------------------------------------------------------------- runs

    /** Whatever the platform and the store do, the committed array keeps its
        hash, and is the initial one or what one uninterrupted write sent. */
    method Run(actions: seq<Action>)
      requires Valid()
      modifies this
      ensures Valid()
      ensures ValidArray(sha256, committed)
      ensures committed == INITIAL || (IsRun(origin, originToken) && Content(origin) == committed)
    {
      for i := 0 to |actions|
        invariant Valid()
      {
        match actions[i] {
          case Ticks(time, expires) => Tick(time, expires);
          case Others(protected, inUse, reset) => Other(protected, inUse, reset);
          case Sends(r, readable, writable) =>
            var status, bytes := Handle(r, readable, writable);
        }
      }
    }
  }

  datatype Action =
    | Ticks(time: nat, expires: bool)
    | Others(protected: bool, inUse: Option<Token>, reset: bool)
    | Sends(r: Request, readable: bool, writable: bool)

  function Sum(sizes: seq<nat>): nat {
    if sizes == [] then 0 else Sum(sizes[..|sizes| - 1]) + sizes[|sizes| - 1]
  }

  lemma {:induction false} SumSplits(sizes: seq<nat>, i: nat)
    requires i < |sizes|
    ensures Sum(sizes[..i + 1]) == Sum(sizes[..i]) + sizes[i] <= Sum(sizes)
    decreases |sizes|
  {
    assert sizes[..i + 1][..i] == sizes[..i];
    if i + 1 == |sizes| {
      assert sizes[..i + 1] == sizes;
    } else {
      var before := sizes[..|sizes| - 1];
      SumSplits(before, i);
      assert before[..i + 1] == sizes[..i + 1] && before[..i] == sizes[..i];
    }
  }
}
