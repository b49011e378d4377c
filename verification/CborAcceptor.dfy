/** The engine's check that a request is in the canonical CBOR encoding form of
    CTAP 2.3, section 8: what it accepts are exactly the encodings of values
    without tags, without duplicate keys and with every map in order. */
module CborAcceptor {
  import opened Bytes
  import opened Numbers
  import opened Cbor

  const MAX_NESTING := 16

  datatype Header = Header(major: nat, info: nat, argument: nat, size: nat)

  function ArgumentSize(info: nat): nat {
    if info == 24 then 1 else if info == 25 then 2 else if info == 26 then 4 else 8
  }

  /** `header`: no indefinite lengths and no reserved information. */
  function HeaderOf(b: seq<byte>): (h: Option<Header>)
    ensures h.Some? ==> 1 <= h.value.size <= |b| && h.value.major < 8
  {
    if b == [] then None
    else
      var major, info := b[0] as int / 32, b[0] as int % 32;
      if info < 24 then Some(Header(major, info, info, 1))
      else if info > 27 || |b| < 1 + ArgumentSize(info) then None
      else Some(Header(major, info, FromBe(b[1..1 + ArgumentSize(info)]), 1 + ArgumentSize(info)))
  }

  /** The argument is not written longer than it has to be. */
  predicate Shortest(h: Header) {
    if h.info == 24 then h.argument >= (if h.major == 7 then 32 else 24)
    else if h.info == 25 then h.argument > 0xff
    else if h.info == 26 then h.argument > 0xffff
    else if h.info == 27 then h.argument > 0xffff_ffff
    else true
  }

  predicate IsFloat(b: seq<byte>) {
    b != [] && b[0] as int / 32 == 7 && 25 <= b[0] as int % 32 <= 27
  }

  /** How many bytes the item at the start takes, if it is acceptable. */
  function Accept(b: seq<byte>, depth: nat): (n: Option<nat>)
    ensures n.Some? ==> 1 <= n.value <= |b|
    decreases |b|, 0
  {
    if IsFloat(b) then
      var n := 1 + ArgumentSize(b[0] as int % 32);
      if n <= |b| then Some(n) else None
    else
      var h := HeaderOf(b);
      if h.None? || !Shortest(h.value) then None
      else
        var size, argument := h.value.size, h.value.argument;
        match h.value.major
        case 0 => Some(size)
        case 1 => Some(size)
        case 7 => Some(size)
        case 2 => if size + argument <= |b| then Some(size + argument) else None
        case 3 => if size + argument <= |b| then Some(size + argument) else None
        case 4 => if depth >= MAX_NESTING then None else Plus(size, AcceptItems(b[size..], argument, depth + 1))
        case 5 => if depth >= MAX_NESTING then None else Plus(size, AcceptEntries(b[size..], argument, None, depth + 1))
        case _ => None
  }

  function Plus(size: nat, n: Option<nat>): Option<nat> {
    if n.None? then None else Some(size + n.value)
  }

  function AcceptItems(b: seq<byte>, count: nat, depth: nat): (n: Option<nat>)
    ensures n.Some? ==> n.value <= |b|
    decreases |b|, 1
  {
    if count == 0 then Some(0)
    else
      var n := Accept(b, depth);
      if n.None? then None else Plus(n.value, AcceptItems(b[n.value..], count - 1, depth))
  }

  /** Keys strictly in order, which rules duplicates out. */
  function AcceptEntries(b: seq<byte>, count: nat, previous: Option<seq<byte>>, depth: nat): (n: Option<nat>)
    requires previous.Some? ==> previous.value != []
    ensures n.Some? ==> n.value <= |b|
    decreases |b|, 1
  {
    if count == 0 then Some(0)
    else
      var k := Accept(b, depth);
      if k.None? then None
      else
        var key := b[..k.value];
        if previous.Some? && !KeyLess(previous.value, key) then None
        else
          var v := Accept(b[k.value..], depth);
          if v.None? then None
          else Plus(k.value + v.value, AcceptEntries(b[k.value + v.value..], count - 1, Some(key), depth))
  }

  // ---------------------------------------------------------------- in the source's form

  /** `canonical_item_end`. */
  method CanonicalItemEnd(bytes: seq<byte>, pos: nat, depth: nat) returns (end: Option<nat>)
    requires pos <= |bytes|
    ensures end == Plus(pos, Accept(bytes[pos..], depth))
    decreases |bytes| - pos, 0
  {
    hide AcceptItems, AcceptEntries, FromBe;
    var b := bytes[pos..];
    if b == [] {
      return None;
    }
    var major, info := b[0] as int / 32, b[0] as int % 32;
    if major == 7 && 25 <= info <= 27 {
      var stop := pos + 1 + ArgumentSize(info);
      return if stop <= |bytes| then Some(stop) else None;
    }
    var h := HeaderOf(b);
    if h.None? || !Shortest(h.value) {
      return None;
    }
    var argument, start := h.value.argument, pos + h.value.size;
    assert b[h.value.size..] == bytes[start..];
    if major == 0 || major == 1 || major == 7 {
      return Some(start);
    }
    if major == 2 || major == 3 {
      return if start + argument > |bytes| then None else Some(start + argument);
    }
    if major == 6 || depth >= MAX_NESTING {
      return None;
    }
    if major == 4 {
      end := ItemsEnd(bytes, start, argument, depth + 1);
    } else {
      end := EntriesEnd(bytes, start, argument, depth + 1);
    }
  }

  method ItemsEnd(bytes: seq<byte>, start: nat, count: nat, depth: nat) returns (end: Option<nat>)
    requires start <= |bytes|
    ensures end == Plus(start, AcceptItems(bytes[start..], count, depth))
    decreases |bytes| - start, 1
  {
    hide Accept, AcceptEntries;
    var at := start;
    for i := 0 to count
      invariant start <= at <= |bytes|
      invariant Plus(start, AcceptItems(bytes[start..], count, depth))
             == Plus(at, AcceptItems(bytes[at..], count - i, depth))
    {
      var next := CanonicalItemEnd(bytes, at, depth);
      if next.None? {
        return None;
      }
      assert bytes[at..][next.value - at..] == bytes[next.value..];
      at := next.value;
    }
    end := Some(at);
  }

  /** One entry, by position. */
  lemma EntryStep(bytes: seq<byte>, at: nat, count: nat, previous: Option<seq<byte>>, depth: nat)
    requires count > 0 && at <= |bytes| && (previous.Some? ==> previous.value != [])
    ensures var all := AcceptEntries(bytes[at..], count, previous, depth);
            var k := Accept(bytes[at..], depth);
            if k.None? then all.None?
            else
              var keyEnd := at + k.value;
              var key := bytes[at..keyEnd];
              if previous.Some? && !KeyLess(previous.value, key) then all.None?
              else
                var v := Accept(bytes[keyEnd..], depth);
                if v.None? then all.None?
                else all
                         == Plus(k.value + v.value,
                                 AcceptEntries(bytes[keyEnd + v.value..], count - 1, Some(key), depth))
  {
    hide Accept, AcceptItems, KeyLess;
    var b := bytes[at..];
    var k := Accept(b, depth);
    if k.Some? {
      assert b[..k.value] == bytes[at..at + k.value] && b[k.value..] == bytes[at + k.value..];
      var v := Accept(b[k.value..], depth);
      if v.Some? {
        assert b[k.value + v.value..] == bytes[at + k.value + v.value..];
      }
    }
  }

  method EntriesEnd(bytes: seq<byte>, start: nat, count: nat, depth: nat) returns (end: Option<nat>)
    requires start <= |bytes|
    ensures end == Plus(start, AcceptEntries(bytes[start..], count, None, depth))
    decreases |bytes| - start, 1
  {
    hide Accept, AcceptEntries, AcceptItems, KeyLess;
    var at, previous: Option<seq<byte>> := start, None;
    ghost var all := Plus(start, AcceptEntries(bytes[start..], count, None, depth));
    for i := 0 to count
      invariant start <= at <= |bytes| && (previous.Some? ==> previous.value != [])
      invariant all == Plus(at, AcceptEntries(bytes[at..], count - i, previous, depth))
    {
      EntryStep(bytes, at, count - i, previous, depth);
      var keyEnd := CanonicalItemEnd(bytes, at, depth);
      if keyEnd.None? {
        return None;
      }
      var key := bytes[at..keyEnd.value];
      if previous.Some? && !KeyLess(previous.value, key) {
        return None;
      }
      var next := CanonicalItemEnd(bytes, keyEnd.value, depth);
      if next.None? {
        return None;
      }
      at, previous := next.value, Some(key);
    }
    NoEntries(bytes[at..], previous, depth);
    end := Some(at);
  }

  lemma NoEntries(b: seq<byte>, previous: Option<seq<byte>>, depth: nat)
    requires previous.Some? ==> previous.value != []
    ensures AcceptEntries(b, 0, previous, depth) == Some(0)
  {
  }
}
