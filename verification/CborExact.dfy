/** What the canonical check accepts: the encodings of acceptable values and
    nothing else, so that a request made canonical is accepted whenever it can
    be, and everything accepted means something. */
module CborExact {
  import opened Bytes
  import opened Numbers
  import opened Cbor
  import opened CborAcceptor

  /** A value the check lets through inside `depth` arrays and maps. */
  predicate Acceptable(v: Value, depth: nat)
    decreases v
  {
    match v
    case Array(items) =>
      depth < MAX_NESTING && forall i :: 0 <= i < |items| ==> Acceptable(items[i], depth + 1)
    case Map(entries) =>
      && depth < MAX_NESTING && Strict(entries)
      && forall i :: 0 <= i < |entries| ==> AcceptableEntry(entries[i], depth + 1)
    case Tag(_, _) => false
    case _ => true
  }

  predicate AcceptableEntry(e: Entry, depth: nat)
    decreases e
  {
    Acceptable(e.key, depth) && Acceptable(e.value, depth)
  }

  /** Each key above the one before it. */
  predicate Strict(entries: seq<Entry>) {
    forall i :: 0 < i < |entries| ==> EntryLess(entries[i - 1], entries[i])
  }

  // ---------------------------------------------------------------- headers

  lemma SmallSizes()
    ensures Pow2(8) == 0x100 && Pow2(16) == 0x1_0000 && Pow2(32) == 0x1_0000_0000
  {
    Pow2Steps(0);
    Pow2Steps(8);
    Pow2Steps(16);
    Pow2Steps(24);
  }

  lemma Sizes()
    ensures Pow2(8) == 0x100 && Pow2(16) == 0x1_0000 && Pow2(32) == 0x1_0000_0000
    ensures Pow2(64) == 0x1_0000_0000_0000_0000
  {
    hide Pow2;
    SmallSizes();
    Pow2Steps(32);
    Pow2Steps(40);
    Pow2Steps(48);
    Pow2Steps(56);
  }

  function Info(argument: nat): nat {
    if argument < 24 then argument
    else if argument < 0x100 then 24
    else if argument < 0x1_0000 then 25
    else if argument < 0x1_0000_0000 then 26
    else 27
  }

  /** A header that was written is read back. */
  lemma HeadRead(major: nat, argument: nat, rest: seq<byte>)
    requires major < 8 && argument < 0x1_0000_0000_0000_0000
    ensures HeaderOf(Head(major, argument) + rest)
         == Some(Header(major, Info(argument), argument, |Head(major, argument)|))
    ensures (Head(major, argument) + rest)[0] as int % 32 == Info(argument)
  {
    hide FromBe, ToBe, Pow2;
    var b := Head(major, argument) + rest;
    Sizes();
    if argument >= 24 {
      var size := ArgumentSize(Info(argument));
      ToBeBijective(argument, size);
      assert b[1..1 + size] == ToBe(argument, size);
    }
  }

  /** A header that is as short as it can be was written. */
  lemma HeadWritten(b: seq<byte>)
    requires HeaderOf(b).Some? && Shortest(HeaderOf(b).value)
    ensures var h := HeaderOf(b).value;
            h.argument < 0x1_0000_0000_0000_0000 && b[..h.size] == Head(h.major, h.argument)
  {
    hide FromBe, ToBe, Pow2;
    var h := HeaderOf(b).value;
    Sizes();
    if h.info >= 24 {
      var raw := b[1..h.size];
      FromBeBijective(raw);
      assert b[..h.size] == [b[0]] + raw;
    } else {
      assert b[..1] == [b[0]];
    }
  }

  // ---------------------------------------------------------------- every encoding

  lemma Concat(a: seq<byte>, b: seq<byte>, c: seq<byte>)
    ensures (a + b) + c == a + (b + c) && (a + (b + c))[|a|..] == b + c && (a + b)[..|a|] == a && (a + b)[|a|..] == b
  {
  }

  lemma AcceptScalar(v: Value, rest: seq<byte>, depth: nat)
    requires WellSized(v) && !v.Array? && !v.Map? && !v.Tag?
    ensures Accept(Encode(v) + rest, depth) == Some(|Encode(v)|)
  {
    hide AcceptItems, AcceptEntries, HeaderOf, Head;
    match v
    case Uint(n) => HeadRead(0, n, rest);
    case Nint(n) => HeadRead(1, n, rest);
    case Bytes(s) =>
      Concat(Head(2, |s|), s, rest);
      HeadRead(2, |s|, s + rest);
    case Text(s) =>
      Concat(Head(3, |s|), s, rest);
      HeadRead(3, |s|, s + rest);
    case Simple(n) => HeadRead(7, n, rest);
    case Float(raw) =>
  }

  /** A container is read as its header and then its contents. */
  lemma AcceptContainer(major: nat, count: nat, contents: seq<byte>, depth: nat)
    requires (major == 4 || major == 5) && count < 0x1_0000_0000_0000_0000
    ensures Accept(Head(major, count) + contents, depth)
         == if depth >= MAX_NESTING then None
            else Plus(|Head(major, count)|,
                      if major == 4 then AcceptItems(contents, count, depth + 1)
                      else AcceptEntries(contents, count, None, depth + 1))
  {
    hide AcceptItems, AcceptEntries, HeaderOf, Head;
    HeadRead(major, count, contents);
    Concat(Head(major, count), contents, []);
  }

  lemma AcceptTag(tag: nat, contents: seq<byte>, depth: nat)
    requires tag < 0x1_0000_0000_0000_0000
    ensures Accept(Head(6, tag) + contents, depth) == None
  {
    hide AcceptItems, AcceptEntries, HeaderOf, Head;
    HeadRead(6, tag, contents);
  }

  predicate AllSized(entries: seq<Entry>) {
    forall i :: 0 <= i < |entries| ==> WellSized(entries[i].key) && WellSized(entries[i].value)
  }

  /** The encoding of a value is accepted, to its end, if and only if the value
      is acceptable. */
  lemma {:induction false} AcceptExact(v: Value, rest: seq<byte>, depth: nat)
    requires WellSized(v)
    ensures Accept(Encode(v) + rest, depth) == if Acceptable(v, depth) then Some(|Encode(v)|) else None
    decreases v
  {
    hide Accept, AcceptItems, AcceptEntries, EncodeItems, EncodeEntries, Head, Strict;
    match v
    case Array(items) =>
      Concat(Head(4, |items|), EncodeItems(items), rest);
      AcceptContainer(4, |items|, EncodeItems(items) + rest, depth);
      ItemsExact(items, rest, depth + 1);
    case Map(entries) =>
      Concat(Head(5, |entries|), EncodeEntries(entries), rest);
      AcceptContainer(5, |entries|, EncodeEntries(entries) + rest, depth);
      EntriesExact(entries, None, rest, depth + 1);
    case Tag(tag, inner) =>
      Concat(Head(6, tag), Encode(inner), rest);
      AcceptTag(tag, Encode(inner) + rest, depth);
    case _ => AcceptScalar(v, rest, depth);
  }

  lemma {:induction false} ItemsExact(items: seq<Value>, rest: seq<byte>, depth: nat)
    requires forall i :: 0 <= i < |items| ==> WellSized(items[i])
    ensures AcceptItems(EncodeItems(items) + rest, |items|, depth)
         == if forall i :: 0 <= i < |items| ==> Acceptable(items[i], depth) then Some(|EncodeItems(items)|) else None
    decreases items
  {
    hide Accept, AcceptEntries, Encode, Acceptable, WellSized;
    if items != [] {
      var tail := EncodeItems(items[1..]);
      Concat(Encode(items[0]), tail, rest);
      AcceptExact(items[0], tail + rest, depth);
      ItemsExact(items[1..], rest, depth);
      assert items == [items[0]] + items[1..];
    }
  }

  predicate StrictFrom(previous: Option<seq<byte>>, entries: seq<Entry>)
    requires previous.Some? ==> previous.value != []
  {
    Strict(entries) && (previous.Some? && entries != [] ==> KeyLess(previous.value, Encode(entries[0].key)))
  }

  lemma {:induction false} EntriesExact(entries: seq<Entry>, previous: Option<seq<byte>>, rest: seq<byte>, depth: nat)
    requires AllSized(entries) && (previous.Some? ==> previous.value != [])
    ensures AcceptEntries(EncodeEntries(entries) + rest, |entries|, previous, depth)
         == if StrictFrom(previous, entries) && forall i :: 0 <= i < |entries| ==> AcceptableEntry(entries[i], depth)
            then Some(|EncodeEntries(entries)|) else None
    decreases entries
  {
    hide Accept, AcceptItems, AcceptEntries, Encode, Acceptable, WellSized, KeyLess, StrictFrom;
    if entries == [] {
      NoEntries(rest, previous, depth);
      assert EncodeEntries(entries) + rest == rest;
      assert StrictFrom(previous, entries) by {
        StrictEmpty(previous);
      }
    } else {
      var e, tail := entries[0], EncodeEntries(entries[1..]);
      EntryExact(e, tail + rest, depth);
      EntriesUnfold(Encode(e.key), Encode(e.value), tail + rest, |entries|, previous, depth);
      EntriesExact(entries[1..], Some(Encode(e.key)), rest, depth);
      StrictUnfolds(previous, entries);
      assert entries == [e] + entries[1..];
      assert EncodeEntries(entries) + rest == Encode(e.key) + (Encode(e.value) + (tail + rest));
    }
  }

  lemma StrictEmpty(previous: Option<seq<byte>>)
    requires previous.Some? ==> previous.value != []
    ensures StrictFrom(previous, [])
  {
  }

  lemma EntriesUnfold(k: seq<byte>, v: seq<byte>, rest: seq<byte>, count: nat, previous: Option<seq<byte>>, depth: nat)
    requires count > 0 && k != [] && (previous.Some? ==> previous.value != [])
    requires Accept(k + (v + rest), depth) in {None, Some(|k|)} && Accept(v + rest, depth) in {None, Some(|v|)}
    ensures AcceptEntries(k + (v + rest), count, previous, depth)
         == if || Accept(k + (v + rest), depth).None? || Accept(v + rest, depth).None?
               || (previous.Some? && !KeyLess(previous.value, k)) then None
            else Plus(|k| + |v|, AcceptEntries(rest, count - 1, Some(k), depth))
  {
    hide Accept, KeyLess;
    var b := k + (v + rest);
    assert b[..|k|] == k && b[|k|..] == v + rest && b[|k| + |v|..] == rest;
  }

  lemma StrictUnfolds(previous: Option<seq<byte>>, entries: seq<Entry>)
    requires entries != [] && (previous.Some? ==> previous.value != [])
    ensures StrictFrom(previous, entries) <==>
              && (previous.Some? ==> KeyLess(previous.value, Encode(entries[0].key)))
              && StrictFrom(Some(Encode(entries[0].key)), entries[1..])
  {
    hide KeyLess, Encode;
    var tail := entries[1..];
    if StrictFrom(Some(Encode(entries[0].key)), tail) {
      forall i | 0 < i < |entries| ensures EntryLess(entries[i - 1], entries[i]) {
        if i > 1 {
          assert EntryLess(tail[i - 2], tail[i - 1]);
        }
      }
    }
    if Strict(entries) && |entries| > 1 {
      assert EntryLess(entries[0], entries[1]);
      forall i | 0 < i < |tail| ensures EntryLess(tail[i - 1], tail[i]) {
        assert EntryLess(entries[i], entries[i + 1]);
      }
    }
  }

  lemma {:induction false} EntryExact(e: Entry, rest: seq<byte>, depth: nat)
    requires WellSized(e.key) && WellSized(e.value)
    ensures Accept(Encode(e.key) + (Encode(e.value) + rest), depth)
         == if Acceptable(e.key, depth) then Some(|Encode(e.key)|) else None
    ensures Accept(Encode(e.value) + rest, depth)
         == if Acceptable(e.value, depth) then Some(|Encode(e.value)|) else None
    decreases e
  {
    AcceptExact(e.key, Encode(e.value) + rest, depth);
    AcceptExact(e.value, rest, depth);
  }

  // ---------------------------------------------------------------- nothing else

  /** Whatever is accepted is the encoding of an acceptable value. */
  lemma {:induction false} AcceptedMeans(b: seq<byte>, depth: nat) returns (v: Value)
    requires Accept(b, depth).Some?
    ensures WellSized(v) && Acceptable(v, depth) && b[..Accept(b, depth).value] == Encode(v)
    decreases |b|, 0
  {
    if IsFloat(b) {
      v := FloatMeans(b, depth);
    } else if HeaderOf(b).value.major == 4 {
      v := ArrayMeans(b, depth);
    } else if HeaderOf(b).value.major == 5 {
      v := MapMeans(b, depth);
    } else {
      v := ScalarMeans(b, depth);
    }
  }

  lemma FloatMeans(b: seq<byte>, depth: nat) returns (v: Value)
    requires Accept(b, depth).Some? && IsFloat(b)
    ensures WellSized(v) && Acceptable(v, depth) && b[..Accept(b, depth).value] == Encode(v)
  {
    hide AcceptItems, AcceptEntries, HeaderOf;
    v := Float(b[1..Accept(b, depth).value]);
  }

  lemma ScalarMeans(b: seq<byte>, depth: nat) returns (v: Value)
    requires Accept(b, depth).Some? && !IsFloat(b) && HeaderOf(b).value.major !in {4, 5}
    ensures WellSized(v) && Acceptable(v, depth) && b[..Accept(b, depth).value] == Encode(v)
  {
    hide AcceptItems, AcceptEntries, Head, FromBe;
    HeadWritten(b);
    var h := HeaderOf(b).value;
    if h.major == 7 {
      SimpleSize(b);
    }
    var contents := b[h.size..Accept(b, depth).value];
    assert b[..Accept(b, depth).value] == b[..h.size] + contents;
    v := match h.major
      case 0 => Uint(h.argument)
      case 1 => Nint(h.argument)
      case 2 => Bytes(contents)
      case 3 => Text(contents)
      case _ => Simple(h.argument);
  }

  lemma SimpleSize(b: seq<byte>)
    requires HeaderOf(b).Some? && !IsFloat(b) && HeaderOf(b).value.major == 7
    ensures HeaderOf(b).value.argument < 256
  {
    if HeaderOf(b).value.info == 24 {
      FromBeBijective(b[1..2]);
      Sizes();
    }
  }

  lemma {:induction false} ArrayMeans(b: seq<byte>, depth: nat) returns (v: Value)
    requires Accept(b, depth).Some? && !IsFloat(b) && HeaderOf(b).value.major == 4
    ensures WellSized(v) && Acceptable(v, depth) && b[..Accept(b, depth).value] == Encode(v)
    decreases |b|, 0, 0
  {
    hide AcceptItems, AcceptEntries, Head, HeaderOf, EncodeItems;
    var h := HeaderOf(b).value;
    HeadWritten(b);
    var items := ItemsMean(b[h.size..], h.argument, depth + 1);
    v := Array(items);
    assert b[..Accept(b, depth).value] == b[..h.size] + b[h.size..][..Accept(b, depth).value - h.size];
  }

  lemma {:induction false} ItemsMean(b: seq<byte>, count: nat, depth: nat) returns (items: seq<Value>)
    requires AcceptItems(b, count, depth).Some?
    ensures |items| == count && EncodeItems(items) == b[..AcceptItems(b, count, depth).value]
    ensures forall i :: 0 <= i < |items| ==> WellSized(items[i]) && Acceptable(items[i], depth)
    decreases |b|, 1
  {
    hide Accept, AcceptEntries, Encode, Acceptable, WellSized;
    if count == 0 {
      items := [];
    } else {
      var first := AcceptedMeans(b, depth);
      var n := Accept(b, depth).value;
      var others := ItemsMean(b[n..], count - 1, depth);
      items := [first] + others;
      assert items[1..] == others;
      var m := AcceptItems(b[n..], count - 1, depth).value;
      assert b[..n + m] == b[..n] + b[n..][..m];
    }
  }

  lemma {:induction false} MapMeans(b: seq<byte>, depth: nat) returns (v: Value)
    requires Accept(b, depth).Some? && !IsFloat(b) && HeaderOf(b).value.major == 5
    ensures WellSized(v) && Acceptable(v, depth) && b[..Accept(b, depth).value] == Encode(v)
    decreases |b|, 0, 0
  {
    hide AcceptItems, AcceptEntries, Head, HeaderOf, EncodeEntries;
    var h := HeaderOf(b).value;
    HeadWritten(b);
    var entries := EntriesMean(b[h.size..], h.argument, None, depth + 1);
    v := Map(entries);
    assert b[..Accept(b, depth).value] == b[..h.size] + b[h.size..][..Accept(b, depth).value - h.size];
  }

  lemma {:induction false} EntriesMean(b: seq<byte>, count: nat, previous: Option<seq<byte>>, depth: nat)
    returns (entries: seq<Entry>)
    requires (previous.Some? ==> previous.value != []) && AcceptEntries(b, count, previous, depth).Some?
    ensures |entries| == count && EncodeEntries(entries) == b[..AcceptEntries(b, count, previous, depth).value]
    ensures AllSized(entries) && forall i :: 0 <= i < |entries| ==> AcceptableEntry(entries[i], depth)
    ensures StrictFrom(previous, entries)
    decreases |b|, 1
  {
    hide Accept, AcceptItems, AcceptEntries, Encode, Acceptable, WellSized, KeyLess, StrictFrom;
    if count == 0 {
      entries := [];
      NoEntries(b, previous, depth);
      StrictEmpty(previous);
    } else {
      EntriesTaken(b, count, previous, depth);
      var key := AcceptedMeans(b, depth);
      var k := Accept(b, depth).value;
      var value := AcceptedMeans(b[k..], depth);
      var n := k + Accept(b[k..], depth).value;
      var others := EntriesMean(b[n..], count - 1, Some(b[..k]), depth);
      entries := [Entry(key, value)] + others;
      assert entries[1..] == others;
      StrictUnfolds(previous, entries);
      TwoSlices(b, k, n - k);
      TwoSlices(b, n, AcceptEntries(b[n..], count - 1, Some(b[..k]), depth).value);
    }
  }

  lemma TwoSlices(b: seq<byte>, n: nat, m: nat)
    requires n + m <= |b|
    ensures b[..n + m] == b[..n] + b[n..][..m]
  {
  }

  lemma EntriesTaken(b: seq<byte>, count: nat, previous: Option<seq<byte>>, depth: nat)
    requires count > 0 && (previous.Some? ==> previous.value != []) && AcceptEntries(b, count, previous, depth).Some?
    ensures Accept(b, depth).Some? && Accept(b[Accept(b, depth).value..], depth).Some?
    ensures var k := Accept(b, depth).value;
            var n := k + Accept(b[k..], depth).value;
            && (previous.Some? ==> KeyLess(previous.value, b[..k]))
            && AcceptEntries(b[n..], count - 1, Some(b[..k]), depth).Some?
            && AcceptEntries(b, count, previous, depth).value
               == n + AcceptEntries(b[n..], count - 1, Some(b[..k]), depth).value
  {
    hide Accept, KeyLess;
  }

  // ---------------------------------------------------------------- requests made canonical

  /** No two keys with the same encoding. */
  predicate DistinctKeys(entries: seq<Entry>) {
    entries == [] || (KeyAbsent(entries[0], entries[1..]) && DistinctKeys(entries[1..]))
  }

  predicate KeyAbsent(x: Entry, entries: seq<Entry>) {
    forall y :: y in entries ==> Encode(y.key) != Encode(x.key)
  }

  lemma {:induction false} InsertStrict(x: Entry, entries: seq<Entry>)
    requires Sorted(entries)
    ensures Strict(Insert(x, entries)) <==> Strict(entries) && KeyAbsent(x, entries)
  {
    hide Encode, KeyLess;
    if entries == [] {
    } else if !EntryLess(entries[0], x) {
      InsertStrictFront(x, entries);
    } else {
      var tail := entries[1..];
      InsertStrict(x, tail);
      KeyTotal(Encode(x.key), Encode(entries[0].key));
      assert entries == [entries[0]] + tail;
      StrictCons(entries[0], tail);
      StrictCons(entries[0], Insert(x, tail));
      var k0, kx := Encode(entries[0].key), Encode(x.key);
      KeyTotal(k0, k0);
      if tail != [] && !EntryLess(tail[0], x) {
        var k1 := Encode(tail[0].key);
        KeyTotal(kx, k1);
        if KeyLess(kx, k1) {
          KeyTransitive(k0, kx, k1);
        }
      }
    }
  }

  lemma StrictCons(e: Entry, tail: seq<Entry>)
    ensures Strict([e] + tail) <==> Strict(tail) && (tail != [] ==> EntryLess(e, tail[0]))
  {
    hide Encode, KeyLess;
    var all := [e] + tail;
    assert all[0] == e && all[1..] == tail;
    StrictUnfolds(None, all);
  }

  lemma InsertStrictFront(x: Entry, entries: seq<Entry>)
    requires Sorted(entries) && entries != [] && !EntryLess(entries[0], x)
    ensures Strict([x] + entries) <==> Strict(entries) && KeyAbsent(x, entries)
  {
    hide Encode, KeyLess;
    StrictCons(x, entries);
    KeyTotal(Encode(x.key), Encode(entries[0].key));
    assert entries[0] in entries;
    if EntryLess(x, entries[0]) {
      forall y | y in entries ensures Encode(y.key) != Encode(x.key) {
        var j :| 0 <= j < |entries| && entries[j] == y;
        KeyTotal(Encode(x.key), Encode(x.key));
        if j > 0 {
          assert !EntryLess(entries[j], entries[0]);
        }
      }
    }
  }

  /** Sorting leaves duplicates if there were any, and only then. */
  lemma {:induction false} SortStrict(entries: seq<Entry>)
    ensures Strict(Sort(entries)) <==> DistinctKeys(entries)
  {
    hide Encode, KeyLess;
    if entries != [] {
      var tail := entries[1..];
      SortStrict(tail);
      SortSorted(tail);
      SortPermutes(tail);
      assert forall y :: y in Sort(tail) <==> y in multiset(Sort(tail));
      assert forall y :: y in tail <==> y in multiset(tail);
      InsertStrict(entries[0], Sort(tail));
    }
  }

  /** A value whose canonical form can be accepted. */
  predicate Presentable(v: Value, depth: nat)
    decreases v
  {
    match v
    case Array(items) =>
      depth < MAX_NESTING && forall i :: 0 <= i < |items| ==> Presentable(items[i], depth + 1)
    case Map(entries) =>
      && depth < MAX_NESTING && DistinctKeys(CanonicalEntries(entries))
      && forall i :: 0 <= i < |entries| ==> PresentableEntry(entries[i], depth + 1)
    case Tag(_, _) => false
    case _ => true
  }

  predicate PresentableEntry(e: Entry, depth: nat)
    decreases e
  {
    Presentable(e.key, depth) && Presentable(e.value, depth)
  }

  predicate SizedEntry(e: Entry) {
    WellSized(e.key) && WellSized(e.value)
  }

  lemma {:induction false} CanonicalAcceptable(v: Value, depth: nat)
    requires WellSized(v)
    ensures WellSized(Canonical(v)) && (Acceptable(Canonical(v), depth) <==> Presentable(v, depth))
    decreases v
  {
    hide Strict, DistinctKeys, Sort, Encode;
    match v
    case Array(items) => CanonicalItemsAcceptable(items, depth + 1);
    case Tag(_, inner) => CanonicalAcceptable(inner, depth);
    case Map(entries) =>
      var mapped := CanonicalEntries(entries);
      assert forall i :: 0 <= i < |entries| ==> SizedEntry(entries[i]);
      CanonicalEntriesAcceptable(entries, depth + 1);
      SortStrict(mapped);
      SortPermutes(mapped);
      SortKeeps(mapped, depth + 1);
    case _ =>
  }

  lemma SortKeeps(entries: seq<Entry>, depth: nat)
    ensures (forall i :: 0 <= i < |Sort(entries)| ==> SizedEntry(Sort(entries)[i])) <==>
            (forall i :: 0 <= i < |entries| ==> SizedEntry(entries[i]))
    ensures (forall i :: 0 <= i < |Sort(entries)| ==> AcceptableEntry(Sort(entries)[i], depth)) <==>
            (forall i :: 0 <= i < |entries| ==> AcceptableEntry(entries[i], depth))
  {
    hide Sort, SizedEntry, AcceptableEntry;
    var sorted := Sort(entries);
    SortPermutes(entries);
    assert forall e :: e in sorted <==> e in multiset(sorted);
    assert forall e :: e in entries <==> e in multiset(entries);
    assert forall i :: 0 <= i < |sorted| ==> sorted[i] in entries;
    assert forall i :: 0 <= i < |entries| ==> entries[i] in sorted;
  }

  lemma {:induction false} CanonicalItemsAcceptable(items: seq<Value>, depth: nat)
    requires forall i :: 0 <= i < |items| ==> WellSized(items[i])
    ensures forall i :: 0 <= i < |items| ==>
              && WellSized(CanonicalItems(items)[i])
              && (Acceptable(CanonicalItems(items)[i], depth) <==> Presentable(items[i], depth))
    decreases items
  {
    hide WellSized, Acceptable, Presentable;
    if items != [] {
      CanonicalAcceptable(items[0], depth);
      CanonicalItemsAcceptable(items[1..], depth);
    }
  }

  lemma {:induction false} CanonicalEntriesAcceptable(entries: seq<Entry>, depth: nat)
    requires forall i :: 0 <= i < |entries| ==> SizedEntry(entries[i])
    ensures forall i :: 0 <= i < |entries| ==>
              && SizedEntry(CanonicalEntries(entries)[i])
              && (AcceptableEntry(CanonicalEntries(entries)[i], depth) <==> PresentableEntry(entries[i], depth))
    decreases entries
  {
    hide SizedEntry, AcceptableEntry, PresentableEntry;
    if entries != [] {
      CanonicalEntryAcceptable(entries[0], depth);
      CanonicalEntriesAcceptable(entries[1..], depth);
    }
  }

  lemma {:induction false} CanonicalEntryAcceptable(e: Entry, depth: nat)
    requires SizedEntry(e)
    ensures SizedEntry(CanonicalEntry(e)) && (AcceptableEntry(CanonicalEntry(e), depth) <==> PresentableEntry(e, depth))
    decreases e
  {
    CanonicalAcceptable(e.key, depth);
    CanonicalAcceptable(e.value, depth);
  }

  /** A request made canonical is accepted whole exactly when it has no tags, no
      two keys that come out the same, and at most 16 levels. */
  lemma CanonicalAccepted(v: Value)
    requires WellSized(v)
    ensures Accept(Encode(Canonical(v)), 0) == Some(|Encode(Canonical(v))|) <==> Presentable(v, 0)
  {
    hide Accept, Encode, Acceptable, Presentable, WellSized, Canonical;
    CanonicalAcceptable(v, 0);
    AcceptExact(Canonical(v), [], 0);
    assert Encode(Canonical(v)) + [] == Encode(Canonical(v));
  }
}
