/** CBOR values, their encoding (section 3 of RFC 8949) and the canonical order
    of map keys (section 8 of CTAP 2.3). */
module Cbor {
  import opened Bytes
  import opened Numbers
  import opened Order

  /** A value. Floats keep the size they are written in; a simple value is one
      that RFC 8949 gives a number. */
  datatype Value =
    | Uint(n: nat)
    | Nint(n: nat)
    | Bytes(bytes: seq<byte>)
    | Text(text: seq<byte>)
    | Array(items: seq<Value>)
    | Map(entries: seq<Entry>)
    | Tag(tag: nat, inner: Value)
    | Simple(simple: byte)
    | Float(raw: seq<byte>)

  datatype Entry = Entry(key: Value, value: Value)

  // ---------------------------------------------------------------- encoding

  /** The shortest header of an argument below 2^64. */
  function Head(major: nat, argument: nat): (h: seq<byte>)
    requires major < 8
    ensures 1 <= |h| <= 9 && h[0] as int / 32 == major
  {
    if argument < 24 then [32 * major + argument]
    else if argument < 0x100 then [32 * major + 24] + ToBe(argument, 1)
    else if argument < 0x1_0000 then [32 * major + 25] + ToBe(argument, 2)
    else if argument < 0x1_0000_0000 then [32 * major + 26] + ToBe(argument, 4)
    else [32 * major + 27] + ToBe(argument, 8)
  }

  function FloatInfo(size: nat): nat {
    if size == 2 then 25 else if size == 4 then 26 else 27
  }

  function Encode(v: Value): (e: seq<byte>)
    ensures e != [] && e[0] as int / 32 == Major(v)
  {
    match v
    case Uint(n) => Head(0, n)
    case Nint(n) => Head(1, n)
    case Bytes(b) => Head(2, |b|) + b
    case Text(t) => Head(3, |t|) + t
    case Array(items) => Head(4, |items|) + EncodeItems(items)
    case Map(entries) => Head(5, |entries|) + EncodeEntries(entries)
    case Tag(tag, inner) => Head(6, tag) + Encode(inner)
    case Simple(n) => Head(7, n)
    case Float(raw) => [32 * 7 + FloatInfo(|raw|)] + raw
  }

  function EncodeItems(items: seq<Value>): seq<byte> {
    if items == [] then [] else Encode(items[0]) + EncodeItems(items[1..])
  }

  function EncodeEntries(entries: seq<Entry>): seq<byte> {
    if entries == [] then []
    else EncodeEntry(entries[0]) + EncodeEntries(entries[1..])
  }

  function EncodeEntry(e: Entry): seq<byte> {
    Encode(e.key) + Encode(e.value)
  }

  function Major(v: Value): nat {
    match v
    case Uint(_) => 0
    case Nint(_) => 1
    case Bytes(_) => 2
    case Text(_) => 3
    case Array(_) => 4
    case Map(_) => 5
    case Tag(_, _) => 6
    case Simple(_) => 7
    case Float(_) => 7
  }

  // ---------------------------------------------------------------- the length bound

  /** `encoded_len_bound`. */
  function EncodedLenBound(v: Value): nat {
    9 + match v
        case Bytes(b) => |b|
        case Text(t) => |t|
        case Array(items) => ItemsBound(items)
        case Map(entries) => EntriesBound(entries)
        case Tag(_, inner) => EncodedLenBound(inner)
        case _ => 0
  }

  function ItemsBound(items: seq<Value>): nat {
    if items == [] then 0 else EncodedLenBound(items[0]) + ItemsBound(items[1..])
  }

  function EntriesBound(entries: seq<Entry>): nat {
    if entries == [] then 0
    else EntryBound(entries[0]) + EntriesBound(entries[1..])
  }

  function EntryBound(e: Entry): nat {
    EncodedLenBound(e.key) + EncodedLenBound(e.value)
  }

  /** A float is two, four or eight bytes, and a number fits in eight. */
  predicate WellSized(v: Value) {
    match v
    case Uint(n) => n < 0x1_0000_0000_0000_0000
    case Nint(n) => n < 0x1_0000_0000_0000_0000
    case Bytes(b) => |b| < 0x1_0000_0000_0000_0000
    case Text(t) => |t| < 0x1_0000_0000_0000_0000
    case Array(items) => |items| < 0x1_0000_0000_0000_0000 && forall i :: 0 <= i < |items| ==> WellSized(items[i])
    case Map(entries) =>
      && |entries| < 0x1_0000_0000_0000_0000
      && forall i :: 0 <= i < |entries| ==> WellSized(entries[i].key) && WellSized(entries[i].value)
    case Tag(tag, inner) => tag < 0x1_0000_0000_0000_0000 && WellSized(inner)
    case Simple(n) => n < 24 || n >= 32
    case Float(raw) => |raw| in {2, 4, 8}
  }

  /** No encoding is longer than its bound. */
  lemma {:induction false} BoundHolds(v: Value)
    requires WellSized(v)
    ensures |Encode(v)| <= EncodedLenBound(v)
  {
    match v
    case Array(items) => ItemsBoundHolds(items);
    case Map(entries) => EntriesBoundHolds(entries);
    case Tag(_, inner) => BoundHolds(inner);
    case _ =>
  }

  lemma {:induction false} ItemsBoundHolds(items: seq<Value>)
    requires forall i :: 0 <= i < |items| ==> WellSized(items[i])
    ensures |EncodeItems(items)| <= ItemsBound(items)
  {
    if items != [] {
      BoundHolds(items[0]);
      ItemsBoundHolds(items[1..]);
    }
  }

  lemma {:induction false} EntriesBoundHolds(entries: seq<Entry>)
    requires forall i :: 0 <= i < |entries| ==> WellSized(entries[i].key) && WellSized(entries[i].value)
    ensures |EncodeEntries(entries)| <= EntriesBound(entries)
  {
    if entries != [] {
      EntryBoundHolds(entries[0]);
      EntriesBoundHolds(entries[1..]);
    }
  }

  lemma {:induction false} EntryBoundHolds(e: Entry)
    requires WellSized(e.key) && WellSized(e.value)
    ensures |EncodeEntry(e)| <= EntryBound(e)
  {
    BoundHolds(e.key);
    BoundHolds(e.value);
  }

  // ---------------------------------------------------------------- the order of keys

  /** By major type, then length, then bytes. */
  predicate KeyLess(a: seq<byte>, b: seq<byte>)
    requires a != [] && b != []
  {
    || a[0] as int / 32 < b[0] as int / 32
    || (a[0] as int / 32 == b[0] as int / 32 && (|a| < |b| || (|a| == |b| && Less(a, b))))
  }

  lemma KeyTotal(a: seq<byte>, b: seq<byte>)
    requires a != [] && b != []
    ensures a == b || KeyLess(a, b) || KeyLess(b, a)
    ensures !(KeyLess(a, b) && KeyLess(b, a)) && !KeyLess(a, a)
  {
    LessTotal(a, b);
    LessIrreflexive(a);
    if Less(a, b) {
      LessAsymmetric(a, b);
    }
  }

  lemma KeyTransitive(a: seq<byte>, b: seq<byte>, c: seq<byte>)
    requires a != [] && b != [] && c != [] && KeyLess(a, b) && KeyLess(b, c)
    ensures KeyLess(a, c)
  {
    if Less(a, b) && Less(b, c) {
      LessTransitive(a, b, c);
    }
  }

  predicate EntryLess(x: Entry, y: Entry) {
    KeyLess(Encode(x.key), Encode(y.key))
  }

  /** No entry before one with a smaller key. */
  predicate Sorted(entries: seq<Entry>) {
    forall i, j :: 0 <= i < j < |entries| ==> !EntryLess(entries[j], entries[i])
  }

  // ---------------------------------------------------------------- the stable sort

  /** In front of the entries it does not have to follow. */
  function Insert(x: Entry, entries: seq<Entry>): seq<Entry> {
    if entries == [] || !EntryLess(entries[0], x) then [x] + entries
    else [entries[0]] + Insert(x, entries[1..])
  }

  /** `sort_by`: stable, as the entry inserted was ahead of the others. */
  function Sort(entries: seq<Entry>): seq<Entry> {
    if entries == [] then [] else Insert(entries[0], Sort(entries[1..]))
  }

  lemma {:induction false} InsertMultiset(x: Entry, entries: seq<Entry>)
    ensures multiset(Insert(x, entries)) == multiset{x} + multiset(entries)
  {
    if entries != [] && EntryLess(entries[0], x) {
      InsertMultiset(x, entries[1..]);
      assert entries == [entries[0]] + entries[1..];
    }
  }

  lemma {:induction false} SortPermutes(entries: seq<Entry>)
    ensures multiset(Sort(entries)) == multiset(entries) && |Sort(entries)| == |entries|
  {
    if entries != [] {
      SortPermutes(entries[1..]);
      InsertMultiset(entries[0], Sort(entries[1..]));
      assert entries == [entries[0]] + entries[1..];
      assert |multiset(Sort(entries))| == |multiset(entries)|;
    }
  }

  lemma {:induction false} InsertSorted(x: Entry, entries: seq<Entry>)
    requires Sorted(entries)
    ensures Sorted(Insert(x, entries))
  {
    if entries == [] {
    } else if !EntryLess(entries[0], x) {
      forall j | 0 <= j < |entries| ensures !EntryLess(entries[j], x) {
        KeyTotal(Encode(entries[0].key), Encode(x.key));
        if EntryLess(entries[j], x) && j > 0 {
          NotAbove(entries[0], x, entries[j]);
        }
      }
    } else {
      InsertSorted(x, entries[1..]);
      var rest := Insert(x, entries[1..]);
      InsertMultiset(x, entries[1..]);
      forall j | 0 <= j < |rest| ensures !EntryLess(rest[j], entries[0]) {
        assert rest[j] in multiset(rest);
        KeyTotal(Encode(entries[0].key), Encode(x.key));
        if rest[j] != x {
          assert rest[j] in entries[1..];
        }
      }
    }
  }

  /** With `a` not below `x` and `b` not below `a`, `b` is not below `x`. */
  lemma NotAbove(a: Entry, x: Entry, b: Entry)
    requires !EntryLess(a, x) && !EntryLess(b, a)
    ensures !EntryLess(b, x)
  {
    var ka, kx, kb := Encode(a.key), Encode(x.key), Encode(b.key);
    KeyTotal(ka, kx);
    KeyTotal(kb, ka);
    KeyTotal(kb, kx);
    if KeyLess(kb, kx) {
      if KeyLess(kx, ka) {
        KeyTransitive(kb, kx, ka);
      }
    }
  }

  lemma {:induction false} SortSorted(entries: seq<Entry>)
    ensures Sorted(Sort(entries))
  {
    if entries != [] {
      SortSorted(entries[1..]);
      InsertSorted(entries[0], Sort(entries[1..]));
    }
  }

  /** What is sorted stays as it is. */
  lemma {:induction false} SortIdentity(entries: seq<Entry>)
    requires Sorted(entries)
    ensures Sort(entries) == entries
  {
    if entries != [] {
      SortIdentity(entries[1..]);
      assert entries == [entries[0]] + entries[1..];
    }
  }

  // ---------------------------------------------------------------- the canonical form

  function Canonical(v: Value): (c: Value)
    ensures c.Uint? || c.Nint? || c.Bytes? || c.Text? || c.Simple? || c.Float? ==> c == v
    ensures Major(c) == Major(v)
  {
    match v
    case Array(items) => Array(CanonicalItems(items))
    case Tag(tag, inner) => Tag(tag, Canonical(inner))
    case Map(entries) => Map(Sort(CanonicalEntries(entries)))
    case _ => v
  }

  function CanonicalItems(items: seq<Value>): (c: seq<Value>)
    ensures |c| == |items|
  {
    if items == [] then [] else [Canonical(items[0])] + CanonicalItems(items[1..])
  }

  function CanonicalEntries(entries: seq<Entry>): (c: seq<Entry>)
    ensures |c| == |entries|
  {
    if entries == [] then [] else [CanonicalEntry(entries[0])] + CanonicalEntries(entries[1..])
  }

  function CanonicalEntry(e: Entry): Entry {
    Entry(Canonical(e.key), Canonical(e.value))
  }

  /** The keys of every map, at every depth, are in order. */
  predicate Ordered(v: Value) {
    match v
    case Array(items) => forall i :: 0 <= i < |items| ==> Ordered(items[i])
    case Tag(_, inner) => Ordered(inner)
    case Map(entries) =>
      && Sorted(entries)
      && forall i :: 0 <= i < |entries| ==> Ordered(entries[i].key) && Ordered(entries[i].value)
    case _ => true
  }

  predicate OrderedEntry(e: Entry) {
    Ordered(e.key) && Ordered(e.value)
  }

  /** Each map's entries are permuted, and their keys and values canonical. */
  lemma CanonicalPermutes(entries: seq<Entry>)
    ensures multiset(Canonical(Map(entries)).entries) == multiset(CanonicalEntries(entries))
    ensures Sorted(Canonical(Map(entries)).entries)
  {
    SortPermutes(CanonicalEntries(entries));
    SortSorted(CanonicalEntries(entries));
  }

  lemma {:induction false} CanonicalOrdered(v: Value)
    ensures Ordered(Canonical(v))
  {
    match v
    case Array(items) => CanonicalItemsOrdered(items);
    case Tag(_, inner) => CanonicalOrdered(inner);
    case Map(entries) =>
      CanonicalEntriesOrdered(entries);
      CanonicalPermutes(entries);
      var sorted := Canonical(v).entries;
      forall i | 0 <= i < |sorted| ensures Ordered(sorted[i].key) && Ordered(sorted[i].value) {
        assert sorted[i] in multiset(sorted);
        assert sorted[i] in CanonicalEntries(entries);
      }
    case _ =>
  }

  lemma {:induction false} CanonicalItemsOrdered(items: seq<Value>)
    ensures forall i :: 0 <= i < |items| ==> Ordered(CanonicalItems(items)[i])
  {
    if items != [] {
      CanonicalOrdered(items[0]);
      CanonicalItemsOrdered(items[1..]);
    }
  }

  lemma {:induction false} CanonicalEntriesOrdered(entries: seq<Entry>)
    ensures forall e :: e in CanonicalEntries(entries) ==> Ordered(e.key) && Ordered(e.value)
  {
    if entries != [] {
      CanonicalEntryOrdered(entries[0]);
      CanonicalEntriesOrdered(entries[1..]);
    }
  }

  lemma {:induction false} CanonicalEntryOrdered(e: Entry)
    ensures OrderedEntry(CanonicalEntry(e))
  {
    CanonicalOrdered(e.key);
    CanonicalOrdered(e.value);
  }

  /** An ordered value is its own canonical form. */
  lemma {:induction false} OrderedIsCanonical(v: Value)
    requires Ordered(v)
    ensures Canonical(v) == v
  {
    match v
    case Array(items) => OrderedItems(items);
    case Tag(_, inner) => OrderedIsCanonical(inner);
    case Map(entries) =>
      OrderedEntries(entries);
      SortIdentity(entries);
    case _ =>
  }

  lemma {:induction false} OrderedItems(items: seq<Value>)
    requires forall i :: 0 <= i < |items| ==> Ordered(items[i])
    ensures CanonicalItems(items) == items
  {
    if items != [] {
      OrderedIsCanonical(items[0]);
      OrderedItems(items[1..]);
    }
  }

  lemma {:induction false} OrderedEntries(entries: seq<Entry>)
    requires forall i :: 0 <= i < |entries| ==> Ordered(entries[i].key) && Ordered(entries[i].value)
    ensures CanonicalEntries(entries) == entries
  {
    if entries != [] {
      OrderedEntryIsCanonical(entries[0]);
      OrderedEntries(entries[1..]);
    }
  }

  lemma {:induction false} OrderedEntryIsCanonical(e: Entry)
    requires OrderedEntry(e)
    ensures CanonicalEntry(e) == e
  {
    OrderedIsCanonical(e.key);
    OrderedIsCanonical(e.value);
  }

  /** Canonicalizing twice is canonicalizing once. */
  lemma CanonicalIdempotent(v: Value)
    ensures Canonical(Canonical(v)) == Canonical(v)
  {
    CanonicalOrdered(v);
    OrderedIsCanonical(Canonical(v));
  }

  // ---------------------------------------------------------------- lookups

  /** `get_int` and `get_text`: the first match. */
  function Lookup(entries: seq<Entry>, key: Value): Option<Value> {
    if entries == [] then None
    else if entries[0].key == key then Some(entries[0].value)
    else Lookup(entries[1..], key)
  }

  lemma {:induction false} InsertLookup(x: Entry, entries: seq<Entry>, key: Value)
    ensures Lookup(Insert(x, entries), key) == if x.key == key then Some(x.value) else Lookup(entries, key)
  {
    if entries != [] && EntryLess(entries[0], x) {
      KeyTotal(Encode(x.key), Encode(x.key));
      InsertLookup(x, entries[1..], key);
    }
  }

  lemma {:induction false} SortLookup(entries: seq<Entry>, key: Value)
    ensures Lookup(Sort(entries), key) == Lookup(entries, key)
  {
    if entries != [] {
      SortLookup(entries[1..], key);
      InsertLookup(entries[0], Sort(entries[1..]), key);
    }
  }

  lemma {:induction false} CanonicalLookup(entries: seq<Entry>, key: Value)
    requires key.Uint? || key.Nint? || key.Text?
    ensures Lookup(CanonicalEntries(entries), key)
         == if Lookup(entries, key).Some? then Some(Canonical(Lookup(entries, key).value)) else None
  {
    if entries != [] {
      CanonicalLookup(entries[1..], key);
    }
  }

  /** Looking an integer or a text up finds the canonical form of what it found
      before, among duplicates too. */
  lemma LookupPreserved(entries: seq<Entry>, key: Value)
    requires key.Uint? || key.Nint? || key.Text?
    ensures Lookup(Canonical(Map(entries)).entries, key)
         == if Lookup(entries, key).Some? then Some(Canonical(Lookup(entries, key).value)) else None
  {
    SortLookup(CanonicalEntries(entries), key);
    CanonicalLookup(entries, key);
  }
}
