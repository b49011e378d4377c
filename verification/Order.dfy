/** The byte-wise lexicographic order, which sorts RP IDs and CBOR keys. */
module Order {
  import opened Bytes

  predicate Less(a: seq<byte>, b: seq<byte>) {
    b != [] && (a == [] || a[0] < b[0] || (a[0] == b[0] && Less(a[1..], b[1..])))
  }

  lemma {:induction false} LessTotal(a: seq<byte>, b: seq<byte>)
    ensures a == b || Less(a, b) || Less(b, a)
  {
    if a != [] && b != [] && a[0] == b[0] {
      LessTotal(a[1..], b[1..]);
      assert a == [a[0]] + a[1..] && b == [b[0]] + b[1..];
    }
  }

  lemma {:induction false} LessIrreflexive(a: seq<byte>)
    ensures !Less(a, a)
  {
    if a != [] {
      LessIrreflexive(a[1..]);
    }
  }

  lemma {:induction false} LessTransitive(a: seq<byte>, b: seq<byte>, c: seq<byte>)
    requires Less(a, b) && Less(b, c)
    ensures Less(a, c)
  {
    if a != [] && a[0] == b[0] == c[0] {
      LessTransitive(a[1..], b[1..], c[1..]);
    }
  }

  lemma LessAsymmetric(a: seq<byte>, b: seq<byte>)
    requires Less(a, b)
    ensures !Less(b, a) && a != b
  {
    LessIrreflexive(a);
    if Less(b, a) {
      LessTransitive(a, b, a);
    }
  }

  /** Each element once, in increasing order. */
  predicate Increasing(s: seq<seq<byte>>) {
    forall i, j :: 0 <= i < j < |s| ==> Less(s[i], s[j])
  }

  function Insert(s: seq<seq<byte>>, x: seq<byte>): seq<seq<byte>> {
    if s == [] then [x]
    else if x == s[0] then s
    else if Less(x, s[0]) then [x] + s
    else [s[0]] + Insert(s[1..], x)
  }

  lemma {:induction false} InsertMembers(s: seq<seq<byte>>, x: seq<byte>, y: seq<byte>)
    ensures y in Insert(s, x) <==> y in s || y == x
  {
    if s != [] {
      InsertMembers(s[1..], x, y);
      assert s == [s[0]] + s[1..];
    }
  }

  lemma {:induction false} InsertIncreasing(s: seq<seq<byte>>, x: seq<byte>)
    requires Increasing(s)
    ensures Increasing(Insert(s, x))
  {
    if s == [] {
    } else if x == s[0] {
    } else if Less(x, s[0]) {
      forall j | 0 < j < |s| ensures Less(x, s[j]) {
        LessTransitive(x, s[0], s[j]);
      }
    } else {
      LessTotal(x, s[0]);
      InsertIncreasing(s[1..], x);
      var rest := Insert(s[1..], x);
      forall j | 0 <= j < |rest| ensures Less(s[0], rest[j]) {
        InsertMembers(s[1..], x, rest[j]);
        if rest[j] != x {
          var k :| 0 <= k < |s[1..]| && s[1..][k] == rest[j];
          assert s[k + 1] == rest[j];
        }
      }
    }
  }

  /** Sorted, without duplicates. */
  function SortDedup(s: seq<seq<byte>>): seq<seq<byte>> {
    if s == [] then [] else Insert(SortDedup(s[1..]), s[0])
  }

  lemma {:induction false} SortDedupExact(s: seq<seq<byte>>)
    ensures Increasing(SortDedup(s))
    ensures forall x :: x in SortDedup(s) <==> x in s
  {
    if s != [] {
      SortDedupExact(s[1..]);
      InsertIncreasing(SortDedup(s[1..]), s[0]);
      forall x ensures x in SortDedup(s) <==> x in s {
        InsertMembers(SortDedup(s[1..]), s[0], x);
        assert s == [s[0]] + s[1..];
      }
    }
  }
}
