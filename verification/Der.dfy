/** The DER walk that finds the AAGUID of an attestation certificate (section
    8.2.1 of WebAuthn Level 3). */
module Der {
  import opened Bytes
  import opened Numbers

  const TAG_BOOLEAN: byte := 0x01
  const TAG_OCTET_STRING: byte := 0x04
  const TAG_OID: byte := 0x06
  const TAG_SEQUENCE: byte := 0x30
  const TAG_VERSION: byte := 0xa0
  const TAG_EXTENSIONS: byte := 0xa3
  const AAGUID_OID: seq<byte> := [0x2b, 0x06, 0x01, 0x04, 0x01, 0x82, 0xe5, 0x1c, 0x01, 0x01, 0x04]
  const MAX_LENGTH := 0x1_0000_0000

  /** The first element of some input, and what follows it. */
  datatype Element = Element(tag: byte, contents: seq<byte>, rest: seq<byte>)

  function Cut(tag: byte, input: seq<byte>, length: nat): Option<Element> {
    if |input| < length then None else Some(Element(tag, input[..length], input[length..]))
  }

  function Split(input: seq<byte>): Option<Element> {
    if |input| < 2 then None
    else if input[1] < 0x80 then Cut(input[0], input[2..], input[1])
    else
      var count := input[1] - 0x80;
      if count == 0 || count > 4 || |input| - 2 < count then None
      else Cut(input[0], input[2 + count..], FromBe(input[2..2 + count]))
  }

  /** `next_element`: the input moves on only past a complete element. */
  method NextElement(input: seq<byte>) returns (found: Option<Element>, input': seq<byte>)
    ensures found == Split(input)
    ensures input' == if found.Some? then found.value.rest else input
    ensures found.Some? ==> |input'| <= |input| - 2
  {
    found, input' := None, input;
    if |input| < 2 {
      return;
    }
    var tag, first, rest := input[0], input[1], input[2..];
    var length: nat := first;
    if first >= 0x80 {
      var count := first - 0x80;
      if count == 0 || count > 4 || |rest| < count {
        return;
      }
      length := 0;
      for k := 0 to count
        invariant length == FromBe(rest[..k])
      {
        length := length * 256 + rest[k] as int;
        assert rest[..k + 1][..k] == rest[..k];
      }
      assert rest[..count] == input[2..2 + count] && rest[count..] == input[2 + count..];
      rest := rest[count..];
    }
    if |rest| < length {
      return;
    }
    found := Some(Element(tag, rest[..length], rest[length..]));
    input' := rest[length..];
  }

  // ---------------------------------------------------------------- the encoding

  function LengthOctets(n: nat): seq<byte>
    requires n < MAX_LENGTH
  {
    if n < 0x80 then [n]
    else if n < 0x100 then [0x81, n]
    else if n < 0x1_0000 then [0x82, n / 0x100, n % 0x100]
    else if n < 0x100_0000 then [0x83, n / 0x1_0000, n / 0x100 % 0x100, n % 0x100]
    else [0x84, n / 0x100_0000, n / 0x1_0000 % 0x100, n / 0x100 % 0x100, n % 0x100]
  }

  /** DER: the shortest length that does. */
  function Encode(tag: byte, contents: seq<byte>): seq<byte>
    requires |contents| < MAX_LENGTH
  {
    [tag] + LengthOctets(|contents|) + contents
  }

  lemma NumberTwo(a: byte, b: byte)
    ensures FromBe([a]) == a && FromBe([a, b]) == 256 * a as int + b as int
  {
    assert [a][..0] == [] && [a, b][..1] == [a];
  }

  lemma NumberFour(a: byte, b: byte, c: byte, d: byte)
    ensures FromBe([a, b, c]) == 0x1_0000 * a as int + 0x100 * b as int + c as int
    ensures FromBe([a, b, c, d]) == 0x100_0000 * a as int + 0x1_0000 * b as int + 0x100 * c as int + d as int
  {
    NumberTwo(a, b);
    assert [a, b, c][..2] == [a, b] && [a, b, c, d][..3] == [a, b, c];
  }

  lemma Digits(n: nat)
    ensures n == 0x100 * (n / 0x100) + n % 0x100
    ensures n / 0x100 == 0x100 * (n / 0x1_0000) + n / 0x100 % 0x100
    ensures n / 0x1_0000 == 0x100 * (n / 0x100_0000) + n / 0x1_0000 % 0x100
  {
    assert n / 0x1_0000 == n / 0x100 / 0x100;
    assert n / 0x100_0000 == n / 0x1_0000 / 0x100;
  }

  /** The number of a long form is the length that was encoded. */
  lemma LengthRoundTrip(n: nat)
    requires 0x80 <= n < MAX_LENGTH
    ensures var octets := LengthOctets(n);
            && octets[0] == 0x80 + |octets| - 1 && 1 <= |octets| - 1 <= 4 && FromBe(octets[1..]) == n
  {
    hide FromBe;
    Digits(n);
    var octets := LengthOctets(n);
    if n < 0x100 {
      NumberTwo(octets[1], 0);
      assert octets[1..] == [octets[1]];
    } else if n < 0x1_0000 {
      NumberTwo(octets[1], octets[2]);
      assert octets[1..] == [octets[1], octets[2]];
    } else if n < 0x100_0000 {
      NumberFour(octets[1], octets[2], octets[3], 0);
      assert octets[1..] == [octets[1], octets[2], octets[3]];
    } else {
      NumberFour(octets[1], octets[2], octets[3], octets[4]);
      assert octets[1..] == [octets[1], octets[2], octets[3], octets[4]];
    }
  }

  /** Splitting undoes encoding, whatever follows. */
  lemma SplitEncode(tag: byte, contents: seq<byte>, rest: seq<byte>)
    requires |contents| < MAX_LENGTH
    ensures Split(Encode(tag, contents) + rest) == Some(Element(tag, contents, rest))
  {
    var n, octets := |contents|, LengthOctets(|contents|);
    var input := Encode(tag, contents) + rest;
    assert input == [tag] + octets + (contents + rest);
    if n < 0x80 {
      assert input[2..] == contents + rest;
    } else {
      LengthRoundTrip(n);
      var count := |octets| - 1;
      assert input[1] == octets[0] && input[2..2 + count] == octets[1..] && input[2 + count..] == contents + rest;
    }
    assert (contents + rest)[..n] == contents && (contents + rest)[n..] == rest;
  }

  lemma {:induction false} NumberBound(octets: seq<byte>)
    requires |octets| <= 4
    ensures FromBe(octets) < (if |octets| == 0 then 1 else if |octets| == 1 then 0x100
                              else if |octets| == 2 then 0x1_0000
                              else if |octets| == 3 then 0x100_0000 else MAX_LENGTH)
  {
    if octets != [] {
      NumberBound(octets[..|octets| - 1]);
    }
  }

  /** The octets of a length: short, or a count and up to four octets. */
  predicate SaysLength(octets: seq<byte>, n: nat) {
    || octets == [n]
    || (2 <= |octets| <= 5 && octets[0] as int == 0x80 + |octets| - 1 && FromBe(octets[1..]) == n)
  }

  /** What is cut off and what is left, put after the header again. */
  lemma Joined(input: seq<byte>, header: nat, length: nat)
    requires 2 <= header <= |input| && length <= |input| - header
    ensures input == [input[0]] + input[1..header] + input[header..][..length] + input[header..][length..]
  {
    var body := input[header..];
    assert body == body[..length] + body[length..];
    assert input == [input[0]] + input[1..header] + body;
  }

  /** And whatever splits off was encoded: a tag, a length, and that much. */
  lemma SplitShape(input: seq<byte>) returns (octets: seq<byte>)
    requires Split(input).Some?
    ensures var e := Split(input).value;
            && SaysLength(octets, |e.contents|) && input == [e.tag] + octets + e.contents + e.rest
            && |e.contents| < MAX_LENGTH && |e.rest| <= |input| - 2
  {
    hide FromBe;
    var length: nat := |Split(input).value.contents|;
    if input[1] < 0x80 {
      octets := input[1..2];
      Joined(input, 2, length);
    } else {
      var count := input[1] - 0x80;
      octets := input[1..2 + count];
      assert octets[1..] == input[2..2 + count];
      NumberBound(octets[1..]);
      Joined(input, 2 + count, length);
    }
  }

  /** Cut anywhere inside, an element is not one. */
  lemma SplitPrefix(input: seq<byte>, p: nat)
    requires Split(input).Some? && p < |input| - |Split(input).value.rest|
    ensures Split(input[..p]).None?
  {
    var cut := input[..p];
    if p >= 2 && input[1] >= 0x80 {
      var count := input[1] - 0x80;
      if p - 2 >= count {
        assert cut[2..2 + count] == input[2..2 + count];
      }
    }
  }

  // ---------------------------------------------------------------- the walk

  function Expect(input: seq<byte>, tag: byte): (r: Option<Element>)
    ensures r.Some? ==> |r.value.rest| < |input|
  {
    var e := Split(input);
    if e.Some? && e.value.tag == tag then e else None
  }

  /** What follows `n` elements. */
  function Skip(input: seq<byte>, n: nat): Option<seq<byte>> {
    if n == 0 then Some(input)
    else if Split(input).None? then None
    else Skip(Split(input).value.rest, n - 1)
  }

  /** The extensions of a TBSCertificate, from after its public key. */
  function FindExtensions(tbs: seq<byte>): Option<seq<byte>>
    decreases |tbs|
  {
    var e := Split(tbs);
    if e.None? then None
    else if e.value.tag == TAG_EXTENSIONS then
      var list := Expect(e.value.contents, TAG_SEQUENCE);
      if list.None? then None else Some(list.value.contents)
    else FindExtensions(e.value.rest)
  }

  function Extensions(certificate: seq<byte>): Option<seq<byte>> {
    var outer := Expect(certificate, TAG_SEQUENCE);
    if outer.None? then None
    else
      var inner := Expect(outer.value.contents, TAG_SEQUENCE);
      if inner.None? then None
      else
        var tbs := inner.value.contents;
        var fields := Skip(tbs, if tbs != [] && tbs[0] == TAG_VERSION then 7 else 6);
        if fields.None? then None else FindExtensions(fields.value)
  }

  /** The AAGUID of an extension, from after its OID: not critical, and an
      octet string of 16 in an octet string, with nothing after either. */
  function Value(extension: seq<byte>): Option<seq<byte>> {
    var after :=
      if extension != [] && extension[0] == TAG_BOOLEAN then
        var critical := Expect(extension, TAG_BOOLEAN);
        if critical.Some? && critical.value.contents == [0] then Some(critical.value.rest) else None
      else Some(extension);
    if after.None? then None
    else
      var value := Expect(after.value, TAG_OCTET_STRING);
      if value.None? then None
      else
        var aaguid := Expect(value.value.contents, TAG_OCTET_STRING);
        if aaguid.Some? && aaguid.value.rest == [] && value.value.rest == [] && |aaguid.value.contents| == 16
        then Some(aaguid.value.contents) else None
  }

  function Search(extensions: seq<byte>): Option<seq<byte>>
    decreases |extensions|
  {
    var e := Expect(extensions, TAG_SEQUENCE);
    if e.None? then None
    else
      var oid := Expect(e.value.contents, TAG_OID);
      if oid.None? then None
      else if oid.value.contents != AAGUID_OID then Search(e.value.rest)
      else Value(oid.value.rest)
  }

  function Aaguid(certificate: seq<byte>): Option<seq<byte>> {
    var extensions := Extensions(certificate);
    if extensions.None? then None else Search(extensions.value)
  }

  method ExpectElement(input: seq<byte>, tag: byte) returns (contents: Option<seq<byte>>, input': seq<byte>)
    ensures var e := Expect(input, tag);
            && contents == (if e.Some? then Some(e.value.contents) else None)
            && (e.Some? ==> input' == e.value.rest)
  {
    var found;
    found, input' := NextElement(input);
    contents := if found.Some? && found.value.tag == tag then Some(found.value.contents) else None;
  }

  /** `certificate_aaguid`, as far as the extensions. */
  method WalkToExtensions(certificate: seq<byte>) returns (extensions: Option<seq<byte>>)
    ensures extensions == Extensions(certificate)
  {
    var outer, input := ExpectElement(certificate, TAG_SEQUENCE);
    if outer.None? {
      return None;
    }
    var inner;
    inner, input := ExpectElement(outer.value, TAG_SEQUENCE);
    if inner.None? {
      return None;
    }
    var fields := WalkFields(inner.value);
    if fields.None? {
      return None;
    }
    extensions := WalkExtras(fields.value);
  }

  /** The version if there is one, then serialNumber, signature, issuer,
      validity, subject and subjectPublicKeyInfo. */
  method WalkFields(start: seq<byte>) returns (rest: Option<seq<byte>>)
    ensures rest == Skip(start, if start != [] && start[0] == TAG_VERSION then 7 else 6)
  {
    hide Split;
    var tbs, found := start, None;
    ghost var count := if start != [] && start[0] == TAG_VERSION then 7 else 6;
    if tbs != [] && tbs[0] == TAG_VERSION {
      found, tbs := NextElement(tbs);
      if found.None? {
        return None;
      }
    }
    for k := 0 to 6
      invariant Skip(start, count) == Skip(tbs, 6 - k)
    {
      found, tbs := NextElement(tbs);
      if found.None? {
        return None;
      }
    }
    rest := Some(tbs);
  }

  /** issuerUniqueID and subjectUniqueID may come before the extensions. */
  method WalkExtras(start: seq<byte>) returns (extensions: Option<seq<byte>>)
    ensures extensions == FindExtensions(start)
  {
    var tbs := start;
    while true
      invariant FindExtensions(start) == FindExtensions(tbs)
      decreases |tbs|
    {
      var found;
      found, tbs := NextElement(tbs);
      if found.None? {
        return None;
      }
      if found.value.tag == TAG_EXTENSIONS {
        var rest;
        extensions, rest := ExpectElement(found.value.contents, TAG_SEQUENCE);
        return;
      }
    }
  }

  /** `certificate_aaguid`. */
  method CertificateAaguid(certificate: seq<byte>) returns (aaguid: Option<seq<byte>>)
    ensures aaguid == Aaguid(certificate)
    ensures aaguid.Some? ==> |aaguid.value| == 16
  {
    var found := WalkToExtensions(certificate);
    if found.None? {
      return None;
    }
    var extensions := found.value;
    while extensions != []
      invariant Search(found.value) == Search(extensions)
      decreases |extensions|
    {
      var extension, oid;
      extension, extensions := ExpectElement(extensions, TAG_SEQUENCE);
      if extension.None? {
        return None;
      }
      var rest;
      oid, rest := ExpectElement(extension.value, TAG_OID);
      if oid.None? {
        return None;
      }
      if oid.value != AAGUID_OID {
        continue;
      }
      aaguid := ReadValue(rest);
      return;
    }
    aaguid := None;
  }

  method ReadValue(start: seq<byte>) returns (aaguid: Option<seq<byte>>)
    ensures aaguid == Value(start)
    ensures aaguid.Some? ==> |aaguid.value| == 16
  {
    var extension := start;
    if extension != [] && extension[0] == TAG_BOOLEAN {
      var critical;
      critical, extension := ExpectElement(extension, TAG_BOOLEAN);
      if critical.None? || critical.value != [0] {
        return None;
      }
    }
    var value;
    value, extension := ExpectElement(extension, TAG_OCTET_STRING);
    if value.None? {
      return None;
    }
    var rest;
    aaguid, rest := ExpectElement(value.value, TAG_OCTET_STRING);
    if aaguid.Some? && !(rest == [] && extension == [] && |aaguid.value| == 16) {
      aaguid := None;
    }
  }

  // ---------------------------------------------------------------- what decides

  /** The list starts with an extension that carries another OID. */
  predicate StartsOther(extensions: seq<byte>) {
    var e := Expect(extensions, TAG_SEQUENCE);
    && e.Some? && var oid := Expect(e.value.contents, TAG_OID);
    && oid.Some? && oid.value.contents != AAGUID_OID
  }

  /** The list starts with the AAGUID extension, which goes on as `value`. */
  predicate StartsAaguid(extensions: seq<byte>, value: seq<byte>) {
    var e := Expect(extensions, TAG_SEQUENCE);
    e.Some? && Expect(e.value.contents, TAG_OID) == Some(Element(TAG_OID, AAGUID_OID, value))
  }

  /** What is left of the list after `k` extensions with other OIDs. */
  function After(extensions: seq<byte>, k: nat): Option<seq<byte>> {
    if k == 0 then Some(extensions)
    else if StartsOther(extensions) then After(Expect(extensions, TAG_SEQUENCE).value.rest, k - 1)
    else None
  }

  /** The first AAGUID extension decides, whatever comes after it. */
  lemma {:induction false} FirstDecides(extensions: seq<byte>, k: nat, value: seq<byte>)
    requires After(extensions, k).Some? && StartsAaguid(After(extensions, k).value, value)
    ensures Search(extensions) == Value(value)
    decreases k
  {
    hide Split, Value;
    if k > 0 {
      FirstDecides(Expect(extensions, TAG_SEQUENCE).value.rest, k - 1, value);
    }
  }

  /** And nothing else gives an AAGUID. */
  lemma {:induction false} OnlyFirstDecides(extensions: seq<byte>) returns (k: nat, value: seq<byte>)
    requires Search(extensions).Some?
    ensures After(extensions, k).Some? && StartsAaguid(After(extensions, k).value, value)
    ensures Search(extensions) == Value(value)
    decreases |extensions|
  {
    hide Split, Value;
    var e := Expect(extensions, TAG_SEQUENCE).value;
    var oid := Expect(e.contents, TAG_OID).value;
    if oid.contents == AAGUID_OID {
      k, value := 0, oid.rest;
    } else {
      var k';
      k', value := OnlyFirstDecides(e.rest);
      k := k' + 1;
    }
  }

  /** A certificate cut short has no AAGUID. */
  lemma TruncatedCertificate(certificate: seq<byte>, p: nat)
    requires Split(certificate).Some? && Split(certificate).value.rest == [] && p < |certificate|
    ensures Aaguid(certificate[..p]) == None
  {
    SplitPrefix(certificate, p);
  }

  // ---------------------------------------------------------------- certificates

  datatype Field = Field(tag: byte, contents: seq<byte>)

  predicate Short(fields: seq<Field>) {
    forall f :: f in fields ==> |f.contents| < MAX_LENGTH
  }

  function EncodeAll(fields: seq<Field>): seq<byte>
    requires Short(fields)
  {
    if fields == [] then [] else Encode(fields[0].tag, fields[0].contents) + EncodeAll(fields[1..])
  }

  lemma {:induction false} SkipEncodeAll(fields: seq<Field>, rest: seq<byte>)
    requires Short(fields)
    ensures Skip(EncodeAll(fields) + rest, |fields|) == Some(rest)
  {
    hide Split, Encode, FromBe;
    if fields == [] {
      assert EncodeAll(fields) + rest == rest;
    } else {
      SplitEncode(fields[0].tag, fields[0].contents, EncodeAll(fields[1..]) + rest);
      assert EncodeAll(fields) + rest
          == Encode(fields[0].tag, fields[0].contents) + (EncodeAll(fields[1..]) + rest);
      SkipEncodeAll(fields[1..], rest);
    }
  }

  lemma {:induction false} FindEncodeAll(extras: seq<Field>, list: seq<byte>, junk: seq<byte>, rest: seq<byte>)
    requires Short(extras) && forall f :: f in extras ==> f.tag != TAG_EXTENSIONS
    requires |list| < MAX_LENGTH && |Encode(TAG_SEQUENCE, list) + junk| < MAX_LENGTH
    ensures FindExtensions(EncodeAll(extras) + (Encode(TAG_EXTENSIONS, Encode(TAG_SEQUENCE, list) + junk) + rest))
         == Some(list)
  {
    hide Split, Encode, FromBe;
    var last := Encode(TAG_EXTENSIONS, Encode(TAG_SEQUENCE, list) + junk) + rest;
    if extras == [] {
      assert EncodeAll(extras) + last == last;
      SplitEncode(TAG_EXTENSIONS, Encode(TAG_SEQUENCE, list) + junk, rest);
      SplitEncode(TAG_SEQUENCE, list, junk);
    } else {
      SplitEncode(extras[0].tag, extras[0].contents, EncodeAll(extras[1..]) + last);
      assert EncodeAll(extras) + last == Encode(extras[0].tag, extras[0].contents) + (EncodeAll(extras[1..]) + last);
      FindEncodeAll(extras[1..], list, junk, rest);
    }
  }

  /** An extension with another OID, and whatever it holds. */
  datatype Other = Other(oid: seq<byte>, value: seq<byte>)

  predicate OthersOk(others: seq<Other>) {
    forall o :: o in others ==>
      o.oid != AAGUID_OID && |o.oid| < MAX_LENGTH && |Encode(TAG_OID, o.oid) + o.value| < MAX_LENGTH
  }

  function EncodeOthers(others: seq<Other>): seq<byte>
    requires OthersOk(others)
  {
    if others == [] then []
    else Encode(TAG_SEQUENCE, Encode(TAG_OID, others[0].oid) + others[0].value) + EncodeOthers(others[1..])
  }

  /** The AAGUID extension, with or without an explicit `critical FALSE`. */
  function AaguidValue(aaguid: seq<byte>, explicit: bool): seq<byte>
    requires |aaguid| == 16
  {
    (if explicit then Encode(TAG_BOOLEAN, [0]) else []) + Encode(TAG_OCTET_STRING, Encode(TAG_OCTET_STRING, aaguid))
  }

  function AaguidExtension(aaguid: seq<byte>, explicit: bool): seq<byte>
    requires |aaguid| == 16
  {
    Encode(TAG_SEQUENCE, Encode(TAG_OID, AAGUID_OID) + AaguidValue(aaguid, explicit))
  }

  lemma AaguidSize(aaguid: seq<byte>, explicit: bool)
    requires |aaguid| == 16
    ensures |Encode(TAG_OID, AAGUID_OID) + AaguidValue(aaguid, explicit)| < MAX_LENGTH
  {
  }

  lemma ValueRoundTrip(aaguid: seq<byte>, explicit: bool)
    requires |aaguid| == 16
    ensures Value(AaguidValue(aaguid, explicit)) == Some(aaguid)
  {
    var inner := Encode(TAG_OCTET_STRING, aaguid);
    var octets := Encode(TAG_OCTET_STRING, inner);
    SplitEncode(TAG_OCTET_STRING, aaguid, []);
    assert inner + [] == inner;
    SplitEncode(TAG_OCTET_STRING, inner, []);
    assert octets + [] == octets;
    if explicit {
      SplitEncode(TAG_BOOLEAN, [0], octets);
    } else {
      assert [] + octets == octets;
    }
  }

  /** An extension with another OID is passed over, the AAGUID's is read. */
  lemma SearchStep(oid: seq<byte>, value: seq<byte>, tail: seq<byte>)
    requires |oid| < MAX_LENGTH && |Encode(TAG_OID, oid) + value| < MAX_LENGTH
    ensures Search(Encode(TAG_SEQUENCE, Encode(TAG_OID, oid) + value) + tail)
         == if oid == AAGUID_OID then Value(value) else Search(tail)
  {
    hide Split, Encode, FromBe, Value;
    SplitEncode(TAG_SEQUENCE, Encode(TAG_OID, oid) + value, tail);
    SplitEncode(TAG_OID, oid, value);
  }

  lemma {:induction false} SearchEncodeOthers(others: seq<Other>, rest: seq<byte>)
    requires OthersOk(others)
    ensures Search(EncodeOthers(others) + rest) == Search(rest)
  {
    hide Value, Encode, Search;
    if others == [] {
      assert EncodeOthers(others) + rest == rest;
    } else {
      var first := Encode(TAG_SEQUENCE, Encode(TAG_OID, others[0].oid) + others[0].value);
      SearchStep(others[0].oid, others[0].value, EncodeOthers(others[1..]) + rest);
      assert EncodeOthers(others) + rest == first + (EncodeOthers(others[1..]) + rest);
      SearchEncodeOthers(others[1..], rest);
    }
  }

  lemma SearchAaguid(aaguid: seq<byte>, explicit: bool, more: seq<byte>)
    requires |aaguid| == 16
    ensures Search(AaguidExtension(aaguid, explicit) + more) == Some(aaguid)
  {
    AaguidSize(aaguid, explicit);
    hide Value, Encode, Search, AaguidValue;
    SearchStep(AAGUID_OID, AaguidValue(aaguid, explicit), more);
    ValueRoundTrip(aaguid, explicit);
  }

  /** A TBSCertificate: its fields, unique IDs if any, and extensions. */
  function Tbs(fields: seq<Field>, extras: seq<Field>, list: seq<byte>, junk: seq<byte>, rest: seq<byte>): seq<byte>
    requires Short(fields) && Short(extras) && |list| < MAX_LENGTH && |Encode(TAG_SEQUENCE, list) + junk| < MAX_LENGTH
  {
    EncodeAll(fields) + (EncodeAll(extras) + (Encode(TAG_EXTENSIONS, Encode(TAG_SEQUENCE, list) + junk) + rest))
  }

  /** Whatever a certificate holds besides, the AAGUID put in it is found. */
  lemma CertificateRoundTrip(fields: seq<Field>, extras: seq<Field>, others: seq<Other>,
                             aaguid: seq<byte>, explicit: bool,
                             more: seq<byte>, junk: seq<byte>, rest: seq<byte>,
                             signature: seq<byte>, trailing: seq<byte>)
    requires Short(fields) && Short(extras) && OthersOk(others) && |aaguid| == 16
    requires |fields| == (if fields != [] && fields[0].tag == TAG_VERSION then 7 else 6)
    requires forall f :: f in extras ==> f.tag != TAG_EXTENSIONS
    requires var list := EncodeOthers(others) + (AaguidExtension(aaguid, explicit) + more);
             && |list| < MAX_LENGTH && |Encode(TAG_SEQUENCE, list) + junk| < MAX_LENGTH
             && |Tbs(fields, extras, list, junk, rest)| < MAX_LENGTH
             && |Encode(TAG_SEQUENCE, Tbs(fields, extras, list, junk, rest)) + signature| < MAX_LENGTH
    ensures var list := EncodeOthers(others) + (AaguidExtension(aaguid, explicit) + more);
            var tbs := Tbs(fields, extras, list, junk, rest);
            Aaguid(Encode(TAG_SEQUENCE, Encode(TAG_SEQUENCE, tbs) + signature) + trailing) == Some(aaguid)
  {
    hide Search, Value, FindExtensions, Split, FromBe, LengthOctets, AaguidExtension;
    var list := EncodeOthers(others) + (AaguidExtension(aaguid, explicit) + more);
    var tbs := Tbs(fields, extras, list, junk, rest);
    SplitEncode(TAG_SEQUENCE, Encode(TAG_SEQUENCE, tbs) + signature, trailing);
    SplitEncode(TAG_SEQUENCE, tbs, signature);
    assert tbs[0] == fields[0].tag;
    SkipEncodeAll(fields, tbs[|EncodeAll(fields)|..]);
    assert tbs[|EncodeAll(fields)|..]
        == EncodeAll(extras) + (Encode(TAG_EXTENSIONS, Encode(TAG_SEQUENCE, list) + junk) + rest);
    FindEncodeAll(extras, list, junk, rest);
    SearchEncodeOthers(others, AaguidExtension(aaguid, explicit) + more);
    SearchAaguid(aaguid, explicit, more);
  }
}
