/** The check of an expanded ML-DSA secret key: the secret vectors are packed
    as `BitPack` of FIPS 204 packs them, and must unpack to small numbers. */
module MlDsa {
  import opened Bytes
  import opened Numbers

  const HEADER_LEN := 32 + 32 + 64
  const COEFFICIENTS := 256

  datatype ParamSet = MLDSA44 | MLDSA65 | MLDSA87 {
    /** The bound on a coefficient, and the number of secret polynomials. */
    function SecretVectorLayout(): (nat, nat) {
      match this
      case MLDSA44 => (2, 4 + 4)
      case MLDSA65 => (4, 6 + 5)
      case MLDSA87 => (2, 8 + 7)
    }
  }

  // ---------------------------------------------------------------- the standard's reading

  /** BytesToBits: least significant bit first. */
  function Bits(bytes: seq<byte>): (b: seq<bool>)
    ensures |b| == 8 * |bytes|
  {
    if bytes == [] then [] else ByteBits(bytes[0], 8) + Bits(bytes[1..])
  }

  function ByteBits(x: nat, n: nat): (b: seq<bool>)
    ensures |b| == n
  {
    if n == 0 then [] else [x % 2 == 1] + ByteBits(x / 2, n - 1)
  }

  /** BitsToInteger. */
  function ToInteger(bits: seq<bool>): nat {
    if bits == [] then 0 else (if bits[0] then 1 else 0) + 2 * ToInteger(bits[1..])
  }

  /** The raw field of `bits` bits at bit `at`. */
  function Field(packed: seq<byte>, at: nat, bits: nat): nat
    requires at + bits <= 8 * |packed|
  {
    ToInteger(Bits(packed)[at..at + bits])
  }

  /** Every one of the first `count` coefficients is at most `max`. */
  ghost predicate InRange(packed: seq<byte>, bits: nat, count: nat, max: nat)
  {
    forall j {:trigger Times(j, bits)} :: 0 <= j < count ==>
      && Times(j, bits) + bits <= 8 * |packed|
      && Field(packed, Times(j, bits), bits) <= max
  }

  /** A key that `BitUnpack` can have been given by an honest `BitPack`. */
  ghost predicate WellFormed(ps: ParamSet, sk: seq<byte>) {
    var (eta, polynomials) := ps.SecretVectorLayout();
    var bits, count := BitLen(2 * eta), polynomials * COEFFICIENTS;
    LayoutFits(ps);
    && HEADER_LEN + count * bits / 8 <= |sk|
    && var packed := sk[HEADER_LEN..HEADER_LEN + count * bits / 8];
    && Times(count, bits) == 8 * |packed|
    && InRange(packed, bits, count, 2 * eta)
  }

  // ---------------------------------------------------------------- bits and numbers

  lemma {:induction false} ToIntegerBound(bits: seq<bool>)
    ensures ToInteger(bits) < Pow2(|bits|)
  {
    if bits != [] {
      ToIntegerBound(bits[1..]);
    }
  }

  lemma {:induction false} ToIntegerAppends(a: seq<bool>, b: seq<bool>)
    ensures ToInteger(a + b) == ToInteger(a) + Times(Pow2(|a|), ToInteger(b))
  {
    hide Times;
    TimesDoubles(Pow2(if a == [] then 0 else |a| - 1), ToInteger(b));
    if a == [] {
      assert a + b == b;
    } else {
      assert (a + b)[1..] == a[1..] + b;
      ToIntegerAppends(a[1..], b);
    }
  }

  /** The low `n` bits. */
  function Low(x: nat, n: nat): nat {
    if n == 0 then 0 else x % 2 + 2 * Low(x / 2, n - 1)
  }

  /** `x >> n`: the bits above them. */
  function High(x: nat, n: nat): nat {
    if n == 0 then x else High(x / 2, n - 1)
  }

  /** The mask takes the low bits and the shift leaves the others. */
  lemma {:induction false} ToIntegerSplits(bits: seq<bool>, n: nat)
    requires n <= |bits|
    ensures Low(ToInteger(bits), n) == ToInteger(bits[..n]) && High(ToInteger(bits), n) == ToInteger(bits[n..])
  {
    if n > 0 {
      ToIntegerSplits(bits[1..], n - 1);
      assert ToInteger(bits) / 2 == ToInteger(bits[1..]) && (ToInteger(bits) % 2 == 1 <==> bits[0]);
      assert bits[..n][1..] == bits[1..][..n - 1] && bits[n..] == bits[1..][n - 1..];
    } else {
      assert bits[n..] == bits;
    }
  }

  lemma {:induction false} ByteBitsRoundTrip(x: nat, n: nat)
    requires x < Pow2(n)
    ensures ToInteger(ByteBits(x, n)) == x
  {
    if n > 0 {
      ByteBitsRoundTrip(x / 2, n - 1);
      assert ByteBits(x, n)[1..] == ByteBits(x / 2, n - 1);
    }
  }

  lemma {:induction false} BitsAppend(bytes: seq<byte>, x: byte)
    ensures Bits(bytes + [x]) == Bits(bytes) + ByteBits(x, 8)
  {
    if bytes == [] {
      assert bytes + [x] == [x] && [x][1..] == [];
    } else {
      assert (bytes + [x])[1..] == bytes[1..] + [x];
      BitsAppend(bytes[1..], x);
    }
  }

  lemma {:induction false} BitsPrefix(bytes: seq<byte>, i: nat)
    requires i <= |bytes|
    ensures Bits(bytes[..i]) == Bits(bytes)[..8 * i]
    decreases |bytes| - i
  {
    if i < |bytes| {
      BitsPrefix(bytes, i + 1);
      BitsAppend(bytes[..i], bytes[i]);
      assert bytes[..i] + [bytes[i]] == bytes[..i + 1];
    } else {
      assert bytes[..i] == bytes;
    }
  }

  // ---------------------------------------------------------------- machine words

  const WORD := 0x1_0000_0000

  /** `x & y`. */
  function And(x: nat, y: nat): nat {
    if x == 0 || y == 0 then 0
    else (if x % 2 == 1 && y % 2 == 1 then 1 else 0) + 2 * And(x / 2, y / 2)
  }

  /** `x | y`. */
  function Or(x: nat, y: nat): nat {
    if x == 0 then y
    else if y == 0 then x
    else (if x % 2 == 1 || y % 2 == 1 then 1 else 0) + 2 * Or(x / 2, y / 2)
  }

  /** `x << n` on 32-bit words: what is shifted out is lost. */
  function Shl(x: nat, n: nat): nat
    decreases n
  {
    if n == 0 then x else Shl(2 * x % WORD, n - 1)
  }

  /** Masking takes the low bits. */
  lemma {:induction false} MaskIsLow(x: nat, n: nat)
    ensures And(x, Pow2(n) - 1) == Low(x, n)
  {
    if n > 0 {
      MaskIsLow(x / 2, n - 1);
      assert (Pow2(n) - 1) / 2 == Pow2(n - 1) - 1 && (Pow2(n) - 1) % 2 == 1;
      if x == 0 {
        LowOfZero(n);
      } else if Pow2(n - 1) == 1 {
        assert And(x / 2, 0) == 0;
      }
    }
  }

  lemma {:induction false} LowOfZero(n: nat)
    ensures Low(0, n) == 0
  {
    if n > 0 {
      LowOfZero(n - 1);
    }
  }

  /** Or-ing a number in above the bits held adds it. */
  lemma {:induction false} OrAdds(acc: nat, held: nat, x: nat)
    requires acc < Pow2(held)
    ensures Or(acc, Times(Pow2(held), x)) == acc + Times(Pow2(held), x)
  {
    hide Times;
    if held > 0 {
      TimesDoubles(Pow2(held - 1), x);
      OrAdds(acc / 2, held - 1, x);
    }
  }

  /** A shift that loses nothing multiplies. */
  lemma {:induction false} ShlMultiplies(x: nat, n: nat)
    requires Times(Pow2(n), x) < WORD
    ensures Shl(x, n) == Times(Pow2(n), x)
    decreases n
  {
    hide Times;
    if n == 0 {
      TimesDoubles(1, x);
    } else {
      TimesShifts(Pow2(n - 1), x);
      ShlMultiplies(2 * x, n - 1);
    }
  }

  lemma TimesShifts(p: nat, x: nat)
    requires p >= 1
    ensures Times(2 * p, x) == Times(p, 2 * x) && 2 * x <= Times(p, 2 * x)
  {
    assert Times(p, 2 * x) == Times(p - 1, 2 * x) + 2 * x;
  }

  /** So on words of the accumulator's size the machine's operations take a byte
      in, the next field off and leave the rest, and lose no bit. */
  lemma MachineWord(acc: nat, x: byte, held: nat, bits: nat)
    requires held < 4 && acc < Pow2(held) && bits <= 4
    ensures Or(acc, Shl(x, held)) == acc + Times(Pow2(held), x) < 0x800
    ensures Shl(1, bits) == Pow2(bits)
    ensures forall word: nat :: And(word, Shl(1, bits) - 1) == Low(word, bits)
  {
    assert Pow2(3) == 8 && Pow2(4) == 16;
    Pow2Grows(held, 3);
    assert Times(Pow2(held), x) <= 8 * 255;
    ShlMultiplies(x, held);
    OrAdds(acc, held, x);
    Pow2Grows(bits, 4);
    ShlMultiplies(1, bits);
    forall word: nat ensures And(word, Shl(1, bits) - 1) == Low(word, bits) {
      MaskIsLow(word, bits);
    }
  }

  /** With `i` bytes read and the fields before bit `at` checked, the
      accumulator holds the bits between. */
  ghost predicate Holds(packed: seq<byte>, i: nat, at: nat, acc: nat, held: nat) {
    i <= |packed| && at + held == 8 * i && acc == ToInteger(Bits(packed)[at..8 * i])
  }

  lemma SliceExtends<T>(s: seq<T>, a: nat, b: nat, c: nat, t: seq<T>)
    requires a <= b <= c <= |s| && s[..c] == s[..b] + t
    ensures s[a..c] == s[a..b] + t
  {
    assert s[a..c] == s[..c][a..] && s[a..b] == s[..b][a..];
  }

  lemma SliceSplits<T>(s: seq<T>, a: nat, b: nat, n: nat)
    requires a + n <= b <= |s|
    ensures s[a..b][..n] == s[a..a + n] && s[a..b][n..] == s[a + n..b]
  {
  }

  lemma NextBits(packed: seq<byte>, i: nat, at: nat)
    requires i < |packed| && at <= 8 * i
    ensures Bits(packed)[at..8 * (i + 1)] == Bits(packed)[at..8 * i] + ByteBits(packed[i], 8)
  {
    PrefixBits(packed, i);
    hide *;
    SliceExtends(Bits(packed), at, 8 * i, 8 * (i + 1), ByteBits(packed[i], 8));
  }

  lemma PrefixBits(packed: seq<byte>, i: nat)
    requires i < |packed|
    ensures Bits(packed)[..8 * (i + 1)] == Bits(packed)[..8 * i] + ByteBits(packed[i], 8)
  {
    hide Bits, ByteBits;
    BitsPrefix(packed, i);
    BitsPrefix(packed, i + 1);
    BitsAppend(packed[..i], packed[i]);
    assert packed[..i] + [packed[i]] == packed[..i + 1];
  }

  lemma HoldsByte(packed: seq<byte>, i: nat, at: nat, acc: nat, held: nat)
    requires Holds(packed, i, at, acc, held) && i < |packed|
    ensures Holds(packed, i + 1, at, acc + Times(Pow2(held), packed[i]), held + 8)
  {
    hide Times, Bits, ByteBits, ToInteger;
    NextBits(packed, i, at);
    ToIntegerAppends(Bits(packed)[at..8 * i], ByteBits(packed[i], 8));
    assert Pow2(8) == 256;
    ByteBitsRoundTrip(packed[i], 8);
  }

  lemma HoldsField(packed: seq<byte>, i: nat, at: nat, acc: nat, held: nat, bits: nat)
    requires Holds(packed, i, at, acc, held) && bits <= held
    ensures Low(acc, bits) == Field(packed, at, bits)
    ensures Holds(packed, i, at + bits, High(acc, bits), held - bits)
  {
    hide Bits, ToInteger, Low, High;
    ToIntegerSplits(Bits(packed)[at..8 * i], bits);
    SliceSplits(Bits(packed), at, 8 * i, bits);
    assert at + bits + (held - bits) == 8 * i;
  }

  lemma HoldsBound(packed: seq<byte>, i: nat, at: nat, acc: nat, held: nat)
    requires Holds(packed, i, at, acc, held)
    ensures acc < Pow2(held)
  {
    ToIntegerBound(Bits(packed)[at..8 * i]);
  }

  // ---------------------------------------------------------------- the check

  /** `expanded_key_is_well_formed`: the streaming check accepts exactly the
      well-formed keys. */
  method ExpandedKeyIsWellFormed(ps: ParamSet, sk: seq<byte>) returns (ok: bool)
    ensures ok <==> WellFormed(ps, sk)
  {
    var (eta, polynomials) := ps.SecretVectorLayout();
    var max := 2 * eta;
    var bits := BitLen(max);
    var count := polynomials * COEFFICIENTS;
    var len := count * bits / 8;
    LayoutFits(ps);
    if |sk| < HEADER_LEN + len {
      return false;
    }
    var packed := sk[HEADER_LEN..HEADER_LEN + len];
    ghost var held, peak;
    ok, held, peak := AllInRange(packed, bits, max, count);
  }

  lemma LayoutFits(ps: ParamSet)
    ensures var (eta, polynomials) := ps.SecretVectorLayout();
            var bits, count := BitLen(2 * eta), polynomials * COEFFICIENTS;
            (bits == 3 || bits == 4) && Times(count, bits) == 8 * (count * bits / 8)
  {
    assert BitLen(4) == 3 && BitLen(8) == 4;
  }

  /** The loop over the packed fields: it ends with no bit held, and never held
      more than 11. */
  method AllInRange(packed: seq<byte>, bits: nat, max: nat, ghost count: nat)
    returns (ok: bool, ghost held: nat, ghost peak: nat)
    requires (bits == 3 || bits == 4) && Times(count, bits) == 8 * |packed|
    ensures ok <==> InRange(packed, bits, count, max)
    ensures held == 0 && peak < 0x800
  {
    hide Times, Pow2, Bits, ToInteger, Field, Low, High, And, Or, Shl;
    var acc: nat, accBits: nat, outOfRange: nat := 0, 0, 0;
    var mask := Mask(bits);
    ghost var c: nat, at: nat := 0, 0;
    peak := 0;
    TimesSteps(bits);
    Empty(packed);
    for i := 0 to |packed|
      invariant Holds(packed, i, at, acc, accBits) && accBits < bits && at == Times(c, bits)
      invariant outOfRange in {0, 1} && (outOfRange == 0 <==> InRange(packed, bits, c, max)) && peak < 0x800
    {
      HoldsByte(packed, i, at, acc, accBits);
      HoldsBound(packed, i, at, acc, accBits);
      MachineWord(acc, packed[i], accBits, bits);
      acc := Or(acc, Shl(packed[i], accBits));
      peak := if acc > peak then acc else peak;
      accBits := accBits + 8;
      while accBits >= bits
        invariant Holds(packed, i + 1, at, acc, accBits) && at == Times(c, bits) && accBits < 12
        invariant outOfRange in {0, 1} && (outOfRange == 0 <==> InRange(packed, bits, c, max)) && peak < 0x800
      {
        WordFits(packed, i + 1, at, acc, accBits);
        HoldsField(packed, i + 1, at, acc, accBits, bits);
        CheckedNext(packed, bits, c, max);
        Flag(outOfRange, And(acc, mask) > max);
        outOfRange := Or(outOfRange, if And(acc, mask) > max then 1 else 0);
        acc := High(acc, bits);
        accBits := accBits - bits;
        at, c := at + bits, c + 1;
      }
    }
    TimesOrdered(c, count, bits);
    ok, held := outOfRange == 0, accBits;
  }

  function Mask(bits: nat): (m: nat)
    requires bits <= 4
    ensures forall word: nat :: And(word, m) == Low(word, bits)
  {
    MachineWord(0, 0, 0, bits);
    Shl(1, bits) - 1
  }

  lemma Flag(flags: nat, raised: bool)
    requires flags in {0, 1}
    ensures var f := Or(flags, if raised then 1 else 0); f in {0, 1} && (f == 0 <==> flags == 0 && !raised)
  {
  }

  lemma Empty(packed: seq<byte>)
    ensures Holds(packed, 0, 0, 0, 0)
  {
    assert Bits(packed)[0..0] == [];
  }

  lemma CheckedNext(packed: seq<byte>, bits: nat, c: nat, max: nat)
    requires Times(c, bits) + bits <= 8 * |packed|
    ensures Times(c + 1, bits) == Times(c, bits) + bits
    ensures InRange(packed, bits, c + 1, max) <==>
              InRange(packed, bits, c, max) && Field(packed, Times(c, bits), bits) <= max
  {
    hide Bits, ToInteger, Field;
    assert Times(c + 1, bits) == Times(c, bits) + bits;
  }

  lemma WordFits(packed: seq<byte>, i: nat, at: nat, acc: nat, held: nat)
    requires Holds(packed, i, at, acc, held) && held < 12
    ensures acc < 0x800
  {
    HoldsBound(packed, i, at, acc, held);
    Pow2Grows(held, 11);
    assert Pow2(11) == 0x800;
  }

  lemma TimesSteps(bits: nat)
    ensures Times(0, bits) == 0
  {
  }

  /** All the bits are used up when all the coefficients are. */
  lemma TimesOrdered(c: nat, count: nat, bits: nat)
    requires bits >= 3 && Times(count, bits) - bits < Times(c, bits) <= Times(count, bits)
    ensures c == count && Times(c, bits) == Times(count, bits)
  {
    if c < count {
      TimesGrows(c + 1, count, bits);
    } else if c > count {
      TimesGrows(count + 1, c, bits);
    }
  }

  lemma {:induction false} TimesGrows(m: nat, n: nat, bits: nat)
    requires m <= n
    ensures Times(m, bits) <= Times(n, bits)
    ensures Times(m + 1, bits) == Times(m, bits) + bits
    decreases n - m
  {
    if m < n {
      TimesGrows(m + 1, n, bits);
    }
  }
}
