/** Deriving an ECDSA private scalar from extra random bits (Appendix A.2.1 of
    FIPS 186-5): its range, and how evenly the scalars are hit. */
module Ecdsa {
  import opened Bytes
  import opened Numbers

  const BUFFER := 80

  /** Zeros in front change nothing. */
  lemma {:induction false} LeadingZeros(pad: nat, bytes: seq<byte>)
    ensures FromBe(Zeros(pad) + bytes) == FromBe(bytes)
  {
    var all := Zeros(pad) + bytes;
    if bytes != [] {
      LeadingZeros(pad, bytes[..|bytes| - 1]);
      assert all[..|all| - 1] == Zeros(pad) + bytes[..|bytes| - 1];
    } else if pad > 0 {
      LeadingZeros(pad - 1, []);
      assert all[..|all| - 1] == Zeros(pad - 1) + [];
    }
  }

  // ---------------------------------------------------------------- the reduction

  /** The scalar a number is reduced to, on a curve of order `n`. */
  function Reduce(c: nat, n: nat): (d: nat)
    requires n >= 2
    ensures 1 <= d <= n - 1
  {
    c % (n - 1) + 1
  }

  /** How many numbers below `total` are reduced to `d`. */
  function Preimages(total: nat, n: nat, d: nat): nat
    requires n >= 2
  {
    if total == 0 then 0 else Preimages(total - 1, n, d) + if Reduce(total - 1, n) == d then 1 else 0
  }

  lemma Distributes(m: nat, a: int, b: int)
    ensures (a - b) * m == a * m - b * m
  {
  }

  lemma {:induction false} AtLeastOnce(m: nat, k: nat)
    requires k >= 1
    ensures k * m >= m
  {
    if k > 1 {
      AtLeastOnce(m, k - 1);
      Distributes(m, k, 1);
    }
  }

  lemma RemainderUnique(x: nat, m: nat, q: nat, r: nat)
    requires x == q * m + r && r < m
    ensures x % m == r && x / m == q
  {
    var q' := x / m;
    assert x == q' * m + x % m;
    Distributes(m, q, q');
    Distributes(m, q', q);
    if q > q' {
      AtLeastOnce(m, q - q');
    } else if q < q' {
      AtLeastOnce(m, q' - q);
    }
  }

  /** Over `q` whole rounds of the n - 1 scalars and the first `s` of another,
      the first `s` scalars are hit once more than the rest. */
  lemma {:induction false} PreimagesOf(q: nat, s: nat, n: nat, d: nat)
    requires n >= 2 && 1 <= d <= n - 1 && s <= n - 1
    ensures Preimages(Times(q, n - 1) + s, n, d) == q + if d <= s then 1 else 0
    decreases q, s
  {
    var m := n - 1;
    if s > 0 {
      PreimagesOf(q, s - 1, n, d);
      RemainderUnique(Times(q, m) + (s - 1), m, q, s - 1);
    } else if q > 0 {
      PreimagesOf(q - 1, m, n, d);
      Distributes(m, q, 1);
    }
  }

  function Quotient(x: nat, m: nat): (q: nat)
    requires m >= 1
    ensures Times(q, m) <= x < Times(q, m) + m
  {
    QuotientOk(x, m);
    x / m
  }

  lemma QuotientOk(x: nat, m: nat)
    requires m >= 1
    ensures x / m >= 0 && Times(x / m, m) <= x < Times(x / m, m) + m
  {
    assert x == x / m * m + x % m;
    if x / m < 0 {
      Distributes(m, 0, x / m);
      AtLeastOnce(m, -(x / m));
    }
  }

  /** Every scalar is hit by the floor or the ceiling of the average. */
  lemma PreimagesEven(total: nat, n: nat, d: nat)
    requires n >= 2 && 1 <= d <= n - 1
    ensures var q := Quotient(total, n - 1);
            Preimages(total, n, d) == q + if d <= total - Times(q, n - 1) then 1 else 0
  {
    hide Times, Preimages;
    var q := Quotient(total, n - 1);
    PreimagesOf(q, total - Times(q, n - 1), n, d);
  }

  lemma {:induction false} Pow2Adds(a: nat, b: nat)
    ensures Pow2(a + b) == Times(Pow2(a), Pow2(b))
  {
    if a > 0 {
      Pow2Adds(a - 1, b);
      TimesDoubles(Pow2(a - 1), Pow2(b));
    }
  }

  lemma TimesGrows(x: nat, x': nat, y: nat, y': nat)
    requires x <= x' && y <= y'
    ensures Times(x, y) <= Times(x', y')
  {
    assert x * y <= x' * y;
    assert x' * y <= x' * y';
  }

  /** Sixty-four bits more than the order has: each scalar is hit at least 2^64
      times, so no two differ by more than one part in 2^64. */
  lemma BiasBound(n: nat, bits: nat, length: nat, d1: nat, d2: nat)
    requires 2 <= n < Pow2(bits) && 8 * length >= bits + 64
    requires 1 <= d1 <= n - 1 && 1 <= d2 <= n - 1
    ensures var total := Pow2(8 * length);
            && Preimages(total, n, d2) >= Pow2(64)
            && Times(Preimages(total, n, d1), Pow2(64)) <= Times(Preimages(total, n, d2), Pow2(64) + 1)
  {
    hide Times, Preimages, Pow2, Quotient;
    var total, m, k := Pow2(8 * length), n - 1, Pow2(64);
    var q := Quotient(total, m);
    PreimagesEven(total, n, d1);
    PreimagesEven(total, n, d2);
    Pow2Adds(64, bits);
    Pow2Grows(64 + bits, 8 * length);
    TimesGrows(k, k, m, Pow2(bits));
    AtLeast(total, m, q, k);
    OneMore(q, k);
    TimesGrows(Preimages(total, n, d1), q + 1, k, k);
    TimesGrows(q, Preimages(total, n, d2), k + 1, k + 1);
  }

  lemma AtLeast(total: nat, m: nat, q: nat, k: nat)
    requires Times(k, m) <= total < Times(q, m) + m
    ensures q >= k
  {
    if q < k {
      TimesGrows(q + 1, k, m, m);
      Distributes(m, q + 1, 1);
    }
  }

  lemma OneMore(q: nat, k: nat)
    requires k <= q
    ensures Times(q + 1, k) <= Times(q, k + 1)
  {
    Distributes(k, q + 1, 1);
    assert q * (k + 1) == q * k + q;
  }

  // ---------------------------------------------------------------- the derivation

  datatype Derived = KeyDerivationError | Scalar(d: nat)

  /** Whole bytes that hold 64 bits more than the order has. */
  function Length(n: nat): nat {
    (BitLen(n) + 64 + 7) / 8
  }

  /** The buffer of 80 bytes serves every order of up to 576 bits. */
  lemma LengthFits(n: nat)
    ensures Length(n) <= BUFFER <==> BitLen(n) <= 576
    ensures BitLen(n) + 64 <= 8 * Length(n) < BitLen(n) + 64 + 8
  {
  }

  /** `derive_scalar`, on a curve of order `n`, with `xof` the output of the
      extendable hash: a scalar of the curve whenever the bits fit the buffer,
      that of the first bytes of the output. */
  method DeriveScalar(n: nat, xof: nat -> seq<byte>) returns (r: Derived)
    requires n >= 1 && forall k :: |xof(k)| == k
    ensures r.Scalar? <==> n >= 2 && Length(n) <= BUFFER
    ensures r.Scalar? ==> r.d == Reduce(FromBe(xof(Length(n))), n)
    ensures r.Scalar? ==> 1 <= r.d <= n - 1
  {
    if n - 1 == 0 {
      return KeyDerivationError;
    }
    var length := Length(n);
    if BUFFER < length {
      return KeyDerivationError;
    }
    var start := BUFFER - length;
    var returnedBits := Zeros(start) + xof(length);
    LeadingZeros(start, xof(length));
    var c := FromBe(returnedBits);
    r := Scalar(c % (n - 1) + 1);
  }

  /** Together: over all outputs of the hash, every scalar is as likely as any
      other to within one part in 2^64. */
  lemma DerivationUniform(n: nat, d1: nat, d2: nat)
    requires n >= 2 && 1 <= d1 <= n - 1 && 1 <= d2 <= n - 1
    ensures var total := Pow2(8 * Length(n));
            Times(Preimages(total, n, d1), Pow2(64)) <= Times(Preimages(total, n, d2), Pow2(64) + 1)
    ensures forall bytes: seq<byte> :: |bytes| == Length(n) ==>
              FromBe(bytes) < Pow2(8 * Length(n)) && ToBe(FromBe(bytes), Length(n)) == bytes
  {
    hide Times, Preimages, Pow2;
    BiasBound(n, BitLen(n), Length(n), d1, d2);
    forall bytes: seq<byte> | |bytes| == Length(n)
      ensures FromBe(bytes) < Pow2(8 * Length(n)) && ToBe(FromBe(bytes), Length(n)) == bytes
    {
      FromBeBijective(bytes);
    }
  }
}
