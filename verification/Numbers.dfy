/** Powers of two, bit lengths and big-endian numbers. */
module Numbers {
  import opened Bytes

  function Times(x: nat, y: nat): nat {
    x * y
  }

  function Pow2(n: nat): (p: nat)
    ensures p >= 1
  {
    if n == 0 then 1 else 2 * Pow2(n - 1)
  }

  /** A byte string read big-endian. */
  function FromBe(bytes: seq<byte>): nat {
    if bytes == [] then 0 else 256 * FromBe(bytes[..|bytes| - 1]) + bytes[|bytes| - 1] as int
  }

  function ToBe(x: nat, length: nat): (bytes: seq<byte>)
    ensures |bytes| == length
  {
    if length == 0 then [] else ToBe(x / 256, length - 1) + [x % 256]
  }

  /** The strings of a length stand for the numbers below a power of two, each
      for one. */
  lemma {:induction false} FromBeBijective(bytes: seq<byte>)
    ensures FromBe(bytes) < Pow2(8 * |bytes|) && ToBe(FromBe(bytes), |bytes|) == bytes
  {
    if bytes != [] {
      var init := bytes[..|bytes| - 1];
      FromBeBijective(init);
      Pow2Steps(8 * |init|);
      assert bytes == init + [bytes[|bytes| - 1]];
      assert FromBe(bytes) / 256 == FromBe(init);
    }
  }

  lemma {:induction false} ToBeBijective(x: nat, length: nat)
    requires x < Pow2(8 * length)
    ensures FromBe(ToBe(x, length)) == x
  {
    if length > 0 {
      Pow2Steps(8 * (length - 1));
      ToBeBijective(x / 256, length - 1);
      var bytes := ToBe(x, length);
      assert bytes[..length - 1] == ToBe(x / 256, length - 1);
    }
  }

  lemma Pow2Steps(n: nat)
    ensures Pow2(n + 8) == 256 * Pow2(n)
  {
    assert Pow2(n + 2) == 4 * Pow2(n);
    assert Pow2(n + 4) == 4 * Pow2(n + 2);
    assert Pow2(n + 6) == 4 * Pow2(n + 4);
    assert Pow2(n + 8) == 4 * Pow2(n + 6);
  }

  lemma TimesDoubles(x: nat, y: nat)
    ensures Times(2 * x, y) == 2 * Times(x, y) && Times(1, y) == y
  {
  }

  lemma {:induction false} Pow2Grows(a: nat, b: nat)
    requires a <= b
    ensures Pow2(a) <= Pow2(b)
  {
    if a < b {
      Pow2Grows(a, b - 1);
    }
  }

  /** The bits that hold every number up to `n`: a word's less its leading
      zeros. */
  function BitLen(n: nat): (b: nat)
    ensures n < Pow2(b) && (n > 0 ==> b > 0 && Pow2(b - 1) <= n)
  {
    if n == 0 then 0 else 1 + BitLen(n / 2)
  }
}
