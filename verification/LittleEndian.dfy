/** The bytes of a `std::size_t`: eight base-256 digits, least significant first. */
module LittleEndian {

  type byte = b: int | 0 <= b < 256

  /** One more than the largest `std::size_t`. */
  const SIZE_LIMIT: int := 0x1_0000_0000_0000_0000

  /** One more than the largest `std::streamsize`. */
  const SIGNED_LIMIT: int := 0x8000_0000_0000_0000

  function Power256(k: nat): (r: nat)
    ensures 0 < r
  {
    if k == 0 then 1 else 256 * Power256(k - 1)
  }

  lemma Power256Of8()
    ensures Power256(8) == SIZE_LIMIT
  {
    assert Power256(2) == 0x1_0000;
    assert Power256(4) == 256 * (256 * Power256(2));
    assert Power256(6) == 256 * (256 * Power256(4));
    assert Power256(8) == 256 * (256 * Power256(6));
  }

  function Digits(n: nat, k: nat): (bs: seq<byte>)
    requires n < Power256(k)
    ensures |bs| == k
  {
    if k == 0 then [] else [n % 256] + Digits(n / 256, k - 1)
  }

  function Value(bs: seq<byte>): (n: nat)
    ensures n < Power256(|bs|)
  {
    if bs == [] then 0 else bs[0] + 256 * Value(bs[1..])
  }

  lemma {:induction false} ValueOfDigits(n: nat, k: nat)
    requires n < Power256(k)
    ensures Value(Digits(n, k)) == n
  {
    if k != 0 {
      ValueOfDigits(n / 256, k - 1);
      assert Digits(n, k)[1..] == Digits(n / 256, k - 1);
    }
  }

  lemma {:induction false} DigitsOfValue(bs: seq<byte>)
    ensures Digits(Value(bs), |bs|) == bs
  {
    if bs != [] {
      DigitsOfValue(bs[1..]);
      assert Value(bs) % 256 == bs[0] && Value(bs) / 256 == Value(bs[1..]);
    }
  }

  /** Which digits they are: the one at `j` counts the multiples of 256 to the power `j`. */
  lemma {:induction false} DigitAt(n: nat, k: nat, j: nat)
    requires n < Power256(k) && j < k
    ensures Digits(n, k)[j] == n / Power256(j) % 256
  {
    if j != 0 {
      DigitAt(n / 256, k - 1, j - 1);
      DivideTwice(n, Power256(j - 1));
    }
  }

  lemma DivideTwice(n: nat, d: nat)
    requires 0 < d
    ensures n / 256 / d == n / (256 * d)
  {
    var q, r := n / 256 / d, n / 256 % d;
    assert n == 256 * (d * q + r) + n % 256;
    assert n == (256 * d) * q + (256 * r + n % 256);
    assert 256 * r + n % 256 < 256 * d;
    QuotientIsUnique(n, 256 * d, q, 256 * r + n % 256);
  }

  lemma QuotientIsUnique(n: nat, d: nat, q: nat, r: nat)
    requires 0 < d && n == d * q + r && r < d
    ensures n / d == q
  {
    var p := n / d;
    assert n == d * p + n % d;
    assert p < q ==> d * (p + 1) <= d * q;
    assert q < p ==> d * (q + 1) <= d * p;
  }

  /** The eight bytes that `memcpy(target, &n, sizeof(n))` writes. */
  function SizeBytes(n: nat): (bs: seq<byte>)
    requires n < SIZE_LIMIT
    ensures |bs| == 8
  {
    Power256Of8();
    Digits(n, 8)
  }

  /** The size that `memcpy(&n, source, sizeof(n))` reads. */
  function SizeValue(bs: seq<byte>): (n: nat)
    requires |bs| == 8
    ensures n < SIZE_LIMIT
  {
    Power256Of8();
    Value(bs)
  }

  /** Sizes and their eight bytes determine each other. */
  lemma SizeRoundTrip(n: nat, bs: seq<byte>)
    requires n < SIZE_LIMIT && |bs| == 8
    ensures SizeValue(SizeBytes(n)) == n
    ensures SizeBytes(SizeValue(bs)) == bs
  {
    Power256Of8();
    ValueOfDigits(n, 8);
    DigitsOfValue(bs);
  }

  lemma PowersInOrder()
    ensures Power256(0) == 1 && Power256(1) == 0x100 && Power256(2) == 0x1_0000 && Power256(3) == 0x100_0000
    ensures Power256(4) == 0x1_0000_0000 && Power256(5) == 0x100_0000_0000
    ensures Power256(6) == 0x1_0000_0000_0000 && Power256(7) == 0x100_0000_0000_0000
  {
    assert Power256(2) == 256 * Power256(1);
    assert Power256(4) == 256 * Power256(3) && Power256(3) == 256 * Power256(2);
    assert Power256(6) == 256 * Power256(5) && Power256(5) == 256 * Power256(4);
  }

  lemma ValueFrom(bs: seq<byte>, i: nat)
    requires i < |bs|
    ensures Value(bs[i..]) == (bs[i] as int) + 256 * Value(bs[i + 1..])
  {
    assert bs[i..][1..] == bs[i + 1..];
  }

  lemma ValueInOrder(bs: seq<byte>)
    requires |bs| == 8
    ensures Value(bs) == (bs[0] as int) + 0x100 * (bs[1] as int)
                         + 0x1_0000 * (bs[2] as int) + 0x100_0000 * (bs[3] as int)
                         + 0x1_0000_0000 * (bs[4] as int) + 0x100_0000_0000 * (bs[5] as int)
                         + 0x1_0000_0000_0000 * (bs[6] as int) + 0x100_0000_0000_0000 * (bs[7] as int)
  {
    hide Value;
    forall i | 0 <= i < 8 ensures Value(bs[i..]) == (bs[i] as int) + 256 * Value(bs[i + 1..]) {
      ValueFrom(bs, i);
    }
    assert bs[0..] == bs && Value(bs[8..]) == 0 by { EmptyValue(bs[8..]); }
    assert Value(bs[7..]) == bs[7];
  }

  lemma EmptyValue(bs: seq<byte>)
    ensures bs == [] ==> Value(bs) == 0
  {
  }

  lemma SizeByteAt(n: nat, j: nat)
    requires n < SIZE_LIMIT && j < 8
    ensures SizeBytes(n)[j] == n / Power256(j) % 256
  {
    Power256Of8();
    DigitAt(n, 8, j);
  }

  /** The bytes of a size, one by one. */
  lemma SizeBytesInOrder(n: nat)
    requires n < SIZE_LIMIT
    ensures var bs := SizeBytes(n);
            && bs[0] == n % 0x100
            && bs[1] == n / 0x100 % 0x100
            && bs[2] == n / 0x1_0000 % 0x100
            && bs[3] == n / 0x100_0000 % 0x100
            && bs[4] == n / 0x1_0000_0000 % 0x100
            && bs[5] == n / 0x100_0000_0000 % 0x100
            && bs[6] == n / 0x1_0000_0000_0000 % 0x100
            && bs[7] == n / 0x100_0000_0000_0000 % 0x100
  {
    PowersInOrder();
    hide Power256, SizeBytes;
    forall j | 0 <= j < 8 ensures SizeBytes(n)[j] == n / Power256(j) % 256 {
      SizeByteAt(n, j);
    }
    assert SizeBytes(n)[0] == n / Power256(0) % 256;
  }

  /** The size that eight bytes stand for. */
  lemma SizeValueInOrder(bs: seq<byte>)
    requires |bs| == 8
    ensures SizeValue(bs) == (bs[0] as int) + 0x100 * (bs[1] as int)
                             + 0x1_0000 * (bs[2] as int) + 0x100_0000 * (bs[3] as int)
                             + 0x1_0000_0000 * (bs[4] as int) + 0x100_0000_0000 * (bs[5] as int)
                             + 0x1_0000_0000_0000 * (bs[6] as int) + 0x100_0000_0000_0000 * (bs[7] as int)
  {
    ValueInOrder(bs);
  }

  /** The same eight bytes read as a signed `std::streamsize`. */
  function SignedValue(bs: seq<byte>): int
    requires |bs| == 8
  {
    var n := SizeValue(bs);
    if n < SIGNED_LIMIT then n else n - SIZE_LIMIT
  }

  lemma SignedOfSizeBytes(n: nat)
    requires n < SIZE_LIMIT
    ensures SignedValue(SizeBytes(n)) == if n < SIGNED_LIMIT then n else n - SIZE_LIMIT
  {
    SizeRoundTrip(n, SizeBytes(n));
  }

  /** Reading a size as signed subtracts 2^64 exactly when the top bit of the last byte is set. */
  lemma SignIsTopBit(bs: seq<byte>)
    requires |bs| == 8
    ensures SignedValue(bs) == SizeValue(bs) - if bs[7] >= 0x80 then 0x1_0000_0000_0000_0000 else 0
    ensures SignedValue(bs) < 0 <==> bs[7] >= 0x80
  {
    SizeValueInOrder(bs);
    hide SizeValue;
    assert 0 <= bs[0] < 256 && 0 <= bs[1] < 256 && 0 <= bs[2] < 256 && 0 <= bs[3] < 256;
    assert 0 <= bs[4] < 256 && 0 <= bs[5] < 256 && 0 <= bs[6] < 256 && 0 <= bs[7] < 256;
  }

  /** `std::size_t` addition. */
  function AddSize(a: nat, b: nat): (r: nat)
    ensures r < SIZE_LIMIT
    ensures a + b < SIZE_LIMIT <==> r == a + b
  {
    (a + b) % SIZE_LIMIT
  }

  function Zeros(n: nat): (bs: seq<byte>)
    ensures |bs| == n && forall i | 0 <= i < n :: bs[i] == 0
  {
    seq(n, i => 0)
  }

  /** Missing high digits count as zero. */
  lemma {:induction false} ValueWithZeros(bs: seq<byte>, n: nat)
    ensures Value(bs + Zeros(n)) == Value(bs)
  {
    if bs != [] {
      ValueWithZeros(bs[1..], n);
      assert (bs + Zeros(n))[1..] == bs[1..] + Zeros(n);
    } else if n != 0 {
      ValueWithZeros([], n - 1);
      assert (bs + Zeros(n))[1..] == [] + Zeros(n - 1);
    }
  }

  lemma {:induction false} ValueOfPrefix(bs: seq<byte>, k: nat)
    requires k <= |bs|
    ensures Value(bs[..k]) <= Value(bs)
  {
    if k != 0 {
      ValueOfPrefix(bs[1..], k - 1);
      assert bs[..k][1..] == bs[1..][..k - 1];
    }
  }

  lemma {:induction false} ValueIsZero(bs: seq<byte>)
    ensures Value(bs) == 0 <==> bs == Zeros(|bs|)
  {
    if bs != [] {
      ValueIsZero(bs[1..]);
      assert bs == [bs[0]] + bs[1..];
      assert Zeros(|bs|) == [0] + Zeros(|bs| - 1);
      assert bs == Zeros(|bs|) ==> bs[1..] == Zeros(|bs| - 1);
    }
  }

  lemma {:induction false} Power256Grows(j: nat, k: nat)
    requires j <= k
    ensures Power256(j) <= Power256(k)
  {
    if j < k {
      Power256Grows(j, k - 1);
    }
  }
}
