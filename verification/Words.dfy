/** Bytes, 32-byte words and the fixed-width integers the codecs read and write. */
module Words {

  type Byte = n: nat | n < 256
  type Bytes = seq<Byte>

  datatype Option<+T> = None | Some(value: T)

  datatype Result<+T> = Ok(value: T) | Err {
    predicate IsFailure() { Err? }
    function PropagateFailure<U>(): Result<U>
      requires Err?
    {
      Err
    }
    function Extract(): T
      requires Ok?
    {
      value
    }
  }

  // front in front of a list that was read successfully.
  function Prepend<T>(front: seq<T>, rest: Result<seq<T>>): Result<seq<T>> {
    if rest.Err? then Err else Ok(front + rest.value)
  }

  lemma PrependStep<T>(front: seq<T>, x: T, rest: Result<seq<T>>)
    ensures Prepend([], rest) == rest
    ensures Prepend(front + [x], rest) == Prepend(front, Prepend([x], rest))
  {
    if rest.Ok? {
      assert [] + rest.value == rest.value;
      assert front + [x] + rest.value == front + ([x] + rest.value);
    }
  }

  function Pow256(n: nat): (r: nat)
    ensures r > 0
  {
    if n == 0 then 1 else 256 * Pow256(n - 1)
  }

  // 2^256, and 2^248 from which 2^255 is 128 times as much.
  const WORD_LIMIT: nat := 0x1_00000000_00000000_00000000_00000000_00000000_00000000_00000000_00000000
  const WORD_TOP: nat := 0x1_00000000_00000000_00000000_00000000_00000000_00000000_00000000_000000

  lemma WordLimit()
    ensures Pow256(32) == WORD_LIMIT == 256 * WORD_TOP
  {
    hide Pow256;
    FourBytes();
    Pow256Sum(4, 4);
    Pow256Sum(8, 8);
    Pow256Sum(16, 16);
  }

  lemma FourBytes()
    ensures Pow256(4) == 0x1_0000_0000
  {
  }

  lemma {:induction false} Pow256Sum(m: nat, n: nat)
    ensures Pow256(m + n) == Pow256(m) * Pow256(n)
  {
    if m == 0 {
    } else {
      Pow256Sum(m - 1, n);
    }
  }

  type U256 = n: nat | n < WORD_LIMIT
  // A sign-and-magnitude integer of 256 bits.
  type S256 = i: int | 0 < WORD_LIMIT + i && i < WORD_LIMIT
  type Address = b: Bytes | |b| == 20 witness seq(20, _ => 0)

  const INT_MAX: nat := 0x7fff_ffff
  const LONG_MAX: nat := 0x7fff_ffff_ffff_ffff

  const TWO_64: nat := 0x1_0000_0000_0000_0000

  // Conversion to the 64-bit std::size_t.
  function SizeT(n: int): (r: nat)
    ensures r < 0x1_0000_0000_0000_0000
    ensures 0 <= n < 0x1_0000_0000_0000_0000 ==> r == n
  {
    if 0 <= n < 0x1_0000_0000_0000_0000 then n else n % 0x1_0000_0000_0000_0000
  }

  lemma SizeTSmaller(n: nat)
    ensures SizeT(n) <= n
  {
  }

  lemma IsRemainder(n: int)
    ensures SizeT(n) == n % 0x1_0000_0000_0000_0000
  {
  }

  // Conversion to a 32-bit int.
  function Int32(n: int): (r: int)
    ensures -0x8000_0000 <= r < 0x8000_0000
    ensures -0x8000_0000 <= n < 0x8000_0000 ==> r == n
  {
    if -0x8000_0000 <= n < 0x8000_0000 then n else (n + 0x8000_0000) % 0x1_0000_0000 - 0x8000_0000
  }

  lemma Int32IsRemainder(n: int)
    ensures exists k: int :: Int32(n) == n + k * 0x1_0000_0000
  {
    if !(-0x8000_0000 <= n < 0x8000_0000) {
      var k := -((n + 0x8000_0000) / 0x1_0000_0000);
      assert Int32(n) == n + k * 0x1_0000_0000;
    } else {
      assert Int32(n) == n + 0 * 0x1_0000_0000;
    }
  }

  function Zeros(n: nat): (b: Bytes)
    ensures |b| == n && forall i :: 0 <= i < n ==> b[i] == 0
  {
    seq(n, _ => 0)
  }

  // Byte k of n, counted from the least significant one.
  function Digit(n: nat, k: nat): Byte {
    if k == 0 then n % 256 else Digit(n / 256, k - 1)
  }

  // The `width` low bytes of n, most significant first.
  function BigEndian(n: nat, width: nat): (b: Bytes)
    ensures |b| == width
  {
    seq(width, i requires 0 <= i < width => Digit(n, width - 1 - i))
  }

  // The number spelled by the first k bytes of b, most significant first.
  function FromBigEndian(b: Bytes, k: nat): (n: nat)
    requires k <= |b|
  {
    if k == 0 then 0 else 256 * FromBigEndian(b, k - 1) + b[k - 1]
  }

  lemma {:induction false} BigEndianBound(b: Bytes, k: nat)
    requires k <= |b|
    ensures FromBigEndian(b, k) < Pow256(k)
  {
    if k == 0 {
    } else {
      BigEndianBound(b, k - 1);
    }
  }

  lemma {:induction false} BigEndianRoundTrip(n: nat, width: nat)
    requires n < Pow256(width)
    ensures FromBigEndian(BigEndian(n, width), width) == n
  {
    if width == 0 {
    } else {
      BigEndianRoundTrip(n / 256, width - 1);
      forall i | 0 <= i < width - 1
        ensures BigEndian(n, width)[i] == BigEndian(n / 256, width - 1)[i]
      {
        assert Digit(n, width - 1 - i) == Digit(n / 256, width - 2 - i);
      }
      SamePrefix(BigEndian(n, width), BigEndian(n / 256, width - 1), width - 1);
      assert BigEndian(n, width)[width - 1] == Digit(n, 0) == n % 256;
    }
  }

  lemma {:induction false} SamePrefix(a: Bytes, b: Bytes, k: nat)
    requires k <= |a| && k <= |b|
    requires forall i :: 0 <= i < k ==> a[i] == b[i]
    ensures FromBigEndian(a, k) == FromBigEndian(b, k)
  {
    if k == 0 {
    } else {
      SamePrefix(a, b, k - 1);
    }
  }

  // The last byte is the lowest digit, and the bytes before it are those of the rest.
  lemma BigEndianEnd(n: nat, width: nat)
    requires width > 0
    ensures BigEndian(n, width)[width - 1] == n % 256
    ensures BigEndian(n, width)[..width - 1] == BigEndian(n / 256, width - 1)
  {
    assert BigEndian(n, width)[width - 1] == Digit(n, 0);
    forall i | 0 <= i < width - 1 ensures BigEndian(n, width)[i] == BigEndian(n / 256, width - 1)[i] {
      assert Digit(n, width - 1 - i) == Digit(n / 256, width - 2 - i);
    }
  }

  // Writing what was read gives the bytes back.
  lemma {:induction false} BigEndianInverse(b: Bytes, k: nat)
    requires k <= |b|
    ensures BigEndian(FromBigEndian(b, k), k) == b[..k]
  {
    if k == 0 {
    } else {
      var n := FromBigEndian(b, k);
      BigEndianInverse(b, k - 1);
      BigEndianEnd(n, k);
      assert n / 256 == FromBigEndian(b, k - 1) && n % 256 == b[k - 1];
      assert BigEndian(n, k) == BigEndian(n, k)[..k - 1] + [BigEndian(n, k)[k - 1]];
      assert b[..k] == b[..k - 1] + [b[k - 1]];
    }
  }

  // Leading zeros count for nothing.
  lemma {:induction false} LeadingZeros(b: Bytes, z: nat, k: nat)
    requires z <= k <= |b| && forall i :: 0 <= i < z ==> b[i] == 0
    ensures FromBigEndian(b, z) == 0
    ensures FromBigEndian(b, k) == FromBigEndian(b[z..], k - z)
  {
    if z == k {
      if k > 0 {
        LeadingZeros(b, k - 1, k - 1);
      }
    } else {
      LeadingZeros(b, z, k - 1);
      assert b[z..][k - z - 1] == b[k - 1];
    }
  }

  // h256(u256(n)).asBytes()
  function Word(n: nat): (b: Bytes)
    ensures |b| == 32
  {
    BigEndian(n, 32)
  }

  function FromWord(b: Bytes): (n: U256)
    requires |b| == 32
  {
    WordLimit();
    BigEndianBound(b, |b|);
    FromBigEndian(b, |b|)
  }

  lemma WordRoundTrip(n: nat)
    requires n < WORD_LIMIT
    ensures FromWord(Word(n)) == n
  {
    WordLimit();
    BigEndianRoundTrip(n, 32);
  }

  lemma SmallIsWord(n: nat)
    requires n < 0x1_0000_0000_0000_0000
    ensures n < WORD_LIMIT
  {
  }

  lemma {:induction false} Pow256Grows(m: nat, n: nat)
    requires m <= n
    ensures Pow256(m) <= Pow256(n)
  {
    if m < n {
      Pow256Grows(m, n - 1);
    }
  }

  // Two's complement: s2u and u2s.
  function S2u(i: S256): (u: U256)
    ensures u == i || u == i + WORD_LIMIT
  {
    if i >= 0 then i else WORD_LIMIT + i
  }

  function U2s(u: U256): (i: S256)
    ensures -128 * WORD_TOP <= i < 128 * WORD_TOP && (i == u || i == u - WORD_LIMIT)
  {
    if u < 128 * WORD_TOP then u else u - WORD_LIMIT
  }

  lemma TwosComplementRoundTrip(i: S256)
    ensures U2s(S2u(i)) == i <==> -128 * WORD_TOP <= i < 128 * WORD_TOP
  {
  }

  // bytesConstRef::getCroppedData: empty when the range does not fit.
  function Crop(buf: Bytes, start: nat, count: nat): (b: Bytes)
    ensures start + count <= |buf| ==> b == buf[start..start + count]
    ensures start + count > |buf| ==> b == []
  {
    if start + count <= |buf| then buf[start..start + count] else []
  }

  // The bytes b lie in buf from position p on.
  ghost predicate At(buf: Bytes, p: nat, b: Bytes) {
    p + |b| <= |buf| && forall i :: 0 <= i < |b| ==> b[i] == buf[p + i]
  }

  lemma AtSlice(buf: Bytes, p: nat, b: Bytes)
    requires p + |b| <= |buf|
    ensures At(buf, p, b) <==> buf[p..p + |b|] == b
  {
    if At(buf, p, b) {
      assert buf[p..p + |b|] == b;
    }
    if buf[p..p + |b|] == b {
      forall i | 0 <= i < |b| ensures b[i] == buf[p + i] {
        assert buf[p..p + |b|][i] == b[i];
      }
    }
  }

  lemma AtFits(buf: Bytes, p: nat, b: Bytes)
    requires At(buf, p, b)
    ensures p + |b| <= |buf|
  {
  }

  lemma AtPart(buf: Bytes, p: nat, b: Bytes, i: nat, part: Bytes)
    requires At(buf, p, b)
    requires At(b, i, part)
    ensures At(buf, p + i, part)
  {
    forall k | 0 <= k < |part|
      ensures part[k] == buf[p + i + k]
    {
      assert part[k] == b[i + k] == buf[p + (i + k)];
    }
  }
}
