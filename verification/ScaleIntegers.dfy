/** The integers of the SCALE codec: little-endian words and compact numbers. */
module ScaleIntegers {
  import opened Words

  // ---------- little-endian digits ----------

  // The w low bytes of n, least significant first.
  function Little(n: nat, w: nat): (b: Bytes)
    ensures |b| == w
  {
    if w == 0 then [] else [n % 256] + Little(n / 256, w - 1)
  }

  // The number spelled by the k bytes of buf from p on, least significant first.
  function FromLittle(buf: Bytes, p: nat, k: nat): nat
    requires p + k <= |buf|
    decreases k
  {
    if k == 0 then 0 else buf[p] + 256 * FromLittle(buf, p + 1, k - 1)
  }

  lemma {:induction false} FromLittleBound(buf: Bytes, p: nat, k: nat)
    requires p + k <= |buf|
    ensures FromLittle(buf, p, k) < Pow256(k)
    decreases k
  {
    if k == 0 {
    } else {
      FromLittleBound(buf, p + 1, k - 1);
    }
  }

  // Reading w bytes gives n exactly when they are the bytes of n.
  lemma {:induction false} LittleRoundTrip(n: nat, w: nat, buf: Bytes, p: nat)
    requires n < Pow256(w) && p + w <= |buf|
    ensures FromLittle(buf, p, w) == n <==> At(buf, p, Little(n, w))
    decreases w
  {
    if w == 0 {
    } else {
      LittleRoundTrip(n / 256, w - 1, buf, p + 1);
      AtCons(buf, p, n % 256, Little(n / 256, w - 1));
    }
  }

  lemma AtCons(buf: Bytes, p: nat, x: Byte, rest: Bytes)
    requires p + 1 + |rest| <= |buf|
    ensures At(buf, p, [x] + rest) <==> buf[p] == x && At(buf, p + 1, rest)
  {
    var b := [x] + rest;
    if At(buf, p, b) {
      assert b[0] == buf[p];
      forall i | 0 <= i < |rest| ensures rest[i] == buf[p + 1 + i] {
        assert b[i + 1] == buf[p + (i + 1)];
      }
    }
    if buf[p] == x && At(buf, p + 1, rest) {
      forall i | 0 <= i < |b| ensures b[i] == buf[p + i] {
        assert i > 0 ==> b[i] == rest[i - 1] == buf[p + 1 + (i - 1)];
      }
    }
  }

  // Adding the next byte times its place value.
  lemma NextPlace(value: nat, multiplier: nat, b: Byte, rest: nat)
    ensures value + multiplier * (b + 256 * rest) == (value + b * multiplier) + (multiplier * 256) * rest
  {
  }

  // ---------- fixed-width integers ----------

  predicate IsWidth(w: nat) {
    w == 1 || w == 2 || w == 4 || w == 8
  }

  // 2 to the number of bits of w bytes, and half of it.
  function Full(w: nat): nat
    requires IsWidth(w)
  {
    if w == 1 then 0x100 else if w == 2 then 0x1_0000 else if w == 4 then 0x1_0000_0000 else 0x1_0000_0000_0000_0000
  }

  function Half(w: nat): nat
    requires IsWidth(w)
  {
    if w == 1 then 0x80 else if w == 2 then 0x8000 else if w == 4 then 0x8000_0000 else 0x8000_0000_0000_0000
  }

  lemma FullIsPower(w: nat)
    requires IsWidth(w)
    ensures Full(w) == Pow256(w)
  {
    assert Pow256(2) == 0x1_0000;
    assert Pow256(4) == 0x1_0000_0000;
    assert Pow256(8) == 0x1_0000_0000_0000_0000;
  }

  predicate InRange(signed: bool, w: nat, n: int)
    requires IsWidth(w)
  {
    if signed then 0 <= n + Half(w) && n < Half(w) else 0 <= n < Full(w)
  }

  // Conversion to an unsigned and to a signed integer of w bytes.
  function AsUnsigned(w: nat, n: int): (r: nat)
    requires IsWidth(w)
    ensures r < Full(w)
  {
    if w == 1 then n % 0x100 else if w == 2 then n % 0x1_0000
    else if w == 4 then n % 0x1_0000_0000 else n % 0x1_0000_0000_0000_0000
  }

  function AsSigned(w: nat, n: int): (r: int)
    requires IsWidth(w)
  {
    AsUnsigned(w, n + Half(w)) - Half(w)
  }

  // Of the unsigned value v of w bytes, the integer it stands for. Negative ones go through the
  // 64-bit complement of v, its truncation to w bytes, and a negation in w bytes.
  function Interpret(signed: bool, w: nat, v: nat): int
    requires IsWidth(w) && v < Full(w)
  {
    if !signed then v
    else if w == 1 then AsSigned(w, v)
    else if v < Half(w) then v
    else AsSigned(w, -AsSigned(w, Full(8) - v))
  }

  // Two's complement, the minimum included.
  lemma InterpretUndoesTruncation(signed: bool, w: nat, n: int)
    requires IsWidth(w) && InRange(signed, w, n)
    ensures Interpret(signed, w, AsUnsigned(w, n)) == n
  {
    hide Interpret, AsUnsigned;
    TruncationInRange(signed, w, n);
    InterpretIsTwosComplement(signed, w, AsUnsigned(w, n));
  }

  lemma TruncationInRange(signed: bool, w: nat, n: int)
    requires IsWidth(w) && InRange(signed, w, n)
    ensures AsUnsigned(w, n) == if n < 0 then n + Full(w) else n
  {
    if w == 1 {
    } else if w == 2 {
    } else if w == 4 {
    } else {
    }
  }

  lemma InterpretIsTwosComplement(signed: bool, w: nat, v: nat)
    requires IsWidth(w) && v < Full(w)
    ensures Interpret(signed, w, v) == if !signed || v < Half(w) then v else v - Full(w)
  {
    if signed && v >= Half(w) {
      if w == 1 {
      } else if w == 2 {
        assert (0x1_0000_0000_0000_0000 - v + 0x8000) % 0x1_0000 == (0x1_0000 - v + 0x8000) % 0x1_0000;
      } else if w == 4 {
        assert (0x1_0000_0000_0000_0000 - v + 0x8000_0000) % 0x1_0000_0000 == (0x1_0000_0000 - v + 0x8000_0000) % 0x1_0000_0000;
      } else {
      }
    }
  }

  // ---------- compact integers ----------

  const MIN_UINT16: nat := 0x40
  const MIN_UINT32: nat := 0x4000
  const MIN_BIG: nat := 0x4000_0000
  const MAX_BIG_BYTES: nat := 67

  function CountBytes(n: nat): (c: nat)
    ensures c > 0
  {
    if n < 256 then 1 else 1 + CountBytes(n / 256)
  }

  // countBytes is the number of base-256 digits.
  lemma {:induction false} CountBytesIsLength(n: nat)
    ensures n < Pow256(CountBytes(n))
    ensures n > 0 ==> Pow256(CountBytes(n) - 1) <= n
  {
    if n >= 256 {
      CountBytesIsLength(n / 256);
    }
  }

  lemma CountBytesAtMost(n: nat, k: nat)
    requires k > 0
    ensures CountBytes(n) <= k <==> n < Pow256(k)
  {
    CountBytesIsLength(n);
    if CountBytes(n) <= k {
      Pow256Grows(CountBytes(n), k);
    } else if n > 0 {
      Pow256Grows(k, CountBytes(n) - 1);
    }
  }

  // The numbers that have a compact encoding.
  predicate CompactOk(n: int) {
    n >= 0 && CountBytes(n) <= MAX_BIG_BYTES
  }

  lemma CompactRange(n: int)
    ensures CompactOk(n) <==> 0 <= n < Pow256(MAX_BIG_BYTES)
  {
    if n >= 0 {
      CountBytesAtMost(n, MAX_BIG_BYTES);
    }
  }

  function EncodeCompact(n: nat): (b: Bytes)
    requires CompactOk(n)
    ensures b != []
  {
    if n < MIN_UINT16 then [4 * n]
    else if n < MIN_UINT32 then Little(4 * n + 1, 2)
    else if n < MIN_BIG then Little(4 * n + 2, 4)
    else
      BigCount(n);
      [(CountBytes(n) - 4) * 4 + 3] + Little(n, CountBytes(n))
  }

  lemma BigCount(n: nat)
    requires n >= MIN_BIG
    ensures CountBytes(n) >= 4
  {
    CountBytesAtMost(n, 3);
    assert Pow256(3) == 0x100_0000;
  }

  // The number and the position behind it.
  function DecodeCompact(buf: Bytes, pos: nat): (r: Result<(nat, nat)>)
    ensures r.Ok? ==> pos < r.value.1 <= |buf|
  {
    if pos >= |buf| then Err
    else
      var first := buf[pos];
      var flag := first % 4;
      if flag == 0 then Ok((first / 4, pos + 1))
      else if flag == 1 then
        if pos + 2 > |buf| then Err else Ok(((first - 1 + 256 * buf[pos + 1] as int) / 4, pos + 2))
      else if flag == 2 then
        if pos + 4 > |buf| then Err else Ok((FromLittle(buf, pos, 4) / 4, pos + 4))
      else
        var count := first / 4 + 4;
        if pos + 1 + count > |buf| then Err else Ok((FromLittle(buf, pos + 1, count), pos + 1 + count))
  }

  // How many bytes the encoding takes, in terms of the number.
  lemma CompactSize(n: nat)
    requires CompactOk(n)
    ensures |EncodeCompact(n)| ==
            if n < MIN_UINT16 then 1 else if n < MIN_UINT32 then 2 else if n < MIN_BIG then 4 else 1 + CountBytes(n)
  {
  }

  lemma SmallPowers()
    ensures Pow256(0) == 1 && Pow256(1) == 256 && Pow256(2) == 0x1_0000 && Pow256(3) == 0x100_0000 && Pow256(4) == 0x1_0000_0000
  {
  }

  lemma FromTwo(buf: Bytes, p: nat)
    requires p + 2 <= |buf|
    ensures FromLittle(buf, p, 2) == buf[p] + 256 * buf[p + 1] as int
  {
    assert FromLittle(buf, p + 1, 1) == buf[p + 1] + 256 * FromLittle(buf, p + 2, 0);
  }

  // The low two bits of a four-byte number are those of its first byte.
  lemma FromFourFlag(buf: Bytes, p: nat)
    requires p + 4 <= |buf|
    ensures FromLittle(buf, p, 4) % 4 == buf[p] % 4
  {
  }

  // Decoding undoes encoding, whatever follows.
  lemma CompactAt(n: nat, buf: Bytes, pos: nat)
    requires CompactOk(n) && At(buf, pos, EncodeCompact(n))
    ensures DecodeCompact(buf, pos) == Ok((n, pos + |EncodeCompact(n)|))
  {
    hide Little, FromLittle, Pow256, At, CountBytes;
    AtFits(buf, pos, EncodeCompact(n));
    SmallPowers();
    if n < MIN_UINT16 {
      OneByteAt(buf, pos, 4 * n);
    } else if n < MIN_UINT32 {
      LittleRoundTrip(4 * n + 1, 2, buf, pos);
      FromTwo(buf, pos);
    } else if n < MIN_BIG {
      LittleRoundTrip(4 * n + 2, 4, buf, pos);
      FromFourFlag(buf, pos);
    } else {
      BigCount(n);
      var c := CountBytes(n);
      AtCons(buf, pos, (c - 4) * 4 + 3, Little(n, c));
      CountBytesIsLength(n);
      LittleRoundTrip(n, c, buf, pos + 1);
    }
  }

  // Nothing shorter decodes to n, and of that length only the encoding itself does.
  lemma CompactIsMinimal(buf: Bytes, pos: nat, n: nat, end: nat)
    requires DecodeCompact(buf, pos) == Ok((n, end))
    ensures CompactOk(n)
    ensures end - pos >= |EncodeCompact(n)|
    ensures end - pos == |EncodeCompact(n)| <==> At(buf, pos, EncodeCompact(n))
  {
    DecodedIsSmall(buf, pos, n, end);
    CompactSize(n);
    if end - pos == |EncodeCompact(n)| {
      CanonicalIsEncoding(buf, pos, n, end);
    }
    if At(buf, pos, EncodeCompact(n)) {
      CompactAt(n, buf, pos);
    }
  }

  lemma DecodedIsSmall(buf: Bytes, pos: nat, n: nat, end: nat)
    requires DecodeCompact(buf, pos) == Ok((n, end))
    ensures CompactOk(n)
    ensures end == pos + 1 ==> n < MIN_UINT16
    ensures end == pos + 2 ==> n < MIN_UINT32
    ensures end == pos + 4 ==> n < MIN_BIG
    ensures end - pos in {1, 2, 4} || (end - pos >= 5 && CountBytes(n) < end - pos)
  {
    hide FromLittle, CountBytes, Pow256;
    SmallPowers();
    var flag := buf[pos] % 4;
    if flag == 3 {
      var count := buf[pos] / 4 + 4;
      FromLittleBound(buf, pos + 1, count);
      CountBytesAtMost(n, count);
    } else {
      if flag == 2 {
        FromLittleBound(buf, pos, 4);
      }
      CountBytesAtMost(n, 4);
    }
  }

  lemma CanonicalIsEncoding(buf: Bytes, pos: nat, n: nat, end: nat)
    requires DecodeCompact(buf, pos) == Ok((n, end)) && CompactOk(n) && end - pos == |EncodeCompact(n)|
    ensures At(buf, pos, EncodeCompact(n))
  {
    hide Little, FromLittle, CompactOk, Pow256, At, CountBytes;
    SmallPowers();
    CompactSize(n);
    DecodedIsSmall(buf, pos, n, end);
    if n < MIN_UINT16 {
      OneByteAt(buf, pos, 4 * n);
    } else if n < MIN_UINT32 {
      FromTwo(buf, pos);
      LittleRoundTrip(4 * n + 1, 2, buf, pos);
    } else if n < MIN_BIG {
      FromFourFlag(buf, pos);
      FromLittleBound(buf, pos, 4);
      LittleRoundTrip(4 * n + 2, 4, buf, pos);
    } else {
      BigCount(n);
      CountBytesIsLength(n);
      LittleRoundTrip(n, CountBytes(n), buf, pos + 1);
      AtCons(buf, pos, buf[pos], Little(n, CountBytes(n)));
    }
  }

  lemma OneByteAt(buf: Bytes, pos: nat, x: Byte)
    requires pos < |buf|
    ensures At(buf, pos, [x]) <==> buf[pos] == x
  {
    assert [x][0] == x;
  }

  // compactLen: the bytes a compact number takes.
  function CompactLen(n: nat): nat {
    if n < MIN_UINT16 then 1 else if n < MIN_UINT32 then 2 else if n < MIN_BIG then 4 else CountBytes(n)
  }

  // It leaves out the header of the big numbers.
  lemma CompactLenIsExact(n: nat)
    requires CompactOk(n)
    ensures CompactLen(n) == |EncodeCompact(n)| <==> n < MIN_BIG
    ensures n >= MIN_BIG ==> CompactLen(n) + 1 == |EncodeCompact(n)|
  {
    CompactSize(n);
  }

  // Smaller numbers take no more bytes.
  lemma SmallerCount(m: nat, n: nat)
    requires CompactOk(n) && m <= n
    ensures CompactOk(m) && |EncodeCompact(m)| <= |EncodeCompact(n)|
  {
    hide EncodeCompact, CountBytes;
    CountBytesGrows(m, n);
    CompactSize(m);
    CompactSize(n);
    if n >= MIN_BIG {
      BigCount(n);
    }
  }

  lemma {:induction false} CountBytesGrows(m: nat, n: nat)
    requires m <= n
    ensures CountBytes(m) <= CountBytes(n)
  {
    if m >= 256 {
      CountBytesGrows(m / 256, n / 256);
    }
  }

  method CountBytesOf(n: nat) returns (counter: nat)
    ensures counter == CountBytes(n)
  {
    counter := 1;
    var v: nat := n / 256;
    while v != 0
      invariant v == 0 ==> counter == CountBytes(n)
      invariant v != 0 ==> counter + CountBytes(v) == CountBytes(n)
      decreases v
    {
      counter := counter + 1;
      v := v / 256;
    }
  }
}
