/** The bounds-checked reads both ABI decoders are made of, on an encoding found in a buffer. */
module AbiReads {
  import opened Words
  import opened AbiTypes
  import opened AbiLayout

  // The bytes from off on, if verifyBufferOffset lets a whole word be read there.
  function ReadWord(buf: Bytes, off: nat): Result<U256> {
    if SizeT(off + 31) >= |buf| then Err
    else
      var word := Crop(buf, off, 32);
      if |word| == 32 then Ok(FromWord(word)) else Ok(0)
  }

  function ReadBytes(buf: Bytes, off: nat): Result<Bytes> {
    var len :- ReadWord(buf, off);
    var count := SizeT(len);
    if SizeT(off + 32 + count - 1) >= |buf| then Err else Ok(Crop(buf, SizeT(off + 32), count))
  }

  lemma ReadWordAt(buf: Bytes, p: nat, n: nat)
    requires |buf| <= INT_MAX && At(buf, p, Word(n)) && n < WORD_LIMIT
    ensures ReadWord(buf, p) == Ok(n)
  {
    AtSlice(buf, p, Word(n));
    WordRoundTrip(n);
  }

  lemma ReadBytesAt(buf: Bytes, p: nat, data: Bytes)
    requires |buf| <= INT_MAX && At(buf, p, EncBytes(data))
    ensures ReadBytes(buf, p) == Ok(data)
  {
    var word, padding := Word(|data|), Zeros(RoundUp(|data|) - |data|);
    assert EncBytes(data) == word + (data + padding);
    AtLeft(word, data + padding, 0, word);
    AtLeft(data, padding, 0, data);
    AtRight(word, data + padding, 0, data);
    AtPart(buf, p, EncBytes(data), 0, word);
    AtPart(buf, p, EncBytes(data), 32, data);
    AtSlice(buf, p + 32, data);
    SmallIsWord(|data|);
    ReadWordAt(buf, p, |data|);
  }

  // The length word of a T[] and the tuple of its elements.
  lemma ListHeader(n: nat, tuple: Bytes, buf: Bytes, p: nat)
    requires n < INT_MAX && |buf| <= INT_MAX && At(buf, p, Word(n) + tuple)
    ensures ReadWord(buf, p) == Ok(n)
    ensures At(buf, p + 32, tuple)
  {
    AtLeft(Word(n), tuple, 0, Word(n));
    AtPart(buf, p, Word(n) + tuple, 0, Word(n));
    AtRight(Word(n), tuple, 0, tuple);
    AtPart(buf, p, Word(n) + tuple, 32, tuple);
    SmallIsWord(n);
    ReadWordAt(buf, p, n);
  }

  // Where a decoder finds member k of the tuple encoded at base.
  lemma MemberPlace(xs: seq<Value>, ts: seq<Type>, buf: Bytes, base: nat, k: nat)
    requires AllTyped(xs, ts) && k < |xs|
    requires |buf| <= INT_MAX && At(buf, base, AbiTuple(xs, ts))
    ensures base + HeadSum(ts, k + 1) <= |buf|
    ensures !Dynamic(ts[k]) ==> At(buf, base + HeadSum(ts, k), AbiEncode(xs[k], ts[k]))
    ensures Dynamic(ts[k]) ==>
              && ReadWord(buf, base + HeadSum(ts, k)) == Ok(TailPos(xs, ts, k))
              && 0 < TailPos(xs, ts, k) && base + TailPos(xs, ts, k) <= |buf|
              && At(buf, base + TailPos(xs, ts, k), AbiEncode(xs[k], ts[k]))
  {
    hide *;
    SameLength(xs, ts);
    var tuple, head := AbiTuple(xs, ts), HeadSum(ts, k);
    HeadLayout(xs, ts, k);
    if Dynamic(ts[k]) {
      var pos := TailPos(xs, ts, k);
      TailLayout(xs, ts, k);
      OffsetAndPart(buf, base, tuple, head, pos, AbiEncode(xs[k], ts[k]));
      HeadSumGrows(ts, k + 1, |ts|);
      TailAfterHeads(xs, ts, k);
    } else {
      PartFits(buf, base, tuple, head, AbiEncode(xs[k], ts[k]));
    }
  }

  lemma TailAfterHeads(xs: seq<Value>, ts: seq<Type>, k: nat)
    requires k <= |xs| == |ts|
    ensures TailPos(xs, ts, k) >= HeadSum(ts, |ts|)
  {
  }

  lemma PartFits(buf: Bytes, base: nat, tuple: Bytes, head: nat, part: Bytes)
    requires At(buf, base, tuple) && At(tuple, head, part)
    ensures base + head + |part| <= |buf| && At(buf, base + head, part)
  {
    AtPart(buf, base, tuple, head, part);
  }

  lemma OffsetAndPart(buf: Bytes, base: nat, tuple: Bytes, head: nat, pos: nat, part: Bytes)
    requires |buf| <= INT_MAX && At(buf, base, tuple)
    requires At(tuple, head, Word(pos)) && At(tuple, pos, part)
    ensures base + head + 32 <= |buf| && base + pos <= |buf|
    ensures ReadWord(buf, base + head) == Ok(pos)
    ensures At(buf, base + pos, part)
  {
    AtPart(buf, base, tuple, head, Word(pos));
    AtPart(buf, base, tuple, pos, part);
    SmallIsWord(pos);
    ReadWordAt(buf, base + head, pos);
  }

  // Where a word can be read: inside the buffer as it stands, in the last 31 positions of size_t
  // as zero, and nowhere else.
  lemma ReadWordIs(buf: Bytes, off: nat)
    requires off < TWO_64 && |buf| <= INT_MAX
    ensures off + 32 <= |buf| ==> ReadWord(buf, off) == Ok(FromWord(buf[off..off + 32]))
    ensures |buf| < off + 32 <= TWO_64 ==> ReadWord(buf, off) == Err
    ensures off + 32 > TWO_64 ==> ReadWord(buf, off) == if off + 31 - TWO_64 < |buf| then Ok(0) else Err
  {
    hide FromWord;
    IsRemainder(off + 31);
  }

  // A string is read if its length word and all of its data are inside the buffer, or if the end
  // of its data comes round to it past 2^64, then as nothing.
  lemma ReadBytesIs(buf: Bytes, off: nat)
    requires |buf| <= INT_MAX && off + 32 <= |buf|
    ensures var n := SizeT(FromWord(buf[off..off + 32]));
            ReadBytes(buf, off) ==
            if off + 32 + n <= |buf| then Ok(buf[off + 32..off + 32 + n])
            else if TWO_64 < off + 32 + n && off + 31 + n - TWO_64 < |buf| then Ok([])
            else Err
  {
    hide FromWord, ReadWord, SizeT;
    ReadWordIs(buf, off);
    var n := SizeT(FromWord(buf[off..off + 32]));
    SizeTIs(off + 31 + n);
    SizeTIs(off + 32);
    assert off + 32 + n - 1 == off + 31 + n;
  }

  lemma SizeTIs(n: nat)
    requires n < 2 * TWO_64
    ensures SizeT(n) == if n < TWO_64 then n else n - TWO_64
  {
    IsRemainder(n);
  }
}
