/** ScaleEncoderStream and ScaleDecoderStream as the objects they are. */
module ScaleStreams {
  import opened Words
  import opened ScaleIntegers
  import opened ScaleCodec

  class ScaleEncoderStream {
    var stream: Bytes

    constructor ()
      ensures stream == []
    {
      stream := [];
    }

    method PutByte(b: Byte)
      modifies this
      ensures stream == old(stream) + [b]
    {
      stream := stream + [b];
    }

    // The loop of encodeInteger, and that of the big compact integers.
    method PutLittle(n: nat, size: nat)
      modifies this
      ensures stream == old(stream) + Little(n, size)
    {
      var v := n;
      ghost var all := old(stream) + Little(n, size);
      for i := 0 to size
        invariant stream + Little(v, size - i) == all
      {
        LittleStep(stream, v, size - i);
        PutByte(v % 256);
        v := v / 256;
      }
      assert stream + [] == stream;
    }

    method PutCompact(n: int) returns (ok: bool)
      modifies this
      ensures ok == CompactOk(n)
      ensures stream == if ok then old(stream) + EncodeCompact(n) else old(stream)
    {
      hide Little, CountBytes;
      if n < 0 {
        return false;
      }
      if n < MIN_BIG {
        CountBytesAtMost(n, 4);
      }
      if n < MIN_UINT16 {
        PutByte(n * 4);
      } else if n < MIN_UINT32 {
        var v := n * 4 + 1;
        TwoDigits(v);
        PutByte(v % 256);
        PutByte(v / 256);
      } else if n < MIN_BIG {
        PutLittle(n * 4 + 2, 4);
      } else {
        ok := PutBigCompact(n);
        return;
      }
      return true;
    }

    // The last category: a header with the number of bytes, then the bytes.
    method PutBigCompact(n: nat) returns (ok: bool)
      requires n >= MIN_BIG
      modifies this
      ensures ok == CompactOk(n)
      ensures stream == if ok then old(stream) + EncodeCompact(n) else old(stream)
    {
      hide Little, CountBytes;
      var length := CountBytesOf(n);
      if length > MAX_BIG_BYTES {
        return false;
      }
      BigCount(n);
      PutByte((length - 4) * 4 + 3);
      PutLittle(n, length);
      return true;
    }

    // operator<<. When it fails, what was written stays.
    method Put(v: Value) returns (ok: bool)
      modifies this
      ensures ok == Encodable(v)
      ensures ok ==> stream == old(stream) + Encode(v)
      ensures old(stream) <= stream
      decreases v, 0
    {
      match v {
        case Bool(b) =>
          PutByte(if b then 1 else 0);
          ok := true;
        case Int(w, n) =>
          PutLittle(AsUnsigned(w, n), w);
          ok := true;
        case Compact(n) =>
          ok := PutCompact(n);
        case Unsigned(u) =>
          stream := stream + Word(u);
          ok := true;
        case Signed(i) =>
          stream := stream + Word(S2u(i));
          ok := true;
        case Str(data) =>
          ok := PutString(data);
        case Tuple(vs) =>
          ok := PutAll(vs);
        case Vector(vs) =>
          ok := PutCollection(vs);
        case Map(vs) =>
          ok := PutCollection(vs);
        case Absent =>
          PutByte(0);
          ok := true;
        case Present(x) =>
          ok := PutPresent(x);
        case Variant(ts, i, x) =>
          ok := PutVariant(ts, i, x);
      }
    }

    method PutPresent(x: Value) returns (ok: bool)
      modifies this
      ensures ok == Encodable(x)
      ensures ok ==> stream == old(stream) + Encode(Present(x))
      ensures old(stream) <= stream
      decreases x, 2
    {
      if x.Bool? {
        PutByte(if x.b then 1 else 2);
        return true;
      }
      PutByte(1);
      ok := Put(x);
    }

    method PutVariant(ts: seq<Type>, which: nat, x: Value) returns (ok: bool)
      modifies this
      ensures ok == Encodable(Variant(ts, which, x))
      ensures ok ==> stream == old(stream) + Encode(Variant(ts, which, x))
      ensures old(stream) <= stream
      decreases x, 2
    {
      hide Encode, Encodable, IndexOf;
      VariantEncoding(ts, which, x);
      if !(which < |ts| <= 256) {
        return true;
      }
      var index := FindAlternative(ts, which);
      PutByte(index);
      ok := Put(x);
    }

    method PutString(data: Bytes) returns (ok: bool)
      modifies this
      ensures ok == CompactOk(|data|)
      ensures ok ==> stream == old(stream) + (EncodeCompact(|data|) + data)
      ensures old(stream) <= stream
    {
      ok := PutCompact(|data|);
      if ok {
        ghost var start := stream;
        for i := 0 to |data|
          invariant stream == start + data[..i]
        {
          PutByte(data[i]);
        }
        assert data[..|data|] == data;
      }
    }

    // encodeCollection
    method PutCollection(vs: seq<Value>) returns (ok: bool)
      modifies this
      ensures ok == (CompactOk(|vs|) && AllEncodable(vs))
      ensures ok ==> stream == old(stream) + (EncodeCompact(|vs|) + EncodeFrom(vs, 0))
      ensures old(stream) <= stream
      decreases vs, 1
    {
      ok := PutCompact(|vs|);
      if ok {
        ok := PutAll(vs);
      }
    }

    method PutAll(vs: seq<Value>) returns (ok: bool)
      modifies this
      ensures ok == AllEncodable(vs)
      ensures ok ==> stream == old(stream) + EncodeFrom(vs, 0)
      ensures old(stream) <= stream
      decreases vs, 0
    {
      hide Encode, Encodable, EncodeFrom;
      for i := 0 to |vs|
        invariant forall j :: 0 <= j < i ==> Encodable(vs[j])
        invariant AllEncodable(vs) ==> stream + EncodeFrom(vs, i) == old(stream) + EncodeFrom(vs, 0)
        invariant old(stream) <= stream
      {
        if AllEncodable(vs) {
          EncodeFromStep(stream, vs, i);
        }
        ok := Put(vs[i]);
        if !ok {
          return false;
        }
      }
      EncodeFromEnd(stream, vs);
      return true;
    }
  }

  class ScaleDecoderStream {
    const span: Bytes
    var currentIterator: nat
    var currentIndex: nat

    // Index and iterator stay in step, inside the span.
    ghost predicate Valid()
      reads this
    {
      currentIterator == currentIndex <= |span|
    }

    constructor (bytes: Bytes)
      ensures Valid() && span == bytes && currentIndex == 0
    {
      span := bytes;
      currentIterator, currentIndex := 0, 0;
    }

    predicate HasMore(n: nat)
      reads this
    {
      currentIndex + n <= |span|
    }

    // What a read has to do with the function on positions: the same result, and on success
    // the position behind it.
    ghost predicate Follows<T>(r: Result<T>, reading: Reading<T>)
      reads this
    {
      && Valid()
      && (reading.Err? ==> r.Err?)
      && (reading.Ok? ==> r == Ok(reading.value.0) && currentIndex == reading.value.1)
    }

    method NextByte() returns (r: Result<Byte>)
      requires Valid()
      modifies this
      ensures Valid()
      ensures r == if old(currentIndex) < |span| then Ok(span[old(currentIndex)]) else Err
      ensures currentIndex == old(currentIndex) + if r.Ok? then 1 else 0
    {
      if !HasMore(1) {
        return Err;
      }
      currentIndex := currentIndex + 1;
      r := Ok(span[currentIterator]);
      currentIterator := currentIterator + 1;
    }

    // The loops of decodeInteger and decodeCompactInteger over n bytes that are known to be there.
    method TakeLittle(n: nat) returns (value: nat)
      requires Valid() && HasMore(n)
      modifies this
      ensures Valid() && currentIndex == old(currentIndex) + n
      ensures value == FromLittle(span, old(currentIndex), n)
    {
      var multiplier: nat := 1;
      value := 0;
      for i := 0 to n
        invariant Valid() && currentIndex == old(currentIndex) + i
        invariant value + multiplier * FromLittle(span, currentIndex, n - i) == FromLittle(span, old(currentIndex), n)
      {
        NextPlace(value, multiplier, span[currentIndex], FromLittle(span, currentIndex + 1, n - i - 1));
        var b := NextByte();
        value := value + b.value * multiplier;
        multiplier := multiplier * 256;
      }
    }

    method TakeCompact() returns (r: Result<nat>)
      requires Valid()
      modifies this
      ensures Follows(r, DecodeCompact(span, old(currentIndex)))
    {
      var first := NextByte();
      if first.Err? {
        return Err;
      }
      var flag := first.value % 4;
      if flag == 0 {
        r := Ok(first.value / 4);
      } else if flag == 1 {
        var second := NextByte();
        r := if second.Err? then Err else Ok((first.value - 1 + 256 * second.value as int) / 4);
      } else if flag == 2 {
        if !HasMore(3) {
          return Err;
        }
        var high := TakeLittle(3);
        r := Ok((first.value + 256 * high) / 4);
      } else {
        var count := first.value / 4 + 4;
        if !HasMore(count) {
          return Err;
        }
        var value := TakeLittle(count);
        r := Ok(value);
      }
    }

    // operator>>
    method Get(t: Type) returns (r: Result<Value>)
      requires Valid()
      modifies this
      ensures Follows(r, Decode(t, span, old(currentIndex)))
      decreases t, 2
    {
      match t
      case BoolT =>
        r := GetBool();
      case IntT(signed, w) =>
        r := GetInt(signed, w);
      case CompactT =>
        var n := TakeCompact();
        r := if n.Err? then Err else Ok(Compact(n.value));
      case U256T =>
        var u := GetU256();
        r := if u.Err? then Err else Ok(Unsigned(u.value));
      case S256T =>
        var u := GetU256();
        r := if u.Err? then Err else Ok(Signed(U2s(u.value)));
      case StringT =>
        r := GetString();
      case TupleT(ts) =>
        var items := GetMembers(ts);
        r := if items.Err? then Err else Ok(Tuple(items.value));
      case ArrayT(e, size) =>
        var items := GetCopies(e, size);
        r := if items.Err? then Err else Ok(Tuple(items.value));
      case VectorT(e) =>
        r := GetVector(e);
      case MapT(e) =>
        r := GetMap(e);
      case OptionT(e) =>
        r := GetOption(e);
      case VariantT(ts) =>
        r := GetVariant(ts);
    }

    method GetBool() returns (r: Result<Value>)
      requires Valid()
      modifies this
      ensures Follows(r, DecodeBool(span, old(currentIndex)))
    {
      var b := NextByte();
      r := if b.Err? || b.value > 1 then Err else Ok(Bool(b.value == 1));
    }

    method GetInt(signed: bool, w: Width) returns (r: Result<Value>)
      requires Valid()
      modifies this
      ensures Follows(r, DecodeInt(signed, w, span, old(currentIndex)))
    {
      if !HasMore(w) {
        return Err;
      }
      FromLittleBound(span, currentIndex, w);
      FullIsPower(w);
      var v := TakeLittle(w);
      r := Ok(Int(w, Interpret(signed, w, v)));
    }

    method GetU256() returns (r: Result<U256>)
      requires Valid()
      modifies this
      ensures Valid()
      ensures r == if old(currentIndex) + 32 <= |span| then Ok(FromWord(span[old(currentIndex)..old(currentIndex) + 32])) else Err
      ensures currentIndex == old(currentIndex) + if r.Ok? then 32 else 0
    {
      if currentIterator + 32 > |span| {
        return Err;
      }
      var bytes := span[currentIterator..currentIterator + 32];
      currentIterator := currentIterator + 32;
      currentIndex := currentIndex + 32;
      r := Ok(FromWord(bytes));
    }

    method GetString() returns (r: Result<Value>)
      requires Valid()
      modifies this
      ensures Follows(r, Decode(StringT, span, old(currentIndex)))
    {
      var size := TakeCompact();
      if size.Err? {
        return Err;
      }
      var n := SizeT(size.value);
      if currentIterator + n > |span| {
        return Err;
      }
      r := Ok(Str(span[currentIterator..currentIterator + n]));
      currentIterator := currentIterator + n;
      currentIndex := currentIndex + n;
    }

    method GetMembers(ts: seq<Type>) returns (r: Result<seq<Value>>)
      requires Valid()
      modifies this
      ensures Follows(r, DecodeMembers(ts, [], span, old(currentIndex)))
      decreases ts, 0
    {
      hide Decode;
      var items: seq<Value> := [];
      for i := 0 to |ts|
        invariant Valid() && |items| == i
        invariant DecodeMembers(ts, items, span, currentIndex) == DecodeMembers(ts, [], span, old(currentIndex))
      {
        var x := Get(ts[i]);
        if x.Err? {
          return Err;
        }
        items := items + [x.value];
      }
      r := Ok(items);
    }

    method GetCopies(t: Type, n: nat) returns (r: Result<seq<Value>>)
      requires Valid()
      modifies this
      ensures Follows(r, DecodeCopies(t, n, [], span, old(currentIndex)))
      decreases t, 3
    {
      hide Decode;
      var items: seq<Value> := [];
      for i := 0 to n
        invariant Valid() && |items| == i
        invariant DecodeCopies(t, n, items, span, currentIndex) == DecodeCopies(t, n, [], span, old(currentIndex))
      {
        var x := Get(t);
        if x.Err? {
          return Err;
        }
        items := items + [x.value];
      }
      r := Ok(items);
    }

    method GetEntries(t: Type, n: nat) returns (r: Result<seq<Value>>)
      requires Valid()
      modifies this
      ensures Follows(r, DecodeEntries(t, n, [], span, old(currentIndex)))
      decreases t, 3
    {
      hide Decode, Emplace;
      var entries: seq<Value> := [];
      for i := 0 to n
        invariant Valid()
        invariant DecodeEntries(t, n - i, entries, span, currentIndex) == DecodeEntries(t, n, [], span, old(currentIndex))
      {
        var x := Get(t);
        if x.Err? {
          return Err;
        }
        entries := Emplace(entries, x.value);
      }
      r := Ok(entries);
    }

    method GetVector(e: Type) returns (r: Result<Value>)
      requires Valid()
      modifies this
      ensures Follows(r, Decode(VectorT(e), span, old(currentIndex)))
      decreases e, 4
    {
      hide DecodeCopies, DecodeCompact, SizeT;
      var size := TakeCompact();
      if size.Err? {
        return Err;
      }
      var n := SizeT(size.value);
      if OneByte(e) {
        if currentIterator + n > |span| {
          return Err;
        }
        r := Ok(Vector(RawItems(e, span, currentIterator, n)));
        currentIterator := currentIterator + n;
        currentIndex := currentIndex + n;
      } else {
        var items := GetCopies(e, n);
        r := if items.Err? then Err else Ok(Vector(items.value));
      }
    }

    method GetMap(e: Type) returns (r: Result<Value>)
      requires Valid()
      modifies this
      ensures Follows(r, Decode(MapT(e), span, old(currentIndex)))
      decreases e, 4
    {
      hide DecodeEntries, DecodeCompact, SizeT;
      var size := TakeCompact();
      if size.Err? {
        return Err;
      }
      var entries := GetEntries(e, SizeT(size.value));
      r := if entries.Err? then Err else Ok(Map(entries.value));
    }

    method GetOption(e: Type) returns (r: Result<Value>)
      requires Valid()
      modifies this
      ensures Follows(r, Decode(OptionT(e), span, old(currentIndex)))
      decreases e, 4
    {
      if e.BoolT? {
        // decodeOptionalBool
        var b := NextByte();
        r := if b.Err? || b.value > 2 then Err
             else if b.value == 0 then Ok(Absent)
             else Ok(Present(Bool(b.value == 1)));
        return;
      }
      var has := GetBool();
      if has.Err? {
        return Err;
      }
      if !has.value.b {
        return Ok(Absent);
      }
      var x := Get(e);
      r := if x.Err? then Err else Ok(Present(x.value));
    }

    // The tag picks the alternative.
    method GetVariant(ts: seq<Type>) returns (r: Result<Value>)
      requires Valid()
      modifies this
      ensures Follows(r, Decode(VariantT(ts), span, old(currentIndex)))
      decreases ts, 4
    {
      var index := NextByte();
      if index.Err? || index.value >= |ts| {
        return Err;
      }
      var x := Get(ts[index.value]);
      r := if x.Err? then Err else Ok(Variant(ts, index.value, x.value));
    }
  }

  lemma EncodeFromStep(front: Bytes, vs: seq<Value>, k: nat)
    requires AllEncodable(vs) && k < |vs|
    ensures front + EncodeFrom(vs, k) == front + Encode(vs[k]) + EncodeFrom(vs, k + 1)
  {
  }

  lemma EncodeFromEnd(front: Bytes, vs: seq<Value>)
    requires AllEncodable(vs)
    ensures front + EncodeFrom(vs, |vs|) == front
  {
  }

  lemma VariantEncoding(ts: seq<Type>, which: nat, x: Value)
    ensures var v := Variant(ts, which, x);
            if which < |ts| <= 256
            then Encodable(v) == Encodable(x) && (Encodable(v) ==> Encode(v) == [IndexOf(ts, ts[which], 0)] + Encode(x))
            else Encodable(v) && Encode(v) == []
  {
  }

  // tryEncodeAsOneOfVariant: the first alternative of the type held.
  method FindAlternative(ts: seq<Type>, which: nat) returns (index: nat)
    requires which < |ts|
    ensures index <= which && ts[index] == ts[which] && ts[which] !in ts[..index]
    ensures index == IndexOf(ts, ts[which], 0)
  {
    index := 0;
    while ts[index] != ts[which]
      invariant index <= which && ts[which] !in ts[..index]
      invariant ts[which] in ts[index..] && IndexOf(ts, ts[which], index) == IndexOf(ts, ts[which], 0)
      decreases which - index
    {
      index := index + 1;
      assert ts[index..][which - index] == ts[which];
    }
  }

  lemma LittleStep(front: Bytes, v: nat, w: nat)
    requires w > 0
    ensures front + Little(v, w) == front + [v % 256] + Little(v / 256, w - 1)
  {
  }

  lemma TwoDigits(v: nat)
    requires v < 0x1_0000
    ensures Little(v, 2) == [v % 256, v / 256]
  {
    assert Little(v / 256, 1) == [v / 256] + Little(v / 256 / 256, 0);
  }
}
