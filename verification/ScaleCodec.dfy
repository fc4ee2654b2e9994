/** The SCALE encoder and decoder streams over every value they have an operator for. */
module ScaleCodec {
  import opened Words
  import opened ScaleIntegers

  type Width = w: nat | IsWidth(w) witness 1

  datatype Type =
    | BoolT
    | IntT(signed: bool, width: Width)
    | CompactT
    | U256T
    | S256T
    | StringT
    | TupleT(members: seq<Type>)       // std::pair and std::tuple
    | ArrayT(element: Type, size: nat) // std::array, and FixedBytes as an array of bytes
    | VectorT(element: Type)
    | MapT(entry: Type)                // std::map; entry is the pair of key and value
    | OptionT(element: Type)
    | VariantT(alternatives: seq<Type>)

  // A map is the list of its entries in key order. A variant knows its alternatives and the
  // one it holds.
  datatype Value =
    | Bool(b: bool)
    | Int(width: Width, n: int)
    | Compact(n: int)
    | Unsigned(u: U256)
    | Signed(i: S256)
    | Str(data: Bytes)
    | Tuple(items: seq<Value>)
    | Vector(items: seq<Value>)
    | Map(items: seq<Value>)
    | Absent
    | Present(item: Value)
    | Variant(alternatives: seq<Type>, which: nat, item: Value)

  // ---------- the values of a type ----------

  ghost predicate HasType(v: Value, t: Type)
    decreases v
  {
    match t
    case BoolT => v.Bool?
    case IntT(signed, width) => v.Int? && v.width == width && InRange(signed, width, v.n)
    case CompactT => v.Compact?
    case U256T => v.Unsigned?
    case S256T => v.Signed? && U2s(S2u(v.i)) == v.i
    case StringT => v.Str? && SizeT(|v.data|) == |v.data|
    case TupleT(ts) => v.Tuple? && |v.items| == |ts| && forall k :: 0 <= k < |ts| ==> HasType(v.items[k], ts[k])
    case ArrayT(e, size) => v.Tuple? && |v.items| == size && AllHaveType(v.items, e)
    case VectorT(e) => v.Vector? && SizeT(|v.items|) == |v.items| && AllHaveType(v.items, e)
    case MapT(e) => v.Map? && SizeT(|v.items|) == |v.items| && AllHaveType(v.items, e) && Sorted(v.items)
    case OptionT(e) => v.Absent? || (v.Present? && HasType(v.item, e))
    case VariantT(ts) =>
      v.Variant? && v.alternatives == ts && |ts| <= 256 && v.which < |ts| && Distinct(ts) && HasType(v.item, ts[v.which])
  }

  ghost predicate AllHaveType(vs: seq<Value>, t: Type)
    decreases vs
  {
    forall k :: 0 <= k < |vs| ==> HasType(vs[k], t)
  }

  ghost predicate Distinct(ts: seq<Type>) {
    forall i, j :: 0 <= i < j < |ts| ==> ts[i] != ts[j]
  }

  // The keys of a map ascend.
  ghost predicate Sorted(entries: seq<Value>) {
    forall i, j :: 0 <= i < j < |entries| ==> Less(Key(entries[i]), Key(entries[j]))
  }

  function Key(entry: Value): Value {
    if entry.Tuple? && entry.items != [] then entry.items[0] else entry
  }

  // operator< of two values of one type.
  predicate Less(v: Value, w: Value)
    decreases v, 0
  {
    match v
    case Bool(b) => w.Bool? && !b && w.b
    case Int(_, n) => w.Int? && n < w.n
    case Compact(n) => w.Compact? && n < w.n
    case Unsigned(u) => w.Unsigned? && u < w.u
    case Signed(i) => w.Signed? && i < w.i
    case Str(data) => w.Str? && LessBytes(data, w.data)
    case Tuple(vs) => w.Tuple? && LessFrom(vs, w.items, 0)
    case Vector(vs) => w.Vector? && LessFrom(vs, w.items, 0)
    case Map(vs) => w.Map? && LessFrom(vs, w.items, 0)
    case Absent => w.Present?
    case Present(x) => w.Present? && Less(x, w.item)
    case Variant(_, i, x) => w.Variant? && (i < w.which || (i == w.which && Less(x, w.item)))
  }

  // Lexicographic order, from element k on.
  predicate LessFrom(vs: seq<Value>, ws: seq<Value>, k: nat)
    decreases vs, |vs| - k
  {
    if k >= |ws| then false
    else if k >= |vs| then true
    else Less(vs[k], ws[k]) || (vs[k] == ws[k] && LessFrom(vs, ws, k + 1))
  }

  predicate LessBytes(a: Bytes, b: Bytes) {
    if b == [] then false
    else if a == [] then true
    else a[0] < b[0] || (a[0] == b[0] && LessBytes(a[1..], b[1..]))
  }

  // ---------- what the encoder writes ----------

  // No exception: compact integers and collection sizes are in the encodable range.
  predicate Encodable(v: Value)
    decreases v
  {
    match v
    case Compact(n) => CompactOk(n)
    case Str(data) => CompactOk(|data|)
    case Tuple(vs) => AllEncodable(vs)
    case Vector(vs) => CompactOk(|vs|) && AllEncodable(vs)
    case Map(vs) => CompactOk(|vs|) && AllEncodable(vs)
    case Present(x) => Encodable(x)
    case Variant(ts, i, x) => i < |ts| <= 256 ==> Encodable(x)
    case _ => true
  }

  predicate AllEncodable(vs: seq<Value>)
    decreases vs
  {
    forall k :: 0 <= k < |vs| ==> Encodable(vs[k])
  }

  function Encode(v: Value): Bytes
    requires Encodable(v)
    decreases v, 0
  {
    match v
    case Bool(b) => [if b then 1 else 0]
    case Int(w, n) => Little(AsUnsigned(w, n), w)
    case Compact(n) => EncodeCompact(n)
    case Unsigned(u) => Word(u)
    case Signed(i) => Word(S2u(i))
    case Str(data) => EncodeCompact(|data|) + data
    case Tuple(vs) => EncodeFrom(vs, 0)
    case Vector(vs) => EncodeCompact(|vs|) + EncodeFrom(vs, 0)
    case Map(vs) => EncodeCompact(|vs|) + EncodeFrom(vs, 0)
    case Absent => [0]
    case Present(x) => if x.Bool? then [if x.b then 1 else 2] else [1] + Encode(x)
    case Variant(ts, i, x) => if i < |ts| <= 256 then [IndexOf(ts, ts[i], 0)] + Encode(x) else []
  }

  // Elements k and on, one behind the other.
  function EncodeFrom(vs: seq<Value>, k: nat): Bytes
    requires AllEncodable(vs)
    decreases vs, |vs| - k
  {
    if k >= |vs| then [] else Encode(vs[k]) + EncodeFrom(vs, k + 1)
  }

  // The first alternative from k on that is type t.
  function IndexOf(ts: seq<Type>, t: Type, k: nat): (i: nat)
    requires k < |ts| && t in ts[k..]
    ensures k <= i < |ts|
    decreases |ts| - k
  {
    if ts[k] == t then k else IndexOf(ts, t, k + 1)
  }

  // ---------- what the decoder reads ----------

  // Types of one byte, which a vector reads in bulk and without looking at them.
  predicate OneByte(t: Type) {
    t.BoolT? || (t.IntT? && t.width == 1)
  }

  function FromRaw(t: Type, b: Byte): Value
    requires OneByte(t)
  {
    if t.BoolT? then Bool(b != 0) else Int(1, Interpret(t.signed, 1, b))
  }

  function RawItems(t: Type, buf: Bytes, pos: nat, n: nat): (vs: seq<Value>)
    requires OneByte(t) && pos + n <= |buf|
    ensures |vs| == n && forall i :: 0 <= i < n ==> vs[i] == FromRaw(t, buf[pos + i])
  {
    seq(n, i requires 0 <= i < n => FromRaw(t, buf[pos + i]))
  }

  // A value and the position behind it.
  type Reading<T> = Result<(T, nat)>

  function Decode(t: Type, buf: Bytes, pos: nat): (r: Reading<Value>)
    requires pos <= |buf|
    ensures r.Ok? ==> pos <= r.value.1 <= |buf|
    decreases t, 0, 0
  {
    match t
    case BoolT => DecodeBool(buf, pos)
    case IntT(signed, w) => DecodeInt(signed, w, buf, pos)
    case CompactT =>
      var c :- DecodeCompact(buf, pos);
      Ok((Compact(c.0), c.1))
    case U256T => if pos + 32 > |buf| then Err else Ok((Unsigned(FromWord(buf[pos..pos + 32])), pos + 32))
    case S256T => if pos + 32 > |buf| then Err else Ok((Signed(U2s(FromWord(buf[pos..pos + 32]))), pos + 32))
    case StringT =>
      var c :- DecodeCompact(buf, pos);
      var n := SizeT(c.0);
      if c.1 + n > |buf| then Err else Ok((Str(buf[c.1..c.1 + n]), c.1 + n))
    case TupleT(ts) =>
      var items :- DecodeMembers(ts, [], buf, pos);
      Ok((Tuple(items.0), items.1))
    case ArrayT(e, size) =>
      var items :- DecodeCopies(e, size, [], buf, pos);
      Ok((Tuple(items.0), items.1))
    case VectorT(e) =>
      var c :- DecodeCompact(buf, pos);
      var n := SizeT(c.0);
      if OneByte(e) then
        if c.1 + n > |buf| then Err else Ok((Vector(RawItems(e, buf, c.1, n)), c.1 + n))
      else
        var items :- DecodeCopies(e, n, [], buf, c.1);
        Ok((Vector(items.0), items.1))
    case MapT(e) =>
      var c :- DecodeCompact(buf, pos);
      var entries :- DecodeEntries(e, SizeT(c.0), [], buf, c.1);
      Ok((Map(entries.0), entries.1))
    case OptionT(e) =>
      if e.BoolT? then DecodeOptionalBool(buf, pos)
      else
        var has :- DecodeBool(buf, pos);
        if !has.0.b then Ok((Absent, has.1))
        else
          var x :- Decode(e, buf, has.1);
          Ok((Present(x.0), x.1))
    case VariantT(ts) =>
      if pos >= |buf| || buf[pos] >= |ts| then Err
      else
        var x :- Decode(ts[buf[pos]], buf, pos + 1);
        Ok((Variant(ts, buf[pos], x.0), x.1))
  }

  function DecodeBool(buf: Bytes, pos: nat): (r: Reading<Value>)
    ensures r.Ok? ==> pos < r.value.1 <= |buf| && r.value.0.Bool?
  {
    if pos >= |buf| || buf[pos] > 1 then Err else Ok((Bool(buf[pos] == 1), pos + 1))
  }

  function DecodeOptionalBool(buf: Bytes, pos: nat): (r: Reading<Value>)
    ensures r.Ok? ==> pos < r.value.1 <= |buf|
  {
    if pos >= |buf| || buf[pos] > 2 then Err
    else Ok((if buf[pos] == 0 then Absent else Present(Bool(buf[pos] == 1)), pos + 1))
  }

  function DecodeInt(signed: bool, w: Width, buf: Bytes, pos: nat): (r: Reading<Value>)
    ensures r.Ok? ==> pos < r.value.1 <= |buf|
  {
    if pos + w > |buf| then Err
    else
      FromLittleBound(buf, pos, w);
      FullIsPower(w);
      Ok((Int(w, Interpret(signed, w, FromLittle(buf, pos, w))), pos + w))
  }

  // The members of a tuple behind those already read.
  function DecodeMembers(ts: seq<Type>, items: seq<Value>, buf: Bytes, pos: nat): (r: Reading<seq<Value>>)
    requires pos <= |buf|
    ensures r.Ok? ==> pos <= r.value.1 <= |buf|
    decreases ts, 0, |ts| - |items|
  {
    if |items| >= |ts| then Ok((items, pos))
    else
      var x :- Decode(ts[|items|], buf, pos);
      DecodeMembers(ts, items + [x.0], buf, x.1)
  }

  // Elements until there are n.
  function DecodeCopies(t: Type, n: nat, items: seq<Value>, buf: Bytes, pos: nat): (r: Reading<seq<Value>>)
    requires pos <= |buf|
    ensures r.Ok? ==> pos <= r.value.1 <= |buf|
    decreases t, 1, n - |items|
  {
    if |items| >= n then Ok((items, pos))
    else
      var x :- Decode(t, buf, pos);
      DecodeCopies(t, n, items + [x.0], buf, x.1)
  }

  // n more entries, emplaced into those already there.
  function DecodeEntries(t: Type, n: nat, entries: seq<Value>, buf: Bytes, pos: nat): (r: Reading<seq<Value>>)
    requires pos <= |buf|
    ensures r.Ok? ==> pos <= r.value.1 <= |buf|
    decreases t, 1, n
  {
    if n == 0 then Ok((entries, pos))
    else
      var x :- Decode(t, buf, pos);
      DecodeEntries(t, n - 1, Emplace(entries, x.0), buf, x.1)
  }

  // std::map::emplace: at its place in key order, unless the key is there.
  function Emplace(entries: seq<Value>, entry: Value): seq<Value> {
    if entries == [] then [entry]
    else if Less(Key(entries[0]), Key(entry)) then [entries[0]] + Emplace(entries[1..], entry)
    else if Less(Key(entry), Key(entries[0])) then [entry] + entries
    else entries
  }
}
