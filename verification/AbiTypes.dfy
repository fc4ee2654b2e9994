/** Solidity ABI values as the SDK builds them, and the types they belong to. */
module AbiTypes {
  import opened Words

  // The AbstractType classes. Names and integer extents play no part in the encoding.
  datatype Value =
    | Bool(b: bool)
    | Uint(u: U256)
    | Int(i: S256)
    | FixedBytes(n: nat, data: Bytes)
    | Addr(addr: Address)
    | Str(data: Bytes)
    | DynBytes(data: Bytes)
    | DynList(items: seq<Value>)
    | FixedList(dim: nat, items: seq<Value>)
    | Struct(items: seq<Value>)

  datatype Type =
    | TBool
    | TUint
    | TInt
    | TFixedBytes(n: nat)
    | TAddr
    | TStr
    | TDynBytes
    | TDynList(elem: Type)
    | TFixedList(elem: Type, dim: nat)
    | TStruct(members: seq<Type>)

  function Repeat<T>(x: T, n: nat): (s: seq<T>)
    ensures |s| == n
    ensures forall i :: 0 <= i < n ==> s[i] == x
  {
    seq(n, _ => x)
  }

  // v is a well-formed value of type t: arrays are homogeneous, T[N] holds N > 0 elements,
  // bytesN holds N bytes, and T[] has a length the decoder accepts.
  ghost predicate HasType(v: Value, t: Type)
    decreases v
  {
    match (v, t)
    case (Bool(_), TBool) => true
    case (Uint(_), TUint) => true
    case (Int(i), TInt) => -128 * WORD_TOP <= i < 128 * WORD_TOP
    case (FixedBytes(n, data), TFixedBytes(m)) => n == m == |data| && 0 < n <= 32
    case (Addr(_), TAddr) => true
    case (Str(data), TStr) => true
    case (DynBytes(data), TDynBytes) => true
    case (DynList(xs), TDynList(e)) => |xs| < INT_MAX && AllTyped(xs, Repeat(e, |xs|))
    case (FixedList(d, xs), TFixedList(e, k)) => d == k == |xs| && k > 0 && AllTyped(xs, Repeat(e, |xs|))
    case (Struct(xs), TStruct(ts)) => AllTyped(xs, ts)
    case _ => false
  }

  ghost predicate AllTyped(xs: seq<Value>, ts: seq<Type>)
    decreases xs
  {
    |xs| == |ts| && forall i :: 0 <= i < |xs| ==> HasType(xs[i], ts[i])
  }

  lemma SameLength(xs: seq<Value>, ts: seq<Type>)
    requires AllTyped(xs, ts)
    ensures |xs| == |ts|
  {
  }

  // The dynamic types of the Solidity Contract ABI Specification.
  predicate Dynamic(t: Type) {
    match t
    case TStr => true
    case TDynBytes => true
    case TDynList(_) => true
    case TFixedList(e, _) => Dynamic(e)
    case TStruct(ts) => exists i :: 0 <= i < |ts| && Dynamic(ts[i])
    case _ => false
  }

  // Bytes a member of type t takes in the head part of its tuple.
  function HeadLen(t: Type): (n: nat)
    ensures Dynamic(t) ==> n == 32
    decreases t
  {
    if Dynamic(t) then 32
    else match t
      case TFixedList(e, k) => k * HeadLen(e)
      case TStruct(ts) => HeadSum(ts, |ts|)
      case _ => 32
  }

  // Where the head of member k starts, counted from the start of the tuple.
  function HeadSum(ts: seq<Type>, k: nat): (n: nat)
    requires k <= |ts|
    decreases ts, k
  {
    if k == 0 then 0 else HeadSum(ts, k - 1) + HeadLen(ts[k - 1])
  }

  lemma {:induction false} HeadSumGrows(ts: seq<Type>, j: nat, k: nat)
    requires j <= k <= |ts|
    ensures HeadSum(ts, j) <= HeadSum(ts, k)
  {
    if j < k {
      HeadSumGrows(ts, j, k - 1);
    }
  }

  lemma {:induction false} HeadSumRepeat(e: Type, n: nat, k: nat)
    requires k <= n
    ensures HeadSum(Repeat(e, n), k) == k * HeadLen(e)
  {
    if k == 0 {
    } else {
      HeadSumRepeat(e, n, k - 1);
    }
  }

  // ---------- The encoding of the standard, section "Formal Specification of the Encoding" ----------

  // n rounded up to whole words.
  function RoundUp(n: nat): (r: nat)
    ensures n <= r < n + 32
  {
    (n + 31) / 32 * 32
  }

  // A string or bytes: its length, then the data padded to whole words.
  function EncBytes(data: Bytes): (b: Bytes)
    ensures |b| == 32 + RoundUp(|data|)
  {
    Word(|data|) + data + Zeros(RoundUp(|data|) - |data|)
  }

  function AbiEncode(v: Value, t: Type): Bytes
    decreases v
  {
    match (v, t)
    case (Bool(b), _) => Word(if b then 1 else 0)
    case (Uint(u), _) => Word(u)
    case (Int(i), _) => Word(S2u(i))
    case (FixedBytes(n, data), _) => if |data| <= 32 then data + Zeros(32 - |data|) else []
    case (Addr(a), _) => Zeros(12) + a
    case (Str(data), _) => EncBytes(data)
    case (DynBytes(data), _) => EncBytes(data)
    case (DynList(xs), TDynList(e)) => Word(|xs|) + AbiTuple(xs, Repeat(e, |xs|))
    case (FixedList(_, xs), TFixedList(e, _)) => AbiTuple(xs, Repeat(e, |xs|))
    case (Struct(xs), TStruct(ts)) => if |xs| == |ts| then AbiTuple(xs, ts) else []
    case _ => []
  }

  // enc(X1 ... Xk) = head(X1) ... head(Xk) tail(X1) ... tail(Xk)
  function AbiTuple(xs: seq<Value>, ts: seq<Type>): Bytes
    requires |xs| == |ts|
    decreases xs, |xs| + 1
  {
    Heads(xs, ts, |xs|) + Tails(xs, ts, |xs|)
  }

  // head(X1) ... head(Xk): a static member in place, a dynamic one as the position of its tail.
  function Heads(xs: seq<Value>, ts: seq<Type>, k: nat): Bytes
    requires k <= |xs| == |ts|
    decreases xs, k
  {
    if k == 0 then []
    else
      Heads(xs, ts, k - 1) +
      if Dynamic(ts[k - 1]) then Word(TailPos(xs, ts, k - 1)) else AbiEncode(xs[k - 1], ts[k - 1])
  }

  // tail(X1) ... tail(Xk)
  function Tails(xs: seq<Value>, ts: seq<Type>, k: nat): Bytes
    requires k <= |xs| == |ts|
    decreases xs, k, 0
  {
    if k == 0 then []
    else Tails(xs, ts, k - 1) + if Dynamic(ts[k - 1]) then AbiEncode(xs[k - 1], ts[k - 1]) else []
  }

  function TailPos(xs: seq<Value>, ts: seq<Type>, k: nat): nat
    requires k <= |xs| == |ts|
    decreases xs, k, 1
  {
    HeadSum(ts, |ts|) + |Tails(xs, ts, k)|
  }
}
