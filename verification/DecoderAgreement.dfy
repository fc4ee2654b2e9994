/** The two ABI decoders on the same bytes, whatever these are. */
module DecoderAgreement {
  import opened Words
  import opened AbiTypes
  import opened AbiReads
  import opened TreeCodec
  import opened TreeCodecTheorems
  import opened TemplateEncoding
  import opened TemplateCodec

  // ---------- templates with everything in place ----------

  // w can decode every value of type t: each T[] has an element to clone.
  ghost predicate Filled(w: Value, t: Type)
    decreases w
  {
    match (w, t)
    case (Bool(_), TBool) => true
    case (Uint(_), TUint) => true
    case (Int(_), TInt) => true
    case (FixedBytes(n, _), TFixedBytes(m)) => n == m == 32
    case (Addr(_), TAddr) => true
    case (Str(_), TStr) => true
    case (DynBytes(_), TDynBytes) => true
    case (DynList(ws), TDynList(e)) => ws != [] && Cloneable(ws[0]) && Filled(ws[0], e)
    case (FixedList(d, ws), TFixedList(e, k)) => 0 < d == k == |ws| && AllFilled(ws, Repeat(e, |ws|))
    case _ => false
  }

  ghost predicate AllFilled(ws: seq<Value>, ts: seq<Type>)
    decreases ws
  {
    |ws| == |ts| && forall i :: 0 <= i < |ws| ==> Filled(ws[i], ts[i])
  }

  lemma {:induction false} FilledOutline(w: Value, t: Type)
    requires Filled(w, t)
    ensures Outline(w, t) && TupleFree(t)
    decreases w
  {
    match w
    case DynList(ws) => FilledOutline(ws[0], t.elem);
    case FixedList(_, ws) =>
      forall i | 0 <= i < |ws| ensures Outline(ws[i], t.elem) && TupleFree(t.elem) { FilledOutline(ws[i], t.elem); }
      assert Outline(ws[0], t.elem);
    case _ =>
  }

  lemma FilledSize(w: Value, t: Type)
    requires Filled(w, t)
    ensures DynamicType(w) == Some(Dynamic(t))
    ensures ABIDynamicType(t) == Dynamic(t) && Stride(t) == HeadLen(t)
  {
    FilledOutline(w, t);
    OutlineSize(w, t);
    TupleFreeTraits(t);
  }

  // What is decoded into a template has its outline.
  lemma {:induction false} DecodedOutline(w: Value, t: Type, buf: Bytes, off: nat)
    requires Filled(w, t) && Decode(w, buf, off).Ok?
    ensures Outline(Decode(w, buf, off).value, t)
    decreases w, 0
  {
    hide ReadWord, ReadBytes, DecodeCopies;
    match w
    case FixedList(_, ws) => MembersOutline(ws, t.elem, buf, off, Int32(off));
    case _ =>
  }

  lemma {:induction false} MembersOutline(ws: seq<Value>, e: Type, buf: Bytes, base: nat, cur: int)
    requires AllFilled(ws, Repeat(e, |ws|)) && DecodeMembers(ws, InArray, buf, base, cur).Ok?
    ensures var xs := DecodeMembers(ws, InArray, buf, base, cur).value;
            |xs| == |ws| && forall i :: 0 <= i < |xs| ==> Outline(xs[i], e)
    decreases ws, 1
  {
    hide Decode, ReadWord, Outline;
    if ws == [] {
    } else {
      var v := DecodeMember(ws[0], InArray, buf, base, cur);
      MemberOutline(ws[0], e, InArray, buf, base, cur);
      MembersOutline(ws[1..], e, buf, base, NextOffset(v.value, cur).value);
    }
  }

  lemma {:induction false} MemberOutline(w: Value, e: Type, frame: Frame, buf: Bytes, base: nat, cur: int)
    requires Filled(w, e) && DecodeMember(w, frame, buf, base, cur).Ok?
    ensures Outline(DecodeMember(w, frame, buf, base, cur).value, e)
    decreases w, 1
  {
    hide Decode, ReadWord, Outline, Filled;
    if DynamicType(w) == Some(true) {
      DecodedOutline(w, e, buf, SizeT(base + SizeT(ReadWord(buf, SizeT(cur)).value)));
    } else {
      DecodedOutline(w, e, buf, SizeT(cur));
    }
  }

  // ---------- positions ----------

  // c as a 32-bit int stands for the position off.
  ghost predicate Stands(c: int, off: nat) {
    -0x8000_0000 <= c < 0x8000_0000 && SizeT(c) == off
  }

  // The positions that an int can stand for.
  predicate Near(off: nat) {
    off < 0x8000_0000 || TWO_64 - 0x8000_0000 <= off < TWO_64
  }

  lemma NearStands(off: nat)
    requires Near(off)
    ensures Stands(Int32(off), off)
  {
  }

  lemma IntStands(c: int)
    requires -0x8000_0000 <= c < 0x8000_0000
    ensures Int32(SizeT(c)) == c && Stands(c, SizeT(c))
    ensures SizeT(c) == if c < 0 then TWO_64 + c else c
  {
  }

  lemma WordFits(buf: Bytes, c: int)
    requires |buf| <= INT_MAX && -0x8000_0000 <= c < 0x8000_0000 && SizeT(SizeT(c) + 31) < |buf|
    ensures c + 32 <= |buf|
  {
    IntStands(c);
  }

  lemma SameRemainder(x: nat, c: int, s: nat)
    requires SizeT(x) == SizeT(c)
    ensures SizeT(x + s) == SizeT(c + s)
  {
    IsRemainder(x);
    IsRemainder(c);
    IsRemainder(x + s);
    IsRemainder(c + s);
  }

  lemma NextPosition(base: nat, u: nat, stride: nat, cur: int)
    requires Stands(cur, SizeT(base + u * stride)) && cur + stride < 0x8000_0000
    ensures Stands(cur + stride, SizeT(base + (u + 1) * stride))
  {
    hide SizeT;
    OneStrideMore(base, u, stride);
    SameRemainder(base + u * stride, cur, stride);
  }

  lemma OneStrideMore(base: nat, u: nat, stride: nat)
    ensures base + (u + 1) * stride == base + u * stride + stride
  {
  }

  // ---------- a static value that was read lies in the buffer ----------

  lemma {:induction false} StaticFits(w: Value, t: Type, buf: Bytes, c: int)
    requires Filled(w, t) && !Dynamic(t) && |buf| <= INT_MAX && -0x8000_0000 <= c < 0x8000_0000
    requires Decode(w, buf, SizeT(c)).Ok?
    ensures c + HeadLen(t) <= |buf|
    decreases w, 0
  {
    hide SizeT, Int32;
    IntStands(c);
    match w
    case FixedList(_, ws) => MembersFit(ws, t.elem, buf, SizeT(c), c);
    case _ => WordFits(buf, c);
  }

  lemma {:induction false} MemberFits(w: Value, e: Type, frame: Frame, buf: Bytes, base: nat, cur: int)
    requires Filled(w, e) && |buf| <= INT_MAX && -0x8000_0000 <= cur < 0x8000_0000
    requires DecodeMember(w, frame, buf, base, cur).Ok?
    ensures cur + HeadLen(e) <= |buf|
    ensures NextOffset(DecodeMember(w, frame, buf, base, cur).value, cur) == Some(cur + HeadLen(e))
    decreases w, 1
  {
    hide Decode, SizeT, Filled, Outline, HeadLen, Dynamic;
    FilledSize(w, e);
    HeadOfDynamic(e);
    MemberOutline(w, e, frame, buf, base, cur);
    OutlineSize(DecodeMember(w, frame, buf, base, cur).value, e);
    if Dynamic(e) {
      WordFits(buf, cur);
    } else {
      StaticFits(w, e, buf, cur);
    }
  }

  lemma HeadOfDynamic(t: Type)
    ensures Dynamic(t) ==> HeadLen(t) == 32
  {
  }

  lemma {:induction false} MembersFit(ws: seq<Value>, e: Type, buf: Bytes, base: nat, cur: int)
    requires AllFilled(ws, Repeat(e, |ws|)) && |buf| <= INT_MAX && -0x8000_0000 <= cur < 0x8000_0000
    requires DecodeMembers(ws, InArray, buf, base, cur).Ok? && ws != []
    ensures cur + |ws| * HeadLen(e) <= |buf|
    decreases ws, 1
  {
    hide DecodeMember, Filled, HeadLen, NextOffset;
    MemberFits(ws[0], e, InArray, buf, base, cur);
    OneMore(|ws|, HeadLen(e));
    if |ws| == 1 {
    } else {
      MembersFit(ws[1..], e, buf, base, cur + HeadLen(e));
    }
  }

  lemma OneMore(n: nat, h: nat)
    requires n > 0
    ensures n * h == h + (n - 1) * h
  {
  }

  // ---------- the buffers on which the decoders accept the same ----------

  // Where the two part: a list length or an offset that only the tree codec asserts on, an array
  // at a position its int cannot hold, a bytes32 at a position that wraps.
  ghost predicate Plain(t: Type, buf: Bytes, off: nat)
    decreases t, 0, 0
  {
    match t
    case TFixedBytes(_) => off + 31 < TWO_64
    case TDynList(e) =>
      var n := ReadWord(buf, off);
      n.Ok? ==> n.value < INT_MAX && PlainElements(e, InList, n.value, buf, SizeT(off + 32), 0)
    case TFixedList(e, n) => Near(off) && PlainElements(e, InArray, n, buf, off, 0)
    case _ => true
  }

  ghost predicate PlainElement(e: Type, frame: Frame, buf: Bytes, base: nat, u: nat)
    decreases e, 1, 0
  {
    var head := SizeT(base + u * Stride(e));
    if ABIDynamicType(e) then
      var offset := ReadWord(buf, head);
      offset.Ok? ==> OffsetAccepted(frame, offset.value) && Plain(e, buf, SizeT(base + SizeT(offset.value)))
    else Plain(e, buf, head)
  }

  // Elements u, u + 1, ..., n - 1.
  ghost predicate PlainElements(e: Type, frame: Frame, n: nat, buf: Bytes, base: nat, u: nat)
    decreases e, 2, n - u
  {
    u >= n || (PlainElement(e, frame, buf, base, u) && PlainElements(e, frame, n, buf, base, u + 1))
  }

  ghost predicate PlainArgs(ts: seq<Type>, k: nat, buf: Bytes, offset: nat)
    requires k <= |ts|
    decreases |ts| - k
  {
    k == |ts| || (PlainArg(ts[k], buf, offset) && PlainArgs(ts, k + 1, buf, SizeT(offset + Stride(ts[k]))))
  }

  ghost predicate PlainArg(t: Type, buf: Bytes, offset: nat) {
    if ABIDynamicType(t) then
      var at := ReadWord(buf, offset);
      at.Ok? ==> Plain(t, buf, SizeT(at.value))
    else Plain(t, buf, offset)
  }

  // What the tree codec reads where the other reads v: signed leaves by two's complement.
  function Recast(v: Value): Value
    decreases v
  {
    match v
    case Int(i) => Int(U2s(S2u(i)))
    case DynList(xs) => DynList(RecastAll(xs))
    case FixedList(n, xs) => FixedList(n, RecastAll(xs))
    case _ => v
  }

  function RecastAll(xs: seq<Value>): (ys: seq<Value>)
    ensures |ys| == |xs|
    decreases xs
  {
    seq(|xs|, i requires 0 <= i < |xs| => Recast(xs[i]))
  }

  // Both accept or both refuse if plain; both accept only if plain, and then read the same.
  ghost predicate Match(mine: Result<Value>, tree: Result<Value>, plain: bool) {
    && (plain ==> (mine.Ok? <==> tree.Ok?))
    && (mine.Ok? && tree.Ok? ==> plain && tree.value == Recast(mine.value))
  }

  ghost predicate MatchAll(mine: Result<seq<Value>>, tree: Result<seq<Value>>, plain: bool) {
    && (plain ==> (mine.Ok? <==> tree.Ok?))
    && (mine.Ok? && tree.Ok? ==> plain && tree.value == RecastAll(mine.value))
  }

  lemma ReadS256Keeps(u: U256)
    ensures S2u(ReadS256(u)) == u
  {
  }

  lemma LeafAgrees(w: Value, t: Type, buf: Bytes, off: nat)
    requires Filled(w, t) && |buf| <= INT_MAX && off < TWO_64 && !w.DynList? && !w.FixedList?
    ensures Match(DecodeValue(t, buf, off), Decode(w, buf, off), Plain(t, buf, off))
  {
    hide ReadWord, ReadBytes, S2u, U2s, ReadS256;
    if t.TInt? && ReadWord(buf, off).Ok? {
      ReadS256Keeps(ReadWord(buf, off).value);
    }
  }

  // At a position no int stands for there is nothing to read.
  lemma {:induction false} FarFails(w: Value, t: Type, buf: Bytes, off: nat)
    requires Filled(w, t) && |buf| <= INT_MAX && off < TWO_64 && !Near(off)
    ensures DecodeValue(t, buf, off).Err?
    decreases w
  {
    assert ReadWord(buf, off).Err?;
    match w
    case FixedList(_, ws) =>
      FarFails(ws[0], t.elem, buf, off);
      assert SizeT(off + 0 * Stride(t.elem)) == off;
      assert DecodeElement(t.elem, buf, off, 0).Err?;
    case _ =>
  }

  // One element in front of the rest.
  ghost function Cons(first: Result<Value>, rest: Result<seq<Value>>): Result<seq<Value>> {
    if first.Err? || rest.Err? then Err else Ok([first.value] + rest.value)
  }

  lemma MatchCons(m: Result<Value>, t: Result<Value>, p: bool, ms: Result<seq<Value>>, ts: Result<seq<Value>>, ps: bool)
    requires Match(m, t, p) && (t.Ok? ==> MatchAll(ms, ts, ps))
    ensures MatchAll(Cons(m, ms), Cons(t, ts), p && ps)
  {
    if Cons(m, ms).Ok? && Cons(t, ts).Ok? {
      assert RecastAll([m.value] + ms.value) == [Recast(m.value)] + RecastAll(ms.value);
    }
  }

  lemma MatchNone()
    ensures MatchAll(Ok([]), Ok([]), true)
  {
    assert RecastAll([]) == [];
  }

  lemma ElementsStep(e: Type, n: nat, buf: Bytes, base: nat, u: nat)
    requires u < n
    ensures DecodeElements(e, n, buf, base, u) == Cons(DecodeElement(e, buf, base, u), DecodeElements(e, n, buf, base, u + 1))
  {
    hide DecodeElement;
  }

  // The tree's loop goes on at next once the first element is read.
  lemma CopiesStep(w: Value, n: nat, buf: Bytes, base: nat, cur: int, next: int)
    requires n > 0 && Cloneable(w)
    requires var v := DecodeMember(w, InList, buf, base, cur); v.Ok? ==> NextOffset(v.value, cur) == Some(next)
    ensures DecodeCopies(w, n, buf, base, cur) ==
            Cons(DecodeMember(w, InList, buf, base, cur), DecodeCopies(w, n - 1, buf, base, next))
  {
    hide DecodeMember, NextOffset;
  }

  lemma TreeMembersStep(ws: seq<Value>, frame: Frame, buf: Bytes, base: nat, cur: int, next: int)
    requires ws != []
    requires var v := DecodeMember(ws[0], frame, buf, base, cur); v.Ok? ==> NextOffset(v.value, cur) == Some(next)
    ensures DecodeMembers(ws, frame, buf, base, cur) ==
            Cons(DecodeMember(ws[0], frame, buf, base, cur), DecodeMembers(ws[1..], frame, buf, base, next))
  {
    hide DecodeMember, NextOffset;
  }

  lemma {:induction false} Agree(w: Value, t: Type, buf: Bytes, off: nat)
    requires Filled(w, t) && |buf| <= INT_MAX && off < TWO_64
    ensures Match(DecodeValue(t, buf, off), Decode(w, buf, off), Plain(t, buf, off))
    decreases w, 0, 0
  {
    hide DecodeElements, DecodeCopies, DecodeMembers, PlainElements, ReadWord, RecastAll;
    match w
    case DynList(ws) =>
      if ReadWord(buf, off).Ok? && ReadWord(buf, off).value < INT_MAX {
        var base := SizeT(off + 32);
        BehindWord(buf, off);
        NearStands(base);
        assert SizeT(base + 0 * Stride(t.elem)) == base;
        CopiesAgree(ws[0], t.elem, ReadWord(buf, off).value, buf, base, 0, Int32(base));
      }
    case FixedList(_, ws) =>
      if Near(off) {
        NearStands(off);
        assert SizeT(off + 0 * Stride(t.elem)) == off;
        MembersAgree(ws, t.elem, buf, off, 0, Int32(off));
        assert ws[0..] == ws;
      } else {
        FarFails(w, t, buf, off);
      }
    case _ => LeafAgrees(w, t, buf, off);
  }

  lemma BehindWord(buf: Bytes, off: nat)
    requires ReadWord(buf, off).Ok? && |buf| <= INT_MAX
    ensures Near(SizeT(off + 32)) && SizeT(off + 32) < TWO_64
  {
    IsRemainder(off + 31);
    IsRemainder(off + 32);
  }

  lemma {:induction false} ElementAgrees(w: Value, e: Type, frame: Frame, buf: Bytes, base: nat, u: nat, cur: int)
    requires Filled(w, e) && |buf| <= INT_MAX && Stands(cur, SizeT(base + u * Stride(e)))
    ensures Match(DecodeElement(e, buf, base, u), DecodeMember(w, frame, buf, base, cur), PlainElement(e, frame, buf, base, u))
    decreases w, 1, 0
  {
    hide Decode, DecodeValue, Filled, Plain, ReadWord, ABIDynamicType, Dynamic, Stride, Recast, SizeT, Stands, OffsetAccepted, HeadLen, DynamicType;
    FilledSize(w, e);
    StandsInt(cur, SizeT(base + u * Stride(e)));
    var head := SizeT(base + u * Stride(e));
    if Dynamic(e) {
      var offset := ReadWord(buf, head);
      if offset.Ok? {
        Agree(w, e, buf, SizeT(base + SizeT(offset.value)));
      }
    } else {
      Agree(w, e, buf, head);
    }
  }

  lemma {:induction false} CopiesAgree(w: Value, e: Type, n: nat, buf: Bytes, base: nat, u: nat, cur: int)
    requires Filled(w, e) && Cloneable(w) && |buf| <= INT_MAX && u <= n && Stands(cur, SizeT(base + u * Stride(e)))
    ensures MatchAll(DecodeElements(e, n, buf, base, u), DecodeCopies(w, n - u, buf, base, cur),
                     PlainElements(e, InList, n, buf, base, u))
    decreases w, 2, n - u
  {
    hide Filled, Cloneable, DecodeElement, DecodeMember, PlainElement, Stride, Match, MatchAll, Stands, NextOffset;
    if u == n {
      MatchNone();
    } else {
      var next := cur + HeadLen(e);
      FilledSize(w, e);
      ElementAgrees(w, e, InList, buf, base, u, cur);
      StandsInt(cur, SizeT(base + u * Stride(e)));
      if DecodeMember(w, InList, buf, base, cur).Ok? {
        MemberFits(w, e, InList, buf, base, cur);
        NextPosition(base, u, Stride(e), cur);
        CopiesAgree(w, e, n, buf, base, u + 1, next);
      }
      ElementsStep(e, n, buf, base, u);
      CopiesStep(w, n - u, buf, base, cur, next);
      MatchCons(DecodeElement(e, buf, base, u), DecodeMember(w, InList, buf, base, cur), PlainElement(e, InList, buf, base, u),
                DecodeElements(e, n, buf, base, u + 1), DecodeCopies(w, n - u - 1, buf, base, next),
                PlainElements(e, InList, n, buf, base, u + 1));
    }
  }

  lemma StandsInt(c: int, off: nat)
    requires Stands(c, off)
    ensures -0x8000_0000 <= c < 0x8000_0000 && SizeT(c) == off
  {
  }

  lemma {:induction false} MembersAgree(ws: seq<Value>, e: Type, buf: Bytes, base: nat, k: nat, cur: int)
    requires AllFilled(ws, Repeat(e, |ws|)) && |buf| <= INT_MAX && k <= |ws| && Stands(cur, SizeT(base + k * Stride(e)))
    ensures MatchAll(DecodeElements(e, |ws|, buf, base, k), DecodeMembers(ws[k..], InArray, buf, base, cur),
                     PlainElements(e, InArray, |ws|, buf, base, k))
    decreases ws, 2, |ws| - k
  {
    hide Filled, DecodeElement, DecodeMember, PlainElement, Stride, Match, MatchAll, Stands, NextOffset;
    if k == |ws| {
      assert ws[k..] == [];
      MatchNone();
    } else {
      var w, next := ws[k], cur + HeadLen(e);
      FilledSize(w, e);
      ElementAgrees(w, e, InArray, buf, base, k, cur);
      StandsInt(cur, SizeT(base + k * Stride(e)));
      if DecodeMember(w, InArray, buf, base, cur).Ok? {
        MemberFits(w, e, InArray, buf, base, cur);
        NextPosition(base, k, Stride(e), cur);
        MembersAgree(ws, e, buf, base, k + 1, next);
      }
      ElementsStep(e, |ws|, buf, base, k);
      TreeMembersStep(ws[k..], InArray, buf, base, cur, next);
      assert ws[k..][1..] == ws[k + 1..];
      MatchCons(DecodeElement(e, buf, base, k), DecodeMember(w, InArray, buf, base, cur), PlainElement(e, InArray, buf, base, k),
                DecodeElements(e, |ws|, buf, base, k + 1), DecodeMembers(ws[k + 1..], InArray, buf, base, next),
                PlainElements(e, InArray, |ws|, buf, base, k + 1));
    }
  }

  // ---------- whole argument lists ----------

  ghost function DecodeArg(t: Type, buf: Bytes, offset: nat): Result<Value> {
    var at :- if ABIDynamicType(t) then ReadWord(buf, offset) else Ok(offset);
    DecodeValue(t, buf, SizeT(at))
  }

  lemma ArgAgrees(w: Value, t: Type, buf: Bytes, cur: nat)
    requires Filled(w, t) && |buf| <= INT_MAX && cur <= INT_MAX
    ensures Match(DecodeArg(t, buf, cur), DecodeMember(w, InStruct, buf, 0, cur), PlainArg(t, buf, cur))
  {
    hide Decode, DecodeValue, Filled, Plain, ReadWord, ABIDynamicType, Dynamic, Stride, Recast;
    FilledSize(w, t);
    if Dynamic(t) {
      if ReadWord(buf, cur).Ok? {
        Agree(w, t, buf, SizeT(ReadWord(buf, cur).value));
      }
    } else {
      Agree(w, t, buf, cur);
    }
  }

  lemma ArgsStep(ts: seq<Type>, k: nat, buf: Bytes, offset: nat)
    requires k < |ts|
    ensures DecodeArgs(ts, k, buf, offset) ==
            Cons(DecodeArg(ts[k], buf, offset), DecodeArgs(ts, k + 1, buf, SizeT(offset + Stride(ts[k]))))
  {
    hide DecodeValue, ReadWord, ABIDynamicType;
  }

  lemma {:induction false} ArgsAgree(ws: seq<Value>, ts: seq<Type>, k: nat, buf: Bytes, cur: nat)
    requires AllFilled(ws, ts) && |buf| <= INT_MAX && k <= |ts| && cur <= INT_MAX
    ensures MatchAll(DecodeArgs(ts, k, buf, cur), DecodeMembers(ws[k..], InStruct, buf, 0, cur), PlainArgs(ts, k, buf, cur))
    decreases |ts| - k
  {
    hide Filled, DecodeArg, DecodeMember, PlainArg, Stride, Match, MatchAll, NextOffset;
    if k == |ts| {
      assert ws[k..] == [];
      MatchNone();
    } else {
      var w, t := ws[k], ts[k];
      var next := cur + HeadLen(t);
      FilledSize(w, t);
      ArgAgrees(w, t, buf, cur);
      if DecodeMember(w, InStruct, buf, 0, cur).Ok? {
        MemberFits(w, t, InStruct, buf, 0, cur);
        ArgsAgree(ws, ts, k + 1, buf, next);
      }
      ArgsStep(ts, k, buf, cur);
      TreeMembersStep(ws[k..], InStruct, buf, 0, cur, next);
      assert ws[k..][1..] == ws[k + 1..];
      MatchCons(DecodeArg(t, buf, cur), DecodeMember(w, InStruct, buf, 0, cur), PlainArg(t, buf, cur),
                DecodeArgs(ts, k + 1, buf, SizeT(cur + Stride(t))), DecodeMembers(ws[k + 1..], InStruct, buf, 0, next),
                PlainArgs(ts, k + 1, buf, SizeT(cur + Stride(t))));
    }
  }

  // On every buffer below 2^31 bytes: on plain ones abiOut and the tree codec accept the same,
  // on others never both, and where both accept the tree codec's values are those of abiOut with
  // the signed leaves read by two's complement.
  lemma DecodersAgree(ws: seq<Value>, ts: seq<Type>, buf: Bytes)
    requires AllFilled(ws, ts) && |buf| <= INT_MAX
    ensures var mine, tree := DecodeArgs(ts, 0, buf, 0), Decode(Struct(ws), buf, 0);
            && (PlainArgs(ts, 0, buf, 0) ==> (mine.Ok? <==> tree.Ok?))
            && (mine.Ok? && tree.Ok? ==> PlainArgs(ts, 0, buf, 0) && tree.value == Struct(RecastAll(mine.value)))
  {
    hide Filled, DecodeArgs, DecodeMembers, PlainArgs, RecastAll;
    ArgsAgree(ws, ts, 0, buf, 0);
    assert ws[0..] == ws;
  }

  // ---------- when the readings are the same ----------

  // No signed word read lies in [2^255, 9 * 2^252), where only the tree codec takes it as negative.
  ghost predicate SignsAgree(t: Type, buf: Bytes, off: nat)
    decreases t, 0, 0
  {
    match t
    case TInt =>
      var u := ReadWord(buf, off);
      u.Ok? ==> !(128 * WORD_TOP <= u.value < 144 * WORD_TOP)
    case TDynList(e) =>
      var n := ReadWord(buf, off);
      n.Ok? ==> SignsAgreeFrom(e, SizeT(n.value), buf, SizeT(off + 32), 0)
    case TFixedList(e, n) => SignsAgreeFrom(e, n, buf, off, 0)
    case _ => true
  }

  // Elements u, u + 1, ..., n - 1.
  ghost predicate SignsAgreeFrom(e: Type, n: nat, buf: Bytes, base: nat, u: nat)
    decreases e, 2, n - u
  {
    u >= n || (SignsAgreeAt(e, buf, base, u * Stride(e)) && SignsAgreeFrom(e, n, buf, base, u + 1))
  }

  ghost predicate SignsAgreeAt(t: Type, buf: Bytes, base: nat, tupleOffset: nat)
    decreases t, 1, 0
  {
    if ABIDynamicType(t) then
      var offset := ReadWord(buf, SizeT(base + tupleOffset));
      offset.Ok? ==> SignsAgree(t, buf, SizeT(base + SizeT(offset.value)))
    else SignsAgree(t, buf, SizeT(base + tupleOffset))
  }

  ghost predicate SignsAgreeArgs(ts: seq<Type>, k: nat, buf: Bytes, offset: nat)
    requires k <= |ts|
    decreases |ts| - k
  {
    k == |ts| || (SignsAgreeArg(ts[k], buf, offset) && SignsAgreeArgs(ts, k + 1, buf, SizeT(offset + Stride(ts[k]))))
  }

  ghost predicate SignsAgreeArg(t: Type, buf: Bytes, offset: nat) {
    if ABIDynamicType(t) then
      var at := ReadWord(buf, offset);
      at.Ok? ==> SignsAgree(t, buf, SizeT(at.value))
    else SignsAgree(t, buf, SizeT(offset))
  }

  lemma RecastInt(u: U256)
    ensures Recast(Int(ReadS256(u))) == Int(ReadS256(u)) <==> !(128 * WORD_TOP <= u < 144 * WORD_TOP)
  {
    ReadS256Keeps(u);
  }

  lemma {:induction false} SameReading(t: Type, buf: Bytes, off: nat)
    requires TupleFree(t) && DecodeValue(t, buf, off).Ok?
    ensures var v := DecodeValue(t, buf, off).value; Recast(v) == v <==> SignsAgree(t, buf, off)
    decreases t, 0, 0
  {
    hide ReadWord, ReadBytes, DecodeElements, SignsAgreeFrom, RecastAll;
    match t
    case TInt =>
      hide Recast, ReadS256;
      RecastInt(ReadWord(buf, off).value);
    case TDynList(e) => SameReadings(e, SizeT(ReadWord(buf, off).value), buf, SizeT(off + 32), 0);
    case TFixedList(e, n) => SameReadings(e, n, buf, off, 0);
    case _ =>
  }

  lemma {:induction false} SameReadings(e: Type, n: nat, buf: Bytes, base: nat, u: nat)
    requires TupleFree(e) && u <= n && DecodeElements(e, n, buf, base, u).Ok?
    ensures var xs := DecodeElements(e, n, buf, base, u).value;
            RecastAll(xs) == xs <==> SignsAgreeFrom(e, n, buf, base, u)
    decreases e, 2, n - u
  {
    hide DecodeElement, DecodeMemberAt, SignsAgreeAt, Recast, RecastAll, TupleFree, Stride;
    if u == n {
      RecastNone();
    } else {
      ElementsStep(e, n, buf, base, u);
      SameReadingAt(e, buf, base, u * Stride(e));
      ElementIsMember(e, buf, base, u);
      SameReadings(e, n, buf, base, u + 1);
      RecastCons(DecodeElement(e, buf, base, u).value, DecodeElements(e, n, buf, base, u + 1).value);
    }
  }

  lemma ElementIsMember(e: Type, buf: Bytes, base: nat, u: nat)
    ensures DecodeElement(e, buf, base, u) == DecodeMemberAt(e, buf, base, u * Stride(e))
  {
    hide DecodeMemberAt;
  }

  lemma {:induction false} SameReadingAt(t: Type, buf: Bytes, base: nat, tupleOffset: nat)
    requires TupleFree(t)
    ensures var v := DecodeMemberAt(t, buf, base, tupleOffset);
            v.Ok? ==> (Recast(v.value) == v.value <==> SignsAgreeAt(t, buf, base, tupleOffset))
    decreases t, 1, 0
  {
    hide DecodeValue, SignsAgree, Recast, TupleFree, ReadWord, ABIDynamicType;
    if DecodeMemberAt(t, buf, base, tupleOffset).Ok? {
      var head := SizeT(base + tupleOffset);
      SameReading(t, buf, if ABIDynamicType(t) then SizeT(base + SizeT(ReadWord(buf, head).value)) else head);
    }
  }

  lemma RecastNone()
    ensures RecastAll([]) == []
  {
  }

  lemma RecastCons(x: Value, xs: seq<Value>)
    ensures RecastAll([x] + xs) == [x] + xs <==> Recast(x) == x && RecastAll(xs) == xs
  {
    hide Recast;
    var ys := [x] + xs;
    assert RecastAll(ys) == [Recast(x)] + RecastAll(xs);
    if RecastAll(ys) == ys {
      assert RecastAll(ys)[0] == ys[0];
      assert RecastAll(ys)[1..] == ys[1..];
    }
  }

  lemma {:induction false} SameArguments(ts: seq<Type>, k: nat, buf: Bytes, offset: nat)
    requires AllTupleFree(ts) && k <= |ts| && DecodeArgs(ts, k, buf, offset).Ok?
    ensures var xs := DecodeArgs(ts, k, buf, offset).value;
            RecastAll(xs) == xs <==> SignsAgreeArgs(ts, k, buf, offset)
    decreases |ts| - k
  {
    hide DecodeArg, SignsAgreeArg, Recast, TupleFree, Stride;
    if k == |ts| {
      assert RecastAll([]) == [];
    } else {
      ArgsStep(ts, k, buf, offset);
      SameArgument(ts[k], buf, offset);
      var next := SizeT(offset + Stride(ts[k]));
      SameArguments(ts, k + 1, buf, next);
      RecastCons(DecodeArg(ts[k], buf, offset).value, DecodeArgs(ts, k + 1, buf, next).value);
    }
  }

  lemma SameArgument(t: Type, buf: Bytes, offset: nat)
    requires TupleFree(t) && DecodeArg(t, buf, offset).Ok?
    ensures var v := DecodeArg(t, buf, offset).value; Recast(v) == v <==> SignsAgreeArg(t, buf, offset)
  {
    hide DecodeValue, SignsAgree, Recast, TupleFree, ReadWord, ABIDynamicType;
    SameReading(t, buf, SizeT(if ABIDynamicType(t) then ReadWord(buf, offset).value else offset));
  }

  // Where both accept, they read the very same values exactly when no signed word of the buffer
  // lies between their thresholds.
  lemma DecodersReadTheSame(ws: seq<Value>, ts: seq<Type>, buf: Bytes)
    requires AllFilled(ws, ts) && |buf| <= INT_MAX
    requires DecodeArgs(ts, 0, buf, 0).Ok? && Decode(Struct(ws), buf, 0).Ok?
    ensures Decode(Struct(ws), buf, 0).value == Struct(DecodeArgs(ts, 0, buf, 0).value) <==> SignsAgreeArgs(ts, 0, buf, 0)
  {
    hide Filled, DecodeArgs, Decode, PlainArgs, RecastAll, SignsAgreeArgs, TupleFree;
    DecodersAgree(ws, ts, buf);
    forall i | 0 <= i < |ts| ensures TupleFree(ts[i]) {
      FilledOutline(ws[i], ts[i]);
    }
    SameArguments(ts, 0, buf, 0);
  }

  // A length of 2^64: abiOut reads an empty list, the tree codec refuses.
  lemma LengthWraps()
    ensures var buf := Word(32) + Word(TWO_64);
            && DecodeArgs([TDynList(TUint)], 0, buf, 0) == Ok([DynList([])])
            && Decode(Struct([DynList([Uint(0)])]), buf, 0) == Err
  {
    hide Word, ReadWord, DecodeArgs, DecodeMembers, DecodeValue;
    var buf := Word(32) + Word(TWO_64);
    assert At(buf, 0, Word(32)) && At(buf, 32, Word(TWO_64));
    ReadWordAt(buf, 0, 32);
    ReadWordAt(buf, 32, TWO_64);
    EmptyByWrap(buf);
    ListArgument(buf);
    RefusedList(buf);
    assert [DynList([Uint(0)])][1..] == [];
  }

  lemma EmptyByWrap(buf: Bytes)
    requires ReadWord(buf, 32) == Ok(TWO_64)
    ensures DecodeValue(TDynList(TUint), buf, 32) == Ok(DynList([]))
  {
    hide ReadWord;
    assert SizeT(TWO_64) == 0;
  }

  lemma ListArgument(buf: Bytes)
    requires ReadWord(buf, 0) == Ok(32) && DecodeValue(TDynList(TUint), buf, 32) == Ok(DynList([]))
    ensures DecodeArgs([TDynList(TUint)], 0, buf, 0) == Ok([DynList([])])
  {
    hide ReadWord, DecodeValue;
    var ts := [TDynList(TUint)];
    ArgsStep(ts, 0, buf, 0);
    assert DecodeArgs(ts, 1, buf, SizeT(0 + Stride(ts[0]))) == Ok([]);
    assert [DynList([])] + [] == [DynList([])];
  }

  lemma RefusedList(buf: Bytes)
    requires ReadWord(buf, 0) == Ok(32) && ReadWord(buf, 32) == Ok(TWO_64)
    ensures DecodeMembers([DynList([Uint(0)])], InStruct, buf, 0, 0) == Err
  {
    hide ReadWord;
    assert Decode(DynList([Uint(0)]), buf, 32) == Err;
  }

  // A bytes32 in the last 31 positions of size_t is zeros for abiOut and an error for the tree codec.
  lemma FixedBytesIs(buf: Bytes, off: nat, data: Bytes)
    requires off < TWO_64 && |buf| <= INT_MAX
    ensures var mine, tree := DecodeValue(TFixedBytes(32), buf, off), Decode(FixedBytes(32, data), buf, off);
            if off + 32 <= |buf| then mine == tree == Ok(FixedBytes(32, buf[off..off + 32]))
            else if off + 32 <= TWO_64 || off + 31 - TWO_64 >= |buf| then mine == tree == Err
            else mine == Ok(FixedBytes(32, Zeros(32))) && tree == Err
  {
    SizeTIs(off + 31);
  }

  // A bytesN of the tree codec takes the first N bytes of its word, for N = 1, ..., 32 alone.
  lemma BytesNRead(n: nat, data: Bytes, buf: Bytes, off: nat)
    requires |buf| <= INT_MAX && off + 32 <= |buf|
    ensures Decode(FixedBytes(n, data), buf, off) == if 0 < n <= 32 then Ok(FixedBytes(n, buf[off..off + n])) else Err
  {
  }

  // What both make of 32 bytes inside the buffer: any word but 0 is true, an address is the last 20
  // bytes, unsigned words are themselves, and signed ones part between 2^255 and 9 * 2^252.
  lemma LeavesRead(buf: Bytes, off: nat, a: Address)
    requires |buf| <= INT_MAX && off + 32 <= |buf|
    ensures var u := FromWord(buf[off..off + 32]);
            && DecodeValue(TBool, buf, off) == Decode(Bool(false), buf, off) == Ok(Bool(u != 0))
            && DecodeValue(TUint, buf, off) == Decode(Uint(0), buf, off) == Ok(Uint(u))
            && DecodeValue(TAddr, buf, off) == Decode(Addr(a), buf, off) == Ok(Addr(buf[off + 12..off + 32]))
            && Decode(Int(0), buf, off) == Ok(Int(if u < 128 * WORD_TOP then u else u - WORD_LIMIT))
            && DecodeValue(TInt, buf, off) == Ok(Int(if u < 144 * WORD_TOP then u else u - WORD_LIMIT))
  {
    hide FromWord, ReadWord;
    ReadWordIs(buf, off);
  }
}
