/** NamedTypeHelper: reading a Solidity type string such as int[2][][3]. */
module TypeStrings {
  import opened Words

  // ---------- string helpers ----------

  predicate Blank(c: char) {
    c == ' ' || '\t' <= c <= '\r'
  }

  function TrimLeft(s: string): (r: string)
    ensures |r| <= |s|
    ensures s != [] && !Blank(s[0]) ==> r == s
  {
    if s != [] && Blank(s[0]) then TrimLeft(s[1..]) else s
  }

  function TrimRight(s: string): (r: string)
    ensures s != [] && !Blank(s[|s| - 1]) ==> r == s
  {
    if s != [] && Blank(s[|s| - 1]) then TrimRight(s[..|s| - 1]) else s
  }

  // boost::trim
  function Trim(s: string): (r: string)
    ensures s == [] ==> r == []
    ensures s != [] && !Blank(s[0]) && !Blank(s[|s| - 1]) ==> r == s
  {
    TrimRight(TrimLeft(s))
  }

  // std::string::find(c, from)
  function Find(s: string, c: char, from: nat): (r: Option<nat>)
    ensures r.Some? ==> from <= r.value < |s| && s[r.value] == c
    ensures r.Some? ==> forall i :: from <= i < r.value ==> s[i] != c
    ensures r.None? ==> forall i :: from <= i < |s| ==> s[i] != c
    decreases |s| - from
  {
    if from >= |s| then None else if s[from] == c then Some(from) else Find(s, c, from + 1)
  }

  predicate IsDigit(c: char) {
    '0' <= c <= '9'
  }

  function DigitCount(s: string): (n: nat)
    ensures n <= |s|
    ensures forall i :: 0 <= i < n ==> IsDigit(s[i])
    ensures n < |s| ==> !IsDigit(s[n])
  {
    if s != [] && IsDigit(s[0]) then 1 + DigitCount(s[1..]) else 0
  }

  function DigitValue(c: char): nat
    requires IsDigit(c)
  {
    c as int - '0' as int
  }

  // The number spelled by the first k characters.
  function Decimal(s: string, k: nat): nat
    requires k <= |s| && forall i :: 0 <= i < k ==> IsDigit(s[i])
  {
    if k == 0 then 0 else 10 * Decimal(s, k - 1) + DigitValue(s[k - 1])
  }

  // std::stoi; Err where it throws. Characters after the number are ignored.
  function Stoi(s: string): Result<int> {
    var t := TrimLeft(s);
    var signed := t != [] && (t[0] == '-' || t[0] == '+');
    var digits := if signed then t[1..] else t;
    var n := DigitCount(digits);
    var magnitude := Decimal(digits, n);
    var value: int := if signed && t[0] == '-' then 0 - magnitude else magnitude;
    if n == 0 || !(-0x8000_0000 <= value < 0x8000_0000) then Err else Ok(value)
  }

  // ---------- reset ----------

  datatype Parsed = Parsed(base: string, extents: seq<nat>)

  // One pair of brackets; 0 stands for [].
  function ParseExtent(text: string): Result<nat> {
    var digit := Trim(text);
    if digit == [] then Ok(0)
    else
      var size :- Stoi(digit);
      Ok(SizeT(size))
  }

  function ScanExtents(s: string, from: nat): Result<seq<nat>>
    decreases |s| - from
  {
    if from >= |s| then Ok([])
    else
      var left, right := Find(s, '[', from), Find(s, ']', from);
      if left.None? || right.None? || left.value >= right.value then Err
      else
        var extent :- ParseExtent(s[left.value + 1..right.value]);
        var rest :- ScanExtents(s, right.value + 1);
        Ok([extent] + rest)
  }

  function ParseType(str: string): Result<Parsed> {
    var s := Trim(str);
    if s == [] then Err
    else
      var first := Find(s, '[', 0);
      if first.None? then Ok(Parsed(s, []))
      else
        var extents :- ScanExtents(s, first.value);
        Ok(Parsed(s[..first.value], extents))
  }

  // ---------- printing ----------

  function Digits(n: nat): (s: string)
    ensures s != [] && forall i :: 0 <= i < |s| ==> IsDigit(s[i])
  {
    var last := ['0' + (n % 10) as char];
    if n < 10 then last else Digits(n / 10) + last
  }

  function PrintExtent(e: nat): string {
    "[" + (if e == 0 then "" else Digits(e)) + "]"
  }

  function PrintExtents(es: seq<nat>): string {
    if es == [] then "" else PrintExtent(es[0]) + PrintExtents(es[1..])
  }

  // ---------- parsing undoes printing ----------

  lemma {:induction false} DecimalPrefix(a: string, b: string, k: nat)
    requires k <= |a| && k <= |b|
    requires forall i :: 0 <= i < k ==> a[i] == b[i] && IsDigit(a[i])
    ensures Decimal(a, k) == Decimal(b, k)
  {
    if k == 0 {
    } else {
      DecimalPrefix(a, b, k - 1);
    }
  }

  lemma {:induction false} DigitsSpell(n: nat)
    ensures Decimal(Digits(n), |Digits(n)|) == n
  {
    var s := Digits(n);
    if n >= 10 {
      DigitsSpell(n / 10);
      DecimalPrefix(s, Digits(n / 10), |s| - 1);
    } else {
      assert Decimal(s, 1) == 10 * Decimal(s, 0) + n;
    }
  }

  lemma {:induction false} AllDigits(s: string)
    requires forall i :: 0 <= i < |s| ==> IsDigit(s[i])
    ensures DigitCount(s) == |s|
  {
    if s == [] {
    } else {
      AllDigits(s[1..]);
    }
  }

  lemma StoiDigits(n: nat)
    requires n <= INT_MAX
    ensures Stoi(Digits(n)) == Ok(n)
  {
    DigitsSpell(n);
    AllDigits(Digits(n));
  }

  lemma ExtentRoundTrip(e: nat)
    requires e <= INT_MAX
    ensures ParseExtent(if e == 0 then "" else Digits(e)) == Ok(e)
  {
    if e > 0 {
      StoiDigits(e);
    }
  }

  lemma {:induction false} ScanRoundTrip(front: string, es: seq<nat>)
    requires forall i :: 0 <= i < |es| ==> es[i] <= INT_MAX
    ensures ScanExtents(front + PrintExtents(es), |front|) == Ok(es)
    decreases es
  {
    hide Find, ParseExtent, PrintExtent, ScanExtents;
    if es == [] {
      ScanEnd(front + PrintExtents(es), |front|);
    } else {
      var bracket, rest := PrintExtent(es[0]), PrintExtents(es[1..]);
      var s := front + bracket + rest;
      assert s == front + PrintExtents(es);
      BracketScan(front, es[0], rest);
      ScanStep(s, |front|, |front| + |bracket| - 1, es[0]);
      ScanRoundTrip(front + bracket, es[1..]);
      assert es == [es[0]] + es[1..];
    }
  }

  lemma ScanEnd(s: string, from: nat)
    requires from >= |s|
    ensures ScanExtents(s, from) == Ok([])
  {
  }

  lemma ScanStep(s: string, left: nat, right: nat, e: nat)
    requires left < right < |s|
    requires Find(s, '[', left) == Some(left) && Find(s, ']', left) == Some(right)
    requires ParseExtent(s[left + 1..right]) == Ok(e)
    ensures ScanExtents(s, left) == Prepend([e], ScanExtents(s, right + 1))
  {
    hide Find, ParseExtent;
  }

  lemma BracketScan(front: string, e: nat, rest: string)
    requires e <= INT_MAX
    ensures var p, bracket := |front|, PrintExtent(e);
            var s := front + bracket + rest;
            && Find(s, '[', p) == Some(p)
            && Find(s, ']', p) == Some(p + |bracket| - 1)
            && |bracket| >= 2
            && ParseExtent(s[p + 1..p + |bracket| - 1]) == Ok(e)
  {
    hide Find, ParseExtent;
    var p, bracket, digits := |front|, PrintExtent(e), if e == 0 then "" else Digits(e);
    var s := front + bracket + rest;
    forall i | 0 <= i < |bracket| ensures s[p + i] == bracket[i] {
    }
    BracketFound(s, p, digits);
    ExtentRoundTrip(e);
  }

  lemma FindIs(s: string, c: char, from: nat, p: nat)
    requires from <= p < |s| && s[p] == c
    requires forall i :: from <= i < p ==> s[i] != c
    ensures Find(s, c, from) == Some(p)
  {
    hide Find;
  }

  lemma BracketFound(s: string, p: nat, digits: string)
    requires p + |digits| + 2 <= |s|
    requires s[p] == '[' && s[p + |digits| + 1] == ']'
    requires forall i :: 0 <= i < |digits| ==> s[p + 1 + i] == digits[i] && IsDigit(digits[i])
    ensures Find(s, '[', p) == Some(p)
    ensures Find(s, ']', p) == Some(p + |digits| + 1)
    ensures s[p + 1..p + |digits| + 1] == digits
  {
    hide Find;
    var r := p + |digits| + 1;
    forall i | p <= i < r ensures s[i] != ']' {
      if i > p {
        assert s[p + 1 + (i - p - 1)] == digits[i - p - 1];
      }
    }
    FindIs(s, '[', p, p);
    FindIs(s, ']', p, r);
  }

  ghost predicate PlainBase(base: string) {
    base != [] && '[' !in base && !Blank(base[0]) && !Blank(base[|base| - 1])
  }

  // A base name and its extents, printed and parsed again.
  lemma ParseUndoesPrint(base: string, es: seq<nat>)
    requires PlainBase(base)
    requires forall i :: 0 <= i < |es| ==> es[i] <= INT_MAX
    ensures ParseType(base + PrintExtents(es)) == Ok(Parsed(base, es))
  {
    hide ScanExtents, Find, PrintExtents, Trim;
    var brackets := PrintExtents(es);
    var s := base + brackets;
    BracketEnds(es);
    assert s[0] == base[0];
    ScanRoundTrip(base, es);
    if es == [] {
      assert s == base;
    } else {
      assert s[|base|] == brackets[0] && s[|s| - 1] == brackets[|brackets| - 1];
      forall i | 0 <= i < |base| ensures s[i] != '[' {
        assert s[i] == base[i] && base[i] in base;
      }
      FindIs(s, '[', 0, |base|);
      assert s[..|base|] == base;
    }
  }

  lemma {:induction false} BracketEnds(es: seq<nat>)
    ensures var s := PrintExtents(es);
            if es == [] then s == [] else s != [] && s[0] == '[' && s[|s| - 1] == ']'
  {
    if es == [] {
    } else {
      BracketEnds(es[1..]);
      var s, first, rest := PrintExtents(es), PrintExtent(es[0]), PrintExtents(es[1..]);
      assert s[0] == first[0];
      assert s[|s| - 1] == if rest == [] then first[|first| - 1] else rest[|rest| - 1];
    }
  }

  // ---------- what the string helpers do ----------

  // Blanks are the space and the characters from tab to carriage return.
  lemma BlankIs(c: char)
    ensures Blank(c) <==> c as int in {9, 10, 11, 12, 13, 32}
  {
  }

  lemma {:induction false} TrimLeftIs(s: string) returns (a: nat)
    ensures a <= |s| && TrimLeft(s) == s[a..] && (forall i :: 0 <= i < a ==> Blank(s[i])) && (a < |s| ==> !Blank(s[a]))
  {
    if s != [] && Blank(s[0]) {
      var a' := TrimLeftIs(s[1..]);
      a := a' + 1;
      assert s[1..][a'..] == s[a..];
      assert forall i :: 1 <= i < a ==> s[i] == s[1..][i - 1];
    } else {
      a := 0;
    }
  }

  lemma {:induction false} TrimRightIs(s: string) returns (b: nat)
    ensures b <= |s| && TrimRight(s) == s[..b] && (forall i :: b <= i < |s| ==> Blank(s[i])) && (b > 0 ==> !Blank(s[b - 1]))
  {
    if s != [] && Blank(s[|s| - 1]) {
      b := TrimRightIs(s[..|s| - 1]);
      assert s[..|s| - 1][..b] == s[..b];
    } else {
      b := |s|;
      assert s[..b] == s;
    }
  }

  // Trimming leaves a part of s with only blanks around it and none at its ends.
  lemma TrimIs(s: string) returns (a: nat, b: nat)
    ensures a <= b <= |s| && Trim(s) == s[a..b]
    ensures (forall i :: 0 <= i < a ==> Blank(s[i])) && (forall i :: b <= i < |s| ==> Blank(s[i]))
    ensures a < b ==> !Blank(s[a]) && !Blank(s[b - 1])
  {
    hide TrimLeft, TrimRight;
    a := TrimLeftIs(s);
    var t := s[a..];
    var b' := TrimRightIs(t);
    b := a + b';
    assert t[..b'] == s[a..b];
    assert forall i :: 0 <= i < |t| ==> t[i] == s[a + i];
    forall i | b <= i < |s| ensures Blank(s[i]) {
      assert t[i - a] == s[i];
    }
  }

  lemma {:induction false} DigitsThen(s: string, rest: string)
    requires (forall i :: 0 <= i < |s| ==> IsDigit(s[i])) && (rest == [] || !IsDigit(rest[0]))
    ensures DigitCount(s + rest) == |s|
  {
    if s == [] {
      assert s + rest == rest;
    } else {
      DigitsThen(s[1..], rest);
      assert (s + rest)[1..] == s[1..] + rest;
    }
  }

  // stoi reads a number with or without a sign, passes over blanks in front, stops at the first
  // character that is no digit, and refuses what does not fit 32 bits.
  lemma StoiReads(n: nat, rest: string)
    requires rest == [] || !IsDigit(rest[0])
    ensures Stoi(Digits(n) + rest) == if n <= 0x7fff_ffff then Ok(n) else Err
    ensures Stoi("+" + (Digits(n) + rest)) == if n <= 0x7fff_ffff then Ok(n) else Err
    ensures Stoi("-" + (Digits(n) + rest)) == if n <= 0x8000_0000 then Ok(0 - n) else Err
  {
    hide Digits, Decimal, DigitCount, TrimLeft;
    var d := Digits(n);
    var s := d + rest;
    DigitsSpell(n);
    DigitsThen(d, rest);
    DecimalPrefix(s, d, |d|);
    assert s[0] == d[0] && IsDigit(d[0]);
    assert ("+" + s)[1..] == s && ("-" + s)[1..] == s;
    NotTrimmed(s);
    NotTrimmed("+" + s);
    NotTrimmed("-" + s);
  }

  lemma NotTrimmed(s: string)
    requires s != [] && !Blank(s[0])
    ensures TrimLeft(s) == s
  {
  }

  lemma StoiBlank(c: char, s: string)
    requires Blank(c)
    ensures Stoi([c] + s) == Stoi(s)
  {
    hide Decimal, DigitCount;
    assert ([c] + s)[1..] == s;
    assert TrimLeft([c] + s) == TrimLeft(s);
  }

  lemma StoiRange(s: string)
    ensures Stoi(s).Ok? ==> -0x8000_0000 <= Stoi(s).value < 0x8000_0000
  {
    hide Decimal, DigitCount, TrimLeft;
  }

  lemma StoiNothing(s: string)
    requires s == [] || !(Blank(s[0]) || IsDigit(s[0]) || s[0] == '+' || s[0] == '-')
    ensures Stoi(s) == Err
  {
  }

  // A negative extent becomes a huge one.
  lemma NegativeExtent(n: nat)
    requires 0 < n <= 0x8000_0000
    ensures ParseExtent("-" + Digits(n)) == Ok(TWO_64 - n)
  {
    hide Stoi, Digits, Trim;
    var d := Digits(n);
    var s := "-" + d;
    assert d + [] == d;
    StoiReads(n, []);
    assert s[|s| - 1] == d[|d| - 1] && IsDigit(d[|d| - 1]);
    IsRemainder(0 - n);
  }

  // Brackets that are not closed, not opened or the wrong way round are refused.
  lemma BadBrackets(s: string, from: nat, p: nat)
    requires from <= p < |s|
    requires (forall i :: from <= i < |s| ==> s[i] != ']') || (forall i :: from <= i < |s| ==> s[i] != '[') ||
             (s[p] == ']' && forall i :: from <= i <= p ==> s[i] != '[')
    ensures ScanExtents(s, from) == Err
  {
    hide ParseExtent, Find;
  }

  // ---------- the helper object ----------

  // The bracket-scanning loop.
  method ParseExtents(s: string, start: nat) returns (r: Result<seq<nat>>)
    ensures r == ScanExtents(s, start)
  {
    hide Find, ParseExtent;
    var extents := [];
    var left := start;
    PrependStep([], 0, ScanExtents(s, start));
    while left < |s|
      invariant ScanExtents(s, start) == Prepend(extents, ScanExtents(s, left))
      decreases |s| - left
    {
      var open := Find(s, '[', left);
      var close := Find(s, ']', left);
      if open.None? || close.None? || open.value >= close.value {
        return Err;
      }
      var extent := ParseExtent(s[open.value + 1..close.value]);
      if extent.Err? {
        return Err;
      }
      left := close.value + 1;
      PrependStep(extents, extent.value, ScanExtents(s, left));
      extents := extents + [extent.value];
    }
    assert extents + [] == extents;
    r := Ok(extents);
  }

  class NamedTypeHelper {
    var typeName: string
    var baseType: string
    var extents: seq<nat>

    constructor ()
      ensures typeName == [] && baseType == [] && extents == []
    {
      typeName, baseType, extents := [], [], [];
    }

    // Returns false where the source throws; the fields are then left cleared.
    method Reset(str: string) returns (ok: bool)
      modifies this
      ensures ok <==> ParseType(str).Ok?
      ensures ok ==> ParseType(str) == Ok(Parsed(baseType, extents)) && typeName == Trim(str)
      ensures !ok ==> typeName == [] && baseType == [] && extents == []
    {
      typeName, baseType, extents := [], [], [];
      var s := Trim(str);
      if s == [] {
        return false;
      }
      var first := Find(s, '[', 0);
      var base := if first.None? then s else s[..first.value];
      if first.Some? {
        var found := ParseExtents(s, first.value);
        if found.Err? {
          return false;
        }
        extents := found.value;
      }
      typeName, baseType := s, base;
      return true;
    }

    method RemoveExtent() returns (removed: bool)
      modifies this`extents
      ensures removed == (old(extents) != [])
      ensures removed ==> extents == old(extents)[..|old(extents)| - 1]
      ensures !removed ==> extents == old(extents)
    {
      removed := |extents| > 0;
      if removed {
        extents := extents[..|extents| - 1];
      }
    }
  }
}
