/** Byte strings: prefixes, lexicographic order, decimal printing and parsing. */
module Bytes {
  import opened Types

  const INT64_MAX := 0x7FFF_FFFF_FFFF_FFFF
  const INT64_MIN := -0x8000_0000_0000_0000
  const MINUS: Byte := 0x2d
  const PLUS: Byte := 0x2b

  predicate HasPrefix(s: Text, p: Text) {
    p <= s
  }

  /** strings.TrimPrefix. */
  function TrimPrefix(s: Text, p: Text): Text {
    if HasPrefix(s, p) then s[|p|..] else s
  }

  /** Strict lexicographic order on byte strings, the order of etcd keys. */
  predicate LexLess(a: Text, b: Text) {
    b != [] && (a == [] || a[0] < b[0] || (a[0] == b[0] && LexLess(a[1..], b[1..])))
  }

  predicate LexLeq(a: Text, b: Text) {
    !LexLess(b, a)
  }

  // ----- decimal numbers

  predicate IsDigit(b: Byte) {
    0x30 <= b <= 0x39
  }

  predicate AllDigits(s: Text) {
    forall i | 0 <= i < |s| :: IsDigit(s[i])
  }

  function DigitsValue(s: Text): nat
    requires AllDigits(s)
  {
    if s == [] then 0 else 10 * DigitsValue(s[..|s| - 1]) + (s[|s| - 1] - 0x30)
  }

  predicate IsSign(b: Byte) {
    b == MINUS || b == PLUS
  }

  /** Value of an optionally signed, non-empty digit string that fits in a
      64-bit signed integer. */
  function Atoi(s: Text): Option<int> {
    var body := if s != [] && IsSign(s[0]) then s[1..] else s;
    if body == [] || !AllDigits(body) then None
    else
      var v := if s[0] == MINUS then -(DigitsValue(body) as int) else DigitsValue(body) as int;
      if INT64_MIN <= v <= INT64_MAX then Some(v) else None
  }

  /** The %d rendering of a non-negative number. */
  function DecimalNat(n: nat): (s: Text)
    ensures s != [] && AllDigits(s)
  {
    if n < 10 then [0x30 + n] else DecimalNat(n / 10) + [0x30 + n % 10]
  }

  /** The %d rendering of an integer. */
  function Decimal(n: int): Text {
    if n < 0 then [MINUS] + DecimalNat(-n) else DecimalNat(n)
  }

  function Zeros(n: nat): (s: Text)
    ensures |s| == n && AllDigits(s)
  {
    seq(n, _ => 0x30)
  }

  lemma {:induction false} DecimalNatValue(n: nat)
    ensures DigitsValue(DecimalNat(n)) == n
  {
    if n >= 10 {
      var s := DecimalNat(n);
      assert s[..|s| - 1] == DecimalNat(n / 10);
      DecimalNatValue(n / 10);
    }
  }

  lemma {:induction false} LeadingZeros(n: nat, s: Text)
    requires AllDigits(s)
    ensures AllDigits(Zeros(n) + s) && DigitsValue(Zeros(n) + s) == DigitsValue(s)
  {
    var t := Zeros(n) + s;
    if s != [] {
      assert t[..|t| - 1] == Zeros(n) + s[..|s| - 1];
      LeadingZeros(n, s[..|s| - 1]);
    } else if n > 0 {
      assert t[..|t| - 1] == Zeros(n - 1) + s;
      LeadingZeros(n - 1, s);
    } else {
      assert t == [];
    }
  }

  /** Any zero-padded rendering of a number that fits parses back to it. */
  lemma PaddedDecimalRoundTrip(n: nat, zeros: nat)
    requires n <= INT64_MAX
    ensures Atoi(Zeros(zeros) + DecimalNat(n)) == Some(n)
  {
    LeadingZeros(zeros, DecimalNat(n));
    DecimalNatValue(n);
    SignedAtoi(Zeros(zeros) + DecimalNat(n), false);
  }

  /** The %d rendering of any 64-bit integer parses back to it. */
  lemma DecimalRoundTrip(n: int)
    requires INT64_MIN <= n <= INT64_MAX
    ensures Atoi(Decimal(n)) == Some(n)
  {
    var digits := DecimalNat(if n < 0 then -n else n);
    DecimalNatValue(if n < 0 then -n else n);
    SignedAtoi(digits, n < 0);
  }

  lemma SignedAtoi(digits: Text, negative: bool)
    requires digits != [] && AllDigits(digits)
    ensures var v := if negative then -(DigitsValue(digits) as int) else DigitsValue(digits);
            Atoi(if negative then [MINUS] + digits else digits) == if INT64_MIN <= v <= INT64_MAX then Some(v) else None
  {
    assert ([MINUS] + digits)[1..] == digits;
  }

  /** Digit strings of one width are determined by their value. */
  lemma {:induction false} EqualWidthDigits(a: Text, b: Text)
    requires AllDigits(a) && AllDigits(b) && |a| == |b|
    requires DigitsValue(a) == DigitsValue(b)
    ensures a == b
  {
    if a != [] {
      var n := |a| - 1;
      EqualWidthDigits(a[..n], b[..n]);
      assert a == a[..n] + [a[n]] && b == b[..n] + [b[n]];
    }
  }

  function TrimZeros(s: Text): (t: Text)
    ensures t == [] || t[0] != 0x30
    ensures |t| <= |s|
  {
    if s == [] || s[0] != 0x30 then s else TrimZeros(s[1..])
  }

  lemma {:induction false} TrimmedIsPadded(s: Text)
    ensures s == Zeros(|s| - |TrimZeros(s)|) + TrimZeros(s)
  {
    if s != [] && s[0] == 0x30 {
      TrimmedIsPadded(s[1..]);
      var n := |s| - |TrimZeros(s)|;
      assert Zeros(n) == [0x30] + Zeros(n - 1);
      assert s == [0x30] + s[1..];
      assert s == Zeros(n) + TrimZeros(s);
    }
  }

  /** Two digit strings have one value exactly when they are equal after their
      leading zeros are dropped. */
  lemma SameValueExactly(a: Text, b: Text)
    requires AllDigits(a) && AllDigits(b)
    ensures DigitsValue(a) == DigitsValue(b) <==> TrimZeros(a) == TrimZeros(b)
  {
    if |TrimZeros(a)| <= |TrimZeros(b)| {
      SameValueOrdered(a, b);
    } else {
      SameValueOrdered(b, a);
    }
  }

  lemma TrimmedValue(s: Text)
    requires AllDigits(s)
    ensures AllDigits(TrimZeros(s)) && DigitsValue(TrimZeros(s)) == DigitsValue(s)
  {
    var t := TrimZeros(s);
    TrimmedIsPadded(s);
    assert forall i | 0 <= i < |t| :: t[i] == s[|s| - |t| + i];
    LeadingZeros(|s| - |t|, t);
  }

  lemma PaddedBeginsWithZero(n: nat, s: Text)
    requires n > 0
    ensures (Zeros(n) + s)[0] == 0x30
  {
  }

  lemma SameValueOrdered(a: Text, b: Text)
    requires AllDigits(a) && AllDigits(b) && |TrimZeros(a)| <= |TrimZeros(b)|
    ensures DigitsValue(a) == DigitsValue(b) <==> TrimZeros(a) == TrimZeros(b)
  {
    var s, t := TrimZeros(a), TrimZeros(b);
    TrimmedValue(a);
    TrimmedValue(b);
    if DigitsValue(s) == DigitsValue(t) {
      var n := |t| - |s|;
      LeadingZeros(n, s);
      EqualWidthDigits(Zeros(n) + s, t);
      if n > 0 {
        PaddedBeginsWithZero(n, s);
        assert false;
      }
      assert Zeros(0) + s == s;
    }
  }

  /** The second text splits off more before the separator: `b` continues `a`
      across one of the separators that `x` contains. */
  ghost predicate ShiftedSplit(a: Text, x: Text, b: Text, y: Text, c: Byte) {
    exists r: Text :: b == a + [c] + r && x == r + [c] + y
  }

  lemma LongerSplitIsShifted(a: Text, x: Text, b: Text, y: Text, c: Byte)
    requires |a| < |b| && a + [c] + x == b + [c] + y
    ensures ShiftedSplit(a, x, b, y, c)
  {
    var s := a + [c] + x;
    var r := b[|a| + 1..];
    assert a == s[..|a|] && b == s[..|b|] && s[|a|] == c;
    assert b == a + [c] + r;
    assert x == s[|a| + 1..] && s == b + [c] + y;
    assert x == r + [c] + y;
  }

  lemma ShiftedSplitJoins(a: Text, x: Text, b: Text, y: Text, c: Byte)
    requires ShiftedSplit(a, x, b, y, c)
    ensures a + [c] + x == b + [c] + y
  {
    var r :| b == a + [c] + r && x == r + [c] + y;
  }

  /** Two joined texts are the same exactly when their parts are, or one is a
      shifted split of the other. */
  lemma JoinedExactly(a: Text, x: Text, b: Text, y: Text, c: Byte)
    ensures a + [c] + x == b + [c] + y
       <==> (a == b && x == y) || ShiftedSplit(a, x, b, y, c) || ShiftedSplit(b, y, a, x, c)
  {
    if ShiftedSplit(a, x, b, y, c) {
      ShiftedSplitJoins(a, x, b, y, c);
    }
    if ShiftedSplit(b, y, a, x, c) {
      ShiftedSplitJoins(b, y, a, x, c);
    }
    if a + [c] + x == b + [c] + y {
      if |a| < |b| {
        LongerSplitIsShifted(a, x, b, y, c);
      } else if |b| < |a| {
        LongerSplitIsShifted(b, y, a, x, c);
      } else {
        var s := a + [c] + x;
        assert a == s[..|a|] == b && x == s[|a| + 1..] && y == s[|b| + 1..];
      }
    }
  }

  /** A separator that occurs in neither left part splits a text in one way. */
  lemma SplitAtSeparator(a: Text, x: Text, b: Text, y: Text, c: Byte)
    requires c !in a && c !in b
    requires a + [c] + x == b + [c] + y
    ensures a == b && x == y
  {
    var s, t := a + [c] + x, b + [c] + y;
    assert s[|a|] == c && t[|b|] == c;
    assert forall i | 0 <= i < |a| :: s[i] == a[i] != c;
    assert forall i | 0 <= i < |b| :: t[i] == b[i] != c;
    assert a == s[..|a|] && b == t[..|b|];
    assert x == s[|a| + 1..] && y == t[|b| + 1..];
  }
}
