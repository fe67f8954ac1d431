/** The half-open key range of a prefix request (internal/registry/etcdhttp.go). */
module PrefixRange {
  import opened Types
  import opened Bytes

  /** The range_end with which etcd reads "every key from `key` on". */
  const NO_UPPER_BOUND: Text := [0x00]

  /** The keys an etcd request with these two fields selects. */
  predicate Selects(key: Text, rangeEnd: Text, k: Text) {
    LexLeq(key, k) && (rangeEnd == NO_UPPER_BOUND || LexLess(k, rangeEnd))
  }

  /** Drop trailing 0xff bytes, then increment the last byte. */
  function RangeEnd(p: Text): Text {
    if p == [] then NO_UPPER_BOUND
    else if p[|p| - 1] < 0xff then p[..|p| - 1] + [p[|p| - 1] + 1]
    else RangeEnd(p[..|p| - 1])
  }

  method GetPrefixRangeEnd(prefix: Text) returns (end: Text)
    ensures end == RangeEnd(prefix)
  {
    var buf := new Byte[|prefix|](i requires 0 <= i < |prefix| => prefix[i]);
    assert buf[..] == prefix == prefix[..|prefix|];
    var i := buf.Length - 1;
    while i >= 0
      invariant -1 <= i < buf.Length
      invariant buf[..] == prefix
      invariant RangeEnd(prefix) == RangeEnd(prefix[..i + 1])
    {
      if buf[i] < 0xff {
        var out := new Byte[i + 1](j requires 0 <= j <= i reads buf => buf[j]);
        assert out[..] == prefix[..i + 1];
        out[i] := out[i] + 1;
        assert out[..] == prefix[..i] + [prefix[i] + 1];
        assert prefix[..i + 1][..i] == prefix[..i];
        return out[..];
      }
      assert prefix[..i + 1][..i] == prefix[..i];
      i := i - 1;
    }
    assert prefix[..0] == [];
    return NO_UPPER_BOUND;
  }

  // ----- the order facts behind exactness

  lemma {:induction false} LessAfterCommon(c: Text, a: Text, b: Text)
    ensures LexLess(c + a, c + b) == LexLess(a, b)
  {
    if c == [] {
      assert c + a == a && c + b == b;
    } else {
      assert (c + a)[1..] == c[1..] + a && (c + b)[1..] == c[1..] + b;
      LessAfterCommon(c[1..], a, b);
    }
  }

  /** Two texts part either at a first differing byte or where one ends. */
  lemma CommonPart(a: Text, b: Text) returns (n: nat)
    ensures n <= |a| && n <= |b| && a[..n] == b[..n]
    ensures n < |a| && n < |b| ==> a[n] != b[n]
  {
    n := 0;
    while n < |a| && n < |b| && a[n] == b[n]
      invariant n <= |a| && n <= |b| && a[..n] == b[..n]
    {
      n := n + 1;
    }
  }

  lemma LessByFirstDifference(a: Text, b: Text, n: nat)
    requires n <= |a| && n <= |b| && a[..n] == b[..n]
    requires n < |a| && n < |b| ==> a[n] != b[n]
    ensures LexLess(a, b) == (n < |b| && (n == |a| || a[n] < b[n]))
  {
    assert a == a[..n] + a[n..] && b == b[..n] + b[n..];
    LessAfterCommon(a[..n], a[n..], b[n..]);
  }

  /** The prefix that `RangeEnd` increments: `p` without its trailing 0xff bytes. */
  function Trimmed(p: Text): (t: Text)
    ensures t <= p
    ensures t != [] ==> t[|t| - 1] < 0xff
    ensures forall i | |t| <= i < |p| :: p[i] == 0xff
    ensures RangeEnd(p) == if t == [] then NO_UPPER_BOUND else t[..|t| - 1] + [t[|t| - 1] + 1]
  {
    if p == [] || p[|p| - 1] < 0xff then p else Trimmed(p[..|p| - 1])
  }

  /** The bound `e` is the part of `p` before `m` and then the next byte. */
  predicate Increments(e: Text, p: Text, m: nat) {
    |e| == m + 1 && m < |p| && e[..m] == p[..m] && e[m] as int == p[m] as int + 1
  }

  lemma PrefixedIsBelow(k: Text, p: Text, e: Text, m: nat)
    requires Increments(e, p, m) && HasPrefix(k, p)
    ensures LexLess(k, e)
  {
    assert k[..m] == p[..m];
    LessByFirstDifference(k, e, m);
  }

  lemma PartedIsNotBelow(k: Text, p: Text, e: Text, m: nat, n: nat)
    requires Increments(e, p, m) && n <= m && n < |k| && k[..n] == p[..n] && k[n] > p[n]
    ensures !LexLess(k, e)
  {
    if n == m {
      LessBound(k, e, m);
    } else {
      assert e[..n] == e[..m][..n] == p[..n] && e[n] == e[..m][n] == p[n];
      LessByFirstDifference(k, e, n);
    }
  }

  /** The range of a prefix request holds exactly the keys with that prefix. */
  lemma PrefixRangeIsExact(p: Text, k: Text)
    ensures Selects(p, RangeEnd(p), k) <==> HasPrefix(k, p)
  {
    var t := Trimmed(p);
    var n := CommonPart(k, p);
    LessByFirstDifference(k, p, n);
    if t == [] {
      if n < |p| && n < |k| { assert p[n] == 0xff; }
    } else {
      var e, m := RangeEnd(p), |t| - 1;
      assert t == p[..|t|] && Increments(e, p, m);
      assert e != NO_UPPER_BOUND by { assert e[m] != 0; }
      if n == |p| {
        PrefixedIsBelow(k, p, e, m);
      } else if n < |k| && k[n] > p[n] {
        PartedIsNotBelow(k, p, e, m, n);
      }
    }
  }

  lemma LessBound(k: Text, e: Text, m: nat)
    requires |e| == m + 1 && m < |k| && k[..m] == e[..m] && k[m] >= e[m]
    ensures !LexLess(k, e)
  {
    var j := if k[m] == e[m] then m + 1 else m;
    assert k[..m + 1] == k[..m] + [k[m]] && e[..m + 1] == e[..m] + [e[m]];
    LessByFirstDifference(k, e, j);
  }

  /** The one-zero-byte text is the range end of exactly the prefixes after which
      nothing comes: the empty one and those of 0xff bytes only. */
  lemma UnboundedExactly(p: Text)
    ensures RangeEnd(p) == [0x00] <==> forall i | 0 <= i < |p| :: p[i] == 0xff
  {
    var t := Trimmed(p);
    if t != [] {
      assert RangeEnd(p)[|t| - 1] == t[|t| - 1] + 1;
      assert t[|t| - 1] == p[|t| - 1];
    }
  }
}
