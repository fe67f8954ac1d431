/** The stable hash of shard keys (internal/hashing/hash.go). The digest function
    is SHA-256 (FIPS 180-4, section 6.2) of the printed key; here it is any
    function from texts to 32 bytes. */
module Hashing {
  import opened Types
  import opened Bytes

  const DEFAULT_BUCKET_COUNT := 1024
  const TWO_TO_THE_64 := 0x1_0000_0000_0000_0000
  const TWO_TO_THE_63 := 0x8000_0000_0000_0000

  type Digest = s: seq<Byte> | |s| == 32 witness seq(32, _ => 0)

  function BigEndian(s: seq<Byte>): nat {
    if s == [] then 0 else 256 * BigEndian(s[..|s| - 1]) + s[|s| - 1]
  }

  /** Bytes of `n` in big-endian order. */
  function BigEndianBytes(n: nat, width: nat): (s: seq<Byte>)
    ensures |s| == width
  {
    if width == 0 then [] else BigEndianBytes(n / 256, width - 1) + [n % 256]
  }

  function Buckets(bucketCount: int): (n: int)
    ensures n > 0
  {
    if bucketCount <= 0 then DEFAULT_BUCKET_COUNT else bucketCount
  }

  function BucketFor(digest: Digest, bucketCount: int): int {
    BigEndian(digest[..8]) % Buckets(bucketCount)
  }

  function Power256(width: nat): nat {
    if width == 0 then 1 else 256 * Power256(width - 1)
  }

  lemma {:induction false} BigEndianFits(s: seq<Byte>)
    ensures BigEndian(s) < Power256(|s|)
  {
    if s != [] {
      BigEndianFits(s[..|s| - 1]);
    }
  }

  /** Eight bytes and 64-bit words are in one-to-one correspondence: encoding
      then reading gives the word back, reading then encoding the bytes. */
  lemma {:induction false} WordRoundTrip(n: nat, width: nat)
    requires n < Power256(width)
    ensures BigEndian(BigEndianBytes(n, width)) == n
  {
    if width > 0 {
      var s := BigEndianBytes(n, width);
      assert s[..|s| - 1] == BigEndianBytes(n / 256, width - 1);
      WordRoundTrip(n / 256, width - 1);
    }
  }

  lemma {:induction false} BytesRoundTrip(s: seq<Byte>)
    ensures BigEndianBytes(BigEndian(s), |s|) == s
  {
    if s != [] {
      BytesRoundTrip(s[..|s| - 1]);
      assert s == s[..|s| - 1] + [s[|s| - 1]];
    }
  }

  lemma {:induction false} LessByLast(a: Text, x: Byte, b: Text, y: Byte)
    requires |a| == |b|
    ensures LexLess(a + [x], b + [y]) <==> LexLess(a, b) || (a == b && x < y)
  {
    if a != [] {
      assert (a + [x])[1..] == a[1..] + [x] && (b + [y])[1..] == b[1..] + [y];
      LessByLast(a[1..], x, b[1..], y);
      assert a == [a[0]] + a[1..] && b == [b[0]] + b[1..];
    }
  }

  /** The first byte counts most: words are ordered as their bytes are. */
  lemma {:induction false} BigEndianOrder(a: Text, b: Text)
    requires |a| == |b|
    ensures BigEndian(a) < BigEndian(b) <==> LexLess(a, b)
  {
    if a != [] {
      var n := |a| - 1;
      assert a == a[..n] + [a[n]] && b == b[..n] + [b[n]];
      BigEndianOrder(a[..n], b[..n]);
      BytesRoundTrip(a[..n]);
      BytesRoundTrip(b[..n]);
      LessByLast(a[..n], a[n], b[..n], b[n]);
    }
  }

  /** The bucket is the word in the first eight bytes of the digest modulo the
      bucket count, 1024 if that is not positive; the other bytes do not matter. */
  lemma BucketOfWord(w: nat, tail: Text, bucketCount: int)
    requires w < TWO_TO_THE_64 && |tail| == 24
    ensures BucketFor(BigEndianBytes(w, 8) + tail, bucketCount) == w % (if bucketCount > 0 then bucketCount else 1024)
  {
    assert Power256(4) == 0x1_0000_0000;
    assert Power256(8) == TWO_TO_THE_64;
    WordRoundTrip(w, 8);
    assert (BigEndianBytes(w, 8) + tail)[..8] == BigEndianBytes(w, 8);
  }

  /** Every digest is of that form. */
  lemma DigestHasWord(digest: Digest) returns (w: nat)
    ensures w < TWO_TO_THE_64 && digest == BigEndianBytes(w, 8) + digest[8..]
  {
    assert Power256(4) == 0x1_0000_0000;
    assert Power256(8) == TWO_TO_THE_64;
    BigEndianFits(digest[..8]);
    BytesRoundTrip(digest[..8]);
    w := BigEndian(digest[..8]);
  }

  /** The golden vectors (testdata/golden_vectors.json), with the first eight bytes
      of SHA-256 of each key. */
  lemma GoldenVectors(tail: Text)
    requires |tail| == 24
    ensures BucketFor([0x6b, 0x86, 0xb2, 0x73, 0xff, 0x34, 0xfc, 0xe1] + tail, 1024) == 225 // 1
    ensures BucketFor([0x73, 0x47, 0x5c, 0xb4, 0x0a, 0x56, 0x8e, 0x8d] + tail, 1024) == 653 // 42
    ensures BucketFor([0xf9, 0xb2, 0xfe, 0x86, 0xc1, 0xfe, 0xd9, 0x4a] + tail, 1024) == 330 // tenant-abc
    ensures BucketFor([0xb3, 0x4a, 0x1c, 0x30, 0xa7, 0x15, 0xf6, 0xbf] + tail, 1024) == 703 // 9223372036854775807
    ensures BucketFor([0x5f, 0xec, 0xeb, 0x66, 0xff, 0xc8, 0x6f, 0x38] + tail, 1024) == 824 // 0
    ensures BucketFor([0x6c, 0xce, 0x36, 0xd9, 0xf8, 0xa9, 0xe1, 0x51] + tail, 1024) == 337 // 1000000
    ensures BucketFor([0x15, 0xb2, 0xd5, 0x0e, 0x9e, 0x31, 0xd1, 0x77] + tail, 1024) == 375 // merchant-9F3A
    ensures BucketFor([0xa6, 0x55, 0xf3, 0x83, 0xac, 0x3a, 0x89, 0xc8] + tail, 1024) == 456 // wallet-000123
  {
    BucketOfBytes([0x6b, 0x86, 0xb2, 0x73, 0xff, 0x34, 0xfc, 0xe1], tail);
    BucketOfBytes([0x73, 0x47, 0x5c, 0xb4, 0x0a, 0x56, 0x8e, 0x8d], tail);
    BucketOfBytes([0xf9, 0xb2, 0xfe, 0x86, 0xc1, 0xfe, 0xd9, 0x4a], tail);
    BucketOfBytes([0xb3, 0x4a, 0x1c, 0x30, 0xa7, 0x15, 0xf6, 0xbf], tail);
    BucketOfBytes([0x5f, 0xec, 0xeb, 0x66, 0xff, 0xc8, 0x6f, 0x38], tail);
    BucketOfBytes([0x6c, 0xce, 0x36, 0xd9, 0xf8, 0xa9, 0xe1, 0x51], tail);
    BucketOfBytes([0x15, 0xb2, 0xd5, 0x0e, 0x9e, 0x31, 0xd1, 0x77], tail);
    BucketOfBytes([0xa6, 0x55, 0xf3, 0x83, 0xac, 0x3a, 0x89, 0xc8], tail);
  }

  /** For 1024 buckets the last two of the eight bytes decide. */
  lemma BucketOfBytes(head: Text, tail: Text)
    requires |head| == 8 && |tail| == 24
    ensures BucketFor(head + tail, 1024) == (256 * (head[6] as int) + head[7]) % 1024
  {
    assert (head + tail)[..8] == head;
    assert head[..7][..6] == head[..6];
    var high := BigEndian(head[..6]);
    assert BigEndian(head) == 256 * (256 * high + head[6]) + head[7];
    var low: nat := 256 * (head[6] as int) + head[7];
    DivModUnique(64 * high * 1024 + low, 1024, 64 * high + low / 1024, low % 1024);
  }

  /** The bucket of a key is an index below the bucket count, and a Go int. */
  lemma BucketInRange(digest: Digest, bucketCount: int)
    requires bucketCount < TWO_TO_THE_63
    ensures 0 <= BucketFor(digest, bucketCount) < Buckets(bucketCount) < TWO_TO_THE_63
  {
  }

  // ----- how evenly words fall into buckets

  lemma ProductBound(k: int, n: int)
    requires n > 0
    ensures k >= 1 ==> k * n >= n
    ensures k <= -1 ==> k * n <= -n
  {
    assert k >= 1 ==> k * n == n + (k - 1) * n && (k - 1) * n >= 0;
    assert k <= -1 ==> (-k) * n == n + (-k - 1) * n && (-k - 1) * n >= 0;
  }

  lemma DivModUnique(m: nat, n: nat, q: nat, r: nat)
    requires r < n && m == q * n + r
    ensures m / n == q && m % n == r
  {
    var k := m / n - q;
    assert m == (m / n) * n + m % n;
    assert k * n == (m / n) * n - q * n;
    ProductBound(k, n);
  }

  lemma DivModNext(m: nat, n: nat)
    requires n > 0
    ensures (m + 1) / n == m / n + (if m % n == n - 1 then 1 else 0)
    ensures (m + 1) % n == if m % n == n - 1 then 0 else m % n + 1
  {
    if m % n == n - 1 {
      assert m + 1 == (m / n + 1) * n + 0;
      DivModUnique(m + 1, n, m / n + 1, 0);
    } else {
      DivModUnique(m + 1, n, m / n, m % n + 1);
    }
  }

  /** The words below `m` that fall into bucket `b`. */
  ghost function Words(m: nat, n: nat, b: nat): set<nat>
    requires n > 0
  {
    set w: nat | w < m && w % n == b
  }

  lemma {:induction false} Population(m: nat, n: nat, b: nat)
    requires b < n
    ensures |Words(m, n, b)| == m / n + (if b < m % n then 1 else 0)
  {
    if m == 0 {
      assert Words(0, n, b) == {};
      DivModUnique(0, n, 0, 0);
    } else {
      Population(m - 1, n, b);
      DivModNext(m - 1, n);
      if (m - 1) % n == b {
        assert Words(m, n, b) == Words(m - 1, n, b) + {m - 1};
      } else {
        assert Words(m, n, b) == Words(m - 1, n, b);
      }
    }
  }

  /** The leading words with which a digest ending in `tail` falls into bucket `b`. */
  ghost function Heads(tail: Text, bucketCount: int, b: nat): set<nat>
    requires |tail| == 24
  {
    set w: nat | w < TWO_TO_THE_64 && BucketFor(BigEndianBytes(w, 8) + tail, bucketCount) == b
  }

  lemma HeadsAreWords(tail: Text, bucketCount: int, b: nat)
    requires |tail| == 24
    ensures Heads(tail, bucketCount, b) == Words(TWO_TO_THE_64, Buckets(bucketCount), b)
  {
    forall w: nat | w < TWO_TO_THE_64
      ensures BucketFor(BigEndianBytes(w, 8) + tail, bucketCount) == w % Buckets(bucketCount)
    {
      BucketOfWord(w, tail, bucketCount);
    }
  }

  /** Over all 2^64 leading words of digests, whatever their other bytes, two
      buckets differ by at most one word. */
  lemma FairReduction(bucketCount: int, b: nat, b': nat, tail: Text)
    requires bucketCount < TWO_TO_THE_63
    requires b < Buckets(bucketCount) && b' < Buckets(bucketCount)
    requires |tail| == 24
    ensures -1 <= |Heads(tail, bucketCount, b)| - |Heads(tail, bucketCount, b')| <= 1
  {
    HeadsAreWords(tail, bucketCount, b);
    HeadsAreWords(tail, bucketCount, b');
    Population(TWO_TO_THE_64, Buckets(bucketCount), b);
    Population(TWO_TO_THE_64, Buckets(bucketCount), b');
  }

  /** All buckets get the same number of words exactly when their count divides
      2^64, as the default count does. */
  lemma EvenExactlyWhenDividing(bucketCount: int, tail: Text)
    requires bucketCount < TWO_TO_THE_63 && |tail| == 24
    ensures var n := Buckets(bucketCount);
            (forall b: nat, b': nat | b < n && b' < n ::
               |Heads(tail, bucketCount, b)| == |Heads(tail, bucketCount, b')|)
            <==> TWO_TO_THE_64 % n == 0
    ensures TWO_TO_THE_64 % DEFAULT_BUCKET_COUNT == 0
  {
    var n: nat := Buckets(bucketCount);
    forall b: nat | b < n
      ensures |Heads(tail, bucketCount, b)| == TWO_TO_THE_64 / n + (if b < TWO_TO_THE_64 % n then 1 else 0)
    {
      HeadsAreWords(tail, bucketCount, b);
      Population(TWO_TO_THE_64, n, b);
    }
    if TWO_TO_THE_64 % n != 0 {
      assert |Heads(tail, bucketCount, 0)| != |Heads(tail, bucketCount, n - 1)|;
    }
  }
}
