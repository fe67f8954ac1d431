/** The etcd key-space layout (internal/registry/keys.go). */
module Keys {
  import opened Types
  import opened Bytes
  import opened PrefixRange

  // /sharding/
  function Prefix(): Text {
    [0x2f, 0x73, 0x68, 0x61, 0x72, 0x64, 0x69, 0x6e, 0x67, 0x2f]
  }

  // /sharding/shards/
  function ShardsPrefix(): Text {
    Prefix() + [0x73, 0x68, 0x61, 0x72, 0x64, 0x73, 0x2f]
  }

  // /sharding/buckets/
  function BucketsPrefix(): Text {
    Prefix() + [0x62, 0x75, 0x63, 0x6b, 0x65, 0x74, 0x73, 0x2f]
  }

  function ShardIDFromKey(key: Text): Option<Text> {
    if !HasPrefix(key, ShardsPrefix()) then None else Some(TrimPrefix(key, ShardsPrefix()))
  }

  function BucketIDFromKey(key: Text): Option<int> {
    if !HasPrefix(key, BucketsPrefix()) then None else Atoi(TrimPrefix(key, BucketsPrefix()))
  }

  /** The map entry a raw key stands for. */
  datatype Slot = ShardSlot(shardID: Text) | BucketSlot(bucketID: int) | Ignored

  function SlotOf(key: Text): Slot {
    match ShardIDFromKey(key)
    case Some(id) => ShardSlot(id)
    case None =>
      match BucketIDFromKey(key)
      case Some(id) => BucketSlot(id)
      case None => Ignored
  }

  /** The keys a request for the whole key-space selects. */
  predicate Requested(key: Text) {
    Selects(Prefix(), RangeEnd(Prefix()), key)
  }

  /** The range of the request covers every key that stands for an entry. */
  lemma RequestCoversSlots(key: Text)
    requires SlotOf(key) != Ignored
    ensures Requested(key)
  {
    PrefixRangeIsExact(Prefix(), key);
    assert Prefix() <= ShardsPrefix() && Prefix() <= BucketsPrefix();
  }

  /** Shard keys and bucket keys never meet, and shard keys are told apart by
      their ids. */
  lemma ShardKeysAreDistinct(a: Text, b: Text)
    requires SlotOf(a) == SlotOf(b) && SlotOf(a).ShardSlot?
    ensures a == b
  {
    assert a == ShardsPrefix() + a[|ShardsPrefix()|..];
    assert b == ShardsPrefix() + b[|ShardsPrefix()|..];
  }

  function ShardKey(id: Text): Text {
    ShardsPrefix() + id
  }

  function BucketKey(digits: Text): Text {
    BucketsPrefix() + digits
  }

  lemma ShardKeySlot(id: Text)
    ensures SlotOf(ShardKey(id)) == ShardSlot(id)
  {
    assert ShardKey(id)[|ShardsPrefix()|..] == id;
  }

  lemma BucketKeySlot(s: Text)
    ensures SlotOf(BucketKey(s)) == match Atoi(s) { case Some(id) => BucketSlot(id) case None => Ignored }
  {
    var k := BucketKey(s);
    assert k[|BucketsPrefix()|..] == s;
    assert k[|Prefix()|] == 0x62 && ShardsPrefix()[|Prefix()|] == 0x73;
  }

  /** Any zero-padded rendering of a bucket id that fits stands for that id. */
  lemma PaddedBucketKeyRoundTrip(id: nat, zeros: nat)
    requires id <= INT64_MAX
    ensures SlotOf(BucketKey(Zeros(zeros) + DecimalNat(id))) == BucketSlot(id)
  {
    PaddedDecimalRoundTrip(id, zeros);
    BucketKeySlot(Zeros(zeros) + DecimalNat(id));
  }

  /** Digit keys of one width never alias. */
  lemma EqualWidthKeysNeverAlias(a: Text, b: Text)
    requires AllDigits(a) && AllDigits(b) && |a| == |b|
    requires SlotOf(BucketKey(a)) == SlotOf(BucketKey(b)) != Ignored
    ensures a == b
  {
    BucketKeySlot(a);
    BucketKeySlot(b);
    EqualWidthDigits(a, b);
  }

  predicate FitDigits(s: Text) {
    s != [] && AllDigits(s) && DigitsValue(s) <= INT64_MAX
  }

  /** Digit keys that fit are aliases exactly when they are equal after their
      leading zeros are dropped. */
  lemma DigitKeysAliasExactly(a: Text, b: Text)
    requires FitDigits(a) && FitDigits(b)
    ensures SlotOf(BucketKey(a)) == SlotOf(BucketKey(b)) <==> TrimZeros(a) == TrimZeros(b)
  {
    BucketKeySlot(a);
    BucketKeySlot(b);
    SignedAtoi(a, false);
    SignedAtoi(b, false);
    SameValueExactly(a, b);
  }

  /** So zero padding makes an alias of every key: "527" and "0527" are one bucket. */
  lemma UnequalWidthKeysAlias(s: Text, zeros: nat)
    requires FitDigits(s)
    ensures SlotOf(BucketKey(Zeros(zeros) + s)) == SlotOf(BucketKey(s)) == BucketSlot(DigitsValue(s))
  {
    LeadingZeros(zeros, s);
    SignedAtoi(s, false);
    SignedAtoi(Zeros(zeros) + s, false);
    BucketKeySlot(s);
    BucketKeySlot(Zeros(zeros) + s);
  }

  /** A plus sign makes one of equal width: "+5" and "05" are one bucket. */
  lemma SignedKeysAlias(s: Text)
    requires FitDigits(s)
    ensures SlotOf(BucketKey([PLUS] + s)) == SlotOf(BucketKey(Zeros(1) + s)) == BucketSlot(DigitsValue(s))
  {
    UnequalWidthKeysAlias(s, 1);
    assert ([PLUS] + s)[1..] == s;
    BucketKeySlot([PLUS] + s);
  }
}
