/** The file-backed registry (internal/registry/file.go): a second way to build
    the mapping, and when it gives the same routes as a load from etcd. */
module FileRegistry {
  import opened Types
  import opened Bytes
  import opened Keys
  import opened Snapshots
  import opened KeySpace
  import Cache

  datatype FileDoc = FileDoc(shards: map<Text, ShardDef>, buckets: map<Text, BucketDef>)

  // ----- fmt.Sscanf(s, "%d", &id)

  const NEWLINE: Byte := 0x0a
  const RETURN: Byte := 0x0d

  /** White space that Sscanf skips; a newline is white space it rejects. */
  predicate IsBlank(b: Byte) {
    b == 0x20 || (0x09 <= b <= RETURN && b != NEWLINE)
  }

  predicate Blank(s: Text) {
    forall i | 0 <= i < |s| :: IsBlank(s[i])
  }

  /** The input after leading white space; none if a newline is met. */
  function SkipSpace(s: Text): Option<Text> {
    if s == [] then Some(s)
    else if s[0] == NEWLINE then None
    else if IsBlank(s[0]) then SkipSpace(s[1..])
    else Some(s)
  }

  function LeadingDigits(s: Text): (n: nat)
    ensures n <= |s| && AllDigits(s[..n]) && (n < |s| ==> !IsDigit(s[n]))
  {
    if s == [] || !IsDigit(s[0]) then 0 else 1 + LeadingDigits(s[1..])
  }

  /** An optionally signed number at the start of the input; what follows it is
      not looked at. */
  function ParseBucketID(s: Text): Option<int> {
    match SkipSpace(s)
    case None => None
    case Some(t) => ParseNumber(t)
  }

  function ParseNumber(t: Text): Option<int> {
    var n := NumberLength(t);
    if SignedDigits(t[..n]) then Atoi(t[..n]) else None
  }

  /** The length of the sign, if there is one, and the digits that follow. */
  function NumberLength(t: Text): (n: nat)
    ensures n <= |t|
  {
    var signed := if t != [] && IsSign(t[0]) then 1 else 0;
    signed + LeadingDigits(t[signed..])
  }

  predicate SignedDigits(s: Text) {
    var body := if s != [] && IsSign(s[0]) then s[1..] else s;
    body != [] && AllDigits(body)
  }

  // ----- the key texts on which the two registries differ

  /** `s` is blank, then a number that fits, then something that does not continue it. */
  predicate NumberWithin(s: Text, w: Text, num: Text, rest: Text) {
    && s == w + num + rest
    && Blank(w) && SignedDigits(num) && Atoi(num).Some?
    && (rest == [] || !IsDigit(rest[0]))
  }

  lemma {:induction false} SkipBlank(w: Text, t: Text)
    requires Blank(w) && (t == [] || (t[0] != NEWLINE && !IsBlank(t[0])))
    ensures SkipSpace(w + t) == Some(t)
  {
    if w == [] {
      assert w + t == t;
    } else {
      assert (w + t)[0] == w[0] && (w + t)[1..] == w[1..] + t;
      SkipBlank(w[1..], t);
    }
  }

  lemma {:induction false} SkippedIsBlank(s: Text) returns (w: Text)
    requires SkipSpace(s).Some?
    ensures s == w + SkipSpace(s).value && Blank(w)
  {
    if s != [] && IsBlank(s[0]) {
      var w' := SkippedIsBlank(s[1..]);
      w := [s[0]] + w';
      assert s == [s[0]] + s[1..];
    } else {
      w := [];
    }
  }

  lemma {:induction false} DigitsThenRest(digits: Text, rest: Text)
    requires AllDigits(digits) && (rest == [] || !IsDigit(rest[0]))
    ensures LeadingDigits(digits + rest) == |digits|
  {
    if digits == [] {
      assert digits + rest == rest;
    } else {
      assert (digits + rest)[1..] == digits[1..] + rest;
      DigitsThenRest(digits[1..], rest);
    }
  }

  lemma NumberThenRest(num: Text, rest: Text)
    requires SignedDigits(num) && (rest == [] || !IsDigit(rest[0]))
    ensures NumberLength(num + rest) == |num| && ParseNumber(num + rest) == Atoi(num)
  {
    var signed := if IsSign(num[0]) then 1 else 0;
    assert (num + rest)[signed..] == num[signed..] + rest;
    DigitsThenRest(num[signed..], rest);
    assert (num + rest)[..|num|] == num;
  }

  /** Such a text is the number for the file registry. */
  lemma WithinIsParsed(s: Text, w: Text, num: Text, rest: Text)
    requires NumberWithin(s, w, num, rest)
    ensures ParseBucketID(s) == Atoi(num)
  {
    assert s == w + (num + rest);
    SkipBlank(w, num + rest);
    NumberThenRest(num, rest);
  }

  /** Every text that is a number for the file registry is such a text. */
  lemma ParsedIsWithin(s: Text) returns (w: Text, num: Text, rest: Text)
    requires ParseBucketID(s).Some?
    ensures NumberWithin(s, w, num, rest) && ParseBucketID(s) == Atoi(num)
  {
    w := SkippedIsBlank(s);
    var t := SkipSpace(s).value;
    var n := NumberLength(t);
    num, rest := t[..n], t[n..];
    assert t == num + rest;
    NumberEnds(t);
  }

  lemma NumberEnds(t: Text)
    ensures var n := NumberLength(t); n < |t| ==> !IsDigit(t[n])
  {
    var signed := if t != [] && IsSign(t[0]) then 1 else 0;
    var digits := t[signed..];
    assert LeadingDigits(digits) < |digits| ==> digits[LeadingDigits(digits)] == t[signed + LeadingDigits(digits)];
  }

  /** Blank or trailing text makes it no number for etcd. */
  lemma SurroundedIsNoNumber(s: Text, w: Text, num: Text, rest: Text)
    requires NumberWithin(s, w, num, rest) && (w != [] || rest != [])
    ensures Atoi(s).None?
  {
    var body := if IsSign(s[0]) then s[1..] else s;
    if w != [] {
      assert s[0] == w[0] && !IsDigit(body[0]);
    } else {
      var i := |s| - |rest|;
      assert s[i] == rest[0] && i > 0;
      assert body[i - (|s| - |body|)] == rest[0];
    }
  }

  /** A plain number is a bucket key for both. */
  lemma PlainNumberParses(s: Text)
    requires Atoi(s).Some?
    ensures ParseBucketID(s) == Atoi(s)
  {
    WithinIsParsed(s, [], s, []);
  }

  /** The two registries read a bucket key differently exactly when it is a number
      that fits with white space before it or other text behind it. */
  lemma ParsersDifferExactly(s: Text)
    ensures ParseBucketID(s) != Atoi(s)
       <==> exists w, num, rest :: NumberWithin(s, w, num, rest) && (w != [] || rest != [])
  {
    if ParseBucketID(s) != Atoi(s) {
      if Atoi(s).Some? {
        PlainNumberParses(s);
      }
      var w, num, rest := ParsedIsWithin(s);
      assert w == [] && rest == [] ==> s == num;
    }
    if w, num, rest :| NumberWithin(s, w, num, rest) && (w != [] || rest != []) {
      WithinIsParsed(s, w, num, rest);
      SurroundedIsNoNumber(s, w, num, rest);
    }
  }

  /** "12a" is bucket 12 for the file registry and no bucket for etcd. */
  lemma TrailingTextSplitsParsers()
    ensures ParseBucketID([0x31, 0x32, 0x61]) == Some(12) && Atoi([0x31, 0x32, 0x61]) == None
  {
    assert Zeros(0) + DecimalNat(12) == [0x31, 0x32];
    PaddedDecimalRoundTrip(12, 0);
    var s: Text := [0x31, 0x32, 0x61];
    assert s == [] + [0x31, 0x32] + [0x61];
    WithinIsParsed(s, [], [0x31, 0x32], [0x61]);
    SurroundedIsNoNumber(s, [], [0x31, 0x32], [0x61]);
  }

  // ----- the mapping Start builds

  /** The ids the bucket keys of a document parse to. */
  function ParsedIDs(buckets: map<Text, BucketDef>): map<Text, int> {
    map s | s in buckets && ParseBucketID(s).Some? :: ParseBucketID(s).value
  }

  /** Key `s` of the document fills bucket `id`. */
  predicate Fills(doc: FileDoc, ids: map<Text, int>, m: Snapshot, s: Text, id: int) {
    s in doc.buckets && s in ids && ids[s] == id && id in m.buckets && m.buckets[id] == doc.buckets[s].(bucketID := id)
  }

  /** `m` holds all shards, and a record for exactly the buckets that the keys
      in `done` stand for. */
  ghost predicate Built(doc: FileDoc, ids: map<Text, int>, done: set<Text>, m: Snapshot) {
    && m.revision == 1 && m.shards == doc.shards && done <= doc.buckets.Keys && done <= ids.Keys
    && (forall s | s in done :: ids[s] in m.buckets)
    && (forall id | id in m.buckets :: Filler(doc, ids, done, m, id))
  }

  ghost predicate Filler(doc: FileDoc, ids: map<Text, int>, done: set<Text>, m: Snapshot, id: int) {
    exists s :: s in done && Fills(doc, ids, m, s, id)
  }

  lemma BuiltNamesItself(doc: FileDoc, ids: map<Text, int>, done: set<Text>, m: Snapshot)
    requires Built(doc, ids, done, m)
    ensures forall b | b in m.buckets :: m.buckets[b].bucketID == b
  {
    forall b | b in m.buckets ensures m.buckets[b].bucketID == b {
      assert Filler(doc, ids, done, m, b);
    }
  }

  lemma BuiltNext(doc: FileDoc, ids: map<Text, int>, done: set<Text>, m: Snapshot, s: Text, id: int)
    requires Built(doc, ids, done, m) && s in doc.buckets && s in ids && ids[s] == id
    ensures Built(doc, ids, done + {s}, m.(buckets := m.buckets[id := doc.buckets[s].(bucketID := id)]))
  {
    var m' := m.(buckets := m.buckets[id := doc.buckets[s].(bucketID := id)]);
    forall i | i in m'.buckets
      ensures Filler(doc, ids, done + {s}, m', i)
    {
      if i == id {
        assert Fills(doc, ids, m', s, i);
      } else {
        assert Filler(doc, ids, done, m, i);
        var s' :| s' in done && Fills(doc, ids, m, s', i);
        assert s' in done + {s} && Fills(doc, ids, m', s', i);
      }
    }
  }

  class FileRegistry {
    const store: Cache.Store

    constructor ()
      ensures fresh(store) && store.ptr == null
    {
      store := new Cache.Store();
    }

    /** `doc` is none when the file cannot be read or decoded. Keys are visited
        in any order; the first bad one abandons the load. */
    method Start(doc: Option<FileDoc>) returns (ok: bool)
      modifies store
      ensures ok <==> doc.Some? && forall s | s in doc.value.buckets :: ParseBucketID(s).Some?
      ensures !ok ==> store.ptr == old(store.ptr)
      ensures ok ==> store.ptr != null && fresh(store.ptr) &&
                     Built(doc.value, ParsedIDs(doc.value.buckets), doc.value.buckets.Keys, store.ptr.Contents())
      ensures ok ==> store.ptr.revision == 1 && store.ptr.shards.entries == doc.value.shards
      ensures ok ==> forall b | b in store.ptr.buckets.entries :: store.ptr.buckets.entries[b].bucketID == b
    {
      if doc.None? {
        return false;
      }
      var file := doc.value;
      ghost var ids := ParsedIDs(file.buckets);
      var m := new Cache.Mapping(1);
      m.shards.entries := file.shards;
      var todo := file.buckets.Keys;
      while todo != {}
        invariant fresh(m.Footprint())
        invariant todo <= file.buckets.Keys
        invariant forall s | s in file.buckets.Keys - todo :: ParseBucketID(s).Some?
        invariant Built(file, ids, file.buckets.Keys - todo, m.Contents())
        modifies m.buckets
        decreases todo
      {
        var s :| s in todo;
        var id := ParseBucketID(s);
        if id.None? {
          return false;
        }
        ghost var before := m.Contents();
        m.buckets.Put(id.value, file.buckets[s].(bucketID := id.value));
        BuiltNext(file, ids, file.buckets.Keys - todo, before, s, id.value);
        assert file.buckets.Keys - (todo - {s}) == file.buckets.Keys - todo + {s};
        todo := todo - {s};
      }
      assert file.buckets.Keys - {} == file.buckets.Keys;
      BuiltNamesItself(file, ids, file.buckets.Keys, m.Contents());
      store.Swap(m);
      return true;
    }
  }

  // ----- agreement with etcd

  /** etcd holds exactly the document, entry by entry. */
  ghost predicate Corresponds(d: Codec, doc: FileDoc, ks: KeyValues) {
    && (forall id | id in doc.shards :: ShardKey(id) in ks && d.shard(ks[ShardKey(id)]) == Some(doc.shards[id]))
    && (forall s | s in doc.buckets :: BucketKey(s) in ks && d.bucket(ks[BucketKey(s)]) == Some(doc.buckets[s]))
    && (forall k | k in ks && SlotOf(k) != Ignored :: InDoc(doc, k))
  }

  /** The key is one of the document's shard or bucket keys. */
  predicate InDoc(doc: FileDoc, k: Text) {
    if HasPrefix(k, ShardsPrefix()) then TrimPrefix(k, ShardsPrefix()) in doc.shards
    else HasPrefix(k, BucketsPrefix()) && TrimPrefix(k, BucketsPrefix()) in doc.buckets
  }

  /** Bucket keys are plain numbers that fit, and no two stand for one bucket. */
  ghost predicate PlainBucketKeys(doc: FileDoc) {
    && (forall s | s in doc.buckets :: Atoi(s).Some?)
    && (forall s, s' | s in doc.buckets && s' in doc.buckets && Atoi(s) == Atoi(s') :: s == s')
  }

  /** The same, said of the ids parsed. */
  ghost predicate PlainIDs(doc: FileDoc, ids: map<Text, int>) {
    && ids.Keys == doc.buckets.Keys && Injective(ids)
    && (forall s | s in ids :: SlotOf(BucketKey(s)) == BucketSlot(ids[s]))
  }

  ghost predicate Injective(ids: map<Text, int>) {
    forall s, s' | s in ids && s' in ids && ids[s] == ids[s'] :: s == s'
  }

  lemma PlainKeyParses(s: Text)
    requires Atoi(s).Some?
    ensures ParseBucketID(s) == Atoi(s) && SlotOf(BucketKey(s)) == BucketSlot(Atoi(s).value)
  {
    PlainNumberParses(s);
    BucketKeySlot(s);
  }

  lemma PlainKeysHavePlainIDs(doc: FileDoc)
    requires PlainBucketKeys(doc)
    ensures PlainIDs(doc, ParsedIDs(doc.buckets))
  {
    var ids := ParsedIDs(doc.buckets);
    forall s | s in doc.buckets
      ensures s in ids && Atoi(s) == Some(ids[s]) && SlotOf(BucketKey(s)) == BucketSlot(ids[s])
    {
      PlainKeyParses(s);
    }
  }

  /** applyKV fills an empty shard_id in; the file registry does not. */
  function Defaulted(shards: map<Text, ShardDef>): map<Text, ShardDef> {
    map id | id in shards :: if shards[id].shardID == [] then shards[id].(shardID := id) else shards[id]
  }

  /** The mapping of the document with empty shard ids filled in. */
  function Filled(doc: FileDoc, m: Snapshot): Snapshot {
    m.(shards := Defaulted(doc.shards))
  }

  lemma ShardKeyDecodes(d: Codec, doc: FileDoc, m: Snapshot, id: Text, value: Text)
    requires id in doc.shards && d.shard(value) == Some(doc.shards[id])
    ensures SlotOf(ShardKey(id)) == ShardSlot(id)
    ensures Decoded(d, ShardKey(id), value) == Get(Filled(doc, m), ShardSlot(id)) != None
  {
    ShardKeySlot(id);
  }

  lemma BucketKeyDecodes(d: Codec, doc: FileDoc, ids: map<Text, int>, m: Snapshot, s: Text, id: int, value: Text)
    requires Fills(doc, ids, m, s, id) && SlotOf(BucketKey(s)) == BucketSlot(id)
    requires d.bucket(value) == Some(doc.buckets[s])
    ensures Decoded(d, BucketKey(s), value) == Get(Filled(doc, m), BucketSlot(id)) != None
  {
  }

  /** Exactly one key of the document fills the bucket it names. */
  lemma OneKeyFills(doc: FileDoc, ids: map<Text, int>, m: Snapshot, s: Text)
    requires s in ids && Injective(ids)
    requires exists s' :: Fills(doc, ids, m, s', ids[s])
    ensures Fills(doc, ids, m, s, ids[s])
  {
    var s' :| Fills(doc, ids, m, s', ids[s]);
    assert s == s';
  }

  lemma SomeKeyFills(doc: FileDoc, ids: map<Text, int>, m: Snapshot, s: Text)
    requires Built(doc, ids, doc.buckets.Keys, m) && s in doc.buckets
    ensures s in ids && ids[s] in m.buckets && exists s' :: Fills(doc, ids, m, s', ids[s])
  {
    var id := ids[s];
    assert id in m.buckets && Filler(doc, ids, doc.buckets.Keys, m, id);
    var s' :| s' in doc.buckets.Keys && Fills(doc, ids, m, s', id);
  }

  lemma LiveBucketKeyAgrees(d: Codec, doc: FileDoc, ids: map<Text, int>, m: Snapshot, s: Text, value: Text)
    requires s in doc.buckets && s in ids && Injective(ids) && SlotOf(BucketKey(s)) == BucketSlot(ids[s])
    requires exists s' :: Fills(doc, ids, m, s', ids[s])
    requires d.bucket(value) == Some(doc.buckets[s])
    ensures Decoded(d, BucketKey(s), value) == Get(Filled(doc, m), BucketSlot(ids[s]))
  {
    OneKeyFills(doc, ids, m, s);
    BucketKeyDecodes(d, doc, ids, m, s, ids[s], value);
  }

  lemma LiveKeyAgrees(d: Codec, doc: FileDoc, ids: map<Text, int>, m: Snapshot, ks: KeyValues, k: Text, slot: Slot)
    requires Built(doc, ids, doc.buckets.Keys, m) && Corresponds(d, doc, ks) && PlainIDs(doc, ids)
    requires k in ks && SlotOf(k) == slot != Ignored
    ensures Decoded(d, k, ks[k]) == Get(Filled(doc, m), slot)
  {
    assert InDoc(doc, k);
    if HasPrefix(k, ShardsPrefix()) {
      var id := TrimPrefix(k, ShardsPrefix());
      assert k == ShardKey(id);
      ShardKeyDecodes(d, doc, m, id, ks[k]);
    } else {
      var s := TrimPrefix(k, BucketsPrefix());
      assert k == BucketKey(s);
      SomeKeyFills(doc, ids, m, s);
      LiveBucketKeyAgrees(d, doc, ids, m, s, ks[k]);
    }
  }

  lemma EntryHasLiveKey(d: Codec, doc: FileDoc, ids: map<Text, int>, m: Snapshot, ks: KeyValues, slot: Slot) returns (k: Text)
    requires Built(doc, ids, doc.buckets.Keys, m) && Corresponds(d, doc, ks) && PlainIDs(doc, ids)
    requires Get(Filled(doc, m), slot).Some?
    ensures Stands(d, ks, k, slot)
  {
    if slot.ShardSlot? {
      k := ShardKey(slot.shardID);
      ShardKeyDecodes(d, doc, m, slot.shardID, ks[k]);
    } else {
      assert Filler(doc, ids, doc.buckets.Keys, m, slot.bucketID);
      var s :| s in doc.buckets && Fills(doc, ids, m, s, slot.bucketID);
      k := BucketKey(s);
      BucketKeyDecodes(d, doc, ids, m, s, slot.bucketID, ks[k]);
    }
  }

  lemma FileSlotAgrees(d: Codec, doc: FileDoc, ids: map<Text, int>, m: Snapshot, ks: KeyValues, slot: Slot)
    requires Built(doc, ids, doc.buckets.Keys, m) && Corresponds(d, doc, ks) && PlainIDs(doc, ids)
    ensures AgreesAt(d, Get(Filled(doc, m), slot), ks, slot)
  {
    forall k | Stands(d, ks, k, slot) ensures Decoded(d, k, ks[k]) == Get(Filled(doc, m), slot) {
      LiveKeyAgrees(d, doc, ids, m, ks, k, slot);
    }
    if Get(Filled(doc, m), slot).Some? {
      var k := EntryHasLiveKey(d, doc, ids, m, ks, slot);
    }
  }

  lemma LoadIsFilled(d: Codec, doc: FileDoc, ids: map<Text, int>, m: Snapshot, ks: KeyValues, rev: int, kvs: seq<KV>)
    requires Built(doc, ids, doc.buckets.Keys, m) && Corresponds(d, doc, ks) && PlainIDs(doc, ids)
    requires Enumerates(kvs, ks)
    ensures LoadAll(d, rev, kvs).buckets == m.buckets
    ensures LoadAll(d, rev, kvs).shards == Defaulted(doc.shards)
  {
    var loaded, filled := LoadAll(d, rev, kvs), Filled(doc, m);
    forall slot ensures Get(loaded, slot) == Get(filled, slot) {
      FileSlotAgrees(d, doc, ids, m, ks, slot);
      LoadSlot(d, rev, kvs, ks, Get(filled, slot), slot);
    }
    SameSlotsSameMaps(loaded, filled);
  }

  /** Both registries build the same routes from the same data. When bucket keys
      are plain numbers that do not alias, the buckets always agree, and the
      shards agree exactly when every shard names itself. */
  lemma RegistriesAgree(d: Codec, doc: FileDoc, m: Snapshot, ks: KeyValues, rev: int, kvs: seq<KV>)
    requires Built(doc, ParsedIDs(doc.buckets), doc.buckets.Keys, m) && Corresponds(d, doc, ks) && PlainBucketKeys(doc)
    requires Enumerates(kvs, ks)
    ensures LoadAll(d, rev, kvs).buckets == m.buckets
    ensures LoadAll(d, rev, kvs).shards == m.shards
       <==> forall id | id in doc.shards :: doc.shards[id].shardID != [] || id == []
  {
    PlainKeysHavePlainIDs(doc);
    LoadIsFilled(d, doc, ParsedIDs(doc.buckets), m, ks, rev, kvs);
    DefaultedExactly(doc.shards);
  }

  lemma DefaultedExactly(shards: map<Text, ShardDef>)
    ensures Defaulted(shards) == shards <==> forall id | id in shards :: shards[id].shardID != [] || id == []
  {
    forall id | id in shards
      ensures Defaulted(shards)[id] == shards[id] <==> shards[id].shardID != [] || id == []
    {
    }
  }
}
