/** The literals of the program in letters, and number texts. Elsewhere they are
    written as bytes. */
module Letters {
  import opened Types
  import opened Bytes
  import opened PrefixRange
  import opened Keys
  import opened Router
  import opened PoolKeys
  import FileRegistry
  import EtcdClient

  /** The bytes of an ASCII literal. */
  function Ascii(s: string): Text
    requires forall i | 0 <= i < |s| :: s[i] < 128 as char
  {
    seq(|s|, i requires 0 <= i < |s| => s[i] as int)
  }

  // ----- numbers

  lemma DecimalNext(v: nat, digit: nat)
    requires v > 0 && digit < 10
    ensures DecimalNat(10 * v + digit) == DecimalNat(v) + [0x30 + digit]
  {
    assert (10 * v + digit) / 10 == v && (10 * v + digit) % 10 == digit;
  }

  lemma {:induction false} BareIsDecimal(t: Text)
    requires AllDigits(t) && t != [] && t[0] != 0x30
    ensures t == DecimalNat(DigitsValue(t)) && DigitsValue(t) > 0
  {
    var n := |t| - 1;
    assert t == t[..n] + [t[n]];
    if n > 0 {
      BareIsDecimal(t[..n]);
      DecimalNext(DigitsValue(t[..n]), t[n] - 0x30);
    } else {
      assert DigitsValue(t[..n]) == 0;
    }
  }

  /** A digit string is the decimal rendering of its value with zeros before it. */
  lemma DigitsArePadded(s: Text) returns (zeros: nat)
    requires AllDigits(s) && s != []
    ensures s == Zeros(zeros) + DecimalNat(DigitsValue(s))
  {
    var t := TrimZeros(s);
    TrimmedIsPadded(s);
    TrimmedValue(s);
    if t != [] {
      BareIsDecimal(t);
      return |s| - |t|;
    }
    assert Zeros(|s|) + [] == Zeros(|s|) == Zeros(|s| - 1) + [0x30];
    return |s| - 1;
  }

  /** The optional sign of a number: a minus sign before negative ones, a plus
      sign or none before positive ones, any before zero. */
  predicate SignOf(sign: Text, v: int) {
    || (v >= 0 && (sign == [] || sign == [PLUS]))
    || (v <= 0 && sign == [MINUS])
  }

  lemma SignTexts()
    ensures [PLUS] == Ascii("+") && [MINUS] == Ascii("-")
  {
  }

  predicate PaddedDecimal(s: Text, sign: Text, zeros: nat, v: int) {
    SignOf(sign, v) && s == sign + (Zeros(zeros) + DecimalNat(if v < 0 then -v else v))
  }

  /** strconv.Atoi accepts exactly the 64-bit integers in decimal, with an optional
      sign and any number of leading zeros. */
  lemma AtoiExactly(s: Text, v: int)
    ensures Atoi(s) == Some(v)
       <==> -0x8000_0000_0000_0000 <= v < 0x8000_0000_0000_0000 &&
            exists sign, zeros :: PaddedDecimal(s, sign, zeros, v)
  {
    if Atoi(s) == Some(v) {
      var sign, zeros := ParsedIsPadded(s);
    }
    if sign, zeros :| INT64_MIN <= v <= INT64_MAX && PaddedDecimal(s, sign, zeros, v) {
      PaddedParses(s, sign, zeros, v);
    }
  }

  lemma ParsedIsPadded(s: Text) returns (sign: Text, zeros: nat)
    requires Atoi(s).Some?
    ensures PaddedDecimal(s, sign, zeros, Atoi(s).value)
  {
    var body;
    if IsSign(s[0]) {
      sign, body := s[..1], s[1..];
    } else {
      sign, body := [], s;
    }
    zeros := DigitsArePadded(body);
    assert s == sign + body;
  }

  lemma PaddedParses(s: Text, sign: Text, zeros: nat, v: int)
    requires INT64_MIN <= v <= INT64_MAX && PaddedDecimal(s, sign, zeros, v)
    ensures Atoi(s) == Some(v)
  {
    var n: nat := if v < 0 then -v else v;
    var body := Zeros(zeros) + DecimalNat(n);
    LeadingZeros(zeros, DecimalNat(n));
    DecimalNatValue(n);
    if sign == [PLUS] {
      assert s[0] == PLUS && s[1..] == body;
    } else if sign == [] {
      SignedAtoi(body, false);
      assert s == body;
    } else {
      SignedAtoi(body, true);
    }
  }

  /** What the digits are: base ten, most significant first. */
  lemma DecimalTexts(n: nat)
    requires n < 1000
    ensures Zeros(1) == Ascii("0") && Decimal(-12) == Ascii("-12")
    ensures var hundreds, tens, ones := n / 100, n / 10 % 10, n % 10;
            100 <= n ==> Decimal(n) == [Ascii("0123456789")[hundreds], Ascii("0123456789")[tens], Ascii("0123456789")[ones]]
  {
    assert DecimalNat(12) == DecimalNat(1) + [0x32];
    if 100 <= n {
      assert n / 10 / 10 == n / 100;
      assert DecimalNat(n) == DecimalNat(n / 10) + [0x30 + n % 10];
      assert DecimalNat(n / 10) == DecimalNat(n / 100) + [0x30 + n / 10 % 10];
    }
  }

  // ----- keys

  lemma PrefixTexts()
    ensures Prefix() == Ascii("/sharding/")
    ensures ShardsPrefix() == Ascii("/sharding/shards/")
    ensures BucketsPrefix() == Ascii("/sharding/buckets/")
  {
  }

  lemma SlotByPrefix(key: Text, id: Text)
    ensures SlotOf(key) == ShardSlot(id) <==> key == ShardsPrefix() + id
    ensures SlotOf(key).BucketSlot? <==> BucketsPrefix() <= key && Atoi(key[|BucketsPrefix()|..]).Some?
    ensures SlotOf(key).BucketSlot? ==> Atoi(key[|BucketsPrefix()|..]) == Some(SlotOf(key).bucketID)
  {
    if key == ShardsPrefix() + id {
      ShardKeySlot(id);
    }
    if SlotOf(key) == ShardSlot(id) {
      assert key == ShardsPrefix() + key[|ShardsPrefix()|..];
    }
    if BucketsPrefix() <= key {
      assert key == BucketKey(key[|BucketsPrefix()|..]);
      BucketKeySlot(key[|BucketsPrefix()|..]);
    }
  }

  /** The layout in letters: which keys stand for which entries, and which are
      asked for. */
  lemma KeyLayout(key: Text, id: Text)
    ensures SlotOf(key) == ShardSlot(id) <==> key == Ascii("/sharding/shards/") + id
    ensures SlotOf(key).BucketSlot? <==> Ascii("/sharding/buckets/") <= key && Atoi(key[18..]).Some?
    ensures SlotOf(key).BucketSlot? ==> Atoi(key[18..]) == Some(SlotOf(key).bucketID)
    ensures Requested(key) <==> Ascii("/sharding/") <= key
  {
    PrefixTexts();
    SlotByPrefix(key, id);
    PrefixRangeIsExact(Prefix(), key);
  }

  /** The other parts of the key-space, such as version, migrations/ and
      maintenance/, stand for no entry: whatever begins neither with s nor with b. */
  lemma OtherKeysAreIgnored(rest: Text)
    requires rest == [] || (rest[0] != 's' as int && rest[0] != 'b' as int)
    ensures SlotOf(Ascii("/sharding/") + rest) == Ignored
  {
    PrefixTexts();
    var key, n := Prefix() + rest, |Prefix()|;
    assert ShardsPrefix()[n] == 's' as int && BucketsPrefix()[n] == 'b' as int;
    assert rest != [] ==> key[n] == rest[0];
  }

  /** The format in letters. */
  lemma PoolKeyText(id: Text, ep: Endpoint)
    ensures PoolKey(id, ep) == id + Ascii("|") + ep.host + Ascii(":") + Decimal(ep.port) + Ascii("/") + ep.database
  {
    assert Ascii("|") == [PIPE] && Ascii(":") == [COLON] && Ascii("/") == [SLASH];
  }

  // ----- words

  /** The three spellings, and what everything else means. */
  lemma ConsistencyTexts(s: Text)
    ensures ParseReadConsistency(Ascii("STRONG")) == ParseReadConsistency([]) == Strong
    ensures ParseReadConsistency(s) == ReadYourWrites <==> s == Ascii("READ_YOUR_WRITES")
    ensures ParseReadConsistency(s) == Eventual <==> s == Ascii("EVENTUAL")
  {
    assert ReadYourWritesText() == Ascii("READ_YOUR_WRITES");
    assert EventualText() == Ascii("EVENTUAL");
    assert |Ascii("STRONG")| == 6;
  }

  lemma TypeTexts()
    ensures EtcdClient.PutText() == Ascii("PUT") && EtcdClient.DeleteText() == Ascii("DELETE")
  {
  }

  lemma BlankTexts(b: Byte)
    ensures FileRegistry.IsBlank(b) <==> [b] == Ascii(" ") || [b] == Ascii("\t") || b == 11 || b == 12 || [b] == Ascii("\r")
    ensures [FileRegistry.NEWLINE] == Ascii("\n")
  {
    assert Ascii(" ")[0] == ' ' as int && Ascii("\t")[0] == '\t' as int && Ascii("\r")[0] == '\r' as int;
  }
}
