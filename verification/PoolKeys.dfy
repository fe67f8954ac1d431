/** The keys of the pool map (poolKey in internal/pool/manager.go). */
module PoolKeys {
  import opened Types
  import opened Bytes

  const PIPE: Byte := 0x7c
  const COLON: Byte := 0x3a
  const SLASH: Byte := 0x2f

  /** Endpoint.String: host:port/database. */
  function EndpointString(ep: Endpoint): Text {
    ep.host + [COLON] + PortAndDatabase(ep)
  }

  function PoolKey(shardID: Text, ep: Endpoint): Text {
    shardID + [PIPE] + EndpointString(ep)
  }

  predicate IsInt(n: int) {
    INT64_MIN <= n <= INT64_MAX
  }

  lemma DecimalCharacters(n: int)
    ensures SLASH !in Decimal(n) && COLON !in Decimal(n)
  {
    assert forall i | 0 <= i < |Decimal(n)| :: IsDigit(Decimal(n)[i]) || Decimal(n)[i] == MINUS;
  }

  /** What follows the host in the printed endpoint. */
  function PortAndDatabase(ep: Endpoint): Text {
    Decimal(ep.port) + [SLASH] + ep.database
  }

  lemma PortAndDatabaseInjective(a: Endpoint, b: Endpoint)
    requires IsInt(a.port) && IsInt(b.port) && PortAndDatabase(a) == PortAndDatabase(b)
    ensures a.port == b.port && a.database == b.database
  {
    DecimalCharacters(a.port);
    DecimalCharacters(b.port);
    SplitAtSeparator(Decimal(a.port), a.database, Decimal(b.port), b.database, SLASH);
    DecimalRoundTrip(a.port);
    DecimalRoundTrip(b.port);
  }

  /** The host of `b` swallows the host and port of `a`, and the database of `a`
      the port and database of `b`. */
  ghost predicate Shifted(a: Endpoint, b: Endpoint) {
    exists x: Text :: ShiftedBy(a, b, x)
  }

  predicate ShiftedBy(a: Endpoint, b: Endpoint, x: Text) {
    b.host == a.host + [COLON] + (Decimal(a.port) + [SLASH] + x) && a.database == x + [COLON] + PortAndDatabase(b)
  }

  lemma SplitIsShifted(a: Endpoint, b: Endpoint)
    ensures ShiftedSplit(a.host, PortAndDatabase(a), b.host, PortAndDatabase(b), COLON) <==> Shifted(a, b)
  {
    var port := Decimal(a.port);
    DecimalCharacters(a.port);
    if r: Text :| b.host == a.host + [COLON] + r && PortAndDatabase(a) == r + [COLON] + PortAndDatabase(b) {
      // The port of `a` has no ":", so `r` reaches beyond its "/".
      JoinedAcross(port, a.database, r, PortAndDatabase(b));
      var x := r[|port| + 1..];
      assert ShiftedBy(a, b, x);
    }
    if x: Text :| ShiftedBy(a, b, x) {
      var r := port + [SLASH] + x;
      assert port + [SLASH] + (x + [COLON] + PortAndDatabase(b)) == r + [COLON] + PortAndDatabase(b);
    }
  }

  lemma JoinedAcross(p: Text, x: Text, r: Text, y: Text)
    requires COLON !in p && p + [SLASH] + x == r + [COLON] + y
    ensures |p| < |r| && r == p + [SLASH] + r[|p| + 1..] && x == r[|p| + 1..] + [COLON] + y
  {
    var s := p + [SLASH] + x;
    assert forall i | 0 <= i < |p| :: s[i] == p[i] != COLON;
    assert s[|p|] == SLASH && s[|r|] == COLON;
    assert r == s[..|r|] && p == s[..|p|];
    assert x == s[|p| + 1..] && s == r + [COLON] + y;
  }

  /** Two endpoints print alike exactly when they are equal or one is the other
      shifted. */
  lemma SamePrintExactly(a: Endpoint, b: Endpoint)
    requires IsInt(a.port) && IsInt(b.port)
    ensures EndpointString(a) == EndpointString(b) <==> a == b || Shifted(a, b) || Shifted(b, a)
  {
    JoinedExactly(a.host, PortAndDatabase(a), b.host, PortAndDatabase(b), COLON);
    SplitIsShifted(a, b);
    SplitIsShifted(b, a);
    if PortAndDatabase(a) == PortAndDatabase(b) {
      PortAndDatabaseInjective(a, b);
    }
  }

  /** The shard id of `b` swallows that of `a` and the text up to a bar in the
      printed endpoint of `a`. */
  ghost predicate ShiftedKey(idA: Text, a: Endpoint, idB: Text, b: Endpoint) {
    ShiftedSplit(idA, EndpointString(a), idB, EndpointString(b), PIPE)
  }

  /** Two pool keys are the same exactly when shard id and endpoint are, or the
      endpoints of one shard are shifted, or the shard ids are. */
  lemma SamePoolKeyExactly(idA: Text, a: Endpoint, idB: Text, b: Endpoint)
    requires IsInt(a.port) && IsInt(b.port)
    ensures PoolKey(idA, a) == PoolKey(idB, b)
       <==> (idA == idB && (a == b || Shifted(a, b) || Shifted(b, a)))
            || ShiftedKey(idA, a, idB, b) || ShiftedKey(idB, b, idA, a)
  {
    JoinedExactly(idA, EndpointString(a), idB, EndpointString(b), PIPE);
    SamePrintExactly(a, b);
  }

  /** A host without ":" or without "/": a name, an IPv4 address, or an IPv6
      address in brackets. */
  predicate PlainHost(host: Text) {
    COLON !in host || SLASH !in host
  }

  lemma ShiftedNeedsBoth(a: Endpoint, b: Endpoint)
    requires Shifted(a, b)
    ensures !PlainHost(b.host)
  {
    var x :| ShiftedBy(a, b, x);
    assert b.host[|a.host|] == COLON && b.host[|a.host| + 1 + |Decimal(a.port)|] == SLASH;
  }

  lemma EndpointStringInjective(a: Endpoint, b: Endpoint)
    requires PlainHost(a.host) && PlainHost(b.host) && IsInt(a.port) && IsInt(b.port)
    requires EndpointString(a) == EndpointString(b)
    ensures a == b
  {
    SamePrintExactly(a, b);
    if Shifted(a, b) {
      ShiftedNeedsBoth(a, b);
    }
    if Shifted(b, a) {
      ShiftedNeedsBoth(b, a);
    }
  }

  /** No two endpoints share a pool when shard ids have no bar and no host has
      both ":" and "/". */
  lemma PoolKeyInjective(idA: Text, a: Endpoint, idB: Text, b: Endpoint)
    requires PIPE !in idA && PIPE !in idB
    requires PlainHost(a.host) && PlainHost(b.host) && IsInt(a.port) && IsInt(b.port)
    requires PoolKey(idA, a) == PoolKey(idB, b)
    ensures idA == idB && a == b
  {
    SplitAtSeparator(idA, EndpointString(a), idB, EndpointString(b), PIPE);
    EndpointStringInjective(a, b);
  }

  /** With a bar in a shard id two different endpoints can share a pool. */
  lemma PipeInShardIDCollides(x: Text, y: Text, host: Text, port: int, database: Text)
    ensures PoolKey(x + [PIPE] + y, Endpoint(host, port, database)) == PoolKey(x, Endpoint(y + [PIPE] + host, port, database))
  {
    var tail := [COLON] + PortAndDatabase(Endpoint(host, port, database));
    assert (x + [PIPE] + y) + [PIPE] + (host + tail) == x + [PIPE] + ((y + [PIPE] + host) + tail);
  }

  /** So can two of one shard, for every host that contains ":", a port and "/". */
  lemma PortInHostCollides(id: Text, host: Text, p: int, q: int, x: Text, y: Text)
    ensures PoolKey(id, Endpoint(host, p, x + [COLON] + (Decimal(q) + [SLASH] + y))) ==
            PoolKey(id, Endpoint(host + [COLON] + (Decimal(p) + [SLASH] + x), q, y))
  {
    var a := Endpoint(host, p, x + [COLON] + (Decimal(q) + [SLASH] + y));
    var b := Endpoint(host + [COLON] + (Decimal(p) + [SLASH] + x), q, y);
    assert ShiftedBy(a, b, x);
    SplitIsShifted(a, b);
    ShiftedSplitJoins(a.host, PortAndDatabase(a), b.host, PortAndDatabase(b), COLON);
  }
}
