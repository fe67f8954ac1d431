/** A full load of the key-space against a replay of the event log that
    produced it (loadAll in internal/registry/etcd.go). */
module KeySpace {
  import opened Types
  import opened Keys
  import opened Snapshots

  /** What etcd holds: the live keys and their values. */
  type KeyValues = map<Text, Text>

  function Commit(ks: KeyValues, ev: Event): KeyValues {
    match ev.kind
    case Put => ks[ev.key := ev.value]
    case Delete => ks - {ev.key}
    case OtherKind(_) => ks
  }

  function KeysAfter(evs: seq<Event>): KeyValues {
    if evs == [] then map[] else Commit(KeysAfter(evs[..|evs| - 1]), evs[|evs| - 1])
  }

  datatype KV = KV(key: Text, value: Text)

  /** A range response: every requested live key once, in any order. */
  ghost predicate Enumerates(kvs: seq<KV>, ks: KeyValues) {
    && (forall i, j | 0 <= i < j < |kvs| :: kvs[i].key != kvs[j].key)
    && (forall i | 0 <= i < |kvs| :: kvs[i].key in ks && kvs[i].value == ks[kvs[i].key] && Requested(kvs[i].key))
    && (forall k | k in ks && Requested(k) :: KV(k, ks[k]) in kvs)
  }

  function AsPuts(kvs: seq<KV>): (evs: seq<Event>)
    ensures |evs| == |kvs|
    ensures forall i | 0 <= i < |kvs| :: evs[i] == Event(Put, kvs[i].key, kvs[i].value)
  {
    seq(|kvs|, i requires 0 <= i < |kvs| => Event(Put, kvs[i].key, kvs[i].value))
  }

  /** The snapshot loadAll builds from a range response. */
  function LoadAll(d: Codec, rev: int, kvs: seq<KV>): Snapshot {
    ApplyAll(d, EMPTY.(revision := rev), AsPuts(kvs))
  }

  function Replay(d: Codec, evs: seq<Event>): Snapshot {
    ApplyAll(d, EMPTY, evs)
  }

  // ----- agreement of a slot's content with the live keys

  /** `k` is a live key that stands for `slot` and whose value decodes. */
  predicate Stands(d: Codec, ks: KeyValues, k: Text, slot: Slot) {
    k in ks && SlotOf(k) == slot && Decoded(d, k, ks[k]).Some?
  }

  ghost predicate AgreesAt(d: Codec, cell: Option<Entry>, ks: KeyValues, slot: Slot) {
    && (forall k | Stands(d, ks, k, slot) :: Decoded(d, k, ks[k]) == cell)
    && (cell.Some? ==> exists k :: Stands(d, ks, k, slot))
  }

  /** The events after which a slot that agreed with the live keys still does.
      It can be decided from the key-space before the event. */
  ghost predicate Guard(d: Codec, ks: KeyValues, ev: Event, slot: Slot) {
    SlotOf(ev.key) == slot != Ignored ==>
      match ev.kind
      case Put =>
        if Decoded(d, ev.key, ev.value).Some? then
          forall k | Stands(d, ks, k, slot) && k != ev.key :: Decoded(d, k, ks[k]) == Decoded(d, ev.key, ev.value)
        else
          Stands(d, ks, ev.key, slot) ==> exists k :: Stands(d, ks, k, slot) && k != ev.key
      case Delete => forall k | Stands(d, ks, k, slot) :: k == ev.key
      case OtherKind(_) => true
  }

  lemma OtherKeysStand(d: Codec, ks: KeyValues, ev: Event, k: Text, slot: Slot)
    requires k != ev.key || SlotOf(ev.key) != slot || ev.kind.OtherKind?
    ensures Stands(d, Commit(ks, ev), k, slot) == Stands(d, ks, k, slot)
    ensures Stands(d, ks, k, slot) ==> Commit(ks, ev)[k] == ks[k]
  {
  }

  lemma AgreementAfterPut(d: Codec, cell: Option<Entry>, ks: KeyValues, ev: Event, slot: Slot)
    requires AgreesAt(d, cell, ks, slot) && ev.kind.Put? && SlotOf(ev.key) == slot != Ignored
    ensures AgreesAt(d, OrElse(Effect(d, ev, slot), cell), Commit(ks, ev), slot) <==> Guard(d, ks, ev, slot)
  {
    var ks' := Commit(ks, ev);
    forall k | k != ev.key
      ensures Stands(d, ks', k, slot) == Stands(d, ks, k, slot)
    {
      OtherKeysStand(d, ks, ev, k, slot);
    }
    assert Stands(d, ks', ev.key, slot) == Decoded(d, ev.key, ev.value).Some?;
  }

  lemma AgreementAfterDelete(d: Codec, cell: Option<Entry>, ks: KeyValues, ev: Event, slot: Slot)
    requires AgreesAt(d, cell, ks, slot) && ev.kind.Delete? && SlotOf(ev.key) == slot != Ignored
    ensures AgreesAt(d, OrElse(Effect(d, ev, slot), cell), Commit(ks, ev), slot) <==> Guard(d, ks, ev, slot)
  {
    var ks' := Commit(ks, ev);
    forall k | k != ev.key
      ensures Stands(d, ks', k, slot) == Stands(d, ks, k, slot)
    {
      OtherKeysStand(d, ks, ev, k, slot);
    }
  }

  lemma AgreementUntouched(d: Codec, cell: Option<Entry>, ks: KeyValues, ev: Event, slot: Slot)
    requires AgreesAt(d, cell, ks, slot) && (ev.kind.OtherKind? || SlotOf(ev.key) != slot || slot == Ignored)
    ensures AgreesAt(d, cell, Commit(ks, ev), slot)
  {
    forall k
      ensures Stands(d, Commit(ks, ev), k, slot) == Stands(d, ks, k, slot)
    {
      if slot != Ignored {
        OtherKeysStand(d, ks, ev, k, slot);
      }
    }
  }

  /** Agreement survives an event exactly when its guard holds. */
  lemma AgreementSurvivesExactly(d: Codec, cell: Option<Entry>, ks: KeyValues, ev: Event, slot: Slot)
    requires AgreesAt(d, cell, ks, slot)
    ensures AgreesAt(d, OrElse(Effect(d, ev, slot), cell), Commit(ks, ev), slot) <==> Guard(d, ks, ev, slot)
  {
    if SlotOf(ev.key) != slot || slot == Ignored || ev.kind.OtherKind? {
      AgreementUntouched(d, cell, ks, ev, slot);
    } else if ev.kind.Put? {
      AgreementAfterPut(d, cell, ks, ev, slot);
    } else {
      AgreementAfterDelete(d, cell, ks, ev, slot);
    }
  }

  ghost predicate Guarded(d: Codec, evs: seq<Event>, slot: Slot) {
    forall i | 0 <= i < |evs| :: Guard(d, KeysAfter(evs[..i]), evs[i], slot)
  }

  lemma GuardedPrefix(d: Codec, evs: seq<Event>, n: nat, slot: Slot)
    requires n <= |evs| && Guarded(d, evs, slot)
    ensures Guarded(d, evs[..n], slot)
  {
    forall i | 0 <= i < n
      ensures Guard(d, KeysAfter(evs[..n][..i]), evs[..n][i], slot)
    {
      assert evs[..n][..i] == evs[..i];
    }
  }

  lemma {:induction false} GuardedReplayAgrees(d: Codec, evs: seq<Event>, slot: Slot)
    requires Guarded(d, evs, slot)
    ensures AgreesAt(d, OrElse(LastEffect(d, evs, slot), None), KeysAfter(evs), slot)
  {
    if evs != [] {
      var n := |evs| - 1;
      GuardedPrefix(d, evs, n, slot);
      GuardedReplayAgrees(d, evs[..n], slot);
      AgreementSurvivesExactly(d, OrElse(LastEffect(d, evs[..n], slot), None), KeysAfter(evs[..n]), evs[n], slot);
    }
  }

  // ----- what a full load puts in a slot

  lemma LoadSlot(d: Codec, rev: int, kvs: seq<KV>, ks: KeyValues, cell: Option<Entry>, slot: Slot)
    requires Enumerates(kvs, ks) && AgreesAt(d, cell, ks, slot)
    ensures Get(LoadAll(d, rev, kvs), slot) == cell
  {
    var puts := AsPuts(kvs);
    ApplyAllSlot(d, EMPTY.(revision := rev), puts, slot);
    if LastEffect(d, puts, slot).Some? {
      var i := LastEffectWitness(d, puts, slot);
      assert Stands(d, ks, kvs[i].key, slot);
    } else if cell.Some? {
      var k :| Stands(d, ks, k, slot);
      RequestCoversSlots(k);
      var i :| 0 <= i < |kvs| && kvs[i] == KV(k, ks[k]);
      assert Effect(d, puts[i], slot).Some?;
      EffectCounts(d, puts, i, slot);
    }
  }

  lemma {:induction false} EffectCounts(d: Codec, evs: seq<Event>, i: nat, slot: Slot)
    requires i < |evs| && Effect(d, evs[i], slot).Some?
    ensures LastEffect(d, evs, slot).Some?
  {
    if i < |evs| - 1 {
      EffectCounts(d, evs[..|evs| - 1], i, slot);
    }
  }

  lemma {:induction false} SomeEnumeration(ks: KeyValues) returns (kvs: seq<KV>)
    ensures Enumerates(kvs, ks)
    decreases |ks|
  {
    if ks == map[] {
      kvs := [];
    } else {
      var k :| k in ks;
      var rest := ks - {k};
      var init := SomeEnumeration(rest);
      kvs := if Requested(k) then init + [KV(k, ks[k])] else init;
      forall k' | k' in ks && Requested(k') ensures KV(k', ks[k']) in kvs {
        if k' != k {
          assert k' in rest && KV(k', rest[k']) in init;
        } else {
          assert kvs[|init|] == KV(k, ks[k]);
        }
      }
    }
  }

  /** A live requested key can come last in the response. */
  lemma EnumerationEndingWith(ks: KeyValues, k: Text) returns (kvs: seq<KV>)
    requires k in ks && Requested(k)
    ensures Enumerates(kvs, ks) && kvs != [] && kvs[|kvs| - 1] == KV(k, ks[k])
  {
    var rest := ks - {k};
    var init := SomeEnumeration(rest);
    kvs := init + [KV(k, ks[k])];
    forall k' | k' in ks && Requested(k') ensures KV(k', ks[k']) in kvs {
      if k' != k {
        assert k' in rest && KV(k', rest[k']) in init;
      }
    }
  }

  ghost predicate EveryLoadGives(d: Codec, rev: int, ks: KeyValues, cell: Option<Entry>, slot: Slot) {
    forall kvs | Enumerates(kvs, ks) :: Get(LoadAll(d, rev, kvs), slot) == cell
  }

  /** Agreement with the live keys is what every order of a full load yields. */
  lemma AgreementIsEveryLoad(d: Codec, rev: int, ks: KeyValues, cell: Option<Entry>, slot: Slot)
    ensures AgreesAt(d, cell, ks, slot) <==> EveryLoadGives(d, rev, ks, cell, slot)
  {
    if AgreesAt(d, cell, ks, slot) {
      forall kvs | Enumerates(kvs, ks) ensures Get(LoadAll(d, rev, kvs), slot) == cell {
        LoadSlot(d, rev, kvs, ks, cell, slot);
      }
    }
    if EveryLoadGives(d, rev, ks, cell, slot) {
      forall k | Stands(d, ks, k, slot) ensures Decoded(d, k, ks[k]) == cell {
        RequestCoversSlots(k);
        var kvs := EnumerationEndingWith(ks, k);
        ApplyAllSlot(d, EMPTY.(revision := rev), AsPuts(kvs), slot);
      }
      if cell.Some? {
        var kvs := SomeEnumeration(ks);
        ApplyAllSlot(d, EMPTY.(revision := rev), AsPuts(kvs), slot);
        var i := LastEffectWitness(d, AsPuts(kvs), slot);
        assert Stands(d, ks, kvs[i].key, slot);
      }
    }
  }

  /** One event later, every full load still equals the replay of that slot
      exactly when the event is guarded. */
  lemma LoadMatchesReplayExactly(d: Codec, rev: int, evs: seq<Event>, ev: Event, slot: Slot)
    requires EveryLoadGives(d, rev, KeysAfter(evs), Get(Replay(d, evs), slot), slot)
    ensures EveryLoadGives(d, rev, KeysAfter(evs + [ev]), Get(Replay(d, evs + [ev]), slot), slot)
       <==> Guard(d, KeysAfter(evs), ev, slot)
  {
    var cell := Get(Replay(d, evs), slot);
    assert (evs + [ev])[..|evs|] == evs;
    ApplySlot(d, Replay(d, evs), ev, slot);
    AgreementIsEveryLoad(d, rev, KeysAfter(evs), cell, slot);
    AgreementSurvivesExactly(d, cell, KeysAfter(evs), ev, slot);
    AgreementIsEveryLoad(d, rev, KeysAfter(evs + [ev]), Get(Replay(d, evs + [ev]), slot), slot);
  }

  /** Every full load of every prefix of the log equals the replay of the slot. */
  ghost predicate LoadsMatchThroughout(d: Codec, rev: int, evs: seq<Event>, slot: Slot) {
    forall n: nat | n <= |evs| :: EveryLoadGives(d, rev, KeysAfter(evs[..n]), Get(Replay(d, evs[..n]), slot), slot)
  }

  lemma GuardedLoadsMatch(d: Codec, rev: int, evs: seq<Event>, n: nat, slot: Slot)
    requires n <= |evs| && Guarded(d, evs, slot)
    ensures EveryLoadGives(d, rev, KeysAfter(evs[..n]), Get(Replay(d, evs[..n]), slot), slot)
  {
    GuardedPrefix(d, evs, n, slot);
    GuardedReplayAgrees(d, evs[..n], slot);
    ApplyAllSlot(d, EMPTY, evs[..n], slot);
    AgreementIsEveryLoad(d, rev, KeysAfter(evs[..n]), Get(Replay(d, evs[..n]), slot), slot);
  }

  lemma MatchingLoadsGuard(d: Codec, rev: int, evs: seq<Event>, n: nat, slot: Slot)
    requires n < |evs| && LoadsMatchThroughout(d, rev, evs, slot)
    ensures Guard(d, KeysAfter(evs[..n]), evs[n], slot)
  {
    assert evs[..n + 1] == evs[..n] + [evs[n]];
    LoadMatchesReplayExactly(d, rev, evs[..n], evs[n], slot);
  }

  /** Along a whole log, full loads equal the replay of a slot at every point
      exactly when every event of the log is guarded. */
  lemma LoadsMatchExactlyWhenGuarded(d: Codec, rev: int, evs: seq<Event>, slot: Slot)
    ensures LoadsMatchThroughout(d, rev, evs, slot) <==> Guarded(d, evs, slot)
  {
    if Guarded(d, evs, slot) {
      forall n: nat | n <= |evs|
        ensures EveryLoadGives(d, rev, KeysAfter(evs[..n]), Get(Replay(d, evs[..n]), slot), slot)
      {
        GuardedLoadsMatch(d, rev, evs, n, slot);
      }
    }
    if LoadsMatchThroughout(d, rev, evs, slot) {
      forall n | 0 <= n < |evs| ensures Guard(d, KeysAfter(evs[..n]), evs[n], slot) {
        MatchingLoadsGuard(d, rev, evs, n, slot);
      }
    }
  }

  /** A full load in any order gives the routes of the replayed log. */
  lemma FullLoadEqualsReplay(d: Codec, rev: int, evs: seq<Event>, kvs: seq<KV>)
    requires forall slot :: Guarded(d, evs, slot)
    requires Enumerates(kvs, KeysAfter(evs))
    ensures LoadAll(d, rev, kvs).shards == Replay(d, evs).shards
    ensures LoadAll(d, rev, kvs).buckets == Replay(d, evs).buckets
  {
    forall slot ensures Get(LoadAll(d, rev, kvs), slot) == Get(Replay(d, evs), slot) {
      GuardedReplayAgrees(d, evs, slot);
      ApplyAllSlot(d, EMPTY, evs, slot);
      LoadSlot(d, rev, kvs, KeysAfter(evs), Get(Replay(d, evs), slot), slot);
    }
    SameSlotsSameMaps(LoadAll(d, rev, kvs), Replay(d, evs));
  }

  // ----- the plain hypotheses that imply the guards

  ghost predicate NoAliases(ks: KeyValues) {
    forall k, k' | k in ks && k' in ks && SlotOf(k) == SlotOf(k') != Ignored :: k == k'
  }

  /** Stored values decode, deletions hit live keys, and at no point of the log
      are two live keys aliases of one slot. */
  ghost predicate PlainLog(d: Codec, evs: seq<Event>) {
    && (forall i | 0 <= i < |evs| && SlotOf(evs[i].key) != Ignored ::
          && (evs[i].kind.Put? ==> Decoded(d, evs[i].key, evs[i].value).Some?)
          && (evs[i].kind.Delete? ==> evs[i].key in KeysAfter(evs[..i])))
    && (forall i | 0 <= i <= |evs| :: NoAliases(KeysAfter(evs[..i])))
  }

  lemma PlainLogIsGuarded(d: Codec, evs: seq<Event>, slot: Slot)
    requires PlainLog(d, evs)
    ensures Guarded(d, evs, slot)
  {
    forall i | 0 <= i < |evs|
      ensures Guard(d, KeysAfter(evs[..i]), evs[i], slot)
    {
      var ks := KeysAfter(evs[..i]);
      assert evs[..i + 1][..i] == evs[..i];
      assert KeysAfter(evs[..i + 1]) == Commit(ks, evs[i]);
      assert NoAliases(ks) && NoAliases(Commit(ks, evs[i]));
      if SlotOf(evs[i].key) == slot != Ignored && evs[i].kind.Put? {
        forall k | Stands(d, ks, k, slot) ensures k == evs[i].key {
          assert k in Commit(ks, evs[i]) && evs[i].key in Commit(ks, evs[i]);
        }
      }
    }
  }

  // ----- the hypotheses are needed

  lemma KeysAfterStep(evs: seq<Event>, ev: Event)
    ensures KeysAfter(evs + [ev]) == Commit(KeysAfter(evs), ev)
  {
    assert (evs + [ev])[..|evs|] == evs;
  }

  /** For every key, overwriting a decodable value by a malformed one keeps the
      entry under replay and loses it in every full load. */
  lemma MalformedPutSplitsLoadFromReplay(d: Codec, rev: int, k: Text, good: Text, bad: Text)
    requires Decoded(d, k, good).Some? && Decoded(d, k, bad).None?
    ensures var evs := [Event(Put, k, good)] + [Event(Put, k, bad)];
            Get(Replay(d, evs), SlotOf(k)) == Decoded(d, k, good) &&
            EveryLoadGives(d, rev, KeysAfter(evs), None, SlotOf(k))
  {
    var first := [Event(Put, k, good)];
    var evs := first + [Event(Put, k, bad)];
    KeysAfterStep([], first[0]);
    assert [] + first == first;
    KeysAfterStep(first, Event(Put, k, bad));
    ApplyAllSlot(d, EMPTY, evs, SlotOf(k));
    LastEffectConcat(d, first, [Event(Put, k, bad)], SlotOf(k));
    AgreementIsEveryLoad(d, rev, KeysAfter(evs), None, SlotOf(k));
  }

  function AliasedLog(k: Text, k': Text, v: Text): seq<Event> {
    [Event(Put, k, v)] + [Event(Put, k', v)] + [Event(Delete, k', [])]
  }

  lemma AliasedLogKeys(k: Text, k': Text, v: Text)
    requires k != k'
    ensures KeysAfter(AliasedLog(k, k', v)) == map[k := v]
  {
    var one := [Event(Put, k, v)];
    var two := one + [Event(Put, k', v)];
    assert [] + one == one;
    KeysAfterStep([], one[0]);
    KeysAfterStep(one, Event(Put, k', v));
    KeysAfterStep(two, Event(Delete, k', []));
  }

  /** Aliases that are gone at the revision loaded still matter: for any two
      aliases, PUT k, PUT k', DELETE k' leaves one live key, which every load
      finds and the replay has lost. */
  lemma PastAliasesSplitLoadFromReplay(d: Codec, rev: int, k: Text, k': Text, v: Text)
    requires k != k' && SlotOf(k) == SlotOf(k') && Decoded(d, k, v).Some?
    ensures KeysAfter(AliasedLog(k, k', v)) == map[k := v]
    ensures Get(Replay(d, AliasedLog(k, k', v)), SlotOf(k)).None?
    ensures EveryLoadGives(d, rev, map[k := v], Decoded(d, k, v), SlotOf(k))
  {
    AliasedLogKeys(k, k', v);
    var two, last := [Event(Put, k, v)] + [Event(Put, k', v)], [Event(Delete, k', [])];
    ApplyAllSlot(d, EMPTY, two + last, SlotOf(k));
    LastEffectConcat(d, two, last, SlotOf(k));
    assert Stands(d, map[k := v], k, SlotOf(k));
    AgreementIsEveryLoad(d, rev, map[k := v], Decoded(d, k, v), SlotOf(k));
  }
}
