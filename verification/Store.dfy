/** The capacity-bounded bundle store and its eviction policy (pkg/store/store.go). Go's map
    iteration order is an arbitrary choice at every step. */
module Store {
  import opened Prelude
  import opened Sorting
  import opened Bpa

  type Contents = map<string, Bundle>

  // ------------------------------------------------------------------- total size

  ghost function TotalSize(m: Contents): nat {
    if m == map[] then 0
    else
      var k :| k in m;
      m[k].Size() + TotalSize(m - {k})
  }

  lemma {:induction false} TotalRemove(m: Contents, k: string)
    requires k in m
    ensures TotalSize(m) == m[k].Size() + TotalSize(m - {k})
    decreases |m|
  {
    var p :| p in m && TotalSize(m) == m[p].Size() + TotalSize(m - {p});
    if p != k {
      TotalRemove(m - {p}, k);
      TotalRemove(m - {k}, p);
      assert m - {p} - {k} == m - {k} - {p};
    }
  }

  lemma TotalAdd(m: Contents, k: string, b: Bundle)
    requires k !in m
    ensures TotalSize(m[k := b]) == TotalSize(m) + b.Size()
  {
    TotalRemove(m[k := b], k);
    assert m[k := b] - {k} == m;
  }

  ghost predicate WellKeyed(m: Contents) {
    forall k :: k in m ==> m[k].Key() == k
  }

  /** The bytes a listing of bundles takes: their payloads and 256 for each. */
  function PayloadBytes(m: Contents, keys: seq<string>): nat
    requires forall k :: k in keys ==> k in m
  {
    if keys == [] then 0
    else
      var n := |keys| - 1;
      PayloadBytes(m, keys[..n]) + |m[keys[n]].payload|
  }

  /** However the stored bundles are listed, their total is their payloads plus 256 bytes each. */
  lemma {:induction false} TotalIsPayloads(m: Contents, keys: seq<string>)
    requires Distinct(keys) && forall k :: k in keys <==> k in m
    ensures TotalSize(m) == PayloadBytes(m, keys) + 256 * |m| && |m| == |keys|
    decreases |keys|
  {
    if keys == [] {
      assert m == map[];
    } else {
      var n := |keys| - 1;
      var k, rest := keys[n], m - {keys[n]};
      TotalRemove(m, k);
      assert forall j :: j in keys[..n] ==> j in rest;
      forall j | j in rest ensures j in keys[..n] {
        assert j in keys;
        var i :| 0 <= i < |keys| && keys[i] == j;
        assert keys[..n][i] == j;
      }
      TotalIsPayloads(rest, keys[..n]);
      SamePayloads(m, rest, keys[..n]);
      assert rest.Keys == m.Keys - {k};
    }
  }

  lemma {:induction false} SamePayloads(m: Contents, rest: Contents, keys: seq<string>)
    requires forall k :: k in keys ==> k in m && k in rest && m[k] == rest[k]
    ensures PayloadBytes(m, keys) == PayloadBytes(rest, keys)
  {
    if keys != [] {
      SamePayloads(m, rest, keys[..|keys| - 1]);
    }
  }

  // -------------------------------------------------------------- the key is the ID

  /** With canonical IDs the string-keyed store is a map keyed by bundle ID. */
  lemma KeyedByID(m: Contents, id: BundleID)
    requires WellKeyed(m) && Canonical(id) && forall k :: k in m ==> Canonical(m[k].id)
    ensures id.Print() in m <==> exists k :: k in m && m[k].id == id
    ensures id.Print() in m ==> m[id.Print()].id == id
  {
    if id.Print() in m {
      CanonicalPrintInjective(m[id.Print()].id, id);
    }
  }

  // ---------------------------------------------------------------- eviction policy

  ghost predicate NoneExpired(m: Contents, t: int) {
    forall k :: k in m ==> !m[k].IsExpired(t)
  }

  /** In a store without expired bundles every lifetime that ends within an int64 still runs. */
  lemma NoneExpiredMeans(m: Contents, t: int)
    requires NoneExpired(m, t)
    ensures forall k :: k in m && IsInt64(m[k].createdAt + m[k].lifetime) ==> t < m[k].createdAt + m[k].lifetime
  {
  }

  lemma ExpiryMeans(before: Contents, after: Contents, gone: seq<string>, t: int)
    requires Evicted(before, after, gone, t) && NoneExpired(after, t)
    requires forall k :: k in gone ==> k in before && before[k].IsExpired(t)
    ensures forall k :: k in before && IsInt64(before[k].createdAt + before[k].lifetime) ==>
              (k in after <==> t < before[k].createdAt + before[k].lifetime)
  {
  }

  /** The bundle is expired, or nothing is and no priority is lower. */
  ghost predicate MayEvict(m: Contents, k: string, t: int) {
    k in m && (m[k].IsExpired(t) ||
               (NoneExpired(m, t) && forall j :: j in m ==> m[k].priority <= m[j].priority))
  }

  function Without(m: Contents, victims: seq<string>): Contents {
    m - (set k | k in victims)
  }

  /** Each victim may be evicted from what the earlier ones left. */
  ghost predicate EvictionOrder(m: Contents, victims: seq<string>, t: int) {
    victims == [] ||
    (var n := |victims| - 1;
     EvictionOrder(m, victims[..n], t) && MayEvict(Without(m, victims[..n]), victims[n], t))
  }

  ghost function Freed(m: Contents, victims: seq<string>): int {
    TotalSize(m) - TotalSize(Without(m, victims))
  }

  lemma WithoutSnoc(m: Contents, victims: seq<string>, k: string)
    ensures Without(m, victims + [k]) == Without(m, victims) - {k}
  {
  }

  lemma {:induction false} EvictionShrinks(m: Contents, victims: seq<string>, t: int)
    requires EvictionOrder(m, victims, t)
    ensures Distinct(victims) && (forall k :: k in victims ==> k in m)
    ensures |Without(m, victims)| == |m| - |victims|
  {
    hide MayEvict, Without;
    if victims == [] {
      WithoutNone(m);
    } else {
      var n := |victims| - 1;
      EvictionShrinks(m, victims[..n], t);
      assert victims == victims[..n] + [victims[n]];
      WithoutSnoc(m, victims[..n], victims[n]);
      EvictedWasPresent(m, victims[..n], victims[n], t);
    }
  }

  lemma WithoutNone(m: Contents)
    ensures Without(m, []) == m
  {
  }

  lemma EvictedWasPresent(m: Contents, earlier: seq<string>, k: string, t: int)
    requires MayEvict(Without(m, earlier), k, t)
    ensures k in m && k !in earlier && k in Without(m, earlier)
  {
  }

  /** `after` is what the evictions left of `before`. */
  ghost predicate Evicted(before: Contents, after: Contents, victims: seq<string>, t: int) {
    after == Without(before, victims) && EvictionOrder(before, victims, t)
  }

  lemma EvictNothing(m: Contents, t: int)
    ensures Evicted(m, m, [], t)
  {
    assert Without(m, []) == m;
  }

  lemma EvictOne(before: Contents, after: Contents, victims: seq<string>, t: int, k: string)
    requires Evicted(before, after, victims, t) && MayEvict(after, k, t)
    ensures Evicted(before, after - {k}, victims + [k], t)
  {
    assert (victims + [k])[..|victims|] == victims;
    WithoutSnoc(before, victims, k);
  }

  /** If an unexpired bundle was evicted then no expired one is left, and every bundle left
      has at least the priority of every unexpired bundle evicted. */
  lemma {:induction false} EvictionPolicy(m: Contents, victims: seq<string>, t: int, v: string)
    requires EvictionOrder(m, victims, t) && v in victims && v in m && !m[v].IsExpired(t)
    ensures NoneExpired(Without(m, victims), t)
    ensures forall k :: k in Without(m, victims) ==> m[v].priority <= m[k].priority
  {
    var n := |victims| - 1;
    assert victims == victims[..n] + [victims[n]];
    WithoutSnoc(m, victims[..n], victims[n]);
    if v in victims[..n] {
      EvictionPolicy(m, victims[..n], t, v);
    } else {
      assert v == victims[n];
    }
  }

  /** Eviction under way: what has been freed does not yet suffice. */
  ghost predicate Freeing(before: Contents, after: Contents, victims: seq<string>, freed: int, required: int, t: int) {
    && Evicted(before, after, victims, t)
    && freed == TotalSize(before) - TotalSize(after)
    && (if victims == [] then after == before else freed < required)
  }

  /** Eviction done: enough is free, and without the last victim it was not. */
  ghost predicate Enough(before: Contents, after: Contents, victims: seq<string>, freed: int, required: int, t: int) {
    && Evicted(before, after, victims, t)
    && freed == TotalSize(before) - TotalSize(after)
    && freed >= required && victims != [] && before != map[]
    && (|victims| > 1 ==> Freed(before, victims[..|victims| - 1]) < required)
  }

  lemma StartFreeing(m: Contents, required: int, t: int)
    ensures Freeing(m, m, [], 0, required, t)
  {
    EvictNothing(m, t);
  }

  lemma FreeOne(before: Contents, after: Contents, victims: seq<string>, freed: int, required: int, t: int, k: string)
    requires Freeing(before, after, victims, freed, required, t) && MayEvict(after, k, t)
    ensures k in after
    ensures var freed' := freed + after[k].Size();
            if freed' >= required then Enough(before, after - {k}, victims + [k], freed', required, t)
            else Freeing(before, after - {k}, victims + [k], freed', required, t)
  {
    EvictOne(before, after, victims, t, k);
    TotalRemove(after, k);
    assert (victims + [k])[..|victims|] == victims;
    assert k in before;
  }

  function PriorityOf(e: (string, Bundle)): int { e.1.priority }

  ghost predicate HasEntry(entries: seq<(string, Bundle)>, i: nat, k: string) {
    exists j :: i <= j < |entries| && entries[j].0 == k
  }

  /** Entries from i on are what is left of the store, in rising priority. */
  ghost predicate Pending(m: Contents, entries: seq<(string, Bundle)>, i: nat) {
    && i <= |entries| && SortedBy(entries, PriorityOf)
    && (forall j, k :: i <= j < k < |entries| ==> entries[j].0 != entries[k].0)
    && (forall j :: i <= j < |entries| ==> entries[j].0 in m && m[entries[j].0] == entries[j].1)
    && (forall k :: k in m ==> HasEntry(entries, i, k))
  }

  lemma PendingAll(m: Contents, entries: seq<(string, Bundle)>)
    requires SortedBy(entries, PriorityOf) && Distinct(entries)
    requires forall e :: e in entries <==> e.0 in m && m[e.0] == e.1
    ensures Pending(m, entries, 0)
  {
    assert forall j :: 0 <= j < |entries| ==> entries[j] in entries;
    forall k | k in m ensures HasEntry(entries, 0, k) {
      assert (k, m[k]) in entries;
    }
  }

  lemma PendingHead(m: Contents, entries: seq<(string, Bundle)>, i: nat, t: int)
    requires Pending(m, entries, i) && i < |entries| && NoneExpired(m, t)
    ensures entries[i].0 in m && m[entries[i].0] == entries[i].1
    ensures MayEvict(m, entries[i].0, t) && NoneExpired(m - {entries[i].0}, t)
  {
    hide Bundle.IsExpired;
    forall k | k in m ensures entries[i].1.priority <= m[k].priority {
      assert HasEntry(entries, i, k);
      var j :| i <= j < |entries| && entries[j].0 == k;
      assert PriorityOf(entries[i]) <= PriorityOf(entries[j]);
    }
  }

  lemma PendingTail(m: Contents, entries: seq<(string, Bundle)>, i: nat)
    requires Pending(m, entries, i) && i < |entries|
    ensures Pending(m - {entries[i].0}, entries, i + 1)
  {
    hide SortedBy;
    var left := m - {entries[i].0};
    forall k | k in left ensures HasEntry(entries, i + 1, k) {
      assert HasEntry(entries, i, k);
    }
  }

  lemma PendingNone(m: Contents, entries: seq<(string, Bundle)>)
    requires Pending(m, entries, |entries|)
    ensures m == map[]
  {
    assert forall k :: k in m ==> HasEntry(entries, |entries|, k);
    assert forall k :: k !in m;
  }

  // ---------------------------------------------------------------------- the store

  datatype StoreError = AlreadyExists | StoreFull(required: int, available: int, total: int) | NotFound

  /** Restoring one bundle from non-volatile memory: skipped if it does not fit, otherwise
      written over whatever has its key. */
  function RecoverOne(m: Contents, used: int, max: int, b: Option<Bundle>): (Contents, int) {
    if b.None? || used + b.value.Size() > max then (m, used)
    else (m[b.value.Key() := b.value], used + b.value.Size())
  }

  function Recover(m: Contents, used: int, max: int, nvm: seq<Option<Bundle>>): (Contents, int) {
    if nvm == [] then (m, used)
    else
      var (m', used') := Recover(m, used, max, nvm[..|nvm| - 1]);
      RecoverOne(m', used', max, nvm[|nvm| - 1])
  }

  /** How many entries are missing. */
  function Missing(nvm: seq<Option<Bundle>>): nat {
    if nvm == [] then 0
    else Missing(nvm[..|nvm| - 1]) + if nvm[|nvm| - 1].None? then 1 else 0
  }

  /** The recorded size after recovery, and the bundles that fit when their turn comes: sizes
      alone decide both. */
  function UsedAfter(used: int, max: int, nvm: seq<Option<Bundle>>): int {
    if nvm == [] then used
    else
      var before, last := UsedAfter(used, max, nvm[..|nvm| - 1]), nvm[|nvm| - 1];
      if last.Some? && before + last.value.Size() <= max then before + last.value.Size() else before
  }

  function Fitting(used: int, max: int, nvm: seq<Option<Bundle>>): (bs: seq<Bundle>)
    ensures |bs| <= |nvm| && forall i :: 0 <= i < |bs| ==> Some(bs[i]) in nvm
  {
    if nvm == [] then []
    else
      var n := |nvm| - 1;
      var last := nvm[n];
      assert nvm == nvm[..n] + [last];
      Fitting(used, max, nvm[..n]) +
      if last.Some? && UsedAfter(used, max, nvm[..n]) + last.value.Size() <= max then [last.value] else []
  }

  /** The keys are pairwise distinct and none is in m. */
  ghost predicate NewKeys(m: Contents, bs: seq<Bundle>) {
    && (forall i :: 0 <= i < |bs| ==> bs[i].Key() !in m)
    && (forall i, j :: 0 <= i < j < |bs| ==> bs[i].Key() != bs[j].Key())
  }

  /** The keys of a sequence of bundles. */
  ghost function KeysOf(bs: seq<Bundle>): set<string> {
    set i | 0 <= i < |bs| :: bs[i].Key()
  }

  lemma KeysSnoc(m: Contents, bs: seq<Bundle>, b: Bundle)
    ensures KeysOf(bs + [b]) == KeysOf(bs) + {b.Key()}
    ensures NewKeys(m, bs + [b]) <==> NewKeys(m, bs) && b.Key() !in m.Keys + KeysOf(bs)
  {
    hide Bundle.Key;
    var all, n := bs + [b], |bs|;
    assert forall i :: 0 <= i < n ==> all[i] == bs[i];
    assert all[n] == b;
    if b.Key() in KeysOf(bs) {
      var i :| 0 <= i < n && bs[i].Key() == b.Key();
      assert all[i].Key() == all[n].Key();
      assert !NewKeys(m, all);
    }
    forall k | k in KeysOf(bs) ensures k in KeysOf(all) {
      var i :| 0 <= i < n && bs[i].Key() == k;
      assert all[i].Key() == k;
    }
  }

  lemma RecoveryStarts(m: Contents, used: int, max: int, nvm: seq<Option<Bundle>>)
    ensures Recover(m, used, max, nvm[..0]) == (m, used)
    ensures Fitting(used, max, nvm[..0]) == [] && Missing(nvm[..0]) == 0
  {
  }

  lemma RecoveryStep(m: Contents, used: int, max: int, nvm: seq<Option<Bundle>>, i: nat)
    requires i < |nvm|
    ensures var (m', used') := Recover(m, used, max, nvm[..i]);
            && Recover(m, used, max, nvm[..i + 1]) == RecoverOne(m', used', max, nvm[i])
            && |Fitting(used, max, nvm[..i + 1])| == |Fitting(used, max, nvm[..i])|
               + (if nvm[i].Some? && used' + nvm[i].value.Size() <= max then 1 else 0)
            && Missing(nvm[..i + 1]) == Missing(nvm[..i]) + (if nvm[i].None? then 1 else 0)
  {
    hide Bundle.Size, RecoverOne, KeysOf;
    assert nvm[..i + 1][..i] == nvm[..i];
    RecoveredKeys(m, used, max, nvm[..i]);
  }

  /** The last bundle of a sequence with a given key, None if there is none. */
  function LastWith(bs: seq<Bundle>, k: string): Option<Bundle> {
    if bs == [] then None
    else if bs[|bs| - 1].Key() == k then Some(bs[|bs| - 1])
    else LastWith(bs[..|bs| - 1], k)
  }

  /** After recovery each key holds the last bundle with that ID that fits, or what it held before. */
  lemma {:induction false} RecoveredContents(m: Contents, used: int, max: int, nvm: seq<Option<Bundle>>, k: string)
    ensures var m' := Recover(m, used, max, nvm).0;
            var last := LastWith(Fitting(used, max, nvm), k);
            if last.Some? then k in m' && m'[k] == last.value
            else (k in m' <==> k in m) && (k in m ==> m'[k] == m[k])
  {
    hide Bundle.Key, Bundle.Size;
    if nvm != [] {
      var n := |nvm| - 1;
      RecoveredContents(m, used, max, nvm[..n], k);
      RecoveredKeys(m, used, max, nvm[..n]);
      var earlier := Fitting(used, max, nvm[..n]);
      assert earlier + [] == earlier;
      if nvm[n].Some? {
        assert (earlier + [nvm[n].value])[..|earlier|] == earlier;
      }
    }
  }

  /** The last entry's part in what fits. */
  lemma FittingStep(m: Contents, used: int, max: int, nvm: seq<Option<Bundle>>)
    requires nvm != []
    ensures var n := |nvm| - 1;
            var earlier, last := Fitting(used, max, nvm[..n]), nvm[n];
            if last.Some? && UsedAfter(used, max, nvm[..n]) + last.value.Size() <= max then
              && KeysOf(Fitting(used, max, nvm)) == KeysOf(earlier) + {last.value.Key()}
              && (NewKeys(m, Fitting(used, max, nvm)) <==>
                    NewKeys(m, earlier) && last.value.Key() !in m.Keys + KeysOf(earlier))
            else Fitting(used, max, nvm) == earlier
  {
    hide Bundle.Key, Bundle.Size, NewKeys, KeysOf;
    var n := |nvm| - 1;
    var earlier := Fitting(used, max, nvm[..n]);
    assert earlier + [] == earlier;
    if nvm[n].Some? {
      KeysSnoc(m, earlier, nvm[n].value);
    }
  }

  /** Recovery stores the fitting bundles, and counts their sizes. */
  lemma {:induction false} RecoveredKeys(m: Contents, used: int, max: int, nvm: seq<Option<Bundle>>)
    ensures var (m', used') := Recover(m, used, max, nvm);
            used' == UsedAfter(used, max, nvm) && m'.Keys == m.Keys + KeysOf(Fitting(used, max, nvm))
  {
    hide Bundle.Key, Bundle.Size, KeysOf;
    if nvm == [] {
      assert KeysOf([]) == {} by { NoKeys(); }
    } else {
      var n := |nvm| - 1;
      RecoveredKeys(m, used, max, nvm[..n]);
      FittingStep(m, used, max, nvm);
    }
  }

  lemma NoKeys()
    ensures KeysOf([]) == {}
  {
  }

  /** Recovery keeps the books exactly when the bundles that fit have keys of their own; otherwise
      the recorded size stays too large for good. */
  lemma {:induction false} RecoveryAccountsExactly(m: Contents, used: int, max: int, nvm: seq<Option<Bundle>>)
    requires used == TotalSize(m) && WellKeyed(m)
    ensures var (m', used') := Recover(m, used, max, nvm);
            WellKeyed(m') && used' >= TotalSize(m') &&
            (used' == TotalSize(m') <==> NewKeys(m, Fitting(used, max, nvm)))
  {
    hide TotalSize, WellKeyed, RecoverOne, NewKeys, KeysOf, Bundle.Key;
    if nvm == [] {
      NothingIsNew(m);
    } else {
      var n := |nvm| - 1;
      RecoveryAccountsExactly(m, used, max, nvm[..n]);
      RecoveredKeys(m, used, max, nvm[..n]);
      var (m', used') := Recover(m, used, max, nvm[..n]);
      RecoverOneAccounts(m', used', max, nvm[n]);
      FittingStep(m, used, max, nvm);
    }
  }

  lemma NothingIsNew(m: Contents)
    ensures NewKeys(m, [])
  {
  }

  /** Entries whose keys are pairwise distinct and not stored yet never upset the books. */
  lemma {:induction false} DistinctNewEntriesSuffice(m: Contents, used: int, max: int, nvm: seq<Option<Bundle>>)
    requires forall i :: 0 <= i < |nvm| && nvm[i].Some? ==> nvm[i].value.Key() !in m
    requires forall i, j :: 0 <= i < j < |nvm| && nvm[i].Some? && nvm[j].Some? ==>
                            nvm[i].value.Key() != nvm[j].value.Key()
    ensures NewKeys(m, Fitting(used, max, nvm))
  {
    hide Bundle.Key, Bundle.Size, NewKeys, KeysOf;
    if nvm == [] {
      NothingIsNew(m);
    } else {
      var n := |nvm| - 1;
      DistinctNewEntriesSuffice(m, used, max, nvm[..n]);
      FittingStep(m, used, max, nvm);
      if nvm[n].Some? {
        LastKeyIsNew(Fitting(used, max, nvm[..n]), nvm);
      }
    }
  }

  lemma LastKeyIsNew(fits: seq<Bundle>, nvm: seq<Option<Bundle>>)
    requires nvm != [] && nvm[|nvm| - 1].Some?
    requires forall i :: 0 <= i < |fits| ==> Some(fits[i]) in nvm[..|nvm| - 1]
    requires forall i, j :: 0 <= i < j < |nvm| && nvm[i].Some? && nvm[j].Some? ==>
                            nvm[i].value.Key() != nvm[j].value.Key()
    ensures nvm[|nvm| - 1].value.Key() !in KeysOf(fits)
  {
    hide Bundle.Key;
    var n := |nvm| - 1;
    forall i | 0 <= i < |fits| ensures fits[i].Key() != nvm[n].value.Key() {
      var j :| 0 <= j < n && nvm[..n][j] == Some(fits[i]);
      assert nvm[j].value.Key() != nvm[n].value.Key();
    }
  }

  /** A displacing recovery: the same bundle twice, with room for both. */
  lemma TwiceRecovered(b: Bundle)
    ensures var (m, used) := Recover(map[], 0, 2 * b.Size(), [Some(b), Some(b)]);
            used == 2 * b.Size() && TotalSize(m) == b.Size() < used
  {
    var once: seq<Option<Bundle>> := [Some(b)];
    var twice := once + once;
    assert twice == [Some(b), Some(b)] && twice[..1] == once && once[..0] == [];
    assert Recover(map[], 0, 2 * b.Size(), []) == (map[], 0);
    var m := map[][b.Key() := b];
    assert m[b.Key() := b] == m;
    TotalAdd(map[], b.Key(), b);
    assert Recover(map[], 0, 2 * b.Size(), once) == (m, b.Size());
  }

  lemma RecoverOneAccounts(m: Contents, used: int, max: int, b: Option<Bundle>)
    requires used >= TotalSize(m) && WellKeyed(m)
    ensures var (m', used') := RecoverOne(m, used, max, b);
            WellKeyed(m') && used' >= TotalSize(m') &&
            (used' == TotalSize(m') <==>
               used == TotalSize(m) && (b.Some? && used + b.value.Size() <= max ==> b.value.Key() !in m))
  {
    hide TotalSize, Bundle.Key;
    if b.Some? && used + b.value.Size() <= max {
      var key, rest := b.value.Key(), m - {b.value.Key()};
      if key in m {
        TotalRemove(m, key);
        TotalAdd(rest, key, b.value);
        assert rest[key := b.value] == m[key := b.value];
      } else {
        TotalAdd(m, key, b.value);
      }
    }
  }

  /** The bundles for a destination, highest priority first. */
  ghost predicate ListedFor(m: Contents, dest: EndpointID, list: seq<Bundle>) {
    && SortedBy(list, (b: Bundle) => -b.priority)
    && Distinct(list)
    && forall b :: b in list <==> b.Key() in m && m[b.Key()] == b && b.destination == dest
  }

  class BundleStore {
    var bundles: Contents
    const maxBytes: int
    var usedBytes: int

    constructor (maxBytes: int)
      ensures this.maxBytes == maxBytes && Valid() && bundles == map[]
    {
      this.maxBytes := maxBytes;
      bundles, usedBytes := map[], 0;
    }

    /** The recorded size is the sum of the stored sizes and respects the capacity. */
    ghost predicate Valid()
      reads this
    {
      && WellKeyed(bundles)
      && usedBytes == TotalSize(bundles)
      && (bundles == map[] || usedBytes <= maxBytes)
    }

    method Store(b: Bundle) returns (r: Result<(), StoreError>)
      requires Valid()
      modifies this
      ensures Valid()
      ensures r == if b.Key() in old(bundles) then Err(AlreadyExists)
                   else if old(usedBytes) + b.Size() > maxBytes
                   then Err(StoreFull(b.Size(), maxBytes - old(usedBytes), maxBytes))
                   else Ok(())
      ensures bundles == if r.Ok? then old(bundles)[b.Key() := b] else old(bundles)
      ensures usedBytes == old(usedBytes) + if r.Ok? then |b.payload| + 256 else 0
      ensures r.Ok? <==> b.Key() !in old(bundles) && old(usedBytes) + |b.payload| + 256 <= maxBytes
    {
      var size := b.Size();
      var key := b.Key();
      if key in bundles {
        return Err(AlreadyExists);
      }
      if usedBytes + size > maxBytes {
        return Err(StoreFull(size, maxBytes - usedBytes, maxBytes));
      }
      TotalAdd(bundles, key, b);
      bundles := bundles[key := b];
      usedBytes := usedBytes + size;
      r := Ok(());
    }

    method Retrieve(id: BundleID) returns (r: Result<Bundle, StoreError>)
      requires Valid()
      ensures r == if id.Print() in bundles then Ok(bundles[id.Print()]) else Err(NotFound)
    {
      if id.Print() !in bundles {
        return Err(NotFound);
      }
      r := Ok(bundles[id.Print()]);
    }

    method Delete(id: BundleID) returns (r: Result<(), StoreError>)
      requires Valid()
      modifies this
      ensures Valid()
      ensures r == if id.Print() in old(bundles) then Ok(()) else Err(NotFound)
      ensures bundles == old(bundles) - {id.Print()}
    {
      var key := id.Print();
      if key !in bundles {
        assert bundles - {key} == bundles;
        return Err(NotFound);
      }
      Remove(key);
      r := Ok(());
    }

    /** `delete(bs.bundles, hash); bs.usedBytes -= size`, the step every removal shares. */
    method Remove(key: string)
      requires Valid() && key in bundles
      modifies this
      ensures Valid() && bundles == old(bundles) - {key}
      ensures usedBytes == old(usedBytes) - old(bundles[key]).Size()
    {
      TotalRemove(bundles, key);
      usedBytes := usedBytes - bundles[key].Size();
      bundles := bundles - {key};
    }

    method ListByDestination(dest: EndpointID) returns (list: seq<Bundle>)
      requires Valid()
      ensures ListedFor(bundles, dest, list)
    {
      var found: seq<Bundle> := [];
      var todo := bundles.Keys;
      while todo != {}
        invariant todo <= bundles.Keys
        invariant Distinct(found)
        invariant forall b :: b in found <==>
                    b.Key() in bundles && b.Key() !in todo && bundles[b.Key()] == b && b.destination == dest
        decreases todo
      {
        var key :| key in todo;
        todo := todo - {key};
        var bundle := bundles[key];
        if bundle.destination.scheme == dest.scheme && bundle.destination.ssp == dest.ssp {
          found := found + [bundle];
        }
      }
      list := SortBy(found, (b: Bundle) => -b.priority);
      PermutationKeepsDistinct(found, list);
    }

    /** Evicts some bundle of the lowest priority present. */
    method EvictLowestPriority() returns (r: Option<Bundle>)
      requires Valid()
      modifies this
      ensures Valid()
      ensures old(bundles) == map[] ==> r == None && bundles == map[]
      ensures old(bundles) != map[] ==>
                && r.Some? && r.value.Key() in old(bundles) && old(bundles)[r.value.Key()] == r.value
                && (forall k :: k in old(bundles) ==> r.value.priority <= old(bundles)[k].priority)
                && bundles == old(bundles) - {r.value.Key()}
    {
      if |bundles| == 0 {
        return None;
      }
      var lowest: Option<Bundle> := None;
      var todo := bundles.Keys;
      assert todo != {};
      while todo != {}
        invariant todo <= bundles.Keys
        invariant lowest.None? ==> todo == bundles.Keys
        invariant lowest.Some? ==>
                    && lowest.value.Key() in bundles && bundles[lowest.value.Key()] == lowest.value
                    && forall k :: k in bundles && k !in todo ==> lowest.value.priority <= bundles[k].priority
        decreases todo
      {
        var key :| key in todo;
        todo := todo - {key};
        var bundle := bundles[key];
        if lowest.None? || bundle.priority < lowest.value.priority {
          lowest := Some(bundle);
        }
      }
      Remove(lowest.value.Key());
      r := lowest;
    }

    /** Removes every expired bundle; `gone` is the order in which they were met. */
    method EvictExpired(t: int) returns (evicted: nat, ghost gone: seq<string>)
      requires Valid()
      modifies this
      ensures Valid() && NoneExpired(bundles, t)
      ensures Evicted(old(bundles), bundles, gone, t)
      ensures evicted == |gone| && forall k :: k in gone ==> k in old(bundles) && old(bundles)[k].IsExpired(t)
      ensures forall k :: k in old(bundles) && IsInt64(old(bundles)[k].createdAt + old(bundles)[k].lifetime) ==>
                (k in bundles <==> t < old(bundles)[k].createdAt + old(bundles)[k].lifetime)
    {
      hide Evicted, Valid;
      evicted, gone := 0, [];
      EvictNothing(bundles, t);
      var todo := bundles.Keys;
      while todo != {}
        invariant Valid() && todo <= bundles.Keys
        invariant Evicted(old(bundles), bundles, gone, t)
        invariant forall k :: k in bundles ==> k in old(bundles) && bundles[k] == old(bundles)[k]
        invariant evicted == |gone|
        invariant forall k :: k in gone ==> k in old(bundles) && old(bundles)[k].IsExpired(t)
        invariant forall k :: k in bundles && k !in todo ==> !bundles[k].IsExpired(t)
        decreases todo
      {
        var key :| key in todo;
        todo := todo - {key};
        if bundles[key].IsExpired(t) {
          EvictOne(old(bundles), bundles, gone, t, key);
          Remove(key);
          evicted, gone := evicted + 1, gone + [key];
        }
      }
      ExpiryMeans(old(bundles), bundles, gone, t);
    }

    /** Frees at least `required` bytes, expired bundles first, then by rising priority. It
        succeeds exactly when the store is not empty and holds that many bytes, stops at the
        first victim that suffices, and on failure has emptied the store. */
    method EvictToFreeSpace(required: int, t: int) returns (ok: bool, freed: int, ghost victims: seq<string>)
      requires Valid()
      modifies this
      ensures Valid()
      ensures Evicted(old(bundles), bundles, victims, t)
      ensures freed == old(usedBytes) - usedBytes
      ensures ok <==> old(bundles) != map[] && old(usedBytes) >= required
      ensures required > 0 ==> (ok <==> old(usedBytes) >= required)
      ensures ok ==> freed >= required && old(usedBytes) <= maxBytes
      ensures ok ==> Enough(old(bundles), bundles, victims, freed, required, t)
      ensures !ok ==> bundles == map[]
    {
      hide MayEvict, Pending, NoneExpired, WellKeyed, Bundle.Size, EvictionOrder, Without;
      ok, freed, victims := SweepExpired(required, t);
      if ok {
        return;
      }
      var entries := Entries();
      PendingAll(bundles, entries);
      for i := 0 to |entries|
        invariant Valid() && Freeing(old(bundles), bundles, victims, freed, required, t)
        invariant NoneExpired(bundles, t) && Pending(bundles, entries, i)
      {
        var entry := entries[i];
        PendingHead(bundles, entries, i, t);
        PendingTail(bundles, entries, i);
        FreeOne(old(bundles), bundles, victims, freed, required, t, entry.0);
        Remove(entry.0);
        freed := freed + entry.1.Size();
        victims := victims + [entry.0];
        if freed >= required {
          return true, freed, victims;
        }
      }
      PendingNone(bundles, entries);
    }

    /** The first loop of EvictToFreeSpace. */
    method SweepExpired(required: int, t: int) returns (ok: bool, freed: int, ghost victims: seq<string>)
      requires Valid()
      modifies this
      ensures Valid()
      ensures ok ==> Enough(old(bundles), bundles, victims, freed, required, t)
      ensures !ok ==> NoneExpired(bundles, t) && Freeing(old(bundles), bundles, victims, freed, required, t)
    {
      hide Freeing, Enough, Valid, Bundle.IsExpired, Bundle.Size;
      freed, victims := 0, [];
      StartFreeing(bundles, required, t);
      var todo := bundles.Keys;
      while todo != {}
        invariant Valid() && todo <= bundles.Keys
        invariant Freeing(old(bundles), bundles, victims, freed, required, t)
        invariant forall k :: k in bundles && k !in todo ==> !bundles[k].IsExpired(t)
        decreases todo
      {
        var key :| key in todo;
        todo := todo - {key};
        if bundles[key].IsExpired(t) {
          FreeOne(old(bundles), bundles, victims, freed, required, t, key);
          freed := freed + bundles[key].Size();
          victims := victims + [key];
          Remove(key);
          if freed >= required {
            return true, freed, victims;
          }
        }
      }
      ok := false;
    }

    /** The remaining entries, lowest priority first. */
    method Entries() returns (entries: seq<(string, Bundle)>)
      ensures SortedBy(entries, PriorityOf) && Distinct(entries)
      ensures forall e :: e in entries <==> e.0 in bundles && bundles[e.0] == e.1
    {
      var found: seq<(string, Bundle)> := [];
      var todo := bundles.Keys;
      while todo != {}
        invariant todo <= bundles.Keys && Distinct(found)
        invariant forall e :: e in found <==> e.0 in bundles && e.0 !in todo && bundles[e.0] == e.1
        decreases todo
      {
        var key :| key in todo;
        todo := todo - {key};
        found := found + [(key, bundles[key])];
      }
      entries := SortBy(found, PriorityOf);
      PermutationKeepsDistinct(found, entries);
    }

    /** Reload after a power cycle: the accounts survive exactly when nothing is displaced. */
    method RecoverFromPowerLoss(nvm: seq<Option<Bundle>>) returns (recovered: nat, corrupted: nat)
      requires Valid()
      modifies this
      ensures (bundles, usedBytes) == Recover(old(bundles), old(usedBytes), maxBytes, nvm)
      ensures Valid() <==> NewKeys(old(bundles), Fitting(old(usedBytes), maxBytes, nvm))
      ensures recovered == |Fitting(old(usedBytes), maxBytes, nvm)| && corrupted == Missing(nvm)
    {
      hide NewKeys, TotalSize, WellKeyed, Recover, Fitting, Missing, Bundle.Key, Bundle.Size;
      RecoveryAccountsExactly(bundles, usedBytes, maxBytes, nvm);
      recovered, corrupted := 0, 0;
      RecoveryStarts(bundles, usedBytes, maxBytes, nvm);
      for i := 0 to |nvm|
        invariant (bundles, usedBytes) == Recover(old(bundles), old(usedBytes), maxBytes, nvm[..i])
        invariant bundles == map[] || usedBytes <= maxBytes
        invariant recovered == |Fitting(old(usedBytes), maxBytes, nvm[..i])|
        invariant corrupted == Missing(nvm[..i])
      {
        RecoveryStep(old(bundles), old(usedBytes), maxBytes, nvm, i);
        match nvm[i]
        case None =>
          corrupted := corrupted + 1;
        case Some(bundle) =>
          var size := bundle.Size();
          if usedBytes + size <= maxBytes {
            bundles := bundles[bundle.Key() := bundle];
            usedBytes := usedBytes + size;
            recovered := recovered + 1;
          }
      }
      assert nvm[..|nvm|] == nvm;
    }

    /** The self-check: it recomputes the sum and so detects any drift of the recorded size. */
    method ValidateIntegrity() returns (ok: bool)
      ensures ok <==> usedBytes == TotalSize(bundles)
    {
      var total := 0;
      var todo := bundles.Keys;
      ghost var left := bundles;
      while todo != {}
        invariant left.Keys == todo && todo <= bundles.Keys
        invariant forall k :: k in todo ==> left[k] == bundles[k]
        invariant total + TotalSize(left) == TotalSize(bundles)
        decreases todo
      {
        var key :| key in todo;
        TotalRemove(left, key);
        total := total + bundles[key].Size();
        todo := todo - {key};
        left := left - {key};
      }
      assert left == map[];
      ok := total == usedBytes;
    }
  }
}
