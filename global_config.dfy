/** The client's local cache of the cluster's global configuration
    (fdbclient/GlobalConfig.actor.cpp): an ordered map from keys to decoded
    values, per-key callbacks fired on change, and the application of the
    versioned mutation history broadcast to clients. */
module GlobalConfig {
  import opened Bytes
  import opened Wrappers

  type Key = seq<byte>

  /** The decoded value a ConfigValue holds (its std::any). */
  datatype ConfigValue =
    | StringValue(s: seq<byte>)
    | IntValue(i: int64)
    | BoolValue(b: bool)
    | FloatValue(f: real)
    | DoubleValue(d: real)

  /** The type and content of element 0 of an unpacked tuple. */
  datatype TupleElement =
    | Utf8Element(s: seq<byte>)
    | IntElement(i: int64)
    | BoolElement(b: bool)
    | FloatElement(f: real)
    | DoubleElement(d: real)
    | OtherElement

  /** Tuple::unpack(value) followed by reading the type of element 0; None
      when either throws. The tuple codec is a parameter of the model. */
  type Unpack = seq<byte> -> Option<TupleElement>

  /** The value insert() stores, or None when decoding throws. An element of
      any other type reaches ASSERT(false), whose internal_error is an Error
      and so is caught like a parse error. */
  function Decode(value: seq<byte>, unpack: Unpack): (r: Option<ConfigValue>)
    ensures unpack(value).None? ==> r.None?
    ensures unpack(value) == Some(OtherElement) ==> r.None?
  {
    match unpack(value)
    case None => None
    case Some(e) =>
      match e
      case Utf8Element(s) => Some(StringValue(s))
      case IntElement(i) => Some(IntValue(i))
      case BoolElement(b) => Some(BoolValue(b))
      case FloatElement(f) => Some(FloatValue(f))
      case DoubleElement(d) => Some(DoubleValue(d))
      case OtherElement => None
  }

  /** KeyRangeRef: the keys k with begin <= k < end. */
  datatype KeyRange = KeyRange(begin: Key, end: Key)

  predicate Contains(r: KeyRange, k: Key)
  {
    LessEq(r.begin, k) && Less(k, r.end)
  }

  /** keyAfter(key): the smallest key greater than key. */
  function KeyAfter(key: Key): Key
  {
    key + [0]
  }

  /** Nothing lies strictly between key and keyAfter(key). */
  lemma {:induction false} KeyAfterTight(key: Key, k: Key)
    requires Less(key, k)
    ensures LessEq(KeyAfter(key), k)
  {
    if key == [] {
      if k[0] == 0 && |k| > 1 {
        assert KeyAfter(key)[1..] == [];
      }
      if k[0] == 0 && |k| == 1 {
        assert k == [0];
      }
    } else if key[0] == k[0] {
      assert KeyAfter(key)[1..] == KeyAfter(key[1..]);
      KeyAfterTight(key[1..], k[1..]);
      if KeyAfter(key[1..]) == k[1..] {
        assert k == [k[0]] + k[1..];
        assert KeyAfter(key) == [key[0]] + KeyAfter(key[1..]);
      }
    }
  }

  /** So [key, keyAfter(key)) holds exactly key. */
  lemma SingleKeyRange(key: Key, k: Key)
    ensures Contains(KeyRange(key, KeyAfter(key)), k) <==> k == key
  {
    PrefixLess(key, [0]);
    if k != key && LessEq(key, k) {
      KeyAfterTight(key, k);
      LessTrichotomy(k, KeyAfter(key));
    }
  }

  // ---------------------------------------------------------------------
  // std::map<KeyRef, ...> as a sequence of entries in strictly ascending key order

  datatype Entry = Entry(key: Key, value: ConfigValue)

  predicate SortedKeys(es: seq<Entry>)
  {
    forall i, j :: 0 <= i < j < |es| ==> Less(es[i].key, es[j].key)
  }

  predicate AllBelow(es: seq<Entry>, k: Key)
  {
    forall i :: 0 <= i < |es| ==> Less(es[i].key, k)
  }

  /** map::find. */
  function Lookup(es: seq<Entry>, k: Key): Option<ConfigValue>
  {
    if es == [] then None
    else if es[|es| - 1].key == k then Some(es[|es| - 1].value)
    else Lookup(es[..|es| - 1], k)
  }

  /** The entries whose key satisfies keep, in order. */
  function Filter(es: seq<Entry>, keep: Key -> bool): (r: seq<Entry>)
    ensures |r| <= |es|
  {
    if es == [] then []
    else Filter(es[..|es| - 1], keep) + (if keep(es[|es| - 1].key) then [es[|es| - 1]] else [])
  }

  function OutsideOf(range: KeyRange): Key -> bool
  {
    k => !Contains(range, k)
  }

  function Within(range: KeyRange): Key -> bool
  {
    k => Contains(range, k)
  }

  function OtherThan(key: Key): Key -> bool
  {
    k => k != key
  }

  /** Filtering one more entry of a prefix. */
  lemma FilterStep(es: seq<Entry>, keep: Key -> bool, n: nat)
    requires n < |es|
    ensures Filter(es[..n + 1], keep) == Filter(es[..n], keep) + (if keep(es[n].key) then [es[n]] else [])
  {
    assert es[..n + 1][..n] == es[..n];
  }

  lemma OutsideStep(es: seq<Entry>, range: KeyRange, n: nat)
    requires n < |es|
    ensures Filter(es[..n + 1], OutsideOf(range)) ==
      Filter(es[..n], OutsideOf(range)) + (if Contains(range, es[n].key) then [] else [es[n]])
  {
    FilterStep(es, OutsideOf(range), n);
  }

  lemma {:induction false} FilterBelow(es: seq<Entry>, keep: Key -> bool, k: Key)
    requires AllBelow(es, k)
    ensures AllBelow(Filter(es, keep), k)
  {
    if es != [] {
      FilterBelow(es[..|es| - 1], keep, k);
    }
  }

  lemma {:induction false} FilterSorted(es: seq<Entry>, keep: Key -> bool)
    requires SortedKeys(es)
    ensures SortedKeys(Filter(es, keep))
  {
    if es != [] {
      var init := es[..|es| - 1];
      FilterSorted(init, keep);
      FilterBelow(init, keep, es[|es| - 1].key);
    }
  }

  /** A filtered map holds exactly the kept keys, with their values. */
  lemma {:induction false} FilterLookup(es: seq<Entry>, keep: Key -> bool, k: Key)
    ensures Lookup(Filter(es, keep), k) == if keep(k) then Lookup(es, k) else None
  {
    if es != [] {
      var init := es[..|es| - 1];
      FilterLookup(init, keep, k);
      var f := Filter(es, keep);
      if keep(es[|es| - 1].key) {
        assert f == Filter(init, keep) + [es[|es| - 1]];
        assert f[..|f| - 1] == Filter(init, keep);
      } else {
        assert f == Filter(init, keep);
      }
    }
  }

  /** Inserting a key the map does not hold, at its place in the order. */
  function InsertEntry(es: seq<Entry>, k: Key, v: ConfigValue): (r: seq<Entry>)
    requires SortedKeys(es) && Lookup(es, k).None?
    ensures SortedKeys(r)
    ensures forall b :: AllBelow(es, b) && Less(k, b) ==> AllBelow(r, b)
  {
    if es == [] || Less(es[|es| - 1].key, k) then
      var r := es + [Entry(k, v)];
      assert AllBelow(es, k) by {
        forall i | 0 <= i < |es| - 1 ensures Less(es[i].key, k) {
          LessTransitive(es[i].key, es[|es| - 1].key, k);
        }
      }
      assert forall b :: AllBelow(es, b) && Less(k, b) ==> AllBelow(r, b) by {
        forall b | AllBelow(es, b) && Less(k, b) ensures AllBelow(r, b) {
          assert forall i :: 0 <= i < |es| ==> r[i] == es[i];
        }
      }
      r
    else
      var init, last := es[..|es| - 1], es[|es| - 1];
      LessTrichotomy(last.key, k);
      var r := InsertEntry(init, k, v);
      assert AllBelow(init, last.key);
      r + [last]
  }

  lemma {:induction false} InsertEntryLookup(es: seq<Entry>, k: Key, v: ConfigValue, k': Key)
    requires SortedKeys(es) && Lookup(es, k).None?
    ensures Lookup(InsertEntry(es, k, v), k') == if k' == k then Some(v) else Lookup(es, k')
  {
    if es == [] || Less(es[|es| - 1].key, k) {
      var r := InsertEntry(es, k, v);
      assert r[..|r| - 1] == es;
    } else {
      var init, last := es[..|es| - 1], es[|es| - 1];
      LessTrichotomy(last.key, k);
      InsertEntryLookup(init, k, v, k');
      var r := InsertEntry(es, k, v);
      assert r[..|r| - 1] == InsertEntry(init, k, v);
    }
  }

  // ---------------------------------------------------------------------
  // Callbacks

  /** A registered std::function, by identity. */
  type Callback = nat

  /** One invocation of a callback, with the value it was handed (nullopt on erase). */
  datatype CallbackEvent = CallbackEvent(callback: Callback, arg: Option<ConfigValue>)

  /** The invocations erase(range) makes, in key order: one with nullopt for
      each erased key that has a callback. */
  function ErasedEvents(es: seq<Entry>, range: KeyRange, callbacks: map<Key, Callback>): seq<CallbackEvent>
  {
    if es == [] then []
    else
      var k := es[|es| - 1].key;
      ErasedEvents(es[..|es| - 1], range, callbacks)
        + (if Contains(range, k) && k in callbacks then [CallbackEvent(callbacks[k], None)] else [])
  }

  lemma ErasedEventsStep(es: seq<Entry>, range: KeyRange, callbacks: map<Key, Callback>, n: nat)
    requires n < |es|
    ensures ErasedEvents(es[..n + 1], range, callbacks) == ErasedEvents(es[..n], range, callbacks)
      + (if Contains(range, es[n].key) && es[n].key in callbacks then [CallbackEvent(callbacks[es[n].key], None)] else [])
  {
    assert es[..n + 1][..n] == es[..n];
  }

  /** Removing the entry just after a prefix. */
  lemma Splice(f: seq<Entry>, rest: seq<Entry>)
    requires rest != []
    ensures (f + rest)[|f|] == rest[0]
    ensures (f + rest)[..|f|] + (f + rest)[|f| + 1..] == f + rest[1..]
    ensures f + rest == (f + [rest[0]]) + rest[1..]
  {
  }

  /** Only erased keys' callbacks run, each with nullopt. */
  lemma {:induction false} ErasedEventsAreErasures(es: seq<Entry>, range: KeyRange, callbacks: map<Key, Callback>)
    ensures forall e :: e in ErasedEvents(es, range, callbacks) ==>
      e.arg.None? && exists i :: 0 <= i < |es| && Contains(range, es[i].key) && es[i].key in callbacks
                                && e.callback == callbacks[es[i].key]
  {
    if es != [] {
      ErasedEventsAreErasures(es[..|es| - 1], range, callbacks);
    }
  }

  // ---------------------------------------------------------------------
  // The cache as a value: entries and the callback invocations made so far

  datatype Cache = Cache(data: seq<Entry>, fired: seq<CallbackEvent>)

  /** insert(key, value). */
  function InsertSpec(c: Cache, callbacks: map<Key, Callback>, key: Key, value: seq<byte>, unpack: Unpack): (r: Cache)
    requires SortedKeys(c.data)
    ensures SortedKeys(r.data)
  {
    FilterSorted(c.data, OtherThan(key));
    var rest := Filter(c.data, OtherThan(key));
    FilterLookup(c.data, OtherThan(key), key);
    match Decode(value, unpack)
    case None => Cache(rest, c.fired)
    case Some(v) =>
      Cache(InsertEntry(rest, key, v),
            c.fired + if key in callbacks then [CallbackEvent(callbacks[key], Some(v))] else [])
  }

  /** insert: the key ends up holding what the value decodes to, absent when
      it does not decode; no other key changes; the key's callback runs once
      with the new value, and only on success. */
  lemma InsertSpecMeaning(c: Cache, callbacks: map<Key, Callback>, key: Key, value: seq<byte>, unpack: Unpack, k: Key)
    requires SortedKeys(c.data)
    ensures Lookup(InsertSpec(c, callbacks, key, value, unpack).data, k) ==
      if k == key then Decode(value, unpack) else Lookup(c.data, k)
    ensures InsertSpec(c, callbacks, key, value, unpack).fired ==
      c.fired + if Decode(value, unpack).Some? && key in callbacks
                then [CallbackEvent(callbacks[key], Decode(value, unpack))] else []
  {
    var rest := Filter(c.data, OtherThan(key));
    FilterLookup(c.data, OtherThan(key), k);
    FilterLookup(c.data, OtherThan(key), key);
    FilterSorted(c.data, OtherThan(key));
    if Decode(value, unpack).Some? {
      InsertEntryLookup(rest, key, Decode(value, unpack).value, k);
    }
  }

  /** erase(range). */
  function EraseSpec(c: Cache, callbacks: map<Key, Callback>, range: KeyRange): (r: Cache)
    requires SortedKeys(c.data)
    ensures SortedKeys(r.data)
  {
    FilterSorted(c.data, OutsideOf(range));
    Cache(Filter(c.data, OutsideOf(range)), c.fired + ErasedEvents(c.data, range, callbacks))
  }

  /** erase(range): exactly the in-range keys disappear and every other entry stays. */
  lemma EraseSpecMeaning(c: Cache, callbacks: map<Key, Callback>, range: KeyRange, k: Key)
    requires SortedKeys(c.data)
    ensures Lookup(EraseSpec(c, callbacks, range).data, k) == if Contains(range, k) then None else Lookup(c.data, k)
  {
    FilterLookup(c.data, OutsideOf(range), k);
  }

  /** get(range): the entries whose key lies in the range. */
  function InRange(es: seq<Entry>, range: KeyRange): (r: seq<Entry>)
    requires SortedKeys(es)
    ensures SortedKeys(r)
    ensures forall k :: Lookup(r, k) == if Contains(range, k) then Lookup(es, k) else None
  {
    FilterSorted(es, Within(range));
    forall k ensures Lookup(Filter(es, Within(range)), k) == if Contains(range, k) then Lookup(es, k) else None {
      FilterLookup(es, Within(range), k);
    }
    Filter(es, Within(range))
  }

  /** A row of the global configuration range, with the key prefix removed. */
  datatype Row = Row(key: Key, value: seq<byte>)

  /** refresh(): erase ["", "\xff") and insert every row read, in order. */
  function InsertRows(c: Cache, callbacks: map<Key, Callback>, rows: seq<Row>, unpack: Unpack): (r: Cache)
    requires SortedKeys(c.data)
    ensures SortedKeys(r.data)
  {
    if rows == [] then c
    else
      var last := rows[|rows| - 1];
      InsertSpec(InsertRows(c, callbacks, rows[..|rows| - 1], unpack), callbacks, last.key, last.value, unpack)
  }

  const UserKeys: KeyRange := KeyRange([], [0xff])

  function RefreshSpec(c: Cache, callbacks: map<Key, Callback>, rows: seq<Row>, unpack: Unpack): (r: Cache)
    requires SortedKeys(c.data)
    ensures SortedKeys(r.data)
  {
    InsertRows(EraseSpec(c, callbacks, UserKeys), callbacks, rows, unpack)
  }

  /** The range refresh() clears is every key not starting with byte 0xff. */
  lemma UserKeysContains(k: Key)
    ensures Contains(UserKeys, k) <==> !(|k| > 0 && k[0] == 0xff)
  {
    if |k| > 0 && k[0] == 0xff {
      assert !Less(k, [0xff]) by {
        assert [0xff as byte][1..] == [];
      }
    }
  }

  // ---------------------------------------------------------------------
  // Mutation history

  datatype Mutation =
    | SetValue(param1: Key, param2: seq<byte>)
    | ClearRange(param1: Key, param2: Key)
    | OtherMutation(mutationType: int)

  datatype VersionHistory = VersionHistory(version: int64, mutations: seq<Mutation>)

  /** A cache after some mutations, and whether all were applied: an
      unsupported mutation type reaches ASSERT(false), which ends the updater. */
  datatype Applied = Applied(cache: Cache, ok: bool)

  function ApplyMutation(c: Cache, callbacks: map<Key, Callback>, m: Mutation, unpack: Unpack): (r: Applied)
    requires SortedKeys(c.data)
    ensures SortedKeys(r.cache.data)
    ensures r.ok <==> !m.OtherMutation?
  {
    match m
    case SetValue(k, v) => Applied(InsertSpec(c, callbacks, k, v, unpack), true)
    case ClearRange(b, e) => Applied(EraseSpec(c, callbacks, KeyRange(b, e)), true)
    case OtherMutation(_) => Applied(c, false)
  }

  /** The mutations of one version, in order, stopping at the first unsupported one. */
  function ApplyMutations(c: Cache, callbacks: map<Key, Callback>, ms: seq<Mutation>, unpack: Unpack): (r: Applied)
    requires SortedKeys(c.data)
    ensures SortedKeys(r.cache.data)
  {
    if ms == [] then Applied(c, true)
    else
      var prev := ApplyMutations(c, callbacks, ms[..|ms| - 1], unpack);
      if !prev.ok then prev else ApplyMutation(prev.cache, callbacks, ms[|ms| - 1], unpack)
  }

  /** The mutations are all applied exactly when none is of an unsupported type. */
  lemma {:induction false} ApplyMutationsOk(c: Cache, callbacks: map<Key, Callback>, ms: seq<Mutation>, unpack: Unpack)
    requires SortedKeys(c.data)
    ensures ApplyMutations(c, callbacks, ms, unpack).ok <==> forall i :: 0 <= i < |ms| ==> !ms[i].OtherMutation?
  {
    if ms != [] {
      ApplyMutationsOk(c, callbacks, ms[..|ms| - 1], unpack);
      assert forall i :: 0 <= i < |ms| - 1 ==> ms[..|ms| - 1][i] == ms[i];
    }
  }

  /** Once an unsupported mutation is met, the rest are not applied. */
  lemma {:induction false} MutationsStopped(c: Cache, callbacks: map<Key, Callback>, ms: seq<Mutation>,
                                           unpack: Unpack, i: nat)
    requires SortedKeys(c.data) && i <= |ms|
    requires !ApplyMutations(c, callbacks, ms[..i], unpack).ok
    ensures ApplyMutations(c, callbacks, ms, unpack) == ApplyMutations(c, callbacks, ms[..i], unpack)
    decreases |ms| - i
  {
    if i < |ms| {
      assert ms[..i + 1][..i] == ms[..i];
      MutationsStopped(c, callbacks, ms, unpack, i + 1);
    } else {
      assert ms[..i] == ms;
    }
  }

  /** The cache, lastUpdate and whether the updater is still running. */
  datatype UpdaterState = UpdaterState(cache: Cache, lastUpdate: int64, ok: bool)

  /** One history entry: skipped when already applied, otherwise its
      mutations are applied and lastUpdate moves to its version. */
  function ApplyVersion(s: UpdaterState, callbacks: map<Key, Callback>, vh: VersionHistory, unpack: Unpack): (r: UpdaterState)
    requires SortedKeys(s.cache.data)
    ensures SortedKeys(r.cache.data)
  {
    if !s.ok || vh.version <= s.lastUpdate then s
    else
      var a := ApplyMutations(s.cache, callbacks, vh.mutations, unpack);
      if a.ok then UpdaterState(a.cache, vh.version, true) else UpdaterState(a.cache, s.lastUpdate, false)
  }

  /** The history entries, in order (the else-branch of the updater loop). */
  function ApplyVersions(s: UpdaterState, callbacks: map<Key, Callback>, hs: seq<VersionHistory>, unpack: Unpack): (r: UpdaterState)
    requires SortedKeys(s.cache.data)
    ensures SortedKeys(r.cache.data)
  {
    if hs == [] then s
    else ApplyVersion(ApplyVersions(s, callbacks, hs[..|hs| - 1], unpack), callbacks, hs[|hs| - 1], unpack)
  }

  function MaxVersion(last: int64, hs: seq<VersionHistory>): (r: int64)
    ensures r >= last
  {
    if hs == [] then last
    else
      var m := MaxVersion(last, hs[..|hs| - 1]);
      if hs[|hs| - 1].version > m then hs[|hs| - 1].version else m
  }

  /** lastUpdate never decreases, and when every mutation was supported it
      ends at the largest version seen (or where it was). */
  lemma {:induction false} ApplyVersionsLastUpdate(s: UpdaterState, callbacks: map<Key, Callback>,
                                                  hs: seq<VersionHistory>, unpack: Unpack)
    requires SortedKeys(s.cache.data) && s.ok
    ensures ApplyVersions(s, callbacks, hs, unpack).lastUpdate >= s.lastUpdate
    ensures ApplyVersions(s, callbacks, hs, unpack).ok ==>
      ApplyVersions(s, callbacks, hs, unpack).lastUpdate == MaxVersion(s.lastUpdate, hs)
  {
    if hs != [] {
      ApplyVersionsLastUpdate(s, callbacks, hs[..|hs| - 1], unpack);
      var prev := ApplyVersions(s, callbacks, hs[..|hs| - 1], unpack);
      if !prev.ok {
        StoppedStaysStopped(s, callbacks, hs, unpack, |hs| - 1);
      }
    }
  }

  /** Once the updater has stopped, later entries change nothing. */
  lemma {:induction false} StoppedStaysStopped(s: UpdaterState, callbacks: map<Key, Callback>,
                                              hs: seq<VersionHistory>, unpack: Unpack, i: nat)
    requires SortedKeys(s.cache.data) && i <= |hs|
    requires !ApplyVersions(s, callbacks, hs[..i], unpack).ok
    ensures ApplyVersions(s, callbacks, hs, unpack) == ApplyVersions(s, callbacks, hs[..i], unpack)
    decreases |hs| - i
  {
    if i < |hs| {
      assert hs[..i + 1][..i] == hs[..i];
      StoppedStaysStopped(s, callbacks, hs, unpack, i + 1);
    } else {
      assert hs[..i] == hs;
    }
  }

  /** Entries at or below lastUpdate were already applied and are skipped. */
  lemma {:induction false} AppliedEntriesSkipped(s: UpdaterState, callbacks: map<Key, Callback>,
                                                hs: seq<VersionHistory>, unpack: Unpack)
    requires SortedKeys(s.cache.data)
    requires forall i :: 0 <= i < |hs| ==> hs[i].version <= s.lastUpdate
    ensures ApplyVersions(s, callbacks, hs, unpack) == s
  {
    if hs != [] {
      AppliedEntriesSkipped(s, callbacks, hs[..|hs| - 1], unpack);
    }
  }

  /** Redelivering a history that was applied in full changes nothing. */
  lemma ReplayIsIdempotent(s: UpdaterState, callbacks: map<Key, Callback>, hs: seq<VersionHistory>, unpack: Unpack)
    requires SortedKeys(s.cache.data) && s.ok
    requires ApplyVersions(s, callbacks, hs, unpack).ok
    ensures var t := ApplyVersions(s, callbacks, hs, unpack);
      ApplyVersions(t, callbacks, hs, unpack) == t
  {
    ApplyVersionsLastUpdate(s, callbacks, hs, unpack);
    MaxVersionBound(s.lastUpdate, hs);
    AppliedEntriesSkipped(ApplyVersions(s, callbacks, hs, unpack), callbacks, hs, unpack);
  }

  lemma {:induction false} MaxVersionBound(last: int64, hs: seq<VersionHistory>)
    ensures forall i :: 0 <= i < |hs| ==> hs[i].version <= MaxVersion(last, hs)
  {
    if hs != [] {
      MaxVersionBound(last, hs[..|hs| - 1]);
    }
  }

  /** The updater's reaction to one history broadcast. `refreshRows` is what
      the refresh transaction reads and `historyAfterRefresh` the history as
      it stands once that read completes. */
  function UpdaterSpec(s: UpdaterState, callbacks: map<Key, Callback>, history: seq<VersionHistory>,
                       refreshRows: seq<Row>, historyAfterRefresh: seq<VersionHistory>, unpack: Unpack): (r: UpdaterState)
    requires SortedKeys(s.cache.data)
    ensures SortedKeys(r.cache.data)
  {
    if history == [] then s
    else if s.lastUpdate < history[0].version then
      UpdaterState(RefreshSpec(s.cache, callbacks, refreshRows, unpack),
                   if historyAfterRefresh != [] then historyAfterRefresh[|historyAfterRefresh| - 1].version
                   else s.lastUpdate,
                   s.ok)
    else ApplyVersions(s, callbacks, history, unpack)
  }

  /** The iterator loop of erase(range): walks the entries in key order,
      erasing those in the range and calling each erased key's callback with
      nullopt. Returns the entries kept and the invocations made. */
  method EraseWalk(es: seq<Entry>, range: KeyRange, callbacks: map<Key, Callback>)
    returns (remaining: seq<Entry>, erased: seq<CallbackEvent>)
    ensures remaining == Filter(es, OutsideOf(range))
    ensures erased == ErasedEvents(es, range, callbacks)
  {
    ghost var seen := 0;
    ghost var kept: seq<Entry> := [];
    remaining, erased := es, [];
    var i := 0;
    while i < |remaining|
      invariant 0 <= seen <= |es|
      invariant kept == Filter(es[..seen], OutsideOf(range))
      invariant remaining == kept + es[seen..] && i == |kept|
      invariant erased == ErasedEvents(es[..seen], range, callbacks)
      decreases |remaining| - i
    {
      OutsideStep(es, range, seen);
      ErasedEventsStep(es, range, callbacks, seen);
      Splice(kept, es[seen..]);
      assert es[seen..][1..] == es[seen + 1..];
      assert remaining[i] == es[seen];
      if Contains(range, remaining[i].key) {
        if remaining[i].key in callbacks {
          erased := erased + [CallbackEvent(callbacks[remaining[i].key], None)];
        }
        remaining := remaining[..i] + remaining[i + 1..];
        assert remaining == kept + es[seen + 1..];
      } else {
        kept := kept + [remaining[i]];
        i := i + 1;
        assert remaining == kept + es[seen + 1..];
      }
      seen := seen + 1;
    }
    assert es[..seen] == es;
  }

  // ---------------------------------------------------------------------
  // The GlobalConfig object

  class GlobalConfig {
    var data: seq<Entry>
    var callbacks: map<Key, Callback>
    var lastUpdate: int64
    /** Every callback invocation so far, in order. */
    var fired: seq<CallbackEvent>

    ghost predicate Valid()
      reads this
    {
      SortedKeys(data)
    }

    function Cached(): Cache
      reads this
    {
      Cache(data, fired)
    }

    constructor ()
      ensures Valid()
      ensures data == [] && callbacks == map[] && lastUpdate == 0 && fired == []
    {
      data, callbacks, lastUpdate, fired := [], map[], 0, [];
    }

    /** get(name): the stored value, or a null reference. */
    function Get(name: Key): (r: Option<ConfigValue>)
      reads this
      requires Valid()
      ensures r.Some? <==> exists i :: 0 <= i < |data| && data[i].key == name
      ensures r.Some? ==> exists i :: 0 <= i < |data| && data[i] == Entry(name, r.value)
    {
      LookupFinds(data, name);
      Lookup(data, name)
    }

    /** get(range). */
    function GetRange(range: KeyRange): (r: seq<Entry>)
      reads this
      requires Valid()
      ensures SortedKeys(r)
      ensures forall k :: Lookup(r, k) == if Contains(range, k) then Lookup(data, k) else None
    {
      InRange(data, range)
    }

    /** trigger(key, fn): emplace, so a key keeps its first callback. */
    method Trigger(key: Key, fn: Callback)
      requires Valid()
      modifies this
      ensures Valid()
      ensures callbacks == if key in old(callbacks) then old(callbacks) else old(callbacks)[key := fn]
      ensures data == old(data) && fired == old(fired) && lastUpdate == old(lastUpdate)
    {
      if key !in callbacks {
        callbacks := callbacks[key := fn];
      }
    }

    /** insert(key, value). */
    method Insert(key: Key, value: seq<byte>, unpack: Unpack)
      requires Valid()
      modifies this
      ensures Valid()
      ensures Cached() == InsertSpec(old(Cached()), callbacks, key, value, unpack)
      ensures callbacks == old(callbacks) && lastUpdate == old(lastUpdate)
    {
      FilterSorted(data, OtherThan(key));
      FilterLookup(data, OtherThan(key), key);
      data := Filter(data, OtherThan(key));
      var decoded := Decode(value, unpack);
      if decoded.Some? {
        data := InsertEntry(data, key, decoded.value);
        if key in callbacks {
          fired := fired + [CallbackEvent(callbacks[key], decoded)];
        }
      }
    }

    /** erase(range): walks the map in order, erasing as it goes. */
    method EraseRange(range: KeyRange)
      requires Valid()
      modifies this
      ensures Valid()
      ensures Cached() == EraseSpec(old(Cached()), callbacks, range)
      ensures callbacks == old(callbacks) && lastUpdate == old(lastUpdate)
    {
      var remaining, erased := EraseWalk(data, range, callbacks);
      FilterSorted(data, OutsideOf(range));
      data, fired := remaining, fired + erased;
    }

    /** erase(key): erase([key, keyAfter(key))). */
    method EraseKey(key: Key)
      requires Valid()
      modifies this
      ensures Valid()
      ensures Cached() == EraseSpec(old(Cached()), callbacks, KeyRange(key, KeyAfter(key)))
      ensures forall k :: Lookup(data, k) == if k == key then None else Lookup(old(data), k)
      ensures callbacks == old(callbacks) && lastUpdate == old(lastUpdate)
    {
      ghost var before := Cached();
      EraseRange(KeyRange(key, KeyAfter(key)));
      forall k ensures Lookup(data, k) == if k == key then None else Lookup(before.data, k) {
        EraseSpecMeaning(before, callbacks, KeyRange(key, KeyAfter(key)), k);
        SingleKeyRange(key, k);
      }
    }

    /** refresh() after its read: clear the user key space, insert each row. */
    method Refresh(rows: seq<Row>, unpack: Unpack)
      requires Valid()
      modifies this
      ensures Valid()
      ensures Cached() == RefreshSpec(old(Cached()), callbacks, rows, unpack)
      ensures callbacks == old(callbacks) && lastUpdate == old(lastUpdate)
    {
      EraseRange(UserKeys);
      ghost var erased := Cached();
      for j := 0 to |rows|
        invariant Valid()
        invariant Cached() == InsertRows(erased, callbacks, rows[..j], unpack)
        invariant callbacks == old(callbacks) && lastUpdate == old(lastUpdate)
      {
        assert rows[..j + 1][..j] == rows[..j];
        Insert(rows[j].key, rows[j].value, unpack);
      }
      assert rows[..|rows|] == rows;
    }

    /** One mutation of the history. */
    method ApplyOne(m: Mutation, unpack: Unpack) returns (ok: bool)
      requires Valid()
      modifies this
      ensures Valid()
      ensures Applied(Cached(), ok) == ApplyMutation(old(Cached()), callbacks, m, unpack)
      ensures callbacks == old(callbacks) && lastUpdate == old(lastUpdate)
    {
      match m
      case SetValue(k, v) =>
        Insert(k, v, unpack);
        ok := true;
      case ClearRange(b, e) =>
        EraseRange(KeyRange(b, e));
        ok := true;
      case OtherMutation(_) =>
        ok := false;
    }

    function State(ok: bool): UpdaterState
      reads this
    {
      UpdaterState(Cached(), lastUpdate, ok)
    }

    /** The body of the updater loop for one history broadcast; `ok` is false
        when an unsupported mutation stopped it. */
    method ApplyHistory(history: seq<VersionHistory>, refreshRows: seq<Row>,
                        historyAfterRefresh: seq<VersionHistory>, unpack: Unpack) returns (ok: bool)
      requires Valid()
      modifies this
      ensures Valid()
      ensures State(ok) == UpdaterSpec(old(State(true)), callbacks, history, refreshRows, historyAfterRefresh, unpack)
      ensures callbacks == old(callbacks)
    {
      ok := true;
      if |history| == 0 {
        return;
      }
      if lastUpdate < history[0].version {
        Refresh(refreshRows, unpack);
        if |historyAfterRefresh| > 0 {
          lastUpdate := historyAfterRefresh[|historyAfterRefresh| - 1].version;
        }
        return;
      }
      ghost var start := State(true);
      var i := 0;
      while i < |history|
        invariant 0 <= i <= |history|
        invariant Valid() && ok
        invariant State(ok) == ApplyVersions(start, callbacks, history[..i], unpack)
        invariant callbacks == old(callbacks)
      {
        assert history[..i + 1][..i] == history[..i];
        var vh := history[i];
        if vh.version <= lastUpdate {
          i := i + 1;
          continue;
        }
        ghost var before := Cached();
        ghost var lastBefore := lastUpdate;
        var j := 0;
        while j < |vh.mutations|
          invariant 0 <= j <= |vh.mutations|
          invariant Valid()
          invariant Applied(Cached(), true) == ApplyMutations(before, callbacks, vh.mutations[..j], unpack)
          invariant callbacks == old(callbacks) && lastUpdate == lastBefore
        {
          assert vh.mutations[..j + 1][..j] == vh.mutations[..j];
          var applied := ApplyOne(vh.mutations[j], unpack);
          if !applied {
            ok := false;
            MutationsStopped(before, callbacks, vh.mutations, unpack, j + 1);
            StoppedStaysStopped(start, callbacks, history, unpack, i + 1);
            return;
          }
          j := j + 1;
        }
        assert vh.mutations[..j] == vh.mutations;
        lastUpdate := vh.version;
        i := i + 1;
      }
      assert history[..i] == history;
    }
  }

  /** Lookup finds a key exactly when some entry has it. */
  lemma {:induction false} LookupFinds(es: seq<Entry>, k: Key)
    ensures Lookup(es, k).Some? <==> exists i :: 0 <= i < |es| && es[i].key == k
    ensures Lookup(es, k).Some? ==> exists i :: 0 <= i < |es| && es[i] == Entry(k, Lookup(es, k).value)
  {
    if es != [] {
      var init := es[..|es| - 1];
      LookupFinds(init, k);
      if es[|es| - 1].key != k && Lookup(es, k).None? {
        forall i | 0 <= i < |es| ensures es[i].key != k {
          if i < |es| - 1 { assert es[i] == init[i]; }
        }
      }
      if es[|es| - 1].key != k && Lookup(es, k).Some? {
        var i :| 0 <= i < |init| && init[i] == Entry(k, Lookup(es, k).value);
        assert es[i] == init[i];
      }
    }
  }
}
