/** Comparison of a storage server's reply (src) with its testing storage
    server's reply (tss) to the same request (TSS_doCompare), and the short
    rendering of values used when a mismatch is reported
    (fdbclient/StorageServerInterface.cpp). */
module StorageServerInterface {
  import opened Bytes
  import opened Text
  import opened Wrappers
  import TssComparison

  type Key = seq<byte>
  type Value = seq<byte>

  /** A key selector: the last key less than (or equal to, with orEqual) `key`,
      moved `offset` keys forward. */
  datatype KeySelector = KeySelector(key: Key, orEqual: bool, offset: int)

  datatype KeyValue = KeyValue(key: Key, value: Value)

  datatype GetValueRequest = GetValueRequest(key: Key, version: int64)
  datatype GetValueReply = GetValueReply(value: Option<Value>, cached: bool)

  datatype GetKeyRequest = GetKeyRequest(sel: KeySelector, version: int64)
  datatype GetKeyReply = GetKeyReply(sel: KeySelector, cached: bool)

  datatype GetKeyValuesRequest = GetKeyValuesRequest(
    begin: KeySelector, end: KeySelector, version: int64, limit: int, limitBytes: int)
  datatype GetKeyValuesReply = GetKeyValuesReply(data: seq<KeyValue>, more: bool, cached: bool)

  /** Trace severity, carried through unchanged. */
  type Severity = int

  /** traceChecksumValue: values longer than 12 bytes are shown as their
      length in parentheses followed by their CRC-32C in eight hex digits.
      CRC-32C itself is a parameter. */
  function TraceChecksumValue(s: Value, crc32c: Value -> uint32): (r: string)
    ensures |s| <= 12 ==> r == BytesToString(s)
    ensures |s| > 12 ==> r == "(" + Decimal(|s|) + ")" + HexPadded(8, crc32c(s))
  {
    if |s| > 12 then "(" + Decimal(|s|) + ")" + HexPadded(8, crc32c(s)) else BytesToString(s)
  }

  lemma {:induction false} DecimalShorterThan(n: nat)
    requires n >= 13
    ensures |Decimal(n)| + 10 < n
  {
    if n >= 100 {
      if n / 10 >= 13 {
        DecimalShorterThan(n / 10);
      } else {
        assert |Decimal(n / 10)| == 2;
      }
    }
  }

  /** The break-even point: the rendering is never longer than the value, and
      a long value's rendering starts with its length in parentheses, which
      can be read back. */
  lemma TraceChecksumValueNeverLonger(s: Value, crc32c: Value -> uint32)
    ensures |TraceChecksumValue(s, crc32c)| <= |s|
    ensures |s| > 12 ==>
      var r := TraceChecksumValue(s, crc32c);
      var k := |Decimal(|s|)|;
      && r[0] == '(' && r[k + 1] == ')'
      && (forall i :: 1 <= i <= k ==> IsDigit(r[i]))
      && ParseDecimal(r[1..k + 1]) == |s|
  {
    if |s| > 12 {
      DecimalShorterThan(|s|);
      var r := TraceChecksumValue(s, crc32c);
      var k := |Decimal(|s|)|;
      assert r[1..k + 1] == Decimal(|s|);
      DecimalRoundTrip(|s|);
    }
  }

  /** TestComparison's checksum case: a 13-byte value's rendering starts
      with "(13)" (shorter ones are shown as they are, by the contract of
      TraceChecksumValue). */
  lemma TestTraceChecksum13(s: Value, crc32c: Value -> uint32)
    requires |s| == 13
    ensures TraceChecksumValue(s, crc32c)[..4] == "(13)"
  {
    assert Decimal(13) == "13" by {
      assert DigitChar(1) == '1';
      assert DigitChar(3) == '3';
      assert Decimal(1) == ['1'];
    }
  }

  /** GetValue: present/absent must agree, and present values must be equal. */
  function CompareGetValue(req: GetValueRequest, src: GetValueReply, tss: GetValueReply,
                           severity: Severity, tssId: Uid): (matches: bool)
    ensures matches <==> src.value == tss.value
  {
    !(src.value.Some? != tss.value.Some? || (src.value.Some? && src.value.value != tss.value.value))
  }

  /** GetKeyValues: the `more` flags and the returned pairs must be equal. */
  function CompareGetKeyValues(req: GetKeyValuesRequest, src: GetKeyValuesReply, tss: GetKeyValuesReply,
                               severity: Severity, tssId: Uid): (matches: bool)
    ensures matches <==> src.more == tss.more && src.data == tss.data
  {
    !(src.more != tss.more || src.data != tss.data)
  }

  /** A selector that resolved to exactly its key. */
  predicate IsExact(s: KeySelector)
  {
    s.offset == 0 && s.orEqual
  }

  /** Which reply's selector is "further": by offset, and for equal offsets
      the one with orEqual. */
  predicate TssOffsetLarger(src: KeySelector, tss: KeySelector)
  {
    if src.offset == tss.offset then tss.orEqual else src.offset < tss.offset
  }

  /** GetKey: the returned selectors are compared as the source does,
      tolerating differences that different shard boundaries can explain. */
  function CompareGetKey(req: GetKeyRequest, src: GetKeyReply, tss: GetKeyReply,
                         severity: Severity, tssId: Uid): (matches: bool)
  {
    var s, t := src.sel, tss.sel;
    if s.orEqual == t.orEqual && s.offset == t.offset then
      if s.offset == 0 && s.orEqual then s.key == t.key else true
    else if s.key == t.key then
      if s.offset == 0 && s.orEqual && t.offset == 1 && !t.orEqual then true
      else if t.offset == 0 && t.orEqual && s.offset == 1 && !s.orEqual then true
      else false
    else
      var tssKeyLarger := Less(s.key, t.key);
      var tssOffsetLarger := if s.offset == t.offset then t.orEqual else s.offset < t.offset;
      tssKeyLarger != tssOffsetLarger
  }

  /** Equal (orEqual, offset): a mismatch only when both are exact and the keys differ. */
  lemma GetKeySameSelector(req: GetKeyRequest, src: GetKeyReply, tss: GetKeyReply, sev: Severity, id: Uid)
    requires src.sel.orEqual == tss.sel.orEqual && src.sel.offset == tss.sel.offset
    ensures !CompareGetKey(req, src, tss, sev, id) <==> IsExact(src.sel) && IsExact(tss.sel) && src.sel.key != tss.sel.key
  {
  }

  /** Every reply matches itself. */
  lemma GetKeyReflexive(req: GetKeyRequest, r: GetKeyReply, sev: Severity, id: Uid)
    ensures CompareGetKey(req, r, r, sev, id)
  {
  }

  /** Same key, different selectors: a match only when one side is exact and
      the other is one step past a shard boundary, (false, 1). */
  lemma GetKeySameKey(req: GetKeyRequest, src: GetKeyReply, tss: GetKeyReply, sev: Severity, id: Uid)
    requires src.sel.key == tss.sel.key
    requires src.sel.orEqual != tss.sel.orEqual || src.sel.offset != tss.sel.offset
    ensures CompareGetKey(req, src, tss, sev, id) <==>
      || (IsExact(src.sel) && tss.sel.offset == 1 && !tss.sel.orEqual)
      || (IsExact(tss.sel) && src.sel.offset == 1 && !src.sel.orEqual)
  {
  }

  /** Different keys and selectors: the keys must be ordered the way the
      selectors are. */
  lemma GetKeyDifferentKeys(req: GetKeyRequest, src: GetKeyReply, tss: GetKeyReply, sev: Severity, id: Uid)
    requires src.sel.key != tss.sel.key
    requires src.sel.orEqual != tss.sel.orEqual || src.sel.offset != tss.sel.offset
    ensures CompareGetKey(req, src, tss, sev, id) <==>
      (Less(src.sel.key, tss.sel.key) <==> !TssOffsetLarger(src.sel, tss.sel))
  {
  }

  /** Which reply came from the storage server does not matter. */
  lemma GetKeySymmetric(req: GetKeyRequest, src: GetKeyReply, tss: GetKeyReply, sev: Severity, id: Uid)
    ensures CompareGetKey(req, src, tss, sev, id) == CompareGetKey(req, tss, src, sev, id)
  {
    LessTrichotomy(src.sel.key, tss.sel.key);
  }

  /** The verdict depends on the two replies only. */
  lemma GetKeyIgnoresContext(req1: GetKeyRequest, req2: GetKeyRequest, src: GetKeyReply, tss: GetKeyReply,
                             sev1: Severity, sev2: Severity, id1: Uid, id2: Uid)
    ensures CompareGetKey(req1, src, tss, sev1, id1) == CompareGetKey(req2, src, tss, sev2, id2)
  {
  }

  /** One request and its two replies, for every request type a TSS pair
      serves; the reply types of the metrics and watch requests carry nothing
      the comparison looks at. */
  datatype Exchange =
    | GetValueExchange(gvReq: GetValueRequest, gvSrc: GetValueReply, gvTss: GetValueReply)
    | GetKeyExchange(gkReq: GetKeyRequest, gkSrc: GetKeyReply, gkTss: GetKeyReply)
    | GetKeyValuesExchange(gkvReq: GetKeyValuesRequest, gkvSrc: GetKeyValuesReply, gkvTss: GetKeyValuesReply)
    | WatchValueExchange
    | WaitMetricsExchange
    | SplitMetricsExchange
    | ReadHotSubRangeExchange
    | SplitRangeExchange
  {
    function Kind(): TssComparison.RequestKind
    {
      match this
      case GetValueExchange(_, _, _) => TssComparison.GetValue
      case GetKeyExchange(_, _, _) => TssComparison.GetKey
      case GetKeyValuesExchange(_, _, _) => TssComparison.GetKeyValues
      case WatchValueExchange => TssComparison.WatchValue
      case WaitMetricsExchange => TssComparison.WaitMetrics
      case SplitMetricsExchange => TssComparison.SplitMetrics
      case ReadHotSubRangeExchange => TssComparison.ReadHotSubRange
      case SplitRangeExchange => TssComparison.SplitRange
    }
  }

  /** TSS_doCompare over all its specialisations. */
  function TssDoCompare(e: Exchange, severity: Severity, tssId: Uid): (matches: bool)
    ensures e.GetValueExchange? ==> (matches <==> e.gvSrc.value == e.gvTss.value)
    ensures e.GetKeyExchange? ==> (matches <==> CompareGetKey(e.gkReq, e.gkSrc, e.gkTss, severity, tssId))
    ensures e.GetKeyValuesExchange? ==> (matches <==> e.gkvSrc.more == e.gkvTss.more && e.gkvSrc.data == e.gkvTss.data)
    ensures e.Kind() !in {TssComparison.GetValue, TssComparison.GetKey, TssComparison.GetKeyValues} ==> matches
  {
    match e
    case GetValueExchange(req, src, tss) => CompareGetValue(req, src, tss, severity, tssId)
    case GetKeyExchange(req, src, tss) => CompareGetKey(req, src, tss, severity, tssId)
    case GetKeyValuesExchange(req, src, tss) => CompareGetKeyValues(req, src, tss, severity, tssId)
    case _ => true
  }

  const KeyA: Key := [97]
  const KeyB: Key := [98]
  const KeyC: Key := [99]
  const KeyD: Key := [100]
  const KeyE: Key := [101]

  function Reply(key: Key, orEqual: bool, offset: int): GetKeyReply
  {
    GetKeyReply(KeySelector(key, orEqual, offset), false)
  }

  /** TestComparison's GetValue cases. */
  lemma TestGetValueCases(sev: Severity, id: Uid)
    ensures var req := GetValueRequest(KeyA, 5);
      var missing, a, b := GetValueReply(None, false), GetValueReply(Some(KeyA), false), GetValueReply(Some(KeyB), false);
      && CompareGetValue(req, missing, missing, sev, id)
      && CompareGetValue(req, a, a, sev, id) && CompareGetValue(req, b, b, sev, id)
      && !CompareGetValue(req, missing, a, sev, id) && !CompareGetValue(req, a, b, sev, id)
  {
  }

  /** TestComparison's GetKeyValues cases. */
  lemma TestGetKeyValuesCases(sev: Severity, id: Uid)
    ensures var req := GetKeyValuesRequest(KeySelector(KeyA, false, 1), KeySelector(KeyB, false, 1), 5, 100, 1000);
      var kv := KeyValue(KeyA, KeyB);
      var empty, one, oneMore := GetKeyValuesReply([], false, false), GetKeyValuesReply([kv], false, false), GetKeyValuesReply([kv], true, false);
      && CompareGetKeyValues(req, empty, empty, sev, id) && CompareGetKeyValues(req, one, one, sev, id)
      && CompareGetKeyValues(req, oneMore, oneMore, sev, id)
      && !CompareGetKeyValues(req, empty, one, sev, id) && !CompareGetKeyValues(req, one, oneMore, sev, id)
  {
  }

  /** TestComparison's GetKey cases with consistent relative offsets. */
  lemma TestGetKeyRelativeOffsets(sev: Severity, id: Uid)
    ensures var req := GetKeyRequest(KeySelector(KeyA, false, 1), 5);
      var A, B, C := Reply(KeyA, false, 20), Reply(KeyB, false, 10), Reply(KeyC, true, 0);
      var D, E := Reply(KeyD, false, -10), Reply(KeyE, false, -20);
      && CompareGetKey(req, A, A, sev, id) && CompareGetKey(req, B, B, sev, id) && CompareGetKey(req, C, C, sev, id)
      && CompareGetKey(req, D, D, sev, id) && CompareGetKey(req, E, E, sev, id)
      && CompareGetKey(req, A, B, sev, id) && CompareGetKey(req, B, A, sev, id)
      && CompareGetKey(req, A, C, sev, id) && CompareGetKey(req, C, A, sev, id)
      && CompareGetKey(req, B, C, sev, id) && CompareGetKey(req, C, B, sev, id)
      && CompareGetKey(req, C, D, sev, id) && CompareGetKey(req, D, C, sev, id)
      && CompareGetKey(req, C, E, sev, id) && CompareGetKey(req, E, C, sev, id)
      && CompareGetKey(req, D, E, sev, id) && CompareGetKey(req, E, D, sev, id)
  {
  }

  /** TestComparison's GetKey edge cases. */
  lemma TestGetKeyEdgeCases(sev: Severity, id: Uid)
    ensures var req := GetKeyRequest(KeySelector(KeyA, false, 1), 5);
      && !CompareGetKey(req, Reply(KeyA, true, 0), Reply(KeyB, true, 0), sev, id)
      && CompareGetKey(req, Reply(KeyA, false, 10), Reply(KeyB, false, 10), sev, id)
      && !CompareGetKey(req, Reply(KeyA, false, 0), Reply(KeyB, false, 10), sev, id)
      && !CompareGetKey(req, Reply(KeyA, false, -10), Reply(KeyB, false, 0), sev, id)
      && CompareGetKey(req, Reply(KeyA, false, 1), Reply(KeyB, true, 0), sev, id)
      && !CompareGetKey(req, Reply(KeyA, true, 0), Reply(KeyB, false, 1), sev, id)
      && CompareGetKey(req, Reply(KeyA, true, 0), Reply(KeyB, false, 0), sev, id)
      && !CompareGetKey(req, Reply(KeyA, false, 0), Reply(KeyB, true, 0), sev, id)
      && CompareGetKey(req, Reply(KeyA, true, 0), Reply(KeyA, false, 1), sev, id)
  {
  }
}
