/** System keys of the restore workers and appliers
    (fdbserver/RestoreWorkerInterface.actor.cpp): a fixed prefix followed by
    fixed-width fields written as raw little-endian memory. */
module RestoreKeys {
  import opened Bytes
  import opened Wrappers

  type Key = seq<byte>

  /** "\xff\x02/restoreWorkers" and "\xff\x02/restoreApplier", spelled in bytes. */
  const WorkersStem: Key := [0xff, 0x02, 47, 114, 101, 115, 116, 111, 114, 101, 87, 111, 114, 107, 101, 114, 115]
  const ApplierStem: Key := [0xff, 0x02, 47, 114, 101, 115, 116, 111, 114, 101, 65, 112, 112, 108, 105, 101, 114]

  /** The ranges restoreWorkersKeys and restoreApplierKeys: stem + "/" to stem + "0". */
  const RestoreWorkersBegin: Key := WorkersStem + [47]
  const RestoreWorkersEnd: Key := WorkersStem + [48]
  const RestoreApplierBegin: Key := ApplierStem + [47]
  const RestoreApplierEnd: Key := ApplierStem + [48]

  predicate InRange(k: Key, begin: Key, end: Key)
  {
    LessEq(begin, k) && Less(k, end)
  }

  /** Every key that extends stem + "/" lies in [stem + "/", stem + "0"). */
  lemma {:induction false} SlashRangeContains(stem: Key, rest: Key)
    ensures InRange(stem + [47] + rest, stem + [47], stem + [48])
  {
    if rest != [] {
      PrefixLess(stem + [47], rest);
    }
    CommonPrefixLess(stem, [47] + rest, [48]);
    assert stem + [47] + rest == stem + ([47] + rest);
  }

  /** A UID as written by BinaryWriter: first() then second(), each as 8
      little-endian bytes. */
  function EncodeUid(id: Uid): (r: Key)
    ensures |r| == 16
  {
    LittleEndian(8, id.first) + LittleEndian(8, id.second)
  }

  /** 8 little-endian bytes read as a uint64. */
  function ReadUint64(s: seq<byte>): (r: uint64)
    requires |s| == 8
  {
    FromLittleEndianBound(s);
    assert Pow256(8) == 0x1_0000_0000_0000_0000;
    FromLittleEndian(s)
  }

  lemma ReadWritten(x: uint64)
    ensures ReadUint64(LittleEndian(8, x)) == x
  {
    assert Pow256(8) == 0x1_0000_0000_0000_0000;
    LittleEndianRoundTrip(8, x);
  }

  function DecodeUid(s: seq<byte>): Uid
    requires |s| == 16
  {
    Uid(ReadUint64(s[..8]), ReadUint64(s[8..]))
  }

  lemma UidRoundTrip(id: Uid)
    ensures DecodeUid(EncodeUid(id)) == id
  {
    var e := EncodeUid(id);
    assert e[..8] == LittleEndian(8, id.first);
    assert e[8..] == LittleEndian(8, id.second);
    ReadWritten(id.first);
    ReadWritten(id.second);
  }

  /** bigEndian64 on an int64: swap the bytes of its two's-complement pattern. */
  function BigEndian64(x: int64): int64
  {
    ToInt64(ByteSwap64(ToUint64(x)))
  }

  /** One function encodes and decodes, so applying it twice must give the
      value back. */
  lemma BigEndian64Involution(x: int64)
    ensures BigEndian64(BigEndian64(x)) == x
  {
    ByteSwapInvolution(ToUint64(x));
    Int64RoundTrip(x);
  }

  /** An int64 passed through bigEndian64 and written raw: its big-endian bytes. */
  lemma WrittenBigEndian(x: int64)
    ensures LittleEndian(8, ToUint64(BigEndian64(x))) == BigEndian(8, ToUint64(x))
  {
    ByteSwapWritesBigEndian(ToUint64(x));
  }

  /** restoreApplierKeyFor(applierID, batchIndex, version). */
  function RestoreApplierKeyFor(applierID: Uid, batchIndex: int64, version: int64): (r: Key)
    ensures |r| == |RestoreApplierBegin| + 32
    ensures r == RestoreApplierBegin + EncodeUid(applierID)
               + BigEndian(8, ToUint64(batchIndex)) + BigEndian(8, ToUint64(version))
  {
    WrittenBigEndian(batchIndex);
    WrittenBigEndian(version);
    RestoreApplierBegin + EncodeUid(applierID)
      + LittleEndian(8, ToUint64(BigEndian64(batchIndex))) + LittleEndian(8, ToUint64(BigEndian64(version)))
  }

  /** decodeRestoreApplierKey(key): reads a UID and two int64s from the start
      of key, passing the two through bigEndian64. It does not skip the
      prefix. A key too short for the reads is a failed read (None); bytes past
      the 32 read are ignored. */
  function DecodeRestoreApplierKey(key: Key): (r: Option<(Uid, int64, int64)>)
    ensures r.Some? <==> |key| >= 32
  {
    if |key| < 32 then None
    else
      var id := DecodeUid(key[..16]);
      var batchIndex := ToInt64(ReadUint64(key[16..24]));
      var version := ToInt64(ReadUint64(key[24..32]));
      Some((id, BigEndian64(batchIndex), BigEndian64(version)))
  }

  /** Decoding a key with its prefix removed gives back what it was built from. */
  lemma ApplierKeyRoundTrip(applierID: Uid, batchIndex: int64, version: int64)
    ensures DecodeRestoreApplierKey(RestoreApplierKeyFor(applierID, batchIndex, version)[|RestoreApplierBegin|..])
         == Some((applierID, batchIndex, version))
  {
    var key := RestoreApplierKeyFor(applierID, batchIndex, version);
    var wb, wv := ToUint64(BigEndian64(batchIndex)), ToUint64(BigEndian64(version));
    var body := key[|RestoreApplierBegin|..];
    assert body == EncodeUid(applierID) + LittleEndian(8, wb) + LittleEndian(8, wv);
    assert body[..16] == EncodeUid(applierID);
    assert body[16..24] == LittleEndian(8, wb);
    assert body[24..32] == LittleEndian(8, wv);
    UidRoundTrip(applierID);
    ReadWritten(wb);
    ReadWritten(wv);
    BigEndian64Involution(batchIndex);
    BigEndian64Involution(version);
  }

  /** Decoding the whole key reads the prefix's first 16 bytes as the UID. */
  lemma DecodeReadsPrefix(applierID: Uid, batchIndex: int64, version: int64)
    ensures var r := DecodeRestoreApplierKey(RestoreApplierKeyFor(applierID, batchIndex, version));
      r.Some? && r.value.0 == DecodeUid(RestoreApplierBegin[..16])
  {
    var key := RestoreApplierKeyFor(applierID, batchIndex, version);
    assert key[..16] == RestoreApplierBegin[..16];
  }

  /** Every applier key lies in restoreApplierKeys. */
  lemma ApplierKeyInRange(applierID: Uid, batchIndex: int64, version: int64)
    ensures InRange(RestoreApplierKeyFor(applierID, batchIndex, version), RestoreApplierBegin, RestoreApplierEnd)
  {
    var rest := EncodeUid(applierID) + BigEndian(8, ToUint64(batchIndex)) + BigEndian(8, ToUint64(version));
    SlashRangeContains(ApplierStem, rest);
    assert RestoreApplierKeyFor(applierID, batchIndex, version) == ApplierStem + [47] + rest;
  }

  /** For one applier and non-negative fields, the keys sort as the pairs
      (batchIndex, version) do. */
  lemma ApplierKeyOrder(applierID: Uid, b1: int64, v1: int64, b2: int64, v2: int64)
    requires b1 >= 0 && v1 >= 0 && b2 >= 0 && v2 >= 0
    ensures Less(RestoreApplierKeyFor(applierID, b1, v1), RestoreApplierKeyFor(applierID, b2, v2))
        <==> b1 < b2 || (b1 == b2 && v1 < v2)
  {
    var p := RestoreApplierBegin + EncodeUid(applierID);
    var e1, e2 := BigEndian(8, b1) + BigEndian(8, v1), BigEndian(8, b2) + BigEndian(8, v2);
    assert RestoreApplierKeyFor(applierID, b1, v1) == p + e1;
    assert RestoreApplierKeyFor(applierID, b2, v2) == p + e2;
    CommonPrefixLess(p, e1, e2);
    ConcatLess(BigEndian(8, b1), BigEndian(8, v1), BigEndian(8, b2), BigEndian(8, v2));
    assert Pow256(8) == 0x1_0000_0000_0000_0000;
    BigEndianOrder(8, b1, b2);
    BigEndianOrder(8, v1, v2);
    if BigEndian(8, b1) == BigEndian(8, b2) {
      BigEndianRoundTrip(8, b1);
      BigEndianRoundTrip(8, b2);
    }
  }

  /** The order holds only for non-negative fields: a negative batch index
      sorts after every non-negative one. */
  lemma NegativeBatchSortsLast(applierID: Uid, b1: int64, v1: int64, b2: int64, v2: int64)
    requires b1 < 0 <= b2
    ensures Less(RestoreApplierKeyFor(applierID, b2, v2), RestoreApplierKeyFor(applierID, b1, v1))
  {
    var p := RestoreApplierBegin + EncodeUid(applierID);
    var u1 := ToUint64(b1);
    var e1, e2 := BigEndian(8, u1) + BigEndian(8, ToUint64(v1)), BigEndian(8, b2) + BigEndian(8, ToUint64(v2));
    assert RestoreApplierKeyFor(applierID, b1, v1) == p + e1;
    assert RestoreApplierKeyFor(applierID, b2, v2) == p + e2;
    CommonPrefixLess(p, e2, e1);
    ConcatLess(BigEndian(8, b2), BigEndian(8, ToUint64(v2)), BigEndian(8, u1), BigEndian(8, ToUint64(v1)));
    assert Pow256(8) == 0x1_0000_0000_0000_0000;
    BigEndianOrder(8, b2, u1);
  }

  /** restoreWorkerKeyFor(workerID). */
  function RestoreWorkerKeyFor(workerID: Uid): (r: Key)
    ensures |r| == |RestoreWorkersBegin| + 16
    ensures r[..|RestoreWorkersBegin|] == RestoreWorkersBegin
    ensures r[|RestoreWorkersBegin|..] == EncodeUid(workerID)
    ensures DecodeUid(r[|RestoreWorkersBegin|..]) == workerID
  {
    UidRoundTrip(workerID);
    var r := RestoreWorkersBegin + EncodeUid(workerID);
    assert r[|RestoreWorkersBegin|..] == EncodeUid(workerID);
    r
  }

  /** Distinct workers get distinct keys. */
  lemma WorkerKeyInjective(w1: Uid, w2: Uid)
    requires RestoreWorkerKeyFor(w1) == RestoreWorkerKeyFor(w2)
    ensures w1 == w2
  {
    var n := |RestoreWorkersBegin|;
    assert RestoreWorkerKeyFor(w1)[n..] == EncodeUid(w1);
    assert RestoreWorkerKeyFor(w2)[n..] == EncodeUid(w2);
    UidRoundTrip(w1);
    UidRoundTrip(w2);
  }

  /** Every worker key lies in restoreWorkersKeys. */
  lemma WorkerKeyInRange(workerID: Uid)
    ensures InRange(RestoreWorkerKeyFor(workerID), RestoreWorkersBegin, RestoreWorkersEnd)
  {
    SlashRangeContains(WorkersStem, EncodeUid(workerID));
  }
}
