/** Client-side bookkeeping for testing storage servers (TSS): a TSS receives
    a copy of the reads sent to a storage server (SS) and the client counts
    errors and records latencies of both (fdbrpc/TSSComparison.h). */
module TssComparison {

  /** The request types a TSS pair can be compared on. */
  datatype RequestKind =
    | GetValue
    | GetKey
    | GetKeyValues
    | WatchValue
    | WaitMetrics
    | SplitMetrics
    | ReadHotSubRange
    | SplitRange

  /** `m[code]++` on an unordered_map: an absent code counts from 0. */
  function Increment(m: map<int, nat>, code: int): (r: map<int, nat>)
    ensures r.Keys == m.Keys + {code}
    ensures r[code] == (if code in m then m[code] else 0) + 1
    ensures forall c :: c in m && c != code ==> r[c] == m[c]
  {
    m[code := if code in m then m[code] + 1 else 1]
  }

  /** The total of all per-code counts. */
  ghost function SumCounts(m: map<int, nat>): nat
    decreases |m|
  {
    if m == map[] then 0
    else
      assert exists k :: k in m by {
        if forall k :: k !in m {
          assert false;
        }
      }
      var k :| k in m;
      m[k] + SumCounts(m - {k})
  }

  /** The total can be computed by taking out any one code first. */
  lemma {:induction false} SumCountsRemove(m: map<int, nat>, k: int)
    requires k in m
    ensures SumCounts(m) == m[k] + SumCounts(m - {k})
    decreases |m|
  {
    var j :| j in m && SumCounts(m) == m[j] + SumCounts(m - {j});
    if j != k {
      var mj, mk := m - {j}, m - {k};
      assert |mj| == |m| - 1 && |mk| == |m| - 1;
      SumCountsRemove(mj, k);
      SumCountsRemove(mk, j);
      assert mj - {k} == mk - {j};
    }
  }

  lemma SumCountsEmpty()
    ensures SumCounts(map[]) == 0
  {
  }

  /** Counting one more error with some code raises the total by one. */
  lemma SumCountsIncrement(m: map<int, nat>, code: int)
    ensures SumCounts(Increment(m, code)) == SumCounts(m) + 1
  {
    var r := Increment(m, code);
    SumCountsRemove(r, code);
    if code in m {
      SumCountsRemove(m, code);
      assert r - {code} == m - {code};
    } else {
      assert r - {code} == m;
    }
  }

  /** TSSMetrics: counters, latency samples and per-error-code counts. A
      ContinuousSample is modelled as the sequence of samples added to it. */
  class TSSMetrics {
    var requests: nat
    var ssErrors: nat
    var tssErrors: nat
    var tssTimeouts: nat
    var mismatches: nat

    var ssGetValueLatency: seq<real>
    var ssGetKeyLatency: seq<real>
    var ssGetKeyValuesLatency: seq<real>

    var tssGetValueLatency: seq<real>
    var tssGetKeyLatency: seq<real>
    var tssGetKeyValuesLatency: seq<real>

    var ssErrorsByCode: map<int, nat>
    var tssErrorsByCode: map<int, nat>

    /** The error counters as of construction or the last clear(). */
    ghost var ssErrorsAtClear: nat
    ghost var tssErrorsAtClear: nat

    /** The errors counted since construction or the last clear() are exactly
        those tallied by code. */
    ghost predicate Valid()
      reads this
    {
      && ssErrorsAtClear <= ssErrors
      && ssErrors - ssErrorsAtClear == SumCounts(ssErrorsByCode)
      && tssErrorsAtClear <= tssErrors
      && tssErrors - tssErrorsAtClear == SumCounts(tssErrorsByCode)
    }

    constructor ()
      ensures Valid()
      ensures requests == 0 && ssErrors == 0 && tssErrors == 0 && tssTimeouts == 0 && mismatches == 0
      ensures ssGetValueLatency == [] && ssGetKeyLatency == [] && ssGetKeyValuesLatency == []
      ensures tssGetValueLatency == [] && tssGetKeyLatency == [] && tssGetKeyValuesLatency == []
      ensures ssErrorsByCode == map[] && tssErrorsByCode == map[]
    {
      requests, ssErrors, tssErrors, tssTimeouts, mismatches := 0, 0, 0, 0, 0;
      ssGetValueLatency, ssGetKeyLatency, ssGetKeyValuesLatency := [], [], [];
      tssGetValueLatency, tssGetKeyLatency, tssGetKeyValuesLatency := [], [], [];
      ssErrorsByCode, tssErrorsByCode := map[], map[];
      ssErrorsAtClear, tssErrorsAtClear := 0, 0;
    }

    /** Nothing but the SS error counters changed. */
    twostate predicate OnlySsErrorsChanged()
      reads this
    {
      && requests == old(requests) && tssErrors == old(tssErrors)
      && tssTimeouts == old(tssTimeouts) && mismatches == old(mismatches)
      && tssErrorsByCode == old(tssErrorsByCode)
      && SamplesUnchanged()
    }

    /** Nothing but the TSS error counters changed. */
    twostate predicate OnlyTssErrorsChanged()
      reads this
    {
      && requests == old(requests) && ssErrors == old(ssErrors)
      && tssTimeouts == old(tssTimeouts) && mismatches == old(mismatches)
      && ssErrorsByCode == old(ssErrorsByCode)
      && SamplesUnchanged()
    }

    twostate predicate SamplesUnchanged()
      reads this
    {
      && ssGetValueLatency == old(ssGetValueLatency)
      && ssGetKeyLatency == old(ssGetKeyLatency)
      && ssGetKeyValuesLatency == old(ssGetKeyValuesLatency)
      && tssGetValueLatency == old(tssGetValueLatency)
      && tssGetKeyLatency == old(tssGetKeyLatency)
      && tssGetKeyValuesLatency == old(tssGetKeyValuesLatency)
    }

    /** ssError(code). */
    method SsError(code: int)
      requires Valid()
      modifies this
      ensures Valid()
      ensures ssErrors == old(ssErrors) + 1
      ensures ssErrorsByCode == Increment(old(ssErrorsByCode), code)
      ensures OnlySsErrorsChanged()
    {
      SumCountsIncrement(ssErrorsByCode, code);
      ssErrors := ssErrors + 1;
      ssErrorsByCode := Increment(ssErrorsByCode, code);
    }

    /** tssError(code). */
    method TssError(code: int)
      requires Valid()
      modifies this
      ensures Valid()
      ensures tssErrors == old(tssErrors) + 1
      ensures tssErrorsByCode == Increment(old(tssErrorsByCode), code)
      ensures OnlyTssErrorsChanged()
    {
      SumCountsIncrement(tssErrorsByCode, code);
      tssErrors := tssErrors + 1;
      tssErrorsByCode := Increment(tssErrorsByCode, code);
    }

    /** clear(): empties the samples and the per-code maps; the counters keep
        their values. */
    method Clear()
      requires Valid()
      modifies this
      ensures Valid()
      ensures ssGetValueLatency == [] && ssGetKeyLatency == [] && ssGetKeyValuesLatency == []
      ensures tssGetValueLatency == [] && tssGetKeyLatency == [] && tssGetKeyValuesLatency == []
      ensures ssErrorsByCode == map[] && tssErrorsByCode == map[]
      ensures requests == old(requests) && ssErrors == old(ssErrors) && tssErrors == old(tssErrors)
      ensures tssTimeouts == old(tssTimeouts) && mismatches == old(mismatches)
    {
      SumCountsEmpty();
      ssGetValueLatency, ssGetKeyLatency, ssGetKeyValuesLatency := [], [], [];
      tssGetValueLatency, tssGetKeyLatency, tssGetKeyValuesLatency := [], [], [];
      tssErrorsByCode := map[];
      ssErrorsByCode := map[];
      ssErrorsAtClear, tssErrorsAtClear := ssErrors, tssErrors;
    }

    /** recordLatency<Req>: only the three data reads are sampled, each into
        its own SS/TSS pair; the other request types record nothing. */
    method RecordLatency(kind: RequestKind, ssLatency: real, tssLatency: real)
      requires Valid()
      modifies this
      ensures Valid()
      ensures ssGetValueLatency == old(ssGetValueLatency) + (if kind == GetValue then [ssLatency] else [])
      ensures tssGetValueLatency == old(tssGetValueLatency) + (if kind == GetValue then [tssLatency] else [])
      ensures ssGetKeyLatency == old(ssGetKeyLatency) + (if kind == GetKey then [ssLatency] else [])
      ensures tssGetKeyLatency == old(tssGetKeyLatency) + (if kind == GetKey then [tssLatency] else [])
      ensures ssGetKeyValuesLatency == old(ssGetKeyValuesLatency) + (if kind == GetKeyValues then [ssLatency] else [])
      ensures tssGetKeyValuesLatency == old(tssGetKeyValuesLatency) + (if kind == GetKeyValues then [tssLatency] else [])
      ensures requests == old(requests) && ssErrors == old(ssErrors) && tssErrors == old(tssErrors)
      ensures tssTimeouts == old(tssTimeouts) && mismatches == old(mismatches)
      ensures ssErrorsByCode == old(ssErrorsByCode) && tssErrorsByCode == old(tssErrorsByCode)
    {
      match kind
      case GetValue =>
        ssGetValueLatency := ssGetValueLatency + [ssLatency];
        tssGetValueLatency := tssGetValueLatency + [tssLatency];
      case GetKey =>
        ssGetKeyLatency := ssGetKeyLatency + [ssLatency];
        tssGetKeyLatency := tssGetKeyLatency + [tssLatency];
      case GetKeyValues =>
        ssGetKeyValuesLatency := ssGetKeyValuesLatency + [ssLatency];
        tssGetKeyValuesLatency := tssGetKeyValuesLatency + [tssLatency];
      case _ =>
    }
  }
}
