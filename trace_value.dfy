/** The values of trace event fields (flow/TraceValue.h): a variant over
    string, boolean, counter and numeric alternatives, with truncation of long
    strings and an estimate of the memory a field uses. */
module Trace {
  import opened Bytes

  /** The alternatives a TraceValue can hold. Doubles are modelled as reals.
      A C++ std::string is held as a Dafny string with one character per
      byte, so truncation cuts bytes, as substr does. */
  datatype Alternative =
    | TraceString(value: string)
    | TraceBool(flag: bool)
    | TraceCounter(rate: real, roughness: real, count: int64)
    | TraceNumeric(value: string)

  /** What a truncated string ends in. */
  const Ellipsis: string := "..."

  /** TraceString::truncate(maxFieldLength). The limit is an int compared
      with an unsigned size, so a negative limit converts to a huge one and
      truncates nothing. */
  function Truncated(s: string, maxFieldLength: int): (r: string)
    ensures maxFieldLength < 0 || |s| <= maxFieldLength ==> r == s
    ensures 0 <= maxFieldLength < |s| ==>
      |r| == maxFieldLength + |Ellipsis| && r == s[..maxFieldLength] + Ellipsis
  {
    if 0 <= maxFieldLength < |s| then s[..maxFieldLength] + Ellipsis else s
  }

  /** Truncating twice with the same limit is truncating once: the second
      call cuts the ellipsis off and puts it back. */
  lemma TruncatedIdempotent(s: string, maxFieldLength: int)
    ensures Truncated(Truncated(s, maxFieldLength), maxFieldLength) == Truncated(s, maxFieldLength)
  {
    if 0 <= maxFieldLength < |s| {
      var t := Truncated(s, maxFieldLength);
      assert t[..maxFieldLength] == s[..maxFieldLength];
    }
  }

  /** A truncated field starts with the original's first characters and has
      at most maxFieldLength + 3 of them; for a string only one or two
      characters over the limit, truncation makes it longer. */
  lemma TruncatedBounds(s: string, maxFieldLength: int)
    ensures |Truncated(s, maxFieldLength)| <= if maxFieldLength < 0 then |s| else Max(|s|, maxFieldLength + |Ellipsis|)
    ensures maxFieldLength >= 0 ==> Truncated(s, maxFieldLength)[..Min(|s|, maxFieldLength)] == s[..Min(|s|, maxFieldLength)]
    ensures 0 <= maxFieldLength && |s| in {maxFieldLength + 1, maxFieldLength + 2} ==>
      |Truncated(s, maxFieldLength)| > |s|
  {
  }

  function Max(a: int, b: int): int
  {
    if a < b then b else a
  }

  function Min(a: int, b: int): int
  {
    if a < b then a else b
  }

  /** heapSize(): the string length for string and numeric fields, 0 otherwise. */
  function HeapSize(a: Alternative): (r: nat)
    ensures a.TraceString? || a.TraceNumeric? ==> r == |a.value|
    ensures a.TraceBool? || a.TraceCounter? ==> r == 0
  {
    match a
    case TraceString(v) => |v|
    case TraceNumeric(v) => |v|
    case _ => 0
  }

  /** truncate on the held alternative: only a TraceString changes. */
  function TruncateAlternative(a: Alternative, maxFieldLength: int): (r: Alternative)
    ensures r.TraceString? <==> a.TraceString?
    ensures r.TraceString? ==> r.value == Truncated(a.value, maxFieldLength)
    ensures !a.TraceString? ==> r == a
  {
    match a
    case TraceString(v) => TraceString(Truncated(v, maxFieldLength))
    case _ => a
  }

  /** Truncation never changes which alternative is held, and re-truncating
      with the same limit changes nothing. */
  lemma TruncateAlternativeIdempotent(a: Alternative, maxFieldLength: int)
    ensures TruncateAlternative(TruncateAlternative(a, maxFieldLength), maxFieldLength)
         == TruncateAlternative(a, maxFieldLength)
  {
    if a.TraceString? {
      TruncatedIdempotent(a.value, maxFieldLength);
    }
  }

  /** The renderers whose bodies live outside this header: TraceBool::toString
      and TraceCounter::toString. */
  type BoolToString = bool -> string
  type CounterToString = (real, real, int64) -> string

  /** toString() on the held alternative. */
  function AlternativeToString(a: Alternative, boolToString: BoolToString, counterToString: CounterToString): (r: string)
    ensures a.TraceString? || a.TraceNumeric? ==> r == a.value
    ensures a.TraceBool? ==> r == boolToString(a.flag)
    ensures a.TraceCounter? ==> r == counterToString(a.rate, a.roughness, a.count)
  {
    match a
    case TraceString(v) => v
    case TraceNumeric(v) => v
    case TraceBool(b) => boolToString(b)
    case TraceCounter(rate, roughness, count) => counterToString(rate, roughness, count)
  }

  class TraceValue {
    var value: Alternative

    /** TraceValue(value = ""): a string field, the empty one by default. */
    constructor (s: string := "")
      ensures value == TraceString(s)
    {
      value := TraceString(s);
    }

    /** TraceValue::create<T>(args...): a field holding the given alternative. */
    constructor Create(a: Alternative)
      ensures value == a
    {
      value := a;
    }

    function ToString(boolToString: BoolToString, counterToString: CounterToString): (r: string)
      reads this
      ensures r == AlternativeToString(value, boolToString, counterToString)
    {
      AlternativeToString(value, boolToString, counterToString)
    }

    /** size(): sizeof(TraceValue), a platform constant given here, plus the
        held alternative's heap size. */
    function Size(sizeofTraceValue: nat): (r: nat)
      reads this
      ensures r == sizeofTraceValue + HeapSize(value)
      ensures r >= sizeofTraceValue
    {
      sizeofTraceValue + HeapSize(value)
    }

    /** truncate(maxFieldLength). */
    method Truncate(maxFieldLength: int)
      modifies this
      ensures value == TruncateAlternative(old(value), maxFieldLength)
    {
      match value
      case TraceString(v) =>
        if 0 <= maxFieldLength < |v| {
          value := TraceString(v[..maxFieldLength] + Ellipsis);
        }
      case _ =>
    }
  }
}
