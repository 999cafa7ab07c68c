/** Spans, traces and sampling decisions as values (types/event.go), and the
    per-span arithmetic the collector applies on the way out (collect/collect.go).
 */
module Events {

  datatype Option<+T> = None | Some(value: T)

  const TWO_64: nat := 0x1_0000_0000_0000_0000

  /** One value of a span's Data map, split the way GetDataSize splits them. */
  datatype Value =
    | BoolVal(b: bool)
    | IntVal(i: int)
    | FloatVal(r: real)
    | StrVal(s: string)
    | BytesVal(bs: seq<nat>)
    | NilVal
    | OtherVal(tag: nat)
  {
    function Size(): nat {
      match this
      case BoolVal(_) => 1
      case StrVal(s) => |s|
      case BytesVal(bs) => |bs|
      case _ => 8
    }
  }

  type Data = map<string, Value>

  /** A span. `uid` stands for the pointer: the router allocates one span per event.
      `seenAt` is the clock reading processSpan takes after adding the span. */
  datatype Span = Span(
    uid: nat,
    traceID: string,
    sampleRate: nat,
    data: Data,
    dataSize: nat,
    arrivalTime: int,
    seenAt: int)

  /** A trace. `serial` stands for the pointer, and `root` is the position in
      `spans` of the span RootSpan points at. */
  datatype Trace = Trace(
    serial: nat,
    traceID: string,
    sampleRate: nat,
    keepSample: bool,
    sent: bool,
    sendBy: int,
    arrivalTime: int,
    root: Option<nat>,
    dataSize: nat,
    spans: seq<Span>,
    totalImpact: int)

  /** A field, and the text a sampler writes there on every span of the trace it decides. */
  datatype Mark = Mark(field: string, text: string)

  datatype Decision = Decision(rate: nat, keep: bool, reason: string, mark: Option<Mark> := None)

  predicate Absent(d: Data, field: string) {
    field !in d || d[field] == NilVal
  }

  predicate IsRoot(sp: Span) {
    Absent(sp.data, "traceParentID") && Absent(sp.data, "parentId")
  }

  /** A span that names a parent: one of the two parent fields is there with a value. */
  predicate HasParent(data: Data) {
    || ("traceParentID" in data && data["traceParentID"] != NilVal)
    || ("parentId" in data && data["parentId"] != NilVal)
  }

  lemma RootsNameNoParent(sp: Span)
    ensures IsRoot(sp) <==> !HasParent(sp.data)
  {
  }

  /******* Data size *******/

  ghost function DataSizeOf(d: Data): nat
  {
    if d == map[] then 0
    else
      var k :| k in d;
      d[k].Size() + DataSizeOf(d - {k})
  }

  /** The sum does not depend on the order in which the map is walked. */
  lemma {:induction false} DataSizeAny(d: Data, k: string)
    requires k in d
    ensures DataSizeOf(d) == d[k].Size() + DataSizeOf(d - {k})
    decreases |d|
  {
    var j :| j in d && DataSizeOf(d) == d[j].Size() + DataSizeOf(d - {j});
    if j != k {
      DataSizeAny(d - {j}, k);
      DataSizeAny(d - {k}, j);
      assert d - {j} - {k} == d - {k} - {j};
    }
  }

  method GetDataSize(d: Data) returns (total: nat)
    ensures total == DataSizeOf(d)
  {
    total := 0;
    var rest := d;
    while rest != map[]
      invariant rest.Keys <= d.Keys
      invariant total + DataSizeOf(rest) == DataSizeOf(d)
      decreases |rest|
    {
      var k :| k in rest;
      DataSizeAny(rest, k);
      total := total + rest[k].Size();
      rest := rest - {k};
    }
  }

  /** What one more field adds: a byte for a bool, the length of a text, 8 otherwise. */
  lemma SizeOfField(d: Data, k: string, v: Value)
    requires k !in d
    ensures DataSizeOf(map[]) == 0
    ensures DataSizeOf(d[k := v]) - DataSizeOf(d)
            == if v.BoolVal? then 1 else if v.StrVal? then |v.s| else if v.BytesVal? then |v.bs| else 8
  {
    DataSizeAny(d[k := v], k);
    assert d[k := v] - {k} == d;
  }

  /******* Cache impact *******/

  const IMPACT_FACTOR := 4

  /** Go's integer division truncates toward zero. */
  function TruncDiv(a: int, b: int): int
    requires b != 0
  {
    if a >= 0 then a / b else -((-a) / b)
  }

  function SpanImpact(sp: Span, now: int, timeout: int): int
    requires timeout != 0
  {
    (TruncDiv(IMPACT_FACTOR * (now - sp.arrivalTime), timeout) + 1) * sp.dataSize
  }

  /** Truncation: the remainder is smaller than the divisor and has the sign of the dividend. */
  ghost predicate Truncates(a: int, b: int, q: int) {
    var r := a - q * b;
    Abs(r) < Abs(b) && (r != 0 ==> (r > 0 <==> a > 0))
  }

  function Abs(x: int): nat { if x < 0 then -x else x }

  lemma TruncDivTruncates(a: int, b: int)
    requires b != 0
    ensures Truncates(a, b, TruncDiv(a, b))
  {
    var q := TruncDiv(a, b);
    hide TruncDiv;
    if a >= 0 {
      DividesBelow(a, b, q);
      Remainder(a, b, q, q * b);
    } else {
      DividesBelow(-a, b, -q);
      NegMul(q, b);
      Remainder(a, b, q, q * b);
    }
  }

  lemma Remainder(a: int, b: int, q: int, p: int)
    requires p == q * b && (if a >= 0 then 0 <= a - p < Abs(b) else 0 <= -a + p < Abs(b))
    ensures Truncates(a, b, q)
  {
  }

  lemma DividesBelow(n: int, b: int, q: int)
    requires b != 0 && n >= 0 && q == n / b
    ensures 0 <= n - q * b < Abs(b)
  {
    assert n == (n / b) * b + n % b;
  }

  lemma NegMul(q: int, b: int)
    ensures (-q) * b == -(q * b)
  {
  }

  /** The impact of a span: its size, times one more than the number of quarters of the timeout
      that have passed since it arrived, truncated toward zero. */
  lemma ImpactOfSpan(sp: Span, now: int, timeout: int) returns (quarters: int)
    requires timeout != 0
    ensures Truncates(4 * (now - sp.arrivalTime), timeout, quarters)
    ensures SpanImpact(sp, now, timeout) == (quarters + 1) * sp.dataSize
  {
    var a := 4 * (now - sp.arrivalTime);
    quarters := TruncDiv(a, timeout);
    TruncDivTruncates(a, timeout);
  }

  /** On a clock that is not behind, that number of quarters is the one whose bounds hold the age. */
  lemma ImpactByAge(sp: Span, now: int, timeout: int, m: int)
    requires timeout > 0 && now >= sp.arrivalTime
    requires (m - 1) * timeout <= 4 * (now - sp.arrivalTime) < m * timeout
    ensures SpanImpact(sp, now, timeout) == m * sp.dataSize
  {
    hide SpanImpact;
    var q := ImpactOfSpan(sp, now, timeout);
    OneQuotient(4 * (now - sp.arrivalTime), timeout, q, m);
  }

  lemma OneQuotient(a: int, b: int, q: int, m: int)
    requires b > 0 && a >= 0 && Truncates(a, b, q) && (m - 1) * b <= a < m * b
    ensures q == m - 1
  {
    if q < m - 1 { MulOrder(q + 1, m - 1, b); MulOrder(q, q, b); } else if q > m - 1 { MulOrder(m, q, b); }
  }

  lemma MulOrder(a: int, b: int, c: int)
    requires a <= b && c > 0
    ensures a * c <= b * c
    ensures (a + 1) * c == a * c + c
  {
    assert b * c - a * c == (b - a) * c;
  }

  /** There is such a number for every age. */
  lemma AgeHasQuarters(age: int, timeout: int) returns (m: int)
    requires timeout > 0 && age >= 0
    ensures m >= 1 && (m - 1) * timeout <= 4 * age < m * timeout
  {
    m := 4 * age / timeout + 1;
    assert 4 * age == (4 * age / timeout) * timeout + 4 * age % timeout;
  }

  /** Impact does not fall with age, and a span older by a quarter of the timeout weighs at least
      its size more. */
  lemma OlderWeighsMore(a: Span, atA: int, b: Span, atB: int, timeout: int)
    requires timeout > 0 && a.dataSize == b.dataSize && b.arrivalTime <= atB
    requires atA - a.arrivalTime >= atB - b.arrivalTime
    ensures SpanImpact(a, atA, timeout) >= SpanImpact(b, atB, timeout)
    ensures 4 * ((atA - a.arrivalTime) - (atB - b.arrivalTime)) >= timeout ==>
              SpanImpact(a, atA, timeout) >= SpanImpact(b, atB, timeout) + b.dataSize
  {
    var ageA, ageB := atA - a.arrivalTime, atB - b.arrivalTime;
    var m := AgeHasQuarters(ageA, timeout);
    var n := AgeHasQuarters(ageB, timeout);
    ImpactByAge(a, atA, timeout, m);
    ImpactByAge(b, atB, timeout, n);
    if m < n { MulOrder(m, n - 1, timeout); }
    if 4 * (ageA - ageB) >= timeout && m < n + 1 { MulOrder(m, n, timeout); MulOrder(n - 1, n, timeout); }
    MulMore(m, n, a.dataSize);
  }

  lemma MulMore(m: int, n: int, size: nat)
    requires m >= n
    ensures m * size >= n * size && (m >= n + 1 ==> m * size >= n * size + size)
  {
    assert m * size - n * size == (m - n) * size;
    if m >= n + 1 { assert (m - n) * size == (m - n - 1) * size + size; }
  }

  /** The clock as one call of CacheImpact reads it: once for each span. */
  type Readings = nat -> int

  /** The readings of a clock from the given one on. */
  function From(clock: nat -> int, tick: nat): Readings {
    (i: nat) => clock(tick + i)
  }

  lemma FromReadsOn(clock: nat -> int, tick: nat, i: nat)
    ensures From(clock, tick)(i) == clock(tick + i)
  {
  }

  function SpansImpact(spans: seq<Span>, at: Readings, timeout: int): int
    requires timeout != 0
  {
    if spans == [] then 0
    else SpansImpact(spans[..|spans| - 1], at, timeout) + SpanImpact(spans[|spans| - 1], at(|spans| - 1), timeout)
  }

  /** What Trace.CacheImpact returns, and leaves in totalImpact. */
  function Impact(t: Trace, at: Readings, timeout: int): int
    requires timeout != 0
  {
    if t.totalImpact == 0 then SpansImpact(t.spans, at, timeout) else t.totalImpact
  }

  /** The impact of a trace that is not memoised is that of its spans, each at its own reading. */
  lemma ImpactOfSpans(spans: seq<Span>, sp: Span, at: Readings, timeout: int)
    requires timeout != 0
    ensures SpansImpact([], at, timeout) == 0
    ensures SpansImpact(spans + [sp], at, timeout) == SpansImpact(spans, at, timeout) + SpanImpact(sp, at(|spans|), timeout)
  {
    assert (spans + [sp])[..|spans|] == spans;
  }

  function TotalSize(spans: seq<Span>): nat {
    if spans == [] then 0 else TotalSize(spans[..|spans| - 1]) + spans[|spans| - 1].dataSize
  }

  /** Two lists of spans of the same sizes, the first older span by span by a quarter of the
      timeout: it weighs more, unless there is no data. */
  lemma {:induction false} OlderSpansWeighMore(a: seq<Span>, atA: Readings, b: seq<Span>, atB: Readings, timeout: int)
    requires timeout > 0 && |a| == |b|
    requires forall i :: 0 <= i < |a| ==> a[i].dataSize == b[i].dataSize && b[i].arrivalTime <= atB(i)
    requires forall i :: 0 <= i < |a| ==> 4 * ((atA(i) - a[i].arrivalTime) - (atB(i) - b[i].arrivalTime)) >= timeout
    ensures SpansImpact(a, atA, timeout) >= SpansImpact(b, atB, timeout) + TotalSize(b)
  {
    if a != [] {
      var n := |a| - 1;
      OlderSpansWeighMore(a[..n], atA, b[..n], atB, timeout);
      OlderWeighsMore(a[n], atA(n), b[n], atB(n), timeout);
    }
  }

  /** The clock is not behind the arrival of a span of the trace. */
  predicate Elapsed(t: Trace, now: int) {
    forall i :: 0 <= i < |t.spans| ==> t.spans[i].arrivalTime <= now
  }

  lemma {:induction false} ZeroImpactMeansNoData(spans: seq<Span>, at: Readings, timeout: int)
    requires timeout > 0
    requires forall i :: 0 <= i < |spans| ==> spans[i].arrivalTime <= at(i)
    ensures SpansImpact(spans, at, timeout) >= 0
    ensures SpansImpact(spans, at, timeout) == 0 ==> forall i :: 0 <= i < |spans| ==> spans[i].dataSize == 0
  {
    if spans != [] {
      var n := |spans| - 1;
      var last := spans[n];
      ZeroImpactMeansNoData(spans[..n], at, timeout);
      var m := TruncDiv(IMPACT_FACTOR * (at(n) - last.arrivalTime), timeout) + 1;
      assert m >= 1;
      assert m * last.dataSize >= last.dataSize by { MulGrows(m, last.dataSize); }
      if SpansImpact(spans, at, timeout) == 0 {
        forall i | 0 <= i < |spans| ensures spans[i].dataSize == 0 {
          assert i < n ==> spans[i] == spans[..n][i];
        }
      }
    }
  }

  lemma MulGrows(m: int, n: nat)
    requires m >= 1
    ensures m * n >= n
  {
    assert m * n == n + (m - 1) * n;
  }

  lemma {:induction false} NoDataMeansZeroImpact(spans: seq<Span>, at: Readings, timeout: int)
    requires timeout != 0
    requires forall i :: 0 <= i < |spans| ==> spans[i].dataSize == 0
    ensures SpansImpact(spans, at, timeout) == 0
  {
    if spans != [] {
      NoDataMeansZeroImpact(spans[..|spans| - 1], at, timeout);
    }
  }

  /** Memoisation fixes the value for good: once a trace has been asked for its impact,
      every later call answers the same, whatever the clock says by then. This covers
      the value 0, which is never memoised but can only be recomputed as 0. */
  lemma ImpactIsStable(t: Trace, first: Readings, later: Readings, timeout: int)
    requires timeout > 0 && forall i :: 0 <= i < |t.spans| ==> t.spans[i].arrivalTime <= first(i)
    ensures var memo := t.(totalImpact := Impact(t, first, timeout));
            Impact(memo, later, timeout) == Impact(t, first, timeout)
  {
    if t.totalImpact == 0 && SpansImpact(t.spans, first, timeout) == 0 {
      ZeroImpactMeansNoData(t.spans, first, timeout);
      NoDataMeansZeroImpact(t.spans, later, timeout);
    }
  }

  lemma {:induction false} WeighedOnArrival(spans: seq<Span>, at: Readings, timeout: int)
    requires timeout != 0 && forall i :: 0 <= i < |spans| ==> at(i) == spans[i].arrivalTime
    ensures SpansImpact(spans, at, timeout) >= 0
    ensures SpansImpact(spans, at, timeout) == 0 ==> forall i :: 0 <= i < |spans| ==> spans[i].dataSize == 0
  {
    if spans != [] {
      var n := |spans| - 1;
      WeighedOnArrival(spans[..n], at, timeout);
      assert SpanImpact(spans[n], at(n), timeout) == spans[n].dataSize;
      assert forall i :: 0 <= i < n ==> spans[i] == spans[..n][i];
    }
  }

  ghost predicate NoData(t: Trace) {
    forall i :: 0 <= i < |t.spans| ==> t.spans[i].dataSize == 0
  }

  /** For any clock and timeout, the value is fixed by the first call if and only if that call
      found one other than 0, or the trace has no data to weigh. */
  lemma ImpactIsStableIff(t: Trace, first: Readings, timeout: int)
    requires timeout != 0
    ensures (forall later: Readings ::
               Impact(t.(totalImpact := Impact(t, first, timeout)), later, timeout) == Impact(t, first, timeout))
            <==> Impact(t, first, timeout) != 0 || NoData(t)
  {
    if Impact(t, first, timeout) == 0 {
      var memo := t.(totalImpact := 0);
      if NoData(t) {
        forall later: Readings ensures Impact(memo, later, timeout) == 0 {
          NoDataMeansZeroImpact(t.spans, later, timeout);
        }
      } else {
        var spans := t.spans;
        var arrivals: Readings := (i: nat) => if i < |spans| then spans[i].arrivalTime else 0;
        WeighedOnArrival(spans, arrivals, timeout);
        assert Impact(memo, arrivals, timeout) != 0;
      }
    }
  }

  /** A clock a quarter of the timeout behind the arrival weighs a span as 0, and a later call then
      weighs it anew. */
  lemma ImpactCanMove(t: Trace, sp: Span)
    requires t.spans == [sp] && t.totalImpact == 0 && sp.arrivalTime == 1 && sp.dataSize > 0
    ensures Impact(t, Stopped(0), 4) == 0 && Impact(t.(totalImpact := 0), Stopped(1), 4) == sp.dataSize
  {
    SoleImpact(sp, 0);
    SoleImpact(sp, 1);
  }

  /** A clock that stands still. */
  function Stopped(now: int): Readings {
    (i: nat) => now
  }

  lemma SoleImpact(sp: Span, now: int)
    ensures SpansImpact([sp], Stopped(now), 4) == SpanImpact(sp, now, 4)
  {
    var spans := [sp];
    assert spans[..|spans| - 1] == [];
    assert SpansImpact([], Stopped(now), 4) == 0;
  }

  /******* Adding a span *******/

  function AddSpan(t: Trace, sp: Span): Trace {
    t.(dataSize := t.dataSize + sp.dataSize, spans := t.spans + [sp], totalImpact := 0)
  }

  /******* Sample rates *******/

  function Max(a: int, b: int): int { if a < b then b else a }

  const ORIGINAL_RATE := "meta.refinery.original_sample_rate"
  const SPAN_COUNT := "meta.span_count"
  const REASON := "meta.reason"
  const HOSTNAME := "meta.local_hostname"

  /** mergeTraceAndSpanSampleRates; the product is a 64-bit unsigned one. */
  function MergeRates(sp: Span, rate: nat): Span {
    var noted := if rate != 1 then sp.(data := sp.data[ORIGINAL_RATE := IntVal(sp.sampleRate)]) else sp;
    noted.(sampleRate := (if sp.sampleRate < 1 then 1 else sp.sampleRate) * rate % TWO_64)
  }
}
