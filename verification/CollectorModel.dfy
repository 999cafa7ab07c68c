/** The collector of collect/collect.go as a state machine over values. A step is one
    call that the collecting goroutine makes (or one AddSpan of a router); the clock, the
    memory reading, the sampler, the sent-cache answer and the order in which the
    unstable sort leaves equal keys are arbitrary inputs of the step.
 */
module CollectorModel {
  import opened Events
  import opened Ring

  const SECOND := 1_000_000_000

  datatype Config = Config(
    dryRun: bool,
    dryRunField: string,
    addSpanCountToRoot: bool,
    addRuleReason: bool,
    hostname: string,
    traceTimeout: Option<int>,
    sendDelay: Option<int>,
    capacity: nat,
    capacityKnown: bool,
    maxAlloc: nat,
    byImpact: bool)
  {
    /** A config error falls back to 60 seconds. */
    function Timeout(): int {
      if traceTimeout.Some? then traceTimeout.value else 60 * SECOND
    }

    /** A config error falls back to 2 seconds. */
    function Delay(): int {
      if sendDelay.Some? then sendDelay.value else 2 * SECOND
    }
  }

  /** Configuration and sampler in force during one step. A trace is decided at most
      once in a step, so one function covers stateful and random samplers too. */
  datatype Context = Context(cfg: Config, decide: Trace -> Decision)

  /** What became of a span, by which decision and under which configuration. `from` is the
      serial of the trace it was sent with, and None for a span that came after its trace was
      decided; `mark` is what the sampler wrote on it. */
  datatype Outcome =
    | Transmitted(before: Span, after: Span, keep: bool, rate: nat, from: Option<nat>, cfg: Config,
                  mark: Option<Mark> := None)
    | Dropped(before: Span, rate: nat, from: Option<nat>)
  {
    predicate Late() {
      from.None?
    }
  }

  /** One call of sampleTraceCache.Record. */
  datatype Record = Record(serial: nat, traceID: string, keep: bool, rate: nat, count: nat)

  /** A record found in the sent cache. */
  datatype SentRecord = SentRecord(keep: bool, rate: nat, count: nat)

  datatype State = State(
    cache: Ring<Trace>,
    queueSize: nat,
    incoming: seq<Span>,
    fromPeer: seq<Span>,
    nextSerial: nat,
    accepted: seq<Span>,
    outcomes: seq<Outcome>,
    decisions: seq<Record>)

  /** Start with a cache of the given capacity. */
  ghost function Initial(capacity: nat): State {
    State(Empty(capacity), 3 * capacity, [], [], 0, [], [], [])
  }

  /******* Sending a trace *******/

  /** The root span is stamped with the span count before the sampler sees the trace. */
  function Stamped(t: Trace, cfg: Config): Trace {
    if cfg.addSpanCountToRoot && t.root.Some? && t.root.value < |t.spans| then
      var k := t.root.value;
      t.(spans := t.spans[k := t.spans[k].(data := t.spans[k].data[SPAN_COUNT := IntVal(|t.spans|)])])
    else t
  }

  /** What a dynamic sampler leaves on the spans: its key, if it is configured to add it. */
  function Marked(data: Data, mark: Option<Mark>): Data {
    if mark.Some? then data[mark.value.field := StrVal(mark.value.text)] else data
  }

  /** A span as the sampler left it, after one pass of the transmit loop at the end of send. */
  function Dressed(sp: Span, count: nat, d: Decision, cfg: Config): Span {
    var d0 := Marked(sp.data, d.mark);
    var d1 := if cfg.addRuleReason then d0[REASON := StrVal(d.reason)] else d0;
    var d2 := if cfg.addSpanCountToRoot && IsRoot(sp.(data := d1)) then d1[SPAN_COUNT := IntVal(count)] else d1;
    var d3 := if cfg.dryRun then d2[cfg.dryRunField := BoolVal(d.keep)] else d2;
    var d4 := if cfg.hostname != "" then d3[HOSTNAME := StrVal(cfg.hostname)] else d3;
    MergeRates(sp.(data := d4), d.rate)
  }

  function SpanOutcome(serial: nat, before: Span, stamped: Span, count: nat, d: Decision, cfg: Config): Outcome {
    if !d.keep && !cfg.dryRun then Dropped(before, d.rate, Some(serial))
    else Transmitted(before, Dressed(stamped, count, d, cfg), d.keep, d.rate, Some(serial), cfg, d.mark)
  }

  function SpanOutcomes(t: Trace, d: Decision, cfg: Config): (outs: seq<Outcome>)
    ensures |outs| == |t.spans|
    ensures forall i :: 0 <= i < |outs| ==> outs[i].before == t.spans[i]
  {
    var u := Stamped(t, cfg);
    seq(|t.spans|, i requires 0 <= i < |t.spans| =>
      SpanOutcome(t.serial, t.spans[i], u.spans[i], |t.spans|, d, cfg))
  }

  /** The decision: the trace is marked sent, stamped, and handed to the sampler. */
  function Decide(t: Trace, ctx: Context): Decision {
    ctx.decide(Stamped(t.(sent := true), ctx.cfg))
  }

  ghost function Send(s: State, t: Trace, ctx: Context): State {
    if t.sent then s
    else
      var d := Decide(t, ctx);
      s.(decisions := s.decisions + [Record(t.serial, t.traceID, d.keep, d.rate, |t.spans|)],
         outcomes := s.outcomes + SpanOutcomes(t, d, ctx.cfg))
  }

  ghost function SendAll(s: State, ts: seq<Trace>, ctx: Context): State {
    if ts == [] then s
    else Send(SendAll(s, ts[..|ts| - 1], ctx), ts[|ts| - 1], ctx)
  }

  /** dealWithSentTrace: a span of a trace that was already decided. */
  ghost function LateOutcome(r: SentRecord, sp: Span, cfg: Config): Outcome {
    var marked := if cfg.dryRun then sp.(data := sp.data[cfg.dryRunField := BoolVal(r.keep)]) else sp;
    if r.keep then
      var merged := MergeRates(marked, r.rate);
      var counted := if cfg.addSpanCountToRoot && IsRoot(merged)
                     then merged.(data := merged.data[SPAN_COUNT := IntVal(r.count)]) else merged;
      Transmitted(sp, counted, r.keep, r.rate, None, cfg)
    else if cfg.dryRun then Transmitted(sp, marked, r.keep, r.rate, None, cfg)
    else Dropped(sp, r.rate, None)
  }

  ghost function DealWithSent(s: State, r: SentRecord, sp: Span, cfg: Config): State {
    s.(outcomes := s.outcomes + [LateOutcome(r, sp, cfg)])
  }

  /******* Processing a span *******/

  /** Inputs of one processSpan: three clock readings and the sent cache's answer. */
  datatype Arrival = Arrival(created: int, added: int, seen: int, answer: Option<SentRecord>)

  /** The slot holding a trace ID. */
  function Find(slots: seq<Option<Trace>>, id: string): (r: Option<nat>)
    ensures r.Some? ==> r.value < |slots| && slots[r.value].Some? && slots[r.value].value.traceID == id
    ensures r.None? ==> forall k :: 0 <= k < |slots| && slots[k].Some? ==> slots[k].value.traceID != id
  {
    if slots == [] then None
    else
      var n := |slots| - 1;
      if slots[n].Some? && slots[n].value.traceID == id then Some(n) else Find(slots[..n], id)
  }

  function NewTrace(serial: nat, sp: Span, a: Arrival, cfg: Config): Trace {
    Trace(serial, sp.traceID, sp.sampleRate, false, false, a.created + cfg.Timeout(), a.created, None, 0, [], 0)
  }

  /** AddSpan followed by the root-span deadline. */
  ghost function Extended(t: Trace, sp: Span, a: Arrival, cfg: Config): Trace {
    var sized := sp.(arrivalTime := a.added, dataSize := DataSizeOf(sp.data), seenAt := a.seen);
    var t1 := AddSpan(t, sized);
    if IsRoot(sized) then t1.(sendBy := a.seen + cfg.Delay(), root := Some(|t.spans|)) else t1
  }

  /** The tail of processSpan, for the trace in slot k. */
  ghost function Attach(s: State, k: nat, sp: Span, a: Arrival, ctx: Context): State
    requires k < |s.cache.slots| && s.cache.slots[k].Some?
  {
    var t := s.cache.slots[k].value;
    var s1 := if t.sent then DealWithSent(s, SentRecord(t.keepSample, t.sampleRate, |t.spans|), sp, ctx.cfg) else s;
    s1.(cache := s1.cache.(slots := s1.cache.slots[k := Some(Extended(t, sp, a, ctx.cfg))]))
  }

  /** The trace a Set pushes out, unless it was already sent. */
  function Victim(r: Ring<Trace>): seq<Trace>
    requires r.Valid()
  {
    var there := r.slots[r.Spot()];
    if there.Some? && !there.value.sent then [there.value] else []
  }

  ghost function Create(s: State, sp: Span, a: Arrival, ctx: Context): State
    requires s.cache.Valid()
  {
    var t := NewTrace(s.nextSerial, sp, a, ctx.cfg);
    SendAll(s.(cache := s.cache.Put(t), nextSerial := s.nextSerial + 1), Victim(s.cache), ctx)
  }

  ghost function ProcessSpan(s: State, sp: Span, a: Arrival, ctx: Context): State
    requires s.cache.Valid()
  {
    var k := Find(s.cache.slots, sp.traceID);
    if k.Some? then Attach(s, k.value, sp, a, ctx)
    else if a.answer.Some? then DealWithSent(s, a.answer.value, sp, ctx.cfg)
    else
      var s1 := Create(s, sp, a, ctx);
      SendAllFrame(s.(cache := s.cache.Put(NewTrace(s.nextSerial, sp, a, ctx.cfg)), nextSerial := s.nextSerial + 1),
                   Victim(s.cache), ctx);
      Attach(s1, s.cache.Spot(), sp, a, ctx)
  }

  /** Sending touches only the decisions and the outcomes, and both only grow. */
  lemma {:induction false} SendAllFrame(s: State, ts: seq<Trace>, ctx: Context)
    ensures var s' := SendAll(s, ts, ctx);
            s' == s.(decisions := s'.decisions, outcomes := s'.outcomes)
            && s.decisions <= s'.decisions && s.outcomes <= s'.outcomes
  {
    if ts != [] { SendAllFrame(s, ts[..|ts| - 1], ctx); }
  }

  /******* Tick *******/

  /** now.After(SendBy) */
  predicate Expired(slot: Option<Trace>, now: int) {
    slot.Some? && now > slot.value.sendBy
  }

  function ExpiredMask(slots: seq<Option<Trace>>, now: int): (mask: seq<bool>)
    ensures |mask| == |slots|
  {
    seq(|slots|, i requires 0 <= i < |slots| => Expired(slots[i], now))
  }

  /** The slots selected by a mask, and the slots left when those are cleared. */
  function Only<T>(slots: seq<Option<T>>, mask: seq<bool>): (r: seq<Option<T>>)
    requires |mask| == |slots|
    ensures |r| == |slots|
  {
    seq(|slots|, i requires 0 <= i < |slots| => if mask[i] then slots[i] else None)
  }

  function Without<T>(slots: seq<Option<T>>, mask: seq<bool>): (r: seq<Option<T>>)
    requires |mask| == |slots|
    ensures |r| == |slots|
  {
    seq(|slots|, i requires 0 <= i < |slots| => if mask[i] then None else slots[i])
  }

  /** sendTracesInCache over TakeExpiredTraces. */
  ghost function SendExpired(s: State, now: int, ctx: Context): State {
    var mask := ExpiredMask(s.cache.slots, now);
    SendAll(s.(cache := s.cache.(slots := Without(s.cache.slots, mask))), Items(Only(s.cache.slots, mask)), ctx)
  }

  /** Both allocation checks first ask whether memory is over the limit. */
  predicate Over(cfg: Config, mem: nat) {
    cfg.capacityKnown && cfg.maxAlloc != 0 && mem >= cfg.maxAlloc
  }

  ghost predicate SortedByDeadline(ts: seq<Trace>) {
    forall i, j :: 0 <= i < j < |ts| ==> ts[i].sendBy <= ts[j].sendBy
  }

  ghost predicate SortedByImpact(ts: seq<Trace>) {
    forall i, j :: 0 <= i < j < |ts| ==> ts[i].totalImpact >= ts[j].totalImpact
  }

  /** oldCheckAlloc: `order` is the deadline order the sort produced. */
  ghost function Shrink(s: State, order: seq<Trace>, ctx: Context): State {
    var n := |order|;
    var newCap := 9 * n / 10;
    SendAll(s.(cache := PutAll(Empty(newCap), order[n - newCap..])), order[..n - newCap], ctx)
  }

  predicate Shrinks(s: State, cfg: Config, mem: nat) {
    Over(cfg, mem) && |s.cache.slots| >= 100
  }

  function Noted(t: Trace, impact: int): Trace {
    t.(totalImpact := impact)
  }

  /** What CacheImpact leaves behind in a trace that is asked. */
  function Memo(t: Trace, at: Readings, timeout: int): Trace
    requires timeout != 0
  {
    Noted(t, Impact(t, at, timeout))
  }

  /** The readings at which the sort came to memoise a trace, by trace ID; None if it never asked. */
  type Clock = string -> Option<Readings>

  function Asked(t: Trace, at: Option<Readings>, timeout: int): Trace
    requires timeout != 0
  {
    if at.Some? then Memo(t, at.value, timeout) else t
  }

  /** Every cached trace as the sort leaves it. */
  function MemoSlots(slots: seq<Option<Trace>>, clock: Clock, timeout: int): seq<Option<Trace>>
    requires timeout != 0
  {
    seq(|slots|, i requires 0 <= i < |slots| =>
      if slots[i].Some? then Some(Asked(slots[i].value, clock(slots[i].value.traceID), timeout)) else None)
  }

  function Weight(ts: seq<Trace>): nat {
    if ts == [] then 0 else Weight(ts[..|ts| - 1]) + ts[|ts| - 1].dataSize
  }

  /** The eviction loop stops after the first trace that takes the total over the limit. */
  ghost predicate IsCut(order: seq<Trace>, over: int, k: nat) {
    && k <= |order|
    && (order != [] ==> 0 < k)
    && (Weight(order[..k]) > over || k == |order|)
    && forall j :: 1 <= j < k ==> Weight(order[..j]) <= over
  }

  /** int(x) of an unsigned 64-bit number. */
  function AsInt64(x: nat): int {
    if x < TWO_64 / 2 then x else x - TWO_64
  }

  function IdMask(slots: seq<Option<Trace>>, ids: set<string>): (mask: seq<bool>)
    ensures |mask| == |slots|
  {
    seq(|slots|, i requires 0 <= i < |slots| => slots[i].Some? && slots[i].value.traceID in ids)
  }

  function IdsOf(ts: seq<Trace>): set<string> {
    set t | t in ts :: t.traceID
  }

  /** newCheckAlloc: send the first k traces of the impact order, then remove their IDs. */
  ghost function Evict(s: State, memo: seq<Option<Trace>>, order: seq<Trace>, k: nat, ctx: Context): State
    requires k <= |order|
  {
    SendAll(s.(cache := s.cache.(slots := Without(memo, IdMask(memo, IdsOf(order[..k]))))), order[..k], ctx)
  }

  /** Inputs of one tick. */
  datatype Reading = Reading(now: int, mem: nat, order: seq<Trace>, cut: nat, clock: Clock)

  /** The sort did its work: the order is by impact, and unless there was nothing to compare every
      trace was asked for its impact. A clock that runs backwards can prevent it. */
  ghost predicate InImpactOrder(s: State, r: Reading) {
    && SortedByImpact(r.order)
    && (|Items(s.cache.slots)| != 1 ==> forall t :: t in Items(s.cache.slots) ==> r.clock(t.traceID).Some?)
  }

  /** The order of a tick is some order of the cached traces, by deadline for the shrink. A trace
      timeout of zero makes the program panic when it weighs a span. */
  ghost predicate AllocInputs(s: State, r: Reading, cfg: Config) {
    if cfg.byImpact then
      Over(cfg, r.mem) ==>
        && cfg.Timeout() != 0
        && var memo := MemoSlots(s.cache.slots, r.clock, cfg.Timeout());
           multiset(r.order) == multiset(Items(memo))
           && IsCut(r.order, AsInt64(r.mem - cfg.maxAlloc), r.cut)
    else
      Shrinks(s, cfg, r.mem) ==>
        multiset(r.order) == multiset(Items(s.cache.slots)) && SortedByDeadline(r.order)
  }

  ghost function CheckAlloc(s: State, r: Reading, ctx: Context): State
    requires AllocInputs(s, r, ctx.cfg)
  {
    if ctx.cfg.byImpact then
      if Over(ctx.cfg, r.mem)
      then Evict(s, MemoSlots(s.cache.slots, r.clock, ctx.cfg.Timeout()), r.order, r.cut, ctx)
      else s
    else if Shrinks(s, ctx.cfg, r.mem) then Shrink(s, r.order, ctx)
    else s
  }

  /******* Reload *******/

  ghost function Reload(s: State, ctx: Context): State {
    var cap := ctx.cfg.capacity;
    if cap == |s.cache.slots| then s
    else
      var all := Items(s.cache.slots);
      var fit := if cap < |all| then cap else |all|;
      SendAll(s.(cache := PutAll(Empty(cap), all[..fit])), all[fit..], ctx)
  }

  /******* Steps and runs *******/

  datatype Step =
    | Enqueue(span: Span, peer: bool)
    | Process(peer: bool, arrival: Arrival, ctx: Context)
    | Tick(reading: Reading, ctx: Context)
    | Reconfigure(ctx: Context)

  ghost predicate Enabled(s: State, step: Step) {
    && s.cache.Valid()
    && match step
       case Enqueue(_, _) => true
       case Process(peer, _, _) => (if peer then s.fromPeer else s.incoming) != []
       case Tick(r, ctx) => AllocInputs(SendExpired(s, r.now, ctx), r, ctx.cfg)
       case Reconfigure(_) => true
  }

  /** add: a full queue refuses the span (ErrWouldBlock) and nothing changes. */
  ghost function Accept(s: State, sp: Span, peer: bool): State {
    if peer then
      if |s.fromPeer| < s.queueSize then s.(fromPeer := s.fromPeer + [sp], accepted := s.accepted + [sp]) else s
    else
      if |s.incoming| < s.queueSize then s.(incoming := s.incoming + [sp], accepted := s.accepted + [sp]) else s
  }

  ghost function Apply(s: State, step: Step): State
    requires Enabled(s, step)
  {
    match step
    case Enqueue(sp, peer) => Accept(s, sp, peer)
    case Process(peer, a, ctx) =>
      if peer then ProcessSpan(s.(fromPeer := s.fromPeer[1..]), s.fromPeer[0], a, ctx)
      else ProcessSpan(s.(incoming := s.incoming[1..]), s.incoming[0], a, ctx)
    case Tick(r, ctx) => CheckAlloc(SendExpired(s, r.now, ctx), r, ctx)
    case Reconfigure(ctx) => Reload(s, ctx)
  }

  /** `s'` is reached from `s` by `steps`, every one of which meets `rule`. */
  ghost predicate Run(s: State, steps: seq<Step>, s': State, rule: (State, Step) -> bool)
    decreases |steps|
  {
    if steps == [] then s' == s
    else Enabled(s, steps[0]) && rule(s, steps[0]) && Run(Apply(s, steps[0]), steps[1..], s', rule)
  }

  /** Stop: every cached trace is sent; the cache is not emptied. */
  ghost function Flush(s: State, ctx: Context): State {
    SendAll(s, Items(s.cache.slots), ctx)
  }
}
