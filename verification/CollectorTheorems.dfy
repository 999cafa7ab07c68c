/** What the collector promises over whole runs, besides conservation: one fate per trace
    ID, deadlines tied to the last root span, rates applied once, and dry run. */
module CollectorTheorems {
  import opened Events
  import opened Ring
  import opened CollectorModel
  import opened CollectorHistory
  import S = CollectorSafety

  /** The sent cache only answers what was recorded: some earlier decision for this very
      trace ID carried the keep flag and the rate it returns. */
  ghost predicate Truthful(s: State, sp: Span, answer: Option<SentRecord>) {
    answer.Some? ==>
      exists i :: 0 <= i < |s.decisions| && s.decisions[i].traceID == sp.traceID
               && s.decisions[i].keep == answer.value.keep && s.decisions[i].rate == answer.value.rate
  }

  ghost predicate TruthfulStep(s: State, step: Step) {
    step.Process? && Enabled(s, step) ==> Truthful(s, Head(s, step.peer), step.arrival.answer)
  }

  ghost predicate OwnSpans(t: Trace) {
    !t.sent && forall i :: 0 <= i < |t.spans| ==> t.spans[i].traceID == t.traceID
  }

  lemma OwnSpansGrow(f: Facts)
    requires forall t :: f.trace(t) <==> OwnSpans(t)
    ensures Notes(f) && forall a, cfg :: Grows(f, a, cfg)
  {
  }

  /******* One fate per trace ID *******/

  /** The sampler's keep answer is a function of the trace ID, dry run is off, and the sent
      cache is truthful. */
  ghost predicate FateRule(keepOf: string -> bool, s: State, step: Step) {
    step.Enqueue? ||
    (!step.ctx.cfg.dryRun
     && (forall t :: step.ctx.decide(t).keep == keepOf(t.traceID))
     && TruthfulStep(s, step))
  }

  ghost function FateRuleOf(keepOf: string -> bool): (State, Step) -> bool {
    (u, step) => FateRule(keepOf, u, step)
  }

  ghost function FateFacts(keepOf: string -> bool): Facts {
    Facts(t => OwnSpans(t),
          (r: Record) => r.keep == keepOf(r.traceID),
          (ds: seq<Record>, o: Outcome) => o.Transmitted? == keepOf(o.before.traceID))
  }

  lemma FateSends(keepOf: string -> bool, t: Trace, ds: seq<Record>, ctx: Context)
    requires OwnSpans(t) && !ctx.cfg.dryRun
    requires forall u :: ctx.decide(u).keep == keepOf(u.traceID)
    ensures DecidesOne(FateFacts(keepOf), t, ds, ctx)
  {
  }

  lemma FateObliged(keepOf: string -> bool, s: State, step: Step)
    requires Enabled(s, step) && FateRule(keepOf, s, step) && Hold(FateFacts(keepOf), s)
    ensures Obliged(FateFacts(keepOf), s, step)
  {
    hide Grows, Notes, DecidesOne, OwnSpans;
    var f := FateFacts(keepOf);
    if !step.Enqueue? {
      OwnSpansGrow(f);
      forall t, ds | f.trace(t) ensures DecidesOne(f, t, ds, step.ctx) {
        FateSends(keepOf, t, ds, step.ctx);
      }
    }
  }

  /** However often a trace is evicted, forgotten and re-created, all its decided spans meet
      the same fate: transmitted exactly when the sampler keeps that trace ID. */
  lemma OneFatePerTrace(keepOf: string -> bool, capacity: nat, steps: seq<Step>, s: State)
    requires Run(Initial(capacity), steps, s, FateRuleOf(keepOf))
    ensures forall i :: 0 <= i < |s.outcomes| ==>
              (s.outcomes[i].Transmitted? <==> keepOf(s.outcomes[i].before.traceID))
    ensures forall i, j | 0 <= i < j < |s.outcomes| && s.outcomes[i].before.traceID == s.outcomes[j].before.traceID ::
              s.outcomes[i].Transmitted? == s.outcomes[j].Transmitted?
  {
    var f := FateFacts(keepOf);
    var rule := FateRuleOf(keepOf);
    forall u, step | Enabled(u, step) && rule(u, step) && Hold(f, u) ensures Obliged(f, u, step) {
      FateObliged(keepOf, u, step);
    }
    RunFacts(f, Initial(capacity), steps, s, rule);
    forall i | 0 <= i < |s.outcomes|
      ensures s.outcomes[i].Transmitted? <==> keepOf(s.outcomes[i].before.traceID)
    {
      assert f.outcome(s.decisions, s.outcomes[i]);
    }
  }

  /******* Deadlines *******/

  /** RootSpan is the last span in the list that names no parent, and the deadline is counted from
      it; without one the deadline is counted from the arrival of the trace. */
  ghost predicate OnTime(t: Trace, timeout: int, delay: int) {
    && !t.sent
    && 0 < |t.spans|
    && match t.root
       case None =>
         && t.sendBy == t.arrivalTime + timeout
         && forall i :: 0 <= i < |t.spans| ==> HasParent(t.spans[i].data)
       case Some(k) =>
         && k < |t.spans| && !HasParent(t.spans[k].data)
         && t.sendBy == t.spans[k].seenAt + delay
         && forall i :: k < i < |t.spans| ==> HasParent(t.spans[i].data)
  }

  ghost predicate FixedTimes(timeout: int, delay: int, s: State, step: Step) {
    step.Enqueue? || (step.ctx.cfg.Timeout() == timeout && step.ctx.cfg.Delay() == delay)
  }

  ghost function FixedTimesOf(timeout: int, delay: int): (State, Step) -> bool {
    (u, step) => FixedTimes(timeout, delay, u, step)
  }

  ghost function TimeFacts(timeout: int, delay: int): Facts {
    Facts(t => OnTime(t, timeout, delay), r => true, (ds, o) => true)
  }

  lemma ExtendOnTime(t: Trace, sp: Span, a: Arrival, cfg: Config)
    ensures OnTime(t, cfg.Timeout(), cfg.Delay()) ==> OnTime(Extended(t, sp, a, cfg), cfg.Timeout(), cfg.Delay())
    ensures t.spans == [] && !t.sent && t.root.None? && t.sendBy == t.arrivalTime + cfg.Timeout()
            ==> OnTime(Extended(t, sp, a, cfg), cfg.Timeout(), cfg.Delay())
  {
  }

  lemma TimesObliged(timeout: int, delay: int, s: State, step: Step)
    requires Enabled(s, step) && FixedTimes(timeout, delay, s, step)
    ensures Obliged(TimeFacts(timeout, delay), s, step)
  {
    var f := TimeFacts(timeout, delay);
    if !step.Enqueue? {
      var cfg := step.ctx.cfg;
      assert Notes(f);
      forall a ensures Grows(f, a, cfg) {
        forall t, sp: Span | f.trace(t) && sp.traceID == t.traceID ensures f.trace(Extended(t, sp, a, cfg)) {
          ExtendOnTime(t, sp, a, cfg);
        }
        forall n: nat, sp: Span ensures f.trace(Extended(NewTrace(n, sp, a, cfg), sp, a, cfg)) {
          ExtendOnTime(NewTrace(n, sp, a, cfg), sp, a, cfg);
        }
      }
      forall t, ds | f.trace(t) ensures DecidesOne(f, t, ds, step.ctx) {
      }
    }
  }

  /** With fixed timeouts every cached trace of every reachable state is on time. */
  lemma DeadlinesFollowRoots(timeout: int, delay: int, capacity: nat, steps: seq<Step>, s: State)
    requires Run(Initial(capacity), steps, s, FixedTimesOf(timeout, delay))
    ensures forall k :: 0 <= k < |s.cache.slots| && s.cache.slots[k].Some? ==>
              OnTime(s.cache.slots[k].value, timeout, delay)
  {
    var f := TimeFacts(timeout, delay);
    var rule := FixedTimesOf(timeout, delay);
    forall u, step | Enabled(u, step) && rule(u, step) && Hold(f, u) ensures Obliged(f, u, step) {
      TimesObliged(timeout, delay, u, step);
    }
    RunFacts(f, Initial(capacity), steps, s, rule);
    forall k | 0 <= k < |s.cache.slots| && s.cache.slots[k].Some?
      ensures OnTime(s.cache.slots[k].value, timeout, delay)
    {
      assert f.trace(s.cache.slots[k].value);
    }
  }

  /******* Rates *******/

  ghost predicate SoundSampler(ctx: Context) {
    forall t :: ctx.decide(t).keep ==> ctx.decide(t).rate >= 1
  }

  /** Samplers that keep a trace give it a rate of at least 1, and the sent cache is truthful. */
  ghost predicate RateRule(s: State, step: Step) {
    step.Enqueue? || (SoundSampler(step.ctx) && TruthfulStep(s, step))
  }

  ghost predicate Recorded(ds: seq<Record>, id: string, keep: bool, rate: nat) {
    exists i :: 0 <= i < |ds| && ds[i].traceID == id && ds[i].keep == keep && ds[i].rate == rate
  }

  /** The decision made for one trace object was recorded so. */
  ghost predicate RecordedAs(ds: seq<Record>, serial: nat, id: string, keep: bool, rate: nat) {
    exists i :: 0 <= i < |ds| && ds[i].serial == serial && ds[i].traceID == id && ds[i].keep == keep && ds[i].rate == rate
  }

  /** The fields the collector writes on a span it transmits, after the sampler. */
  function Overwrites(rate: nat, cfg: Config): set<string> {
    (if cfg.addRuleReason then {REASON} else {})
    + (if cfg.addSpanCountToRoot then {SPAN_COUNT} else {})
    + (if cfg.dryRun then {cfg.dryRunField} else {})
    + (if cfg.hostname != "" then {HOSTNAME} else {})
    + (if rate != 1 then {ORIGINAL_RATE} else {})
  }

  /** All fields that are written on it: those, and the one the sampler marks. */
  function Written(mark: Option<Mark>, rate: nat, cfg: Config): set<string> {
    (if mark.Some? then {mark.value.field} else {}) + Overwrites(rate, cfg)
  }

  /** The sampler's mark is there, unless the collector wrote over it. */
  predicate Shows(data: Data, mark: Option<Mark>, rate: nat, cfg: Config) {
    mark.Some? && mark.value.field !in Overwrites(rate, cfg) ==>
      mark.value.field in data && data[mark.value.field] == StrVal(mark.value.text)
  }

  /** A span sent with its trace carries out the decision recorded for that very trace object, a
      late one some decision recorded for its trace ID. The rate is multiplied in once, except
      on a late span that only dry run lets pass, and of the data nothing is changed but the
      fields that sampler and collector are configured to write. */
  ghost predicate Honoured(ds: seq<Record>, o: Outcome) {
    && (o.from.Some? ==> RecordedAs(ds, o.from.value, o.before.traceID, o.Transmitted? && o.keep, o.rate))
    && Recorded(ds, o.before.traceID, o.Transmitted? && o.keep, o.rate)
    && match o
       case Transmitted(before, after, keep, rate, from, cfg, mark) =>
         && after.uid == before.uid && after.traceID == before.traceID
         && (keep || cfg.dryRun) && (keep ==> rate >= 1)
         && (if from.None? && !keep then after.sampleRate == before.sampleRate
             else
               && after.sampleRate == Max(1, before.sampleRate) * rate % 0x1_0000_0000_0000_0000
               && (rate != 1 ==> ORIGINAL_RATE in after.data && after.data[ORIGINAL_RATE] == IntVal(before.sampleRate)))
         && after.data - Written(mark, rate, cfg) == before.data - Written(mark, rate, cfg)
         && Shows(after.data, mark, rate, cfg)
       case Dropped(_, _, _) => true
  }

  ghost function RateFacts(): Facts {
    Facts(t => OwnSpans(t),
          (r: Record) => r.keep ==> r.rate >= 1,
          (ds, o) => Honoured(ds, o))
  }

  lemma RecordedMonotone(ds: seq<Record>, r: Record, o: Outcome)
    requires Honoured(ds, o)
    ensures Honoured(ds + [r], o)
  {
    var keep := o.Transmitted? && o.keep;
    var i :| 0 <= i < |ds| && ds[i].traceID == o.before.traceID && ds[i].keep == keep && ds[i].rate == o.rate;
    assert (ds + [r])[i] == ds[i];
    if o.from.Some? {
      var k :| 0 <= k < |ds| && ds[k].serial == o.from.value && ds[k].traceID == o.before.traceID
               && ds[k].keep == keep && ds[k].rate == o.rate;
      assert (ds + [r])[k] == ds[k];
    }
  }

  lemma WriteInside(d: Data, key: string, v: Value, w: set<string>)
    requires key in w
    ensures d[key := v] - w == d - w
  {
  }

  lemma StampedOutside(t: Trace, cfg: Config, mark: Option<Mark>, rate: nat, i: nat)
    requires i < |t.spans|
    ensures |Stamped(t, cfg).spans| == |t.spans|
    ensures var sp, u := t.spans[i], Stamped(t, cfg).spans[i];
            && u == sp.(data := u.data)
            && u.data - Written(mark, rate, cfg) == sp.data - Written(mark, rate, cfg)
  {
    hide Written;
    if cfg.addSpanCountToRoot {
      assert SPAN_COUNT in Written(mark, rate, cfg) by { WrittenFields(mark, rate, cfg); }
      WriteInside(t.spans[i].data, SPAN_COUNT, IntVal(|t.spans|), Written(mark, rate, cfg));
    }
  }

  lemma WrittenFields(mark: Option<Mark>, rate: nat, cfg: Config)
    ensures var o, w := Overwrites(rate, cfg), Written(mark, rate, cfg);
            && o <= w && (mark.Some? ==> mark.value.field in w)
            && (cfg.addRuleReason ==> REASON in o) && (cfg.addSpanCountToRoot ==> SPAN_COUNT in o)
            && (cfg.dryRun ==> cfg.dryRunField in o) && (cfg.hostname != "" ==> HOSTNAME in o)
            && (rate != 1 ==> ORIGINAL_RATE in o)
  {
  }

  lemma DressedOutside(sp: Span, count: nat, d: Decision, cfg: Config)
    ensures var out := Dressed(sp, count, d, cfg);
            && out.uid == sp.uid && out.traceID == sp.traceID
            && out.sampleRate == Max(1, sp.sampleRate) * d.rate % 0x1_0000_0000_0000_0000
            && (d.rate != 1 ==> ORIGINAL_RATE in out.data && out.data[ORIGINAL_RATE] == IntVal(sp.sampleRate))
            && out.data - Written(d.mark, d.rate, cfg) == sp.data - Written(d.mark, d.rate, cfg)
            && Shows(out.data, d.mark, d.rate, cfg)
  {
    hide Written, Overwrites;
    var w := Written(d.mark, d.rate, cfg);
    WrittenFields(d.mark, d.rate, cfg);
    var d0 := Marked(sp.data, d.mark);
    var d1 := if cfg.addRuleReason then d0[REASON := StrVal(d.reason)] else d0;
    var d2 := if cfg.addSpanCountToRoot && IsRoot(sp.(data := d1)) then d1[SPAN_COUNT := IntVal(count)] else d1;
    var d3 := if cfg.dryRun then d2[cfg.dryRunField := BoolVal(d.keep)] else d2;
    var d4 := if cfg.hostname != "" then d3[HOSTNAME := StrVal(cfg.hostname)] else d3;
    if d.mark.Some? { WriteInside(sp.data, d.mark.value.field, StrVal(d.mark.value.text), w); }
    if cfg.addRuleReason { WriteInside(d0, REASON, StrVal(d.reason), w); }
    if cfg.addSpanCountToRoot { WriteInside(d1, SPAN_COUNT, IntVal(count), w); }
    if cfg.dryRun { WriteInside(d2, cfg.dryRunField, BoolVal(d.keep), w); }
    if cfg.hostname != "" { WriteInside(d3, HOSTNAME, StrVal(cfg.hostname), w); }
    if d.rate != 1 { WriteInside(d4, ORIGINAL_RATE, IntVal(sp.sampleRate), w); }
  }

  lemma SendHonoured(ds: seq<Record>, t: Trace, ctx: Context, i: nat)
    requires OwnSpans(t) && SoundSampler(ctx) && i < |t.spans|
    ensures Honoured(ds + [RecordOf(t, Decide(t, ctx))], SpanOutcomes(t, Decide(t, ctx), ctx.cfg)[i])
  {
    hide Dressed, Written, Stamped, Recorded, RecordedAs, Shows;
    var d := Decide(t, ctx);
    JustRecorded(ds, RecordOf(t, d));
    StampedOutside(t, ctx.cfg, d.mark, d.rate, i);
    DressedOutside(Stamped(t, ctx.cfg).spans[i], |t.spans|, d, ctx.cfg);
  }

  lemma JustRecorded(ds: seq<Record>, r: Record)
    ensures Recorded(ds + [r], r.traceID, r.keep, r.rate) && RecordedAs(ds + [r], r.serial, r.traceID, r.keep, r.rate)
  {
    assert (ds + [r])[|ds|] == r;
  }

  lemma LateHonoured(ds: seq<Record>, r: SentRecord, sp: Span, cfg: Config)
    requires Recorded(ds, sp.traceID, r.keep, r.rate) && (r.keep ==> r.rate >= 1)
    ensures Honoured(ds, LateOutcome(r, sp, cfg))
  {
    hide Written, Recorded, Overwrites;
    var w := Written(None, r.rate, cfg);
    WrittenFields(None, r.rate, cfg);
    var marked := if cfg.dryRun then sp.data[cfg.dryRunField := BoolVal(r.keep)] else sp.data;
    var noted := if r.rate != 1 then marked[ORIGINAL_RATE := IntVal(sp.sampleRate)] else marked;
    if cfg.dryRun { WriteInside(sp.data, cfg.dryRunField, BoolVal(r.keep), w); }
    if r.rate != 1 { WriteInside(marked, ORIGINAL_RATE, IntVal(sp.sampleRate), w); }
    if cfg.addSpanCountToRoot { WriteInside(noted, SPAN_COUNT, IntVal(r.count), w); }
  }

  lemma RatesObliged(s: State, step: Step)
    requires Enabled(s, step) && RateRule(s, step) && Hold(RateFacts(), s)
    ensures Obliged(RateFacts(), s, step)
  {
    hide Grows, Notes, Honoured, LateOutcome, SpanOutcomes;
    var f := RateFacts();
    if !step.Enqueue? {
      OwnSpansGrow(f);
      if step.Process? && step.arrival.answer.Some? {
        var r, sp := step.arrival.answer.value, Head(s, step.peer);
        var i :| 0 <= i < |s.decisions| && s.decisions[i].traceID == sp.traceID
                 && s.decisions[i].keep == r.keep && s.decisions[i].rate == r.rate;
        assert f.record(s.decisions[i]);
        LateHonoured(s.decisions, r, sp, step.ctx.cfg);
      }
      forall t, ds | f.trace(t) ensures DecidesOne(f, t, ds, step.ctx) {
        forall i | 0 <= i < |t.spans|
          ensures f.outcome(ds + [RecordOf(t, Decide(t, step.ctx))], SpanOutcomes(t, Decide(t, step.ctx), step.ctx.cfg)[i])
        {
          SendHonoured(ds, t, step.ctx, i);
        }
      }
    }
  }

  /** The outcome settles the accepted span `sp`, and honours the decision as counted from it. */
  ghost predicate HonouredFor(ds: seq<Record>, sp: Span, o: Outcome) {
    S.Core(sp) == S.Core(o.before) && Honoured(ds, o.(before := sp))
  }

  ghost predicate Accounted(s: State, o: Outcome) {
    exists j :: 0 <= j < |s.accepted| && HonouredFor(s.decisions, s.accepted[j], o)
  }

  /** Every settled span is an accepted one and carries out a decision recorded for its trace ID:
      sent with its trace, the one recorded for that trace object (there is only one, by
      CollectorSafety.DecidedAtMostOnce). Transmitted, it leaves with max(1, accepted rate) times
      the decided rate, which is at least 1 if the trace was kept, and with its accepted data but
      for the fields that sampler and collector write. With conservation, this happens once per
      span. */
  lemma RatesApplyOnce(capacity: nat, steps: seq<Step>, s: State)
    requires Run(Initial(capacity), steps, s, RateRule)
    ensures forall i :: 0 <= i < |s.outcomes| ==> Accounted(s, s.outcomes[i])
  {
    hide Honoured, S.Core;
    var f := RateFacts();
    forall u, step | Enabled(u, step) && RateRule(u, step) && Hold(f, u) ensures Obliged(f, u, step) {
      RatesObliged(u, step);
    }
    forall ds, r, o | f.outcome(ds, o) ensures f.outcome(ds + [r], o) {
      RecordedMonotone(ds, r, o);
    }
    RunFacts(f, Initial(capacity), steps, s, RateRule);
    forall i | 0 <= i < |s.outcomes| ensures Accounted(s, s.outcomes[i]) {
      assert f.outcome(s.decisions, s.outcomes[i]);
      var j := S.OutcomesWereAccepted(capacity, steps, s, RateRule, i);
      HonouredAsAccepted(s.decisions, s.accepted[j], s.outcomes[i]);
    }
  }

  lemma HonouredAsAccepted(ds: seq<Record>, sp: Span, o: Outcome)
    requires Honoured(ds, o) && S.Core(sp) == S.Core(o.before)
    ensures HonouredFor(ds, sp, o)
  {
    assert S.Core(sp).data == sp.data && S.Core(sp).sampleRate == sp.sampleRate && S.Core(sp).traceID == sp.traceID;
    assert S.Core(sp).uid == sp.uid;
  }

  /******* Marks *******/

  ghost predicate MarkRule(may: string -> bool, s: State, step: Step) {
    step.Enqueue? || forall t :: step.ctx.decide(t).mark.Some? ==> may(step.ctx.decide(t).mark.value.field)
  }

  ghost function MarkRuleOf(may: string -> bool): (State, Step) -> bool {
    (u, step) => MarkRule(may, u, step)
  }

  ghost predicate MarkAllowed(may: string -> bool, o: Outcome) {
    o.Transmitted? && o.mark.Some? ==> !o.Late() && may(o.mark.value.field)
  }

  ghost function MarkFacts(may: string -> bool): Facts {
    Facts(t => OwnSpans(t), r => true, (ds, o) => MarkAllowed(may, o))
  }

  /** Samplers mark only fields they are configured to, and late spans are not marked. */
  lemma MarksAsConfigured(may: string -> bool, capacity: nat, steps: seq<Step>, s: State)
    requires Run(Initial(capacity), steps, s, MarkRuleOf(may))
    ensures forall i :: 0 <= i < |s.outcomes| ==> MarkAllowed(may, s.outcomes[i])
  {
    var f, rule := MarkFacts(may), MarkRuleOf(may);
    forall u, step | Enabled(u, step) && rule(u, step) && Hold(f, u) ensures Obliged(f, u, step) {
      MarksObliged(may, u, step);
    }
    RunFacts(f, Initial(capacity), steps, s, rule);
    forall i | 0 <= i < |s.outcomes| ensures MarkAllowed(may, s.outcomes[i]) {
      assert f.outcome(s.decisions, s.outcomes[i]);
    }
  }

  lemma MarksObliged(may: string -> bool, s: State, step: Step)
    requires Enabled(s, step) && MarkRule(may, s, step)
    ensures Obliged(MarkFacts(may), s, step)
  {
    hide Grows, Notes, DecidesOne, Dressed;
    var f := MarkFacts(may);
    if !step.Enqueue? {
      OwnSpansGrow(f);
      forall t, ds | f.trace(t) ensures DecidesOne(f, t, ds, step.ctx) {
        MarkSends(may, t, ds, step.ctx);
      }
    }
  }

  lemma MarkSends(may: string -> bool, t: Trace, ds: seq<Record>, ctx: Context)
    requires OwnSpans(t) && forall u :: ctx.decide(u).mark.Some? ==> may(ctx.decide(u).mark.value.field)
    ensures DecidesOne(MarkFacts(may), t, ds, ctx)
  {
    hide Dressed;
  }

  /******* Dry run *******/

  ghost predicate DryRule(field: string, s: State, step: Step) {
    step.Enqueue? || (step.ctx.cfg.dryRun && step.ctx.cfg.dryRunField == field)
  }

  ghost function DryRuleOf(field: string): (State, Step) -> bool {
    (u, step) => DryRule(field, u, step)
  }

  /** The field is written over after the decision was put there: by the host name or the
      original rate, or on a late span that is kept by the original rate or the span count. */
  ghost predicate Overwritten(o: Outcome)
    requires o.Transmitted?
  {
    var field := o.cfg.dryRunField;
    if o.Late() then
      o.keep && ((o.rate != 1 && field == ORIGINAL_RATE)
                 || (o.cfg.addSpanCountToRoot && IsRoot(o.before) && field == SPAN_COUNT))
    else (o.cfg.hostname != "" && field == HOSTNAME) || (o.rate != 1 && field == ORIGINAL_RATE)
  }

  /** Transmitted, and showing its decision exactly when that was not written over. */
  ghost predicate ShowsDecision(field: string, o: Outcome) {
    && o.Transmitted? && o.cfg.dryRun && o.cfg.dryRunField == field
    && ((field in o.after.data && o.after.data[field] == BoolVal(o.keep)) <==> !Overwritten(o))
  }

  ghost function DryFacts(field: string): Facts {
    Facts(t => OwnSpans(t), r => true, (ds, o) => ShowsDecision(field, o))
  }

  lemma DrySends(field: string, t: Trace, ds: seq<Record>, ctx: Context)
    requires OwnSpans(t) && ctx.cfg.dryRun && ctx.cfg.dryRunField == field
    ensures DecidesOne(DryFacts(field), t, ds, ctx)
  {
  }

  lemma DryObliged(field: string, s: State, step: Step)
    requires Enabled(s, step) && DryRule(field, s, step)
    ensures Obliged(DryFacts(field), s, step)
  {
    hide Grows, Notes, DecidesOne;
    var f := DryFacts(field);
    if !step.Enqueue? {
      OwnSpansGrow(f);
      forall t, ds | f.trace(t) ensures DecidesOne(f, t, ds, step.ctx) {
        DrySends(field, t, ds, step.ctx);
      }
    }
  }

  /** With dry run on throughout no span is ever dropped, for any sampler and any sent-cache
      answers, and a span carries its decision in the configured field if and only if the
      collector did not write something else there afterwards. */
  lemma DryRunDropsNothing(field: string, capacity: nat, steps: seq<Step>, s: State)
    requires Run(Initial(capacity), steps, s, DryRuleOf(field))
    ensures forall i :: 0 <= i < |s.outcomes| ==> ShowsDecision(field, s.outcomes[i])
  {
    var f := DryFacts(field);
    var rule := DryRuleOf(field);
    forall u, step | Enabled(u, step) && rule(u, step) && Hold(f, u) ensures Obliged(f, u, step) {
      DryObliged(field, u, step);
    }
    RunFacts(f, Initial(capacity), steps, s, rule);
    forall i | 0 <= i < |s.outcomes| ensures ShowsDecision(field, s.outcomes[i]) {
      assert f.outcome(s.decisions, s.outcomes[i]);
    }
  }
}
