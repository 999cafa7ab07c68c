/** Whole runs of the collector with the legacy sent cache and the repository's own samplers. */
module SampledRuns {
  import opened Events
  import opened CollectorModel
  import opened CollectorTheorems
  import opened LegacyCollector
  import D = Deterministic
  import R = Rules

  /** The samplers, and what they may decide for a trace: what their methods ensure. */
  datatype Sampler =
    | DeterministicAt(rate: int, hash: string -> D.Uint32)
    | RulesOf(rules: seq<R.Rule>, holds: R.Holds, text: R.Rule -> string, samplers: map<string, R.Downstream>, pr: R.Printer)
    | DynamicOf(dyn: R.Downstream, pr: R.Printer)
  {
    ghost predicate Decides(t: Trace, d: Decision) {
      match this
      case DeterministicAt(rate, hash) => D.Decides(rate, hash, t.traceID, d)
      case RulesOf(rules, holds, text, samplers, pr) =>
        exists i: nat, asked: string -> R.Int64, draw ::
          R.FairDraw(draw) && R.RulesDecide(holds, rules, R.ViaOf(text, samplers), pr, t.spans, i, asked, draw, d)
      case DynamicOf(dyn, pr) =>
        exists asked: string -> R.Int64, draw :: R.FairDraw(draw) && R.DynamicDecides(dyn, pr, t.spans, asked, draw, d)
    }

    /** Whether it is configured to write its key to a field. */
    ghost predicate MayMark(field: string) {
      match this
      case DeterministicAt(_, _) => false
      case RulesOf(_, _, _, samplers, _) => exists text :: text in samplers && samplers[text].addKeyTo == Some(field)
      case DynamicOf(dyn, _) => dyn.addKeyTo == Some(field)
    }
  }

  /** Each decision of the step is one the sampler in charge of the trace may make. */
  ghost predicate SampledBy(pick: Trace -> Sampler, s: State, step: Step) {
    step.Enqueue? || forall t :: pick(t).Decides(t, step.ctx.decide(t))
  }

  ghost function SampledByOf(pick: Trace -> Sampler): (State, Step) -> bool {
    (s, step) => SampledBy(pick, s, step)
  }

  /** No sampler keeps a trace at rate 0. */
  lemma KeptHasRate(sampler: Sampler, t: Trace, d: Decision)
    requires sampler.Decides(t, d) && d.keep
    ensures d.rate >= 1
  {
    if sampler.RulesOf? {
      var i: nat, asked: string -> R.Int64, draw :|
        R.FairDraw(draw)
        && R.RulesDecide(sampler.holds, sampler.rules, R.ViaOf(sampler.text, sampler.samplers), sampler.pr, t.spans, i, asked,
                         draw, d);
    } else if sampler.DynamicOf? {
      var asked: string -> R.Int64, draw :|
        R.FairDraw(draw) && R.DynamicDecides(sampler.dyn, sampler.pr, t.spans, asked, draw, d);
    }
  }

  lemma MarkIsConfigured(sampler: Sampler, t: Trace, d: Decision)
    requires sampler.Decides(t, d) && d.mark.Some?
    ensures sampler.MayMark(d.mark.value.field)
  {
    if sampler.RulesOf? {
      var via := R.ViaOf(sampler.text, sampler.samplers);
      var i: nat, asked: string -> R.Int64, draw :|
        R.FairDraw(draw) && R.RulesDecide(sampler.holds, sampler.rules, via, sampler.pr, t.spans, i, asked, draw, d);
      assert via(sampler.rules[i]).Some?;
    }
  }

  /** Some sampler in charge is configured to write its key to the field. */
  ghost function MayMarkOf(pick: Trace -> Sampler): string -> bool {
    field => exists t :: pick(t).MayMark(field)
  }

  /** Whatever mix of samplers decides, with the legacy cache: every settled span is an accepted
      one and carries out a recorded decision for its trace ID; transmitted, it leaves with
      max(1, accepted rate) times the decided rate, multiplied in once, and with its accepted data
      but for the fields the collector writes and the one, if any, to which a dynamic sampler in
      charge is configured to add its key. */
  lemma SampledRates(pick: Trace -> Sampler, capacity: nat, sentCapacity: nat, steps: seq<Step>, b: Both)
    requires LegacyRun(Start(capacity), sentCapacity, steps, b, SampledByOf(pick))
    ensures forall i :: 0 <= i < |b.s.outcomes| ==>
              Accounted(b.s, b.s.outcomes[i]) && MarkAllowed(MayMarkOf(pick), b.s.outcomes[i])
  {
    hide LegacyRun, Run, Accounted, MarkAllowed;
    var rule, may := SampledByOf(pick), MayMarkOf(pick);
    LegacyRunIsTruthful(Start(capacity), sentCapacity, steps, b, rule);
    forall u, step | AlsoLatest(rule)(u, step) ensures RateRule(u, step) && MarkRuleOf(may)(u, step) {
      LatestIsTruthful(u, step);
      if !step.Enqueue? {
        forall t | step.ctx.decide(t).keep ensures step.ctx.decide(t).rate >= 1 {
          KeptHasRate(pick(t), t, step.ctx.decide(t));
        }
        forall t | step.ctx.decide(t).mark.Some? ensures may(step.ctx.decide(t).mark.value.field) {
          MarkIsConfigured(pick(t), t, step.ctx.decide(t));
        }
      }
    }
    RunWeaken(Initial(capacity), steps, b.s, AlsoLatest(rule), RateRule);
    RunWeaken(Initial(capacity), steps, b.s, AlsoLatest(rule), MarkRuleOf(may));
    RatesApplyOnce(capacity, steps, b.s);
    MarksAsConfigured(may, capacity, steps, b.s);
  }

  ghost function KeepOf(rate: int, hash: string -> D.Uint32): string -> bool
    requires D.Startable(rate)
  {
    id => hash(id) in D.KeptHashes(rate)
  }

  ghost predicate AllAt(rate: int, hash: string -> D.Uint32, s: State, step: Step) {
    step.Enqueue?
    || (!step.ctx.cfg.dryRun && forall t :: DeterministicAt(rate, hash).Decides(t, step.ctx.decide(t)))
  }

  ghost function AllAtOf(rate: int, hash: string -> D.Uint32): (State, Step) -> bool {
    (s, step) => AllAt(rate, hash, s, step)
  }

  /** One deterministic sampler, dry run off and the legacy cache of any capacity: over the whole
      run a span is transmitted exactly when the hash of its trace ID is one the rate keeps. So
      no trace is split, and raising the rate could only have turned transmissions into drops. */
  lemma DeterministicOneFate(rate: int, hash: string -> D.Uint32, capacity: nat, sentCapacity: nat,
                             steps: seq<Step>, b: Both)
    requires D.Startable(rate)
    requires LegacyRun(Start(capacity), sentCapacity, steps, b, AllAtOf(rate, hash))
    ensures forall i :: 0 <= i < |b.s.outcomes| ==>
              (b.s.outcomes[i].Transmitted? <==> hash(b.s.outcomes[i].before.traceID) in D.KeptHashes(rate))
  {
    hide LegacyRun;
    var keep := KeepOf(rate, hash);
    forall u, step | AllAtOf(rate, hash)(u, step) ensures KeepsByIdOf(keep)(u, step) {
    }
    LegacyRunWeaken(Start(capacity), sentCapacity, steps, b, AllAtOf(rate, hash), KeepsByIdOf(keep));
    LegacyOneFate(keep, capacity, sentCapacity, steps, b);
    forall i | 0 <= i < |b.s.outcomes|
      ensures b.s.outcomes[i].Transmitted? <==> hash(b.s.outcomes[i].before.traceID) in D.KeptHashes(rate)
    {
      assert keep(b.s.outcomes[i].before.traceID) <==> hash(b.s.outcomes[i].before.traceID) in D.KeptHashes(rate);
    }
  }

  lemma {:induction false} LegacyRunWeaken(b: Both, capacity: nat, steps: seq<Step>, b': Both,
                                           strong: (State, Step) -> bool, weak: (State, Step) -> bool)
    requires LegacyRun(b, capacity, steps, b', strong)
    requires forall u, step :: strong(u, step) ==> weak(u, step)
    ensures LegacyRun(b, capacity, steps, b', weak)
    decreases |steps|
  {
    hide Apply, Enabled, Answered, Next;
    if steps != [] { LegacyRunWeaken(Next(b, steps[0]), capacity, steps[1..], b', strong, weak); }
  }
}
