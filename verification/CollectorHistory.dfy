/** Facts about every trace, decision and outcome of a run. `Facts` is an invariance
    principle: local obligations on one trace, one record and one outcome are lifted over
    every step and so over every run. The theorems below instantiate it.
 */
module CollectorHistory {
  import opened Events
  import opened Ring
  import opened CollectorModel

  /** An outcome may be judged against the decisions recorded up to then. */
  datatype Facts = Facts(
    trace: Trace -> bool,
    record: Record -> bool,
    outcome: (seq<Record>, Outcome) -> bool)

  function RecordOf(t: Trace, d: Decision): Record {
    Record(t.serial, t.traceID, d.keep, d.rate, |t.spans|)
  }

  ghost predicate Hold(f: Facts, s: State) {
    && (forall k :: 0 <= k < |s.cache.slots| && s.cache.slots[k].Some? ==> f.trace(s.cache.slots[k].value))
    && (forall i :: 0 <= i < |s.decisions| ==> f.record(s.decisions[i]))
    && (forall i :: 0 <= i < |s.outcomes| ==> f.outcome(s.decisions, s.outcomes[i]))
  }

  /** A later decision never unmakes a fact about an outcome. */
  ghost predicate Monotone(f: Facts) {
    forall ds, r, o {:trigger f.outcome(ds + [r], o)} :: f.outcome(ds, o) ==> f.outcome(ds + [r], o)
  }

  /** Memoising an impact keeps the fact about a trace. */
  ghost predicate Notes(f: Facts) {
    forall t, n {:trigger Noted(t, n)} :: f.trace(t) ==> f.trace(Noted(t, n))
  }

  /** What growing a trace by a span must keep. */
  ghost predicate Grows(f: Facts, a: Arrival, cfg: Config) {
    && (forall t, sp: Span {:trigger Extended(t, sp, a, cfg)} ::
          f.trace(t) && sp.traceID == t.traceID ==> f.trace(Extended(t, sp, a, cfg)))
    && (forall n: nat, sp: Span {:trigger NewTrace(n, sp, a, cfg)} ::
          f.trace(Extended(NewTrace(n, sp, a, cfg), sp, a, cfg)))
  }

  ghost predicate DecidesOne(f: Facts, t: Trace, ds: seq<Record>, ctx: Context) {
    var d := Decide(t, ctx);
    && f.record(RecordOf(t, d))
    && forall i :: 0 <= i < |t.spans| ==> f.outcome(ds + [RecordOf(t, d)], SpanOutcomes(t, d, ctx.cfg)[i])
  }

  /** What deciding a trace must establish. */
  ghost predicate Decides(f: Facts, ctx: Context) {
    forall t, ds {:trigger DecidesOne(f, t, ds, ctx)} :: f.trace(t) ==> DecidesOne(f, t, ds, ctx)
  }

  function Head(s: State, peer: bool): Span
    requires (if peer then s.fromPeer else s.incoming) != []
  {
    if peer then s.fromPeer[0] else s.incoming[0]
  }

  /** Everything a step has to meet for the facts to survive it. */
  ghost predicate Obliged(f: Facts, s: State, step: Step)
    requires Enabled(s, step)
  {
    match step
    case Enqueue(_, _) => true
    case Process(peer, a, ctx) =>
      && Grows(f, a, ctx.cfg) && Decides(f, ctx)
      && (a.answer.Some? ==> f.outcome(s.decisions, LateOutcome(a.answer.value, Head(s, peer), ctx.cfg)))
    case Tick(_, ctx) => Notes(f) && Decides(f, ctx)
    case Reconfigure(ctx) => Decides(f, ctx)
  }

  /******* Lifting *******/

  lemma SendFacts(f: Facts, s: State, t: Trace, ctx: Context)
    requires Hold(f, s) && Monotone(f) && Decides(f, ctx) && f.trace(t)
    ensures Hold(f, Send(s, t, ctx))
  {
    if !t.sent {
      var s' := Send(s, t, ctx);
      var d := Decide(t, ctx);
      assert DecidesOne(f, t, s.decisions, ctx);
      assert s'.decisions == s.decisions + [RecordOf(t, d)];
      forall i | 0 <= i < |s'.outcomes| ensures f.outcome(s'.decisions, s'.outcomes[i]) {
        if i < |s.outcomes| {
          assert f.outcome(s.decisions, s.outcomes[i]);
        } else {
          assert s'.outcomes[i] == SpanOutcomes(t, d, ctx.cfg)[i - |s.outcomes|];
        }
      }
    }
  }

  lemma {:induction false} SendAllFacts(f: Facts, s: State, ts: seq<Trace>, ctx: Context)
    requires Hold(f, s) && Monotone(f) && Decides(f, ctx)
    requires forall i :: 0 <= i < |ts| ==> f.trace(ts[i])
    ensures Hold(f, SendAll(s, ts, ctx))
  {
    if ts != [] {
      SendAllFacts(f, s, ts[..|ts| - 1], ctx);
      SendFacts(f, SendAll(s, ts[..|ts| - 1], ctx), ts[|ts| - 1], ctx);
    }
  }

  lemma ItemFacts(f: Facts, slots: seq<Option<Trace>>, ts: seq<Trace>)
    requires forall k :: 0 <= k < |slots| && slots[k].Some? ==> f.trace(slots[k].value)
    requires forall i :: 0 <= i < |ts| ==> ts[i] in Items(slots)
    ensures forall i :: 0 <= i < |ts| ==> f.trace(ts[i])
  {
    forall i | 0 <= i < |ts| ensures f.trace(ts[i]) {
      ItemsMember(slots, ts[i]);
      var k :| 0 <= k < |slots| && slots[k] == Some(ts[i]);
    }
  }

  lemma PermutedMembers(a: seq<Trace>, b: seq<Trace>)
    requires multiset(a) == multiset(b)
    ensures forall i :: 0 <= i < |a| ==> a[i] in b
  {
    forall i | 0 <= i < |a| ensures a[i] in b { assert a[i] in multiset(a); }
  }

  lemma RebuildFacts(f: Facts, s: State, capacity: nat, kept: seq<Trace>)
    requires Hold(f, s) && |kept| <= RingSize(capacity)
    requires forall i :: 0 <= i < |kept| ==> f.trace(kept[i])
    ensures Hold(f, s.(cache := PutAll(Empty(capacity), kept)))
  {
    RebuildFits(capacity, kept);
  }

  lemma ExpiryFacts(f: Facts, s: State, now: int, ctx: Context)
    requires Hold(f, s) && Monotone(f) && Decides(f, ctx)
    ensures Hold(f, SendExpired(s, now, ctx))
  {
    var mask := ExpiredMask(s.cache.slots, now);
    var only := Only(s.cache.slots, mask);
    ItemFacts(f, only, Items(only));
    SendAllFacts(f, s.(cache := s.cache.(slots := Without(s.cache.slots, mask))), Items(only), ctx);
  }

  lemma MemoFacts(f: Facts, slots: seq<Option<Trace>>, clock: Clock, cfg: Config)
    requires Notes(f) && cfg.Timeout() != 0
    requires forall k :: 0 <= k < |slots| && slots[k].Some? ==> f.trace(slots[k].value)
    ensures var memo := MemoSlots(slots, clock, cfg.Timeout());
            forall k :: 0 <= k < |memo| && memo[k].Some? ==> f.trace(memo[k].value)
  {
    var memo := MemoSlots(slots, clock, cfg.Timeout());
    forall k | 0 <= k < |memo| && memo[k].Some? ensures f.trace(memo[k].value) {
      var t := slots[k].value;
      var at := clock(t.traceID);
      if at.Some? { assert memo[k].value == Noted(t, Impact(t, at.value, cfg.Timeout())); }
    }
  }

  lemma AllocFacts(f: Facts, s: State, r: Reading, ctx: Context)
    requires Hold(f, s) && Monotone(f) && Notes(f) && Decides(f, ctx)
    requires AllocInputs(s, r, ctx.cfg)
    ensures Hold(f, CheckAlloc(s, r, ctx))
  {
    hide Decides, Notes, Monotone, Items, MemoSlots;
    if ctx.cfg.byImpact && Over(ctx.cfg, r.mem) {
      var memo := MemoSlots(s.cache.slots, r.clock, ctx.cfg.Timeout());
      MemoFacts(f, s.cache.slots, r.clock, ctx.cfg);
      PermutedMembers(r.order, Items(memo));
      ItemFacts(f, memo, r.order[..r.cut]);
      SendAllFacts(f, s.(cache := s.cache.(slots := Without(memo, IdMask(memo, IdsOf(r.order[..r.cut]))))),
                   r.order[..r.cut], ctx);
    } else if !ctx.cfg.byImpact && Shrinks(s, ctx.cfg, r.mem) {
      var n := |r.order|;
      var newCap := 9 * n / 10;
      PermutedMembers(r.order, Items(s.cache.slots));
      ItemFacts(f, s.cache.slots, r.order);
      RebuildFacts(f, s, newCap, r.order[n - newCap..]);
      SendAllFacts(f, s.(cache := PutAll(Empty(newCap), r.order[n - newCap..])), r.order[..n - newCap], ctx);
    }
  }

  lemma ReloadFacts(f: Facts, s: State, ctx: Context)
    requires Hold(f, s) && Monotone(f) && Decides(f, ctx)
    ensures Hold(f, Reload(s, ctx))
  {
    var cap := ctx.cfg.capacity;
    if cap != |s.cache.slots| {
      var all := Items(s.cache.slots);
      var fit := if cap < |all| then cap else |all|;
      ItemFacts(f, s.cache.slots, all);
      RebuildFacts(f, s, cap, all[..fit]);
      SendAllFacts(f, s.(cache := PutAll(Empty(cap), all[..fit])), all[fit..], ctx);
    }
  }

  /** Processing: the facts must also rule out a cached trace that is marked sent. */
  lemma ProcessFacts(f: Facts, s: State, sp: Span, a: Arrival, ctx: Context)
    requires Hold(f, s) && Monotone(f) && Grows(f, a, ctx.cfg) && Decides(f, ctx)
    requires s.cache.Valid()
    requires forall t :: f.trace(t) ==> !t.sent
    requires a.answer.Some? ==> f.outcome(s.decisions, LateOutcome(a.answer.value, sp, ctx.cfg))
    ensures Hold(f, ProcessSpan(s, sp, a, ctx))
  {
    var k := Find(s.cache.slots, sp.traceID);
    if k.Some? {
      assert f.trace(Extended(s.cache.slots[k.value].value, sp, a, ctx.cfg));
    } else if a.answer.Some? {
    } else {
      CreateFacts(f, s, sp, a, ctx);
    }
  }

  /** The new trace itself is only judged once its first span is attached, so the victim is
      sent with the old ring standing in for the new one. */
  lemma CreateFacts(f: Facts, s: State, sp: Span, a: Arrival, ctx: Context)
    requires Hold(f, s) && Monotone(f) && Grows(f, a, ctx.cfg) && Decides(f, ctx)
    requires s.cache.Valid()
    requires Find(s.cache.slots, sp.traceID).None? && a.answer.None?
    ensures Hold(f, ProcessSpan(s, sp, a, ctx))
  {
    hide Decides, Grows, Monotone;
    var t := NewTrace(s.nextSerial, sp, a, ctx.cfg);
    var s0 := s.(cache := s.cache.Put(t), nextSerial := s.nextSerial + 1);
    SendAllFrame(s0, Victim(s.cache), ctx);
    SendAllFacts(f, s, Victim(s.cache), ctx);
    SendAllSame(s, s0, Victim(s.cache), ctx);
    SendAllFrame(s, Victim(s.cache), ctx);
    NewFact(f, s.nextSerial, sp, a, ctx.cfg);
  }

  lemma NewFact(f: Facts, n: nat, sp: Span, a: Arrival, cfg: Config)
    requires Grows(f, a, cfg)
    ensures f.trace(Extended(NewTrace(n, sp, a, cfg), sp, a, cfg))
  {
  }

  /** What is sent does not depend on what stays in the cache. */
  lemma {:induction false} SendAllSame(s: State, s0: State, ts: seq<Trace>, ctx: Context)
    requires s0.decisions == s.decisions && s0.outcomes == s.outcomes
    ensures SendAll(s0, ts, ctx).decisions == SendAll(s, ts, ctx).decisions
    ensures SendAll(s0, ts, ctx).outcomes == SendAll(s, ts, ctx).outcomes
  {
    if ts != [] { SendAllSame(s, s0, ts[..|ts| - 1], ctx); }
  }

  lemma StepFacts(f: Facts, s: State, step: Step)
    requires Enabled(s, step) && Hold(f, s) && Monotone(f) && Obliged(f, s, step)
    requires forall t :: f.trace(t) ==> !t.sent
    ensures Hold(f, Apply(s, step))
  {
    hide Decides, Grows, Notes, Monotone, ProcessSpan, SendExpired, CheckAlloc, Reload;
    match step
    case Enqueue(sp, peer) =>
    case Process(peer, a, ctx) =>
      if peer {
        ProcessFacts(f, s.(fromPeer := s.fromPeer[1..]), s.fromPeer[0], a, ctx);
      } else {
        ProcessFacts(f, s.(incoming := s.incoming[1..]), s.incoming[0], a, ctx);
      }
    case Tick(r, ctx) =>
      ExpiryFacts(f, s, r.now, ctx);
      AllocFacts(f, SendExpired(s, r.now, ctx), r, ctx);
    case Reconfigure(ctx) => ReloadFacts(f, s, ctx);
  }

  /** The principle: facts that every permitted step is obliged to keep hold after every run. */
  lemma {:induction false} RunFacts(f: Facts, s: State, steps: seq<Step>, s': State, rule: (State, Step) -> bool)
    requires Hold(f, s) && Monotone(f) && Run(s, steps, s', rule)
    requires forall t :: f.trace(t) ==> !t.sent
    requires forall u, step :: Enabled(u, step) && rule(u, step) && Hold(f, u) ==> Obliged(f, u, step)
    ensures Hold(f, s')
    decreases |steps|
  {
    hide Decides, Grows, Notes, Monotone, Obliged, Apply, Enabled, Hold;
    if steps != [] {
      StepFacts(f, s, steps[0]);
      RunFacts(f, Apply(s, steps[0]), steps[1..], s', rule);
    }
  }
}
