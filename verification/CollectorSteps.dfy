/** What each step of the collector does to queues, traces, decisions and spans, said without the
    functions of the model that compute it; and what follows over every run about what was
    offered, which clock readings a trace carries and what its size is.
 */
module CollectorSteps {
  import opened Events
  import opened Ring
  import opened CollectorModel
  import opened CollectorHistory
  import opened CollectorSafety
  import E = CollectorEviction

  /******* Queues *******/

  function Queue(s: State, peer: bool): seq<Span> {
    if peer then s.fromPeer else s.incoming
  }

  /** A queue with room takes the span at its end, and it counts as accepted; a full one refuses
      it. The other queue, the cache and what was settled stay as they are. */
  lemma OfferTakenIffRoom(s: State, sp: Span, peer: bool)
    requires s.cache.Valid()
    ensures Enabled(s, Enqueue(sp, peer))
    ensures var s' := Apply(s, Enqueue(sp, peer));
            && Queue(s', !peer) == Queue(s, !peer) && s'.queueSize == s.queueSize
            && s'.cache == s.cache && s'.outcomes == s.outcomes && s'.decisions == s.decisions
            && s'.nextSerial == s.nextSerial
            && (if |Queue(s, peer)| < s.queueSize
                then Queue(s', peer) == Queue(s, peer) + [sp] && s'.accepted == s.accepted + [sp]
                else Queue(s', peer) == Queue(s, peer) && s'.accepted == s.accepted)
  {
  }

  lemma ProcessFrame(s: State, sp: Span, a: Arrival, ctx: Context)
    requires s.cache.Valid()
    ensures var s' := ProcessSpan(s, sp, a, ctx);
            s'.incoming == s.incoming && s'.fromPeer == s.fromPeer && s'.accepted == s.accepted && s'.queueSize == s.queueSize
  {
    hide SendAll, Extended, LateOutcome;
    var t := NewTrace(s.nextSerial, sp, a, ctx.cfg);
    SendAllFrame(s.(cache := s.cache.Put(t), nextSerial := s.nextSerial + 1), Victim(s.cache), ctx);
  }

  lemma TickFrame(s: State, r: Reading, ctx: Context)
    requires Enabled(s, Tick(r, ctx))
    ensures var s' := Apply(s, Tick(r, ctx));
            s'.incoming == s.incoming && s'.fromPeer == s.fromPeer && s'.accepted == s.accepted && s'.queueSize == s.queueSize
  {
    hide SendAll, Items, MemoSlots, PutAll;
    var mask := ExpiredMask(s.cache.slots, r.now);
    SendAllFrame(s.(cache := s.cache.(slots := Without(s.cache.slots, mask))), Items(Only(s.cache.slots, mask)), ctx);
    var s1 := SendExpired(s, r.now, ctx);
    if ctx.cfg.byImpact && Over(ctx.cfg, r.mem) {
      var memo := MemoSlots(s1.cache.slots, r.clock, ctx.cfg.Timeout());
      SendAllFrame(s1.(cache := s1.cache.(slots := Without(memo, IdMask(memo, IdsOf(r.order[..r.cut]))))), r.order[..r.cut], ctx);
    } else if !ctx.cfg.byImpact && Shrinks(s1, ctx.cfg, r.mem) {
      var n := |r.order|;
      var newCap := 9 * n / 10;
      SendAllFrame(s1.(cache := PutAll(Empty(newCap), r.order[n - newCap..])), r.order[..n - newCap], ctx);
    }
  }

  lemma ReloadFrame(s: State, ctx: Context)
    ensures var s' := Reload(s, ctx);
            s'.incoming == s.incoming && s'.fromPeer == s.fromPeer && s'.accepted == s.accepted && s'.queueSize == s.queueSize
  {
    hide SendAll, Items, PutAll;
    var all, cap := Items(s.cache.slots), ctx.cfg.capacity;
    var fit := if cap < |all| then cap else |all|;
    SendAllFrame(s.(cache := PutAll(Empty(cap), all[..fit])), all[fit..], ctx);
  }

  /** Only offers lengthen a queue, and only taking its first span shortens it. */
  lemma StepQueues(s: State, step: Step, peer: bool)
    requires Enabled(s, step)
    ensures var s' := Apply(s, step);
            && s'.queueSize == s.queueSize
            && (step.Process? && step.peer == peer ==> Queue(s, peer) != [] && Queue(s', peer) == Queue(s, peer)[1..])
            && (!step.Enqueue? ==> s'.accepted == s.accepted)
            && (!step.Enqueue? && !(step.Process? && step.peer == peer) ==> Queue(s', peer) == Queue(s, peer))
  {
    hide ProcessSpan, Reload, CheckAlloc, SendExpired;
    match step
    case Enqueue(_, _) =>
    case Process(p, a, ctx) =>
      if p {
        ProcessFrame(s.(fromPeer := s.fromPeer[1..]), s.fromPeer[0], a, ctx);
      } else {
        ProcessFrame(s.(incoming := s.incoming[1..]), s.incoming[0], a, ctx);
      }
    case Tick(r, ctx) => TickFrame(s, r, ctx);
    case Reconfigure(ctx) => ReloadFrame(s, ctx);
  }

  /** The spans offered to a queue while it had room. */
  ghost function Admitted(s: State, steps: seq<Step>, peer: bool): seq<Span>
    decreases |steps|
  {
    if steps == [] || !Enabled(s, steps[0]) then []
    else
      (if steps[0].Enqueue? && steps[0].peer == peer && |Queue(s, peer)| < s.queueSize then [steps[0].span] else [])
      + Admitted(Apply(s, steps[0]), steps[1..], peer)
  }

  /** The same for both queues, in the order of the offers. */
  ghost function AdmittedAll(s: State, steps: seq<Step>): seq<Span>
    decreases |steps|
  {
    if steps == [] || !Enabled(s, steps[0]) then []
    else
      (if steps[0].Enqueue? && |Queue(s, steps[0].peer)| < s.queueSize then [steps[0].span] else [])
      + AdmittedAll(Apply(s, steps[0]), steps[1..])
  }

  function TakenFrom(steps: seq<Step>, peer: bool): nat {
    if steps == [] then 0
    else (if steps[0].Process? && steps[0].peer == peer then 1 else 0) + TakenFrom(steps[1..], peer)
  }

  /** What is accepted is what was offered while there was room, in that order. */
  lemma {:induction false} AcceptedWereAdmitted(s: State, steps: seq<Step>, s': State, rule: (State, Step) -> bool)
    requires Run(s, steps, s', rule)
    ensures s'.queueSize == s.queueSize && s'.accepted == s.accepted + AdmittedAll(s, steps)
    decreases |steps|
  {
    hide Apply, Enabled;
    if steps != [] {
      StepAccepts(s, steps[0]);
      AcceptedWereAdmitted(Apply(s, steps[0]), steps[1..], s', rule);
    }
  }

  lemma StepAccepts(s: State, step: Step)
    requires Enabled(s, step)
    ensures Apply(s, step).queueSize == s.queueSize
    ensures Apply(s, step).accepted
            == s.accepted + (if step.Enqueue? && |Queue(s, step.peer)| < s.queueSize then [step.span] else [])
  {
    hide Apply, Enabled;
    StepQueues(s, step, true);
    if step.Enqueue? { OfferStep(s, step); }
  }

  lemma OfferStep(s: State, step: Step)
    requires Enabled(s, step) && step.Enqueue?
    ensures var s', room := Apply(s, step), |Queue(s, step.peer)| < s.queueSize;
            && s'.accepted == s.accepted + (if room then [step.span] else [])
            && Queue(s', step.peer) == Queue(s, step.peer) + (if room then [step.span] else [])
            && Queue(s', !step.peer) == Queue(s, !step.peer)
  {
    OfferTakenIffRoom(s, step.span, step.peer);
  }

  /** Each queue is first in, first out: it holds what it admitted, less as many as were taken. */
  lemma {:induction false} QueuesAreFifo(s: State, steps: seq<Step>, s': State, rule: (State, Step) -> bool, peer: bool)
    requires Run(s, steps, s', rule)
    ensures var all := Queue(s, peer) + Admitted(s, steps, peer);
            TakenFrom(steps, peer) <= |all| && Queue(s', peer) == all[TakenFrom(steps, peer)..]
    decreases |steps|
  {
    hide Apply, Enabled, Queue;
    if steps == [] {
      assert Queue(s, peer) + [] == Queue(s, peer);
    } else {
      var s1 := Apply(s, steps[0]);
      QueueStep(s, steps[0], peer);
      QueuesAreFifo(s1, steps[1..], s', rule, peer);
      var added := if steps[0].Enqueue? && steps[0].peer == peer && |Queue(s, peer)| < s.queueSize then [steps[0].span] else [];
      var out := if steps[0].Process? && steps[0].peer == peer then 1 else 0;
      Shifted(Queue(s, peer), added, out, Admitted(s1, steps[1..], peer), TakenFrom(steps[1..], peer));
    }
  }

  lemma QueueStep(s: State, step: Step, peer: bool)
    requires Enabled(s, step)
    ensures var added := if step.Enqueue? && step.peer == peer && |Queue(s, peer)| < s.queueSize then [step.span] else [];
            var out := if step.Process? && step.peer == peer then 1 else 0;
            out <= |Queue(s, peer)| && Queue(Apply(s, step), peer) == (Queue(s, peer) + added)[out..]
  {
    hide Apply, Enabled;
    StepQueues(s, step, peer);
    if step.Enqueue? { OfferStep(s, step); }
  }

  lemma Shifted(q: seq<Span>, added: seq<Span>, out: nat, more: seq<Span>, n: nat)
    requires out <= |q| && n <= |(q + added)[out..] + more|
    ensures (q + (added + more))[out + n..] == ((q + added)[out..] + more)[n..]
    ensures |q + (added + more)| >= out + n
  {
    assert (q + (added + more))[out..] == (q + added)[out..] + more;
  }

  /** Conservation, counted from the offers: after every run of a collector with queues of three
      times its capacity, the spans offered while their queue had room are exactly the spans
      queued, pending in cached traces, and settled. */
  lemma OffersConserved(capacity: nat, steps: seq<Step>, s: State, rule: (State, Step) -> bool)
    requires Run(Initial(capacity), steps, s, rule)
    ensures s.queueSize == 3 * capacity && s.accepted == AdmittedAll(Initial(capacity), steps)
    ensures Bag(AdmittedAll(Initial(capacity), steps))
            == Bag(s.incoming) + Bag(s.fromPeer) + BagOf(Cached(s)) + OutBag(s.outcomes)
  {
    hide Run, AdmittedAll;
    AcceptedWereAdmitted(Initial(capacity), steps, s, rule);
    Conservation(capacity, steps, s, rule);
    assert Initial(capacity).accepted + AdmittedAll(Initial(capacity), steps) == AdmittedAll(Initial(capacity), steps);
  }

  /******* Sending *******/

  /** The trace as the sampler sees it: marked sent, and the root span told the number of spans. */
  ghost predicate Shown(t: Trace, u: Trace, cfg: Config) {
    && u == t.(sent := true, spans := u.spans) && |u.spans| == |t.spans|
    && forall i :: 0 <= i < |t.spans| ==>
         u.spans[i] == if cfg.addSpanCountToRoot && t.root == Some(i)
                       then t.spans[i].(data := t.spans[i].data["meta.span_count" := IntVal(|t.spans|)])
                       else t.spans[i]
  }

  /** What a span sent with its trace is told, unless a later write covers it: the reason, the
      number of spans if it names no parent, the host name and its original rate. */
  ghost predicate Told(data: Data, marked: Data, rate: nat, count: nat, d: Decision, cfg: Config) {
    && (cfg.addRuleReason && !(cfg.dryRun && cfg.dryRunField == "meta.reason") ==>
          "meta.reason" in data && data["meta.reason"] == StrVal(d.reason))
    && (cfg.addSpanCountToRoot && !HasParent(marked) && !(cfg.dryRun && cfg.dryRunField == "meta.span_count") ==>
          "meta.span_count" in data && data["meta.span_count"] == IntVal(count))
    && (cfg.hostname != "" ==>
          "meta.local_hostname" in data && data["meta.local_hostname"] == StrVal(cfg.hostname))
    && (d.rate != 1 ==>
          "meta.refinery.original_sample_rate" in data && data["meta.refinery.original_sample_rate"] == IntVal(rate))
  }

  lemma DressedTells(sp: Span, count: nat, d: Decision, cfg: Config)
    ensures Told(Dressed(sp, count, d, cfg).data, Marked(sp.data, d.mark), sp.sampleRate, count, d, cfg)
  {
  }

  /** Sending an unsent trace: the sampler is asked once about the trace as shown, its answer is
      recorded with the number of spans, and every span is settled by that answer, in order. */
  lemma SendTells(s: State, t: Trace, ctx: Context) returns (u: Trace)
    requires !t.sent && (t.root.Some? ==> t.root.value < |t.spans|)
    ensures Shown(t, u, ctx.cfg)
    ensures var d, s' := ctx.decide(u), Send(s, t, ctx);
            && s' == s.(decisions := s'.decisions, outcomes := s'.outcomes)
            && s'.decisions == s.decisions + [Record(t.serial, t.traceID, d.keep, d.rate, |t.spans|)]
            && |s'.outcomes| == |s.outcomes| + |t.spans| && s.outcomes <= s'.outcomes
            && forall i :: 0 <= i < |t.spans| ==>
                 Settles(s'.outcomes[|s.outcomes| + i], t.spans[i], u.spans[i], t.serial, |t.spans|, d, ctx.cfg)
  {
    hide Dressed, Settles, SpanOutcomes, Stamped;
    u := Stamped(t.(sent := true), ctx.cfg);
    StampedShown(t, ctx.cfg);
    forall i | 0 <= i < |t.spans|
      ensures Settles(Send(s, t, ctx).outcomes[|s.outcomes| + i], t.spans[i], u.spans[i], t.serial, |t.spans|, ctx.decide(u), ctx.cfg)
    {
      SpanSettled(t, u, ctx.decide(u), ctx.cfg, i);
    }
  }

  lemma StampedShown(t: Trace, cfg: Config)
    requires t.root.Some? ==> t.root.value < |t.spans|
    ensures Shown(t, Stamped(t.(sent := true), cfg), cfg)
  {
  }

  lemma SpanSettled(t: Trace, u: Trace, d: Decision, cfg: Config, i: nat)
    requires i < |t.spans| && u == Stamped(t.(sent := true), cfg)
    ensures |u.spans| == |t.spans| && Settles(SpanOutcomes(t, d, cfg)[i], t.spans[i], u.spans[i], t.serial, |t.spans|, d, cfg)
  {
    hide Dressed, Told;
    assert u.spans == Stamped(t, cfg).spans;
    DressedTells(u.spans[i], |t.spans|, d, cfg);
  }

  /** The outcome of a span sent with its trace: transmitted if kept or in dry run, and told so. */
  ghost predicate Settles(o: Outcome, sp: Span, shown: Span, serial: nat, count: nat, d: Decision, cfg: Config) {
    && o.before == sp && o.from == Some(serial) && o.rate == d.rate
    && (o.Transmitted? <==> d.keep || cfg.dryRun)
    && (o.Transmitted? ==>
          && o.keep == d.keep && o.cfg == cfg && o.mark == d.mark
          && Told(o.after.data, Marked(shown.data, d.mark), shown.sampleRate, count, d, cfg))
  }

  /** A late span that is kept and names no parent is told the number of spans remembered. */
  lemma LateTells(r: SentRecord, sp: Span, cfg: Config)
    ensures var o := LateOutcome(r, sp, cfg);
            && o.before == sp && o.from == None && o.rate == r.rate
            && (o.Transmitted? <==> r.keep || cfg.dryRun)
            && (o.Transmitted? ==> o.keep == r.keep && o.cfg == cfg && o.mark == None)
            && (r.keep && cfg.addSpanCountToRoot && !HasParent(sp.data) && !cfg.dryRun ==>
                  "meta.span_count" in o.after.data && o.after.data["meta.span_count"] == IntVal(r.count))
  {
  }

  /******* Processing a span *******/

  /** The deadline of a trace without a root, and of one whose root was just seen. */
  function TimeoutOf(cfg: Config): int {
    if cfg.traceTimeout.Some? then cfg.traceTimeout.value else 60_000_000_000
  }

  function DelayOf(cfg: Config): int {
    if cfg.sendDelay.Some? then cfg.sendDelay.value else 2_000_000_000
  }

  /** The span as it stands in a trace: stamped with the readings of its step, and sized. */
  ghost function Arrived(sp: Span, a: Arrival): Span {
    sp.(arrivalTime := a.added, seenAt := a.seen, dataSize := DataSizeOf(sp.data))
  }

  /** `t'` is `t` with the span at its end; without a parent the span is the root and sets the
      deadline. */
  ghost predicate Grown(t: Trace, t': Trace, sp: Span, a: Arrival, cfg: Config) {
    && t' == t.(spans := t.spans + [Arrived(sp, a)], dataSize := t.dataSize + DataSizeOf(sp.data), totalImpact := 0,
                root := t'.root, sendBy := t'.sendBy)
    && (if HasParent(sp.data) then t'.root == t.root && t'.sendBy == t.sendBy
        else t'.root == Some(|t.spans|) && t'.sendBy == a.seen + DelayOf(cfg))
  }

  /** A trace made for the span: it arrived when it was created, and is due a timeout later unless
      the span is a root. */
  ghost predicate Made(t: Trace, serial: nat, sp: Span, a: Arrival, cfg: Config) {
    && t.serial == serial && t.traceID == sp.traceID && !t.sent && t.arrivalTime == a.created
    && t.sampleRate == sp.sampleRate && !t.keepSample
    && t.spans == [Arrived(sp, a)] && t.dataSize == DataSizeOf(sp.data) && t.totalImpact == 0
    && (if HasParent(sp.data) then t.root == None && t.sendBy == a.created + TimeoutOf(cfg)
        else t.root == Some(0) && t.sendBy == a.seen + DelayOf(cfg))
  }

  lemma ExtendedGrows(t: Trace, sp: Span, a: Arrival, cfg: Config)
    ensures Grown(t, Extended(t, sp, a, cfg), sp, a, cfg)
  {
    RootsNameNoParent(Arrived(sp, a));
  }

  lemma NewTraceMade(serial: nat, sp: Span, a: Arrival, cfg: Config)
    ensures Made(Extended(NewTrace(serial, sp, a, cfg), sp, a, cfg), serial, sp, a, cfg)
  {
    ExtendedGrows(NewTrace(serial, sp, a, cfg), sp, a, cfg);
  }

  /** The span joins the cached trace of its ID. */
  lemma SpanJoins(s: State, k: nat, sp: Span, a: Arrival, ctx: Context)
    requires Inv(s) && k < |s.cache.slots| && s.cache.slots[k].Some? && s.cache.slots[k].value.traceID == sp.traceID
    ensures var s' := ProcessSpan(s, sp, a, ctx);
            && s' == s.(cache := s'.cache) && s'.cache.next == s.cache.next
            && |s'.cache.slots| == |s.cache.slots| && s'.cache.slots[k].Some?
            && Grown(s.cache.slots[k].value, s'.cache.slots[k].value, sp, a, ctx.cfg)
            && forall i :: 0 <= i < |s.cache.slots| && i != k ==> s'.cache.slots[i] == s.cache.slots[i]
  {
    hide Extended, Items, Alive, BagOf, OutBag, Bag;
    UniqueSlot(s, k, Find(s.cache.slots, sp.traceID));
    ExtendedGrows(s.cache.slots[k].value, sp, a, ctx.cfg);
  }

  lemma UniqueSlot(s: State, k: nat, j: Option<nat>)
    requires Inv(s) && k < |s.cache.slots| && s.cache.slots[k].Some?
    requires j.Some? ==> j.value < |s.cache.slots| && s.cache.slots[j.value].Some?
                         && s.cache.slots[j.value].value.traceID == s.cache.slots[k].value.traceID
    ensures !s.cache.slots[k].value.sent && (j.Some? ==> j.value == k)
  {
    hide BagOf, OutBag, Bag, Items;
    HoldingParts(s, multiset{});
    var t := s.cache.slots[k].value;
    ItemsMember(s.cache.slots, t);
    assert t in multiset(Cached(s));
    if j.Some? && j.value != k {
      var u := s.cache.slots[j.value].value;
      ItemsMember(s.cache.slots, u);
      assert u in multiset(Cached(s));
      SlotsOnce(s.cache.slots, k, j.value);
    }
  }

  /** An object in two slots is listed twice. */
  lemma {:induction false} SlotsOnce<T>(slots: seq<Option<T>>, k: nat, j: nat)
    requires k < |slots| && j < |slots| && k != j && slots[k].Some? && slots[k] == slots[j]
    ensures multiset(Items(slots))[slots[k].value] >= 2
  {
    hide Items;
    var n := |slots| - 1;
    var front, x := slots[..n], slots[k].value;
    ItemsSnoc(slots);
    if k == n || j == n {
      ItemsMember(front, x);
      assert front[if k == n then j else k] == Some(x);
      assert x in multiset(Items(front));
    } else {
      SlotsOnce(front, k, j);
    }
  }

  /** A span of an undecided trace that is not cached gets a trace of its own in the next slot. */
  lemma SpanStartsTrace(s: State, sp: Span, a: Arrival, ctx: Context)
    requires s.cache.Valid() && a.answer.None?
    requires forall i :: 0 <= i < |s.cache.slots| && s.cache.slots[i].Some? ==> s.cache.slots[i].value.traceID != sp.traceID
    ensures var s', k := ProcessSpan(s, sp, a, ctx), if s.cache.next >= |s.cache.slots| then 0 else s.cache.next;
            && s'.nextSerial == s.nextSerial + 1 && s'.cache.next == k + 1
            && |s'.cache.slots| == |s.cache.slots| && s'.cache.slots[k].Some?
            && Made(s'.cache.slots[k].value, s.nextSerial, sp, a, ctx.cfg)
            && (forall i :: 0 <= i < |s.cache.slots| && i != k ==> s'.cache.slots[i] == s.cache.slots[i])
            && (if s.cache.slots[k].Some? && !s.cache.slots[k].value.sent
                then
                  var sent := Send(s, s.cache.slots[k].value, ctx);
                  s'.decisions == sent.decisions && s'.outcomes == sent.outcomes
                else s'.decisions == s.decisions && s'.outcomes == s.outcomes)
  {
    hide Extended, Send;
    var t := NewTrace(s.nextSerial, sp, a, ctx.cfg);
    NewTraceMade(s.nextSerial, sp, a, ctx.cfg);
    var s0 := s.(cache := s.cache.Put(t), nextSerial := s.nextSerial + 1);
    SendAllFrame(s0, Victim(s.cache), ctx);
    SendAllSame(s, s0, Victim(s.cache), ctx);
    if Victim(s.cache) != [] { OnlyOneSent(s, s.cache.slots[s.cache.Spot()].value, ctx); }
  }

  lemma OnlyOneSent(s: State, t: Trace, ctx: Context)
    ensures SendAll(s, [t], ctx) == Send(s, t, ctx)
  {
    hide Send;
    var ts := [t];
    assert ts[..|ts| - 1] == [];
    assert SendAll(s, [], ctx) == s;
  }

  /** A span the sent cache knows is settled and changes no trace. */
  lemma SpanIsLate(s: State, sp: Span, a: Arrival, ctx: Context)
    requires s.cache.Valid() && a.answer.Some?
    requires forall i :: 0 <= i < |s.cache.slots| && s.cache.slots[i].Some? ==> s.cache.slots[i].value.traceID != sp.traceID
    ensures ProcessSpan(s, sp, a, ctx) == s.(outcomes := s.outcomes + [LateOutcome(a.answer.value, sp, ctx.cfg)])
  {
  }

  /** A Process step takes the first span of its queue and treats it as above. */
  lemma ProcessTakesHead(s: State, peer: bool, a: Arrival, ctx: Context)
    requires Enabled(s, Process(peer, a, ctx))
    ensures Queue(s, peer) != []
    ensures Apply(s, Process(peer, a, ctx))
            == ProcessSpan(if peer then s.(fromPeer := s.fromPeer[1..]) else s.(incoming := s.incoming[1..]),
                           Queue(s, peer)[0], a, ctx)
  {
    hide ProcessSpan;
  }

  /******* Expiry *******/

  /** The cached traces that are due, in slot order. */
  ghost function Due(slots: seq<Option<Trace>>, now: int): seq<Trace> {
    if slots == [] then []
    else
      var last := slots[|slots| - 1];
      Due(slots[..|slots| - 1], now) + (if last.Some? && last.value.sendBy < now then [last.value] else [])
  }

  lemma {:induction false} DueAreMasked(slots: seq<Option<Trace>>, now: int)
    ensures Items(Only(slots, ExpiredMask(slots, now))) == Due(slots, now)
  {
    if slots != [] {
      var n := |slots| - 1;
      DueAreMasked(slots[..n], now);
      assert Only(slots, ExpiredMask(slots, now))[..n] == Only(slots[..n], ExpiredMask(slots[..n], now));
    }
  }

  lemma {:induction false} DueMembers(slots: seq<Option<Trace>>, now: int, t: Trace)
    ensures t in Due(slots, now) <==> Some(t) in slots && t.sendBy < now
  {
    if slots != [] {
      var n := |slots| - 1;
      DueMembers(slots[..n], now, t);
      assert slots == slots[..n] + [slots[n]];
    }
  }

  lemma DueUnsent(s: State, now: int)
    requires Inv(s)
    ensures E.Unsent(Due(s.cache.slots, now))
  {
    hide Items, Due, BagOf, Bag, OutBag;
    HoldingParts(s, multiset{});
    var due := Due(s.cache.slots, now);
    forall i | 0 <= i < |due| ensures !due[i].sent {
      DueMembers(s.cache.slots, now, due[i]);
      ItemsMember(s.cache.slots, due[i]);
      assert due[i] in multiset(Cached(s));
    }
  }

  /** Neither memory check fires. */
  predicate MemoryFine(s: State, r: Reading, cfg: Config) {
    || !cfg.capacityKnown || cfg.maxAlloc == 0 || r.mem < cfg.maxAlloc
    || (!cfg.byImpact && |s.cache.slots| < 100)
  }

  /** Without memory trouble a tick decides exactly the traces that are due, in slot order, and
      leaves every other trace where it was. */
  lemma TickTakesExactlyDue(s: State, r: Reading, ctx: Context)
    requires Inv(s) && Enabled(s, Tick(r, ctx)) && MemoryFine(s, r, ctx.cfg)
    ensures var s', due := Apply(s, Tick(r, ctx)), Due(s.cache.slots, r.now);
            && s'.cache.next == s.cache.next && |s'.cache.slots| == |s.cache.slots|
            && (forall k :: 0 <= k < |s.cache.slots| ==>
                  s'.cache.slots[k] == if s.cache.slots[k].Some? && s.cache.slots[k].value.sendBy < r.now then None
                                       else s.cache.slots[k])
            && s'.decisions == SendAll(s, due, ctx).decisions && s'.outcomes == SendAll(s, due, ctx).outcomes
            && |s'.decisions| == |s.decisions| + |due| && s.decisions <= s'.decisions
            && forall i :: 0 <= i < |due| ==>
                 s'.decisions[|s.decisions| + i].serial == due[i].serial
                 && s'.decisions[|s.decisions| + i].traceID == due[i].traceID
                 && s'.decisions[|s.decisions| + i].count == |due[i].spans|
  {
    hide Items, SendAll, Due, Holding;
    DueUnsent(s, r.now);
    E.SendAllRecords(s, Due(s.cache.slots, r.now), ctx);
    var mask := ExpiredMask(s.cache.slots, r.now);
    var s0 := s.(cache := s.cache.(slots := Without(s.cache.slots, mask)));
    DueAreMasked(s.cache.slots, r.now);
    SendAllFrame(s0, Due(s.cache.slots, r.now), ctx);
    SendAllSame(s, s0, Due(s.cache.slots, r.now), ctx);
  }

  /** A tick expires first and then checks memory: it is the check made after the tick that would
      have found all memory free. */
  lemma TickExpiresFirst(s: State, r: Reading, ctx: Context)
    requires Enabled(s, Tick(r, ctx))
    ensures var free := r.(mem := 0);
            && Enabled(s, Tick(free, ctx)) && MemoryFine(s, free, ctx.cfg)
            && var s1 := Apply(s, Tick(free, ctx));
               AllocInputs(s1, r, ctx.cfg) && Apply(s, Tick(r, ctx)) == CheckAlloc(s1, r, ctx)
  {
    hide SendExpired, Items, MemoSlots, Shrink, Evict;
  }

  /** Without memory trouble neither check changes anything. */
  lemma MemoryFineKeeps(s: State, r: Reading, ctx: Context)
    requires AllocInputs(s, r, ctx.cfg) && MemoryFine(s, r, ctx.cfg)
    ensures CheckAlloc(s, r, ctx) == s
  {
  }

  /** A reload that finds the capacity the ring has changes nothing. */
  lemma SameCapacityKeeps(s: State, ctx: Context)
    requires ctx.cfg.capacity == |s.cache.slots|
    ensures Reload(s, ctx) == s
  {
  }

  /******* Clock readings *******/

  /** Some step that processed a span read the clock so. */
  ghost predicate ReadBy(steps: seq<Step>, added: int, seen: int) {
    exists k :: 0 <= k < |steps| && steps[k].Process? && steps[k].arrival.added == added && steps[k].arrival.seen == seen
  }

  ghost predicate CreatedBy(steps: seq<Step>, created: int, added: int, seen: int) {
    exists k :: 0 <= k < |steps| && steps[k].Process? && steps[k].arrival.created == created
             && steps[k].arrival.added == added && steps[k].arrival.seen == seen
  }

  /** A trace arrived at the reading of the step that made it, the step of its first span; and each
      of its spans carries the readings of a step that processed a span. */
  ghost predicate Clocked(t: Trace, steps: seq<Step>) {
    && !t.sent && t.spans != []
    && CreatedBy(steps, t.arrivalTime, t.spans[0].arrivalTime, t.spans[0].seenAt)
    && forall i :: 0 <= i < |t.spans| ==> ReadBy(steps, t.spans[i].arrivalTime, t.spans[i].seenAt)
  }

  ghost function ClockFacts(steps: seq<Step>): Facts {
    Facts(t => Clocked(t, steps), r => true, (ds, o) => true)
  }

  ghost predicate Among(steps: seq<Step>, s: State, step: Step) {
    step in steps
  }

  ghost function AmongOf(steps: seq<Step>): (State, Step) -> bool {
    (u, step) => Among(steps, u, step)
  }

  lemma {:induction false} RunAmong(s: State, steps: seq<Step>, s': State, rule: (State, Step) -> bool, all: seq<Step>)
    requires Run(s, steps, s', rule) && forall i :: 0 <= i < |steps| ==> steps[i] in all
    ensures Run(s, steps, s', AmongOf(all))
    decreases |steps|
  {
    hide Apply, Enabled;
    if steps != [] { RunAmong(Apply(s, steps[0]), steps[1..], s', rule, all); }
  }

  lemma ClockGrows(steps: seq<Step>, k: nat)
    requires k < |steps| && steps[k].Process?
    ensures Grows(ClockFacts(steps), steps[k].arrival, steps[k].ctx.cfg)
  {
    hide CreatedBy, ReadBy;
    var f, a, cfg := ClockFacts(steps), steps[k].arrival, steps[k].ctx.cfg;
    assert ReadBy(steps, a.added, a.seen) && CreatedBy(steps, a.created, a.added, a.seen) by { ReadHere(steps, k); }
    forall t, sp: Span | f.trace(t) && sp.traceID == t.traceID ensures f.trace(Extended(t, sp, a, cfg)) {
      ExtendedGrows(t, sp, a, cfg);
      assert Extended(t, sp, a, cfg).spans == t.spans + [Arrived(sp, a)];
    }
    forall n: nat, sp: Span ensures f.trace(Extended(NewTrace(n, sp, a, cfg), sp, a, cfg)) {
      NewTraceMade(n, sp, a, cfg);
    }
  }

  lemma ReadHere(steps: seq<Step>, k: nat)
    requires k < |steps| && steps[k].Process?
    ensures var a := steps[k].arrival; ReadBy(steps, a.added, a.seen) && CreatedBy(steps, a.created, a.added, a.seen)
  {
  }

  lemma ClockObliged(steps: seq<Step>, s: State, step: Step)
    requires Enabled(s, step) && step in steps
    ensures Obliged(ClockFacts(steps), s, step)
  {
    hide Grows, Clocked, Enabled, LateOutcome;
    var f := ClockFacts(steps);
    if step.Process? {
      var k :| 0 <= k < |steps| && steps[k] == step;
      ClockGrows(steps, k);
    }
    assert Notes(f) by { ClockNotes(steps); }
    if !step.Enqueue? {
      forall t, ds | f.trace(t) ensures DecidesOne(f, t, ds, step.ctx) {
      }
    }
  }

  lemma ClockNotes(steps: seq<Step>)
    ensures Notes(ClockFacts(steps))
  {
    hide CreatedBy, ReadBy;
  }

  /** After every run each cached trace carries the clock readings of the steps that made it and
      filled it. */
  lemma ArrivalsAreReadings(capacity: nat, steps: seq<Step>, s: State, rule: (State, Step) -> bool)
    requires Run(Initial(capacity), steps, s, rule)
    ensures forall k :: 0 <= k < |s.cache.slots| && s.cache.slots[k].Some? ==> Clocked(s.cache.slots[k].value, steps)
  {
    hide Run, Clocked, Obliged;
    var f := ClockFacts(steps);
    RunAmong(Initial(capacity), steps, s, rule, steps);
    forall u, step | Enabled(u, step) && AmongOf(steps)(u, step) && Hold(f, u) ensures Obliged(f, u, step) {
      ClockObliged(steps, u, step);
    }
    assert forall t :: f.trace(t) ==> !t.sent by { ClockedUnsent(steps); }
    RunFacts(f, Initial(capacity), steps, s, AmongOf(steps));
    forall k | 0 <= k < |s.cache.slots| && s.cache.slots[k].Some? ensures Clocked(s.cache.slots[k].value, steps) {
      assert f.trace(s.cache.slots[k].value);
    }
  }

  lemma ClockedUnsent(steps: seq<Step>)
    ensures forall t :: Clocked(t, steps) ==> !t.sent
  {
  }

  /******* Sizes *******/

  /** The bytes of data in a list of spans, whatever was noted of them. */
  ghost function DataIn(spans: seq<Span>): nat {
    if spans == [] then 0 else DataIn(spans[..|spans| - 1]) + DataSizeOf(spans[|spans| - 1].data)
  }

  /** The noted sizes are the sizes of the data, and the trace's is their sum. */
  ghost predicate Sized(t: Trace) {
    && !t.sent && t.dataSize == DataIn(t.spans)
    && forall i :: 0 <= i < |t.spans| ==> t.spans[i].dataSize == DataSizeOf(t.spans[i].data)
  }

  ghost function SizeFacts(): Facts {
    Facts(t => Sized(t), r => true, (ds, o) => true)
  }

  lemma DataInPush(spans: seq<Span>, sp: Span)
    ensures DataIn(spans + [sp]) == DataIn(spans) + DataSizeOf(sp.data) && DataIn([]) == 0
  {
    assert (spans + [sp])[..|spans|] == spans;
  }

  lemma SizeObliged(s: State, step: Step)
    requires Enabled(s, step)
    ensures Obliged(SizeFacts(), s, step)
  {
    hide Enabled, LateOutcome, DataIn, DataSizeOf;
    var f := SizeFacts();
    assert Notes(f);
    if step.Process? {
      var a, cfg := step.arrival, step.ctx.cfg;
      forall t, sp: Span | f.trace(t) && sp.traceID == t.traceID ensures f.trace(Extended(t, sp, a, cfg)) {
        ExtendedGrows(t, sp, a, cfg);
        DataInPush(t.spans, Arrived(sp, a));
      }
      forall n: nat, sp: Span ensures f.trace(Extended(NewTrace(n, sp, a, cfg), sp, a, cfg)) {
        NewTraceMade(n, sp, a, cfg);
        DataInPush([], Arrived(sp, a));
        assert [] + [Arrived(sp, a)] == [Arrived(sp, a)];
      }
    }
    if !step.Enqueue? {
      forall t, ds | f.trace(t) ensures DecidesOne(f, t, ds, step.ctx) {
      }
    }
  }

  /** After every run the size of each cached trace is the size of the data of its spans. */
  lemma SizesAddUp(capacity: nat, steps: seq<Step>, s: State, rule: (State, Step) -> bool)
    requires Run(Initial(capacity), steps, s, rule)
    ensures forall k :: 0 <= k < |s.cache.slots| && s.cache.slots[k].Some? ==> Sized(s.cache.slots[k].value)
  {
    hide Run, Sized, Obliged;
    var f := SizeFacts();
    forall u, step | Enabled(u, step) && rule(u, step) && Hold(f, u) ensures Obliged(f, u, step) {
      SizeObliged(u, step);
    }
    assert forall t :: f.trace(t) ==> !t.sent by { SizedUnsent(); }
    RunFacts(f, Initial(capacity), steps, s, rule);
    forall k | 0 <= k < |s.cache.slots| && s.cache.slots[k].Some? ensures Sized(s.cache.slots[k].value) {
      assert f.trace(s.cache.slots[k].value);
    }
  }

  lemma SizedUnsent()
    ensures forall t :: Sized(t) ==> !t.sent
  {
  }

  ghost function DataOf(ts: seq<Trace>): nat {
    if ts == [] then 0 else DataOf(ts[..|ts| - 1]) + DataIn(ts[|ts| - 1].spans)
  }

  /** So what the eviction loop adds up is data. */
  lemma {:induction false} WeightIsData(ts: seq<Trace>)
    requires forall i :: 0 <= i < |ts| ==> Sized(ts[i])
    ensures Weight(ts) == DataOf(ts)
  {
    if ts != [] { WeightIsData(ts[..|ts| - 1]); }
  }

  /** A number as a signed 64-bit integer. */
  predicate Signed64(x: nat, y: int) {
    -0x8000_0000_0000_0000 <= y < 0x8000_0000_0000_0000 && (x - y) % 0x1_0000_0000_0000_0000 == 0
  }

  lemma AsInt64IsSigned(x: nat)
    requires x < 0x1_0000_0000_0000_0000
    ensures Signed64(x, AsInt64(x)) && (x < 0x8000_0000_0000_0000 ==> AsInt64(x) == x)
    ensures forall y :: Signed64(x, y) ==> y == AsInt64(x)
  {
  }

  /******* Impact eviction *******/

  /** Memory is at or over the limit that is set. */
  predicate OverLimit(cfg: Config, mem: nat) {
    cfg.capacityKnown && cfg.maxAlloc != 0 && mem >= cfg.maxAlloc
  }

  lemma OrderSized(s: State, r: Reading, timeout: int, x: Trace)
    requires timeout != 0 && multiset(r.order) == multiset(Items(MemoSlots(s.cache.slots, r.clock, timeout)))
    requires forall k :: 0 <= k < |s.cache.slots| && s.cache.slots[k].Some? ==> Sized(s.cache.slots[k].value)
    requires x in r.order
    ensures Sized(x)
  {
    hide Items, DataIn, MemoSlots, Impact;
    var memo := Items(MemoSlots(s.cache.slots, r.clock, timeout));
    ItemsMemo(s.cache.slots, r.clock, timeout);
    assert x in multiset(memo);
    var i :| 0 <= i < |memo| && memo[i] == x;
    ItemsMember(s.cache.slots, Cached(s)[i]);
    var k :| 0 <= k < |s.cache.slots| && s.cache.slots[k] == Some(Cached(s)[i]);
  }

  /** Over the limit, impact eviction stops as soon as the data it sent outweighs the overage, read
      as a signed 64-bit number, and not before; it always sends something. */
  lemma EvictsByData(s: State, r: Reading, ctx: Context, over: int)
    requires Inv(s) && ctx.cfg.byImpact && OverLimit(ctx.cfg, r.mem) && AllocInputs(s, r, ctx.cfg) && InImpactOrder(s, r)
    requires forall k :: 0 <= k < |s.cache.slots| && s.cache.slots[k].Some? ==> Sized(s.cache.slots[k].value)
    requires r.mem - ctx.cfg.maxAlloc < 0x1_0000_0000_0000_0000 && Signed64(r.mem - ctx.cfg.maxAlloc, over)
    ensures r.cut <= |r.order| && (Cached(s) != [] ==> 0 < r.cut)
    ensures DataOf(r.order[..r.cut]) > over || Cached(CheckAlloc(s, r, ctx)) == []
    ensures forall k :: 0 < k < r.cut ==> DataOf(r.order[..k]) <= over
  {
    hide Items, DataOf, MemoSlots, Sized, Holding, InImpactOrder;
    hide CheckAlloc, SortedByImpact, E.SplitOf, E.Weighed;
    E.EvictsHeaviest(s, r, ctx);
    AsInt64IsSigned(r.mem - ctx.cfg.maxAlloc);
    forall k | 0 <= k <= r.cut ensures Weight(r.order[..k]) == DataOf(r.order[..k]) {
      forall i | 0 <= i < k ensures Sized(r.order[..k][i]) {
        OrderSized(s, r, ctx.cfg.Timeout(), r.order[i]);
      }
      WeightIsData(r.order[..k]);
    }
  }

  /** A heavier trace goes first. */
  lemma HeavierGoesFirst(order: seq<Trace>, cut: nat, x: Trace, y: Trace)
    requires SortedByImpact(order) && cut <= |order| && x in order && y in order[..cut] && x.totalImpact > y.totalImpact
    ensures x in order[..cut]
  {
    var i :| 0 <= i < |order| && order[i] == x;
    var j :| 0 <= j < cut && order[..cut][j] == y;
    assert i < j;
    assert order[..cut][i] == x;
  }

  /** Of two cached traces with spans of the same sizes, the one that is older, span by span, by a
      quarter of the timeout when asked is evicted before the other. */
  lemma OlderGoesFirst(s: State, r: Reading, ctx: Context, i: nat, j: nat)
    requires ctx.cfg.byImpact && OverLimit(ctx.cfg, r.mem) && AllocInputs(s, r, ctx.cfg) && InImpactOrder(s, r)
    requires i < |Cached(s)| && j < |Cached(s)| && |Cached(s)| > 1
    requires r.clock(Cached(s)[i].traceID).Some? && r.clock(Cached(s)[j].traceID).Some?
    requires var a, b, timeout := Cached(s)[i], Cached(s)[j], ctx.cfg.Timeout();
             var atA, atB := r.clock(a.traceID).value, r.clock(b.traceID).value;
             && timeout > 0 && a.totalImpact == 0 && b.totalImpact == 0 && |a.spans| == |b.spans| && TotalSize(b.spans) > 0
             && forall k :: 0 <= k < |a.spans| ==>
                  && a.spans[k].dataSize == b.spans[k].dataSize && b.spans[k].arrivalTime <= atB(k)
                  && 4 * ((atA(k) - a.spans[k].arrivalTime) - (atB(k) - b.spans[k].arrivalTime)) >= timeout
    ensures r.cut <= |r.order|
    ensures var a, b, timeout := Cached(s)[i], Cached(s)[j], ctx.cfg.Timeout();
            Asked(b, r.clock(b.traceID), timeout) in r.order[..r.cut] ==> Asked(a, r.clock(a.traceID), timeout) in r.order[..r.cut]
  {
    hide Items, MemoSlots, SortedByImpact, TotalSize, SpansImpact;
    var a, b, timeout := Cached(s)[i], Cached(s)[j], ctx.cfg.Timeout();
    var atA, atB := r.clock(a.traceID).value, r.clock(b.traceID).value;
    OlderSpansWeighMore(a.spans, atA, b.spans, atB, timeout);
    var memo := Items(MemoSlots(s.cache.slots, r.clock, timeout));
    ItemsMemo(s.cache.slots, r.clock, timeout);
    assert memo[i] in multiset(r.order);
    if memo[j] in r.order[..r.cut] { HeavierGoesFirst(r.order, r.cut, memo[i], memo[j]); }
  }
}
