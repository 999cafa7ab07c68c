/** The collector together with the legacy sent cache: Check is asked only for spans whose
    trace is not cached, and every decision is Recorded. The pair answers truthfully, so what
    is proved for truthful sent caches holds for it outright. */
module LegacyCollector {
  import opened Events
  import opened Ring
  import opened CollectorModel
  import opened CollectorHistory
  import opened CollectorTheorems
  import L = LegacySent

  /** The collector, and everything its sent cache was asked to do so far. */
  datatype Both = Both(s: State, ops: seq<L.Op>)

  function Memory(b: Both, capacity: nat): L.Lru {
    L.After([], capacity, b.ops)
  }

  ghost function Start(capacity: nat): Both {
    Both(Initial(capacity), [])
  }

  function EntryOf(r: Record): L.Entry {
    L.Entry(r.traceID, r.keep, r.rate, r.count)
  }

  function RecordOps(rs: seq<Record>): seq<L.Op> {
    seq(|rs|, i requires 0 <= i < |rs| => L.Record(EntryOf(rs[i])))
  }

  function Answer(l: L.Lru, id: string): Option<SentRecord> {
    if L.Has(l, id) then
      var e := L.Hit(l, id)[|L.Hit(l, id)| - 1];
      Some(SentRecord(e.keep, e.rate, e.count))
    else None
  }

  /** processSpan asks the sent cache only when the trace is not in the cache. */
  ghost predicate Consults(s: State, step: Step)
    requires Enabled(s, step)
  {
    step.Process? && Find(s.cache.slots, Head(s, step.peer).traceID).None?
  }

  /** The answer a step works with is the one the LRU gives. */
  ghost predicate Answered(b: Both, capacity: nat, step: Step)
    requires Enabled(b.s, step)
  {
    step.Process? ==>
      step.arrival.answer
      == if Consults(b.s, step) then Answer(Memory(b, capacity), Head(b.s, step.peer).traceID) else None
  }

  lemma DecisionsGrow(s: State, step: Step)
    requires Enabled(s, step)
    ensures s.decisions <= Apply(s, step).decisions
  {
    hide SendAll, Items;
    match step
    case Enqueue(_, _) =>
    case Process(peer, a, ctx) =>
      var s1 := if peer then s.(fromPeer := s.fromPeer[1..]) else s.(incoming := s.incoming[1..]);
      var t := NewTrace(s1.nextSerial, Head(s, peer), a, ctx.cfg);
      SendAllFrame(s1.(cache := s1.cache.Put(t), nextSerial := s1.nextSerial + 1), Victim(s1.cache), ctx);
    case Tick(r, ctx) =>
      var mask := ExpiredMask(s.cache.slots, r.now);
      SendAllFrame(s.(cache := s.cache.(slots := Without(s.cache.slots, mask))), Items(Only(s.cache.slots, mask)), ctx);
      AllocGrows(SendExpired(s, r.now, ctx), r, ctx);
    case Reconfigure(ctx) =>
      var all, cap := Items(s.cache.slots), ctx.cfg.capacity;
      var fit := if cap < |all| then cap else |all|;
      SendAllFrame(s.(cache := PutAll(Empty(cap), all[..fit])), all[fit..], ctx);
  }

  lemma AllocGrows(s: State, r: Reading, ctx: Context)
    requires AllocInputs(s, r, ctx.cfg)
    ensures s.decisions <= CheckAlloc(s, r, ctx).decisions
  {
    hide SendAll, Items;
    if ctx.cfg.byImpact && Over(ctx.cfg, r.mem) {
      var memo := MemoSlots(s.cache.slots, r.clock, ctx.cfg.Timeout());
      SendAllFrame(s.(cache := s.cache.(slots := Without(memo, IdMask(memo, IdsOf(r.order[..r.cut]))))),
                   r.order[..r.cut], ctx);
    } else if !ctx.cfg.byImpact && Shrinks(s, ctx.cfg, r.mem) {
      var n := |r.order|;
      var newCap := 9 * n / 10;
      SendAllFrame(s.(cache := PutAll(Empty(newCap), r.order[n - newCap..])), r.order[..n - newCap], ctx);
    }
  }

  ghost function Next(b: Both, step: Step): Both
    requires Enabled(b.s, step)
  {
    DecisionsGrow(b.s, step);
    var s' := Apply(b.s, step);
    var asked := if Consults(b.s, step) then [L.Check(Head(b.s, step.peer).traceID)] else [];
    Both(s', b.ops + asked + RecordOps(s'.decisions[|b.s.decisions|..]))
  }

  ghost predicate LegacyRun(b: Both, capacity: nat, steps: seq<Step>, b': Both, rule: (State, Step) -> bool)
    decreases |steps|
  {
    if steps == [] then b' == b
    else
      && Enabled(b.s, steps[0]) && rule(b.s, steps[0]) && Answered(b, capacity, steps[0])
      && LegacyRun(Next(b, steps[0]), capacity, steps[1..], b', rule)
  }

  /******* What was recorded is what was decided *******/

  /** The Records among the operations are the decisions, in order. */
  ghost predicate Logged(ops: seq<L.Op>, ds: seq<Record>) {
    if ops == [] then ds == []
    else
      match ops[|ops| - 1]
      case Record(e) => ds != [] && EntryOf(ds[|ds| - 1]) == e && Logged(ops[..|ops| - 1], ds[..|ds| - 1])
      case Check(_) => Logged(ops[..|ops| - 1], ds)
  }

  lemma LoggedCheck(ops: seq<L.Op>, ds: seq<Record>, id: string)
    requires Logged(ops, ds)
    ensures Logged(ops + [L.Check(id)], ds)
  {
    assert (ops + [L.Check(id)])[..|ops|] == ops;
  }

  lemma LoggedRecord(ops: seq<L.Op>, ds: seq<Record>, r: Record)
    requires Logged(ops, ds)
    ensures Logged(ops + [L.Record(EntryOf(r))], ds + [r])
  {
    assert (ops + [L.Record(EntryOf(r))])[..|ops|] == ops && (ds + [r])[..|ds|] == ds;
  }

  lemma {:induction false} LoggedRecords(ops: seq<L.Op>, ds: seq<Record>, rs: seq<Record>)
    requires Logged(ops, ds)
    ensures Logged(ops + RecordOps(rs), ds + rs)
  {
    if rs == [] {
      assert ops + RecordOps(rs) == ops && ds + rs == ds;
    } else {
      var front, r := rs[..|rs| - 1], rs[|rs| - 1];
      LoggedRecords(ops, ds, front);
      LoggedRecord(ops + RecordOps(front), ds + front, r);
      assert ops + RecordOps(rs) == ops + RecordOps(front) + [L.Record(EntryOf(r))];
      assert ds + rs == ds + front + [r];
    }
  }

  lemma NextLogged(b: Both, step: Step)
    requires Enabled(b.s, step) && Logged(b.ops, b.s.decisions)
    ensures Logged(Next(b, step).ops, Next(b, step).s.decisions)
  {
    hide Logged, Apply;
    DecisionsGrow(b.s, step);
    var ds := Apply(b.s, step).decisions;
    var more := ds[|b.s.decisions|..];
    assert ds == b.s.decisions + more;
    if Consults(b.s, step) {
      var id := Head(b.s, step.peer).traceID;
      LoggedCheck(b.ops, b.s.decisions, id);
      LoggedRecords(b.ops + [L.Check(id)], b.s.decisions, more);
    } else {
      LoggedRecords(b.ops, b.s.decisions, more);
      assert b.ops + [] == b.ops;
    }
  }

  lemma {:induction false} RunLogged(b: Both, capacity: nat, steps: seq<Step>, b': Both, rule: (State, Step) -> bool)
    requires LegacyRun(b, capacity, steps, b', rule) && Logged(b.ops, b.s.decisions)
    ensures Logged(b'.ops, b'.s.decisions)
    decreases |steps|
  {
    hide Logged, Apply, Enabled, Answered, Next;
    if steps != [] {
      NextLogged(b, steps[0]);
      RunLogged(Next(b, steps[0]), capacity, steps[1..], b', rule);
    }
  }

  /** The IDs the sent cache was asked for, in order. */
  ghost function ChecksOf(ops: seq<L.Op>): seq<string> {
    if ops == [] then []
    else
      var last := ops[|ops| - 1];
      ChecksOf(ops[..|ops| - 1]) + (if last.Check? then [last.id] else [])
  }

  /** The trace IDs of the spans that were processed while no trace of theirs was cached. */
  ghost function Uncached(s: State, steps: seq<Step>): seq<string>
    decreases |steps|
  {
    if steps == [] || !Enabled(s, steps[0]) then []
    else
      (if steps[0].Process? && NotCached(s, Head(s, steps[0].peer).traceID) then [Head(s, steps[0].peer).traceID] else [])
      + Uncached(Apply(s, steps[0]), steps[1..])
  }

  ghost predicate NotCached(s: State, id: string) {
    forall k :: 0 <= k < |s.cache.slots| && s.cache.slots[k].Some? ==> s.cache.slots[k].value.traceID != id
  }

  lemma {:induction false} ChecksConcat(a: seq<L.Op>, b: seq<L.Op>)
    ensures ChecksOf(a + b) == ChecksOf(a) + ChecksOf(b)
  {
    if b == [] {
      assert a + b == a;
    } else {
      assert (a + b)[..|a + b| - 1] == a + b[..|b| - 1];
      ChecksConcat(a, b[..|b| - 1]);
    }
  }

  lemma {:induction false} RecordsCheckNothing(rs: seq<Record>)
    ensures ChecksOf(RecordOps(rs)) == []
  {
    if rs != [] {
      assert RecordOps(rs)[..|rs| - 1] == RecordOps(rs[..|rs| - 1]);
      RecordsCheckNothing(rs[..|rs| - 1]);
    }
  }

  lemma NextChecks(b: Both, step: Step)
    requires Enabled(b.s, step)
    ensures ChecksOf(Next(b, step).ops)
            == ChecksOf(b.ops) + (if step.Process? && NotCached(b.s, Head(b.s, step.peer).traceID)
                                  then [Head(b.s, step.peer).traceID] else [])
  {
    hide Apply;
    DecisionsGrow(b.s, step);
    var more := Apply(b.s, step).decisions[|b.s.decisions|..];
    var asked := if Consults(b.s, step) then [L.Check(Head(b.s, step.peer).traceID)] else [];
    ChecksConcat(b.ops + asked, RecordOps(more));
    ChecksConcat(b.ops, asked);
    RecordsCheckNothing(more);
    if asked != [] { assert asked[..0] == []; }
  }

  /** Over every run the sent cache is asked exactly for the spans whose trace is not cached. */
  lemma {:induction false} ChecksAreUncached(b: Both, capacity: nat, steps: seq<Step>, b': Both, rule: (State, Step) -> bool)
    requires LegacyRun(b, capacity, steps, b', rule)
    ensures ChecksOf(b'.ops) == ChecksOf(b.ops) + Uncached(b.s, steps)
    decreases |steps|
  {
    hide Apply, Enabled, Answered, ChecksOf, NotCached;
    if steps != [] {
      NextChecks(b, steps[0]);
      ChecksAreUncached(Next(b, steps[0]), capacity, steps[1..], b', rule);
    }
  }

  /** The last decision for an ID. */
  ghost predicate LastFor(ds: seq<Record>, id: string, i: nat) {
    i < |ds| && ds[i].traceID == id && forall k :: i < k < |ds| ==> ds[k].traceID != id
  }

  ghost predicate NeverDecided(ds: seq<Record>, id: string) {
    forall i :: 0 <= i < |ds| ==> ds[i].traceID != id
  }

  ghost predicate NoRecord(ops: seq<L.Op>, id: string) {
    forall i :: 0 <= i < |ops| && ops[i].Record? ==> ops[i].e.id != id
  }

  lemma {:induction false} NoneLogged(ops: seq<L.Op>, ds: seq<Record>, id: string)
    requires Logged(ops, ds) && NeverDecided(ds, id)
    ensures NoRecord(ops, id)
  {
    if ops != [] {
      var n := |ops| - 1;
      NoneLogged(ops[..n], if ops[n].Record? then ds[..|ds| - 1] else ds, id);
      assert forall i :: 0 <= i < n ==> ops[..n][i] == ops[i];
    }
  }

  lemma {:induction false} LastLogged(ops: seq<L.Op>, ds: seq<Record>, id: string) returns (i: nat, k: nat)
    requires Logged(ops, ds) && !NeverDecided(ds, id)
    ensures LastFor(ds, id, i) && k < |ops| && ops[k] == L.Record(EntryOf(ds[i])) && NoRecord(ops[k + 1..], id)
  {
    var n := |ops| - 1;
    if ops[n].Record? && ops[n].e.id == id {
      i, k := |ds| - 1, n;
    } else {
      var shorter := if ops[n].Record? then ds[..|ds| - 1] else ds;
      i, k := LastLogged(ops[..n], shorter, id);
      assert ops[k + 1..] == ops[..n][k + 1..] + [ops[n]];
    }
  }

  /******* Late spans *******/

  lemma {:induction false} NothingFits(ops: seq<L.Op>)
    ensures L.After([], 0, ops) == []
  {
    if ops != [] { NothingFits(ops[..|ops| - 1]); }
  }

  lemma {:induction false} UnrecordedUnknown(ops: seq<L.Op>, capacity: nat, id: string)
    requires NoRecord(ops, id)
    ensures !L.Has(L.After([], capacity, ops), id)
  {
    if capacity == 0 {
      NothingFits(ops);
    } else if L.Has(L.After([], capacity, ops), id) {
      L.OnlyRecorded(capacity, ops, L.Find(L.After([], capacity, ops), id).value);
    }
  }

  lemma HitAnswers(l: L.Lru, id: string)
    requires L.Has(l, id)
    ensures var e := l[L.Find(l, id).value];
            Answer(l, id) == Some(SentRecord(e.keep, e.rate, e.count + 1))
  {
  }

  /** What the sent cache has seen since the last decision for an ID was recorded: the other IDs
      it used, and how often it found this one. */
  ghost function Since(b: Both, capacity: nat, k: nat): L.Since
    requires k < |b.ops| && b.ops[k].Record?
  {
    L.Track(L.After([], capacity, b.ops[..k + 1]), capacity, b.ops[k].e.id, b.ops[k + 1..])
  }

  /** The answer for a trace ID after any run: the last decision, with the spans counted since, if
      fewer other IDs were used since than the cache holds; and otherwise nothing. */
  lemma AnswerIsLast(b: Both, capacity: nat, id: string) returns (i: nat, k: nat)
    requires capacity > 0 && Logged(b.ops, b.s.decisions) && !NeverDecided(b.s.decisions, id)
    ensures LastFor(b.s.decisions, id, i)
    ensures k < |b.ops| && b.ops[k] == L.Record(EntryOf(b.s.decisions[i])) && NoRecord(b.ops[k + 1..], id)
    ensures var r := b.s.decisions[i];
            var since := Since(b, capacity, k);
            Answer(Memory(b, capacity), id)
            == if |since.others| < capacity then Some(SentRecord(r.keep, r.rate, r.count + since.hits + 1)) else None
  {
    hide L.After, L.Track, Logged;
    i, k := LastLogged(b.ops, b.s.decisions, id);
    var e := EntryOf(b.s.decisions[i]);
    assert b.ops[..k] + [L.Record(e)] == b.ops[..k + 1];
    assert b.ops[..k + 1] + b.ops[k + 1..] == b.ops;
    L.RememberedIff(capacity, b.ops[..k], e, b.ops[k + 1..]);
    var l := Memory(b, capacity);
    if L.Has(l, id) { HitAnswers(l, id); }
  }

  /** The state with the span taken from its queue. */
  ghost function Taken(s: State, peer: bool): State
    requires (if peer then s.fromPeer else s.incoming) != []
  {
    if peer then s.(fromPeer := s.fromPeer[1..]) else s.(incoming := s.incoming[1..])
  }

  /** Late spans obey the last decision. After any run, under any sampler, a span whose trace is
      not cached but was decided: if fewer other IDs than the cache holds were recorded or found
      since that last decision was made or found, the span is settled by it, and counted; if
      not, it starts a new trace. */
  lemma LateSpansObey(capacity: nat, sentCapacity: nat, steps: seq<Step>, b: Both, rule: (State, Step) -> bool, step: Step)
    returns (i: nat, k: nat)
    requires sentCapacity > 0 && LegacyRun(Start(capacity), sentCapacity, steps, b, rule)
    requires Enabled(b.s, step) && Consults(b.s, step) && Answered(b, sentCapacity, step)
    requires !NeverDecided(b.s.decisions, Head(b.s, step.peer).traceID)
    ensures LastFor(b.s.decisions, Head(b.s, step.peer).traceID, i)
    ensures k < |b.ops| && b.ops[k] == L.Record(EntryOf(b.s.decisions[i]))
            && NoRecord(b.ops[k + 1..], Head(b.s, step.peer).traceID)
    ensures var sp, r := Head(b.s, step.peer), b.s.decisions[i];
            var since := Since(b, sentCapacity, k);
            if |since.others| < sentCapacity then
              Apply(b.s, step)
              == DealWithSent(Taken(b.s, step.peer), SentRecord(r.keep, r.rate, r.count + since.hits + 1), sp, step.ctx.cfg)
            else
              var s1 := Create(Taken(b.s, step.peer), sp, step.arrival, step.ctx);
              && step.arrival.answer.None?
              && b.s.cache.Spot() < |s1.cache.slots| && s1.cache.slots[b.s.cache.Spot()].Some?
              && Apply(b.s, step) == Attach(s1, b.s.cache.Spot(), sp, step.arrival, step.ctx)
  {
    hide Run, LegacyRun, Logged, Attach, DealWithSent, SendAll, NewTrace, L.After, L.Track;
    var s0, sp := Taken(b.s, step.peer), Head(b.s, step.peer);
    SendAllFrame(s0.(cache := s0.cache.Put(NewTrace(s0.nextSerial, sp, step.arrival, step.ctx.cfg)),
                     nextSerial := s0.nextSerial + 1),
                 Victim(s0.cache), step.ctx);
    StartLogged(capacity);
    RunLogged(Start(capacity), sentCapacity, steps, b, rule);
    i, k := AnswerIsLast(b, sentCapacity, Head(b.s, step.peer).traceID);
  }

  lemma StartLogged(capacity: nat)
    ensures Logged(Start(capacity).ops, Start(capacity).s.decisions)
  {
  }

  /** So a remembered drop drops the late span, outside dry run. */
  lemma LateDropObeyed(capacity: nat, sentCapacity: nat, steps: seq<Step>, b: Both, rule: (State, Step) -> bool, step: Step)
    returns (i: nat, k: nat)
    requires sentCapacity > 0 && LegacyRun(Start(capacity), sentCapacity, steps, b, rule)
    requires Enabled(b.s, step) && Consults(b.s, step) && Answered(b, sentCapacity, step) && !step.ctx.cfg.dryRun
    requires !NeverDecided(b.s.decisions, Head(b.s, step.peer).traceID)
    ensures LastFor(b.s.decisions, Head(b.s, step.peer).traceID, i)
    ensures k < |b.ops| && b.ops[k] == L.Record(EntryOf(b.s.decisions[i]))
    ensures |Since(b, sentCapacity, k).others| < sentCapacity && !b.s.decisions[i].keep ==>
              Apply(b.s, step).outcomes == b.s.outcomes + [Dropped(Head(b.s, step.peer), b.s.decisions[i].rate, None)]
  {
    hide LegacyRun, NoRecord, L.Track, L.After, Apply, Enabled, Answered, Consults;
    i, k := LateSpansObey(capacity, sentCapacity, steps, b, rule, step);
  }

  /******* The cache is truthful *******/

  /** The answer is the last decision for the trace ID. */
  ghost predicate LatestStep(s: State, step: Step) {
    step.Process? && Enabled(s, step) && step.arrival.answer.Some? ==>
      exists i: nat :: LastFor(s.decisions, Head(s, step.peer).traceID, i)
               && s.decisions[i].keep == step.arrival.answer.value.keep
               && s.decisions[i].rate == step.arrival.answer.value.rate
  }

  lemma LatestIsTruthful(s: State, step: Step)
    requires LatestStep(s, step)
    ensures TruthfulStep(s, step)
  {
    if step.Process? && Enabled(s, step) && step.arrival.answer.Some? {
      var r := step.arrival.answer.value;
      var i: nat :| LastFor(s.decisions, Head(s, step.peer).traceID, i)
                    && s.decisions[i].keep == r.keep && s.decisions[i].rate == r.rate;
    }
  }

  lemma AnswerLatest(b: Both, capacity: nat, step: Step)
    requires Enabled(b.s, step) && Logged(b.ops, b.s.decisions) && Answered(b, capacity, step)
    ensures LatestStep(b.s, step)
  {
    hide Logged, L.After, L.Track;
    if step.Process? && step.arrival.answer.Some? {
      var id := Head(b.s, step.peer).traceID;
      if capacity == 0 {
        NothingFits(b.ops);
      } else if NeverDecided(b.s.decisions, id) {
        NoneLogged(b.ops, b.s.decisions, id);
        UnrecordedUnknown(b.ops, capacity, id);
      } else {
        var i, k := AnswerIsLast(b, capacity, id);
      }
    }
  }

  ghost function AlsoLatest(rule: (State, Step) -> bool): (State, Step) -> bool {
    (s, step) => rule(s, step) && LatestStep(s, step)
  }

  /** A run of collector and legacy cache is a run of the collector in which every answer is the
      last decision recorded for the trace ID. */
  lemma {:induction false} LegacyRunIsTruthful(b: Both, capacity: nat, steps: seq<Step>, b': Both,
                                               rule: (State, Step) -> bool)
    requires LegacyRun(b, capacity, steps, b', rule) && Logged(b.ops, b.s.decisions)
    ensures Run(b.s, steps, b'.s, AlsoLatest(rule))
    decreases |steps|
  {
    hide Logged, Apply, Enabled, Answered, LatestStep;
    if steps != [] {
      AnswerLatest(b, capacity, steps[0]);
      NextLogged(b, steps[0]);
      LegacyRunIsTruthful(Next(b, steps[0]), capacity, steps[1..], b', rule);
    }
  }

  ghost predicate KeepsById(keepOf: string -> bool, s: State, step: Step) {
    step.Enqueue? || (!step.ctx.cfg.dryRun && forall t :: step.ctx.decide(t).keep == keepOf(t.traceID))
  }

  ghost function KeepsByIdOf(keepOf: string -> bool): (State, Step) -> bool {
    (s, step) => KeepsById(keepOf, s, step)
  }

  lemma {:induction false} RunWeaken(s: State, steps: seq<Step>, s': State, strong: (State, Step) -> bool, weak: (State, Step) -> bool)
    requires Run(s, steps, s', strong)
    requires forall u, step :: strong(u, step) ==> weak(u, step)
    ensures Run(s, steps, s', weak)
    decreases |steps|
  {
    hide Apply, Enabled;
    if steps != [] { RunWeaken(Apply(s, steps[0]), steps[1..], s', strong, weak); }
  }

  /** With the legacy cache, a sampler that decides by trace ID and dry run off, all decided
      spans of a trace ID meet one fate, for any capacity of the cache: what is forgotten is
      decided the same way again. */
  lemma LegacyOneFate(keepOf: string -> bool, capacity: nat, sentCapacity: nat, steps: seq<Step>, b: Both)
    requires LegacyRun(Start(capacity), sentCapacity, steps, b, KeepsByIdOf(keepOf))
    ensures forall i :: 0 <= i < |b.s.outcomes| ==>
              (b.s.outcomes[i].Transmitted? <==> keepOf(b.s.outcomes[i].before.traceID))
  {
    hide LatestStep, TruthfulStep;
    var rule := KeepsByIdOf(keepOf);
    LegacyRunIsTruthful(Start(capacity), sentCapacity, steps, b, rule);
    forall u, step | AlsoLatest(rule)(u, step) ensures FateRuleOf(keepOf)(u, step) {
      LatestIsTruthful(u, step);
    }
    RunWeaken(Initial(capacity), steps, b.s, AlsoLatest(rule), FateRuleOf(keepOf));
    OneFatePerTrace(keepOf, capacity, steps, b.s);
  }
}
