/** The collecting goroutine (collect in collect/collect.go): a loop that wakes up, serves
    the peer queue first, and otherwise takes whichever case is ready. What is ready, and
    every reading of a clock, comes from the list of wake-ups.
 */
module CollectorLoop {
  import opened Events
  import opened Ring
  import opened TraceCache
  import opened Collector
  import M = CollectorModel
  import H = CollectorHistory
  import S = CollectorSafety

  datatype Offer = Offer(span: Span, peer: bool)

  datatype Ready =
    | OnTick(now: int, mem: nat, clock: nat -> int)
    | OnIncoming
    | OnReload

  /** Spans offered by the routers, then one turn of the select; all clock readings of the
      turn lie between `start` and `end`. */
  datatype Wake = Wake(start: int, end: int, offers: seq<Offer>, arrival: M.Arrival, ctx: M.Context, ready: Ready)

  /** Weighing a span divides by the trace timeout, so the program needs one. */
  predicate Weighable(w: Wake) {
    w.ready.OnTick? && w.ctx.cfg.byImpact && M.Over(w.ctx.cfg, w.ready.mem) ==> w.ctx.cfg.Timeout() != 0
  }

  /** Time passes, and a trace timeout used to weigh spans is positive. */
  ghost predicate Timely(w: Wake) {
    && w.start <= w.end && w.arrival.added <= w.end
    && (w.ready.OnTick? ==>
          (forall n :: w.start <= w.ready.clock(n)) && (w.ctx.cfg.byImpact ==> w.ctx.cfg.Timeout() > 0))
  }

  ghost predicate InOrder(wakes: seq<Wake>) {
    && (forall i :: 0 <= i < |wakes| ==> Timely(wakes[i]))
    && (forall i, j :: 0 <= i < j < |wakes| ==> wakes[i].end <= wakes[j].start)
  }

  /** Impact evictions take the traces in order of impact. */
  ghost predicate Ordered(s: M.State, step: M.Step) {
    step.Tick? && step.ctx.cfg.byImpact && M.Over(step.ctx.cfg, step.reading.mem) ==>
      M.InImpactOrder(M.SendExpired(s, step.reading.now, step.ctx), step.reading)
  }

  ghost function RuleFor(calm: bool): (M.State, M.Step) -> bool {
    (s, step) => calm ==> Ordered(s, step)
  }

  /******* Spans in the cache arrived in the past *******/

  ghost predicate ArrivedBy(t: Trace, now: int) {
    !t.sent && Elapsed(t, now)
  }

  ghost function ArrivedFacts(now: int): H.Facts {
    H.Facts(t => ArrivedBy(t, now), r => true, (ds, o) => true)
  }

  lemma ArrivalsObliged(s: M.State, step: M.Step, now: int)
    requires M.Enabled(s, step) && (step.Process? ==> step.arrival.added <= now)
    ensures H.Obliged(ArrivedFacts(now), s, step)
  {
    var f := ArrivedFacts(now);
    assert H.Notes(f);
    if step.Process? {
      assert H.Grows(f, step.arrival, step.ctx.cfg);
    }
    if !step.Enqueue? {
      forall t, ds | f.trace(t) ensures H.DecidesOne(f, t, ds, step.ctx) {
      }
    }
  }

  lemma ArrivalsKept(s: M.State, step: M.Step, before: int, now: int)
    requires M.Enabled(s, step) && H.Hold(ArrivedFacts(before), s) && before <= now
    requires step.Process? ==> step.arrival.added <= now
    ensures H.Hold(ArrivedFacts(now), M.Apply(s, step))
  {
    hide M.Enabled, M.Apply;
    ArrivalsObliged(s, step, now);
    H.StepFacts(ArrivedFacts(now), s, step);
  }

  lemma {:induction false} RunSnoc(s: M.State, steps: seq<M.Step>, s1: M.State, step: M.Step, rule: (M.State, M.Step) -> bool)
    requires M.Run(s, steps, s1, rule) && M.Enabled(s1, step) && rule(s1, step)
    ensures M.Run(s, steps + [step], M.Apply(s1, step), rule)
    decreases |steps|
  {
    hide M.Enabled, M.Apply;
    if steps == [] {
      assert ([step])[1..] == [];
      assert M.Run(M.Apply(s1, step), [], M.Apply(s1, step), rule);
    } else {
      RunSnoc(M.Apply(s, steps[0]), steps[1..], s1, step, rule);
      assert (steps + [step])[1..] == steps[1..] + [step];
    }
  }

  /** What `t.View()` of a cached trace shows of the arrivals in the view of the state. */
  lemma CachedElapsed(c: InMemCollector, before: int, clock: nat -> int, timeout: int)
    requires c.Valid() && H.Hold(ArrivedFacts(before), c.View()) && timeout > 0 && forall n :: before <= clock(n)
    ensures c.Timely(clock, timeout)
  {
    forall t | t in c.Traces() ensures Calm(t.View(), clock, timeout) {
      var slots := c.cache.Value().ring.slots;
      var i :| 0 <= i < |slots| && slots[i] == Some(t);
      assert c.View().cache.slots[i] == Some(t.View());
      assert ArrivedBy(t.View(), before);
    }
  }

  /** What a wake-up leads to: the first span from a peer, if there is one; else the case that is
      ready, which does nothing if it is an empty queue. */
  ghost predicate Serves(s: M.State, w: Wake, done: seq<M.Step>) {
    if s.fromPeer != [] then done == [M.Process(true, w.arrival, w.ctx)]
    else
      match w.ready
      case OnTick(now, mem, _) =>
        |done| == 1 && done[0].Tick? && done[0].ctx == w.ctx && done[0].reading.now == now && done[0].reading.mem == mem
      case OnIncoming => done == if s.incoming != [] then [M.Process(false, w.arrival, w.ctx)] else []
      case OnReload => done == [M.Reconfigure(w.ctx)]
  }

  /** One turn of the select: the peer queue first, else the case that is ready. If time passes as
      it should, an eviction is in order of impact. */
  method Turn(c: InMemCollector, w: Wake, ghost before: int, ghost calm: bool) returns (ghost done: seq<M.Step>)
    requires c.Valid() && Weighable(w)
    requires calm ==> Timely(w) && before <= w.start && H.Hold(ArrivedFacts(before), c.View())
    modifies c, c.cache`index, c.cache`insertPoint, c.cache.order, c.Traces()
    ensures c.Valid() && fresh(c.Traces() - old(c.Traces()))
    ensures (c.cache == old(c.cache) && c.cache.order == old(c.cache.order)) || (fresh(c.cache) && fresh(c.cache.order))
    ensures |done| <= 1 && Serves(old(c.View()), w, done)
    ensures done == [] ==> c.View() == old(c.View())
    ensures done != [] ==> M.Enabled(old(c.View()), done[0]) && c.View() == M.Apply(old(c.View()), done[0])
    ensures done != [] && calm ==> Ordered(old(c.View()), done[0])
    ensures done != [] && done[0].Process? && calm ==> done[0].arrival.added <= w.end
  {
    hide M.Apply, M.Reload, InMemCollector.Valid, InMemCollector.View, InMemCollector.Traces, H.Hold, M.AllocInputs,
         M.SendExpired, M.InImpactOrder, InMemCollector.Timely;
    c.Parts();
    c.Fields();
    if |c.fromPeer| > 0 {
      c.TakeSpan(true, w.arrival, w.ctx);
      done := [M.Process(true, w.arrival, w.ctx)];
      return;
    }
    match w.ready
    case OnTick(now, mem, clock) =>
      if calm && w.ctx.cfg.byImpact { CachedElapsed(c, before, clock, w.ctx.cfg.Timeout()); }
      ghost var r := c.Tick(now, mem, clock, w.ctx);
      done := [M.Tick(r, w.ctx)];
    case OnIncoming =>
      done := [];
      if |c.incoming| > 0 {
        c.TakeSpan(false, w.arrival, w.ctx);
        done := [M.Process(false, w.arrival, w.ctx)];
      }
    case OnReload =>
      ReloadStep(c.View(), w.ctx);
      c.ReloadConfigs(w.ctx);
      done := [M.Reconfigure(w.ctx)];
  }

  lemma ReloadStep(s: M.State, ctx: M.Context)
    requires s.cache.Valid()
    ensures M.Enabled(s, M.Reconfigure(ctx)) && M.Apply(s, M.Reconfigure(ctx)) == M.Reload(s, ctx)
  {
    hide M.Reload;
  }

  lemma AcceptStep(s: M.State, sp: Span, peer: bool)
    requires s.cache.Valid()
    ensures M.Enabled(s, M.Enqueue(sp, peer)) && M.Apply(s, M.Enqueue(sp, peer)) == M.Accept(s, sp, peer)
  {
  }

  function Offers(offers: seq<Offer>): seq<M.Step> {
    seq(|offers|, i requires 0 <= i < |offers| => M.Enqueue(offers[i].span, offers[i].peer))
  }

  /** The steps of a run follow the wake-ups: for each one its offers, in order, and then what it
      leads to in the state reached by then. */
  ghost predicate Follows(s0: M.State, wakes: seq<Wake>, steps: seq<M.Step>)
    decreases |wakes|
  {
    if wakes == [] then steps == []
    else
      var earlier, w := wakes[..|wakes| - 1], wakes[|wakes| - 1];
      exists front, s ::
        && Reached(s0, front + Offers(w.offers), s) && Follows(s0, earlier, front)
        && front + Offers(w.offers) <= steps && Serves(s, w, steps[|front| + |w.offers|..])
  }

  ghost predicate Reached(s0: M.State, steps: seq<M.Step>, s: M.State) {
    exists rule :: M.Run(s0, steps, s, rule)
  }

  /** The routers' AddSpan calls. */
  method OfferAll(c: InMemCollector, offers: seq<Offer>, ghost s0: M.State, ghost before: seq<M.Step>, ghost time: int,
                  ghost calm: bool)
    returns (ghost steps: seq<M.Step>)
    requires c.Valid() && M.Run(s0, before, c.View(), RuleFor(calm)) && (calm ==> H.Hold(ArrivedFacts(time), c.View()))
    modifies c`incoming, c`fromPeer, c`accepted
    ensures c.Valid() && M.Run(s0, steps, c.View(), RuleFor(calm)) && (calm ==> H.Hold(ArrivedFacts(time), c.View()))
    ensures c.Traces() == old(c.Traces()) && steps == before + Offers(offers)
  {
    hide M.Apply, M.Run, M.Enabled, InMemCollector.Valid, InMemCollector.View, InMemCollector.Traces, H.Hold, M.Accept;
    steps := before;
    for j := 0 to |offers|
      invariant c.Valid() && c.Traces() == old(c.Traces()) && steps == before + Offers(offers[..j])
      invariant M.Run(s0, steps, c.View(), RuleFor(calm)) && (calm ==> H.Hold(ArrivedFacts(time), c.View()))
    {
      ghost var s, step := c.View(), M.Enqueue(offers[j].span, offers[j].peer);
      c.Parts();
      AcceptStep(s, offers[j].span, offers[j].peer);
      if calm { ArrivalsKept(s, step, time, time); }
      RunSnoc(s0, steps, s, step, RuleFor(calm));
      var _ := c.Add(offers[j].span, offers[j].peer);
      steps := steps + [step];
      assert Offers(offers[..j + 1]) == Offers(offers[..j]) + [step];
    }
    assert offers[..|offers|] == offers;
  }

  /** The collector: started with `capacity`, and woken as `wakes` says. Whatever is offered
      and becomes ready, it makes a run of the model; and if the wake-ups are in order of time
      every impact eviction of the run is in order of impact. */
  method Collect(capacity: nat, wakes: seq<Wake>) returns (c: InMemCollector, ghost steps: seq<M.Step>)
    requires forall i :: 0 <= i < |wakes| ==> Weighable(wakes[i])
    ensures c.Valid() && M.Run(M.Initial(capacity), steps, c.View(), RuleFor(InOrder(wakes)))
    ensures S.Inv(c.View()) && Follows(M.Initial(capacity), wakes, steps)
  {
    hide M.Apply, M.Run, M.Enabled, InMemCollector.Valid, InMemCollector.View, H.Hold, S.Holding, Ordered, Weighable,
         Follows, Serves, Offers;
    c := new InMemCollector(capacity);
    steps := [];
    ghost var s0, calm := M.Initial(capacity), InOrder(wakes);
    ghost var time := if |wakes| > 0 then wakes[0].start else 0;
    Started(capacity, time, calm);
    assert Follows(s0, wakes[..0], []) by { NothingFollows(s0); }
    c.NoTraces(capacity);
    for i := 0 to |wakes|
      invariant c.Valid() && fresh(c) && fresh(c.cache) && fresh(c.cache.order) && fresh(c.Traces())
      invariant M.Run(s0, steps, c.View(), RuleFor(calm)) && Follows(s0, wakes[..i], steps)
      invariant calm ==> H.Hold(ArrivedFacts(time), c.View())
      invariant calm && i < |wakes| ==> time <= wakes[i].start
    {
      var w := wakes[i];
      ghost var front := steps;
      steps := OfferAll(c, w.offers, s0, steps, time, calm);
      ghost var s, held := c.View(), c.Traces();
      ghost var done := Turn(c, w, time, calm);
      OneMore(s0, wakes, i, front, done, s, RuleFor(calm));
      assert fresh(held);
      assert forall t: LiveTrace :: t in c.Traces() - held ==> !old(allocated(t));
      assert c.Traces() <= held + (c.Traces() - held);
      if done != [] {
        if calm { ArrivalsKept(s, done[0], time, w.end); }
        RunSnoc(s0, steps, s, done[0], RuleFor(calm));
        steps := steps + done;
        assert done == [done[0]];
      } else {
        assert steps + done == steps;
        if calm { LaterStill(s, time, w.end); }
      }
      time := w.end;
    }
    assert wakes[..|wakes|] == wakes;
    S.InitialHolds(capacity);
    S.RunKeeps(s0, steps, c.View(), RuleFor(calm));
  }

  lemma OneMore(s0: M.State, wakes: seq<Wake>, i: nat, front: seq<M.Step>, done: seq<M.Step>, s: M.State,
                rule: (M.State, M.Step) -> bool)
    requires i < |wakes| && Follows(s0, wakes[..i], front)
    requires M.Run(s0, front + Offers(wakes[i].offers), s, rule) && Serves(s, wakes[i], done)
    ensures Follows(s0, wakes[..i + 1], front + Offers(wakes[i].offers) + done)
  {
    hide M.Run, Serves;
    var w := wakes[i];
    var steps := front + Offers(w.offers) + done;
    assert wakes[..i + 1][..i] == wakes[..i] && wakes[..i + 1][i] == w;
    assert Reached(s0, front + Offers(w.offers), s);
    assert steps[|front| + |w.offers|..] == done;
  }

  lemma Started(capacity: nat, time: int, calm: bool)
    ensures M.Run(M.Initial(capacity), [], M.Initial(capacity), RuleFor(calm))
    ensures H.Hold(ArrivedFacts(time), M.Initial(capacity))
  {
  }

  lemma NothingFollows(s0: M.State)
    ensures Follows(s0, [], [])
  {
  }

  lemma LaterStill(s: M.State, before: int, now: int)
    requires H.Hold(ArrivedFacts(before), s) && before <= now
    ensures H.Hold(ArrivedFacts(now), s)
  {
  }
}
