/** The collector of collect/collect.go in place: queues, cache and trace objects on the
    heap. Every method is proved to carry out one step of CollectorModel on the view of its
    state, so what is proved of every run of the model holds of every sequence of calls.
    `outcomes` and `decisions` log the calls made to the transmission and to the sent cache.
 */
module Collector {
  import opened Events
  import opened Ring
  import opened TraceCache
  import M = CollectorModel
  import H = CollectorHistory
  import S = CollectorSafety

  /******* Views of heap structures *******/

  ghost function Held(slots: Slots): set<LiveTrace> {
    set i | 0 <= i < |slots| && slots[i].Some? :: slots[i].value
  }

  ghost function ViewSlots(slots: Slots): (v: seq<Option<Trace>>)
    reads Held(slots)
    ensures |v| == |slots|
    ensures forall i :: 0 <= i < |slots| ==>
              v[i] == if slots[i].Some? then Some(slots[i].value.View()) else None
  {
    seq(|slots|, i requires 0 <= i < |slots| reads Held(slots) =>
      if slots[i].Some? then assert slots[i].value in Held(slots); Some(slots[i].value.View()) else None)
  }

  ghost function Views(ts: seq<LiveTrace>): (v: seq<Trace>)
    reads ts
    ensures |v| == |ts| && forall i :: 0 <= i < |ts| ==> v[i] == ts[i].View()
  {
    seq(|ts|, i requires 0 <= i < |ts| reads ts => ts[i].View())
  }

  lemma {:induction false} ItemsViews(slots: Slots)
    ensures Items(ViewSlots(slots)) == Views(Items(slots))
  {
    if slots == [] {
      assert ViewSlots(slots) == [];
    } else {
      var n := |slots| - 1;
      ItemsViews(slots[..n]);
      assert ViewSlots(slots)[..n] == ViewSlots(slots[..n]);
    }
  }

  lemma MaskViews(slots: Slots, mask: seq<bool>)
    requires |mask| == |slots|
    ensures ViewSlots(M.Without(slots, mask)) == M.Without(ViewSlots(slots), mask)
    ensures ViewSlots(M.Only(slots, mask)) == M.Only(ViewSlots(slots), mask)
  {
  }

  lemma RebuiltView(capacity: nat, kept: seq<LiveTrace>)
    requires |kept| <= RingSize(capacity)
    ensures ViewSlots(PutAll(Empty(capacity), kept).slots) == PutAll(Empty(capacity), Views(kept)).slots
    ensures PutAll(Empty(capacity), kept).next == PutAll(Empty(capacity), Views(kept)).next
  {
    RebuildFits(capacity, kept);
    RebuildFits(capacity, Views(kept));
    assert ViewSlots(PutAll(Empty(capacity), kept).slots) == PutAll(Empty(capacity), Views(kept)).slots;
  }

  /******* What a list of sends logs *******/

  ghost function RecordsOf(ts: seq<Trace>, ctx: M.Context): seq<M.Record> {
    if ts == [] then []
    else
      var t := ts[|ts| - 1];
      RecordsOf(ts[..|ts| - 1], ctx) + (if t.sent then [] else [H.RecordOf(t, M.Decide(t, ctx))])
  }

  ghost function OutcomesOf(ts: seq<Trace>, ctx: M.Context): seq<M.Outcome> {
    if ts == [] then []
    else
      var t := ts[|ts| - 1];
      OutcomesOf(ts[..|ts| - 1], ctx) + (if t.sent then [] else M.SpanOutcomes(t, M.Decide(t, ctx), ctx.cfg))
  }

  lemma {:induction false} SendAllLogs(s: M.State, ts: seq<Trace>, ctx: M.Context)
    ensures M.SendAll(s, ts, ctx)
            == s.(decisions := s.decisions + RecordsOf(ts, ctx), outcomes := s.outcomes + OutcomesOf(ts, ctx))
  {
    hide M.SpanOutcomes, M.Decide;
    if ts != [] { SendAllLogs(s, ts[..|ts| - 1], ctx); }
  }

  lemma LogsOne(t: Trace, ctx: M.Context)
    ensures RecordsOf([t], ctx) == if t.sent then [] else [H.RecordOf(t, M.Decide(t, ctx))]
    ensures OutcomesOf([t], ctx) == if t.sent then [] else M.SpanOutcomes(t, M.Decide(t, ctx), ctx.cfg)
  {
    assert [t][..0] == [];
  }

  lemma LogsPush(ts: seq<Trace>, t: Trace, ctx: M.Context)
    ensures RecordsOf(ts + [t], ctx) == RecordsOf(ts, ctx) + RecordsOf([t], ctx)
    ensures OutcomesOf(ts + [t], ctx) == OutcomesOf(ts, ctx) + OutcomesOf([t], ctx)
  {
    assert (ts + [t])[..|ts|] == ts;
    LogsOne(t, ctx);
  }

  lemma SendNone(s: M.State, ctx: M.Context)
    ensures M.SendAll(s, [], ctx) == s
  {
  }

  lemma NoLogs(ctx: M.Context)
    ensures RecordsOf([], ctx) == [] && OutcomesOf([], ctx) == []
  {
  }

  lemma OutcomesSpelled(t: Trace, d: Decision, cfg: M.Config)
    ensures var u := M.Stamped(t.(sent := true), cfg).spans;
            |u| == |t.spans| &&
            M.SpanOutcomes(t, d, cfg) ==
            if !d.keep && !cfg.dryRun then
              seq(|t.spans|, i requires 0 <= i < |t.spans| => M.Dropped(t.spans[i], d.rate, Some(t.serial)))
            else
              seq(|t.spans|, i requires 0 <= i < |t.spans| =>
                M.Transmitted(t.spans[i], M.Dressed(u[i], |t.spans|, d, cfg), d.keep, d.rate, Some(t.serial), cfg, d.mark))
  {
  }

  lemma SplitRefs(c: CacheState, mask: seq<bool>)
    requires Agree(c) && |mask| == |c.ring.slots|
    ensures Distinct(Items(M.Only(c.ring.slots, mask)))
    ensures forall t :: t in Items(M.Only(c.ring.slots, mask)) ==> t !in Held(M.Without(c.ring.slots, mask))
    ensures forall t :: t in Items(M.Only(c.ring.slots, mask)) ==> t in Held(c.ring.slots)
  {
    var only := M.Only(c.ring.slots, mask);
    var home := ItemsHome(only);
    assert Distinct(Items(only));
    forall t | t in Items(only) ensures t !in Held(M.Without(c.ring.slots, mask)) && t in Held(c.ring.slots) {
      var i :| 0 <= i < |Items(only)| && Items(only)[i] == t;
      assert c.ring.slots[home[i]] == Some(t);
    }
  }

  lemma ItemRefs(c: CacheState)
    requires Agree(c)
    ensures Distinct(Items(c.ring.slots))
    ensures forall t :: t in Items(c.ring.slots) <==> t in Held(c.ring.slots)
  {
    var home := ItemsHome(c.ring.slots);
    forall t ensures t in Items(c.ring.slots) <==> t in Held(c.ring.slots) {
      ItemsMember(c.ring.slots, t);
    }
  }

  ghost predicate Distinct(ts: seq<LiveTrace>) {
    forall i, j :: 0 <= i < j < |ts| ==> ts[i] != ts[j]
  }

  /** RootSpan points into the list of spans. */
  predicate RootInRange(t: LiveTrace)
    reads t
  {
    t.root.Some? ==> t.root.value < |t.spans|
  }

  /** Traces that were not touched look the same. */
  twostate lemma Untouched(slots: Slots)
    requires forall t :: t in Held(slots) ==> unchanged(t)
    ensures ViewSlots(slots) == old(ViewSlots(slots))
    ensures forall t :: t in Held(slots) ==> RootInRange(t) == old(RootInRange(t))
  {
    forall i | 0 <= i < |slots| ensures ViewSlots(slots)[i] == old(ViewSlots(slots))[i] {
      if slots[i].Some? { assert slots[i].value in Held(slots); }
    }
  }

  lemma HeldWithout(slots: Slots, mask: seq<bool>)
    requires |mask| == |slots|
    ensures Held(M.Without(slots, mask)) <= Held(slots)
  {
    forall t | t in Held(M.Without(slots, mask)) ensures t in Held(slots) {
      var i :| 0 <= i < |slots| && M.Without(slots, mask)[i] == Some(t);
      assert slots[i] == Some(t);
    }
  }

  lemma PutHeld(r: Ring<LiveTrace>, t: LiveTrace)
    requires r.Valid()
    ensures Held(r.Put(t).slots) <= Held(r.slots) + {t}
  {
    forall u | u in Held(r.Put(t).slots) ensures u in Held(r.slots) + {t} {
      var i :| 0 <= i < |r.slots| && r.Put(t).slots[i] == Some(u);
      if i != r.Spot() { assert r.slots[i] == Some(u); }
    }
  }

  lemma OccupantLeaves(c: CacheState, t: LiveTrace)
    requires Agree(c) && t.traceID !in c.index
    requires c.ring.slots[c.ring.Spot()].Some?
    ensures c.ring.slots[c.ring.Spot()].value !in Held(c.ring.Put(t).slots)
  {
    var u := c.ring.slots[c.ring.Spot()].value;
    forall i | 0 <= i < |c.ring.slots| && c.ring.Put(t).slots[i].Some?
      ensures c.ring.Put(t).slots[i].value != u
    {
    }
  }

  lemma AbsentSet(c: CacheState, t: LiveTrace)
    requires Agree(c) && t.traceID !in c.index
    ensures c.ring.Valid() && Agree(SetTrace(c, t))
  {
    SetAgreesIffAbsent(c, t);
  }

  /** The three cases of processSpan. */
  lemma ProcessCases(s: M.State, sp: Span, a: M.Arrival, ctx: M.Context)
    requires s.cache.Valid()
    ensures var k := M.Find(s.cache.slots, sp.traceID);
            var s' := M.ProcessSpan(s, sp, a, ctx);
            if k.Some? then s' == M.Attach(s, k.value, sp, a, ctx)
            else if a.answer.Some? then s' == M.DealWithSent(s, a.answer.value, sp, ctx.cfg)
            else
              var s1 := M.Create(s, sp, a, ctx);
              && s.cache.Spot() < |s1.cache.slots| && s1.cache.slots[s.cache.Spot()].Some?
              && s' == M.Attach(s1, s.cache.Spot(), sp, a, ctx)
  {
    hide M.Attach, M.SendAll;
    M.SendAllFrame(s.(cache := s.cache.Put(M.NewTrace(s.nextSerial, sp, a, ctx.cfg)), nextSerial := s.nextSerial + 1),
                   M.Victim(s.cache), ctx);
  }

  lemma ReloadSame(s: M.State, ctx: M.Context)
    requires ctx.cfg.capacity == |s.cache.slots|
    ensures M.Reload(s, ctx) == s
  {
  }

  lemma ReloadIs(s: M.State, v: seq<Trace>, fit: nat, ctx: M.Context)
    requires ctx.cfg.capacity != |s.cache.slots| && v == Items(s.cache.slots)
    requires fit == if ctx.cfg.capacity < |v| then ctx.cfg.capacity else |v|
    ensures M.Reload(s, ctx) == M.SendAll(s.(cache := PutAll(Empty(ctx.cfg.capacity), v[..fit])), v[fit..], ctx)
  {
  }

  lemma ExpiredSlots(s: M.State, now: int, ctx: M.Context)
    ensures var slots := M.SendExpired(s, now, ctx).cache.slots;
            && |slots| == |s.cache.slots|
            && forall i :: 0 <= i < |slots| ==>
                 slots[i] == if s.cache.slots[i].Some? && s.cache.slots[i].value.sendBy < now then None else s.cache.slots[i]
  {
    hide M.SendAll, Items;
    var mask := M.ExpiredMask(s.cache.slots, now);
    M.SendAllFrame(s.(cache := s.cache.(slots := M.Without(s.cache.slots, mask))), Items(M.Only(s.cache.slots, mask)), ctx);
  }

  /** The state after a rebuild that kept some traces and logged the sending of the others. */
  lemma Rebuilt(s: M.State, ring: Ring<Trace>, gone: seq<Trace>, outs: seq<M.Outcome>, recs: seq<M.Record>, ctx: M.Context)
    requires outs == s.outcomes + OutcomesOf(gone, ctx) && recs == s.decisions + RecordsOf(gone, ctx)
    ensures M.SendAll(s.(cache := ring), gone, ctx)
            == M.State(ring, s.queueSize, s.incoming, s.fromPeer, s.nextSerial, s.accepted, outs, recs)
  {
    hide M.SendAll, OutcomesOf, RecordsOf;
    SendAllLogs(s.(cache := ring), gone, ctx);
  }

  lemma ShrinkIs(s: M.State, order: seq<Trace>, ctx: M.Context)
    ensures var n := |order|;
            var newCap := 9 * n / 10;
            M.Shrink(s, order, ctx)
            == M.SendAll(s.(cache := PutAll(Empty(newCap), order[n - newCap..])), order[..n - newCap], ctx)
  {
    hide M.SendAll, PutAll;
  }

  lemma SliceMembers(a: seq<LiveTrace>, n: nat)
    requires n <= |a|
    ensures SetOf(a[..n]) <= SetOf(a) && SetOf(a[n..]) <= SetOf(a)
  {
  }

  lemma FitsRing(capacity: nat, n: nat)
    requires n <= capacity
    ensures n <= RingSize(capacity)
  {
  }

  lemma HeldMember(slots: Slots, k: nat)
    requires k < |slots| && slots[k].Some?
    ensures slots[k].value in Held(slots)
  {
  }

  lemma PutLands(c: CacheState, t: LiveTrace)
    requires c.ring.Valid()
    ensures var r := SetTrace(c, t).ring;
            c.ring.Spot() < |r.slots| && r.slots[c.ring.Spot()] == Some(t)
  {
  }

  lemma AgreeRing(c: CacheState)
    requires Agree(c)
    ensures c.ring.Valid()
  {
  }

  lemma OnlySlot(c: CacheState, k: nat)
    requires Agree(c) && k < |c.ring.slots| && c.ring.slots[k].Some?
    ensures forall i :: 0 <= i < |c.ring.slots| && i != k && c.ring.slots[i].Some? ==>
              c.ring.slots[i].value != c.ring.slots[k].value
  {
  }

  /** Get and the search of the model find the same trace. */
  lemma FindsIndexed(c: CacheState, id: string)
    requires Agree(c)
    ensures var k := M.Find(ViewSlots(c.ring.slots), id);
            if id in c.index then k.Some? && c.ring.slots[k.value] == Some(c.index[id]) else k.None?
  {
    var k := M.Find(ViewSlots(c.ring.slots), id);
    if id in c.index {
      var j :| 0 <= j < |c.ring.slots| && c.ring.slots[j] == Some(c.index[id]);
      assert ViewSlots(c.ring.slots)[j] == Some(c.index[id].View());
    }
  }

  /******* Lists of trace objects *******/

  ghost function SetOf(ts: seq<LiveTrace>): set<LiveTrace> {
    set t | t in ts
  }

  ghost predicate IdsDiffer(ts: seq<LiveTrace>) {
    forall i, j :: 0 <= i < j < |ts| ==> ts[i].traceID != ts[j].traceID
  }

  lemma SliceSnoc<T>(v: seq<T>, lo: nat, j: nat)
    requires lo <= j < |v|
    ensures v[lo..j + 1] == v[lo..j] + [v[j]]
  {
  }

  lemma OthersDiffer(all: seq<LiveTrace>, j: nat)
    requires IdsDiffer(all) && j < |all|
    ensures forall u :: u in all[..j] ==> u.traceID != all[j].traceID
    ensures forall k :: 0 <= k < |all| && k != j ==> all[k] != all[j]
  {
  }

  lemma IdsDifferPermuted(a: seq<LiveTrace>, b: seq<LiveTrace>)
    requires IdsDiffer(a) && multiset(a) == multiset(b)
    ensures IdsDiffer(b) && Distinct(b) && SetOf(b) == SetOf(a)
  {
    forall t ensures t in b <==> t in a { assert t in multiset(a) <==> t in multiset(b); }
    forall i, j | 0 <= i < j < |b| ensures b[i].traceID != b[j].traceID {
      assert b[i] in b && b[j] in b;
      var x :| 0 <= x < |a| && a[x] == b[i];
      var y :| 0 <= y < |a| && a[y] == b[j];
      if x == y {
        S.CountTwo(b, i, j);
        S.CountOne(a, b[i]);
      }
    }
  }

  /** Lists with the same elements have images with the same elements. */
  lemma {:induction false} ImagesPermuted<A, B>(a: seq<A>, b: seq<A>, u: seq<B>, v: seq<B>)
    requires multiset(a) == multiset(b) && |u| == |a| && |v| == |b|
    requires forall i, j :: 0 <= i < |a| && 0 <= j < |b| && a[i] == b[j] ==> u[i] == v[j]
    ensures multiset(u) == multiset(v)
  {
    if a == [] {
      assert |multiset(b)| == |b|;
    } else {
      var n := |a| - 1;
      assert a == a[..n] + [a[n]];
      assert a[n] in multiset(b);
      var i :| 0 <= i < |b| && b[i] == a[n];
      DropOne(b, i);
      DropOne(v, i);
      DropOne(u, n);
      var c, w := b[..i] + b[i + 1..], v[..i] + v[i + 1..];
      assert a[..n] + a[n + 1..] == a[..n] && u[..n] + u[n + 1..] == u[..n];
      DropOne(a, n);
      S.Cancel(multiset(a[..n]), multiset(c), a[n]);
      forall x, y | 0 <= x < n && 0 <= y < |c| && a[..n][x] == c[y] ensures u[..n][x] == w[y] {
        assert c[y] == b[if y < i then y else y + 1];
      }
      ImagesPermuted(a[..n], c, u[..n], w);
    }
  }

  lemma DropOne<T>(a: seq<T>, i: nat)
    requires i < |a|
    ensures multiset(a) == multiset(a[..i] + a[i + 1..]) + multiset{a[i]}
  {
    assert a == a[..i] + [a[i]] + a[i + 1..];
  }

  lemma ItemIdsDiffer(c: CacheState)
    requires Agree(c)
    ensures IdsDiffer(Items(c.ring.slots)) && SetOf(Items(c.ring.slots)) == Held(c.ring.slots)
  {
    ItemRefs(c);
    var home := ItemsHome(c.ring.slots);
  }

  lemma InsertBag<T>(a: seq<T>, j: nat, x: T)
    requires j <= |a|
    ensures multiset(a[..j] + [x] + a[j..]) == multiset(a) + multiset{x}
  {
    assert a == a[..j] + a[j..];
  }

  ghost predicate ByDeadline(ts: seq<LiveTrace>)
    reads ts
  {
    M.SortedByDeadline(Views(ts))
  }

  method InsertByDeadline(sorted: seq<LiveTrace>, x: LiveTrace) returns (r: seq<LiveTrace>)
    requires ByDeadline(sorted)
    ensures ByDeadline(r) && multiset(r) == multiset(sorted) + multiset{x}
  {
    var j := |sorted|;
    while j > 0 && x.sendBy < sorted[j - 1].sendBy
      invariant 0 <= j <= |sorted|
      invariant forall k :: j <= k < |sorted| ==> x.sendBy < sorted[k].sendBy
    {
      j := j - 1;
    }
    InsertedByDeadline(sorted, j, x);
    r := sorted[..j] + [x] + sorted[j..];
  }

  lemma InsertedByDeadline(sorted: seq<LiveTrace>, j: nat, x: LiveTrace)
    requires ByDeadline(sorted) && j <= |sorted| && (0 < j ==> sorted[j - 1].sendBy <= x.sendBy)
    requires forall k :: j <= k < |sorted| ==> x.sendBy < sorted[k].sendBy
    ensures ByDeadline(sorted[..j] + [x] + sorted[j..])
    ensures multiset(sorted[..j] + [x] + sorted[j..]) == multiset(sorted) + multiset{x}
  {
    hide Views;
    InsertBag(sorted, j, x);
    ViewsInsert(sorted, j, x);
    DeadlineInsert(Views(sorted), j, x.View());
  }

  lemma DeadlineInsert(v: seq<Trace>, j: nat, x: Trace)
    requires M.SortedByDeadline(v) && j <= |v| && (0 < j ==> v[j - 1].sendBy <= x.sendBy)
    requires forall k :: j <= k < |v| ==> x.sendBy < v[k].sendBy
    ensures M.SortedByDeadline(v[..j] + [x] + v[j..])
  {
  }

  lemma ViewsInsert(ts: seq<LiveTrace>, j: nat, x: LiveTrace)
    requires j <= |ts|
    ensures Views(ts[..j] + [x] + ts[j..]) == Views(ts)[..j] + [x.View()] + Views(ts)[j..]
  {
  }

  method SortByDeadline(ts: seq<LiveTrace>) returns (sorted: seq<LiveTrace>)
    ensures ByDeadline(sorted) && multiset(sorted) == multiset(ts)
  {
    hide ByDeadline;
    assert ByDeadline([]) by { NothingByDeadline(); }
    sorted := [];
    for i := 0 to |ts|
      invariant ByDeadline(sorted) && multiset(sorted) == multiset(ts[..i])
    {
      assert ts[..i + 1] == ts[..i] + [ts[i]];
      sorted := InsertByDeadline(sorted, ts[i]);
    }
    assert ts[..|ts|] == ts;
  }

  lemma NothingByDeadline()
    ensures ByDeadline([])
  {
  }

  /******* The impact order *******/

  /** The answer no longer depends on the clock. */
  ghost predicate Stable(v: Trace, timeout: int) {
    timeout != 0 && forall at: Readings {:trigger Impact(v, at, timeout)} :: Impact(v, at, timeout) == v.totalImpact
  }

  /** Asked for its impact, once or more, and otherwise as before. */
  ghost predicate WasAsked(now: Trace, before: Trace, timeout: int) {
    timeout != 0 && exists at: Readings :: now == M.Memo(before, at, timeout)
  }

  ghost predicate MaybeAsked(now: Trace, before: Trace, timeout: int) {
    now == before || WasAsked(now, before, timeout)
  }

  /** No reading of the clock is behind the arrival of a span. */
  ghost predicate Calm(v: Trace, clock: nat -> int, timeout: int) {
    timeout > 0 && forall n :: Elapsed(v, clock(n))
  }

  /** Asking again leaves what one call would have left. */
  lemma AskedAgain(now: Trace, before: Trace, at: Readings, timeout: int)
    requires timeout != 0 && MaybeAsked(now, before, timeout)
    ensures WasAsked(M.Memo(now, at, timeout), before, timeout)
  {
    if now != before {
      var first: Readings :| now == M.Memo(before, first, timeout);
      assert now.totalImpact != 0;
    }
  }

  lemma AskedTwice(now: Trace, mid: Trace, before: Trace, timeout: int)
    requires MaybeAsked(now, mid, timeout) && MaybeAsked(mid, before, timeout)
    ensures MaybeAsked(now, before, timeout)
    ensures WasAsked(now, mid, timeout) || WasAsked(mid, before, timeout) ==> WasAsked(now, before, timeout)
  {
    if WasAsked(now, mid, timeout) {
      var at: Readings :| now == M.Memo(mid, at, timeout);
      AskedAgain(mid, before, at, timeout);
    }
  }

  lemma AskedAlike(now: Trace, before: Trace, timeout: int)
    requires MaybeAsked(now, before, timeout)
    ensures now == before.(totalImpact := now.totalImpact)
    ensures forall clock :: Calm(before, clock, timeout) ==> Calm(now, clock, timeout)
  {
  }

  /** Asking once makes the answer stable, if the clock is not behind. */
  lemma AskingStabilises(v: Trace, clock: nat -> int, tick: nat, timeout: int)
    requires Calm(v, clock, timeout)
    ensures Stable(M.Memo(v, From(clock, tick), timeout), timeout)
  {
    var first := From(clock, tick);
    forall i | 0 <= i < |v.spans| ensures v.spans[i].arrivalTime <= first(i) {
      assert Elapsed(v, clock(tick + i));
    }
    forall at: Readings ensures Impact(M.Memo(v, first, timeout), at, timeout) == M.Memo(v, first, timeout).totalImpact {
      ImpactIsStable(v, first, at, timeout);
    }
  }

  lemma StableStays(v: Trace, at: Readings, timeout: int)
    requires Stable(v, timeout)
    ensures M.Memo(v, at, timeout) == v
  {
    assert Impact(v, at, timeout) == v.totalImpact;
  }

  ghost predicate ByImpact(ts: seq<LiveTrace>)
    reads ts
  {
    M.SortedByImpact(Views(ts))
  }

  ghost predicate AllStable(v: seq<Trace>, timeout: int) {
    forall i :: 0 <= i < |v| ==> Stable(v[i], timeout)
  }

  ghost predicate AllCalm(v: seq<Trace>, clock: nat -> int, timeout: int) {
    forall i :: 0 <= i < |v| ==> Calm(v[i], clock, timeout)
  }

  ghost predicate AllMaybe(now: seq<Trace>, before: seq<Trace>, timeout: int) {
    |now| == |before| && forall i :: 0 <= i < |now| ==> MaybeAsked(now[i], before[i], timeout)
  }

  ghost predicate AllAsked(now: seq<Trace>, before: seq<Trace>, timeout: int) {
    |now| == |before| && forall i :: 0 <= i < |now| ==> WasAsked(now[i], before[i], timeout)
  }

  /** CacheImpact of one trace, as the comparisons use it. */
  method ImpactOf(x: LiveTrace, timeout: int, clock: nat -> int, tick: nat) returns (r: int, tick': nat)
    requires timeout != 0
    modifies x`totalImpact
    ensures WasAsked(x.View(), old(x.View()), timeout) && r == x.totalImpact
    ensures Calm(old(x.View()), clock, timeout) ==> Stable(x.View(), timeout)
    ensures Stable(old(x.View()), timeout) ==> x.View() == old(x.View())
  {
    hide Impact, Calm, Stable;
    ghost var v := x.View();
    if Calm(v, clock, timeout) { AskingStabilises(v, clock, tick, timeout); }
    if Stable(v, timeout) { StableStays(v, From(clock, tick), timeout); }
    r, tick' := x.CacheImpact(timeout, clock, tick);
    assert x.View() == M.Memo(v, From(clock, tick), timeout);
  }

  /** One comparison of the sort: both impacts are asked for, at their own readings of the clock.
      Once asked, a trace whose spans are not ahead of the clock keeps its answer for good. */
  method Heavier(x: LiveTrace, y: LiveTrace, timeout: int, clock: nat -> int, tick: nat) returns (more: bool, tick': nat)
    requires timeout != 0 && x != y
    modifies x`totalImpact, y`totalImpact
    ensures WasAsked(x.View(), old(x.View()), timeout) && WasAsked(y.View(), old(y.View()), timeout)
    ensures more <==> x.totalImpact > y.totalImpact
    ensures Calm(old(x.View()), clock, timeout) ==> Stable(x.View(), timeout)
    ensures Calm(old(y.View()), clock, timeout) ==> Stable(y.View(), timeout)
    ensures Stable(old(x.View()), timeout) ==> x.View() == old(x.View())
    ensures Stable(old(y.View()), timeout) ==> y.View() == old(y.View())
  {
    hide WasAsked, Calm, Stable;
    var a, tick1 := ImpactOf(x, timeout, clock, tick);
    var b, tick2 := ImpactOf(y, timeout, clock, tick1);
    more, tick' := a > b, tick2;
  }

  /** Where the comparisons put `x`. */
  ghost predicate Fits(v: seq<Trace>, j: nat, x: Trace) {
    && j <= |v| && (0 < j ==> x.totalImpact <= v[j - 1].totalImpact)
    && forall k :: j <= k < |v| ==> x.totalImpact > v[k].totalImpact
  }

  /** What the insertion of `x` leaves: everything maybe asked, and certainly all that was compared
      for the first time. If `calm`, comparisons agree with each other. */
  ghost predicate Compared(v: seq<Trace>, x: Trace, v0: seq<Trace>, x0: Trace, timeout: int) {
    && AllMaybe(v, v0, timeout)
    && (if v == [] then x == x0 else WasAsked(x, x0, timeout))
    && (|v| == 1 ==> AllAsked(v, v0, timeout))
  }

  ghost predicate Settled(v: seq<Trace>, x: Trace, v0: seq<Trace>, timeout: int) {
    (v != [] ==> Stable(x, timeout) && AllStable(v, timeout)) && (|v| > 1 ==> v == v0)
  }

  /** One comparison of `x` with a trace of a list. */
  method CompareAt(ts: seq<LiveTrace>, k: nat, x: LiveTrace, timeout: int, clock: nat -> int, tick: nat)
    returns (more: bool, tick': nat)
    requires timeout != 0 && Distinct(ts) && k < |ts| && x !in ts
    modifies ts[k], x
    ensures Views(ts) == old(Views(ts))[k := ts[k].View()]
    ensures WasAsked(x.View(), old(x.View()), timeout) && WasAsked(ts[k].View(), old(ts[k].View()), timeout)
    ensures more <==> x.View().totalImpact > ts[k].View().totalImpact
    ensures Calm(old(x.View()), clock, timeout) ==> Stable(x.View(), timeout)
    ensures Calm(old(ts[k].View()), clock, timeout) ==> Stable(ts[k].View(), timeout)
    ensures Stable(old(x.View()), timeout) ==> x.View() == old(x.View())
    ensures Stable(old(ts[k].View()), timeout) ==> ts[k].View() == old(ts[k].View())
  {
    hide WasAsked, Calm, Stable;
    more, tick' := Heavier(x, ts[k], timeout, clock, tick);
  }

  /** The walk down the list has come to position d: from there on everything was asked. */
  ghost predicate Walked(w: seq<Trace>, x: Trace, v0: seq<Trace>, x0: Trace, d: nat, timeout: int) {
    && |w| == |v0| && d <= |w|
    && (forall k :: 0 <= k < d ==> w[k] == v0[k])
    && (forall k :: d <= k < |w| ==> WasAsked(w[k], v0[k], timeout))
    && (if d == |w| then x == x0 else WasAsked(x, x0, timeout))
  }

  /** And on a calm clock it changed nothing that had been compared before. */
  ghost predicate Steady(w: seq<Trace>, x: Trace, v0: seq<Trace>, d: nat, timeout: int) {
    && (|w| > 1 ==> w == v0) && (d < |w| ==> Stable(x, timeout))
    && forall k :: 0 <= d <= k < |w| ==> Stable(w[k], timeout)
  }

  ghost predicate Above(w: seq<Trace>, x: Trace, j: nat) {
    forall k :: j <= k < |w| ==> x.totalImpact > w[k].totalImpact
  }

  lemma WalkOn(w: seq<Trace>, x: Trace, v0: seq<Trace>, x0: Trace, d: nat, timeout: int, w': seq<Trace>, x': Trace)
    requires Walked(w, x, v0, x0, d, timeout) && 0 < d
    requires |w'| == |w| && w' == w[d - 1 := w'[d - 1]] && WasAsked(w'[d - 1], w[d - 1], timeout) && WasAsked(x', x, timeout)
    ensures Walked(w', x', v0, x0, d - 1, timeout)
  {
    hide WasAsked;
    AskedTwice(x', x, x0, timeout);
  }

  lemma WalkSteady(w: seq<Trace>, x: Trace, v0: seq<Trace>, d: nat, timeout: int, w': seq<Trace>, x': Trace)
    requires Steady(w, x, v0, d, timeout) && 0 < d <= |w| && |w'| == |w| && w' == w[d - 1 := w'[d - 1]]
    requires Stable(w'[d - 1], timeout) && Stable(x', timeout)
    requires |w| > 1 ==> w'[d - 1] == w[d - 1]
    requires d < |w| ==> x' == x
    ensures Steady(w', x', v0, d - 1, timeout)
  {
    hide Stable;
  }

  lemma WalkedOut(w: seq<Trace>, x: Trace, v0: seq<Trace>, x0: Trace, d: nat, timeout: int)
    requires Walked(w, x, v0, x0, d, timeout) && (w != [] ==> d < |w|)
    ensures Compared(w, x, v0, x0, timeout)
  {
    hide WasAsked;
  }

  lemma SteadyOut(w: seq<Trace>, x: Trace, v0: seq<Trace>, d: nat, timeout: int)
    requires Steady(w, x, v0, d, timeout) && (w != [] ==> d < |w|) && (|w| > 1 ==> AllStable(v0, timeout))
    ensures Settled(w, x, v0, timeout)
  {
    hide Stable;
  }

  /** Walks down the sorted list, asking both traces at every comparison. */
  method PlaceByImpact(sorted: seq<LiveTrace>, x: LiveTrace, timeout: int, clock: nat -> int, tick: nat, ghost calm: bool)
    returns (j: nat, tick': nat)
    requires timeout != 0 && Distinct(sorted) && x !in sorted
    requires calm ==> Calm(x.View(), clock, timeout) && AllCalm(Views(sorted), clock, timeout)
    requires calm && |sorted| > 1 ==> AllStable(Views(sorted), timeout)
    modifies sorted, x
    ensures j <= |sorted| && Compared(Views(sorted), x.View(), old(Views(sorted)), old(x.View()), timeout)
    ensures calm ==> Fits(Views(sorted), j, x.View()) && Settled(Views(sorted), x.View(), old(Views(sorted)), timeout)
  {
    hide WasAsked, Calm, Stable, Walked, Steady, Compared, Settled;
    ghost var v0, x0 := Views(sorted), x.View();
    tick' := tick;
    j := |sorted|;
    ghost var d := j;
    WalkStarts(v0, x0, timeout);
    while j > 0
      invariant 0 <= j <= |sorted| && d == j
      invariant Walked(Views(sorted), x.View(), v0, x0, j, timeout)
      invariant calm ==> Steady(Views(sorted), x.View(), v0, j, timeout) && Above(Views(sorted), x.View(), j)
    {
      ghost var w, x1 := Views(sorted), x.View();
      WalkFacts(w, x1, v0, x0, j, timeout, calm);
      var more;
      more, tick' := CompareAt(sorted, j - 1, x, timeout, clock, tick');
      ghost var w', x' := Views(sorted), x.View();
      WalkOn(w, x1, v0, x0, j, timeout, w', x');
      if calm { WalkSteady(w, x1, v0, j, timeout, w', x'); }
      d := j - 1;
      if !more {
        break;
      }
      j := j - 1;
    }
    WalkedOut(Views(sorted), x.View(), v0, x0, d, timeout);
    if calm { SteadyOut(Views(sorted), x.View(), v0, d, timeout); }
  }

  lemma WalkStarts(v: seq<Trace>, x: Trace, timeout: int)
    ensures Walked(v, x, v, x, |v|, timeout) && Steady(v, x, v, |v|, timeout)
  {
  }

  lemma WalkFacts(w: seq<Trace>, x: Trace, v0: seq<Trace>, x0: Trace, d: nat, timeout: int, calm: bool)
    requires Walked(w, x, v0, x0, d, timeout) && 0 < d && (calm ==> Steady(w, x, v0, d, timeout))
    ensures w[d - 1] == v0[d - 1] && (d == |w| ==> x == x0) && (calm && d < |w| ==> Stable(x, timeout))
  {
    hide WasAsked, Stable;
  }

  lemma InsertedByImpact(sorted: seq<LiveTrace>, j: nat, x: LiveTrace)
    requires ByImpact(sorted) && Fits(Views(sorted), j, x.View())
    ensures ByImpact(sorted[..j] + [x] + sorted[j..])
    ensures multiset(sorted[..j] + [x] + sorted[j..]) == multiset(sorted) + multiset{x}
  {
    hide Views;
    InsertBag(sorted, j, x);
    ViewsInsert(sorted, j, x);
    ImpactInsert(Views(sorted), j, x.View());
  }

  lemma ImpactInsert(v: seq<Trace>, j: nat, x: Trace)
    requires M.SortedByImpact(v) && Fits(v, j, x)
    ensures M.SortedByImpact(v[..j] + [x] + v[j..])
  {
  }

  /** Every trace as the sort left it: memoised at some readings, or not asked. */
  ghost predicate Memoised(now: seq<Trace>, before: seq<Trace>, at: seq<Option<Readings>>, timeout: int) {
    && timeout != 0 && |now| == |before| == |at|
    && forall i :: 0 <= i < |at| ==> now[i] == M.Asked(before[i], at[i], timeout)
  }

  lemma {:induction false} PickReadings(now: seq<Trace>, before: seq<Trace>, timeout: int)
    returns (at: seq<Option<Readings>>)
    requires timeout != 0 && AllMaybe(now, before, timeout)
    ensures Memoised(now, before, at, timeout)
    ensures forall i :: 0 <= i < |now| && WasAsked(now[i], before[i], timeout) ==> at[i].Some?
  {
    at := [];
    var i := 0;
    while i < |now|
      invariant 0 <= i == |at| <= |now|
      invariant forall k :: 0 <= k < i ==> now[k] == M.Asked(before[k], at[k], timeout)
      invariant forall k :: 0 <= k < i && WasAsked(now[k], before[k], timeout) ==> at[k].Some?
    {
      if WasAsked(now[i], before[i], timeout) {
        var r: Readings :| now[i] == M.Memo(before[i], r, timeout);
        at := at + [Some(r)];
      } else {
        at := at + [None];
      }
      i := i + 1;
    }
  }

  lemma FirstMembers(ts: seq<LiveTrace>, i: nat, sorted: seq<LiveTrace>)
    requires Distinct(ts) && i < |ts| && multiset(sorted) == multiset(ts[..i])
    ensures forall k :: 0 <= k < |sorted| ==> sorted[k] in ts[..i] && sorted[k] != ts[i]
    ensures forall k :: 0 <= k < i ==> ts[k] in sorted
  {
    forall k | 0 <= k < |sorted| ensures sorted[k] in ts[..i] && sorted[k] != ts[i] {
      assert sorted[k] in multiset(sorted);
    }
    forall k | 0 <= k < i ensures ts[k] in sorted {
      assert ts[..i][k] in multiset(ts[..i]);
    }
  }

  /** One round of the sort: the next trace is placed among those sorted so far. */
  method InsertNext(ts: seq<LiveTrace>, i: nat, sorted: seq<LiveTrace>, timeout: int, clock: nat -> int, tick: nat,
                    ghost calm: bool)
    returns (r: seq<LiveTrace>, tick': nat)
    requires timeout != 0 && Distinct(ts) && i < |ts| && multiset(sorted) == multiset(ts[..i])
    requires calm ==> AllCalm(Views(ts), clock, timeout) && ByImpact(sorted)
    requires calm && i > 1 ==> AllStable(Views(ts)[..i], timeout)
    modifies ts
    ensures multiset(r) == multiset(ts[..i + 1]) && AllMaybe(Views(ts), old(Views(ts)), timeout)
    ensures Views(ts)[i + 1..] == old(Views(ts))[i + 1..]
    ensures i > 0 ==> WasAsked(Views(ts)[i], old(Views(ts))[i], timeout)
    ensures i == 1 ==> WasAsked(Views(ts)[0], old(Views(ts))[0], timeout)
    ensures calm ==> ByImpact(r)
    ensures calm && i > 0 ==> AllStable(Views(ts)[..i + 1], timeout)
  {
    hide Stable, Calm, WasAsked, M.SortedByImpact, Fits, Compared, Settled, AllMaybe, AllAsked, AllStable, AllCalm;
    FirstMembers(ts, i, sorted);
    FirstDistinct(ts, i, sorted);
    ghost var v0, w0 := Views(ts), Views(sorted);
    SameViews(ts, i, sorted, v0, w0);
    var j;
    j, tick' := PlaceByImpact(sorted, ts[i], timeout, clock, tick, calm);
    ghost var v, w := Views(ts), Views(sorted);
    forall k | 0 <= k < i ensures InBoth(v, v0, w, w0, k) {
      var m :| 0 <= m < |sorted| && sorted[m] == ts[k];
      assert w[m] == v[k] && w0[m] == v0[k];
    }
    forall k | i < k < |ts| ensures v[k] == v0[k] {
      assert ts[k] !in sorted;
    }
    RoundDone(v, v0, w, w0, i, timeout, calm);
    if calm {
      SettledOrder(sorted, ts[i].View(), w0, timeout);
      InsertedByImpact(sorted, j, ts[i]);
    } else {
      InsertBag(sorted, j, ts[i]);
    }
    assert ts[..i + 1] == ts[..i] + [ts[i]];
    r := sorted[..j] + [ts[i]] + sorted[j..];
  }

  /** A sort by comparison: a permutation in any case, and in order of impact if the clock does not
      run behind the arrivals. */
  method SortByImpact(ts: seq<LiveTrace>, timeout: int, clock: nat -> int) returns (sorted: seq<LiveTrace>)
    requires timeout != 0 && Distinct(ts)
    modifies ts
    ensures multiset(sorted) == multiset(ts) && AllMaybe(Views(ts), old(Views(ts)), timeout)
    ensures |ts| > 1 ==> AllAsked(Views(ts), old(Views(ts)), timeout)
    ensures AllCalm(old(Views(ts)), clock, timeout) ==> ByImpact(sorted)
  {
    hide Stable, ByImpact, Calm, WasAsked;
    ghost var v := Views(ts);
    ghost var calm := AllCalm(v, clock, timeout);
    sorted := [];
    NothingByImpact();
    var tick := 0;
    for i := 0 to |ts|
      invariant multiset(sorted) == multiset(ts[..i]) && AllMaybe(Views(ts), v, timeout)
      invariant Views(ts)[i..] == v[i..]
      invariant i > 1 ==> forall k :: 0 <= k < i ==> WasAsked(Views(ts)[k], v[k], timeout)
      invariant calm ==> ByImpact(sorted) && (i > 1 ==> AllStable(Views(ts)[..i], timeout))
    {
      ghost var v1 := Views(ts);
      StillCalm(v1, v, clock, timeout);
      sorted, tick := InsertNext(ts, i, sorted, timeout, clock, tick, calm);
      ghost var v2 := Views(ts);
      forall k | 0 <= k < |ts| ensures MaybeAsked(v2[k], v[k], timeout)
        ensures WasAsked(v2[k], v1[k], timeout) || WasAsked(v1[k], v[k], timeout) ==> WasAsked(v2[k], v[k], timeout)
      {
        AskedTwice(v2[k], v1[k], v[k], timeout);
      }
      assert v2[i + 1..] == v1[i..][1..];
      assert v[i + 1..] == v[i..][1..];
    }
    assert ts[..|ts|] == ts;
  }

  lemma StillCalm(now: seq<Trace>, before: seq<Trace>, clock: nat -> int, timeout: int)
    requires AllMaybe(now, before, timeout)
    ensures AllCalm(before, clock, timeout) ==> AllCalm(now, clock, timeout)
  {
    hide Calm;
    forall k | 0 <= k < |now| ensures Calm(before[k], clock, timeout) ==> Calm(now[k], clock, timeout) {
      AskedAlike(now[k], before[k], timeout);
    }
  }

  lemma FirstDistinct(ts: seq<LiveTrace>, i: nat, sorted: seq<LiveTrace>)
    requires Distinct(ts) && i < |ts| && multiset(sorted) == multiset(ts[..i])
    ensures Distinct(sorted) && |sorted| == i && ts[i] !in sorted
    ensures forall k :: i < k < |ts| ==> ts[k] !in sorted
  {
    assert |multiset(sorted)| == |sorted| && |multiset(ts[..i])| == i;
    forall a, b | 0 <= a < b < |sorted| ensures sorted[a] != sorted[b] {
      if sorted[a] == sorted[b] {
        S.CountTwo(sorted, a, b);
        S.CountOne(ts[..i], sorted[a]);
      }
    }
    forall k | i <= k < |ts| ensures ts[k] !in sorted {
      assert ts[k] in sorted <==> ts[k] in multiset(ts[..i]);
    }
  }

  /** The list so far shows what it shows in the whole list. */
  lemma SameViews(ts: seq<LiveTrace>, i: nat, sorted: seq<LiveTrace>, v: seq<Trace>, w: seq<Trace>)
    requires i < |ts| && v == Views(ts) && w == Views(sorted) && forall k :: 0 <= k < |sorted| ==> sorted[k] in ts[..i]
    ensures forall clock, timeout :: AllCalm(v, clock, timeout) ==> AllCalm(w, clock, timeout) && Calm(v[i], clock, timeout)
    ensures forall timeout :: AllStable(v[..i], timeout) ==> AllStable(w, timeout)
  {
    hide Calm, Stable;
    forall k | 0 <= k < |w| ensures exists m :: 0 <= m < i && v[m] == w[k] {
      var m :| 0 <= m < i && ts[..i][m] == sorted[k];
      assert v[m] == w[k];
    }
    forall timeout | AllStable(v[..i], timeout) ensures AllStable(w, timeout) {
      forall k | 0 <= k < |w| ensures Stable(w[k], timeout) {
        var m :| 0 <= m < i && v[m] == w[k];
        assert v[..i][m] == w[k];
      }
    }
  }

  lemma SettledOrder(ts: seq<LiveTrace>, x: Trace, v: seq<Trace>, timeout: int)
    requires Settled(Views(ts), x, v, timeout) && M.SortedByImpact(v)
    ensures ByImpact(ts)
  {
  }

  /** Position k of the whole list is some position of the sorted one, before and after. */
  ghost predicate InBoth(v: seq<Trace>, v0: seq<Trace>, w: seq<Trace>, w0: seq<Trace>, k: nat) {
    k < |v| == |v0| && |w| == |w0| && exists m :: 0 <= m < |w| && w[m] == v[k] && w0[m] == v0[k]
  }

  /** What a round did to the sorted list, said of the whole list. */
  lemma RoundDone(v: seq<Trace>, v0: seq<Trace>, w: seq<Trace>, w0: seq<Trace>, i: nat, timeout: int, calm: bool)
    requires i < |v| == |v0| && |w| == |w0| == i && Compared(w, v[i], w0, v0[i], timeout)
    requires forall k :: 0 <= k < i ==> InBoth(v, v0, w, w0, k)
    requires forall k :: i < k < |v| ==> v[k] == v0[k]
    requires calm ==> Settled(w, v[i], w0, timeout)
    ensures AllMaybe(v, v0, timeout) && v[i + 1..] == v0[i + 1..]
    ensures i > 0 ==> WasAsked(v[i], v0[i], timeout)
    ensures i == 1 ==> WasAsked(v[0], v0[0], timeout)
    ensures calm && i > 0 ==> AllStable(v[..i + 1], timeout)
  {
    hide Stable, WasAsked;
    forall k | 0 <= k < |v|
      ensures MaybeAsked(v[k], v0[k], timeout)
      ensures k < i == 1 ==> WasAsked(v[k], v0[k], timeout)
      ensures calm && k <= i && i > 0 ==> Stable(v[k], timeout)
    {
      if k < i {
        assert InBoth(v, v0, w, w0, k);
        var m :| 0 <= m < |w| && w[m] == v[k] && w0[m] == v0[k];
      }
    }
  }

  lemma NothingByImpact()
    ensures ByImpact([])
  {
  }

  /** Unless there was nothing to compare, every trace was asked. */
  ghost predicate AllWeighed(v: seq<Trace>, clk: M.Clock) {
    |v| > 1 ==> forall i :: 0 <= i < |v| ==> clk(v[i].traceID).Some?
  }

  /** The readings the sort took, by trace ID. */
  ghost function ReadingsById(all: seq<LiveTrace>, at: seq<Option<Readings>>): (clk: M.Clock)
    requires |at| == |all| && IdsDiffer(all)
    ensures forall i :: 0 <= i < |all| ==> clk(all[i].traceID) == at[i]
  {
    var m := map i | 0 <= i < |all| :: all[i].traceID := at[i];
    id => if id in m then m[id] else None
  }

  ghost predicate RootsSeen(v: seq<Trace>) {
    forall i :: 0 <= i < |v| && v[i].root.Some? ==> v[i].root.value < |v[i].spans|
  }

  lemma RootsKept(all: seq<LiveTrace>, v: seq<Trace>, at: seq<Option<Readings>>, timeout: int)
    requires Memoised(Views(all), v, at, timeout) && RootsSeen(v)
    ensures forall t :: t in SetOf(all) ==> RootInRange(t)
  {
    forall t | t in SetOf(all) ensures RootInRange(t) {
      var i :| 0 <= i < |all| && all[i] == t;
      assert Views(all)[i] == M.Asked(v[i], at[i], timeout);
    }
  }

  /** Slots and list show the same objects alike. */
  ghost predicate Matches(slots: Slots, all: seq<LiveTrace>, slotViews: seq<Option<Trace>>, views: seq<Trace>) {
    && |slotViews| == |slots| && |views| == |all|
    && (forall k :: 0 <= k < |slots| ==> slotViews[k].Some? == slots[k].Some?)
    && (forall k, i :: 0 <= k < |slots| && 0 <= i < |all| && slots[k] == Some(all[i]) ==> slotViews[k] == Some(views[i]))
  }

  /** What the slots and the list show before the sort. */
  lemma Shown(slots: Slots, all: seq<LiveTrace>)
    requires forall t :: t in SetOf(all) ==> RootInRange(t)
    ensures Matches(slots, all, ViewSlots(slots), Views(all)) && RootsSeen(Views(all))
    ensures forall i :: 0 <= i < |all| ==> Views(all)[i].traceID == all[i].traceID && all[i] in SetOf(all)
  {
    assert forall i :: 0 <= i < |all| ==> all[i] in SetOf(all);
  }

  lemma MemoView(slots: Slots, all: seq<LiveTrace>, v: seq<Trace>, at: seq<Option<Readings>>, was: seq<Option<Trace>>,
                 clk: M.Clock, timeout: int)
    requires all == Items(slots) && Matches(slots, all, was, v) && Memoised(Views(all), v, at, timeout)
    requires forall i :: 0 <= i < |all| ==> clk(all[i].traceID) == at[i] && v[i].traceID == all[i].traceID
    ensures ViewSlots(slots) == M.MemoSlots(was, clk, timeout)
  {
    hide Items, M.Asked;
    forall k | 0 <= k < |slots| ensures ViewSlots(slots)[k] == M.MemoSlots(was, clk, timeout)[k] {
      if slots[k].Some? {
        ItemsMember(slots, slots[k].value);
        var i :| 0 <= i < |all| && all[i] == slots[k].value;
        assert Views(all)[i] == M.Asked(v[i], at[i], timeout);
      }
    }
  }

  /** The sort is over: what the slots show now is what they showed, asked at some readings. */
  lemma SortDone(slots: Slots, all: seq<LiveTrace>, v: seq<Trace>, was: seq<Option<Trace>>, timeout: int)
    returns (clk: M.Clock)
    requires timeout != 0 && all == Items(slots) && IdsDiffer(all) && Matches(slots, all, was, v) && RootsSeen(v)
    requires forall i :: 0 <= i < |all| ==> v[i].traceID == all[i].traceID
    requires AllMaybe(Views(all), v, timeout)
    ensures ViewSlots(slots) == M.MemoSlots(was, clk, timeout)
    ensures forall t :: t in SetOf(all) ==> RootInRange(t)
    ensures AllAsked(Views(all), v, timeout) ==> forall i :: 0 <= i < |all| ==> clk(all[i].traceID).Some?
  {
    hide Items, M.Asked, Matches, RootsSeen, RootInRange, WasAsked, M.MemoSlots;
    var at := PickReadings(Views(all), v, timeout);
    clk := ReadingsById(all, at);
    RootsKept(all, v, at, timeout);
    MemoView(slots, all, v, at, was, clk, timeout);
  }

  lemma WeighNothing()
    ensures M.Weight([]) == 0 && M.IdsOf([]) == {}
  {
  }

  lemma CutFound(v: seq<Trace>, over: int, k: nat)
    requires k <= |v| && (v != [] ==> 0 < k) && (M.Weight(v[..k]) > over || k == |v|)
    requires forall j :: 1 <= j < k ==> M.Weight(v[..j]) <= over
    ensures M.IsCut(v, over, k)
  {
  }

  lemma Weigh(v: seq<Trace>, i: nat)
    requires i < |v|
    ensures M.Weight(v[..i + 1]) == M.Weight(v[..i]) + v[i].dataSize
    ensures M.IdsOf(v[..i + 1]) == M.IdsOf(v[..i]) + {v[i].traceID}
  {
    assert v[..i + 1][..i] == v[..i];
    assert v[..i + 1] == v[..i] + [v[i]];
  }

  /** Clearing by ID does not look at what is cleared. */
  lemma ClearedAlike(now: seq<Option<Trace>>, was: seq<Option<Trace>>, ids: set<string>)
    requires |now| == |was|
    requires forall i :: 0 <= i < |now| ==> now[i].Some? == was[i].Some?
    requires forall i :: 0 <= i < |now| && now[i].Some? ==>
               now[i].value.traceID == was[i].value.traceID && (now[i].value.traceID in ids || now[i] == was[i])
    ensures M.Without(now, M.IdMask(now, ids)) == M.Without(was, M.IdMask(was, ids))
  {
  }

  /** One Set of a rebuild. */
  method SetNext(c: InMemCache, t: LiveTrace, ghost capacity: nat, ghost kept: seq<LiveTrace>)
    requires Agree(c.Value()) && c.Value().ring == PutAll(Empty(capacity), kept) && |kept| < RingSize(capacity)
    requires forall u :: u in kept ==> u.traceID != t.traceID
    modifies c`index, c`insertPoint, c.order
    ensures Agree(c.Value()) && c.Value().ring == PutAll(Empty(capacity), kept + [t])
  {
    hide Agree;
    NotYetIndexed(c.Value(), t, capacity, kept);
    AbsentSet(c.Value(), t);
    assert (kept + [t])[..|kept|] == kept;
    var _ := c.Set(t);
  }

  lemma PutNothing(capacity: nat)
    ensures PutAll(Empty<LiveTrace>(capacity), []) == Empty(capacity)
  {
  }

  lemma NotYetIndexed(c: CacheState, t: LiveTrace, capacity: nat, kept: seq<LiveTrace>)
    requires Agree(c) && c.ring == PutAll(Empty(capacity), kept) && |kept| <= RingSize(capacity)
    requires forall u :: u in kept ==> u.traceID != t.traceID
    ensures t.traceID !in c.index
  {
    hide PutAll;
    RebuildFits(capacity, kept);
    forall id | id in c.index ensures id != t.traceID {
      var k :| 0 <= k < |c.ring.slots| && c.ring.slots[k] == Some(c.index[id]);
      assert kept[k] in kept;
    }
  }

  lemma RebuiltHeld(capacity: nat, kept: seq<LiveTrace>)
    requires |kept| <= RingSize(capacity)
    ensures Held(PutAll(Empty(capacity), kept).slots) == SetOf(kept)
  {
    RebuildFits(capacity, kept);
    var slots := PutAll(Empty(capacity), kept).slots;
    forall t | t in kept ensures t in Held(slots) {
      var i :| 0 <= i < |kept| && kept[i] == t;
      assert slots[i] == Some(t);
    }
  }

  class InMemCollector {
    var cache: InMemCache
    const queueSize: nat
    var incoming: seq<Span>
    var fromPeer: seq<Span>
    var nextSerial: nat
    ghost var accepted: seq<Span>
    var outcomes: seq<M.Outcome>
    var decisions: seq<M.Record>

    constructor (capacity: nat)
      ensures Valid() && View() == M.Initial(capacity)
      ensures fresh(cache) && fresh(cache.order)
      ensures queueSize == 3 * capacity && cache.order.Length == if capacity == 0 then 10000 else capacity
    {
      var c := new InMemCache(capacity);
      cache, queueSize := c, 3 * capacity;
      incoming, fromPeer, nextSerial, accepted, outcomes, decisions := [], [], 0, [], [], [];
      new;
      assert View().cache.slots == Empty<Trace>(capacity).slots;
    }

    ghost function Traces(): set<LiveTrace>
      reads this, cache, cache.order
    {
      Held(cache.Value().ring.slots)
    }

    ghost predicate Valid()
      reads this, cache, cache.order, Traces()
    {
      Agree(cache.Value()) && forall t :: t in Traces() ==> RootInRange(t)
    }

    ghost function View(): M.State
      reads this, cache, cache.order, Traces()
    {
      M.State(Ring(ViewSlots(cache.Value().ring.slots), cache.insertPoint), queueSize, incoming, fromPeer,
              nextSerial, accepted, outcomes, decisions)
    }

    /******* Queues *******/

    /** AddSpan and AddSpanFromPeer: a full queue refuses the span (ErrWouldBlock). */
    method Add(sp: Span, peer: bool) returns (ok: bool)
      requires Valid()
      modifies this`incoming, this`fromPeer, this`accepted
      ensures Valid() && View() == M.Accept(old(View()), sp, peer) && Traces() == old(Traces())
      ensures ok <==> |if peer then old(fromPeer) else old(incoming)| < queueSize
      ensures accepted == old(accepted) + (if ok then [sp] else [])
      ensures fromPeer == old(fromPeer) + (if ok && peer then [sp] else [])
      ensures incoming == old(incoming) + (if ok && !peer then [sp] else [])
    {
      hide Agree, Held, ViewSlots, RootInRange;
      if peer {
        ok := |fromPeer| < queueSize;
        if ok {
          fromPeer := fromPeer + [sp];
          accepted := accepted + [sp];
        }
      } else {
        ok := |incoming| < queueSize;
        if ok {
          incoming := incoming + [sp];
          accepted := accepted + [sp];
        }
      }
    }

    /******* Sending *******/

    /** The transmit loop of send, over spans on which the sampler left its mark. */
    method Transmit(serial: nat, original: seq<Span>, stamped: seq<Span>, d: Decision, cfg: M.Config)
      requires |original| == |stamped|
      modifies this`outcomes
      ensures outcomes == old(outcomes) + seq(|original|, i requires 0 <= i < |original| =>
                M.Transmitted(original[i], M.Dressed(stamped[i], |original|, d, cfg), d.keep, d.rate, Some(serial), cfg, d.mark))
    {
      ghost var outs := seq(|original|, i requires 0 <= i < |original| =>
        M.Transmitted(original[i], M.Dressed(stamped[i], |original|, d, cfg), d.keep, d.rate, Some(serial), cfg, d.mark));
      for i := 0 to |stamped|
        invariant outcomes == old(outcomes) + outs[..i]
      {
        var sp := stamped[i];
        if d.mark.Some? {
          sp := sp.(data := sp.data[d.mark.value.field := StrVal(d.mark.value.text)]);
        }
        if cfg.addRuleReason {
          sp := sp.(data := sp.data[REASON := StrVal(d.reason)]);
        }
        if cfg.addSpanCountToRoot && IsRoot(sp) {
          sp := sp.(data := sp.data[SPAN_COUNT := IntVal(|stamped|)]);
        }
        if cfg.dryRun {
          sp := sp.(data := sp.data[cfg.dryRunField := BoolVal(d.keep)]);
        }
        if cfg.hostname != "" {
          sp := sp.(data := sp.data[HOSTNAME := StrVal(cfg.hostname)]);
        }
        sp := MergeRates(sp, d.rate);
        outcomes := outcomes + [M.Transmitted(original[i], sp, d.keep, d.rate, Some(serial), cfg, d.mark)];
        assert outs[..i + 1] == outs[..i] + [outs[i]];
      }
      assert outs[..|original|] == outs;
    }

    /** send: mark, decide, record, and transmit or drop every span. */
    method Send(t: LiveTrace, ctx: M.Context)
      requires RootInRange(t)
      modifies this`outcomes, this`decisions, t
      ensures decisions == old(decisions) + RecordsOf([old(t.View())], ctx)
      ensures outcomes == old(outcomes) + OutcomesOf([old(t.View())], ctx)
      ensures t.sent && RootInRange(t)
    {
      hide RecordsOf, OutcomesOf, M.Dressed, M.SpanOutcomes, IsRoot, MergeRates;
      ghost var v := t.View();
      LogsOne(v, ctx);
      if t.sent {
        return;
      }
      t.sent := true;
      var original := t.spans;
      if ctx.cfg.addSpanCountToRoot && t.root.Some? {
        var k := t.root.value;
        t.spans := t.spans[k := t.spans[k].(data := t.spans[k].data[SPAN_COUNT := IntVal(|t.spans|)])];
      }
      assert t.View() == M.Stamped(v.(sent := true), ctx.cfg);
      var d := ctx.decide(t.View());
      t.sampleRate := d.rate;
      t.keepSample := d.keep;
      decisions := decisions + [M.Record(t.serial, t.traceID, d.keep, d.rate, |t.spans|)];
      OutcomesSpelled(v, d, ctx.cfg);
      if !d.keep && !ctx.cfg.dryRun {
        outcomes := outcomes + seq(|original|, i requires 0 <= i < |original| => M.Dropped(original[i], d.rate, Some(t.serial)));
      } else {
        Transmit(t.serial, original, t.spans, d, ctx.cfg);
      }
    }

    /** The loops that send a list of traces. */
    method SendEach(ts: seq<LiveTrace>, ctx: M.Context)
      requires Distinct(ts) && forall i :: 0 <= i < |ts| ==> RootInRange(ts[i])
      modifies this`outcomes, this`decisions, ts
      ensures decisions == old(decisions) + RecordsOf(old(Views(ts)), ctx)
      ensures outcomes == old(outcomes) + OutcomesOf(old(Views(ts)), ctx)
    {
      hide RecordsOf, OutcomesOf;
      ghost var v := Views(ts);
      NoLogs(ctx);
      for i := 0 to |ts|
        invariant forall k :: i <= k < |ts| ==> ts[k].View() == v[k] && RootInRange(ts[k])
        invariant decisions == old(decisions) + RecordsOf(v[..i], ctx)
        invariant outcomes == old(outcomes) + OutcomesOf(v[..i], ctx)
      {
        LogsPush(v[..i], v[i], ctx);
        assert v[..i + 1] == v[..i] + [v[i]];
        Send(ts[i], ctx);
      }
      assert v[..|ts|] == v;
    }

    /** Sending traces that have already left the cache. */
    method SendGone(ts: seq<LiveTrace>, ctx: M.Context)
      requires Valid() && Distinct(ts)
      requires forall t :: t in ts ==> RootInRange(t) && t !in Traces()
      modifies this`outcomes, this`decisions, ts
      ensures Valid() && View() == M.SendAll(old(View()), old(Views(ts)), ctx)
      ensures Traces() == old(Traces())
      ensures forall t :: t in Traces() ==> t.View() == old(t.View())
    {
      hide Agree, RecordsOf, OutcomesOf, M.SendAll;
      ghost var s := View();
      SendEach(ts, ctx);
      Untouched(cache.Value().ring.slots);
      SendAllLogs(s, old(Views(ts)), ctx);
    }

    /** TakeExpiredTraces, seen from the collector. */
    method TakeExpired(now: int) returns (gone: seq<LiveTrace>)
      requires Valid()
      modifies cache`index, cache.order
      ensures Valid() && Traces() <= old(Traces())
      ensures Distinct(gone)
      ensures forall t :: t in gone ==> RootInRange(t) && t in old(Traces()) && t !in Traces()
      ensures var slots := old(View().cache.slots);
              var mask := M.ExpiredMask(slots, now);
              && View() == old(View()).(cache := old(View().cache).(slots := M.Without(slots, mask)))
              && Views(gone) == Items(M.Only(slots, mask))
    {
      hide Agree, Items;
      ghost var c, s := cache.Value(), View();
      ghost var mask := cache.Overdue(now);
      assert mask == M.ExpiredMask(s.cache.slots, now);
      ClearIsRemove(c, mask);
      SplitRefs(c, mask);
      MaskViews(c.ring.slots, mask);
      ItemsViews(M.Only(c.ring.slots, mask));
      HeldWithout(c.ring.slots, mask);
      ghost var v := Views(Items(M.Only(c.ring.slots, mask)));
      gone := cache.TakeExpiredTraces(now);
      assert Views(gone) == v;
      Untouched(M.Without(c.ring.slots, mask));
    }

    /** sendTracesInCache. */
    method SendTracesInCache(now: int, ctx: M.Context)
      requires Valid()
      modifies this`outcomes, this`decisions, cache`index, cache.order, Traces()
      ensures Valid() && View() == M.SendExpired(old(View()), now, ctx)
      ensures Traces() <= old(Traces())
      ensures forall t :: t in Traces() ==> t.View() == old(t.View())
      ensures forall i :: 0 <= i < |old(View().cache.slots)| ==>
                View().cache.slots[i] == var was := old(View().cache.slots)[i];
                                         if was.Some? && was.value.sendBy < now then None else was
    {
      hide Agree, Items, M.SendAll, ViewSlots, M.ExpiredMask;
      ExpiredSlots(View(), now, ctx);
      var gone := TakeExpired(now);
      assert forall t :: t in Traces() ==> t in old(Traces()) && t.View() == old(t.View());
      SendGone(gone, ctx);
    }

    /******* Processing a span *******/

    method DealWithSentTrace(r: M.SentRecord, sp: Span, cfg: M.Config)
      modifies this`outcomes
      ensures outcomes == old(outcomes) + [M.LateOutcome(r, sp, cfg)]
    {
      var out := sp;
      if cfg.dryRun {
        out := out.(data := out.data[cfg.dryRunField := BoolVal(r.keep)]);
        if !r.keep {
          outcomes := outcomes + [M.Transmitted(sp, out, r.keep, r.rate, None, cfg)];
          return;
        }
      }
      if r.keep {
        out := MergeRates(out, r.rate);
        if cfg.addSpanCountToRoot && IsRoot(out) {
          out := out.(data := out.data[SPAN_COUNT := IntVal(r.count)]);
        }
        outcomes := outcomes + [M.Transmitted(sp, out, r.keep, r.rate, None, cfg)];
        return;
      }
      outcomes := outcomes + [M.Dropped(sp, r.rate, None)];
    }

    method LateSpan(r: M.SentRecord, sp: Span, cfg: M.Config)
      requires Valid()
      modifies this`outcomes
      ensures Valid() && View() == M.DealWithSent(old(View()), r, sp, cfg)
      ensures Traces() == old(Traces())
    {
      hide Agree, M.LateOutcome, ViewSlots;
      DealWithSentTrace(r, sp, cfg);
    }

    /** A trace is put into the cache. */
    method SetCached(t: LiveTrace) returns (ejected: LiveTrace?)
      requires Valid() && t.traceID !in cache.index && RootInRange(t)
      modifies cache`index, cache`insertPoint, cache.order
      ensures Valid() && cache.Value() == SetTrace(old(cache.Value()), t)
      ensures Traces() <= old(Traces()) + {t}
      ensures View() == old(View()).(cache := old(View()).cache.Put(t.View()))
      ensures M.Victim(old(View().cache)) == if ejected == null then [] else [ejected.View()]
      ensures ejected != null ==> ejected in old(Traces()) && ejected !in Traces() && RootInRange(ejected)
    {
      hide Agree;
      ghost var c, s := cache.Value(), View();
      AbsentSet(c, t);
      PutHeld(c.ring, t);
      assert ViewSlots(c.ring.Put(t).slots) == s.cache.Put(t.View()).slots;
      if c.ring.slots[c.ring.Spot()].Some? {
        OccupantLeaves(c, t);
      }
      ejected := cache.Set(t);
    }

    /** A new trace is put into the cache. */
    method PutTrace(sp: Span, a: M.Arrival, cfg: M.Config) returns (t: LiveTrace, ejected: LiveTrace?)
      requires Valid() && sp.traceID !in cache.index
      modifies this`nextSerial, cache`index, cache`insertPoint, cache.order
      ensures Valid() && fresh(t) && cache.Value() == SetTrace(old(cache.Value()), t)
      ensures Traces() <= old(Traces()) + {t}
      ensures View() == (var s := old(View());
                         s.(cache := s.cache.Put(M.NewTrace(s.nextSerial, sp, a, cfg)), nextSerial := s.nextSerial + 1))
      ensures M.Victim(old(View().cache)) == if ejected == null then [] else [ejected.View()]
      ensures ejected != null ==> ejected in old(Traces()) && ejected !in Traces() && RootInRange(ejected)
    {
      hide Agree, SetTrace, M.Victim;
      AgreeRing(cache.Value());
      ghost var s := View();
      t := new LiveTrace(M.NewTrace(nextSerial, sp, a, cfg));
      nextSerial := nextSerial + 1;
      assert View() == s.(nextSerial := s.nextSerial + 1);
      ejected := SetCached(t);
    }

    /** A new trace is put into the cache, and an unsent trace this pushes out is sent. */
    method CreateTrace(sp: Span, a: M.Arrival, ctx: M.Context) returns (t: LiveTrace)
      requires Valid() && sp.traceID !in cache.index
      modifies this`outcomes, this`decisions, this`nextSerial, cache`index, cache`insertPoint, cache.order, Traces()
      ensures Valid() && View() == M.Create(old(View()), sp, a, ctx)
      ensures fresh(t) && Traces() <= old(Traces()) + {t}
      ensures cache.Value() == SetTrace(old(cache.Value()), t)
    {
      hide M.SendAll, Agree, M.NewTrace, SetTrace, ViewSlots, Held;
      ghost var s := View();
      AgreeRing(cache.Value());
      var ejected;
      t, ejected := PutTrace(sp, a, ctx.cfg);
      ghost var s1 := View();
      SendNone(s1, ctx);
      if ejected != null {
        assert Views([ejected]) == [ejected.View()];
        SendGone([ejected], ctx);
      }
    }

    /** AddSpan, and the deadline a root span sets. */
    method Extend(t: LiveTrace, sp: Span, a: M.Arrival, cfg: M.Config)
      requires RootInRange(t)
      modifies t
      ensures RootInRange(t) && t.View() == M.Extended(old(t.View()), sp, a, cfg)
    {
      var added := t.AddSpan(sp.(seenAt := a.seen), a.added);
      if IsRoot(added) {
        t.sendBy := a.seen + cfg.Delay();
        t.root := Some(|t.spans| - 1);
      }
    }

    /** The tail of processSpan: the span joins the trace, and a root span sets the deadline. */
    method AttachSpan(t: LiveTrace, ghost k: nat, sp: Span, a: M.Arrival, ctx: M.Context)
      requires Valid() && k < |cache.Value().ring.slots| && cache.Value().ring.slots[k] == Some(t)
      modifies this`outcomes, t
      ensures Valid() && View() == M.Attach(old(View()), k, sp, a, ctx)
      ensures Traces() == old(Traces())
    {
      hide Agree, M.Extended, M.LateOutcome, RootInRange;
      ghost var slots := cache.Value().ring.slots;
      OnlySlot(cache.Value(), k);
      assert t in Held(slots);
      if t.sent {
        DealWithSentTrace(M.SentRecord(t.keepSample, t.sampleRate, |t.spans|), sp, ctx.cfg);
      }
      Extend(t, sp, a, ctx.cfg);
      assert cache.Value().ring.slots == slots;
    }

    lemma Parts()
      requires Valid()
      ensures Agree(cache.Value()) && cache.Value().ring.Valid() && View().cache.Valid()
      ensures View().cache.slots == ViewSlots(cache.Value().ring.slots)
      ensures View().cache.Spot() == cache.Value().ring.Spot()
      ensures Traces() == Held(cache.Value().ring.slots)
    {
      hide ViewSlots;
    }

    lemma GetReads(id: string)
      ensures cache.Get(id) == if id in cache.index then cache.index[id] else null
      ensures cache.Value().index == cache.index
    {
    }

    method ProcessSpan(sp: Span, a: M.Arrival, ctx: M.Context)
      requires Valid()
      modifies this`outcomes, this`decisions, this`nextSerial, cache`index, cache`insertPoint, cache.order, Traces()
      ensures Valid() && View() == M.ProcessSpan(old(View()), sp, a, ctx)
      ensures fresh(Traces() - old(Traces()))
    {
      hide *;
      Parts();
      ghost var c, s := cache.Value(), View();
      FindsIndexed(c, sp.traceID);
      ProcessCases(s, sp, a, ctx);
      ghost var k := M.Find(s.cache.slots, sp.traceID);
      var t := cache.Get(sp.traceID);
      GetReads(sp.traceID);
      if t == null {
        if a.answer.Some? {
          LateSpan(a.answer.value, sp, ctx.cfg);
          return;
        }
        var made := CreateTrace(sp, a, ctx);
        PutLands(c, made);
        AttachSpan(made, c.ring.Spot(), sp, a, ctx);
        return;
      }
      HeldMember(c.ring.slots, k.value);
      AttachSpan(t, k.value, sp, a, ctx);
    }

    lemma NoTraces(capacity: nat)
      requires View() == M.Initial(capacity)
      ensures Traces() == {}
    {
      forall i | 0 <= i < |cache.Value().ring.slots| ensures cache.Value().ring.slots[i].None? {
        assert View().cache.slots[i].None?;
      }
    }

    /** A span is taken from a queue and processed. */
    method TakeSpan(peer: bool, a: M.Arrival, ctx: M.Context)
      requires Valid() && (if peer then fromPeer else incoming) != []
      modifies this`incoming, this`fromPeer, this`outcomes, this`decisions, this`nextSerial,
               cache`index, cache`insertPoint, cache.order, Traces()
      ensures Valid() && M.Enabled(old(View()), M.Process(peer, a, ctx))
      ensures View() == M.Apply(old(View()), M.Process(peer, a, ctx))
      ensures fresh(Traces() - old(Traces()))
    {
      hide Agree, ViewSlots, M.ProcessSpan;
      Parts();
      var sp;
      if peer {
        sp := fromPeer[0];
        fromPeer := fromPeer[1..];
      } else {
        sp := incoming[0];
        incoming := incoming[1..];
      }
      ProcessSpan(sp, a, ctx);
    }

    /******* Rebuilding the cache *******/

    lemma Fields()
      ensures View() == M.State(View().cache, queueSize, incoming, fromPeer, nextSerial, accepted, outcomes, decisions)
      ensures |View().cache.slots| == cache.CacheSize()
    {
    }

    /** A rebuilt cache replaces the old one. */
    method Install(c: InMemCache, ghost capacity: nat, ghost kept: seq<LiveTrace>, ghost v: seq<Trace>)
      requires |kept| <= RingSize(capacity) && Views(kept) == v
      requires Agree(c.Value()) && c.Value().ring == PutAll(Empty(capacity), kept)
      requires forall t :: t in kept ==> RootInRange(t)
      modifies this`cache
      ensures Valid() && cache == c
      ensures View() == M.State(PutAll(Empty(capacity), v), queueSize, incoming, fromPeer,
                                nextSerial, accepted, outcomes, decisions)
      ensures Traces() == SetOf(kept)
    {
      hide Agree, PutAll;
      RebuiltHeld(capacity, kept);
      cache := c;
      RebuiltView(capacity, kept);
    }

    /** GetAll, seen from the collector. */
    method CachedTraces() returns (all: seq<LiveTrace>)
      requires Valid()
      ensures Valid() && View() == old(View()) && Traces() == old(Traces())
      ensures IdsDiffer(all) && SetOf(all) == Traces()
      ensures forall t :: t in all ==> RootInRange(t)
      ensures all == Items(cache.Value().ring.slots) && Views(all) == Items(View().cache.slots)
    {
      hide Agree, Items;
      all := cache.GetAll();
      ItemIdsDiffer(cache.Value());
      ItemsViews(cache.Value().ring.slots);
    }

    /** The loop of reloadConfigs: the first `cap` traces are Set into `c`, the others sent. */
    method Redistribute(all: seq<LiveTrace>, c: InMemCache, cap: nat, ctx: M.Context) returns (ghost lo: nat)
      requires IdsDiffer(all) && forall t :: t in all ==> RootInRange(t)
      requires Agree(c.Value()) && c.Value().ring == Empty(cap)
      modifies this`outcomes, this`decisions, all, c`index, c`insertPoint, c.order
      ensures lo == if cap < |all| then cap else |all|
      ensures Agree(c.Value()) && c.Value().ring == PutAll(Empty(cap), all[..lo])
      ensures Views(all[..lo]) == old(Views(all))[..lo] && forall t :: t in all[..lo] ==> RootInRange(t)
      ensures decisions == old(decisions) + RecordsOf(old(Views(all))[lo..], ctx)
      ensures outcomes == old(outcomes) + OutcomesOf(old(Views(all))[lo..], ctx)
    {
      hide Agree, RecordsOf, OutcomesOf, PutAll, IdsDiffer, RootInRange;
      ghost var v := Views(all);
      NoLogs(ctx);
      PutNothing(cap);
      lo := 0;
      for j := 0 to |all|
        invariant lo == if j < cap then j else cap
        invariant Agree(c.Value()) && c.Value().ring == PutAll(Empty(cap), all[..lo])
        invariant c.order == old(c.order)
        invariant forall k :: 0 <= k < |all| && (k < cap || j <= k) ==> all[k].View() == v[k] && RootInRange(all[k])
        invariant decisions == old(decisions) + RecordsOf(v[lo..j], ctx)
        invariant outcomes == old(outcomes) + OutcomesOf(v[lo..j], ctx)
      {
        OthersDiffer(all, j);
        if j >= cap {
          LogsPush(v[lo..j], v[j], ctx);
          SliceSnoc(v, lo, j);
          Send(all[j], ctx);
        } else {
          assert all[..j + 1] == all[..j] + [all[j]];
          SetNext(c, all[j], cap, all[..j]);
          assert v[lo..j] == [];
          lo := lo + 1;
          assert v[lo..j + 1] == [];
        }
      }
      assert v[lo..|all|] == v[lo..];
    }

    /** reloadConfigs: the cache is rebuilt if its capacity changed. */
    method ReloadConfigs(ctx: M.Context)
      requires Valid()
      modifies this`cache, this`outcomes, this`decisions, Traces()
      ensures Valid() && View() == M.Reload(old(View()), ctx)
      ensures Traces() <= old(Traces())
      ensures cache == old(cache) || (fresh(cache) && fresh(cache.order))
    {
      hide Agree, Items, M.SendAll, M.Reload, RecordsOf, OutcomesOf, PutAll, View, Valid, Traces, Views, RingSize;
      ghost var s := View();
      var cap := ctx.cfg.capacity;
      Fields();
      if cap == cache.CacheSize() {
        ReloadSame(s, ctx);
        return;
      }
      var all := CachedTraces();
      ghost var v := Views(all);
      var c := new InMemCache(cap);
      ghost var lo := Redistribute(all, c, cap, ctx);
      FitsRing(cap, lo);
      Install(c, cap, all[..lo], v[..lo]);
      SliceMembers(all, lo);
      ReloadIs(s, v, lo, ctx);
      Rebuilt(s, PutAll(Empty(cap), v[..lo]), v[lo..], outcomes, decisions, ctx);
    }

    /** The second loop of oldCheckAlloc. */
    method SetEach(ts: seq<LiveTrace>, c: InMemCache, cap: nat)
      requires IdsDiffer(ts) && |ts| <= RingSize(cap)
      requires Agree(c.Value()) && c.Value().ring == Empty(cap)
      modifies c`index, c`insertPoint, c.order
      ensures Agree(c.Value()) && c.Value().ring == PutAll(Empty(cap), ts)
    {
      hide Agree, PutAll;
      PutNothing(cap);
      for j := 0 to |ts|
        invariant Agree(c.Value()) && c.Value().ring == PutAll(Empty(cap), ts[..j])
        invariant c.order == old(c.order)
      {
        assert ts[..j + 1] == ts[..j] + [ts[j]];
        SetNext(c, ts[j], cap, ts[..j]);
      }
      assert ts[..|ts|] == ts;
    }

    /** Every cached trace, sorted by deadline. */
    method CachedByDeadline() returns (sorted: seq<LiveTrace>)
      requires Valid()
      ensures Valid() && View() == old(View()) && Traces() == old(Traces())
      ensures IdsDiffer(sorted) && Distinct(sorted)
      ensures SetOf(sorted) == Traces()
      ensures forall t :: t in sorted ==> RootInRange(t)
      ensures multiset(Views(sorted)) == multiset(Items(View().cache.slots))
      ensures M.SortedByDeadline(Views(sorted))
    {
      hide Agree, Items, M.SortedByDeadline, View, Valid, Traces, IdsDiffer, RootInRange, Views;
      var all := CachedTraces();
      sorted := SortByDeadline(all);
      IdsDifferPermuted(all, sorted);
      assert forall t :: t in sorted ==> t in SetOf(sorted);
      ImagesPermuted(all, sorted, Views(all), Views(sorted));
    }

    /** The two loops of oldCheckAlloc: send the first `m`, Set the rest into `c`. */
    method SendFirst(sorted: seq<LiveTrace>, m: nat, c: InMemCache, cap: nat, ctx: M.Context)
      requires IdsDiffer(sorted) && Distinct(sorted) && m <= |sorted| && |sorted| - m <= RingSize(cap)
      requires forall t :: t in sorted ==> RootInRange(t)
      requires Agree(c.Value()) && c.Value().ring == Empty(cap)
      modifies this`outcomes, this`decisions, sorted, c`index, c`insertPoint, c.order
      ensures Agree(c.Value()) && c.Value().ring == PutAll(Empty(cap), sorted[m..])
      ensures Views(sorted[m..]) == old(Views(sorted))[m..] && forall t :: t in sorted[m..] ==> RootInRange(t)
      ensures decisions == old(decisions) + RecordsOf(old(Views(sorted))[..m], ctx)
      ensures outcomes == old(outcomes) + OutcomesOf(old(Views(sorted))[..m], ctx)
    {
      hide Agree, RecordsOf, OutcomesOf, PutAll;
      var gone, kept := sorted[..m], sorted[m..];
      assert Views(gone) == Views(sorted)[..m];
      SendEach(gone, ctx);
      SetEach(kept, c, cap);
      assert forall i :: 0 <= i < |kept| ==> kept[i] !in gone;
    }

    /** The rebuilding half of oldCheckAlloc. */
    method ShrinkCache(sorted: seq<LiveTrace>, ctx: M.Context)
      requires Valid() && IdsDiffer(sorted) && Distinct(sorted)
      requires forall t :: t in sorted ==> RootInRange(t)
      modifies this`cache, this`outcomes, this`decisions, sorted
      ensures Valid() && View() == M.Shrink(old(View()), old(Views(sorted)), ctx)
      ensures Traces() <= SetOf(sorted)
      ensures fresh(cache) && fresh(cache.order)
    {
      hide Agree, Items, M.SendAll, M.Shrink, RecordsOf, OutcomesOf, PutAll, View, Valid, Traces, Held, ViewSlots, IdsDiffer,
           Distinct, Views;
      ghost var s, order := View(), Views(sorted);
      Fields();
      var n := |sorted|;
      var newCap := 9 * n / 10;
      var c := new InMemCache(newCap);
      SendFirst(sorted, n - newCap, c, newCap, ctx);
      SliceMembers(sorted, n - newCap);
      Install(c, newCap, sorted[n - newCap..], order[n - newCap..]);
      ShrinkIs(s, order, ctx);
      Rebuilt(s, PutAll(Empty(newCap), order[n - newCap..]), order[..n - newCap], outcomes, decisions, ctx);
    }

    /** oldCheckAlloc: over the limit, the earliest tenth is sent and the rest rebuilt. */
    method OldCheckAlloc(mem: nat, ctx: M.Context) returns (ghost order: seq<Trace>)
      requires Valid()
      modifies this`cache, this`outcomes, this`decisions, Traces()
      ensures Valid() && Traces() <= old(Traces())
      ensures !M.Shrinks(old(View()), ctx.cfg, mem) ==> View() == old(View())
      ensures M.Shrinks(old(View()), ctx.cfg, mem)
              <==> ctx.cfg.capacityKnown && ctx.cfg.maxAlloc != 0 && mem >= ctx.cfg.maxAlloc && old(cache.order.Length) >= 100
      ensures M.Shrinks(old(View()), ctx.cfg, mem) ==>
                && multiset(order) == multiset(Items(old(View()).cache.slots)) && M.SortedByDeadline(order)
                && View() == M.Shrink(old(View()), order, ctx)
      ensures cache == old(cache) || (fresh(cache) && fresh(cache.order))
    {
      hide Items, M.Shrink, M.SortedByDeadline, View, Valid, Traces;
      order := [];
      Fields();
      if !ctx.cfg.capacityKnown || ctx.cfg.maxAlloc == 0 || mem < ctx.cfg.maxAlloc {
        return;
      }
      if cache.CacheSize() < 100 {
        return;
      }
      var sorted := CachedByDeadline();
      order := Views(sorted);
      ShrinkCache(sorted, ctx);
    }

    /******* Impact eviction *******/

    /** No cached span arrived after what the clock shows from now on. */
    ghost predicate Timely(clock: nat -> int, timeout: int)
      reads this, cache, cache.order, Traces()
    {
      forall t :: t in Traces() ==> Calm(t.View(), clock, timeout)
    }

    /** Asking every cached trace for its impact, in the course of the sort. */
    method MemoiseCached(timeout: int, clock: nat -> int)
      returns (all: seq<LiveTrace>, sorted: seq<LiveTrace>, ghost clk: M.Clock)
      requires Valid() && timeout != 0
      modifies Traces()
      ensures Valid() && cache.Value() == old(cache.Value())
      ensures View() == old(View()).(cache := old(View().cache).(slots := M.MemoSlots(old(View().cache.slots), clk, timeout)))
      ensures all == Items(cache.Value().ring.slots) && IdsDiffer(all) && SetOf(all) == old(Traces()) == Traces()
      ensures multiset(sorted) == multiset(all)
      ensures |all| > 1 ==> forall i :: 0 <= i < |all| ==> clk(all[i].traceID).Some?
      ensures old(Timely(clock, timeout)) ==> ByImpact(sorted)
    {
      hide Agree, Items, M.MemoSlots, ByImpact, Calm, AllMaybe, AllAsked, Matches, RootsSeen, RootInRange;
      all := CachedTraces();
      ghost var v, c, s := Views(all), cache.Value(), View();
      Shown(c.ring.slots, all);
      assert Timely(clock, timeout) ==> AllCalm(v, clock, timeout);
      sorted := SortByImpact(all, timeout, clock);
      assert cache.Value() == c;
      clk := SortDone(c.ring.slots, all, v, s.cache.slots, timeout);
    }

    /** Every cached trace, in order of impact if the clock does not run behind; asking for the
        impacts memoises them. */
    method CachedByImpact(timeout: int, clock: nat -> int) returns (sorted: seq<LiveTrace>, ghost clk: M.Clock)
      requires Valid() && timeout != 0
      modifies Traces()
      ensures Valid() && cache.Value() == old(cache.Value())
      ensures View() == old(View()).(cache := old(View().cache).(slots := M.MemoSlots(old(View().cache.slots), clk, timeout)))
      ensures IdsDiffer(sorted) && SetOf(sorted) == Traces() == old(Traces())
      ensures multiset(Views(sorted)) == multiset(Items(View().cache.slots))
      ensures AllWeighed(Items(old(View().cache.slots)), clk)
      ensures old(Timely(clock, timeout)) ==> M.SortedByImpact(Views(sorted))
    {
      hide Agree, Items, M.MemoSlots, Valid, Traces, Timely;
      ItemsViews(cache.Value().ring.slots);
      ghost var v := Views(Items(cache.Value().ring.slots));
      assert v == Items(View().cache.slots);
      var all;
      all, sorted, clk := MemoiseCached(timeout, clock);
      assert forall i :: 0 <= i < |v| ==> v[i].traceID == all[i].traceID;
      IdsDifferPermuted(all, sorted);
      ImagesPermuted(all, sorted, Views(all), Views(sorted));
      ItemsViews(cache.Value().ring.slots);
    }

    /** The eviction loop: traces are sent in order until their data outweighs the overage. */
    method SendHeaviest(sorted: seq<LiveTrace>, over: int, ctx: M.Context) returns (ids: set<string>, ghost k: nat)
      requires IdsDiffer(sorted) && forall t :: t in SetOf(sorted) ==> RootInRange(t)
      modifies this`outcomes, this`decisions, sorted
      ensures M.IsCut(old(Views(sorted)), over, k) && ids == M.IdsOf(old(Views(sorted))[..k])
      ensures decisions == old(decisions) + RecordsOf(old(Views(sorted))[..k], ctx)
      ensures outcomes == old(outcomes) + OutcomesOf(old(Views(sorted))[..k], ctx)
      ensures forall i :: k <= i < |sorted| ==> sorted[i].View() == old(sorted[i].View())
      ensures forall i :: 0 <= i < |sorted| ==> RootInRange(sorted[i])
    {
      hide RecordsOf, OutcomesOf, M.Weight, M.IdsOf, M.IsCut, RootInRange;
      ghost var v := Views(sorted);
      var total, i := 0, 0;
      ids := {};
      k := 0;
      NoLogs(ctx);
      WeighNothing();
      assert forall j :: 0 <= j < |sorted| ==> sorted[j] in SetOf(sorted);
      while i < |sorted|
        invariant 0 <= i == k <= |sorted|
        invariant total == M.Weight(v[..i]) && ids == M.IdsOf(v[..i])
        invariant forall j :: 1 <= j <= i ==> M.Weight(v[..j]) <= over
        invariant forall j :: i <= j < |sorted| ==> sorted[j].View() == v[j]
        invariant forall j :: 0 <= j < |sorted| ==> RootInRange(sorted[j])
        invariant decisions == old(decisions) + RecordsOf(v[..i], ctx)
        invariant outcomes == old(outcomes) + OutcomesOf(v[..i], ctx)
      {
        var t := sorted[i];
        Weigh(v, i);
        LogsPush(v[..i], v[i], ctx);
        assert v[..i + 1] == v[..i] + [v[i]];
        ids := ids + {t.traceID};
        total := total + t.dataSize;
        Send(t, ctx);
        i := i + 1;
        k := i;
        if total > over {
          break;
        }
      }
      CutFound(v, over, k);
    }

    /** RemoveTraces of IDs whose traces were sent; the traces that stay were not touched. */
    method RemoveSent(ids: set<string>)
      requires Valid()
      modifies cache`index, cache.order
      ensures Valid() && Traces() <= old(Traces())
      ensures var slots := old(View().cache.slots);
              View() == old(View()).(cache := old(View().cache).(slots := M.Without(slots, M.IdMask(slots, ids))))
    {
      hide Agree;
      ghost var c, s := cache.Value(), View();
      ghost var mask := IdMask(c.ring.slots, ids);
      assert mask == M.IdMask(s.cache.slots, ids);
      RemoveTracesIsRemove(c, ids);
      MaskViews(c.ring.slots, mask);
      HeldWithout(c.ring.slots, mask);
      cache.RemoveTraces(ids);
      Untouched(M.Without(c.ring.slots, mask));
    }

    /** Sending the heaviest traces leaves the others, in every slot, as they were. */
    method SendFromCache(sorted: seq<LiveTrace>, over: int, ctx: M.Context) returns (ids: set<string>, ghost k: nat)
      requires Valid() && IdsDiffer(sorted) && SetOf(sorted) == Traces()
      modifies this`outcomes, this`decisions, sorted
      ensures Valid() && Traces() == old(Traces())
      ensures M.IsCut(old(Views(sorted)), over, k) && ids == M.IdsOf(old(Views(sorted))[..k])
      ensures View() == old(View()).(cache := View().cache, outcomes := outcomes, decisions := decisions)
      ensures View().cache.next == old(View().cache.next)
      ensures decisions == old(decisions) + RecordsOf(old(Views(sorted))[..k], ctx)
      ensures outcomes == old(outcomes) + OutcomesOf(old(Views(sorted))[..k], ctx)
      ensures M.Without(View().cache.slots, M.IdMask(View().cache.slots, ids))
              == M.Without(old(View().cache.slots), M.IdMask(old(View().cache.slots), ids))
    {
      hide Agree, RecordsOf, OutcomesOf, M.Weight, M.Without, M.IdMask;
      ghost var slots, was := cache.Value().ring.slots, View().cache.slots;
      ids, k := SendHeaviest(sorted, over, ctx);
      assert cache.Value().ring.slots == slots;
      assert forall t :: t in SetOf(sorted) ==> RootInRange(t);
      ghost var v := old(Views(sorted));
      forall i | 0 <= i < |slots| && slots[i].Some?
        ensures slots[i].value.traceID in ids || slots[i].value.View() == old(slots[i].value.View())
      {
        assert slots[i].value in SetOf(sorted);
        var j :| 0 <= j < |sorted| && sorted[j] == slots[i].value;
        if j < k { assert v[..k][j].traceID in ids; }
      }
      ClearedAlike(View().cache.slots, was, ids);
    }

    /** newCheckAlloc: over the limit, the traces with most impact are sent and removed. */
    method NewCheckAlloc(mem: nat, clock: nat -> int, ctx: M.Context) returns (ghost r: M.Reading)
      requires Valid() && ctx.cfg.byImpact && (M.Over(ctx.cfg, mem) ==> ctx.cfg.Timeout() != 0)
      modifies this`outcomes, this`decisions, cache`index, cache.order, Traces()
      ensures r.mem == mem && M.AllocInputs(old(View()), r, ctx.cfg)
      ensures !(ctx.cfg.capacityKnown && ctx.cfg.maxAlloc != 0 && mem >= ctx.cfg.maxAlloc) ==> View() == old(View())
      ensures M.Over(ctx.cfg, mem) && old(Timely(clock, ctx.cfg.Timeout())) ==> M.InImpactOrder(old(View()), r)
      ensures Valid() && View() == M.CheckAlloc(old(View()), r, ctx) && Traces() <= old(Traces())
    {
      hide Agree, Items, RecordsOf, OutcomesOf, M.Weight, M.Without, M.IdMask, M.SendAll, M.MemoSlots, View, Valid, Traces,
           M.SortedByImpact, Timely;
      ghost var s := View();
      Fields();
      r := M.Reading(0, mem, [], 0, _ => None);
      if !ctx.cfg.capacityKnown || ctx.cfg.maxAlloc == 0 || mem < ctx.cfg.maxAlloc {
        return;
      }
      var toRemove := mem - ctx.cfg.maxAlloc;
      var timeout := ctx.cfg.Timeout();
      var sorted; ghost var clk;
      sorted, clk := CachedByImpact(timeout, clock);
      ghost var order, s1 := Views(sorted), View();
      Fields();
      var ids; ghost var k;
      ids, k := SendFromCache(sorted, M.AsInt64(toRemove), ctx);
      r := M.Reading(0, mem, order, k, clk);
      RemoveSent(ids);
      SendAllLogs(s.(cache := s.cache.(slots := M.Without(s1.cache.slots, M.IdMask(s1.cache.slots, ids)))), order[..k], ctx);
    }

    /******* Tick and flush *******/

    /** One tick: expired traces are sent, then memory is checked by the configured strategy. */
    method Tick(now: int, mem: nat, clock: nat -> int, ctx: M.Context) returns (ghost r: M.Reading)
      requires Valid()
      requires ctx.cfg.byImpact && M.Over(ctx.cfg, mem) ==> ctx.cfg.Timeout() != 0
      modifies this`cache, this`outcomes, this`decisions, cache`index, cache.order, Traces()
      ensures M.Enabled(old(View()), M.Tick(r, ctx)) && View() == M.Apply(old(View()), M.Tick(r, ctx))
      ensures r.now == now && r.mem == mem
      ensures ctx.cfg.byImpact && M.Over(ctx.cfg, mem) && old(Timely(clock, ctx.cfg.Timeout())) ==>
                M.InImpactOrder(M.SendExpired(old(View()), now, ctx), r)
      ensures Valid() && Traces() <= old(Traces())
      ensures (cache == old(cache) && cache.order == old(cache.order)) || (fresh(cache) && fresh(cache.order))
    {
      hide Agree, Items, M.SendExpired, M.Shrink, M.Evict, Valid, Traces, View, Calm, M.SortedByDeadline, M.SortedByImpact;
      Parts();
      SendTracesInCache(now, ctx);
      assert old(Timely(clock, ctx.cfg.Timeout())) ==> Timely(clock, ctx.cfg.Timeout());
      if ctx.cfg.byImpact {
        r := NewCheckAlloc(mem, clock, ctx);
        r := r.(now := now);
      } else {
        ghost var order := OldCheckAlloc(mem, ctx);
        r := M.Reading(now, mem, order, 0, _ => None);
      }
    }

    /** Stop: everything still cached is sent. */
    method Stop(ctx: M.Context)
      requires Valid()
      modifies this`outcomes, this`decisions, Traces()
      ensures decisions == M.Flush(old(View()), ctx).decisions
      ensures outcomes == M.Flush(old(View()), ctx).outcomes
    {
      hide Agree, Items, M.SendAll, RecordsOf, OutcomesOf;
      ghost var s := View();
      var all := CachedTraces();
      assert forall i :: 0 <= i < |all| ==> all[i] in SetOf(all);
      SendEach(all, ctx);
      SendAllLogs(s, Items(s.cache.slots), ctx);
    }
  }
}
