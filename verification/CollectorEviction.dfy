/** Where each span is in a reachable state, and how traces leave the cache: reload, the 10%
    shrink, impact eviction, the tick and the final flush. `Inv` holds in every reachable
    state (CollectorSafety.RunKeeps).
 */
module CollectorEviction {
  import opened Events
  import opened Ring
  import opened CollectorModel
  import opened CollectorHistory
  import opened CollectorSafety

  /******* One place per span *******/

  lemma {:induction false} BagOfZero(ts: seq<Trace>, x: Span)
    requires BagOf(ts)[x] == 0
    ensures forall i :: 0 <= i < |ts| ==> Bag(ts[i].spans)[x] == 0
  {
    if ts != [] {
      var n := |ts| - 1;
      BagOfZero(ts[..n], x);
      forall i | 0 <= i < |ts| ensures Bag(ts[i].spans)[x] == 0 {
        assert i < n ==> ts[..n][i] == ts[i];
      }
    }
  }

  lemma {:induction false} BagOfOnce(ts: seq<Trace>, x: Span) returns (k: nat)
    requires BagOf(ts)[x] == 1
    ensures k < |ts| && Bag(ts[k].spans)[x] == 1
    ensures forall i :: 0 <= i < |ts| && i != k ==> Bag(ts[i].spans)[x] == 0
  {
    hide Bag, Core;
    var n := |ts| - 1;
    if Bag(ts[n].spans)[x] == 1 {
      k := n;
      BagOfZero(ts[..n], x);
      assert forall i :: 0 <= i < n ==> ts[..n][i] == ts[i];
    } else {
      k := BagOfOnce(ts[..n], x);
      assert forall i :: 0 <= i < n ==> ts[..n][i] == ts[i];
    }
  }

  lemma {:induction false} OutBagOnce(outs: seq<Outcome>, x: Span) returns (k: nat)
    requires OutBag(outs)[x] == 1
    ensures k < |outs| && Core(outs[k].before) == x
    ensures forall i :: 0 <= i < |outs| && i != k ==> Core(outs[i].before) != x
  {
    var n := |outs| - 1;
    if Core(outs[n].before) == x {
      k := n;
      OutBagZero(outs[..n], x);
      assert forall i :: 0 <= i < n ==> outs[..n][i] == outs[i];
    } else {
      k := OutBagOnce(outs[..n], x);
      assert forall i :: 0 <= i < n ==> outs[..n][i] == outs[i];
    }
  }

  ghost predicate PendingInOne(ts: seq<Trace>, x: Span) {
    exists k :: 0 <= k < |ts| && Bag(ts[k].spans)[x] == 1
             && forall i :: 0 <= i < |ts| && i != k ==> Bag(ts[i].spans)[x] == 0
  }

  ghost predicate SettledOnce(outs: seq<Outcome>, x: Span) {
    exists k :: 0 <= k < |outs| && Core(outs[k].before) == x
             && forall i :: 0 <= i < |outs| && i != k ==> Core(outs[i].before) != x
  }

  ghost predicate Nowhere(ts: seq<Trace>, outs: seq<Outcome>, x: Span) {
    BagOf(ts)[x] == 0 && OutBag(outs)[x] == 0
  }

  ghost predicate UidsDiffer(spans: seq<Span>) {
    forall i, j :: 0 <= i < j < |spans| ==> spans[i].uid != spans[j].uid
  }

  /** Spans with identities of their own are accepted once each. */
  lemma {:induction false} AcceptedOnce(spans: seq<Span>, k: nat)
    requires UidsDiffer(spans) && k < |spans|
    ensures Bag(spans)[Core(spans[k])] == 1
  {
    var n := |spans| - 1;
    BagCounts(spans[..n], Core(spans[k]));
    if k < n { AcceptedOnce(spans[..n], k); }
  }

  /** After every run a span that was accepted once is in exactly one place: in one queue, in
      exactly one cached trace, or settled by exactly one outcome; and there it has the trace ID,
      rate and data it was accepted with. */
  lemma ExactlyOnePlace(capacity: nat, steps: seq<Step>, s: State, rule: (State, Step) -> bool, sp: Span)
    requires Run(Initial(capacity), steps, s, rule)
    requires Bag(s.accepted)[Core(sp)] == 1
    ensures var x := Core(sp);
            var queued := Bag(s.incoming)[x] + Bag(s.fromPeer)[x];
            || (queued == 1 && Nowhere(Cached(s), s.outcomes, x))
            || (queued == 0 && PendingInOne(Cached(s), x) && OutBag(s.outcomes)[x] == 0)
            || (queued == 0 && BagOf(Cached(s))[x] == 0 && SettledOnce(s.outcomes, x))
  {
    hide Run, Items, Core;
    var x := Core(sp);
    Conservation(capacity, steps, s, rule);
    if BagOf(Cached(s))[x] == 1 { var _ := BagOfOnce(Cached(s), x); }
    if OutBag(s.outcomes)[x] == 1 { var _ := OutBagOnce(s.outcomes, x); }
  }

  /** Stop's flush settles every span that was not still queued. */
  lemma FlushSettlesEverything(s: State, ctx: Context)
    requires Inv(s)
    ensures Bag(s.accepted) == Bag(s.incoming) + Bag(s.fromPeer) + OutBag(Flush(s, ctx).outcomes)
  {
    hide Alive, BagOf, OutBag, Items, Bag;
    var empty := Empty<Trace>(1);
    assert Items(empty.slots) == [] by { NoItems(empty.slots); }
    HandOver(s, [], empty, Cached(s), multiset{}, ctx);
    var s' := SendAll(s.(cache := empty), Cached(s), ctx);
    HoldingParts(s', multiset{});
    SendAllFrame(s.(cache := empty), Cached(s), ctx);
    SendAllSame(s, s.(cache := empty), Cached(s), ctx);
    EmptyBag();
  }

  lemma EmptyBag()
    ensures BagOf([]) == multiset{}
  {
  }

  /******* What is sent *******/

  ghost predicate Unsent(ts: seq<Trace>) {
    forall i :: 0 <= i < |ts| ==> !ts[i].sent
  }

  /** Sending records one decision per trace, in order. */
  lemma {:induction false} SendAllRecords(s: State, ts: seq<Trace>, ctx: Context)
    requires Unsent(ts)
    ensures SendAll(s, ts, ctx).decisions
            == s.decisions + seq(|ts|, i requires 0 <= i < |ts| => RecordOf(ts[i], Decide(ts[i], ctx)))
  {
    if ts != [] {
      SendAllRecords(s, ts[..|ts| - 1], ctx);
    }
  }

  lemma CachedAllUnsent(s: State, ts: seq<Trace>)
    requires Inv(s) && multiset(ts) <= multiset(Cached(s))
    ensures Unsent(ts)
  {
    hide Items, BagOf, Bag, OutBag;
    HoldingParts(s, multiset{});
    forall i | 0 <= i < |ts| ensures !ts[i].sent {
      assert ts[i] in multiset(ts);
      assert ts[i] in multiset(Cached(s));
    }
  }

  /** `gone` were decided, in this order and nothing else; `left` stayed. Together they are the
      traces that were cached, each once. */
  ghost predicate SplitOf(before: State, after: State, gone: seq<Trace>, left: seq<Trace>, ctx: Context) {
    && multiset(Cached(before)) == multiset(left) + multiset(gone)
    && (forall t :: t in Cached(before) ==> multiset(Cached(before))[t] == 1)
    && Cached(after) == left
    && after.decisions == before.decisions + seq(|gone|, i requires 0 <= i < |gone| => RecordOf(gone[i], Decide(gone[i], ctx)))
  }

  lemma CachedOnce(s: State)
    requires Inv(s)
    ensures forall t :: t in Cached(s) ==> multiset(Cached(s))[t] == 1
  {
    hide Items, BagOf, Bag, OutBag;
    HoldingParts(s, multiset{});
    forall t | t in Cached(s) ensures multiset(Cached(s))[t] == 1 { assert t in multiset(Cached(s)); }
  }

  lemma RebuildSplits(s: State, all: seq<Trace>, gone: seq<Trace>, kept: seq<Trace>, capacity: nat, ctx: Context)
    requires Inv(s) && |kept| <= RingSize(capacity)
    requires multiset(all) == multiset(Cached(s)) == multiset(kept) + multiset(gone)
    ensures SplitOf(s, SendAll(s.(cache := PutAll(Empty(capacity), kept)), gone, ctx), gone, kept, ctx)
  {
    hide Items, BagOf, Bag, OutBag, Alive, Settled, DecidedOnce;
    var s1 := s.(cache := PutAll(Empty(capacity), kept));
    CachedOnce(s);
    CachedAllUnsent(s, gone);
    SendAllRecords(s1, gone, ctx);
    SendAllFrame(s1, gone, ctx);
    RebuildKeepsAll(capacity, kept);
  }

  /** No Set of a rebuild finds its slot occupied, so nothing is ejected on the way. */
  lemma RebuildEjectsNothing(capacity: nat, kept: seq<Trace>, i: nat)
    requires |kept| <= RingSize(capacity) && i < |kept|
    ensures Victim(PutAll(Empty(capacity), kept[..i])) == []
  {
    RebuildFits(capacity, kept[..i]);
  }

  /** Reload: the first `capacity` traces in slot order stay, the others are sent, and the
      ring has the asked size (10000 when asked for 0). */
  lemma ReloadLosesNothing(s: State, ctx: Context)
    requires Inv(s) && ctx.cfg.capacity != |s.cache.slots|
    ensures var all := Cached(s);
            var fit := if ctx.cfg.capacity < |all| then ctx.cfg.capacity else |all|;
            SplitOf(s, Reload(s, ctx), all[fit..], all[..fit], ctx)
    ensures |Reload(s, ctx).cache.slots| == RingSize(ctx.cfg.capacity)
  {
    hide Items, BagOf, Bag, OutBag, Alive, Settled, DecidedOnce;
    var cap := ctx.cfg.capacity;
    var all := Cached(s);
    var fit := if cap < |all| then cap else |all|;
    assert multiset(all) == multiset(all[..fit]) + multiset(all[fit..]) by {
      assert all == all[..fit] + all[fit..];
    }
    RebuildSplits(s, all, all[fit..], all[..fit], cap, ctx);
    SendAllFrame(s.(cache := PutAll(Empty(cap), all[..fit])), all[fit..], ctx);
  }

  /** Shrink: a tenth (rounded up) is sent, and no trace that stays was due before one that
      was sent. */
  lemma ShrinkEvictsEarliest(s: State, order: seq<Trace>, ctx: Context)
    requires Inv(s) && multiset(order) == multiset(Cached(s)) && SortedByDeadline(order)
    ensures var n := |order|;
            var cut := n - 9 * n / 10;
            && SplitOf(s, Shrink(s, order, ctx), order[..cut], order[cut..], ctx)
            && forall i, j :: 0 <= i < cut <= j < n ==> order[i].sendBy <= order[j].sendBy
    ensures |Shrink(s, order, ctx).cache.slots| == RingSize(9 * |order| / 10)
  {
    hide Items, BagOf, Bag, OutBag, Alive, Settled, DecidedOnce;
    var n := |order|;
    var newCap := 9 * n / 10;
    assert multiset(order) == multiset(order[n - newCap..]) + multiset(order[..n - newCap]) by {
      assert order == order[..n - newCap] + order[n - newCap..];
    }
    RebuildSplits(s, order, order[..n - newCap], order[n - newCap..], newCap, ctx);
    SendAllFrame(s.(cache := PutAll(Empty(newCap), order[n - newCap..])), order[..n - newCap], ctx);
  }

  /** `x` is a cached trace with the impact it had when the sort asked for it. */
  ghost predicate Weighed(s: State, r: Reading, timeout: int, x: Trace) {
    && timeout != 0
    && exists i :: 0 <= i < |Cached(s)| && r.clock(Cached(s)[i].traceID).Some?
                && x == Cached(s)[i].(totalImpact := Impact(Cached(s)[i], r.clock(Cached(s)[i].traceID).value, timeout))
  }

  lemma OrderWeighed(s: State, r: Reading, timeout: int, x: Trace)
    requires timeout != 0 && InImpactOrder(s, r) && |r.order| > 1 && x in r.order
    requires multiset(r.order) == multiset(Items(MemoSlots(s.cache.slots, r.clock, timeout)))
    ensures Weighed(s, r, timeout, x)
  {
    hide Items, MemoSlots, SortedByImpact;
    var memo := Items(MemoSlots(s.cache.slots, r.clock, timeout));
    ItemsMemo(s.cache.slots, r.clock, timeout);
    SameLength(r.order, memo);
    assert x in multiset(memo);
    var i :| 0 <= i < |memo| && memo[i] == x;
    assert Cached(s)[i] in Items(s.cache.slots);
  }

  /** So over the limit, with a ring of at least 100 slots, the memory check of the resize
      strategy does just that. */
  lemma OverLimitShrinks(s: State, r: Reading, ctx: Context)
    requires Inv(s) && !ctx.cfg.byImpact && AllocInputs(s, r, ctx.cfg)
    requires ctx.cfg.capacityKnown && ctx.cfg.maxAlloc != 0 && r.mem >= ctx.cfg.maxAlloc && |s.cache.slots| >= 100
    ensures var n := |r.order|;
            var cut := n - 9 * n / 10;
            && n == |Cached(s)| && SplitOf(s, CheckAlloc(s, r, ctx), r.order[..cut], r.order[cut..], ctx)
            && forall i, j :: 0 <= i < cut <= j < n ==> r.order[i].sendBy <= r.order[j].sendBy
  {
    hide Items, SplitOf, Shrink, Holding;
    SameLength(r.order, Cached(s));
    ShrinkEvictsEarliest(s, r.order, ctx);
  }

  /** Impact eviction: exactly the traces before the cut are sent and removed; the cut is the
      shortest non-empty prefix whose data outweighs the overage (or everything); and every
      evicted impact, as it was when asked for, is at least every remaining one. */
  lemma EvictsHeaviest(s: State, r: Reading, ctx: Context)
    requires Inv(s) && ctx.cfg.byImpact && AllocInputs(s, r, ctx.cfg) && InImpactOrder(s, r)
    requires ctx.cfg.capacityKnown && ctx.cfg.maxAlloc != 0 && r.mem >= ctx.cfg.maxAlloc
    ensures var memo := s.(cache := s.cache.(slots := MemoSlots(s.cache.slots, r.clock, ctx.cfg.Timeout())));
            var s' := CheckAlloc(s, r, ctx);
            && SplitOf(memo, s', r.order[..r.cut], Cached(s'), ctx)
            && (|r.order| > 1 ==> forall x :: x in r.order ==> Weighed(s, r, ctx.cfg.Timeout(), x))
            && (forall x, y :: x in r.order[..r.cut] && y in Cached(s') ==> x.totalImpact >= y.totalImpact)
            && (Cached(s) != [] ==> 0 < r.cut)
            && (Weight(r.order[..r.cut]) > AsInt64(r.mem - ctx.cfg.maxAlloc) || Cached(s') == [])
            && (forall k :: 0 < k < r.cut ==> Weight(r.order[..k]) <= AsInt64(r.mem - ctx.cfg.maxAlloc))
  {
    hide Items, BagOf, Bag, OutBag, Alive, Settled, DecidedOnce, MemoSlots;
    hide SendAll, SortedByImpact, Weighed;
    var timeout := ctx.cfg.Timeout();
    var memo := s.(cache := s.cache.(slots := MemoSlots(s.cache.slots, r.clock, timeout)));
    var gone := r.order[..r.cut];
    MemoKeeps(s, r.clock, timeout);
    HoldingParts(memo, multiset{});
    RemovalMatches(memo, memo.cache.slots, r.order, r.cut);
    var ring := s.cache.(slots := Without(memo.cache.slots, IdMask(memo.cache.slots, IdsOf(gone))));
    var left := Items(ring.slots);
    CachedOnce(memo);
    CachedAllUnsent(memo, gone);
    SendAllRecords(s.(cache := ring), gone, ctx);
    SendAllFrame(s.(cache := ring), gone, ctx);
    RemainingAreLighter(r.order, r.cut, left);
    forall x | x in r.order && |r.order| > 1 ensures Weighed(s, r, timeout, x) { OrderWeighed(s, r, timeout, x); }
    ItemsMemo(s.cache.slots, r.clock, timeout);
    SameLength(r.order, Cached(memo));
    if r.cut == |r.order| { AllGone(r.order, left, gone); }
  }

  lemma SameLength<T>(a: seq<T>, b: seq<T>)
    requires multiset(a) == multiset(b)
    ensures |a| == |b|
  {
    assert |multiset(a)| == |a| && |multiset(b)| == |b|;
  }

  lemma AllGone(order: seq<Trace>, left: seq<Trace>, gone: seq<Trace>)
    requires multiset(order) == multiset(left) + multiset(gone) && gone == order
    ensures left == []
  {
    ConcatBag(left, gone);
    SameLength(order, left + gone);
  }

  /** The cut is determined by the order and the overage. */
  lemma CutIsUnique(order: seq<Trace>, over: int, j: nat, k: nat)
    requires IsCut(order, over, j) && IsCut(order, over, k)
    ensures j == k
  {
  }

  lemma RemainingAreLighter(order: seq<Trace>, k: nat, left: seq<Trace>)
    requires SortedByImpact(order) && k <= |order|
    requires multiset(order) == multiset(left) + multiset(order[..k])
    ensures forall x, y :: x in order[..k] && y in left ==> x.totalImpact >= y.totalImpact
  {
    forall x, y | x in order[..k] && y in left ensures x.totalImpact >= y.totalImpact {
      var i :| 0 <= i < k && order[i] == x;
      assert order == order[..k] + order[k..];
      assert multiset(order) == multiset(order[..k]) + multiset(order[k..]);
      assert multiset(left)[y] == multiset(order[k..])[y] by {
        assert multiset(order)[y] == multiset(left)[y] + multiset(order[..k])[y];
      }
      assert y in multiset(left);
      assert y in multiset(order[k..]);
      var j :| 0 <= j < |order[k..]| && order[k..][j] == y;
    }
  }

  /** Right after a tick at `now` no cached trace is overdue. */
  lemma TickLeavesNoneOverdue(s: State, r: Reading, ctx: Context)
    requires Enabled(s, Tick(r, ctx))
    ensures forall k :: 0 <= k < |Apply(s, Tick(r, ctx)).cache.slots|
                        && Apply(s, Tick(r, ctx)).cache.slots[k].Some? ==>
              Apply(s, Tick(r, ctx)).cache.slots[k].value.sendBy >= r.now
  {
    var mask := ExpiredMask(s.cache.slots, r.now);
    var s1 := SendExpired(s, r.now, ctx);
    SendAllFrame(s.(cache := s.cache.(slots := Without(s.cache.slots, mask))), Items(Only(s.cache.slots, mask)), ctx);
    assert NoneOverdue(s1, r.now);
    AllocLeavesNoneOverdue(s1, r, ctx);
    assert Apply(s, Tick(r, ctx)) == CheckAlloc(s1, r, ctx);
  }

  ghost predicate NoneOverdue(s: State, now: int) {
    forall k :: 0 <= k < |s.cache.slots| && s.cache.slots[k].Some? ==> s.cache.slots[k].value.sendBy >= now
  }

  lemma AllocLeavesNoneOverdue(s: State, r: Reading, ctx: Context)
    requires NoneOverdue(s, r.now) && AllocInputs(s, r, ctx.cfg)
    ensures NoneOverdue(CheckAlloc(s, r, ctx), r.now)
  {
    hide Items, SendAll, Impact;
    if ctx.cfg.byImpact && Over(ctx.cfg, r.mem) {
      var memo := MemoSlots(s.cache.slots, r.clock, ctx.cfg.Timeout());
      SendAllFrame(s.(cache := s.cache.(slots := Without(memo, IdMask(memo, IdsOf(r.order[..r.cut]))))),
                   r.order[..r.cut], ctx);
      forall k | 0 <= k < |memo| && memo[k].Some? ensures memo[k].value.sendBy >= r.now {
        var t := s.cache.slots[k].value;
        assert memo[k] == Some(Asked(t, r.clock(t.traceID), ctx.cfg.Timeout()));
      }
    } else if !ctx.cfg.byImpact && Shrinks(s, ctx.cfg, r.mem) {
      var n := |r.order|;
      var newCap := 9 * n / 10;
      var kept := r.order[n - newCap..];
      SendAllFrame(s.(cache := PutAll(Empty(newCap), kept)), r.order[..n - newCap], ctx);
      RebuildFits(newCap, kept);
      forall i | 0 <= i < |kept| ensures kept[i].sendBy >= r.now {
        PermutedMembers(r.order, Items(s.cache.slots));
        ItemsMember(s.cache.slots, kept[i]);
      }
    }
  }
}
