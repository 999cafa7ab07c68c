/** What every step of the collector keeps, and so what holds after every run: spans are
    neither lost nor duplicated nor altered, no cached trace is marked sent, and a trace is decided
    at most once.
 */
module CollectorSafety {
  import opened Events
  import opened Ring
  import opened CollectorModel

  /******* Multiset algebra *******/

  lemma Cancel<T>(a: multiset<T>, b: multiset<T>, x: T)
    requires a + multiset{x} == b + multiset{x}
    ensures a == b
  {
    forall y ensures a[y] == b[y] {
      assert (a + multiset{x})[y] == (b + multiset{x})[y];
    }
  }

  lemma Regroup<T>(a: multiset<T>, b: multiset<T>, c: multiset<T>, d: multiset<T>)
    ensures (a + b) + (c + d) == (a + c) + (b + d)
  {
  }

  lemma ConcatBag<T>(a: seq<T>, b: seq<T>)
    ensures multiset(a + b) == multiset(a) + multiset(b)
  {
  }

  lemma MoveToOut(a: multiset<Span>, q: multiset<Span>, out: multiset<Span>, c: multiset<Span>,
                  t: multiset<Span>, rest: multiset<Span>, loose: multiset<Span>)
    requires a == q + out + c + (t + rest) + loose
    ensures a == q + (out + t) + c + rest + loose
  {
  }

  lemma MoveToLimbo(a: multiset<Span>, q: multiset<Span>, c: multiset<Span>, f: multiset<Span>,
                    c': multiset<Span>, g: multiset<Span>, loose: multiset<Span>)
    requires a == q + c + f + loose && c + f == c' + g
    ensures a == q + c' + g + loose
  {
    assert a == q + (c + f) + loose;
  }

  /******* Counting spans *******/

  /** A span as it was accepted: without the times and the size stamped on it afterwards. */
  function Core(sp: Span): Span {
    sp.(arrivalTime := 0, dataSize := 0, seenAt := 0)
  }

  ghost function Bag(spans: seq<Span>): multiset<Span> {
    if spans == [] then multiset{} else Bag(spans[..|spans| - 1]) + multiset{Core(spans[|spans| - 1])}
  }

  ghost function BagOf(ts: seq<Trace>): multiset<Span> {
    if ts == [] then multiset{} else BagOf(ts[..|ts| - 1]) + Bag(ts[|ts| - 1].spans)
  }

  ghost function OutBag(outs: seq<Outcome>): multiset<Span> {
    if outs == [] then multiset{} else OutBag(outs[..|outs| - 1]) + multiset{Core(outs[|outs| - 1].before)}
  }

  lemma {:induction false} BagConcat(a: seq<Span>, b: seq<Span>)
    ensures Bag(a + b) == Bag(a) + Bag(b)
  {
    if b == [] {
      assert a + b == a;
    } else {
      assert (a + b)[..|a + b| - 1] == a + b[..|b| - 1];
      BagConcat(a, b[..|b| - 1]);
    }
  }

  lemma {:induction false} BagOfConcat(a: seq<Trace>, b: seq<Trace>)
    ensures BagOf(a + b) == BagOf(a) + BagOf(b)
  {
    if b == [] {
      assert a + b == a;
    } else {
      assert (a + b)[..|a + b| - 1] == a + b[..|b| - 1];
      BagOfConcat(a, b[..|b| - 1]);
    }
  }

  lemma {:induction false} OutBagConcat(a: seq<Outcome>, b: seq<Outcome>)
    ensures OutBag(a + b) == OutBag(a) + OutBag(b)
  {
    if b == [] {
      assert a + b == a;
    } else {
      assert (a + b)[..|a + b| - 1] == a + b[..|b| - 1];
      OutBagConcat(a, b[..|b| - 1]);
    }
  }

  lemma BagOfOne(t: Trace)
    ensures BagOf([t]) == Bag(t.spans)
  {
    assert [t][..0] == [];
  }

  /** Order is irrelevant to what is pending. */
  lemma {:induction false} BagOfPermuted(a: seq<Trace>, b: seq<Trace>)
    requires multiset(a) == multiset(b)
    ensures BagOf(a) == BagOf(b)
  {
    if a == [] {
      assert |multiset(b)| == |b|;
    } else {
      var x := a[|a| - 1];
      assert a == a[..|a| - 1] + [x];
      assert x in multiset(b);
      var i :| 0 <= i < |b| && b[i] == x;
      var c := b[..i] + b[i + 1..];
      assert b == b[..i] + [x] + b[i + 1..];
      assert multiset(a) == multiset(a[..|a| - 1]) + multiset{x};
      assert multiset(b) == multiset(c) + multiset{x};
      Cancel(multiset(a[..|a| - 1]), multiset(c), x);
      BagOfPermuted(a[..|a| - 1], c);
      BagOfConcat(b[..i], b[i + 1..]);
      BagOfConcat(b[..i], [x]);
      BagOfConcat(b[..i] + [x], b[i + 1..]);
      BagOfOne(x);
    }
  }

  lemma {:induction false} SameSpansSameBag(outs: seq<Outcome>, spans: seq<Span>)
    requires |outs| == |spans|
    requires forall i :: 0 <= i < |outs| ==> outs[i].before == spans[i]
    ensures OutBag(outs) == Bag(spans)
  {
    if outs != [] {
      SameSpansSameBag(outs[..|outs| - 1], spans[..|spans| - 1]);
    }
  }

  /******* The invariant *******/

  ghost predicate Decided(s: State, serial: nat) {
    exists i :: 0 <= i < |s.decisions| && s.decisions[i].serial == serial
  }

  /** `m`: the traces still alive. Each is one object under one ID, unsent and undecided. */
  ghost predicate Alive(s: State, m: multiset<Trace>) {
    && (forall t :: t in m ==> m[t] == 1 && !t.sent && t.serial < s.nextSerial && !Decided(s, t.serial))
    && (forall t, u :: t in m && u in m && t.traceID == u.traceID ==> t == u)
    && (forall t, u :: t in m && u in m && t.serial == u.serial ==> t == u)
  }

  /** How many spans were settled together with a trace object. */
  ghost function SettledWith(outs: seq<Outcome>, serial: nat): nat {
    if outs == [] then 0
    else SettledWith(outs[..|outs| - 1], serial) + (if outs[|outs| - 1].from == Some(serial) then 1 else 0)
  }

  ghost predicate HasRecord(ds: seq<Record>, serial: nat) {
    exists i :: 0 <= i < |ds| && ds[i].serial == serial
  }

  /** Each recorded count is the number of spans settled with that trace object, and spans are
      settled only with trace objects that were recorded, or late. */
  ghost predicate Tallied(ds: seq<Record>, outs: seq<Outcome>) {
    && (forall i :: 0 <= i < |ds| ==> ds[i].count == SettledWith(outs, ds[i].serial))
    && (forall j :: 0 <= j < |outs| && outs[j].from.Some? ==> HasRecord(ds, outs[j].from.value))
  }

  lemma {:induction false} SettledConcat(a: seq<Outcome>, b: seq<Outcome>, serial: nat)
    ensures SettledWith(a + b, serial) == SettledWith(a, serial) + SettledWith(b, serial)
  {
    if b == [] {
      assert a + b == a;
    } else {
      assert (a + b)[..|a + b| - 1] == a + b[..|b| - 1];
      SettledConcat(a, b[..|b| - 1], serial);
    }
  }

  lemma {:induction false} AllSettledWith(outs: seq<Outcome>, from: Option<nat>, serial: nat)
    requires forall i :: 0 <= i < |outs| ==> outs[i].from == from
    ensures SettledWith(outs, serial) == if from == Some(serial) then |outs| else 0
  {
    if outs != [] { AllSettledWith(outs[..|outs| - 1], from, serial); }
  }

  lemma {:induction false} NoneSettledWith(outs: seq<Outcome>, serial: nat)
    requires forall i :: 0 <= i < |outs| ==> outs[i].from != Some(serial)
    ensures SettledWith(outs, serial) == 0
  {
    if outs != [] { NoneSettledWith(outs[..|outs| - 1], serial); }
  }

  lemma TallySend(ds: seq<Record>, outs: seq<Outcome>, r: Record, more: seq<Outcome>)
    requires Tallied(ds, outs) && !HasRecord(ds, r.serial) && r.count == |more|
    requires forall i :: 0 <= i < |more| ==> more[i].from == Some(r.serial)
    ensures Tallied(ds + [r], outs + more)
  {
    forall i | 0 <= i < |ds + [r]| ensures (ds + [r])[i].count == SettledWith(outs + more, (ds + [r])[i].serial) {
      var serial := (ds + [r])[i].serial;
      SettledConcat(outs, more, serial);
      AllSettledWith(more, Some(r.serial), serial);
      if i == |ds| { NoneSettledWith(outs, serial); } else { assert HasRecord(ds, serial); }
    }
    forall j | 0 <= j < |outs + more| && (outs + more)[j].from.Some? ensures HasRecord(ds + [r], (outs + more)[j].from.value) {
      if j < |outs| {
        var i :| 0 <= i < |ds| && ds[i].serial == outs[j].from.value;
        assert (ds + [r])[i] == ds[i];
      } else {
        assert (ds + [r])[|ds|] == r;
      }
    }
  }

  lemma TallyLate(ds: seq<Record>, outs: seq<Outcome>, o: Outcome)
    requires Tallied(ds, outs) && o.from.None?
    ensures Tallied(ds, outs + [o])
  {
    forall i | 0 <= i < |ds| ensures ds[i].count == SettledWith(outs + [o], ds[i].serial) {
      SettledConcat(outs, [o], ds[i].serial);
      AllSettledWith([o], None, ds[i].serial);
    }
  }

  /** No trace object was recorded twice, and what was recorded of it is what was settled. */
  ghost predicate DecidedOnce(s: State) {
    && Tallied(s.decisions, s.outcomes)
    && (forall i :: 0 <= i < |s.decisions| ==> s.decisions[i].serial < s.nextSerial)
    && (forall i, j :: 0 <= i < j < |s.decisions| ==> s.decisions[i].serial != s.decisions[j].serial)
  }

  ghost function Cached(s: State): seq<Trace> { Items(s.cache.slots) }

  ghost function Settled(s: State): multiset<Span> {
    Bag(s.incoming) + Bag(s.fromPeer) + OutBag(s.outcomes)
  }

  /** The invariant, with traces in `limbo` taken from the cache but not yet sent and
      spans in `loose` taken from a queue but not yet placed. */
  ghost predicate Holding(s: State, limbo: seq<Trace>, loose: multiset<Span>) {
    && s.cache.Valid()
    && Alive(s, multiset(Cached(s)) + multiset(limbo))
    && DecidedOnce(s)
    && Bag(s.accepted) == Settled(s) + BagOf(Cached(s)) + BagOf(limbo) + loose
  }

  ghost predicate Inv(s: State) {
    Holding(s, [], multiset{})
  }

  /******* Sending *******/

  /** Removing one living trace by deciding it leaves the others alive. */
  lemma AliveAfterSend(s: State, s': State, t: Trace, m: multiset<Trace>, r: Record)
    requires Alive(s, m + multiset{t})
    requires s'.decisions == s.decisions + [r] && r.serial == t.serial && s'.nextSerial == s.nextSerial
    ensures Alive(s', m)
  {
    var all := m + multiset{t};
    forall u | u in m
      ensures m[u] == 1 && !u.sent && u.serial < s'.nextSerial && !Decided(s', u.serial)
    {
      assert u in all && t in all;
      assert all[u] == 1;
      assert u != t;
    }
  }

  lemma SendOutcomes(s: State, t: Trace, ctx: Context)
    requires !t.sent
    ensures OutBag(Send(s, t, ctx).outcomes) == OutBag(s.outcomes) + Bag(t.spans)
  {
    var outs := SpanOutcomes(t, Decide(t, ctx), ctx.cfg);
    OutBagConcat(s.outcomes, outs);
    SameSpansSameBag(outs, t.spans);
  }

  lemma AliveUnsent(s: State, m: multiset<Trace>, t: Trace)
    requires Alive(s, m) && t in m
    ensures !t.sent && t.serial < s.nextSerial && !Decided(s, t.serial)
  {
  }

  lemma SendKeeps(s: State, t: Trace, rest: seq<Trace>, loose: multiset<Span>, ctx: Context)
    requires Holding(s, [t] + rest, loose)
    ensures Holding(Send(s, t, ctx), rest, loose)
  {
    hide Alive, BagOf, OutBag, Items, Bag, Tallied;
    var s' := Send(s, t, ctx);
    var m := multiset(Cached(s)) + multiset(rest);
    assert multiset(Cached(s)) + multiset([t] + rest) == m + multiset{t} by {
      ConcatBag([t], rest);
      Regroup(multiset(Cached(s)), multiset{}, multiset(rest), multiset{t});
    }
    AliveUnsent(s, m + multiset{t}, t);
    AliveAfterSend(s, s', t, m, s'.decisions[|s.decisions|]);
    assert DecidedOnce(s') by {
      assert !HasRecord(s.decisions, t.serial) by { assert !Decided(s, t.serial); }
      TallySend(s.decisions, s.outcomes, s'.decisions[|s.decisions|], SpanOutcomes(t, Decide(t, ctx), ctx.cfg));
      forall i, j | 0 <= i < j < |s'.decisions| ensures s'.decisions[i].serial != s'.decisions[j].serial {
        if j == |s.decisions| { assert !Decided(s, t.serial); }
      }
    }
    assert Bag(s'.accepted) == Settled(s') + BagOf(Cached(s')) + BagOf(rest) + loose by {
      SendOutcomes(s, t, ctx);
      BagOfConcat([t], rest);
      BagOfOne(t);
      MoveToOut(Bag(s.accepted), Bag(s.incoming) + Bag(s.fromPeer), OutBag(s.outcomes), BagOf(Cached(s)),
                Bag(t.spans), BagOf(rest), loose);
    }
  }

  lemma {:induction false} SendAllKeeps(s: State, ts: seq<Trace>, rest: seq<Trace>, loose: multiset<Span>, ctx: Context)
    requires Holding(s, ts + rest, loose)
    ensures Holding(SendAll(s, ts, ctx), rest, loose)
  {
    hide Holding, Send;
    if ts == [] {
      assert ts + rest == rest;
    } else {
      var front, t := ts[..|ts| - 1], ts[|ts| - 1];
      assert ts + rest == front + ([t] + rest);
      SendAllKeeps(s, front, [t] + rest, loose, ctx);
      SendKeeps(SendAll(s, front, ctx), t, rest, loose, ctx);
    }
  }

  lemma AliveFrame(s: State, s': State, m: multiset<Trace>)
    requires Alive(s, m) && s'.decisions == s.decisions && s'.nextSerial == s.nextSerial
    ensures Alive(s', m)
  {
    forall n: nat ensures Decided(s', n) <==> Decided(s, n) {
    }
  }

  lemma SplitBags(all: seq<Trace>, left: seq<Trace>, gone: seq<Trace>)
    requires multiset(all) == multiset(left) + multiset(gone)
    ensures BagOf(all) == BagOf(left) + BagOf(gone)
  {
    ConcatBag(left, gone);
    BagOfPermuted(all, left + gone);
    BagOfConcat(left, gone);
  }

  lemma Detach(s: State, made: seq<Trace>, ring: Ring<Trace>, gone: seq<Trace>, loose: multiset<Span>)
    requires Holding(s, made, loose) && ring.Valid()
    requires multiset(Cached(s)) + multiset(made) == multiset(Items(ring.slots)) + multiset(gone)
    ensures Holding(s.(cache := ring), gone, loose)
  {
    var s1 := s.(cache := ring);
    var left := Items(ring.slots);
    AliveFrame(s, s1, multiset(Cached(s)) + multiset(made));
    ConcatBag(Cached(s), made);
    SplitBags(Cached(s) + made, left, gone);
    BagOfConcat(Cached(s), made);
    MoveToLimbo(Bag(s.accepted), Settled(s), BagOf(Cached(s)), BagOf(made), BagOf(left), BagOf(gone), loose);
  }

  /** Every route out of the cache: if the cached traces, and `made` ones that were just
      made, are split between those sent and those left in the new ring, nothing is lost
      and nothing is sent twice. */
  lemma HandOver(s: State, made: seq<Trace>, ring: Ring<Trace>, gone: seq<Trace>, loose: multiset<Span>, ctx: Context)
    requires Holding(s, made, loose) && ring.Valid()
    requires multiset(Cached(s)) + multiset(made) == multiset(Items(ring.slots)) + multiset(gone)
    ensures Holding(SendAll(s.(cache := ring), gone, ctx), [], loose)
  {
    hide *;
    Detach(s, made, ring, gone, loose);
    assert gone + [] == gone;
    SendAllKeeps(s.(cache := ring), gone, [], loose, ctx);
  }

  /******* Slots and items *******/

  ghost function One<T>(slot: Option<T>): multiset<T> {
    if slot.Some? then multiset{slot.value} else multiset{}
  }

  lemma ItemsSnoc<T>(slots: seq<Option<T>>)
    requires slots != []
    ensures multiset(Items(slots)) == multiset(Items(slots[..|slots| - 1])) + One(slots[|slots| - 1])
  {
    var last := slots[|slots| - 1];
    assert Items(slots) == Items(slots[..|slots| - 1]) + (if last.Some? then [last.value] else []);
  }

  /** Replacing one slot trades its item for the new one. */
  lemma {:induction false} ItemsUpdate<T>(slots: seq<Option<T>>, k: nat, x: T)
    requires k < |slots|
    ensures multiset(Items(slots[k := Some(x)])) + One(slots[k]) == multiset(Items(slots)) + multiset{x}
  {
    hide Items;
    var n := |slots| - 1;
    var slots' := slots[k := Some(x)];
    ItemsSnoc(slots);
    ItemsSnoc(slots');
    if k == n {
      assert slots'[..n] == slots[..n];
      Trade(multiset(Items(slots[..n])), multiset(Items(slots[..n])), One(slots[n]), multiset{x}, multiset{});
    } else {
      ItemsUpdate(slots[..n], k, x);
      assert slots'[..n] == slots[..n][k := Some(x)];
      Exchange(multiset(Items(slots'[..n])), One(slots[k]), multiset(Items(slots[..n])), multiset{x}, One(slots[n]));
    }
  }

  lemma Trade<T>(a: multiset<T>, b: multiset<T>, was: multiset<T>, x: multiset<T>, rest: multiset<T>)
    requires a == b + rest
    ensures (a + x) + was == (b + was) + rest + x
  {
  }

  lemma Exchange<T>(a: multiset<T>, was: multiset<T>, b: multiset<T>, x: multiset<T>, last: multiset<T>)
    requires a + was == b + x
    ensures (a + last) + was == (b + last) + x
  {
    assert (a + last) + was == (a + was) + last;
    assert (b + last) + x == (b + x) + last;
  }

  lemma MaskSnoc<T>(slots: seq<Option<T>>, mask: seq<bool>)
    requires |mask| == |slots| != 0
    ensures var n := |slots| - 1;
            && Without(slots, mask) == Without(slots[..n], mask[..n]) + [if mask[n] then None else slots[n]]
            && Only(slots, mask) == Only(slots[..n], mask[..n]) + [if mask[n] then slots[n] else None]
  {
  }

  lemma ItemsPush<T>(front: seq<Option<T>>, last: Option<T>)
    ensures multiset(Items(front + [last])) == multiset(Items(front)) + One(last)
  {
    assert (front + [last])[..|front|] == front;
    ItemsSnoc(front + [last]);
  }

  lemma {:induction false} MaskSplits<T>(slots: seq<Option<T>>, mask: seq<bool>)
    requires |mask| == |slots|
    ensures multiset(Items(slots)) == multiset(Items(Without(slots, mask))) + multiset(Items(Only(slots, mask)))
  {
    if slots != [] {
      var n := |slots| - 1;
      var out, sel := Without(slots[..n], mask[..n]), Only(slots[..n], mask[..n]);
      MaskSplits(slots[..n], mask[..n]);
      MaskSnoc(slots, mask);
      var o: Option<T>, x: Option<T> := if mask[n] then None else slots[n], if mask[n] then slots[n] else None;
      ItemsSnoc(slots);
      ItemsPush(out, o);
      ItemsPush(sel, x);
      Regroup(multiset(Items(out)), multiset(Items(sel)), One(o), One(x));
    }
  }

  /******* One step at a time *******/

  lemma ExpiryKeeps(s: State, now: int, ctx: Context)
    requires Inv(s)
    ensures Inv(SendExpired(s, now, ctx))
  {
    hide Alive, BagOf, OutBag, Items, Bag, SendAll, DecidedOnce, Settled;
    var mask := ExpiredMask(s.cache.slots, now);
    MaskSplits(s.cache.slots, mask);
    HandOver(s, [], s.cache.(slots := Without(s.cache.slots, mask)), Items(Only(s.cache.slots, mask)), multiset{}, ctx);
  }

  lemma ShrinkKeeps(s: State, order: seq<Trace>, ctx: Context)
    requires Inv(s) && multiset(order) == multiset(Cached(s))
    ensures Inv(Shrink(s, order, ctx))
  {
    hide Alive, BagOf, OutBag, Items, Bag, SendAll, DecidedOnce, Settled;
    var n := |order|;
    var newCap := 9 * n / 10;
    RebuildKeepsAll(newCap, order[n - newCap..]);
    assert order == order[..n - newCap] + order[n - newCap..];
    HandOver(s, [], PutAll(Empty(newCap), order[n - newCap..]), order[..n - newCap], multiset{}, ctx);
  }

  lemma ReloadKeeps(s: State, ctx: Context)
    requires Inv(s)
    ensures Inv(Reload(s, ctx))
  {
    hide Alive, BagOf, OutBag, Items, Bag, SendAll, DecidedOnce, Settled;
    var cap := ctx.cfg.capacity;
    if cap != |s.cache.slots| {
      var all := Cached(s);
      var fit := if cap < |all| then cap else |all|;
      RebuildKeepsAll(cap, all[..fit]);
      assert multiset(all) == multiset(all[..fit]) + multiset(all[fit..]) by {
        assert all == all[..fit] + all[fit..];
      }
      HandOver(s, [], PutAll(Empty(cap), all[..fit]), all[fit..], multiset{}, ctx);
    }
  }

  /******* Processing a span *******/

  /** Swapping a cached trace for a longer version of itself. */
  lemma AliveSwap(s: State, m: multiset<Trace>, m': multiset<Trace>, t: Trace, x: Trace)
    requires Alive(s, m) && t in m && m' + multiset{t} == m + multiset{x}
    requires x != t && x.traceID == t.traceID && x.serial == t.serial && !x.sent
    ensures Alive(s, m')
  {
    assert x !in m;
    forall u: Trace ensures m'[u] == if u == x then 1 else if u == t then 0 else m[u] {
      assert (m' + multiset{t})[u] == (m + multiset{x})[u];
    }
  }

  lemma AttachAlive(s: State, k: nat, x: Trace)
    requires k < |s.cache.slots| && s.cache.slots[k].Some?
    requires Alive(s, multiset(Cached(s)))
    requires var t := s.cache.slots[k].value;
             x != t && x.traceID == t.traceID && x.serial == t.serial && !x.sent
    ensures Alive(s, multiset(Items(s.cache.slots[k := Some(x)])))
  {
    hide Alive, Items;
    var t := s.cache.slots[k].value;
    ItemsMember(s.cache.slots, t);
    ItemsUpdate(s.cache.slots, k, x);
    AliveSwap(s, multiset(Cached(s)), multiset(Items(s.cache.slots[k := Some(x)])), t, x);
  }

  lemma AttachBag(slots: seq<Option<Trace>>, k: nat, x: Trace, u: multiset<Span>)
    requires k < |slots| && slots[k].Some?
    requires Bag(x.spans) == Bag(slots[k].value.spans) + u
    ensures BagOf(Items(slots[k := Some(x)])) == BagOf(Items(slots)) + u
  {
    hide BagOf, Bag, Items;
    var t := slots[k].value;
    var old', new' := Items(slots), Items(slots[k := Some(x)]);
    ItemsUpdate(slots, k, x);
    ConcatBag(new', [t]);
    ConcatBag(old', [x]);
    BagOfPermuted(new' + [t], old' + [x]);
    BagOfConcat(new', [t]);
    BagOfConcat(old', [x]);
    BagOfOne(t);
    BagOfOne(x);
    Grown(BagOf(new'), Bag(t.spans), BagOf(old'), u);
  }

  lemma HoldingAlive(s: State, loose: multiset<Span>)
    requires s.cache.Valid() && DecidedOnce(s)
    requires Alive(s, multiset(Cached(s)))
    requires Bag(s.accepted) == Settled(s) + BagOf(Cached(s)) + multiset{} + loose
    ensures Holding(s, [], loose)
  {
    hide Alive, Cached, Bag;
    assert multiset(Cached(s)) + multiset([]) == multiset(Cached(s));
  }

  lemma HoldingParts(s: State, loose: multiset<Span>)
    requires Holding(s, [], loose)
    ensures Alive(s, multiset(Cached(s)))
    ensures Bag(s.accepted) == Settled(s) + BagOf(Cached(s)) + multiset{} + loose
  {
    hide Alive, Cached, Bag;
    assert multiset(Cached(s)) + multiset([]) == multiset(Cached(s));
  }

  lemma CachedUnsent(s: State, k: nat)
    requires Alive(s, multiset(Cached(s)))
    requires k < |s.cache.slots| && s.cache.slots[k].Some?
    ensures !s.cache.slots[k].value.sent
  {
    ItemsMember(s.cache.slots, s.cache.slots[k].value);
  }

  lemma AttachKeeps(s: State, k: nat, sp: Span, a: Arrival, ctx: Context)
    requires Holding(s, [], multiset{Core(sp)})
    requires k < |s.cache.slots| && s.cache.slots[k].Some?
    ensures Inv(Attach(s, k, sp, a, ctx))
  {
    hide Alive, BagOf, OutBag, Items;
    var s' := Attach(s, k, sp, a, ctx);
    var t := s.cache.slots[k].value;
    var x := Extended(t, sp, a, ctx.cfg);
    HoldingParts(s, multiset{Core(sp)});
    CachedUnsent(s, k);
    AttachAlive(s, k, x);
    AliveFrame(s, s', multiset(Cached(s')));
    assert Bag(x.spans) == Bag(t.spans) + multiset{Core(sp)} by {
      assert x.spans[..|x.spans| - 1] == t.spans;
    }
    AttachBag(s.cache.slots, k, x, multiset{Core(sp)});
    Placed(Bag(s.accepted), Settled(s), BagOf(Cached(s)), multiset{Core(sp)});
    HoldingAlive(s', multiset{});
  }

  lemma Grown(c': multiset<Span>, t: multiset<Span>, c: multiset<Span>, u: multiset<Span>)
    requires c' + t == c + (t + u)
    ensures c' == c + u
  {
    forall y ensures c'[y] == (c + u)[y] { assert (c' + t)[y] == (c + (t + u))[y]; }
  }

  lemma Placed(a: multiset<Span>, q: multiset<Span>, c: multiset<Span>, u: multiset<Span>)
    requires a == q + c + multiset{} + u
    ensures a == q + (c + u) + multiset{} + multiset{}
  {
  }

  lemma OutBagPush(outs: seq<Outcome>, o: Outcome)
    ensures OutBag(outs + [o]) == OutBag(outs) + multiset{Core(o.before)}
  {
    assert (outs + [o])[..|outs|] == outs;
  }

  lemma LateKeeps(s: State, r: SentRecord, sp: Span, cfg: Config)
    requires Holding(s, [], multiset{Core(sp)})
    ensures Inv(DealWithSent(s, r, sp, cfg))
  {
    hide Alive, BagOf, OutBag, Items, Bag, Tallied;
    var s' := DealWithSent(s, r, sp, cfg);
    TallyLate(s.decisions, s.outcomes, LateOutcome(r, sp, cfg));
    OutBagPush(s.outcomes, LateOutcome(r, sp, cfg));
    HoldingParts(s, multiset{Core(sp)});
    AliveFrame(s, s', multiset(Cached(s)));
    LatePlaced(Bag(s.accepted), Bag(s.incoming) + Bag(s.fromPeer), OutBag(s.outcomes), BagOf(Cached(s)), multiset{Core(sp)});
    HoldingAlive(s', multiset{});
  }

  lemma LatePlaced(a: multiset<Span>, q: multiset<Span>, out: multiset<Span>, c: multiset<Span>, u: multiset<Span>)
    requires a == q + out + c + multiset{} + u
    ensures a == q + (out + u) + c + multiset{} + multiset{}
  {
  }

  /** A trace made for an ID that is not cached joins the living. */
  lemma NewTraceAlive(s: State, t: Trace, m: multiset<Trace>)
    requires Alive(s, m) && DecidedOnce(s)
    requires t.serial == s.nextSerial && !t.sent
    requires forall u :: u in m ==> u.traceID != t.traceID
    ensures Alive(s.(nextSerial := s.nextSerial + 1), m + multiset{t})
  {
    var s1 := s.(nextSerial := s.nextSerial + 1);
    forall u | u in m + multiset{t}
      ensures (m + multiset{t})[u] == 1 && !u.sent && u.serial < s1.nextSerial && !Decided(s1, u.serial)
    {
      assert u in m || u == t;
      assert Decided(s1, u.serial) <==> Decided(s, u.serial);
    }
  }

  lemma NewTraceHolding(s: State, t: Trace, loose: multiset<Span>)
    requires Holding(s, [], loose)
    requires t.serial == s.nextSerial && !t.sent && t.spans == []
    requires Find(s.cache.slots, t.traceID).None?
    ensures Holding(s.(nextSerial := s.nextSerial + 1), [t], loose)
  {
    hide Alive, BagOf, OutBag, Items;
    HoldingParts(s, loose);
    forall u | u in multiset(Cached(s)) ensures u.traceID != t.traceID { ItemsMember(s.cache.slots, u); }
    NewTraceAlive(s, t, multiset(Cached(s)));
    BagOfOne(t);
  }

  lemma CreateKeeps(s: State, sp: Span, a: Arrival, ctx: Context)
    requires Holding(s, [], multiset{Core(sp)})
    requires Find(s.cache.slots, sp.traceID).None?
    ensures Holding(Create(s, sp, a, ctx), [], multiset{Core(sp)})
  {
    hide Alive, BagOf, OutBag, Items, SendAll, Bag, Settled, DecidedOnce;
    var t := NewTrace(s.nextSerial, sp, a, ctx.cfg);
    var s1 := s.(nextSerial := s.nextSerial + 1);
    NewTraceHolding(s, t, multiset{Core(sp)});
    var p := s.cache.Spot();
    ItemsUpdate(s.cache.slots, p, t);
    HoldingParts(s, multiset{Core(sp)});
    if s.cache.slots[p].Some? { CachedUnsent(s, p); }
    assert One(s.cache.slots[p]) == multiset(Victim(s.cache));
    HandOver(s1, [t], s.cache.Put(t), Victim(s.cache), multiset{Core(sp)}, ctx);
    assert s1.(cache := s.cache.Put(t)) == s.(cache := s.cache.Put(t), nextSerial := s.nextSerial + 1);
  }

  lemma ProcessKeeps(s: State, sp: Span, a: Arrival, ctx: Context)
    requires Holding(s, [], multiset{Core(sp)})
    ensures Inv(ProcessSpan(s, sp, a, ctx))
  {
    hide Alive, BagOf, OutBag, Items, SendAll, DecidedOnce, Settled;
    var k := Find(s.cache.slots, sp.traceID);
    if k.Some? {
      AttachKeeps(s, k.value, sp, a, ctx);
    } else if a.answer.Some? {
      LateKeeps(s, a.answer.value, sp, ctx.cfg);
    } else {
      CreateKeeps(s, sp, a, ctx);
      SendAllFrame(s.(cache := s.cache.Put(NewTrace(s.nextSerial, sp, a, ctx.cfg)), nextSerial := s.nextSerial + 1),
                   Victim(s.cache), ctx);
      AttachKeeps(Create(s, sp, a, ctx), s.cache.Spot(), sp, a, ctx);
    }
  }

  /******* Impact eviction *******/

  lemma CountTwo<T>(a: seq<T>, i: nat, j: nat)
    requires i < j < |a| && a[i] == a[j]
    ensures multiset(a)[a[i]] >= 2
  {
    assert a == a[..j] + a[j..];
    assert a[i] in a[..j] && a[j] in a[j..];
  }

  lemma {:induction false} CountOne<T>(a: seq<T>, x: T)
    requires forall i, j :: 0 <= i < j < |a| ==> a[i] != a[j]
    ensures multiset(a)[x] <= 1
  {
    if a != [] {
      var n := |a| - 1;
      assert a == a[..n] + [a[n]];
      CountOne(a[..n], x);
    }
  }

  lemma {:induction false} ItemsMemo(slots: seq<Option<Trace>>, clock: Clock, timeout: int)
    requires timeout != 0
    ensures var memo := Items(MemoSlots(slots, clock, timeout));
            |memo| == |Items(slots)| &&
            forall i :: 0 <= i < |memo| ==> memo[i] == Asked(Items(slots)[i], clock(Items(slots)[i].traceID), timeout)
  {
    if slots != [] {
      var n := |slots| - 1;
      ItemsMemo(slots[..n], clock, timeout);
      assert MemoSlots(slots, clock, timeout)[..n] == MemoSlots(slots[..n], clock, timeout);
    }
  }

  /** The same, said of the list of cached traces. */
  ghost predicate AliveList(s: State, ts: seq<Trace>) {
    && (forall i :: 0 <= i < |ts| ==> !ts[i].sent && ts[i].serial < s.nextSerial && !Decided(s, ts[i].serial))
    && (forall i, j :: 0 <= i < j < |ts| ==> ts[i].serial != ts[j].serial && ts[i].traceID != ts[j].traceID)
  }

  lemma AliveToList(s: State, ts: seq<Trace>)
    requires Alive(s, multiset(ts))
    ensures AliveList(s, ts)
  {
    forall i | 0 <= i < |ts| ensures !ts[i].sent && ts[i].serial < s.nextSerial && !Decided(s, ts[i].serial) {
      assert ts[i] in multiset(ts);
    }
    forall i, j | 0 <= i < j < |ts| ensures ts[i].serial != ts[j].serial && ts[i].traceID != ts[j].traceID {
      assert ts[i] in multiset(ts) && ts[j] in multiset(ts);
      if ts[i] == ts[j] { CountTwo(ts, i, j); }
    }
  }

  lemma ListToAlive(s: State, ts: seq<Trace>)
    requires AliveList(s, ts)
    ensures Alive(s, multiset(ts))
  {
    hide Decided;
    forall t | t in multiset(ts)
      ensures multiset(ts)[t] == 1 && !t.sent && t.serial < s.nextSerial && !Decided(s, t.serial)
    {
      CountOne(ts, t);
      var i :| 0 <= i < |ts| && ts[i] == t;
    }
    forall t, u | t in multiset(ts) && u in multiset(ts) && (t.traceID == u.traceID || t.serial == u.serial)
      ensures t == u
    {
      var i :| 0 <= i < |ts| && ts[i] == t;
      var j :| 0 <= j < |ts| && ts[j] == u;
      assert !(i < j) && !(j < i);
    }
  }

  lemma {:induction false} BagOfRewritten(a: seq<Trace>, b: seq<Trace>)
    requires |a| == |b| && forall i :: 0 <= i < |a| ==> a[i].spans == b[i].spans
    ensures BagOf(a) == BagOf(b)
  {
    if a != [] { BagOfRewritten(a[..|a| - 1], b[..|b| - 1]); }
  }

  lemma MemoKeeps(s: State, clock: Clock, timeout: int)
    requires Inv(s) && timeout != 0
    ensures Inv(s.(cache := s.cache.(slots := MemoSlots(s.cache.slots, clock, timeout))))
  {
    hide Alive, BagOf, OutBag, Items;
    var s' := s.(cache := s.cache.(slots := MemoSlots(s.cache.slots, clock, timeout)));
    HoldingParts(s, multiset{});
    ItemsMemo(s.cache.slots, clock, timeout);
    AliveToList(s, Cached(s));
    ListToAlive(s, Cached(s'));
    BagOfRewritten(Cached(s), Cached(s'));
    AliveFrame(s, s', multiset(Cached(s')));
    HoldingAlive(s', multiset{});
  }

  lemma MaskMembers(slots: seq<Option<Trace>>, ids: set<string>, t: Trace)
    ensures t in Items(Only(slots, IdMask(slots, ids))) ==> t in Items(slots) && t.traceID in ids
    ensures t in Items(Without(slots, IdMask(slots, ids))) ==> t in Items(slots) && t.traceID !in ids
  {
    var mask := IdMask(slots, ids);
    ItemsMember(slots, t);
    ItemsMember(Only(slots, mask), t);
    ItemsMember(Without(slots, mask), t);
    if Some(t) in Only(slots, mask) {
      var i :| 0 <= i < |slots| && Only(slots, mask)[i] == Some(t);
      assert slots[i] == Some(t);
    }
    if Some(t) in Without(slots, mask) {
      var i :| 0 <= i < |slots| && Without(slots, mask)[i] == Some(t);
      assert slots[i] == Some(t);
    }
  }

  /** RemoveTraces of the IDs that were sent removes exactly the traces that were sent. */
  lemma RemovalMatches(s: State, slots: seq<Option<Trace>>, order: seq<Trace>, k: nat)
    requires Alive(s, multiset(order)) && multiset(order) == multiset(Items(slots)) && k <= |order|
    ensures multiset(Items(slots))
            == multiset(Items(Without(slots, IdMask(slots, IdsOf(order[..k]))))) + multiset(order[..k])
  {
    hide Items, Only, Without;
    var ids := IdsOf(order[..k]);
    var mask := IdMask(slots, ids);
    var m, g := multiset(order), multiset(order[..k]);
    var o, w := multiset(Items(Only(slots, mask))), multiset(Items(Without(slots, mask)));
    assert m == g + multiset(order[k..]) by { assert order == order[..k] + order[k..]; }
    MaskSplits(slots, mask);
    forall t: Trace ensures o[t] == g[t] {
      MaskMembers(slots, ids, t);
      assert m[t] == o[t] + w[t];
      assert g[t] <= m[t];
      if t in m {
        assert m[t] == 1;
        if t.traceID in ids {
          var u :| u in order[..k] && u.traceID == t.traceID;
          assert u in m;
        }
      }
    }
    assert o == g;
  }

  lemma EvictKeeps(s: State, clock: Clock, order: seq<Trace>, k: nat, ctx: Context)
    requires Inv(s) && ctx.cfg.Timeout() != 0 && k <= |order|
    requires multiset(order) == multiset(Items(MemoSlots(s.cache.slots, clock, ctx.cfg.Timeout())))
    ensures Inv(Evict(s, MemoSlots(s.cache.slots, clock, ctx.cfg.Timeout()), order, k, ctx))
  {
    hide Alive, BagOf, OutBag, Items, SendAll, DecidedOnce, Settled;
    var memo := MemoSlots(s.cache.slots, clock, ctx.cfg.Timeout());
    var s1 := s.(cache := s.cache.(slots := memo));
    MemoKeeps(s, clock, ctx.cfg.Timeout());
    HoldingParts(s1, multiset{});
    RemovalMatches(s1, memo, order, k);
    var ring := s.cache.(slots := Without(memo, IdMask(memo, IdsOf(order[..k]))));
    assert multiset(Cached(s1)) + multiset([]) == multiset(Cached(s1));
    HandOver(s1, [], ring, order[..k], multiset{}, ctx);
    assert s1.(cache := ring) == s.(cache := ring);
  }

  /******* Every step, every run *******/

  lemma {:induction false} BagHead(spans: seq<Span>)
    requires spans != []
    ensures Bag(spans) == multiset{Core(spans[0])} + Bag(spans[1..])
  {
    assert spans == [spans[0]] + spans[1..];
    BagConcat([spans[0]], spans[1..]);
    assert [spans[0]][..0] == [];
  }

  lemma BagPush(spans: seq<Span>, sp: Span)
    ensures Bag(spans + [sp]) == Bag(spans) + multiset{Core(sp)}
  {
    assert (spans + [sp])[..|spans|] == spans;
  }

  lemma QueueMoves(a: multiset<Span>, i: multiset<Span>, p: multiset<Span>, o: multiset<Span>, c: multiset<Span>, u: multiset<Span>)
    ensures a == i + p + o + c + multiset{} + multiset{} ==> a + u == (i + u) + p + o + c + multiset{} + multiset{}
    ensures a == i + p + o + c + multiset{} + multiset{} ==> a + u == i + (p + u) + o + c + multiset{} + multiset{}
    ensures a == (u + i) + p + o + c + multiset{} + multiset{} ==> a == i + p + o + c + multiset{} + u
    ensures a == i + (u + p) + o + c + multiset{} + multiset{} ==> a == i + p + o + c + multiset{} + u
  {
  }

  lemma AcceptKeeps(s: State, sp: Span, peer: bool)
    requires Inv(s)
    ensures Inv(Accept(s, sp, peer))
  {
    hide Alive, BagOf, OutBag, Items, Bag;
    QueueMoves(Bag(s.accepted), Bag(s.incoming), Bag(s.fromPeer), OutBag(s.outcomes), BagOf(Cached(s)), multiset{Core(sp)});
    var s' := Accept(s, sp, peer);
    HoldingParts(s, multiset{});
    AliveFrame(s, s', multiset(Cached(s')));
    BagPush(s.accepted, sp);
    BagPush(s.fromPeer, sp);
    BagPush(s.incoming, sp);
    HoldingAlive(s', multiset{});
  }

  lemma TakeKeeps(s: State, peer: bool)
    requires Inv(s) && (if peer then s.fromPeer else s.incoming) != []
    ensures if peer then Holding(s.(fromPeer := s.fromPeer[1..]), [], multiset{Core(s.fromPeer[0])})
            else Holding(s.(incoming := s.incoming[1..]), [], multiset{Core(s.incoming[0])})
  {
    hide Alive, BagOf, OutBag, Items, Bag;
    var s' := if peer then s.(fromPeer := s.fromPeer[1..]) else s.(incoming := s.incoming[1..]);
    HoldingParts(s, multiset{});
    AliveFrame(s, s', multiset(Cached(s')));
    var sp := (if peer then s.fromPeer else s.incoming)[0];
    if peer { BagHead(s.fromPeer); } else { BagHead(s.incoming); }
    QueueMoves(Bag(s.accepted), Bag(s'.incoming), Bag(s'.fromPeer), OutBag(s.outcomes), BagOf(Cached(s)), multiset{Core(sp)});
    HoldingAlive(s', multiset{Core(sp)});
  }

  lemma StepKeeps(s: State, step: Step)
    requires Inv(s) && Enabled(s, step)
    ensures Inv(Apply(s, step))
  {
    hide Holding, ProcessSpan, SendExpired, Evict, Shrink, Reload, Accept, MemoSlots, Items;
    match step
    case Enqueue(sp, peer) => AcceptKeeps(s, sp, peer);
    case Process(peer, a, ctx) =>
      TakeKeeps(s, peer);
      if peer {
        ProcessKeeps(s.(fromPeer := s.fromPeer[1..]), s.fromPeer[0], a, ctx);
      } else {
        ProcessKeeps(s.(incoming := s.incoming[1..]), s.incoming[0], a, ctx);
      }
    case Tick(r, ctx) =>
      ExpiryKeeps(s, r.now, ctx);
      var s1 := SendExpired(s, r.now, ctx);
      if ctx.cfg.byImpact && Over(ctx.cfg, r.mem) {
        EvictKeeps(s1, r.clock, r.order, r.cut, ctx);
      } else if !ctx.cfg.byImpact && Shrinks(s1, ctx.cfg, r.mem) {
        ShrinkKeeps(s1, r.order, ctx);
      }
    case Reconfigure(ctx) => ReloadKeeps(s, ctx);
  }

  lemma {:induction false} RunKeeps(s: State, steps: seq<Step>, s': State, rule: (State, Step) -> bool)
    requires Inv(s) && Run(s, steps, s', rule)
    ensures Inv(s')
    decreases |steps|
  {
    hide Holding, Apply, Enabled;
    if steps != [] {
      StepKeeps(s, steps[0]);
      RunKeeps(Apply(s, steps[0]), steps[1..], s', rule);
    }
  }

  lemma {:induction false} NoItems<T>(slots: seq<Option<T>>)
    requires forall i :: 0 <= i < |slots| ==> slots[i].None?
    ensures Items(slots) == []
  {
    if slots != [] { NoItems(slots[..|slots| - 1]); }
  }

  lemma InitialHolds(capacity: nat)
    ensures Inv(Initial(capacity))
  {
    NoItems(Initial(capacity).cache.slots);
  }

  /** Conservation. After every run, under any sampler, any sent-cache answers, any clock
      and any memory readings, the spans accepted are exactly the spans queued, pending in
      cached traces, and settled (transmitted or dropped), each as often as accepted and with
      the trace ID, rate and data it was accepted with. */
  lemma Conservation(capacity: nat, steps: seq<Step>, s: State, rule: (State, Step) -> bool)
    requires Run(Initial(capacity), steps, s, rule)
    ensures Bag(s.accepted)
            == Bag(s.incoming) + Bag(s.fromPeer) + BagOf(Cached(s)) + OutBag(s.outcomes)
  {
    hide Alive, BagOf, OutBag, Items, Bag, Run;
    InitialHolds(capacity);
    RunKeeps(Initial(capacity), steps, s, rule);
    HoldingParts(s, multiset{});
  }

  /** In every reachable state no cached trace is marked sent, so the sent-trace branch of
      processSpan is dead; IDs are unique in the cache; no trace object has been offered to a
      sampler or recorded more than once; and the count recorded for it is the number of spans
      settled with it. */
  lemma DecidedAtMostOnce(capacity: nat, steps: seq<Step>, s: State, rule: (State, Step) -> bool)
    requires Run(Initial(capacity), steps, s, rule)
    ensures forall k :: 0 <= k < |s.cache.slots| && s.cache.slots[k].Some? ==>
              !s.cache.slots[k].value.sent && !Decided(s, s.cache.slots[k].value.serial)
    ensures forall i, j :: 0 <= i < j < |Cached(s)| ==> Cached(s)[i].traceID != Cached(s)[j].traceID
    ensures DecidedOnce(s) && Tallied(s.decisions, s.outcomes)
  {
    InitialHolds(capacity);
    RunKeeps(Initial(capacity), steps, s, rule);
    HoldingParts(s, multiset{});
    forall k | 0 <= k < |s.cache.slots| && s.cache.slots[k].Some?
      ensures !s.cache.slots[k].value.sent && !Decided(s, s.cache.slots[k].value.serial)
    {
      ItemsMember(s.cache.slots, s.cache.slots[k].value);
    }
    forall i, j | 0 <= i < j < |Cached(s)| ensures Cached(s)[i].traceID != Cached(s)[j].traceID {
      assert Cached(s)[i] in multiset(Cached(s)) && Cached(s)[j] in multiset(Cached(s));
      if Cached(s)[i] == Cached(s)[j] { CountTwo(Cached(s), i, j); }
    }
  }

  /******* What is settled was accepted *******/

  lemma {:induction false} BagCounts(spans: seq<Span>, x: Span)
    ensures Bag(spans)[x] > 0 <==> exists i :: 0 <= i < |spans| && Core(spans[i]) == x
  {
    if spans != [] {
      var n := |spans| - 1;
      BagCounts(spans[..n], x);
      assert forall i :: 0 <= i < n ==> spans[..n][i] == spans[i];
    }
  }

  lemma {:induction false} OutBagZero(outs: seq<Outcome>, x: Span)
    requires OutBag(outs)[x] == 0
    ensures forall i :: 0 <= i < |outs| ==> Core(outs[i].before) != x
  {
    if outs != [] {
      var n := |outs| - 1;
      OutBagZero(outs[..n], x);
      assert forall i :: 0 <= i < n ==> outs[..n][i] == outs[i];
    }
  }

  /** Every settled span is one that was accepted, with its trace ID, rate and data. */
  lemma OutcomesWereAccepted(capacity: nat, steps: seq<Step>, s: State, rule: (State, Step) -> bool, i: nat)
    returns (j: nat)
    requires Run(Initial(capacity), steps, s, rule) && i < |s.outcomes|
    ensures j < |s.accepted| && Core(s.accepted[j]) == Core(s.outcomes[i].before)
  {
    hide Run, Items, Core, BagOf, Bag, OutBag;
    var x := Core(s.outcomes[i].before);
    Conservation(capacity, steps, s, rule);
    if OutBag(s.outcomes)[x] == 0 { OutBagZero(s.outcomes, x); }
    BagCounts(s.accepted, x);
    j :| 0 <= j < |s.accepted| && Core(s.accepted[j]) == x;
  }
}
