/** The memory of dropped traces in collect/cache/cuckoo.go, two generations of a filter, under
    every interleaving of writers with its one background maintainer; and the cuckoo sent cache
    of collect/cache/cuckooSentCache.go on top of it. A filter is the set of IDs inserted. */
module Cuckoo {
  import opened Events
  import L = LegacySent

  /** Where the monitor goroutine stands in Maintain, between its critical sections. `load` is
      the load factor it sampled at the start of the round. */
  datatype Monitor =
    | Asleep
    | Sampled(load: real)
    | Growing(load: real)
    | Grown(load: real)
    | Gone

  /** The filters and the capacities they were made with, and as history: the IDs added so far, and
      how many had been added when each filter was created. */
  datatype Checker = Checker(
    current: Option<set<string>>,
    future: Option<set<string>>,
    currentSize: nat,
    futureSize: nat,
    capacity: nat,
    monitor: Monitor,
    log: seq<string>,
    bornCurrent: nat,
    bornFuture: nat)

  function NewChecker(capacity: nat): Checker {
    Checker(Some({}), None, capacity, 0, capacity, Asleep, [], 0, 0)
  }

  datatype Act =
    | Add(id: string)
    | SetNextCapacity(size: nat)
    | Sample(reading: real)
    | DecideGrow
    | GrowFuture
    | Rotate
    | StopMonitor
    | StartMonitor

  function Insert(f: Option<set<string>>, id: string): Option<set<string>> {
    if f.Some? then Some(f.value + {id}) else None
  }

  /** One critical section. Acts of the monitor happen only where it stands; StopMonitor is the
      receive on the done channel, which it serves only between rounds. */
  function Take(c: Checker, a: Act): Checker {
    match a
    case Add(id) => c.(current := Insert(c.current, id), future := Insert(c.future, id), log := c.log + [id])
    case SetNextCapacity(n) => c.(capacity := n)
    case Sample(load) => if c.monitor.Asleep? then c.(monitor := Sampled(load)) else c
    case DecideGrow =>
      if c.monitor.Sampled? then
        c.(monitor := if c.future.None? && c.monitor.load > 0.5 then Growing(c.monitor.load) else Grown(c.monitor.load))
      else c
    case GrowFuture =>
      if c.monitor.Growing? then 
        c.(future := Some({}), futureSize := c.capacity, bornFuture := |c.log|, monitor := Grown(c.monitor.load))
      else c
    case Rotate =>
      if c.monitor.Grown? then
        if c.monitor.load > 0.99 then
          c.(current := c.future, future := Some({}), currentSize := c.futureSize, futureSize := c.capacity,
             bornCurrent := c.bornFuture, bornFuture := |c.log|, monitor := Asleep)
        else c.(monitor := Asleep)
      else c
    case StopMonitor => if c.monitor.Asleep? then c.(monitor := Gone) else c
    case StartMonitor => if c.monitor.Gone? then c.(monitor := Asleep) else c
  }

  function TakeAll(c: Checker, acts: seq<Act>): Checker {
    if acts == [] then c else Take(TakeAll(c, acts[..|acts| - 1]), acts[|acts| - 1])
  }

  ghost function AddedSince(log: seq<string>, n: nat): set<string> {
    set i | n <= i < |log| :: log[i]
  }

  /** Each filter holds exactly the IDs added since it was created, the future one was created
      later, and a monitor about to rotate has a future filter to rotate to. */
  ghost predicate Inv(c: Checker) {
    && c.bornCurrent <= |c.log|
    && c.current == Some(AddedSince(c.log, c.bornCurrent))
    && (c.future.Some? ==>
          c.bornCurrent <= c.bornFuture <= |c.log| && c.future == Some(AddedSince(c.log, c.bornFuture)))
    && (c.monitor.Grown? && c.monitor.load > 0.5 ==> c.future.Some?)
    && (c.monitor.Growing? ==> c.future.None?)
  }

  lemma AddedPush(log: seq<string>, id: string, n: nat)
    requires n <= |log|
    ensures AddedSince(log + [id], n) == AddedSince(log, n) + {id}
  {
    assert (log + [id])[|log|] == id;
    assert forall i :: 0 <= i < |log| ==> (log + [id])[i] == log[i];
  }

  lemma NoneAdded(log: seq<string>)
    ensures AddedSince(log, |log|) == {}
  {
  }

  lemma TakeKeeps(c: Checker, a: Act)
    requires Inv(c)
    ensures Inv(Take(c, a))
  {
    NoneAdded(c.log);
    if a.Add? {
      AddedPush(c.log, a.id, c.bornCurrent);
      if c.future.Some? { AddedPush(c.log, a.id, c.bornFuture); }
    }
  }

  lemma {:induction false} TakeAllKeeps(c: Checker, acts: seq<Act>)
    requires Inv(c)
    ensures Inv(TakeAll(c, acts))
  {
    if acts != [] {
      TakeAllKeeps(c, acts[..|acts| - 1]);
      TakeKeeps(TakeAll(c, acts[..|acts| - 1]), acts[|acts| - 1]);
    }
  }

  lemma AlwaysInv(capacity: nat, acts: seq<Act>)
    ensures Inv(TakeAll(NewChecker(capacity), acts))
  {
    NoneAdded([]);
    TakeAllKeeps(NewChecker(capacity), acts);
  }

  /** A round of the monitor that nothing interrupts: up to half full it changes nothing; beyond, it
      makes sure there is a future filter; above 99 percent the future filter takes the place of
      the current one and an empty one follows. Filters are made with the capacity set last. */
  lemma RoundIs(c: Checker, load: real)
    requires Inv(c) && c.monitor.Asleep?
    ensures var c' := TakeAll(c, [Sample(load), DecideGrow, GrowFuture, Rotate]);
            && c'.monitor.Asleep? && c'.log == c.log && c'.capacity == c.capacity
            && (load <= 0.5 ==> c' == c)
            && (0.5 < load <= 0.99 ==>
                  && c'.current == c.current && c'.currentSize == c.currentSize
                  && (if c.future.Some? then c'.future == c.future && c'.futureSize == c.futureSize
                      else c'.future == Some({}) && c'.futureSize == c.capacity))
            && (load > 0.99 ==>
                  && (if c.future.Some? then c'.current == c.future && c'.currentSize == c.futureSize
                      else c'.current == Some({}) && c'.currentSize == c.capacity)
                  && c'.future == Some({}) && c'.futureSize == c.capacity)
  {
    var acts := [Sample(load), DecideGrow, GrowFuture, Rotate];
    assert acts[..3] == [Sample(load), DecideGrow, GrowFuture] && acts[..3][..2] == [Sample(load), DecideGrow];
    assert acts[..3][..2][..1] == [Sample(load)] && [Sample(load)][..0] == [];
    assert TakeAll(c, []) == c;
    assert TakeAll(c, [Sample(load)]) == Take(c, Sample(load));
    assert TakeAll(c, [Sample(load), DecideGrow]) == Take(Take(c, Sample(load)), DecideGrow);
  }

  /** A section of the monitor does nothing unless the monitor stands before it, and a rotation
      happens only on a load above 99 percent. */
  lemma RotatesOnlyWhenFull(c: Checker, a: Act)
    ensures Take(c, a).bornCurrent != c.bornCurrent || Take(c, a).currentSize != c.currentSize ==>
              a.Rotate? && c.monitor.Grown? && c.monitor.load > 0.99
    ensures !a.Add? && !(a.Rotate? && c.monitor.Grown? && c.monitor.load > 0.99) ==> Take(c, a).current == c.current
    ensures a.SetNextCapacity? ==> Take(c, a) == c.(capacity := a.size)
  {
  }

  predicate Check(c: Checker, id: string) {
    c.current.Some? && id in c.current.value
  }

  /** At every interleaving current is there, future is part of it, and Check finds exactly the
      IDs added since current was created. */
  lemma FindsExactlyAddedSince(capacity: nat, acts: seq<Act>, id: string)
    ensures var c := TakeAll(NewChecker(capacity), acts);
            && c.current.Some? && c.bornCurrent <= |c.log|
            && (c.future.Some? ==> c.future.value <= c.current.value)
            && (Check(c, id) <==> exists i :: c.bornCurrent <= i < |c.log| && c.log[i] == id)
  {
    AlwaysInv(capacity, acts);
  }

  /** A rotation forgets only what was added before future was created: every ID added since is
      still found, and whatever is not lost was there before. */
  lemma RotationKeepsRecent(capacity: nat, acts: seq<Act>, id: string)
    requires TakeAll(NewChecker(capacity), acts).monitor.Grown?
    requires TakeAll(NewChecker(capacity), acts).monitor.load > 0.99
    ensures var c := TakeAll(NewChecker(capacity), acts);
            var c' := Take(c, Rotate);
            && c.future.Some? && c.bornFuture <= |c.log|
            && (Check(c', id) <==> exists i :: c.bornFuture <= i < |c.log| && c.log[i] == id)
            && (Check(c', id) ==> Check(c, id))
            && c'.future == Some({})
  {
    AlwaysInv(capacity, acts);
    TakeKeeps(TakeAll(NewChecker(capacity), acts), Rotate);
  }

  /******* The sent cache *******/

  /** What Check tells its caller. */
  datatype Reply = Reply(record: Option<L.Entry>, found: bool)

  /** A trace in the dropped filter is answered with the dropped record and found == false. */
  function CheckReply(kept: L.Lru, dropped: bool, id: string): Reply {
    if dropped then Reply(Some(L.Entry(id, false, 0, 0)), false)
    else if L.Has(kept, id) then Reply(Some(L.Hit(kept, id)[|L.Hit(kept, id)| - 1]), true)
    else Reply(None, false)
  }

  /** The newest entries that fit, in their order. */
  function Newest(l: L.Lru, size: nat): L.Lru {
    if |l| > size then l[|l| - size..] else l
  }

  /** That is the end of the list, as long as it may be. */
  lemma NewestIs(l: L.Lru, size: nat)
    ensures |Newest(l, size)| == (if |l| < size then |l| else size)
    ensures l == l[..|l| - |Newest(l, size)|] + Newest(l, size)
  {
  }

  class CuckooSentCache {
    var keptSize: nat
    var kept: L.Lru
    var dropped: Checker

    constructor (keptSize: nat, droppedSize: nat)
      requires keptSize > 0
      ensures Valid() && kept == [] && this.keptSize == keptSize && dropped == NewChecker(droppedSize)
    {
      this.keptSize, kept, dropped := keptSize, [], NewChecker(droppedSize);
      NoneAdded([]);
    }

    ghost predicate Valid()
      reads this
    {
      && keptSize > 0 && L.Sound(kept, keptSize) && Inv(dropped)
      && forall i :: 0 <= i < |kept| ==> kept[i].keep
    }

    method RecordDecision(id: string, keep: bool, rate: nat, count: nat)
      requires Valid()
      modifies this
      ensures Valid() && keptSize == old(keptSize)
      ensures kept == if keep then L.Add(old(kept), keptSize, L.Entry(id, true, rate, count)) else old(kept)
      ensures dropped == if keep then old(dropped) else Take(old(dropped), Add(id))
      ensures !keep ==> Check(dropped, id)
    {
      if keep {
        L.AddSound(kept, keptSize, L.Entry(id, true, rate, count));
        kept := L.Add(kept, keptSize, L.Entry(id, true, rate, count));
        return;
      }
      TakeKeeps(dropped, Add(id));
      dropped := Take(dropped, Add(id));
    }

    method CheckSpan(id: string) returns (r: Reply)
      requires Valid()
      modifies this
      ensures Valid() && keptSize == old(keptSize) && dropped == old(dropped)
      ensures r == CheckReply(old(kept), Check(dropped, id), id)
      ensures r.found ==> r.record.Some? && r.record.value.keep && r.record.value.id == id && !Check(dropped, id)
      ensures kept == if r.found then L.Hit(old(kept), id) else old(kept)
    {
      if Check(dropped, id) {
        return Reply(Some(L.Entry(id, false, 0, 0)), false);
      }
      if L.Has(kept, id) {
        L.StepSound(kept, keptSize, L.Check(id));
        kept := L.Hit(kept, id);
        return Reply(Some(kept[|kept| - 1]), true);
      }
      return Reply(None, false);
    }

    /** Resize copies the newest entries that fit, in order, schedules the new filter size, and
        replaces the monitor; a size of 0 is refused by the LRU and changes nothing. The send on
        the done channel waits until the monitor is between rounds: `waiting` is what happens to
        the filter meanwhile. */
    method Resize(newKept: nat, newDropped: nat, waiting: seq<Act>) returns (ok: bool)
      requires Valid()
      requires newKept > 0 ==> TakeAll(Take(dropped, SetNextCapacity(newDropped)), waiting).monitor.Asleep?
      modifies this
      ensures Valid() && ok == (newKept > 0)
      ensures !ok ==> keptSize == old(keptSize) && kept == old(kept) && dropped == old(dropped)
      ensures ok ==> keptSize == newKept && kept == Newest(old(kept), newKept)
                     && dropped == TakeAll(Take(old(dropped), SetNextCapacity(newDropped)), waiting)
      ensures ok ==> dropped.monitor.Asleep?
    {
      if newKept == 0 {
        return false;
      }
      var keys := Newest(kept, newKept);
      var stc: L.Lru := [];
      for i := 0 to |keys|
        invariant stc == keys[..i]
        invariant kept == old(kept) && keptSize == old(keptSize) && dropped == old(dropped)
      {
        CopyNext(keys, i, newKept);
        stc := L.Add(stc, newKept, keys[i]);
      }
      kept := stc;
      keptSize := newKept;
      TakeKeeps(dropped, SetNextCapacity(newDropped));
      dropped := Take(dropped, SetNextCapacity(newDropped));
      TakeAllKeeps(dropped, waiting);
      dropped := TakeAll(dropped, waiting);
      dropped := Take(Take(dropped, StopMonitor), StartMonitor);
      return true;
    }
  }

  lemma CopyNext(keys: L.Lru, i: nat, size: nat)
    requires L.Unique(keys) && i < |keys| <= size
    ensures L.Add(keys[..i], size, keys[i]) == keys[..i + 1]
  {
    assert !L.Has(keys[..i], keys[i].id);
  }

  /** When Check finds an ID, at every interleaving: it is remembered as kept, and was not
      dropped since the current filter was created; it answers the entry, with the span counted. */
  lemma FoundIff(capacity: nat, acts: seq<Act>, kept: L.Lru, id: string)
    ensures var c := TakeAll(NewChecker(capacity), acts);
            c.bornCurrent <= |c.log|
            && (CheckReply(kept, Check(c, id), id).found
                <==> L.Has(kept, id) && !(exists i :: c.bornCurrent <= i < |c.log| && c.log[i] == id))
            && (CheckReply(kept, Check(c, id), id).found ==>
                  exists k :: 0 <= k < |kept| && kept[k].id == id
                           && CheckReply(kept, Check(c, id), id).record == Some(kept[k].(count := kept[k].count + 1)))
  {
    FindsExactlyAddedSince(capacity, acts, id);
  }
}
