/** The trace cache of collect/cache/cache.go: trace objects, the index from trace ID to
    trace, and the insertion ring, both updated in place. */
module TraceCache {
  import opened Events
  import opened Ring
  import M = CollectorModel

  /** A trace object. The index and the ring share references to it. */
  class LiveTrace {
    const serial: nat
    const traceID: string
    const arrivalTime: int
    var sampleRate: nat
    var keepSample: bool
    var sent: bool
    var sendBy: int
    var root: Option<nat>
    var dataSize: nat
    var spans: seq<Span>
    var totalImpact: int

    constructor (t: Trace)
      ensures View() == t && serial == t.serial && traceID == t.traceID && arrivalTime == t.arrivalTime
    {
      serial, traceID, arrivalTime := t.serial, t.traceID, t.arrivalTime;
      sampleRate, keepSample, sent, sendBy := t.sampleRate, t.keepSample, t.sent, t.sendBy;
      root, dataSize, spans, totalImpact := t.root, t.dataSize, t.spans, t.totalImpact;
    }

    function View(): (t: Trace)
      reads this
      ensures t.serial == serial && t.traceID == traceID
    {
      Trace(serial, traceID, sampleRate, keepSample, sent, sendBy, arrivalTime, root, dataSize, spans, totalImpact)
    }

    method AddSpan(sp: Span, now: int) returns (added: Span)
      modifies this`dataSize, this`spans, this`totalImpact
      ensures added == sp.(arrivalTime := now, dataSize := DataSizeOf(sp.data))
      ensures View() == Events.AddSpan(old(View()), added)
    {
      var size := GetDataSize(sp.data);
      added := sp.(arrivalTime := now, dataSize := size);
      dataSize := dataSize + size;
      spans := spans + [added];
      totalImpact := 0;
    }

    /** `tick` counts the readings of the clock: one for each span that is weighed. */
    method CacheImpact(timeout: int, clock: nat -> int, tick: nat) returns (r: int, tick': nat)
      requires timeout != 0
      modifies this`totalImpact
      ensures r == Impact(old(View()), From(clock, tick), timeout)
      ensures View() == old(View()).(totalImpact := r)
      ensures tick' == tick + if old(totalImpact) == 0 then |spans| else 0
    {
      tick' := tick;
      if totalImpact == 0 {
        var i := 0;
        while i < |spans|
          invariant 0 <= i <= |spans| && tick' == tick + i
          invariant totalImpact == SpansImpact(spans[..i], From(clock, tick), timeout)
        {
          assert spans[..i + 1][..i] == spans[..i];
          totalImpact := totalImpact + SpanImpact(spans[i], clock(tick'), timeout);
          tick' := tick' + 1;
          i := i + 1;
        }
        assert spans[..i] == spans;
      }
      r := totalImpact;
    }
  }

  /******* The cache as a value *******/

  /** What the source keeps in its two structures: the index and the ring. */
  datatype CacheState = CacheState(index: map<string, LiveTrace>, ring: Ring<LiveTrace>)

  type Slots = seq<Option<LiveTrace>>

  /** Index and ring hold the same traces, each trace ID once. */
  ghost predicate Agree(c: CacheState) {
    && c.ring.Valid()
    && (forall i :: 0 <= i < |c.ring.slots| && c.ring.slots[i].Some? ==>
          var t := c.ring.slots[i].value;
          t.traceID in c.index && c.index[t.traceID] == t)
    && (forall i, j :: 0 <= i < j < |c.ring.slots| && c.ring.slots[i].Some? && c.ring.slots[j].Some? ==>
          c.ring.slots[i].value.traceID != c.ring.slots[j].value.traceID)
    && (forall id :: id in c.index ==> c.index[id].traceID == id && InSlots(c.ring.slots, c.index[id]))
  }

  ghost predicate InSlots(slots: Slots, t: LiveTrace) {
    exists i :: 0 <= i < |slots| && slots[i] == Some(t)
  }

  function OccupantIds(slot: Option<LiveTrace>): set<string> {
    if slot.Some? then {slot.value.traceID} else {}
  }

  /** Set, in the source's order: store under the new ID, then delete the ID of the trace
      found in the slot, then overwrite the slot. */
  function SetTrace(c: CacheState, t: LiveTrace): CacheState
    requires c.ring.Valid()
  {
    CacheState(c.index[t.traceID := t] - OccupantIds(c.ring.slots[c.ring.Spot()]), c.ring.Put(t))
  }

  function IdMask(slots: Slots, ids: set<string>): seq<bool> {
    seq(|slots|, i requires 0 <= i < |slots| => slots[i].Some? && slots[i].value.traceID in ids)
  }

  /** RemoveTraces. */
  function Remove(c: CacheState, ids: set<string>): CacheState {
    CacheState(c.index - ids, c.ring.(slots := M.Without(c.ring.slots, IdMask(c.ring.slots, ids))))
  }

  /** Set keeps index and ring in agreement exactly when the ID is not cached yet. */
  lemma SetAgreesIffAbsent(c: CacheState, t: LiveTrace)
    requires Agree(c)
    ensures Agree(SetTrace(c, t)) <==> t.traceID !in c.index
  {
    var c' := SetTrace(c, t);
    var p := c.ring.Spot();
    assert c'.ring.slots[p] == Some(t);
    if t.traceID in c.index {
      var u := c.index[t.traceID];
      var k :| 0 <= k < |c.ring.slots| && c.ring.slots[k] == Some(u);
      if k != p {
        assert c'.ring.slots[k] == Some(u);
      }
    } else {
      forall id | id in c'.index ensures c'.index[id].traceID == id && InSlots(c'.ring.slots, c'.index[id]) {
        if id != t.traceID {
          var k :| 0 <= k < |c.ring.slots| && c.ring.slots[k] == Some(c.index[id]);
          assert c'.ring.slots[k] == Some(c'.index[id]);
        }
      }
    }
  }

  lemma RemoveAgrees(c: CacheState, ids: set<string>)
    requires Agree(c)
    ensures Agree(Remove(c, ids))
  {
    var c' := Remove(c, ids);
    forall id | id in c'.index ensures c'.index[id].traceID == id && InSlots(c'.ring.slots, c'.index[id]) {
      var k :| 0 <= k < |c.ring.slots| && c.ring.slots[k] == Some(c.index[id]);
      assert c'.ring.slots[k] == Some(c'.index[id]);
    }
  }

  /******* The sliding window *******/

  datatype CacheOp = SetOp(t: LiveTrace) | RemoveOp(ids: set<string>)

  function After(capacity: nat, ops: seq<CacheOp>): (c: CacheState)
    ensures c.ring.Valid() && |c.ring.slots| == RingSize(capacity)
  {
    if ops == [] then CacheState(map[], Empty(capacity))
    else
      var c := After(capacity, ops[..|ops| - 1]);
      match ops[|ops| - 1]
      case SetOp(t) => SetTrace(c, t)
      case RemoveOp(ids) => Remove(c, ids)
  }

  /** Set is used only for IDs that are not cached, as processSpan uses it. */
  ghost predicate Legal(capacity: nat, ops: seq<CacheOp>) {
    forall i :: 0 <= i < |ops| && ops[i].SetOp? ==> ops[i].t.traceID !in After(capacity, ops[..i]).index
  }

  lemma LegalPrefix(capacity: nat, ops: seq<CacheOp>)
    requires Legal(capacity, ops) && ops != []
    ensures Legal(capacity, ops[..|ops| - 1])
    ensures ops[|ops| - 1].SetOp? ==> ops[|ops| - 1].t.traceID !in After(capacity, ops[..|ops| - 1]).index
  {
    var front := ops[..|ops| - 1];
    forall i | 0 <= i < |front| && front[i].SetOp? ensures front[i].t.traceID !in After(capacity, front[..i]).index {
      assert front[..i] == ops[..i] && front[i] == ops[i];
    }
  }

  /** Map and ring agree after every legal history. */
  lemma {:induction false} AlwaysAgree(capacity: nat, ops: seq<CacheOp>)
    requires Legal(capacity, ops)
    ensures Agree(After(capacity, ops))
  {
    if ops != [] {
      var front, op := ops[..|ops| - 1], ops[|ops| - 1];
      LegalPrefix(capacity, ops);
      AlwaysAgree(capacity, front);
      match op
      case SetOp(t) => SetAgreesIffAbsent(After(capacity, front), t);
      case RemoveOp(ids) => RemoveAgrees(After(capacity, front), ids);
    }
  }

  /** The window: what is left of the trace Set `age` Sets ago (0 is the latest). */
  function Recent(ops: seq<CacheOp>, age: nat): Option<LiveTrace>
    decreases |ops|
  {
    if ops == [] then None
    else
      var front := ops[..|ops| - 1];
      match ops[|ops| - 1]
      case SetOp(t) => if age == 0 then Some(t) else Recent(front, age - 1)
      case RemoveOp(ids) =>
        var was := Recent(front, age);
        if was.Some? && was.value.traceID in ids then None else was
  }

  /** The slot of the entry of a given age, going backwards from the insert point. */
  function SlotOf(next: nat, size: nat, age: nat): int
    requires next <= size && age < size
  {
    if age < next then next - 1 - age else next - 1 - age + size
  }

  /** The ring is the window laid out backwards from the insert point. */
  lemma {:induction false} RingIsWindow(capacity: nat, ops: seq<CacheOp>, age: nat)
    requires age < RingSize(capacity)
    ensures var r := After(capacity, ops).ring;
            0 <= SlotOf(r.next, |r.slots|, age) < |r.slots|
            && r.slots[SlotOf(r.next, |r.slots|, age)] == Recent(ops, age)
    decreases |ops|
  {
    if ops != [] {
      var front := ops[..|ops| - 1];
      match ops[|ops| - 1]
      case SetOp(t) => if age > 0 { RingIsWindow(capacity, front, age - 1); }
      case RemoveOp(ids) => RingIsWindow(capacity, front, age);
    }
  }

  function SetsIn(ops: seq<CacheOp>): nat {
    if ops == [] then 0 else SetsIn(ops[..|ops| - 1]) + (if ops[|ops| - 1].SetOp? then 1 else 0)
  }

  /** Set at step i, with exactly `age` Sets since, and not taken or removed since. */
  ghost predicate Survives(ops: seq<CacheOp>, i: nat, t: LiveTrace, age: nat) {
    && i < |ops| && ops[i] == SetOp(t)
    && SetsIn(ops[i + 1..]) == age
    && forall j :: i < j < |ops| && ops[j].RemoveOp? ==> t.traceID !in ops[j].ids
  }

  lemma SurvivesFront(ops: seq<CacheOp>, i: nat, t: LiveTrace, age: nat)
    requires ops != [] && i < |ops| - 1
    ensures var front, op := ops[..|ops| - 1], ops[|ops| - 1];
            Survives(ops, i, t, age)
            <==> match op
                 case SetOp(_) => age > 0 && Survives(front, i, t, age - 1)
                 case RemoveOp(ids) => t.traceID !in ids && Survives(front, i, t, age)
  {
    var front := ops[..|ops| - 1];
    assert ops[i + 1..][..|ops[i + 1..]| - 1] == front[i + 1..];
    assert forall j :: i < j < |front| ==> front[j] == ops[j];
  }

  lemma {:induction false} RecentIsSurvivor(ops: seq<CacheOp>, t: LiveTrace, age: nat)
    ensures Recent(ops, age) == Some(t) <==> exists i :: Survives(ops, i, t, age)
    decreases |ops|
  {
    if ops != [] {
      var n := |ops| - 1;
      var front := ops[..n];
      assert ops[n + 1..] == [];
      if Recent(ops, age) == Some(t) {
        match ops[n]
        case SetOp(_) =>
          if age == 0 {
            assert Survives(ops, n, t, age);
          } else {
            RecentIsSurvivor(front, t, age - 1);
            var i :| Survives(front, i, t, age - 1);
            SurvivesFront(ops, i, t, age);
          }
        case RemoveOp(_) =>
          RecentIsSurvivor(front, t, age);
          var i :| Survives(front, i, t, age);
          SurvivesFront(ops, i, t, age);
      }
      if i: nat :| Survives(ops, i, t, age) {
        if i < n {
          SurvivesFront(ops, i, t, age);
          match ops[n]
          case SetOp(_) => RecentIsSurvivor(front, t, age - 1);
          case RemoveOp(_) => RecentIsSurvivor(front, t, age);
        }
      }
    }
  }

  /** Among the last `capacity` traces Set, and not taken or removed since. */
  ghost predicate InWindow(capacity: nat, ops: seq<CacheOp>, t: LiveTrace) {
    exists i, age :: 0 <= age < RingSize(capacity) && Survives(ops, i, t, age)
  }

  lemma AgeOfSlot(next: nat, size: nat, k: nat) returns (age: nat)
    requires k < size && next <= size
    ensures age < size && SlotOf(next, size, age) == k
  {
    age := if k < next then next - 1 - k else next - 1 - k + size;
  }

  /** Get(id) returns t exactly when t has that ID, is among the last `capacity` traces Set and
      has not been taken or removed since. */
  lemma GetIsWindow(capacity: nat, ops: seq<CacheOp>, id: string, t: LiveTrace)
    requires Legal(capacity, ops)
    ensures var c := After(capacity, ops);
            (id in c.index && c.index[id] == t) <==> (t.traceID == id && InWindow(capacity, ops, t))
  {
    var c := After(capacity, ops);
    var size := RingSize(capacity);
    AlwaysAgree(capacity, ops);
    if id in c.index && c.index[id] == t {
      var k :| 0 <= k < |c.ring.slots| && c.ring.slots[k] == Some(t);
      var age := AgeOfSlot(c.ring.next, size, k);
      RingIsWindow(capacity, ops, age);
      RecentIsSurvivor(ops, t, age);
    }
    if t.traceID == id && InWindow(capacity, ops, t) {
      var i, age :| 0 <= age < size && Survives(ops, i, t, age);
      RecentIsSurvivor(ops, t, age);
      RingIsWindow(capacity, ops, age);
    }
  }

  ghost predicate SurvivesAt(ops: seq<CacheOp>, t: LiveTrace, age: nat) {
    exists i :: Survives(ops, i, t, age)
  }

  /** What the next Set ejects is exactly what is left of the trace Set `capacity` Sets before
      it, and every trace in another slot was Set later than that: the oldest one goes. */
  lemma SetEjectsOldest(capacity: nat, ops: seq<CacheOp>, t: LiveTrace, k: nat)
    requires k < RingSize(capacity)
    ensures var r := After(capacity, ops).ring;
            && (r.slots[r.Spot()] == Some(t) <==> SurvivesAt(ops, t, RingSize(capacity) - 1))
            && (k != r.Spot() && r.slots[k] == Some(t) ==>
                  exists age :: 0 <= age < RingSize(capacity) - 1 && SurvivesAt(ops, t, age))
  {
    var r := After(capacity, ops).ring;
    RingIsWindow(capacity, ops, RingSize(capacity) - 1);
    RecentIsSurvivor(ops, t, RingSize(capacity) - 1);
    if k != r.Spot() && r.slots[k] == Some(t) {
      var age := AgeOfSlot(r.next, RingSize(capacity), k);
      RingIsWindow(capacity, ops, age);
      RecentIsSurvivor(ops, t, age);
      assert SurvivesAt(ops, t, age);
      assert age != RingSize(capacity) - 1;
    }
  }

  /******* Clearing slots *******/

  ghost function MaskIds(slots: Slots, mask: seq<bool>, n: nat): set<string>
    requires n <= |slots| == |mask|
  {
    set i | 0 <= i < n && mask[i] && slots[i].Some? :: slots[i].value.traceID
  }

  lemma MaskIdsStep(slots: Slots, mask: seq<bool>, n: nat)
    requires n < |slots| == |mask|
    ensures MaskIds(slots, mask, n + 1) ==
            MaskIds(slots, mask, n) + (if mask[n] && slots[n].Some? then {slots[n].value.traceID} else {})
  {
  }

  lemma OnlyStep(slots: Slots, mask: seq<bool>, n: nat)
    requires n < |slots| == |mask|
    ensures Items(M.Only(slots, mask)[..n + 1]) ==
            Items(M.Only(slots, mask)[..n]) + (if mask[n] && slots[n].Some? then [slots[n].value] else [])
  {
    assert M.Only(slots, mask)[..n + 1][..n] == M.Only(slots, mask)[..n];
  }

  lemma TakenAre(slots: Slots, mask: seq<bool>, res: seq<LiveTrace>)
    requires |mask| == |slots| && res == Items(M.Only(slots, mask))
    ensures forall t :: t in res <==> exists i :: 0 <= i < |slots| && slots[i] == Some(t) && mask[i]
  {
    hide Items;
    var only := M.Only(slots, mask);
    forall t ensures t in res <==> exists i :: 0 <= i < |slots| && slots[i] == Some(t) && mask[i] {
      ItemsMember(only, t);
      if t in res { var i :| 0 <= i < |only| && only[i] == Some(t); }
      if i :| 0 <= i < |slots| && slots[i] == Some(t) && mask[i] { assert only[i] == Some(t); }
    }
  }

  lemma MaskIdsAre(slots: Slots, mask: seq<bool>)
    requires |mask| == |slots|
    ensures forall id :: id in MaskIds(slots, mask, |slots|)
                         <==> exists i :: 0 <= i < |slots| && slots[i].Some? && slots[i].value.traceID == id && mask[i]
  {
  }

  lemma NoneCleared(slots: Slots, mask: seq<bool>)
    requires |slots| == |mask|
    ensures MaskIds(slots, mask, 0) == {} && Items(M.Only(slots, mask)[..0]) == []
    ensures M.Only(slots, mask)[..|slots|] == M.Only(slots, mask)
    ensures M.Without(slots, mask)[..|slots|] == M.Without(slots, mask)
  {
  }

  /** What the clearing loops do: empty the selected slots and delete their IDs. */
  ghost function Clear(c: CacheState, mask: seq<bool>): CacheState
    requires |mask| == |c.ring.slots|
  {
    CacheState(c.index - MaskIds(c.ring.slots, mask, |mask|), c.ring.(slots := M.Without(c.ring.slots, mask)))
  }

  /** Clearing slots of a cache in agreement is removing their IDs from the window, so both
      TakeExpiredTraces and RemoveTraces are RemoveOp steps. */
  lemma ClearIsRemove(c: CacheState, mask: seq<bool>)
    requires Agree(c) && |mask| == |c.ring.slots|
    requires forall i :: 0 <= i < |mask| && mask[i] ==> c.ring.slots[i].Some?
    ensures Clear(c, mask) == Remove(c, MaskIds(c.ring.slots, mask, |mask|))
    ensures Agree(Clear(c, mask))
  {
    var ids := MaskIds(c.ring.slots, mask, |mask|);
    assert IdMask(c.ring.slots, ids) == mask;
    RemoveAgrees(c, ids);
  }

  lemma RemoveTracesIsRemove(c: CacheState, ids: set<string>)
    requires Agree(c)
    ensures Clear(c, IdMask(c.ring.slots, ids)) == Remove(c, ids)
    ensures Agree(Remove(c, ids))
  {
    var mask := IdMask(c.ring.slots, ids);
    var gone := MaskIds(c.ring.slots, mask, |mask|);
    forall id | id in c.index ensures id in gone <==> id in ids {
      var k :| 0 <= k < |c.ring.slots| && c.ring.slots[k] == Some(c.index[id]);
      assert mask[k] <==> id in ids;
    }
    assert c.index - gone == c.index - ids;
    RemoveAgrees(c, ids);
  }

  /******* The cache in place *******/

  class InMemCache {
    var index: map<string, LiveTrace>
    var order: array<LiveTrace?>
    var insertPoint: nat

    constructor (capacity: nat)
      ensures Value() == CacheState(map[], Empty(capacity)) && Agree(Value())
      ensures fresh(order)
    {
      var size := RingSize(capacity);
      index, insertPoint := map[], 0;
      order := new LiveTrace?[size](_ => null);
      new;
      assert Value().ring.slots == Empty<LiveTrace>(capacity).slots;
    }

    ghost function SlotsFrom(n: nat): (r: Slots)
      reads this, order
      requires n <= order.Length
      ensures |r| == n
      ensures forall i :: 0 <= i < n ==> r[i] == if order[i] == null then None else Some(order[i])
    {
      seq(n, i requires 0 <= i < order.Length reads this, order =>
        if order[i] == null then None else Some(order[i]))
    }

    ghost function Value(): CacheState
      reads this, order
    {
      CacheState(index, Ring(SlotsFrom(order.Length), insertPoint))
    }

    function CacheSize(): (n: nat)
      reads this
      ensures n == |Value().ring.slots|
    {
      order.Length
    }

    method Set(t: LiveTrace?) returns (ejected: LiveTrace?)
      requires Value().ring.Valid()
      modifies this`index, this`insertPoint, order
      ensures t == null ==> ejected == null && Value() == old(Value())
      ensures t != null ==>
                && Value() == SetTrace(old(Value()), t)
                && ejected == (var r := old(Value().ring);
                               var there := r.slots[r.Spot()];
                               if there.Some? && !there.value.sent then there.value else null)
    {
      ejected := null;
      if t == null {
        return;
      }
      if insertPoint >= order.Length {
        insertPoint := 0;
      }
      index := index[t.traceID := t];
      var there := order[insertPoint];
      if there != null {
        index := index - {there.traceID};
        if !there.sent {
          ejected := there;
        }
      }
      order[insertPoint] := t;
      insertPoint := insertPoint + 1;
      assert SlotsFrom(order.Length) == old(Value().ring).Put(t).slots;
    }

    function Get(id: string): (t: LiveTrace?)
      reads this
      ensures t != null <==> id in Value().index
      ensures t != null ==> t == Value().index[id]
    {
      if id in index then index[id] else null
    }

    method GetAll() returns (all: seq<LiveTrace>)
      ensures all == Items(Value().ring.slots)
    {
      all := [];
      for i := 0 to order.Length
        invariant all == Items(SlotsFrom(i))
      {
        assert SlotsFrom(i + 1)[..i] == SlotsFrom(i);
        if order[i] != null {
          all := all + [order[i]];
        }
      }
    }

    /** Which slots hold a trace past its deadline. */
    ghost function Overdue(now: int): seq<bool>
      reads this, order, set i | 0 <= i < order.Length && order[i] != null :: order[i]
    {
      seq(order.Length, i requires 0 <= i < order.Length
        reads this, order, set j | 0 <= j < order.Length && order[j] != null :: order[j] =>
        order[i] != null && now > order[i].sendBy)
    }

    /** Removes and returns the traces past their deadline, in slot order. */
    method TakeExpiredTraces(now: int) returns (res: seq<LiveTrace>)
      modifies this`index, order
      ensures Value() == Clear(old(Value()), old(Overdue(now)))
      ensures res == Items(M.Only(old(Value().ring.slots), old(Overdue(now))))
      ensures forall i :: 0 <= i < order.Length ==>
                order[i] == if old(order[i]) != null && now > old(order[i].sendBy) then null else old(order[i])
      ensures forall t :: t in res <==> exists i :: 0 <= i < order.Length && old(order[i]) == t && now > old(order[i].sendBy)
      ensures forall id :: id in index <==>
                id in old(index) && !exists i :: 0 <= i < order.Length && old(order[i]) != null
                                                 && old(order[i]).traceID == id && now > old(order[i].sendBy)
      ensures forall id :: id in index ==> index[id] == old(index)[id]
    {
      hide Items, MaskIds, M.Only;
      ghost var slots, mask, dom := SlotsFrom(order.Length), Overdue(now), index;
      NoneCleared(slots, mask);
      res := [];
      for i := 0 to order.Length
        invariant forall k :: i <= k < order.Length ==> order[k] == old(order[k])
        invariant SlotsFrom(i) == M.Without(slots, mask)[..i]
        invariant res == Items(M.Only(slots, mask)[..i])
        invariant index == dom - MaskIds(slots, mask, i)
      {
        var t := order[i];
        assert slots[i] == if t == null then None else Some(t);
        assert mask[i] == (t != null && now > t.sendBy);
        OnlyStep(slots, mask, i);
        MaskIdsStep(slots, mask, i);
        if t != null && now > t.sendBy {
          res := res + [t];
          order[i] := null;
          index := index - {t.traceID};
        }
        assert SlotsFrom(i) == M.Without(slots, mask)[..i];
        assert SlotsFrom(i + 1) == M.Without(slots, mask)[..i + 1];
      }
      TakenAre(slots, mask, res);
      MaskIdsAre(slots, mask);
    }

    method RemoveTraces(toDelete: set<string>)
      modifies this`index, order
      ensures Value() == Clear(old(Value()), IdMask(old(Value().ring.slots), toDelete))
    {
      hide MaskIds;
      ghost var slots, dom := SlotsFrom(order.Length), index;
      ghost var mask := IdMask(slots, toDelete);
      NoneCleared(slots, mask);
      for i := 0 to order.Length
        invariant forall k :: i <= k < order.Length ==> order[k] == old(order[k])
        invariant SlotsFrom(i) == M.Without(slots, mask)[..i]
        invariant index == dom - MaskIds(slots, mask, i)
      {
        var t := order[i];
        assert slots[i] == if t == null then None else Some(t);
        MaskIdsStep(slots, mask, i);
        if t != null {
          if t.traceID in toDelete {
            order[i] := null;
            index := index - {t.traceID};
          }
        }
        assert SlotsFrom(i) == M.Without(slots, mask)[..i];
        assert SlotsFrom(i + 1) == M.Without(slots, mask)[..i + 1];
      }
    }
  }
}
