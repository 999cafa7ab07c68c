/** The collector together with the cuckoo sent cache, its background monitor and its resizing.
    The pair answers truthfully even if the filter raises false alarms, since an alarm only
    makes Check say that it found nothing. */
module CuckooCollector {
  import opened Events
  import opened Ring
  import opened CollectorModel
  import opened CollectorHistory
  import opened CollectorTheorems
  import B = LegacyCollector
  import L = LegacySent
  import K = Cuckoo

  datatype Trio = Trio(s: State, kept: L.Lru, keptSize: nat, dropped: K.Checker)

  /** A step of the collector; before it the monitor takes any of its critical sections. `alarm`
      is a false positive of the filter, and the sizes are those a reload finds configured. */
  datatype Turn = Turn(step: Step, monitor: seq<K.Act>, alarm: bool, newKept: nat, newDropped: nat)

  ghost function Start(capacity: nat, keptSize: nat, droppedSize: nat): Trio {
    Trio(Initial(capacity), [], keptSize, K.NewChecker(droppedSize))
  }

  ghost predicate OwnActs(acts: seq<K.Act>) {
    forall i :: 0 <= i < |acts| ==> !acts[i].Add? && !acts[i].SetNextCapacity?
  }

  ghost function Filter(c: Trio, t: Turn): K.Checker {
    K.TakeAll(c.dropped, t.monitor)
  }

  ghost function Reply(c: Trio, t: Turn, id: string): K.Reply {
    K.CheckReply(c.kept, t.alarm || K.Check(Filter(c, t), id), id)
  }

  /** What processSpan takes from a reply: the record only if it was found. */
  ghost function AnswerOf(r: K.Reply): Option<SentRecord> {
    if r.found && r.record.Some? then Some(SentRecord(r.record.value.keep, r.record.value.rate, r.record.value.count))
    else None
  }

  ghost predicate Answered(c: Trio, t: Turn)
    requires Enabled(c.s, t.step)
  {
    t.step.Process? ==>
      t.step.arrival.answer
      == if B.Consults(c.s, t.step) then AnswerOf(Reply(c, t, Head(c.s, t.step.peer).traceID)) else None
  }

  ghost function Keep(l: L.Lru, size: nat, rs: seq<Record>): L.Lru {
    if rs == [] then l
    else
      var r := rs[|rs| - 1];
      var before := Keep(l, size, rs[..|rs| - 1]);
      if r.keep then L.Add(before, size, B.EntryOf(r)) else before
  }

  ghost function Drop(f: K.Checker, rs: seq<Record>): K.Checker {
    if rs == [] then f
    else
      var r := rs[|rs| - 1];
      var before := Drop(f, rs[..|rs| - 1]);
      if r.keep then before else K.Take(before, K.Add(r.traceID))
  }

  ghost function Asked(c: Trio, t: Turn): L.Lru
    requires Enabled(c.s, t.step)
  {
    if !B.Consults(c.s, t.step) then c.kept
    else
      var id := Head(c.s, t.step.peer).traceID;
      if Reply(c, t, id).found && L.Has(c.kept, id) then L.Hit(c.kept, id) else c.kept
  }

  ghost function Next(c: Trio, t: Turn): Trio
    requires Enabled(c.s, t.step)
  {
    B.DecisionsGrow(c.s, t.step);
    var s' := Apply(c.s, t.step);
    var more := s'.decisions[|c.s.decisions|..];
    var kept, dropped := Keep(Asked(c, t), c.keptSize, more), Drop(Filter(c, t), more);
    if t.step.Reconfigure? && t.newKept > 0
    then Trio(s', K.Newest(kept, t.newKept), t.newKept, K.Take(dropped, K.SetNextCapacity(t.newDropped)))
    else Trio(s', kept, c.keptSize, dropped)
  }

  ghost predicate CuckooRun(c: Trio, turns: seq<Turn>, c': Trio, rule: (State, Step) -> bool)
    decreases |turns|
  {
    if turns == [] then c' == c
    else
      && OwnActs(turns[0].monitor)
      && Enabled(c.s, turns[0].step) && rule(c.s, turns[0].step) && Answered(c, turns[0])
      && CuckooRun(Next(c, turns[0]), turns[1..], c', rule)
  }

  function StepsOf(turns: seq<Turn>): seq<Step> {
    seq(|turns|, i requires 0 <= i < |turns| => turns[i].step)
  }

  /******* The cache is truthful *******/

  /** The last decision to keep a trace of this ID. */
  ghost predicate LastKept(ds: seq<Record>, id: string, i: nat) {
    i < |ds| && ds[i].traceID == id && ds[i].keep && forall k :: i < k < |ds| && ds[k].keep ==> ds[k].traceID != id
  }

  ghost predicate LastKeptAt(ds: seq<Record>, id: string, rate: nat) {
    exists i: nat :: LastKept(ds, id, i) && ds[i].rate == rate
  }

  /** Everything remembered is the last decision to keep a trace of its ID. */
  ghost predicate Backed(ds: seq<Record>, l: L.Lru) {
    L.Unique(l) && forall k :: 0 <= k < |l| ==> l[k].keep && LastKeptAt(ds, l[k].id, l[k].rate)
  }

  lemma KeptStays(ds: seq<Record>, r: Record, id: string, rate: nat)
    requires LastKeptAt(ds, id, rate) && (r.keep ==> r.traceID != id)
    ensures LastKeptAt(ds + [r], id, rate)
  {
    var i: nat :| LastKept(ds, id, i) && ds[i].rate == rate;
    assert LastKept(ds + [r], id, i);
  }

  lemma HitBacked(ds: seq<Record>, l: L.Lru, id: string)
    requires Backed(ds, l) && L.Has(l, id)
    ensures Backed(ds, L.Hit(l, id))
  {
    hide LastKeptAt;
    var k := L.Find(l, id).value;
    var l' := L.Hit(l, id);
    L.MovedUnique(l, k, l[k].(count := l[k].count + 1));
    forall i | 0 <= i < |l'| ensures l'[i].keep && LastKeptAt(ds, l'[i].id, l'[i].rate) {
      if i == |l'| - 1 { assert l'[i] == l[k].(count := l[k].count + 1); }
      else { assert l'[i] == l[if i < k then i else i + 1]; }
    }
  }

  lemma AddUnique(l: L.Lru, size: nat, e: L.Entry)
    requires L.Unique(l)
    ensures var l' := L.Add(l, size, e);
            L.Unique(l') && forall i :: 0 <= i < |l'| ==> l'[i] == e || (l'[i] in l && l'[i].id != e.id)
  {
    var k := L.Find(l, e.id);
    if k.Some? {
      L.MovedUnique(l, k.value, e);
      var l' := L.Removed(l, k.value) + [e];
      forall i | 0 <= i < |l| - 1 ensures l'[i] in l && l'[i].id != e.id {
        assert l'[i] == l[if i < k.value then i else i + 1];
      }
    } else {
      L.PushedUnique(l, e);
    }
  }

  lemma RecordBacked(ds: seq<Record>, l: L.Lru, size: nat, r: Record)
    requires Backed(ds, l)
    ensures Backed(ds + [r], if r.keep then L.Add(l, size, B.EntryOf(r)) else l)
  {
    hide LastKeptAt, L.Add, L.Unique;
    var l' := if r.keep then L.Add(l, size, B.EntryOf(r)) else l;
    AddUnique(l, size, B.EntryOf(r));
    if r.keep { JustKept(ds, r); }
    forall k | 0 <= k < |l'| ensures l'[k].keep && LastKeptAt(ds + [r], l'[k].id, l'[k].rate) {
      if !(r.keep && l'[k] == B.EntryOf(r)) {
        var j :| 0 <= j < |l| && l[j] == l'[k];
        KeptStays(ds, r, l[j].id, l[j].rate);
      }
    }
  }

  lemma JustKept(ds: seq<Record>, r: Record)
    requires r.keep
    ensures LastKeptAt(ds + [r], r.traceID, r.rate)
  {
    assert LastKept(ds + [r], r.traceID, |ds|);
  }

  lemma {:induction false} KeepBacked(ds: seq<Record>, l: L.Lru, size: nat, rs: seq<Record>)
    requires Backed(ds, l)
    ensures Backed(ds + rs, Keep(l, size, rs))
  {
    hide Backed;
    if rs == [] {
      assert ds + rs == ds;
    } else {
      var front, r := rs[..|rs| - 1], rs[|rs| - 1];
      KeepBacked(ds, l, size, front);
      RecordBacked(ds + front, Keep(l, size, front), size, r);
      assert ds + rs == ds + front + [r];
    }
  }

  lemma NewestBacked(ds: seq<Record>, l: L.Lru, size: nat)
    requires Backed(ds, l)
    ensures Backed(ds, K.Newest(l, size))
  {
    hide LastKeptAt;
  }

  lemma NextBacked(c: Trio, t: Turn)
    requires Enabled(c.s, t.step) && Backed(c.s.decisions, c.kept)
    ensures Backed(Next(c, t).s.decisions, Next(c, t).kept)
  {
    hide Backed, Apply, K.CheckReply;
    B.DecisionsGrow(c.s, t.step);
    var ds := Apply(c.s, t.step).decisions;
    var more := ds[|c.s.decisions|..];
    assert ds == c.s.decisions + more;
    if Asked(c, t) != c.kept { HitBacked(c.s.decisions, c.kept, Head(c.s, t.step.peer).traceID); }
    KeepBacked(c.s.decisions, Asked(c, t), c.keptSize, more);
    NewestBacked(ds, Keep(Asked(c, t), c.keptSize, more), t.newKept);
  }

  lemma {:induction false} RunBacked(c: Trio, turns: seq<Turn>, c': Trio, rule: (State, Step) -> bool)
    requires CuckooRun(c, turns, c', rule) && Backed(c.s.decisions, c.kept)
    ensures Backed(c'.s.decisions, c'.kept)
    decreases |turns|
  {
    hide Backed, Apply, Enabled, Answered, OwnActs;
    if turns != [] {
      NextBacked(c, turns[0]);
      RunBacked(Next(c, turns[0]), turns[1..], c', rule);
    }
  }

  /** What the decisions of a step ask of the LRU of kept traces. */
  function KeptOps(rs: seq<Record>): seq<L.Op> {
    if rs == [] then []
    else KeptOps(rs[..|rs| - 1]) + (if rs[|rs| - 1].keep then [L.Record(B.EntryOf(rs[|rs| - 1]))] else [])
  }

  lemma {:induction false} KeepIsAfter(l: L.Lru, size: nat, rs: seq<Record>)
    ensures Keep(l, size, rs) == L.After(l, size, KeptOps(rs))
  {
    if rs != [] {
      var front, r := KeptOps(rs[..|rs| - 1]), rs[|rs| - 1];
      KeepIsAfter(l, size, rs[..|rs| - 1]);
      if r.keep {
        assert KeptOps(rs)[..|front|] == front && KeptOps(rs)[|front|] == L.Record(B.EntryOf(r));
      } else {
        assert KeptOps(rs) == front;
      }
    }
  }

  /** A turn does to the LRU of kept traces what its Check, if it found something, and its decisions
      to keep ask for, in that order; and a reload then keeps the newest entries that fit. */
  lemma KeptFollows(c: Trio, t: Turn)
    requires Enabled(c.s, t.step) && Answered(c, t)
    ensures var s' := Apply(c.s, t.step);
            c.s.decisions <= s'.decisions
            && var found := t.step.Process? && B.Consults(c.s, t.step) && t.step.arrival.answer.Some?;
               var l := if found then L.Step(c.kept, c.keptSize, L.Check(Head(c.s, t.step.peer).traceID)) else c.kept;
               var kept := L.After(l, c.keptSize, KeptOps(s'.decisions[|c.s.decisions|..]));
               Next(c, t).kept == if t.step.Reconfigure? && t.newKept > 0 then K.Newest(kept, t.newKept) else kept
  {
    hide Apply, L.Hit;
    B.DecisionsGrow(c.s, t.step);
    KeepIsAfter(Asked(c, t), c.keptSize, Apply(c.s, t.step).decisions[|c.s.decisions|..]);
  }

  /** The IDs of the traces that were dropped, in order. */
  ghost function DropIds(ds: seq<Record>): seq<string> {
    if ds == [] then []
    else DropIds(ds[..|ds| - 1]) + (if ds[|ds| - 1].keep then [] else [ds[|ds| - 1].traceID])
  }

  lemma {:induction false} OwnActsAddNothing(f: K.Checker, acts: seq<K.Act>)
    requires OwnActs(acts)
    ensures K.TakeAll(f, acts).log == f.log
  {
    if acts != [] { OwnActsAddNothing(f, acts[..|acts| - 1]); }
  }

  lemma {:induction false} DropLogs(f: K.Checker, ds: seq<Record>, rs: seq<Record>)
    requires f.log == DropIds(ds)
    ensures Drop(f, rs).log == DropIds(ds + rs)
  {
    if rs == [] {
      assert ds + rs == ds;
    } else {
      var front := rs[..|rs| - 1];
      DropLogs(f, ds, front);
      assert (ds + rs)[..|ds + rs| - 1] == ds + front;
    }
  }

  lemma {:induction false} DropKeeps(f: K.Checker, rs: seq<Record>)
    requires K.Inv(f)
    ensures K.Inv(Drop(f, rs))
  {
    hide K.Inv;
    if rs != [] {
      DropKeeps(f, rs[..|rs| - 1]);
      K.TakeKeeps(Drop(f, rs[..|rs| - 1]), K.Add(rs[|rs| - 1].traceID));
    }
  }

  /** The filter was told of exactly the traces that were dropped. */
  ghost predicate Filtered(c: Trio) {
    K.Inv(c.dropped) && c.dropped.log == DropIds(c.s.decisions)
  }

  lemma NextFiltered(c: Trio, t: Turn)
    requires Enabled(c.s, t.step) && OwnActs(t.monitor) && Filtered(c)
    ensures Filtered(Next(c, t)) && K.Inv(Filter(c, t)) && Filter(c, t).log == DropIds(c.s.decisions)
  {
    hide Apply, K.Inv, Keep, Asked;
    B.DecisionsGrow(c.s, t.step);
    var ds := Apply(c.s, t.step).decisions;
    var more := ds[|c.s.decisions|..];
    assert ds == c.s.decisions + more;
    K.TakeAllKeeps(c.dropped, t.monitor);
    OwnActsAddNothing(c.dropped, t.monitor);
    DropKeeps(Filter(c, t), more);
    DropLogs(Filter(c, t), c.s.decisions, more);
    K.TakeKeeps(Drop(Filter(c, t), more), K.SetNextCapacity(t.newDropped));
  }

  lemma {:induction false} RunFiltered(c: Trio, turns: seq<Turn>, c': Trio, rule: (State, Step) -> bool)
    requires CuckooRun(c, turns, c', rule) && Filtered(c)
    ensures Filtered(c')
    decreases |turns|
  {
    hide Filtered, Apply, Enabled, Answered, OwnActs;
    if turns != [] {
      NextFiltered(c, turns[0]);
      RunFiltered(Next(c, turns[0]), turns[1..], c', rule);
    }
  }

  lemma StartFiltered(capacity: nat, keptSize: nat, droppedSize: nat)
    ensures Filtered(Start(capacity, keptSize, droppedSize))
  {
    K.NoneAdded([]);
  }

  /** Dropped among the decisions from number `born` on, counting drops. */
  ghost predicate DroppedSince(ds: seq<Record>, born: nat, id: string) {
    exists i :: born <= i < |DropIds(ds)| && DropIds(ds)[i] == id
  }

  /** What a consulted span is told, after any run: something exactly if no alarm is raised, its ID
      was not dropped since the current filter was created, and it is remembered as kept; and
      then that it was kept, at the last rate at which it was. So an earlier drop is never
      obeyed from memory. */
  lemma FoundInRunIff(capacity: nat, keptSize: nat, droppedSize: nat, turns: seq<Turn>, c: Trio,
                      rule: (State, Step) -> bool, t: Turn)
    requires CuckooRun(Start(capacity, keptSize, droppedSize), turns, c, rule)
    requires Enabled(c.s, t.step) && B.Consults(c.s, t.step) && Answered(c, t) && OwnActs(t.monitor)
    ensures var id, answer := Head(c.s, t.step.peer).traceID, t.step.arrival.answer;
            && (answer.Some? <==> !t.alarm && !DroppedSince(c.s.decisions, Filter(c, t).bornCurrent, id) && L.Has(c.kept, id))
            && (answer.Some? ==> answer.value.keep && LastKeptAt(c.s.decisions, id, answer.value.rate))
  {
    hide CuckooRun;
    RunBacked(Start(capacity, keptSize, droppedSize), turns, c, rule);
    AnswerLastKept(c, t);
    StartFiltered(capacity, keptSize, droppedSize);
    RunFiltered(Start(capacity, keptSize, droppedSize), turns, c, rule);
    NextFiltered(c, t);
  }

  /** Every answer is the last decision to keep a trace of that ID. */
  ghost predicate LastKeptStep(s: State, step: Step) {
    step.Process? && Enabled(s, step) && step.arrival.answer.Some? ==>
      step.arrival.answer.value.keep
      && LastKeptAt(s.decisions, Head(s, step.peer).traceID, step.arrival.answer.value.rate)
  }

  lemma AnswerLastKept(c: Trio, t: Turn)
    requires Enabled(c.s, t.step) && Backed(c.s.decisions, c.kept) && Answered(c, t)
    ensures LastKeptStep(c.s, t.step)
  {
    hide LastKeptAt;
    if t.step.Process? && t.step.arrival.answer.Some? {
      var id := Head(c.s, t.step.peer).traceID;
      var k := L.Find(c.kept, id).value;
      assert LastKeptAt(c.s.decisions, c.kept[k].id, c.kept[k].rate);
    }
  }

  lemma LastKeptIsTruthful(s: State, step: Step)
    requires LastKeptStep(s, step)
    ensures TruthfulStep(s, step)
  {
    if step.Process? && Enabled(s, step) && step.arrival.answer.Some? {
      var id, rate := Head(s, step.peer).traceID, step.arrival.answer.value.rate;
      var i: nat :| LastKept(s.decisions, id, i) && s.decisions[i].rate == rate;
    }
  }

  ghost function AlsoLastKept(rule: (State, Step) -> bool): (State, Step) -> bool {
    (s, step) => rule(s, step) && LastKeptStep(s, step)
  }

  /** A run of collector and cuckoo cache is a run of the collector in which every answer is the
      last decision to keep a trace of that ID, whatever the monitor, the false alarms and the
      resizes. */
  lemma {:induction false} CuckooRunIsTruthful(c: Trio, turns: seq<Turn>, c': Trio, rule: (State, Step) -> bool)
    requires CuckooRun(c, turns, c', rule) && Backed(c.s.decisions, c.kept)
    ensures Run(c.s, StepsOf(turns), c'.s, AlsoLastKept(rule))
    decreases |turns|
  {
    hide Backed, Apply, Enabled, Answered, LastKeptStep, OwnActs;
    if turns != [] {
      AnswerLastKept(c, turns[0]);
      NextBacked(c, turns[0]);
      CuckooRunIsTruthful(Next(c, turns[0]), turns[1..], c', rule);
      assert StepsOf(turns)[1..] == StepsOf(turns[1..]);
      assert Next(c, turns[0]).s == Apply(c.s, turns[0].step);
    }
  }

  /** With a sampler that decides by trace ID and dry run off, all decided spans of a trace ID
      meet one fate, although dropped traces are not found. */
  lemma CuckooOneFate(keepOf: string -> bool, capacity: nat, keptSize: nat, droppedSize: nat, turns: seq<Turn>, c: Trio)
    requires CuckooRun(Start(capacity, keptSize, droppedSize), turns, c, B.KeepsByIdOf(keepOf))
    ensures forall i :: 0 <= i < |c.s.outcomes| ==>
              (c.s.outcomes[i].Transmitted? <==> keepOf(c.s.outcomes[i].before.traceID))
  {
    hide TruthfulStep, LastKeptStep;
    var rule := B.KeepsByIdOf(keepOf);
    CuckooRunIsTruthful(Start(capacity, keptSize, droppedSize), turns, c, rule);
    forall u, step | AlsoLastKept(rule)(u, step) ensures FateRuleOf(keepOf)(u, step) {
      LastKeptIsTruthful(u, step);
    }
    B.RunWeaken(Initial(capacity), StepsOf(turns), c.s, AlsoLastKept(rule), FateRuleOf(keepOf));
    OneFatePerTrace(keepOf, capacity, StepsOf(turns), c.s);
  }

  ghost predicate Sound(s: State, step: Step) {
    step.Enqueue? || SoundSampler(step.ctx)
  }

  /** With samplers that keep no trace at rate 0, every settled span is accounted for. */
  lemma CuckooRates(capacity: nat, keptSize: nat, droppedSize: nat, turns: seq<Turn>, c: Trio)
    requires CuckooRun(Start(capacity, keptSize, droppedSize), turns, c, Sound)
    ensures forall i :: 0 <= i < |c.s.outcomes| ==> Accounted(c.s, c.s.outcomes[i])
  {
    hide TruthfulStep, LastKeptStep, Accounted;
    CuckooRunIsTruthful(Start(capacity, keptSize, droppedSize), turns, c, Sound);
    forall u, step | AlsoLastKept(Sound)(u, step) ensures RateRule(u, step) {
      assert Sound(u, step);
      LastKeptIsTruthful(u, step);
    }
    B.RunWeaken(Initial(capacity), StepsOf(turns), c.s, AlsoLastKept(Sound), RateRule);
    RatesApplyOnce(capacity, StepsOf(turns), c.s);
  }

  /******* A late span of a dropped trace is transmitted *******/

  const FIRST := Span(0, "t", 1, map[], 0, 0, 0)
  const LATER := Span(1, "t", 1, map[], 0, 0, 0)

  const CFG := Config(false, "", false, false, "", Some(60), Some(2), 1, true, 0, false)

  ghost function Always(keep: bool): Context {
    Context(CFG, _ => Decision(1, keep, ""))
  }

  const NOON := Arrival(0, 0, 0, None)

  ghost function Afterwards(): Reading {
    Reading(3, 0, [], 0, _ => None)
  }

  /** The trace that a span without parents makes in a cache of one slot. */
  function Sole(serial: nat, sp: Span): Trace {
    Trace(serial, "t", 1, false, false, 2, 0, Some(0), 0, [sp], 0)
  }

  lemma EmptySpan(sp: Span)
    requires sp.data == map[]
    ensures DataSizeOf(sp.data) == 0 && IsRoot(sp)
  {
  }

  lemma SoleProcess(s: State, sp: Span, keep: bool)
    requires s.cache.slots == [None] && s.cache.next <= 1 && s.incoming == [sp] && s.fromPeer == []
    requires sp == FIRST || sp == LATER
    ensures Enabled(s, Process(false, NOON, Always(keep)))
    ensures Apply(s, Process(false, NOON, Always(keep)))
            == s.(cache := Ring([Some(Sole(s.nextSerial, sp))], 1), incoming := [], nextSerial := s.nextSerial + 1)
  {
    EmptySpan(sp);
    var ctx := Always(keep);
    var s0 := s.(incoming := []);
    assert s.incoming[1..] == [];
    assert s.cache.Spot() == 0;
    var t := NewTrace(s.nextSerial, sp, NOON, CFG);
    assert s.cache.Put(t).slots == [Some(t)];
    assert Extended(t, sp, NOON, CFG) == Sole(s.nextSerial, sp);
    assert Victim(s0.cache) == [];
    var s1 := Create(s0, sp, NOON, ctx);
    assert s1.cache.slots[0 := Some(Sole(s.nextSerial, sp))] == [Some(Sole(s.nextSerial, sp))];
  }

  function Fate(serial: nat, sp: Span, keep: bool): Outcome {
    if keep then Transmitted(sp, sp, true, 1, Some(serial), CFG) else Dropped(sp, 1, Some(serial))
  }

  lemma SoleTick(s: State, sp: Span, serial: nat, keep: bool)
    requires s.cache.slots == [Some(Sole(serial, sp))] && s.cache.next <= 1
    requires sp == FIRST || sp == LATER
    ensures Enabled(s, Tick(Afterwards(), Always(keep)))
    ensures Apply(s, Tick(Afterwards(), Always(keep)))
            == s.(cache := s.cache.(slots := [None]), decisions := s.decisions + [Record(serial, "t", keep, 1, 1)],
                  outcomes := s.outcomes + [Fate(serial, sp, keep)])
  {
    hide Send, Always;
    var t, ctx := Sole(serial, sp), Always(keep);
    SoleExpires(s, t, ctx);
    SoleSend(s.(cache := s.cache.(slots := [None])), sp, serial, keep);
    assert ctx.cfg == CFG by { AlwaysCfg(keep); }
  }

  lemma AlwaysCfg(keep: bool)
    ensures Always(keep).cfg == CFG
  {
  }

  lemma SoleExpires(s: State, t: Trace, ctx: Context)
    requires s.cache.slots == [Some(t)] && t.sendBy < 3
    ensures SendExpired(s, 3, ctx) == Send(s.(cache := s.cache.(slots := [None])), t, ctx)
  {
    hide Send, SendAll, Items;
    var mask := ExpiredMask(s.cache.slots, 3);
    assert mask == [true];
    assert Only(s.cache.slots, mask) == [Some(t)] && Without(s.cache.slots, mask) == [None];
    OneItem(t);
    OneSend(s.(cache := s.cache.(slots := [None])), t, ctx);
  }

  lemma OneItem(t: Trace)
    ensures Items([Some(t)]) == [t]
  {
    var slots := [Some(t)];
    assert slots[..|slots| - 1] == [];
    assert Items<Trace>([]) == [];
  }

  lemma OneSend(s: State, t: Trace, ctx: Context)
    ensures SendAll(s, [t], ctx) == Send(s, t, ctx)
  {
    hide Send;
    var ts := [t];
    assert ts[..|ts| - 1] == [];
    assert SendAll(s, [], ctx) == s;
  }

  lemma SoleSend(s: State, sp: Span, serial: nat, keep: bool)
    requires sp == FIRST || sp == LATER
    ensures Send(s, Sole(serial, sp), Always(keep))
            == s.(decisions := s.decisions + [Record(serial, "t", keep, 1, 1)], outcomes := s.outcomes + [Fate(serial, sp, keep)])
  {
    var t, d := Sole(serial, sp), Decision(1, keep, "");
    assert Decide(t, Always(keep)) == d;
    assert Dressed(sp, 1, d, CFG) == sp;
    assert SpanOutcomes(t, d, CFG) == [Fate(serial, sp, keep)];
  }

  ghost function Plain(step: Step): Turn {
    Turn(step, [], false, 1, 1)
  }

  ghost predicate AnyStep(s: State, step: Step) { true }

  lemma FirstTurn(c: Trio, t: Turn, turns: seq<Turn>, c': Trio)
    requires OwnActs(t.monitor) && Enabled(c.s, t.step) && Answered(c, t)
    requires CuckooRun(Next(c, t), turns, c', AnyStep)
    ensures CuckooRun(c, [t] + turns, c', AnyStep)
  {
    hide Next, OwnActs, Enabled, Answered;
    assert ([t] + turns)[1..] == turns;
  }

  /** The states of the run, from the start to the end. */
  ghost function Trail(i: nat): Trio
    requires i <= 6
  {
    var s0 := Initial(1);
    var s1 := s0.(incoming := [FIRST], accepted := [FIRST]);
    var s2 := s1.(cache := Ring([Some(Sole(0, FIRST))], 1), incoming := [], nextSerial := 1);
    var s3 := s2.(cache := Ring([None], 1), decisions := [Record(0, "t", false, 1, 1)], outcomes := [Fate(0, FIRST, false)]);
    var s4 := s3.(incoming := [LATER], accepted := [FIRST, LATER]);
    var s5 := s4.(cache := Ring([Some(Sole(1, LATER))], 1), incoming := [], nextSerial := 2);
    var s6 := s5.(cache := Ring([None], 1), decisions := [Record(0, "t", false, 1, 1), Record(1, "t", true, 1, 1)],
                  outcomes := [Fate(0, FIRST, false), Fate(1, LATER, true)]);
    var empty := K.NewChecker(1);
    var noted := K.Take(empty, K.Add("t"));
    if i == 0 then Trio(s0, [], 1, empty)
    else if i == 1 then Trio(s1, [], 1, empty)
    else if i == 2 then Trio(s2, [], 1, empty)
    else if i == 3 then Trio(s3, [], 1, noted)
    else if i == 4 then Trio(s4, [], 1, noted)
    else if i == 5 then Trio(s5, [], 1, noted)
    else Trio(s6, [L.Entry("t", true, 1, 1)], 1, noted)
  }

  ghost function Script(i: nat): Turn
    requires i < 6
  {
    if i == 0 then Plain(Enqueue(FIRST, false))
    else if i == 1 then Plain(Process(false, NOON, Always(false)))
    else if i == 2 then Plain(Tick(Afterwards(), Always(false)))
    else if i == 3 then Plain(Enqueue(LATER, false))
    else if i == 4 then Plain(Process(false, NOON, Always(true)))
    else Plain(Tick(Afterwards(), Always(true)))
  }

  lemma QuietTurn(c: Trio, step: Step, s': State)
    requires Enabled(c.s, step) && Apply(c.s, step) == s' && s'.decisions == c.s.decisions && !step.Reconfigure?
    requires !B.Consults(c.s, step) || !Reply(c, Plain(step), Head(c.s, step.peer).traceID).found
    ensures Next(c, Plain(step)) == c.(s := s')
  {
    hide Apply, Enabled;
    assert s'.decisions[|c.s.decisions|..] == [];
  }

  lemma TickTurn(c: Trio, step: Step, s': State, r: Record)
    requires Enabled(c.s, step) && Apply(c.s, step) == s' && s'.decisions == c.s.decisions + [r] && step.Tick?
    ensures Next(c, Plain(step))
            == if r.keep then c.(s := s', kept := L.Add(c.kept, c.keptSize, B.EntryOf(r)))
               else c.(s := s', dropped := K.Take(c.dropped, K.Add(r.traceID)))
  {
    hide Apply, Enabled;
    assert s'.decisions[|c.s.decisions|..] == [r];
    assert [r][..0] == [];
    assert Keep(c.kept, c.keptSize, []) == c.kept && Drop(c.dropped, []) == c.dropped;
  }

  lemma FirstHalf()
    ensures forall i :: 0 <= i < 3 ==>
              Enabled(Trail(i).s, Script(i).step) && Answered(Trail(i), Script(i)) && Next(Trail(i), Script(i)) == Trail(i + 1)
  {
    hide Next, Apply, Enabled;
    StartOfTrail();
    EnqueueTurn(Trail(0), FIRST);
    SoleProcess(Trail(1).s, FIRST, false);
    assert K.CheckReply([], K.Check(K.NewChecker(1), "t"), "t").found == false;
    QuietTurn(Trail(1), Script(1).step, Trail(2).s);
    SoleTick(Trail(2).s, FIRST, 0, false);
    TickTurn(Trail(2), Script(2).step, Trail(3).s, Record(0, "t", false, 1, 1));
  }

  lemma StartOfTrail()
    ensures Trail(0) == Start(1, 1, 1) && Trail(0).s.cache == Ring([None], 0) && Trail(0).s.queueSize == 3
  {
    assert Empty<Trace>(1).slots == [None];
  }

  lemma EnqueueTurn(c: Trio, sp: Span)
    requires c.s.cache.Valid() && c.s.incoming == [] && c.s.queueSize == 3
    ensures Enabled(c.s, Enqueue(sp, false)) && Answered(c, Plain(Enqueue(sp, false)))
    ensures Next(c, Plain(Enqueue(sp, false))) == c.(s := c.s.(incoming := [sp], accepted := c.s.accepted + [sp]))
  {
    QuietTurn(c, Enqueue(sp, false), c.s.(incoming := [sp], accepted := c.s.accepted + [sp]));
  }

  lemma SecondHalf()
    ensures forall i :: 3 <= i < 6 ==>
              Enabled(Trail(i).s, Script(i).step) && Answered(Trail(i), Script(i)) && Next(Trail(i), Script(i)) == Trail(i + 1)
  {
    hide Next, Apply, Enabled;
    StartOfTrail();
    EnqueueTurn(Trail(3), LATER);
    SoleProcess(Trail(4).s, LATER, true);
    assert K.CheckReply([], K.Check(Trail(4).dropped, "t"), "t").found == false;
    QuietTurn(Trail(4), Script(4).step, Trail(5).s);
    SoleTick(Trail(5).s, LATER, 1, true);
    TickTurn(Trail(5), Script(5).step, Trail(6).s, Record(1, "t", true, 1, 1));
  }

  /** Why late spans are promised to obey a drop only with the legacy cache: here the trace is
      dropped and the filter knows it, but Check says not found, so a late span makes a new trace
      and a sampler that changes its mind transmits it. */
  lemma LateSpanOfDroppedIsTransmitted() returns (turns: seq<Turn>, c: Trio)
    ensures CuckooRun(Start(1, 1, 1), turns, c, AnyStep)
    ensures c.s.outcomes == [Dropped(FIRST, 1, Some(0)), Transmitted(LATER, LATER, true, 1, Some(1), CFG)]
    ensures FIRST.traceID == LATER.traceID && K.Check(c.dropped, LATER.traceID)
  {
    hide Next, Apply, Enabled, Answered;
    StartOfTrail();
    FirstHalf();
    SecondHalf();
    c := Trail(6);
    turns := [];
    var i := 6;
    while i > 0
      invariant 0 <= i <= 6 && CuckooRun(Trail(i), turns, c, AnyStep)
    {
      i := i - 1;
      FirstTurn(Trail(i), Script(i), turns, c);
      turns := [Script(i)] + turns;
    }
  }
}
