/** The legacy memory of sampling decisions (collect/cache/legacySentCache.go): a bounded
    list of records in order of last use. Record and a successful Check both use an ID. */
module LegacySent {
  import opened Events

  datatype Entry = Entry(id: string, keep: bool, rate: nat, count: nat)

  /** Least recently used first. */
  type Lru = seq<Entry>

  ghost predicate Unique(l: Lru) {
    forall i, j :: 0 <= i < j < |l| ==> l[i].id != l[j].id
  }

  function Find(l: Lru, id: string): (k: Option<nat>)
    ensures k.Some? ==> k.value < |l| && l[k.value].id == id
    ensures k.None? ==> forall i :: 0 <= i < |l| ==> l[i].id != id
  {
    if l == [] then None
    else if l[|l| - 1].id == id then Some(|l| - 1)
    else Find(l[..|l| - 1], id)
  }

  predicate Has(l: Lru, id: string) {
    Find(l, id).Some?
  }

  function Removed(l: Lru, k: nat): Lru
    requires k < |l|
  {
    l[..k] + l[k + 1..]
  }

  /** The LRU's Add: refresh an ID that is there, else push and evict the oldest if full. */
  function Add(l: Lru, capacity: nat, e: Entry): Lru {
    var k := Find(l, e.id);
    if k.Some? then Removed(l, k.value) + [e]
    else if |l| + 1 > capacity then (l + [e])[1..]
    else l + [e]
  }

  /** Check: a hit is counted in place and becomes the most recent. */
  function Hit(l: Lru, id: string): Lru
    requires Has(l, id)
  {
    var k := Find(l, id).value;
    Removed(l, k) + [l[k].(count := l[k].count + 1)]
  }

  datatype Op = Record(e: Entry) | Check(id: string)

  function Step(l: Lru, capacity: nat, op: Op): Lru {
    match op
    case Record(e) => Add(l, capacity, e)
    case Check(id) => if Has(l, id) then Hit(l, id) else l
  }

  function After(l: Lru, capacity: nat, ops: seq<Op>): Lru {
    if ops == [] then l else Step(After(l, capacity, ops[..|ops| - 1]), capacity, ops[|ops| - 1])
  }

  ghost predicate Sound(l: Lru, capacity: nat) {
    Unique(l) && |l| <= capacity
  }

  lemma MovedUnique(l: Lru, k: nat, e: Entry)
    requires Unique(l) && k < |l| && e.id == l[k].id
    ensures Unique(Removed(l, k) + [e]) && |Removed(l, k) + [e]| == |l|
  {
    var m := Removed(l, k) + [e];
    assert forall i :: 0 <= i < |l| - 1 ==> m[i] == l[if i < k then i else i + 1];
  }

  lemma PushedUnique(l: Lru, e: Entry)
    requires Unique(l) && !Has(l, e.id)
    ensures Unique(l + [e]) && Unique((l + [e])[1..])
  {
    var m := (l + [e])[1..];
    assert forall i :: 0 <= i < |m| ==> m[i] == (l + [e])[i + 1];
  }

  lemma AddSound(l: Lru, capacity: nat, e: Entry)
    requires Sound(l, capacity) && capacity > 0
    ensures Sound(Add(l, capacity, e), capacity)
  {
    hide Unique;
    if Has(l, e.id) { MovedUnique(l, Find(l, e.id).value, e); } else { PushedUnique(l, e); }
  }

  lemma StepSound(l: Lru, capacity: nat, op: Op)
    requires Sound(l, capacity) && capacity > 0
    ensures Sound(Step(l, capacity, op), capacity)
  {
    hide Unique;
    match op
    case Record(e) => AddSound(l, capacity, e);
    case Check(id) =>
      if Has(l, id) {
        var k := Find(l, id).value;
        MovedUnique(l, k, l[k].(count := l[k].count + 1));
      }
  }

  lemma {:induction false} AfterSound(l: Lru, capacity: nat, ops: seq<Op>)
    requires Sound(l, capacity) && capacity > 0
    ensures Sound(After(l, capacity, ops), capacity)
  {
    if ops != [] {
      AfterSound(l, capacity, ops[..|ops| - 1]);
      StepSound(After(l, capacity, ops[..|ops| - 1]), capacity, ops[|ops| - 1]);
    }
  }

  /******* What has been used since *******/

  /** The distinct other IDs recorded or found since `id` was last used, and the hits of `id`. */
  datatype Since = Since(others: set<string>, hits: nat)

  ghost function Track(l: Lru, capacity: nat, id: string, ops: seq<Op>): Since {
    if ops == [] then Since({}, 0)
    else
      var front := ops[..|ops| - 1];
      var s := Track(l, capacity, id, front);
      match ops[|ops| - 1]
      case Record(e) => if e.id == id then Since({}, 0) else s.(others := s.others + {e.id})
      case Check(j) =>
        if !Has(After(l, capacity, front), j) then s
        else if j == id then Since({}, s.hits + 1)
        else s.(others := s.others + {j})
  }

  ghost function Ids(l: Lru): set<string> {
    set i | 0 <= i < |l| :: l[i].id
  }

  lemma {:induction false} IdsCount(l: Lru)
    requires Unique(l)
    ensures |Ids(l)| == |l|
  {
    if l != [] {
      var n := |l| - 1;
      IdsCount(l[..n]);
      assert Ids(l) == Ids(l[..n]) + {l[n].id};
      assert l[n].id !in Ids(l[..n]);
    }
  }

  /** `id` is present with exactly the others behind it, or too many others were used. */
  ghost predicate Tracked(l: Lru, capacity: nat, e: Entry, s: Since) {
    match Find(l, e.id)
    case Some(k) => l[k] == e.(count := e.count + s.hits) && Ids(l[k + 1..]) == s.others
    case None => |s.others| >= capacity
  }

  lemma FindUnique(l: Lru, k: nat)
    requires Unique(l) && k < |l|
    ensures Find(l, l[k].id) == Some(k)
  {
  }

  /** Moving an entry that stands before position k to the end. */
  lemma IdsMoved(l: Lru, k: nat, j: nat, e: Entry)
    requires Unique(l) && k < |l| && j < |l| && j != k && e.id == l[j].id
    ensures var m := Removed(l, j) + [e];
            var k' := if j < k then k - 1 else k;
            k' < |m| && m[k'] == l[k] && Ids(m[k' + 1..]) == Ids(l[k + 1..]) + {e.id}
  {
    var m := Removed(l, j) + [e];
    if j < k {
      assert m[k..] == l[k + 1..] + [e];
      IdsPush(l[k + 1..], e);
    } else {
      assert m[k + 1..] == Removed(l[k + 1..], j - k - 1) + [e];
      IdsPush(Removed(l[k + 1..], j - k - 1), e);
      IdsDrop(l[k + 1..], j - k - 1);
    }
  }

  lemma IdsPush(l: Lru, e: Entry)
    ensures Ids(l + [e]) == Ids(l) + {e.id}
  {
    var m := l + [e];
    assert m[|l|] == e;
    assert forall i :: 0 <= i < |l| ==> m[i] == l[i];
  }

  lemma IdsDrop(l: Lru, j: nat)
    requires j < |l|
    ensures Ids(Removed(l, j)) + {l[j].id} == Ids(l)
  {
    var m := Removed(l, j);
    forall i | 0 <= i < |l| && i != j ensures l[i].id in Ids(m) {
      assert l[i] == m[if i < j then i else i - 1];
    }
    forall i | 0 <= i < |m| ensures m[i].id in Ids(l) {
      assert m[i] == l[if i < j then i else i + 1];
    }
  }

  lemma TrackAbsent(l: Lru, capacity: nat, e: Entry, s: Since, x: Entry)
    requires Tracked(l, capacity, e, s) && !Has(l, e.id) && x.id != e.id
    ensures Tracked(Add(l, capacity, x), capacity, e, s.(others := s.others + {x.id}))
  {
    SubsetCount(s.others, s.others + {x.id});
    var l' := Add(l, capacity, x);
    assert forall i :: 0 <= i < |l'| ==> l'[i] == x || l'[i] in l;
  }

  lemma TrackRefresh(l: Lru, capacity: nat, e: Entry, s: Since, x: Entry)
    requires Sound(l, capacity) && capacity > 0
    requires Tracked(l, capacity, e, s) && Has(l, e.id) && Has(l, x.id) && x.id != e.id
    ensures Tracked(Add(l, capacity, x), capacity, e, s.(others := s.others + {x.id}))
  {
    hide Ids, Unique;
    var k, j := Find(l, e.id).value, Find(l, x.id).value;
    AddSound(l, capacity, x);
    IdsMoved(l, k, j, x);
    FindUnique(Add(l, capacity, x), if j < k then k - 1 else k);
  }

  lemma GoneWithOldest(l: Lru, x: Entry, id: string)
    requires Unique(l) && l != [] && l[0].id == id && x.id != id
    ensures !Has(l[1..] + [x], id)
  {
  }

  /** A new ID: the oldest entry goes if the list is full, and it may be the one we track. */
  lemma TrackPush(l: Lru, capacity: nat, e: Entry, s: Since, x: Entry)
    requires Sound(l, capacity) && capacity > 0
    requires Tracked(l, capacity, e, s) && Has(l, e.id) && !Has(l, x.id)
    ensures Tracked(Add(l, capacity, x), capacity, e, s.(others := s.others + {x.id}))
  {
    hide Ids, Unique;
    var l' := Add(l, capacity, x);
    var k := Find(l, e.id).value;
    AddSound(l, capacity, x);
    IdsPush(l[k + 1..], x);
    if |l| + 1 <= capacity {
      assert l'[k + 1..] == l[k + 1..] + [x];
      FindUnique(l', k);
    } else {
      assert l' == l[1..] + [x];
      if k == 0 {
        IdsCount(l');
        GoneWithOldest(l, x, e.id);
      } else {
        assert l'[k..] == l[k + 1..] + [x];
        FindUnique(l', k - 1);
      }
    }
  }

  lemma TrackOther(l: Lru, capacity: nat, e: Entry, s: Since, x: Entry)
    requires Sound(l, capacity) && capacity > 0 && Tracked(l, capacity, e, s) && x.id != e.id
    ensures Tracked(Add(l, capacity, x), capacity, e, s.(others := s.others + {x.id}))
  {
    hide Tracked, Sound, Add;
    if !Has(l, e.id) {
      TrackAbsent(l, capacity, e, s, x);
    } else if Has(l, x.id) {
      TrackRefresh(l, capacity, e, s, x);
    } else {
      TrackPush(l, capacity, e, s, x);
    }
  }

  lemma SubsetCount<T>(a: set<T>, b: set<T>)
    requires a <= b
    ensures |a| <= |b|
  {
    assert b == a + (b - a);
  }

  lemma TrackHitOther(l: Lru, capacity: nat, e: Entry, s: Since, id: string)
    requires Sound(l, capacity) && capacity > 0 && Tracked(l, capacity, e, s) && id != e.id && Has(l, id)
    ensures Tracked(Hit(l, id), capacity, e, s.(others := s.others + {id}))
  {
    var j := Find(l, id).value;
    var x := l[j].(count := l[j].count + 1);
    assert Hit(l, id) == Add(l, capacity, x);
    TrackOther(l, capacity, e, s, x);
  }

  lemma TrackHit(l: Lru, capacity: nat, e: Entry, s: Since)
    requires Sound(l, capacity) && Tracked(l, capacity, e, s) && Has(l, e.id)
    ensures Tracked(Hit(l, e.id), capacity, e, Since({}, s.hits + 1))
  {
    var l' := Hit(l, e.id);
    var k := Find(l, e.id).value;
    assert l'[|l'| - 1] == l[k].(count := l[k].count + 1);
    assert l'[|l'|..] == [];
  }

  lemma {:induction false} TrackedAfter(l: Lru, capacity: nat, e: Entry, ops: seq<Op>)
    requires Sound(l, capacity) && capacity > 0 && l != [] && l[|l| - 1] == e
    requires forall i :: 0 <= i < |ops| && ops[i].Record? ==> ops[i].e.id != e.id
    ensures Tracked(After(l, capacity, ops), capacity, e, Track(l, capacity, e.id, ops))
  {
    if ops == [] {
      assert l[|l|..] == [];
    } else {
      var front := ops[..|ops| - 1];
      TrackedAfter(l, capacity, e, front);
      AfterSound(l, capacity, front);
      var m, s := After(l, capacity, front), Track(l, capacity, e.id, front);
      match ops[|ops| - 1]
      case Record(x) => TrackOther(m, capacity, e, s, x);
      case Check(j) =>
        if Has(m, j) {
          if j == e.id { TrackHit(m, capacity, e, s); } else { TrackHitOther(m, capacity, e, s, j); }
        }
    }
  }

  lemma {:induction false} AfterConcat(l: Lru, capacity: nat, a: seq<Op>, b: seq<Op>)
    ensures After(l, capacity, a + b) == After(After(l, capacity, a), capacity, b)
  {
    if b == [] {
      assert a + b == a;
    } else {
      assert (a + b)[..|a + b| - 1] == a + b[..|b| - 1];
      AfterConcat(l, capacity, a, b[..|b| - 1]);
    }
  }

  /** A decision is remembered exactly as long as fewer than `capacity` distinct other IDs
      have been recorded or found since its ID was last recorded or found; while it is, Check
      answers the recorded keep and rate, and a count of the spans at decision plus all hits. */
  lemma RememberedIff(capacity: nat, before: seq<Op>, e: Entry, ops: seq<Op>)
    requires capacity > 0
    requires forall i :: 0 <= i < |ops| && ops[i].Record? ==> ops[i].e.id != e.id
    ensures var l0 := After([], capacity, before + [Record(e)]);
            var l := After([], capacity, before + [Record(e)] + ops);
            var s := Track(l0, capacity, e.id, ops);
            && (Has(l, e.id) <==> |s.others| < capacity)
            && (Has(l, e.id) ==> l[Find(l, e.id).value] == e.(count := e.count + s.hits))
  {
    hide After, Track, Sound, Ids;
    var l0 := After([], capacity, before + [Record(e)]);
    NothingSound(capacity);
    AfterSound([], capacity, before + [Record(e)]);
    LastIsRecorded(capacity, before, e);
    AfterConcat([], capacity, before + [Record(e)], ops);
    TrackedAfter(l0, capacity, e, ops);
    var l := After(l0, capacity, ops);
    AfterSound(l0, capacity, ops);
    if Has(l, e.id) { TailCount(l, capacity, Find(l, e.id).value); }
  }

  lemma NothingSound(capacity: nat)
    ensures Sound([], capacity)
  {
  }

  lemma TailCount(l: Lru, capacity: nat, k: nat)
    requires Sound(l, capacity) && k < |l|
    ensures |Ids(l[k + 1..])| < capacity
  {
    IdsCount(l[k + 1..]);
  }

  lemma LastIsRecorded(capacity: nat, before: seq<Op>, e: Entry)
    requires capacity > 0
    ensures var l := After([], capacity, before + [Record(e)]);
            l != [] && l[|l| - 1] == e
  {
    assert (before + [Record(e)])[..|before|] == before;
  }

  /** Every remembered entry is a decision that was recorded under that ID. */
  lemma {:induction false} OnlyRecorded(capacity: nat, ops: seq<Op>, k: nat)
    requires capacity > 0 && k < |After([], capacity, ops)|
    ensures var e := After([], capacity, ops)[k];
            exists i :: 0 <= i < |ops| && ops[i].Record? && ops[i].e.id == e.id
                     && ops[i].e.keep == e.keep && ops[i].e.rate == e.rate
  {
    var n := |ops| - 1;
    var l, op := After([], capacity, ops[..n]), ops[n];
    var l' := After([], capacity, ops);
    if op.Record? && l'[k] == op.e {
      assert ops[n].e == l'[k];
    } else {
      var j :| 0 <= j < |l| && l[j].id == l'[k].id && l[j].keep == l'[k].keep && l[j].rate == l'[k].rate;
      OnlyRecorded(capacity, ops[..n], j);
      var i :| 0 <= i < n && ops[..n][i].Record? && ops[..n][i].e.id == l[j].id
            && ops[..n][i].e.keep == l[j].keep && ops[..n][i].e.rate == l[j].rate;
      assert ops[i] == ops[..n][i];
    }
  }

  /******* In place *******/

  class LegacySentCache {
    const capacity: nat
    var entries: Lru

    constructor (capacity: nat)
      requires capacity > 0
      ensures this.capacity == capacity && entries == [] && Valid()
    {
      this.capacity, entries := capacity, [];
    }

    ghost predicate Valid()
      reads this
    {
      capacity > 0 && Sound(entries, capacity)
    }

    method RecordDecision(id: string, keep: bool, rate: nat, count: nat)
      requires Valid()
      modifies this
      ensures Valid() && entries == Step(old(entries), capacity, Record(Entry(id, keep, rate, count)))
    {
      StepSound(entries, capacity, Record(Entry(id, keep, rate, count)));
      entries := Add(entries, capacity, Entry(id, keep, rate, count));
    }

    method CheckSpan(id: string) returns (r: Option<Entry>)
      requires Valid()
      modifies this
      ensures Valid() && entries == Step(old(entries), capacity, Check(id))
      ensures r.Some? <==> Has(old(entries), id)
      ensures r.Some? ==> r.value == entries[|entries| - 1] && r.value.id == id
    {
      StepSound(entries, capacity, Check(id));
      if Has(entries, id) {
        entries := Hit(entries, id);
        r := Some(entries[|entries| - 1]);
      } else {
        r := None;
      }
    }
  }
}
