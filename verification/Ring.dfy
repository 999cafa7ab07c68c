/** The insertion ring of collect/cache/cache.go over any kind of entry: slots, the
    insert point, and what Set, GetAll and the removing loops do to them.
 */
module Ring {
  import opened Events

  const DEFAULT_CAPACITY := 10000

  datatype Ring<T> = Ring(slots: seq<Option<T>>, next: nat) {
    ghost predicate Valid() {
      0 < |slots| && next <= |slots|
    }

    /** The slot the next Set writes: the insert point, wrapped at the end of the ring. */
    function Spot(): nat {
      if next >= |slots| then 0 else next
    }

    function Put(t: T): Ring<T>
      requires Valid()
    {
      Ring(slots[Spot() := Some(t)], Spot() + 1)
    }
  }

  /** NewInMemCache: capacity 0 asks for the default. */
  function RingSize(capacity: nat): nat {
    if capacity == 0 then DEFAULT_CAPACITY else capacity
  }

  function Empty<T>(capacity: nat): (r: Ring<T>)
    ensures r.Valid() && |r.slots| == RingSize(capacity) && r.next == 0
    ensures |r.slots| == if capacity == 0 then 10000 else capacity
    ensures forall i :: 0 <= i < |r.slots| ==> r.slots[i].None?
  {
    Ring(seq(RingSize(capacity), _ => None), 0)
  }

  /** GetAll: the occupied slots in slot order. */
  function Items<T>(slots: seq<Option<T>>): seq<T> {
    if slots == [] then []
    else Items(slots[..|slots| - 1]) + (if slots[|slots| - 1].Some? then [slots[|slots| - 1].value] else [])
  }

  function PutAll<T>(r: Ring<T>, ts: seq<T>): (r': Ring<T>)
    requires r.Valid()
    ensures r'.Valid() && |r'.slots| == |r.slots|
  {
    if ts == [] then r else PutAll(r, ts[..|ts| - 1]).Put(ts[|ts| - 1])
  }

  lemma {:induction false} ItemsMember<T>(slots: seq<Option<T>>, t: T)
    ensures t in Items(slots) <==> Some(t) in slots
  {
    if slots != [] {
      ItemsMember(slots[..|slots| - 1], t);
      assert slots == slots[..|slots| - 1] + [slots[|slots| - 1]];
    }
  }

  lemma {:induction false} ItemsCount<T>(slots: seq<Option<T>>)
    ensures |Items(slots)| <= |slots|
  {
    if slots != [] { ItemsCount(slots[..|slots| - 1]); }
  }

  /** Each item comes from its own slot, and slot order is kept. */
  lemma {:induction false} ItemsHome<T>(slots: seq<Option<T>>) returns (home: seq<nat>)
    ensures |home| == |Items(slots)|
    ensures forall i :: 0 <= i < |home| ==> home[i] < |slots| && slots[home[i]] == Some(Items(slots)[i])
    ensures forall i, j :: 0 <= i < j < |home| ==> home[i] < home[j]
  {
    if slots == [] {
      home := [];
    } else {
      home := ItemsHome(slots[..|slots| - 1]);
      if slots[|slots| - 1].Some? { home := home + [|slots| - 1]; }
    }
  }

  /** Rebuilding into a fresh ring that is large enough overwrites nothing:
      the entries stand in order in the first slots. */
  lemma {:induction false} RebuildFits<T>(capacity: nat, ts: seq<T>)
    requires |ts| <= RingSize(capacity)
    ensures PutAll(Empty(capacity), ts) ==
            Ring(seq(RingSize(capacity), i => if 0 <= i < |ts| then Some(ts[i]) else None), |ts|)
  {
    var n := RingSize(capacity);
    if ts == [] {
      assert PutAll(Empty(capacity), ts).slots == seq(n, i => if 0 <= i < |ts| then Some(ts[i]) else None);
    } else {
      var front := ts[..|ts| - 1];
      RebuildFits(capacity, front);
      assert PutAll(Empty(capacity), ts).slots == seq(n, i => if 0 <= i < |ts| then Some(ts[i]) else None);
    }
  }

  lemma {:induction false} ItemsOfPrefix<T>(n: nat, ts: seq<T>, slots: seq<Option<T>>)
    requires |slots| == n && |ts| <= n
    requires forall i :: 0 <= i < n ==> slots[i] == if i < |ts| then Some(ts[i]) else None
    ensures Items(slots) == ts
  {
    if n == 0 {
    } else if |ts| == n {
      ItemsOfPrefix(n - 1, ts[..n - 1], slots[..n - 1]);
    } else {
      ItemsOfPrefix(n - 1, ts, slots[..n - 1]);
    }
  }

  /** GetAll of a rebuilt cache is exactly what was put into it. */
  lemma RebuildKeepsAll<T>(capacity: nat, ts: seq<T>)
    requires |ts| <= RingSize(capacity)
    ensures Items(PutAll(Empty(capacity), ts).slots) == ts
  {
    RebuildFits(capacity, ts);
    ItemsOfPrefix(RingSize(capacity), ts, PutAll(Empty(capacity), ts).slots);
  }
}
