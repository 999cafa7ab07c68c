/** The size-limited splitters of pkg/libtrace/transmission/transmission.go. The three of
    them (trace spans, log-trace spans, log records) are the same loop over items and sizes. */
module Batches {

  const MAX_API_SIZE: nat := 1_000_000

  function Total<T>(items: seq<T>, size: T -> nat): nat {
    if items == [] then 0 else Total(items[..|items| - 1], size) + size(items[|items| - 1])
  }

  /** The items that are not dropped for their own size. */
  function Fits<T>(items: seq<T>, size: T -> nat): seq<T> {
    if items == [] then []
    else
      var last := items[|items| - 1];
      Fits(items[..|items| - 1], size) + (if size(last) > 1_000_000 then [] else [last])
  }

  function Flat<T>(batches: seq<seq<T>>): seq<T> {
    if batches == [] then [] else Flat(batches[..|batches| - 1]) + batches[|batches| - 1]
  }

  /** Every batch is sendable: not empty and within the limit. */
  ghost predicate Sendable<T>(batches: seq<seq<T>>, size: T -> nat) {
    forall i :: 0 <= i < |batches| ==> batches[i] != [] && Total(batches[i], size) <= 1_000_000
  }

  /** A batch is closed only because the item after it would not have fitted. */
  ghost predicate NextFit<T>(batches: seq<seq<T>>, size: T -> nat) {
    forall i :: 0 < i < |batches| ==> Overflows(batches, i, size)
  }

  ghost predicate Overflows<T>(batches: seq<seq<T>>, i: int, size: T -> nat)
    requires 0 < i < |batches|
  {
    batches[i] != [] && Total(batches[i - 1], size) + size(batches[i][0]) > 1_000_000
  }

  lemma TotalPush<T>(items: seq<T>, x: T, size: T -> nat)
    ensures Total(items + [x], size) == Total(items, size) + size(x)
  {
    assert (items + [x])[..|items|] == items;
  }

  lemma FlatPush<T>(batches: seq<seq<T>>, b: seq<T>)
    ensures Flat(batches + [b]) == Flat(batches) + b
  {
    assert (batches + [b])[..|batches|] == batches;
  }

  lemma FitsPush<T>(items: seq<T>, i: nat, size: T -> nat)
    requires i < |items|
    ensures Fits(items[..i + 1], size) == Fits(items[..i], size) + (if size(items[i]) > MAX_API_SIZE then [] else [items[i]])
  {
    assert items[..i + 1][..i] == items[..i];
  }

  /** The state of the loop: batches closed so far, and the batch still open. */
  ghost predicate Packing<T>(batches: seq<seq<T>>, open: seq<T>, size: T -> nat) {
    && Sendable(batches, size) && NextFit(batches, size) && Total(open, size) <= MAX_API_SIZE
    && (open != [] && batches != [] ==>
          Total(batches[|batches| - 1], size) + size(open[0]) > MAX_API_SIZE)
  }

  lemma CloseBatch<T>(batches: seq<seq<T>>, open: seq<T>, size: T -> nat)
    requires Packing(batches, open, size) && open != []
    ensures Packing(batches + [open], [], size)
  {
    var all := batches + [open];
    forall i | 0 < i < |all| ensures Overflows(all, i, size) {
      if i < |batches| { assert Overflows(batches, i, size); }
    }
  }

  lemma OpenPush<T>(batches: seq<seq<T>>, open: seq<T>, x: T, size: T -> nat)
    requires Packing(batches, open, size) && Total(open, size) + size(x) <= MAX_API_SIZE
    requires open == [] && batches != [] ==> Total(batches[|batches| - 1], size) + size(x) > MAX_API_SIZE
    ensures Packing(batches, open + [x], size)
  {
    TotalPush(open, x, size);
    assert (open + [x])[0] == if open == [] then x else open[0];
  }

  /** Order-preserving next-fit. Nothing that fits is lost, except that an oversized last item
      skips the final flush and with it the batch that was still open. */
  method Split<T>(items: seq<T>, size: T -> nat) returns (batches: seq<seq<T>>)
    ensures Sendable(batches, size) && NextFit(batches, size)
    ensures Flat(batches) <= Fits(items, size)
    ensures Flat(batches) == Fits(items, size)
            <==> (Fits(items, size) == [] || size(items[|items| - 1]) <= 1_000_000)
    ensures Total(Fits(items, size)[|Flat(batches)|..], size) <= 1_000_000
  {
    hide Packing, Fits, Flat, Total;
    batches := [];
    var open: seq<T> := [];
    var batchSize := 0;
    NothingPacked(size);
    for i := 0 to |items|
      invariant Packing(batches, open, size) && batchSize == Total(open, size) <= MAX_API_SIZE
      invariant open == [] && i < |items| ==> batches == []
      invariant Flat(batches) + open == Fits(items[..i], size)
      invariant if i == |items| && i > 0 && size(items[i - 1]) <= MAX_API_SIZE then open == []
                else (open == [] ==> Fits(items[..i], size) == [])
    {
      FitsPush(items, i, size);
      var itemSize := size(items[i]);
      if itemSize > MAX_API_SIZE {
        continue;
      }
      if itemSize + batchSize > MAX_API_SIZE {
        CloseBatch(batches, open, size);
        FlatPush(batches, open);
        batches := batches + [open];
        batchSize := 0;
        open := [];
      }
      TotalPush(open, items[i], size);
      OpenPush(batches, open, items[i], size);
      open := open + [items[i]];
      batchSize := batchSize + itemSize;
      if i == |items| - 1 {
        CloseBatch(batches, open, size);
        FlatPush(batches, open);
        batches := batches + [open];
        batchSize := 0;
        open := [];
      }
    }
    assert items[..|items|] == items;
    PackingParts(batches, open, size);
    if open != [] {
      assert |Flat(batches)| < |Fits(items, size)|;
    }
    assert Fits(items, size)[|Flat(batches)|..] == open;
  }

  lemma PackingParts<T>(batches: seq<seq<T>>, open: seq<T>, size: T -> nat)
    requires Packing(batches, open, size)
    ensures Sendable(batches, size) && NextFit(batches, size)
  {
  }

  lemma NothingPacked<T>(size: T -> nat)
    ensures Packing<T>([], [], size) && Flat<T>([]) == [] && Fits<T>([], size) == [] && Total<T>([], size) == 0
  {
  }

  /******* The approximation bound *******/

  lemma {:induction false} TotalConcat<T>(a: seq<T>, b: seq<T>, size: T -> nat)
    ensures Total(a + b, size) == Total(a, size) + Total(b, size)
  {
    if b == [] {
      assert a + b == a;
    } else {
      assert (a + b)[..|a + b| - 1] == a + b[..|b| - 1];
      TotalConcat(a, b[..|b| - 1], size);
    }
  }

  lemma {:induction false} TotalPermuted<T>(a: seq<T>, b: seq<T>, size: T -> nat)
    requires multiset(a) == multiset(b)
    ensures Total(a, size) == Total(b, size)
  {
    if a == [] {
      assert |multiset(b)| == |b|;
    } else {
      var n := |a| - 1;
      assert a == a[..n] + [a[n]];
      assert a[n] in multiset(b);
      var i :| 0 <= i < |b| && b[i] == a[n];
      var c := b[..i] + b[i + 1..];
      assert b == b[..i] + [b[i]] + b[i + 1..];
      assert multiset(a[..n]) == multiset(a) - multiset{a[n]} == multiset(b) - multiset{a[n]} == multiset(c);
      TotalPermuted(a[..n], c, size);
      TotalConcat(b[..i], [b[i]], size);
      TotalConcat(b[..i] + [b[i]], b[i + 1..], size);
      TotalConcat(b[..i], b[i + 1..], size);
      TotalPush([], b[i], size);
    }
  }

  /** Any two consecutive batches outweigh the limit, so pairs add up. */
  lemma {:induction false} PairsOutweigh<T>(batches: seq<seq<T>>, size: T -> nat, q: nat)
    requires NextFit(batches, size) && 2 * q <= |batches|
    ensures Total(Flat(batches[..2 * q]), size) >= q * (MAX_API_SIZE + 1)
  {
    hide Total, Flat;
    if q > 0 {
      var k := 2 * q;
      PairsOutweigh(batches, size, q - 1);
      var head, a, b := batches[..k - 2], batches[k - 2], batches[k - 1];
      assert batches[..k] == head + [a] + [b];
      FlatPush(head, a);
      FlatPush(head + [a], b);
      TotalConcat(Flat(head), a, size);
      TotalConcat(Flat(head) + a, b, size);
      assert Overflows(batches, k - 1, size);
      FirstWeighs(b, size);
    }
  }

  lemma FirstWeighs<T>(b: seq<T>, size: T -> nat)
    requires b != []
    ensures Total(b, size) >= size(b[0])
  {
    assert b == [b[0]] + b[1..];
    TotalConcat([b[0]], b[1..], size);
    TotalPush([], b[0], size);
    assert [] + [b[0]] == [b[0]];
  }

  lemma {:induction false} SplitWeight<T>(split: seq<seq<T>>, size: T -> nat)
    requires forall i :: 0 <= i < |split| ==> Total(split[i], size) <= MAX_API_SIZE
    ensures Total(Flat(split), size) <= |split| * MAX_API_SIZE
  {
    if split != [] {
      SplitWeight(split[..|split| - 1], size);
      TotalConcat(Flat(split[..|split| - 1]), split[|split| - 1], size);
    }
  }

  lemma {:induction false} FlatPrefix<T>(batches: seq<seq<T>>, n: nat, size: T -> nat)
    requires n <= |batches|
    ensures Total(Flat(batches[..n]), size) <= Total(Flat(batches), size)
    decreases |batches| - n
  {
    if n < |batches| {
      FlatPrefix(batches, n + 1, size);
      assert batches[..n + 1][..n] == batches[..n];
      TotalConcat(Flat(batches[..n]), batches[n], size);
    } else {
      assert batches[..n] == batches;
    }
  }

  lemma {:induction false} FlatEmpty<T>(batches: seq<seq<T>>)
    requires batches != [] && batches[0] != []
    ensures Flat(batches) != []
  {
    if |batches| > 1 { FlatEmpty(batches[..|batches| - 1]); }
  }

  /** Next-fit never needs more than twice the batches of any other legal split, less one:
      `split` is any way at all of putting the items that fit into batches within the limit. */
  lemma WithinTwiceOptimal<T>(items: seq<T>, size: T -> nat, batches: seq<seq<T>>, split: seq<seq<T>>)
    requires Sendable(batches, size) && NextFit(batches, size) && Flat(batches) <= Fits(items, size)
    requires multiset(Flat(split)) == multiset(Fits(items, size))
    requires forall i :: 0 <= i < |split| ==> Total(split[i], size) <= 1_000_000
    ensures batches != [] ==> |batches| <= 2 * |split| - 1
  {
    hide Total, Flat, Fits, Sendable, NextFit;
    if batches != [] {
      var q := |batches| / 2;
      var fits, done := Fits(items, size), Flat(batches);
      PairsOutweigh(batches, size, q);
      FlatPrefix(batches, 2 * q, size);
      PrefixWeighs(done, fits, size);
      TotalPermuted(Flat(split), fits, size);
      SplitWeight(split, size);
      SomethingSplit(batches, fits, split, size);
      Fewer(q, |split|);
    }
  }

  lemma PrefixWeighs<T>(a: seq<T>, b: seq<T>, size: T -> nat)
    requires a <= b
    ensures Total(a, size) <= Total(b, size)
  {
    assert b == a + b[|a|..];
    TotalConcat(a, b[|a|..], size);
  }

  lemma SomethingSplit<T>(batches: seq<seq<T>>, fits: seq<T>, split: seq<seq<T>>, size: T -> nat)
    requires batches != [] && Sendable(batches, size) && Flat(batches) <= fits
    requires multiset(Flat(split)) == multiset(fits)
    ensures split != []
  {
    FlatEmpty(batches);
    assert |multiset(fits)| == |fits| > 0;
  }

  lemma Fewer(q: nat, k: nat)
    requires q * (MAX_API_SIZE + 1) <= k * MAX_API_SIZE && k > 0
    ensures q < k
  {
  }
}
