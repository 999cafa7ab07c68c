/** The dynamic-sampling key of sample/trace_key.go. A span is the rendered value (fmt.Sprintf
    "%v") of each of its fields; rendering and number formatting are not modelled. */
module TraceKey {
  import opened Order

  type Fields = map<string, string>

  /******* Strictly sorted lists of strings *******/

  ghost predicate Strict(xs: seq<string>) {
    forall i, j :: 0 <= i < j < |xs| ==> LexLess(xs[i], xs[j])
  }

  ghost function Elements(xs: seq<string>): set<string> {
    set x | x in xs
  }

  /** A set has at most one strictly sorted listing. */
  lemma {:induction false} ListingUnique(a: seq<string>, b: seq<string>)
    requires Strict(a) && Strict(b) && Elements(a) == Elements(b)
    ensures a == b
  {
    NoElements(a);
    NoElements(b);
    if a != [] {
      assert a[0] in Elements(b) && b[0] in Elements(a);
      var i :| 0 <= i < |b| && b[i] == a[0];
      var j :| 0 <= j < |a| && a[j] == b[0];
      LexTotal(a[0], b[0]);
      assert a[0] == b[0];
      TailElements(a);
      TailElements(b);
      ListingUnique(a[1..], b[1..]);
      assert a == [a[0]] + a[1..] && b == [b[0]] + b[1..];
    }
  }

  lemma NoElements(a: seq<string>)
    ensures Elements(a) == {} <==> a == []
  {
    if a != [] { assert a[0] in Elements(a); }
  }

  lemma TailElements(a: seq<string>)
    requires Strict(a) && a != []
    ensures Elements(a[1..]) == Elements(a) - {a[0]}
  {
    assert a == [a[0]] + a[1..];
    forall x | x in a[1..] ensures x != a[0] {
      var i :| 0 <= i < |a[1..]| && a[1..][i] == x;
      LexTotal(a[0], a[i + 1]);
    }
  }

  ghost function Inserted(x: string, xs: seq<string>): seq<string> {
    if xs == [] then [x]
    else if LexLess(x, xs[0]) then [x] + xs
    else [xs[0]] + Inserted(x, xs[1..])
  }

  lemma ConsStrict(x: string, xs: seq<string>)
    requires Strict(xs) && forall y :: y in Elements(xs) ==> LexLess(x, y)
    ensures Strict([x] + xs) && Elements([x] + xs) == Elements(xs) + {x}
  {
    hide LexLess;
    forall i, j | 0 <= i < j < |[x] + xs| ensures LexLess(([x] + xs)[i], ([x] + xs)[j]) {
      if i == 0 { assert xs[j - 1] in Elements(xs); }
    }
  }

  lemma BelowHead(x: string, xs: seq<string>)
    requires Strict(xs) && xs != [] && LexLess(x, xs[0])
    ensures forall y :: y in Elements(xs) ==> LexLess(x, y)
  {
    hide LexLess;
    forall y | y in Elements(xs) ensures LexLess(x, y) {
      var i :| 0 <= i < |xs| && xs[i] == y;
      if i > 0 { LexTransitive(x, xs[0], xs[i]); }
    }
  }

  lemma ConsParts(xs: seq<string>)
    requires Strict(xs) && xs != []
    ensures Strict(xs[1..]) && Elements(xs) == Elements(xs[1..]) + {xs[0]}
    ensures forall y :: y in Elements(xs[1..]) ==> LexLess(xs[0], y)
  {
    hide LexLess;
    assert xs == [xs[0]] + xs[1..];
  }

  lemma {:induction false} InsertStrict(x: string, xs: seq<string>)
    requires Strict(xs) && x !in Elements(xs)
    ensures Strict(Inserted(x, xs)) && Elements(Inserted(x, xs)) == Elements(xs) + {x}
  {
    hide LexLess, Strict, Elements;
    if xs == [] {
      EmptyStrict();
      NoElements([]);
      ConsStrict(x, []);
      assert [x] + [] == [x];
    } else if LexLess(x, xs[0]) {
      BelowHead(x, xs);
      ConsStrict(x, xs);
    } else {
      ConsParts(xs);
      InsertStrict(x, xs[1..]);
      LexTotal(x, xs[0]);
      ConsStrict(xs[0], Inserted(x, xs[1..]));
    }
  }

  /** The strictly sorted listing of a set. */
  ghost function Listing(s: set<string>): (xs: seq<string>)
    ensures Strict(xs) && Elements(xs) == s
  {
    if s == {} then []
    else
      var x :| x in s;
      InsertStrict(x, Listing(s - {x}));
      Inserted(x, Listing(s - {x}))
  }

  /******* Collapsing a sorted list *******/

  function Prev(xs: seq<string>): string {
    if xs == [] then "" else xs[|xs| - 1]
  }

  /** What the loop over the sorted values emits: those that differ from the one before, the
      first being compared with the empty string. */
  function Collapsed(xs: seq<string>): seq<string> {
    if xs == [] then []
    else
      var front := xs[..|xs| - 1];
      if xs[|xs| - 1] != Prev(front) then Collapsed(front) + [xs[|xs| - 1]] else Collapsed(front)
  }

  /** A value that differs from the one before it exceeds every earlier one. */
  lemma FreshIsGreatest(front: seq<string>, x: string)
    requires SortedBy(front + [x], LexLess) && x != Prev(front)
    ensures x != "" && forall y :: y in Elements(front) ==> LexLess(y, x)
  {
    var xs, n := front + [x], |front|;
    forall y | y in Elements(front) ensures LexLess(y, x) {
      var i :| 0 <= i < n && front[i] == y;
      assert xs[i] == y && xs[n] == x && xs[n - 1] == front[n - 1];
      assert !LexLess(xs[n], xs[i]) && !LexLess(xs[n], xs[n - 1]);
      LexTotal(x, y);
      LexTotal(xs[i], xs[n - 1]);
      if i < n - 1 { assert !LexLess(xs[n - 1], xs[i]); }
    }
    if n > 0 { assert front[n - 1] in Elements(front); }
  }

  lemma SortedFront(front: seq<string>, x: string)
    requires SortedBy(front + [x], LexLess)
    ensures SortedBy(front, LexLess)
  {
    assert forall i :: 0 <= i < |front| ==> (front + [x])[i] == front[i];
  }

  lemma EmptyStrict()
    ensures Strict([])
  {
  }

  lemma StrictPush(r: seq<string>, x: string)
    requires Strict(r) && forall y :: y in Elements(r) ==> LexLess(y, x)
    ensures Strict(r + [x])
  {
    forall i, j | 0 <= i < j < |r + [x]| ensures LexLess((r + [x])[i], (r + [x])[j]) {
      if j == |r| { assert r[i] in Elements(r); }
    }
  }

  lemma {:induction false} CollapsedElements(xs: seq<string>)
    requires SortedBy(xs, LexLess)
    ensures Strict(Collapsed(xs)) && Elements(Collapsed(xs)) == Elements(xs) - {""}
  {
    hide LexLess, Strict, Elements, Collapsed, SortedBy, Prev;
    EmptyCollapsed();
    if xs == [] {
      NoElements(xs);
      EmptyStrict();
    } else {
      var n := |xs| - 1;
      var front, x := xs[..n], xs[n];
      assert xs == front + [x] == xs[..n + 1];
      SortedFront(front, x);
      CollapsedElements(front);
      CollapsedPush(xs, n);
      ElementsPush(front, x);
      if x != Prev(front) {
        FreshIsGreatest(front, x);
        StrictPush(Collapsed(front), x);
        ElementsPush(Collapsed(front), x);
      } else {
        LastIsElement(front);
      }
    }
  }

  lemma LastIsElement(xs: seq<string>)
    ensures Prev(xs) == "" || Prev(xs) in Elements(xs)
  {
  }

  /******* The key *******/

  const BULLET := "\U{2022}"

  function Joined(xs: seq<string>): string {
    if xs == [] then "" else Joined(xs[..|xs| - 1]) + xs[|xs| - 1] + BULLET
  }

  /** The rendered values a field has in a trace. */
  ghost function ValuesOf(spans: seq<Fields>, field: string): set<string> {
    set i | 0 <= i < |spans| && field in spans[i] :: spans[i][field]
  }

  /** The key, from the values alone: for each field its distinct non-empty values in order, and
      the number of spans if asked for. */
  ghost function KeyOf(fields: seq<string>, spans: seq<Fields>): string {
    if fields == [] then ""
    else
      var field := fields[|fields| - 1];
      KeyOf(fields[..|fields| - 1], spans) + (Joined(Listing(ValuesOf(spans, field) - {""})) + ",")
  }

  type Strings = seq<string> -> seq<string>

  ghost function Collected(c: map<string, seq<string>>, field: string): set<string> {
    if field in c then Elements(c[field]) else {}
  }

  /** One field's turn in the second loop. */
  method AppendField(sort: Strings, key: string, values: seq<string>) returns (r: string)
    requires Sorts(sort, LexLess)
    ensures r == key + (Joined(Listing(Elements(values) - {""})) + ",")
  {
    hide Collapsed, Joined, Elements, Strict, LexLess;
    var sorted := sort(values);
    var prevStr, emitted := "", "";
    EmptyCollapsed();
    for i := 0 to |sorted|
      invariant prevStr == Prev(sorted[..i]) && emitted == Joined(Collapsed(sorted[..i]))
    {
      CollapsedPush(sorted, i);
      JoinedPush(Collapsed(sorted[..i]), sorted[i]);
      if sorted[i] != prevStr {
        emitted := emitted + sorted[i] + BULLET;
      }
      prevStr := sorted[i];
    }
    assert sorted[..|sorted|] == sorted;
    CollapsedElements(sorted);
    SameElements(values, sorted);
    ListingUnique(Collapsed(sorted), Listing(Elements(values) - {""}));
    r := key + (emitted + ",");
  }

  lemma EmptyCollapsed()
    ensures Collapsed([]) == [] && Joined([]) == ""
  {
  }

  lemma CollapsedPush(xs: seq<string>, i: nat)
    requires i < |xs|
    ensures Collapsed(xs[..i + 1])
            == if xs[i] != Prev(xs[..i]) then Collapsed(xs[..i]) + [xs[i]] else Collapsed(xs[..i])
    ensures Prev(xs[..i + 1]) == xs[i]
  {
    assert xs[..i + 1][..i] == xs[..i];
  }

  lemma JoinedPush(xs: seq<string>, x: string)
    ensures Joined(xs + [x]) == Joined(xs) + x + BULLET
  {
    assert (xs + [x])[..|xs|] == xs;
  }

  lemma SameElements(a: seq<string>, b: seq<string>)
    requires multiset(a) == multiset(b)
    ensures Elements(a) == Elements(b)
  {
    forall x ensures x in a <==> x in b { assert x in multiset(a) <==> x in multiset(b); }
  }

  type Collector = map<string, seq<string>>

  /** The values of one field, over all spans, added to the collector. */
  method CollectField(collector: Collector, field: string, spans: seq<Fields>) returns (r: Collector)
    ensures forall f :: Collected(r, f)
                        == Collected(collector, f) + (if f == field then ValuesOf(spans, f) else {})
  {
    r := collector;
    for j := 0 to |spans|
      invariant forall f :: f != field ==> Collected(r, f) == Collected(collector, f)
      invariant Collected(r, field) == Collected(collector, field) + ValuesOf(spans[..j], field)
    {
      ValuesPush(spans, j, field);
      if field in spans[j] {
        var was := if field in r then r[field] else [];
        ElementsPush(was, spans[j][field]);
        r := r[field := was + [spans[j][field]]];
      }
    }
    assert spans[..|spans|] == spans;
  }

  /** build, with the fields in the order newTraceKey left them. */
  method Build(sort: Strings, show: nat -> string, fields: seq<string>, useTraceLength: bool, spans: seq<Fields>)
    returns (key: string)
    requires Sorts(sort, LexLess)
    ensures key == KeyOf(fields, spans) + (if useTraceLength then show(|spans|) else "")
  {
    hide ValuesOf, Elements, Sorts, Joined;
    var collector: Collector := map[];
    for i := 0 to |fields|
      invariant forall f :: Collected(collector, f) == if f in fields[..i] then ValuesOf(spans, f) else {}
    {
      collector := CollectField(collector, fields[i], spans);
      assert fields[..i + 1] == fields[..i] + [fields[i]];
    }
    assert fields[..|fields|] == fields;
    key := "";
    for i := 0 to |fields|
      invariant key == KeyOf(fields[..i], spans)
    {
      var field := fields[i];
      KeyPush(fields, i, spans);
      var values := if field in collector then collector[field] else [];
      assert Elements(values) == Collected(collector, field) by { NoElements([]); }
      key := AppendField(sort, key, values);
    }
    if useTraceLength {
      key := key + show(|spans|);
    }
  }

  lemma KeyPush(fields: seq<string>, i: nat, spans: seq<Fields>)
    requires i < |fields|
    ensures KeyOf(fields[..i + 1], spans)
            == KeyOf(fields[..i], spans) + (Joined(Listing(ValuesOf(spans, fields[i]) - {""})) + ",")
  {
    assert fields[..i + 1][..i] == fields[..i];
  }

  lemma ElementsPush(xs: seq<string>, x: string)
    ensures Elements(xs + [x]) == Elements(xs) + {x}
  {
  }

  lemma ValuesPush(spans: seq<Fields>, j: nat, field: string)
    requires j < |spans|
    ensures ValuesOf(spans[..j + 1], field)
            == ValuesOf(spans[..j], field) + (if field in spans[j] then {spans[j][field]} else {})
    ensures ValuesOf(spans[..0], field) == {}
  {
    assert forall i :: 0 <= i < j ==> spans[..j + 1][i] == spans[..j][i] == spans[i];
    assert spans[..j + 1][j] == spans[j];
  }

  /** The key depends only on the set of non-empty values per field: so not on the order of the
      spans, nor on values that occur again. */
  lemma {:induction false} KeyDependsOnValues(fields: seq<string>, a: seq<Fields>, b: seq<Fields>)
    requires forall f :: f in fields ==> ValuesOf(a, f) - {""} == ValuesOf(b, f) - {""}
    ensures KeyOf(fields, a) == KeyOf(fields, b)
  {
    if fields != [] {
      KeyDependsOnValues(fields[..|fields| - 1], a, b);
    }
  }

  /** Permuting the spans changes no key. */
  lemma KeyIgnoresSpanOrder(fields: seq<string>, a: seq<Fields>, b: seq<Fields>)
    requires multiset(a) == multiset(b)
    ensures KeyOf(fields, a) == KeyOf(fields, b) && |a| == |b|
  {
    forall f ensures ValuesOf(a, f) == ValuesOf(b, f) {
      ValuesIncluded(a, b, f);
      ValuesIncluded(b, a, f);
    }
    KeyDependsOnValues(fields, a, b);
    assert |multiset(a)| == |a| && |multiset(b)| == |b|;
  }

  lemma ValuesIncluded(a: seq<Fields>, b: seq<Fields>, f: string)
    requires multiset(a) == multiset(b)
    ensures ValuesOf(a, f) <= ValuesOf(b, f)
  {
    forall v | v in ValuesOf(a, f) ensures v in ValuesOf(b, f) {
      var i :| 0 <= i < |a| && f in a[i] && a[i][f] == v;
      assert a[i] in multiset(b);
      var j :| 0 <= j < |b| && b[j] == a[i];
    }
  }

  /** newTraceKey sorts the configured fields, so any order of the same fields gives one key. */
  lemma KeyIgnoresFieldOrder(sort: Strings, fields: seq<string>, fields': seq<string>, spans: seq<Fields>)
    requires Sorts(sort, LexLess) && multiset(fields) == multiset(fields')
    ensures KeyOf(sort(fields), spans) == KeyOf(sort(fields'), spans)
  {
    forall x: string, y: string ensures LexLess(x, y) || LexLess(y, x) || x == y { LexTotal(x, y); }
    assert multiset(sort(fields)) == multiset(sort(fields'));
    SortedUnique(sort(fields), sort(fields'), LexLess);
  }

  /******* What the key tells *******/

  /** A value that holds neither separator. */
  predicate Plain(v: string) {
    BULLET[0] !in v && ',' !in v
  }

  ghost predicate PlainList(xs: seq<string>) {
    forall i :: 0 <= i < |xs| ==> Plain(xs[i])
  }

  /** The position after the last c. */
  function AfterLast(s: string, c: char): nat {
    if s == "" || s[|s| - 1] == c then |s| else AfterLast(s[..|s| - 1], c)
  }

  lemma {:induction false} AfterLastIs(p: string, x: string, c: char)
    requires c !in x && (p == "" || p[|p| - 1] == c)
    ensures AfterLast(p + x, c) == |p|
  {
    if x == "" {
      assert p + x == p;
    } else {
      assert (p + x)[..|p + x| - 1] == p + x[..|x| - 1] && (p + x)[|p + x| - 1] == x[|x| - 1];
      AfterLastIs(p, x[..|x| - 1], c);
    }
  }

  /** A text cut after the last separator can be cut in one way only. */
  lemma TailUnique(p: string, x: string, q: string, y: string, c: char)
    requires p + x == q + y && c !in x && c !in y
    requires (p == "" || p[|p| - 1] == c) && (q == "" || q[|q| - 1] == c)
    ensures p == q && x == y
  {
    AfterLastIs(p, x, c);
    AfterLastIs(q, y, c);
    var s := p + x;
    assert p == s[..|p|] && q == s[..|q|] && x == s[|p|..] && y == s[|q|..];
  }

  lemma JoinedEnds(xs: seq<string>)
    ensures Joined(xs) == "" <==> xs == []
    ensures xs != [] ==> Joined(xs)[|Joined(xs)| - 1] == BULLET[0]
  {
    assert |BULLET| == 1;
  }

  lemma {:induction false} JoinedNoComma(xs: seq<string>)
    requires PlainList(xs)
    ensures ',' !in Joined(xs)
  {
    if xs != [] { JoinedNoComma(xs[..|xs| - 1]); }
  }

  lemma {:induction false} JoinedInjective(xs: seq<string>, ys: seq<string>)
    requires Joined(xs) == Joined(ys) && PlainList(xs) && PlainList(ys)
    ensures xs == ys
  {
    JoinedEnds(xs);
    JoinedEnds(ys);
    if xs != [] {
      var n, m := |xs| - 1, |ys| - 1;
      var p, q := Joined(xs[..n]), Joined(ys[..m]);
      assert (p + xs[n]) + BULLET == (q + ys[m]) + BULLET;
      assert p + xs[n] == Joined(xs)[..|Joined(xs)| - 1] == q + ys[m];
      JoinedEnds(xs[..n]);
      JoinedEnds(ys[..m]);
      TailUnique(p, xs[n], q, ys[m], BULLET[0]);
      JoinedInjective(xs[..n], ys[..m]);
      assert xs == xs[..n] + [xs[n]] && ys == ys[..m] + [ys[m]];
    }
  }

  ghost predicate AllPlain(fields: seq<string>, spans: seq<Fields>) {
    forall f, i :: f in fields && 0 <= i < |spans| && f in spans[i] ==> Plain(spans[i][f])
  }

  lemma ListingPlain(fields: seq<string>, spans: seq<Fields>, f: string)
    requires AllPlain(fields, spans) && f in fields
    ensures PlainList(Listing(ValuesOf(spans, f) - {""}))
  {
    var l := Listing(ValuesOf(spans, f) - {""});
    forall i | 0 <= i < |l| ensures Plain(l[i]) { assert l[i] in Elements(l); }
  }

  lemma KeyEnds(fields: seq<string>, spans: seq<Fields>)
    ensures KeyOf(fields, spans) == "" <==> fields == []
    ensures fields != [] ==> KeyOf(fields, spans)[|KeyOf(fields, spans)| - 1] == ','
  {
  }

  /** The key tells the values apart: if they hold no separators, traces with the same key have the
      same non-empty values in every field. */
  lemma {:induction false} KeyDeterminesValues(fields: seq<string>, a: seq<Fields>, b: seq<Fields>)
    requires KeyOf(fields, a) == KeyOf(fields, b) && AllPlain(fields, a) && AllPlain(fields, b)
    ensures forall f :: f in fields ==> ValuesOf(a, f) - {""} == ValuesOf(b, f) - {""}
  {
    hide ValuesOf, Joined, PlainList, AllPlain;
    if fields != [] {
      var front, f := fields[..|fields| - 1], fields[|fields| - 1];
      var x, y := Listing(ValuesOf(a, f) - {""}), Listing(ValuesOf(b, f) - {""});
      var p, q := KeyOf(front, a), KeyOf(front, b);
      assert p + Joined(x) == KeyOf(fields, a)[..|KeyOf(fields, a)| - 1] == q + Joined(y);
      ListingPlain(fields, a, f);
      ListingPlain(fields, b, f);
      JoinedNoComma(x);
      JoinedNoComma(y);
      KeyEnds(front, a);
      KeyEnds(front, b);
      TailUnique(p, Joined(x), q, Joined(y), ',');
      JoinedInjective(x, y);
      assert Elements(x) == ValuesOf(a, f) - {""} && Elements(y) == ValuesOf(b, f) - {""};
      assert fields == front + [f];
      FewerPlain(front, f, a);
      FewerPlain(front, f, b);
      KeyDeterminesValues(front, a, b);
    }
  }

  lemma FewerPlain(front: seq<string>, f: string, spans: seq<Fields>)
    requires AllPlain(front + [f], spans)
    ensures AllPlain(front, spans)
  {
    assert forall g :: g in front ==> g in front + [f];
  }

  /** And with the number of spans at the end, that number's text too. */
  lemma LengthKeyDeterminesValues(fields: seq<string>, a: seq<Fields>, b: seq<Fields>, show: nat -> string)
    requires KeyOf(fields, a) + show(|a|) == KeyOf(fields, b) + show(|b|) && AllPlain(fields, a) && AllPlain(fields, b)
    requires ',' !in show(|a|) && ',' !in show(|b|)
    ensures show(|a|) == show(|b|) && forall f :: f in fields ==> ValuesOf(a, f) - {""} == ValuesOf(b, f) - {""}
  {
    hide ValuesOf, Joined, Plain;
    KeyEnds(fields, a);
    KeyEnds(fields, b);
    TailUnique(KeyOf(fields, a), show(|a|), KeyOf(fields, b), show(|b|), ',');
    KeyDeterminesValues(fields, a, b);
  }
}
