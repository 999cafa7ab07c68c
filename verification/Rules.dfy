/** The rules-based sampler of sample/rules.go and the three dynamic samplers it may hand over
    to. Whether a condition holds of a span, how rules and values print, what the
    dynamic-sampling library answers and the random draws are parameters. */
module Rules {
  import opened Events
  import opened Order
  import K = TraceKey

  type Int64 = x: int | -0x8000_0000_0000_0000 <= x < 0x8000_0000_0000_0000

  datatype Condition = Condition(field: string, operator: string, value: Value)

  datatype Kind = Dynamic | EMADynamic | TotalThroughput

  /** A dynamic sampler: the fields of its key, whether the span count is part of it, and the
      field to add it to, if any. */
  datatype Downstream = Downstream(kind: Kind, fields: seq<string>, useTraceLength: bool, addKeyTo: Option<string>)

  /** How values and numbers print, and a sort of strings. */
  datatype Printer = Printer(render: Data -> K.Fields, show: nat -> string, sort: K.Strings)

  /** `conditions` is None for a nil slice; `sampler` is Some(None) for a section that sets none of
      the three kinds. */
  datatype Rule = Rule(
    name: string,
    sampleRate: Int64,
    sampler: Option<Option<Downstream>>,
    drop: bool,
    scope: string,
    conditions: Option<seq<Condition>>)

  type Holds = (Data, Condition) -> bool

  /** rand.Intn: a number below n, for positive n. */
  type Draw = nat -> nat

  ghost predicate FairDraw(draw: Draw) {
    forall n: nat :: n > 0 ==> draw(n) < n
  }

  /******* Matching *******/

  ghost predicate SomeSpan(holds: Holds, c: Condition, spans: seq<Span>) {
    exists k :: 0 <= k < |spans| && holds(spans[k].data, c)
  }

  ghost predicate AllConditions(holds: Holds, cs: seq<Condition>, sp: Span) {
    forall k :: 0 <= k < |cs| ==> holds(sp.data, cs[k])
  }

  /** Every condition is met, each by some span. */
  ghost predicate TraceMatches(holds: Holds, rule: Rule, spans: seq<Span>) {
    rule.conditions.None?
    || forall k :: 0 <= k < |rule.conditions.value| ==> SomeSpan(holds, rule.conditions.value[k], spans)
  }

  /** One span meets every condition. */
  ghost predicate SpanMatches(holds: Holds, rule: Rule, spans: seq<Span>) {
    rule.conditions.None?
    || exists k :: 0 <= k < |spans| && AllConditions(holds, rule.conditions.value, spans[k])
  }

  /** A scope that is neither matches everything. */
  ghost predicate Matches(holds: Holds, rule: Rule, spans: seq<Span>) {
    if rule.scope == "span" then SpanMatches(holds, rule, spans)
    else if rule.scope == "trace" || rule.scope == "" then TraceMatches(holds, rule, spans)
    else true
  }

  method RuleMatchesTrace(holds: Holds, rule: Rule, spans: seq<Span>) returns (r: bool)
    ensures r <==> TraceMatches(holds, rule, spans)
  {
    if rule.conditions.None? {
      return true;
    }
    var cs := rule.conditions.value;
    var matched := 0;
    for i := 0 to |cs|
      invariant 0 <= matched <= i
      invariant matched == i <==> forall k :: 0 <= k < i ==> SomeSpan(holds, cs[k], spans)
    {
      var found := false;
      for j := 0 to |spans|
        invariant !found && forall k :: 0 <= k < j ==> !holds(spans[k].data, cs[i])
      {
        if holds(spans[j].data, cs[i]) {
          found := true;
          break;
        }
      }
      assert found <==> SomeSpan(holds, cs[i], spans);
      if found {
        matched := matched + 1;
      }
    }
    return matched == |cs|;
  }

  method RuleMatchesSpanInTrace(holds: Holds, rule: Rule, spans: seq<Span>) returns (r: bool)
    ensures r <==> SpanMatches(holds, rule, spans)
  {
    if rule.conditions.None? {
      return true;
    }
    var cs := rule.conditions.value;
    for i := 0 to |spans|
      invariant forall k :: 0 <= k < i ==> !AllConditions(holds, cs, spans[k])
    {
      var ruleMatched := true;
      for j := 0 to |cs|
        invariant ruleMatched && forall k :: 0 <= k < j ==> holds(spans[i].data, cs[k])
      {
        if !holds(spans[i].data, cs[j]) {
          ruleMatched := false;
          break;
        }
      }
      if ruleMatched {
        assert AllConditions(holds, cs, spans[i]);
        return true;
      }
    }
    return false;
  }

  /** Span scope asks for more than trace scope; with one condition, or one span, for the same. */
  lemma SpanScopeIsStronger(holds: Holds, rule: Rule, spans: seq<Span>)
    ensures SpanMatches(holds, rule, spans) ==> TraceMatches(holds, rule, spans)
    ensures (rule.conditions.Some? && |rule.conditions.value| == 1) || |spans| == 1 ==>
              (SpanMatches(holds, rule, spans) <==> TraceMatches(holds, rule, spans))
  {
    if rule.conditions.Some? {
      var cs := rule.conditions.value;
      if SpanMatches(holds, rule, spans) {
        var k :| 0 <= k < |spans| && AllConditions(holds, cs, spans[k]);
        forall c | 0 <= c < |cs| ensures SomeSpan(holds, cs[c], spans) {
          assert holds(spans[k].data, cs[c]);
        }
      }
      if TraceMatches(holds, rule, spans) && |spans| == 1 {
        assert forall c :: 0 <= c < |cs| ==> SomeSpan(holds, cs[c], spans);
        assert AllConditions(holds, cs, spans[0]);
      } else if TraceMatches(holds, rule, spans) && |cs| == 1 {
        assert SomeSpan(holds, cs[0], spans);
        var k :| 0 <= k < |spans| && holds(spans[k].data, cs[0]);
        assert AllConditions(holds, cs, spans[k]);
      }
    }
  }

  /** Spans that arrive later never undo a match, and their order does not matter: matching
      needs only that the spans be among those of the larger trace. */
  lemma MoreSpansStillMatch(holds: Holds, rule: Rule, spans: seq<Span>, more: seq<Span>)
    requires Matches(holds, rule, spans) && forall k :: 0 <= k < |spans| ==> spans[k] in more
    ensures Matches(holds, rule, more)
  {
    if rule.conditions.Some? {
      var cs := rule.conditions.value;
      if rule.scope == "span" {
        var k :| 0 <= k < |spans| && AllConditions(holds, cs, spans[k]);
        var j :| 0 <= j < |more| && more[j] == spans[k];
      } else if rule.scope == "trace" || rule.scope == "" {
        forall c | 0 <= c < |cs| ensures SomeSpan(holds, cs[c], more) {
          assert SomeSpan(holds, cs[c], spans);
          var k :| 0 <= k < |spans| && holds(spans[k].data, cs[c]);
          var j :| 0 <= j < |more| && more[j] == spans[k];
        }
      }
    }
  }

  /******* Deciding *******/

  /** The first rule that matches, or the number of rules. */
  ghost predicate FirstMatch(holds: Holds, rules: seq<Rule>, spans: seq<Span>, i: nat) {
    && i <= |rules|
    && (forall j :: 0 <= j < i ==> !Matches(holds, rules[j], spans))
    && (i < |rules| ==> Matches(holds, rules[i], spans))
  }

  /** A trace with more spans is decided by the same rule or an earlier one. */
  lemma MoreSpansMatchNoLater(holds: Holds, rules: seq<Rule>, spans: seq<Span>, more: seq<Span>, i: nat, i': nat)
    requires FirstMatch(holds, rules, spans, i) && FirstMatch(holds, rules, more, i')
    requires forall k :: 0 <= k < |spans| ==> spans[k] in more
    ensures i' <= i
  {
    if i < i' { MoreSpansStillMatch(holds, rules[i], spans, more); }
  }

  function Label(kind: Kind): string {
    match kind
    case Dynamic => "dynamic/"
    case EMADynamic => "emadynamic/"
    case TotalThroughput => "totalthroughput/"
  }

  function Rendered(pr: Printer, spans: seq<Span>): seq<K.Fields> {
    seq(|spans|, i requires 0 <= i < |spans| => pr.render(spans[i].data))
  }

  /** The key of a trace: the distinct values of the sampler's fields, in order. */
  ghost function KeyFor(dyn: Downstream, pr: Printer, spans: seq<Span>): string {
    K.KeyOf(pr.sort(dyn.fields), Rendered(pr, spans)) + (if dyn.useTraceLength then pr.show(|spans|) else "")
  }

  /** What a dynamic sampler decides, `asked` being the library's rate for a key; and the key goes
      on the spans if the sampler is to add it. */
  ghost predicate DynamicDecides(dyn: Downstream, pr: Printer, spans: seq<Span>, asked: string -> Int64, draw: Draw, d: Decision) {
    var key := KeyFor(dyn, pr, spans);
    && d.rate == Max(1, asked(key)) && (d.keep <==> draw(d.rate) == 0)
    && d.mark == if dyn.addKeyTo.Some? then Some(Mark(dyn.addKeyTo.value, key)) else None
  }

  /** What a rule decides: `via` is the downstream sampler found for it, if any. */
  ghost predicate RuleDecides(rule: Rule, via: Option<Downstream>, pr: Printer, spans: seq<Span>, asked: string -> Int64,
                              draw: Draw, d: Decision) {
    if rule.sampler.Some? && via.None? then d.rate == 1 && d.keep && d.mark.None?
    else if rule.sampler.Some? then DynamicDecides(via.value, pr, spans, asked, draw, d)
    else
      && d.rate == rule.sampleRate % 0x1_0000_0000_0000_0000 && d.mark.None?
      && (d.keep <==> !rule.drop && rule.sampleRate > 0 && draw(rule.sampleRate) == 0)
  }

  /** The rules decide so, by rule i, or by none of them. */
  ghost predicate RulesDecide(holds: Holds, rules: seq<Rule>, via: Rule -> Option<Downstream>, pr: Printer,
                              spans: seq<Span>, i: nat, asked: string -> Int64, draw: Draw, d: Decision) {
    && FirstMatch(holds, rules, spans, i)
    && if i == |rules| then d.rate == 1 && d.keep && d.mark.None?
       else RuleDecides(rules[i], via(rules[i]), pr, spans, asked, draw, d)
  }

  /** The downstream sampler found under the text of a rule. */
  function ViaOf(text: Rule -> string, samplers: map<string, Downstream>): Rule -> Option<Downstream> {
    rule => if text(rule) in samplers then Some(samplers[text(rule)]) else None
  }

  function Scope(rule: Rule): string {
    if rule.scope == "span" then "rules/span/"
    else if rule.scope == "trace" || rule.scope == "" then "rules/trace/"
    else "rules/invalid scope/"
  }

  /** The reason says by which scope and which rule, and how a downstream sampler put it. */
  ghost function Reason(rule: Rule, via: Option<Downstream>, pr: Printer, spans: seq<Span>): string {
    if rule.sampler.None? then Scope(rule) + rule.name
    else if via.None? then Scope(rule) + "bad_rule:" + rule.name
    else Scope(rule) + rule.name + ":" + (Label(via.value.kind) + KeyFor(via.value, pr, spans))
  }

  /** GetSampleRate of the three dynamic samplers: newTraceKey has sorted the fields, buildAndAdd
      builds the key and marks the spans with it, and the library is asked for its rate. */
  method DynamicRate(dyn: Downstream, pr: Printer, spans: seq<Span>, asked: string -> Int64, draw: Draw)
    returns (d: Decision)
    requires Sorts(pr.sort, LexLess)
    ensures DynamicDecides(dyn, pr, spans, asked, draw, d)
    ensures d.rate == 1 && FairDraw(draw) ==> d.keep
    ensures d.reason == Label(dyn.kind) + KeyFor(dyn, pr, spans)
  {
    hide Sorts;
    var key := K.Build(pr.sort, pr.show, pr.sort(dyn.fields), dyn.useTraceLength, Rendered(pr, spans));
    var rate: int := asked(key);
    if rate < 1 {
      rate := 1;
    }
    var mark := if dyn.addKeyTo.Some? then Some(Mark(dyn.addKeyTo.value, key)) else None;
    d := Decision(rate, draw(rate) == 0, Label(dyn.kind) + key, mark);
  }

  class RulesBasedSampler {
    const rules: seq<Rule>
    const holds: Holds
    const text: Rule -> string
    var samplers: map<string, Downstream>

    /** The downstream samplers are those Start would make. */
    ghost predicate Started()
      reads this
    {
      && (forall k :: 0 <= k < |rules| && Makes(rules[k]) ==> text(rules[k]) in samplers)
      && (forall s :: s in samplers ==>
            exists k :: 0 <= k < |rules| && Makes(rules[k]) && text(rules[k]) == s && rules[k].sampler == Some(Some(samplers[s])))
    }

    constructor (rules: seq<Rule>, holds: Holds, text: Rule -> string)
      ensures this.rules == rules && this.holds == holds && this.text == text
    {
      this.rules, this.holds, this.text, samplers := rules, holds, text, map[];
    }

    method Start()
      modifies this
      ensures Started()
    {
      samplers := map[];
      for i := 0 to |rules|
        invariant forall k :: 0 <= k < i && Makes(rules[k]) ==> text(rules[k]) in samplers
        invariant forall s :: s in samplers ==>
                    exists k :: 0 <= k < i && Makes(rules[k]) && text(rules[k]) == s && rules[k].sampler == Some(Some(samplers[s]))
      {
        if rules[i].sampler.Some? {
          if rules[i].sampler.value.None? {
            continue;
          }
          ghost var before := samplers;
          samplers := samplers[text(rules[i]) := rules[i].sampler.value.value];
          forall s | s in samplers
            ensures exists k :: 0 <= k < i + 1 && Makes(rules[k]) && text(rules[k]) == s && rules[k].sampler == Some(Some(samplers[s]))
          {
            if s == text(rules[i]) { assert Makes(rules[i]); }
            else { assert s in before; }
          }
        }
      }
    }

    /** The first matching rule decides, and without one the trace is kept at rate 1. A trace
        that is kept has a rate of at least 1, and one at rate 1 is kept unless its rule drops. */
    method GetSampleRate(spans: seq<Span>, pr: Printer, asked: string -> Int64, draw: Draw)
      returns (d: Decision, ghost i: nat)
      requires FairDraw(draw) && Sorts(pr.sort, LexLess)
      ensures RulesDecide(holds, rules, ViaOf(text, samplers), pr, spans, i, asked, draw, d)
      ensures d.reason == if i == |rules| then "no rule matched"
                          else Reason(rules[i], ViaOf(text, samplers)(rules[i]), pr, spans)
      ensures d.keep ==> d.rate >= 1
      ensures d.rate == 1 && !d.keep ==> i < |rules| && rules[i].drop && rules[i].sampler.None?
    {
      hide Sorts;
      for k := 0 to |rules|
        invariant forall j :: 0 <= j < k ==> !Matches(holds, rules[j], spans)
      {
        var rule := rules[k];
        var matched, reason;
        if rule.scope == "span" {
          matched := RuleMatchesSpanInTrace(holds, rule, spans);
          reason := "rules/span/";
        } else if rule.scope == "trace" || rule.scope == "" {
          matched := RuleMatchesTrace(holds, rule, spans);
          reason := "rules/trace/";
        } else {
          matched, reason := true, "rules/invalid scope/";
        }
        if matched {
          i := k;
          if rule.sampler.Some? {
            if text(rule) !in samplers {
              return Decision(1, true, reason + "bad_rule:" + rule.name), i;
            }
            d := DynamicRate(samplers[text(rule)], pr, spans, asked, draw);
            d := d.(reason := reason + rule.name + ":" + d.reason);
          } else {
            d := Decision(rule.sampleRate % TWO_64,
                          !rule.drop && rule.sampleRate > 0 && draw(rule.sampleRate) == 0,
                          reason + rule.name);
          }
          return;
        }
      }
      i := |rules|;
      d := Decision(1, true, "no rule matched");
    }
  }

  /** The rule names a downstream sampler that can be made. */
  predicate Makes(rule: Rule) {
    rule.sampler.Some? && rule.sampler.value.Some?
  }

  /** Rules that print differently: a rule falls back to keeping everything exactly when it
      names a downstream sampler and sets none of the three. */
  lemma BadRuleIff(s: RulesBasedSampler, i: nat)
    requires s.Started() && i < |s.rules|
    requires forall a, b :: 0 <= a < |s.rules| && 0 <= b < |s.rules| && s.text(s.rules[a]) == s.text(s.rules[b]) ==>
               s.rules[a] == s.rules[b]
    ensures s.text(s.rules[i]) in s.samplers <==> Makes(s.rules[i])
    ensures Makes(s.rules[i]) ==> Some(Some(s.samplers[s.text(s.rules[i])])) == s.rules[i].sampler
  {
    if s.text(s.rules[i]) in s.samplers {
      var k :| 0 <= k < |s.rules| && Makes(s.rules[k]) && s.text(s.rules[k]) == s.text(s.rules[i])
               && s.rules[k].sampler == Some(Some(s.samplers[s.text(s.rules[i])]));
    }
  }
}
