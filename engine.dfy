/** The event-driven rule engine of components/actions.js: `Actions.applyRules`
    runs one cycle for the incoming event, then one cycle for every event the
    cycle queued, popping the most recent one first, until the queue is
    empty. Expression evaluation is an oracle: it returns a value and the
    events the expression queued through `queueEvent`. */
module Engine {
  import opened Values
  import opened Document
  import opened Rules
  import opened Store

  /** An entry of `eventQueue`. */
  datatype QueueItem = QueueItem(origin: string, event: string)

  /** What evaluating one expression yields: its value and the events it
      queued, in the order it queued them. */
  datatype Eval = Eval(value: Value, queued: seq<QueueItem>)

  /** Expression evaluation in the context `{...Functions, state, ...data}`:
      the expression text, the state document and the event data. */
  type Evaluator = (string, Doc, map<string, Value>) -> Eval

  /** `origin != rule.props.origin && rule.props.origin != "*"` is false. */
  predicate OriginMatches(ruleOrigin: Option<string>, origin: string)
  {
    ruleOrigin == Some(origin) || ruleOrigin == Some("*")
  }

  /** The outcome of `conditions.every(...)`, with the events queued by the
      conditions it evaluated. */
  datatype Check = Check(holds: bool, queued: seq<QueueItem>)

  /** `every` evaluates the conditions in order and stops at the first falsy
      one; the list holds when every condition is truthy, vacuously when it
      is empty. */
  function CheckConditions(conditions: seq<Child>, ev: Evaluator, doc: Doc, data: map<string, Value>): (r: Check)
    requires forall i :: 0 <= i < |conditions| ==> conditions[i].ConditionChild?
    ensures r.holds <==> forall i :: 0 <= i < |conditions| ==> Truthy(ev(conditions[i].condition, doc, data).value)
    decreases |conditions|
  {
    if conditions == [] then Check(true, [])
    else
      var e := ev(conditions[0].condition, doc, data);
      if !Truthy(e.value) then Check(false, e.queued)
      else
        var rest := CheckConditions(conditions[1..], ev, doc, data);
        assert forall i :: 1 <= i < |conditions| ==> conditions[i] == conditions[1..][i - 1];
        Check(rest.holds, e.queued + rest.queued)
  }

  /** Whether a rule fires for the event: its origin matches and all its
      conditions hold. */
  predicate Eligible(rule: Rule, origin: string, ev: Evaluator, doc: Doc, data: map<string, Value>)
  {
    OriginMatches(rule.origin, origin) && CheckConditions(Conditions(rule.children), ev, doc, data).holds
  }

  /** The index of the rule that fires, if any, and the events queued while
      the rules were examined. */
  datatype Scan = Scan(fired: Option<nat>, queued: seq<QueueItem>)

  /** The `for (const rule of this.children)` loop from rule `from` on: the
      first eligible rule fires and the remaining rules are not examined. */
  function ScanFrom(rules: seq<Rule>, from: nat, origin: string, ev: Evaluator, doc: Doc, data: map<string, Value>): (r: Scan)
    requires from <= |rules|
    ensures r.fired.Some? ==> from <= r.fired.value < |rules|
    decreases |rules| - from
  {
    if from == |rules| then Scan(None, [])
    else if !OriginMatches(rules[from].origin, origin) then ScanFrom(rules, from + 1, origin, ev, doc, data)
    else
      var c := CheckConditions(Conditions(rules[from].children), ev, doc, data);
      if c.holds then Scan(Some(from), c.queued)
      else
        var r := ScanFrom(rules, from + 1, origin, ev, doc, data);
        Scan(r.fired, c.queued + r.queued)
  }

  /** The rule a scan fires is eligible and no rule it passed over is; a
      scan fires nothing exactly when no rule from `from` on is eligible. */
  lemma {:induction false} ScanFromFirstEligible(rules: seq<Rule>, from: nat, origin: string, ev: Evaluator,
                                                 doc: Doc, data: map<string, Value>)
    requires from <= |rules|
    ensures var r := ScanFrom(rules, from, origin, ev, doc, data);
      r.fired.Some? ==> Eligible(rules[r.fired.value], origin, ev, doc, data)
    ensures var r := ScanFrom(rules, from, origin, ev, doc, data);
      r.fired.Some? ==> forall k :: from <= k < r.fired.value ==> !Eligible(rules[k], origin, ev, doc, data)
    ensures var r := ScanFrom(rules, from, origin, ev, doc, data);
      r.fired.None? ==> forall k :: from <= k < |rules| ==> !Eligible(rules[k], origin, ev, doc, data)
    decreases |rules| - from
  {
    if from < |rules| {
      ScanFromFirstEligible(rules, from + 1, origin, ev, doc, data);
    }
  }

  /** Rules after the one that fires play no part: neither which rule fires
      nor which events are queued depends on them. */
  lemma {:induction false} ScanIgnoresLaterRules(rules: seq<Rule>, extra: seq<Rule>, from: nat,
                                                 origin: string, ev: Evaluator, doc: Doc, data: map<string, Value>)
    requires from <= |rules|
    requires ScanFrom(rules, from, origin, ev, doc, data).fired.Some?
    ensures ScanFrom(rules + extra, from, origin, ev, doc, data) == ScanFrom(rules, from, origin, ev, doc, data)
    decreases |rules| - from
  {
    assert (rules + extra)[from] == rules[from];
    if OriginMatches(rules[from].origin, origin) {
      var c := CheckConditions(Conditions(rules[from].children), ev, doc, data);
      if !c.holds {
        ScanIgnoresLaterRules(rules, extra, from + 1, origin, ev, doc, data);
      }
    } else {
      ScanIgnoresLaterRules(rules, extra, from + 1, origin, ev, doc, data);
    }
  }

  /** `[update.props.stateName, update.newValue.eval(context)]` for each update. */
  function UpdateEntries(updates: seq<Child>, ev: Evaluator, doc: Doc, data: map<string, Value>): (es: seq<(string, Value)>)
    requires forall i :: 0 <= i < |updates| ==> updates[i].UpdateChild?
    ensures |es| == |updates|
    ensures forall i :: 0 <= i < |updates| ==>
      es[i] == (updates[i].stateName, ev(updates[i].newValue, doc, data).value)
  {
    seq(|updates|, i requires 0 <= i < |updates| => (updates[i].stateName, ev(updates[i].newValue, doc, data).value))
  }

  /** The events queued while the new values are evaluated, in order. */
  function UpdatesQueued(updates: seq<Child>, ev: Evaluator, doc: Doc, data: map<string, Value>): seq<QueueItem>
    requires forall i :: 0 <= i < |updates| ==> updates[i].UpdateChild?
    decreases |updates|
  {
    if updates == [] then []
    else ev(updates[0].newValue, doc, data).queued + UpdatesQueued(updates[1..], ev, doc, data)
  }

  /** The single patch a fired rule hands to `state.update`. */
  function RulePatch(rule: Rule, ev: Evaluator, doc: Doc, data: map<string, Value>): Patch
  {
    PutAll(FromEntries(UpdateEntries(Updates(rule.children), ev, doc, data)))
  }

  /** The patch of a fired rule names exactly the state names of its updates,
      and each gets the value of its last update. */
  lemma RulePatchContents(rule: Rule, ev: Evaluator, doc: Doc, data: map<string, Value>, k: string)
    ensures k in RulePatch(rule, ev, doc, data) ==>
      exists i :: 0 <= i < |Updates(rule.children)| && Updates(rule.children)[i].stateName == k
    ensures forall i :: 0 <= i < |Updates(rule.children)| && Updates(rule.children)[i].stateName == k ==>
      k in RulePatch(rule, ev, doc, data)
    ensures forall i ::
      (0 <= i < |Updates(rule.children)| && Updates(rule.children)[i].stateName == k
       && forall j :: i < j < |Updates(rule.children)| ==> Updates(rule.children)[j].stateName != k)
      ==> RulePatch(rule, ev, doc, data)[k] == Put(ev(Updates(rule.children)[i].newValue, doc, data).value)
  {
    var us := Updates(rule.children);
    var es := UpdateEntries(us, ev, doc, data);
    var p := RulePatch(rule, ev, doc, data);
    EntriesByName(us, es, k);
    assert p == PutAll(FromEntries(es));
    assert k in p <==> k in FromEntries(es);
    if k in p {
      var i :| 0 <= i < |us| && us[i].stateName == k;
      assert Updates(rule.children)[i].stateName == k;
    }
  }

  /** Entries keyed by the state names of a list of updates: a name is a key
      iff some update has it, and its value is that of the last such entry. */
  lemma {:induction false} EntriesByName(us: seq<Child>, es: seq<(string, Value)>, k: string)
    requires |es| == |us|
    requires forall i :: 0 <= i < |us| ==> us[i].UpdateChild? && es[i].0 == us[i].stateName
    ensures k in FromEntries(es) <==> exists i :: 0 <= i < |us| && us[i].stateName == k
    ensures forall i ::
      (0 <= i < |us| && us[i].stateName == k && forall j :: i < j < |us| ==> us[j].stateName != k)
      ==> k in FromEntries(es) && FromEntries(es)[k] == es[i].1
  {
    FromEntriesLastWins(es, k);
    if exists i :: 0 <= i < |es| && es[i].0 == k {
      var i :| 0 <= i < |es| && es[i].0 == k;
      assert us[i].stateName == k;
    }
    if exists i :: 0 <= i < |us| && us[i].stateName == k {
      var i :| 0 <= i < |us| && us[i].stateName == k;
      assert es[i].0 == k;
    }
    forall i | 0 <= i < |us| && us[i].stateName == k && forall j :: i < j < |us| ==> us[j].stateName != k
      ensures k in FromEntries(es) && FromEntries(es)[k] == es[i].1
    {
      assert es[i].0 == k;
      forall j | i < j < |es| ensures es[j].0 != k { assert es[j].0 == us[j].stateName; }
    }
  }

  /** One turn of the `while (true)` body. */
  datatype CycleResult = CycleResult(fired: Option<nat>, doc: Doc, queued: seq<QueueItem>)

  function Cycle(rules: seq<Rule>, ev: Evaluator, origin: string, doc: Doc, data: map<string, Value>): (r: CycleResult)
    ensures r.fired.Some? ==> r.fired.value < |rules|
    ensures r.fired.None? ==> r.doc == doc
  {
    var s := ScanFrom(rules, 0, origin, ev, doc, data);
    match s.fired
    case None => CycleResult(None, doc, s.queued)
    case Some(k) =>
      var us := Updates(rules[k].children);
      CycleResult(Some(k), Merge(doc, RulePatch(rules[k], ev, doc, data)), s.queued + UpdatesQueued(us, ev, doc, data))
  }

  /** A cycle fires the first eligible rule and merges its patch, once; a
      cycle in which no rule is eligible leaves the document as it was. */
  lemma CycleFiresFirstEligible(rules: seq<Rule>, ev: Evaluator, origin: string, doc: Doc, data: map<string, Value>)
    ensures var r := Cycle(rules, ev, origin, doc, data);
      r.fired.Some? ==> r.fired.value < |rules| && Eligible(rules[r.fired.value], origin, ev, doc, data)
    ensures var r := Cycle(rules, ev, origin, doc, data);
      r.fired.Some? ==> forall k :: 0 <= k < r.fired.value ==> !Eligible(rules[k], origin, ev, doc, data)
    ensures var r := Cycle(rules, ev, origin, doc, data);
      r.fired.Some? ==> r.doc == Merge(doc, RulePatch(rules[r.fired.value], ev, doc, data))
    ensures var r := Cycle(rules, ev, origin, doc, data);
      r.fired.None? <==> forall k :: 0 <= k < |rules| ==> !Eligible(rules[k], origin, ev, doc, data)
    ensures var r := Cycle(rules, ev, origin, doc, data);
      r.fired.None? ==> r.doc == doc
  {
    var s := ScanFrom(rules, 0, origin, ev, doc, data);
    ScanFromFirstEligible(rules, 0, origin, ev, doc, data);
    if s.fired.Some? {
      assert Eligible(rules[s.fired.value], origin, ev, doc, data);
    }
  }

  /** What one cycle of a run records: the origin and data it ran with, the
      rule that fired, the queue after the cycle (before the pop), and the
      document before and after the cycle. */
  datatype CycleRecord = CycleRecord(origin: string, data: map<string, Value>, fired: Option<nat>, pending: seq<QueueItem>,
                                     before: Doc, after: Doc)

  /** The end of a run: the document, what is left in the queue, the last
      rule that fired, whether the fuel ran out, and the cycles run. */
  datatype Outcome = Outcome(doc: Doc, queue: seq<QueueItem>, rule: Option<nat>, exhausted: bool, trace: seq<CycleRecord>)

  /** `applyRules` from one cycle on. `fuel` bounds the number of follow-up
      cycles; the source has no bound, and a run that still has queued events
      when the fuel is spent is reported as exhausted. */
  function Run(rules: seq<Rule>, ev: Evaluator, origin: string, data: map<string, Value>,
               doc: Doc, queue: seq<QueueItem>, rule: Option<nat>, fuel: nat): (r: Outcome)
    ensures r.exhausted <==> r.queue != []
    ensures 1 <= |r.trace| <= fuel + 1
    ensures r.exhausted ==> |r.trace| == fuel + 1
    ensures r.trace[0].origin == origin && r.trace[0].data == data
    decreases fuel
  {
    var c := Cycle(rules, ev, origin, doc, data);
    var pending := queue + c.queued;
    var rule' := if c.fired.Some? then c.fired else rule;
    var record := CycleRecord(origin, data, c.fired, pending, doc, c.doc);
    if pending == [] then Outcome(c.doc, [], rule', false, [record])
    else if fuel == 0 then Outcome(c.doc, pending, rule', true, [record])
    else
      var item := pending[|pending| - 1];
      var r := Run(rules, ev, item.origin, map[], c.doc, pending[..|pending| - 1], rule', fuel - 1);
      r.(trace := [record] + r.trace)
  }

  /** Each follow-up cycle handles the most recently queued event (a stack),
      with empty data, and the rest of the stack stays beneath what that
      cycle queues. */
  ghost predicate DrainsLastInFirstOut(trace: seq<CycleRecord>)
  {
    forall j, k :: 0 <= j < k < |trace| && k == j + 1 ==> Follows(trace[j], trace[k])
  }

  /** `next` is the cycle that pops the top of the queue `prev` left. */
  ghost predicate Follows(prev: CycleRecord, next: CycleRecord)
  {
    && prev.pending != []
    && next.origin == prev.pending[|prev.pending| - 1].origin
    && next.data == map[]
    && prev.pending[..|prev.pending| - 1] <= next.pending
  }

  lemma {:induction false} RunDrainsLastInFirstOut(rules: seq<Rule>, ev: Evaluator, origin: string, data: map<string, Value>,
                                                   doc: Doc, queue: seq<QueueItem>, rule: Option<nat>, fuel: nat)
    ensures DrainsLastInFirstOut(Run(rules, ev, origin, data, doc, queue, rule, fuel).trace)
    decreases fuel, 0
  {
    var c := Cycle(rules, ev, origin, doc, data);
    var pending := queue + c.queued;
    var rule' := if c.fired.Some? then c.fired else rule;
    RunTrace(rules, ev, origin, data, doc, queue, rule, fuel);
    if pending != [] && fuel > 0 {
      DrainsAfter(rules, ev, CycleRecord(origin, data, c.fired, pending, doc, c.doc), c.doc, rule', fuel - 1);
    }
  }

  /** The run that pops the top of a cycle's queue drains last in, first
      out, with that cycle in front. */
  lemma {:induction false} DrainsAfter(rules: seq<Rule>, ev: Evaluator, record: CycleRecord,
                                       doc: Doc, rule: Option<nat>, fuel: nat)
    requires record.pending != []
    ensures var item := record.pending[|record.pending| - 1];
      var rest := record.pending[..|record.pending| - 1];
      DrainsLastInFirstOut([record] + Run(rules, ev, item.origin, map[], doc, rest, rule, fuel).trace)
    decreases fuel, 1
  {
    var item := record.pending[|record.pending| - 1];
    var rest := record.pending[..|record.pending| - 1];
    RunDrainsLastInFirstOut(rules, ev, item.origin, map[], doc, rest, rule, fuel);
    var r := Run(rules, ev, item.origin, map[], doc, rest, rule, fuel);
    RunFirstRecord(rules, ev, item.origin, map[], doc, rest, rule, fuel);
    assert rest <= r.trace[0].pending;
    DrainsCons(record, r.trace);
  }

  /** The first cycle a run records is its own first cycle. */
  lemma RunFirstRecord(rules: seq<Rule>, ev: Evaluator, origin: string, data: map<string, Value>,
                       doc: Doc, queue: seq<QueueItem>, rule: Option<nat>, fuel: nat)
    ensures var c := Cycle(rules, ev, origin, doc, data);
      Run(rules, ev, origin, data, doc, queue, rule, fuel).trace[0] == CycleRecord(origin, data, c.fired, queue + c.queued, doc, c.doc)
  {
    RunTrace(rules, ev, origin, data, doc, queue, rule, fuel);
  }

  /** A cycle whose queue the first cycle of a draining trace pops from
      can be put in front of it. */
  lemma DrainsCons(record: CycleRecord, t: seq<CycleRecord>)
    requires t != [] && Follows(record, t[0]) && DrainsLastInFirstOut(t)
    ensures DrainsLastInFirstOut([record] + t)
  {
    var t' := [record] + t;
    forall j, k | 0 <= j < k < |t'| && k == j + 1 ensures Follows(t'[j], t'[k]) {
      if j > 0 {
        assert t'[j] == t[j - 1] && t'[k] == t[k - 1];
      }
    }
  }

  /** The cycles of `trace` run one after another from `doc` to `final`:
      each starts from the document the previous one left, and a cycle in
      which no rule fires leaves the document as it found it. */
  ghost predicate Chained(trace: seq<CycleRecord>, doc: Doc, final: Doc)
  {
    && trace != []
    && trace[0].before == doc
    && (forall j, k :: 0 <= j < k < |trace| && k == j + 1 ==> trace[j].after == trace[k].before)
    && trace[|trace| - 1].after == final
    && (forall k :: 0 <= k < |trace| && trace[k].fired.None? ==> trace[k].after == trace[k].before)
  }

  /** The cycles a run records lead from the document it started with to
      the one it ends with, with one update per cycle that fires. */
  lemma {:induction false} RunChained(rules: seq<Rule>, ev: Evaluator, origin: string, data: map<string, Value>,
                                      doc: Doc, queue: seq<QueueItem>, rule: Option<nat>, fuel: nat)
    ensures var r := Run(rules, ev, origin, data, doc, queue, rule, fuel);
      Chained(r.trace, doc, r.doc)
    decreases fuel
  {
    var c := Cycle(rules, ev, origin, doc, data);
    var pending := queue + c.queued;
    var rule' := if c.fired.Some? then c.fired else rule;
    var record := CycleRecord(origin, data, c.fired, pending, doc, c.doc);
    var out := Run(rules, ev, origin, data, doc, queue, rule, fuel);
    CycleFiresFirstEligible(rules, ev, origin, doc, data);
    if pending == [] || fuel == 0 {
      assert out.trace == [record] && out.doc == c.doc;
    } else {
      var item := pending[|pending| - 1];
      var r := Run(rules, ev, item.origin, map[], c.doc, pending[..|pending| - 1], rule', fuel - 1);
      RunChained(rules, ev, item.origin, map[], c.doc, pending[..|pending| - 1], rule', fuel - 1);
      ChainedCons(record, r.trace, r.doc);
      assert out.trace == [record] + r.trace && out.doc == r.doc;
    }
  }

  /** A cycle that ends where a chained trace starts can be put in front of it. */
  lemma ChainedCons(record: CycleRecord, t: seq<CycleRecord>, final: Doc)
    requires Chained(t, record.after, final)
    requires record.fired.None? ==> record.after == record.before
    ensures Chained([record] + t, record.before, final)
  {
    var t' := [record] + t;
    forall j, k | 0 <= j < k < |t'| && k == j + 1 ensures t'[j].after == t'[k].before {
      if j > 0 {
        assert t'[j] == t[j - 1] && t'[k] == t[k - 1];
      }
    }
    forall k | 0 <= k < |t'| && t'[k].fired.None? ensures t'[k].after == t'[k].before {
      if k > 0 {
        assert t'[k] == t[k - 1];
      }
    }
  }

  /** The listener invocations of one cycle: those of its single
      `state.update` when a rule fired, none otherwise. */
  function CycleNotices(record: CycleRecord, order: seq<Listener>, watch: map<Listener, seq<string>>,
                        connected: set<nat>): seq<Notification>
    requires forall l :: l in order ==> l in watch
  {
    if record.fired.Some? then
      Notifications(order, watch, ChangeSet(record.before, record.after), connected, record.after)
    else []
  }

  /** A cycle that leaves the document as it found it invokes no listener,
      whether or not a rule fired: its change set is empty. */
  lemma UnchangedCycleNotifiesNobody(record: CycleRecord, order: seq<Listener>, watch: map<Listener, seq<string>>,
                                     connected: set<nat>)
    requires forall l :: l in order ==> l in watch
    requires record.before == record.after
    ensures CycleNotices(record, order, watch, connected) == []
  {
    NoChangeNotifiesNobody(order, watch, connected, record.after);
  }

  /** The invocations of a run's first cycle are those of its update, when
      a rule fired. */
  lemma FirstCycleNotices(rules: seq<Rule>, ev: Evaluator, origin: string, data: map<string, Value>,
                          doc: Doc, queue: seq<QueueItem>, rule: Option<nat>, fuel: nat,
                          order: seq<Listener>, watch: map<Listener, seq<string>>, connected: set<nat>)
    requires forall l :: l in order ==> l in watch
    ensures var c := Cycle(rules, ev, origin, doc, data);
      CycleNotices(Run(rules, ev, origin, data, doc, queue, rule, fuel).trace[0], order, watch, connected)
        == if c.fired.Some? then Notifications(order, watch, ChangeSet(doc, c.doc), connected, c.doc) else []
  {
    RunFirstRecord(rules, ev, origin, data, doc, queue, rule, fuel);
  }

  /** `notices` lists, cycle by cycle, the listener invocations of the
      cycles of `trace`. */
  ghost predicate NoticesOf(notices: seq<seq<Notification>>, trace: seq<CycleRecord>, order: seq<Listener>,
                            watch: map<Listener, seq<string>>, connected: set<nat>)
    requires forall l :: l in order ==> l in watch
  {
    && |notices| == |trace|
    && forall k :: 0 <= k < |trace| ==> notices[k] == CycleNotices(trace[k], order, watch, connected)
  }

  /** One more cycle at the end of a trace, and its invocations at the end
      of the list. */
  lemma NoticesSnoc(notices: seq<seq<Notification>>, trace: seq<CycleRecord>, record: CycleRecord,
                    order: seq<Listener>, watch: map<Listener, seq<string>>, connected: set<nat>)
    requires forall l :: l in order ==> l in watch
    requires NoticesOf(notices, trace, order, watch, connected)
    ensures NoticesOf(notices + [CycleNotices(record, order, watch, connected)], trace + [record], order, watch, connected)
  {
  }

  /** Moving the first cycle of what is left of a trace to the cycles done. */
  lemma TraceAdvance(trace: seq<CycleRecord>, done: seq<CycleRecord>, left: seq<CycleRecord>, rest: seq<CycleRecord>)
    requires left != [] && trace == done + left && left == [left[0]] + rest
    ensures trace == (done + [left[0]]) + rest
  {
  }

  /** `r` is what `last.rule` holds after the cycles of `trace`, starting
      from `initial`: the rule fired by the last cycle that fired one, or
      `initial` when no cycle fired. */
  ghost predicate LastFired(trace: seq<CycleRecord>, initial: Option<nat>, r: Option<nat>)
  {
    || (r == initial && forall k :: 0 <= k < |trace| ==> trace[k].fired.None?)
    || (exists k :: 0 <= k < |trace| && trace[k].fired.Some? && r == trace[k].fired
         && forall j :: k < j < |trace| ==> trace[j].fired.None?)
  }

  /** One more cycle in front of a trace. */
  lemma LastFiredCons(record: CycleRecord, t: seq<CycleRecord>, initial: Option<nat>, r: Option<nat>)
    requires LastFired(t, if record.fired.Some? then record.fired else initial, r)
    ensures LastFired([record] + t, initial, r)
  {
    var t' := [record] + t;
    var rule' := if record.fired.Some? then record.fired else initial;
    if r == rule' && forall k :: 0 <= k < |t| ==> t[k].fired.None? {
      forall j | 0 < j < |t'| ensures t'[j].fired.None? { assert t'[j] == t[j - 1]; }
      if record.fired.Some? {
        assert t'[0].fired.Some? && r == t'[0].fired;
      } else {
        assert t'[0].fired.None?;
      }
    } else {
      var k :| 0 <= k < |t| && t[k].fired.Some? && r == t[k].fired
        && forall j :: k < j < |t| ==> t[j].fired.None?;
      assert t'[k + 1] == t[k];
      forall j | k + 1 < j < |t'| ensures t'[j].fired.None? { assert t'[j] == t[j - 1]; }
    }
  }

  /** `last.rule` ends as the rule of the last cycle that fired one, or stays
      as it was when none did. */
  lemma RunLastFired(rules: seq<Rule>, ev: Evaluator, origin: string, data: map<string, Value>,
                     doc: Doc, queue: seq<QueueItem>, rule: Option<nat>, fuel: nat)
    ensures LastFired(Run(rules, ev, origin, data, doc, queue, rule, fuel).trace, rule,
                      Run(rules, ev, origin, data, doc, queue, rule, fuel).rule)
  {
    var out := Run(rules, ev, origin, data, doc, queue, rule, fuel);
    RunReportsLastRule(rules, ev, origin, data, doc, queue, rule, fuel);
    LastRuleIsLatestFired(out.trace, rule);
  }

  /** The rule `last.rule` holds after the cycles of `trace`, one cycle at a
      time, starting from `initial`. */
  function LastRule(trace: seq<CycleRecord>, initial: Option<nat>): Option<nat>
    decreases |trace|
  {
    if trace == [] then initial
    else LastRule(trace[1..], if trace[0].fired.Some? then trace[0].fired else initial)
  }

  /** A run reports the rule its cycles leave in `last.rule`. */
  lemma {:induction false} RunReportsLastRule(rules: seq<Rule>, ev: Evaluator, origin: string, data: map<string, Value>,
                                              doc: Doc, queue: seq<QueueItem>, rule: Option<nat>, fuel: nat)
    ensures Run(rules, ev, origin, data, doc, queue, rule, fuel).rule
      == LastRule(Run(rules, ev, origin, data, doc, queue, rule, fuel).trace, rule)
    decreases fuel, 0
  {
    var c := Cycle(rules, ev, origin, doc, data);
    var pending := queue + c.queued;
    var rule' := if c.fired.Some? then c.fired else rule;
    var record := CycleRecord(origin, data, c.fired, pending, doc, c.doc);
    RunTrace(rules, ev, origin, data, doc, queue, rule, fuel);
    if pending == [] || fuel == 0 {
      LastRuleCons(record, [], rule);
      assert [record] + [] == [record];
    } else {
      LastRuleAfter(rules, ev, record, rule, c.doc, rule', fuel - 1);
    }
  }

  /** The run that pops the top of a cycle's queue reports the rule its
      cycles leave, with that cycle in front. */
  lemma {:induction false} LastRuleAfter(rules: seq<Rule>, ev: Evaluator, record: CycleRecord, initial: Option<nat>,
                                         doc: Doc, rule: Option<nat>, fuel: nat)
    requires record.pending != []
    requires rule == if record.fired.Some? then record.fired else initial
    ensures var item := record.pending[|record.pending| - 1];
      var r := Run(rules, ev, item.origin, map[], doc, record.pending[..|record.pending| - 1], rule, fuel);
      r.rule == LastRule([record] + r.trace, initial)
    decreases fuel, 1
  {
    var item := record.pending[|record.pending| - 1];
    var rest := record.pending[..|record.pending| - 1];
    RunReportsLastRule(rules, ev, item.origin, map[], doc, rest, rule, fuel);
    var r := Run(rules, ev, item.origin, map[], doc, rest, rule, fuel);
    LastRuleCons(record, r.trace, initial);
  }

  /** One more cycle in front of a trace. */
  lemma LastRuleCons(record: CycleRecord, t: seq<CycleRecord>, initial: Option<nat>)
    ensures LastRule([record] + t, initial) == LastRule(t, if record.fired.Some? then record.fired else initial)
  {
    assert ([record] + t)[1..] == t;
  }

  /** `LastRule` is the rule of the latest cycle that fired one, or the
      initial rule when none did. */
  lemma {:induction false} LastRuleIsLatestFired(trace: seq<CycleRecord>, initial: Option<nat>)
    ensures LastFired(trace, initial, LastRule(trace, initial))
    decreases |trace|
  {
    if trace != [] {
      var initial' := if trace[0].fired.Some? then trace[0].fired else initial;
      LastRuleIsLatestFired(trace[1..], initial');
      assert trace == [trace[0]] + trace[1..];
      LastFiredCons(trace[0], trace[1..], initial, LastRule(trace, initial));
    }
  }

  /** The cycles a run records and the last rule it reports, one cycle at a time. */
  lemma RunTrace(rules: seq<Rule>, ev: Evaluator, origin: string, data: map<string, Value>,
                 doc: Doc, queue: seq<QueueItem>, rule: Option<nat>, fuel: nat)
    ensures var c := Cycle(rules, ev, origin, doc, data);
      var pending := queue + c.queued;
      var rule' := if c.fired.Some? then c.fired else rule;
      var record := CycleRecord(origin, data, c.fired, pending, doc, c.doc);
      var out := Run(rules, ev, origin, data, doc, queue, rule, fuel);
      && (pending == [] || fuel == 0 ==> out.trace == [record] && out.rule == rule')
      && (pending != [] && fuel > 0 ==>
            var r := Run(rules, ev, pending[|pending| - 1].origin, map[], c.doc, pending[..|pending| - 1], rule', fuel - 1);
            out.trace == [record] + r.trace && out.rule == r.rule)
  {
    var c := Cycle(rules, ev, origin, doc, data);
    var pending := queue + c.queued;
    var rule' := if c.fired.Some? then c.fired else rule;
    var out := Run(rules, ev, origin, data, doc, queue, rule, fuel);
    if pending != [] && fuel > 0 {
      var r := Run(rules, ev, pending[|pending| - 1].origin, map[], c.doc, pending[..|pending| - 1], rule', fuel - 1);
      assert out == r.(trace := [CycleRecord(origin, data, c.fired, pending, doc, c.doc)] + r.trace);
    }
  }

  /** How a run continues after its first cycle. */
  lemma RunStep(rules: seq<Rule>, ev: Evaluator, origin: string, data: map<string, Value>,
                doc: Doc, queue: seq<QueueItem>, rule: Option<nat>, fuel: nat)
    ensures var c := Cycle(rules, ev, origin, doc, data);
      var pending := queue + c.queued;
      var rule' := if c.fired.Some? then c.fired else rule;
      var r := Run(rules, ev, origin, data, doc, queue, rule, fuel);
      && (pending == [] ==> r.doc == c.doc && r.queue == [] && r.rule == rule' && !r.exhausted)
      && (pending != [] && fuel == 0 ==> r.doc == c.doc && r.queue == pending && r.rule == rule' && r.exhausted)
      && (pending == [] || fuel == 0 ==> r.trace == [r.trace[0]])
      && (pending != [] && fuel > 0 ==>
            var n := Run(rules, ev, pending[|pending| - 1].origin, map[], c.doc, pending[..|pending| - 1], rule', fuel - 1);
            SameEnd(r, n) && r.trace == [r.trace[0]] + n.trace)
  {
    var c := Cycle(rules, ev, origin, doc, data);
    var pending := queue + c.queued;
    var rule' := if c.fired.Some? then c.fired else rule;
    var r := Run(rules, ev, origin, data, doc, queue, rule, fuel);
    if pending != [] && fuel > 0 {
      var next := Run(rules, ev, pending[|pending| - 1].origin, map[], c.doc, pending[..|pending| - 1], rule', fuel - 1);
      assert r == next.(trace := [CycleRecord(origin, data, c.fired, pending, doc, c.doc)] + next.trace);
    }
  }

  /** One pass of the `applyRules` loop, on values: if the cycles done so
      far and the run still to go make up the whole run, and the pass made
      the run's first cycle, then the run either ends here or continues
      from the popped event, and the invocations of that cycle join the
      list. */
  lemma ApplyStep(rules: seq<Rule>, ev: Evaluator, origin: string, data: map<string, Value>,
                  doc: Doc, queue: seq<QueueItem>, rule: Option<nat>, left: nat,
                  goal: Outcome, cycles: seq<CycleRecord>, notices: seq<seq<Notification>>,
                  order: seq<Listener>, watch: map<Listener, seq<string>>, connected: set<nat>,
                  done: bool, notified: seq<Notification>, item: QueueItem,
                  doc': Doc, queue': seq<QueueItem>, rule': Option<nat>, left': nat)
    returns (next: Outcome)
    requires forall l :: l in order ==> l in watch
    requires !done ==> left == left' + 1
    requires var cur := Run(rules, ev, origin, data, doc, queue, rule, left);
      SameEnd(cur, goal) && goal.trace == cycles + cur.trace && NoticesOf(notices, cycles, order, watch, connected)
    requires var c := Cycle(rules, ev, origin, doc, data);
      var pending := queue + c.queued;
      && doc' == c.doc
      && rule' == (if c.fired.Some? then c.fired else rule)
      && done == (pending == [] || left == 0)
      && (done ==> queue' == pending)
      && (!done ==> item == pending[|pending| - 1] && queue' == pending[..|pending| - 1])
      && notified == if c.fired.Some? then Notifications(order, watch, ChangeSet(doc, doc'), connected, doc') else []
    ensures var cur := Run(rules, ev, origin, data, doc, queue, rule, left);
      NoticesOf(notices + [notified], cycles + [cur.trace[0]], order, watch, connected)
    ensures var cur := Run(rules, ev, origin, data, doc, queue, rule, left);
      done ==> (doc' == goal.doc && queue' == goal.queue && rule' == goal.rule
                && (queue' != [] <==> goal.exhausted) && goal.trace == cycles + [cur.trace[0]])
    ensures var cur := Run(rules, ev, origin, data, doc, queue, rule, left);
      !done ==> (next == Run(rules, ev, item.origin, map[], doc', queue', rule', left')
                 && SameEnd(next, goal) && goal.trace == (cycles + [cur.trace[0]]) + next.trace)
  {
    var cur := Run(rules, ev, origin, data, doc, queue, rule, left);
    RunStep(rules, ev, origin, data, doc, queue, rule, left);
    FirstCycleNotices(rules, ev, origin, data, doc, queue, rule, left, order, watch, connected);
    NoticesSnoc(notices, cycles, cur.trace[0], order, watch, connected);
    next := cur;
    if done {
      TraceAdvance(goal.trace, cycles, cur.trace, []);
    } else {
      next := Run(rules, ev, item.origin, map[], doc', queue', rule', left');
      TraceAdvance(goal.trace, cycles, cur.trace, next.trace);
    }
  }

  /** Two outcomes agree on everything but the cycles recorded. */
  predicate SameEnd(a: Outcome, b: Outcome)
  {
    a.doc == b.doc && a.queue == b.queue && a.rule == b.rule && a.exhausted == b.exhausted
  }

  /** What `applyRules` resets `last` to and then updates. */
  datatype Last = Last(origin: string, event: string, data: map<string, Value>, rule: Option<nat>)

  /** The `Actions` component: its rules, `last` and `eventQueue`. */
  class Actions {
    var rules: seq<Rule>
    var last: Last
    var eventQueue: seq<QueueItem>

    constructor (rules: seq<Rule>)
      ensures this.rules == rules && eventQueue == [] && last == Last("", "", map[], None)
    {
      this.rules := rules;
      last := Last("", "", map[], None);
      eventQueue := [];
    }

    /** `queueEvent(origin, event)`: push onto the queue. */
    method QueueEvent(origin: string, event: string)
      modifies this
      ensures eventQueue == old(eventQueue) + [QueueItem(origin, event)]
      ensures rules == old(rules) && last == old(last)
    {
      eventQueue := eventQueue + [QueueItem(origin, event)];
    }

    /** The rule loop of one cycle: skip rules whose origin does not match,
        evaluate the conditions of the others, stop at the first that holds. */
    method ScanRules(origin: string, ev: Evaluator, doc: Doc, data: map<string, Value>) returns (s: Scan)
      ensures s == ScanFrom(rules, 0, origin, ev, doc, data)
    {
      var queued: seq<QueueItem> := [];
      var i := 0;
      while i < |rules|
        invariant 0 <= i <= |rules|
        invariant ScanFrom(rules, 0, origin, ev, doc, data)
          == var rest := ScanFrom(rules, i, origin, ev, doc, data); Scan(rest.fired, queued + rest.queued)
      {
        if !OriginMatches(rules[i].origin, origin) {
          assert ScanFrom(rules, i, origin, ev, doc, data) == ScanFrom(rules, i + 1, origin, ev, doc, data);
          i := i + 1;
          continue;
        }
        var c := CheckConditions(Conditions(rules[i].children), ev, doc, data);
        if c.holds {
          return Scan(Some(i), queued + c.queued);
        }
        ghost var rest := ScanFrom(rules, i + 1, origin, ev, doc, data);
        assert ScanFrom(rules, i, origin, ev, doc, data) == Scan(rest.fired, c.queued + rest.queued);
        assert queued + (c.queued + rest.queued) == (queued + c.queued) + rest.queued;
        queued := queued + c.queued;
        i := i + 1;
      }
      s := Scan(None, queued);
    }

    /** One turn of the `while (true)` body: scan the rules, then, when a
        rule fires, record it in `last`, evaluate its updates and hand the
        patch to `state.update`. */
    method RunCycle(origin: string, data: map<string, Value>, store: StateStore, ev: Evaluator, connected: set<nat>)
      returns (notified: seq<Notification>)
      requires store.Valid()
      modifies this, store
      ensures store.Valid() && store.order == old(store.order) && store.watch == old(store.watch)
      ensures rules == old(rules)
      ensures var c := Cycle(rules, ev, origin, old(store.doc), data);
        && store.doc == c.doc
        && eventQueue == old(eventQueue) + c.queued
        && last == if c.fired.Some? then old(last).(rule := c.fired) else old(last)
      ensures notified == if Cycle(rules, ev, origin, old(store.doc), data).fired.Some?
        then Notifications(store.order, store.watch, ChangeSet(old(store.doc), store.doc), connected, store.doc)
        else []
    {
      notified := [];
      ghost var c := Cycle(rules, ev, origin, store.doc, data);
      var s := ScanRules(origin, ev, store.doc, data);
      eventQueue := eventQueue + s.queued;
      if s.fired.Some? {
        var rule := rules[s.fired.value];
        last := last.(rule := s.fired);
        var updates := Updates(rule.children);
        var patch := RulePatch(rule, ev, store.doc, data);
        eventQueue := eventQueue + UpdatesQueued(updates, ev, store.doc, data);
        assert c.doc == Merge(store.doc, patch) && eventQueue == old(eventQueue) + c.queued;
        var _, n := store.Update(patch, connected);
        notified := n;
      }
    }

    /** `applyRules(origin, event, data)`: reset `last`, then run cycles until
        the queue is empty (or the fuel is spent), popping the newest event
        for each follow-up cycle. Items the evaluator queues are pushed onto
        `eventQueue` as `queueEvent` would. */
    method ApplyRules(origin: string, event: string, data: map<string, Value>,
                      store: StateStore, ev: Evaluator, connected: set<nat>, fuel: nat)
      returns (exhausted: bool, notices: seq<seq<Notification>>)
      requires store.Valid()
      modifies this, store
      ensures store.Valid() && store.order == old(store.order) && store.watch == old(store.watch)
      ensures rules == old(rules)
      ensures var out := Run(rules, ev, origin, data, old(store.doc), old(eventQueue), None, fuel);
        && store.doc == out.doc
        && eventQueue == out.queue
        && exhausted == out.exhausted
        && last == Last(origin, event, data, out.rule)
      ensures !exhausted ==> eventQueue == []
      ensures NoticesOf(notices, Run(rules, ev, origin, data, old(store.doc), old(eventQueue), None, fuel).trace,
                        store.order, store.watch, connected)
    {
      last := Last(origin, event, data, None);
      ghost var goal := Run(rules, ev, origin, data, store.doc, eventQueue, None, fuel);
      ghost var order, watch := store.order, store.watch;
      ghost var cycles: seq<CycleRecord> := [];
      ghost var cur := goal;
      notices := [];
      var o := origin;
      var d := data;
      var left := fuel;
      while true
        invariant store.Valid() && store.order == order && store.watch == watch
        invariant rules == old(rules)
        invariant last.origin == origin && last.event == event && last.data == data
        invariant cur == Run(rules, ev, o, d, store.doc, eventQueue, last.rule, left)
        invariant SameEnd(cur, goal) && goal.trace == cycles + cur.trace
        invariant NoticesOf(notices, cycles, order, watch, connected)
        decreases left
      {
        ghost var doc0, q0, rule0 := store.doc, eventQueue, last.rule;
        var done, ex, item, notified := Turn(o, d, store, ev, connected, left);
        var left' := if done then 0 else left - 1;
        ghost var next := ApplyStep(rules, ev, o, d, doc0, q0, rule0, left, goal, cycles, notices, order, watch, connected,
                                    done, notified, item, store.doc, eventQueue, last.rule, left');
        cycles := cycles + [cur.trace[0]];
        notices := notices + [notified];
        if done {
          return ex, notices;
        }
        o := item.origin;
        d := map[];
        left := left';
        cur := next;
      }
    }

    /** One pass of the `while (true)` body: a cycle, then either the end of
        the loop or the newest queued event popped for the next pass. */
    method Turn(origin: string, data: map<string, Value>, store: StateStore, ev: Evaluator,
                connected: set<nat>, left: nat)
      returns (done: bool, exhausted: bool, next: QueueItem, notified: seq<Notification>)
      requires store.Valid()
      modifies this, store
      ensures store.Valid() && store.order == old(store.order) && store.watch == old(store.watch)
      ensures rules == old(rules)
      ensures last.origin == old(last.origin) && last.event == old(last.event) && last.data == old(last.data)
      ensures var c := Cycle(rules, ev, origin, old(store.doc), data);
        var pending := old(eventQueue) + c.queued;
        && store.doc == c.doc
        && last.rule == (if c.fired.Some? then c.fired else old(last.rule))
        && done == (pending == [] || left == 0)
        && exhausted == (pending != [] && left == 0)
        && (done ==> eventQueue == pending)
        && (!done ==> next == pending[|pending| - 1] && eventQueue == pending[..|pending| - 1])
        && notified == if c.fired.Some? then Notifications(store.order, store.watch, ChangeSet(old(store.doc), store.doc), connected, store.doc) else []
    {
      notified := RunCycle(origin, data, store, ev, connected);
      next := QueueItem("", "");
      if eventQueue == [] {
        return true, false, next, notified;
      }
      if left == 0 {
        return true, true, next, notified;
      }
      next := eventQueue[|eventQueue| - 1];
      eventQueue := eventQueue[..|eventQueue| - 1];
      done, exhausted := false, false;
    }
  }
}
