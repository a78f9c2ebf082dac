/** The logger of components/logger.js: the validators of its two text
    properties, the record its template logs, the fields `handleEvent` keeps
    from a DOM event, and the set of event names it listens for. */
module Logger {
  import opened Values
  import opened Text
  import opened Document

  // Validators

  /** The message a validator returns for a rejected input. */
  const Invalid := "Invalid input"

  /** `[#$]`: the sigil of a field or state name. */
  predicate IsSigil(c: char)
  {
    c == '#' || c == '$'
  }

  /** One repetition of `[#$]\w+\s*`: a sigil, then word characters, at least
      one, then nothing but white space once the first white space appears. */
  predicate FieldItem(t: string)
  {
    && |t| >= 2 && IsSigil(t[0]) && IsWordChar(t[1])
    && (forall k :: 1 <= k < |t| ==> IsWordChar(t[k]) || IsSpace(t[k]))
    && (forall k :: 1 <= k < |t| - 1 ==> IsSpace(t[k]) ==> IsSpace(t[k + 1]))
  }

  /** The language of `^(?:[#$]\w+\s*)*$`: the input splits into items. */
  ghost predicate FieldList(s: string)
  {
    exists items: seq<string> :: Concat(items) == s && forall k :: 0 <= k < |items| ==> FieldItem(items[k])
  }

  /** The regular expression's match, one item at a time; each part of an
      item is taken as long as possible, since `[#$]`, `\w` and `\s` are
      disjoint classes. */
  function MatchesFields(s: string): bool
    decreases |s|
  {
    if s == [] then true
    else if |s| > 1 && IsSigil(s[0]) && IsWordChar(s[1]) then
      var j := RunEnd(s, 1, IsWordChar);
      var k := RunEnd(s, j, IsSpace);
      MatchesFields(s[k..])
    else false
  }

  /** `validate(s)`. */
  function Validate(s: string): (r: string)
    ensures r == "" || r == Invalid
  {
    if MatchesFields(s) then "" else Invalid
  }

  /** The language of `^(?:\w+\s*)*$`: empty, or a word character followed
      by word and white-space characters only. */
  predicate WordList(s: string)
  {
    s == [] || (IsWordChar(s[0]) && forall k :: 0 <= k < |s| ==> IsWordChar(s[k]) || IsSpace(s[k]))
  }

  /** The match of `^(?:\w+\s*)*$`, one word and its trailing white space at
      a time. */
  function MatchesWords(s: string): bool
    decreases |s|
  {
    if s == [] then true
    else if IsWordChar(s[0]) then
      var j := RunEnd(s, 0, IsWordChar);
      var k := RunEnd(s, j, IsSpace);
      MatchesWords(s[k..])
    else false
  }

  /** `validateEventNames(s)`. */
  function ValidateEventNames(s: string): (r: string)
    ensures r == "" || r == Invalid
  {
    if MatchesWords(s) then "" else Invalid
  }

  /** The item the match takes first is a `FieldItem`. */
  lemma FirstItem(s: string)
    requires |s| > 1 && IsSigil(s[0]) && IsWordChar(s[1])
    ensures var k := RunEnd(s, RunEnd(s, 1, IsWordChar), IsSpace); 2 <= k && FieldItem(s[..k])
  {
    var j := RunEnd(s, 1, IsWordChar);
    var k := RunEnd(s, j, IsSpace);
    var t := s[..k];
    assert forall m :: 1 <= m < j ==> !IsSpace(t[m]);
  }

  /** What the match accepts splits into items. */
  lemma {:induction false} MatchesFieldsSound(s: string)
    requires MatchesFields(s)
    ensures FieldList(s)
    decreases |s|
  {
    if s == [] {
      assert Concat([]) == s;
    } else {
      var j := RunEnd(s, 1, IsWordChar);
      var k := RunEnd(s, j, IsSpace);
      MatchesFieldsSound(s[k..]);
      FirstItem(s);
      ConsFieldList(s, k);
    }
  }

  /** A field item in front of a list of items is a list of items. */
  lemma ConsFieldList(s: string, k: nat)
    requires k <= |s| && FieldItem(s[..k]) && FieldList(s[k..])
    ensures FieldList(s)
  {
    var head, tail := s[..k], s[k..];
    var rest: seq<string> :| Concat(rest) == tail && forall m :: 0 <= m < |rest| ==> FieldItem(rest[m]);
    var items := [head] + rest;
    assert Concat(items) == s by {
      assert items[0] == head && items[1..] == rest;
      assert head + tail == s;
    }
    forall m | 0 <= m < |items| ensures FieldItem(items[m]) {
      if m > 0 { assert items[m] == rest[m - 1]; }
    }
  }

  /** Where a field item is followed by the empty string or by another item,
      the match takes exactly that item first. */
  lemma FirstItemIs(t: string, rest: string)
    requires FieldItem(t)
    requires rest == [] || IsSigil(rest[0])
    ensures var s := t + rest;
      |s| > 1 && IsSigil(s[0]) && IsWordChar(s[1])
      && RunEnd(s, RunEnd(s, 1, IsWordChar), IsSpace) == |t|
  {
    var s := t + rest;
    var m := RunEnd(t, 1, IsWordChar);
    forall k | 1 <= k < m ensures IsWordChar(s[k]) { assert s[k] == t[k]; }
    if m < |t| {
      assert !IsWordChar(s[m]);
      RunEndIs(s, 1, m, IsWordChar);
      forall k | m <= k < |t| ensures IsSpace(t[k]) {
        SpacesStay(t, m, k);
      }
      forall k | m <= k < |t| ensures IsSpace(s[k]) { assert s[k] == t[k]; }
      RunEndIs(s, m, |t|, IsSpace);
    } else {
      RunEndIs(s, 1, m, IsWordChar);
      RunEndIs(s, m, |t|, IsSpace);
    }
  }

  /** In a field item, white space lasts to the end. */
  lemma {:induction false} SpacesStay(t: string, m: nat, k: nat)
    requires FieldItem(t) && 1 <= m <= k < |t| && IsSpace(t[m])
    ensures IsSpace(t[k])
    decreases k - m
  {
    if m < k {
      SpacesStay(t, m + 1, k);
    }
  }

  /** Whatever splits into items is accepted. */
  lemma {:induction false} MatchesFieldsComplete(items: seq<string>)
    requires forall k :: 0 <= k < |items| ==> FieldItem(items[k])
    ensures MatchesFields(Concat(items))
    decreases |items|
  {
    if items != [] {
      var rest := Concat(items[1..]);
      MatchesFieldsComplete(items[1..]);
      if items[1..] != [] {
        assert rest == items[1..][0] + Concat(items[1..][1..]);
      }
      FirstItemIs(items[0], rest);
      var s := items[0] + rest;
      assert s[|items[0]|..] == rest;
    }
  }

  /** `validate` accepts exactly the inputs made of `[#$]\w+\s*` items, the
      empty input included, and rejects every other with "Invalid input". */
  lemma ValidateIff(s: string)
    ensures Validate(s) == "" <==> FieldList(s)
    ensures Validate(s) != "" ==> Validate(s) == Invalid
  {
    if MatchesFields(s) {
      MatchesFieldsSound(s);
    } else if FieldList(s) {
      var items :| Concat(items) == s && forall k :: 0 <= k < |items| ==> FieldItem(items[k]);
      MatchesFieldsComplete(items);
    }
  }

  /** `validateEventNames` accepts exactly the empty input and the inputs
      that start with a word character and hold only word characters and
      white space. */
  lemma {:induction false} ValidateEventNamesIff(s: string)
    ensures ValidateEventNames(s) == "" <==> WordList(s)
    ensures ValidateEventNames(s) != "" ==> ValidateEventNames(s) == Invalid
    decreases |s|
  {
    if s != [] && IsWordChar(s[0]) {
      var j := RunEnd(s, 0, IsWordChar);
      var k := RunEnd(s, j, IsSpace);
      ValidateEventNamesIff(s[k..]);
      assert forall m :: 0 <= m < k ==> IsWordChar(s[m]) || IsSpace(s[m]);
      if WordList(s[k..]) {
        forall m | 0 <= m < |s| ensures IsWordChar(s[m]) || IsSpace(s[m]) {
          if m >= k { assert s[m] == s[k..][m - k]; }
        }
      }
      if WordList(s) && k < |s| {
        assert s[k..][0] == s[k];
      }
    }
  }

  // The record the template logs

  /** Whether the template logs: the state named by `stateName` is truthy,
      `logUntil` is set, and the current time is before it (`beforeUntil`,
      since the clock is not part of the model). */
  predicate Logging(doc: Doc, stateName: string, logUntil: string, beforeUntil: bool)
  {
    Truthy(Document.Get(doc, stateName, Null)) && logUntil != "" && beforeUntil
  }

  /** The loop of `template` that fills `record`: each name whose value,
      looked up by `getValue` (`access(state, actions.last.data)`), is
      truthy. */
  method BuildRecord(names: seq<string>, getValue: string -> Value) returns (record: map<string, Value>)
    ensures forall n :: n in record <==> n in names && Truthy(getValue(n))
    ensures forall n :: n in record ==> record[n] == getValue(n)
  {
    record := map[];
    var i := 0;
    while i < |names|
      invariant 0 <= i <= |names|
      invariant forall n :: n in record <==> n in names[..i] && Truthy(getValue(n))
      invariant forall n :: n in record ==> record[n] == getValue(n)
    {
      var value := getValue(names[i]);
      if Truthy(value) {
        record := record[names[i] := value];
      }
      assert names[..i + 1] == names[..i] + [names[i]];
      i := i + 1;
    }
    assert names[..|names|] == names;
  }

  /** `template`'s logging step: when logging, the record of the names in
      `logThese` (split at white space) whose values are truthy; otherwise
      nothing is logged. Writing the record is not part of the model. */
  method TemplateRecord(doc: Doc, stateName: string, logUntil: string, beforeUntil: bool,
                        logThese: string, getValue: string -> Value)
    returns (logged: Option<map<string, Value>>)
    ensures logged.Some? <==> Logging(doc, stateName, logUntil, beforeUntil)
    ensures logged.Some? ==> forall n :: n in logged.value <==> n in SplitSpaces(logThese) && Truthy(getValue(n))
    ensures logged.Some? ==> forall n :: n in logged.value ==> Truthy(logged.value[n]) && logged.value[n] == getValue(n)
  {
    var logging := Truthy(Document.Get(doc, stateName, Null)) && logUntil != "" && beforeUntil;
    if logging {
      var record := BuildRecord(SplitSpaces(logThese), getValue);
      logged := Some(record);
    } else {
      logged := None;
    }
  }

  // Event fields

  /** Fields of an event that are never logged. */
  const PropsToExclude: set<string> := {"isTrusted", "bubbles", "cancelBubble", "cancelable",
    "defaultPrevented", "eventPhase", "returnValue", "timeStamp"}

  /** `/^[A-Z_]+$/`: a constant-style name. */
  predicate UpperName(name: string)
  {
    |name| > 0 && forall k :: 0 <= k < |name| ==> ('A' <= name[k] <= 'Z') || name[k] == '_'
  }

  /** `typeof value` is "boolean", "number" or "string". */
  predicate SimpleType(v: Value)
  {
    v.Bool? || v.Num? || v.Str?
  }

  /** `handleEvent(e)`: the fields of the event, as a map from name to
      value, that are logged: not constant-style, not excluded, and of a
      simple type, each with its own value. */
  method HandleEvent(e: map<string, Value>) returns (record: map<string, Value>)
    ensures forall p :: p in record <==> p in e && !UpperName(p) && p !in PropsToExclude && SimpleType(e[p])
    ensures forall p :: p in record ==> record[p] == e[p]
  {
    record := map[];
    var todo := e.Keys;
    while todo != {}
      invariant todo <= e.Keys
      invariant forall p :: p in record <==> p in e && p !in todo && !UpperName(p) && p !in PropsToExclude && SimpleType(e[p])
      invariant forall p :: p in record ==> record[p] == e[p]
      decreases todo
    {
      var prop :| prop in todo;
      todo := todo - {prop};
      if UpperName(prop) {
        continue;
      }
      var value := e[prop];
      if prop in PropsToExclude {
        continue;
      }
      if !SimpleType(value) {
        continue;
      }
      record := record[prop := value];
    }
  }

  // Event listeners

  /** The listener bookkeeping of a `Logger`: `listeners`, the event names
      it has registered, and the names under which the page's `UI` element
      calls it back. */
  class Logger {
    var logTheseEvents: string
    var listeners: set<string>
    var registered: set<string>

    constructor (logTheseEvents: string)
      ensures this.logTheseEvents == logTheseEvents && listeners == {} && registered == {}
    {
      this.logTheseEvents := logTheseEvents;
      listeners := {};
      registered := {};
    }

    /** `onUpdate()`: without a `UI` element nothing happens; otherwise
        every listener it had is removed and cleared, then one is added for
        each `\w+` token of `logTheseEvents`. */
    method OnUpdate(uiPresent: bool)
      modifies this
      ensures logTheseEvents == old(logTheseEvents)
      ensures !uiPresent ==> listeners == old(listeners) && registered == old(registered)
      ensures uiPresent ==> listeners == set t | t in WordTokens(logTheseEvents)
      ensures uiPresent ==> registered == (old(registered) - old(listeners)) + listeners
      ensures uiPresent ==> listeners <= registered
    {
      if !uiPresent {
        return;
      }
      var todo := listeners;
      while todo != {}
        invariant todo <= old(listeners)
        invariant listeners == old(listeners) && logTheseEvents == old(logTheseEvents)
        invariant registered == old(registered) - (old(listeners) - todo)
        decreases todo
      {
        var eventName :| eventName in todo;
        registered := registered - {eventName};
        todo := todo - {eventName};
      }
      listeners := {};
      var tokens := WordTokens(logTheseEvents);
      var i := 0;
      while i < |tokens|
        invariant 0 <= i <= |tokens|
        invariant logTheseEvents == old(logTheseEvents)
        invariant listeners == set t | t in tokens[..i]
        invariant registered == (old(registered) - old(listeners)) + listeners
      {
        registered := registered + {tokens[i]};
        listeners := listeners + {tokens[i]};
        assert tokens[..i + 1] == tokens[..i] + [tokens[i]];
        i := i + 1;
      }
      assert tokens[..|tokens|] == tokens;
    }
  }

  /** After `onUpdate` with the `UI` element present, the listeners are
      exactly the maximal runs of word characters in `logTheseEvents`. */
  lemma OnUpdateListeners(s: string, t: string)
    ensures t in (set x | x in WordTokens(s)) <==> exists i, j :: 0 <= i && MaximalRun(s, i, j, IsWordChar) && t == s[i..j]
  {
    WordTokensFromAreRuns(s, 0, t);
  }
}
