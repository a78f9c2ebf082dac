/** The state document (state.js): a flat map from top-level state names to
    values, the dotted-path lookup `state(name, defaultValue)`, the
    top-level merge the store performs with `mergerino`, and the change set
    `state.update` computes from the documents before and after a merge. */
module Document {
  import opened Values
  import opened Text

  type Doc = map<string, Value>

  /** `doc[k]`: undefined for a missing key. */
  function Lookup(doc: Doc, k: string): Value
  {
    if k in doc then doc[k] else Undefined
  }

  /** A canonical array index: decimal digits without a leading zero. */
  predicate IsIndexName(p: string)
  {
    p != [] && (forall k :: 0 <= k < |p| ==> IsDigit(p[k])) && (|p| == 1 || p[0] != '0')
  }

  /** `o[p]` for the values the store holds: the own field of a plain
      object; a string's `length` and its characters by index; nothing
      else. */
  function Field(o: Value, p: string): (r: Value)
    ensures o.Str? && p == "length" ==> r == Num(|o.s|)
    ensures o.Str? && IsIndexName(p) && DigitsValue(p) < |o.s| ==> r == Str([o.s[DigitsValue(p)]])
    ensures o.Str? && p != "length" && !(IsIndexName(p) && DigitsValue(p) < |o.s|) ==> r == Undefined
  {
    match o
    case Obj(fields) => Lookup(fields, p)
    case Str(s) =>
      if p == "length" then Num(|s|)
      else if IsIndexName(p) && DigitsValue(p) < |s| then Str([s[DigitsValue(p)]])
      else Undefined
    case _ => Undefined
  }

  /** One step of the reducer `(o, p) => (o ? o[p] : defaultValue)`. */
  function Step(o: Value, p: string, default: Value): Value
  {
    if Truthy(o) then Field(o, p) else default
  }

  /** `segments.reduce(Step, o)`. */
  function Walk(o: Value, segments: seq<string>, default: Value): Value
    decreases |segments|
  {
    if segments == [] then o else Walk(Step(o, segments[0], default), segments[1..], default)
  }

  /** `state(name, defaultValue)`: a non-empty name is split at its dots and
      walked from the document; no name gives a shallow copy of the whole
      document. */
  function Get(doc: Doc, name: string, default: Value): Value
  {
    if name != "" then Walk(Obj(doc), Split(name, '.'), default) else Obj(doc)
  }

  /** The value a path reaches when every value it passes through on the way
      is truthy; None when some intermediate value is falsy. */
  function Resolve(o: Value, segments: seq<string>): Option<Value>
    decreases |segments|
  {
    if segments == [] then Some(o)
    else if Truthy(o) then Resolve(Field(o, segments[0]), segments[1..])
    else None
  }

  /** A path that resolves ends at its value whatever the default is. */
  lemma {:induction false} WalkResolved(o: Value, segments: seq<string>, default: Value)
    requires Resolve(o, segments).Some?
    ensures Walk(o, segments, default) == Resolve(o, segments).value
    decreases |segments|
  {
    if segments != [] {
      WalkResolved(Field(o, segments[0]), segments[1..], default);
    }
  }

  /** The index of the segment at which a failing path meets its first
      falsy value. */
  function FalsyAt(o: Value, segments: seq<string>): (k: nat)
    requires Resolve(o, segments).None?
    ensures k < |segments|
    decreases |segments|
  {
    if Truthy(o) then 1 + FalsyAt(Field(o, segments[0]), segments[1..]) else 0
  }

  /** When some intermediate value is falsy, the walk restarts from the
      default just after that point; so the default itself is the answer
      when that happens at the last segment. */
  lemma {:induction false} WalkFalsy(o: Value, segments: seq<string>, default: Value)
    requires Resolve(o, segments).None?
    ensures Walk(o, segments, default) == Walk(default, segments[FalsyAt(o, segments) + 1..], default)
    decreases |segments|
  {
    if Truthy(o) {
      WalkFalsy(Field(o, segments[0]), segments[1..], default);
      var k := FalsyAt(Field(o, segments[0]), segments[1..]);
      assert segments[1..][k + 1..] == segments[k + 2..];
    }
  }

  /** The lookup of a path uses the default only when the path fails to
      resolve: two defaults give the same answer for a resolving path. */
  lemma GetIgnoresDefault(doc: Doc, name: string, d1: Value, d2: Value)
    requires name != "" && Resolve(Obj(doc), Split(name, '.')).Some?
    ensures Get(doc, name, d1) == Get(doc, name, d2) == Resolve(Obj(doc), Split(name, '.')).value
  {
    WalkResolved(Obj(doc), Split(name, '.'), d1);
    WalkResolved(Obj(doc), Split(name, '.'), d2);
  }

  /** A name without dots is a plain top-level lookup: a missing key gives
      undefined, never the default. */
  lemma GetTopLevel(doc: Doc, name: string, default: Value)
    requires name != "" && '.' !in name
    ensures Get(doc, name, default) == Lookup(doc, name)
  {
    assert Split(name, '.') == [name];
    assert Walk(Obj(doc), [name], default) == Walk(Lookup(doc, name), [], default);
  }

  /** `state("a.b", d)` when `a` is falsy is `d`. */
  lemma GetFalsyParent(doc: Doc, a: string, b: string, default: Value)
    requires a != "" && '.' !in a && '.' !in b && !Truthy(Lookup(doc, a))
    ensures Get(doc, a + "." + b, default) == default
  {
    SplitTwo(a, b);
    assert Walk(Obj(doc), [a, b], default) == Walk(Lookup(doc, a), [b], default);
    assert [a, b][1..] == [b];
    assert Walk(Lookup(doc, a), [b], default) == Walk(default, [], default);
  }

  /** `state("a.length")` for a state `a` holding a non-empty string is the
      string's length. */
  lemma GetStringLength(doc: Doc, a: string, default: Value)
    requires a != "" && '.' !in a && Lookup(doc, a).Str? && Lookup(doc, a).s != ""
    ensures Get(doc, a + ".length", default) == Num(|Lookup(doc, a).s|)
  {
    var v := Lookup(doc, a);
    SplitTwo(a, "length");
    assert a + ".length" == a + "." + "length";
    assert Walk(Obj(doc), [a, "length"], default) == Walk(v, ["length"], default);
    assert ["length"][1..] == [];
    assert Walk(v, ["length"], default) == Walk(Field(v, "length"), [], default);
  }

  /** A name with one dot splits into its two parts. */
  lemma SplitTwo(a: string, b: string)
    requires '.' !in a && '.' !in b
    ensures Split(a + "." + b, '.') == [a, b]
  {
    var name := a + "." + b;
    assert name[|a|] == '.';
    assert name[..|a|] == a;
    assert FirstIndex(name, '.') == |a|;
    assert name[|a| + 1..] == b;
    assert Split(name[|a| + 1..], '.') == [b];
  }

  /** A patch entry: a new value (undefined deletes the key), or a function
      applied to the current value. */
  datatype Entry = Put(value: Value) | Apply(f: Value -> Value)

  type Patch = map<string, Entry>

  /** The entry removes its key: `mergerino` deletes keys set to undefined. */
  predicate Deletes(e: Entry)
  {
    e.Put? && e.value == Undefined
  }

  /** The value an entry leaves under its key. */
  function NewValue(e: Entry, current: Value): Value
  {
    match e
    case Put(v) => v
    case Apply(f) => f(current)
  }

  /** `merge(doc, patch)` at the top level: keys outside the patch keep their
      values, deleting entries remove their keys, every other entry sets its
      key. */
  function Merge(doc: Doc, patch: Patch): (r: Doc)
    ensures r.Keys <= doc.Keys + patch.Keys
    ensures forall k :: k in patch && Deletes(patch[k]) ==> k !in r
  {
    map k | k in doc.Keys + patch.Keys && !(k in patch && Deletes(patch[k])) ::
      if k in patch then NewValue(patch[k], Lookup(doc, k)) else doc[k]
  }

  /** A patch of plain values. */
  function PutAll(values: map<string, Value>): (p: Patch)
    ensures p.Keys == values.Keys
    ensures forall k :: k in p ==> p[k] == Put(values[k])
  {
    map k | k in values :: Put(values[k])
  }

  /** After merging plain values, a key of the patch holds its new value
      (undefined when the key was deleted) and every other key keeps its
      old one. */
  lemma LookupMergePutAll(doc: Doc, values: map<string, Value>, k: string)
    ensures Lookup(Merge(doc, PutAll(values)), k) == if k in values then values[k] else Lookup(doc, k)
  {
  }

  /** Keys outside the patch are untouched by the merge. */
  lemma MergeKeepsOthers(doc: Doc, patch: Patch, k: string)
    requires k !in patch
    ensures Lookup(Merge(doc, patch), k) == Lookup(doc, k)
    ensures k in Merge(doc, patch) <==> k in doc
  {
  }

  /** The keys whose value differs after an update (`!==`), plus the keys
      that disappeared. */
  function ChangeSet(before: Doc, after: Doc): (r: set<string>)
    ensures r <= before.Keys + after.Keys
    ensures before == after ==> r == {}
  {
    (set k | k in after && Lookup(after, k) != Lookup(before, k))
    + (set k | k in before && k !in after)
  }

  /** The loops of `state.update` that build `changed`. */
  method ComputeChangeSet(before: Doc, after: Doc) returns (changed: set<string>)
    ensures changed == ChangeSet(before, after)
  {
    changed := {};
    var todo := after.Keys;
    while todo != {}
      invariant todo <= after.Keys
      invariant changed == set k | k in after && k !in todo && Lookup(after, k) != Lookup(before, k)
      decreases todo
    {
      var key :| key in todo;
      if Lookup(after, key) != Lookup(before, key) {
        changed := changed + {key};
      }
      todo := todo - {key};
    }
    ghost var updated := changed;
    todo := before.Keys;
    while todo != {}
      invariant todo <= before.Keys
      invariant changed == updated + set k | k in before && k !in todo && k !in after
      decreases todo
    {
      var key :| key in todo;
      if key !in after {
        changed := changed + {key};
      }
      todo := todo - {key};
    }
  }

  /** A key is in the change set of a merge exactly when the patch names it
      and, for a deleting entry, the key existed, or otherwise the entry's
      value differs from the old one. */
  lemma ChangeSetOfMerge(doc: Doc, patch: Patch, k: string)
    ensures k in ChangeSet(doc, Merge(doc, patch)) <==>
      k in patch && (if Deletes(patch[k]) then k in doc else NewValue(patch[k], Lookup(doc, k)) != Lookup(doc, k))
  {
    var after := Merge(doc, patch);
    if k in patch && !Deletes(patch[k]) {
      assert k in after;
    }
  }

  /** Only keys named by the patch can change. */
  lemma ChangeSetWithinPatch(doc: Doc, patch: Patch)
    ensures ChangeSet(doc, Merge(doc, patch)) <= patch.Keys
  {
    forall k | k in ChangeSet(doc, Merge(doc, patch)) ensures k in patch {
      ChangeSetOfMerge(doc, patch, k);
    }
  }

  /** `update({})` changes nothing. */
  lemma EmptyPatchChangesNothing(doc: Doc)
    ensures Merge(doc, map[]) == doc
    ensures ChangeSet(doc, Merge(doc, map[])) == {}
  {
    assert Merge(doc, map[]) == doc;
  }

  /** `Object.fromEntries(entries)`: later entries for the same key win. */
  function FromEntries(entries: seq<(string, Value)>): map<string, Value>
    decreases |entries|
  {
    if entries == [] then map[]
    else
      var last := entries[|entries| - 1];
      FromEntries(entries[..|entries| - 1])[last.0 := last.1]
  }

  /** Taking one more entry of a sequence adds that entry on top. */
  lemma FromEntriesPrefix(entries: seq<(string, Value)>, i: nat)
    requires i < |entries|
    ensures FromEntries(entries[..i + 1]) == FromEntries(entries[..i])[entries[i].0 := entries[i].1]
  {
    assert entries[..i + 1][..i] == entries[..i];
  }

  /** The keys of `Object.fromEntries` are the entries' keys, and each maps
      to the value of its last entry. */
  lemma FromEntriesLastWins(entries: seq<(string, Value)>, k: string)
    ensures k in FromEntries(entries) <==> exists i :: 0 <= i < |entries| && entries[i].0 == k
    ensures forall i :: (0 <= i < |entries| && entries[i].0 == k
      && forall j :: i < j < |entries| ==> entries[j].0 != k) ==> FromEntries(entries)[k] == entries[i].1
  {
    FromEntriesKeys(entries, k);
    forall i | (0 <= i < |entries| && entries[i].0 == k
      && forall j :: i < j < |entries| ==> entries[j].0 != k)
      ensures FromEntries(entries)[k] == entries[i].1
    {
      FromEntriesLastValue(entries, i);
    }
  }

  /** A name is a key of `Object.fromEntries` exactly when some entry has it. */
  lemma {:induction false} FromEntriesKeys(entries: seq<(string, Value)>, k: string)
    ensures k in FromEntries(entries) <==> exists i :: 0 <= i < |entries| && entries[i].0 == k
    decreases |entries|
  {
    if entries != [] {
      var n := |entries| - 1;
      var init := entries[..n];
      FromEntriesKeys(init, k);
      if entries[n].0 != k && exists i :: 0 <= i < |entries| && entries[i].0 == k {
        var i :| 0 <= i < |entries| && entries[i].0 == k;
        assert init[i].0 == k;
      }
    }
  }

  /** An entry that no later entry overrides gives its key its value. */
  lemma {:induction false} FromEntriesLastValue(entries: seq<(string, Value)>, i: nat)
    requires i < |entries|
    requires forall j :: i < j < |entries| ==> entries[j].0 != entries[i].0
    ensures entries[i].0 in FromEntries(entries)
    ensures FromEntries(entries)[entries[i].0] == entries[i].1
    decreases |entries|
  {
    var n := |entries| - 1;
    if i < n {
      var init := entries[..n];
      assert init[i] == entries[i];
      FromEntriesLastValue(init, i);
    }
  }
}
