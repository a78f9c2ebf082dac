/** The radio chooser (components/radio.js): the click rule that selects a
    value or clears the selection, the default choice and option colours
    the template computes, validity against the grid filters, and the
    component's display name. */
module Radio {
  import opened Values
  import opened Document
  import opened Store

  /** The properties of a `Radio`. */
  datatype RadioProps = RadioProps(
    name: string,
    legend: string,
    primary: string,
    secondary: string,
    lastClicked: string)

  /** The properties of an `Option` child. */
  datatype OptionProps = OptionProps(
    name: string,
    value: string,
    selectedColor: string,
    unselectedColor: string)

  // Clicks

  /** The assignments a click makes to `stateUpdates`, in program order:
      clicking the value last clicked (`===`) clears both selection states;
      any other click selects the value and records it as last clicked. */
  function ClickEntries(p: RadioProps, lastClicked: Value, value: string): seq<(string, Value)>
  {
    if lastClicked == Str(value) then [(p.primary, Null), (p.secondary, Null)]
    else [(p.primary, Str(value)), (p.secondary, Str(value)), (p.lastClicked, Str(value))]
  }

  /** The object the entries build: a later assignment to the same name
      wins. */
  lemma ClickEntriesMap(p: RadioProps, lastClicked: Value, value: string)
    ensures FromEntries(ClickEntries(p, lastClicked, value)) ==
      if lastClicked == Str(value) then map[p.primary := Null][p.secondary := Null]
      else map[p.primary := Str(value)][p.secondary := Str(value)][p.lastClicked := Str(value)]
  {
    var es := ClickEntries(p, lastClicked, value);
    if lastClicked == Str(value) {
      var a, b := es[0], es[1];
      assert es[..1] == [a] && [a][..0] == [];
      assert FromEntries([a]) == map[a.0 := a.1];
    } else {
      var a, b, c := es[0], es[1], es[2];
      assert es[..2] == [a, b];
      assert [a, b][..1] == [a] && [a][..0] == [];
      assert FromEntries([a]) == map[a.0 := a.1];
      assert FromEntries([a, b]) == map[a.0 := a.1][b.0 := b.1];
    }
  }

  /** The branch of the click handler that fills `stateUpdates`. */
  method ClickUpdates(p: RadioProps, lastClicked: Value, value: string) returns (updates: map<string, Value>)
    ensures updates == FromEntries(ClickEntries(p, lastClicked, value))
    ensures lastClicked == Str(value) ==> updates.Keys == {p.primary, p.secondary}
    ensures lastClicked != Str(value) ==> updates.Keys == {p.primary, p.secondary, p.lastClicked}
  {
    ClickEntriesMap(p, lastClicked, value);
    updates := map[];
    if lastClicked == Str(value) {
      updates := updates[p.primary := Null];
      updates := updates[p.secondary := Null];
    } else {
      updates := updates[p.primary := Str(value)];
      updates := updates[p.secondary := Str(value)];
      updates := updates[p.lastClicked := Str(value)];
    }
  }

  /** The document after a click on `value`. */
  function ClickDoc(doc: Doc, p: RadioProps, value: string): Doc
  {
    Merge(doc, PutAll(FromEntries(ClickEntries(p, Document.Get(doc, p.lastClicked, Null), value))))
  }

  /** A click on a value other than the last clicked one sets the primary,
      secondary and last-clicked states all to that value; no other state
      changes. */
  lemma ClickSelects(doc: Doc, p: RadioProps, value: string, k: string)
    requires Document.Get(doc, p.lastClicked, Null) != Str(value)
    ensures Lookup(ClickDoc(doc, p, value), p.primary) == Str(value)
    ensures Lookup(ClickDoc(doc, p, value), p.secondary) == Str(value)
    ensures Lookup(ClickDoc(doc, p, value), p.lastClicked) == Str(value)
    ensures k != p.primary && k != p.secondary && k != p.lastClicked ==>
      Lookup(ClickDoc(doc, p, value), k) == Lookup(doc, k)
  {
    var m := FromEntries(ClickEntries(p, Document.Get(doc, p.lastClicked, Null), value));
    ClickEntriesMap(p, Document.Get(doc, p.lastClicked, Null), value);
    forall j ensures Lookup(ClickDoc(doc, p, value), j) == if j in m then m[j] else Lookup(doc, j) {
      LookupMergePutAll(doc, m, j);
    }
  }

  /** A click on the last clicked value sets the primary and secondary
      states to null and leaves every other state, the last clicked one
      included, as it was. */
  lemma ClickClears(doc: Doc, p: RadioProps, value: string, k: string)
    requires Document.Get(doc, p.lastClicked, Null) == Str(value)
    ensures Lookup(ClickDoc(doc, p, value), p.primary) == Null
    ensures Lookup(ClickDoc(doc, p, value), p.secondary) == Null
    ensures k != p.primary && k != p.secondary ==>
      Lookup(ClickDoc(doc, p, value), k) == Lookup(doc, k)
  {
    var m := FromEntries(ClickEntries(p, Document.Get(doc, p.lastClicked, Null), value));
    ClickEntriesMap(p, Document.Get(doc, p.lastClicked, Null), value);
    forall j ensures Lookup(ClickDoc(doc, p, value), j) == if j in m then m[j] else Lookup(doc, j) {
      LookupMergePutAll(doc, m, j);
    }
  }

  /** Whatever the state, after one click on `value` the next clicks on the
      same value clear the selection, again and again: the last-clicked state
      keeps `value`. This needs the last-clicked state to be a plain
      top-level name of its own. */
  lemma RepeatedClicksClear(doc: Doc, p: RadioProps, value: string)
    requires p.lastClicked != "" && '.' !in p.lastClicked
    requires p.lastClicked != p.primary && p.lastClicked != p.secondary
    ensures var d1 := ClickDoc(doc, p, value);
      var d2 := ClickDoc(d1, p, value);
      var d3 := ClickDoc(d2, p, value);
      && Lookup(d1, p.lastClicked) == Str(value)
      && Lookup(d2, p.primary) == Null && Lookup(d2, p.secondary) == Null
      && Lookup(d2, p.lastClicked) == Str(value)
      && Lookup(d3, p.primary) == Null && Lookup(d3, p.secondary) == Null
      && Lookup(d3, p.lastClicked) == Str(value)
  {
    var d1 := ClickDoc(doc, p, value);
    var d2 := ClickDoc(d1, p, value);
    GetTopLevel(doc, p.lastClicked, Null);
    if Document.Get(doc, p.lastClicked, Null) == Str(value) {
      ClickClears(doc, p, value, p.lastClicked);
    } else {
      ClickSelects(doc, p, value, p.lastClicked);
    }
    GetTopLevel(d1, p.lastClicked, Null);
    ClickClears(d1, p, value, p.lastClicked);
    GetTopLevel(d2, p.lastClicked, Null);
    ClickClears(d2, p, value, p.lastClicked);
  }

  /** The click handler's single `update`, for the clicked option's value
      (`handleClick` on a button, and each option's `onClick`). */
  method Click(store: StateStore, p: RadioProps, value: string, connected: set<nat>)
    returns (changed: set<string>, notified: seq<Notification>)
    requires store.Valid()
    modifies store
    ensures store.Valid() && store.order == old(store.order) && store.watch == old(store.watch)
    ensures store.doc == ClickDoc(old(store.doc), p, value)
    ensures changed == ChangeSet(old(store.doc), store.doc)
    ensures notified == Notifications(store.order, store.watch, changed, connected, store.doc)
  {
    var lastClicked := store.Get(p.lastClicked, Null);
    var updates := ClickUpdates(p, lastClicked, value);
    changed, notified := store.Update(PutAll(updates), connected);
  }

  /** What a click lands on. */
  datatype ClickTarget = Button(value: string) | OtherElement

  /** `handleClick`: only a click on a button updates the state. */
  method HandleClick(store: StateStore, p: RadioProps, target: ClickTarget, connected: set<nat>)
    returns (notified: seq<Notification>)
    requires store.Valid()
    modifies store
    ensures store.Valid() && store.order == old(store.order) && store.watch == old(store.watch)
    ensures target.OtherElement? ==> store.doc == old(store.doc) && notified == []
    ensures target.Button? ==> store.doc == ClickDoc(old(store.doc), p, target.value)
    ensures target.Button? ==>
      notified == Notifications(store.order, store.watch, ChangeSet(old(store.doc), store.doc), connected, store.doc)
  {
    notified := [];
    if target.Button? {
      var _, n := Click(store, p, target.value, connected);
      notified := n;
    }
  }

  // Validity

  /** `valid(option)`: with no content filters every option is valid;
      otherwise the data oracle decides, for a copy of the state in which
      the primary state holds the option's value. */
  function Valid(filterCount: nat, hasMatchingRows: Doc -> bool, doc: Doc, p: RadioProps, o: OptionProps): (r: bool)
    ensures filterCount == 0 ==> r
    ensures filterCount > 0 ==> (r <==> hasMatchingRows(Merge(doc, PutAll(map[p.primary := Str(o.value)]))))
  {
    filterCount == 0 || hasMatchingRows(Merge(doc, PutAll(map[p.primary := Str(o.value)])))
  }

  // Default choice and colours

  /** An option the template may choose as the default: enabled, with a
      non-empty value. */
  predicate Selectable(filterCount: nat, hasMatchingRows: Doc -> bool, doc: Doc, p: RadioProps, o: OptionProps)
  {
    Valid(filterCount, hasMatchingRows, doc, p, o) && o.value != ""
  }

  /** The first selectable option at or after `from`. */
  function FirstSelectable(filterCount: nat, hasMatchingRows: Doc -> bool, doc: Doc, p: RadioProps,
                           options: seq<OptionProps>, from: nat): (r: Option<nat>)
    requires from <= |options|
    ensures r.Some? ==>
      from <= r.value < |options| && Selectable(filterCount, hasMatchingRows, doc, p, options[r.value])
    ensures r.Some? ==> forall i :: from <= i < r.value ==> !Selectable(filterCount, hasMatchingRows, doc, p, options[i])
    ensures r.None? ==> forall i :: from <= i < |options| ==> !Selectable(filterCount, hasMatchingRows, doc, p, options[i])
    decreases |options| - from
  {
    if from == |options| then None
    else if Selectable(filterCount, hasMatchingRows, doc, p, options[from]) then Some(from)
    else FirstSelectable(filterCount, hasMatchingRows, doc, p, options, from + 1)
  }

  /** The option the template makes current when the primary state is
      empty: the first selectable one, if any. */
  function DefaultIndex(filterCount: nat, hasMatchingRows: Doc -> bool, doc: Doc, p: RadioProps,
                        options: seq<OptionProps>): Option<nat>
  {
    if p.primary != "" && !Truthy(Document.Get(doc, p.primary, Null))
    then FirstSelectable(filterCount, hasMatchingRows, doc, p, options, 0)
    else None
  }

  /** The value of `current` when the colour of option `i` is chosen. */
  function CurrentAt(filterCount: nat, hasMatchingRows: Doc -> bool, doc: Doc, p: RadioProps,
                     options: seq<OptionProps>, i: nat): Value
  {
    match DefaultIndex(filterCount, hasMatchingRows, doc, p, options)
    case Some(k) => if k <= i && k < |options| then Str(options[k].value) else Document.Get(doc, p.primary, Null)
    case None => Document.Get(doc, p.primary, Null)
  }

  /** The colour of an option: selected when its value loosely equals the
      current one, or when nothing is current and it is the first option. */
  function ColorOf(o: OptionProps, current: Value, index: nat): (c: string)
    ensures LooseEqualsString(current, o.value) ==> c == o.selectedColor
    ensures !Truthy(current) && index == 0 ==> c == o.selectedColor
    ensures !LooseEqualsString(current, o.value) && (Truthy(current) || index != 0) ==> c == o.unselectedColor
  {
    if LooseEqualsString(current, o.value) || (!Truthy(current) && index == 0) then o.selectedColor
    else o.unselectedColor
  }

  /** The patch that writes the default choice to both selection states. */
  function DefaultPatch(p: RadioProps, current: Value): Patch
  {
    PutAll(map[p.primary := current, p.secondary := current])
  }

  /** One option of the template's `map`, with `current` as the earlier
      options left it and `enabled` the option's validity, asked of the
      state as it was when nothing had been chosen yet: the branch that
      chooses a default is taken exactly for the default option, and the
      colour is chosen with the value the option sees. */
  lemma ChoiceStep(filterCount: nat, hasMatchingRows: Doc -> bool, doc: Doc, p: RadioProps,
                   options: seq<OptionProps>, i: nat, current: Value, enabled: bool)
    requires i < |options|
    requires var d := DefaultIndex(filterCount, hasMatchingRows, doc, p, options);
      current == if d.Some? && d.value < i then Str(options[d.value].value) else Document.Get(doc, p.primary, Null)
    requires var d := DefaultIndex(filterCount, hasMatchingRows, doc, p, options);
      !(d.Some? && d.value < i) ==> enabled == Valid(filterCount, hasMatchingRows, doc, p, options[i])
    ensures var d := DefaultIndex(filterCount, hasMatchingRows, doc, p, options);
      (p.primary != "" && !Truthy(current) && enabled && options[i].value != "") <==> d == Some(i)
    ensures var d := DefaultIndex(filterCount, hasMatchingRows, doc, p, options);
      CurrentAt(filterCount, hasMatchingRows, doc, p, options, i)
        == if d.Some? && d.value <= i then Str(options[d.value].value) else Document.Get(doc, p.primary, Null)
  {
    var d := DefaultIndex(filterCount, hasMatchingRows, doc, p, options);
    if d.Some? && d.value < i {
      assert Truthy(current);
    }
  }

  /** The `map` over the options in `template`: each option's validity is
      asked of the current state; the first selectable option, when nothing
      is current, becomes current and is written to both selection states in
      one update; each option's colour is chosen with `current` as it is at
      that point. */
  method Choices(store: StateStore, p: RadioProps, options: seq<OptionProps>,
                 filterCount: nat, hasMatchingRows: Doc -> bool, connected: set<nat>)
    returns (current: Value, colors: seq<string>, notified: seq<Notification>)
    requires store.Valid()
    modifies store
    ensures store.Valid() && store.order == old(store.order) && store.watch == old(store.watch)
    ensures current == match DefaultIndex(filterCount, hasMatchingRows, old(store.doc), p, options)
      case Some(k) => Str(options[k].value)
      case None => Document.Get(old(store.doc), p.primary, Null)
    ensures store.doc == if DefaultIndex(filterCount, hasMatchingRows, old(store.doc), p, options).Some?
      then Merge(old(store.doc), DefaultPatch(p, current)) else old(store.doc)
    ensures |colors| == |options|
    ensures forall i :: 0 <= i < |options| ==>
      colors[i] == ColorOf(options[i], CurrentAt(filterCount, hasMatchingRows, old(store.doc), p, options, i), i)
    ensures notified == if DefaultIndex(filterCount, hasMatchingRows, old(store.doc), p, options).Some?
      then Notifications(store.order, store.watch, ChangeSet(old(store.doc), store.doc), connected, store.doc)
      else []
  {
    ghost var doc0 := store.doc;
    ghost var d := DefaultIndex(filterCount, hasMatchingRows, doc0, p, options);
    current := store.Get(p.primary, Null);
    colors := [];
    notified := [];
    var i := 0;
    while i < |options|
      invariant 0 <= i <= |options|
      invariant store.Valid() && store.order == old(store.order) && store.watch == old(store.watch)
      invariant current == if d.Some? && d.value < i then Str(options[d.value].value) else Document.Get(doc0, p.primary, Null)
      invariant store.doc == if d.Some? && d.value < i then Merge(doc0, DefaultPatch(p, current)) else doc0
      invariant |colors| == i
      invariant forall j :: 0 <= j < i ==>
        colors[j] == ColorOf(options[j], CurrentAt(filterCount, hasMatchingRows, doc0, p, options, j), j)
      invariant notified == if d.Some? && d.value < i
        then Notifications(store.order, store.watch, ChangeSet(doc0, store.doc), connected, store.doc)
        else []
    {
      var n;
      current, n := ChooseOption(store, p, options, i, filterCount, hasMatchingRows, connected, current, doc0);
      notified := notified + n;
      colors := colors + [ColorOf(options[i], current, i)];
      i := i + 1;
    }
  }

  /** One step of the `map` in `template`: option `i` asks for its validity
      and, when nothing is current and it is selectable, becomes current and
      is written to both selection states. */
  method ChooseOption(store: StateStore, p: RadioProps, options: seq<OptionProps>, i: nat,
                      filterCount: nat, hasMatchingRows: Doc -> bool, connected: set<nat>,
                      current: Value, ghost doc0: Doc)
    returns (current': Value, notified: seq<Notification>)
    requires i < |options|
    requires store.Valid()
    requires var d := DefaultIndex(filterCount, hasMatchingRows, doc0, p, options);
      current == if d.Some? && d.value < i then Str(options[d.value].value) else Document.Get(doc0, p.primary, Null)
    requires var d := DefaultIndex(filterCount, hasMatchingRows, doc0, p, options);
      store.doc == if d.Some? && d.value < i then Merge(doc0, DefaultPatch(p, current)) else doc0
    modifies store
    ensures store.Valid() && store.order == old(store.order) && store.watch == old(store.watch)
    ensures var d := DefaultIndex(filterCount, hasMatchingRows, doc0, p, options);
      current' == if d.Some? && d.value <= i then Str(options[d.value].value) else Document.Get(doc0, p.primary, Null)
    ensures var d := DefaultIndex(filterCount, hasMatchingRows, doc0, p, options);
      store.doc == if d.Some? && d.value <= i then Merge(doc0, DefaultPatch(p, current')) else doc0
    ensures current' == CurrentAt(filterCount, hasMatchingRows, doc0, p, options, i)
    ensures notified == if DefaultIndex(filterCount, hasMatchingRows, doc0, p, options) == Some(i)
      then Notifications(store.order, store.watch, ChangeSet(old(store.doc), store.doc), connected, store.doc)
      else []
  {
    var enabled := Valid(filterCount, hasMatchingRows, store.doc, p, options[i]);
    ChoiceStep(filterCount, hasMatchingRows, doc0, p, options, i, current, enabled);
    current' := current;
    notified := [];
    if p.primary != "" && !Truthy(current) && enabled && options[i].value != "" {
      current' := Str(options[i].value);
      var _, n := store.Update(DefaultPatch(p, current'), connected);
      notified := n;
    }
  }

  /** The default choice: one is made exactly when the primary state is
      empty and some option is selectable; it is the first selectable option,
      and both selection states then hold its value. */
  lemma DefaultChoice(filterCount: nat, hasMatchingRows: Doc -> bool, doc: Doc, p: RadioProps,
                      options: seq<OptionProps>)
    ensures DefaultIndex(filterCount, hasMatchingRows, doc, p, options).Some? <==>
      && p.primary != "" && !Truthy(Document.Get(doc, p.primary, Null))
      && exists i :: 0 <= i < |options| && Selectable(filterCount, hasMatchingRows, doc, p, options[i])
    ensures DefaultIndex(filterCount, hasMatchingRows, doc, p, options).Some? ==>
      var k := DefaultIndex(filterCount, hasMatchingRows, doc, p, options).value;
      var after := Merge(doc, DefaultPatch(p, Str(options[k].value)));
      && k < |options| && Selectable(filterCount, hasMatchingRows, doc, p, options[k])
      && (forall i :: 0 <= i < k ==> !Selectable(filterCount, hasMatchingRows, doc, p, options[i]))
      && Lookup(after, p.primary) == Str(options[k].value)
      && Lookup(after, p.secondary) == Str(options[k].value)
  {
    match DefaultIndex(filterCount, hasMatchingRows, doc, p, options)
    case Some(k) =>
      var v := Str(options[k].value);
      LookupMergePutAll(doc, map[p.primary := v, p.secondary := v], p.primary);
      LookupMergePutAll(doc, map[p.primary := v, p.secondary := v], p.secondary);
    case None =>
  }

  /** With a current value already in the state, no default is chosen and an
      option shows the selected colour exactly when its value loosely equals
      the current one (given two different colours). */
  lemma ColorsWithCurrent(filterCount: nat, hasMatchingRows: Doc -> bool, doc: Doc, p: RadioProps,
                          options: seq<OptionProps>, i: nat)
    requires Truthy(Document.Get(doc, p.primary, Null))
    requires i < |options| && options[i].selectedColor != options[i].unselectedColor
    ensures DefaultIndex(filterCount, hasMatchingRows, doc, p, options).None?
    ensures ColorOf(options[i], CurrentAt(filterCount, hasMatchingRows, doc, p, options, i), i) == options[i].selectedColor
      <==> LooseEqualsString(Document.Get(doc, p.primary, Null), options[i].value)
  {
  }

  /** With nothing current (the primary state absent, or null as a
      clearing click leaves it) and no selectable option, only the first
      option shows the selected colour. */
  lemma ColorsWithoutChoice(filterCount: nat, hasMatchingRows: Doc -> bool, doc: Doc, p: RadioProps,
                            options: seq<OptionProps>, i: nat)
    requires p.primary != "" && '.' !in p.primary
    requires Lookup(doc, p.primary) == Undefined || Lookup(doc, p.primary) == Null
    requires forall j :: 0 <= j < |options| ==> !Selectable(filterCount, hasMatchingRows, doc, p, options[j])
    requires i < |options| && options[i].selectedColor != options[i].unselectedColor
    ensures ColorOf(options[i], CurrentAt(filterCount, hasMatchingRows, doc, p, options, i), i) == options[i].selectedColor
      <==> i == 0
  {
    GetTopLevel(doc, p.primary, Null);
    assert FirstSelectable(filterCount, hasMatchingRows, doc, p, options, 0).None?;
  }

  // Name

  /** The `name` getter: the name, else the label (`legend` here, since `label` is a Dafny keyword), else the primary state
      name. */
  function Name(p: RadioProps): (r: string)
    ensures p.name != "" ==> r == p.name
    ensures p.name == "" && p.legend != "" ==> r == p.legend
    ensures p.name == "" && p.legend == "" ==> r == p.primary
  {
    OrString(p.name, OrString(p.legend, p.primary))
  }
}
