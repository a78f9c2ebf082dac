/** The tab control of components/tabcontrol.js: the template's pass over the
    panels (each panel's interpolated tab name and caption, the default tab
    when the tab state is empty, which panels are active), the tab buttons
    it shows, the panel it renders, and `switchTab`. */
module TabControl {
  import opened Values
  import opened Document
  import opened Interpolation
  import opened Store

  /** A `TabPanel`: its `name` and `label` properties (`label` is `caption` here, since `label` is a Dafny keyword), and the fields the
      template of its parent sets on it. */
  class TabPanel {
    const name: string
    const caption: string
    var active: bool
    var tabName: string
    var tabLabel: string

    constructor (name: string, caption: string)
      ensures this.name == name && this.caption == caption
      ensures !active && tabName == "" && tabLabel == ""
    {
      this.name := name;
      this.caption := caption;
      active := false;
      tabName := "";
      tabLabel := "";
    }
  }

  /** The template defines the tab state when there is a first panel and
      the state is empty. */
  predicate DefinesDefault(doc: Doc, stateName: string, panels: seq<TabPanel>)
  {
    |panels| > 0 && !Truthy(Document.Get(doc, stateName, Null))
  }

  /** The document once the template has run: `state.define` of the first
      panel's tab name when the tab state is empty. */
  function DocAfterTemplate(doc: Doc, stateName: string, panels: seq<TabPanel>): Doc
  {
    if DefinesDefault(doc, stateName, panels)
    then Merge(doc, DefinePatch(stateName, Str(Interpolate(doc, panels[0].name))))
    else doc
  }

  /** The document against which panel `i`'s names are interpolated: the
      first panel is seen before the definition, the others after it. */
  function DocSeenBy(doc: Doc, stateName: string, panels: seq<TabPanel>, i: nat): Doc
  {
    if i == 0 then doc else DocAfterTemplate(doc, stateName, panels)
  }

  /** `panel.tabName`: the interpolated panel name. */
  function TabNameAt(doc: Doc, stateName: string, panels: seq<TabPanel>, i: nat): string
    requires i < |panels|
  {
    Interpolate(DocSeenBy(doc, stateName, panels, i), panels[i].name)
  }

  /** `panel.tabLabel`: the interpolated caption, or the interpolated name
      when the label is empty. */
  function TabLabelAt(doc: Doc, stateName: string, panels: seq<TabPanel>, i: nat): string
    requires i < |panels|
  {
    Interpolate(DocSeenBy(doc, stateName, panels, i), OrString(panels[i].caption, panels[i].name))
  }

  /** `activeTabName` after the first panel: the tab state, or the first
      panel's tab name when the state was empty. */
  function ActiveName(doc: Doc, stateName: string, panels: seq<TabPanel>): Value
  {
    if DefinesDefault(doc, stateName, panels) then Str(TabNameAt(doc, stateName, panels, 0))
    else Document.Get(doc, stateName, Null)
  }

  /** `panel.active`: the panel's tab name loosely equals the active name,
      or it is the only panel. */
  predicate ActiveAt(doc: Doc, stateName: string, panels: seq<TabPanel>, i: nat)
    requires i < |panels|
  {
    LooseEqualsString(ActiveName(doc, stateName, panels), TabNameAt(doc, stateName, panels, i)) || |panels| == 1
  }

  /** The `active` flag the template gives each panel. */
  function ActiveFlags(doc: Doc, stateName: string, panels: seq<TabPanel>): (flags: seq<bool>)
    ensures |flags| == |panels|
    ensures forall i :: 0 <= i < |panels| ==> flags[i] == ActiveAt(doc, stateName, panels, i)
  {
    seq(|panels|, i requires 0 <= i < |panels| => ActiveAt(doc, stateName, panels, i))
  }

  /** The `tabName` the template gives each panel. */
  function TabNames(doc: Doc, stateName: string, panels: seq<TabPanel>): (names: seq<string>)
    ensures |names| == |panels|
    ensures forall i :: 0 <= i < |panels| ==> names[i] == TabNameAt(doc, stateName, panels, i)
  {
    seq(|panels|, i requires 0 <= i < |panels| => TabNameAt(doc, stateName, panels, i))
  }

  /** The `tabLabel` the template gives each panel. */
  function TabLabels(doc: Doc, stateName: string, panels: seq<TabPanel>): (labels: seq<string>)
    ensures |labels| == |panels|
    ensures forall i :: 0 <= i < |panels| ==> labels[i] == TabLabelAt(doc, stateName, panels, i)
  {
    seq(|panels|, i requires 0 <= i < |panels| => TabLabelAt(doc, stateName, panels, i))
  }

  /** The index of the first set flag at or after `from`, if any. */
  function FirstTrue(flags: seq<bool>, from: nat): (r: Option<nat>)
    requires from <= |flags|
    ensures r.Some? ==> from <= r.value < |flags| && flags[r.value]
    ensures r.Some? ==> forall j :: from <= j < r.value ==> !flags[j]
    ensures r.None? ==> forall j :: from <= j < |flags| ==> !flags[j]
    decreases |flags| - from
  {
    if from == |flags| then None
    else if flags[from] then Some(from)
    else FirstTrue(flags, from + 1)
  }

  /** `panels.find((panel) => panel.active)`, as an index. */
  function FirstActive(doc: Doc, stateName: string, panels: seq<TabPanel>): (r: Option<nat>)
    ensures r.Some? ==> r.value < |panels| && ActiveAt(doc, stateName, panels, r.value)
    ensures r.Some? ==> forall j :: 0 <= j < r.value ==> !ActiveAt(doc, stateName, panels, j)
    ensures r.None? ==> forall j :: 0 <= j < |panels| ==> !ActiveAt(doc, stateName, panels, j)
  {
    var flags := ActiveFlags(doc, stateName, panels);
    var r := FirstTrue(flags, 0);
    assert r.Some? ==> forall j :: 0 <= j < r.value ==> !ActiveAt(doc, stateName, panels, j) by {
      if r.Some? {
        forall j | 0 <= j < r.value ensures !ActiveAt(doc, stateName, panels, j) { assert !flags[j]; }
      }
    }
    assert r.None? ==> forall j :: 0 <= j < |panels| ==> !ActiveAt(doc, stateName, panels, j) by {
      if r.None? {
        forall j | 0 <= j < |panels| ensures !ActiveAt(doc, stateName, panels, j) { assert !flags[j]; }
      }
    }
    r
  }

  /** The label that hides a panel's tab button. */
  const Unlabeled := "UNLABELED"

  /** The panels from `from` on whose label is not `UNLABELED`, as indices. */
  function LabelledFrom(panels: seq<TabPanel>, from: nat): (r: seq<nat>)
    requires from <= |panels|
    ensures forall i :: i in r <==> from <= i < |panels| && panels[i].caption != Unlabeled
    ensures forall a, b :: 0 <= a < b < |r| ==> r[a] < r[b]
    decreases |panels| - from
  {
    if from == |panels| then []
    else
      var rest := LabelledFrom(panels, from + 1);
      assert forall b :: 0 <= b < |rest| ==> rest[b] in rest;
      if panels[from].caption != Unlabeled then [from] + rest else rest
  }

  /** The panels that get a tab button, in order: none when `tabEdge` is
      "none", otherwise every panel not labelled `UNLABELED`. */
  function ButtonIndices(tabEdge: string, panels: seq<TabPanel>): (r: seq<nat>)
    ensures tabEdge == "none" ==> r == []
    ensures tabEdge != "none" ==> forall i :: i in r <==> 0 <= i < |panels| && panels[i].caption != Unlabeled
    ensures forall a, b :: 0 <= a < b < |r| ==> r[a] < r[b]
  {
    if tabEdge == "none" then [] else LabelledFrom(panels, 0)
  }

  /** When the tab state is empty, the first panel's tab name is written to
      it (for a plain top-level state name) and becomes the active name, so
      the first panel is active; nothing else in the document changes. */
  lemma DefaultTab(doc: Doc, stateName: string, panels: seq<TabPanel>, k: string)
    requires |panels| > 0 && stateName != "" && '.' !in stateName
    requires !Truthy(Lookup(doc, stateName))
    ensures Lookup(DocAfterTemplate(doc, stateName, panels), stateName) == Str(TabNameAt(doc, stateName, panels, 0))
    ensures ActiveName(doc, stateName, panels) == Str(TabNameAt(doc, stateName, panels, 0))
    ensures ActiveAt(doc, stateName, panels, 0)
    ensures k != stateName ==> Lookup(DocAfterTemplate(doc, stateName, panels), k) == Lookup(doc, k)
  {
    GetTopLevel(doc, stateName, Null);
    DefineEffect(doc, stateName, Str(Interpolate(doc, panels[0].name)));
  }

  /** With a tab state already set, the template leaves the document alone
      and the state is the active name. */
  lemma KeepsTab(doc: Doc, stateName: string, panels: seq<TabPanel>)
    requires Truthy(Document.Get(doc, stateName, Null))
    ensures DocAfterTemplate(doc, stateName, panels) == doc
    ensures ActiveName(doc, stateName, panels) == Document.Get(doc, stateName, Null)
    ensures forall i :: 0 <= i < |panels| ==> TabNameAt(doc, stateName, panels, i) == Interpolate(doc, panels[i].name)
  {
  }

  /** The panel rendered is active, and no earlier panel is; a lone panel is
      always the one rendered. */
  lemma CurrentPanelIsFirstActive(doc: Doc, stateName: string, panels: seq<TabPanel>)
    ensures var r := FirstActive(doc, stateName, panels);
      r.Some? <==> exists i :: 0 <= i < |panels| && ActiveAt(doc, stateName, panels, i)
    ensures |panels| == 1 ==> FirstActive(doc, stateName, panels) == Some(0)
  {
  }

  /** The patch `switchTab` hands to `state.update`. */
  function SwitchPatch(stateName: string, tabName: string): Patch
  {
    PutAll(map[stateName := Str(tabName)])
  }

  /** `switchTab` sets the tab state and touches no other key. */
  lemma SwitchTabOnlyStateName(doc: Doc, stateName: string, tabName: string, k: string)
    ensures Lookup(Merge(doc, SwitchPatch(stateName, tabName)), stateName) == Str(tabName)
    ensures k != stateName ==> Lookup(Merge(doc, SwitchPatch(stateName, tabName)), k) == Lookup(doc, k)
    ensures ChangeSet(doc, Merge(doc, SwitchPatch(stateName, tabName))) <= {stateName}
  {
    LookupMergePutAll(doc, map[stateName := Str(tabName)], stateName);
    LookupMergePutAll(doc, map[stateName := Str(tabName)], k);
    ChangeSetWithinPatch(doc, SwitchPatch(stateName, tabName));
  }

  /** No panel appears twice among the children. */
  ghost predicate DistinctPanels(panels: seq<TabPanel>)
  {
    forall i, j :: 0 <= i < j < |panels| ==> panels[i] != panels[j]
  }

  /** The `TabControl` component. */
  class TabControl {
    const stateName: string
    const tabEdge: string
    const children: seq<TabPanel>
    var currentPanel: TabPanel?

    constructor (stateName: string, tabEdge: string, children: seq<TabPanel>)
      ensures this.stateName == stateName && this.tabEdge == tabEdge && this.children == children
      ensures currentPanel == null
    {
      this.stateName := stateName;
      this.tabEdge := tabEdge;
      this.children := children;
      currentPanel := null;
    }

    /** Panel `j` holds the tab name, label and activity the template's
        `forEach` gives it, for the document `doc` the template started
        from. */
    ghost predicate Collected(doc: Doc, j: nat)
      requires j < |children|
      reads children[j]
    {
      && children[j].tabName == TabNameAt(doc, stateName, children, j)
      && children[j].tabLabel == TabLabelAt(doc, stateName, children, j)
      && children[j].active == ActiveAt(doc, stateName, children, j)
    }

    /** One turn of the `forEach`: panel `i` gets its tab name and label
        from the document as it is now, the first panel defines the tab
        state when it is empty, and the panel's activity is set. */
    method CollectPanel(store: StateStore, ghost doc0: Doc, i: nat, activeTabName: Value,
                        ghost tabName: string, ghost tabLabel: string, ghost isActive: bool) returns (active: Value)
      requires i < |children| && store.Valid() && DistinctPanels(children)
      requires store.doc == DocSeenBy(doc0, stateName, children, i)
      requires activeTabName == if i == 0 then Document.Get(doc0, stateName, Null) else ActiveName(doc0, stateName, children)
      requires tabName == TabNames(doc0, stateName, children)[i]
      requires tabLabel == TabLabels(doc0, stateName, children)[i]
      requires isActive == ActiveFlags(doc0, stateName, children)[i]
      modifies store, children[i]
      ensures store.Valid() && store.order == old(store.order) && store.watch == old(store.watch)
      ensures store.doc == DocSeenBy(doc0, stateName, children, i + 1)
      ensures active == ActiveName(doc0, stateName, children)
      ensures children[i].tabName == tabName && children[i].tabLabel == tabLabel && children[i].active == isActive
      ensures forall j :: 0 <= j < |children| && j != i ==>
        children[j].tabName == old(children[j].tabName) && children[j].tabLabel == old(children[j].tabLabel)
        && children[j].active == old(children[j].active)
    {
      var panel := children[i];
      panel.tabName := Interpolate(store.doc, panel.name);
      panel.tabLabel := Interpolate(store.doc, OrString(panel.caption, panel.name));
      active := activeTabName;
      if i == 0 && !Truthy(active) {
        active := Str(panel.tabName);
        store.Define(stateName, Str(panel.tabName));
      }
      panel.active := LooseEqualsString(active, panel.tabName) || |children| == 1;
    }

    /** The `forEach` of `template`: set each panel's tab name, label and
        activity, defining the tab state at the first panel when it is
        empty. */
    method CollectPanels(store: StateStore)
      requires store.Valid() && DistinctPanels(children)
      modifies store, set p | p in children
      ensures store.Valid() && store.order == old(store.order) && store.watch == old(store.watch)
      ensures store.doc == DocAfterTemplate(old(store.doc), stateName, children)
      ensures forall i :: 0 <= i < |children| ==> Collected(old(store.doc), i)
    {
      ghost var doc0 := store.doc;
      ghost var names := TabNames(doc0, stateName, children);
      ghost var labels := TabLabels(doc0, stateName, children);
      ghost var flags := ActiveFlags(doc0, stateName, children);
      ghost var docAfter := DocAfterTemplate(doc0, stateName, children);
      ghost var activeName := ActiveName(doc0, stateName, children);
      var activeTabName := store.Get(stateName, Null);
      var i := 0;
      while i < |children|
        invariant 0 <= i <= |children|
        invariant store.Valid() && store.order == old(store.order) && store.watch == old(store.watch)
        invariant store.doc == if i == 0 then doc0 else docAfter
        invariant activeTabName == if i == 0 then Document.Get(doc0, stateName, Null) else activeName
        invariant forall j :: 0 <= j < i ==>
          children[j].tabName == names[j] && children[j].tabLabel == labels[j] && children[j].active == flags[j]
      {
        activeTabName := CollectPanel(store, doc0, i, activeTabName, names[i], labels[i], flags[i]);
        i := i + 1;
      }
      AllCollected(doc0);
    }

    /** Panels carrying the names, labels and flags of `doc` are collected
        for `doc`. */
    lemma AllCollected(doc: Doc)
      requires forall j :: 0 <= j < |children| ==>
        && children[j].tabName == TabNames(doc, stateName, children)[j]
        && children[j].tabLabel == TabLabels(doc, stateName, children)[j]
        && children[j].active == ActiveFlags(doc, stateName, children)[j]
      ensures forall j :: 0 <= j < |children| ==> Collected(doc, j)
    {
    }

    /** `panels.find((panel) => panel.active)`: the index of the first
        active panel, or the number of panels when none is active. */
    method FindActive() returns (k: nat)
      ensures k <= |children|
      ensures forall j :: 0 <= j < k ==> !children[j].active
      ensures k < |children| ==> children[k].active
    {
      k := 0;
      while k < |children| && !children[k].active
        invariant 0 <= k <= |children|
        invariant forall j :: 0 <= j < k ==> !children[j].active
      {
        k := k + 1;
      }
    }

    /** The state-dependent part of `template`: the `forEach` over the
        panels, the buttons, and the choice of `currentPanel`. */
    method Template(store: StateStore) returns (buttons: seq<nat>)
      requires store.Valid() && DistinctPanels(children)
      modifies this, store, set p | p in children
      ensures store.Valid() && store.order == old(store.order) && store.watch == old(store.watch)
      ensures store.doc == DocAfterTemplate(old(store.doc), stateName, children)
      ensures forall i :: 0 <= i < |children| ==> Collected(old(store.doc), i)
      ensures buttons == ButtonIndices(tabEdge, children)
      ensures var k := FirstActive(old(store.doc), stateName, children);
        currentPanel == if k.Some? then children[k.value] else null
    {
      ghost var doc0 := store.doc;
      CollectPanels(store);
      buttons := ButtonIndices(tabEdge, children);
      var k := FindActive();
      ghost var flags := ActiveFlags(doc0, stateName, children);
      forall j | 0 <= j < |children| ensures children[j].active == flags[j] {
        assert Collected(doc0, j);
      }
      FirstActiveAt(flags, k);
      currentPanel := if k < |children| then children[k] else null;
    }

    /** When the panels carry the given flags, the panel the loop of
        `FindActive` stops at is the first flagged one. */
    lemma FirstActiveAt(flags: seq<bool>, k: nat)
      requires |flags| == |children|
      requires forall j :: 0 <= j < |children| ==> children[j].active == flags[j]
      requires k <= |children|
      requires forall j :: 0 <= j < k ==> !children[j].active
      requires k < |children| ==> children[k].active
      ensures FirstTrue(flags, 0) == if k < |children| then Some(k) else None
    {
      var r := FirstTrue(flags, 0);
      if r.Some? {
        assert !(r.value < k);
      }
    }

    /** `switchTab(tabName)`: one update of the tab state. */
    method SwitchTab(store: StateStore, tabName: string, connected: set<nat>)
      returns (changed: set<string>, notified: seq<Notification>)
      requires store.Valid()
      modifies store
      ensures store.Valid() && store.order == old(store.order) && store.watch == old(store.watch)
      ensures store.doc == Merge(old(store.doc), SwitchPatch(stateName, tabName))
      ensures changed == ChangeSet(old(store.doc), store.doc)
      ensures notified == Notifications(store.order, store.watch, changed, connected, store.doc)
    {
      changed, notified := store.Update(SwitchPatch(stateName, tabName), connected);
    }
  }
}
