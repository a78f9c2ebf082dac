# OS-DPI core: a Dafny model

OS-DPI is a browser-based designer for accessible communication interfaces.
The pieces of it modelled here are the ones that decide what the interface
does in response to user input:

- the global **state** store (`state.js`): a flat document of named values,
  read through dotted names, patched with mergerino-style patches, and
  watched by listeners that are told which of their names changed;
  `$name` interpolation; `define` for defaults; `parseAction` for
  `$a = $b` / `$a = field` assignment strings;
- the **rule engine** (`components/actions.js`): each event from an origin
  scans the rules in order, fires the first whose origin matches and whose
  conditions all hold, applies its updates as one patch, then drains
  queued events last-in-first-out; also the upgrade from the legacy array
  format and the collection of every `$state` a rule set mentions;
- **layout** tree navigation in the designer (`components/layout.js`):
  the visible-children order, next/previous navigation, expanding the
  ancestors of a selection, adding and deleting nodes and the arrow-key
  handler;
- the **radio** chooser (`components/radio.js`): click toggling via the
  last-clicked state, the default choice and the button colours;
- the **tab control** (`components/tabcontrol.js`): panel name
  interpolation, the default tab, the active panel and the tab buttons;
- the **logger** (`components/logger.js`): its two input validators, the
  record built on each render and for each DOM event, and the set of event
  listeners it keeps.

Files: `values.dfy` (JavaScript values, truthiness, `String()`, loose
`==`), `text.dfy` (character classes and the regular-expression scanners),
`document.dfy` (the state document, `merge`, change sets),
`interpolate.dfy` (`interpolate`, `parseAction`), `store.dfy` (the
listener registry and the `StateStore` class), `rules.dfy` (rule trees,
upgrade, `allStates`), `engine.dfy` (`applyRules` as a specification and as
the `Actions` class), `layout.dfy`, `radio.dfy`, `tabcontrol.dfy` and
`logger.dfy`.

Where a component reads or writes the state, the methods take the
`StateStore` object and their contracts give the new document as
`Merge(old(doc), patch)` with the patch the source builds. The change set
and the notification list each update produces are also part of the
contract. Expression evaluation, the data table's `hasMatchingRows`, the
logger's clock and its `access` helper, and the presence of the `#UI`
element are parameters of the model.

## Model

| member | source | states |
|---|---|---|
| Values.Or | state.js:92-93 | `a \|\| b`: the first operand when truthy, otherwise the second; the result is truthy iff either operand is |
| Values.LooseEqualsToString | components/radio.js:89 | a string or number option value is loosely equal (`==`) to its own `String()` form |
| Values.TrimSpace | components/radio.js:89 | `Number()` first drops the leading and trailing white space: the result is empty iff the string is all white space, and otherwise starts and ends with a non-space |
| Values.TrimSpacePadded | components/radio.js:89 | trimming white space around a text that starts and ends with a non-space gives back that text |
| Values.PaddedNumber | components/radio.js:89 | white space around a numeral does not change the number it reads as |
| Values.PlusSignedNumber | components/radio.js:89 | a numeral with a leading `+` reads as the numeral itself |
| Values.NonNegativeNumber | components/radio.js:89 | a run of digits reads as its decimal value |
| Values.NegativeNumber | components/radio.js:89 | a `-` followed by digits reads as the negated decimal value |
| Values.ToNumberOfIntToString | components/radio.js:89 | reading back the decimal form of an integer gives the integer |
| Values.LooseEqualsPaddedNumber | components/tabcontrol.js:39 | a number is loosely equal to its decimal form with white space around it |
| Values.IntToString | state.js:102 | `String(n)` of an integer is a non-empty numeral |
| Values.ToString | state.js:102 | `String(v)`: `undefined`, `null`, `true`/`false`, the decimal form of a number, the string itself, or `[object Object]`; its meaning is stated by `LooseEqualsToString` and `ToStringEmptyIff` |
| Values.ToStringEmptyIff | state.js:102 | `String(v)` is empty only for the empty string, so an interpolated reference never disappears unless its value is `""` |
| Values.ToNumber | components/radio.js:89 | `Number(s)` of an empty or all-white-space string is 0 |
| Values.LooseEqualsString | components/radio.js:89 | a number is loosely equal to an empty or all-white-space string iff it is 0 |
| Text.Split | state.js:20 | `split(".")` yields at least one part and no part contains the separator |
| Text.JoinSplit | state.js:20 | joining the parts of `split` with the separator gives back the original string |
| Text.FirstSegment | state.js:82 | `name.split(".")[0]` is the longest prefix that has no separator, ending at the first separator or at the end of the string |
| Text.SplitSpacesKeepsText | components/logger.js:53 | `split(/\s+/)` never produces a part that contains whitespace, and its parts concatenate to the input with the whitespace removed |
| Text.SplitSpacesEnds | components/logger.js:53 | the first part of `split(/\s+/)` is empty exactly when the text is empty or starts with white space, and the last part exactly when it is empty or ends with white space |
| Text.SplitSpacesCuts | components/logger.js:53 | the parts, with the white-space runs between them, rebuild the text; the parts hold no white space, every run is non-empty white space, and only the first and last part can be empty |
| Text.SpaceCutUnique | components/logger.js:53 | any such cut of the text into white-space-free parts at non-empty white-space runs is the one `split(/\s+/)` makes, so the cuts fall exactly at the maximal white-space runs |
| Text.SplitSpacesIff | components/logger.js:53 | a list is `split(/\s+/)` of the text exactly when some choice of white-space runs cuts the text into that list as above |
| Text.WordTokensFromAreRuns | components/logger.js:103 | `matchAll(/\w+/g)` yields exactly the maximal runs of word characters |
| Text.DollarTokensFromAreRefs | components/actions.js:122 | `matchAll(/\$\w+/g)` yields exactly the `$` references, each a `$` followed by a maximal run of word characters |
| Text.RunEnd | components/logger.js:31-33 | the end of the maximal run of characters of a class from a position: every character before it is in the class and the one at it is not |
| Text.RunEndIs | components/logger.js:31-33 | any position that ends a maximal run of the class is the one `RunEnd` finds |
| Text.FirstWhere | state.js:102 | the first position whose character is in a class, and none iff no character is |
| Document.WalkResolved | state.js:18-24 | when every step of a dotted name reaches a truthy object, `state(name)` is the value at the end of the path |
| Document.WalkFalsy | state.js:18-24 | once a step reaches a falsy value, the walk continues from the default value |
| Document.GetIgnoresDefault | state.js:18-24 | a fully resolved dotted name yields the same value whatever the default |
| Document.GetTopLevel | state.js:18-24 | a name without a dot reads the top-level key (undefined when absent) |
| Document.GetFalsyParent | state.js:18-24 | `a.b` with a falsy `a` yields the default |
| Document.Get | state.js:18-24 | `state(name, default)`: the empty name gives the whole state; otherwise the `reduce` over `split(".")` from the state object; its meaning is stated by `WalkResolved`, `WalkFalsy`, `GetTopLevel` and `GetFalsyParent` |
| Document.Field | state.js:20 | `o[p]`: an object's own key, a string's `length`, a string's character at a decimal index in range, and `undefined` for any other property (lengths and indices count Unicode scalar values, see "## Left out") |
| Document.GetStringLength | state.js:18-24 | `state("a.length")` of a non-empty string `a` is its length, counted in Unicode scalar values (equal to the UTF-16 length for text inside the Basic Multilingual Plane) |
| Document.FalsyAt | state.js:20 | when a path does not resolve, some step of it reaches a falsy value |
| Document.PutAll | state.js:32-34 | a plain object patch puts every key it lists and touches no other |
| Document.Merge | state.js:34 | a merge only holds keys of the document or the patch, and a key the patch deletes is absent |
| Document.LookupMergePutAll | state.js:34 | after merging a plain patch, each key holds the patched value if listed and its old value otherwise |
| Document.MergeKeepsOthers | state.js:34 | a merge leaves the value and presence of every key outside the patch unchanged |
| Document.ComputeChangeSet | state.js:35-45 | the two loops collect exactly the keys whose value differs or that disappeared |
| Document.ChangeSet | state.js:35-45 | only keys of the old or the new document are reported, and nothing when the document did not change |
| Document.ChangeSetOfMerge | state.js:33-45 | after a merge, a key is changed iff the patch names it and its new value differs from its old one |
| Document.ChangeSetWithinPatch | state.js:33-45 | an update never reports a key its patch does not name |
| Document.EmptyPatchChangesNothing | state.js:33-45 | an empty update leaves the document as it was and reports no change |
| Document.FromEntriesLastWins | components/actions.js:79-84 | `Object.fromEntries` holds exactly the keys of the entries, and each key maps to the value of its last entry |
| Document.FromEntriesKeys | components/actions.js:79-84 | a name is a key of `Object.fromEntries` exactly when some entry carries it |
| Document.FromEntriesLastValue | components/actions.js:79-84 | an entry that no later entry overrides gives its key its value |
| Interpolation.FindRef | state.js:102 | the match position of `/\$[a-zA-Z0-9_.]+/` is the first `$` followed by a name character, and there is no match iff no such position exists |
| Interpolation.FindBrace | state.js:103-105 | the match position of `/\$\{([a-zA-Z0-9_.]+)}/` is the first `${name}`, and there is no match iff no such position exists |
| Interpolation.ReplaceFirstRef | state.js:102 | with no `$name` match the input is returned unchanged |
| Interpolation.ReplaceFirstRefAt | state.js:102 | at the first match, the longest run of name characters after `$` is the name, and only that reference is replaced by `String(state(name))`, with the text on both sides kept |
| Interpolation.ReplaceLeadingRef | state.js:102 | a leading `$a` followed by a non-name character is replaced by the string of the top-level value `$a` |
| Interpolation.ReplaceFirstBrace | state.js:103-105 | with no match the input is returned unchanged |
| Interpolation.ReplaceFirstBraceAt | state.js:103-105 | with a match, only the first `${name}` is replaced, by `String(state("$" + name))`, and the text before and after it is kept |
| Interpolation.Interpolate | state.js:101-107 | interpolating a string that has no `$` gives back the string; the two replacements are stated by `ReplaceFirstRefAt` and `ReplaceFirstBraceAt` |
| Interpolation.NoBraceWithoutOpening | state.js:103-105 | a string without `${` has no brace reference |
| Interpolation.InterpolateFirstOnly | state.js:101-107 | `$a` followed by non-name text is replaced by the state value of `$a` and the rest is kept |
| Interpolation.LeadingRef | state.js:102 | a leading `$a` followed by a non-name character is the first reference, and its name ends where `a` ends |
| Interpolation.NoBraceAfterValue | state.js:103-105 | a replaced value without `$`, followed by text without `{`, holds no `${name}` |
| Interpolation.AssignmentAt | state.js:116 | a match of `/(\$\w+)\s*=\s*(\$?\w+)/` has a `$`-prefixed word target and a non-empty word source, and lies within the input |
| Interpolation.GapEnd | state.js:116 | the `\s*=\s*` part of the pattern ends after the input's first non-space character, or is absent |
| Interpolation.AssignmentAtMatches | state.js:116 | what the scanner finds at a position is a match of the pattern there |
| Interpolation.MatchIsAssignmentAt | state.js:116 | every match of the pattern at a position is the one the scanner finds there (greedy runs) |
| Interpolation.AssignmentsFrom | state.js:116 | the `matchAll` loop: at each position either the match found there, resuming after it, or the next position |
| Interpolation.AssignmentsFromAreMatches | state.js:116 | every assignment `matchAll` yields is a match of the pattern, starting at or after where the search resumed |
| Interpolation.AssignmentsFromAreLeftmost | state.js:116 | no match starts before the one `matchAll` yields next, and there is a next one whenever a match remains: the yields are the leftmost non-overlapping matches |
| Interpolation.AssignmentEntries | state.js:117-121 | each assignment gives one entry: an interpolated value for a `$` source, otherwise the context field |
| Interpolation.BuildAction | state.js:115-122 | the loop builds the action object from the assignment entries in order |
| Interpolation.ActionContents | state.js:115-123 | the action has a key iff some assignment targets it, and its value comes from the last such assignment |
| Interpolation.EntriesContents | state.js:117-121 | the entries of a list of assignments have a key iff one targets it, with the value of the last such assignment |
| Store.Args | state.js:57 | a function listener is called with `state(name)` for each of its names, in order |
| Store.SelectListeners | state.js:46-59 | the loop over the listeners collects exactly the notifications of the specification, in registration order |
| Store.NotificationsSound | state.js:46-59 | every notification goes to a listener that watches a changed name and is a connected element or a function |
| Store.NotificationsComplete | state.js:46-59 | every such listener is notified |
| Store.NotifiedIff | state.js:46-59 | a listener is notified iff it fires on the change set |
| Store.NotificationsInOrder | state.js:46-59 | notifications follow the registration order of the listeners |
| Store.Notifications | state.js:46-59 | one pass over the listeners makes at most one call per listener |
| Store.NoChangeNotifiesNobody | state.js:46-59 | an empty change set invokes no listener |
| Store.Heads | state.js:82 | `observe` keeps only the first segment of each watched name |
| Store.DefineEffect | state.js:90-95 | `define` leaves a truthy value untouched and otherwise stores the default; nothing else changes |
| Store.StateStore.constructor | state.js:8-11 | the store starts from the given document (the empty object, or the one persisted) with no listeners |
| Store.StateStore.Update | state.js:32-59 | the document becomes the merge of the old one with the patch, and the change set and notifications are those of the specification |
| Store.StateStore.Observe | state.js:79-84 | `observe` registers or replaces the listener's heads, keeping the first registration position |
| Store.StateStore.Define | state.js:90-95 | the document becomes the merge with the define patch; listeners are not notified |
| Store.StateStore.RunAction | state.js:113-125 | running a parsed action updates the state with the assignments evaluated against the document before the update |
| Rules.Conditions | components/actions.js:244-246 | the conditions of a rule are condition children only |
| Rules.Updates | components/actions.js:248-250 | the updates of a rule are update children only |
| Rules.FilterMembers | components/actions.js:244-250 | a child is among the conditions (updates) iff it is a condition (update) child of the rule |
| Rules.FiltersAppend | components/actions.js:244-250 | both filters distribute over concatenation and together keep every child once |
| Rules.UpgradeAction | components/actions.js:206-229 | a legacy action becomes a rule whose children are its conditions then its updates in order, with origin `init` for an `init` event |
| Rules.Upgrade | components/actions.js:200-233 | a rule tree is returned unchanged; a legacy array becomes one upgraded rule per action, in order |
| Rules.UpgradedFilters | components/actions.js:206-229 | an upgraded rule's condition and update filters give back the legacy conditions and updates |
| Rules.OnlyConditions | components/actions.js:209-215 | a list of condition children filters to itself and has no updates |
| Rules.OnlyUpdates | components/actions.js:216-222 | a list of update children filters to itself and has no conditions |
| Rules.AddTokens | components/actions.js:122-124 | the loop adds exactly the `$` tokens of the text |
| Rules.AddChildStates | components/actions.js:121-130 | a condition adds its `$` tokens; an update adds its state name and the `$` tokens of its value |
| Rules.AddChildrenStates | components/actions.js:121-130 | an inner loop adds exactly the states its children mention |
| Rules.AllStates | components/actions.js:118-134 | the loops compute exactly the states of the rule set |
| Rules.ChildrenStatesIff | components/actions.js:120-131 | a state is collected from a list of children iff one of them mentions it |
| Rules.RuleStatesIff | components/actions.js:120-131 | a state is collected from a rule iff one of its children mentions it: a `$` reference in a condition or a new value, or an update target |
| Rules.StatesOfIff | components/actions.js:118-134 | a state is collected iff some child of some rule mentions it |
| Rules.TokenSetAreRefs | components/actions.js:122 | the token set of a text is exactly its `$` references |
| Engine.CheckConditions | components/actions.js:74-76 | `every` holds iff each condition evaluates truthy |
| Engine.ScanFrom | components/actions.js:70-88 | the fired index, if any, is a rule at or after the start of the scan |
| Engine.ScanFromFirstEligible | components/actions.js:70-88 | the fired rule is eligible and none before it is; no rule fires iff none is eligible |
| Engine.ScanIgnoresLaterRules | components/actions.js:70-88 | once a rule fires, appending rules changes nothing |
| Engine.UpdateEntries | components/actions.js:79-84 | each update gives one entry, its state name paired with its evaluated new value |
| Engine.RulePatchContents | components/actions.js:77-85 | the patch of a fired rule names exactly its update targets, with the last update's value for each |
| Engine.EntriesByName | components/actions.js:79-84 | entries keyed by update state names hold a key iff some update names it, with the last such entry's value |
| Engine.Cycle | components/actions.js:68-88 | a cycle fires a rule of the rule set, if any, and a cycle that fires none leaves the document unchanged |
| Engine.CycleFiresFirstEligible | components/actions.js:68-88 | a cycle fires the first eligible rule and merges its patch; with no eligible rule the document is unchanged |
| Engine.Run | components/actions.js:65-96 | the first cycle uses the event's origin and data; the run stops with an empty queue unless the fuel runs out |
| Engine.RunDrainsLastInFirstOut | components/actions.js:89-95 | each later cycle takes the most recently queued event with empty data |
| Engine.LastFiredCons | components/actions.js:78 | prepending a cycle keeps the last fired rule of the trace, or records its own rule |
| Engine.LastRuleCons | components/actions.js:78 | a cycle in front of a trace sets `last.rule` when it fires a rule and leaves it otherwise |
| Engine.RunReportsLastRule | components/actions.js:66-95 | the rule a run reports is `last.rule` after its cycles, one cycle at a time |
| Engine.LastRuleIsLatestFired | components/actions.js:66-78 | `last.rule` after a sequence of cycles is the rule of the latest cycle that fired one, or the initial rule |
| Engine.RunLastFired | components/actions.js:66-78 | `last.rule` is the rule fired in the latest cycle that fired one |
| Engine.RunStep | components/actions.js:89-95 | a run is one cycle followed by the run of the popped event |
| Engine.RunFirstRecord | components/actions.js:68-88 | the first cycle a run records runs with the run's origin and data |
| Engine.DrainsCons | components/actions.js:89-95 | a cycle whose queue top the next cycle pops can be put in front of a draining trace |
| Engine.RunChained | components/actions.js:65-95 | the cycles of a run are chained: each starts from the document the previous one left, a cycle that fires nothing leaves it unchanged, and the last one leaves the run's final document |
| Engine.UnchangedCycleNotifiesNobody | components/actions.js:86 | a cycle that leaves the document as it was invokes no listener |
| Engine.FirstCycleNotices | components/actions.js:77-86 | a run's first cycle invokes the listeners of its single update when a rule fired, and none otherwise |
| Engine.Actions.constructor | components/actions.js:23-48 | a new rule set has an empty queue and no last event |
| Engine.Actions.QueueEvent | components/actions.js:54-56 | `queueEvent` pushes one item on the queue and changes nothing else |
| Engine.Actions.ScanRules | components/actions.js:70-88 | the loop finds the rule of the scan specification |
| Engine.Actions.RunCycle | components/actions.js:69-88 | one cycle updates the store with the fired rule's patch and queues its events; its notifications are those of exactly one `state.update` when a rule fired and none otherwise |
| Engine.Actions.ApplyRules | components/actions.js:65-97 | the loop leaves the store, the queue and `last` as the run specification says, and returns, cycle by cycle, the notifications of that cycle's update |
| Engine.Actions.Turn | components/actions.js:68-95 | one pass of the loop either ends the run as specified or pops the newest queued event for the next pass, with the notifications of its cycle |
| LayoutTree.GetNode | components/layout.js:42-47 | a missing path selects the root; otherwise the path is followed from the root |
| LayoutTree.Subtree | components/layout.js:42-47 | the node a path of child indices leads to, or none when an index is out of range; its meaning is stated by `SubtreeAppend` and `SubtreeParent` |
| LayoutTree.SubtreeIdIn | components/layout.js:42-47 | a node reached by a path is a node of the tree |
| LayoutTree.PathTo | components/layout.js:49-59 | the depth-first search for a node; stated by `PathToSound`, `PathToAbsent` and `PathOfNode` |
| LayoutTree.PathToSound | components/layout.js:49-59 | the path found for a node leads to it |
| LayoutTree.PathInChildrenSound | components/layout.js:53-57 | a path found among the children leads to the node |
| LayoutTree.PathToAbsent | components/layout.js:49-59 | a node not in the tree has no path |
| LayoutTree.PathInChildrenFinds | components/layout.js:53-57 | a node in exactly one child is found under that child |
| LayoutTree.PathOfNode | components/layout.js:49-59 | in a tree with distinct nodes, `getPath(getNode(p)) == p` |
| LayoutTree.Under | components/layout.js:97-99 | nesting paths under child `i` prefixes each with `i` |
| LayoutTree.VisibleIff | components/layout.js:95-104 | a path is visible iff it is non-empty, valid, and every proper ancestor has children and is expanded |
| LayoutTree.VisibleFromIff | components/layout.js:96-100 | the children from `from` on contribute exactly the paths under those children that are shown |
| LayoutTree.NotVisibleItself | components/layout.js:95-104 | the root is never among its own visible children |
| LayoutTree.Visible | components/layout.js:95-104 | the visible descendants of an expanded node with children, in pre-order; stated by `VisibleIff` |
| LayoutTree.VisibleSubtree | components/layout.js:95-104 | every visible path leads to a node of the tree |
| LayoutTree.ShownSubtree | components/layout.js:95-104 | a path that is shown leads to a node of the tree |
| LayoutTree.IndexOf | components/layout.js:111 | `indexOf` gives the first position of the selection, and -1 iff it is absent |
| LayoutTree.NextVisible | components/layout.js:109-113 | the next visible node clamps at the last one; an unlisted selection goes to the first one |
| LayoutTree.PreviousVisible | components/layout.js:118-122 | the previous visible node clamps at the first one |
| LayoutTree.NavigationClamps | components/layout.js:109-122 | down from the last node and up from the first node stay where they are |
| LayoutTree.PathIds | components/layout.js:19-24 | the ids of the ancestors of a node, root first |
| LayoutTree.AppendChild | components/layout.js:67 | the child is appended to the selected node, and the ids along the path are kept |
| LayoutTree.RemoveChild | components/layout.js:131 | `splice(index, 1)` removes exactly that child of the node, and the ids along the path are kept |
| LayoutTree.AppendChildUnique | components/layout.js:67 | appending a tree whose ids are new keeps the ids distinct and adds exactly the new ones |
| LayoutTree.RemoveChildUnique | components/layout.js:131 | removing a child keeps the ids distinct and adds none |
| LayoutTree.UniqueNode | components/layout.js:67 | a node over children with distinct ids, none equal to its own, has distinct ids |
| LayoutTree.SubtreeAppend | components/layout.js:42-47 | following one more index reaches that child |
| LayoutTree.SubtreeParent | components/layout.js:129 | a non-root node is its parent's child at the last index of its path |
| LayoutTree.Layout.constructor | components/layout.js:389-392 | the designer starts from a tree with distinct ids with the root selected |
| LayoutTree.Layout.MakeVisible | components/layout.js:19-24 | every proper ancestor of the node is expanded; the tree and selection are unchanged |
| LayoutTree.Layout.SetSelected | components/layout.js:28-35 | the selection moves and its ancestors are expanded |
| LayoutTree.Layout.AddChild | components/layout.js:64-70 | the new child, with a fresh id, is appended to the selected node and becomes the selection; the ids stay distinct |
| LayoutTree.Layout.DeleteCurrent | components/layout.js:125-140 | the selected node is removed, and the selection moves to the previous sibling, or the first one, or the parent when none is left; the ids stay distinct and none is added |
| LayoutTree.Layout.TreeKey | components/layout.js:356-387 | arrow keys move the selection to any visible target, or expand or collapse, as the handler's branches say |
| Radio.ClickEntriesMap | components/radio.js:64-71 | a repeated click clears primary and secondary to null; otherwise primary, secondary and last-clicked take the value |
| Radio.ClickUpdates | components/radio.js:62-71 | the update object has those values and exactly those keys |
| Radio.ClickSelects | components/radio.js:67-71 | a new click stores the value in all three states and leaves others alone |
| Radio.ClickClears | components/radio.js:64-67 | a repeated click nulls primary and secondary and leaves others alone |
| Radio.RepeatedClicksClear | components/radio.js:61-71 | clicking the same button twice selects and then clears |
| Radio.Click | components/radio.js:102-113 | the button's click handler updates the store with the click patch |
| Radio.HandleClick | components/radio.js:58-75 | a click on a button updates as above and returns that update's notifications; any other target changes nothing and notifies nobody |
| Radio.Valid | components/radio.js:39-52 | with no filters every option is valid; otherwise valid iff rows match the state with the option chosen |
| Radio.FirstSelectable | components/radio.js:84-87 | the first option that is valid and has a truthy value |
| Radio.ColorOf | components/radio.js:88-91 | the selected colour iff the option equals the current value or nothing is current at index 0 |
| Radio.ChoiceStep | components/radio.js:82-91 | at each option the default branch is taken iff that option is the default, and the colour is chosen with the earlier default or the state |
| Radio.ChooseOption | components/radio.js:82-87 | one option of the `map`: `current` becomes the option's value, and both selection states are written, exactly when this option is the default, with the notifications of that update; afterwards `current` is the value this option's colour is chosen with |
| Radio.Choices | components/radio.js:81-91 | rendering chooses the first selectable option as a default when nothing is current, writes it to primary and secondary in one update whose notifications it returns, and colours each button |
| Radio.DefaultChoice | components/radio.js:84-87 | a default is written iff the primary state is named, falsy, and some option is selectable, and it is the first selectable one |
| Radio.ColorsWithCurrent | components/radio.js:88-91 | with a truthy current value no default is taken, and the matching option is coloured selected |
| Radio.ColorsWithoutChoice | components/radio.js:88-91 | with the primary state undefined or null and no selectable option, only the first button is coloured selected |
| Radio.Name | components/radio.js:130-132 | name, else label, else the primary state name |
| TabControl.TabPanel.constructor | components/tabcontrol.js:122-131 | a panel starts inactive with empty computed names |
| TabControl.FirstTrue | components/tabcontrol.js:71 | the first set flag from a position on, or none when no flag there is set |
| TabControl.FirstActive | components/tabcontrol.js:71 | `find` returns the first active panel, or none |
| TabControl.CurrentPanelIsFirstActive | components/tabcontrol.js:39 | a single panel is always the current one |
| TabControl.LabelledFrom | components/tabcontrol.js:43-45 | the labelled panels, in order |
| TabControl.ButtonIndices | components/tabcontrol.js:41-45 | no buttons for edge `none`; otherwise one button per panel not labelled `UNLABELED`, in order |
| TabControl.DefaultTab | components/tabcontrol.js:35-38 | with a falsy tab state the first panel's name is defined as the tab and that panel is active; no other state changes |
| TabControl.KeepsTab | components/tabcontrol.js:30-39 | with a truthy tab state rendering leaves the document unchanged and each panel's name is its interpolated name |
| TabControl.SwitchTabOnlyStateName | components/tabcontrol.js:102-104 | switching tabs sets the tab state to the name and changes nothing else |
| TabControl.TabControl.constructor | components/tabcontrol.js:21-25 | a control starts with no current panel |
| TabControl.TabControl.CollectPanel | components/tabcontrol.js:32-40 | one step of the panel loop sets this panel's tab name, label and active flag as computed against the state, defines the tab state at the first panel when it is empty, and leaves the other panels untouched |
| TabControl.TabControl.CollectPanels | components/tabcontrol.js:32-40 | the panel loop leaves the document after the define and sets every panel's names and flag |
| TabControl.TabControl.FindActive | components/tabcontrol.js:71 | the index of the first active panel, or the panel count |
| TabControl.TabControl.FirstActiveAt | components/tabcontrol.js:71 | the panel the `find` loop stops at is the first panel whose flag is set, or none |
| TabControl.TabControl.Template | components/tabcontrol.js:27-71 | rendering updates the document and panels as specified, returns the button list and sets the current panel to the first active one |
| TabControl.TabControl.SwitchTab | components/tabcontrol.js:102-104 | the store is updated with the tab state set to the name |
| Logger.ValidateIff | components/logger.js:31-33 | validation passes (empty message) iff the input is a sequence of `#`/`$` field names each followed by optional whitespace; otherwise the message is `Invalid input` |
| Logger.Validate | components/logger.js:31-33 | the message is empty or `Invalid input` |
| Logger.MatchesFieldsSound | components/logger.js:31-33 | the greedy matcher accepts only such sequences |
| Logger.MatchesFieldsComplete | components/logger.js:31-33 | the greedy matcher accepts every such sequence |
| Logger.ValidateEventNamesIff | components/logger.js:41-43 | validation passes iff the input is empty or starts with a word character and holds only word and space characters |
| Logger.ValidateEventNames | components/logger.js:41-43 | the message is empty or `Invalid input` |
| Logger.BuildRecord | components/logger.js:53-60 | the record holds exactly the names whose value is truthy, with those values |
| Logger.TemplateRecord | components/logger.js:45-62 | a record is logged iff logging is on, and it holds exactly the listed names with truthy values |
| Logger.HandleEvent | components/logger.js:124-136 | the event record keeps exactly the properties that are not all-caps, not excluded and of a simple type, with their values |
| Logger.Logger.constructor | components/logger.js:87-92 | a logger starts with no listeners |
| Logger.Logger.OnUpdate | components/logger.js:93-107 | without `#UI` nothing changes; otherwise the listeners become the words of the event list, the old ones are removed and every listener is registered |
| Logger.OnUpdateListeners | components/logger.js:103-106 | the listener set holds exactly the maximal word runs of the event list |

## Left out

- Persistence to `localStorage`, `designerRender` and `state.render` are I/O and are not modelled.
- Listener callbacks are not run. `Update` returns the ordered list of notifications, so re-entrant updates from inside a listener are not captured.
- Expression evaluation (`Condition.eval`, `newValue.eval`) is an oracle. An expression that throws is not modelled: the source does not catch it.
- mergerino's deep merge of nested object patches is not modelled. Patches here are flat: put, delete by `undefined`, or apply a function.
- Object identity: `!==` on objects is modelled as structural inequality.
- Numbers are integers. Floating point and `NaN` are not modelled.
- Values.ToNumber: only decimal integer literals with optional white space and sign are read. Hexadecimal, octal and binary prefixes, exponents, decimals and `Infinity` give no number, where `Number()` reads them.
- Values.LooseEqualsString: inherits the literal forms `ToNumber` does not read, so `1 == "1.0"` and `16 == "0x10"` are false in the model.
- Document.Field: properties inherited through the prototype chain, and properties of numbers and booleans, are `undefined` in the model. Only own keys, a string's `length` and its indexed characters are read. A string is a sequence of Unicode scalar values, so `length` and character indices count code points, not UTF-16 code units: for a character outside the Basic Multilingual Plane, such as an emoji, JavaScript counts two units where the model counts one, and `s[1]` is then a lone surrogate in JavaScript but another character, or `undefined`, in the model.
- Document.GetStringLength: holds for the scalar-value length. It equals JavaScript's `length` only for text inside the Basic Multilingual Plane.
- Values are `undefined`, `null`, booleans, integers, strings and flat objects. Arrays and function values are not modelled, so `String([1, 2])`, `[1] == "1"` and a rule whose new value is a function, which mergerino would apply to the old value, cannot be expressed. Rule patches are always puts.
- The components call `get`, `clone`, `update` and `define` on an instance of a `State` class that `start.js` creates; that class is not part of this model. It is identified with the `state.js` store: `get(n)` is `state(n, null)`, `clone(p)` is the merge of the document with the put-patch of `p`, and `update` and `define` are `StateStore.Update` and `StateStore.Define`.
- Engine.Run: the source's `while (true)` is unbounded. The model takes a fuel bound on the number of queued cycles, and `ApplyRules` reports when the fuel runs out.
- `Actions.handler` (the `alt-` event prefix for pointer events) and the rule editor's UI are not modelled.
- The radio click debounce and `data.hasMatchingRows` are oracles. Grid filters appear only as their count.
- `Logger.log` timestamps and `db.write`, `SaveLogs`, `ClearLogs` and the CSV download are I/O. The clock comparison `new Date() < new Date(logUntil)` is a boolean parameter, and `access` is a function parameter.
- `addEventListener` and `removeEventListener` on `#UI` are modelled as the `registered` set.
- LayoutTree.Layout: the tree is a value with ids and the selection is a path. Parent pointers and aliasing between tree nodes are not modelled.
- LayoutTree.Layout.SetSelected: the state update of `path` and `editingTree` and the highlight class are not modelled.
- LayoutTree.Layout.TreeKey: the `refresh` calls for Enter and space, and those after expanding on ArrowRight and collapsing on ArrowLeft, are not modelled. Arrow navigation in a view with no visible nodes is modelled as no move, where the source would select `undefined`.
- LayoutTree.Layout.AddChild: the source adds a new object, distinct by identity; the model names node identity by id, so the caller supplies an id not yet in the tree.
- LayoutTree.Layout.DeleteCurrent: deleting the root is modelled as a no-op, where the source throws on the missing parent.
- The prop editor, the add-child menu and all HTML templates are not modelled.
- `state.define` replaces any falsy value, not only an absent one. The model follows the code.
- A `hasBeenUpdated` query on the store does not exist in `state.js` and is not modelled.
- Tab and button focus handling and `panelTemplate` rendering are not modelled.
