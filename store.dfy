/** The reactive state store of state.js: the document, the registry of
    listeners (kept in registration order, as a JavaScript `Map` keeps its
    keys), and the operations `update`, `observe`, `define` and the
    closure built by `parseAction`. */
module Store {
  import opened Values
  import opened Text
  import opened Document
  import opened Interpolation

  /** A registered listener: a component (`ABase`), which is re-rendered,
      or a plain function, which is called with the watched values. */
  datatype Listener = Element(id: nat) | Callback(id: nat)

  /** One listener invocation made by `update`. */
  datatype Notification = Render(element: nat) | Call(callback: nat, args: seq<Value>)

  function Target(n: Notification): Listener
  {
    match n
    case Render(id) => Element(id)
    case Call(id, _) => Callback(id)
  }

  /** `names.some((name) => changed.has(name))`. */
  predicate Intersects(names: seq<string>, changed: set<string>)
  {
    exists i :: 0 <= i < |names| && names[i] in changed
  }

  /** Whether `update` invokes a listener: a component must also be
      connected to the page. */
  predicate Fires(l: Listener, names: seq<string>, changed: set<string>, connected: set<nat>)
  {
    (l.Element? ==> l.id in connected) && Intersects(names, changed)
  }

  /** `names.map((name) => state(name))`. */
  function Args(doc: Doc, names: seq<string>): (args: seq<Value>)
    ensures |args| == |names|
    ensures forall i :: 0 <= i < |names| ==> args[i] == Get(doc, names[i], Null)
  {
    seq(|names|, i requires 0 <= i < |names| => Get(doc, names[i], Null))
  }

  function Notify(l: Listener, names: seq<string>, changed: set<string>, connected: set<nat>, doc: Doc): seq<Notification>
  {
    if !Fires(l, names, changed, connected) then []
    else match l
      case Element(id) => [Render(id)]
      case Callback(id) => [Call(id, Args(doc, names))]
  }

  /** The invocations one pass over the registry makes, in registration
      order. */
  function Notifications(order: seq<Listener>, watch: map<Listener, seq<string>>,
                         changed: set<string>, connected: set<nat>, doc: Doc): (r: seq<Notification>)
    requires forall l :: l in order ==> l in watch
    ensures |r| <= |order|
  {
    if order == [] then []
    else Notify(order[0], watch[order[0]], changed, connected, doc)
         + Notifications(order[1..], watch, changed, connected, doc)
  }

  /** The loop of `state.update` over `Listeners`. */
  method SelectListeners(order: seq<Listener>, watch: map<Listener, seq<string>>,
                         changed: set<string>, connected: set<nat>, doc: Doc)
    returns (notified: seq<Notification>)
    requires forall l :: l in order ==> l in watch
    ensures notified == Notifications(order, watch, changed, connected, doc)
  {
    notified := [];
    var i := |order|;
    while i > 0
      invariant 0 <= i <= |order|
      invariant notified == Notifications(order[i..], watch, changed, connected, doc)
    {
      i := i - 1;
      assert order[i..][1..] == order[i + 1..];
      notified := Notify(order[i], watch[order[i]], changed, connected, doc) + notified;
    }
  }

  /** A notification is one `update` can make: its listener is registered
      and fires, and a function listener receives the current values of its
      watched names, in order. */
  ghost predicate Justified(order: seq<Listener>, watch: map<Listener, seq<string>>,
                            changed: set<string>, connected: set<nat>, doc: Doc, n: Notification)
  {
    && Target(n) in order && Target(n) in watch
    && Fires(Target(n), watch[Target(n)], changed, connected)
    && (n.Call? ==> n.args == Args(doc, watch[Target(n)]))
  }

  /** Every invocation is of a registered listener that fires, with the
      right arguments. */
  lemma {:induction false} NotificationsSound(order: seq<Listener>, watch: map<Listener, seq<string>>,
                                              changed: set<string>, connected: set<nat>, doc: Doc)
    requires forall l :: l in order ==> l in watch
    ensures forall n :: n in Notifications(order, watch, changed, connected, doc) ==>
      Justified(order, watch, changed, connected, doc, n)
    decreases |order|
  {
    if order != [] {
      var head := Notify(order[0], watch[order[0]], changed, connected, doc);
      var rest := Notifications(order[1..], watch, changed, connected, doc);
      NotificationsSound(order[1..], watch, changed, connected, doc);
      assert Notifications(order, watch, changed, connected, doc) == head + rest;
      forall n | n in head + rest ensures Justified(order, watch, changed, connected, doc, n) {
        if n !in head {
          assert Justified(order[1..], watch, changed, connected, doc, n);
        }
      }
    }
  }

  /** Every registered listener that fires is invoked. */
  lemma {:induction false} NotificationsComplete(order: seq<Listener>, watch: map<Listener, seq<string>>,
                                                 changed: set<string>, connected: set<nat>, doc: Doc, l: Listener)
    requires forall l :: l in order ==> l in watch
    requires l in order && Fires(l, watch[l], changed, connected)
    ensures exists n :: n in Notifications(order, watch, changed, connected, doc) && Target(n) == l
    decreases |order|
  {
    var head := Notify(order[0], watch[order[0]], changed, connected, doc);
    var rest := Notifications(order[1..], watch, changed, connected, doc);
    assert Notifications(order, watch, changed, connected, doc) == head + rest;
    if order[0] == l {
      assert head[0] in head + rest && Target(head[0]) == l;
    } else {
      assert l in order[1..];
      NotificationsComplete(order[1..], watch, changed, connected, doc, l);
      var n :| n in rest && Target(n) == l;
      assert n in head + rest;
    }
  }

  /** An update that changes nothing invokes no listener. */
  lemma {:induction false} NoChangeNotifiesNobody(order: seq<Listener>, watch: map<Listener, seq<string>>,
                                                  connected: set<nat>, doc: Doc)
    requires forall l :: l in order ==> l in watch
    ensures Notifications(order, watch, {}, connected, doc) == []
    decreases |order|
  {
    if order != [] {
      NoChangeNotifiesNobody(order[1..], watch, connected, doc);
    }
  }

  /** A listener is invoked exactly when it is registered and fires. */
  lemma NotifiedIff(order: seq<Listener>, watch: map<Listener, seq<string>>,
                    changed: set<string>, connected: set<nat>, doc: Doc, l: Listener)
    requires forall l :: l in order ==> l in watch
    ensures (exists n :: n in Notifications(order, watch, changed, connected, doc) && Target(n) == l) <==>
      (l in order && Fires(l, watch[l], changed, connected))
  {
    NotificationsSound(order, watch, changed, connected, doc);
    if l in order && Fires(l, watch[l], changed, connected) {
      NotificationsComplete(order, watch, changed, connected, doc, l);
    }
  }

  predicate Distinct<T(==)>(s: seq<T>)
  {
    forall i, j :: 0 <= i < j < |s| ==> s[i] != s[j]
  }

  function IndexOf<T(==)>(s: seq<T>, x: T): (k: nat)
    requires x in s
    ensures k < |s| && s[k] == x && x !in s[..k]
  {
    if s[0] == x then 0 else
      var k := 1 + IndexOf(s[1..], x);
      assert s[..k] == [s[0]] + s[1..][..k - 1];
      k
  }

  /** The listeners of `ns`, where registered, appear in the order `order`
      lists them. */
  ghost predicate InRegistrationOrder(order: seq<Listener>, ns: seq<Notification>)
  {
    forall i, j :: 0 <= i < j < |ns| && Target(ns[i]) in order && Target(ns[j]) in order ==>
      IndexOf(order, Target(ns[i])) < IndexOf(order, Target(ns[j]))
  }

  /** The invocations follow registration order. */
  lemma {:induction false} NotificationsInOrder(order: seq<Listener>, watch: map<Listener, seq<string>>,
                                                changed: set<string>, connected: set<nat>, doc: Doc)
    requires forall l :: l in order ==> l in watch
    requires Distinct(order)
    ensures InRegistrationOrder(order, Notifications(order, watch, changed, connected, doc))
    decreases |order|
  {
    if order != [] {
      var head := Notify(order[0], watch[order[0]], changed, connected, doc);
      var rest := Notifications(order[1..], watch, changed, connected, doc);
      NotificationsInOrder(order[1..], watch, changed, connected, doc);
      assert InRegistrationOrder(order[1..], rest);
      NotificationsSound(order[1..], watch, changed, connected, doc);
      var ns := head + rest;
      assert Notifications(order, watch, changed, connected, doc) == ns;
      assert |head| <= 1 && forall i :: 0 <= i < |head| ==> Target(head[i]) == order[0];
      forall i | 0 <= i < |rest|
        ensures Target(rest[i]) in order[1..]
        ensures IndexOf(order, Target(rest[i])) == 1 + IndexOf(order[1..], Target(rest[i]))
      {
        assert rest[i] in rest;
        var t := Target(rest[i]);
        var k := IndexOf(order[1..], t);
        assert order[1 + k] == t;
        assert t != order[0];
      }
      forall i, j | 0 <= i < j < |ns| && Target(ns[i]) in order && Target(ns[j]) in order
        ensures IndexOf(order, Target(ns[i])) < IndexOf(order, Target(ns[j]))
      {
        var j' := j - |head|;
        assert ns[j] == rest[j'];
        assert IndexOf(order, Target(rest[j'])) == 1 + IndexOf(order[1..], Target(rest[j']));
        if i < |head| {
          assert IndexOf(order, Target(ns[i])) == 0;
        } else {
          var i' := i - |head|;
          assert ns[i] == rest[i'];
          assert IndexOf(order, Target(rest[i'])) == 1 + IndexOf(order[1..], Target(rest[i']));
          assert rest[i'] in rest && rest[j'] in rest;
          assert IndexOf(order[1..], Target(rest[i'])) < IndexOf(order[1..], Target(rest[j']));
        }
      }
    }
  }

  /** Watching is by top-level name: `names.map((name) => name.split(".")[0])`. */
  function Heads(names: seq<string>): (heads: seq<string>)
    ensures |heads| == |names|
    ensures forall i :: 0 <= i < |names| ==> heads[i] == FirstSegment(names[i], '.')
  {
    seq(|names|, i requires 0 <= i < |names| => FirstSegment(names[i], '.'))
  }

  /** The patch `define` merges: keep a truthy current value, else take the
      default (`current_value || default_value`). */
  function DefinePatch(name: string, default: Value): Patch
  {
    map[name := Apply((current: Value) => Or(current, default))]
  }

  /** `define` sets the key to `current || default` and leaves every other
      key alone; a truthy value is kept, a falsy one (0, "", null, false,
      undefined) is replaced. */
  lemma DefineEffect(doc: Doc, name: string, default: Value)
    ensures Merge(doc, DefinePatch(name, default)) == doc[name := Or(Lookup(doc, name), default)]
    ensures Truthy(Lookup(doc, name)) ==> Merge(doc, DefinePatch(name, default)) == doc
    ensures !Truthy(Lookup(doc, name)) ==> Lookup(Merge(doc, DefinePatch(name, default)), name) == default
  {
    var after := Merge(doc, DefinePatch(name, default));
    assert after.Keys == doc.Keys + {name};
    assert after == doc[name := Or(Lookup(doc, name), default)];
    if Truthy(Lookup(doc, name)) {
      assert name in doc;
      assert doc[name := doc[name]] == doc;
    }
  }

  /** The module-level `State` and `Listeners` of state.js. */
  class StateStore {
    var doc: Doc
    var order: seq<Listener>
    var watch: map<Listener, seq<string>>

    ghost predicate Valid()
      reads this
    {
      && Distinct(order)
      && (forall l :: l in order ==> l in watch)
      && (forall l :: l in watch ==> l in order)
    }

    constructor (initial: Doc)
      ensures Valid() && doc == initial && order == [] && watch == map[]
    {
      doc := initial;
      order := [];
      watch := map[];
    }

    /** `state(name, defaultValue)`. */
    function Get(name: string, default: Value): Value
      reads this
    {
      Document.Get(doc, name, default)
    }

    /** `state.update(patch)`: merge, compute the change set, then invoke the
        listeners that fire, in registration order. */
    method Update(patch: Patch, connected: set<nat>) returns (changed: set<string>, notified: seq<Notification>)
      requires Valid()
      modifies this
      ensures Valid() && order == old(order) && watch == old(watch)
      ensures doc == Merge(old(doc), patch)
      ensures changed == ChangeSet(old(doc), doc)
      ensures notified == Notifications(order, watch, changed, connected, doc)
    {
      var before := doc;
      doc := Merge(before, patch);
      changed := ComputeChangeSet(before, doc);
      notified := SelectListeners(order, watch, changed, connected, doc);
    }

    /** `state.observe(element, ...names)`: replace the watch list; a listener
        seen before keeps its place in the registration order. */
    method Observe(l: Listener, names: seq<string>)
      requires Valid()
      modifies this
      ensures Valid() && doc == old(doc)
      ensures watch == old(watch)[l := Heads(names)]
      ensures order == if l in old(order) then old(order) else old(order) + [l]
    {
      if l !in order {
        order := order + [l];
      }
      watch := watch[l := Heads(names)];
    }

    /** `state.define(name, default_value)`: no listener is invoked. */
    method Define(name: string, default: Value)
      requires Valid()
      modifies this
      ensures Valid() && order == old(order) && watch == old(watch)
      ensures doc == Merge(old(doc), DefinePatch(name, default))
    {
      doc := Merge(doc, DefinePatch(name, default));
    }

    /** Calling the closure `state.parseAction(input, context)` returns: one
        update with every assignment of `input`. */
    method RunAction(input: string, context: map<string, Value>, connected: set<nat>)
      returns (changed: set<string>, notified: seq<Notification>)
      requires Valid()
      modifies this
      ensures Valid() && order == old(order) && watch == old(watch)
      ensures doc == Merge(old(doc), PutAll(FromEntries(AssignmentEntries(old(doc), context, Assignments(input)))))
      ensures changed == ChangeSet(old(doc), doc)
      ensures notified == Notifications(order, watch, changed, connected, doc)
    {
      var action := BuildAction(doc, input, context);
      changed, notified := Update(PutAll(action), connected);
    }
  }
}
