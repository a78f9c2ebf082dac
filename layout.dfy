/** Navigation in the designer tree of components/layout.js. A node is
    identified by its `id` (object identity in the source); a node is found
    from the root by a path of child indices; whether a node is expanded
    (`designer.expanded`) is kept as the set of ids of expanded nodes; the
    selection is the path of the selected node. */
module LayoutTree {
  import opened Values

  type Path = seq<nat>

  datatype Tree = Node(id: nat, children: seq<Tree>)

  /** `path.reduce((pv, index) => pv.children[index], tree)`; None when an
      index is out of range. */
  function Subtree(t: Tree, p: Path): Option<Tree>
    decreases p
  {
    if p == [] then Some(t)
    else if p[0] < |t.children| then Subtree(t.children[p[0]], p[1..])
    else None
  }

  /** `getNode(path)`: no path means the root. */
  function GetNode(t: Tree, path: Option<Path>): (r: Option<Tree>)
    ensures path.None? ==> r == Some(t)
  {
    Subtree(t, if path.None? then [] else path.value)
  }

  /** The ids of the nodes of a tree. */
  function Ids(t: Tree): set<nat>
    decreases t
  {
    {t.id} + set i, x | 0 <= i < |t.children| && x in Ids(t.children[i]) :: x
  }

  /** No two nodes share an id. */
  predicate Unique(t: Tree)
    decreases t
  {
    && (forall i :: 0 <= i < |t.children| ==> Unique(t.children[i]) && t.id !in Ids(t.children[i]))
    && (forall i, j :: 0 <= i < j < |t.children| ==> Ids(t.children[i]) !! Ids(t.children[j]))
  }

  /** `getPath(node)`: the child indices from the root to the node with this
      id. The source climbs parent links, taking `indexOf` at each level; the
      model has no parent links and searches down from the root instead,
      which finds the same path in a tree whose ids are distinct. */
  function PathTo(t: Tree, id: nat): Option<Path>
    decreases t, |t.children| + 1
  {
    if t.id == id then Some([]) else PathInChildren(t, 0, id)
  }

  function PathInChildren(t: Tree, from: nat, id: nat): Option<Path>
    requires from <= |t.children|
    decreases t, |t.children| - from
  {
    if from == |t.children| then None
    else match PathTo(t.children[from], id)
      case Some(p) => Some([from] + p)
      case None => PathInChildren(t, from + 1, id)
  }

  lemma {:induction false} SubtreeIdIn(t: Tree, p: Path)
    requires Subtree(t, p).Some?
    ensures Subtree(t, p).value.id in Ids(t)
    decreases p
  {
    if p != [] {
      SubtreeIdIn(t.children[p[0]], p[1..]);
    }
  }

  /** The path found for an id leads to a node with that id. */
  lemma {:induction false} PathToSound(t: Tree, id: nat)
    requires PathTo(t, id).Some?
    ensures Subtree(t, PathTo(t, id).value).Some? && Subtree(t, PathTo(t, id).value).value.id == id
    decreases t, |t.children| + 1
  {
    if t.id != id {
      PathInChildrenSound(t, 0, id);
    }
  }

  lemma {:induction false} PathInChildrenSound(t: Tree, from: nat, id: nat)
    requires from <= |t.children| && PathInChildren(t, from, id).Some?
    ensures Subtree(t, PathInChildren(t, from, id).value).Some?
    ensures Subtree(t, PathInChildren(t, from, id).value).value.id == id
    decreases t, |t.children| - from
  {
    match PathTo(t.children[from], id)
    case Some(p) =>
      PathToSound(t.children[from], id);
      assert ([from] + p)[1..] == p;
    case None =>
      PathInChildrenSound(t, from + 1, id);
  }

  /** An id that is not in a tree has no path. */
  lemma PathToAbsent(t: Tree, id: nat)
    requires id !in Ids(t)
    ensures PathTo(t, id).None?
  {
    if PathTo(t, id).Some? {
      PathToSound(t, id);
      SubtreeIdIn(t, PathTo(t, id).value);
    }
  }

  /** The search among the children finds the one child that holds the id. */
  lemma {:induction false} PathInChildrenFinds(t: Tree, from: nat, i: nat, id: nat)
    requires from <= i < |t.children|
    requires id in Ids(t.children[i]) && PathTo(t.children[i], id).Some?
    requires forall j :: 0 <= j < |t.children| && j != i ==> id !in Ids(t.children[j])
    ensures PathInChildren(t, from, id) == Some([i] + PathTo(t.children[i], id).value)
    decreases i - from
  {
    if from < i {
      PathToAbsent(t.children[from], id);
      PathInChildrenFinds(t, from + 1, i, id);
    }
  }

  /** `getNode(getPath(n)) == n` in the form the model can state: in a tree
      with distinct ids, the path of the node at `p` is `p`. In particular
      the root's path is empty, and a path is as long as its node is deep. */
  lemma {:induction false} PathOfNode(t: Tree, p: Path)
    requires Unique(t) && Subtree(t, p).Some?
    ensures PathTo(t, Subtree(t, p).value.id) == Some(p)
    decreases p
  {
    if p != [] {
      var i := p[0];
      var child := t.children[i];
      var n := Subtree(t, p).value;
      PathOfNode(child, p[1..]);
      SubtreeIdIn(child, p[1..]);
      assert n.id in Ids(child);
      forall j | 0 <= j < |t.children| && j != i ensures n.id !in Ids(t.children[j]) {
        if j < i {
          assert Ids(t.children[j]) !! Ids(t.children[i]);
        } else {
          assert Ids(t.children[i]) !! Ids(t.children[j]);
        }
      }
      PathInChildrenFinds(t, 0, i, n.id);
      assert [i] + p[1..] == p;
    }
  }

  /** Prefix every path of `ps` with the child index `i`. */
  function Under(i: nat, ps: seq<Path>): (r: seq<Path>)
    ensures |r| == |ps| && forall k :: 0 <= k < |ps| ==> r[k] == [i] + ps[k]
  {
    seq(|ps|, k requires 0 <= k < |ps| => [i] + ps[k])
  }

  /** `visibleChidren(tree)`: the paths, below `t`, of the descendants shown
      in the tree view, in preorder; nothing when `t` is a leaf or
      collapsed. */
  function Visible(t: Tree, expanded: set<nat>): seq<Path>
    decreases t, |t.children| + 1
  {
    if |t.children| > 0 && t.id in expanded then VisibleFrom(t, expanded, 0) else []
  }

  /** The `reduce` over the children from child `from` on: each child, then
      what is visible below it. */
  function VisibleFrom(t: Tree, expanded: set<nat>, from: nat): seq<Path>
    requires from <= |t.children|
    decreases t, |t.children| - from
  {
    if from == |t.children| then []
    else [[from]] + Under(from, Visible(t.children[from], expanded)) + VisibleFrom(t, expanded, from + 1)
  }

  /** The node at `p` is shown: `p` is below `t` and every node it passes
      through on the way, `t` included, is expanded. */
  predicate Shown(t: Tree, expanded: set<nat>, p: Path)
    decreases p
  {
    && p != [] && p[0] < |t.children| && t.id in expanded
    && (|p| == 1 || Shown(t.children[p[0]], expanded, p[1..]))
  }

  lemma {:induction false} VisibleIff(t: Tree, expanded: set<nat>, p: Path)
    ensures p in Visible(t, expanded) <==> Shown(t, expanded, p)
    decreases t, |t.children| + 1
  {
    if |t.children| > 0 && t.id in expanded {
      VisibleFromIff(t, expanded, 0, p);
    }
  }

  lemma {:induction false} VisibleFromIff(t: Tree, expanded: set<nat>, from: nat, p: Path)
    requires from <= |t.children|
    requires |t.children| > 0 && t.id in expanded
    ensures p in VisibleFrom(t, expanded, from) <==>
      p != [] && from <= p[0] < |t.children| && (|p| == 1 || Shown(t.children[p[0]], expanded, p[1..]))
    decreases t, |t.children| - from
  {
    if from < |t.children| {
      VisibleFromIff(t, expanded, from + 1, p);
      var below := Visible(t.children[from], expanded);
      var u := Under(from, below);
      var rest := VisibleFrom(t, expanded, from + 1);
      assert VisibleFrom(t, expanded, from) == [[from]] + u + rest;
      assert p in VisibleFrom(t, expanded, from) <==> p == [from] || p in u || p in rest;
      if p != [] && p[0] == from && |p| > 1 {
        VisibleIff(t.children[from], expanded, p[1..]);
        if p[1..] in below {
          var k :| 0 <= k < |below| && below[k] == p[1..];
          assert u[k] == p;
        }
        if p in u {
          var k :| 0 <= k < |u| && u[k] == p;
          assert below[k] == p[1..];
        }
      }
      if p in u {
        var k :| 0 <= k < |u| && u[k] == p;
        VisibleIff(t.children[from], expanded, []);
        assert below[k] != [];
        assert p[0] == from && |p| > 1;
        assert p[1..] == below[k];
        VisibleIff(t.children[from], expanded, p[1..]);
      }
    }
  }

  /** A shown path leads to a node. */
  lemma {:induction false} ShownSubtree(t: Tree, expanded: set<nat>, p: Path)
    requires Shown(t, expanded, p)
    ensures Subtree(t, p).Some?
    decreases p
  {
    if |p| > 1 {
      ShownSubtree(t.children[p[0]], expanded, p[1..]);
    }
  }

  /** Every visible path leads to a node, so the arrow keys always land on
      one. */
  lemma VisibleSubtree(t: Tree, expanded: set<nat>, p: Path)
    requires p in Visible(t, expanded)
    ensures Subtree(t, p).Some?
  {
    VisibleIff(t, expanded, p);
    ShownSubtree(t, expanded, p);
  }

  /** The node itself is never among its visible descendants. */
  lemma NotVisibleItself(t: Tree, expanded: set<nat>)
    ensures [] !in Visible(t, expanded)
  {
    VisibleIff(t, expanded, []);
  }

  /** `indexOf`: the first position of `p` in `vc`, or -1. */
  function IndexOf(vc: seq<Path>, p: Path): (k: int)
    ensures -1 <= k < |vc|
    ensures k >= 0 ==> vc[k] == p && forall j :: 0 <= j < k ==> vc[j] != p
    ensures k == -1 <==> p !in vc
  {
    if vc == [] then -1
    else if vc[0] == p then 0
    else
      var k := IndexOf(vc[1..], p);
      if k == -1 then -1 else k + 1
  }

  /** `vc[Math.min(vc.indexOf(selected) + 1, vc.length - 1)]`; None when
      nothing is visible (the source then reads `vc[-1]`). */
  function NextVisible(vc: seq<Path>, selected: Path): (r: Option<Path>)
    ensures r.Some? <==> vc != []
    ensures selected !in vc && vc != [] ==> r == Some(vc[0])
    ensures selected in vc ==>
      var k := IndexOf(vc, selected);
      r == Some(if k + 1 < |vc| then vc[k + 1] else vc[|vc| - 1])
  {
    var k := IndexOf(vc, selected) + 1;
    var n := if k < |vc| - 1 then k else |vc| - 1;
    if n < 0 then None else Some(vc[n])
  }

  /** `vc[Math.max(0, vc.indexOf(selected) - 1)]`; None when nothing is
      visible. */
  function PreviousVisible(vc: seq<Path>, selected: Path): (r: Option<Path>)
    ensures r.Some? <==> vc != []
    ensures selected !in vc && vc != [] ==> r == Some(vc[0])
    ensures selected in vc ==>
      var k := IndexOf(vc, selected);
      r == Some(if k > 0 then vc[k - 1] else vc[0])
  {
    var k := IndexOf(vc, selected) - 1;
    var n := if k > 0 then k else 0;
    if vc == [] then None else Some(vc[n])
  }

  /** Moving down from the last visible node stays there; moving up from
      the first stays there. */
  lemma NavigationClamps(vc: seq<Path>)
    requires vc != []
    ensures IndexOf(vc, vc[|vc| - 1]) == |vc| - 1 ==> NextVisible(vc, vc[|vc| - 1]) == Some(vc[|vc| - 1])
    ensures PreviousVisible(vc, vc[0]) == Some(vc[0])
  {
    assert IndexOf(vc, vc[0]) == 0;
  }

  /** The ids of the proper ancestors of the node at `p`, root first. */
  function PathIds(t: Tree, p: Path): (ids: seq<nat>)
    requires Subtree(t, p).Some?
    ensures |ids| == |p|
    ensures forall k :: 0 <= k < |p| ==> Subtree(t, p[..k]).Some? && ids[k] == Subtree(t, p[..k]).value.id
    decreases p
  {
    if p == [] then []
    else
      var rest := PathIds(t.children[p[0]], p[1..]);
      var ids := [t.id] + rest;
      assert forall k :: 1 <= k < |p| ==> p[..k][1..] == p[1..][..k - 1];
      assert p[..0] == [];
      ids
  }

  function Ancestors(t: Tree, p: Path): set<nat>
    requires Subtree(t, p).Some?
  {
    set x | x in PathIds(t, p)
  }

  /** `this.selected.children.push(child)` for the node at `p`: only that
      node's child list changes, by one child at its end; every node on the
      way keeps its id. */
  function AppendChild(t: Tree, p: Path, c: Tree): (r: Tree)
    requires Subtree(t, p).Some?
    ensures Subtree(r, p).Some?
    ensures Subtree(r, p).value == Node(Subtree(t, p).value.id, Subtree(t, p).value.children + [c])
    ensures PathIds(r, p) == PathIds(t, p)
    decreases p
  {
    if p == [] then Node(t.id, t.children + [c])
    else
      var i := p[0];
      var r := Node(t.id, t.children[i := AppendChild(t.children[i], p[1..], c)]);
      assert r.children[i] == AppendChild(t.children[i], p[1..], c);
      r
  }

  /** `parent.children.splice(index, 1)` for the node at `p`: that node loses
      exactly its child `i`; every node on the way keeps its id. */
  function RemoveChild(t: Tree, p: Path, i: nat): (r: Tree)
    requires Subtree(t, p).Some? && i < |Subtree(t, p).value.children|
    ensures Subtree(r, p).Some?
    ensures var n := Subtree(t, p).value;
      Subtree(r, p).value == Node(n.id, n.children[..i] + n.children[i + 1..])
    ensures PathIds(r, p) == PathIds(t, p)
    decreases p
  {
    if p == [] then Node(t.id, t.children[..i] + t.children[i + 1..])
    else
      var j := p[0];
      var r := Node(t.id, t.children[j := RemoveChild(t.children[j], p[1..], i)]);
      assert r.children[j] == RemoveChild(t.children[j], p[1..], i);
      r
  }

  /** The ids of a child are ids of its parent. */
  lemma ChildIds(t: Tree, i: nat)
    requires i < |t.children|
    ensures Ids(t.children[i]) <= Ids(t)
  {
  }

  /** An id of a tree other than the root's belongs to some child. */
  lemma ChildOf(t: Tree, x: nat) returns (j: nat)
    requires x in Ids(t) && x != t.id
    ensures j < |t.children| && x in Ids(t.children[j])
  {
    j :| 0 <= j < |t.children| && x in Ids(t.children[j]);
  }

  /** A node whose children keep distinct ids, none of them the node's own,
      and whose children's id sets are pairwise disjoint, has distinct ids. */
  lemma UniqueNode(id: nat, cs: seq<Tree>)
    requires forall j :: 0 <= j < |cs| ==> Unique(cs[j]) && id !in Ids(cs[j])
    requires forall j, k :: 0 <= j < k < |cs| ==> Ids(cs[j]) !! Ids(cs[k])
    ensures Unique(Node(id, cs))
  {
  }

  /** Replacing child `i` by a tree that keeps distinct ids, and whose ids
      are those of the old child plus ids from outside the tree, keeps the
      ids of the whole tree distinct. */
  lemma ReplaceChildUnique(t: Tree, i: nat, c: Tree, extra: set<nat>)
    requires Unique(t) && i < |t.children| && Unique(c)
    requires Ids(c) <= Ids(t.children[i]) + extra && extra !! Ids(t)
    ensures Unique(Node(t.id, t.children[i := c]))
  {
    var cs := t.children[i := c];
    forall j | 0 <= j < |cs| ensures Unique(cs[j]) && t.id !in Ids(cs[j]) {
      if j == i {
        assert t.id in Ids(t);
      }
    }
    forall j, k | 0 <= j < k < |cs| ensures Ids(cs[j]) !! Ids(cs[k]) {
      if j == i {
        ChildIds(t, k);
        assert Ids(t.children[i]) !! Ids(t.children[k]);
      } else if k == i {
        ChildIds(t, j);
        assert Ids(t.children[j]) !! Ids(t.children[i]);
      }
    }
    UniqueNode(t.id, cs);
  }

  /** The ids after replacing child `i`: at most the old ones and those the
      new child brings, and all the old ones when the new child keeps the
      old child's. */
  lemma ReplaceChildIds(t: Tree, i: nat, c: Tree, extra: set<nat>)
    requires i < |t.children| && Ids(c) <= Ids(t.children[i]) + extra
    ensures Ids(Node(t.id, t.children[i := c])) <= Ids(t) + extra
    ensures Ids(t.children[i]) <= Ids(c) ==> Ids(t) <= Ids(Node(t.id, t.children[i := c]))
  {
    var r := Node(t.id, t.children[i := c]);
    forall x | x in Ids(r) ensures x in Ids(t) + extra {
      if x != r.id {
        var j := ChildOf(r, x);
        if j != i {
          ChildIds(t, j);
        } else {
          ChildIds(t, i);
        }
      }
    }
    if Ids(t.children[i]) <= Ids(c) {
      forall x | x in Ids(t) ensures x in Ids(r) {
        if x != t.id {
          var j := ChildOf(t, x);
          ChildIds(r, j);
        }
      }
    }
  }

  /** Appending a tree with new ids as the last child of the root keeps the
      ids distinct and adds exactly the new ones. */
  lemma AppendAtRoot(t: Tree, c: Tree)
    requires Unique(t) && Unique(c) && Ids(c) !! Ids(t)
    ensures Unique(Node(t.id, t.children + [c]))
    ensures Ids(Node(t.id, t.children + [c])) == Ids(t) + Ids(c)
  {
    var cs := t.children + [c];
    var r := Node(t.id, cs);
    var n := |t.children|;
    forall j | 0 <= j < |cs| ensures Unique(cs[j]) && t.id !in Ids(cs[j]) {
      if j == n {
        assert t.id in Ids(t);
      }
    }
    forall j, k | 0 <= j < k < |cs| ensures Ids(cs[j]) !! Ids(cs[k]) {
      if k == n {
        ChildIds(t, j);
      }
    }
    UniqueNode(t.id, cs);
    forall x | x in Ids(r) ensures x in Ids(t) + Ids(c) {
      if x != r.id {
        var j := ChildOf(r, x);
        if j < n { ChildIds(t, j); }
      }
    }
    forall x | x in Ids(t) + Ids(c) ensures x in Ids(r) {
      if x in Ids(c) {
        ChildIds(r, n);
      } else if x != t.id {
        var j := ChildOf(t, x);
        ChildIds(r, j);
      }
    }
  }

  /** Appending a tree whose ids are new keeps the ids distinct, and the
      tree's ids gain exactly the new ones. */
  lemma {:induction false} AppendChildUnique(t: Tree, p: Path, c: Tree)
    requires Unique(t) && Subtree(t, p).Some? && Unique(c) && Ids(c) !! Ids(t)
    ensures Unique(AppendChild(t, p, c))
    ensures Ids(AppendChild(t, p, c)) == Ids(t) + Ids(c)
    decreases p
  {
    if p == [] {
      AppendAtRoot(t, c);
    } else {
      var i := p[0];
      var c' := AppendChild(t.children[i], p[1..], c);
      ChildIds(t, i);
      AppendChildUnique(t.children[i], p[1..], c);
      ReplaceChildUnique(t, i, c', Ids(c));
      ReplaceChildIds(t, i, c', Ids(c));
      ChildIds(Node(t.id, t.children[i := c']), i);
    }
  }

  /** Removing the child `i` of the root keeps the ids distinct and adds
      none. */
  lemma RemoveAtRoot(t: Tree, i: nat)
    requires Unique(t) && i < |t.children|
    ensures Unique(Node(t.id, t.children[..i] + t.children[i + 1..]))
    ensures Ids(Node(t.id, t.children[..i] + t.children[i + 1..])) <= Ids(t)
  {
    var cs := t.children[..i] + t.children[i + 1..];
    var r := Node(t.id, cs);
    forall j | 0 <= j < |cs| ensures Unique(cs[j]) && t.id !in Ids(cs[j]) {
      RemovedAt(t.children, i, j);
    }
    forall j, k | 0 <= j < k < |cs| ensures Ids(cs[j]) !! Ids(cs[k]) {
      RemovedAt(t.children, i, j);
      RemovedAt(t.children, i, k);
    }
    UniqueNode(t.id, cs);
    forall x | x in Ids(r) ensures x in Ids(t) {
      if x != r.id {
        var j := ChildOf(r, x);
        RemovedAt(t.children, i, j);
        ChildIds(t, if j < i then j else j + 1);
      }
    }
  }

  /** The `j`-th element after `splice(i, 1)`. */
  lemma RemovedAt(cs: seq<Tree>, i: nat, j: nat)
    requires i < |cs| && j < |cs| - 1
    ensures (cs[..i] + cs[i + 1..])[j] == cs[if j < i then j else j + 1]
  {
  }

  /** Removing a child keeps the ids distinct and adds none. */
  lemma {:induction false} RemoveChildUnique(t: Tree, p: Path, i: nat)
    requires Unique(t) && Subtree(t, p).Some? && i < |Subtree(t, p).value.children|
    ensures Unique(RemoveChild(t, p, i))
    ensures Ids(RemoveChild(t, p, i)) <= Ids(t)
    decreases p
  {
    if p == [] {
      RemoveAtRoot(t, i);
    } else {
      var j := p[0];
      var c' := RemoveChild(t.children[j], p[1..], i);
      RemoveChildUnique(t.children[j], p[1..], i);
      ReplaceChildUnique(t, j, c', {});
      ReplaceChildIds(t, j, c', {});
    }
  }

  /** The keys `treeKeyHandler` reacts to. */
  datatype Key = ArrowDown | ArrowUp | ArrowRight | ArrowLeft | OtherKey

  /** The `Layout` component: the tree it edits, the expanded flags of its
      nodes, and the selection. */
  class Layout {
    var tree: Tree
    var expanded: set<nat>
    var selected: Path

    /** The selection is a node of the tree, and every node of the tree is
        a distinct object. */
    ghost predicate Valid()
      reads this
    {
      Subtree(tree, selected).Some? && Unique(tree)
    }

    constructor (tree: Tree, expanded: set<nat>)
      requires Unique(tree)
      ensures Valid() && this.tree == tree && this.expanded == expanded && selected == []
    {
      this.tree := tree;
      this.expanded := expanded;
      selected := [];
    }

    /** `makeVisible(node)`: climb the parents, expanding each; nothing else
        changes. */
    method MakeVisible(p: Path)
      requires Subtree(tree, p).Some?
      modifies this
      ensures tree == old(tree) && selected == old(selected)
      ensures expanded == old(expanded) + Ancestors(tree, p)
    {
      ghost var ids := PathIds(tree, p);
      var q := p;
      while q != []
        invariant tree == old(tree) && selected == old(selected)
        invariant |q| <= |p| && q == p[..|q|]
        invariant expanded == old(expanded) + set x | x in ids[|q|..]
      {
        var k := |q| - 1;
        q := q[..k];
        assert q == p[..k];
        assert Subtree(tree, p[..k]).Some? && ids[k] == Subtree(tree, p[..k]).value.id;
        expanded := expanded + {Subtree(tree, q).value.id};
        assert ids[k..] == [ids[k]] + ids[k + 1..];
      }
      assert ids[0..] == ids;
    }

    /** `setSelected(selection)`: select the node and make it visible. The
        update of the `path` state is not part of this model. */
    method SetSelected(p: Path)
      requires Subtree(tree, p).Some? && Unique(tree)
      modifies this
      ensures Valid() && tree == old(tree) && selected == p
      ensures expanded == old(expanded) + Ancestors(tree, p)
    {
      selected := p;
      MakeVisible(p);
    }

    /** `addChild(type)`: a new, childless node with a fresh id goes at the
        end of the selected node's children and becomes the selection. */
    method AddChild(id: nat)
      requires Valid() && id !in Ids(tree)
      modifies this
      ensures Valid() && Ids(tree) == old(Ids(tree)) + {id}
      ensures var n := Subtree(old(tree), old(selected)).value;
        && tree == AppendChild(old(tree), old(selected), Node(id, []))
        && selected == old(selected) + [|n.children|]
        && Subtree(tree, selected) == Some(Node(id, []))
        && expanded == old(expanded) + Ancestors(tree, selected)
    {
      var n := Subtree(tree, selected).value;
      var p := selected;
      AppendChildUnique(tree, p, Node(id, []));
      tree := AppendChild(tree, p, Node(id, []));
      ghost var m := Subtree(tree, p).value;
      assert m.children[|n.children|] == Node(id, []);
      SubtreeAppend(tree, p, |n.children|);
      SetSelected(p + [|n.children|]);
    }

    /** The delete button: remove the selected node from its parent's
        children, then select the sibling before it (or the new first child),
        or the parent when no child is left. The root has no parent: the
        source fails there, and the model changes nothing. */
    method DeleteCurrent() returns (deleted: bool)
      requires Valid()
      modifies this
      ensures Valid() && Ids(tree) <= old(Ids(tree))
      ensures old(selected) == [] ==> !deleted && tree == old(tree) && selected == old(selected) && expanded == old(expanded)
      ensures old(selected) != [] ==>
        var parent := old(selected)[..|old(selected)| - 1];
        var index := old(selected)[|old(selected)| - 1];
        && Subtree(old(tree), parent).Some?
        && var n := Subtree(old(tree), parent).value;
        && deleted
        && index < |n.children|
        && tree == RemoveChild(old(tree), parent, index)
        && Subtree(tree, parent).value.children == n.children[..index] + n.children[index + 1..]
        && selected == (if |n.children| > 1 then parent + [if index > 0 then index - 1 else 0] else parent)
        && expanded == old(expanded) + Ancestors(tree, selected)
    {
      if selected == [] {
        return false;
      }
      var parent := selected[..|selected| - 1];
      var index := selected[|selected| - 1];
      SubtreeParent(tree, selected);
      var n := Subtree(tree, parent).value;
      RemoveChildUnique(tree, parent, index);
      tree := RemoveChild(tree, parent, index);
      var remaining := Subtree(tree, parent).value.children;
      if |remaining| > 0 {
        var k := if index > 0 then index - 1 else 0;
        SubtreeAppend(tree, parent, k);
        SetSelected(parent + [k]);
      } else {
        SetSelected(parent);
      }
      deleted := true;
    }

    /** `treeKeyHandler(event)`. ArrowDown and ArrowUp move the selection
        through the visible nodes (no move when none is visible: the source
        then selects `undefined`); ArrowRight expands a collapsed node with
        children and otherwise enters its first child; ArrowLeft collapses an
        expanded node with children and otherwise goes to the parent. */
    method TreeKey(key: Key)
      requires Valid()
      modifies this
      ensures Valid() && tree == old(tree)
      ensures var n := Subtree(old(tree), old(selected)).value;
        match key
        case ArrowDown =>
          var next := NextVisible(Visible(tree, old(expanded)), old(selected));
          if next.Some?
          then selected == next.value && expanded == old(expanded) + Ancestors(tree, selected)
          else selected == old(selected) && expanded == old(expanded)
        case ArrowUp =>
          var prev := PreviousVisible(Visible(tree, old(expanded)), old(selected));
          if prev.Some?
          then selected == prev.value && expanded == old(expanded) + Ancestors(tree, selected)
          else selected == old(selected) && expanded == old(expanded)
        case ArrowRight =>
          if |n.children| > 0 && n.id !in old(expanded) then
            selected == old(selected) && expanded == old(expanded) + {n.id}
          else if |n.children| > 0 then
            selected == old(selected) + [0] && expanded == old(expanded) + Ancestors(tree, selected)
          else selected == old(selected) && expanded == old(expanded)
        case ArrowLeft =>
          if |n.children| > 0 && n.id in old(expanded) then
            selected == old(selected) && expanded == old(expanded) - {n.id}
          else if old(selected) != [] then
            selected == old(selected)[..|old(selected)| - 1] && expanded == old(expanded) + Ancestors(tree, selected)
          else selected == old(selected) && expanded == old(expanded)
        case OtherKey =>
          selected == old(selected) && expanded == old(expanded)
    {
      var n := Subtree(tree, selected).value;
      match key
      case ArrowDown =>
        var next := NextVisible(Visible(tree, expanded), selected);
        if next.Some? {
          VisibleSubtree(tree, expanded, next.value);
          SetSelected(next.value);
        }
      case ArrowUp =>
        var prev := PreviousVisible(Visible(tree, expanded), selected);
        if prev.Some? {
          VisibleSubtree(tree, expanded, prev.value);
          SetSelected(prev.value);
        }
      case ArrowRight =>
        if |n.children| > 0 && n.id !in expanded {
          expanded := expanded + {n.id};
        } else if |n.children| > 0 {
          SubtreeAppend(tree, selected, 0);
          SetSelected(selected + [0]);
        }
      case ArrowLeft =>
        if |n.children| > 0 && n.id in expanded {
          expanded := expanded - {n.id};
        } else if selected != [] {
          SubtreeParent(tree, selected);
          SetSelected(selected[..|selected| - 1]);
        }
      case OtherKey =>
    }
  }

  /** One step further down a path: the `k`-th child of the node at `p`. */
  lemma {:induction false} SubtreeAppend(t: Tree, p: Path, k: nat)
    requires Subtree(t, p).Some? && k < |Subtree(t, p).value.children|
    ensures Subtree(t, p + [k]) == Some(Subtree(t, p).value.children[k])
    decreases p
  {
    if p != [] {
      assert (p + [k])[1..] == p[1..] + [k];
      SubtreeAppend(t.children[p[0]], p[1..], k);
    }
  }

  /** The parent of a node is a node, and the node is among its children. */
  lemma {:induction false} SubtreeParent(t: Tree, p: Path)
    requires p != [] && Subtree(t, p).Some?
    ensures Subtree(t, p[..|p| - 1]).Some?
    ensures p[|p| - 1] < |Subtree(t, p[..|p| - 1]).value.children|
    ensures Subtree(t, p[..|p| - 1]).value.children[p[|p| - 1]] == Subtree(t, p).value
    decreases p
  {
    if |p| > 1 {
      SubtreeParent(t.children[p[0]], p[1..]);
      assert p[1..][..|p| - 2] == p[..|p| - 1][1..];
    }
  }
}
