/** The mind-map controller of js/main.js: the node tree, the pan/zoom view,
    the current selection, the last persisted snapshot and the node-drag
    gesture record, with the panel's actions (add child, save, delete,
    priority, completed, lock), zoom, pan and drag handlers. */
module MindMap {
  import opened Seqs
  import opened Text
  import opened TreeState

  /** `DEFAULT_CATEGORIES` of js/constants.js, in order. */
  const DefaultCategories: seq<string> :=
    ["Health", "Relationships", "Work", "Travel", "Skills", "Money", "Home", "Creativity"]

  const DragThresholdPx: int := 3
  const MinScale: real := 0.2
  const MaxScale: real := 2.5
  const DefaultScale: real := 0.8

  /** Pan offset and zoom factor: `screen = world * scale + (ox, oy)`. */
  datatype View = View(scale: real, ox: real, oy: real)

  /** The persisted snapshot `{ nodes, view, updatedAt }`. */
  datatype Data = Data(nodes: seq<Node>, view: View, updatedAt: string)

  /** The random parts of one default category: its generated id and position. */
  datatype CategorySeed = CategorySeed(id: string, x: real, y: real)

  datatype ClientPoint = ClientPoint(x: int, y: int)
  datatype WorldPoint = WorldPoint(x: real, y: real)

  /** `drag.startWorld`: pointer and node position in world space at pointerdown. */
  datatype DragStart = DragStart(px: real, py: real, nx: real, ny: real)

  /** The `drag` record of `bindEvents` (its DOM element fields left out). */
  datatype DragState = DragState(
    id: Option<string>,
    pointerId: Option<int>,
    startWorld: Option<DragStart>,
    startClient: Option<ClientPoint>,
    active: bool)

  const NoDrag := DragState(None, None, None, None, false)

  /** `panStart`: pointer position and pan offset when a background pan began. */
  datatype PanStart = PanStart(x: int, y: int, ox: real, oy: real)

  /* ===== the tree as a value ===== */

  predicate UniqueIds(nodes: seq<Node>)
  {
    forall i, j :: 0 <= i < j < |nodes| ==> nodes[i].id != nodes[j].id
  }

  /** The invariants the data model promises: ids are unique, exactly one node
      is the root ("Me"), and the root has no parent. */
  predicate WellFormed(nodes: seq<Node>)
  {
    && UniqueIds(nodes)
    && (exists m :: m in nodes && m.isMe)
    && (forall m, n :: m in nodes && n in nodes && m.isMe && n.isMe ==> m == n)
    && (forall m :: m in nodes && m.isMe ==> m.parentId == None)
  }

  /** `data.nodes.find(n => n.isMe)`. */
  function FindMe(nodes: seq<Node>): (r: Option<Node>)
    ensures r.Some? ==> r.value in nodes && r.value.isMe
    ensures r.None? <==> forall n :: n in nodes ==> !n.isMe
  {
    if nodes == [] then None
    else if nodes[0].isMe then Some(nodes[0])
    else FindMe(nodes[1..])
  }

  /** `find` returns the first `isMe` node. */
  lemma FindMeFirst(nodes: seq<Node>, i: nat)
    requires i < |nodes| && nodes[i].isMe
    requires forall j :: 0 <= j < i ==> !nodes[j].isMe
    ensures FindMe(nodes) == Some(nodes[i])
    decreases i
  {
    if i > 0 {
      FindMeFirst(nodes[1..], i - 1);
    }
  }

  /** The id `select` receives after a delete: the root's, or null. */
  function MeId(nodes: seq<Node>): Option<string>
  {
    match FindMe(nodes)
    case None => None
    case Some(me) => Some(me.id)
  }

  /* ----- default data ----- */

  function MeNode(meId: string, now: string): Node
  {
    Node(meId, "Me", "", Some(3), None, 0.0, 0.0, true, false, true, false, now, now)
  }

  function DefaultCategoryNode(meId: string, title: string, seed: CategorySeed, now: string): Node
  {
    Node(seed.id, title, "", Some(1), Some(meId), seed.x, seed.y, true, false, false, true, now, now)
  }

  /** The first-run tree: the root, then one locked category per default name, in order. */
  function DefaultNodes(meId: string, seeds: seq<CategorySeed>, now: string): (r: seq<Node>)
    requires |seeds| == |DefaultCategories|
    ensures |r| == 1 + |DefaultCategories|
    ensures r[0].id == meId && r[0].title == "Me" && r[0].isMe && !r[0].isCategory
    ensures r[0].parentId == None && r[0].lockedTitle && !r[0].completed
    ensures forall i :: 0 <= i < |DefaultCategories| ==>
      && r[i + 1].id == seeds[i].id && r[i + 1].title == DefaultCategories[i]
      && r[i + 1].isCategory && !r[i + 1].isMe && !r[i + 1].completed && r[i + 1].lockedTitle
      && r[i + 1].parentId == Some(meId) && r[i + 1].priority == Some(1)
  {
    [MeNode(meId, now)] + seq(|DefaultCategories|, i requires 0 <= i < |DefaultCategories| =>
      DefaultCategoryNode(meId, DefaultCategories[i], seeds[i], now))
  }

  /** `makeDefaultData`: pushes the root, then one category per `DEFAULT_CATEGORIES`
      entry; ids and positions (random in the source) come from `seeds`. */
  method MakeDefaultData(meId: string, seeds: seq<CategorySeed>, now: string) returns (d: Data)
    requires |seeds| == |DefaultCategories|
    ensures d.nodes == DefaultNodes(meId, seeds, now)
    ensures d.view == View(DefaultScale, 0.0, 0.0) && d.updatedAt == now
  {
    var nodes := [MeNode(meId, now)];
    for i := 0 to |DefaultCategories|
      invariant |nodes| == i + 1 && nodes[0] == MeNode(meId, now)
      invariant forall j :: 0 <= j < i ==>
        nodes[j + 1] == DefaultCategoryNode(meId, DefaultCategories[j], seeds[j], now)
    {
      nodes := nodes + [DefaultCategoryNode(meId, DefaultCategories[i], seeds[i], now)];
    }
    d := Data(nodes, View(DefaultScale, 0.0, 0.0), now);
  }

  /** With fresh, distinct ids the default tree satisfies the data-model
      invariants, and each category resolves to its own title. */
  lemma DefaultNodesWellFormed(meId: string, seeds: seq<CategorySeed>, now: string)
    requires |seeds| == |DefaultCategories|
    requires meId != ""
    requires forall i :: 0 <= i < |seeds| ==> seeds[i].id != meId
    requires forall i, j :: 0 <= i < j < |seeds| ==> seeds[i].id != seeds[j].id
    ensures WellFormed(DefaultNodes(meId, seeds, now))
    ensures forall i :: 0 <= i < |DefaultCategories| ==>
      CategoryOf(DefaultNodes(meId, seeds, now), DefaultNodes(meId, seeds, now)[i + 1]) == DefaultCategories[i]
  {
    var nodes := DefaultNodes(meId, seeds, now);
    var me := nodes[0];
    forall i, j | 0 <= i < j < |nodes| ensures nodes[i].id != nodes[j].id {
      if i > 0 { assert nodes[i].id == seeds[i - 1].id; }
    }
    forall m | m in nodes && m.isMe ensures m == me {
      var k :| 0 <= k < |nodes| && nodes[k] == m;
      assert k == 0;
    }
    assert FindNode(nodes, meId) == Some(me) by {
      FindNodeFirst(nodes, meId, 0);
    }
    forall i | 0 <= i < |DefaultCategories|
      ensures CategoryOf(nodes, nodes[i + 1]) == DefaultCategories[i]
    {
      var c := nodes[i + 1];
      assert WalkUp(nodes, me, {c.id}) == Stopped;
      assert WalkUp(nodes, c, {}) == Stopped;
    }
  }

  /* ----- add child ----- */

  /** The node the add-child action creates under `parent`. */
  function NewChild(parent: Node, id: string, now: string, dx: real, dy: real): (c: Node)
    ensures c.id == id && c.parentId == Some(parent.id)
    ensures !c.isMe && !c.completed && c.createdAt == now && c.updatedAt == now && c.notes == ""
    ensures c.isCategory == parent.isMe && c.lockedTitle == parent.isMe
    ensures c.priority == Some(if parent.isMe then 1 else 3)
    ensures c.title == if parent.isMe then "New category" else "New star"
    ensures c.x == parent.x + dx && c.y == parent.y + dy
  {
    var isNewCategory := parent.isMe;
    Node(id, if isNewCategory then "New category" else "New star", "",
         Some(if isNewCategory then 1 else 3), Some(parent.id),
         parent.x + dx, parent.y + dy,
         isNewCategory, false, false, isNewCategory, now, now)
  }

  /** Appending a child with a fresh id keeps the data-model invariants. */
  lemma AddChildKeepsWellFormed(nodes: seq<Node>, parent: Node, id: string, now: string, dx: real, dy: real)
    requires WellFormed(nodes) && id !in Ids(nodes)
    ensures WellFormed(nodes + [NewChild(parent, id, now, dx, dy)])
  {
    var c := NewChild(parent, id, now, dx, dy);
    var r := nodes + [c];
    forall i, j | 0 <= i < j < |r| ensures r[i].id != r[j].id {
      if j == |nodes| { assert r[i] in nodes; }
    }
    var m :| m in nodes && m.isMe;
    assert m in r;
  }

  /** A child added under the root is a category, and resolves to its own title. */
  lemma AddUnderMeIsCategory(nodes: seq<Node>, i: nat, id: string, now: string, dx: real, dy: real)
    requires WellFormed(nodes) && i < |nodes| && nodes[i].isMe && !nodes[i].isCategory
    requires nodes[i].id != "" && id !in Ids(nodes)
    ensures var c := NewChild(nodes[i], id, now, dx, dy);
      c.isCategory && CategoryOf(nodes + [c], c) == "New category"
  {
    var me := nodes[i];
    var c := NewChild(me, id, now, dx, dy);
    var r := nodes + [c];
    assert FindNode(r, me.id) == Some(me) by {
      FindNodeFirst(r, me.id, i);
    }
    assert me.parentId == None;
    assert WalkUp(r, me, {c.id}) == Stopped;
    assert WalkUp(r, c, {}) == WalkUp(r, me, {c.id});
  }

  /** A star added under a category reports that category in the list view. */
  lemma AddUnderCategoryResolves(nodes: seq<Node>, i: nat, id: string, now: string, dx: real, dy: real)
    requires UniqueIds(nodes) && i < |nodes| && nodes[i].isCategory && nodes[i].id != ""
    ensures CategoryOf(nodes + [NewChild(nodes[i], id, now, dx, dy)], NewChild(nodes[i], id, now, dx, dy))
      == nodes[i].title
  {
    var c := NewChild(nodes[i], id, now, dx, dy);
    var r := nodes + [c];
    assert FindNode(r, nodes[i].id) == Some(nodes[i]) by {
      FindNodeFirst(r, nodes[i].id, i);
    }
  }

  /* ----- save ----- */

  /** The title the save action stores: a locked title is kept; otherwise the
      trimmed input, or "Untitled" when that is empty. */
  function SavedTitle(n: Node, titleValue: string): (t: string)
    ensures n.lockedTitle ==> t == n.title
    ensures !n.lockedTitle ==> t != "" && !IsSpace(t[0]) && !IsSpace(t[|t| - 1])
    ensures !n.lockedTitle && !AllSpace(titleValue) ==> t == Trim(titleValue)
    ensures !n.lockedTitle && AllSpace(titleValue) ==> t == "Untitled"
  {
    TrimEmptyIff(titleValue);
    if n.lockedTitle then n.title
    else
      var t := Trim(titleValue);
      if t == "" then "Untitled" else t
  }

  /** The node after the save action, from the panel's input values. */
  function Edited(n: Node, titleValue: string, notesValue: string, completedChecked: bool,
                  parentValue: string, now: string): (e: Node)
    ensures e.id == n.id && e.isMe == n.isMe && e.isCategory == n.isCategory
    ensures e.priority == n.priority && e.lockedTitle == n.lockedTitle
    ensures e.x == n.x && e.y == n.y && e.createdAt == n.createdAt
    ensures e.title == SavedTitle(n, titleValue) && e.notes == Trim(notesValue)
    ensures e.parentId == if parentValue == "" then None else Some(parentValue)
    ensures e.completed == completedChecked && e.updatedAt == now
  {
    n.(title := SavedTitle(n, titleValue), notes := Trim(notesValue), completed := completedChecked,
       parentId := if parentValue == "" then None else Some(parentValue), updatedAt := now)
  }

  /** The values the parent select offers: the root's id and every category's id. */
  function ParentOptions(nodes: seq<Node>): set<string>
  {
    (match FindMe(nodes) case None => {} case Some(me) => {me.id})
    + set c | c in nodes && c.isCategory :: c.id
  }

  /** The value the parent select shows for `n`: the select is set to `n`'s
      parent id, or to the root's id when `n` has none, and reads "" when no
      option carries that value (a star whose parent is another star). */
  function PanelParentValue(nodes: seq<Node>, n: Node): (v: string)
    ensures v == "" || v in ParentOptions(nodes)
    ensures Truthy(n.parentId) && n.parentId.value in ParentOptions(nodes) ==> v == n.parentId.value
    ensures Truthy(n.parentId) && n.parentId.value !in ParentOptions(nodes) ==> v == ""
    ensures !Truthy(n.parentId) && FindMe(nodes).Some? ==> v == FindMe(nodes).value.id
  {
    var wanted :=
      if Truthy(n.parentId) then n.parentId.value
      else match FindMe(nodes)
        case None => ""
        case Some(me) => me.id;
    if wanted in ParentOptions(nodes) then wanted else ""
  }

  /** With unique ids, two stored nodes with the same id are the same node. */
  lemma SameIdSameNode(nodes: seq<Node>, a: Node, b: Node)
    requires UniqueIds(nodes) && a in nodes && b in nodes && a.id == b.id
    ensures a == b
  {
    var i :| 0 <= i < |nodes| && nodes[i] == a;
    var j :| 0 <= j < |nodes| && nodes[j] == b;
    assert i == j;
  }

  /** Saving a star whose parent is another star detaches it: no option
      carries the parent's id, the select reads "", and the saved parent is null. */
  lemma SaveDetachesStarUnderStar(nodes: seq<Node>, n: Node, p: Node, titleValue: string,
                                  notesValue: string, completedChecked: bool, now: string)
    requires WellFormed(nodes) && p in nodes && !p.isMe && !p.isCategory
    requires n.parentId == Some(p.id) && p.id != ""
    ensures PanelParentValue(nodes, n) == ""
    ensures Edited(n, titleValue, notesValue, completedChecked, PanelParentValue(nodes, n), now).parentId == None
  {
    if p.id in ParentOptions(nodes) {
      var me := FindMe(nodes);
      if me.Some? && me.value.id == p.id {
        SameIdSameNode(nodes, me.value, p);
      }
    }
  }

  /** Saving a non-root node, or any node with no parent chosen, keeps the
      data-model invariants. */
  lemma SaveKeepsWellFormed(nodes: seq<Node>, i: nat, titleValue: string, notesValue: string,
                            completedChecked: bool, parentValue: string, now: string)
    requires WellFormed(nodes) && i < |nodes|
    requires !nodes[i].isMe || parentValue == ""
    ensures WellFormed(nodes[i := Edited(nodes[i], titleValue, notesValue, completedChecked, parentValue, now)])
  {
    var e := Edited(nodes[i], titleValue, notesValue, completedChecked, parentValue, now);
    var r := nodes[i := e];
    var m :| m in nodes && m.isMe;
    var k :| 0 <= k < |nodes| && nodes[k] == m;
    assert r[k] in r && r[k].isMe;
    forall a | a in r && a.isMe ensures a.parentId == None {
      var j :| 0 <= j < |r| && r[j] == a;
      assert j != i ==> a == nodes[j];
    }
    forall a, b | a in r && b in r && a.isMe && b.isMe ensures a == b {
      var ja :| 0 <= ja < |r| && r[ja] == a;
      var jb :| 0 <= jb < |r| && r[jb] == b;
      assert nodes[ja].isMe && nodes[jb].isMe;
      assert nodes[ja] == nodes[jb];
      assert ja == jb;
    }
  }

  /** With the panel's preselected parent, saving the root points its parent
      link at itself; `rootCategoryOf` still ends, with the root's own title
      if it is a category and "" otherwise. */
  lemma SaveRootSelfParents(nodes: seq<Node>, i: nat, titleValue: string, notesValue: string,
                            completedChecked: bool, now: string)
    requires WellFormed(nodes) && i < |nodes| && nodes[i].isMe && nodes[i].id != ""
    ensures var e := Edited(nodes[i], titleValue, notesValue, completedChecked,
                            PanelParentValue(nodes, nodes[i]), now);
      && e.parentId == Some(e.id)
      && CategoryOf(nodes[i := e], e) == if e.isCategory then e.title else ""
  {
    var me := nodes[i];
    assert FindMe(nodes) == Some(me);
    var e := Edited(me, titleValue, notesValue, completedChecked, PanelParentValue(nodes, me), now);
    var r := nodes[i := e];
    assert FindNode(r, e.id) == Some(e) by {
      FindNodeFirst(r, e.id, i);
    }
    SelfParentedCategory(r, e);
  }

  /* ----- delete ----- */

  /** No node whose parent is in `s` is missing from `s`. */
  predicate Closed(nodes: seq<Node>, s: set<string>)
  {
    forall x :: x in nodes && Truthy(x.parentId) && x.parentId.value in s ==> x.id in s
  }

  /** Ids of the nodes whose parent id is in `s`. */
  function Adopted(nodes: seq<Node>, s: set<string>): (r: set<string>)
    ensures r <= Ids(nodes)
  {
    set x | x in nodes && Truthy(x.parentId) && x.parentId.value in s :: x.id
  }

  lemma SubsetDiffCard(u: set<string>, a: set<string>, b: set<string>)
    requires a <= b
    ensures |u - b| <= |u - a|
  {
    var big := u - a;
    var small := u - b;
    assert big == small + (big - small);
  }

  /** `s` grown by adding children of members until nothing changes. */
  function Descendants(nodes: seq<Node>, s: set<string>): set<string>
    decreases |Ids(nodes) - s|
  {
    if Closed(nodes, s) then s
    else
      var x :| x in nodes && Truthy(x.parentId) && x.parentId.value in s && x.id !in s;
      var g := s + Adopted(nodes, s);
      assert x.id in Adopted(nodes, s);
      CardShrinks(Ids(nodes), s, x.id);
      SubsetDiffCard(Ids(nodes), s + {x.id}, g);
      Descendants(nodes, g)
  }

  /** The ids the delete action removes: `target` and, transitively, every
      node whose parent id is among them. */
  function DeleteSet(nodes: seq<Node>, target: string): set<string>
  {
    Descendants(nodes, {target})
  }

  /** `Descendants(nodes, s)` is the least superset of `s` that is closed. */
  lemma {:induction false} DescendantsIsLeast(nodes: seq<Node>, s: set<string>)
    ensures s <= Descendants(nodes, s) <= s + Ids(nodes)
    ensures Closed(nodes, Descendants(nodes, s))
    ensures forall c :: s <= c && Closed(nodes, c) ==> Descendants(nodes, s) <= c
    decreases |Ids(nodes) - s|
  {
    if !Closed(nodes, s) {
      var x :| x in nodes && Truthy(x.parentId) && x.parentId.value in s && x.id !in s;
      var g := s + Adopted(nodes, s);
      assert x.id in Adopted(nodes, s);
      CardShrinks(Ids(nodes), s, x.id);
      SubsetDiffCard(Ids(nodes), s + {x.id}, g);
      DescendantsIsLeast(nodes, g);
      forall c | s <= c && Closed(nodes, c) ensures Descendants(nodes, s) <= c {
        assert Adopted(nodes, s) <= c;
      }
    }
  }

  lemma DeleteSetIsLeast(nodes: seq<Node>, target: string)
    ensures target in DeleteSet(nodes, target)
    ensures Closed(nodes, DeleteSet(nodes, target))
    ensures forall s :: target in s && Closed(nodes, s) ==> DeleteSet(nodes, target) <= s
    ensures DeleteSet(nodes, target) <= Ids(nodes) + {target}
  {
    DescendantsIsLeast(nodes, {target});
  }

  /** The nodes that remain: those whose id is not in `dead`, in their order. */
  function Survivors(nodes: seq<Node>, dead: set<string>): (r: seq<Node>)
    ensures forall x :: x in r <==> x in nodes && x.id !in dead
    ensures forall x: Node :: x.id !in dead ==> multiset(r)[x] == multiset(nodes)[x]
    ensures IsSubsequence(r, nodes)
  {
    var alive := (x: Node) => x.id !in dead;
    FilterMembers(nodes, alive);
    FilterCount(nodes, alive);
    FilterSubsequence(nodes, alive);
    Filter(nodes, alive)
  }

  /** No survivor of a delete points at a deleted parent. */
  lemma SurvivorsKeepNoDeletedParent(nodes: seq<Node>, target: string)
    ensures var d := DeleteSet(nodes, target);
      forall x :: x in Survivors(nodes, d) && Truthy(x.parentId) ==> x.parentId.value !in d
  {
    DeleteSetIsLeast(nodes, target);
  }

  /** One pass of the delete loop's `for`: adds, in node order, every node whose
      parent id is already in the set. `bound` is any closed superset. */
  method GrowPass(nodes: seq<Node>, toDelete: set<string>, ghost bound: set<string>)
    returns (next: set<string>, changed: bool)
    requires toDelete <= bound && Closed(nodes, bound)
    ensures toDelete <= next <= bound
    ensures changed ==> |bound - next| < |bound - toDelete|
    ensures !changed ==> next == toDelete && Closed(nodes, toDelete)
  {
    next := toDelete;
    changed := false;
    for j := 0 to |nodes|
      invariant toDelete <= next <= bound
      invariant changed ==> |bound - next| < |bound - toDelete|
      invariant !changed ==> next == toDelete
      invariant !changed ==> forall k :: 0 <= k < j ==>
        !(Truthy(nodes[k].parentId) && nodes[k].parentId.value in next && nodes[k].id !in next)
    {
      var x := nodes[j];
      if Truthy(x.parentId) && x.parentId.value in next && x.id !in next {
        CardShrinks(bound, next, x.id);
        next := next + {x.id};
        changed := true;
      }
    }
    if !changed {
      forall x | x in nodes && Truthy(x.parentId) && x.parentId.value in next
        ensures x.id in next
      {
        var k :| 0 <= k < |nodes| && nodes[k] == x;
      }
    }
  }

  /** The loop of the delete action: starting from `{target}`, repeats passes
      until one adds nothing. The result is exactly `DeleteSet`. */
  method DeleteClosure(nodes: seq<Node>, target: string) returns (toDelete: set<string>)
    ensures toDelete == DeleteSet(nodes, target)
  {
    ghost var d := DeleteSet(nodes, target);
    DeleteSetIsLeast(nodes, target);
    toDelete := {target};
    var changed := true;
    while changed
      invariant target in toDelete && toDelete <= d
      invariant !changed ==> Closed(nodes, toDelete)
      decreases |d - toDelete|, if changed then 1 else 0
    {
      toDelete, changed := GrowPass(nodes, toDelete, d);
    }
  }

  /** The delete action's effect on the node list: compute the id set, then
      keep the nodes outside it. */
  method RemoveSubtree(nodes: seq<Node>, target: string) returns (rest: seq<Node>)
    ensures rest == Survivors(nodes, DeleteSet(nodes, target))
  {
    var toDelete := DeleteClosure(nodes, target);
    rest := Filter(nodes, (x: Node) => x.id !in toDelete);
  }

  /** With unique ids, a node other than the target whose parent link is null,
      empty or points at itself survives the delete: the root among them. */
  lemma UnparentedNodeSurvives(nodes: seq<Node>, target: string, x: Node)
    requires UniqueIds(nodes) && x in nodes && x.id != target
    requires !Truthy(x.parentId) || x.parentId.value == x.id
    ensures x in Survivors(nodes, DeleteSet(nodes, target))
  {
    var s := (Ids(nodes) + {target}) - {x.id};
    forall y | y in nodes && Truthy(y.parentId) && y.parentId.value in s ensures y.id in s {
    }
    assert Closed(nodes, s);
    DeleteSetIsLeast(nodes, target);
  }

  lemma {:induction false} SubsequenceKeepsUniqueIds(a: seq<Node>, b: seq<Node>)
    requires IsSubsequence(a, b) && UniqueIds(b)
    ensures UniqueIds(a) && forall x :: x in a ==> x in b
    decreases |b|
  {
    if a == [] {
    } else if a[0] == b[0] {
      SubsequenceKeepsUniqueIds(a[1..], b[1..]);
      forall k | 0 < k < |a| ensures a[0].id != a[k].id {
        assert a[k] in a[1..];
        var m :| 0 <= m < |b| - 1 && b[1..][m] == a[k];
      }
      forall i, j | 0 <= i < j < |a| ensures a[i].id != a[j].id {
        if i > 0 { assert a[i] == a[1..][i - 1] && a[j] == a[1..][j - 1]; }
      }
      forall x | x in a ensures x in b {
        if x != a[0] { assert x in a[1..]; }
      }
    } else {
      SubsequenceKeepsUniqueIds(a, b[1..]);
    }
  }

  /** A node whose parent is the delete target goes with it, the root included:
      once a save has made the root a child of a category, deleting that
      category deletes the root. */
  lemma ChildOfTargetIsDeleted(nodes: seq<Node>, target: string, x: Node)
    requires x in nodes && Truthy(x.parentId) && x.parentId.value == target
    ensures x.id in DeleteSet(nodes, target)
    ensures x !in Survivors(nodes, DeleteSet(nodes, target))
  {
    DeleteSetIsLeast(nodes, target);
  }

  /** Deleting a non-root node keeps the data-model invariants. */
  lemma DeleteKeepsWellFormed(nodes: seq<Node>, target: Node)
    requires WellFormed(nodes) && target in nodes && !target.isMe
    ensures WellFormed(Survivors(nodes, DeleteSet(nodes, target.id)))
  {
    var r := Survivors(nodes, DeleteSet(nodes, target.id));
    SubsequenceKeepsUniqueIds(r, nodes);
    var me :| me in nodes && me.isMe;
    UnparentedNodeSurvives(nodes, target.id, me);
  }

  /* ===== the controller state ===== */

  class MindMap {
    var nodes: seq<Node>
    var view: View
    var selectedId: Option<string>
    /** What the key-value store last received from `saveAll`. */
    var stored: Option<Data>
    var drag: DragState
    var panning: bool
    var panStart: Option<PanStart>

    /** The gesture records are either cleared or fully armed. */
    ghost predicate Valid()
      reads this
    {
      && (drag == NoDrag
          || (drag.id.Some? && drag.pointerId.Some? && drag.startWorld.Some? && drag.startClient.Some?))
      && (panning <==> panStart.Some?)
    }

    /** Index of the selected node (`selectedId ? findNode(data, selectedId) : null`). */
    function SelectedIndex(): (r: Option<nat>)
      reads this
      ensures r.Some? ==> r.value < |nodes| && Truthy(selectedId) && nodes[r.value].id == selectedId.value
      ensures r.Some? ==> forall j :: 0 <= j < r.value ==> nodes[j].id != selectedId.value
      ensures r.None? ==> !Truthy(selectedId) || forall j :: 0 <= j < |nodes| ==> nodes[j].id != selectedId.value
    {
      if Truthy(selectedId) then FindIndex(nodes, selectedId.value) else None
    }

    /** `boot`: use the loaded snapshot, or build the default tree, save it,
        centre the view on the map and save again; then select the root. */
    constructor Boot(loaded: Option<Data>, meId: string, seeds: seq<CategorySeed>, now: string,
                     mapWidth: real, mapHeight: real)
      requires |seeds| == |DefaultCategories|
      ensures Valid() && drag == NoDrag && !panning
      ensures loaded.Some? ==> nodes == loaded.value.nodes && view == loaded.value.view && stored == loaded
      ensures loaded.None? ==> && nodes == DefaultNodes(meId, seeds, now)
                               && view == View(DefaultScale, mapWidth * 0.5, mapHeight * 0.5)
                               && stored == Some(Data(nodes, view, now))
      ensures selectedId == MeId(nodes)
    {
      var defaults := MakeDefaultData(meId, seeds, now);
      nodes := if loaded.Some? then loaded.value.nodes else defaults.nodes;
      view := if loaded.Some? then loaded.value.view else View(DefaultScale, 0.0, 0.0);
      stored := loaded;
      selectedId := None;
      drag := NoDrag;
      panning := false;
      panStart := None;
      new;
      if loaded.None? {
        SaveAll(now);
        view := view.(ox := mapWidth * 0.5, oy := mapHeight * 0.5);
        SaveAll(now);
      }
      Select(MeId(nodes));
    }

    /** `saveAll`: writes `{ nodes, view, updatedAt }` to the store. */
    method SaveAll(now: string)
      modifies this`stored
      ensures stored == Some(Data(nodes, view, now))
    {
      stored := Some(Data(nodes, view, now));
    }

    /** `select`. */
    method Select(id: Option<string>)
      modifies this`selectedId
      ensures selectedId == id
    {
      selectedId := id;
    }

    /** Priority star click: sets the selected node's priority (no save). */
    method SetPriority(v: int)
      requires Valid()
      modifies this`nodes
      ensures Valid()
      ensures old(SelectedIndex()).None? ==> nodes == old(nodes)
      ensures old(SelectedIndex()).Some? ==> var i := old(SelectedIndex()).value;
        nodes == old(nodes)[i := old(nodes)[i].(priority := Some(v))]
    {
      var i := SelectedIndex();
      if i.None? {
        return;
      }
      nodes := nodes[i.value := nodes[i.value].(priority := Some(v))];
    }

    /** Completed checkbox: sets the selected node's flag (no save). */
    method SetCompleted(checked: bool)
      requires Valid()
      modifies this`nodes
      ensures Valid()
      ensures old(SelectedIndex()).None? ==> nodes == old(nodes)
      ensures old(SelectedIndex()).Some? ==> var i := old(SelectedIndex()).value;
        nodes == old(nodes)[i := old(nodes)[i].(completed := checked)]
    {
      var i := SelectedIndex();
      if i.None? {
        return;
      }
      nodes := nodes[i.value := nodes[i.value].(completed := checked)];
    }

    /** Lock-title checkbox: sets the selected node's lock (no save). */
    method SetLockedTitle(checked: bool)
      requires Valid()
      modifies this`nodes
      ensures Valid()
      ensures old(SelectedIndex()).None? ==> nodes == old(nodes)
      ensures old(SelectedIndex()).Some? ==> var i := old(SelectedIndex()).value;
        nodes == old(nodes)[i := old(nodes)[i].(lockedTitle := checked)]
    {
      var i := SelectedIndex();
      if i.None? {
        return;
      }
      nodes := nodes[i.value := nodes[i.value].(lockedTitle := checked)];
    }

    /** Save button: applies the panel's values to the selected node and saves. */
    method Save(titleValue: string, notesValue: string, completedChecked: bool,
                parentValue: string, now: string)
      requires Valid()
      modifies this`nodes, this`stored
      ensures Valid()
      ensures old(SelectedIndex()).None? ==> nodes == old(nodes) && stored == old(stored)
      ensures old(SelectedIndex()).Some? ==> var i := old(SelectedIndex()).value;
        && nodes == old(nodes)[i := Edited(old(nodes)[i], titleValue, notesValue, completedChecked, parentValue, now)]
        && stored == Some(Data(nodes, view, now))
    {
      var i := SelectedIndex();
      if i.None? {
        return;
      }
      nodes := nodes[i.value := Edited(nodes[i.value], titleValue, notesValue, completedChecked, parentValue, now)];
      SaveAll(now);
    }

    /** Add-child button: appends one new node under the selected one, saves,
        and selects the new node. */
    method AddChild(id: string, now: string, dx: real, dy: real)
      requires Valid()
      modifies this`nodes, this`stored, this`selectedId
      ensures Valid()
      ensures old(SelectedIndex()).None? ==>
        nodes == old(nodes) && stored == old(stored) && selectedId == old(selectedId)
      ensures old(SelectedIndex()).Some? ==> var parent := old(nodes)[old(SelectedIndex()).value];
        && nodes == old(nodes) + [NewChild(parent, id, now, dx, dy)]
        && stored == Some(Data(nodes, view, now))
        && selectedId == Some(id)
    {
      var i := SelectedIndex();
      if i.None? {
        return;
      }
      var child := NewChild(nodes[i.value], id, now, dx, dy);
      nodes := nodes + [child];
      SaveAll(now);
      Select(Some(child.id));
    }

    /** The node the delete action removes: the selected node, unless it is
        the root or the user cancelled the confirmation. */
    function DeleteTarget(confirmed: bool): (r: Option<Node>)
      reads this
      ensures r.Some? ==> r.value in nodes && !r.value.isMe && confirmed
      ensures r.Some? <==> SelectedIndex().Some? && !nodes[SelectedIndex().value].isMe && confirmed
      ensures r.Some? ==> r.value == nodes[SelectedIndex().value]
    {
      match SelectedIndex()
      case None => None
      case Some(i) => if nodes[i].isMe || !confirmed then None else Some(nodes[i])
    }

    /** Delete button: unless there is no target, removes the target and all its
        descendants by growing the id set to a fixed point, saves, and selects
        the root. */
    method Delete(confirmed: bool, now: string)
      requires Valid()
      modifies this`nodes, this`stored, this`selectedId
      ensures Valid()
      ensures old(DeleteTarget(confirmed)).None? ==>
        nodes == old(nodes) && stored == old(stored) && selectedId == old(selectedId)
      ensures old(DeleteTarget(confirmed)).Some? ==>
        && nodes == Survivors(old(nodes), DeleteSet(old(nodes), old(DeleteTarget(confirmed)).value.id))
        && stored == Some(Data(nodes, view, now))
        && selectedId == MeId(nodes)
    {
      var t := DeleteTarget(confirmed);
      if t.None? {
        return;
      }
      var rest := RemoveSubtree(nodes, t.value.id);
      nodes := rest;
      SaveAll(now);
      Select(MeId(nodes));
    }

    /** `setZoom`: stores the requested scale clamped to [0.2, 2.5] and saves. */
    method SetZoom(next: real, now: string)
      requires Valid()
      modifies this`view, this`stored
      ensures Valid()
      ensures view == old(view).(scale := Clamp(next, MinScale, MaxScale))
      ensures MinScale <= view.scale <= MaxScale
      ensures MinScale <= next <= MaxScale ==> view.scale == next
      ensures stored == Some(Data(nodes, view, now))
    {
      view := view.(scale := Clamp(next, MinScale, MaxScale));
      SaveAll(now);
    }

    /** Wheel: zooms out by 0.06 for a positive `deltaY`, in by 0.06 otherwise. */
    method Wheel(deltaY: real, now: string)
      requires Valid()
      modifies this`view, this`stored
      ensures Valid()
      ensures view == old(view).(scale := Clamp(old(view.scale) + (if deltaY > 0.0 then -0.06 else 0.06), MinScale, MaxScale))
      ensures stored == Some(Data(nodes, view, now))
    {
      var delta := if deltaY > 0.0 then -0.06 else 0.06;
      SetZoom(view.scale + delta, now);
    }

    /** Zoom-in and zoom-out buttons: a step of 0.10. */
    method ZoomButton(zoomIn: bool, now: string)
      requires Valid()
      modifies this`view, this`stored
      ensures Valid()
      ensures view == old(view).(scale := Clamp(old(view.scale) + (if zoomIn then 0.10 else -0.10), MinScale, MaxScale))
      ensures stored == Some(Data(nodes, view, now))
    {
      SetZoom(view.scale + (if zoomIn then 0.10 else -0.10), now);
    }

    /** Background pointerdown: starts a pan unless the pointer is on a node. */
    method MapPointerDown(onNode: bool, client: ClientPoint)
      requires Valid()
      modifies this`panning, this`panStart
      ensures Valid()
      ensures onNode ==> panning == old(panning) && panStart == old(panStart)
      ensures !onNode ==> panning && panStart == Some(PanStart(client.x, client.y, view.ox, view.oy))
    {
      if onNode {
        return;
      }
      panning := true;
      panStart := Some(PanStart(client.x, client.y, view.ox, view.oy));
    }

    /** Background pointermove: while panning, the offset follows the pointer. */
    method MapPointerMove(client: ClientPoint)
      requires Valid()
      modifies this`view
      ensures Valid()
      ensures !panning ==> view == old(view)
      ensures panning ==> view == old(view).(ox := panStart.value.ox + (client.x - panStart.value.x) as real,
                                             oy := panStart.value.oy + (client.y - panStart.value.y) as real)
    {
      if !panning || panStart.None? {
        return;
      }
      var p := panStart.value;
      view := view.(ox := p.ox + (client.x - p.x) as real, oy := p.oy + (client.y - p.y) as real);
    }

    /** Background pointerup: ends a pan and saves. */
    method MapPointerUp(now: string)
      requires Valid()
      modifies this`panning, this`panStart, this`stored
      ensures Valid() && !panning
      ensures !old(panning) ==> panStart == old(panStart) && stored == old(stored)
      ensures old(panning) ==> stored == Some(Data(nodes, view, now))
    {
      if !panning {
        return;
      }
      panning := false;
      panStart := None;
      SaveAll(now);
    }

    /** Node pointerdown with the main button on an existing node: arms a drag
        candidate (not yet active). `world` is `screenToWorld` of the pointer. */
    method NodePointerDown(button: int, nodeId: Option<string>, pointerId: int,
                           client: ClientPoint, world: WorldPoint)
      requires Valid()
      modifies this`drag
      ensures Valid()
      ensures (button != 0 || nodeId.None? || FindNode(nodes, nodeId.value).None?) ==> drag == old(drag)
      ensures (button == 0 && nodeId.Some? && FindNode(nodes, nodeId.value).Some?) ==>
        var n := FindNode(nodes, nodeId.value).value;
        drag == DragState(nodeId, Some(pointerId), Some(DragStart(world.x, world.y, n.x, n.y)), Some(client), false)
    {
      if button != 0 || nodeId.None? {
        return;
      }
      var n := FindNode(nodes, nodeId.value);
      if n.None? {
        return;
      }
      drag := drag.(id := nodeId, pointerId := Some(pointerId), active := false, startClient := Some(client));
      drag := drag.(startWorld := Some(DragStart(world.x, world.y, n.value.x, n.value.y)));
    }

    /** A move from `pointerId` to `client` acts on the armed candidate: the
        candidate exists, the pointer is its own, its node still exists, and
        the drag is active or the pointer is at least 3 px from the start. */
    predicate MoveActs(pointerId: int, client: ClientPoint)
      reads this
    {
      && Truthy(drag.id) && drag.startWorld.Some? && drag.startClient.Some?
      && drag.pointerId == Some(pointerId)
      && FindIndex(nodes, drag.id.value).Some?
      && (drag.active || Dist2(client, drag.startClient.value) >= DragThresholdPx * DragThresholdPx)
    }

    /** Node pointermove: ignores foreign pointers; below the threshold does
        nothing; otherwise activates the drag and moves the node with the pointer. */
    method NodePointerMove(pointerId: int, client: ClientPoint, world: WorldPoint)
      requires Valid()
      modifies this`drag, this`nodes
      ensures Valid()
      ensures !old(MoveActs(pointerId, client)) ==> drag == old(drag) && nodes == old(nodes)
      ensures old(MoveActs(pointerId, client)) ==>
        var i := FindIndex(old(nodes), old(drag.id.value)).value;
        var s := old(drag.startWorld.value);
        && drag == old(drag).(active := true)
        && nodes == old(nodes)[i := old(nodes)[i].(x := s.nx + (world.x - s.px), y := s.ny + (world.y - s.py))]
    {
      if !Truthy(drag.id) || drag.startWorld.None? || drag.startClient.None? {
        return;
      }
      if drag.pointerId != Some(pointerId) {
        return;
      }
      var i := FindIndex(nodes, drag.id.value);
      if i.None? {
        return;
      }
      if !drag.active {
        if Dist2(client, drag.startClient.value) < DragThresholdPx * DragThresholdPx {
          return;
        }
        drag := drag.(active := true);
      }
      var s := drag.startWorld.value;
      var n := nodes[i.value];
      nodes := nodes[i.value := n.(x := s.nx + (world.x - s.px), y := s.ny + (world.y - s.py))];
    }

    /** `endNodeDrag`: with no candidate, nothing; otherwise every drag field is
        cleared, then a candidate that never became active is a click (select
        it, no save) and an active drag is saved when `commit`. */
    method EndNodeDrag(commit: bool, now: string)
      requires Valid()
      modifies this`drag, this`selectedId, this`stored
      ensures Valid()
      ensures !Truthy(old(drag.id)) ==>
        drag == old(drag) && selectedId == old(selectedId) && stored == old(stored)
      ensures Truthy(old(drag.id)) ==> drag == NoDrag
      ensures Truthy(old(drag.id)) && !old(drag.active) ==>
        selectedId == old(drag.id) && stored == old(stored)
      ensures Truthy(old(drag.id)) && old(drag.active) ==>
        && selectedId == old(selectedId)
        && stored == if commit then Some(Data(nodes, view, now)) else old(stored)
    {
      if !Truthy(drag.id) {
        return;
      }
      var releasedId := drag.id.value;
      var wasActive := drag.active;
      drag := drag.(id := None, pointerId := None, startWorld := None, startClient := None);
      drag := drag.(active := false);
      if !wasActive {
        Select(Some(releasedId));
        return;
      }
      if commit && wasActive {
        SaveAll(now);
      }
    }

    /** Node pointerup and pointercancel: a different pointer than the
        candidate's is ignored; otherwise the drag ends and commits. */
    method NodePointerRelease(pointerId: int, now: string)
      requires Valid()
      modifies this`drag, this`selectedId, this`stored
      ensures Valid()
      ensures old(drag.pointerId).Some? && old(drag.pointerId) != Some(pointerId) ==>
        drag == old(drag) && selectedId == old(selectedId) && stored == old(stored)
      ensures (old(drag.pointerId).None? || old(drag.pointerId) == Some(pointerId)) ==>
        Ended(old(drag), old(selectedId), old(stored), now)
    {
      if drag.pointerId.Some? && drag.pointerId != Some(pointerId) {
        return;
      }
      EndNodeDrag(true, now);
    }

    /** lostpointercapture: ends the drag and commits. */
    method LostPointerCapture(now: string)
      requires Valid()
      modifies this`drag, this`selectedId, this`stored
      ensures Valid()
      ensures Ended(old(drag), old(selectedId), old(stored), now)
    {
      EndNodeDrag(true, now);
    }

    /** The state `endNodeDrag(true)` leaves, from the drag record, selection
        and store it started with. */
    predicate Ended(d: DragState, sel: Option<string>, st: Option<Data>, now: string)
      reads this
    {
      if !Truthy(d.id) then drag == d && selectedId == sel && stored == st
      else if !d.active then drag == NoDrag && selectedId == d.id && stored == st
      else drag == NoDrag && selectedId == sel && stored == Some(Data(nodes, view, now))
    }
  }

  /** Squared distance between two client points (compared with 3 * 3 where
      the source compares `Math.hypot` with 3). */
  function Dist2(a: ClientPoint, b: ClientPoint): int
  {
    (a.x - b.x) * (a.x - b.x) + (a.y - b.y) * (a.y - b.y)
  }

  /** Press on a node and release after moving less than 3 px: the node is
      selected, nothing moves and nothing is saved. */
  method ClickSelectsWithoutSaving(m: MindMap, id: string, pointerId: int, now: string,
                                   down: ClientPoint, up: ClientPoint, world: WorldPoint)
    requires m.Valid() && m.drag == NoDrag
    requires id != "" && FindNode(m.nodes, id).Some?
    requires Dist2(up, down) < DragThresholdPx * DragThresholdPx
    modifies m
    ensures m.Valid() && m.drag == NoDrag
    ensures m.nodes == old(m.nodes) && m.stored == old(m.stored) && m.selectedId == Some(id)
  {
    m.NodePointerDown(0, Some(id), pointerId, down, world);
    m.NodePointerMove(pointerId, up, world);
    m.NodePointerRelease(pointerId, now);
  }

  /** Press on a node, move at least 3 px and release: the node follows the
      pointer and the new position is saved. */
  method DragThenReleaseSaves(m: MindMap, id: string, pointerId: int, now: string,
                              down: ClientPoint, up: ClientPoint, startWorld: WorldPoint, endWorld: WorldPoint)
    requires m.Valid() && m.drag == NoDrag
    requires id != "" && FindNode(m.nodes, id).Some?
    requires Dist2(up, down) >= DragThresholdPx * DragThresholdPx
    modifies m
    ensures m.Valid() && m.drag == NoDrag && m.selectedId == old(m.selectedId)
    ensures var i := FindIndex(old(m.nodes), id).value;
      var n := old(m.nodes)[i];
      m.nodes == old(m.nodes)[i := n.(x := n.x + (endWorld.x - startWorld.x), y := n.y + (endWorld.y - startWorld.y))]
    ensures m.stored == Some(Data(m.nodes, m.view, now))
  {
    m.NodePointerDown(0, Some(id), pointerId, down, startWorld);
    m.NodePointerMove(pointerId, up, endWorld);
    m.NodePointerRelease(pointerId, now);
  }

  /** Select the root, pick a category in the parent select and save, then
      select that category and delete it: the cascade takes the root with it,
      and no root is left to select. */
  method SaveRootUnderCategoryThenDelete(m: MindMap, me: Node, cat: Node, titleValue: string,
                                         notesValue: string, completedChecked: bool, now: string)
    requires m.Valid() && WellFormed(m.nodes)
    requires me in m.nodes && me.isMe && me.id != ""
    requires cat in m.nodes && cat.isCategory && !cat.isMe && cat.id != ""
    modifies m
    ensures cat.id in old(ParentOptions(m.nodes))
    ensures FindMe(m.nodes) == None && m.selectedId == None
  {
    var i :| 0 <= i < |m.nodes| && m.nodes[i] == me;
    var k :| 0 <= k < |m.nodes| && m.nodes[k] == cat;
    ghost var before := m.nodes;
    assert cat.id in ParentOptions(before);
    IndexOfUniqueId(before, i);
    OnlyRootIsMe(before, i);
    m.Select(Some(me.id));
    m.Save(titleValue, notesValue, completedChecked, cat.id, now);
    assert i != k;
    EditKeepsUniqueIds(before, i, m.nodes[i]);
    DeleteParentOfRoot(m, i, k, now);
  }

  /** Select and delete node `k` when the root, at `i`, is its child: no root is left. */
  method DeleteParentOfRoot(m: MindMap, i: nat, k: nat, now: string)
    requires m.Valid() && UniqueIds(m.nodes) && i < |m.nodes| && k < |m.nodes| && i != k
    requires m.nodes[i].parentId == Some(m.nodes[k].id) && m.nodes[k].id != "" && !m.nodes[k].isMe
    requires forall j :: 0 <= j < |m.nodes| && j != i ==> !m.nodes[j].isMe
    modifies m
    ensures FindMe(m.nodes) == None && m.selectedId == None
  {
    ghost var before := m.nodes;
    IndexOfUniqueId(before, k);
    ChildOfTargetIsDeleted(before, before[k].id, before[i]);
    m.Select(Some(m.nodes[k].id));
    m.Delete(true, now);
    NoRootLeft(before, i, m.nodes);
  }

  /** With unique ids, looking a stored node's id up finds that node. */
  lemma IndexOfUniqueId(nodes: seq<Node>, i: nat)
    requires UniqueIds(nodes) && i < |nodes|
    ensures FindIndex(nodes, nodes[i].id) == Some(i)
  {
  }

  /** Replacing a node by one with the same id keeps the ids unique. */
  lemma EditKeepsUniqueIds(nodes: seq<Node>, i: nat, e: Node)
    requires UniqueIds(nodes) && i < |nodes| && e.id == nodes[i].id
    ensures UniqueIds(nodes[i := e])
  {
  }

  /** In well-formed data, no node but the root is flagged as the root. */
  lemma OnlyRootIsMe(nodes: seq<Node>, i: nat)
    requires WellFormed(nodes) && i < |nodes| && nodes[i].isMe
    ensures forall j :: 0 <= j < |nodes| && j != i ==> !nodes[j].isMe
  {

  }

  /** Removing the only node flagged as the root leaves no root to find. */
  lemma NoRootLeft(nodes: seq<Node>, i: nat, rest: seq<Node>)
    requires i < |nodes| && forall j :: 0 <= j < |nodes| && j != i ==> !nodes[j].isMe
    requires nodes[i] !in rest && forall x :: x in rest ==> x in nodes
    ensures FindMe(rest) == None
  {
    forall x | x in rest
      ensures !x.isMe
    {
      var j :| 0 <= j < |nodes| && nodes[j] == x;
    }
  }
}
