/** The tree store of js/state.js: goal nodes kept in one flat sequence and
    linked to their parents by id, with lookup, child enumeration and the
    cycle-guarded walk up to the nearest category. */
module TreeState {
  import opened Seqs

  /** One goal, category or the root ("Me"). `parentId` is `None` for JSON
      `null`; `priority` is `None` for a missing or `null` priority. */
  datatype Node = Node(
    id: string,
    title: string,
    notes: string,
    priority: Option<int>,
    parentId: Option<string>,
    x: real,
    y: real,
    lockedTitle: bool,
    completed: bool,
    isMe: bool,
    isCategory: bool,
    createdAt: string,
    updatedAt: string)

  /** JavaScript truthiness of a string-or-null value: present and non-empty. */
  predicate Truthy(s: Option<string>)
  {
    s.Some? && s.value != ""
  }

  /** `Math.max(a, Math.min(b, n))`. */
  function Clamp(n: real, a: real, b: real): (r: real)
    ensures a <= b ==> a <= r <= b
    ensures a <= n <= b ==> r == n
    ensures n < a ==> r == a
    ensures a <= b && b < n ==> r == b
    ensures b < a ==> r == a
  {
    var m := if b < n then b else n;
    if a < m then m else a
  }

  /** Clamping twice to the same interval is clamping once. */
  lemma ClampIdempotent(n: real, a: real, b: real)
    requires a <= b
    ensures Clamp(Clamp(n, a, b), a, b) == Clamp(n, a, b)
  {
  }

  /** Index of the first node with the given id, as `Array.prototype.find` scans. */
  function FindIndex(nodes: seq<Node>, id: string): (r: Option<nat>)
    ensures r.Some? ==> r.value < |nodes| && nodes[r.value].id == id
    ensures r.Some? ==> forall j :: 0 <= j < r.value ==> nodes[j].id != id
    ensures r.None? ==> forall j :: 0 <= j < |nodes| ==> nodes[j].id != id
  {
    if nodes == [] then None
    else if nodes[0].id == id then Some(0)
    else match FindIndex(nodes[1..], id)
      case None => None
      case Some(i) => Some(i + 1)
  }

  /** `findNode`: the first node with the given id, or `None` (null). */
  function FindNode(nodes: seq<Node>, id: string): (r: Option<Node>)
    ensures r.Some? ==> r.value in nodes && r.value.id == id
    ensures r.None? <==> forall n :: n in nodes ==> n.id != id
  {
    match FindIndex(nodes, id)
    case None => None
    case Some(i) => Some(nodes[i])
  }

  /** `FindNode` returns the first match: every node before it has another id. */
  lemma FindNodeFirst(nodes: seq<Node>, id: string, i: nat)
    requires i < |nodes| && nodes[i].id == id
    requires forall j :: 0 <= j < i ==> nodes[j].id != id
    ensures FindNode(nodes, id) == Some(nodes[i])
  {
  }

  /** `childrenOf`: the nodes whose `parentId` is exactly `parentId`, in storage order. */
  function ChildrenOf(nodes: seq<Node>, parentId: Option<string>): (r: seq<Node>)
    ensures forall n :: n in r <==> n in nodes && n.parentId == parentId
    ensures forall n: Node :: n.parentId == parentId ==> multiset(r)[n] == multiset(nodes)[n]
    ensures IsSubsequence(r, nodes)
  {
    var isChild := (n: Node) => n.parentId == parentId;
    FilterMembers(nodes, isChild);
    FilterCount(nodes, isChild);
    FilterSubsequence(nodes, isChild);
    Filter(nodes, isChild)
  }

  function Ids(nodes: seq<Node>): set<string>
  {
    set n | n in nodes :: n.id
  }

  /** The node `c.parentId` refers to, looked up as `findNode` does. */
  function Parent(nodes: seq<Node>, c: Node): Option<Node>
  {
    if Truthy(c.parentId) then FindNode(nodes, c.parentId.value) else None
  }

  /** The node `k` parent steps above `c` (`c` itself for `k == 0`). */
  function AncestorAt(nodes: seq<Node>, c: Node, k: nat): Option<Node>
    decreases k
  {
    if k == 0 then Some(c)
    else match Parent(nodes, c)
      case None => None
      case Some(p) => AncestorAt(nodes, p, k - 1)
  }

  /** The ancestor `k >= 1` steps up is a category titled `t` and no ancestor
      strictly between is a category: it is the nearest category above `c`. */
  predicate NearestCategoryAt(nodes: seq<Node>, c: Node, k: nat, t: string)
  {
    && k >= 1
    && AncestorAt(nodes, c, k).Some?
    && AncestorAt(nodes, c, k).value.isCategory
    && AncestorAt(nodes, c, k).value.title == t
    && forall j :: 1 <= j < k ==> AncestorAt(nodes, c, j).Some? && !AncestorAt(nodes, c, j).value.isCategory
  }

  /** Outcome of the upward walk in `rootCategoryOf`. */
  datatype Walk = Found(title: string) | Stopped

  lemma CardShrinks(u: set<string>, g: set<string>, k: string)
    ensures |u - (g + {k})| <= |u - g|
    ensures k in u && k !in g ==> |u - (g + {k})| < |u - g|
  {
    if k in u && k !in g {
      assert u - g == (u - (g + {k})) + {k};
    } else {
      assert u - (g + {k}) == u - g;
    }
  }

  /** The loop of `rootCategoryOf` as a recursive function: from `cur`, with the
      ids in `guard` already visited. Each step either stops or adds the unseen
      id of a node of `nodes` to `guard`, so the walk ends on any parent links,
      self-loops and cycles included. */
  function WalkUp(nodes: seq<Node>, cur: Node, guard: set<string>): Walk
    decreases |Ids(nodes) - guard|, if cur in nodes then 0 else 1
  {
    if !Truthy(cur.parentId) || cur.id in guard then Stopped
    else match FindNode(nodes, cur.parentId.value)
      case None => Stopped
      case Some(p) =>
        if p.isCategory then Found(p.title)
        else
          CardShrinks(Ids(nodes), guard, cur.id);
          WalkUp(nodes, p, guard + {cur.id})
  }

  /** What `rootCategoryOf` returns: the nearest category ancestor's title,
      else the node's own title if it is a category, else "". */
  function CategoryOf(nodes: seq<Node>, node: Node): string
  {
    match WalkUp(nodes, node, {})
    case Found(t) => t
    case Stopped => if node.isCategory then node.title else ""
  }

  /** `rootCategoryOf`: walks up the parent links with a guard set of visited ids. */
  method RootCategoryOf(nodes: seq<Node>, node: Node) returns (r: string)
    ensures r == CategoryOf(nodes, node)
  {
    var cur := node;
    var guard: set<string> := {};
    while Truthy(cur.parentId)
      invariant cur == node || cur in nodes
      invariant WalkUp(nodes, cur, guard) == WalkUp(nodes, node, {})
      decreases |Ids(nodes) - guard|, if cur in nodes then 0 else 1
    {
      if cur.id in guard {
        break;
      }
      ghost var seen := guard;
      guard := guard + {cur.id};
      CardShrinks(Ids(nodes), seen, cur.id);
      var p := FindNode(nodes, cur.parentId.value);
      if p.None? {
        break;
      }
      if p.value.isCategory {
        return p.value.title;
      }
      cur := p.value;
    }
    if node.isCategory {
      return node.title;
    }
    return "";
  }

  /** Soundness: a title the walk finds is that of the nearest category above `cur`. */
  lemma {:induction false} WalkFoundIsNearest(nodes: seq<Node>, cur: Node, guard: set<string>, t: string)
    requires WalkUp(nodes, cur, guard) == Found(t)
    ensures exists k :: NearestCategoryAt(nodes, cur, k, t)
    decreases |Ids(nodes) - guard|, if cur in nodes then 0 else 1
  {
    var p := FindNode(nodes, cur.parentId.value).value;
    assert Parent(nodes, cur) == Some(p);
    if p.isCategory {
      assert NearestCategoryAt(nodes, cur, 1, t);
    } else {
      CardShrinks(Ids(nodes), guard, cur.id);
      WalkFoundIsNearest(nodes, p, guard + {cur.id}, t);
      var k: nat :| NearestCategoryAt(nodes, p, k, t);
      forall j | 1 <= j < k + 1
        ensures AncestorAt(nodes, cur, j).Some? && !AncestorAt(nodes, cur, j).value.isCategory
      {
        assert AncestorAt(nodes, cur, j) == AncestorAt(nodes, p, j - 1);
      }
      assert AncestorAt(nodes, cur, k + 1) == AncestorAt(nodes, p, k);
      assert NearestCategoryAt(nodes, cur, k + 1, t);
    }
  }

  /** The ids of `c` and its first `k` ancestors (indices `0 .. k-1`) are pairwise
      distinct and none is in `guard`: the walk meets no revisit before step `k`. */
  predicate FreshPath(nodes: seq<Node>, c: Node, k: nat, guard: set<string>)
  {
    && (forall j :: 0 <= j < k ==> AncestorAt(nodes, c, j).Some? && AncestorAt(nodes, c, j).value.id !in guard)
    && (forall i, j :: 0 <= i < j < k ==>
          AncestorAt(nodes, c, i).Some? && AncestorAt(nodes, c, j).Some? &&
          AncestorAt(nodes, c, i).value.id != AncestorAt(nodes, c, j).value.id)
  }

  /** Completeness: when the nearest category lies `k` steps up and no id repeats
      on the way, the walk finds it. */
  lemma {:induction false} NearestIsFound(nodes: seq<Node>, cur: Node, guard: set<string>, k: nat, t: string)
    requires NearestCategoryAt(nodes, cur, k, t)
    requires FreshPath(nodes, cur, k, guard)
    ensures WalkUp(nodes, cur, guard) == Found(t)
    decreases k
  {
    assert AncestorAt(nodes, cur, 0) == Some(cur);
    assert cur.id !in guard;
    var p := Parent(nodes, cur).value;
    assert AncestorAt(nodes, cur, 1) == Some(p);
    if k > 1 {
      assert !p.isCategory;
      forall j | 1 <= j < k - 1
        ensures AncestorAt(nodes, p, j).Some? && !AncestorAt(nodes, p, j).value.isCategory
      {
        assert AncestorAt(nodes, cur, j + 1) == AncestorAt(nodes, p, j);
      }
      assert AncestorAt(nodes, cur, k) == AncestorAt(nodes, p, k - 1);
      assert NearestCategoryAt(nodes, p, k - 1, t);
      forall j | 0 <= j < k - 1
        ensures AncestorAt(nodes, p, j).Some? && AncestorAt(nodes, p, j).value.id !in guard + {cur.id}
      {
        assert AncestorAt(nodes, cur, j + 1) == AncestorAt(nodes, p, j);
      }
      forall i, j | 0 <= i < j < k - 1
        ensures AncestorAt(nodes, p, i).Some? && AncestorAt(nodes, p, j).Some? &&
          AncestorAt(nodes, p, i).value.id != AncestorAt(nodes, p, j).value.id
      {
        assert AncestorAt(nodes, cur, i + 1) == AncestorAt(nodes, p, i);
        assert AncestorAt(nodes, cur, j + 1) == AncestorAt(nodes, p, j);
      }
      NearestIsFound(nodes, p, guard + {cur.id}, k - 1, t);
    }
  }

  /** `rootCategoryOf` on a node whose parent link points to itself (the root
      after a save, or a category that picked itself as parent) ends after one
      step, with the node's own title if it is a category and "" otherwise. */
  lemma SelfParentedCategory(nodes: seq<Node>, n: Node)
    requires n.id != "" && n.parentId == Some(n.id)
    requires FindNode(nodes, n.id) == Some(n)
    ensures CategoryOf(nodes, n) == if n.isCategory then n.title else ""
  {
    if !n.isCategory {
      assert WalkUp(nodes, n, {}) == WalkUp(nodes, n, {n.id});
    }
  }
}
