/** The DOM that gumbo-parser/src/parser.c builds: nodes linked both ways, by a
    children vector and by parent and index_within_parent. The heap operations
    are proved against operations on snapshots of the links. */
module Dom {
  import opened Attributes
  import opened Tags

  datatype Kind = Document | Element | Template | Text | Whitespace | CData | Comment

  class Node {
    const kind: Kind
    const ns: Namespace
    const tag: Tag
    const name: string        // the tag name
    const attrs: seq<Attr>
    const text: string
    var parent: Node?
    var index: int            // index_within_parent; -1 without a parent
    var children: seq<Node>
    ghost var rank: nat       // grows from parent to child

    constructor (kind: Kind, ns: Namespace, tag: Tag, name: string, attrs: seq<Attr>, text: string)
      ensures this.kind == kind && this.ns == ns && this.tag == tag && this.name == name
      ensures this.attrs == attrs && this.text == text
      ensures parent == null && index == -1 && children == [] && rank == 0
    {
      this.kind, this.ns, this.tag, this.name, this.attrs, this.text := kind, ns, tag, name, attrs, text;
      parent, index, children, rank := null, -1, [], 0;
    }
  }

  predicate IsElement(n: Node)
  {
    n.kind == Element || n.kind == Template
  }

  predicate IsContainer(n: Node)
  {
    IsElement(n) || n.kind == Document
  }

  // The links of one node, and of all nodes of a document.
  datatype Links = Links(parent: Node?, index: int, children: seq<Node>, rank: nat)
  type Shape = map<Node, Links>

  ghost function ShapeOf(nodes: set<Node>): (d: Shape)
    reads nodes
    ensures d.Keys == nodes
  {
    map n | n in nodes :: Links(n.parent, n.index, n.children, n.rank)
  }

  // The links of n agree with those of its parent and children, and its rank
  // lies above its parent's.
  ghost predicate NodeOK(d: Shape, n: Node)
    requires n in d
  {
    && (d[n].parent == null ==> d[n].index == -1)
    && (d[n].parent != null ==>
          && d[n].parent in d
          && 0 <= d[n].index < |d[d[n].parent].children| && d[d[n].parent].children[d[n].index] == n
          && d[d[n].parent].rank < d[n].rank)
    && (forall i :: 0 <= i < |d[n].children| ==> ChildOK(d, n, i))
    && (d[n].children != [] ==> IsContainer(n))
  }

  ghost predicate ChildOK(d: Shape, n: Node, i: nat)
    requires n in d && i < |d[n].children|
  {
    var c := d[n].children[i];
    c in d && d[c].parent == n && d[c].index == i
  }

  // A well-linked forest: cycles are impossible because ranks grow downwards.
  ghost predicate Tree(d: Shape)
  {
    forall n {:trigger NodeOK(d, n)} :: n in d ==> NodeOK(d, n)
  }

  // a is n or an ancestor of n.
  ghost predicate IsAnc(d: Shape, a: Node, n: Node)
    requires Tree(d) && n in d
    decreases d[n].rank
  {
    n == a || (d[n].parent != null && (assert NodeOK(d, n); IsAnc(d, a, d[n].parent)))
  }

  lemma {:induction false} AncRank(d: Shape, a: Node, n: Node)
    requires Tree(d) && n in d && IsAnc(d, a, n)
    ensures a in d && (a == n || d[a].rank < d[n].rank)
    decreases d[n].rank
  {
    assert NodeOK(d, n);
    if n != a {
      AncRank(d, a, d[n].parent);
    }
  }

  lemma {:induction false} AncTrans(d: Shape, a: Node, b: Node, n: Node)
    requires Tree(d) && n in d && b in d && IsAnc(d, a, b) && IsAnc(d, b, n)
    ensures IsAnc(d, a, n)
    decreases d[n].rank
  {
    assert NodeOK(d, n);
    if n != b {
      AncTrans(d, a, b, d[n].parent);
    }
  }

  // Two ancestors of the same node are themselves related.
  lemma {:induction false} AncChain(d: Shape, a: Node, b: Node, n: Node)
    requires Tree(d) && n in d && IsAnc(d, a, n) && IsAnc(d, b, n)
    ensures a in d && b in d && (IsAnc(d, a, b) || IsAnc(d, b, a))
    decreases d[n].rank
  {
    assert NodeOK(d, n);
    AncRank(d, a, n);
    AncRank(d, b, n);
    if n != a && n != b {
      AncChain(d, a, b, d[n].parent);
    }
  }

  // The links of n after x has been taken out of its parent's children.
  ghost function DetachAt(d: Shape, x: Node, n: Node): (r: Links)
    requires Tree(d) && x in d && n in d
  {
    var p := d[x].parent;
    if p == null then d[n]
    else
      assert NodeOK(d, x);
      if n == x then d[n].(parent := null, index := -1)
      else if n == p then d[n].(children := d[n].children[..d[x].index] + d[n].children[d[x].index + 1..])
      else if d[n].parent == p && d[n].index > d[x].index then d[n].(index := d[n].index - 1)
      else d[n]
  }

  // remove_from_parent
  ghost function Detach(d: Shape, x: Node): (r: Shape)
    requires Tree(d) && x in d
    ensures r.Keys == d.Keys
  {
    map n | n in d :: DetachAt(d, x, n)
  }

  ghost function AttachAt(d: Shape, x: Node, p: Node, i: nat, n: Node): (r: Links)
    requires Tree(d) && x in d && p in d && i <= |d[p].children| && n in d
  {
    var k := if IsAnc(d, x, n) then d[n].rank + d[p].rank + 1 else d[n].rank;
    if n == x then Links(p, i, d[n].children, k)
    else if n == p then d[n].(children := d[n].children[..i] + [x] + d[n].children[i..], rank := k)
    else if d[n].parent == p && d[n].index >= i then d[n].(index := d[n].index + 1, rank := k)
    else d[n].(rank := k)
  }

  // insert_node at position i of p's children; append_node when i is their number.
  ghost function Attach(d: Shape, x: Node, p: Node, i: nat): (r: Shape)
    requires Tree(d) && x in d && p in d && i <= |d[p].children|
    ensures r.Keys == d.Keys
  {
    map n | n in d :: AttachAt(d, x, p, i, n)
  }

  lemma DetachRoot(d: Shape, x: Node)
    requires Tree(d) && x in d && d[x].parent == null
    ensures Detach(d, x) == d
  {
  }

  lemma DetachChild(d: Shape, x: Node, n: Node, i: nat)
    requires Tree(d) && x in d && n in d && i < |Detach(d, x)[n].children|
    ensures ChildOK(Detach(d, x), n, i)
  {
    var p := d[x].parent;
    assert NodeOK(d, x) && NodeOK(d, n);
    var k := if p != null && n == p && i >= d[x].index then i + 1 else i;
    assert ChildOK(d, n, k);
    assert NodeOK(d, d[n].children[k]);
    assert Detach(d, x)[n].children[i] == d[n].children[k];
  }

  lemma DetachNode(d: Shape, x: Node, n: Node)
    requires Tree(d) && x in d && n in d
    ensures NodeOK(Detach(d, x), n)
  {
    var p, r := d[x].parent, Detach(d, x);
    assert NodeOK(d, x) && NodeOK(d, n);
    if d[n].parent != null { assert NodeOK(d, d[n].parent); }
    forall i | 0 <= i < |r[n].children| ensures ChildOK(r, n, i) {
      DetachChild(d, x, n, i);
    }
    hide Tree, ChildOK;
  }

  lemma DetachTree(d: Shape, x: Node)
    requires Tree(d) && x in d
    ensures Tree(Detach(d, x)) && Detach(d, x)[x].parent == null
    ensures forall n :: n in d && n != x ==> Detach(d, x)[n].parent == d[n].parent
  {
    forall n | n in d ensures NodeOK(Detach(d, x), n) {
      DetachNode(d, x, n);
    }
  }

  lemma {:induction false} DetachAnc(d: Shape, x: Node, a: Node, n: Node)
    requires Tree(d) && x in d && n in d && Tree(Detach(d, x))
    ensures IsAnc(Detach(d, x), a, n) <==> IsAnc(d, a, n) && (IsAnc(d, x, n) ==> a in d && IsAnc(d, x, a))
    decreases d[n].rank
  {
    var r := Detach(d, x);
    assert NodeOK(d, n) && NodeOK(r, n);
    if IsAnc(d, a, n) { AncRank(d, a, n); }
    if n == x {
      if IsAnc(d, a, x) && IsAnc(d, x, a) { AncRank(d, x, a); }
    } else if d[n].parent != null {
      DetachAnc(d, x, a, d[n].parent);
    }
  }

  lemma AttachChild(d: Shape, x: Node, p: Node, i: nat, n: Node, j: nat)
    requires Tree(d) && x in d && p in d && i <= |d[p].children|
    requires d[x].parent == null && x != p && n in d && j < |Attach(d, x, p, i)[n].children|
    ensures ChildOK(Attach(d, x, p, i), n, j)
  {
    assert NodeOK(d, n);
    if n != p || j != i {
      var k := if n == p && j > i then j - 1 else j;
      assert ChildOK(d, n, k);
      assert NodeOK(d, d[n].children[k]);
      assert Attach(d, x, p, i)[n].children[j] == d[n].children[k];
    }
  }

  lemma AttachNode(d: Shape, x: Node, p: Node, i: nat, n: Node)
    requires Tree(d) && x in d && p in d && i <= |d[p].children| && n in d
    requires d[x].parent == null && IsContainer(p) && !IsAnc(d, x, p)
    ensures NodeOK(Attach(d, x, p, i), n)
  {
    var r := Attach(d, x, p, i);
    assert NodeOK(d, n) && NodeOK(d, p);
    forall j | 0 <= j < |r[n].children| ensures ChildOK(r, n, j) {
      AttachChild(d, x, p, i, n, j);
    }
    if d[n].parent != null { assert NodeOK(d, d[n].parent); }
  }

  lemma AttachTree(d: Shape, x: Node, p: Node, i: nat)
    requires Tree(d) && x in d && p in d && i <= |d[p].children|
    requires d[x].parent == null && IsContainer(p) && !IsAnc(d, x, p)
    ensures Tree(Attach(d, x, p, i)) && Attach(d, x, p, i)[x].parent == p
    ensures forall n :: n in d && n != x ==> Attach(d, x, p, i)[n].parent == d[n].parent
  {
    forall n | n in d ensures NodeOK(Attach(d, x, p, i), n) {
      AttachNode(d, x, p, i, n);
    }
  }

  lemma {:induction false} AttachAnc(d: Shape, x: Node, p: Node, i: nat, a: Node, n: Node)
    requires Tree(d) && x in d && p in d && i <= |d[p].children| && n in d
    requires d[x].parent == null && !IsAnc(d, x, p) && Tree(Attach(d, x, p, i))
    ensures IsAnc(Attach(d, x, p, i), a, n) <==> IsAnc(d, a, n) || (IsAnc(d, x, n) && IsAnc(d, a, p))
    decreases Attach(d, x, p, i)[n].rank
  {
    var r := Attach(d, x, p, i);
    assert NodeOK(d, n) && NodeOK(r, n);
    if n == x {
      AttachAnc(d, x, p, i, a, p);
    } else if d[n].parent != null {
      AttachAnc(d, x, p, i, a, d[n].parent);
    }
  }

  // gumbo_vector_index_of
  function IndexOf<T(==)>(s: seq<T>, x: T): (i: int)
    ensures -1 <= i < |s|
    ensures i == -1 <==> x !in s
    ensures i >= 0 ==> s[i] == x && x !in s[..i]
  {
    if s == [] then -1
    else if s[0] == x then 0
    else
      var i := IndexOf(s[1..], x);
      if i == -1 then -1 else i + 1
  }

  // gumbo_vector_remove_at and gumbo_vector_insert_at
  function RemoveAt<T>(s: seq<T>, i: nat): (r: seq<T>)
    requires i < |s|
    ensures |r| == |s| - 1
    ensures forall j :: 0 <= j < |r| ==> r[j] == if j < i then s[j] else s[j + 1]
  {
    s[..i] + s[i + 1..]
  }

  function InsertAt<T>(s: seq<T>, i: nat, x: T): (r: seq<T>)
    requires i <= |s|
    ensures |r| == |s| + 1
    ensures forall j :: 0 <= j < |r| ==> r[j] == if j < i then s[j] else if j == i then x else s[j - 1]
  {
    s[..i] + [x] + s[i..]
  }

  // A place to insert at; index -1 means after the last child.
  datatype Location = Location(target: Node, index: int)

  predicate InSuffix(s: seq<Node>, from: int, m: Node)
  {
    exists i :: 0 <= i < |s| && from <= i && s[i] == m
  }

  // Every child from position `from` on gets its position as its index.
  method Renumber(ghost nodes: set<Node>, p: Node, from: nat)
    requires p in nodes && from <= |p.children|
    requires forall i :: 0 <= i < |p.children| ==> p.children[i] in nodes
    requires forall i, j :: 0 <= i < j < |p.children| ==> p.children[i] != p.children[j]
    modifies nodes`index
    ensures forall i :: from <= i < |p.children| ==> p.children[i].index == i
    ensures forall m :: m in nodes && !InSuffix(p.children, from, m) ==> m.index == old(m.index)
  {
    var i: nat := from;
    while i < |p.children|
      invariant from <= i <= |p.children|
      invariant forall j :: from <= j < i ==> p.children[j].index == j
      invariant forall m :: m in nodes && !InSuffix(p.children, from, m) ==> m.index == old(m.index)
    {
      assert InSuffix(p.children, from, p.children[i]);
      p.children[i].index := i;
      i := i + 1;
    }
  }

  // Unlinks a node from its parent, if it has one, and renumbers its later siblings.
  method RemoveFromParent(ghost nodes: set<Node>, node: Node)
    requires node in nodes && Tree(ShapeOf(nodes))
    requires node.parent != null ==> IsElement(node.parent)
    modifies nodes
    ensures ShapeOf(nodes) == Detach(old(ShapeOf(nodes)), node)
  {
    hide Tree, NodeOK, DetachAt, Detach, IndexOf;
    ghost var d := ShapeOf(nodes);
    if node.parent == null {
      DetachRoot(d, node);
      return;
    }
    var p := node.parent;
    ChildIndex(d, p, node);
    DistinctChildren(d, p);
    var index := IndexOf(p.children, node);
    p.children := RemoveAt(p.children, index);
    node.parent := null;
    node.index := -1;
    Renumber(nodes, p, index);
    IsDetach(d, node, p, index, ShapeOf(nodes));
  }

  // What the assignments of RemoveFromParent amount to.
  lemma IsDetach(d: Shape, x: Node, p: Node, k: nat, e: Shape)
    requires Tree(d) && x in d && p in d && x != p && d[x].parent == p && d[x].index == k && e.Keys == d.Keys
    requires k < |d[p].children|
    requires forall m :: m in d ==> e[m].parent == if m == x then null else d[m].parent
    requires forall m :: m in d ==> e[m].rank == d[m].rank
    requires forall m :: m in d && m != p ==> e[m].children == d[m].children
    requires var ch := e[p].children;
             && ch == RemoveAt(d[p].children, k)
             && (forall i :: k <= i < |ch| ==> ch[i] in d && e[ch[i]].index == i)
             && (forall m :: m in d && !InSuffix(ch, k, m) ==> e[m].index == if m == x then -1 else d[m].index)
    ensures e == Detach(d, x)
  {
    var ch := e[p].children;
    hide Tree, NodeOK, DetachAt;
    forall m | m in d ensures e[m] == DetachAt(d, x, m) {
      if InSuffix(ch, k, m) {
        var i: nat :| i < |ch| && k <= i && ch[i] == m;
        assert e[m].index == i;
      }
      IsDetachAt(d, x, p, k, ch, m, e[m]);
    }
  }

  lemma IsDetachAt(d: Shape, x: Node, p: Node, k: nat, ch: seq<Node>, m: Node, l: Links)
    requires Tree(d) && x in d && m in d && p in d && x != p && d[x].parent == p && d[x].index == k < |d[p].children|
    requires ch == RemoveAt(d[p].children, k)
    requires l.parent == (if m == x then null else d[m].parent) && l.rank == d[m].rank
    requires l.children == if m == p then ch else d[m].children
    requires if InSuffix(ch, k, m) then k <= l.index < |ch| && ch[l.index] == m
             else l.index == if m == x then -1 else d[m].index
    ensures l == DetachAt(d, x, m)
  {
    DetachIndex(d, x, p, k, m, ch);
    if InSuffix(ch, k, m) {
      assert d[p].children[l.index + 1] == m;
      assert NodeOK(d, p);
      assert ChildOK(d, p, l.index + 1);
    }
  }

  lemma ChildIndex(d: Shape, p: Node, x: Node)
    requires Tree(d) && x in d && d[x].parent == p
    ensures p in d && p != x && IndexOf(d[p].children, x) == d[x].index >= 0
  {
    assert NodeOK(d, x) && NodeOK(d, p);
    var i := IndexOf(d[p].children, x);
    assert x in d[p].children;
    assert ChildOK(d, p, i);
  }

  lemma DistinctChildren(d: Shape, p: Node)
    requires Tree(d) && p in d
    ensures forall i :: 0 <= i < |d[p].children| ==> d[p].children[i] in d && d[p].children[i] != p
    ensures forall i, j :: 0 <= i < j < |d[p].children| ==> d[p].children[i] != d[p].children[j]
  {
    assert NodeOK(d, p);
    forall i | 0 <= i < |d[p].children|
      ensures d[p].children[i] in d && d[p].children[i] != p && d[d[p].children[i]].index == i
    {
      assert ChildOK(d, p, i);
      assert NodeOK(d, d[p].children[i]);
    }
  }

  // Where a node stands among the children that follow the removed position.
  lemma DetachIndex(d: Shape, x: Node, p: Node, k: nat, m: Node, ch: seq<Node>)
    requires Tree(d) && x in d && m in d && p in d && d[x].parent == p && d[x].index == k < |d[p].children|
    requires ch == RemoveAt(d[p].children, k)
    ensures InSuffix(ch, k, m) ==>
              m != x && m != p && d[m].parent == p && k < d[m].index <= |ch| && ch[d[m].index - 1] == m
    ensures m != x && d[m].parent == p && d[m].index > k ==> InSuffix(ch, k, m)
  {
    assert NodeOK(d, p) && NodeOK(d, m) && NodeOK(d, x);
    if InSuffix(ch, k, m) {
      var i: nat :| i < |ch| && k <= i && ch[i] == m;
      assert ChildOK(d, p, i + 1);
    }
    if d[m].parent == p && d[m].index > k {
      assert ch[d[m].index - 1] == m;
    }
  }

  // Appends a parentless node to the children of another node.
  method AppendNode(ghost nodes: set<Node>, parent: Node, node: Node)
    requires node in nodes && parent in nodes && Tree(ShapeOf(nodes))
    requires node.parent == null && IsContainer(parent) && !IsAnc(ShapeOf(nodes), node, parent)
    modifies nodes
    ensures ShapeOf(nodes) == Attach(old(ShapeOf(nodes)), node, parent, |old(parent.children)|)
  {
    ghost var d := ShapeOf(nodes);
    assert node != parent;
    node.parent := parent;
    node.index := |parent.children|;
    parent.children := parent.children + [node];
    Rerank(nodes, d, node, parent);
    forall m | m in nodes
      ensures Links(m.parent, m.index, m.children, m.rank) == AttachAt(d, node, parent, |d[parent].children|, m)
    {
      AttachLast(d, node, parent, m);
    }
  }

  lemma AttachLast(d: Shape, x: Node, p: Node, m: Node)
    requires Tree(d) && x in d && p in d && m in d
    ensures d[m].parent == p ==> d[m].index < |d[p].children|
    ensures d[p].children[..|d[p].children|] + [x] + d[p].children[|d[p].children|..] == d[p].children + [x]
  {
    assert NodeOK(d, m);
  }

  // Lifts the ranks of a subtree above its new parent's.
  ghost method Rerank(nodes: set<Node>, d: Shape, node: Node, parent: Node)
    requires Tree(d) && d.Keys == nodes && parent in nodes
    requires forall m :: m in nodes ==> m.rank == d[m].rank
    modifies nodes`rank
    ensures forall m :: m in nodes ==> m.rank == if IsAnc(d, node, m) then d[m].rank + d[parent].rank + 1 else d[m].rank
  {
    forall m | m in nodes {
      m.rank := if IsAnc(d, node, m) then d[m].rank + d[parent].rank + 1 else d[m].rank;
    }
  }

  // Inserts a parentless node at a location and renumbers the siblings after it.
  method InsertNode(ghost nodes: set<Node>, node: Node, location: Location)
    requires node in nodes && location.target in nodes && Tree(ShapeOf(nodes))
    requires node.parent == null && IsContainer(location.target) && !IsAnc(ShapeOf(nodes), node, location.target)
    requires location.index == -1 || 0 <= location.index < |location.target.children|
    modifies nodes
    ensures ShapeOf(nodes) == Attach(old(ShapeOf(nodes)), node, location.target,
              if location.index == -1 then |old(location.target.children)| else location.index)
  {
    var parent, index := location.target, location.index;
    if index == -1 {
      AppendNode(nodes, parent, node);
      return;
    }
    hide Tree;
    ghost var d := ShapeOf(nodes);
    DistinctChildren(d, parent);
    NotAChild(d, node, parent);
    node.parent := parent;
    node.index := index;
    parent.children := InsertAt(parent.children, index, node);
    Renumber(nodes, parent, index + 1);
    Rerank(nodes, d, node, parent);
    IsAttach(d, node, parent, index, ShapeOf(nodes));
  }

  // What the assignments of InsertNode amount to.
  lemma IsAttach(d: Shape, x: Node, p: Node, k: nat, e: Shape)
    requires Tree(d) && x in d && p in d && x != p && d[x].parent == null && k <= |d[p].children| && e.Keys == d.Keys
    requires forall m :: m in d ==> e[m].parent == if m == x then p else d[m].parent
    requires forall m :: m in d ==> e[m].rank == if IsAnc(d, x, m) then d[m].rank + d[p].rank + 1 else d[m].rank
    requires forall m :: m in d && m != p ==> e[m].children == d[m].children
    requires var ch := e[p].children;
             && ch == InsertAt(d[p].children, k, x)
             && (forall i :: k + 1 <= i < |ch| ==> ch[i] in d && e[ch[i]].index == i)
             && (forall m :: m in d && !InSuffix(ch, k + 1, m) ==> e[m].index == if m == x then k else d[m].index)
    ensures e == Attach(d, x, p, k)
  {
    var ch := e[p].children;
    hide Tree, IsAnc;
    forall m | m in d ensures e[m].index == AttachAt(d, x, p, k, m).index {
      AttachIndex(d, x, p, k, m, ch);
      if InSuffix(ch, k + 1, m) { assert ch[d[m].index + 1] == m; }
    }
    forall m | m in d ensures e[m] == AttachAt(d, x, p, k, m) {}
  }

  lemma NotAChild(d: Shape, x: Node, p: Node)
    requires Tree(d) && x in d && p in d && d[x].parent == null
    ensures x !in d[p].children
  {
    assert NodeOK(d, p);
    forall i | 0 <= i < |d[p].children| ensures d[p].children[i] != x {
      assert ChildOK(d, p, i);
    }
  }

  // Where a node stands among the children that follow the inserted one.
  lemma AttachIndex(d: Shape, x: Node, p: Node, k: nat, m: Node, ch: seq<Node>)
    requires Tree(d) && x in d && p in d && m in d && d[x].parent == null && k <= |d[p].children|
    requires ch == InsertAt(d[p].children, k, x)
    ensures InSuffix(ch, k + 1, m) ==>
              && m != x && m != p && d[m].parent == p && d[m].index >= k && d[m].index + 1 < |ch|
              && ch[d[m].index + 1] == m
    ensures m != x && d[m].parent == p && d[m].index >= k ==> InSuffix(ch, k + 1, m)
  {
    assert NodeOK(d, p) && NodeOK(d, m);
    if InSuffix(ch, k + 1, m) {
      var i: nat :| i < |ch| && k + 1 <= i && ch[i] == m;
      assert ChildOK(d, p, i - 1);
    }
    if d[m].parent == p && d[m].index >= k {
      assert ch[d[m].index + 1] == m;
    }
  }

  // A new node without links.
  ghost function Add(d: Shape, c: Node): (r: Shape)
  {
    d[c := Links(null, -1, [], 0)]
  }

  lemma AddTree(d: Shape, c: Node)
    requires Tree(d) && c !in d
    ensures Tree(Add(d, c))
  {
    var r := Add(d, c);
    forall n | n in r ensures NodeOK(r, n) {
      if n != c {
        assert NodeOK(d, n);
        forall i | 0 <= i < |r[n].children| ensures ChildOK(r, n, i) {
          assert ChildOK(d, n, i);
        }
      }
    }
  }

  lemma {:induction false} AddAnc(d: Shape, c: Node, a: Node, n: Node)
    requires Tree(d) && c !in d && Tree(Add(d, c)) && (n in d || n == c)
    ensures IsAnc(Add(d, c), a, n) <==> if n == c then a == c else IsAnc(d, a, n)
    ensures n in d && IsAnc(d, a, n) ==> a != c
    decreases if n in d then d[n].rank else 0
  {
    if n in d {
      assert NodeOK(d, n);
      if d[n].parent != null {
        AddAnc(d, c, a, d[n].parent);
      }
    }
  }

  // All children of b handed over to the new node f.
  ghost function HandAt(d: Shape, b: Node, f: Node, n: Node): (r: Links)
    requires b in d && f in d && n in d
  {
    if n == f then d[n].(children := d[b].children, rank := d[b].rank)
    else if n == b then d[n].(children := [])
    else if d[n].parent == b then d[n].(parent := f)
    else d[n]
  }

  ghost function Hand(d: Shape, b: Node, f: Node): (r: Shape)
    requires b in d && f in d
    ensures r.Keys == d.Keys
  {
    map n | n in d :: HandAt(d, b, f, n)
  }

  ghost predicate Lone(d: Shape, f: Node)
  {
    f in d && d[f].parent == null && d[f].children == []
  }

  lemma HandNode(d: Shape, b: Node, f: Node, n: Node)
    requires Tree(d) && b in d && Lone(d, f) && b != f && IsContainer(f) && n in d
    ensures NodeOK(Hand(d, b, f), n)
  {
    var r := Hand(d, b, f);
    assert NodeOK(d, n) && NodeOK(d, b) && NodeOK(d, f);
    forall i | 0 <= i < |r[n].children| ensures ChildOK(r, n, i) {
      var q := if n == f then b else n;
      assert ChildOK(d, q, i);
      assert NodeOK(d, d[q].children[i]);
    }
    if d[n].parent != null { assert NodeOK(d, d[n].parent); }
  }

  lemma HandTree(d: Shape, b: Node, f: Node)
    requires Tree(d) && b in d && Lone(d, f) && b != f && IsContainer(f)
    ensures Tree(Hand(d, b, f)) && Hand(d, b, f)[b].children == []
    ensures forall n :: n in d && d[n].parent != b ==> Hand(d, b, f)[n].parent == d[n].parent
    ensures forall n :: n in d && d[n].parent == b ==> Hand(d, b, f)[n].parent == f
  {
    forall n | n in d ensures NodeOK(Hand(d, b, f), n) {
      HandNode(d, b, f, n);
    }
  }

  lemma {:induction false} HandAnc(d: Shape, b: Node, f: Node, a: Node, n: Node)
    requires Tree(d) && b in d && Lone(d, f) && b != f && Tree(Hand(d, b, f)) && n in d
    ensures IsAnc(Hand(d, b, f), a, n) <==>
            if n != b && IsAnc(d, b, n) then a == f || (a != b && IsAnc(d, a, n) && a in d && IsAnc(d, b, a))
            else IsAnc(d, a, n)
    decreases d[n].rank
  {
    var r := Hand(d, b, f);
    assert NodeOK(d, n) && NodeOK(r, n) && NodeOK(d, f);
    if IsAnc(d, a, n) { AncRank(d, a, n); }
    if d[n].parent != null {
      var p := d[n].parent;
      assert p != f;
      HandAnc(d, b, f, a, p);
      if IsAnc(d, b, p) { AncRank(d, b, p); }
      if p == b {
        assert r[n].parent == f;
        assert IsAnc(r, a, f) <==> a == f;
        assert IsAnc(r, a, n) <==> a == n || a == f;
        if a != n && a in d && IsAnc(d, a, n) && IsAnc(d, b, a) {
          AncRank(d, a, b);
          AncRank(d, b, a);
        }
      } else {
        assert r[n].parent == p;
      }
    }
  }

  // Steps 17 and 18 of the adoption agency algorithm together: f comes between
  // b and its children.
  ghost function Wrap(d: Shape, b: Node, f: Node): (r: Shape)
    requires Tree(d) && b in d && Lone(d, f) && b != f && IsContainer(f)
  {
    HandTree(d, b, f);
    Attach(Hand(d, b, f), f, b, 0)
  }

  lemma WrapTree(d: Shape, b: Node, f: Node)
    requires Tree(d) && b in d && Lone(d, f) && b != f && IsContainer(f) && IsContainer(b)
    ensures Tree(Wrap(d, b, f)) && Wrap(d, b, f).Keys == d.Keys && Wrap(d, b, f)[f].parent == b
    ensures forall n :: n in d && n != f && d[n].parent != b ==> Wrap(d, b, f)[n].parent == d[n].parent
    ensures forall n :: n in d && n != f && d[n].parent == b ==> Wrap(d, b, f)[n].parent == f
    ensures Tree(Hand(d, b, f)) && !IsAnc(Hand(d, b, f), f, b)
  {
    HandTree(d, b, f);
    HandAnc(d, b, f, f, b);
    if IsAnc(d, f, b) { LoneAnc(d, f, b); }
    AttachTree(Hand(d, b, f), f, b, 0);
  }

  lemma {:induction false} LoneAnc(d: Shape, f: Node, n: Node)
    requires Tree(d) && Lone(d, f) && n in d && IsAnc(d, f, n)
    ensures n == f
    decreases d[n].rank
  {
    assert NodeOK(d, n);
    if n != f {
      LoneAnc(d, f, d[n].parent);
    }
  }

  lemma WrapAnc(d: Shape, b: Node, f: Node, a: Node, n: Node)
    requires Tree(d) && b in d && Lone(d, f) && b != f && IsContainer(f) && IsContainer(b) && n in d
    requires Tree(Wrap(d, b, f)) && Wrap(d, b, f).Keys == d.Keys
    ensures IsAnc(Wrap(d, b, f), a, n) <==>
            if n == f then a == f || IsAnc(d, a, b)
            else if a == f then n != b && IsAnc(d, b, n)
            else IsAnc(d, a, n)
  {
    var r := Hand(d, b, f);
    WrapTree(d, b, f);
    HandTree(d, b, f);
    AttachAnc(r, f, b, 0, a, n);
    HandAnc(d, b, f, a, n);
    HandAnc(d, b, f, f, n);
    HandAnc(d, b, f, a, b);
    if IsAnc(d, f, n) { LoneAnc(d, f, n); }
    if IsAnc(d, b, n) && IsAnc(d, a, n) { AncChain(d, a, b, n); }
    if IsAnc(d, b, n) && IsAnc(d, a, b) { AncTrans(d, a, b, n); }
  }

  predicate SameElement(a: Node, b: Node)
  {
    a.kind == b.kind && a.ns == b.ns && a.tag == b.tag && a.name == b.name && a.attrs == b.attrs
  }

  // clone_node: same tag and attributes, no links.
  method CloneNode(node: Node) returns (c: Node)
    requires IsElement(node)
    ensures fresh(c) && SameElement(c, node)
    ensures c.parent == null && c.index == -1 && c.children == [] && c.rank == 0
  {
    c := new Node(node.kind, node.ns, node.tag, node.name, node.attrs, node.text);
  }

  // Moves the children vector of b into f, then appends f to b.
  method WrapChildren(ghost nodes: set<Node>, b: Node, f: Node)
    requires b in nodes && f in nodes && b != f && Tree(ShapeOf(nodes))
    requires Lone(ShapeOf(nodes), f) && IsElement(f) && IsElement(b)
    modifies nodes
    ensures ShapeOf(nodes) == Wrap(old(ShapeOf(nodes)), b, f)
  {
    ghost var d := ShapeOf(nodes);
    f.children, b.children := b.children, f.children;
    f.rank := b.rank;
    DistinctChildren(d, b);
    var temp := f.children;
    var i := 0;
    while i < |temp|
      invariant 0 <= i <= |temp| && temp == d[b].children == f.children && b.children == []
      invariant forall m :: m in nodes ==> m.parent == if m in temp[..i] then f else d[m].parent
      invariant forall m :: m in nodes && m != f ==> m.index == d[m].index && m.rank == d[m].rank
      invariant forall m :: m in nodes && m != f && m != b ==> m.children == d[m].children
      invariant f.index == d[f].index && f.rank == d[b].rank
    {
      temp[i].parent := f;
      assert temp[..i + 1] == temp[..i] + [temp[i]];
      i := i + 1;
    }
    assert temp[..i] == temp;
    HandTree(d, b, f);
    forall m | m in nodes ensures m in temp <==> d[m].parent == b {
      ParentOfChild(d, b, m);
    }
    assert ShapeOf(nodes) == Hand(d, b, f);
    WrapTree(d, b, f);
    AppendNode(nodes, b, f);
  }

  lemma ParentOfChild(d: Shape, b: Node, m: Node)
    requires Tree(d) && b in d && m in d
    ensures m in d[b].children <==> d[m].parent == b
  {
    assert NodeOK(d, b) && NodeOK(d, m);
    if m in d[b].children {
      var i :| 0 <= i < |d[b].children| && d[b].children[i] == m;
      assert ChildOK(d, b, i);
    }
  }
}
