/** The traversals that keep no stack: tree_traverse of gumbo-parser/src/parser.c
    finds its way by parent and index_within_parent alone. */
module TreeWalk {
  import opened Dom

  // The nodes of higher rank; descendants are among them.
  ghost function Above(d: Shape, n: Node): (r: set<Node>)
    requires n in d
  {
    set m | m in d && d[m].rank > d[n].rank
  }

  // The subtree of n in post-order: children first, from left to right.
  ghost function PostOrder(d: Shape, n: Node): (r: seq<Node>)
    requires Tree(d) && n in d
    decreases Above(d, n), |d[n].children| + 1
  {
    Forest(d, n, 0) + [n]
  }

  // The subtrees of the children of n from position k on.
  ghost function Forest(d: Shape, n: Node, k: nat): (r: seq<Node>)
    requires Tree(d) && n in d && k <= |d[n].children|
    decreases Above(d, n), |d[n].children| - k
  {
    if k == |d[n].children| then []
    else
      ChildAbove(d, n, k);
      PostOrder(d, d[n].children[k]) + Forest(d, n, k + 1)
  }

  lemma ChildAbove(d: Shape, n: Node, k: nat)
    requires Tree(d) && n in d && k < |d[n].children|
    ensures var c := d[n].children[k];
            c in d && d[c].parent == n && d[c].index == k && d[n].rank < d[c].rank && Above(d, c) < Above(d, n)
  {
    assert NodeOK(d, n);
    assert ChildOK(d, n, k);
    var c := d[n].children[k];
    assert NodeOK(d, c);
    assert c in Above(d, n) && c !in Above(d, c);
  }

  // A descendant lies below exactly one child.
  lemma {:induction false} ChildToward(d: Shape, n: Node, m: Node) returns (k: nat)
    requires Tree(d) && n in d && m in d && IsAnc(d, n, m) && n != m
    ensures k < |d[n].children| && IsAnc(d, d[n].children[k], m)
    decreases d[m].rank
  {
    assert NodeOK(d, m);
    if d[m].parent == n {
      k := d[m].index;
    } else {
      k := ChildToward(d, n, d[m].parent);
    }
  }

  lemma OneChildToward(d: Shape, n: Node, m: Node, i: nat, j: nat)
    requires Tree(d) && n in d && m in d && i < |d[n].children| && j < |d[n].children|
    requires IsAnc(d, d[n].children[i], m) && IsAnc(d, d[n].children[j], m)
    ensures i == j && m != n && IsAnc(d, n, m)
  {
    var a, b := d[n].children[i], d[n].children[j];
    ChildAbove(d, n, i);
    ChildAbove(d, n, j);
    AncRank(d, a, m);
    AncChain(d, a, b, m);
    assert IsAnc(d, n, a);
    AncTrans(d, n, a, m);
    if a != b {
      if IsAnc(d, a, b) { AncRank(d, a, n); } else { AncRank(d, b, n); }
    }
  }

  ghost predicate InForest(d: Shape, n: Node, k: nat, m: Node)
    requires Tree(d) && n in d && m in d
  {
    exists i: nat :: k <= i < |d[n].children| && IsAnc(d, d[n].children[i], m)
  }

  // The post-order of n has every node of its subtree exactly once.
  lemma {:induction false} PostOrderCovers(d: Shape, n: Node)
    requires Tree(d) && n in d
    ensures forall m :: m in PostOrder(d, n) <==> m in d && IsAnc(d, n, m)
    ensures forall i, j :: 0 <= i < j < |PostOrder(d, n)| ==> PostOrder(d, n)[i] != PostOrder(d, n)[j]
    decreases Above(d, n), |d[n].children| + 1
  {
    ForestCovers(d, n, 0);
    forall m | m in d ensures InForest(d, n, 0, m) <==> IsAnc(d, n, m) && m != n {
      if IsAnc(d, n, m) && m != n {
        var k := ChildToward(d, n, m);
      }
      if InForest(d, n, 0, m) {
        var i: nat :| i < |d[n].children| && IsAnc(d, d[n].children[i], m);
        OneChildToward(d, n, m, i, i);
      }
    }
  }

  lemma {:induction false} ForestCovers(d: Shape, n: Node, k: nat)
    requires Tree(d) && n in d && k <= |d[n].children|
    ensures forall m :: m in Forest(d, n, k) <==> m in d && InForest(d, n, k, m)
    ensures forall i, j :: 0 <= i < j < |Forest(d, n, k)| ==> Forest(d, n, k)[i] != Forest(d, n, k)[j]
    decreases Above(d, n), |d[n].children| - k
  {
    if k < |d[n].children| {
      ChildAbove(d, n, k);
      PostOrderCovers(d, d[n].children[k]);
      ForestCovers(d, n, k + 1);
      var first, rest := PostOrder(d, d[n].children[k]), Forest(d, n, k + 1);
      forall m | m in d ensures InForest(d, n, k, m) <==> IsAnc(d, d[n].children[k], m) || InForest(d, n, k + 1, m) {}
      forall m | m in first ensures m !in rest {
        if InForest(d, n, k + 1, m) {
          var i: nat :| k + 1 <= i < |d[n].children| && IsAnc(d, d[n].children[i], m);
          OneChildToward(d, n, m, k, i);
        }
      }
      hide PostOrder, Forest, InForest, IsAnc, Tree;
      JoinDistinct(first, rest);
    }
  }

  lemma JoinDistinct<T>(a: seq<T>, b: seq<T>)
    requires forall i, j :: 0 <= i < j < |a| ==> a[i] != a[j]
    requires forall i, j :: 0 <= i < j < |b| ==> b[i] != b[j]
    requires forall x :: x in a ==> x !in b
    ensures forall i, j :: 0 <= i < j < |a + b| ==> (a + b)[i] != (a + b)[j]
  {
    forall i, j | 0 <= i < |a| <= j < |a + b| ensures (a + b)[i] != (a + b)[j] {
      assert a[i] in a && b[j - |a|] in b;
    }
  }

  // What is left to visit in the tree of root, standing at n with its first k
  // children done.
  ghost function ToDo(d: Shape, root: Node, n: Node, k: nat): (r: seq<Node>)
    requires Tree(d) && n in d && IsAnc(d, root, n) && k <= |d[n].children|
    decreases d[n].rank
  {
    assert NodeOK(d, n);
    Forest(d, n, k) + [n] + if n == root then [] else ToDo(d, root, d[n].parent, d[n].index + 1)
  }

  lemma StepDown(d: Shape, root: Node, n: Node, k: nat)
    requires Tree(d) && n in d && IsAnc(d, root, n) && k < |d[n].children|
    ensures var c := d[n].children[k];
            c in d && IsAnc(d, root, c) && ToDo(d, root, c, 0) == ToDo(d, root, n, k) && Above(d, c) < Above(d, n)
  {
    ChildAbove(d, n, k);
    AncRank(d, root, n);
    var c := d[n].children[k];
    var rest := [n] + if n == root then [] else (assert NodeOK(d, n); ToDo(d, root, d[n].parent, d[n].index + 1));
    assert ToDo(d, root, n, k) == PostOrder(d, c) + Forest(d, n, k + 1) + rest;
    assert ToDo(d, root, n, k + 1) == Forest(d, n, k + 1) + rest;
  }

  lemma StepUp(d: Shape, root: Node, n: Node, visited: seq<Node>)
    requires Tree(d) && root in d && n in d && IsAnc(d, root, n)
    requires visited + ToDo(d, root, n, |d[n].children|) == PostOrder(d, root)
    ensures n !in visited && |visited| < |PostOrder(d, root)|
    ensures n == root ==> visited + [n] == PostOrder(d, root)
    ensures n != root ==>
              && d[n].parent in d && IsAnc(d, root, d[n].parent) && 0 <= d[n].index < |d[d[n].parent].children|
              && visited + [n] + ToDo(d, root, d[n].parent, d[n].index + 1) == PostOrder(d, root)
  {
    hide PostOrder, Above, ChildOK;
    assert NodeOK(d, n);
    assert Forest(d, n, |d[n].children|) == [];
    var rest := if n == root then [] else ToDo(d, root, d[n].parent, d[n].index + 1);
    assert ToDo(d, root, n, |d[n].children|) == [n] + rest;
    assert visited + ([n] + rest) == visited + [n] + rest;
    hide ToDo, Forest, IsAnc;
    NextIsNew(d, root, n, visited, rest);
  }

  lemma NextIsNew(d: Shape, root: Node, n: Node, visited: seq<Node>, rest: seq<Node>)
    requires Tree(d) && root in d && PostOrder(d, root) == visited + [n] + rest
    ensures n !in visited
  {
    PostOrderCovers(d, root);
    var all := PostOrder(d, root);
    assert all[|visited|] == n && visited == all[..|visited|];
  }

  // Every node is read only before it has been visited, so that the visit may
  // release it.
  method TreeTraverse(nodes: set<Node>, node: Node) returns (visited: seq<Node>)
    requires node in nodes && Tree(ShapeOf(nodes))
    ensures visited == PostOrder(ShapeOf(nodes), node)
  {
    hide PostOrder, Forest, ToDo, Above, IsAnc, Tree;
    ghost var d := ShapeOf(nodes);
    var currentNode, offset := node, 0;
    visited := [];
    StartTraversal(d, node);
    while true
      invariant currentNode in d && IsAnc(d, node, currentNode) && 0 <= offset <= |currentNode.children|
      invariant visited + ToDo(d, node, currentNode, offset) == PostOrder(d, node)
      decreases |PostOrder(d, node)| - |visited|, Above(d, currentNode)
    {
      ContainersHaveChildren(d, currentNode);
      if IsContainer(currentNode) && offset < |currentNode.children| {
        StepDown(d, node, currentNode, offset);
        currentNode := currentNode.children[offset];
        offset := 0;
        continue;
      }
      StepUp(d, node, currentNode, visited);
      assert currentNode !in visited;
      offset := currentNode.index + 1;
      var nextNode := currentNode.parent;
      visited := visited + [currentNode];
      if currentNode == node {
        return;
      }
      currentNode := nextNode;
    }
  }

  lemma StartTraversal(d: Shape, node: Node)
    requires Tree(d) && node in d
    ensures IsAnc(d, node, node) && ToDo(d, node, node, 0) == PostOrder(d, node) == [] + ToDo(d, node, node, 0)
  {
  }

  lemma ContainersHaveChildren(d: Shape, n: Node)
    requires Tree(d) && n in d
    ensures d[n].children != [] ==> IsContainer(n)
  {
    assert NodeOK(d, n);
  }
}
