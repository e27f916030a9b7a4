/** What one pass of the adoption agency algorithm does to the text of the
    document: the text of the furthest block is taken out and put in again at
    the place of step 15, and all else stays. */
module AdoptionText {
  import opened Attributes
  import opened Tags
  import opened Dom
  import opened TreeWalk
  import opened DocumentText
  import opened OpenElements
  import opened AdoptionWalk
  import opened AdoptionAgency
  import opened AdoptionRun
  import opened Verdicts

  lemma DetachedChildren(d: Shape, x: Node, m: Node)
    requires Tree(d) && x in d && m in d && IsAnc(d, x, m)
    ensures Detach(d, x)[m].children == d[m].children
  {
    assert NodeOK(d, x);
    AncRank(d, x, m);
  }

  lemma DetachedBelow(d: Shape, x: Node)
    requires Tree(d) && x in d && Tree(Detach(d, x))
    ensures TextOf(Detach(d, x), x) == TextOf(d, x)
  {
    hide Tree, Detach;
    var r := Detach(d, x);
    forall m | m in d && IsAnc(d, x, m) ensures r[m].children == d[m].children {
      DetachedChildren(d, x, m);
    }
    SameText(d, r, x);
  }

  lemma DetachOutside(d: Shape, x: Node, root: Node)
    requires Tree(d) && x in d && d[x].parent != null && Tree(Detach(d, x))
    ensures d[x].parent in d && SameOutside(d, Detach(d, x), root, d[x].parent)
  {
    assert NodeOK(d, x);
    var p := d[x].parent;
    forall m | m in d && !IsAnc(d, p, m) ensures Detach(d, x)[m] == d[m] {
      assert IsAnc(d, p, p) && IsAnc(d, p, x);
      assert d[m].parent == p ==> IsAnc(d, p, m);
    }
    assert NodeOK(d, p);
  }

  lemma DetachedSibling(d: Shape, x: Node, j: nat)
    requires Tree(d) && x in d && d[x].parent != null && Tree(Detach(d, x))
    requires d[x].parent in d && j < |d[d[x].parent].children| && j != d[x].index
    ensures d[d[x].parent].children[j] in d
    ensures TextOf(Detach(d, x), d[d[x].parent].children[j]) == TextOf(d, d[d[x].parent].children[j])
  {
    var p := d[x].parent;
    var y, r := d[p].children[j], Detach(d, x);
    ChildAbove(d, p, j);
    assert SameBelow(d, r, y) by {
      forall m | m in d && IsAnc(d, y, m) ensures r[m].children == d[m].children {
        AncRank(d, y, m);
      }
    }
    SameText(d, r, y);
  }

  lemma {:induction false} DetachedUpTo(d: Shape, x: Node, k: nat)
    requires Tree(d) && x in d && d[x].parent != null && Tree(Detach(d, x))
    requires d[x].parent in d && k <= d[x].index < |d[d[x].parent].children|
    ensures |Detach(d, x)[d[x].parent].children| == |d[d[x].parent].children| - 1
    ensures TextUpTo(Detach(d, x), d[x].parent, k) == TextUpTo(d, d[x].parent, k)
  {
    assert NodeOK(d, x);
    if k > 0 {
      DetachedUpTo(d, x, k - 1);
      DetachedSibling(d, x, k - 1);
    }
  }

  lemma {:induction false} DetachedFrom(d: Shape, x: Node, k: nat)
    requires Tree(d) && x in d && d[x].parent != null && Tree(Detach(d, x))
    requires d[x].parent in d && d[x].index <= k < |d[d[x].parent].children|
    requires 0 <= d[x].index
    ensures |Detach(d, x)[d[x].parent].children| == |d[d[x].parent].children| - 1
    ensures TextFrom(Detach(d, x), d[x].parent, k) == TextFrom(d, d[x].parent, k + 1)
    decreases |d[d[x].parent].children| - k
  {
    assert NodeOK(d, x);
    if k + 1 < |d[d[x].parent].children| {
      DetachedFrom(d, x, k + 1);
      DetachedSibling(d, x, k + 1);
    }
  }

  // Unlinking x leaves the text around it, at the place where x was.
  lemma DetachedPlace(d: Shape, root: Node, x: Node)
    requires Tree(d) && root in d && x in d && IsAnc(d, root, x) && x != root
    ensures Tree(Detach(d, x)) && d[x].parent in d
    ensures var f, q, j := Detach(d, x), d[x].parent, d[x].index;
            && IsAnc(f, root, q) && 0 <= j <= |f[q].children|
            && BeforePlace(f, root, q, j) == TextBefore(d, root, x)
            && AfterPlace(f, root, q, j) == TextAfter(d, root, x)
            && TextOf(f, root) == TextBefore(d, root, x) + TextAfter(d, root, x)
  {
    DetachTree(d, x);
    assert NodeOK(d, x);
    var f, q, j := Detach(d, x), d[x].parent, d[x].index;
    assert NodeOK(d, q);
    hide Detach, SameOutside;
    DetachOutside(d, x, root);
    SameContext(d, f, root, q, q);
    DetachedUpTo(d, x, j);
    DetachedFrom(d, x, j);
    AroundPlace(f, root, q, j);
  }

  // Linking x below p puts its text between what comes before and after it.
  lemma AttachedLinks(d: Shape, x: Node, p: Node, i: nat, m: Node)
    requires Tree(d) && x in d && p in d && i <= |d[p].children| && m in d && d[x].parent == null && x != p
    ensures m != p ==> Attach(d, x, p, i)[m].children == d[m].children
    ensures m != x ==> Attach(d, x, p, i)[m].parent == d[m].parent
    ensures m != x && d[m].parent != p ==> Attach(d, x, p, i)[m].index == d[m].index
    ensures m != x && i == |d[p].children| ==> Attach(d, x, p, i)[m].index == d[m].index
  {
    assert NodeOK(d, m);
  }

  lemma AttachedBelow(d: Shape, x: Node, p: Node, i: nat, y: Node)
    requires Tree(d) && x in d && p in d && i <= |d[p].children| && d[x].parent == null && x != p
    requires Tree(Attach(d, x, p, i)) && y in d && !IsAnc(d, y, p)
    ensures TextOf(Attach(d, x, p, i), y) == TextOf(d, y)
  {
    var r := Attach(d, x, p, i);
    forall m | m in d && IsAnc(d, y, m) ensures r[m].children == d[m].children {
      AttachedLinks(d, x, p, i, m);
    }
    SameText(d, r, y);
  }

  lemma {:induction false} AttachedUpTo(d: Shape, x: Node, p: Node, i: nat, k: nat)
    requires Tree(d) && x in d && p in d && k <= i <= |d[p].children| && d[x].parent == null && x != p
    requires Tree(Attach(d, x, p, i))
    ensures |Attach(d, x, p, i)[p].children| == |d[p].children| + 1
    ensures TextUpTo(Attach(d, x, p, i), p, k) == TextUpTo(d, p, k)
  {
    if k > 0 {
      AttachedUpTo(d, x, p, i, k - 1);
      ChildAbove(d, p, k - 1);
      var y := d[p].children[k - 1];
      if IsAnc(d, y, p) { AncRank(d, y, p); }
      AttachedBelow(d, x, p, i, y);
      assert Attach(d, x, p, i)[p].children[k - 1] == y;
    }
  }

  lemma {:induction false} AttachedFrom(d: Shape, x: Node, p: Node, i: nat, k: nat)
    requires Tree(d) && x in d && p in d && i <= k <= |d[p].children| && d[x].parent == null && x != p
    requires Tree(Attach(d, x, p, i))
    ensures |Attach(d, x, p, i)[p].children| == |d[p].children| + 1
    ensures TextFrom(Attach(d, x, p, i), p, k + 1) == TextFrom(d, p, k)
    decreases |d[p].children| - k
  {
    if k < |d[p].children| {
      AttachedFrom(d, x, p, i, k + 1);
      ChildAbove(d, p, k);
      var y := d[p].children[k];
      if IsAnc(d, y, p) { AncRank(d, y, p); }
      AttachedBelow(d, x, p, i, y);
      assert Attach(d, x, p, i)[p].children[k + 1] == y;
    }
  }

  lemma AttachedInside(d: Shape, x: Node, p: Node, i: nat)
    requires Tree(d) && x in d && p in d && i <= |d[p].children| && d[x].parent == null && IsContainer(p)
    requires !IsAnc(d, x, p)
    ensures Tree(Attach(d, x, p, i))
    ensures TextOf(Attach(d, x, p, i), p) == TextUpTo(d, p, i) + TextOf(d, x) + TextFrom(d, p, i)
  {
    AttachTree(d, x, p, i);
    AttachedUpTo(d, x, p, i, i);
    AttachedFrom(d, x, p, i, i);
    assert IsAnc(d, x, x);
    if IsAnc(d, x, p) { AncRank(d, x, p); }
    AttachedBelow(d, x, p, i, x);
    Inside(Attach(d, x, p, i), p, i);
    assert Attach(d, x, p, i)[p].children[i] == x;
  }

  lemma AttachOutside(d: Shape, root: Node, x: Node, p: Node, i: nat)
    requires Tree(d) && x in d && p in d && i <= |d[p].children| && d[x].parent == null && !IsAnc(d, x, p)
    requires root in d && IsAnc(d, root, p)
    ensures SameOutside(d, Attach(d, x, p, i), root, p)
  {
    var r := Attach(d, x, p, i);
    assert IsAnc(d, p, p) && NodeOK(d, p);
    AttachedLinks(d, x, p, i, p);
    forall m | m in d && IsAnc(d, root, m) && !IsAnc(d, p, m)
      ensures r[m].parent == d[m].parent && r[m].index == d[m].index && r[m].children == d[m].children
    {
      AttachedLinks(d, x, p, i, m);
      assert NodeOK(d, m);
      assert d[m].parent != p;
    }
  }

  lemma AttachedText(d: Shape, root: Node, x: Node, p: Node, i: nat)
    requires Tree(d) && root in d && x in d && p in d && i <= |d[p].children| && d[x].parent == null && IsContainer(p)
    requires !IsAnc(d, x, p) && IsAnc(d, root, p)
    ensures Tree(Attach(d, x, p, i))
    ensures TextOf(Attach(d, x, p, i), root) == BeforePlace(d, root, p, i) + TextOf(d, x) + AfterPlace(d, root, p, i)
  {
    AttachedInside(d, x, p, i);
    AttachOutside(d, root, x, p, i);
    hide Tree, IsAnc, Attach, SameOutside, TextOf, TextFrom, TextUpTo, TextBefore, TextAfter;
    TextInContext(d, Attach(d, x, p, i), root, p);
    Regroup(TextBefore(d, root, p), TextUpTo(d, p, i), TextOf(d, x), TextFrom(d, p, i), TextAfter(d, root, p));
  }

  lemma Regroup(a: string, b: string, c: string, d: string, e: string)
    ensures a + (b + c + d) + e == (a + b) + c + (d + e)
  {
  }

  // Only a place outside of its subtree makes a tree.
  lemma AttachedOutside(d: Shape, x: Node, p: Node, i: nat)
    requires Tree(d) && x in d && p in d && i <= |d[p].children| && d[x].parent == null && Tree(Attach(d, x, p, i))
    ensures !IsAnc(d, x, p)
  {
    assert NodeOK(Attach(d, x, p, i), x);
    if IsAnc(d, x, p) {
      AncRank(d, x, p);
    }
  }

  // e continues from the links d in which x is unlinked: new elements may lie
  // above x, and nothing else has changed.
  ghost predicate Carried(d: Shape, e: Shape, x: Node, last: Node)
  {
    && x in d && last in e && Tree(d) && Tree(e) && d.Keys <= e.Keys && d[x].parent == null && e[last].parent == null
    && (last == x || last !in d) && IsAnc(e, last, x)
    && (forall m :: m in d ==> e[m].children == d[m].children)
    && (forall m :: m in d && m != x ==> e[m].parent == d[m].parent && e[m].index == d[m].index)
    && (forall m :: m in e && m !in d ==> IsAnc(e, last, m))
    && TextOf(e, last) == TextOf(d, x)
  }

  // A clone that adopts the subtree is one more such element.
  lemma CarryOn(d: Shape, e: Shape, x: Node, last: Node, c: Node)
    requires Carried(d, e, x, last) && c !in e && IsElement(c)
    ensures Carried(d, Adopt(e, last, c), x, c)
  {
    AdoptTree(e, last, c);
    AddTree(e, c);
    var a, r := Add(e, c), Adopt(e, last, c);
    DetachRoot(a, last);
    assert r == Attach(a, last, c, 0);
    CarriedLinks(d, e, x, last, c);
    AddAnc(e, c, last, c);
    AttachedInside(a, last, c, 0);
    SameText(e, a, last);
    assert TextUpTo(a, c, 0) == TextFrom(a, c, 0) == "";
  }

  lemma CarriedLinks(d: Shape, e: Shape, x: Node, last: Node, c: Node)
    requires Carried(d, e, x, last) && c !in e && IsElement(c) && Tree(Add(e, c))
    requires Adopt(e, last, c) == Attach(Add(e, c), last, c, 0)
    ensures var r := Adopt(e, last, c);
            && Tree(r) && r.Keys == e.Keys + {c} && IsAnc(r, c, x)
            && (forall m :: m in d ==> r[m].children == d[m].children)
            && (forall m :: m in d && m != x ==> r[m].parent == d[m].parent && r[m].index == d[m].index)
            && (forall m :: m in r && m !in d ==> IsAnc(r, c, m))
  {
    hide TextOf, Adopt;
    AdoptTree(e, last, c);
    var a, r := Add(e, c), Adopt(e, last, c);
    AdoptAnc(e, last, c, c, x);
    forall m | m in d ensures r[m].children == d[m].children {
      AttachedLinks(a, last, c, 0, m);
    }
    forall m | m in d && m != x ensures r[m].parent == d[m].parent && r[m].index == d[m].index {
      assert NodeOK(e, m);
      AttachedLinks(a, last, c, 0, m);
    }
    forall m | m in r && m !in d ensures IsAnc(r, c, m) {
      AdoptAnc(e, last, c, c, m);
    }
  }

  // Step 14 as a whole: once its last node is unlinked, the clones lie above the
  // furthest block and everything else is as if only the block had been unlinked.
  lemma {:induction false} AllCarried(d: Shape, x: Node, clones: seq<Node>)
    requires Tree(d) && x in d && NewElements(d, clones)
    ensures Last(x, clones) in AdoptAll(d, x, clones)
    ensures Carried(Detach(d, x), Detach(AdoptAll(d, x, clones), Last(x, clones)), x, Last(x, clones))
  {
    hide Carried, Tree, Detach, Adopt;
    DetachTree(d, x);
    if clones == [] {
      NothingCarried(Detach(d, x), x);
    } else {
      var k := |clones| - 1;
      NotYetIn(d, x, clones);
      AllCarried(d, x, clones[..k]);
      OneMoreCarried(Detach(d, x), AdoptAll(d, x, clones[..k]), x, Last(x, clones[..k]), clones[k]);
      assert clones == clones[..k] + [clones[k]];
    }
  }

  lemma OneMoreCarried(f: Shape, a: Shape, x: Node, last: Node, c: Node)
    requires Tree(a) && last in a && Carried(f, Detach(a, last), x, last) && c !in a && IsElement(c)
    ensures Tree(Adopt(a, last, c)) && c in Adopt(a, last, c) && Carried(f, Detach(Adopt(a, last, c), c), x, c)
  {
    CarriedFacts(f, Detach(a, last), x, last);
    hide Carried, Tree;
    DetachTree(a, last);
    CarryOn(f, Detach(a, last), x, last, c);
    AdoptTree(a, last, c);
    AdoptDetached(a, last, c);
    DetachRoot(Adopt(a, last, c), c);
  }

  lemma NothingCarried(d: Shape, x: Node)
    requires Tree(d) && x in d && d[x].parent == null
    ensures Carried(d, d, x, x)
  {
  }

  lemma CarriedFacts(d: Shape, e: Shape, x: Node, last: Node)
    requires Carried(d, e, x, last)
    ensures last in e && x in d && x in e && Tree(d) && Tree(e) && d.Keys <= e.Keys && e[last].parent == null
    ensures TextOf(e, last) == TextOf(d, x)
  {
  }

  lemma NotYetIn(d: Shape, x: Node, clones: seq<Node>)
    requires Tree(d) && x in d && NewElements(d, clones) && clones != []
    ensures NewElements(d, clones[..|clones| - 1]) && IsElement(clones[|clones| - 1])
    ensures clones[|clones| - 1] !in AdoptAll(d, x, clones[..|clones| - 1])
  {
  }

  // It does not matter that the subtree has been unlinked before.
  lemma AdoptDetached(d: Shape, x: Node, c: Node)
    requires Tree(d) && x in d && c !in d && IsContainer(c) && Tree(Detach(d, x))
    ensures Adopt(Detach(d, x), x, c) == Adopt(d, x, c)
  {
    AddTree(d, c);
    AddTree(Detach(d, x), c);
    DetachTree(d, x);
    DetachRoot(Add(Detach(d, x), c), x);
    assert NodeOK(d, x);
    assert Detach(Add(d, c), x) == Add(Detach(d, x), c);
  }

  // Outside of the subtree of x the ancestors are the same.
  lemma {:induction false} SameAncestors(d: Shape, e: Shape, x: Node, last: Node, a: Node, n: Node)
    requires Carried(d, e, x, last) && n in d && !IsAnc(d, x, n)
    ensures IsAnc(e, a, n) <==> IsAnc(d, a, n)
    decreases d[n].rank
  {
    assert NodeOK(d, n) && NodeOK(e, n);
    if d[n].parent != null {
      SameAncestors(d, e, x, last, a, d[n].parent);
    }
  }

  lemma {:induction false} StillBelow(d: Shape, e: Shape, x: Node, last: Node, n: Node)
    requires Carried(d, e, x, last) && n in d && IsAnc(d, x, n)
    ensures IsAnc(e, x, n)
    decreases d[n].rank
  {
    assert NodeOK(d, n) && NodeOK(e, n);
    if n != x {
      StillBelow(d, e, x, last, d[n].parent);
    }
  }

  // A place outside of the subtree that is carried is a place of d, with the
  // same text around it.
  lemma CarriedPlace(d: Shape, e: Shape, x: Node, last: Node, root: Node, p: Node, k: nat)
    requires Carried(d, e, x, last) && root in d && p in e && !IsAnc(e, last, p) && IsAnc(e, root, p)
    requires k <= |e[p].children|
    ensures p in d && !IsAnc(d, x, p) && IsAnc(d, root, p) && d[p].children == e[p].children
    ensures BeforePlace(e, root, p, k) == BeforePlace(d, root, p, k)
    ensures AfterPlace(e, root, p, k) == AfterPlace(d, root, p, k)
  {
    if IsAnc(d, x, p) {
      StillBelow(d, e, x, last, p);
      AncTrans(e, last, x, p);
    }
    SameAncestors(d, e, x, last, root, p);
    assert NodeOK(d, x);
    hide TextOf;
    assert SameOutside(d, e, root, p);
    assert SameBelow(d, e, p);
    hide Carried;
    SamePlace(d, e, root, p, k);
  }

  // Steps 16 to 18: the new element comes between the block and its children.
  lemma WrapLinks(j: Shape, x: Node, c: Node, m: Node)
    requires Tree(j) && x in j && m in j && c !in j && IsContainer(c)
    requires Tree(Add(j, c)) && Lone(Add(j, c), c)
    ensures var r := Wrap(Add(j, c), x, c);
            && m in r && c in r && (m != x ==> r[m].children == j[m].children) && r[m].index == j[m].index
            && r[m].parent == (if j[m].parent == x then c else j[m].parent)
    ensures Wrap(Add(j, c), x, c)[x].children == [c] && Wrap(Add(j, c), x, c)[c].children == j[x].children
    ensures Wrap(Add(j, c), x, c)[c].parent == x && Wrap(Add(j, c), x, c)[c].index == 0
  {
    assert NodeOK(j, m) && NodeOK(j, x);
    HandTree(Add(j, c), x, c);
  }

  lemma {:induction false} WrappedFrom(j: Shape, x: Node, c: Node, k: nat)
    requires Tree(j) && x in j && c !in j && IsContainer(c)
    requires Tree(Add(j, c)) && Lone(Add(j, c), c) && Tree(Wrap(Add(j, c), x, c)) && k <= |j[x].children|
    ensures Wrap(Add(j, c), x, c)[c].children == j[x].children && c in Wrap(Add(j, c), x, c)
    ensures TextFrom(Wrap(Add(j, c), x, c), c, k) == TextFrom(j, x, k)
    decreases |j[x].children| - k
  {
    hide Wrap, TextOf, Lone;
    var r := Wrap(Add(j, c), x, c);
    WrapLinks(j, x, c, x);
    if k < |j[x].children| {
      ChildAbove(j, x, k);
      var y := j[x].children[k];
      forall m | m in j && IsAnc(j, y, m) ensures m in r && r[m].children == j[m].children {
        AncRank(j, y, m);
        WrapLinks(j, x, c, m);
      }
      SameText(j, r, y);
      WrappedFrom(j, x, c, k + 1);
    }
  }

  lemma WrappedText(j: Shape, root: Node, x: Node, c: Node)
    requires Tree(j) && x in j && IsContainer(x) && c !in j && IsContainer(c)
    requires Tree(Add(j, c)) && Lone(Add(j, c), c) && Tree(Wrap(Add(j, c), x, c))
    ensures x in Wrap(Add(j, c), x, c) && TextOf(Wrap(Add(j, c), x, c), x) == TextOf(j, x)
    ensures SameOutside(j, Wrap(Add(j, c), x, c), root, x)
  {
    hide Wrap, Lone;
    var r := Wrap(Add(j, c), x, c);
    WrapLinks(j, x, c, x);
    WrappedFrom(j, x, c, 0);
    assert TextFrom(r, x, 1) == "";
    assert r[x].children[0] == c && TextFrom(r, x, 0) == TextOf(r, c) + TextFrom(r, x, 1);
    assert TextOf(r, c) == TextFrom(r, c, 0);
    assert NodeOK(j, x);
    assert IsAnc(j, x, x);
    forall m | m in j && j[m].parent == x ensures IsAnc(j, x, m) {
      assert NodeOK(j, m);
    }
    forall m | m in j && !IsAnc(j, x, m)
      ensures m in r && r[m].parent == j[m].parent && r[m].index == j[m].index && r[m].children == j[m].children
    {
      WrapLinks(j, x, c, m);
    }
  }

  ghost predicate LastChildAbove(d: Shape, open: seq<Node>, i: nat)
    requires i + 1 < |open|
  {
    && open[i] in d && open[i + 1] in d && d[open[i + 1]].parent == open[i]
    && d[open[i + 1]].index == |d[open[i]].children| - 1
  }

  // This part of the stack is a rightmost path.
  ghost predicate Rightmost(d: Shape, open: seq<Node>, from: nat, upTo: nat)
  {
    upTo < |open| && forall i {:trigger LastChildAbove(d, open, i)} :: from <= i < upTo ==> LastChildAbove(d, open, i)
  }

  lemma {:induction false} RightmostAfter(d: Shape, open: seq<Node>, from: nat, upTo: nat)
    requires Tree(d) && Rightmost(d, open, from, upTo) && from <= upTo && open[upTo] in d
    ensures open[from] in d && IsAnc(d, open[from], open[upTo]) && TextAfter(d, open[from], open[upTo]) == ""
    decreases upTo
  {
    if from < upTo {
      assert LastChildAbove(d, open, upTo - 1);
      RightmostAfter(d, open, from, upTo - 1);
      assert NodeOK(d, open[upTo]);
      assert TextFrom(d, open[upTo - 1], d[open[upTo]].index + 1) == "";
    }
  }

  lemma AdoptedReady(w: Before, foster: bool, m: map<Node, Node>, gone: set<Node>, joined: Shape, c: Node,
      d: Shape, open: seq<Node>, list: seq<Entry>)
    requires Adopted(w, foster, m, gone, joined, c, d, open, list)
    ensures Tree(w.d) && Ready(w) && w.open[w.f - 1] in w.d && w.open[w.b] in w.d
  {
    hide Tree, Mid, Subst, Fates, Relisted, Anchor, Clones, NewElements, WalkedStack, SameElement, Joined, Wrapped,
         AdoptAll;
  }

  lemma PassStart(w: Before)
    requires Tree(w.d) && Ready(w)
    ensures w.open[w.f - 1] in w.d && w.open[w.b] in w.d && w.document in w.d && IsAnc(w.d, w.document, w.open[w.f - 1])
    ensures IsElement(w.open[w.f - 1]) && IsElement(w.open[w.b]) && w.open[w.f - 1] != w.open[w.b]
    ensures IsAnc(w.d, w.document, w.open[w.b]) && w.document != w.open[w.b] && w.d[w.document].parent == null
  {
    assert !IsAnc(w.d, w.open[w.b], w.open[w.f - 1]);
  }

  // The place of step 15, at which a pass puts the subtree in again.
  ghost predicate StepPlace(w: Before, foster: bool, m: map<Node, Node>, gone: set<Node>, p: Node, k: nat)
  {
    && Tree(w.d) && w.f < w.b < |w.open| && 1 <= w.f && w.open[w.b] in w.d
    && var x, clones := w.open[w.b], Clones(w.open[w.f + 1..w.b], m);
       && NewElements(w.d, clones) && Last(x, clones) in AdoptAll(w.d, x, clones)
       && var e, open := Detach(AdoptAll(w.d, x, clones), Last(x, clones)), WalkedStack(w, m, gone);
          && Locatable(e, open)
          && var l := AppropriateLocation(e, open, foster, w.open[w.f - 1]);
             && p == l.target && p in e && k <= |e[p].children|
             && k == if l.index == -1 then |e[p].children| else l.index
  }

  // One pass as described by Adopted. The text of the furthest block is taken
  // from where it was and put where step 15 says, whichever place that is.
  lemma PassText(w: Before, foster: bool, m: map<Node, Node>, gone: set<Node>, joined: Shape, c: Node,
      d: Shape, open: seq<Node>, list: seq<Entry>) returns (p: Node, k: nat)
    requires Adopted(w, foster, m, gone, joined, c, d, open, list)
    requires Tree(d) && StackOK(d, w.document, open)
    ensures StepPlace(w, foster, m, gone, p, k)
    ensures w.document in w.d && w.document in d && IsAnc(w.d, w.document, w.open[w.b])
    ensures var x, f := w.open[w.b], Detach(w.d, w.open[w.b]);
            && Tree(f) && p in f && IsAnc(f, w.document, p) && k <= |f[p].children|
            && TextOf(f, w.document) == TextBefore(w.d, w.document, x) + TextAfter(w.d, w.document, x)
            && TextOf(f, w.document) == BeforePlace(f, w.document, p, k) + AfterPlace(f, w.document, p, k)
            && TextOf(w.d, w.document) ==
               TextBefore(w.d, w.document, x) + TextOf(w.d, x) + TextAfter(w.d, w.document, x)
            && TextOf(d, w.document)
               == BeforePlace(f, w.document, p, k) + TextOf(w.d, x) + AfterPlace(f, w.document, p, k)
  {
    hide TextOf, TextBefore, TextAfter, Tree, IsAnc, Detach, BeforePlace, AfterPlace;
    PassStart(w);
    var x := w.open[w.b];
    Around(w.d, w.document, x);
    DetachedPlace(w.d, w.document, x);
    p, k := PassJoined(w, foster, m, gone, joined, c, d, open, list);
    AroundPlace(Detach(w.d, x), w.document, p, k);
    PassWrapped(w, foster, m, gone, joined, c, d, open, list);
    Around(joined, w.document, x);
    TextInContext(joined, d, w.document, x);
  }

  // Steps 14 and 15.
  lemma PassJoined(w: Before, foster: bool, m: map<Node, Node>, gone: set<Node>, joined: Shape, c: Node,
      d: Shape, open: seq<Node>, list: seq<Entry>) returns (p: Node, k: nat)
    requires Adopted(w, foster, m, gone, joined, c, d, open, list) && 1 <= w.f < w.b < |w.open|
    requires Tree(d) && StackOK(d, w.document, open)
    ensures StepPlace(w, foster, m, gone, p, k) && Tree(joined) && w.document in joined && w.document in w.d
    ensures var x, f := w.open[w.b], Detach(w.d, w.open[w.b]);
            && Tree(f) && p in f && IsContainer(p) && IsAnc(f, w.document, p) && k <= |f[p].children|
            && TextOf(joined, w.document) ==
               BeforePlace(f, w.document, p, k) + TextOf(w.d, x) + AfterPlace(f, w.document, p, k)
  {
    hide TextOf, Tree, IsAnc, Carried, AdoptAll, Detach, Attach, Wrapped, Mid, Subst, Fates,
         Relisted, Anchor, Clones, Ready, NewElements, WalkedStack, SameElement, AppropriateLocation, BeforePlace,
         AfterPlace;
    var x, clones := w.open[w.b], Clones(w.open[w.f + 1..w.b], m);
    PassStart(w);
    AllCarried(w.d, x, clones);
    DetachTree(w.d, x);
    DetachedBelow(w.d, x);
    var last := Last(x, clones);
    var e := Detach(AdoptAll(w.d, x, clones), last);
    var l := AppropriateLocation(e, WalkedStack(w, m, gone), foster, w.open[w.f - 1]);
    p := l.target;
    k := if l.index == -1 then |e[p].children| else l.index;
    assert joined == Attach(e, last, p, k);
    PassWrapped(w, foster, m, gone, joined, c, d, open, list);
    JoinedPlace(w.d, x, e, last, w.document, p, k);
  }

  // The document is not among the nodes that are carried, nor above them.
  lemma DocumentApart(d: Shape, e: Shape, x: Node, last: Node, document: Node)
    requires Carried(d, e, x, last) && document in d && document != x && d[document].parent == null
    ensures document in e && IsAnc(e, last, x) && !IsAnc(e, document, x)
  {
    assert NodeOK(e, document) && NodeOK(e, last);
    if IsAnc(e, document, x) {
      AncChain(e, document, last, x);
    }
  }

  // The subtree of last has been put outside of itself, into the document.
  lemma JoinedWhere(d: Shape, e: Shape, x: Node, last: Node, document: Node, p: Node, k: nat)
    requires Carried(d, e, x, last) && document in d && document != x && d[document].parent == null
    requires p in e && k <= |e[p].children| && Tree(Attach(e, last, p, k)) && IsAnc(Attach(e, last, p, k), document, x)
    ensures !IsAnc(e, last, p) && IsAnc(e, document, p) && IsContainer(p)
  {
    hide Carried, Tree;
    CarriedFacts(d, e, x, last);
    AttachedOutside(e, last, p, k);
    AttachAnc(e, last, p, k, document, x);
    DocumentApart(d, e, x, last, document);
    AttachedContainer(e, last, p, k);
  }

  lemma AttachedContainer(e: Shape, last: Node, p: Node, k: nat)
    requires Tree(e) && last in e && p in e && k <= |e[p].children| && Tree(Attach(e, last, p, k))
    ensures IsContainer(p)
  {
    assert NodeOK(Attach(e, last, p, k), p);
  }

  lemma JoinedPlace(d: Shape, x: Node, e: Shape, last: Node, document: Node, p: Node, k: nat)
    requires Tree(d) && x in d && document in d && d[document].parent == null && document != x
    requires Tree(Detach(d, x)) && Carried(Detach(d, x), e, x, last)
    requires p in e && k <= |e[p].children| && Tree(Attach(e, last, p, k))
    requires IsAnc(Attach(e, last, p, k), document, x)
    ensures var f := Detach(d, x);
            && p in f && IsAnc(f, document, p) && IsContainer(p) && k <= |f[p].children|
            && TextOf(Attach(e, last, p, k), document)
               == BeforePlace(f, document, p, k) + TextOf(f, x) + AfterPlace(f, document, p, k)
  {
    hide TextOf, BeforePlace, AfterPlace, Attach, Detach, Carried, IsAnc, Tree;
    var f := Detach(d, x);
    DetachTree(d, x);
    JoinedWhere(f, e, x, last, document, p, k);
    CarriedPlace(f, e, x, last, document, p, k);
    CarriedFacts(f, e, x, last);
    AttachedText(e, document, last, p, k);
  }

  lemma PassWrapped(w: Before, foster: bool, m: map<Node, Node>, gone: set<Node>, joined: Shape, c: Node,
      d: Shape, open: seq<Node>, list: seq<Entry>)
    requires Adopted(w, foster, m, gone, joined, c, d, open, list) && 1 <= w.f < w.b < |w.open|
    requires Tree(d) && StackOK(d, w.document, open)
    ensures Tree(joined) && w.open[w.b] in joined && TextOf(d, w.open[w.b]) == TextOf(joined, w.open[w.b])
    ensures SameOutside(joined, d, w.document, w.open[w.b])
    ensures w.document in joined ==> IsAnc(joined, w.document, w.open[w.b])
  {
    hide TextOf, Tree, IsAnc, SameOutside, AdoptAll, Detach, Attach, Mid, Subst, Fates, Relisted, Anchor, Clones, Ready,
         NewElements, WalkedStack, SameElement, Wrap, Joined, Lone;
    var x := w.open[w.b];
    PassStart(w);
    WrappedText(joined, w.document, x, c);
    var mid := Mid(w.open[w.f + 1..w.b], m, gone);
    assert open[w.f + |mid|] == x;
    assert IsAnc(d, w.document, x);
    if w.document in joined {
      AddAnc(joined, c, w.document, x);
      WrapTree(Add(joined, c), x, c);
      WrapAnc(Add(joined, c), x, c, w.document, x);
    }
  }

  // The part of two prefixes of a string by which the longer one is longer.
  function Between(a: string, b: string): (s: string)
  {
    if |a| <= |b| then b[|a|..] else a[|b|..]
  }

  // The text of a document stays as it is exactly when the text of the block
  // commutes with the text between its old place and its new one.
  lemma TextKept(w: Before, foster: bool, m: map<Node, Node>, gone: set<Node>, joined: Shape, c: Node,
      d: Shape, open: seq<Node>, list: seq<Entry>) returns (p: Node, k: nat)
    requires Adopted(w, foster, m, gone, joined, c, d, open, list)
    requires Tree(d) && StackOK(d, w.document, open)
    ensures StepPlace(w, foster, m, gone, p, k)
    ensures w.document in w.d && w.document in d && IsAnc(w.d, w.document, w.open[w.b])
    ensures var x, f := w.open[w.b], Detach(w.d, w.open[w.b]);
            && Tree(f) && p in f && IsAnc(f, w.document, p) && k <= |f[p].children|
            && var t := TextOf(w.d, x);
               var between := Between(TextBefore(w.d, w.document, x), BeforePlace(f, w.document, p, k));
               TextOf(d, w.document) == TextOf(w.d, w.document) <==> t + between == between + t
  {
    hide TextOf, TextBefore, TextAfter, Tree, IsAnc, Detach, BeforePlace, AfterPlace, Adopted, StepPlace;
    p, k := PassText(w, foster, m, gone, joined, c, d, open, list);
    AdoptedReady(w, foster, m, gone, joined, c, d, open, list);
    var x, f := w.open[w.b], Detach(w.d, w.open[w.b]);
    Moved(TextBefore(w.d, w.document, x), TextAfter(w.d, w.document, x), TextOf(w.d, x),
      BeforePlace(f, w.document, p, k), AfterPlace(f, w.document, p, k));
  }

  // A string t, put at another place of the same string.
  lemma Moved(b: string, a: string, t: string, b': string, a': string)
    requires b + a == b' + a'
    ensures b + t + a == b' + t + a' <==> t + Between(b, b') == Between(b, b') + t
  {
    var m := Between(b, b');
    if |b| <= |b'| {
      Shift(b, a, b', a');
      Cancel(b, "", t, m, a');
      assert b + t + a == b + ("" + t + m) + a' && b' + t + a' == b + ("" + m + t) + a';
    } else {
      Shift(b', a', b, a);
      Cancel(b', "", m, t, a);
      assert b' + t + a' == b' + ("" + t + m) + a && b + t + a == b' + ("" + m + t) + a;
    }
  }

  lemma Shift(b: string, a: string, b': string, a': string)
    requires b + a == b' + a' && |b| <= |b'|
    ensures b' == b + b'[|b|..] && a == b'[|b|..] + a'
  {
    assert b == (b + a)[..|b|] == (b' + a')[..|b|];
    assert a == (b + a)[|b|..] == (b' + a')[|b|..];
  }

  lemma Cancel(p: string, b: string, x: string, a: string, q: string)
    ensures p + (b + x + a) + q == p + (b + a + x) + q <==> x + a == a + x
  {
    var s, t := p + (b + x + a) + q, p + (b + a + x) + q;
    assert s[|p| + |b|..|p| + |b| + |x| + |a|] == x + a;
    assert t[|p| + |b|..|p| + |b| + |x| + |a|] == a + x;
    assert b + x + a == b + (x + a) && b + a + x == b + (a + x);
  }

  // Usually the common ancestor takes its own children: then the block's text
  // changes places with what follows it there.
  lemma OrdinaryText(w: Before, foster: bool, m: map<Node, Node>, gone: set<Node>, joined: Shape, c: Node,
      d: Shape, open: seq<Node>, list: seq<Entry>)
    requires Adopted(w, foster, m, gone, joined, c, d, open, list)
    requires Tree(d) && StackOK(d, w.document, open)
    requires !foster || !IsTablePart(w.open[w.f - 1])
    requires w.open[w.f - 1] in w.d && w.open[w.b] in w.d && IsAnc(w.d, w.open[w.f - 1], w.open[w.b])
    ensures w.document in w.d && w.document in d && IsAnc(w.d, w.document, w.open[w.f - 1])
    ensures var ca, x := w.open[w.f - 1], w.open[w.b];
            var p, q := TextBefore(w.d, w.document, ca), TextAfter(w.d, w.document, ca);
            && TextOf(w.d, w.document) == p + (TextBefore(w.d, ca, x) + TextOf(w.d, x) + TextAfter(w.d, ca, x)) + q
            && TextOf(d, w.document) == p + (TextBefore(w.d, ca, x) + TextAfter(w.d, ca, x) + TextOf(w.d, x)) + q
    ensures var t, after := TextOf(w.d, w.open[w.b]), TextAfter(w.d, w.open[w.f - 1], w.open[w.b]);
            TextOf(d, w.document) == TextOf(w.d, w.document) <==> t + after == after + t
    ensures Rightmost(w.d, w.open, w.f - 1, w.b) ==> TextOf(d, w.document) == TextOf(w.d, w.document)
  {
    hide TextOf, TextBefore, TextAfter, Tree, IsAnc, Detach, BeforePlace, AfterPlace, Adopted, Rightmost;
    var p, k := PassText(w, foster, m, gone, joined, c, d, open, list);
    AdoptedReady(w, foster, m, gone, joined, c, d, open, list);
    PassStart(w);
    var ca, x, f := w.open[w.f - 1], w.open[w.b], Detach(w.d, w.open[w.b]);
    OrdinaryPlace(w, foster, m, gone, p, k);
    EndPlace(w.d, w.document, ca, x);
    ByWayOf(w.d, w.document, ca, x);
    var b, a, t := TextBefore(w.d, ca, x), TextAfter(w.d, ca, x), TextOf(w.d, x);
    Cancel(TextBefore(w.d, w.document, ca), b, t, a, TextAfter(w.d, w.document, ca));
    if Rightmost(w.d, w.open, w.f - 1, w.b) {
      RightmostAfter(w.d, w.open, w.f - 1, w.b);
      assert t + "" == "" + t;
    }
  }

  lemma OrdinaryPlace(w: Before, foster: bool, m: map<Node, Node>, gone: set<Node>, p: Node, k: nat)
    requires StepPlace(w, foster, m, gone, p, k) && (!foster || !IsTablePart(w.open[w.f - 1]))
    requires Tree(Detach(w.d, w.open[w.b])) && p in Detach(w.d, w.open[w.b])
    ensures p == w.open[w.f - 1] && k == |Detach(w.d, w.open[w.b])[p].children|
  {
    hide Tree, AdoptAll, NewElements, WalkedStack, Detach, TextOf;
    AllCarried(w.d, w.open[w.b], Clones(w.open[w.f + 1..w.b], m));
  }

  // The end of the children of an ancestor of x, once x is unlinked.
  lemma EndPlace(d: Shape, root: Node, a: Node, x: Node)
    requires Tree(d) && root in d && a in d && x in d && IsAnc(d, root, a) && IsAnc(d, a, x) && a != x && IsContainer(a)
    ensures Tree(Detach(d, x)) && IsAnc(Detach(d, x), root, a)
    ensures var f := Detach(d, x); var k := |f[a].children|;
            && BeforePlace(f, root, a, k) == TextBefore(d, root, a) + TextBefore(d, a, x) + TextAfter(d, a, x)
            && AfterPlace(f, root, a, k) == TextAfter(d, root, a)
  {
    var f := Detach(d, x);
    DetachedPlace(d, a, x);
    UnderAncestor(d, root, a, x);
    hide Detach, TextOf, TextUpTo, TextFrom, TextBefore, TextAfter, SameOutside, Tree, IsAnc;
    SameContext(d, f, root, a, a);
    AllUpTo(f, a);
  }

  lemma AllUpTo(d: Shape, n: Node)
    requires Tree(d) && n in d && IsContainer(n)
    ensures TextUpTo(d, n, |d[n].children|) == TextOf(d, n) && TextFrom(d, n, |d[n].children|) == ""
  {
    Split(d, n, |d[n].children|);
  }

  lemma UnderAncestor(d: Shape, root: Node, a: Node, x: Node)
    requires Tree(d) && root in d && a in d && x in d && IsAnc(d, root, a) && IsAnc(d, a, x) && a != x
    ensures Tree(Detach(d, x)) && SameOutside(d, Detach(d, x), root, a) && IsAnc(d, a, a)
  {
    DetachTree(d, x);
    assert NodeOK(d, x) && NodeOK(d, a);
    var q := d[x].parent;
    AncRank(d, a, q);
    assert a != x && IsAnc(d, a, q);
    forall n | n in d && d[n].parent == q ensures IsAnc(d, a, n) {
      assert NodeOK(d, n);
    }
  }
}
