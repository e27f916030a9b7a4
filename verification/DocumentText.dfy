/** The text of a document in order, and how it follows from the text of a part. */
module DocumentText {
  import opened Dom
  import opened TreeWalk

  function OwnText(n: Node): (s: string)
  {
    if n.kind == Text || n.kind == Whitespace || n.kind == CData then n.text else ""
  }

  ghost function TextOf(d: Shape, n: Node): (s: string)
    requires Tree(d) && n in d
    decreases Above(d, n), |d[n].children| + 1
  {
    OwnText(n) + TextFrom(d, n, 0)
  }

  // The text of the children from position k on, and up to it.
  ghost function TextFrom(d: Shape, n: Node, k: nat): (s: string)
    requires Tree(d) && n in d && k <= |d[n].children|
    decreases Above(d, n), |d[n].children| - k
  {
    if k == |d[n].children| then ""
    else
      ChildAbove(d, n, k);
      TextOf(d, d[n].children[k]) + TextFrom(d, n, k + 1)
  }

  ghost function TextUpTo(d: Shape, n: Node, k: nat): (s: string)
    requires Tree(d) && n in d && k <= |d[n].children|
  {
    if k == 0 then ""
    else
      ChildAbove(d, n, k - 1);
      TextUpTo(d, n, k - 1) + TextOf(d, d[n].children[k - 1])
  }

  lemma {:induction false} Split(d: Shape, n: Node, k: nat)
    requires Tree(d) && n in d && k <= |d[n].children|
    ensures TextFrom(d, n, 0) == TextUpTo(d, n, k) + TextFrom(d, n, k)
  {
    if k > 0 {
      ChildAbove(d, n, k - 1);
      Split(d, n, k - 1);
      hide TextOf;
      assert TextFrom(d, n, k - 1) == TextOf(d, d[n].children[k - 1]) + TextFrom(d, n, k);
    }
  }

  // The text of root's tree before and after the subtree of x.
  ghost function TextBefore(d: Shape, root: Node, x: Node): (s: string)
    requires Tree(d) && x in d && IsAnc(d, root, x)
    decreases d[x].rank
  {
    assert NodeOK(d, x);
    if x == root then "" else TextBefore(d, root, d[x].parent) + TextUpTo(d, d[x].parent, d[x].index)
  }

  ghost function TextAfter(d: Shape, root: Node, x: Node): (s: string)
    requires Tree(d) && x in d && IsAnc(d, root, x)
    decreases d[x].rank
  {
    assert NodeOK(d, x);
    if x == root then "" else TextFrom(d, d[x].parent, d[x].index + 1) + TextAfter(d, root, d[x].parent)
  }

  lemma {:induction false} Around(d: Shape, root: Node, x: Node)
    requires Tree(d) && root in d && x in d && IsAnc(d, root, x)
    ensures TextOf(d, root) == TextBefore(d, root, x) + TextOf(d, x) + TextAfter(d, root, x)
    decreases d[x].rank
  {
    hide TextOf, TextUpTo, TextFrom;
    if x != root {
      assert NodeOK(d, x);
      AroundChild(d, root, x);
      Around(d, root, d[x].parent);
      Inside(d, d[x].parent, d[x].index);
    }
  }

  lemma FromChild(d: Shape, p: Node, i: nat)
    requires Tree(d) && p in d && i < |d[p].children|
    ensures d[p].children[i] in d && TextFrom(d, p, i) == TextOf(d, d[p].children[i]) + TextFrom(d, p, i + 1)
  {
    ChildAbove(d, p, i);
    hide Tree, TextOf;
  }

  // A node with children has no text of its own.
  lemma OwnsNothing(d: Shape, p: Node)
    requires Tree(d) && p in d && d[p].children != []
    ensures TextOf(d, p) == TextFrom(d, p, 0)
  {
    assert NodeOK(d, p);
    hide Tree, TextFrom;
  }

  // One step up from x.
  lemma AroundChild(d: Shape, root: Node, x: Node)
    requires Tree(d) && x in d && IsAnc(d, root, x) && x != root
    ensures d[x].parent in d && IsAnc(d, root, d[x].parent) && 0 <= d[x].index < |d[d[x].parent].children|
    ensures d[d[x].parent].children[d[x].index] == x
    ensures TextBefore(d, root, x) == TextBefore(d, root, d[x].parent) + TextUpTo(d, d[x].parent, d[x].index)
    ensures TextAfter(d, root, x) == TextFrom(d, d[x].parent, d[x].index + 1) + TextAfter(d, root, d[x].parent)
  {
    assert NodeOK(d, x);
    hide TextUpTo, TextFrom;
  }

  lemma Inside(d: Shape, p: Node, i: nat)
    requires Tree(d) && p in d && i < |d[p].children|
    ensures d[p].children[i] in d
    ensures TextOf(d, p) == TextUpTo(d, p, i) + TextOf(d, d[p].children[i]) + TextFrom(d, p, i + 1)
  {
    hide Tree, TextOf, TextFrom, TextUpTo;
    FromChild(d, p, i);
    Split(d, p, i);
    OwnsNothing(d, p);
  }

  // The same children everywhere below n.
  ghost predicate SameBelow(d: Shape, r: Shape, n: Node)
    requires Tree(d)
  {
    forall m :: m in d && IsAnc(d, n, m) ==> m in r && r[m].children == d[m].children
  }

  lemma {:induction false} SameText(d: Shape, r: Shape, n: Node)
    requires Tree(d) && Tree(r) && n in d && SameBelow(d, r, n)
    ensures n in r && TextOf(r, n) == TextOf(d, n)
    decreases Above(d, n), |d[n].children| + 1
  {
    assert IsAnc(d, n, n);
    SameTextFrom(d, r, n, 0);
  }

  lemma {:induction false} SameTextFrom(d: Shape, r: Shape, n: Node, k: nat)
    requires Tree(d) && Tree(r) && n in d && n in r && k <= |d[n].children| == |r[n].children|
    requires forall i :: k <= i < |d[n].children| ==> r[n].children[i] == d[n].children[i]
    requires SameBelow(d, r, n)
    ensures TextFrom(r, n, k) == TextFrom(d, n, k)
    decreases Above(d, n), |d[n].children| - k
  {
    if k < |d[n].children| {
      var c := d[n].children[k];
      ChildAbove(d, n, k);
      SameBelowChild(d, r, n, k);
      SameText(d, r, c);
      SameTextFrom(d, r, n, k + 1);
    }
  }

  lemma SameBelowChild(d: Shape, r: Shape, n: Node, k: nat)
    requires Tree(d) && n in d && k < |d[n].children| && SameBelow(d, r, n)
    ensures d[n].children[k] in d && SameBelow(d, r, d[n].children[k])
  {
    ChildAbove(d, n, k);
    var c := d[n].children[k];
    assert IsAnc(d, n, c);
    forall m | m in d && IsAnc(d, c, m) ensures m in r && r[m].children == d[m].children {
      AncTrans(d, n, c, m);
    }
  }

  // In root's tree, outside of the subtree of p, the links are the same.
  ghost predicate SameOutside(d: Shape, r: Shape, root: Node, p: Node)
    requires Tree(d)
  {
    && p in d && p in r && r[p].parent == d[p].parent && r[p].index == d[p].index
    && (forall m :: m in d && IsAnc(d, root, m) && !IsAnc(d, p, m) ==>
          m in r && r[m].parent == d[m].parent && r[m].index == d[m].index && r[m].children == d[m].children)
  }

  lemma {:induction false} SameContext(d: Shape, r: Shape, root: Node, x: Node, p: Node)
    requires Tree(d) && Tree(r) && SameOutside(d, r, root, p) && x in d && IsAnc(d, x, p) && IsAnc(d, root, x)
    ensures x in r && IsAnc(r, root, x)
    ensures TextBefore(r, root, x) == TextBefore(d, root, x) && TextAfter(r, root, x) == TextAfter(d, root, x)
    decreases d[x].rank
  {
    assert x in r && r[x].parent == d[x].parent && r[x].index == d[x].index by {
      if x != p && IsAnc(d, p, x) { AncRank(d, p, x); AncRank(d, x, p); }
    }
    if x != root {
      assert NodeOK(d, x);
      var q := d[x].parent;
      assert IsAnc(d, q, x);
      AncTrans(d, q, x, p);
      AncRank(d, x, p);
      assert !IsAnc(d, p, q) by { if IsAnc(d, p, q) { AncRank(d, p, q); } }
      SameContext(d, r, root, q, p);
      assert NodeOK(r, x);
      SiblingsBefore(d, r, root, p, x, d[x].index);
      SiblingsAfter(d, r, root, p, x, d[x].index + 1);
    }
  }

  lemma SiblingApart(d: Shape, r: Shape, root: Node, p: Node, x: Node, j: nat)
    requires Tree(d) && SameOutside(d, r, root, p) && x in d && IsAnc(d, x, p) && IsAnc(d, root, x) && x != root
    requires d[x].parent != null && d[x].parent in d && j < |d[d[x].parent].children| && j != d[x].index
    ensures d[d[x].parent].children[j] in d && SameBelow(d, r, d[d[x].parent].children[j])
  {
    assert NodeOK(d, x);
    var q := d[x].parent;
    var y := d[q].children[j];
    ChildAbove(d, q, j);
    assert IsAnc(d, q, y) && IsAnc(d, root, q);
    AncTrans(d, root, q, y);
    forall m | m in d && IsAnc(d, y, m) ensures IsAnc(d, root, m) && !IsAnc(d, p, m) {
      AncTrans(d, root, y, m);
      if IsAnc(d, p, m) {
        AncTrans(d, x, p, m);
        OneChildToward(d, q, m, d[x].index, j);
      }
    }
  }

  lemma {:induction false} SiblingsBefore(d: Shape, r: Shape, root: Node, p: Node, x: Node, k: nat)
    requires Tree(d) && Tree(r) && SameOutside(d, r, root, p) && x in d && IsAnc(d, x, p) && IsAnc(d, root, x)
             && x != root
    requires d[x].parent != null && d[x].parent in d && k <= d[x].index < |d[d[x].parent].children|
    requires d[x].parent in r && r[d[x].parent].children == d[d[x].parent].children
    ensures TextUpTo(r, d[x].parent, k) == TextUpTo(d, d[x].parent, k)
  {
    if k > 0 {
      SiblingsBefore(d, r, root, p, x, k - 1);
      SiblingApart(d, r, root, p, x, k - 1);
      hide SameOutside, SameBelow, IsAnc;
      SameText(d, r, d[d[x].parent].children[k - 1]);
    }
  }

  lemma {:induction false} SiblingsAfter(d: Shape, r: Shape, root: Node, p: Node, x: Node, k: nat)
    requires Tree(d) && Tree(r) && SameOutside(d, r, root, p) && x in d && IsAnc(d, x, p) && IsAnc(d, root, x)
             && x != root
    requires d[x].parent != null && d[x].parent in d && d[x].index < k <= |d[d[x].parent].children|
    requires d[x].parent in r && r[d[x].parent].children == d[d[x].parent].children
    ensures TextFrom(r, d[x].parent, k) == TextFrom(d, d[x].parent, k)
    decreases |d[d[x].parent].children| - k
  {
    if k < |d[d[x].parent].children| {
      SiblingsAfter(d, r, root, p, x, k + 1);
      SiblingApart(d, r, root, p, x, k);
      hide SameOutside, SameBelow, IsAnc;
      SameText(d, r, d[d[x].parent].children[k]);
    }
  }

  // Only the text of p's subtree may differ.
  lemma TextInContext(d: Shape, r: Shape, root: Node, p: Node)
    requires Tree(d) && Tree(r) && SameOutside(d, r, root, p) && IsAnc(d, root, p) && root in d && root in r
    ensures TextOf(r, root) == TextBefore(d, root, p) + TextOf(r, p) + TextAfter(d, root, p)
  {
    SameContext(d, r, root, p, p);
    Around(r, root, p);
  }

  // The text of root's tree before and after a place among the children of p.
  ghost function BeforePlace(d: Shape, root: Node, p: Node, k: nat): (s: string)
    requires Tree(d) && p in d && IsAnc(d, root, p) && k <= |d[p].children|
  {
    TextBefore(d, root, p) + TextUpTo(d, p, k)
  }

  ghost function AfterPlace(d: Shape, root: Node, p: Node, k: nat): (s: string)
    requires Tree(d) && p in d && IsAnc(d, root, p) && k <= |d[p].children|
  {
    TextFrom(d, p, k) + TextAfter(d, root, p)
  }

  lemma AroundPlace(d: Shape, root: Node, p: Node, k: nat)
    requires Tree(d) && root in d && p in d && IsAnc(d, root, p) && k <= |d[p].children| && IsContainer(p)
    ensures TextOf(d, root) == BeforePlace(d, root, p, k) + AfterPlace(d, root, p, k)
  {
    hide TextBefore, TextAfter, TextUpTo, TextFrom, IsAnc, Tree;
    Around(d, root, p);
    Split(d, p, k);
    assert TextOf(d, p) == TextFrom(d, p, 0);
  }

  // A place in p's own children has the same text around it if p's subtree and
  // everything outside of it have the same links.
  lemma SamePlace(d: Shape, r: Shape, root: Node, p: Node, k: nat)
    requires Tree(d) && Tree(r) && SameOutside(d, r, root, p) && SameBelow(d, r, p) && IsAnc(d, root, p)
    requires k <= |d[p].children|
    ensures p in r && r[p].children == d[p].children && IsAnc(r, root, p)
    ensures BeforePlace(r, root, p, k) == BeforePlace(d, root, p, k)
    ensures AfterPlace(r, root, p, k) == AfterPlace(d, root, p, k)
  {
    assert IsAnc(d, p, p);
    SameContext(d, r, root, p, p);
    SameTextFrom(d, r, p, k);
    SameTextUpTo(d, r, p, k);
  }

  lemma {:induction false} SameTextUpTo(d: Shape, r: Shape, n: Node, k: nat)
    requires Tree(d) && Tree(r) && n in d && n in r && k <= |d[n].children| && r[n].children == d[n].children
    requires SameBelow(d, r, n)
    ensures TextUpTo(r, n, k) == TextUpTo(d, n, k)
  {
    if k > 0 {
      SameTextUpTo(d, r, n, k - 1);
      SameBelowChild(d, r, n, k - 1);
      hide SameBelow, IsAnc;
      SameText(d, r, d[n].children[k - 1]);
    }
  }

  // The text before and after x, by way of an ancestor.
  lemma {:induction false} ByWayOf(d: Shape, root: Node, a: Node, x: Node)
    requires Tree(d) && root in d && a in d && x in d && IsAnc(d, root, a) && IsAnc(d, a, x)
    ensures IsAnc(d, root, x)
    ensures TextBefore(d, root, x) == TextBefore(d, root, a) + TextBefore(d, a, x)
    ensures TextAfter(d, root, x) == TextAfter(d, a, x) + TextAfter(d, root, a)
    decreases d[x].rank
  {
    hide Tree, TextUpTo, TextFrom, TextBefore, TextAfter;
    if x == a {
      NothingAround(d, a);
    } else {
      UpFrom(d, root, a, x);
      AroundChild(d, root, x);
      AroundChild(d, a, x);
      ByWayOf(d, root, a, d[x].parent);
    }
  }

  lemma NothingAround(d: Shape, a: Node)
    requires Tree(d) && a in d
    ensures TextBefore(d, a, a) == TextAfter(d, a, a) == ""
  {
  }

  lemma UpFrom(d: Shape, root: Node, a: Node, x: Node)
    requires Tree(d) && root in d && a in d && x in d && IsAnc(d, root, a) && IsAnc(d, a, x) && x != a
    ensures IsAnc(d, root, x) && x != root
    ensures d[x].parent != null && d[x].parent in d && d[d[x].parent].rank < d[x].rank && IsAnc(d, a, d[x].parent)
  {
    assert NodeOK(d, x);
    AncTrans(d, root, a, x);
    AncRank(d, a, x);
    if x == root { AncRank(d, root, a); }
  }
}
