/** build_tree of ext/nokogiri/gumbo.c: one loop copies the parsed tree into a
    second tree, going up by index_within_parent instead of using a stack. */
module TreeCopy {
  import opened Attributes
  import opened Dom
  import opened Tags

  class XmlNode {
    const kind: Kind
    const name: string
    const ns: Namespace
    const text: string
    var parent: XmlNode?
    var children: seq<XmlNode>
    var properties: seq<Attr>
    var declared: seq<Namespace>    // nsDef

    constructor (kind: Kind, name: string, ns: Namespace, text: string)
      ensures this.kind == kind && this.name == name && this.ns == ns && this.text == text
      ensures parent == null && children == [] && properties == [] && declared == []
    {
      this.kind, this.name, this.ns, this.text := kind, name, ns, text;
      parent, children, properties, declared := null, [], [], [];
    }

    // lookup_or_add_ns on the root of the element.
    method LookupOrAddNs(ns: Namespace)
      modifies this`declared
      ensures declared == Declare(old(declared), ns)
    {
      if ns !in declared {
        declared := declared + [ns];
      }
    }
  }

  function Declare(declared: seq<Namespace>, ns: Namespace): (r: seq<Namespace>)
  {
    if ns in declared then declared else declared + [ns]
  }

  datatype XLinks = XLinks(parent: XmlNode?, children: seq<XmlNode>, properties: seq<Attr>, declared: seq<Namespace>)
  type XShape = map<XmlNode, XLinks>

  ghost function XShapeOf(xs: set<XmlNode>): (x: XShape)
    reads xs
    ensures x.Keys == xs
  {
    map y | y in xs :: XLinks(y.parent, y.children, y.properties, y.declared)
  }

  // Text and whitespace both become text, a template becomes an element.
  function CopiedKind(kind: Kind): (k: Kind)
  {
    if kind == Whitespace then Text else if kind == Template then Element else kind
  }

  predicate SameContent(n: Node, y: XmlNode)
  {
    && y.kind == CopiedKind(n.kind)
    && if IsElement(n) then y.name == n.name && y.ns == n.ns else y.text == n.text
  }

  // The child of root above n.
  ghost function Top(d: Shape, root: Node, n: Node): (t: Node)
    requires Tree(d) && n in d && IsAnc(d, root, n) && n != root
    ensures t in d && IsAnc(d, t, n) && d[t].parent == root
    decreases d[n].rank
  {
    assert NodeOK(d, n);
    if d[n].parent == root then n else Top(d, root, d[n].parent)
  }

  ghost predicate Into(image: map<Node, XmlNode>, x: XShape)
  {
    forall n :: n in image ==> image[n] in x
  }

  // The children of n copied so far, in order.
  ghost predicate ChildrenCopied(d: Shape, x: XShape, image: map<Node, XmlNode>, n: Node)
    requires n in d && Into(image, x) && n in image
  {
    var ch := x[image[n]].children;
    && |ch| <= |d[n].children|
    && (forall i :: 0 <= i < |ch| ==> d[n].children[i] in image && ch[i] == image[d[n].children[i]])
  }

  // The place and the content of the copy of n.
  ghost predicate SelfCopied(d: Shape, x: XShape, root: Node, image: map<Node, XmlNode>, n: Node)
    requires Tree(d) && n in d && Into(image, x) && n in image && IsAnc(d, root, n) && n != root
  {
    var y := image[n];
    && d[n].parent in image && x[y].parent == image[d[n].parent]
    && d[n].index < |x[image[d[n].parent]].children|
    && SameContent(n, y) && x[y].properties == (if IsElement(n) then n.attrs else [])
    && Top(d, root, n) in image
    && (IsElement(n) && n.ns != Html ==> n.ns in x[image[Top(d, root, n)]].declared)
  }

  ghost predicate Copied(d: Shape, x: XShape, root: Node, image: map<Node, XmlNode>, n: Node)
    requires Tree(d) && image.Keys <= d.Keys && Into(image, x) && n in image
  {
    && IsAnc(d, root, n) && ChildrenCopied(d, x, image, n)
    && (n != root ==> SelfCopied(d, x, root, image, n))
  }

  ghost predicate Injective(image: map<Node, XmlNode>)
  {
    forall n, m :: n in image && m in image && image[n] == image[m] ==> n == m
  }

  // The loop stands at g, k of whose children have been copied.
  ghost predicate Copying(d: Shape, x: XShape, root: Node, image: map<Node, XmlNode>, g: Node, k: nat)
  {
    && Tree(d) && image.Keys <= d.Keys && Into(image, x) && root in image && g in image
    && (forall n :: n in image ==> Copied(d, x, root, image, n))
    && (forall n :: n in image && !IsAnc(d, n, g) ==> |x[image[n]].children| == |d[n].children|)
    && |x[image[g]].children| == k
    && (forall n :: n in image && n != root && IsAnc(d, n, g) ==> |x[image[d[n].parent]].children| == d[n].index + 1)
    && Injective(image)
  }

  // The copy is complete: an isomorphism below root.
  ghost predicate IsCopy(d: Shape, x: XShape, root: Node, image: map<Node, XmlNode>)
  {
    && Tree(d) && image.Keys <= d.Keys && Into(image, x) && Injective(image)
    && (forall n :: n in d ==> (n in image <==> IsAnc(d, root, n)))
    && (forall n :: n in image ==> Copied(d, x, root, image, n) && |x[image[n]].children| == |d[n].children|)
  }

  lemma StepUp(d: Shape, x: XShape, root: Node, image: map<Node, XmlNode>, g: Node, k: nat)
    requires Copying(d, x, root, image, g, k) && g != root && k == |d[g].children|
    ensures d[g].parent in image && Copying(d, x, root, image, d[g].parent, d[g].index + 1)
    ensures x[image[g]].parent == image[d[g].parent] && d[d[g].parent].rank < d[g].rank && d[g].index >= 0
  {
    assert Copied(d, x, root, image, g);
    assert NodeOK(d, g);
    hide Copied, SameContent;
    forall n | n in image && !IsAnc(d, n, d[g].parent) ensures |x[image[n]].children| == |d[n].children| {
      if n != g { assert !IsAnc(d, n, g); }
    }
  }

  lemma Finished(d: Shape, x: XShape, root: Node, image: map<Node, XmlNode>)
    requires root in d && Copying(d, x, root, image, root, |d[root].children|)
    ensures IsCopy(d, x, root, image)
  {
    forall n | n in image ensures |x[image[n]].children| == |d[n].children| {
      if n != root && IsAnc(d, n, root) {
        assert Copied(d, x, root, image, n);
        AncRank(d, n, root);
        AncRank(d, root, n);
      }
    }
    forall n | n in d && IsAnc(d, root, n) ensures n in image {
      AllReached(d, x, root, image, n);
    }
    forall n | n in image ensures IsAnc(d, root, n) {
      assert Copied(d, x, root, image, n);
    }
  }

  lemma {:induction false} AllReached(d: Shape, x: XShape, root: Node, image: map<Node, XmlNode>, n: Node)
    requires Tree(d) && image.Keys <= d.Keys && Into(image, x) && root in image
    requires forall m :: m in image ==> Copied(d, x, root, image, m) && |x[image[m]].children| == |d[m].children|
    requires n in d && IsAnc(d, root, n)
    ensures n in image
    decreases d[n].rank
  {
    assert NodeOK(d, n);
    if n != root {
      AllReached(d, x, root, image, d[n].parent);
      assert Copied(d, x, root, image, d[n].parent);
    }
  }

  // A new node y becomes the last child of p; a namespace is declared at r.
  ghost function GrownAt(x: XShape, p: XmlNode, y: XmlNode, r: XmlNode?, ns: Namespace, attrs: seq<Attr>,
      z: XmlNode): (l: XLinks)
    requires z in x || z == y
  {
    var l :=
      if z == y then XLinks(p, [], attrs, [])
      else if z == p then x[z].(children := x[z].children + [y])
      else x[z];
    if z == r && ns != Html then l.(declared := Declare(l.declared, ns)) else l
  }

  ghost function Grown(x: XShape, p: XmlNode, y: XmlNode, r: XmlNode?, ns: Namespace, attrs: seq<Attr>): (x': XShape)
    ensures x'.Keys == x.Keys + {y}
  {
    map z | z in x.Keys + {y} :: GrownAt(x, p, y, r, ns, attrs, z)
  }

  // What the loop puts in for the child c of g.
  ghost predicate Proper(d: Shape, root: Node, image: map<Node, XmlNode>, g: Node, c: Node, y: XmlNode,
      r: XmlNode?, ns: Namespace, attrs: seq<Attr>)
    requires Tree(d) && g in d && IsAnc(d, root, g)
  {
    && SameContent(c, y)
    && attrs == (if IsElement(c) then c.attrs else [])
    && ns == (if IsElement(c) then c.ns else Html)
    && (IsElement(c) && g == root ==> r == y)
    && (g != root ==> Top(d, root, g) in image && r == image[Top(d, root, g)])
  }

  lemma NewChild(d: Shape, x: XShape, root: Node, image: map<Node, XmlNode>, g: Node, k: nat)
    requires Copying(d, x, root, image, g, k) && k < |d[g].children|
    ensures var c := d[g].children[k];
            Tree(d) && c in d && c !in image && d[c].parent == g && d[c].index == k && c != root && IsAnc(d, root, g)
            && IsAnc(d, root, c)
            && !IsAnc(d, c, g) && d[g].rank < d[c].rank
            && Top(d, root, c) == if g == root then c else Top(d, root, g)
  {
    hide SameContent, Injective;
    assert NodeOK(d, g);
    assert ChildOK(d, g, k);
    var c := d[g].children[k];
    assert NodeOK(d, c);
    assert Copied(d, x, root, image, g);
    AncRank(d, root, g);
    if IsAnc(d, c, g) { AncRank(d, c, g); }
    assert c !in image;
  }

  lemma GrownFacts(x: XShape, p: XmlNode, y: XmlNode, r: XmlNode?, ns: Namespace, attrs: seq<Attr>, z: XmlNode)
    requires z in x && y !in x
    ensures var l := Grown(x, p, y, r, ns, attrs)[z];
            && l.children == (if z == p then x[z].children + [y] else x[z].children)
            && l.parent == x[z].parent && l.properties == x[z].properties
            && forall q :: q in x[z].declared ==> q in l.declared
  {
  }

  lemma GrowChildren(d: Shape, x: XShape, image: map<Node, XmlNode>, g: Node, k: nat, y: XmlNode, x': XShape, n: Node)
    requires n in d && g in d && Into(image, x) && n in image && g in image && k < |d[g].children|
    requires ChildrenCopied(d, x, image, n) && d[g].children[k] !in image && |x[image[g]].children| == k
    requires var image' := image[d[g].children[k] := y]; Into(image', x')
    requires image[n] in x'
    requires x'[image[n]].children == if n == g then x[image[n]].children + [y] else x[image[n]].children
    ensures ChildrenCopied(d, x', image[d[g].children[k] := y], n)
  {
  }

  lemma GrowSelf(d: Shape, x: XShape, root: Node, image: map<Node, XmlNode>, c: Node, y: XmlNode, x': XShape, n: Node)
    requires Tree(d) && n in d && Into(image, x) && n in image && IsAnc(d, root, n) && n != root
    requires SelfCopied(d, x, root, image, n) && c !in image && Into(image[c := y], x')
    requires forall m :: m in image ==>
               && image[m] in x' && |x[image[m]].children| <= |x'[image[m]].children|
               && x[image[m]].parent == x'[image[m]].parent && x[image[m]].properties == x'[image[m]].properties
               && forall q :: q in x[image[m]].declared ==> q in x'[image[m]].declared
    ensures SelfCopied(d, x', root, image[c := y], n)
  {
    hide SameContent, Tree, IsAnc;
  }

  lemma IntoGrown(image: map<Node, XmlNode>, x: XShape, p: XmlNode, c: Node, y: XmlNode, r: XmlNode?,
      ns: Namespace, attrs: seq<Attr>)
    requires Into(image, x)
    ensures Into(image[c := y], Grown(x, p, y, r, ns, attrs))
  {
  }

  lemma GrowOld(d: Shape, x: XShape, root: Node, image: map<Node, XmlNode>, g: Node, k: nat, y: XmlNode, r: XmlNode?,
      ns: Namespace, attrs: seq<Attr>, n: Node)
    requires Copying(d, x, root, image, g, k) && k < |d[g].children| && y !in x && n in image
    ensures var x', image' := Grown(x, image[g], y, r, ns, attrs), image[d[g].children[k] := y];
            image'.Keys <= d.Keys && Into(image', x') && n in image' && Copied(d, x', root, image', n)
  {
    hide SameContent, Tree, IsAnc, Grown, GrownAt, Top, ChildrenCopied, SelfCopied;
    NewChild(d, x, root, image, g, k);
    assert Copied(d, x, root, image, n);
    var c, p := d[g].children[k], image[g];
    var x' := Grown(x, p, y, r, ns, attrs);
    IntoGrown(image, x, p, c, y, r, ns, attrs);
    forall m | m in image
      ensures image[m] in x' && |x[image[m]].children| <= |x'[image[m]].children|
      ensures x[image[m]].parent == x'[image[m]].parent && x[image[m]].properties == x'[image[m]].properties
      ensures forall q :: q in x[image[m]].declared ==> q in x'[image[m]].declared
    {
      GrownFacts(x, p, y, r, ns, attrs, image[m]);
    }
    GrownFacts(x, p, y, r, ns, attrs, image[n]);
    GrowChildren(d, x, image, g, k, y, x', n);
    if n != root {
      GrowSelf(d, x, root, image, c, y, x', n);
    }
  }

  lemma GrowNew(d: Shape, x: XShape, root: Node, image: map<Node, XmlNode>, g: Node, k: nat, y: XmlNode, r: XmlNode?,
      ns: Namespace, attrs: seq<Attr>)
    requires Copying(d, x, root, image, g, k) && k < |d[g].children| && y !in x && g in d && IsAnc(d, root, g)
    requires Proper(d, root, image, g, d[g].children[k], y, r, ns, attrs)
    ensures var x', image', c := Grown(x, image[g], y, r, ns, attrs), image[d[g].children[k] := y], d[g].children[k];
            image'.Keys <= d.Keys && Into(image', x') && c in image' && Copied(d, x', root, image', c)
            && |x'[y].children| == 0 && |x'[image[g]].children| == k + 1
  {
    hide SameContent, Tree, IsAnc, Top, Injective, Grown, GrownAt, Copying, Copied, Proper;
    CountAt(d, x, root, image, g, k);
    NewChild(d, x, root, image, g, k);
    var c := d[g].children[k];
    IntoGrown(image, x, image[g], c, y, r, ns, attrs);
    GrownLinks(x, image[g], y, r, ns, attrs);
    NewCopied(d, x, root, image, g, k, y, r, ns, attrs, Grown(x, image[g], y, r, ns, attrs));
  }

  lemma CountAt(d: Shape, x: XShape, root: Node, image: map<Node, XmlNode>, g: Node, k: nat)
    requires Copying(d, x, root, image, g, k)
    ensures image.Keys <= d.Keys && Into(image, x) && g in image && |x[image[g]].children| == k
  {
  }

  lemma NewCopied(d: Shape, x: XShape, root: Node, image: map<Node, XmlNode>, g: Node, k: nat, y: XmlNode, r: XmlNode?,
      ns: Namespace, attrs: seq<Attr>, x': XShape)
    requires Tree(d) && g in d && IsAnc(d, root, g) && k < |d[g].children| && g in image && Into(image, x)
    requires Proper(d, root, image, g, d[g].children[k], y, r, ns, attrs)
    requires var c := d[g].children[k];
             && c in d && d[c].parent == g && d[c].index == k && c != root && IsAnc(d, root, c) && c !in image && g != c
             && Top(d, root, c) == (if g == root then c else Top(d, root, g))
             && image[c := y].Keys <= d.Keys && Into(image[c := y], x')
    requires y in x' && x'[y].parent == image[g] && x'[y].children == [] && x'[y].properties == attrs
    requires image[g] in x' && |x'[image[g]].children| == k + 1
    requires r != null && r in x' && ns != Html ==> ns in x'[r].declared
    ensures Copied(d, x', root, image[d[g].children[k] := y], d[g].children[k])
  {
    hide SameContent, Tree, IsAnc, Top;
    if g != root {
      assert image[Top(d, root, g)] in x;
    }
  }

  lemma GrownLinks(x: XShape, p: XmlNode, y: XmlNode, r: XmlNode?, ns: Namespace, attrs: seq<Attr>)
    requires p in x && y !in x
    ensures var x' := Grown(x, p, y, r, ns, attrs);
            && x'[y].parent == p && x'[y].children == [] && x'[y].properties == attrs
            && x'[p].children == x[p].children + [y]
            && (r != null && r in x' && ns != Html ==> ns in x'[r].declared)
  {
  }

  // The child of g at k is copied and the loop goes on below it.
  lemma GrowElement(d: Shape, x: XShape, root: Node, image: map<Node, XmlNode>, g: Node, k: nat, y: XmlNode,
      r: XmlNode?,
      ns: Namespace, attrs: seq<Attr>)
    requires Copying(d, x, root, image, g, k) && k < |d[g].children| && y !in x && g in d && IsAnc(d, root, g)
    requires Proper(d, root, image, g, d[g].children[k], y, r, ns, attrs)
    ensures Copying(d, Grown(x, image[g], y, r, ns, attrs), root, image[d[g].children[k] := y], d[g].children[k], 0)
  {
    hide SameContent, Tree, Grown, GrownAt, Top, ChildrenCopied, SelfCopied;
    var x', c := Grown(x, image[g], y, r, ns, attrs), d[g].children[k];
    NewChild(d, x, root, image, g, k);
    GrowNew(d, x, root, image, g, k, y, r, ns, attrs);
    forall n | n in image
      ensures Into(image[c := y], x') && Copied(d, x', root, image[c := y], n)
      ensures |x'[image[n]].children| == if n == g then k + 1 else |x[image[n]].children|
    {
      GrowOld(d, x, root, image, g, k, y, r, ns, attrs, n);
      GrownFacts(x, image[g], y, r, ns, attrs, image[n]);
    }
    hide Copied, Proper;
    GrowCounts(d, x, root, image, g, k, y, x');
  }

  lemma GrowCounts(d: Shape, x: XShape, root: Node, image: map<Node, XmlNode>, g: Node, k: nat, y: XmlNode, x': XShape)
    requires Copying(d, x, root, image, g, k) && k < |d[g].children| && Into(image[d[g].children[k] := y], x')
    requires forall n :: n in image ==>
               image[n] in x' && |x'[image[n]].children| == if n == g then k + 1 else |x[image[n]].children|
    ensures var c, image' := d[g].children[k], image[d[g].children[k] := y];
            && c in d
            && (forall n :: n in image' && !IsAnc(d, n, c) ==> n in d && |x'[image'[n]].children| == |d[n].children|)
            && (forall n :: n in image' && n != root && IsAnc(d, n, c) ==>
                  && n in d && d[n].parent in image'
                  && |x'[image'[d[n].parent]].children| == d[n].index + 1)
  {
    hide SameContent, Top, ChildrenCopied;
    NewChild(d, x, root, image, g, k);
    var c, image' := d[g].children[k], image[d[g].children[k] := y];
    forall n | n in image' && n != root && IsAnc(d, n, c)
      ensures n in d && d[n].parent in image' && |x'[image'[d[n].parent]].children| == d[n].index + 1
    {
      if n != c {
        assert IsAnc(d, n, g);
        assert Copied(d, x, root, image, n);
        assert NodeOK(d, n);
        AncRank(d, n, g);
      }
    }
  }

  // The child of g at k is copied and has no children.
  lemma GrowLeaf(d: Shape, x: XShape, root: Node, image: map<Node, XmlNode>, g: Node, k: nat, y: XmlNode, r: XmlNode?,
      ns: Namespace, attrs: seq<Attr>)
    requires Copying(d, x, root, image, g, k) && k < |d[g].children| && y !in x && g in d && IsAnc(d, root, g)
    requires Proper(d, root, image, g, d[g].children[k], y, r, ns, attrs)
    requires d[g].children[k] in d && d[d[g].children[k]].children == []
    ensures Copying(d, Grown(x, image[g], y, r, ns, attrs), root, image[d[g].children[k] := y], g, k + 1)
  {
    hide SameContent, Tree, Grown, GrownAt, Top, ChildrenCopied, SelfCopied;
    var x', c := Grown(x, image[g], y, r, ns, attrs), d[g].children[k];
    NewChild(d, x, root, image, g, k);
    GrowNew(d, x, root, image, g, k, y, r, ns, attrs);
    forall n | n in image
      ensures Into(image[c := y], x') && Copied(d, x', root, image[c := y], n)
      ensures |x'[image[n]].children| == if n == g then k + 1 else |x[image[n]].children|
    {
      GrowOld(d, x, root, image, g, k, y, r, ns, attrs, n);
      GrownFacts(x, image[g], y, r, ns, attrs, image[n]);
    }
    hide Copied, Proper;
    LeafCounts(d, x, root, image, g, k, y, x');
  }

  lemma LeafCounts(d: Shape, x: XShape, root: Node, image: map<Node, XmlNode>, g: Node, k: nat, y: XmlNode, x': XShape)
    requires Copying(d, x, root, image, g, k) && k < |d[g].children| && Into(image[d[g].children[k] := y], x')
    requires d[g].children[k] in d && y in x' && |x'[y].children| == |d[d[g].children[k]].children|
    requires forall n :: n in image ==>
               image[n] in x' && |x'[image[n]].children| == if n == g then k + 1 else |x[image[n]].children|
    ensures var c, image' := d[g].children[k], image[d[g].children[k] := y];
            && (forall n :: n in image' && !IsAnc(d, n, g) ==> n in d && |x'[image'[n]].children| == |d[n].children|)
            && (forall n :: n in image' && n != root && IsAnc(d, n, g) ==>
                  && n in d && d[n].parent in image'
                  && |x'[image'[d[n].parent]].children| == d[n].index + 1)
  {
    hide SameContent, Top, ChildrenCopied;
    NewChild(d, x, root, image, g, k);
    var c, image' := d[g].children[k], image[d[g].children[k] := y];
    forall n | n in image' && n != root && IsAnc(d, n, g)
      ensures n in d && d[n].parent in image' && |x'[image'[d[n].parent]].children| == d[n].index + 1
    {
      assert Copied(d, x, root, image, n);
      assert NodeOK(d, n);
      AncRank(d, n, g);
    }
  }

  // What a pass of the loop at g does.
  lemma Step(d: Shape, x: XShape, root: Node, image: map<Node, XmlNode>, g: Node, k: nat, y: XmlNode, r: XmlNode?)
    requires Copying(d, x, root, image, g, k) && k < |d[g].children| && y !in x && g in d && IsAnc(d, root, g)
    requires SameContent(d[g].children[k], y)
    requires if g == root then IsElement(d[g].children[k]) ==> r == y
             else Top(d, root, g) in image && r == image[Top(d, root, g)]
    ensures var c := d[g].children[k];
            var x' := Grown(x, image[g], y, r, if IsElement(c) then c.ns else Html,
                        if IsElement(c) then c.attrs else []);
            if IsElement(c) then Copying(d, x', root, image[c := y], c, 0)
            else c.kind == Document || Copying(d, x', root, image[c := y], g, k + 1)
  {
    hide Copying, Tree, IsAnc, Grown, SameContent, Top;
    var c := d[g].children[k];
    var ns, attrs := if IsElement(c) then c.ns else Html, if IsElement(c) then c.attrs else [];
    NewChild(d, x, root, image, g, k);
    if IsElement(c) {
      GrowElement(d, x, root, image, g, k, y, r, ns, attrs);
    } else if c.kind != Document {
      Childless(d, c);
      GrowLeaf(d, x, root, image, g, k, y, r, ns, attrs);
    }
  }

  lemma Childless(d: Shape, c: Node)
    requires Tree(d) && c in d && !IsContainer(c)
    ensures d[c].children == []
  {
    assert NodeOK(d, c);
  }

  // The number of children copied is at most the number there is.
  lemma Below(d: Shape, x: XShape, root: Node, image: map<Node, XmlNode>, g: Node, k: nat)
    requires Copying(d, x, root, image, g, k)
    ensures k <= |d[g].children| && (image[g] == image[root] ==> g == root)
  {
    assert Copied(d, x, root, image, g);
  }

  lemma Begin(d: Shape, x: XShape, root: Node, out: XmlNode)
    requires Tree(d) && root in d && out in x && x[out].children == []
    ensures Copying(d, x, root, map[root := out], root, 0)
  {
    var image := map[root := out];
    assert Into(image, x);
  }

  // The loop stands at g and at its copy, with the root of the new tree that
  // holds it.
  ghost predicate Standing(d: Shape, x: XShape, root: Node, output: XmlNode, image: map<Node, XmlNode>, g: Node, k: nat,
      xmlNode: XmlNode, xmlRoot: XmlNode?)
  {
    && Copying(d, x, root, image, g, k) && image[g] == xmlNode && image[root] == output
    && IsAnc(d, root, g) && IsContainer(g) && k <= |d[g].children|
    && xmlNode in x && (xmlRoot != null ==> xmlRoot in x)
    && if g == root then xmlRoot == null else Top(d, root, g) in image && xmlRoot == image[Top(d, root, g)]
  }

  lemma GoUp(d: Shape, x: XShape, root: Node, output: XmlNode, image: map<Node, XmlNode>, g: Node, k: nat,
      xmlNode: XmlNode, xmlRoot: XmlNode?)
    requires Standing(d, x, root, output, image, g, k, xmlNode, xmlRoot) && xmlNode != output && k == |d[g].children|
    ensures g in d && xmlNode in x && d[g].parent != null && d[g].parent in d && x[xmlNode].parent != null
    ensures d[g].index >= 0
    ensures d[d[g].parent].rank < d[g].rank
    ensures Standing(d, x, root, output, image, d[g].parent, d[g].index + 1, x[xmlNode].parent,
              if x[xmlNode].parent == output then null else xmlRoot)
  {
    hide Copied, SameContent;
    StepUp(d, x, root, image, g, k);
    hide Copying;
    Below(d, x, root, image, d[g].parent, d[g].index + 1);
    ParentFacts(d, root, g);
  }

  lemma ParentFacts(d: Shape, root: Node, g: Node)
    requires Tree(d) && g in d && IsAnc(d, root, g) && g != root
    ensures var p := d[g].parent;
            && p in d && IsAnc(d, root, p) && IsContainer(p) && |d[p].children| > 0
            && (p != root ==> Top(d, root, p) == Top(d, root, g))
  {
    assert NodeOK(d, g);
    assert NodeOK(d, d[g].parent);
  }

  lemma GoOn(d: Shape, x: XShape, root: Node, output: XmlNode, image: map<Node, XmlNode>, g: Node, k: nat,
      xmlNode: XmlNode, xmlRoot: XmlNode?, y: XmlNode)
    requires Standing(d, x, root, output, image, g, k, xmlNode, xmlRoot) && k < |d[g].children| && y !in x
    requires SameContent(d[g].children[k], y) && d[g].children[k].kind != Document
    ensures var c := d[g].children[k];
            var r := if IsElement(c) && xmlRoot == null then y else xmlRoot;
            var x' := Grown(x, xmlNode, y, r, if IsElement(c) then c.ns else Html,
                        if IsElement(c) then c.attrs else []);
            && c in d && c !in image
            && if IsElement(c) then Standing(d, x', root, output, image[c := y], c, 0, y, r)
               else Standing(d, x', root, output, image[c := y], g, k + 1, xmlNode, r)
  {
    hide Copying, Tree, IsAnc, Grown, SameContent, Top;
    RootKept(d, x, root, image, g, k);
    var c := d[g].children[k];
    var r := if IsElement(c) && xmlRoot == null then y else xmlRoot;
    NewChild(d, x, root, image, g, k);
    Step(d, x, root, image, g, k, y, r);
  }

  lemma RootKept(d: Shape, x: XShape, root: Node, image: map<Node, XmlNode>, g: Node, k: nat)
    requires Copying(d, x, root, image, g, k)
    ensures Tree(d) && root in image && g in image && g in d
  {
  }

  // xmlAddChild, taken as a plain append.
  method AddChild(parent: XmlNode, child: XmlNode)
    requires parent != child
    modifies parent`children, child`parent
    ensures parent.children == old(parent.children) + [child] && child.parent == parent
  {
    child.parent := parent;
    parent.children := parent.children + [child];
  }

  // append_property, once for each attribute.
  method AppendProperties(y: XmlNode, attrs: seq<Attr>)
    modifies y`properties
    ensures y.properties == old(y.properties) + attrs
  {
    var i := 0;
    while i < |attrs|
      invariant 0 <= i <= |attrs| && y.properties == old(y.properties) + attrs[..i]
    {
      y.properties := y.properties + [attrs[i]];
      i := i + 1;
    }
  }

  method CopyText(child: Node, xmlNode: XmlNode, ghost xmlRoot: XmlNode?, ghost made: set<XmlNode>) returns (y: XmlNode)
    requires !IsElement(child) && child.kind != Document && xmlNode in made
    modifies xmlNode`children
    ensures fresh(y) && SameContent(child, y)
    ensures XShapeOf(made + {y}) == Grown(old(XShapeOf(made)), xmlNode, y, xmlRoot, Html, [])
  {
    y := new XmlNode(CopiedKind(child.kind), "", Html, child.text);
    AddChild(xmlNode, y);
  }

  method CopyElement(child: Node, xmlNode: XmlNode, xmlRoot: XmlNode?, ghost made: set<XmlNode>)
    returns (y: XmlNode, xmlRoot': XmlNode)
    requires IsElement(child) && xmlNode in made && (xmlRoot != null ==> xmlRoot in made)
    modifies xmlNode`children, (if xmlRoot == null then {} else {xmlRoot})`declared
    ensures fresh(y) && SameContent(child, y) && xmlRoot' == if xmlRoot == null then y else xmlRoot
    ensures XShapeOf(made + {y}) == Grown(old(XShapeOf(made)), xmlNode, y, xmlRoot', child.ns, child.attrs)
  {
    hide Declare, Grown, SameContent;
    ghost var x := XShapeOf(made);
    y := new XmlNode(Element, child.name, child.ns, "");
    xmlRoot' := if xmlRoot == null then y else xmlRoot;
    if child.ns != Html {
      xmlRoot'.LookupOrAddNs(child.ns);
    }
    AddChild(xmlNode, y);
    AppendProperties(y, child.attrs);
    assert y.properties == child.attrs;
    IsGrown(x, xmlNode, y, xmlRoot', child.ns, child.attrs, XShapeOf(made + {y}));
    assert SameContent(child, y) by { IsSame(child, y); }
  }

  lemma IsSame(n: Node, y: XmlNode)
    requires IsElement(n) && y.kind == Element && y.name == n.name && y.ns == n.ns
    ensures SameContent(n, y)
  {
  }

  // What the assignments of CopyElement amount to.
  lemma IsGrown(x: XShape, p: XmlNode, y: XmlNode, r: XmlNode, ns: Namespace, attrs: seq<Attr>, e: XShape)
    requires p in x && y !in x && e.Keys == x.Keys + {y} && (r in x || r == y)
    requires e[y].parent == p && e[y].children == [] && e[y].properties == attrs
    requires e[y].declared == if r == y && ns != Html then Declare([], ns) else []
    requires forall z :: z in x ==>
               && e[z].parent == x[z].parent && e[z].properties == x[z].properties
               && e[z].children == (if z == p then x[z].children + [y] else x[z].children)
               && e[z].declared == (if z == r && ns != Html then Declare(x[z].declared, ns) else x[z].declared)
    ensures e == Grown(x, p, y, r, ns, attrs)
  {
    hide Declare;
    forall z | z in e ensures e[z] == GrownAt(x, p, y, r, ns, attrs, z) {}
  }

  // The switch of the loop: the next child is copied.
  method CopyNext(child: Node, xmlNode: XmlNode, xmlRoot: XmlNode?, ghost made: set<XmlNode>, ghost d: Shape,
      ghost root: Node,
      ghost output: XmlNode, ghost image: map<Node, XmlNode>, ghost g: Node, ghost k: nat)
    returns (y: XmlNode, xmlRoot': XmlNode?)
    requires Standing(d, XShapeOf(made), root, output, image, g, k, xmlNode, xmlRoot)
    requires g in d && k < |d[g].children| && child == d[g].children[k] && child.kind != Document
    modifies xmlNode`children, (if xmlRoot == null then {} else {xmlRoot})`declared
    ensures fresh(y) && child in d && child !in image && (xmlRoot' == xmlRoot || xmlRoot' == y)
    ensures if IsElement(child)
            then Standing(d, XShapeOf(made + {y}), root, output, image[child := y], child, 0, y, xmlRoot')
            else Standing(d, XShapeOf(made + {y}), root, output, image[child := y], g, k + 1, xmlNode, xmlRoot')
  {
    hide Standing, Tree, Grown, SameContent, IsAnc;
    ghost var x := XShapeOf(made);
    Bounds(d, x, root, output, image, g, k, xmlNode, xmlRoot);
    if IsElement(child) {
      y, xmlRoot' := CopyElement(child, xmlNode, xmlRoot, made);
    } else {
      xmlRoot' := xmlRoot;
      y := CopyText(child, xmlNode, xmlRoot, made);
    }
    GoOn(d, x, root, output, image, g, k, xmlNode, xmlRoot, y);
  }

  method BuildTree(nodes: set<Node>, gumboRoot: Node, output: XmlNode)
    returns (ghost image: map<Node, XmlNode>, ghost made: set<XmlNode>)
    requires gumboRoot in nodes && Tree(ShapeOf(nodes)) && IsContainer(gumboRoot) && output.children == []
    requires forall n :: n in nodes && n.kind == Document ==> n.parent == null
    modifies output`children
    ensures output in made && fresh(made - {output})
    ensures IsCopy(ShapeOf(nodes), XShapeOf(made), gumboRoot, image)
    ensures gumboRoot in image && image[gumboRoot] == output
  {
    hide Standing, IsCopy, Tree, Grown, SameContent, IsAnc, IsElement, IsContainer, XShapeOf;
    ghost var d: Shape := ShapeOf(nodes);
    made := {output};
    image := map[gumboRoot := output];
    LinksOf(made, output);
    StartAt(d, XShapeOf(made), gumboRoot, output);
    var gumboNode: Node := gumboRoot;
    var xmlRoot: XmlNode?, xmlNode: XmlNode, childIndex: nat := null, output, 0;
    assert forall n :: n in d && n.kind == Document ==> d[n].parent == null;
    while true
      invariant Standing(d, XShapeOf(made), gumboRoot, output, image, gumboNode, childIndex, xmlNode, xmlRoot)
      invariant output in made && fresh(made - {output}) && xmlRoot != output && gumboNode in d
      decreases nodes - image.Keys, d[gumboNode].rank
    {
      Bounds(d, XShapeOf(made), gumboRoot, output, image, gumboNode, childIndex, xmlNode, xmlRoot);
      if childIndex >= |gumboNode.children| {
        if xmlNode == output {
          Completed(d, XShapeOf(made), gumboRoot, output, image, gumboNode, childIndex, xmlNode, xmlRoot);
          break;
        }
        GoUp(d, XShapeOf(made), gumboRoot, output, image, gumboNode, childIndex, xmlNode, xmlRoot);
        LinksOf(made, xmlNode);
        childIndex := gumboNode.index + 1;
        gumboNode := gumboNode.parent;
        xmlNode := xmlNode.parent;
        if xmlNode == output {
          xmlRoot := null;
        }
        continue;
      }
      var gumboChild := gumboNode.children[childIndex];
      childIndex := childIndex + 1;
      var y: XmlNode;
      y, xmlRoot := CopyNext(gumboChild, xmlNode, xmlRoot, made, d, gumboRoot, output, image, gumboNode,
          childIndex - 1);
      if IsElement(gumboChild) {
        childIndex := 0;
        gumboNode := gumboChild;
        xmlNode := y;
      }
      made := made + {y};
      assert gumboChild in nodes - image.Keys;
      image := image[gumboChild := y];
    }
  }

  lemma LinksOf(xs: set<XmlNode>, y: XmlNode)
    requires y in xs
    ensures XShapeOf(xs)[y] == XLinks(y.parent, y.children, y.properties, y.declared)
  {
  }

  lemma StartAt(d: Shape, x: XShape, root: Node, output: XmlNode)
    requires Tree(d) && root in d && IsContainer(root) && output in x && x[output].children == []
    ensures Standing(d, x, root, output, map[root := output], root, 0, output, null)
  {
    Begin(d, x, root, output);
  }

  lemma Bounds(d: Shape, x: XShape, root: Node, output: XmlNode, image: map<Node, XmlNode>, g: Node, k: nat,
      xmlNode: XmlNode, xmlRoot: XmlNode?)
    requires Standing(d, x, root, output, image, g, k, xmlNode, xmlRoot)
    ensures g in d && k <= |d[g].children| && xmlNode in x && (xmlRoot != null ==> xmlRoot in x)
    ensures root in image && image[root] == output && image.Keys <= d.Keys
    ensures Tree(d) && forall c :: c in d[g].children ==> c in d && d[c].parent == g
  {
    assert NodeOK(d, g);
    forall i | 0 <= i < |d[g].children| ensures d[g].children[i] in d && d[d[g].children[i]].parent == g {
      assert ChildOK(d, g, i);
    }
  }

  lemma Completed(d: Shape, x: XShape, root: Node, output: XmlNode, image: map<Node, XmlNode>, g: Node, k: nat,
      xmlNode: XmlNode, xmlRoot: XmlNode?)
    requires Standing(d, x, root, output, image, g, k, xmlNode, xmlRoot) && xmlNode == output && k >= |d[g].children|
    ensures IsCopy(d, x, root, image)
  {
    Below(d, x, root, image, g, k);
    Finished(d, x, root, image);
  }
}
