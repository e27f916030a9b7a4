/** The text of a document over whole runs of the adoption agency algorithm: it
    stays when the stack of open elements is a rightmost path, and a run that
    changes it. */
module TextRuns {
  import opened Attributes
  import opened Tags
  import opened Dom
  import opened TreeWalk
  import opened DocumentText
  import opened OpenElements
  import opened FormattingList
  import opened TreeConstruction
  import opened AdoptionWalk
  import opened AdoptionAgency
  import opened AdoptionRun
  import opened Verdicts
  import opened AdoptionText

  // The subtree of x in the clones' charge: each has one child, the one before.
  function Under(x: Node, clones: seq<Node>, j: nat): (n: Node)
    requires j < |clones|
  {
    if j == 0 then x else clones[j - 1]
  }

  ghost predicate OnlyChild(d: Shape, c: Node, n: Node)
  {
    c in d && n in d && d[c].children == [n] && d[n].parent == c && d[n].index == 0
  }

  ghost predicate ChainOf(d: Shape, x: Node, clones: seq<Node>)
  {
    forall j :: 0 <= j < |clones| ==> OnlyChild(d, clones[j], Under(x, clones, j))
  }

  lemma {:induction false} AdoptChain(d: Shape, x: Node, clones: seq<Node>)
    requires Tree(d) && x in d && NewElements(d, clones)
    ensures ChainOf(AdoptAll(d, x, clones), x, clones)
    ensures clones != [] ==> AdoptAll(d, x, clones)[Last(x, clones)].parent == null
  {
    hide Adopt, AdoptAll, Tree, OnlyChild, NewElements;
    if clones != [] {
      var k := |clones| - 1;
      NotYetIn(d, x, clones);
      AdoptChain(d, x, clones[..k]);
      assert clones == clones[..k] + [clones[k]];
      var e, last := AdoptAll(d, x, clones[..k]), Last(x, clones[..k]);
      AdoptOneMore(d, x, clones[..k], clones[k]);
      OneAdopted(e, last, clones[k]);
      forall j | 0 <= j < k ensures OnlyChild(AdoptAll(d, x, clones), clones[j], Under(x, clones, j)) {
        assert OnlyChild(e, clones[..k][j], Under(x, clones[..k], j));
        AdoptKeeps(e, last, clones[k], clones[j], Under(x, clones, j));
      }
      assert Under(x, clones, k) == last;
    }
  }

  lemma OneAdopted(e: Shape, last: Node, c: Node)
    requires Tree(e) && last in e && c !in e && IsElement(c)
    ensures OnlyChild(Adopt(e, last, c), c, last) && Adopt(e, last, c)[c].parent == null
  {
    AdoptTree(e, last, c);
  }

  lemma AdoptKeeps(e: Shape, last: Node, c: Node, a: Node, n: Node)
    requires Tree(e) && last in e && c !in e && IsElement(c) && OnlyChild(e, a, n) && e[last].parent == null
    ensures OnlyChild(Adopt(e, last, c), a, n)
  {
    AdoptTree(e, last, c);
    AddTree(e, c);
    DetachRoot(Add(e, c), last);
    AttachedLinks(Add(e, c), last, c, 0, a);
    AttachedLinks(Add(e, c), last, c, 0, n);
  }

  lemma DetachKeeps(d: Shape, x: Node, n: Node)
    requires Tree(d) && x in d && n in d
    ensures n != d[x].parent ==> Detach(d, x)[n].children == d[n].children
    ensures n != x ==> Detach(d, x)[n].parent == d[n].parent
    ensures n != x && d[n].parent != d[x].parent ==> Detach(d, x)[n].index == d[n].index
  {
    assert NodeOK(d, x);
  }

  // The links after steps 14 and 15, when the common ancestor takes the subtree.
  lemma JoinedLinks(d: Shape, x: Node, clones: seq<Node>, ca: Node, n: Node)
    requires Tree(d) && x in d && ca in d && n in d && NewElements(d, clones) && ca != x
    ensures Last(x, clones) in AdoptAll(d, x, clones) && Tree(Detach(AdoptAll(d, x, clones), Last(x, clones)))
    ensures var last := Last(x, clones);
            var e := Detach(AdoptAll(d, x, clones), last);
            var r := Attach(e, last, ca, |e[ca].children|);
            && r.Keys == e.Keys && n in r && last in r && r[last].parent == ca && r[last].index == |r[ca].children| - 1
            && (n != ca && d[x].parent != n ==> r[n].children == d[n].children)
            && (n != x && d[n].parent != d[x].parent ==> r[n].parent == d[n].parent && r[n].index == d[n].index)
            && ChainOf(r, x, clones)
  {
    hide Attach, Detach, AdoptAll, OnlyChild, NewElements, Tree;
    AllCarried(d, x, clones);
    AdoptChain(d, x, clones);
    var last := Last(x, clones);
    var a := AdoptAll(d, x, clones);
    var e := Detach(a, last);
    DetachTree(d, x);
    JoinedLink(d, x, e, last, ca, n);
    forall j | 0 <= j < |clones|
      ensures OnlyChild(Attach(e, last, ca, |e[ca].children|), clones[j], Under(x, clones, j))
    {
      assert OnlyChild(a, clones[j], Under(x, clones, j));
      DetachTree(a, last);
      CloneIsNew(d, clones, j);
      DetachRoot(a, last);
      ChainKept(e, last, ca, clones[j], Under(x, clones, j));
    }
  }

  lemma CloneIsNew(d: Shape, clones: seq<Node>, j: nat)
    requires NewElements(d, clones) && j < |clones|
    ensures clones[j] !in d && (j + 1 < |clones| ==> clones[j] != Last(clones[j], clones))
  {
  }

  lemma ChainKept(e: Shape, last: Node, ca: Node, a: Node, n: Node)
    requires Tree(e) && last in e && ca in e && e[last].parent == null && OnlyChild(e, a, n) && a != ca && last != ca
    ensures OnlyChild(Attach(e, last, ca, |e[ca].children|), a, n)
  {
    AttachedLinks(e, last, ca, |e[ca].children|, a);
    AttachedLinks(e, last, ca, |e[ca].children|, n);
  }

  lemma JoinedLink(d: Shape, x: Node, e: Shape, last: Node, ca: Node, n: Node)
    requires Tree(d) && x in d && ca in d && n in d && ca != x
    requires Tree(Detach(d, x)) && Carried(Detach(d, x), e, x, last)
    ensures last in e && ca in e && last != ca && e[last].parent == null && Tree(e)
    ensures var r := Attach(e, last, ca, |e[ca].children|);
            && n in r && r[last].parent == ca && r[last].index == |r[ca].children| - 1
            && (n != ca && d[x].parent != n ==> r[n].children == d[n].children)
            && (n != x && d[n].parent != d[x].parent ==> r[n].parent == d[n].parent && r[n].index == d[n].index)
  {
    hide TextOf;
    DetachKeeps(d, x, n);
    var r := Attach(e, last, ca, |e[ca].children|);
    AttachedLinks(e, last, ca, |e[ca].children|, n);
    assert |r[ca].children| == |e[ca].children| + 1;
  }

  // The links after a whole pass without foster parenting.
  ghost predicate PassLinks(w: Before, clones: seq<Node>, c: Node, d: Shape, n: Node)
    requires 1 <= w.f < w.b < |w.open| && w.open[w.b] in w.d && n in w.d
  {
    var x, ca, last := w.open[w.b], w.open[w.f - 1], Last(w.open[w.b], clones);
    && n in d && x in d && c in d && ca in d && last in d
    && d[last].parent == ca && d[last].index == |d[ca].children| - 1
    && OnlyChild(d, x, c) && d[c].children == w.d[x].children
    && (n != x && n != ca && w.d[x].parent != n ==> d[n].children == w.d[n].children)
    && (n != x && w.d[n].parent != w.d[x].parent ==>
          d[n].parent == (if w.d[n].parent == x then c else w.d[n].parent) && d[n].index == w.d[n].index)
    && ChainOf(d, x, clones)
  }

  lemma WrappedLinks(w: Before, clones: seq<Node>, joined: Shape, c: Node, d: Shape, n: Node)
    requires 1 <= w.f < w.b < |w.open| && w.open[w.b] in w.d && w.open[w.f - 1] in w.d && n in w.d && Tree(w.d)
    requires w.open[w.f - 1] != w.open[w.b] && NewElements(w.d, clones) && w.d[w.open[w.b]].parent != w.open[w.b]
    requires Last(w.open[w.b], clones) in AdoptAll(w.d, w.open[w.b], clones)
    requires w.open[w.f - 1] in AdoptAll(w.d, w.open[w.b], clones)
    requires var e := Detach(AdoptAll(w.d, w.open[w.b], clones), Last(w.open[w.b], clones));
             && Tree(e)
             && joined == Attach(e, Last(w.open[w.b], clones), w.open[w.f - 1], |e[w.open[w.f - 1]].children|)
    requires Wrapped(joined, w.open[w.b], c, d)
    ensures PassLinks(w, clones, c, d, n)
  {
    hide Attach, Detach, AdoptAll, OnlyChild, NewElements, Tree, Wrap, Lone;
    var x, ca, last := w.open[w.b], w.open[w.f - 1], Last(w.open[w.b], clones);
    JoinedLinks(w.d, x, clones, ca, n);
    JoinedLinks(w.d, x, clones, ca, x);
    WrapLinks(joined, x, c, n);
    WrapLinks(joined, x, c, ca);
    WrapLinks(joined, x, c, last);
    LastNotX(w.d, x, clones);
    forall j | 0 <= j < |clones| ensures OnlyChild(d, clones[j], Under(x, clones, j)) {
      assert OnlyChild(joined, clones[j], Under(x, clones, j));
      CloneIsNew(w.d, clones, j);
      ChainWrapped(joined, x, c, clones[j], Under(x, clones, j));
    }
    XWrapped(joined, x, c);
  }

  lemma LastNotX(d: Shape, x: Node, clones: seq<Node>)
    requires x in d && NewElements(d, clones)
    ensures Last(x, clones) == x <==> clones == []
  {
  }

  lemma XWrapped(j: Shape, x: Node, c: Node)
    requires Tree(j) && x in j && c !in j && IsContainer(c)
    requires Tree(Add(j, c)) && Lone(Add(j, c), c)
    ensures OnlyChild(Wrap(Add(j, c), x, c), x, c)
  {
    WrapLinks(j, x, c, x);
  }

  lemma ChainWrapped(j: Shape, x: Node, c: Node, a: Node, n: Node)
    requires Tree(j) && x in j && c !in j && IsContainer(c) && OnlyChild(j, a, n) && a != x
    requires Tree(Add(j, c)) && Lone(Add(j, c), c)
    ensures OnlyChild(Wrap(Add(j, c), x, c), a, n)
  {
    WrapLinks(j, x, c, a);
    WrapLinks(j, x, c, n);
  }
  lemma LinksOfPass(w: Before, m: map<Node, Node>, gone: set<Node>, joined: Shape, c: Node,
      d: Shape, open: seq<Node>, list: seq<Entry>, n: Node)
    requires Adopted(w, false, m, gone, joined, c, d, open, list) && 1 <= w.f < w.b < |w.open|
    requires w.open[w.b] in w.d && n in w.d
    ensures PassLinks(w, Clones(w.open[w.f + 1..w.b], m), c, d, n)
  {
    hide Attach, Detach, AdoptAll, NewElements, Tree, Wrapped, Clones, Mid, Subst, Relisted, Fates, Ready, SameElement,
         PassLinks, WalkedStack;
    PassStart(w);
    NoOwnParent(w.d, w.open[w.b]);
    WrappedLinks(w, Clones(w.open[w.f + 1..w.b], m), joined, c, d, n);
  }

  lemma NoOwnParent(d: Shape, x: Node)
    requires Tree(d) && x in d
    ensures d[x].parent != x
  {
    assert NodeOK(d, x);
  }

  // With nothing left behind on the stack, the clones stand there in the order
  // of the elements that they replace.
  lemma {:induction false} MidReversed(passed: seq<Node>, m: map<Node, Node>)
    ensures |Mid(passed, m, {})| == |Clones(passed, m)|
    ensures forall j :: 0 <= j < |Mid(passed, m, {})|
              ==> Mid(passed, m, {})[j] == Clones(passed, m)[|Clones(passed, m)| - 1 - j]
  {
    if passed != [] {
      MidReversed(passed[1..], m);
    }
  }

  // At most three elements between the formatting element and the block: then
  // none of them comes too late.
  lemma NoneLate(w: Before, m: map<Node, Node>, gone: set<Node>)
    requires Fates(w, w.f + 1, m, gone) && w.b - w.f <= 4
    ensures gone == {}
  {
    if n :| n in gone {
      assert n in w.open;
      var i :| 0 <= i < |w.open| && w.open[i] == n;
      FateAt(w, w.f + 1, m, gone, i);
    }
  }

  lemma FateAt(w: Before, s: nat, m: map<Node, Node>, gone: set<Node>, i: nat)
    requires Fates(w, s, m, gone) && i < |w.open|
    ensures FateOf(w, s, i, m, gone)
  {
  }

  // The stack after such a pass, position by position.
  lemma StackOfPass(w: Before, m: map<Node, Node>, gone: set<Node>, joined: Shape, c: Node,
      d: Shape, open: seq<Node>, list: seq<Entry>, i: nat)
    requires Adopted(w, false, m, gone, joined, c, d, open, list) && 1 <= w.f < w.b < |w.open| && w.b - w.f <= 4
    requires i < |open|
    ensures var x, clones := w.open[w.b], Clones(w.open[w.f + 1..w.b], m);
            var k := w.f + |clones|;
            && |open| == k + 2 + |w.open| - (w.b + 1)
            && open[i] == if i < w.f then w.open[i] else if i < k then clones[k - 1 - i] else if i == k then x
                          else if i == k + 1 then c else w.open[i - k - 1 + w.b]
  {
    hide Attach, Detach, AdoptAll, NewElements, Tree, Wrapped, Clones, Mid, Subst, Relisted, Ready, SameElement, Joined;
    NoneLate(w, m, gone);
    MidReversed(w.open[w.f + 1..w.b], m);
  }

  // The stack of open elements is a path of last children.
  ghost predicate WholePath(d: Shape, open: seq<Node>)
  {
    |open| > 0 && Rightmost(d, open, 0, |open| - 1)
  }

  lemma PathFacts(w: Before, j: nat)
    requires Tree(w.d) && Ready(w) && WholePath(w.d, w.open) && j + 1 < |w.open|
    ensures w.open[w.b] in w.d && w.open[j] in w.d && w.open[j + 1] in w.d
    ensures w.d[w.open[w.b]].parent == w.open[w.b - 1]
    ensures w.d[w.open[j + 1]].parent == w.open[j] && w.d[w.open[j + 1]].index == |w.d[w.open[j]].children| - 1
    ensures Distinct(w.open)
  {
    OpenDistinct(w.d, w.open);
    assert LastChildAbove(w.d, w.open, j) && LastChildAbove(w.d, w.open, w.b - 1);
  }

  // The pairs below the common ancestor, and those above the block.
  lemma OldPair(w: Before, m: map<Node, Node>, gone: set<Node>, joined: Shape, c: Node,
      d: Shape, open: seq<Node>, list: seq<Entry>, j: nat)
    requires Adopted(w, false, m, gone, joined, c, d, open, list) && 1 <= w.f < w.b < |w.open|
    requires WholePath(w.d, w.open) && j + 1 < |w.open| && (j + 1 < w.f || j >= w.b)
    ensures var a, y := if j == w.b then c else w.open[j], w.open[j + 1];
            a in d && y in d && d[y].parent == a && d[y].index == |d[a].children| - 1
  {
    AdoptedReady(w, false, m, gone, joined, c, d, open, list);
    PathFacts(w, j);
    LinksOfPass(w, m, gone, joined, c, d, open, list, w.open[j]);
    LinksOfPass(w, m, gone, joined, c, d, open, list, w.open[j + 1]);
    hide Adopted, WholePath, Ready, Tree, OnlyChild, Clones, ChainOf;
  }

  lemma NewPair(w: Before, m: map<Node, Node>, gone: set<Node>, joined: Shape, c: Node,
      d: Shape, open: seq<Node>, list: seq<Entry>)
    requires Adopted(w, false, m, gone, joined, c, d, open, list) && 1 <= w.f < w.b < |w.open|
    ensures var x, ca, clones := w.open[w.b], w.open[w.f - 1], Clones(w.open[w.f + 1..w.b], m);
            var last := Last(x, clones);
            && last in d && ca in d && d[last].parent == ca && d[last].index == |d[ca].children| - 1
            && OnlyChild(d, x, c) && ChainOf(d, x, clones)
  {
    hide Adopted, Ready, Tree, OnlyChild, Clones, ChainOf;
    AdoptedReady(w, false, m, gone, joined, c, d, open, list);
    LinksOfPass(w, m, gone, joined, c, d, open, list, w.open[w.b]);
  }

  // A pass keeps the stack a rightmost path.
  lemma PathKept(w: Before, m: map<Node, Node>, gone: set<Node>, joined: Shape, c: Node,
      d: Shape, open: seq<Node>, list: seq<Entry>, i: nat)
    requires Adopted(w, false, m, gone, joined, c, d, open, list) && 1 <= w.f < w.b < |w.open| && w.b - w.f <= 4
    requires WholePath(w.d, w.open) && i + 1 < |open|
    ensures LastChildAbove(d, open, i)
  {
    hide Adopted, WholePath, Clones, Ready, Tree;
    StackOfPass(w, m, gone, joined, c, d, open, list, i);
    StackOfPass(w, m, gone, joined, c, d, open, list, i + 1);
    var k := w.f + |Clones(w.open[w.f + 1..w.b], m)|;
    if i + 1 < w.f {
      OldPair(w, m, gone, joined, c, d, open, list, i);
    } else if i > k {
      OldPair(w, m, gone, joined, c, d, open, list, i - k - 1 + w.b);
    } else {
      NewLast(w, m, gone, joined, c, d, open, list, i);
    }
  }

  // The same from the common ancestor up to the clone of the formatting element.
  lemma NewLast(w: Before, m: map<Node, Node>, gone: set<Node>, joined: Shape, c: Node,
      d: Shape, open: seq<Node>, list: seq<Entry>, i: nat)
    requires Adopted(w, false, m, gone, joined, c, d, open, list) && 1 <= w.f < w.b < |w.open| && w.b - w.f <= 4
    requires w.f <= i + 1 < |open| && i <= w.f + |Clones(w.open[w.f + 1..w.b], m)|
    ensures LastChildAbove(d, open, i)
  {
    hide Adopted, Clones, Ready, Tree, ChainOf, OnlyChild;
    StackOfPass(w, m, gone, joined, c, d, open, list, i);
    StackOfPass(w, m, gone, joined, c, d, open, list, i + 1);
    NewPair(w, m, gone, joined, c, d, open, list);
    var x, clones := w.open[w.b], Clones(w.open[w.f + 1..w.b], m);
    var k := w.f + |clones|;
    if w.f <= i < k {
      ChainAt(d, x, clones, k - 1 - i);
    } else if i == k {
      ChildIsLast(d, x, c);
    }
  }

  lemma ChainAt(d: Shape, x: Node, clones: seq<Node>, j: nat)
    requires ChainOf(d, x, clones) && j < |clones|
    ensures var y, a := Under(x, clones, j), clones[j];
            a in d && y in d && d[y].parent == a && d[y].index == |d[a].children| - 1
  {
    assert OnlyChild(d, clones[j], Under(x, clones, j));
  }

  lemma ChildIsLast(d: Shape, a: Node, y: Node)
    requires OnlyChild(d, a, y)
    ensures a in d && y in d && d[y].parent == a && d[y].index == |d[a].children| - 1
  {
  }

  // A pass without foster parenting that finds at most three elements between
  // the formatting element and the block.
  predicate Near(a: State, subject: Tag)
  {
    var v := Decide(a.open, a.list, subject);
    v.Again? && 1 <= v.f < v.b && v.b - v.f <= 4
  }

  lemma PassKeepsPath(document: Node, subject: Tag, a: State, h: Choice, z: State)
    requires PassOver(document, false, subject, a, h, z) && Near(a, subject) && WholePath(a.d, a.open)
    ensures Tree(a.d) && Tree(z.d) && document in a.d && document in z.d
    ensures TextOf(z.d, document) == TextOf(a.d, document) && WholePath(z.d, z.open)
  {
    hide TextOf, TextAfter, TextBefore, Adopted, Decide, WholePath, LastChildAbove, Tree, StackOK;
    var v := Decide(a.open, a.list, subject);
    var w := Before(a.d, document, a.open, a.list, v.f, v.b);
    AdoptedReady(w, false, h.m, h.gone, h.joined, h.c, z.d, z.open, z.list);
    PathBelow(w);
    OrdinaryText(w, false, h.m, h.gone, h.joined, h.c, z.d, z.open, z.list);
    NotEmpty(z.d, document, z.open);
    forall i | 0 <= i < |z.open| - 1 ensures LastChildAbove(z.d, z.open, i) {
      PathKept(w, h.m, h.gone, h.joined, h.c, z.d, z.open, z.list, i);
    }
    IsPath(z.d, z.open);
  }

  lemma NotEmpty(d: Shape, document: Node, open: seq<Node>)
    requires Tree(d) && StackOK(d, document, open)
    ensures |open| > 0
  {
  }

  lemma IsPath(d: Shape, open: seq<Node>)
    requires |open| > 0 && forall i :: 0 <= i < |open| - 1 ==> LastChildAbove(d, open, i)
    ensures WholePath(d, open)
  {
  }

  lemma PathBelow(w: Before)
    requires Tree(w.d) && Ready(w) && WholePath(w.d, w.open)
    ensures w.open[w.f - 1] in w.d && w.open[w.b] in w.d && IsAnc(w.d, w.open[w.f - 1], w.open[w.b])
    ensures Rightmost(w.d, w.open, w.f - 1, w.b)
  {
    RightmostAfter(w.d, w.open, w.f - 1, w.b);
  }

  // Over a whole run, of however many passes, the text of the document stays as
  // it is when the stack is a rightmost path at the start.
  lemma {:induction false} RunKeepsText(document: Node, subject: Tag, run: seq<State>, how: seq<Choice>)
    requires Passes(document, false, subject, run, how)
    requires Tree(run[0].d) && document in run[0].d && WholePath(run[0].d, run[0].open)
    requires forall k :: 0 <= k < |how| ==> Near(run[k], subject)
    ensures var z := run[|how|];
            && Tree(z.d) && document in z.d && WholePath(z.d, z.open)
            && TextOf(z.d, document) == TextOf(run[0].d, document)
    decreases |how|
  {
    hide PassOver, WholePath, Near, TextOf, Tree;
    if how != [] {
      var n := |how| - 1;
      RunKeepsText(document, subject, run[..n + 1], how[..n]);
      PassKeepsPath(document, subject, run[n], how[n], run[n + 1]);
    }
  }

  // Building blocks of a text that is known node by node.
  lemma LeafText(d: Shape, n: Node)
    requires Tree(d) && n in d && d[n].children == []
    ensures TextOf(d, n) == OwnText(n)
  {
  }

  lemma OneChildText(d: Shape, n: Node, a: Node)
    requires Tree(d) && n in d && d[n].children == [a] && IsContainer(n)
    ensures a in d && TextOf(d, n) == TextOf(d, a)
  {
    ChildAbove(d, n, 0);
    assert TextFrom(d, n, 1) == "";
  }

  lemma TwoChildrenText(d: Shape, n: Node, a: Node, b: Node)
    requires Tree(d) && n in d && d[n].children == [a, b] && IsContainer(n)
    ensures a in d && b in d && TextOf(d, n) == TextOf(d, a) + TextOf(d, b)
  {
    ChildAbove(d, n, 0);
    ChildAbove(d, n, 1);
    assert TextFrom(d, n, 2) == "";
    assert TextFrom(d, n, 1) == TextOf(d, b) + TextFrom(d, n, 2);
  }

  // A document in which an element stays on the stack that is not above the next
  // one: body holds i and em, and i is below em on the stack. Step 14.5 leaves such
  // elements behind, for instance for <b><i>1<em><strong><u><p></b></p>2<div>3</em>.
  datatype Nodes = Nodes(document: Node, html: Node, body: Node, i: Node, em: Node, div: Node,
                         t1: Node, t2: Node, t3: Node)

  ghost predicate Kinds(e: Nodes)
  {
    && e.document.kind == Document && IsElement(e.html) && IsHtml(e.html, HTML)
    && e.body.kind == Element && IsHtml(e.body, BODY) && e.i.kind == Element && IsHtml(e.i, I)
    && e.em.kind == Element && IsHtml(e.em, EM) && e.em.attrs == [] && e.div.kind == Element && IsHtml(e.div, DIV)
    && e.t1.kind == Text && e.t1.text == "1" && e.t2.kind == Text && e.t2.text == "2"
    && e.t3.kind == Text && e.t3.text == "3"
  }

  function LeftBehind(e: Nodes): (d: Shape)
  {
    map[e.document := Links(null, -1, [e.html], 0),
        e.html := Links(e.document, 0, [e.body], 1),
        e.body := Links(e.html, 0, [e.i, e.em], 2),
        e.i := Links(e.body, 0, [e.t1], 3),
        e.em := Links(e.body, 1, [e.t2, e.div], 3),
        e.div := Links(e.em, 1, [e.t3], 4),
        e.t1 := Links(e.i, 0, [], 4),
        e.t2 := Links(e.em, 0, [], 4),
        e.t3 := Links(e.div, 0, [], 5)]
  }

  function OpenOf(e: Nodes): (open: seq<Node>)
  {
    [e.html, e.body, e.i, e.em, e.div]
  }

  lemma UpperNodes(e: Nodes)
    requires Kinds(e)
    ensures var d := LeftBehind(e); NodeOK(d, e.document) && NodeOK(d, e.html) && NodeOK(d, e.body)
  {
  }

  lemma LowerNodes(e: Nodes)
    requires Kinds(e)
    ensures var d := LeftBehind(e); NodeOK(d, e.i) && NodeOK(d, e.em) && NodeOK(d, e.div)
  {
  }

  lemma TextNodes(e: Nodes)
    requires Kinds(e)
    ensures var d := LeftBehind(e); NodeOK(d, e.t1) && NodeOK(d, e.t2) && NodeOK(d, e.t3)
  {
  }

  lemma LeftBehindTree(e: Nodes)
    requires Kinds(e)
    ensures Tree(LeftBehind(e))
  {
    hide NodeOK;
    UpperNodes(e);
    LowerNodes(e);
    TextNodes(e);
  }

  lemma LeftBehindAncestors(e: Nodes)
    requires Kinds(e) && Tree(LeftBehind(e))
    ensures var d := LeftBehind(e);
            && (forall a :: IsAnc(d, a, e.document) <==> a == e.document)
            && (forall a :: IsAnc(d, a, e.html) <==> a in [e.document, e.html])
            && (forall a :: IsAnc(d, a, e.body) <==> a in [e.document, e.html, e.body])
            && (forall a :: IsAnc(d, a, e.i) <==> a in [e.document, e.html, e.body, e.i])
            && (forall a :: IsAnc(d, a, e.em) <==> a in [e.document, e.html, e.body, e.em])
            && (forall a :: IsAnc(d, a, e.div) <==> a in [e.document, e.html, e.body, e.em, e.div])
  {
  }

  lemma LeftBehindStack(e: Nodes)
    requires Kinds(e)
    ensures Tree(LeftBehind(e)) && StackOK(LeftBehind(e), e.document, OpenOf(e))
    ensures ListOK(LeftBehind(e).Keys, [Formatting(e.em)])
  {
    LeftBehindTree(e);
    LeftBehindAncestors(e);
    hide Tree, IsAnc;
    var d, open := LeftBehind(e), OpenOf(e);
    forall j, k | 0 <= j < k < |open| ensures !IsAnc(d, open[k], open[j]) {
      assert open[k] in [e.html, e.body, e.i, e.em, e.div];
    }
  }

  lemma LeftBehindVerdict(e: Nodes)
    requires Kinds(e)
    ensures Decide(OpenOf(e), [Formatting(e.em)], EM) == Again(3, 4)
    ensures !Trivial(OpenOf(e), [Formatting(e.em)], EM)
  {
    var open, list := OpenOf(e), [Formatting(e.em)];
    assert FindActive(list, EM) == 0;
    assert open[1..] == [e.body, e.i, e.em, e.div] && open[1..][1..] == [e.i, e.em, e.div];
    assert open[1..][1..][1..] == [e.em, e.div];
    assert IndexOf(open, e.em) == 3;
    assert open[..4] == [e.html, e.body, e.i, e.em];
    assert InScope(open[..4], EM) && InScope(open, EM);
    assert FirstSpecial(open, 4) == 4 && FirstSpecial(open, 3) == 4;
  }

  // The text before </em>, around the block and at the place where it is put.
  lemma LeftBehindText(e: Nodes)
    requires Kinds(e)
    ensures Tree(LeftBehind(e)) && TextOf(LeftBehind(e), e.document) == "123" && TextOf(LeftBehind(e), e.div) == "3"
  {
    LeftBehindTree(e);
    hide Tree, TextOf, TextFrom;
    var d := LeftBehind(e);
    LeafText(d, e.t1);
    LeafText(d, e.t2);
    LeafText(d, e.t3);
    OneChildText(d, e.div, e.t3);
    TwoChildrenText(d, e.em, e.t2, e.div);
    OneChildText(d, e.i, e.t1);
    TwoChildrenText(d, e.body, e.i, e.em);
    OneChildText(d, e.html, e.body);
    OneChildText(d, e.document, e.html);
  }

  lemma PlaceText(e: Nodes)
    requires Kinds(e) && Tree(LeftBehind(e)) && Tree(Detach(LeftBehind(e), e.div))
    requires IsAnc(Detach(LeftBehind(e), e.div), e.document, e.i)
    ensures var f := Detach(LeftBehind(e), e.div);
            |f[e.i].children| == 1 && BeforePlace(f, e.document, e.i, 1) == "1"
            && AfterPlace(f, e.document, e.i, 1) == "2"
  {
    hide TextOf, TextBefore, TextAfter, TextUpTo, TextFrom, Tree, IsAnc, BeforePlace, AfterPlace;
    var f := Detach(LeftBehind(e), e.div);
    DivUnlinked(e);
    LeafText(f, e.t1);
    LeafText(f, e.t2);
    OneChildText(f, e.em, e.t2);
    EndOfFirst(f, e);
  }

  // The links without the block.
  ghost predicate Unlinked(f: Shape, e: Nodes)
  {
    && e.document in f && e.html in f && e.body in f && e.i in f && e.em in f && e.t1 in f && e.t2 in f
    && f[e.document].children == [e.html] && f[e.html].children == [e.body] && f[e.body].children == [e.i, e.em]
    && f[e.i].children == [e.t1] && f[e.em].children == [e.t2] && f[e.t1].children == [] && f[e.t2].children == []
    && f[e.html].parent == e.document && f[e.html].index == 0 && f[e.body].parent == e.html && f[e.body].index == 0
    && f[e.i].parent == e.body && f[e.i].index == 0
  }

  lemma DivUnlinked(e: Nodes)
    requires Kinds(e) && Tree(LeftBehind(e))
    ensures Unlinked(Detach(LeftBehind(e), e.div), e)
  {
    hide Tree;
  }

  lemma EndOfFirst(f: Shape, e: Nodes)
    requires Tree(f) && Unlinked(f, e) && Kinds(e) && IsAnc(f, e.document, e.i)
    ensures BeforePlace(f, e.document, e.i, 1) == TextOf(f, e.t1)
            && AfterPlace(f, e.document, e.i, 1) == TextOf(f, e.em)
  {
    hide TextOf, Tree, Kinds;
    assert e.document != e.html && e.document != e.body && e.document != e.i by { Differ(e); }
    assert TextUpTo(f, e.i, 1) == TextUpTo(f, e.i, 0) + TextOf(f, e.t1) == TextOf(f, e.t1);
    assert TextFrom(f, e.i, 1) == "" && TextFrom(f, e.html, 1) == "" && TextFrom(f, e.document, 1) == "";
    assert TextFrom(f, e.body, 1) == TextOf(f, e.em) + TextFrom(f, e.body, 2) == TextOf(f, e.em);
    UpOne(f, e.document, e.i);
    UpOne(f, e.document, e.body);
    UpOne(f, e.document, e.html);
  }

  lemma Differ(e: Nodes)
    requires Kinds(e)
    ensures e.document != e.html && e.document != e.body && e.document != e.i
  {
  }

  lemma UpOne(f: Shape, root: Node, n: Node)
    requires Tree(f) && n in f && n != root && f[n].parent != null && IsAnc(f, root, n)
    ensures f[n].parent in f && 0 <= f[n].index < |f[f[n].parent].children| && IsAnc(f, root, f[n].parent)
    ensures TextBefore(f, root, n) == TextBefore(f, root, f[n].parent) + TextUpTo(f, f[n].parent, f[n].index)
    ensures TextAfter(f, root, n) == TextFrom(f, f[n].parent, f[n].index + 1) + TextAfter(f, root, f[n].parent)
  {
    assert NodeOK(f, n);
  }

  ghost function StateOf(e: Nodes): State
  {
    State(LeftBehind(e), OpenOf(e), [Formatting(e.em)])
  }

  // The pass puts the block back into i, before the text that preceded it.
  lemma TextChanges(e: Nodes, h: Choice, z: State)
    requires Kinds(e) && PassOver(e.document, false, EM, StateOf(e), h, z)
    ensures Tree(z.d) && e.document in z.d && TextOf(z.d, e.document) == "132"
    ensures Decide(z.open, z.list, EM).Done?
  {
    hide Decide, Adopted, TextOf, BeforePlace, AfterPlace, Tree, IsAnc, Detach, TextBefore, TextAfter, Kinds, StepPlace;
    var a := StateOf(e);
    LeftBehindVerdict(e);
    LeftBehindText(e);
    var w := Before(a.d, e.document, a.open, a.list, 3, 4);
    var p, k := PassText(w, false, h.m, h.gone, h.joined, h.c, z.d, z.open, z.list);
    OrdinaryPlace(w, false, h.m, h.gone, p, k);
    PlaceText(e);
    PassEnds(e, h, z);
  }

  ghost function BeforeEm(e: Nodes): Before
  {
    Before(LeftBehind(e), e.document, OpenOf(e), [Formatting(e.em)], 3, 4)
  }

  lemma PassEnds(e: Nodes, h: Choice, z: State)
    requires Kinds(e) && Adopted(BeforeEm(e), false, h.m, h.gone, h.joined, h.c, z.d, z.open, z.list)
    ensures Decide(z.open, z.list, EM).Done?
  {
    hide Adopted, Kinds, Decide;
    EmIs(e);
    ListAfter(BeforeEm(e), e.em, h.m, h.gone, h.joined, h.c, z.d, z.open, z.list);
    LastOnly(z.open, z.list, h.c, EM);
  }

  // One listed element, with its block right above it on top of the stack.
  lemma ListAfter(w: Before, em: Node, m: map<Node, Node>, gone: set<Node>, joined: Shape, c: Node,
      d: Shape, open: seq<Node>, list: seq<Entry>)
    requires Adopted(w, false, m, gone, joined, c, d, open, list)
    requires 1 <= w.f && w.b == w.f + 1 && |w.open| == w.b + 1 && w.list == [Formatting(em)] && w.open[w.f] == em
    ensures list == [Formatting(c)] && SameElement(c, em)
    ensures |open| > 0 && open[|open| - 1] == c && c !in open[..|open| - 1]
  {
    hide Tree, AdoptAll, NewElements, Joined, Wrapped, Detach, StackOK, ListOK, SameElement, Ready, Relisted, Subst;
    assert w.open[w.f + 1..w.b] == [];
    assert FateOf(w, w.f + 1, w.f, m, gone);
    OnlyEntry(em, m, gone, c);
    StackAfter(w, m, gone, joined, c, d, open, list);
  }

  lemma StackAfter(w: Before, m: map<Node, Node>, gone: set<Node>, joined: Shape, c: Node,
      d: Shape, open: seq<Node>, list: seq<Entry>)
    requires Adopted(w, false, m, gone, joined, c, d, open, list)
    requires 1 <= w.f && w.b == w.f + 1 && |w.open| == w.b + 1
    ensures |open| > 0 && open[|open| - 1] == c && c !in open[..|open| - 1]
  {
    hide Tree, AdoptAll, NewElements, Joined, Wrapped, Detach, StackOK, ListOK, SameElement, Ready, Relisted, Subst;
    StackKnown(w);
    assert w.open[w.f + 1..w.b] == [] && w.open[w.b + 1..] == [];
    assert open == w.open[..w.f] + [w.open[w.b], c];
  }

  lemma OnlyEntry(em: Node, m: map<Node, Node>, gone: set<Node>, c: Node)
    requires em !in m && em !in gone
    ensures Subst([Formatting(em)], m, gone) == [Formatting(em)]
    ensures Relisted([Formatting(em)], em, em, c) == [Formatting(c)]
  {
    assert [Formatting(em)][1..] == [];
  }

  lemma EmIs(e: Nodes)
    requires Kinds(e)
    ensures e.em.tag == EM && e.em.ns == Html
  {
  }

  // A listed element on top of the stack is simply closed.
  lemma LastOnly(open: seq<Node>, list: seq<Entry>, c: Node, tag: Tag)
    requires |open| > 0 && open[|open| - 1] == c && c !in open[..|open| - 1] && list == [Formatting(c)]
    requires IsHtml(c, tag) && IsFormattingTag(tag)
    ensures Decide(open, list, tag).Done?
  {
    assert FindActive(list, tag) == 0;
    assert IndexOf(open, c) == |open| - 1;
    assert InScope(open, tag);
    assert FirstSpecial(open, |open|) == -1;
  }

  lemma OnePassOnly(e: Nodes, run: seq<State>, how: seq<Choice>, open: seq<Node>, list: seq<Entry>)
    requires Kinds(e) && Passes(e.document, false, EM, run, how) && |how| <= 8 && run[0] == StateOf(e)
    requires Ends(run, EM, open, list)
    ensures |how| == 1 && Tree(run[1].d) && e.document in run[1].d && TextOf(run[1].d, e.document) == "132"
  {
    hide TextOf, Decide, Tree, Kinds;
    LeftBehindVerdict(e);
    if |how| > 0 {
      hide PassOver;
      assert PassOver(e.document, false, EM, run[0], how[0], run[1]);
      TextChanges(e, how[0], run[1]);
      if |how| > 1 {
        PassedAgain(e.document, EM, run[1], how[1], run[2]);
      }
    }
  }

  lemma PassedAgain(document: Node, subject: Tag, a: State, h: Choice, z: State)
    requires PassOver(document, false, subject, a, h, z)
    ensures Decide(a.open, a.list, subject).Again?
  {
  }

  // A run of the algorithm that changes the text of a document from 123 to 132.
  method ReorderText() returns (p: Parser, ghost before: Shape)
    ensures Tree(before) && p.document in before && TextOf(before, p.document) == "123"
    ensures p.Valid() && TextOf(ShapeOf(p.nodes), p.document) == "132"
  {
    var e;
    p, e := Arrange();
    LeftBehindText(e);
    before := ShapeOf(p.nodes);
    hide Kinds, TextOf, Tree, StackOK, ListOK, Passes, Ends;
    ghost var run, how := AdoptionRun.Run(p, EM);
    OnePassOnly(e, run, how, p.open, p.formatting);
    NothingLeft(run[|how|], p.foster, Now(p), p.pending);
  }

  lemma NothingLeft(z: State, foster: bool, r: State, left: string)
    requires Popped(z, foster, "", r, left)
    ensures r.d == z.d
  {
  }

  method Arrange() returns (p: Parser, e: Nodes)
    ensures fresh(p) && fresh(p.nodes) && p.Valid() && !p.foster && p.pending == "" && e.document == p.document
    ensures Kinds(e) && Now(p) == StateOf(e)
  {
    hide Tree, StackOK, ListOK, LeftBehind, Kinds;
    p := new Parser();
    assert p.open[0] in ShapeOf(p.nodes);
    e := Populate(p);
    SetUp(p, e);
  }

  method SetUp(p: Parser, e: Nodes)
    requires Kinds(e) && e.document == p.document && p.root != null
    requires ShapeOf(LeftBehind(e).Keys) == LeftBehind(e)
    modifies p`nodes, p`open, p`formatting
    ensures p.Valid() && p.nodes == LeftBehind(e).Keys && Now(p) == StateOf(e)
  {
    hide Tree, StackOK, ListOK, LeftBehind, Kinds;
    LeftBehindStack(e);
    p.nodes := LeftBehind(e).Keys;
    p.open := [e.html, e.body, e.i, e.em, e.div];
    p.formatting := [Formatting(e.em)];
  }

  method Populate(p: Parser) returns (e: Nodes)
    requires p.Valid() && p.open != []
    requires p.open[0] != p.document
    requires ShapeOf(p.nodes) == map[p.document := Links(null, -1, p.open, 0), p.open[0] := Links(p.document, 0, [], 1)]
    requires |p.open| == 1
    modifies p.open[0]
    ensures e.document == p.document && e.html == p.open[0] && Kinds(e)
    ensures fresh(LeftBehind(e).Keys - p.nodes) && ShapeOf(LeftBehind(e).Keys) == LeftBehind(e)
  {
    hide Tree, StackOK, ListOK, LeftBehind, Kinds;
    var document, html := p.document, p.open[0];
    RootKind(ShapeOf(p.nodes), document, p.open);
    assert p.open == [html];
    Rooted(p.nodes, document, html);
    e := NewNodes(document, html);
    NineNodes(e);
    LinkUp(e);
  }

  lemma Rooted(nodes: set<Node>, document: Node, html: Node)
    requires document != html
    requires ShapeOf(nodes) == map[document := Links(null, -1, [html], 0), html := Links(document, 0, [], 1)]
    ensures document in nodes && html in nodes
    ensures LinksOf(document) == Links(null, -1, [html], 0) && LinksOf(html) == Links(document, 0, [], 1)
  {
    assert document in ShapeOf(nodes) && html in ShapeOf(nodes);
  }

  lemma NineNodes(e: Nodes)
    ensures LeftBehind(e).Keys == {e.document, e.html, e.body, e.i, e.em, e.div, e.t1, e.t2, e.t3}
  {
  }

  lemma RootKind(d: Shape, document: Node, open: seq<Node>)
    requires Tree(d) && StackOK(d, document, open)
    ensures document.kind == Document && |open| > 0 && IsElement(open[0]) && IsHtml(open[0], HTML)
  {
  }

  method NewNodes(document: Node, html: Node) returns (e: Nodes)
    requires document.kind == Document && IsElement(html) && IsHtml(html, HTML)
    ensures e.document == document && e.html == html && Kinds(e)
    ensures fresh(e.body) && fresh(e.i) && fresh(e.em) && fresh(e.div) && fresh(e.t1) && fresh(e.t2) && fresh(e.t3)
    ensures e.t1.children == e.t2.children == e.t3.children == []
  {
    var body := new Node(Element, Html, BODY, "body", [], "");
    var i := new Node(Element, Html, I, "i", [], "");
    var em := new Node(Element, Html, EM, "em", [], "");
    var div := new Node(Element, Html, DIV, "div", [], "");
    var t1 := new Node(Text, Html, UNKNOWN, "", [], "1");
    var t2 := new Node(Text, Html, UNKNOWN, "", [], "2");
    var t3 := new Node(Text, Html, UNKNOWN, "", [], "3");
    e := Nodes(document, html, body, i, em, div, t1, t2, t3);
  }

  ghost function LinksOf(n: Node): (l: Links)
    reads n
  {
    Links(n.parent, n.index, n.children, n.rank)
  }

  method LinkUp(e: Nodes)
    requires Kinds(e) && LinksOf(e.document) == Links(null, -1, [e.html], 0)
    requires LinksOf(e.html) == Links(e.document, 0, [], 1)
    requires e.t1.children == e.t2.children == e.t3.children == []
    modifies e.html, e.body, e.i, e.em, e.div, e.t1, e.t2, e.t3
    ensures ShapeOf(LeftBehind(e).Keys) == LeftBehind(e)
  {
    hide LeftBehind;
    NineNodes(e);
    LinkUpper(e);
    LinkLower(e);
    DocumentStays(e);
    ghost var d := LeftBehind(e);
    assert forall n :: n in d ==> LinksOf(n) == d[n];
  }

  lemma DocumentStays(e: Nodes)
    requires Kinds(e) && LinksOf(e.document) == Links(null, -1, [e.html], 0)
    ensures e.document in LeftBehind(e) && LinksOf(e.document) == LeftBehind(e)[e.document]
  {
  }

  method LinkUpper(e: Nodes)
    requires Kinds(e) && LinksOf(e.html) == Links(e.document, 0, [], 1)
    modifies e.html, e.body, e.i, e.em
    ensures var d := LeftBehind(e);
            && LinksOf(e.html) == d[e.html] && LinksOf(e.body) == d[e.body]
            && LinksOf(e.i) == d[e.i] && LinksOf(e.em) == d[e.em]
  {
    e.html.children := [e.body];
    e.body.parent, e.body.index, e.body.children, e.body.rank := e.html, 0, [e.i, e.em], 2;
    e.i.parent, e.i.index, e.i.children, e.i.rank := e.body, 0, [e.t1], 3;
    e.em.parent, e.em.index, e.em.children, e.em.rank := e.body, 1, [e.t2, e.div], 3;
  }

  method LinkLower(e: Nodes)
    requires Kinds(e) && e.t1.children == e.t2.children == e.t3.children == []
    modifies e.div, e.t1, e.t2, e.t3
    ensures var d := LeftBehind(e);
            && LinksOf(e.div) == d[e.div] && LinksOf(e.t1) == d[e.t1]
            && LinksOf(e.t2) == d[e.t2] && LinksOf(e.t3) == d[e.t3]
  {
    e.div.parent, e.div.index, e.div.children, e.div.rank := e.em, 1, [e.t3], 4;
    e.t1.parent, e.t1.index, e.t1.rank := e.i, 0, 4;
    e.t2.parent, e.t2.index, e.t2.rank := e.em, 0, 4;
    e.t3.parent, e.t3.index, e.t3.rank := e.div, 0, 5;
  }
}
