/** The adoption agency algorithm of gumbo-parser/src/parser.c: misnested
    formatting elements are split and the block between them is moved. */
module AdoptionAgency {
  import opened Attributes
  import opened Tags
  import opened Dom
  import opened OpenElements
  import opened FormattingList
  import opened TreeConstruction
  import opened AdoptionSteps
  import opened AdoptionWalk
  import opened Shelter

  // Ghost state of step 14: it has come down to s; the open element at l is the
  // last node and the one at b is the furthest block; m and gone hold the
  // elements cloned and the elements taken off the list.
  datatype Stage = Stage(s: nat, l: nat, b: nat, m: map<Node, Node>, gone: set<Node>)

  ghost function ClonesAt(w: Before, t: Stage): (r: seq<Node>)
    requires t.s <= w.b <= |w.open|
  {
    Clones(w.open[t.s..w.b], t.m)
  }

  ghost predicate Underway(w: Before, t: Stage, d: Shape, open: seq<Node>, list: seq<Entry>, last: Node, bookmark: nat)
  {
    && Tree(w.d) && Ready(w) && Tree(d) && w.d.Keys <= d.Keys
    && Walking(w, t.s, t.m, t.gone, d, open, list)
    && Moving(d, w.document, open, Reach(w.d, w.document) + (d.Keys - w.d.Keys), w.f, t.s, t.l, t.b)
    && open[t.l] == last == Last(w.open[w.b], ClonesAt(w, t)) && open[t.b] == w.open[w.b]
    && ListOK(d.Keys, list) && Calm(w, open, list)
    && Booked(list, bookmark, Anchor(w.open[w.f], ClonesAt(w, t)))
  }

  // The element that step 14 looks at next, and its place on the stack.
  lemma Next(w: Before, t: Stage, d: Shape, open: seq<Node>, list: seq<Entry>, last: Node, bookmark: nat)
    requires Underway(w, t, d, open, list, last, bookmark)
    ensures 1 <= w.f < t.s <= t.l <= t.b < |open| && t.s <= w.b < |w.open| && open[t.s - 1] == w.open[t.s - 1]
    ensures IsElement(open[t.s - 1])
    ensures open[t.s - 1] in d && d[open[t.s - 1]].parent != null
    ensures open[t.s - 1] == w.open[w.f] <==> t.s - 1 == w.f
    ensures Distinct(open)
  {
    StackStep(w, t.s, t.m, t.gone, open, open[0]);
    OpenDistinct(d, open);
    OpenDistinct(w.d, w.open);
    assert open[t.s - 1] == w.open[t.s - 1] && 1 <= w.f < t.s <= w.b < |w.open|;
    hide Walking, Ready, Calm, Booked, ListOK, IndexOf;
    assert IsAnc(d, w.document, open[t.s - 1]);
  }

  // Step 14.6: the element is not listed and leaves the stack.
  lemma Unlisted(w: Before, t: Stage, d: Shape, open: seq<Node>, list: seq<Entry>, last: Node, bookmark: nat)
    requires Underway(w, t, d, open, list, last, bookmark) && w.f < t.s - 1
    requires Formatting(w.open[t.s - 1]) !in list
    ensures t.s <= |open| && t.l > 0 && t.b > 0
    ensures Underway(w, t.(s := t.s - 1, l := t.l - 1, b := t.b - 1), d, RemoveAt(open, t.s - 1), list, last, bookmark)
  {
    hide Ready, Tree, Walking, Moving, ListOK, Calm, Reach, Booked, RemoveAt, IndexOf, Clones, Last;
    Next(w, t, d, open, list, last, bookmark);
    WalkDrop(w, t.s, t.m, t.gone, d, open, list);
    DropStep(d, w.document, open, Reach(w.d, w.document) + (d.Keys - w.d.Keys), w.f, t.s, t.l, t.b);
    CalmDrop(w, open, list, t.s - 1);
  }

  // Step 14.5: the element has been passed too late and leaves the list only.
  lemma TooLate(w: Before, t: Stage, d: Shape, open: seq<Node>, list: seq<Entry>, last: Node, bookmark: nat)
    requires Underway(w, t, d, open, list, last, bookmark) && w.f < t.s - 1 && w.b - (t.s - 1) > 3
    requires Formatting(w.open[t.s - 1]) in list
    ensures var i := IndexOf(list, Formatting(w.open[t.s - 1]));
            && (i < bookmark ==> bookmark > 0)
            && Underway(w, t.(s := t.s - 1, gone := t.gone + {w.open[t.s - 1]}), d, open, RemoveAt(list, i), last,
                 if i < bookmark then bookmark - 1 else bookmark)
  {
    hide Ready, Tree, Walking, Moving, ListOK, Calm, Reach, Booked, RemoveAt, IndexOf, Clones, Last;
    Next(w, t, d, open, list, last, bookmark);
    var i := IndexOf(list, Formatting(w.open[t.s - 1]));
    MovingOn(d, w.document, open, Reach(w.d, w.document) + (d.Keys - w.d.Keys), w.f, t.s, t.l, t.b);
    WalkGone(w, t.s, t.m, t.gone, d, open, list);
    CalmUnlist(w, open, list, i);
    ListRemove(d.Keys, list, i);
    AnchorPassed(w, t, d, open, list);
    BookmarkMoves(list, bookmark, Anchor(w.open[w.f], ClonesAt(w, t)), i);
  }

  lemma MovingOn(d: Shape, document: Node, open: seq<Node>, reach: set<Node>, f: nat, s: nat, l: nat, b: nat)
    requires Moving(d, document, open, reach, f, s, l, b) && f < s - 1
    ensures Moving(d, document, open, reach, f, s - 1, l, b)
  {
  }

  lemma AnchorPassed(w: Before, t: Stage, d: Shape, open: seq<Node>, list: seq<Entry>)
    requires Ready(w) && Walking(w, t.s, t.m, t.gone, d, open, list) && w.f < t.s - 1
    ensures Anchor(w.open[w.f], ClonesAt(w, t)) != w.open[t.s - 1]
  {
    OpenDistinct(w.d, w.open);
    assert w.open[t.s - 1] in w.d;
  }

  // Steps 14.7 to 14.10: a clone takes the element's place in the list and on
  // the stack, and the last node becomes its child.
  lemma Cloned(w: Before, t: Stage, d: Shape, open: seq<Node>, list: seq<Entry>, last: Node, bookmark: nat, c: Node)
    requires Underway(w, t, d, open, list, last, bookmark) && w.f < t.s - 1 && w.b - (t.s - 1) <= 3
    requires Formatting(w.open[t.s - 1]) in list && c !in d && SameElement(c, w.open[t.s - 1])
    ensures t.s <= |open| && last in d && IsElement(c)
    ensures var i := IndexOf(list, Formatting(w.open[t.s - 1]));
            Underway(w, t.(s := t.s - 1, l := t.s - 1, m := t.m[w.open[t.s - 1] := c]), Adopt(d, last, c),
              open[t.s - 1 := c], list[i := Formatting(c)], c, if last == w.open[w.b] then i + 1 else bookmark)
  {
    hide Ready, Tree, Walking, Moving, ListOK, Calm, Reach, RemoveAt, IndexOf, Clones, Last, Adopt;
    Next(w, t, d, open, list, last, bookmark);
    var n := w.open[t.s - 1];
    var i := IndexOf(list, Formatting(n));
    ListedElement(d.Keys, list, i);
    var reach := Reach(w.d, w.document) + (d.Keys - w.d.Keys);
    AdoptStep(d, w.document, open, reach, w.f, t.s, t.l, t.b, c);
    WalkClone(w, t.s, t.m, t.gone, d, open, list, c);
    AdoptTree(d, last, c);
    assert reach + {c} == Reach(w.d, w.document) + (d.Keys + {c} - w.d.Keys);
    CalmClone(w, open, list, t.s - 1, i, c);
    ListReplace(d.Keys, list, i, c);
    AnchorPassed(w, t, d, open, list);
    LastOfClones(w, t, d, open, list);
    AnchorKept(w.open[w.f], ClonesAt(w, t), c);
    LastAppended(w.open[w.b], ClonesAt(w, t), c);
  }

  lemma LastOfClones(w: Before, t: Stage, d: Shape, open: seq<Node>, list: seq<Entry>)
    requires Tree(w.d) && Ready(w) && Walking(w, t.s, t.m, t.gone, d, open, list)
    ensures Last(w.open[w.b], ClonesAt(w, t)) == w.open[w.b] <==> ClonesAt(w, t) == []
  {
  }

  lemma AnchorKept(formatting: Node, clones: seq<Node>, c: Node)
    ensures Anchor(formatting, clones + [c]) == if clones == [] then c else Anchor(formatting, clones)
  {
  }

  lemma LastAppended(b: Node, clones: seq<Node>, c: Node)
    ensures Last(b, clones + [c]) == c
  {
  }

  ghost predicate InLoop(p: Parser, w: Before, t: Stage, last: Node, bookmark: nat)
    reads p, p.nodes
  {
    && p.document == w.document && p.root != null
    && Underway(w, t, ShapeOf(p.nodes), p.open, p.formatting, last, bookmark)
  }

  // A node that step 14 or 15 unlinks hangs below an element.
  lemma LastParent(w: Before, t: Stage, d: Shape, open: seq<Node>, list: seq<Entry>, last: Node, bookmark: nat)
    requires Underway(w, t, d, open, list, last, bookmark)
    ensures Tree(d) && last in d && (d[last].parent != null ==> IsElement(d[last].parent))
  {
    hide Ready, Walking, ListOK, Calm, Booked, Clones;
    assert NodeOK(d, last);
    if d[last].parent != null {
      assert NodeOK(d, d[last].parent);
    }
  }

  // Steps 14.7 to 14.10.
  method CloneOne(p: Parser, ghost w: Before, ghost t: Stage, nodeIndex: nat, formattingIndex: nat, last: Node,
      bookmark: nat, block: Node)
    returns (c: Node, bookmark': nat)
    requires InLoop(p, w, t, last, bookmark) && w.f < t.s - 1 && w.b - (t.s - 1) <= 3
    requires nodeIndex == t.s - 1 && Formatting(w.open[t.s - 1]) in p.formatting && block == w.open[w.b]
    requires formattingIndex == IndexOf(p.formatting, Formatting(w.open[t.s - 1]))
    modifies p`nodes, p`open, p`formatting, p.nodes
    ensures fresh(p.nodes - old(p.nodes)) && old(p.nodes) <= p.nodes
    ensures InLoop(p, w, t.(s := t.s - 1, l := t.s - 1, m := t.m[w.open[t.s - 1] := c]), c, bookmark')
    ensures nodeIndex < |p.open| && p.open[nodeIndex] == c
  {
    hide Underway, Tree, IndexOf, Adopt, Distinct;
    ghost var d := ShapeOf(p.nodes);
    Next(w, t, d, p.open, p.formatting, last, bookmark);
    var node := p.open[nodeIndex];
    c := CloneNode(node);
    Cloned(w, t, d, p.open, p.formatting, last, bookmark, c);
    LastParent(w, t, d, p.open, p.formatting, last, bookmark);
    p.formatting := p.formatting[formattingIndex := Formatting(c)];
    p.open := p.open[nodeIndex := c];
    bookmark' := if last == block then formattingIndex + 1 else bookmark;
    p.nodes := p.nodes + {c};
    AdoptNode(p.nodes, d, last, c);
    assert p.nodes == old(p.nodes) + {c};
    ghost var t' := t.(s := t.s - 1, l := t.s - 1, m := t.m[w.open[t.s - 1] := c]);
    assert Underway(w, t', ShapeOf(p.nodes), p.open, p.formatting, c, bookmark');
  }

  // remove_from_parent, then append_node to a new clone.
  method AdoptNode(ghost nodes: set<Node>, ghost d: Shape, last: Node, c: Node)
    requires Tree(d) && last in d && c !in d && IsElement(c) && nodes == d.Keys + {c} && ShapeOf(nodes) == Add(d, c)
    requires d[last].parent != null ==> IsElement(d[last].parent)
    modifies nodes
    ensures ShapeOf(nodes) == Adopt(d, last, c)
  {
    AdoptTree(d, last, c);
    hide Tree, IsAnc;
    RemoveFromParent(nodes, last);
    AppendNode(nodes, c, last);
  }

  // Step 14.5.
  method DropLate(p: Parser, ghost w: Before, ghost t: Stage, formattingIndex: nat, last: Node, bookmark: nat)
    returns (bookmark': nat)
    requires InLoop(p, w, t, last, bookmark) && w.f < t.s - 1 && w.b - (t.s - 1) > 3
    requires Formatting(w.open[t.s - 1]) in p.formatting
    requires formattingIndex == IndexOf(p.formatting, Formatting(w.open[t.s - 1]))
    modifies p`formatting
    ensures InLoop(p, w, t.(s := t.s - 1, gone := t.gone + {w.open[t.s - 1]}), last, bookmark')
  {
    hide Underway, IndexOf, RemoveAt;
    TooLate(w, t, ShapeOf(p.nodes), p.open, p.formatting, last, bookmark);
    p.formatting := RemoveAt(p.formatting, formattingIndex);
    bookmark' := bookmark;
    if formattingIndex < bookmark {
      bookmark' := bookmark - 1;
    }
  }

  // Step 14.6.
  method DropUnlisted(p: Parser, ghost w: Before, ghost t: Stage, nodeIndex: nat, last: Node, ghost bookmark: nat)
    requires InLoop(p, w, t, last, bookmark) && w.f < t.s - 1 && nodeIndex == t.s - 1
    requires Formatting(w.open[t.s - 1]) !in p.formatting
    modifies p`open
    ensures t.l > 0 && t.b > 0 && InLoop(p, w, t.(s := t.s - 1, l := t.l - 1, b := t.b - 1), last, bookmark)
    ensures w.open[t.s - 1] !in p.open
  {
    hide Underway, IndexOf, RemoveAt;
    Unlisted(w, t, ShapeOf(p.nodes), p.open, p.formatting, last, bookmark);
    Next(w, t, ShapeOf(p.nodes), p.open, p.formatting, last, bookmark);
    RemovedOnce(p.open, nodeIndex);
    p.open := RemoveAt(p.open, nodeIndex);
  }

  lemma RemovedOnce(open: seq<Node>, k: nat)
    requires k < |open| && Distinct(open)
    ensures open[k] !in RemoveAt(open, k)
  {
  }

  lemma OnlyAt(open: seq<Node>, k: nat)
    requires k < |open| && Distinct(open)
    ensures open[k] in open && IndexOf(open, open[k]) == k
  {
  }

  lemma Start(w: Before)
    requires Ready(w)
    ensures var bookmark := 1 + IndexOf(w.list, Formatting(w.open[w.f]));
            Underway(w, Stage(w.b, w.b, w.b, map[], {}), w.d, w.open, w.list, w.open[w.b], bookmark)
    ensures IndexOf(w.open, w.open[w.b]) == w.b
  {
    hide Walking, Moving, Tree, ListOK, IsHtml, Reach;
    StartWalking(w);
    StartMoving(w.d, w.document, w.open, w.f, w.b);
    OpenDistinct(w.d, w.open);
    assert Reach(w.d, w.document) + (w.d.Keys - w.d.Keys) == Reach(w.d, w.document);
    assert w.open[w.b..w.b] == [];
  }

  lemma Begins(p: Parser, w: Before)
    requires Tree(ShapeOf(p.nodes)) && Ready(w) && p.root != null
    requires w == Before(ShapeOf(p.nodes), p.document, p.open, p.formatting, w.f, w.b)
    ensures var bookmark := 1 + IndexOf(p.formatting, Formatting(w.open[w.f]));
            bookmark >= 0 && InLoop(p, w, Stage(w.b, w.b, w.b, map[], {}), w.open[w.b], bookmark)
    ensures IndexOf(p.open, w.open[w.b]) == w.b
  {
    hide Underway, Tree;
    Start(w);
  }

  lemma NextInLoop(p: Parser, w: Before, t: Stage, last: Node, bookmark: nat)
    requires InLoop(p, w, t, last, bookmark)
    ensures 1 <= w.f < t.s <= t.b < |p.open| && t.s <= w.b < |w.open|
    ensures p.open[t.s - 1] == w.open[t.s - 1] && p.open[t.s - 1].parent != null
    ensures p.open[t.s - 1] == w.open[w.f] <==> t.s - 1 == w.f
    ensures Distinct(p.open)
  {
    hide Underway, Tree, Distinct;
    Next(w, t, ShapeOf(p.nodes), p.open, p.formatting, last, bookmark);
  }

  // Steps 13 and 14.
  method WalkDown(p: Parser, ghost w: Before, formatting: Node, block: Node)
    returns (last: Node, bookmark: nat, ghost t: Stage)
    requires Tree(ShapeOf(p.nodes)) && Ready(w) && p.root != null
    requires w == Before(ShapeOf(p.nodes), p.document, p.open, p.formatting, w.f, w.b)
    requires formatting == w.open[w.f] && block == w.open[w.b]
    modifies p`nodes, p`open, p`formatting, p.nodes
    ensures fresh(p.nodes - old(p.nodes)) && old(p.nodes) <= p.nodes
    ensures InLoop(p, w, t, last, bookmark) && t.s == w.f + 1
  {
    hide InLoop, Tree, RemoveAt, IndexOf, Distinct, StackOK, ListOK;
    Begins(p, w);
    bookmark := 1 + IndexOf(p.formatting, Formatting(formatting));
    t := Stage(w.b, w.b, w.b, map[], {});
    var node := block;
    last := block;
    var saved := IndexOf(p.open, node);
    var j := 0;
    while true
      invariant fresh(p.nodes - old(p.nodes)) && old(p.nodes) <= p.nodes
      invariant InLoop(p, w, t, last, bookmark)
      invariant j == w.b - t.s && (if node in p.open then IndexOf(p.open, node) else saved) == t.s
      decreases t.s
    {
      j := j + 1;
      var nodeIndex := IndexOf(p.open, node);
      if nodeIndex == -1 {
        nodeIndex := saved;
      }
      nodeIndex := nodeIndex - 1;
      saved := nodeIndex;
      NextInLoop(p, w, t, last, bookmark);
      node := p.open[nodeIndex];
      OnlyAt(p.open, nodeIndex);
      if node == formatting {
        break;
      }
      var formattingIndex := IndexOf(p.formatting, Formatting(node));
      if j > 3 && formattingIndex != -1 {
        bookmark := DropLate(p, w, t, formattingIndex, last, bookmark);
        t := t.(s := t.s - 1, gone := t.gone + {node});
        continue;
      }
      if formattingIndex == -1 {
        DropUnlisted(p, w, t, nodeIndex, last, bookmark);
        t := t.(s := t.s - 1, l := t.l - 1, b := t.b - 1);
        continue;
      }
      ghost var n := node;
      node, bookmark := CloneOne(p, w, t, nodeIndex, formattingIndex, last, bookmark, block);
      t := t.(s := t.s - 1, l := t.s - 1, m := t.m[n := node]);
      NextInLoop(p, w, t, node, bookmark);
      OnlyAt(p.open, nodeIndex);
      last := node;
    }
  }

  predicate Locatable(d: Shape, open: seq<Node>)
  {
    |open| > 0 && IsHtml(open[0], HTML) && forall i :: 0 <= i < |open| ==> open[i] in d
  }

  // insert_node of last at the appropriate place for target.
  ghost predicate Joined(d: Shape, open: seq<Node>, foster: bool, target: Node, last: Node, joined: Shape)
  {
    Tree(d) && Locatable(d, open) && last in d
    && var l := AppropriateLocation(d, open, foster, target);
       && l.target in d && (l.index == -1 || 0 <= l.index < |d[l.target].children|)
       && joined == Attach(d, last, l.target, if l.index == -1 then |d[l.target].children| else l.index)
  }

  lemma UnlinkLast(w: Before, t: Stage, d: Shape, open: seq<Node>, list: seq<Entry>, last: Node, bookmark: nat)
    requires Underway(w, t, d, open, list, last, bookmark)
    ensures last in d && Tree(Detach(d, last)) && Detach(d, last)[last].parent == null
    ensures Underlying(w, t, Detach(d, last), open, last)
    ensures Locatable(Detach(d, last), open)
  {
    hide Tree, Walking, ListOK, Calm, Booked, Clones, Reach, Detach, Last;
    UnlinkStep(d, w.document, open, Reach(w.d, w.document) + (d.Keys - w.d.Keys), w.f, t.s, t.l, t.b);
  }

  // The part of Underway that concerns the links.
  ghost predicate Underlying(w: Before, t: Stage, d: Shape, open: seq<Node>, last: Node)
  {
    && Tree(w.d) && Tree(d) && w.d.Keys <= d.Keys
    && Moving(d, w.document, open, Reach(w.d, w.document) + (d.Keys - w.d.Keys), w.f, t.s, t.l, t.b)
    && open[t.l] == last
  }

  lemma Rejoin(w: Before, t: Stage, d: Shape, open: seq<Node>, last: Node, foster: bool)
    requires Underlying(w, t, d, open, last) && d[last].parent == null
    requires foster ==> Unnested(open, w.f - 1)
    ensures Locatable(d, open)
    ensures var l := AppropriateLocation(d, open, foster, open[w.f - 1]);
            && l.target in d && IsElement(l.target) && !IsAnc(d, last, l.target)
            && (l.index == -1 || 0 <= l.index < |d[l.target].children|)
    ensures forall r :: Joined(d, open, foster, open[w.f - 1], last, r) ==>
              Tree(r) && StackOK(r, w.document, open) && r.Keys == d.Keys
              && Reach(r, w.document) == Reach(w.d, w.document) + (d.Keys - w.d.Keys)
  {
    hide Tree, Reach, Attach, IsAnc;
    LocationFacts(d, w.document, open, foster, w.f - 1);
    var l := AppropriateLocation(d, open, foster, open[w.f - 1]);
    RejoinStep(d, w.document, open, Reach(w.d, w.document) + (d.Keys - w.d.Keys), w.f, t.s, t.l, t.b, l.target,
      if l.index == -1 then |d[l.target].children| else l.index);
  }

  // Step 15.
  method Reattach(p: Parser, ghost w: Before, ghost t: Stage, last: Node, ghost bookmark: nat, commonAncestor: Node)
    requires InLoop(p, w, t, last, bookmark) && commonAncestor == p.open[w.f - 1]
    requires p.foster ==> Unnested(p.open, w.f - 1)
    modifies p.nodes
    ensures Tree(ShapeOf(p.nodes)) && StackOK(ShapeOf(p.nodes), p.document, p.open)
    ensures p.Reached() == Reach(w.d, w.document) + (p.nodes - w.d.Keys)
    ensures old(last in p.nodes && Tree(ShapeOf(p.nodes)))
    ensures Joined(Detach(old(ShapeOf(p.nodes)), last), p.open, p.foster, commonAncestor, last, ShapeOf(p.nodes))
  {
    hide Tree, Ready, Walking, Moving, ListOK, Calm, Reach, Clones, Detach, Attach, AppropriateLocation, StackOK;
    ghost var d := ShapeOf(p.nodes);
    Next(w, t, d, p.open, p.formatting, last, bookmark);
    UnlinkLast(w, t, d, p.open, p.formatting, last, bookmark);
    LastParent(w, t, d, p.open, p.formatting, last, bookmark);
    RemoveFromParent(p.nodes, last);
    Rejoin(w, t, ShapeOf(p.nodes), p.open, last, p.foster);
    var location := p.GetLocation(commonAncestor);
    InsertNode(p.nodes, last, location);
  }

  // Steps 16 to 18 on the links.
  ghost predicate Wrapped(d: Shape, block: Node, c: Node, d': Shape)
  {
    && Tree(d) && block in d && c !in d && IsElement(c)
    && Tree(Add(d, c)) && Lone(Add(d, c), c) && d' == Wrap(Add(d, c), block, c)
  }

  method WrapBlock(p: Parser, formatting: Node, block: Node, ghost f: nat, ghost b: nat) returns (c: Node)
    requires Tree(ShapeOf(p.nodes)) && StackOK(ShapeOf(p.nodes), p.document, p.open)
    requires 1 <= f < b < |p.open| && formatting == p.open[f] && block == p.open[b]
    modifies p`nodes, p.nodes
    ensures fresh(c) && SameElement(c, formatting) && p.nodes == old(p.nodes) + {c}
    ensures Wrapped(old(ShapeOf(p.nodes)), block, c, ShapeOf(p.nodes))
    ensures Tree(ShapeOf(p.nodes)) && StackOK(ShapeOf(p.nodes), p.document, InsertAt(RemoveAt(p.open, f), b, c))
    ensures p.Reached() == old(p.Reached()) + {c}
  {
    hide Tree, Reach, Wrap, StackOK, InsertAt, RemoveAt, Lone;
    StackFacts(ShapeOf(p.nodes), p.document, p.open);
    c := CloneNode(formatting);
    ghost var d := ShapeOf(p.nodes);
    WrapStep(d, p.document, p.open, f, b, c);
    p.nodes := p.nodes + {c};
    assert ShapeOf(p.nodes) == Add(d, c);
    WrapChildren(p.nodes, block, c);
  }

  // What step 19 makes of the list.
  function Relisted(list: seq<Entry>, formatting: Node, anchor: Node, c: Node): (r: seq<Entry>)
  {
    if Formatting(formatting) !in list then list
    else
      var i := IndexOf(list, Formatting(formatting));
      var rest := RemoveAt(list, i);
      if anchor == formatting then InsertAt(rest, i, Formatting(c))
      else InsertAt(rest, IndexOf(rest, Formatting(anchor)) + 1, Formatting(c))
  }

  lemma Relist(nodes: set<Node>, list: seq<Entry>, formatting: Node, bookmark: nat, anchor: Node, c: Node)
    requires ListOK(nodes, list) && Formatting(formatting) in list && Booked(list, bookmark, anchor)
    requires c in nodes && Formatting(c) !in list && SameElement(c, formatting)
    ensures var i := IndexOf(list, Formatting(formatting));
            var k := if i < bookmark then bookmark - 1 else bookmark;
            && k <= |list| - 1 && Relisted(list, formatting, anchor, c) == InsertAt(RemoveAt(list, i), k, Formatting(c))
            && ListOK(nodes, RemoveAt(list, i)) && ListOK(nodes, Relisted(list, formatting, anchor, c))
  {
    hide ListOK, IndexOf, DistinctNames, RemoveAt, InsertAt, Relisted;
    var i := IndexOf(list, Formatting(formatting));
    ListedElement(nodes, list, i);
    ListRemove(nodes, list, i);
    var rest := RemoveAt(list, i);
    var k := if i < bookmark then bookmark - 1 else bookmark;
    ListInsert(nodes, rest, k, c);
    EntryIndex(nodes, list, bookmark - 1);
    if anchor != formatting {
      BookmarkMoves(list, bookmark, anchor, i);
      EntryIndex(nodes, rest, k - 1);
    }
    Relisting(list, formatting, anchor, c, k);
  }

  lemma Relisting(list: seq<Entry>, formatting: Node, anchor: Node, c: Node, k: nat)
    requires Formatting(formatting) in list && k < |list|
    requires var i := IndexOf(list, Formatting(formatting));
             k == if anchor == formatting then i else IndexOf(RemoveAt(list, i), Formatting(anchor)) + 1
    ensures Relisted(list, formatting, anchor, c)
            == InsertAt(RemoveAt(list, IndexOf(list, Formatting(formatting))), k, Formatting(c))
  {
    hide IndexOf, RemoveAt, InsertAt;
  }

  lemma EntryIndex(nodes: set<Node>, list: seq<Entry>, i: nat)
    requires ListOK(nodes, list) && i < |list| && list[i].Formatting?
    ensures IndexOf(list, list[i]) == i
  {
    assert list[i] in list;
  }

  lemma CalmRelisted(w: Before, nodes: set<Node>, open: seq<Node>, list: seq<Entry>, b: nat, bookmark: nat,
      anchor: Node, c: Node)
    requires w.f < |w.open| && w.f < b < |open| && open[w.f] == w.open[w.f] && Calm(w, open, list) && c !in w.d
    requires ListOK(nodes, list) && Formatting(open[w.f]) in list && Booked(list, bookmark, anchor)
    requires c in nodes && Formatting(c) !in list && SameElement(c, open[w.f])
    ensures Calm(w, InsertAt(RemoveAt(open, w.f), b, c), Relisted(list, open[w.f], anchor, c))
  {
    hide ListOK, IndexOf, DistinctNames, Calm, RemoveAt, InsertAt, Relisted;
    var i := IndexOf(list, Formatting(open[w.f]));
    Relist(nodes, list, open[w.f], bookmark, anchor, c);
    ListedElement(nodes, list, i);
    var k := if i < bookmark then bookmark - 1 else bookmark;
    CalmDrop(w, open, list, w.f);
    CalmUnlist(w, RemoveAt(open, w.f), list, i);
    CalmInsert(w, RemoveAt(open, w.f), RemoveAt(list, i), b, k, c);
  }

  // Steps 19 and 20.
  method ReplaceFormatting(p: Parser, formatting: Node, block: Node, c: Node, bookmark: nat, ghost anchor: Node,
      ghost f: nat, ghost b: nat)
    requires 1 <= f < b < |p.open| && formatting == p.open[f] && block == p.open[b]
    requires Distinct(p.open)
    requires ListOK(p.nodes, p.formatting) && Formatting(formatting) in p.formatting
    requires Booked(p.formatting, bookmark, anchor)
    requires c in p.nodes && Formatting(c) !in p.formatting && SameElement(c, formatting)
    modifies p`open, p`formatting
    ensures p.open == InsertAt(RemoveAt(old(p.open), f), b, c)
    ensures p.formatting == Relisted(old(p.formatting), formatting, anchor, c) && ListOK(p.nodes, p.formatting)
  {
    hide ListOK, IndexOf, Relisted, RemoveAt, InsertAt, Booked, SameElement;
    Relist(p.nodes, p.formatting, formatting, bookmark, anchor, c);
    BlockIndex(p.open, f, b);
    var insertionPoint := bookmark;
    var i := IndexOf(p.formatting, Formatting(formatting));
    if i < bookmark {
      insertionPoint := insertionPoint - 1;
    }
    p.formatting := RemoveAt(p.formatting, i);
    p.formatting := InsertAt(p.formatting, insertionPoint, Formatting(c));
    p.open := RemoveAt(p.open, IndexOf(p.open, formatting));
    var insertAt := 1 + IndexOf(p.open, block);
    p.open := InsertAt(p.open, insertAt, c);
  }

  lemma BlockIndex(open: seq<Node>, f: nat, b: nat)
    requires f < b < |open| && Distinct(open)
    ensures IndexOf(open, open[f]) == f && IndexOf(RemoveAt(open, f), open[b]) == b - 1
  {
    hide IndexOf, Distinct;
    OnlyAt(open, f);
    DistinctRest(open, f);
    OnlyAt(RemoveAt(open, f), b - 1);
  }

  lemma DistinctRest(open: seq<Node>, k: nat)
    requires Distinct(open) && k < |open|
    ensures Distinct(RemoveAt(open, k))
  {
  }

  // The stack after step 14.
  ghost function WalkedStack(w: Before, m: map<Node, Node>, gone: set<Node>): (r: seq<Node>)
    requires w.f < w.b < |w.open|
  {
    w.open[..w.f + 1] + Mid(w.open[w.f + 1..w.b], m, gone) + w.open[w.b..]
  }

  // One pass of the algorithm: which elements are cloned (m) or dropped from the
  // list (gone), and how links, stack and list follow from those before.
  ghost predicate Adopted(w: Before, foster: bool, m: map<Node, Node>, gone: set<Node>, joined: Shape, c: Node,
      d: Shape, open: seq<Node>, list: seq<Entry>)
  {
    && Tree(w.d) && Ready(w) && Fates(w, w.f + 1, m, gone)
    && var formatting, block := w.open[w.f], w.open[w.b];
       var mid := w.open[w.f + 1..w.b];
       var clones := Clones(mid, m);
       var last := Last(block, clones);
       && block in w.d && NewElements(w.d, clones) && c !in w.d && c !in clones && SameElement(c, formatting)
       && last in AdoptAll(w.d, block, clones)
       && Joined(Detach(AdoptAll(w.d, block, clones), last), WalkedStack(w, m, gone), foster,
            w.open[w.f - 1], last, joined)
       && Wrapped(joined, block, c, d)
       && open == w.open[..w.f] + Mid(mid, m, gone) + [block, c] + w.open[w.b + 1..]
       && list == Relisted(Subst(w.list, m, gone), formatting, Anchor(formatting, clones), c)
  }

  lemma Walked(w: Before, t: Stage, d: Shape, open: seq<Node>, list: seq<Entry>, last: Node, bookmark: nat)
    requires Underway(w, t, d, open, list, last, bookmark) && t.s == w.f + 1
    ensures 1 <= w.f < t.b < |open| && w.f < w.b < |w.open| && Fates(w, w.f + 1, t.m, t.gone)
    ensures open[w.f - 1] == w.open[w.f - 1] && open[..w.f] == w.open[..w.f] && open[w.f] == w.open[w.f]
    ensures open[t.b] == w.open[w.b]
    ensures open == WalkedStack(w, t.m, t.gone) && list == Subst(w.list, t.m, t.gone)
    ensures w.open[w.b] in w.d && NewElements(w.d, ClonesAt(w, t)) && d == AdoptAll(w.d, w.open[w.b], ClonesAt(w, t))
    ensures last == Last(w.open[w.b], ClonesAt(w, t)) && last in d
    ensures Formatting(w.open[w.f]) in list
    ensures Distinct(open)
    ensures Calm(w, open, list) && ListOK(d.Keys, list) && Booked(list, bookmark, Anchor(w.open[w.f], ClonesAt(w, t)))
  {
    hide Tree, Moving, ListOK, Calm, Clones, Mid, Subst, AdoptAll, NewElements, Fates, IndexOf, Booked;
    Next(w, t, d, open, list, last, bookmark);
    LastParent(w, t, d, open, list, last, bookmark);
    NotYet(w, t.s, t.m, t.gone);
    StackStep(w, t.s, t.m, t.gone, open, open[0]);
  }

  lemma FinalStack(w: Before, m: map<Node, Node>, gone: set<Node>, b: nat, c: Node)
    requires w.f < w.b < |w.open| && w.f < b < |WalkedStack(w, m, gone)| && WalkedStack(w, m, gone)[b] == w.open[w.b]
    requires Distinct(WalkedStack(w, m, gone))
    ensures InsertAt(RemoveAt(WalkedStack(w, m, gone), w.f), b, c)
            == w.open[..w.f] + Mid(w.open[w.f + 1..w.b], m, gone) + [w.open[w.b], c] + w.open[w.b + 1..]
  {
    hide Mid;
    var mid, o := Mid(w.open[w.f + 1..w.b], m, gone), WalkedStack(w, m, gone);
    var k := w.f + 1 + |mid|;
    assert o[k] == w.open[w.b];
    assert b == k;
    assert w.open[..w.f + 1] == w.open[..w.f] + [w.open[w.f]];
    assert w.open[w.b..] == [w.open[w.b]] + w.open[w.b + 1..];
    Rearranged(w.open[..w.f], w.open[w.f], mid, w.open[w.b], w.open[w.b + 1..], c);
  }

  lemma Rearranged<T>(low: seq<T>, f: T, mid: seq<T>, b: T, high: seq<T>, c: T)
    ensures InsertAt(RemoveAt((low + [f]) + mid + ([b] + high), |low|), |low| + 1 + |mid|, c)
            == low + mid + [b, c] + high
  {
    assert RemoveAt((low + [f]) + mid + ([b] + high), |low|) == low + mid + [b] + high;
  }

  // Steps 12 to 15.
  method MoveBlock(p: Parser, ghost w: Before, formatting: Node, block: Node, f: nat)
    returns (bookmark: nat, ghost t: Stage)
    requires p.Valid() && Ready(w) && w == Before(ShapeOf(p.nodes), p.document, p.open, p.formatting, f, w.b)
    requires formatting == w.open[w.f] && block == w.open[w.b]
    requires p.foster ==> Unnested(p.open, f - 1)
    modifies p`nodes, p`open, p`formatting, p.nodes
    ensures fresh(p.nodes - old(p.nodes)) && old(p.nodes) <= p.nodes
    ensures Tree(ShapeOf(p.nodes)) && StackOK(ShapeOf(p.nodes), p.document, p.open)
    ensures p.Reached() == Reach(w.d, w.document) + (p.nodes - w.d.Keys)
    ensures Moved(w, t, p.foster, ShapeOf(p.nodes), p.open, p.formatting, bookmark)
  {
    hide Tree, Reach, StackOK, ListOK, Mid, Subst, Clones, Fates, AdoptAll, NewElements, Joined,
         Unnested, Calm, Booked, Detach, IndexOf, Underway, Last, Anchor, WalkedStack;
    var commonAncestor := p.open[f - 1];
    var last;
    last, bookmark, t := WalkDown(p, w, formatting, block);
    ghost var d := ShapeOf(p.nodes);
    Walked(w, t, d, p.open, p.formatting, last, bookmark);
    Calmed(w, p.open, p.formatting);
    Reattach(p, w, t, last, bookmark, commonAncestor);
    assert d.Keys == p.nodes;
  }

  // The result of step 15, before the block's children are wrapped.
  ghost predicate Moved(w: Before, t: Stage, foster: bool, joined: Shape, open: seq<Node>, list: seq<Entry>,
      bookmark: nat)
  {
    && Tree(w.d) && Ready(w) && Fates(w, w.f + 1, t.m, t.gone) && t.s == w.f + 1 && w.f < w.b < |w.open|
    && var clones := Clones(w.open[w.f + 1..w.b], t.m);
       var last := Last(w.open[w.b], clones);
       && w.open[w.b] in w.d && NewElements(w.d, clones)
       && last in AdoptAll(w.d, w.open[w.b], clones)
       && joined.Keys == AdoptAll(w.d, w.open[w.b], clones).Keys
       && Joined(Detach(AdoptAll(w.d, w.open[w.b], clones), last), WalkedStack(w, t.m, t.gone), foster,
            w.open[w.f - 1], last, joined)
       && open == WalkedStack(w, t.m, t.gone) && list == Subst(w.list, t.m, t.gone)
       && w.f < t.b < |open| && open[t.b] == w.open[w.b] && open[w.f] == w.open[w.f]
       && Distinct(open)
       && Formatting(w.open[w.f]) in list && Booked(list, bookmark, Anchor(w.open[w.f], clones))
       && ListOK(joined.Keys, list) && Calm(w, open, list)
  }

  lemma Calmed(w: Before, open: seq<Node>, list: seq<Entry>)
    requires Calm(w, open, list) && 1 <= w.f
    ensures Unnested(w.open, w.f - 1) ==> Unnested(open, w.f - 1)
  {
  }

  // The clone of the formatting element is new to the list and to the clones.
  lemma NewToAll(w: Before, t: Stage, foster: bool, joined: Shape, open: seq<Node>, list: seq<Entry>, bookmark: nat,
      c: Node)
    requires Moved(w, t, foster, joined, open, list, bookmark) && c !in joined
    ensures c !in w.d && c !in Clones(w.open[w.f + 1..w.b], t.m) && Formatting(c) !in list
  {
    hide Tree, Ready, Fates, Clones, NewElements, Joined, WalkedStack, Subst, IndexOf, Booked, Calm, Last;
  }

  // Steps 16 to 20.
  method WrapAndReplace(p: Parser, ghost w: Before, ghost t: Stage, formatting: Node, block: Node, bookmark: nat)
    returns (c: Node)
    requires Tree(ShapeOf(p.nodes)) && StackOK(ShapeOf(p.nodes), p.document, p.open) && p.root != null
    requires Moved(w, t, p.foster, ShapeOf(p.nodes), p.open, p.formatting, bookmark) && w.f >= 1
    requires formatting == p.open[w.f] && block == p.open[t.b]
    modifies p`nodes, p`open, p`formatting, p.nodes
    ensures fresh(c) && p.nodes == old(p.nodes) + {c}
    ensures Tree(ShapeOf(p.nodes)) && StackOK(ShapeOf(p.nodes), p.document, p.open)
    ensures ListOK(p.nodes, p.formatting) && p.Reached() == old(p.Reached()) + {c}
    ensures Adopted(w, p.foster, t.m, t.gone, old(ShapeOf(p.nodes)), c, ShapeOf(p.nodes), p.open, p.formatting)
    ensures Calm(w, p.open, p.formatting)
  {
    hide Tree, Reach, StackOK, ListOK, Relisted, RemoveAt, InsertAt, Clones, Wrapped, Calm, Booked, IndexOf, Anchor,
         SameElement, Moved, Adopted;
    ghost var joined := ShapeOf(p.nodes);
    MovedFacts(w, t, p.foster, joined, p.open, p.formatting, bookmark);
    ghost var anchor := Anchor(formatting, Clones(w.open[w.f + 1..w.b], t.m));
    c := WrapBlock(p, formatting, block, w.f, t.b);
    NewToAll(w, t, p.foster, joined, p.open, p.formatting, bookmark, c);
    ListGrows(joined.Keys, p.nodes, p.formatting);
    CalmRelisted(w, p.nodes, p.open, p.formatting, t.b, bookmark, anchor, c);
    AdoptedNow(w, t, p.foster, joined, p.open, p.formatting, bookmark, c, ShapeOf(p.nodes));
    ReplaceFormatting(p, formatting, block, c, bookmark, anchor, w.f, t.b);
  }

  lemma AdoptedNow(w: Before, t: Stage, foster: bool, joined: Shape, open: seq<Node>, list: seq<Entry>,
      bookmark: nat, c: Node, d: Shape)
    requires Moved(w, t, foster, joined, open, list, bookmark) && c !in joined
    requires Wrapped(joined, w.open[w.b], c, d) && SameElement(c, w.open[w.f])
    ensures Adopted(w, foster, t.m, t.gone, joined, c, d, InsertAt(RemoveAt(open, w.f), t.b, c),
              Relisted(list, w.open[w.f], Anchor(w.open[w.f], Clones(w.open[w.f + 1..w.b], t.m)), c))
  {
    hide Tree, Ready, ListOK, Relisted, RemoveAt, InsertAt, Mid, Subst, Clones, Fates, AdoptAll, NewElements,
         Joined, Wrapped, Calm, Booked, Detach, IndexOf, Last, Anchor, WalkedStack, SameElement;
    NewToAll(w, t, foster, joined, open, list, bookmark, c);
    FinalStack(w, t.m, t.gone, t.b, c);
  }

  // Steps 12 to 20.
  method AdoptBlock(p: Parser, formatting: Node, block: Node, f: nat, ghost b: nat, ghost subject: Tag)
    returns (ghost m: map<Node, Node>, ghost gone: set<Node>, ghost joined: Shape, ghost c: Node)
    requires p.Valid() && 1 <= f < b < |p.open| && formatting == p.open[f] && block == p.open[b]
    requires Formatting(formatting) in p.formatting && Formatting(block) !in p.formatting
    requires IsHtml(formatting, subject) && Active(p.formatting, formatting)
    requires p.foster ==> Sheltered(p.open, p.formatting, subject)
    modifies p`nodes, p`open, p`formatting, p.nodes
    ensures p.Valid() && fresh(p.nodes - old(p.nodes)) && p.Conserves(old(p.nodes), old(p.Reached()))
    ensures p.foster ==> Sheltered(p.open, p.formatting, subject)
    ensures Adopted(Before(old(ShapeOf(p.nodes)), p.document, old(p.open), old(p.formatting), f, b), p.foster,
              m, gone, joined, c,
              ShapeOf(p.nodes), p.open, p.formatting)
  {
    hide Tree, Reach, StackOK, ListOK, Mid, Subst, Clones, Active, Unnested, Calm, Moved, Adopted;
    ghost var w := Before(ShapeOf(p.nodes), p.document, p.open, p.formatting, f, b);
    assert w.d.Keys == p.nodes;
    var bookmark;
    ghost var t;
    bookmark, t := MoveBlock(p, w, formatting, block, f);
    m, gone, joined := t.m, t.gone, ShapeOf(p.nodes);
    MovedFacts(w, t, p.foster, joined, p.open, p.formatting, bookmark);
    var clone := WrapAndReplace(p, w, t, formatting, block, bookmark);
    c := clone;
    if p.foster {
      AdoptedPrefix(w, p.foster, m, gone, joined, c, ShapeOf(p.nodes), p.open, p.formatting);
      hide Sheltered;
      StillSheltered(w, p.open, p.formatting, subject);
    }
  }

  lemma MovedFacts(w: Before, t: Stage, foster: bool, joined: Shape, open: seq<Node>, list: seq<Entry>, bookmark: nat)
    requires Moved(w, t, foster, joined, open, list, bookmark)
    ensures w.f < w.b < |w.open| && w.f < t.b < |open| && open[w.f] == w.open[w.f] && open[t.b] == w.open[w.b]
    ensures Distinct(open)
    ensures Formatting(w.open[w.f]) in list
    ensures Booked(list, bookmark, Anchor(w.open[w.f], Clones(w.open[w.f + 1..w.b], t.m)))
    ensures ListOK(joined.Keys, list) && Calm(w, open, list)
  {
    hide Tree, Ready, Fates, ListOK, Mid, Subst, Clones, AdoptAll, NewElements, Joined, Calm, Booked, Detach, IndexOf,
         WalkedStack;
  }

  lemma AdoptedPrefix(w: Before, foster: bool, m: map<Node, Node>, gone: set<Node>, joined: Shape, c: Node,
      d: Shape, open: seq<Node>, list: seq<Entry>)
    requires Adopted(w, foster, m, gone, joined, c, d, open, list)
    ensures w.f <= |open| && open[..w.f] == w.open[..w.f]
  {
  }
}
