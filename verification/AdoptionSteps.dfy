/** The steps of the adoption agency algorithm on values: what each does to the
    links, to the stack of open elements and to reachability. */
module AdoptionSteps {
  import opened Attributes
  import opened Tags
  import opened Dom
  import opened OpenElements

  // Step 14 at work. The stack has been walked down from the furthest block to
  // position s, above the formatting element at f. The subtree of `last`, the
  // open element at l, is what will be moved; it holds the furthest block at b.
  // Everything once reachable can be reached from the document or from `last`.
  ghost predicate Moving(d: Shape, document: Node, open: seq<Node>, reach: set<Node>, f: nat, s: nat, l: nat, b: nat)
  {
    && Tree(d) && StackShape(d, document, open)
    && 1 <= f < s <= l <= b < |open|
    && (forall i :: 0 <= i < l ==> IsAnc(d, document, open[i]))
    && (forall i :: 0 <= i < |open| ==> open[i] in reach)
    && IsAnc(d, open[l], open[b])
    && reach <= d.Keys && (forall n :: n in d ==> (n in reach <==> IsAnc(d, document, n) || IsAnc(d, open[l], n)))
  }

  lemma StartMoving(d: Shape, document: Node, open: seq<Node>, f: nat, b: nat)
    requires Tree(d) && StackOK(d, document, open) && 1 <= f < b < |open|
    ensures Moving(d, document, open, Reach(d, document), f, b, b, b)
  {
    forall n | n in d && IsAnc(d, open[b], n) ensures IsAnc(d, document, n) {
      AncTrans(d, document, open[b], n);
    }
  }

  // Step 14.6: an element that is not a formatting element leaves the stack.
  lemma DropStep(d: Shape, document: Node, open: seq<Node>, reach: set<Node>, f: nat, s: nat, l: nat, b: nat)
    requires Moving(d, document, open, reach, f, s, l, b) && f < s - 1
    ensures Moving(d, document, RemoveAt(open, s - 1), reach, f, s - 1, l - 1, b - 1)
    ensures RemoveAt(open, s - 1)[l - 1] == open[l] && RemoveAt(open, s - 1)[b - 1] == open[b]
  {
    var o := RemoveAt(open, s - 1);
    forall i, j | 0 <= i < j < |o| ensures !IsAnc(d, o[j], o[i]) {
      assert o[i] == open[if i < s - 1 then i else i + 1] && o[j] == open[if j < s - 1 then j else j + 1];
    }
  }

  lemma NotAbove(d: Shape, document: Node, open: seq<Node>, l: nat)
    requires Tree(d) && StackShape(d, document, open) && l < |open|
    ensures !IsAnc(d, open[l], document)
  {
    assert NodeOK(d, document);
  }

  // Steps 14.7 to 14.10: a clone takes the element's place on the stack and
  // adopts the subtree being moved.
  lemma AdoptStep(d: Shape, document: Node, open: seq<Node>, reach: set<Node>, f: nat, s: nat, l: nat, b: nat, c: Node)
    requires Moving(d, document, open, reach, f, s, l, b) && f < s - 1
    requires c !in d && IsElement(c)
    ensures Moving(Adopt(d, open[l], c), document, open[s - 1 := c], reach + {c}, f, s - 1, s - 1, b)
  {
    var x := open[l];
    NotAbove(d, document, open, l);
    hide IsAnc, Adopt;
    AdoptTree(d, x, c);
    AdoptOrder(d, open, s - 1, l, c);
    var r, o := Adopt(d, x, c), open[s - 1 := c];
    forall n | n in r ensures n in reach + {c} <==> IsAnc(r, document, n) || IsAnc(r, c, n) {
      AdoptAnc(d, x, c, document, n);
      AdoptAnc(d, x, c, c, n);
    }
    forall i | 0 <= i < s - 1 ensures IsAnc(r, document, o[i]) {
      AdoptAnc(d, x, c, document, open[i]);
    }
    AdoptAnc(d, x, c, c, open[b]);
  }

  // Step 15, first half: the subtree is unlinked, if the loop made no clone.
  lemma UnlinkStep(d: Shape, document: Node, open: seq<Node>, reach: set<Node>, f: nat, s: nat, l: nat, b: nat)
    requires Moving(d, document, open, reach, f, s, l, b)
    ensures Moving(Detach(d, open[l]), document, open, reach, f, s, l, b)
    ensures Detach(d, open[l])[open[l]].parent == null
  {
    var x := open[l];
    var r := Detach(d, x);
    DetachTree(d, x);
    DetachOrder(d, open, x);
    assert !IsAnc(d, x, document) by { assert NodeOK(d, document); }
    forall n | n in r ensures n in reach <==> IsAnc(r, document, n) || IsAnc(r, x, n) {
      DetachAnc(d, x, document, n);
      DetachAnc(d, x, x, n);
    }
    forall i | 0 <= i < l ensures IsAnc(r, document, open[i]) {
      DetachAnc(d, x, document, open[i]);
    }
    DetachAnc(d, x, x, open[b]);
  }

  // Step 15, second half: the subtree is inserted at a place outside of it.
  lemma RejoinStep(d: Shape, document: Node, open: seq<Node>, reach: set<Node>, f: nat, s: nat, l: nat,
      b: nat, p: Node, i: nat)
    requires Moving(d, document, open, reach, f, s, l, b) && d[open[l]].parent == null
    requires p in d && p != document && IsElement(p) && IsAnc(d, document, p) && i <= |d[p].children|
    requires forall j :: f - 1 < j < |open| ==> !IsAnc(d, open[j], p)
    ensures !IsAnc(d, open[l], p)
    ensures var r := Attach(d, open[l], p, i);
            Tree(r) && StackOK(r, document, open) && Reach(r, document) == reach
  {
    var x := open[l];
    AttachTree(d, x, p, i);
    AttachOrder(d, open, x, p, i);
    var r := Attach(d, x, p, i);
    forall n | n in r ensures n in reach <==> IsAnc(r, document, n) {
      AttachAnc(d, x, p, i, document, n);
    }
  }

  // Steps 16 to 18 and 20: the formatting element's clone comes between the
  // furthest block and its children, and takes its place on the stack after it.
  lemma WrapStep(d: Shape, document: Node, open: seq<Node>, f: nat, b: nat, c: Node)
    requires Tree(d) && StackOK(d, document, open) && 1 <= f < b < |open|
    requires c !in d && IsElement(c)
    ensures Tree(Add(d, c)) && Lone(Add(d, c), c)
    ensures var r := Wrap(Add(d, c), open[b], c);
            && Tree(r) && r.Keys == d.Keys + {c}
            && StackOK(r, document, InsertAt(RemoveAt(open, f), b, c))
            && Reach(r, document) == Reach(d, document) + {c}
  {
    hide IsAnc;
    var e, x := Add(d, c), open[b];
    AddTree(d, c);
    WrapTree(e, x, c);
    var r, o := Wrap(e, x, c), InsertAt(RemoveAt(open, f), b, c);
    forall n, a | n in r
      ensures IsAnc(r, a, n) <==>
              if n == c then a == c || IsAnc(d, a, x) else if a == c then n != x && IsAnc(d, x, n) else IsAnc(d, a, n)
    {
      WrapAnc(e, x, c, a, n);
      AddAnc(d, c, a, n);
      AddAnc(d, c, a, x);
      AddAnc(d, c, x, n);
    }
    WrapOrder(d, r, open, f, b, c);
    forall i | 0 <= i < |o| ensures o[i] in r && IsElement(o[i]) && IsAnc(r, document, o[i]) {
      if i != b { assert o[i] == open[if i < f then i else if i < b then i + 1 else i]; }
    }
    assert r[x].parent == d[x].parent by { assert NodeOK(d, x); }
  }

  lemma WrapOrder(d: Shape, r: Shape, open: seq<Node>, f: nat, b: nat, c: Node)
    requires Tree(d) && Tree(r) && r.Keys == d.Keys + {c} && c !in d && f < b < |open|
    requires (forall i :: 0 <= i < |open| ==> open[i] in d) && Ordered(d, open)
    requires forall n, a :: n in r ==>
               (IsAnc(r, a, n) <==>
                if n == c then a == c || IsAnc(d, a, open[b])
                else if a == c then n != open[b] && IsAnc(d, open[b], n)
                else IsAnc(d, a, n))
    ensures Ordered(r, InsertAt(RemoveAt(open, f), b, c))
  {
    var o := InsertAt(RemoveAt(open, f), b, c);
    forall i, j | 0 <= i < j < |o| ensures !IsAnc(r, o[j], o[i]) {
      var i' := if i < f then i else if i < b then i + 1 else i;
      var j' := if j < f then j else if j < b then j + 1 else j;
      assert i != b ==> o[i] == open[i'];
      assert j != b ==> o[j] == open[j'];
    }
  }
}
