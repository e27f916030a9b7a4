/** The appropriate place for inserting a node, told from the stack and the tree:
    directly before the last open table when foster parenting applies
    (get_appropriate_insertion_location, gumbo-parser/src/parser.c). */
module InsertionPlace {
  import opened Attributes
  import opened Tags
  import opened Dom
  import opened OpenElements

  predicate NoneAbove(open: seq<Node>, tag: Tag, t: int)
  {
    forall j :: t < j < |open| && 0 <= j ==> !IsHtml(open[j], tag)
  }

  // The last open element with the tag.
  predicate Topmost(open: seq<Node>, tag: Tag, t: int)
  {
    0 <= t < |open| && IsHtml(open[t], tag) && NoneAbove(open, tag, t)
  }

  // The place in each of the cases of the standard. A place with an index is
  // the one directly before the node that stands there.
  ghost predicate IsPlace(d: Shape, open: seq<Node>, foster: bool, target: Node, l: Location)
  {
    if !foster || !IsTablePart(target) then l == Location(target, -1)
    else
      && (forall t :: Topmost(open, TEMPLATE, t) && NoneAbove(open, TABLE, t) ==> l == Location(open[t], -1))
      && (NoneAbove(open, TEMPLATE, -1) && NoneAbove(open, TABLE, -1) && open != [] ==> l == Location(open[0], -1))
      && forall t :: Topmost(open, TABLE, t) && NoneAbove(open, TEMPLATE, t) ==> BeforeTable(d, open, t, l)
  }

  ghost predicate BeforeTable(d: Shape, open: seq<Node>, t: nat, l: Location)
    requires t < |open|
  {
    open[t] in d
    && if d[open[t]].parent == null then t > 0 && l == Location(open[t - 1], -1)
       else
         && l.target == d[open[t]].parent && l.target in d
         && 0 <= l.index < |d[l.target].children| && d[l.target].children[l.index] == open[t]
  }

  lemma AppropriateIs(d: Shape, open: seq<Node>, foster: bool, target: Node)
    requires Tree(d) && |open| > 0 && IsHtml(open[0], HTML) && forall i :: 0 <= i < |open| ==> open[i] in d
    ensures IsPlace(d, open, foster, target, AppropriateLocation(d, open, foster, target))
  {
    hide Tree;
    forall t | Topmost(open, TABLE, t) ensures LastIndex(open, TABLE) == t && NodeIn(d, open[t]) {
      TreeNode(d, open[t]);
    }
    forall t | Topmost(open, TEMPLATE, t) ensures LastIndex(open, TEMPLATE) == t {}
  }

  ghost predicate NodeIn(d: Shape, n: Node)
  {
    n in d && NodeOK(d, n)
  }

  lemma TreeNode(d: Shape, n: Node)
    requires Tree(d) && n in d
    ensures NodeIn(d, n)
  {
  }

  // The links r are the links d with c as the last child of p.
  ghost predicate PutLast(d: Shape, p: Node, c: Node, r: Shape)
  {
    && p in d && p in r && c in r && r[c].parent == p && r[c].index == |d[p].children|
    && r[p].children == d[p].children + [c]
    && forall n :: n in d && n != p ==> n in r && r[n].children == d[n].children
  }

  // The links r are the links d with c as the previous sibling of x.
  ghost predicate PutBefore(d: Shape, x: Node, c: Node, r: Shape)
  {
    && x in d && x in r && c in r && d[x].parent != null
    && var p, k := d[x].parent, d[x].index;
       && p in d && p in r && r[c].parent == r[x].parent == p && 0 <= k < |d[p].children|
       && r[c].index == k && r[x].index == k + 1
       && r[p].children == d[p].children[..k] + [c, x] + d[p].children[k + 1..]
       && forall n :: n in d && n != p ==> n in r && r[n].children == d[n].children
  }

  // What inserting c comes to, for the stack and the current node.
  ghost predicate Put(d: Shape, open: seq<Node>, foster: bool, target: Node, c: Node, r: Shape)
  {
    if !foster || !IsTablePart(target) then PutLast(d, target, c, r)
    else
      && (forall t :: Topmost(open, TEMPLATE, t) && NoneAbove(open, TABLE, t) ==> PutLast(d, open[t], c, r))
      && (NoneAbove(open, TEMPLATE, -1) && NoneAbove(open, TABLE, -1) && open != [] ==> PutLast(d, open[0], c, r))
      && forall t :: Topmost(open, TABLE, t) && NoneAbove(open, TEMPLATE, t) ==>
           open[t] in d
           && if d[open[t]].parent == null then t > 0 && PutLast(d, open[t - 1], c, r) else PutBefore(d, open[t], c, r)
  }

  lemma InsertedLast(d: Shape, c: Node, p: Node)
    requires Tree(d) && c !in d && p in d
    ensures PutLast(d, p, c, Inserted(d, c, Location(p, -1)))
  {
    hide IsAnc, Tree;
    AddTree(d, c);
    var ch := d[p].children;
    assert ch[..|ch|] + [c] + ch[|ch|..] == ch + [c];
  }

  lemma InsertedBefore(d: Shape, c: Node, x: Node)
    requires Tree(d) && c !in d && x in d && d[x].parent != null && d[x].parent in d
    requires 0 <= d[x].index < |d[d[x].parent].children|
    ensures PutBefore(d, x, c, Inserted(d, c, Location(d[x].parent, d[x].index)))
  {
    hide IsAnc;
    AddTree(d, c);
    assert NodeOK(d, x);
    hide Tree;
    var ch, k := d[d[x].parent].children, d[x].index;
    assert ch[k..] == [x] + ch[k + 1..];
    assert ch[..k] + [c] + ch[k..] == ch[..k] + [c, x] + ch[k + 1..];
  }

  lemma InsertedIsPut(d: Shape, open: seq<Node>, foster: bool, target: Node, c: Node)
    requires Tree(d) && c !in d && |open| > 0 && IsHtml(open[0], HTML) && forall i :: 0 <= i < |open| ==> open[i] in d
    requires target in d
    ensures var l := AppropriateLocation(d, open, foster, target);
            && l.target in d && (l.index == -1 || 0 <= l.index <= |d[l.target].children|)
            && Put(d, open, foster, target, c, Inserted(d, c, l))
  {
    hide Inserted, Tree, PutLast, PutBefore;
    AppropriateIs(d, open, foster, target);
    var l := AppropriateLocation(d, open, foster, target);
    if foster && IsTablePart(target) && LastIndex(open, TABLE) >= 0 {
      var x := open[LastIndex(open, TABLE)];
      TreeNode(d, x);
      if l.index != -1 {
        InsertedBefore(d, c, x);
        return;
      }
    }
    InsertedLast(d, c, l.target);
  }
}
