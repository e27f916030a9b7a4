/** The stack of open elements and the list of active formatting elements of
    gumbo-parser/src/parser.c, as values, and what keeps them consistent with
    the DOM. */
module OpenElements {
  import opened Attributes
  import opened Dom
  import opened Tags

  datatype Entry = Marker | Formatting(node: Node)

  predicate IsHtml(n: Node, tag: Tag)
  {
    n.ns == Html && n.tag == tag
  }

  predicate IsTablePart(n: Node)
  {
    IsElement(n) && IsTablePartTag(n.ns, n.tag)
  }

  // No open element is a descendant of a later one; in particular they differ.
  ghost predicate Ordered(d: Shape, open: seq<Node>)
    requires Tree(d) && forall i :: 0 <= i < |open| ==> open[i] in d
  {
    forall i, j :: 0 <= i < j < |open| ==> !IsAnc(d, open[j], open[i])
  }

  // The stack without the demand that every element hang in the document.
  ghost predicate StackShape(d: Shape, document: Node, open: seq<Node>)
    requires Tree(d)
  {
    && document in d && document.kind == Document && d[document].parent == null
    && (forall n :: n in d && n.kind == Document ==> n == document)
    && |open| > 0 && IsHtml(open[0], HTML)
    && (forall i :: 0 <= i < |open| ==> open[i] in d && IsElement(open[i]))
    && (forall i :: 0 < i < |open| ==> d[open[i]].parent != document)
    && Ordered(d, open)
  }

  ghost predicate StackOK(d: Shape, document: Node, open: seq<Node>)
    requires Tree(d)
  {
    StackShape(d, document, open) && forall i :: 0 <= i < |open| ==> IsAnc(d, document, open[i])
  }

  predicate Distinct<T(==)>(s: seq<T>)
  {
    forall i, j :: 0 <= i < j < |s| ==> s[i] != s[j]
  }

  predicate IsFormattingElement(n: Node)
  {
    n.ns == Html && IsFormattingTag(n.tag)
  }

  // Entries are elements of the document, each listed once.
  ghost predicate ListOK(nodes: set<Node>, list: seq<Entry>)
  {
    && (forall i :: 0 <= i < |list| && list[i].Formatting?
          ==> list[i].node in nodes && list[i].node.kind == Element && IsFormattingElement(list[i].node)
              && DistinctNames(list[i].node.attrs))
    && (forall i, j :: 0 <= i < j < |list| && list[i].Formatting? && list[j].Formatting? ==>
          list[i].node != list[j].node)
  }

  lemma ListReplace(nodes: set<Node>, list: seq<Entry>, i: nat, c: Node)
    requires ListOK(nodes, list) && i < |list| && list[i].Formatting? && c !in nodes && SameElement(c, list[i].node)
    ensures ListOK(nodes + {c}, list[i := Formatting(c)])
  {
  }

  lemma ListInsert(nodes: set<Node>, list: seq<Entry>, i: nat, c: Node)
    requires ListOK(nodes, list) && i <= |list| && c in nodes && Formatting(c) !in list
    requires c.kind == Element && IsFormattingElement(c) && DistinctNames(c.attrs)
    ensures ListOK(nodes, InsertAt(list, i, Formatting(c)))
  {
    var r := InsertAt(list, i, Formatting(c));
    hide IsFormattingElement, DistinctNames;
    forall j | 0 <= j < |r| && j != i ensures r[j] == list[if j < i then j else j - 1] && r[j] in list {}
  }

  lemma ListGrows(nodes: set<Node>, more: set<Node>, list: seq<Entry>)
    requires ListOK(nodes, list) && nodes <= more
    ensures ListOK(more, list)
  {
  }

  lemma ListedElement(nodes: set<Node>, list: seq<Entry>, i: nat)
    requires ListOK(nodes, list) && i < |list| && list[i].Formatting?
    ensures list[i].node in nodes && list[i].node.kind == Element && IsFormattingElement(list[i].node)
    ensures DistinctNames(list[i].node.attrs)
  {
  }

  // Index of the last open HTML element with the tag, or -1.
  function LastIndex(open: seq<Node>, tag: Tag): (i: int)
    ensures -1 <= i < |open|
    ensures i >= 0 ==> IsHtml(open[i], tag)
    ensures forall j :: i < j < |open| ==> !IsHtml(open[j], tag)
  {
    if open == [] then -1
    else if IsHtml(open[|open| - 1], tag) then |open| - 1
    else LastIndex(open[..|open| - 1], tag)
  }

  // get_appropriate_insertion_location, once there is a root element.
  ghost function AppropriateLocation(d: Shape, open: seq<Node>, foster: bool, target: Node): (l: Location)
    requires |open| > 0 && IsHtml(open[0], HTML) && forall i :: 0 <= i < |open| ==> open[i] in d
  {
    if !foster || !IsTablePart(target) then Location(target, -1)
    else
      var template, table := LastIndex(open, TEMPLATE), LastIndex(open, TABLE);
      if template != -1 && (table == -1 || template > table) then Location(open[template], -1)
      else if table == -1 then Location(open[0], -1)
      else if d[open[table]].parent != null then Location(d[open[table]].parent, d[open[table]].index)
      else Location(open[table - 1], -1)
  }

  predicate TableOrTemplate(n: Node)
  {
    IsHtml(n, TABLE) || IsHtml(n, TEMPLATE)
  }

  // The location for an open element lies outside the subtrees of the elements
  // opened after it, provided foster parenting finds its table below them.
  lemma LocationFacts(d: Shape, document: Node, open: seq<Node>, foster: bool, c: nat)
    requires Tree(d) && StackShape(d, document, open) && c < |open|
    requires forall i :: 0 <= i <= c ==> IsAnc(d, document, open[i])
    requires foster && IsTablePart(open[c]) ==> forall j :: c < j < |open| ==> !TableOrTemplate(open[j])
    ensures var l := AppropriateLocation(d, open, foster, open[c]);
            && l.target in d && l.target != document && IsElement(l.target) && IsAnc(d, document, l.target)
            && (l.index == -1 || 0 <= l.index < |d[l.target].children|)
            && forall j :: c < j < |open| ==> !IsAnc(d, open[j], l.target)
  {
    var l := AppropriateLocation(d, open, foster, open[c]);
    if foster && IsTablePart(open[c]) {
      var template, table := LastIndex(open, TEMPLATE), LastIndex(open, TABLE);
      if (template == -1 || (table != -1 && template <= table)) && table != -1 {
        var t := open[table];
        assert table > 0;
        assert NodeOK(d, t);
        assert d[t].parent != null && NodeOK(d, d[t].parent);
        assert IsAnc(d, document, d[t].parent);
        forall j | c < j < |open| ensures !IsAnc(d, open[j], l.target) {
          assert !IsAnc(d, open[j], t);
        }
      }
    }
  }

  // Attaching a subtree keeps the order of the stack when no open element of
  // the subtree precedes an open ancestor of its new parent.
  lemma AttachOrder(d: Shape, open: seq<Node>, x: Node, p: Node, i: nat)
    requires Tree(d) && x in d && p in d && i <= |d[p].children| && d[x].parent == null && IsContainer(p)
    requires !IsAnc(d, x, p)
    requires Tree(Attach(d, x, p, i))
    requires (forall k :: 0 <= k < |open| ==> open[k] in d) && Ordered(d, open)
    requires forall k, j :: 0 <= k < j < |open| ==> !(IsAnc(d, x, open[k]) && IsAnc(d, open[j], p))
    ensures Ordered(Attach(d, x, p, i), open)
  {
    forall k, j | 0 <= k < j < |open| ensures !IsAnc(Attach(d, x, p, i), open[j], open[k]) {
      AttachAnc(d, x, p, i, open[j], open[k]);
    }
  }

  lemma DetachOrder(d: Shape, open: seq<Node>, x: Node)
    requires Tree(d) && x in d && Tree(Detach(d, x))
    requires (forall k :: 0 <= k < |open| ==> open[k] in d) && Ordered(d, open)
    ensures Ordered(Detach(d, x), open)
  {
    forall k, j | 0 <= k < j < |open| ensures !IsAnc(Detach(d, x), open[j], open[k]) {
      DetachAnc(d, x, open[j], open[k]);
    }
  }

  // A new node c, attached at p, can be pushed on the stack.
  lemma PushNew(d: Shape, document: Node, open: seq<Node>, c: Node, p: Node, i: nat)
    requires Tree(d) && StackOK(d, document, open) && c !in d && c.kind != Document
    requires p in d && p != document && IsContainer(p) && IsAnc(d, document, p) && i <= |d[p].children|
    ensures Tree(Add(d, c)) && !IsAnc(Add(d, c), c, p)
    ensures var r := Attach(Add(d, c), c, p, i);
            && Tree(r) && StackOK(r, document, open)
            && (IsElement(c) ==> StackOK(r, document, open + [c]))
            && (forall n :: n in d ==> (IsAnc(r, document, n) <==> IsAnc(d, document, n))) && IsAnc(r, document, c)
  {
    var e := Add(d, c);
    AddTree(d, c);
    AddAnc(d, c, c, p);
    assert NodeOK(d, p);
    var r := Attach(e, c, p, i);
    AttachTree(e, c, p, i);
    forall a, n | (n in d || n == c)
      ensures IsAnc(r, a, n) <==> if n == c then a == c || IsAnc(d, a, p) else IsAnc(d, a, n)
    {
      AttachAnc(e, c, p, i, a, n);
      AddAnc(d, c, a, n);
      AddAnc(d, c, c, n);
      AddAnc(d, c, a, p);
    }
    var open' := open + [c];
    forall k, j | 0 <= k < j < |open'| ensures !IsAnc(r, open'[j], open'[k]) {
      if j == |open| && IsAnc(d, c, open[k]) { AncRank(d, c, open[k]); }
    }
  }

  ghost function Reach(d: Shape, document: Node): (r: set<Node>)
    requires Tree(d)
  {
    set n | n in d && IsAnc(d, document, n)
  }

  // What one clone of the adoption agency does to the links: the subtree of x
  // leaves its place and hangs below the new, still unattached node c.
  ghost function Adopt(d: Shape, x: Node, c: Node): (r: Shape)
    requires Tree(d) && x in d && c !in d && IsContainer(c)
  {
    AddTree(d, c);
    var e := Add(d, c);
    DetachTree(e, x);
    Attach(Detach(e, x), x, c, 0)
  }

  lemma AdoptTree(d: Shape, x: Node, c: Node)
    requires Tree(d) && x in d && c !in d && IsContainer(c)
    ensures Tree(Adopt(d, x, c)) && Adopt(d, x, c).Keys == d.Keys + {c}
    ensures Adopt(d, x, c)[x].parent == c && Adopt(d, x, c)[c].parent == null
    ensures forall n :: n in d && n != x ==> Adopt(d, x, c)[n].parent == d[n].parent
    ensures Tree(Add(d, c)) && Tree(Detach(Add(d, c), x)) && !IsAnc(Detach(Add(d, c), x), x, c)
    ensures Detach(Add(d, c), x)[c].children == [] && Detach(Add(d, c), x)[x].parent == null
  {
    AddTree(d, c);
    var e := Add(d, c);
    DetachTree(e, x);
    DetachAnc(e, x, x, c);
    AddAnc(d, c, x, c);
    assert NodeOK(d, x);
    AttachTree(Detach(e, x), x, c, 0);
  }

  lemma AdoptAnc(d: Shape, x: Node, c: Node, a: Node, n: Node)
    requires Tree(d) && x in d && c !in d && IsContainer(c) && (n in d || n == c)
    requires Tree(Adopt(d, x, c)) && Adopt(d, x, c).Keys == d.Keys + {c}
    ensures IsAnc(Adopt(d, x, c), a, n) <==>
            if n == c then a == c
            else if a == c then IsAnc(d, x, n)
            else IsAnc(d, a, n) && (IsAnc(d, x, n) ==> a in d && IsAnc(d, x, a))
  {
    AdoptTree(d, x, c);
    var e := Add(d, c);
    var r := Detach(e, x);
    AttachAnc(r, x, c, 0, a, n);
    DetachAnc(e, x, a, n);
    DetachAnc(e, x, x, n);
    DetachAnc(e, x, a, c);
    AddAnc(d, c, a, n);
    AddAnc(d, c, x, n);
    AddAnc(d, c, a, c);
    if a in d { AddAnc(d, c, x, a); }
    if n in d && IsAnc(d, a, n) { AncRank(d, a, n); }
  }

  lemma AdoptOrder(d: Shape, open: seq<Node>, s: nat, l: nat, c: Node)
    requires Tree(d) && c !in d && IsContainer(c) && s < l < |open|
    requires (forall k :: 0 <= k < |open| ==> open[k] in d) && Ordered(d, open)
    requires Tree(Adopt(d, open[l], c)) && Adopt(d, open[l], c).Keys == d.Keys + {c}
    ensures Ordered(Adopt(d, open[l], c), open[s := c])
  {
    var r, o := Adopt(d, open[l], c), open[s := c];
    forall k, j | 0 <= k < j < |o| ensures !IsAnc(r, o[j], o[k]) {
      AdoptAnc(d, open[l], c, o[j], o[k]);
    }
  }

  // insert_node of a new node at a location.
  ghost function Inserted(d: Shape, c: Node, l: Location): (r: Shape)
    requires Tree(d) && c !in d && l.target in d && (l.index == -1 || 0 <= l.index <= |d[l.target].children|)
  {
    AddTree(d, c);
    Attach(Add(d, c), c, l.target, if l.index == -1 then |d[l.target].children| else l.index)
  }

  // insert_element can insert c as the child of the current node.
  ghost predicate Insertable(d: Shape, open: seq<Node>, foster: bool, c: Node)
  {
    && Tree(d) && c !in d
    && |open| > 0 && IsHtml(open[0], HTML) && (forall i :: 0 <= i < |open| ==> open[i] in d)
    && var l := AppropriateLocation(d, open, foster, open[|open| - 1]);
       l.target in d && (l.index == -1 || 0 <= l.index <= |d[l.target].children|)
  }

  // New elements inserted and pushed one after another.
  ghost function InsertedAll(d: Shape, open: seq<Node>, foster: bool, elements: seq<Node>): (r: Shape)
  {
    if elements == [] then d
    else
      var before, c := elements[..|elements| - 1], elements[|elements| - 1];
      var e, o := InsertedAll(d, open, foster, before), open + before;
      if Insertable(e, o, foster, c) then Inserted(e, c, AppropriateLocation(e, o, foster, o[|o| - 1])) else e
  }

  lemma InsertedOneMore(d: Shape, open: seq<Node>, foster: bool, elements: seq<Node>, c: Node)
    requires Insertable(InsertedAll(d, open, foster, elements), open + elements, foster, c)
    ensures var e, o := InsertedAll(d, open, foster, elements), open + elements;
            InsertedAll(d, open, foster, elements + [c]) ==
            Inserted(e, c, AppropriateLocation(e, o, foster, o[|o| - 1]))
  {
    assert (elements + [c])[..|elements|] == elements;
  }

  lemma NothingInserted(d: Shape, open: seq<Node>, foster: bool)
    ensures InsertedAll(d, open, foster, []) == d
  {
  }

  // Where reconstruction starts: after the last entry that is a marker or open.
  function RebuildFrom(list: seq<Entry>, open: seq<Node>): (k: nat)
    ensures k <= |list|
    ensures k > 0 ==> list[k - 1] == Marker || list[k - 1].node in open
    ensures forall j :: k <= j < |list| ==> list[j] != Marker && list[j].node !in open
  {
    if list == [] then 0
    else
      var e := list[|list| - 1];
      if e == Marker || e.node in open then |list| else RebuildFrom(list[..|list| - 1], open)
  }

  lemma {:induction false} RebuildFromIs(list: seq<Entry>, open: seq<Node>, k: nat)
    requires k <= |list| && (k > 0 ==> list[k - 1] == Marker || list[k - 1].node in open)
    requires forall j :: k <= j < |list| ==> list[j] != Marker && list[j].node !in open
    ensures RebuildFrom(list, open) == k
  {
    if k < |list| {
      RebuildFromIs(list[..|list| - 1], open, k);
    }
  }

  lemma InsertedParents(d: Shape, c: Node, l: Location)
    requires Tree(d) && c !in d && l.target in d && (l.index == -1 || 0 <= l.index <= |d[l.target].children|)
    ensures var r := Inserted(d, c, l);
            r.Keys == d.Keys + {c} && r[c].parent == l.target && forall n :: n in d ==> r[n].parent == d[n].parent
  {
    AddTree(d, c);
  }

  function NodesOf(list: seq<Entry>): (s: seq<Node>)
    requires forall i :: 0 <= i < |list| ==> list[i].Formatting?
    ensures |s| == |list| && forall i :: 0 <= i < |list| ==> s[i] == list[i].node
  {
    seq(|list|, i requires 0 <= i < |list| => list[i].node)
  }

  // Reconstruction at work: the entries from k up to i have been replaced by new
  // clones, each a child of the one before it and all pushed in list order.
  ghost predicate Rebuilt(d: Shape, nodes0: set<Node>, list0: seq<Entry>, open0: seq<Node>, k: nat, i: nat,
      list: seq<Entry>, open: seq<Node>)
  {
    && k <= i <= |list| == |list0|
    && (forall j :: 0 <= j < |list0| && (j < k || i <= j) ==> list[j] == list0[j])
    && (forall j :: k <= j < i ==>
          && list0[j].Formatting? && list[j].Formatting?
          && list[j].node in d && list[j].node !in nodes0 && SameElement(list[j].node, list0[j].node))
    && (forall j :: k < j < i ==> d[list[j].node].parent == list[j - 1].node)
    && open == open0 + NodesOf(list[k..i])
  }

  lemma NodesOfOneMore(list: seq<Entry>, k: nat, i: nat, clone: Node)
    requires k <= i < |list| && forall j :: k <= j < i ==> list[j].Formatting?
    ensures NodesOf(list[i := Formatting(clone)][k..i + 1]) == NodesOf(list[k..i]) + [clone]
  {
    assert list[i := Formatting(clone)][k..i + 1] == list[k..i] + [Formatting(clone)];
  }

  lemma RebuiltStep(d: Shape, nodes0: set<Node>, list0: seq<Entry>, open0: seq<Node>, k: nat, i: nat,
      list: seq<Entry>, open: seq<Node>, clone: Node, foster: bool)
    requires Tree(d) && ListOK(d.Keys, list) && nodes0 <= d.Keys && clone !in d
    requires |open| > 0 && IsHtml(open[0], HTML) && forall j :: 0 <= j < |open| ==> open[j] in d
    requires Rebuilt(d, nodes0, list0, open0, k, i, list, open)
    requires i < |list| && list[i].Formatting? && SameElement(clone, list[i].node)
    requires var l := AppropriateLocation(d, open, foster, open[|open| - 1]);
             l.target in d && (l.index == -1 || 0 <= l.index <= |d[l.target].children|)
    ensures var r := Inserted(d, clone, AppropriateLocation(d, open, foster, open[|open| - 1]));
            Rebuilt(r, nodes0, list0, open0, k, i + 1, list[i := Formatting(clone)], open + [clone])
  {
    hide Tree, AppropriateLocation, Inserted, DistinctNames, ListOK, SameElement;
    assert SameElement(clone, list0[i].node);
    var l := AppropriateLocation(d, open, foster, open[|open| - 1]);
    InsertedParents(d, clone, l);
    NodesOfOneMore(list, k, i, clone);
    if i > k {
      var last := list[i - 1].node;
      assert NodesOf(list[k..i])[i - 1 - k] == last;
      ListedElement(d.Keys, list, i - 1);
      FormattingLocation(d, open, foster, last);
    }
  }

  lemma FormattingLocation(d: Shape, open: seq<Node>, foster: bool, target: Node)
    requires |open| > 0 && IsHtml(open[0], HTML) && forall j :: 0 <= j < |open| ==> open[j] in d
    requires IsFormattingElement(target)
    ensures AppropriateLocation(d, open, foster, target) == Location(target, -1)
  {
  }
}
