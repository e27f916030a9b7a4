/** Tree construction of gumbo-parser/src/parser.c: inserting nodes, popping the
    stack of open elements, reconstructing the active formatting elements and
    the Noah's Ark clause. */
module TreeConstruction {
  import opened Attributes
  import opened Tags
  import opened Dom
  import opened OpenElements
  import opened InsertionPlace
  import opened FormattingList

  class Parser {
    ghost var nodes: set<Node>
    const document: Node
    var root: Node?
    var open: seq<Node>            // _open_elements
    var formatting: seq<Entry>     // _active_formatting_elements
    var foster: bool               // _foster_parent_insertions
    var pending: string            // _text_node._buffer

    ghost predicate Valid()
      reads this`nodes, this`root, this`open, this`formatting, nodes
    {
      && Tree(ShapeOf(nodes)) && root != null
      && StackOK(ShapeOf(nodes), document, open) && ListOK(nodes, formatting)
    }

    // The nodes that can be reached from the document.
    ghost function Reached(): (r: set<Node>)
      requires Tree(ShapeOf(nodes))
      reads this`nodes, nodes
    {
      Reach(ShapeOf(nodes), document)
    }

    // Nothing reachable was lost, and every new node is reachable.
    ghost predicate Conserves(nodes0: set<Node>, reached0: set<Node>)
      reads this`nodes, nodes
    {
      Tree(ShapeOf(nodes)) && nodes0 <= nodes && Reached() == reached0 + (nodes - nodes0)
    }

    // A document with its root element, as after the first start tag.
    constructor ()
      ensures Valid() && fresh(nodes) && open == [root] && formatting == [] && pending == "" && !foster
      ensures Reached() == nodes && open[0] != document
      ensures ShapeOf(nodes) == map[document := Links(null, -1, open, 0), open[0] := Links(document, 0, [], 1)]
    {
      var d := new Node(Document, Html, UNKNOWN, "", [], "");
      var h := new Node(Element, Html, HTML, "html", [], "");
      document := d;
      root := h;
      open := [h];
      formatting := [];
      foster := false;
      pending := "";
      nodes := {d, h};
      new;
      h.parent, h.index, h.rank := d, 0, 1;
      d.children := [h];
      FirstShape(ShapeOf(nodes), d, h);
    }

    // get_appropriate_insertion_location
    method GetLocation(override: Node?) returns (l: Location)
      requires |open| > 0 && IsHtml(open[0], HTML) && forall i :: 0 <= i < |open| ==> open[i] in nodes
      requires override != null ==> override in nodes
      ensures l == AppropriateLocation(ShapeOf(nodes), open, foster,
                     if override == null then open[|open| - 1] else override)
      ensures Tree(ShapeOf(nodes)) ==>
                IsPlace(ShapeOf(nodes), open, foster, if override == null then open[|open| - 1] else override, l)
    {
      hide Tree, IsPlace;
      if Tree(ShapeOf(nodes)) {
        AppropriateIs(ShapeOf(nodes), open, foster, if override == null then open[|open| - 1] else override);
      }
      var target := if override == null then open[|open| - 1] else override;
      if !foster || !IsTablePart(target) {
        return Location(target, -1);
      }
      var lastTemplate, lastTable := -1, -1;
      var i := 0;
      while i < |open|
        invariant 0 <= i <= |open|
        invariant lastTemplate == LastIndex(open[..i], TEMPLATE) && lastTable == LastIndex(open[..i], TABLE)
      {
        if IsHtml(open[i], TEMPLATE) {
          lastTemplate := i;
        }
        if IsHtml(open[i], TABLE) {
          lastTable := i;
        }
        i := i + 1;
        assert open[..i][..i - 1] == open[..i - 1];
      }
      assert open[..i] == open;
      if lastTemplate != -1 && (lastTable == -1 || lastTemplate > lastTable) {
        return Location(open[lastTemplate], -1);
      }
      if lastTable == -1 {
        return Location(open[0], -1);
      }
      if open[lastTable].parent != null {
        return Location(open[lastTable].parent, open[lastTable].index);
      }
      return Location(open[lastTable - 1], -1);
    }

    // insert_node for a node that has just been created.
    method InsertNew(c: Node, l: Location)
      requires Valid() && c !in nodes && c.kind != Document && l.target in nodes && l.target != document
      requires c.parent == null && c.index == -1 && c.children == [] && c.rank == 0
      requires IsContainer(l.target) && l.target in Reached()
      requires l.index == -1 || 0 <= l.index < |l.target.children|
      modifies this`nodes, nodes, c
      ensures Valid() && nodes == old(nodes) + {c}
      ensures ShapeOf(nodes) == Inserted(old(ShapeOf(nodes)), c, l)
      ensures Conserves(old(nodes), old(Reached()))
      ensures IsElement(c) ==> StackOK(ShapeOf(nodes), document, open + [c])
    {
      ghost var d := ShapeOf(nodes);
      InsertedFacts(d, document, open, formatting, c, l);
      hide StackOK, ListOK, Reach, Inserted, Tree, IsAnc;
      LinkNew(c, l);
    }

    method LinkNew(c: Node, l: Location)
      requires Tree(ShapeOf(nodes)) && c !in nodes && l.target in nodes && IsContainer(l.target)
      requires Tree(Add(ShapeOf(nodes), c)) && !IsAnc(Add(ShapeOf(nodes), c), c, l.target)
      requires c.parent == null && c.index == -1 && c.children == [] && c.rank == 0
      requires l.index == -1 || 0 <= l.index < |ShapeOf(nodes)[l.target].children|
      modifies this`nodes, nodes, c
      ensures nodes == old(nodes) + {c}
      ensures ShapeOf(nodes) == Inserted(old(ShapeOf(nodes)), c, l)
    {
      ghost var d, before := ShapeOf(nodes), nodes;
      InsertedIs(d, c, l);
      hide Inserted, Tree, IsAnc, Attach, Add;
      nodes := nodes + {c};
      AddedShape(before, c);
      assert l.target.children == d[l.target].children;
      InsertNode(nodes, c, l);
    }

    // Where an element pushed now would be inserted.
    ghost function Here(): (l: Location)
      requires Valid()
      reads this`nodes, this`root, this`open, this`formatting, this`foster, nodes
      ensures l.target in nodes && l.target != document && IsElement(l.target) && l.target in Reached()
      ensures l.index == -1 || 0 <= l.index < |ShapeOf(nodes)[l.target].children|
    {
      LocationFacts(ShapeOf(nodes), document, open, foster, |open| - 1);
      AppropriateLocation(ShapeOf(nodes), open, foster, open[|open| - 1])
    }

    // maybe_flush_text_node_buffer: pending text becomes one text node.
    method FlushText()
      requires Valid()
      modifies this`nodes, this`pending, nodes
      ensures Valid() && pending == "" && fresh(nodes - old(nodes))
      ensures Conserves(old(nodes), old(Reached()))
      ensures Flushed(old(ShapeOf(nodes)), old(Here()), old(pending), ShapeOf(nodes))
      ensures old(pending) != "" ==>
                PutText(old(ShapeOf(nodes)), old(open), foster, old(pending), ShapeOf(nodes))
    {
      hide StackOK, ListOK, Tree, AppropriateLocation, Inserted, Reach, Flushed, PutText;
      if pending == "" {
        NothingToFlush(ShapeOf(nodes), Here());
        return;
      }
      InsertText();
      pending := "";
    }

    method InsertText()
      requires Valid() && pending != ""
      modifies this`nodes, nodes
      ensures Valid() && fresh(nodes - old(nodes)) && Conserves(old(nodes), old(Reached()))
      ensures Flushed(old(ShapeOf(nodes)), old(Here()), old(pending), ShapeOf(nodes))
      ensures PutText(old(ShapeOf(nodes)), old(open), foster, old(pending), ShapeOf(nodes))
    {
      hide StackOK, ListOK, Tree, AppropriateLocation, Inserted, Reach, Flushed, Put;
      ghost var d := ShapeOf(nodes);
      StackFacts(d, document, open);
      var l := GetHere();
      var t := new Node(Text, Html, UNKNOWN, "", [], pending);
      InsertedIsPut(d, open, foster, open[|open| - 1], t);
      InsertNew(t, l);
      FlushedBy(d, l, pending, ShapeOf(nodes), t);
    }

    method GetHere() returns (l: Location)
      requires Valid()
      ensures l == Here()
    {
      l := GetLocation(null);
    }

    // pop_current_node, never called for the root element here.
    method PopCurrentNode() returns (n: Node)
      requires Valid() && |open| > 1
      modifies this`nodes, this`pending, this`open, nodes
      ensures Valid() && pending == "" && fresh(nodes - old(nodes))
      ensures open == old(open)[..|old(open)| - 1] && n == old(open)[|old(open)| - 1]
      ensures Flushed(old(ShapeOf(nodes)), old(Here()), old(pending), ShapeOf(nodes))
      ensures Conserves(old(nodes), old(Reached()))
    {
      hide StackOK, ListOK, Tree, Inserted, Reach, Flushed;
      FlushText();
      StackPrefix(ShapeOf(nodes), document, open, |open| - 1);
      n := open[|open| - 1];
      open := open[..|open| - 1];
    }

    // insert_element: pending text is flushed first, except while formatting
    // elements are being reconstructed. The links before the element goes in are d.
    method InsertElement(e: Node, reconstructing: bool) returns (ghost d: Shape)
      requires Valid() && e !in nodes && IsElement(e)
      requires e.parent == null && e.index == -1 && e.children == [] && e.rank == 0
      modifies this`nodes, this`pending, this`open, nodes, e
      ensures Valid() && fresh(nodes - old(nodes) - {e}) && e in nodes
      ensures open == old(open) + [e] && (pending == if reconstructing then old(pending) else "")
      ensures Conserves(old(nodes), old(Reached()))
      ensures if reconstructing then d == old(ShapeOf(nodes))
              else Flushed(old(ShapeOf(nodes)), old(Here()), old(pending), d)
      ensures Insertable(d, old(open), foster, e)
      ensures ShapeOf(nodes) == Inserted(d, e, AppropriateLocation(d, old(open), foster, old(open)[|old(open)| - 1]))
      ensures Put(d, old(open), foster, old(open)[|old(open)| - 1], e, ShapeOf(nodes))
    {
      hide StackOK, ListOK, Tree, Inserted, Reach, Flushed, AppropriateLocation, Put, PutText;
      if !reconstructing {
        FlushText();
      }
      d := ShapeOf(nodes);
      StackFacts(d, document, open);
      ghost var l := Here();
      assert Insertable(d, open, foster, e);
      PushElement(e);
      assert ShapeOf(nodes) == Inserted(d, e, l);
    }

    // A created element becomes a child at the appropriate place and the new
    // current node.
    method PushElement(e: Node)
      requires Valid() && e !in nodes && IsElement(e)
      requires e.parent == null && e.index == -1 && e.children == [] && e.rank == 0
      modifies this`nodes, this`open, nodes, e
      ensures Valid() && nodes == old(nodes) + {e} && open == old(open) + [e]
      ensures ShapeOf(nodes) == Inserted(old(ShapeOf(nodes)), e, old(Here()))
      ensures Put(old(ShapeOf(nodes)), old(open), foster, old(open)[|old(open)| - 1], e, ShapeOf(nodes))
      ensures Conserves(old(nodes), old(Reached()))
    {
      hide StackOK, ListOK, Tree, Inserted, Reach, Put;
      StackFacts(ShapeOf(nodes), document, open);
      InsertedIsPut(ShapeOf(nodes), open, foster, open[|open| - 1], e);
      var l := GetHere();
      InsertNew(e, l);
      open := open + [e];
    }

    // reconstruct_active_formatting_elements: the clones go in one by one, the
    // first where any element would go now. A second call changes nothing.
    method Reconstruct()
      requires Valid()
      modifies this`nodes, this`open, this`formatting, nodes
      ensures Valid() && fresh(nodes - old(nodes)) && Conserves(old(nodes), old(Reached()))
      ensures Rebuilt(ShapeOf(nodes), old(nodes), old(formatting), old(open),
                RebuildFrom(old(formatting), old(open)), |formatting|, formatting, open)
      ensures var clones := NodesOf(formatting[RebuildFrom(old(formatting), old(open))..]);
              && ShapeOf(nodes) == InsertedAll(old(ShapeOf(nodes)), old(open), foster, clones)
              && nodes == old(nodes) + set c | c in clones
      ensures RebuildFrom(formatting, open) == |formatting|
      ensures Signatures(formatting) == old(Signatures(formatting))
      ensures old(RebuildFrom(formatting, open)) == old(|formatting|) ==>
                && nodes == old(nodes) && ShapeOf(nodes) == old(ShapeOf(nodes))
                && open == old(open) && formatting == old(formatting)
    {
      hide StackOK, ListOK, Tree, Reach, InsertedAll, Signatures, SignatureOf, Rebuilt, RebuildFrom;
      var start := FindRebuildStart();
      RebuildAll(start);
      if start == |formatting| {
        NothingRebuilt(ShapeOf(nodes), old(nodes), old(formatting), old(open), formatting, open);
        NothingInserted(old(ShapeOf(nodes)), old(open), foster);
      }
    }

    // Steps 1 to 6: the entry after the last marker or open element.
    method FindRebuildStart() returns (start: nat)
      requires Valid()
      ensures start == RebuildFrom(formatting, open)
    {
      if |formatting| == 0 {
        return 0;
      }
      var i := |formatting| - 1;
      if formatting[i] == Marker || formatting[i].node in open {
        RebuildFromIs(formatting, open, |formatting|);
        return |formatting|;
      }
      while true
        invariant 0 <= i < |formatting|
        invariant forall j :: i <= j < |formatting| ==> formatting[j] != Marker && formatting[j].node !in open
        decreases i
      {
        if i == 0 {
          i := -1;  // incremented below
          break;
        }
        i := i - 1;
        if formatting[i] == Marker || formatting[i].node in open {
          break;
        }
      }
      i := i + 1;
      RebuildFromIs(formatting, open, i);
      return i;
    }

    // Steps 7 to 10.
    method RebuildAll(start: nat)
      requires Valid() && start == RebuildFrom(formatting, open)
      modifies this`nodes, this`open, this`formatting, nodes
      ensures Valid() && fresh(nodes - old(nodes)) && Conserves(old(nodes), old(Reached()))
      ensures Rebuilt(ShapeOf(nodes), old(nodes), old(formatting), old(open), start, |formatting|, formatting, open)
      ensures var clones := NodesOf(formatting[start..]);
              && ShapeOf(nodes) == InsertedAll(old(ShapeOf(nodes)), old(open), foster, clones)
              && nodes == old(nodes) + set c | c in clones
      ensures RebuildFrom(formatting, open) == |formatting|
      ensures Signatures(formatting) == old(Signatures(formatting))
    {
      hide StackOK, ListOK, Tree, Reach, Rebuilding, InsertedAll, Signatures, SignatureOf;
      var i := start;
      ghost var d, list0, clones := ShapeOf(nodes), formatting, [];
      StartRebuilding(start);
      while i < |formatting|
        invariant start <= i <= |formatting| == |list0| && Valid() && fresh(nodes - old(nodes))
        invariant forall j :: i <= j < |formatting| ==> formatting[j] == list0[j]
        invariant Rebuilding(d, old(Reached()), list0, old(open), start, i, clones)
      {
        ghost var c := RebuildOne(i, start, d, old(Reached()), list0, old(open), clones);
        clones := clones + [c];
        i := i + 1;
      }
      EndRebuilding(d, old(Reached()), list0, old(open), start, clones);
    }

    // The loop of RebuildAll at i, with these clones made.
    ghost predicate Rebuilding(d: Shape, reached: set<Node>, list0: seq<Entry>, open0: seq<Node>, k: nat, i: nat,
        clones: seq<Node>)
      reads this`nodes, this`open, this`formatting, this`foster, nodes
    {
      && Conserves(d.Keys, reached)
      && Rebuilt(ShapeOf(nodes), d.Keys, list0, open0, k, i, formatting, open)
      && open == open0 + clones && nodes == d.Keys + (set c | c in clones)
      && ShapeOf(nodes) == InsertedAll(d, open0, foster, clones)
    }

    lemma StartRebuilding(k: nat)
      requires Valid() && k <= |formatting|
      ensures Rebuilding(ShapeOf(nodes), Reached(), formatting, open, k, k, [])
    {
      hide StackOK, ListOK, Tree, Reach, InsertedAll;
      RebuiltStart(ShapeOf(nodes), nodes, formatting, open, k);
      NothingInserted(ShapeOf(nodes), open, foster);
    }

    lemma EndRebuilding(d: Shape, reached: set<Node>, list0: seq<Entry>, open0: seq<Node>, k: nat, clones: seq<Node>)
      requires k == RebuildFrom(list0, open0) && Rebuilding(d, reached, list0, open0, k, |formatting|, clones)
      ensures Conserves(d.Keys, reached)
              && Rebuilt(ShapeOf(nodes), d.Keys, list0, open0, k, |formatting|, formatting, open)
      ensures k <= |formatting| && NodesOf(formatting[k..]) == clones
      ensures ShapeOf(nodes) == InsertedAll(d, open0, foster, clones) && nodes == d.Keys + set c | c in clones
      ensures RebuildFrom(formatting, open) == |formatting| && Signatures(formatting) == Signatures(list0)
    {
      hide Tree, Reach, InsertedAll, Signatures;
      RebuiltDone(ShapeOf(nodes), d.Keys, list0, open0, k, formatting, open);
      RebuiltClones(ShapeOf(nodes), d.Keys, list0, open0, k, formatting, open, clones);
    }

    method RebuildOne(i: nat, ghost k: nat, ghost d0: Shape, ghost reached: set<Node>, ghost list0: seq<Entry>,
        ghost open0: seq<Node>, ghost clones: seq<Node>)
      returns (ghost c: Node)
      requires Valid() && i < |formatting| && formatting[i].Formatting?
      requires Rebuilding(d0, reached, list0, open0, k, i, clones)
      modifies this`nodes, this`open, this`formatting, nodes
      ensures Valid() && fresh(nodes - old(nodes))
      ensures Rebuilding(d0, reached, list0, open0, k, i + 1, clones + [c])
      ensures |formatting| == |old(formatting)|
      ensures forall j :: i < j < |formatting| ==> formatting[j] == old(formatting)[j]
    {
      hide StackOK, Tree, Inserted, InsertedAll, Reach, AppropriateLocation, Rebuilt, Rebuilding, ListOK, SameElement;
      ghost var d, reached1, o := ShapeOf(nodes), Reached(), open;
      ListedElement(nodes, formatting, i);
      var clone := CloneNode(formatting[i].node);
      c := clone;
      CanRebuild(k, i, d0, reached, list0, open0, clones, clone);
      PushClone(clone, i);
      hide Valid;
      GoOnRebuilding(d0, reached, list0, open0, k, i, clones, clone, d, reached1, o);
    }

    // Steps 8 to 10: the clone is inserted, pushed and listed.
    method PushClone(clone: Node, i: nat)
      requires Valid() && clone !in nodes && IsElement(clone) && i < |formatting|
      requires clone.parent == null && clone.index == -1 && clone.children == [] && clone.rank == 0
      requires ListOK(nodes + {clone}, formatting[i := Formatting(clone)])
      modifies this`nodes, this`open, this`formatting, nodes, clone
      ensures Valid() && nodes == old(nodes) + {clone} && open == old(open) + [clone]
      ensures ShapeOf(nodes) == Inserted(old(ShapeOf(nodes)), clone, old(Here()))
      ensures Conserves(old(nodes), old(Reached()))
      ensures formatting == old(formatting)[i := Formatting(clone)]
    {
      hide StackOK, Tree, Inserted, Reach, AppropriateLocation, ListOK;
      PushElement(clone);
      formatting := formatting[i := Formatting(clone)];
    }

    lemma GoOnRebuilding(d0: Shape, reached: set<Node>, list0: seq<Entry>, open0: seq<Node>, k: nat, i: nat,
        clones: seq<Node>, clone: Node, d: Shape, reached1: set<Node>, o: seq<Node>)
      requires d0.Keys <= d.Keys == d0.Keys + (set c | c in clones) && reached1 == reached + (d.Keys - d0.Keys)
      requires o == open0 + clones && open == o + [clone] && nodes == d.Keys + {clone} && Conserves(d.Keys, reached1)
      requires Rebuilt(ShapeOf(nodes), d0.Keys, list0, open0, k, i + 1, formatting, open)
      requires ShapeOf(nodes) == InsertedAll(d0, open0, foster, clones + [clone])
      ensures Rebuilding(d0, reached, list0, open0, k, i + 1, clones + [clone])
    {
      hide Tree, Reach, Rebuilt, InsertedAll;
      assert nodes == d0.Keys + set c | c in clones + [clone];
    }

    lemma CanRebuild(k: nat, i: nat, d0: Shape, reached: set<Node>, list0: seq<Entry>, open0: seq<Node>,
        clones: seq<Node>, clone: Node)
      requires Valid() && i < |formatting| && formatting[i].Formatting? && clone !in nodes
      requires SameElement(clone, formatting[i].node) && Rebuilding(d0, reached, list0, open0, k, i, clones)
      ensures IsElement(clone) && d0.Keys <= nodes == d0.Keys + (set c | c in clones) && open == open0 + clones
      ensures Reached() == reached + (nodes - d0.Keys)
      ensures var d := Inserted(ShapeOf(nodes), clone, Here());
              && Rebuilt(d, d0.Keys, list0, open0, k, i + 1, formatting[i := Formatting(clone)], open + [clone])
              && ListOK(nodes + {clone}, formatting[i := Formatting(clone)])
              && d == InsertedAll(d0, open0, foster, clones + [clone])
    {
      hide Tree, Reach, Inserted, InsertedAll, AppropriateLocation, Rebuilt;
      InsertedParents(ShapeOf(nodes), clone, Here());
      StackFacts(ShapeOf(nodes), document, open);
      ListedElement(nodes, formatting, i);
      hide StackOK, ListOK;
      var l := Here();
      RebuiltStep(ShapeOf(nodes), d0.Keys, list0, open0, k, i, formatting, open, clone, foster);
      ListReplace(nodes, formatting, i, clone);
      InsertedOneMore(d0, open0, foster, clones, clone);
    }

    method AddFormatting(e: Entry)
      requires Valid() && Ark(Signatures(formatting)) && ListOK(nodes, [e]) && e !in formatting
      modifies this`formatting
      ensures Valid() && Ark(Signatures(formatting))
      ensures e == Marker || Count(old(Signatures(formatting)), SignatureOf(e)) < 3 ==>
              formatting == old(formatting) + [e]
      ensures e.Formatting? && Count(old(Signatures(formatting)), SignatureOf(e)) == 3 ==>
                exists k :: 0 <= k < |old(formatting)| && IsEarliest(old(formatting), e, k)
                            && formatting == RemoveAt(old(formatting), k) + [e]
    {
      hide StackOK, Tree, ListOK, Ark, Signatures, SignatureOf, Count, IsEarliest;
      formatting := AddEntry(formatting, e, nodes);
    }

    // clear_active_formatting_elements: drops everything from the last marker on.
    method ClearToMarker()
      requires Valid()
      modifies this`formatting
      ensures Valid() && |formatting| <= |old(formatting)| && formatting == old(formatting)[..|formatting|]
      ensures Ark(old(Signatures(formatting))) ==> Ark(Signatures(formatting))
      ensures formatting == [] || (|formatting| < |old(formatting)| && old(formatting)[|formatting|] == Marker)
      ensures forall j :: |formatting| < j < |old(formatting)| ==> old(formatting)[j] != Marker
    {
      hide StackOK, Tree, ListOK, Signatures, Ark;
      ghost var list0 := formatting;
      while |formatting| > 0
        invariant |formatting| <= |list0| && formatting == list0[..|formatting|]
        invariant forall j :: |formatting| <= j < |list0| ==> list0[j] != Marker
        decreases |formatting|
      {
        var e := formatting[|formatting| - 1];
        formatting := formatting[..|formatting| - 1];
        if e == Marker {
          break;
        }
      }
      assert formatting == list0[..|formatting|];
      if Ark(Signatures(list0)) {
        ArkPrefix(Signatures(list0), |formatting|);
        assert Signatures(list0)[..|formatting|] == Signatures(formatting);
      }
      ListPrefix(nodes, list0, |formatting|);
    }

    method RemoveFormatting(node: Node)
      requires Valid()
      modifies this`formatting
      ensures Valid() && Formatting(node) !in formatting
      ensures formatting == if Formatting(node) in old(formatting)
                            then RemoveAt(old(formatting), IndexOf(old(formatting), Formatting(node)))
                            else old(formatting)
      ensures Ark(old(Signatures(formatting))) ==> Ark(Signatures(formatting))
    {
      hide StackOK, Tree, ListOK, Ark, Signatures, IndexOf;
      formatting := RemoveEntry(formatting, node, nodes);
    }
  }

  // Pending text has become a text node at the place, if there was any.
  ghost predicate Flushed(d: Shape, l: Location, text: string, r: Shape)
  {
    if text == "" then r == d else exists t :: t in r && IsFlushed(d, l, text, r, t)
  }

  ghost predicate IsFlushed(d: Shape, l: Location, text: string, r: Shape, t: Node)
  {
    && Tree(d) && l.target in d && (l.index == -1 || 0 <= l.index <= |d[l.target].children|)
    && t !in d && t.kind == Text && t.text == text && r == Inserted(d, t, l)
  }

  // The text has become a node at the place that the stack tells.
  ghost predicate PutText(d: Shape, open: seq<Node>, foster: bool, text: string, r: Shape)
  {
    open != []
    && exists t :: t in r && t !in d && t.kind == Text && t.text == text && Put(d, open, foster, open[|open| - 1], t, r)
  }

  lemma AddedShape(nodes: set<Node>, c: Node)
    requires c !in nodes && c.parent == null && c.index == -1 && c.children == [] && c.rank == 0
    ensures ShapeOf(nodes + {c}) == Add(ShapeOf(nodes), c)
  {
  }

  lemma ListPrefix(nodes: set<Node>, list: seq<Entry>, n: nat)
    requires ListOK(nodes, list) && n <= |list|
    ensures ListOK(nodes, list[..n])
  {
  }

  lemma FlushedBy(d: Shape, l: Location, text: string, r: Shape, t: Node)
    requires t in r && IsFlushed(d, l, text, r, t) && text != ""
    ensures Flushed(d, l, text, r)
  {
  }

  lemma NothingToFlush(d: Shape, l: Location)
    ensures Flushed(d, l, "", d)
  {
  }

  lemma InsertedFacts(d: Shape, document: Node, open: seq<Node>, list: seq<Entry>, c: Node, l: Location)
    requires Tree(d) && StackOK(d, document, open) && ListOK(d.Keys, list) && c !in d && c.kind != Document
    requires l.target in d && l.target != document && IsContainer(l.target) && l.target in Reach(d, document)
    requires l.index == -1 || 0 <= l.index < |d[l.target].children|
    ensures Tree(Add(d, c)) && !IsAnc(Add(d, c), c, l.target) && Tree(Inserted(d, c, l))
    ensures Inserted(d, c, l).Keys == d.Keys + {c}
    ensures StackOK(Inserted(d, c, l), document, open) && ListOK(d.Keys + {c}, list)
    ensures IsElement(c) ==> StackOK(Inserted(d, c, l), document, open + [c])
    ensures Reach(Inserted(d, c, l), document) == Reach(d, document) + {c}
  {
    PushNew(d, document, open, c, l.target, if l.index == -1 then |d[l.target].children| else l.index);
    hide StackOK;
    ListGrows(d.Keys, d.Keys + {c}, list);
  }

  lemma InsertedIs(d: Shape, c: Node, l: Location)
    requires Tree(d) && c !in d && l.target in d && (l.index == -1 || 0 <= l.index <= |d[l.target].children|)
    ensures Tree(Add(d, c)) && Add(d, c)[l.target].children == if l.target == c then [] else d[l.target].children
    ensures Inserted(d, c, l)
            == Attach(Add(d, c), c, l.target, if l.index == -1 then |d[l.target].children| else l.index)
  {
    AddTree(d, c);
  }

  lemma StackFacts(d: Shape, document: Node, open: seq<Node>)
    requires Tree(d) && StackOK(d, document, open)
    ensures |open| > 0 && IsHtml(open[0], HTML) && forall j :: 0 <= j < |open| ==> open[j] in d && IsElement(open[j])
  {
  }

  lemma RebuiltStart(d: Shape, nodes: set<Node>, list: seq<Entry>, open: seq<Node>, start: nat)
    requires start <= |list|
    ensures Rebuilt(d, nodes, list, open, start, start, list, open)
  {
    assert list[start..start] == [];
  }

  lemma NothingRebuilt(d: Shape, nodes0: set<Node>, list0: seq<Entry>, open0: seq<Node>, list: seq<Entry>,
      open: seq<Node>)
    requires Rebuilt(d, nodes0, list0, open0, |list|, |list|, list, open)
    ensures list == list0 && open == open0 && list[|list|..] == []
  {
  }

  lemma RebuiltClones(d: Shape, nodes0: set<Node>, list0: seq<Entry>, open0: seq<Node>, start: nat,
      list: seq<Entry>, open: seq<Node>, clones: seq<Node>)
    requires start <= |list| && Rebuilt(d, nodes0, list0, open0, start, |list|, list, open) && open == open0 + clones
    ensures NodesOf(list[start..]) == clones
  {
    assert list[start..|list|] == list[start..];
    assert open[|open0|..] == clones;
  }

  lemma RebuiltDone(d: Shape, nodes0: set<Node>, list0: seq<Entry>, open0: seq<Node>, start: nat,
      list: seq<Entry>, open: seq<Node>)
    requires start == RebuildFrom(list0, open0) && Rebuilt(d, nodes0, list0, open0, start, |list|, list, open)
    ensures RebuildFrom(list, open) == |list| && Signatures(list) == Signatures(list0)
  {
    SameSignatures(d, nodes0, list0, open0, start, list, open);
    LastRebuilt(d, nodes0, list0, open0, start, list, open);
    RebuildFromIs(list, open, |list|);
  }

  lemma SameSignatures(d: Shape, nodes0: set<Node>, list0: seq<Entry>, open0: seq<Node>, start: nat,
      list: seq<Entry>, open: seq<Node>)
    requires Rebuilt(d, nodes0, list0, open0, start, |list|, list, open)
    ensures Signatures(list) == Signatures(list0)
  {
    forall j | 0 <= j < |list| ensures SignatureOf(list[j]) == SignatureOf(list0[j]) {
      hide Pairs, Lower;
    }
    hide *;
  }

  lemma LastRebuilt(d: Shape, nodes0: set<Node>, list0: seq<Entry>, open0: seq<Node>, start: nat,
      list: seq<Entry>, open: seq<Node>)
    requires start == RebuildFrom(list0, open0) && Rebuilt(d, nodes0, list0, open0, start, |list|, list, open)
    ensures |list| > 0 ==> list[|list| - 1] == Marker || list[|list| - 1].node in open
  {
    assert list[start..|list|] == list[start..];
    if |list| > start {
      var n := |list| - 1;
      assert NodesOf(list[start..])[n - start] == list[n].node;
    }
  }

  lemma StackPrefix(d: Shape, document: Node, open: seq<Node>, n: nat)
    requires Tree(d) && StackOK(d, document, open) && 0 < n <= |open|
    ensures StackOK(d, document, open[..n])
  {
  }

  lemma FirstShape(d: Shape, document: Node, html: Node)
    requires d == map[document := Links(null, -1, [html], 0), html := Links(document, 0, [], 1)] && document != html
    requires document.kind == Document && html.kind == Element && IsHtml(html, HTML)
    ensures Tree(d) && StackOK(d, document, [html]) && Reach(d, document) == {document, html}
  {
    assert ChildOK(d, document, 0);
    assert NodeOK(d, document) && NodeOK(d, html);
    assert Tree(d);
    assert IsAnc(d, document, document) && IsAnc(d, document, html);
  }
}
