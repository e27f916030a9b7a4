/** The whole adoption agency algorithm: how it chooses what to do, and up to
    eight passes of it (adoption_agency_algorithm, gumbo-parser/src/parser.c). */
module AdoptionRun {
  import opened Attributes
  import opened Tags
  import opened Dom
  import opened OpenElements
  import opened FormattingList
  import opened TreeConstruction
  import opened AdoptionWalk
  import opened Shelter
  import opened AdoptionAgency
  import opened AdoptionArk
  import opened Verdicts

  datatype State = State(d: Shape, open: seq<Node>, list: seq<Entry>)

  ghost function Now(p: Parser): State
    reads p`nodes, p`open, p`formatting, p.nodes
  {
    State(ShapeOf(p.nodes), p.open, p.formatting)
  }

  // What one pass made: the clones, the elements unlisted, the links after the
  // block was moved, and the clone of the formatting element.
  datatype Choice = Choice(m: map<Node, Node>, gone: set<Node>, joined: Shape, c: Node)

  // One pass that moves a block.
  ghost predicate PassOver(document: Node, foster: bool, subject: Tag, a: State, h: Choice, z: State)
  {
    var v := Decide(a.open, a.list, subject);
    && v.Again?
    && Adopted(Before(a.d, document, a.open, a.list, v.f, v.b), foster, h.m, h.gone, h.joined, h.c,
         z.d, z.open, z.list)
    && Tree(z.d) && StackOK(z.d, document, z.open)
  }

  ghost predicate Passes(document: Node, foster: bool, subject: Tag, run: seq<State>, how: seq<Choice>)
  {
    |run| == |how| + 1 && forall k :: 0 <= k < |how| ==> PassOver(document, foster, subject, run[k], how[k], run[k + 1])
  }

  // What the state after the last pass is turned into.
  predicate Ends(run: seq<State>, subject: Tag, open: seq<Node>, list: seq<Entry>)
    requires |run| > 0
  {
    var z := run[|run| - 1];
    if |run| == 1 && Trivial(z.open, z.list, subject) then open == z.open[..|z.open| - 1] && list == z.list
    else if |run| == 9 then open == z.open && list == z.list
    else Decide(z.open, z.list, subject) == Done(open, list)
  }

  // The links, the stack and the pending text when elements have been popped:
  // the first one popped flushes the text, at the place of the old stack.
  ghost predicate Popped(z: State, foster: bool, pending: string, r: State, left: string)
  {
    if r.open == z.open then r.d == z.d && left == pending
    else
      && left == "" && Locatable(z.d, z.open) && |z.open| > 0
      && Flushed(z.d, AppropriateLocation(z.d, z.open, foster, z.open[|z.open| - 1]), pending, r.d)
  }

  method HasElementInScope(open: seq<Node>, tag: Tag) returns (found: bool)
    ensures found == InScope(open, tag)
  {
    var i := |open|;
    assert open[..i] == open;
    while i > 0
      invariant 0 <= i <= |open| && InScope(open, tag) == InScope(open[..i], tag)
    {
      i := i - 1;
      assert open[..i + 1][..i] == open[..i];
      var node := open[i];
      if IsHtml(node, tag) {
        return true;
      }
      if IsScopeTag(node.ns, node.tag) {
        return false;
      }
    }
    return false;
  }

  method FindFormattingElement(list: seq<Entry>, tag: Tag) returns (node: Node?)
    ensures var i := FindActive(list, tag); node == if i == -1 then null else list[i].node
  {
    var j := |list|;
    assert list[..j] == list;
    while j > 0
      invariant 0 <= j <= |list| && FindActive(list, tag) == FindActive(list[..j], tag)
    {
      j := j - 1;
      assert list[..j + 1][..j] == list[..j];
      if list[j] == Marker {
        break;
      }
      if IsHtml(list[j].node, tag) {
        return list[j].node;
      }
    }
    return null;
  }

  method FindFurthestBlock(open: seq<Node>, from: nat) returns (block: Node?)
    requires from <= |open|
    ensures var b := FirstSpecial(open, from); block == if b == -1 then null else open[b]
  {
    var j := from;
    while j < |open|
      invariant from <= j <= |open| && FirstSpecial(open, from) == FirstSpecial(open, j)
    {
      if IsSpecial(open[j]) {
        return open[j];
      }
      j := j + 1;
    }
    return null;
  }

  lemma NothingPopped(z: State, foster: bool, pending: string, r: State)
    requires r.open == z.open && r.d == z.d
    ensures Popped(z, foster, pending, r, pending)
  {
  }

  // Popping once more.
  method Pop(p: Parser, ghost z: State, ghost pending: string) returns (n: Node)
    requires p.Valid() && 1 < |p.open| <= |z.open| && p.open == z.open[..|p.open|]
    requires Popped(z, p.foster, pending, Now(p), p.pending)
    modifies p`nodes, p`pending, p`open, p.nodes
    ensures p.Valid() && fresh(p.nodes - old(p.nodes)) && p.Conserves(old(p.nodes), old(p.Reached()))
    ensures p.open == old(p.open)[..|old(p.open)| - 1] && n == old(p.open)[|old(p.open)| - 1]
    ensures Popped(z, p.foster, pending, Now(p), p.pending) && p.formatting == old(p.formatting)
  {
    hide StackOK, ListOK, Tree, Reach, Inserted, AppropriateLocation, Flushed;
    StackFacts(ShapeOf(p.nodes), p.document, p.open);
    ghost var d, l, text := ShapeOf(p.nodes), p.Here(), p.pending;
    n := p.PopCurrentNode();
    NothingFlushed(d, l, ShapeOf(p.nodes));
    assert |p.open| < |z.open|;
  }

  lemma NothingFlushed(d: Shape, l: Location, r: Shape)
    ensures Flushed(d, l, "", r) ==> r == d
  {
  }

  predicate Implied(n: Node, exception: Tag)
  {
    HasImpliedEndTag(n.ns, n.tag) && !IsHtml(n, exception)
  }

  // generate_implied_end_tags, which leaves the element at k open.
  method GenerateImpliedEndTags(p: Parser, exception: Tag, ghost k: nat, ghost z: State, ghost pending: string)
    requires p.Valid() && 0 < k < |p.open| && IsHtml(p.open[k], exception)
    requires |p.open| <= |z.open| && p.open == z.open[..|p.open|]
    requires Popped(z, p.foster, pending, Now(p), p.pending)
    modifies p`nodes, p`pending, p`open, p.nodes
    ensures p.Valid() && fresh(p.nodes - old(p.nodes)) && p.Conserves(old(p.nodes), old(p.Reached()))
    ensures k < |p.open| <= |old(p.open)| && p.open == old(p.open)[..|p.open|]
    ensures !Implied(p.open[|p.open| - 1], exception)
    ensures forall i :: |p.open| <= i < |old(p.open)| ==> Implied(old(p.open)[i], exception)
    ensures Popped(z, p.foster, pending, Now(p), p.pending) && p.formatting == old(p.formatting)
  {
    hide StackOK, ListOK, Tree, Reach, Popped;
    while Implied(p.open[|p.open| - 1], exception)
      invariant p.Valid() && fresh(p.nodes - old(p.nodes)) && p.Conserves(old(p.nodes), old(p.Reached()))
      invariant k < |p.open| <= |old(p.open)| && p.open == old(p.open)[..|p.open|]
      invariant forall i :: |p.open| <= i < |old(p.open)| ==> Implied(old(p.open)[i], exception)
      invariant Popped(z, p.foster, pending, Now(p), p.pending) && p.formatting == old(p.formatting)
      decreases |p.open|
    {
      var n := Pop(p, z, pending);
    }
  }

  // Pops up to and including the element at k.
  method PopThrough(p: Parser, node: Node, ghost k: nat, ghost z: State, ghost pending: string)
    requires p.Valid() && 0 < k < |p.open| && node == p.open[k] && forall i :: k < i < |p.open| ==> p.open[i] != node
    requires |p.open| <= |z.open| && p.open == z.open[..|p.open|]
    requires Popped(z, p.foster, pending, Now(p), p.pending)
    modifies p`nodes, p`pending, p`open, p.nodes
    ensures p.Valid() && fresh(p.nodes - old(p.nodes)) && p.Conserves(old(p.nodes), old(p.Reached()))
    ensures p.open == old(p.open)[..k]
    ensures Popped(z, p.foster, pending, Now(p), p.pending) && p.formatting == old(p.formatting)
  {
    hide StackOK, ListOK, Tree, Reach, Popped;
    while true
      invariant p.Valid() && fresh(p.nodes - old(p.nodes)) && p.Conserves(old(p.nodes), old(p.Reached()))
      invariant k < |p.open| <= |old(p.open)| && p.open == old(p.open)[..|p.open|]
      invariant Popped(z, p.foster, pending, Now(p), p.pending) && p.formatting == old(p.formatting)
      decreases |p.open|
    {
      var n := Pop(p, z, pending);
      if n == node {
        break;
      }
    }
  }

  // The walk of in_body_any_other_end_tag. It stops at html at the latest.
  method FindClosable(open: seq<Node>, tag: Tag) returns (k: int)
    requires |open| > 0 && IsHtml(open[0], HTML)
    ensures k == Closable(open, tag)
  {
    k := |open|;
    assert open[..k] == open;
    while true
      invariant 0 < k <= |open| && Closable(open, tag) == Closable(open[..k], tag)
      decreases k
    {
      k := k - 1;
      assert open[..k + 1][..k] == open[..k];
      if IsHtml(open[k], tag) {
        return;
      } else if IsSpecial(open[k]) {
        return -1;
      }
    }
  }

  method CloseThrough(p: Parser, tag: Tag, k: nat, ghost z: State, ghost pending: string)
    requires p.Valid() && 0 < k < |p.open| && IsHtml(p.open[k], tag) && p.open == z.open
    requires forall i, j :: 0 <= i < j < |p.open| ==> p.open[i] != p.open[j]
    requires Popped(z, p.foster, pending, Now(p), p.pending)
    modifies p`nodes, p`pending, p`open, p.nodes
    ensures p.Valid() && fresh(p.nodes - old(p.nodes)) && p.Conserves(old(p.nodes), old(p.Reached()))
    ensures p.open == old(p.open)[..k]
    ensures Popped(z, p.foster, pending, Now(p), p.pending) && p.formatting == old(p.formatting)
  {
    hide StackOK, ListOK, Tree, Reach, Popped, Implied;
    var node := p.open[k];
    GenerateImpliedEndTags(p, tag, k, z, pending);
    PopThrough(p, node, k, z, pending);
  }

  // in_body_any_other_end_tag; html is ended elsewhere.
  method AnyOtherEndTag(p: Parser, tag: Tag)
    requires p.Valid() && tag != HTML
    modifies p`nodes, p`pending, p`open, p.nodes
    ensures p.Valid() && fresh(p.nodes - old(p.nodes)) && p.Conserves(old(p.nodes), old(p.Reached()))
    ensures var k := Closable(old(p.open), tag); p.open == if k == -1 then old(p.open) else old(p.open)[..k]
    ensures Popped(old(Now(p)), p.foster, old(p.pending), Now(p), p.pending) && p.formatting == old(p.formatting)
  {
    hide StackOK, ListOK, Tree, Reach, Closable, Popped, Implied, IndexOf;
    StackFacts(ShapeOf(p.nodes), p.document, p.open);
    OpenOnce(ShapeOf(p.nodes), p.document, p.open);
    ghost var z, pending := Now(p), p.pending;
    NothingPopped(z, p.foster, pending, z);
    var k := FindClosable(p.open, tag);
    if k != -1 {
      CloseThrough(p, tag, k, z, pending);
    }
  }

  lemma OpenOnce(d: Shape, document: Node, open: seq<Node>)
    requires Tree(d) && StackOK(d, document, open)
    ensures forall i, j :: 0 <= i < j < |open| ==> open[i] != open[j]
    ensures forall i :: 0 <= i < |open| ==> IndexOf(open, open[i]) == i
  {
    OpenDistinct(d, open);
  }

  lemma FirstIsNotFormatting(open: seq<Node>, subject: Tag)
    requires |open| > 0 && IsHtml(open[0], HTML) && IsFormattingTag(subject)
    ensures !IsHtml(open[0], subject)
  {
  }

  lemma NoPass(document: Node, foster: bool, subject: Tag, a: State)
    ensures Passes(document, foster, subject, [a], [])
  {
  }

  lemma OneMore(document: Node, foster: bool, subject: Tag, run: seq<State>, how: seq<Choice>, h: Choice, z: State)
    requires Passes(document, foster, subject, run, how) && |run| > 0
    requires PassOver(document, foster, subject, run[|run| - 1], h, z)
    ensures Passes(document, foster, subject, run + [z], how + [h])
    ensures |run| == |how| + 1
  {
    hide PassOver;
  }

  // What two stretches of a run keep, the whole keeps.
  lemma ConservesOn(p: Parser, nodes0: set<Node>, reached0: set<Node>, nodes1: set<Node>, reached1: set<Node>)
    requires nodes0 <= nodes1 && reached1 == reached0 + (nodes1 - nodes0) && p.Conserves(nodes1, reached1)
    ensures p.Conserves(nodes0, reached0)
  {
    hide Tree, Reach;
  }

  lemma NothingLost(p: Parser)
    requires Tree(ShapeOf(p.nodes))
    ensures p.Conserves(p.nodes, p.Reached())
  {
  }

  lemma Conserved(p: Parser, nodes0: set<Node>, reached0: set<Node>)
    requires p.Conserves(nodes0, reached0)
    ensures Tree(ShapeOf(p.nodes)) && nodes0 <= p.nodes && p.Reached() == reached0 + (p.nodes - nodes0)
  {
  }

  // The last listed element with the tag is open, and something above every
  // element with the tag ends the scope.
  ghost predicate OutOfScope(open: seq<Node>, list: seq<Entry>, subject: Tag)
  {
    Shielded(open, subject) && exists i :: LastListed(list, subject, i) && list[i].node in open
  }

  // A whole run in terms of positions on the stack and in the list.
  lemma Explains(document: Node, foster: bool, subject: Tag, run: seq<State>, how: seq<Choice>, pending: string,
      r: State, left: string)
    requires Passes(document, foster, subject, run, how) && |how| <= 8 && Ends(run, subject, r.open, r.list)
    requires Popped(run[|how|], foster, pending, r, left)
    ensures var a := run[0];
            && (!Trivial(a.open, a.list, subject) ==> Explained(a.open, a.list, subject, how != [], r.open, r.list))
            && (OutOfScope(a.open, a.list, subject) ==> r == a && left == pending && how == [])
  {
    hide Decide, Adopted, Explained, OutOfScope, Shielded;
    var a := run[0];
    if how != [] {
      assert PassOver(document, foster, subject, run[0], how[0], run[1]);
      AgainIs(a.open, a.list, subject, r.open, r.list);
      Unmoved(a, subject, true, r);
    } else if !Trivial(a.open, a.list, subject) {
      DoneIs(a.open, a.list, subject, r.open, r.list);
      Unmoved(a, subject, false, r);
    } else {
      NotTrivial(a.open, a.list, subject);
    }
  }

  lemma Unmoved(a: State, subject: Tag, moved: bool, r: State)
    requires Explained(a.open, a.list, subject, moved, r.open, r.list)
    ensures OutOfScope(a.open, a.list, subject) ==> !moved && r.open == a.open && r.list == a.list
  {
  }

  lemma NotTrivial(open: seq<Node>, list: seq<Entry>, subject: Tag)
    requires Trivial(open, list, subject)
    ensures !OutOfScope(open, list, subject)
  {
  }

  // adoption_agency_algorithm
  method Run(p: Parser, subject: Tag) returns (ghost run: seq<State>, ghost how: seq<Choice>)
    requires p.Valid() && IsFormattingTag(subject)
    requires p.foster ==> Sheltered(p.open, p.formatting, subject)
    modifies p`nodes, p`open, p`formatting, p`pending, p.nodes
    ensures p.Valid() && fresh(p.nodes - old(p.nodes)) && p.Conserves(old(p.nodes), old(p.Reached()))
    ensures Passes(p.document, p.foster, subject, run, how) && |how| <= 8 && run[0] == old(Now(p))
    ensures Ends(run, subject, p.open, p.formatting)
    ensures Popped(run[|how|], p.foster, old(p.pending), Now(p), p.pending)
    ensures KeepsArk(old(p.open), old(p.formatting), p.open, p.formatting)
    ensures !old(Trivial(p.open, p.formatting, subject)) ==>
              Explained(old(p.open), old(p.formatting), subject, how != [], p.open, p.formatting)
    ensures old(OutOfScope(p.open, p.formatting, subject)) ==>
              Now(p) == old(Now(p)) && p.nodes == old(p.nodes) && p.pending == old(p.pending) && how == []
  {
    hide StackOK, ListOK, Tree, Reach, Sheltered, Passes, Popped, KeepsArk, Parser.Conserves, Parser.Reached,
         Ends, Explained, OutOfScope, Trivial;
    run, how := RunOn(p, subject);
    Explains(p.document, p.foster, subject, run, how, old(p.pending), Now(p), p.pending);
  }

  // Steps 2 to 20.
  method RunOn(p: Parser, subject: Tag) returns (ghost run: seq<State>, ghost how: seq<Choice>)
    requires p.Valid() && IsFormattingTag(subject)
    requires p.foster ==> Sheltered(p.open, p.formatting, subject)
    modifies p`nodes, p`open, p`formatting, p`pending, p.nodes
    ensures p.Valid() && fresh(p.nodes - old(p.nodes)) && p.Conserves(old(p.nodes), old(p.Reached()))
    ensures Passes(p.document, p.foster, subject, run, how) && |how| <= 8 && run[0] == old(Now(p))
    ensures Ends(run, subject, p.open, p.formatting)
    ensures Popped(run[|how|], p.foster, old(p.pending), Now(p), p.pending)
    ensures KeepsArk(old(p.open), old(p.formatting), p.open, p.formatting)
  {
    hide StackOK, ListOK, Tree, Reach, Closable, FindActive, InScope, FirstSpecial, IndexOf, Adopted, Sheltered,
         Active, PassOver, Decide, Passes, Popped, KeepsArk, Parser.Conserves, Parser.Reached;
    run, how := [Now(p)], [];
    NoPass(p.document, p.foster, subject, Now(p));
    StackFacts(ShapeOf(p.nodes), p.document, p.open);
    FirstIsNotFormatting(p.open, subject);
    var currentNode := p.open[|p.open| - 1];
    if IsHtml(currentNode, subject) && Formatting(currentNode) !in p.formatting {
      NothingPopped(Now(p), p.foster, p.pending, Now(p));
      PrefixKeepsArk(p.open, p.formatting, |p.open| - 1);
      var n := Pop(p, Now(p), p.pending);
      return;
    }
    var i := 0;
    SameKeepsArk(p.open, p.formatting);
    NothingLost(p);
    while i < 8
      invariant 0 <= i <= 8 && i == |how| == |run| - 1
      invariant p.Valid() && fresh(p.nodes - old(p.nodes)) && p.Conserves(old(p.nodes), old(p.Reached()))
      invariant Passes(p.document, p.foster, subject, run, how) && run[0] == old(Now(p)) && run[|run| - 1] == Now(p)
      invariant p.foster ==> Sheltered(p.open, p.formatting, subject)
      invariant |run| == 1 ==> !Trivial(p.open, p.formatting, subject)
      invariant p.pending == old(p.pending)
      invariant KeepsArk(old(p.open), old(p.formatting), p.open, p.formatting)
    {
      var over;
      ghost var h, open1, list1 := *, p.open, p.formatting;
      ghost var nodes1, reached1 := p.nodes, p.Reached();
      Conserved(p, old(p.nodes), old(p.Reached()));
      over, h := OnePass(p, subject);
      ConservesOn(p, old(p.nodes), old(p.Reached()), nodes1, reached1);
      KeepsArkOn(old(p.open), old(p.formatting), open1, list1, p.open, p.formatting);
      if over {
        return;
      }
      OneMore(p.document, p.foster, subject, run, how, h, Now(p));
      run, how := run + [Now(p)], how + [h];
      i := i + 1;
    }
    NothingPopped(Now(p), p.foster, p.pending, Now(p));
  }

  // Steps 6 to 20.
  method OnePass(p: Parser, subject: Tag) returns (over: bool, ghost h: Choice)
    requires p.Valid() && IsFormattingTag(subject)
    requires p.foster ==> Sheltered(p.open, p.formatting, subject)
    modifies p`nodes, p`open, p`formatting, p`pending, p.nodes
    ensures p.Valid() && fresh(p.nodes - old(p.nodes)) && p.Conserves(old(p.nodes), old(p.Reached()))
    ensures over ==> Decide(old(p.open), old(p.formatting), subject) == Done(p.open, p.formatting)
    ensures over ==> Popped(old(Now(p)), p.foster, old(p.pending), Now(p), p.pending)
    ensures !over ==> p.pending == old(p.pending)
    ensures !over ==> PassOver(p.document, p.foster, subject, old(Now(p)), h, Now(p))
    ensures !over && p.foster ==> Sheltered(p.open, p.formatting, subject)
    ensures KeepsArk(old(p.open), old(p.formatting), p.open, p.formatting)
  {
    hide StackOK, ListOK, Tree, Reach, Closable, FindActive, InScope, FirstSpecial, IndexOf, Adopted, Sheltered, Active,
         Popped, KeepsArk, PassOver;
    h := Choice(map[], {}, map[], p.document);
    ghost var z := Now(p);
    var formattingNode := FindFormattingElement(p.formatting, subject);
    if formattingNode == null {
      AnyOtherEndTag(p, subject);
      PrefixKeepsArk(z.open, z.list, |p.open|);
      assert p.open == z.open[..|p.open|];
      return true, h;
    }
    over, h := PassWith(p, subject, formattingNode);
  }

  // Steps 7 to 20, with the formatting element found.
  method PassWith(p: Parser, subject: Tag, formattingNode: Node) returns (over: bool, ghost h: Choice)
    requires p.Valid() && IsFormattingTag(subject)
    requires var i := FindActive(p.formatting, subject); i >= 0 && formattingNode == p.formatting[i].node
    requires p.foster ==> Sheltered(p.open, p.formatting, subject)
    modifies p`nodes, p`open, p`formatting, p`pending, p.nodes
    ensures p.Valid() && fresh(p.nodes - old(p.nodes)) && p.Conserves(old(p.nodes), old(p.Reached()))
    ensures over ==> Decide(old(p.open), old(p.formatting), subject) == Done(p.open, p.formatting)
    ensures over ==> Popped(old(Now(p)), p.foster, old(p.pending), Now(p), p.pending)
    ensures !over ==> p.pending == old(p.pending)
    ensures !over ==> PassOver(p.document, p.foster, subject, old(Now(p)), h, Now(p))
    ensures !over && p.foster ==> Sheltered(p.open, p.formatting, subject)
    ensures KeepsArk(old(p.open), old(p.formatting), p.open, p.formatting)
  {
    hide StackOK, ListOK, Tree, Reach, Closable, FindActive, InScope, FirstSpecial, IndexOf, Adopted, Sheltered, Active,
         Popped, KeepsArk, PassOver;
    h := Choice(map[], {}, map[], p.document);
    StackFacts(ShapeOf(p.nodes), p.document, p.open);
    FirstIsNotFormatting(p.open, subject);
    OpenOnce(ShapeOf(p.nodes), p.document, p.open);
    ghost var z, pending := Now(p), p.pending;
    EntryAt(p.nodes, p.formatting, FindActive(p.formatting, subject));
    var f := IndexOf(p.open, formattingNode);
    if f == -1 {
      p.RemoveFormatting(formattingNode);
      NothingPopped(z, p.foster, pending, Now(p));
      ListedRemoved(p.nodes, z.open, z.list, formattingNode);
      return true, h;
    }
    var inScope := HasElementInScope(p.open, formattingNode.tag);
    if !inScope {
      NothingPopped(z, p.foster, pending, z);
      SameKeepsArk(z.open, z.list);
      return true, h;
    }
    var block := FindFurthestBlock(p.open, f);
    if block == null {
      EndFormatting(p, formattingNode, f);
      return true, h;
    }
    ghost var b := FirstSpecial(p.open, f);
    SpecialUnlisted(p.nodes, p.formatting, block);
    h := MoveOn(p, formattingNode, block, f, b, subject);
    return false, h;
  }

  // Steps 12 to 20.
  method MoveOn(p: Parser, formattingNode: Node, block: Node, f: nat, ghost b: nat, ghost subject: Tag)
    returns (ghost h: Choice)
    requires p.Valid() && Decide(p.open, p.formatting, subject) == Again(f, b)
    requires 1 <= f < b < |p.open| && formattingNode == p.open[f] && block == p.open[b]
    requires Formatting(formattingNode) in p.formatting && Formatting(block) !in p.formatting
    requires IsHtml(formattingNode, subject) && Active(p.formatting, formattingNode)
    requires p.foster ==> Sheltered(p.open, p.formatting, subject)
    modifies p`nodes, p`open, p`formatting, p.nodes
    ensures p.Valid() && fresh(p.nodes - old(p.nodes)) && p.Conserves(old(p.nodes), old(p.Reached()))
    ensures PassOver(p.document, p.foster, subject, old(Now(p)), h, Now(p))
    ensures p.foster ==> Sheltered(p.open, p.formatting, subject)
    ensures KeepsArk(old(p.open), old(p.formatting), p.open, p.formatting)
  {
    hide StackOK, ListOK, Tree, Reach, Decide, Adopted, Sheltered, Active, KeepsArk, PassOver;
    ghost var z := Now(p);
    ghost var m, gone, joined, c := AdoptBlock(p, formattingNode, block, f, b, subject);
    ghost var w := Before(z.d, p.document, z.open, z.list, f, b);
    AdoptedKeepsArk(w, p.foster, m, gone, joined, c, ShapeOf(p.nodes), p.open, p.formatting);
    h := Choice(m, gone, joined, c);
    IsPass(p.document, p.foster, subject, z, h, Now(p), f, b);
  }

  lemma IsPass(document: Node, foster: bool, subject: Tag, a: State, h: Choice, z: State, f: nat, b: nat)
    requires Decide(a.open, a.list, subject) == Again(f, b)
    requires Adopted(Before(a.d, document, a.open, a.list, f, b), foster, h.m, h.gone, h.joined, h.c,
               z.d, z.open, z.list)
    requires Tree(z.d) && StackOK(z.d, document, z.open)
    ensures PassOver(document, foster, subject, a, h, z)
  {
  }

  lemma SameKeepsArk(open: seq<Node>, list: seq<Entry>)
    ensures KeepsArk(open, list, open, list)
  {
  }

  lemma ListedRemoved(nodes: set<Node>, open: seq<Node>, list: seq<Entry>, n: Node)
    requires ListOK(nodes, list) && Formatting(n) in list
    ensures KeepsArk(open, list, open, RemoveAt(list, IndexOf(list, Formatting(n))))
  {
    RemoveKeepsArk(open, list, IndexOf(list, Formatting(n)));
  }

  // Step 11: no furthest block.
  method EndFormatting(p: Parser, formattingNode: Node, f: nat)
    requires p.Valid() && 0 < f < |p.open| && p.open[f] == formattingNode
    requires Formatting(formattingNode) in p.formatting
    requires forall i, j :: 0 <= i < j < |p.open| ==> p.open[i] != p.open[j]
    modifies p`nodes, p`open, p`formatting, p`pending, p.nodes
    ensures p.Valid() && fresh(p.nodes - old(p.nodes)) && p.Conserves(old(p.nodes), old(p.Reached()))
    ensures p.open == old(p.open)[..f]
    ensures p.formatting == RemoveAt(old(p.formatting), IndexOf(old(p.formatting), Formatting(formattingNode)))
    ensures Popped(old(Now(p)), p.foster, old(p.pending), Now(p), p.pending)
    ensures KeepsArk(old(p.open), old(p.formatting), p.open, p.formatting)
  {
    hide StackOK, ListOK, Tree, Reach, IndexOf, RemoveAt, KeepsArk;
    ghost var z, pending := Now(p), p.pending;
    ListedRemoved(p.nodes, z.open, z.list, formattingNode);
    NothingPopped(z, p.foster, pending, z);
    PopThrough(p, formattingNode, f, z, pending);
    p.RemoveFormatting(formattingNode);
    PrefixKeepsArk(z.open, p.formatting, f);
    KeepsArkOn(z.open, z.list, z.open, p.formatting, p.open, p.formatting);
  }

  lemma EntryAt(nodes: set<Node>, list: seq<Entry>, i: int)
    requires ListOK(nodes, list) && 0 <= i < |list| && list[i].Formatting?
    ensures IndexOf(list, list[i]) == i
  {
    assert list[i] in list;
  }

  lemma SpecialUnlisted(nodes: set<Node>, list: seq<Entry>, n: Node)
    requires ListOK(nodes, list) && IsSpecial(n)
    ensures Formatting(n) !in list
  {
  }
}
