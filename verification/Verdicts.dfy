/** How the adoption agency algorithm chooses what to do from the stack and the
    list (steps 6 to 11), and what each choice means position by position. */
module Verdicts {
  import opened Attributes
  import opened Tags
  import opened Dom
  import opened OpenElements
  import opened Shelter

  predicate IsSpecial(n: Node)
  {
    IsSpecialTag(n.ns, n.tag)
  }

  // Step 6: the last listed element with the tag after the last marker, or -1.
  function FindActive(list: seq<Entry>, tag: Tag): (i: int)
    ensures -1 <= i < |list|
    ensures i >= 0 ==> list[i].Formatting? && IsHtml(list[i].node, tag) && Active(list, list[i].node)
    ensures forall j :: i < j < |list| && list[j].Formatting? && IsHtml(list[j].node, tag) ==> !NoMarkerFrom(list, j)
    ensures i >= 0 ==> NoMarkerFrom(list, i)
  {
    if list == [] || list[|list| - 1] == Marker then -1
    else if IsHtml(list[|list| - 1].node, tag) then
      assert NoMarkerFrom(list, |list| - 1);
      |list| - 1
    else
      var i := FindActive(list[..|list| - 1], tag);
      assert i >= 0 ==> Active(list, list[i].node) by {
        if i >= 0 { StillActive(list[..|list| - 1], list[|list| - 1], list[i].node); }
      }
      i
  }

  lemma StillActive(list: seq<Entry>, e: Entry, n: Node)
    requires Active(list, n) && e != Marker
    ensures |list + [e]| == |list| + 1 && Active(list + [e], n)
  {
    var p :| 0 <= p < |list| && list[p] == Formatting(n) && NoMarkerFrom(list, p);
    assert NoMarkerFrom(list + [e], p);
    assert (list + [e])[p] == Formatting(n);
  }

  // Step 8, has_an_element_in_scope: by tag, from the top of the stack.
  predicate InScope(open: seq<Node>, tag: Tag)
  {
    open != []
    && var n := open[|open| - 1];
       IsHtml(n, tag) || (!IsScopeTag(n.ns, n.tag) && InScope(open[..|open| - 1], tag))
  }

  // Step 10: the first special element from there on, or -1.
  function FirstSpecial(open: seq<Node>, from: nat): (b: int)
    requires from <= |open|
    ensures b == -1 || from <= b < |open|
    ensures b >= 0 ==> IsSpecial(open[b])
    ensures forall j :: from <= j < (if b >= 0 then b else |open|) ==> !IsSpecial(open[j])
    decreases |open| - from
  {
    if from == |open| then -1 else if IsSpecial(open[from]) then from else FirstSpecial(open, from + 1)
  }

  // Any other end tag: the topmost element with the tag above every special
  // element, or -1.
  function Closable(open: seq<Node>, tag: Tag): (k: int)
    ensures -1 <= k < |open|
    ensures k >= 0 ==> IsHtml(open[k], tag)
  {
    if open == [] then -1
    else
      var n := open[|open| - 1];
      if IsHtml(n, tag) then |open| - 1 else if IsSpecial(n) then -1 else Closable(open[..|open| - 1], tag)
  }

  // What a pass comes to, given the stack and the list: either the stack and
  // the list at the end of the algorithm, or the positions of the formatting
  // element and of the furthest block.
  datatype Verdict = Done(open: seq<Node>, list: seq<Entry>) | Again(f: nat, b: nat)

  function Decide(open: seq<Node>, list: seq<Entry>, subject: Tag): (v: Verdict)
  {
    var i := FindActive(list, subject);
    if i == -1 then
      var k := Closable(open, subject);
      Done(if k == -1 then open else open[..k], list)
    else
      var f := IndexOf(open, list[i].node);
      if f == -1 then Done(open, RemoveAt(list, i))
      else if !InScope(open, subject) then Done(open, list)
      else
        var b := FirstSpecial(open, f);
        if b == -1 then Done(open[..f], RemoveAt(list, i)) else Again(f, b)
  }

  // Step 2.
  predicate Trivial(open: seq<Node>, list: seq<Entry>, subject: Tag)
  {
    open != [] && IsHtml(open[|open| - 1], subject) && Formatting(open[|open| - 1]) !in list
  }

  // Entry i is the last one with the tag, and no marker comes after it.
  predicate LastListed(list: seq<Entry>, subject: Tag, i: int)
  {
    && 0 <= i < |list| && list[i].Formatting? && IsHtml(list[i].node, subject)
    && forall j :: i < j < |list| ==> list[j] != Marker && !IsHtml(list[j].node, subject)
  }

  // No entry with the tag comes after the last marker.
  predicate NoneListed(list: seq<Entry>, subject: Tag)
  {
    forall j :: 0 <= j < |list| && list[j].Formatting? && IsHtml(list[j].node, subject) ==>
      exists q :: j < q < |list| && list[q] == Marker
  }

  // An element that ends the scope is open above every element with the tag.
  predicate Shielded(open: seq<Node>, subject: Tag)
  {
    exists s :: 0 <= s < |open| && IsScopeTag(open[s].ns, open[s].tag)
                && forall j :: s <= j < |open| ==> !IsHtml(open[j], subject)
  }

  lemma {:induction false} FindActiveIs(list: seq<Entry>, subject: Tag)
    ensures forall i :: LastListed(list, subject, i) ==> FindActive(list, subject) == i
    ensures FindActive(list, subject) == -1 <==> NoneListed(list, subject)
  {
    var f := FindActive(list, subject);
    forall i | LastListed(list, subject, i) ensures f == i {
      assert NoMarkerFrom(list, i);
    }
    if f >= 0 && NoneListed(list, subject) {
      assert false;
    }
    if f == -1 {
      forall j | 0 <= j < |list| && list[j].Formatting? && IsHtml(list[j].node, subject)
        ensures exists q :: j < q < |list| && list[q] == Marker
      {
        assert !NoMarkerFrom(list, j);
      }
    }
  }

  // The scope by positions: some element with the tag, and nothing that ends
  // the scope above it.
  lemma {:induction false} InScopeIs(open: seq<Node>, tag: Tag)
    ensures InScope(open, tag) <==>
            exists i :: 0 <= i < |open| && IsHtml(open[i], tag)
                        && forall j :: i < j < |open| ==> !IsScopeTag(open[j].ns, open[j].tag)
  {
    if open != [] {
      var below := open[..|open| - 1];
      var top := open[|open| - 1];
      InScopeIs(below, tag);
      if !IsHtml(top, tag) {
        if i :| 0 <= i < |open| && IsHtml(open[i], tag)
                && forall j :: i < j < |open| ==> !IsScopeTag(open[j].ns, open[j].tag) {
          assert below[i] == open[i];
        }
        if InScope(open, tag) {
          var i :| 0 <= i < |below| && IsHtml(below[i], tag)
                   && forall j :: i < j < |below| ==> !IsScopeTag(below[j].ns, below[j].tag);
          assert open[i] == below[i];
        }
      }
    }
  }

  // An open element with the tag is in scope exactly when it is not shielded.
  lemma ShieldedIs(open: seq<Node>, subject: Tag, k: nat)
    requires k < |open| && IsHtml(open[k], subject)
    ensures InScope(open, subject) <==> !Shielded(open, subject)
  {
    hide InScope;
    InScopeIs(open, subject);
    var i := Topmost(open, subject, k);
    if !InScope(open, subject) {
      var s :| i < s < |open| && IsScopeTag(open[s].ns, open[s].tag);
      assert Shielded(open, subject);
    }
  }

  function Topmost(open: seq<Node>, subject: Tag, k: nat): (i: nat)
    requires k < |open| && IsHtml(open[k], subject)
    ensures k <= i < |open| && IsHtml(open[i], subject)
    ensures forall j :: i < j < |open| ==> !IsHtml(open[j], subject)
  {
    if k == |open| - 1 || IsHtml(open[|open| - 1], subject) then |open| - 1
    else Topmost(open[..|open| - 1], subject, k)
  }

  // Any other end tag by positions.
  lemma {:induction false} ClosableIs(open: seq<Node>, tag: Tag)
    ensures var k := Closable(open, tag);
            && (k >= 0 ==> forall j :: k < j < |open| ==> !IsHtml(open[j], tag) && !IsSpecial(open[j]))
            && (k == -1 ==> forall i :: 0 <= i < |open| && IsHtml(open[i], tag) ==>
                              exists j :: i < j < |open| && IsSpecial(open[j]))
  {
    if open != [] {
      ClosableIs(open[..|open| - 1], tag);
      var top := |open| - 1;
      if Closable(open, tag) == -1 {
        forall i | 0 <= i < |open| && IsHtml(open[i], tag) ensures exists j :: i < j < |open| && IsSpecial(open[j]) {
          assert open[..top][i] == open[i];
          if !IsSpecial(open[top]) {
            var j :| i < j < top && IsSpecial(open[..top][j]);
            assert IsSpecial(open[j]);
          }
        }
      }
    }
  }

  // Any other end tag: the stack is cut at the topmost element with the tag
  // that has no special element above it, or stays.
  ghost predicate AnyOther(open0: seq<Node>, tag: Tag, open: seq<Node>)
  {
    || (exists k :: 0 <= k < |open0| && IsHtml(open0[k], tag) && open == open0[..k]
                    && forall j :: k < j < |open0| ==> !IsHtml(open0[j], tag) && !IsSpecial(open0[j]))
    || (open == open0
        && forall i :: 0 <= i < |open0| && IsHtml(open0[i], tag) ==> exists j :: i < j < |open0| && IsSpecial(open0[j]))
  }

  // What an end tag comes to that is not about an unlisted current node: the
  // stack and the list in the end, and whether anything was moved.
  ghost predicate Explained(open0: seq<Node>, list0: seq<Entry>, subject: Tag, moved: bool, open: seq<Node>,
      list: seq<Entry>)
  {
    && (NoneListed(list0, subject) ==> !moved && list == list0 && AnyOther(open0, subject, open))
    && forall i :: LastListed(list0, subject, i) ==> ListedExplained(open0, list0, subject, i, moved, open, list)
  }

  ghost predicate ListedExplained(open0: seq<Node>, list0: seq<Entry>, subject: Tag, i: nat, moved: bool,
      open: seq<Node>, list: seq<Entry>)
    requires i < |list0| && list0[i].Formatting?
  {
    var n := list0[i].node;
    if n !in open0 then !moved && open == open0 && list == list0[..i] + list0[i + 1..]
    else if Shielded(open0, subject) then !moved && open == open0 && list == list0
    else
      exists f :: 0 <= f < |open0| && open0[f] == n
        && (moved <==> exists b :: f <= b < |open0| && IsSpecial(open0[b]))
        && (!moved ==> open == open0[..f] && list == list0[..i] + list0[i + 1..])
  }

  lemma DoneIs(open0: seq<Node>, list0: seq<Entry>, subject: Tag, open: seq<Node>, list: seq<Entry>)
    requires Decide(open0, list0, subject) == Done(open, list)
    ensures Explained(open0, list0, subject, false, open, list)
  {
    hide InScope, FindActive, Closable, FirstSpecial, AnyOther;
    FindActiveIs(list0, subject);
    if NoneListed(list0, subject) {
      ClosableIsAny(open0, subject);
    }
    forall i | LastListed(list0, subject, i) ensures ListedExplained(open0, list0, subject, i, false, open, list) {
      if list0[i].node in open0 {
        var f := IndexOf(open0, list0[i].node);
        ShieldedIs(open0, subject, f);
      }
    }
  }

  lemma ClosableIsAny(open: seq<Node>, tag: Tag)
    ensures var k := Closable(open, tag); AnyOther(open, tag, if k == -1 then open else open[..k])
  {
    hide Closable;
    ClosableIs(open, tag);
  }

  lemma AgainIs(open0: seq<Node>, list0: seq<Entry>, subject: Tag, open: seq<Node>, list: seq<Entry>)
    requires Decide(open0, list0, subject).Again?
    ensures Explained(open0, list0, subject, true, open, list)
  {
    hide InScope, FindActive, Closable, FirstSpecial, AnyOther;
    FindActiveIs(list0, subject);
    forall i | LastListed(list0, subject, i) ensures ListedExplained(open0, list0, subject, i, true, open, list) {
      var f := IndexOf(open0, list0[i].node);
      ShieldedIs(open0, subject, f);
    }
  }

  // The tags that end the scope and those that do not, for the elements that
  // the algorithm meets.
  lemma ScopeTags(ns: Namespace, tag: Tag)
    ensures IsScopeTag(Html, HTML) && IsScopeTag(Html, TABLE) && IsScopeTag(Html, TEMPLATE) && IsScopeTag(Html, APPLET)
    ensures IsScopeTag(Svg, FOREIGNOBJECT) && IsScopeTag(Svg, DESC) && IsScopeTag(Svg, TITLE) && IsScopeTag(MathMl, MI)
    ensures !IsScopeTag(Html, BODY) && !IsScopeTag(Html, P) && !IsScopeTag(Html, DIV) && !IsScopeTag(Html, LI)
    ensures !IsScopeTag(Html, TBODY) && !IsScopeTag(Html, TR) && !IsScopeTag(Html, TITLE)
    ensures IsScopeTag(ns, tag) ==> IsSpecialTag(ns, tag)
    ensures IsFormattingTag(tag) ==> !IsSpecialTag(ns, tag) && !HasImpliedEndTag(ns, tag)
    ensures IsTablePartTag(ns, tag) || (ns == Html && tag in {BODY, DD, DIV, DT, LI, P}) ==> IsSpecialTag(ns, tag)
  {
  }
}
