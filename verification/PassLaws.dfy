/** What becomes of each element that one pass of the adoption agency walks over
    (step 14, gumbo-parser/src/parser.c), told by its place on the stack. */
module PassLaws {
  import opened Attributes
  import opened Tags
  import opened Dom
  import opened OpenElements
  import opened AdoptionWalk
  import opened AdoptionAgency
  import opened AdoptionArk

  lemma {:induction false} MidMember(passed: seq<Node>, m: map<Node, Node>, gone: set<Node>, n: Node)
    requires n !in m.Values
    ensures n in Mid(passed, m, gone) <==> n in passed && n in gone && n !in m
  {
    if passed != [] {
      MidMember(passed[1..], m, gone, n);
      assert passed == [passed[0]] + passed[1..];
      assert passed[0] in m ==> m[passed[0]] in m.Values;
    }
  }

  lemma {:induction false} MidClone(passed: seq<Node>, m: map<Node, Node>, gone: set<Node>, n: Node)
    requires n in passed && n in m
    ensures m[n] in Mid(passed, m, gone)
  {
    if passed[0] != n {
      MidClone(passed[1..], m, gone, n);
    }
  }

  lemma {:induction false} SubstAbsent(list: seq<Entry>, m: map<Node, Node>, gone: set<Node>, n: Node)
    requires n !in m.Values && (n in m || n in gone)
    ensures Formatting(n) !in Subst(list, m, gone)
  {
    if list != [] {
      SubstAbsent(list[1..], m, gone, n);
      var e := list[0];
      if e.Formatting? && e.node in m && e.node !in gone {
        assert m[e.node] in m.Values;
      }
      assert Formatting(n) !in Kept(e, m, gone);
    }
  }

  lemma RemovedMember(list: seq<Entry>, i: nat, x: Entry)
    requires DistinctEntries(list) && i < |list| && list[i].Formatting?
    ensures x in RemoveAt(list, i) <==> x in list && x != list[i]
  {
    assert list == list[..i] + [list[i]] + list[i + 1..];
  }

  lemma InsertedMember(s: seq<Entry>, k: nat, y: Entry, x: Entry)
    requires k <= |s|
    ensures x in InsertAt(s, k, y) <==> x == y || x in s
  {
    assert s == s[..k] + s[k..];
  }

  lemma RelistedMember(list: seq<Entry>, formatting: Node, anchor: Node, c: Node, n: Node)
    requires DistinctEntries(list) && Formatting(formatting) in list
    ensures Formatting(n) in Relisted(list, formatting, anchor, c) <==>
              n == c || (Formatting(n) in list && n != formatting)
  {
    hide DistinctEntries, RemoveAt, InsertAt, IndexOf;
    var i := IndexOf(list, Formatting(formatting));
    RemovedMember(list, i, Formatting(n));
    var rest := RemoveAt(list, i);
    InsertedMember(rest, if anchor == formatting then i else IndexOf(rest, Formatting(anchor)) + 1,
      Formatting(c), Formatting(n));
  }

  lemma StackMember(open: seq<Node>, f: nat, b: nat, mid: seq<Node>, c: Node, i: nat)
    requires f <= i < b < |open| && Distinct(open) && open[i] != c
    ensures open[i] in open[..f] + mid + [open[b], c] + open[b + 1..] <==> open[i] in mid
    ensures c in open[..f] + mid + [open[b], c] + open[b + 1..]
  {
    assert open[i] !in open[..f] && open[i] !in open[b + 1..] && open[i] != open[b];
    assert ([open[b], c])[1] == c;
  }

  // What the pass has to do with the elements on the stack and in the list.
  lemma Parts(w: Before, m: map<Node, Node>, gone: set<Node>, c: Node)
    requires Tree(w.d) && Ready(w) && Fates(w, w.f + 1, m, gone) && c !in w.d
    requires Distinct(Clones(w.open[w.f + 1..w.b], m))
    ensures Distinct(w.open) && forall i :: 0 <= i < |w.open| ==> w.open[i] in w.d && w.open[i] !in m.Values
    ensures forall n :: n in m ==> m[n] !in w.d && SameElement(m[n], n)
    ensures DistinctEntries(w.list) && Formatting(w.open[w.f]) in w.list
    ensures DistinctEntries(Subst(w.list, m, gone)) && Formatting(w.open[w.f]) in Subst(w.list, m, gone)
    ensures forall n :: n in m ==> n !in gone && Formatting(n) in w.list
  {
    hide SameElement, Clones, Fates, Subst, OneToOne, DistinctEntries, Distinct;
    ReadyLists(w);
    FatedBy(w, m, gone);
    NotClones(w, m, gone);
    SubstDistinct(w.list, m, gone);
    Unfated(w, m, gone, w.f);
    SubstMember(w.list, m, gone, w.open[w.f]);
  }

  lemma Apart(w: Before, i: nat)
    requires Distinct(w.open) && w.f <= i < w.b < |w.open| && w.open[i] in w.open[w.f + 1..w.b]
    ensures i > w.f
  {
  }

  // The list after the pass.
  lemma ListMember(w: Before, m: map<Node, Node>, gone: set<Node>, c: Node, anchor: Node, i: nat)
    requires Tree(w.d) && Ready(w) && Fates(w, w.f + 1, m, gone) && c !in w.d && w.f <= i < w.b
    requires Distinct(Clones(w.open[w.f + 1..w.b], m))
    ensures var list, n := Relisted(Subst(w.list, m, gone), w.open[w.f], anchor, c), w.open[i];
            && Formatting(n) !in list && Formatting(c) in list
            && (n in m ==> Formatting(m[n]) in list)
  {
    hide SameElement, Clones, Fates, Subst, DistinctEntries, Distinct, Relisted;
    Parts(w, m, gone, c);
    var left, n := Subst(w.list, m, gone), w.open[i];
    RelistedMember(left, w.open[w.f], anchor, c, n);
    RelistedMember(left, w.open[w.f], anchor, c, c);
    if n in m || n in gone {
      SubstAbsent(w.list, m, gone, n);
    } else {
      Unlisted(w, m, gone, i);
      SubstMember(w.list, m, gone, n);
    }
    if n in m {
      SubstHas(w.list, m, gone, n);
      RelistedMember(left, w.open[w.f], anchor, c, m[n]);
    }
  }

  lemma Unlisted(w: Before, m: map<Node, Node>, gone: set<Node>, i: nat)
    requires Fates(w, w.f + 1, m, gone) && w.f <= i < w.b && w.open[i] !in m && w.open[i] !in gone
    ensures i == w.f || Formatting(w.open[i]) !in w.list
  {
    assert FateOf(w, w.f + 1, i, m, gone);
  }

  // The distance of an element from the furthest block decides on it. What is not
  // listed leaves the stack. A listed element leaves the list; up to the third a
  // copy of it takes its place on the stack and in the list, and beyond the third
  // it stays on the stack itself. The formatting element leaves both.
  lemma WhatBecomes(w: Before, foster: bool, m: map<Node, Node>, gone: set<Node>, joined: Shape, c: Node,
      d: Shape, open: seq<Node>, list: seq<Entry>, i: nat)
    requires Adopted(w, foster, m, gone, joined, c, d, open, list) && w.f <= i < w.b
    ensures var n := w.open[i];
            && Formatting(n) !in list
            && (n in open <==> w.f < i && Formatting(n) in w.list && w.b - i > 3)
            && (i == w.f || (Formatting(n) in w.list && w.b - i <= 3) ==>
                  exists k :: k in open && Formatting(k) in list && k !in w.d && SameElement(k, n))
  {
    hide Tree, AdoptAll, Joined, Wrapped, Detach, Mid, Clones, Subst, Relisted, SameElement, Anchor, Ready,
         IndexOf, Fated, Distinct, DistinctEntries;
    var passed := w.open[w.f + 1..w.b];
    Parts(w, m, gone, c);
    StackMember(w.open, w.f, w.b, Mid(passed, m, gone), c, i);
    ListMember(w, m, gone, c, Anchor(w.open[w.f], Clones(passed, m)), i);
    assert FateOf(w, w.f + 1, i, m, gone);
    MidMember(passed, m, gone, w.open[i]);
    if i > w.f { assert passed[i - w.f - 1] == w.open[i]; }
    if w.open[i] in passed { Apart(w, i); }
    if i == w.f {
      assert c in open && Formatting(c) in list && c !in w.d;
    } else if w.open[i] in m {
      MidClone(passed, m, gone, w.open[i]);
      var k := m[w.open[i]];
      assert k in open && Formatting(k) in list && k !in w.d && SameElement(k, w.open[i]);
    }
  }
}
