/** Step 14 of the adoption agency algorithm: what has become of the stack, of
    the list and of the links when the loop has walked down to an element. */
module AdoptionWalk {
  import opened Attributes
  import opened Tags
  import opened Dom
  import opened OpenElements
  import opened AdoptionSteps

  // What step 14 leaves on the stack of the elements it walks over: clones in
  // place of the keys of m, the elements of gone as they are, nothing else.
  ghost function Mid(passed: seq<Node>, m: map<Node, Node>, gone: set<Node>): (r: seq<Node>)
  {
    if passed == [] then []
    else
      (if passed[0] in m then [m[passed[0]]] else if passed[0] in gone then [passed[0]] else [])
      + Mid(passed[1..], m, gone)
  }

  // What it leaves in the list: clones in place of the keys of m, and the
  // elements of gone taken out.
  ghost function Kept(e: Entry, m: map<Node, Node>, gone: set<Node>): (r: seq<Entry>)
  {
    match e
    case Marker => [Marker]
    case Formatting(n) => if n in gone then [] else if n in m then [Formatting(m[n])] else [e]
  }

  ghost function Subst(list: seq<Entry>, m: map<Node, Node>, gone: set<Node>): (r: seq<Entry>)
  {
    if list == [] then [] else Kept(list[0], m, gone) + Subst(list[1..], m, gone)
  }

  lemma {:induction false} MidExtends(passed: seq<Node>, m: map<Node, Node>, gone: set<Node>, n: Node, c: Node)
    requires n !in passed
    ensures Mid(passed, m[n := c], gone) == Mid(passed, m, gone)
    ensures Mid(passed, m, gone + {n}) == Mid(passed, m, gone)
  {
    if passed != [] {
      assert passed[0] in passed;
      MidExtends(passed[1..], m, gone, n, c);
    }
  }

  lemma {:induction false} SubstExtends(list: seq<Entry>, m: map<Node, Node>, gone: set<Node>, n: Node, c: Node)
    requires Formatting(n) !in list
    ensures Subst(list, m[n := c], gone) == Subst(list, m, gone)
    ensures Subst(list, m, gone + {n}) == Subst(list, m, gone)
  {
    if list != [] {
      assert list[0] in list;
      SubstExtends(list[1..], m, gone, n, c);
    }
  }

  lemma {:induction false} SubstEmpty(list: seq<Entry>)
    ensures Subst(list, map[], {}) == list
  {
    if list != [] {
      SubstEmpty(list[1..]);
    }
  }

  lemma {:induction false} SubstMember(list: seq<Entry>, m: map<Node, Node>, gone: set<Node>, n: Node)
    requires n !in m && n !in m.Values && n !in gone
    ensures Formatting(n) in Subst(list, m, gone) <==> Formatting(n) in list
  {
    if list != [] {
      SubstMember(list[1..], m, gone, n);
      KeptMember(list[0], m, gone, n);
      assert list == [list[0]] + list[1..];
      hide Kept;
    }
  }

  lemma KeptMember(e: Entry, m: map<Node, Node>, gone: set<Node>, n: Node)
    requires n !in m && n !in m.Values && n !in gone
    ensures Formatting(n) in Kept(e, m, gone) <==> e == Formatting(n)
    ensures |Kept(e, m, gone)| <= 1
  {
  }

  ghost predicate DistinctEntries(list: seq<Entry>)
  {
    forall i, j :: 0 <= i < j < |list| && list[i].Formatting? && list[j].Formatting? ==> list[i].node != list[j].node
  }

  // Replacing or removing one more entry of the list.
  lemma {:induction false} SubstStep(list: seq<Entry>, m: map<Node, Node>, gone: set<Node>, n: Node, c: Node)
    requires DistinctEntries(list) && Formatting(n) in list
    requires n !in m && n !in m.Values && n !in gone
    ensures Formatting(n) in Subst(list, m, gone)
    ensures var cur := Subst(list, m, gone); var i := IndexOf(cur, Formatting(n));
            && Subst(list, m[n := c], gone) == cur[i := Formatting(c)]
            && Subst(list, m, gone + {n}) == RemoveAt(cur, i)
  {
    if list[0] == Formatting(n) {
      SubstFirst(list, m, gone, n, c);
    } else {
      SubstStep(list[1..], m, gone, n, c);
      HeadStays(list[0], m, gone, n, c);
      hide Kept, IndexOf, RemoveAt, DistinctEntries;
      UnderHead(Kept(list[0], m, gone), Subst(list[1..], m, gone), Formatting(n), Formatting(c));
    }
  }

  lemma SubstFirst(list: seq<Entry>, m: map<Node, Node>, gone: set<Node>, n: Node, c: Node)
    requires DistinctEntries(list) && list != [] && list[0] == Formatting(n)
    requires n !in m && n !in m.Values && n !in gone
    ensures Formatting(n) in Subst(list, m, gone)
    ensures var cur := Subst(list, m, gone); var i := IndexOf(cur, Formatting(n));
            && Subst(list, m[n := c], gone) == cur[i := Formatting(c)]
            && Subst(list, m, gone + {n}) == RemoveAt(cur, i)
  {
    assert Formatting(n) !in list[1..];
    SubstExtends(list[1..], m, gone, n, c);
    hide IndexOf, RemoveAt, DistinctEntries;
    First(Subst(list[1..], m, gone), Formatting(n), Formatting(c));
  }

  lemma First<T>(tail: seq<T>, x: T, y: T)
    ensures IndexOf([x] + tail, x) == 0 && ([x] + tail)[0 := y] == [y] + tail
    ensures RemoveAt([x] + tail, 0) == tail == [] + tail
  {
  }

  lemma HeadStays(e: Entry, m: map<Node, Node>, gone: set<Node>, n: Node, c: Node)
    requires e != Formatting(n) && n !in m && n !in m.Values && n !in gone
    ensures Kept(e, m[n := c], gone) == Kept(e, m, gone) == Kept(e, m, gone + {n})
    ensures Formatting(n) !in Kept(e, m, gone) && |Kept(e, m, gone)| <= 1
  {
  }

  lemma UnderHead<T>(head: seq<T>, tail: seq<T>, x: T, y: T)
    requires |head| <= 1 && x !in head && x in tail
    ensures var i := IndexOf(tail, x); var k := IndexOf(head + tail, x);
            k >= 0 && head + tail[i := y] == (head + tail)[k := y]
              && head + RemoveAt(tail, i) == RemoveAt(head + tail, k)
  {
    hide IndexOf, RemoveAt;
    var i, s := IndexOf(tail, x), head + tail;
    if head == [] {
      assert s == tail;
      assert head + tail[i := y] == tail[i := y];
      assert head + RemoveAt(tail, i) == RemoveAt(tail, i);
    } else {
      Cons(head[0], tail, x);
      assert s == [head[0]] + tail;
      ConsAt(head[0], tail, i, y);
      assert head == [head[0]];
    }
  }

  lemma Cons<T>(h: T, tail: seq<T>, x: T)
    requires h != x && x in tail
    ensures IndexOf([h] + tail, x) == IndexOf(tail, x) + 1
  {
    assert ([h] + tail)[1..] == tail;
  }

  lemma ConsAt<T>(h: T, tail: seq<T>, i: nat, y: T)
    requires i < |tail|
    ensures [h] + tail[i := y] == ([h] + tail)[i + 1 := y]
    ensures [h] + RemoveAt(tail, i) == RemoveAt([h] + tail, i + 1)
  {
  }

  // The clones, in the order in which they are made.
  ghost function Clones(passed: seq<Node>, m: map<Node, Node>): (r: seq<Node>)
  {
    if passed == [] then [] else Clones(passed[1..], m) + if passed[0] in m then [m[passed[0]]] else []
  }

  lemma {:induction false} ClonesExtends(passed: seq<Node>, m: map<Node, Node>, n: Node, c: Node)
    requires n !in passed
    ensures Clones(passed, m[n := c]) == Clones(passed, m)
  {
    if passed != [] {
      assert passed[0] in passed;
      ClonesExtends(passed[1..], m, n, c);
    }
  }

  // The subtree of b, adopted by one new node after another.
  ghost predicate NewElements(d: Shape, clones: seq<Node>)
  {
    Distinct(clones) && forall i :: 0 <= i < |clones| ==> clones[i] !in d && IsElement(clones[i])
  }

  function Last(b: Node, clones: seq<Node>): (n: Node)
  {
    if clones == [] then b else clones[|clones| - 1]
  }

  ghost function AdoptAll(d: Shape, b: Node, clones: seq<Node>): (r: Shape)
    requires Tree(d) && b in d && NewElements(d, clones)
    ensures Tree(r) && r.Keys == d.Keys + set n | n in clones
  {
    if clones == [] then d
    else
      var k := |clones| - 1;
      assert clones == clones[..k] + [clones[k]];
      var e := AdoptAll(d, b, clones[..k]);
      AdoptTree(e, Last(b, clones[..k]), clones[k]);
      Adopt(e, Last(b, clones[..k]), clones[k])
  }

  lemma AdoptOneMore(d: Shape, b: Node, clones: seq<Node>, c: Node)
    requires Tree(d) && b in d && NewElements(d, clones) && c !in AdoptAll(d, b, clones) && IsElement(c)
    ensures NewElements(d, clones + [c]) && Last(b, clones) in AdoptAll(d, b, clones)
    ensures AdoptAll(d, b, clones + [c]) == Adopt(AdoptAll(d, b, clones), Last(b, clones), c)
    ensures Last(b, clones + [c]) == c
  {
    assert (clones + [c])[..|clones|] == clones;
  }

  // The situation before step 14, with the formatting element at f and the
  // furthest block at b.
  datatype Before = Before(d: Shape, document: Node, open: seq<Node>, list: seq<Entry>, f: nat, b: nat)

  ghost predicate Ready(w: Before)
  {
    && Tree(w.d) && StackOK(w.d, w.document, w.open) && ListOK(w.d.Keys, w.list)
    && 1 <= w.f < w.b < |w.open|
    && Formatting(w.open[w.f]) in w.list && Formatting(w.open[w.b]) !in w.list
  }

  // Of the elements passed, the listed ones are cloned if among the first three
  // and only unlisted otherwise.
  ghost predicate FateOf(w: Before, s: nat, i: nat, m: map<Node, Node>, gone: set<Node>)
    requires i < |w.open|
  {
    var n := w.open[i];
    && (n in m <==> s <= i < w.b && Formatting(n) in w.list && w.b - i <= 3)
    && (n in gone <==> s <= i < w.b && Formatting(n) in w.list && w.b - i > 3)
  }

  ghost predicate Fates(w: Before, s: nat, m: map<Node, Node>, gone: set<Node>)
  {
    && w.f < s <= w.b < |w.open|
    && (forall i {:trigger FateOf(w, s, i, m, gone)} :: 0 <= i < |w.open| ==> FateOf(w, s, i, m, gone))
    && (forall n :: n in m ==> n in w.open && m[n] !in w.d && SameElement(m[n], n))
    && (forall n :: n in gone ==> n in w.open)
  }

  ghost predicate StackLeft(w: Before, s: nat, m: map<Node, Node>, gone: set<Node>, open: seq<Node>)
  {
    s <= w.b <= |w.open| && open == w.open[..s] + Mid(w.open[s..w.b], m, gone) + w.open[w.b..]
  }

  ghost predicate LinksLeft(w: Before, s: nat, m: map<Node, Node>, d: Shape)
    requires Tree(w.d)
  {
    && s <= w.b < |w.open| && w.open[w.b] in w.d && NewElements(w.d, Clones(w.open[s..w.b], m))
    && d == AdoptAll(w.d, w.open[w.b], Clones(w.open[s..w.b], m))
    && forall n :: n in m ==> m[n] in d
  }

  // The loop has come down to s.
  ghost predicate Walking(w: Before, s: nat, m: map<Node, Node>, gone: set<Node>, d: Shape, open: seq<Node>,
      list: seq<Entry>)
    requires Tree(w.d)
  {
    && Fates(w, s, m, gone)
    && StackLeft(w, s, m, gone, open) && LinksLeft(w, s, m, d)
    && list == Subst(w.list, m, gone)
  }

  lemma OpenDistinct(d: Shape, open: seq<Node>)
    requires Tree(d) && (forall i :: 0 <= i < |open| ==> open[i] in d) && Ordered(d, open)
    ensures Distinct(open)
    ensures forall i :: 0 <= i < |open| ==> IndexOf(open, open[i]) == i
  {
    forall i, j | 0 <= i < j < |open| ensures open[i] != open[j] {
      assert IsAnc(d, open[i], open[i]);
    }
    forall i | 0 <= i < |open| ensures IndexOf(open, open[i]) == i {
      assert open[i] in open;
    }
  }

  lemma StartWalking(w: Before)
    requires Ready(w)
    ensures Walking(w, w.b, map[], {}, w.d, w.open, w.list)
  {
    assert w.open[w.b..w.b] == [];
    assert w.open == w.open[..w.b] + w.open[w.b..];
    SubstEmpty(w.list);
  }

  // The element the loop looks at next.
  lemma NextElement(w: Before, s: nat)
    requires Ready(w) && w.f < s <= w.b
    ensures var n := w.open[s - 1];
            && n in w.d && n !in w.open[s..w.b]
            && w.open[s - 1..w.b] == [n] + w.open[s..w.b] && w.open[..s] == w.open[..s - 1] + [n]
  {
    StackKnown(w);
    var n := w.open[s - 1];
    assert w.open[s - 1..w.b] == [n] + w.open[s..w.b];
    assert w.open[..s] == w.open[..s - 1] + [n];
  }

  lemma StackKnown(w: Before)
    requires Ready(w)
    ensures Distinct(w.open) && forall i :: 0 <= i < |w.open| ==> w.open[i] in w.d
  {
    hide Distinct;
    OpenDistinct(w.d, w.open);
  }

  lemma NotYet(w: Before, s: nat, m: map<Node, Node>, gone: set<Node>)
    requires Ready(w) && Fates(w, s, m, gone)
    ensures var n := w.open[s - 1];
            && n !in m && n !in m.Values && n !in gone
            && (Formatting(n) in Subst(w.list, m, gone) <==> Formatting(n) in w.list)
  {
    NextElement(w, s);
    hide Ready;
    assert FateOf(w, s, s - 1, m, gone);
    SubstMember(w.list, m, gone, w.open[s - 1]);
  }

  lemma SliceOne(s: seq<Node>, k: nat, b: nat)
    requires k < b <= |s|
    ensures s[k..b] == [s[k]] + s[k + 1..b] && s[k..b][1..] == s[k + 1..b] && s[k..b][0] == s[k]
    ensures s[..k + 1] == s[..k] + [s[k]]
  {
  }

  // One more fate decided.
  ghost predicate NextFate(w: Before, s: nat, m: map<Node, Node>, gone: set<Node>, c: Node, i: nat)
    requires 0 < s <= |w.open| && i < |w.open|
  {
    var n := w.open[s - 1]; var listed := Formatting(n) in w.list;
    && (!listed ==> FateOf(w, s - 1, i, m, gone))
    && (listed && w.b - (s - 1) > 3 ==> FateOf(w, s - 1, i, m, gone + {n}))
    && (listed && w.b - (s - 1) <= 3 ==> FateOf(w, s - 1, i, m[n := c], gone))
  }

  lemma FatesAt(w: Before, s: nat, m: map<Node, Node>, gone: set<Node>, c: Node, i: nat)
    requires Ready(w) && Fates(w, s, m, gone) && i < |w.open|
    ensures NextFate(w, s, m, gone, c, i)
  {
    OpenDistinct(w.d, w.open);
    hide Ready, SameElement, Subst;
    assert FateOf(w, s, i, m, gone);
  }

  lemma FatesStep(w: Before, s: nat, m: map<Node, Node>, gone: set<Node>, c: Node)
    requires Ready(w) && Fates(w, s, m, gone) && w.f < s - 1
    ensures var n := w.open[s - 1];
            if Formatting(n) !in w.list then Fates(w, s - 1, m, gone)
            else if w.b - (s - 1) > 3 then Fates(w, s - 1, m, gone + {n})
            else c !in w.d && SameElement(c, n) ==> Fates(w, s - 1, m[n := c], gone)
  {
    var n, t := w.open[s - 1], s - 1;
    var m', gone' := m[n := c], gone + {n};
    assert forall i | 0 <= i < |w.open| :: NextFate(w, s, m, gone, c, i) by {
      forall i | 0 <= i < |w.open| ensures NextFate(w, s, m, gone, c, i) { FatesAt(w, s, m, gone, c, i); }
    }
    hide Ready, SameElement, Subst, FateOf;
    if Formatting(n) !in w.list {
      forall i | 0 <= i < |w.open| ensures FateOf(w, t, i, m, gone) { assert NextFate(w, s, m, gone, c, i); }
    } else if w.b - t > 3 {
      forall i | 0 <= i < |w.open| ensures FateOf(w, t, i, m, gone') { assert NextFate(w, s, m, gone, c, i); }
    } else {
      forall i | 0 <= i < |w.open| ensures FateOf(w, t, i, m', gone) { assert NextFate(w, s, m, gone, c, i); }
    }
  }

  // The element just passed stays, leaves or is replaced.
  lemma StackStep(w: Before, s: nat, m: map<Node, Node>, gone: set<Node>, open: seq<Node>, c: Node)
    requires Ready(w) && Fates(w, s, m, gone) && StackLeft(w, s, m, gone, open)
    ensures s <= |open| && open[s - 1] == w.open[s - 1]
    ensures StackLeft(w, s - 1, m, gone, RemoveAt(open, s - 1))
    ensures StackLeft(w, s - 1, m, gone + {w.open[s - 1]}, open)
    ensures StackLeft(w, s - 1, m[w.open[s - 1] := c], gone, open[s - 1 := c])
  {
    hide Ready, Subst, SameElement, FateOf;
    assert w.f < s <= w.b < |w.open|;
    NextElement(w, s);
    NotYet(w, s, m, gone);
    var n, rest := w.open[s - 1], w.open[s..w.b];
    SliceOne(w.open, s - 1, w.b);
    MidExtends(rest, m, gone, n, c);
    var mid := Mid(rest, m, gone);
    assert Mid(w.open[s - 1..w.b], m, gone) == [] + mid;
    assert Mid(w.open[s - 1..w.b], m, gone + {n}) == [n] + mid;
    assert Mid(w.open[s - 1..w.b], m[n := c], gone) == [c] + mid;
    hide Mid;
    SpliceAt(w.open[..s - 1], n, mid, w.open[w.b..], c);
  }

  lemma SpliceAt<T>(low: seq<T>, n: T, mid: seq<T>, high: seq<T>, c: T)
    ensures var open := (low + [n]) + mid + high;
            && open[|low|] == n
            && RemoveAt(open, |low|) == low + ([] + mid) + high
            && open == low + ([n] + mid) + high
            && open[|low| := c] == low + ([c] + mid) + high
  {
  }

  lemma LinksStay(w: Before, s: nat, m: map<Node, Node>, d: Shape)
    requires Tree(w.d) && LinksLeft(w, s, m, d) && 0 < s && w.open[s - 1] !in m
    ensures LinksLeft(w, s - 1, m, d) && Clones(w.open[s - 1..w.b], m) == Clones(w.open[s..w.b], m)
  {
    hide AdoptAll, NewElements, Tree;
    SliceOne(w.open, s - 1, w.b);
    assert Clones(w.open[s - 1..w.b], m) == Clones(w.open[s..w.b], m) + [] == Clones(w.open[s..w.b], m);
  }

  lemma LinksAdopt(w: Before, s: nat, m: map<Node, Node>, gone: set<Node>, d: Shape, c: Node)
    requires Ready(w) && Fates(w, s, m, gone) && LinksLeft(w, s, m, d) && c !in d && IsElement(c)
    ensures var last, n := Last(w.open[w.b], Clones(w.open[s..w.b], m)), w.open[s - 1];
            && Tree(d) && last in d
            && LinksLeft(w, s - 1, m[n := c], Adopt(d, last, c))
            && Clones(w.open[s - 1..w.b], m[n := c]) == Clones(w.open[s..w.b], m) + [c]
  {
    NextElement(w, s);
    SliceOne(w.open, s - 1, w.b);
    var n, rest := w.open[s - 1], w.open[s..w.b];
    var before := Clones(rest, m);
    AdoptOneMore(w.d, w.open[w.b], before, c);
    AdoptTree(d, Last(w.open[w.b], before), c);
    hide Ready, Fates, Adopt, AdoptAll, Tree;
    ClonesExtends(rest, m, n, c);
    assert Clones(w.open[s - 1..w.b], m[n := c]) == before + [c];
  }

  lemma WalkDrop(w: Before, s: nat, m: map<Node, Node>, gone: set<Node>, d: Shape, open: seq<Node>, list: seq<Entry>)
    requires Ready(w) && Walking(w, s, m, gone, d, open, list) && w.f < s - 1
    requires Formatting(w.open[s - 1]) !in list
    ensures s <= |open| && Walking(w, s - 1, m, gone, d, RemoveAt(open, s - 1), list)
    ensures Clones(w.open[s - 1..w.b], m) == Clones(w.open[s..w.b], m)
  {
    NotYet(w, s, m, gone);
    FatesStep(w, s, m, gone, w.open[s - 1]);
    StackStep(w, s, m, gone, open, w.open[s - 1]);
    LinksStay(w, s, m, d);
    hide Ready, Fates, StackLeft, LinksLeft, Subst;
  }

  lemma WalkGone(w: Before, s: nat, m: map<Node, Node>, gone: set<Node>, d: Shape, open: seq<Node>, list: seq<Entry>)
    requires Ready(w) && Walking(w, s, m, gone, d, open, list) && w.f < s - 1 && w.b - (s - 1) > 3
    requires Formatting(w.open[s - 1]) in list
    ensures Walking(w, s - 1, m, gone + {w.open[s - 1]}, d, open,
              RemoveAt(list, IndexOf(list, Formatting(w.open[s - 1]))))
    ensures Clones(w.open[s - 1..w.b], m) == Clones(w.open[s..w.b], m)
  {
    NotYet(w, s, m, gone);
    FatesStep(w, s, m, gone, w.open[s - 1]);
    StackStep(w, s, m, gone, open, w.open[s - 1]);
    LinksStay(w, s, m, d);
    assert DistinctEntries(w.list);
    hide Ready, Fates, StackLeft, LinksLeft, Subst, IndexOf, RemoveAt;
    SubstStep(w.list, m, gone, w.open[s - 1], w.open[s - 1]);
  }

  lemma WalkClone(w: Before, s: nat, m: map<Node, Node>, gone: set<Node>, d: Shape, open: seq<Node>,
      list: seq<Entry>, c: Node)
    requires Ready(w) && Walking(w, s, m, gone, d, open, list) && w.f < s - 1 && w.b - (s - 1) <= 3
    requires Formatting(w.open[s - 1]) in list && c !in d && IsElement(c) && SameElement(c, w.open[s - 1])
    ensures var last := Last(w.open[w.b], Clones(w.open[s..w.b], m));
            && s <= |open| && Tree(d) && last in d
            && Walking(w, s - 1, m[w.open[s - 1] := c], gone, Adopt(d, last, c), open[s - 1 := c],
                 list[IndexOf(list, Formatting(w.open[s - 1])) := Formatting(c)])
            && Clones(w.open[s - 1..w.b], m[w.open[s - 1] := c]) == Clones(w.open[s..w.b], m) + [c]
  {
    NotYet(w, s, m, gone);
    assert c !in w.d by { hide Ready; }
    FatesStep(w, s, m, gone, c);
    StackStep(w, s, m, gone, open, c);
    LinksAdopt(w, s, m, gone, d, c);
    assert DistinctEntries(w.list);
    hide Ready, Fates, StackLeft, LinksLeft, Subst, IndexOf, RemoveAt, Adopt, Tree, Clones, SameElement;
    SubstStep(w.list, m, gone, w.open[s - 1], c);
  }

  // The bookmark stands right after the entry of a.
  ghost predicate Booked(list: seq<Entry>, bookmark: int, a: Node)
  {
    0 < bookmark <= |list| && list[bookmark - 1] == Formatting(a)
  }

  lemma BookmarkMoves(list: seq<Entry>, bookmark: nat, a: Node, i: nat)
    requires Booked(list, bookmark, a) && i < |list| && list[i] != Formatting(a)
    ensures Booked(RemoveAt(list, i), if i < bookmark then bookmark - 1 else bookmark, a)
  {
  }

  // The entry the bookmark follows: the formatting element's, or the first clone's.
  function Anchor(formatting: Node, clones: seq<Node>): (a: Node)
  {
    if clones == [] then formatting else clones[0]
  }
}
