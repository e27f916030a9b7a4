/** The Noah's Ark clause through a pass of the adoption agency algorithm: the
    formatting element's clone may be listed elsewhere, but only in the section
    of the list where the element was. */
module AdoptionArk {
  import opened Attributes
  import opened Tags
  import opened Dom
  import opened OpenElements
  import opened FormattingList
  import opened AdoptionWalk
  import opened Shelter
  import opened AdoptionAgency

  // Of two listed elements on the stack the upper one is listed after the last
  // marker if the lower one is.
  ghost predicate Layered(open: seq<Node>, list: seq<Entry>)
  {
    forall i, j :: 0 <= i < j < |open| && Active(list, open[i]) && Formatting(open[j]) in list ==> Active(list, open[j])
  }

  // The position after the last marker.
  function Since(list: seq<Entry>): (k: nat)
    ensures k <= |list| && NoMarkerFrom(list, k) && (k > 0 ==> list[k - 1] == Marker)
  {
    if list == [] || list[|list| - 1] == Marker then |list| else Since(list[..|list| - 1])
  }

  lemma ActiveSince(list: seq<Entry>, n: Node)
    ensures Active(list, n) <==> Formatting(n) in list[Since(list)..]
  {
    hide Since;
    var k := Since(list);
    if Active(list, n) {
      var p :| 0 <= p < |list| && list[p] == Formatting(n) && NoMarkerFrom(list, p);
      assert p >= k;
      assert list[k..][p - k] == Formatting(n);
    }
    if Formatting(n) in list[k..] {
      var i :| 0 <= i < |list[k..]| && list[k..][i] == Formatting(n);
      assert list[k + i] == Formatting(n) && NoMarkerFrom(list, k + i);
    }
  }

  lemma {:induction false} SinceIs(list: seq<Entry>, k: nat)
    requires k <= |list| && NoMarkerFrom(list, k) && (k > 0 ==> list[k - 1] == Marker)
    ensures Since(list) == k
  {
    if k < |list| {
      SinceIs(list[..|list| - 1], k);
    }
  }

  // What has become of a listed element.
  ghost function Heir(n: Node, m: map<Node, Node>): (r: Node)
  {
    if n in m then m[n] else n
  }

  lemma {:induction false} SubstJoin(a: seq<Entry>, b: seq<Entry>, m: map<Node, Node>, gone: set<Node>)
    ensures Subst(a + b, m, gone) == Subst(a, m, gone) + Subst(b, m, gone)
  {
    if a == [] {
      assert a + b == b;
    } else {
      assert (a + b)[1..] == a[1..] + b;
      SubstJoin(a[1..], b, m, gone);
    }
  }

  lemma {:induction false} SubstMarkers(list: seq<Entry>, m: map<Node, Node>, gone: set<Node>)
    ensures Marker in Subst(list, m, gone) <==> Marker in list
    ensures list != [] && list[|list| - 1] == Marker
            ==> var r := Subst(list, m, gone); r != [] && r[|r| - 1] == Marker
  {
    if list != [] {
      var n := |list| - 1;
      SubstMarkers(list[..n], m, gone);
      SubstJoin(list[..n], [list[n]], m, gone);
      assert list == list[..n] + [list[n]];
      SubstOne(list[n], m, gone);
    }
  }

  lemma SubstOne(e: Entry, m: map<Node, Node>, gone: set<Node>)
    ensures var r := Subst([e], m, gone);
            if e == Marker then r == [Marker] else Marker !in r && |r| <= 1
  {
    assert [e][1..] == [];
  }

  // The section since the last marker goes over to the one since the last marker.
  lemma SubstSince(list: seq<Entry>, m: map<Node, Node>, gone: set<Node>)
    ensures var r := Subst(list, m, gone); r[Since(r)..] == Subst(list[Since(list)..], m, gone)
  {
    hide Subst, Since;
    var k := Since(list);
    var a, b := Subst(list[..k], m, gone), Subst(list[k..], m, gone);
    assert list == list[..k] + list[k..];
    SubstJoin(list[..k], list[k..], m, gone);
    SubstMarkers(list[..k], m, gone);
    SubstMarkers(list[k..], m, gone);
    NoneBehind(list, k);
    SinceJoin(a, b);
    if k > 0 { assert list[..k][k - 1] == list[k - 1]; }
  }

  lemma NoneBehind(list: seq<Entry>, k: nat)
    requires k <= |list| && NoMarkerFrom(list, k)
    ensures Marker !in list[k..]
  {
    forall i | 0 <= i < |list[k..]| ensures list[k..][i] != Marker {
      assert list[k..][i] == list[k + i];
    }
  }

  lemma SinceJoin(a: seq<Entry>, b: seq<Entry>)
    requires Marker !in b && (a != [] ==> a[|a| - 1] == Marker)
    ensures Since(a + b) == |a| && (a + b)[|a|..] == b
  {
    hide Since;
    forall q | |a| <= q < |a + b| ensures (a + b)[q] != Marker {
      assert (a + b)[q] == b[q - |a|];
    }
    SinceIs(a + b, |a|);
  }

  lemma {:induction false} SubstHas(list: seq<Entry>, m: map<Node, Node>, gone: set<Node>, n: Node)
    requires Formatting(n) in list && n !in gone
    ensures Formatting(Heir(n, m)) in Subst(list, m, gone)
  {
    if list[0] != Formatting(n) {
      SubstHas(list[1..], m, gone, n);
    }
  }

  lemma {:induction false} SubstFrom(list: seq<Entry>, m: map<Node, Node>, gone: set<Node>, r: Node) returns (n: Node)
    requires Formatting(r) in Subst(list, m, gone)
    ensures Formatting(n) in list && n !in gone && r == Heir(n, m)
  {
    if Formatting(r) in Kept(list[0], m, gone) {
      n := list[0].node;
    } else {
      n := SubstFrom(list[1..], m, gone, r);
    }
  }

  // Every clone is made for one element only.
  ghost predicate OneToOne(m: map<Node, Node>)
  {
    forall a, b :: a in m && b in m && m[a] == m[b] ==> a == b
  }

  lemma {:induction false} CloneIn(passed: seq<Node>, m: map<Node, Node>, n: Node)
    requires n in passed && n in m
    ensures m[n] in Clones(passed, m)
  {
    if passed[0] != n {
      CloneIn(passed[1..], m, n);
    }
  }

  lemma LastDiffers(s: seq<Node>, y: Node)
    requires Distinct(s + [y])
    ensures y !in s
  {
    forall i | 0 <= i < |s| ensures s[i] != y {
      assert (s + [y])[i] != (s + [y])[|s|];
    }
  }

  lemma {:induction false} ClonesDiffer(passed: seq<Node>, m: map<Node, Node>, a: Node, b: Node)
    requires Distinct(Clones(passed, m)) && a in passed && b in passed && a in m && b in m && m[a] == m[b]
    ensures a == b
  {
    var rest := Clones(passed[1..], m);
    if a != b {
      if passed[0] == a || passed[0] == b {
        var c := if passed[0] == a then b else a;
        LastDiffers(rest, m[passed[0]]);
        CloneIn(passed[1..], m, c);
      } else {
        assert Distinct(rest) by { assert rest <= Clones(passed, m); }
        ClonesDiffer(passed[1..], m, a, b);
      }
    }
  }

  // An active element has an active heir, and no other heir is active.
  lemma HeirActive(list: seq<Entry>, m: map<Node, Node>, gone: set<Node>, n: Node)
    requires OneToOne(m) && n !in gone && (forall e :: e in list && e.Formatting? ==> e.node !in m.Values)
             && n !in m.Values
    ensures Active(Subst(list, m, gone), Heir(n, m)) <==> Active(list, n)
    ensures Formatting(Heir(n, m)) in Subst(list, m, gone) <==> Formatting(n) in list
  {
    var k := Since(list);
    ActiveSince(list, n);
    ActiveSince(Subst(list, m, gone), Heir(n, m));
    SubstSince(list, m, gone);
    HeirListed(list[k..], m, gone, n);
    HeirListed(list, m, gone, n);
  }

  lemma HeirListed(list: seq<Entry>, m: map<Node, Node>, gone: set<Node>, n: Node)
    requires OneToOne(m) && n !in gone && (forall e :: e in list && e.Formatting? ==> e.node !in m.Values)
             && n !in m.Values
    ensures Formatting(Heir(n, m)) in Subst(list, m, gone) <==> Formatting(n) in list
  {
    if Formatting(n) in list {
      SubstHas(list, m, gone, n);
    }
    if Formatting(Heir(n, m)) in Subst(list, m, gone) {
      var n' := SubstFrom(list, m, gone, Heir(n, m));
      assert n' == n;
    }
  }

  lemma {:induction false} SubstGone(list: seq<Entry>, m: map<Node, Node>, gone: set<Node>, n: Node)
    requires n in gone && n !in m.Values
    ensures Formatting(n) !in Subst(list, m, gone)
  {
    if list != [] {
      SubstGone(list[1..], m, gone, n);
    }
  }

  // Replacing entries by equal ones and dropping some keeps the clause.
  lemma {:induction false} SubstArk(list: seq<Entry>, m: map<Node, Node>, gone: set<Node>)
    requires Ark(Signatures(list)) && forall n :: n in m ==> SameElement(m[n], n)
    ensures Ark(Signatures(Subst(list, m, gone)))
    ensures forall x :: Count(Signatures(Subst(list, m, gone)), x) <= Count(Signatures(list), x)
  {
    if list != [] {
      var k := |list| - 1;
      var e, s := list[k], Signatures(list[..k]);
      assert list == list[..k] + [e] && [e][1..] == [];
      assert Signatures(list) == s + [SignatureOf(e)] && Signatures(list)[..k] == s;
      SubstArk(list[..k], m, gone);
      SubstJoin(list[..k], [e], m, gone);
      var r := Subst(list[..k], m, gone);
      assert Subst(list, m, gone) == r + Kept(e, m, gone);
      KeptSignature(e, m, gone);
      forall x
        ensures Count(Signatures(list), x) ==
                if e == Marker then 0 else Count(s, x) + if SignatureOf(e) == x then 1 else 0
      {
        CountLast(s, SignatureOf(e), x);
      }
      OneKept(r, e, Kept(e, m, gone), Signatures(list), s);
    }
  }

  lemma KeptSignature(e: Entry, m: map<Node, Node>, gone: set<Node>)
    requires forall n :: n in m ==> SameElement(m[n], n)
    ensures Kept(e, m, gone) == [] ==> e != Marker
    ensures Kept(e, m, gone) != [] ==> |Kept(e, m, gone)| == 1 && SignatureOf(Kept(e, m, gone)[0]) == SignatureOf(e)
    ensures SignatureOf(e) == Stop <==> e == Marker
  {
  }

  lemma OneKept(r: seq<Entry>, e: Entry, kept: seq<Entry>, t: seq<Signature>, s: seq<Signature>)
    requires t == s + [SignatureOf(e)] && Ark(t) && Ark(Signatures(r)) && (SignatureOf(e) == Stop <==> e == Marker)
    requires forall x :: Count(Signatures(r), x) <= Count(s, x)
    requires forall x :: Count(t, x) == if e == Marker then 0 else Count(s, x) + if SignatureOf(e) == x then 1 else 0
    requires if kept == [] then e != Marker else |kept| == 1 && SignatureOf(kept[0]) == SignatureOf(e)
    ensures Ark(Signatures(r + kept)) && forall x :: Count(Signatures(r + kept), x) <= Count(t, x)
  {
    hide SignatureOf;
    if kept == [] {
      assert r + kept == r;
    } else {
      AppendSignatures(r, kept[0]);
      assert kept == [kept[0]];
      assert Count(t, SignatureOf(e)) <= 3;
      ArkAppend(Signatures(r), SignatureOf(e));
      forall x ensures Count(Signatures(r + kept), x) <= Count(t, x) {
        CountLast(Signatures(r), SignatureOf(e), x);
      }
    }
  }

  lemma {:induction false} CountGrows(s: seq<Signature>, n: nat, x: Signature)
    requires n <= |s| && forall j :: n <= j < |s| ==> s[j] != Stop
    ensures Count(s[..n], x) <= Count(s, x)
  {
    if n == |s| {
      assert s[..n] == s;
    } else {
      assert s[..|s| - 1][..n] == s[..n];
      CountGrows(s[..|s| - 1], n, x);
    }
  }

  // From a position on without markers the clause is about the total counts.
  lemma {:induction false} ArkTail(s: seq<Signature>, p: nat)
    requires p <= |s| && (forall j :: p <= j < |s| ==> s[j] != Stop) && Ark(s[..p]) && forall x :: Count(s, x) <= 3
    ensures Ark(s)
  {
    if p == |s| {
      assert s[..p] == s;
    } else {
      var n := |s| - 1;
      assert s[..n][..p] == s[..p];
      forall x ensures Count(s[..n], x) <= 3 {
        CountGrows(s, n, x);
      }
      ArkTail(s[..n], p);
    }
  }

  lemma {:induction false} CountInserted(s: seq<Signature>, k: nat, y: Signature, x: Signature)
    requires k <= |s| && y != Stop
    ensures Count(InsertAt(s, k, y), x) <= Count(s, x) + if x == y then 1 else 0
  {
    hide Count;
    if k == |s| {
      assert InsertAt(s, k, y) == s + [y];
      CountLast(s, y, x);
    } else {
      var n := |s| - 1;
      assert InsertAt(s, k, y) == InsertAt(s[..n], k, y) + [s[n]] && s == s[..n] + [s[n]];
      CountLast(InsertAt(s[..n], k, y), s[n], x);
      CountLast(s[..n], s[n], x);
      CountInserted(s[..n], k, y, x);
    }
  }

  lemma AtMostThree(s: seq<Signature>, x: Signature)
    requires Ark(s)
    ensures Count(s, x) <= 3
  {
  }

  // Moving an entry about in the last section keeps the clause.
  lemma ArkMoved(s: seq<Signature>, p: nat, i: nat, k: nat)
    requires Ark(s) && p <= i < |s| && p <= k < |s| && forall j :: p <= j < |s| ==> s[j] != Stop
    ensures Ark(InsertAt(RemoveAt(s, i), k, s[i]))
  {
    hide Ark, Count;
    var r, y := RemoveAt(s, i), s[i];
    var t := InsertAt(r, k, y);
    forall x ensures Count(t, x) <= 3 {
      AtMostThree(s, x);
      CountRemoved(s, i, x);
      CountInserted(r, k, y, x);
    }
    ArkPrefix(s, p);
    MovedAlike(s, p, i, k);
    ArkTail(t, p);
  }

  lemma MovedAlike(s: seq<Signature>, p: nat, i: nat, k: nat)
    requires p <= i < |s| && p <= k < |s| && forall j :: p <= j < |s| ==> s[j] != Stop
    ensures var t := InsertAt(RemoveAt(s, i), k, s[i]);
            t[..p] == s[..p] && forall j :: p <= j < |t| ==> t[j] != Stop
  {
  }

  lemma MovedSignatures(list: seq<Entry>, i: nat, k: nat, c: Entry)
    requires i < |list| && k < |list| && SignatureOf(c) == SignatureOf(list[i])
    ensures Signatures(InsertAt(RemoveAt(list, i), k, c)) ==
            InsertAt(RemoveAt(Signatures(list), i), k, Signatures(list)[i])
  {
    hide SignatureOf;
  }

  lemma EntryAt(list: seq<Entry>, i: nat)
    requires DistinctEntries(list) && i < |list| && list[i].Formatting?
    ensures IndexOf(list, list[i]) == i
  {
    assert list[i] in list;
  }

  lemma DistinctWithout(list: seq<Entry>, i: nat)
    requires DistinctEntries(list) && i < |list|
    ensures DistinctEntries(RemoveAt(list, i))
  {
  }

  // The entry that step 19 takes out, and the position where it puts the clone.
  ghost predicate Moving(list: seq<Entry>, formatting: Node, anchor: Node, c: Node, i: nat, k: nat)
  {
    && Since(list) <= i < |list| && Since(list) <= k < |list| && list[i] == Formatting(formatting)
    && Relisted(list, formatting, anchor, c) == InsertAt(RemoveAt(list, i), k, Formatting(c))
  }

  lemma MovesInside(list: seq<Entry>, formatting: Node, anchor: Node, c: Node) returns (i: nat, k: nat)
    requires DistinctEntries(list) && Active(list, formatting) && Active(list, anchor)
    ensures Moving(list, formatting, anchor, c, i, k)
  {
    hide IndexOf, Active, Since, DistinctEntries, Relisted, InsertAt;
    i := ActiveIndex(list, formatting);
    var j := ActiveIndex(list, anchor);
    k := if anchor == formatting then i else if j < i then j + 1 else j;
    if anchor != formatting {
      DistinctWithout(list, i);
      assert RemoveAt(list, i)[k - 1] == Formatting(anchor);
      EntryAt(RemoveAt(list, i), k - 1);
    }
    Relisting(list, formatting, anchor, c, k);
  }

  lemma ActiveIndex(list: seq<Entry>, n: Node) returns (i: nat)
    requires DistinctEntries(list) && Active(list, n)
    ensures Since(list) <= i < |list| && list[i] == Formatting(n) && IndexOf(list, Formatting(n)) == i
  {
    ActiveSince(list, n);
    i :| Since(list) <= i < |list| && list[i] == Formatting(n);
    EntryAt(list, i);
  }

  // Step 19 moves the formatting element's entry behind its anchor.
  lemma RelistedArk(list: seq<Entry>, formatting: Node, anchor: Node, c: Node, i: nat, k: nat)
    requires Ark(Signatures(list)) && Moving(list, formatting, anchor, c, i, k) && SameElement(c, formatting)
    ensures Ark(Signatures(Relisted(list, formatting, anchor, c)))
  {
    assert SignatureOf(Formatting(c)) == SignatureOf(Formatting(formatting));
    hide Ark, Count, SignatureOf, SameElement, Relisted;
    MarkersStop(list);
    ArkMoved(Signatures(list), Since(list), i, k);
    MovedSignatures(list, i, k, Formatting(c));
  }

  lemma RelistedActive(list: seq<Entry>, formatting: Node, anchor: Node, c: Node, i: nat, k: nat, n: Node)
    requires DistinctEntries(list) && Moving(list, formatting, anchor, c, i, k) && n != formatting
    ensures var r := Relisted(list, formatting, anchor, c);
            && (Active(r, n) <==> n == c || Active(list, n))
            && (Formatting(n) in r <==> n == c || Formatting(n) in list)
  {
    hide Relisted;
    var r, p := InsertAt(RemoveAt(list, i), k, Formatting(c)), Since(list);
    SinceIs(r, p);
    ActiveSince(list, n);
    ActiveSince(r, n);
    InsertedTail(list, p, i, k, c, n);
    InsertedTail(list, 0, i, k, c, n);
  }

  lemma InsertedTail(list: seq<Entry>, p: nat, i: nat, k: nat, c: Node, n: Node)
    requires p <= i < |list| && p <= k < |list| && list[i] != Formatting(n)
    ensures Formatting(n) in InsertAt(RemoveAt(list, i), k, Formatting(c))[p..] <==>
            n == c || Formatting(n) in list[p..]
  {
    var s := list[..i] + list[i + 1..];
    assert list[p..] == list[p..i] + [list[i]] + list[i + 1..] && s[p..] == list[p..i] + list[i + 1..];
    assert s[p..] == s[p..k] + s[k..];
    assert (s[..k] + [Formatting(c)] + s[k..])[p..] == s[p..k] + [Formatting(c)] + s[k..];
    var e := Formatting(n);
    assert e in list[p..] <==> e in list[p..i] || e == list[i] || e in list[i + 1..];
    assert e in s[p..k] + s[k..] <==> e in s[p..k] || e in s[k..];
    assert e in list[p..i] + list[i + 1..] <==> e in list[p..i] || e in list[i + 1..];
    assert e in s[p..k] + [Formatting(c)] + s[k..] <==> e in s[p..k] || n == c || e in s[k..];
  }

  lemma {:induction false} SubstDistinct(list: seq<Entry>, m: map<Node, Node>, gone: set<Node>)
    requires DistinctEntries(list) && OneToOne(m) && forall e :: e in list && e.Formatting? ==> e.node !in m.Values
    ensures DistinctEntries(Subst(list, m, gone))
  {
    if list != [] {
      SubstDistinct(list[1..], m, gone);
      var head, rest := Kept(list[0], m, gone), Subst(list[1..], m, gone);
      if head != [] && list[0].Formatting? && head[0] in rest {
        var n := SubstFrom(list[1..], m, gone, head[0].node);
      }
      HeadApart(head, rest);
    }
  }

  lemma HeadApart(head: seq<Entry>, rest: seq<Entry>)
    requires |head| <= 1 && DistinctEntries(rest) && (head != [] && head[0].Formatting? ==> head[0] !in rest)
    ensures DistinctEntries(head + rest)
  {
  }

  lemma {:induction false} CloneFrom(passed: seq<Node>, m: map<Node, Node>, c: Node) returns (n: Node)
    requires c in Clones(passed, m)
    ensures n in passed && n in m && m[n] == c
  {
    if passed[0] in m && m[passed[0]] == c {
      n := passed[0];
    } else {
      n := CloneFrom(passed[1..], m, c);
    }
  }

  lemma {:induction false} MidPair(passed: seq<Node>, m: map<Node, Node>, gone: set<Node>, j: nat, k: nat)
    returns (a: nat, b: nat)
    requires j <= k < |Mid(passed, m, gone)|
    ensures a < |passed| && Mid(passed, m, gone)[j] == Heir(passed[a], m)
    ensures b < |passed| && Mid(passed, m, gone)[k] == Heir(passed[b], m)
    ensures j < k ==> a < b
  {
    var h := if passed[0] in m || passed[0] in gone then 1 else 0;
    if k < h {
      a, b := 0, 0;
    } else if j < h {
      var x, y := MidPair(passed[1..], m, gone, k - h, k - h);
      a, b := 0, y + 1;
    } else {
      var x, y := MidPair(passed[1..], m, gone, j - h, k - h);
      a, b := x + 1, y + 1;
    }
  }

  // What the clones and the elements taken off the list were.
  ghost predicate Fated(w: Before, m: map<Node, Node>, gone: set<Node>)
    requires w.f < |w.open|
  {
    && OneToOne(m)
    && (forall n :: n in m ==> Formatting(n) in w.list && n !in gone)
    && (forall n :: n in gone ==> Formatting(n) in w.list)
    && (forall n :: n in m ==> m[n] !in w.d && SameElement(m[n], n))
    && (forall i :: 0 <= i < |w.open| && (i <= w.f || i >= w.b) ==> w.open[i] !in m && w.open[i] !in gone)
    && (forall e :: e in w.list && e.Formatting? ==> e.node in w.d)
    && (forall i :: 0 <= i < |w.open| ==> w.open[i] in w.d)
  }

  lemma FatedBy(w: Before, m: map<Node, Node>, gone: set<Node>)
    requires Tree(w.d) && Ready(w) && Fates(w, w.f + 1, m, gone)
    requires Distinct(Clones(w.open[w.f + 1..w.b], m))
    ensures Fated(w, m, gone) && Distinct(w.open) && DistinctEntries(w.list)
  {
    hide SameElement, Clones, Ready, Fates;
    AllOpenDistinct(w);
    ReadyLists(w);
    PassedOnes(w, m, gone);
    ClonesOneToOne(w.open[w.f + 1..w.b], m);
    NewOnes(w, m, gone);
    forall i | 0 <= i < |w.open| && (i <= w.f || i >= w.b) ensures w.open[i] !in m && w.open[i] !in gone {
      Unfated(w, m, gone, i);
    }
  }

  lemma AllOpenDistinct(w: Before)
    requires Tree(w.d) && Ready(w)
    ensures Distinct(w.open)
  {
    OpenDistinct(w.d, w.open);
  }

  lemma PassedOnes(w: Before, m: map<Node, Node>, gone: set<Node>)
    requires Fates(w, w.f + 1, m, gone)
    ensures w.f < w.b < |w.open|
    ensures forall n :: n in m ==> Formatting(n) in w.list && n !in gone && n in w.open[w.f + 1..w.b]
    ensures forall n :: n in gone ==> Formatting(n) in w.list
  {
    forall n | n in m.Keys + gone
      ensures Formatting(n) in w.list && (n in m ==> n !in gone) && n in w.open[w.f + 1..w.b]
    {
      var i := FateIndex(w, m, gone, n);
      assert w.open[w.f + 1..w.b][i - w.f - 1] == n;
    }
  }

  lemma ClonesOneToOne(passed: seq<Node>, m: map<Node, Node>)
    requires Distinct(Clones(passed, m)) && forall n :: n in m ==> n in passed
    ensures OneToOne(m)
  {
    forall a, b | a in m && b in m && m[a] == m[b] ensures a == b {
      ClonesDiffer(passed, m, a, b);
    }
  }

  lemma ReadyLists(w: Before)
    requires Tree(w.d) && Ready(w)
    ensures DistinctEntries(w.list) && w.f < w.b < |w.open|
    ensures forall e :: e in w.list && e.Formatting? ==> e.node in w.d
    ensures forall i :: 0 <= i < |w.open| ==> w.open[i] in w.d
  {
  }

  lemma FateIndex(w: Before, m: map<Node, Node>, gone: set<Node>, n: Node) returns (i: nat)
    requires Fates(w, w.f + 1, m, gone) && (n in m || n in gone)
    ensures w.f < i < w.b < |w.open| && w.open[i] == n && Formatting(n) in w.list && (n in m ==> n !in gone)
  {
    assert n in w.open;
    i :| 0 <= i < |w.open| && w.open[i] == n;
    assert FateOf(w, w.f + 1, i, m, gone);
  }

  lemma Unfated(w: Before, m: map<Node, Node>, gone: set<Node>, i: nat)
    requires Fates(w, w.f + 1, m, gone) && i < |w.open| && (i <= w.f || i >= w.b)
    ensures w.open[i] !in m && w.open[i] !in gone
  {
    assert FateOf(w, w.f + 1, i, m, gone);
  }

  lemma NewOnes(w: Before, m: map<Node, Node>, gone: set<Node>)
    requires Fates(w, w.f + 1, m, gone)
    ensures forall n :: n in m ==> m[n] !in w.d && SameElement(m[n], n)
  {
  }

  // The element that stands at a position of the new stack, other than the new
  // clone's, as the heir of one of the old stack; the order is the same.
  lemma StackPair(w: Before, m: map<Node, Node>, gone: set<Node>, c: Node, open: seq<Node>, i: nat, j: nat)
    returns (a: nat, b: nat)
    requires w.f < w.b < |w.open| && Fated(w, m, gone)
    requires open == w.open[..w.f] + Mid(w.open[w.f + 1..w.b], m, gone) + [w.open[w.b], c] + w.open[w.b + 1..]
    requires i <= j < |open|
    requires var k := w.f + |Mid(w.open[w.f + 1..w.b], m, gone)| + 1; i != k && j != k
    ensures a < |w.open| && a != w.f && open[i] == Heir(w.open[a], m)
    ensures b < |w.open| && b != w.f && open[j] == Heir(w.open[b], m)
    ensures i < j ==> a < b
    ensures j > w.f + |Mid(w.open[w.f + 1..w.b], m, gone)| ==> b >= w.b
  {
    hide Mid, SameElement, Fated, Heir;
    var n := |Mid(w.open[w.f + 1..w.b], m, gone)|;
    a := StackFrom(w, m, gone, c, open, i);
    b := StackFrom(w, m, gone, c, open, j);
    if w.f <= i && j < w.f + n {
      a, b := MidFrom(w, m, gone, c, open, i, j);
    }
  }

  lemma OwnHeir(w: Before, m: map<Node, Node>, gone: set<Node>, i: nat)
    requires w.f < |w.open| && Fated(w, m, gone) && i < |w.open| && (i < w.f || i >= w.b)
    ensures Heir(w.open[i], m) == w.open[i]
  {
  }

  lemma StackFrom(w: Before, m: map<Node, Node>, gone: set<Node>, c: Node, open: seq<Node>, i: nat) returns (a: nat)
    requires w.f < w.b < |w.open| && Fated(w, m, gone)
    requires open == w.open[..w.f] + Mid(w.open[w.f + 1..w.b], m, gone) + [w.open[w.b], c] + w.open[w.b + 1..]
    requires i < |open| && i != w.f + |Mid(w.open[w.f + 1..w.b], m, gone)| + 1
    ensures a < |w.open| && open[i] == Heir(w.open[a], m)
    ensures var n := |Mid(w.open[w.f + 1..w.b], m, gone)|;
            if i < w.f then a == i else if i < w.f + n then w.f < a < w.b
            else a == w.b + if i == w.f + n then 0 else i - (w.f + n + 1)
  {
    hide Mid, SameElement, Fated, Heir;
    var mid := Mid(w.open[w.f + 1..w.b], m, gone);
    FiveParts(w.open[..w.f], mid, w.open[w.b], c, w.open[w.b + 1..], i);
    if w.f <= i < w.f + |mid| {
      var b;
      a, b := MidFrom(w, m, gone, c, open, i, i);
    } else {
      a := if i < w.f then i else if i == w.f + |mid| then w.b else i - (w.f + |mid| + 1) + w.b;
      OwnHeir(w, m, gone, a);
    }
  }

  lemma MidFrom(w: Before, m: map<Node, Node>, gone: set<Node>, c: Node, open: seq<Node>, i: nat, j: nat)
    returns (a: nat, b: nat)
    requires w.f < w.b < |w.open|
    requires open == w.open[..w.f] + Mid(w.open[w.f + 1..w.b], m, gone) + [w.open[w.b], c] + w.open[w.b + 1..]
    requires w.f <= i <= j < w.f + |Mid(w.open[w.f + 1..w.b], m, gone)|
    ensures w.f < a < w.b && open[i] == Heir(w.open[a], m)
    ensures w.f < b < w.b && open[j] == Heir(w.open[b], m)
    ensures i < j ==> a < b
  {
    hide Mid, Heir;
    var passed := w.open[w.f + 1..w.b];
    FiveParts(w.open[..w.f], Mid(passed, m, gone), w.open[w.b], c, w.open[w.b + 1..], i);
    FiveParts(w.open[..w.f], Mid(passed, m, gone), w.open[w.b], c, w.open[w.b + 1..], j);
    var x, y := MidPair(passed, m, gone, i - w.f, j - w.f);
    a, b := w.f + 1 + x, w.f + 1 + y;
    assert passed[x] == w.open[a] && passed[y] == w.open[b];
  }

  lemma FiveParts<T>(low: seq<T>, mid: seq<T>, x: T, c: T, high: seq<T>, i: nat)
    requires i < |low| + |mid| + 2 + |high|
    ensures var k := |low| + |mid| + 1;
            (low + mid + [x, c] + high)[i]
            == if i < |low| then low[i] else if i < k - 1 then mid[i - |low|] else if i < k then x
               else if i == k then c else high[i - k - 1]
  {
  }

  // A pass keeps the clause, and the agreement of stack and list that it needs.
  lemma AdoptedArk(w: Before, foster: bool, m: map<Node, Node>, gone: set<Node>, joined: Shape, c: Node,
      d: Shape, open: seq<Node>, list: seq<Entry>)
    requires Adopted(w, foster, m, gone, joined, c, d, open, list)
    requires w.f < w.b < |w.open| && Active(w.list, w.open[w.f]) && Layered(w.open, w.list)
    ensures Layered(open, list)
    ensures Ark(Signatures(w.list)) ==> Ark(Signatures(list))
  {
    hide Tree, Ready, Fates, AdoptAll, Joined, Wrapped, Detach, Mid, Clones, Subst, Relisted, Ark, Active, SameElement,
         Fated, Layered, Distinct, DistinctEntries, Moving, Anchor;
    var formatting, clones := w.open[w.f], Clones(w.open[w.f + 1..w.b], m);
    FatedBy(w, m, gone);
    var list1, anchor := Subst(w.list, m, gone), Anchor(formatting, clones);
    FormattingStays(w, m, gone);
    AnchorActive(w, m, gone);
    AllDistinct(w, m, gone);
    var i, k := MovesInside(list1, formatting, anchor, c);
    if Ark(Signatures(w.list)) {
      AllAlike(w, m, gone);
      SubstArk(w.list, m, gone);
      RelistedArk(list1, formatting, anchor, c, i, k);
    }
    NoClone(w, m, gone, c);
    forall p, q | 0 <= p < q < |open| && Active(list, open[p]) && Formatting(open[q]) in list
      ensures Active(list, open[q])
    {
      PairLayered(w, m, gone, anchor, c, open, i, k, p, q);
    }
    IsLayered(open, list);
  }

  lemma IsLayered(open: seq<Node>, list: seq<Entry>)
    requires forall i, j :: 0 <= i < j < |open| && Active(list, open[i]) && Formatting(open[j]) in list ==>
             Active(list, open[j])
    ensures Layered(open, list)
  {
  }

  lemma NoClone(w: Before, m: map<Node, Node>, gone: set<Node>, c: Node)
    requires Fates(w, w.f + 1, m, gone) && c !in Clones(w.open[w.f + 1..w.b], m)
    ensures c !in m.Values
  {
    PassedOnes(w, m, gone);
    hide Clones, Fates;
    forall n | n in m ensures m[n] != c {
      CloneIn(w.open[w.f + 1..w.b], m, n);
    }
  }

  // The heir of an element other than the formatting element is neither of the two
  // that change places.
  lemma Bystander(w: Before, m: map<Node, Node>, gone: set<Node>, c: Node, a: nat)
    requires w.f < |w.open| && Fated(w, m, gone) && Distinct(w.open) && c !in m.Values && c !in w.d
    requires a < |w.open| && a != w.f
    ensures Heir(w.open[a], m) != w.open[w.f] && Heir(w.open[a], m) != c
  {
  }

  lemma PairLayered(w: Before, m: map<Node, Node>, gone: set<Node>, anchor: Node, c: Node, open: seq<Node>,
      i: nat, k: nat, p: nat, q: nat)
    requires w.f < w.b < |w.open| && Fated(w, m, gone) && Distinct(w.open) && c !in m.Values && c !in w.d
    requires Active(w.list, w.open[w.f]) && Layered(w.open, w.list)
    requires open == w.open[..w.f] + Mid(w.open[w.f + 1..w.b], m, gone) + [w.open[w.b], c] + w.open[w.b + 1..]
    requires var list1 := Subst(w.list, m, gone);
             && DistinctEntries(list1) && Moving(list1, w.open[w.f], anchor, c, i, k)
             && p < q < |open| && Active(Relisted(list1, w.open[w.f], anchor, c), open[p])
             && Formatting(open[q]) in Relisted(list1, w.open[w.f], anchor, c)
    ensures Active(Relisted(Subst(w.list, m, gone), w.open[w.f], anchor, c), open[q])
  {
    hide Mid, SameElement, Fated, Heir, Active, Subst, Relisted, Moving, DistinctEntries, Distinct;
    assert forall x, y :: 0 <= x < y < |w.open| && Active(w.list, w.open[x]) && Formatting(w.open[y]) in w.list
                          ==> Active(w.list, w.open[y]);
    var list1, formatting := Subst(w.list, m, gone), w.open[w.f];
    var at := w.f + |Mid(w.open[w.f + 1..w.b], m, gone)| + 1;
    FiveParts(w.open[..w.f], Mid(w.open[w.f + 1..w.b], m, gone), w.open[w.b], c, w.open[w.b + 1..], at);
    if q == at {
      KnownToStack(w, m, gone);
      RelistedActive(list1, formatting, anchor, c, i, k, c);
    } else {
      var a := w.f;
      var b := StackFrom(w, m, gone, c, open, q);
      if p != at {
        a, b := StackPair(w, m, gone, c, open, p, q);
        Bystander(w, m, gone, c, a);
        RelistedActive(list1, formatting, anchor, c, i, k, open[p]);
        HeirOf(w, m, gone, a);
      }
      Bystander(w, m, gone, c, b);
      RelistedActive(list1, formatting, anchor, c, i, k, open[q]);
      HeirOf(w, m, gone, b);
      assert a < b && Active(w.list, w.open[a]);
    }
  }

  lemma KnownToStack(w: Before, m: map<Node, Node>, gone: set<Node>)
    requires w.f < |w.open| && Fated(w, m, gone)
    ensures w.open[w.f] in w.d
  {
  }

  lemma AllAlike(w: Before, m: map<Node, Node>, gone: set<Node>)
    requires w.f < |w.open| && Fated(w, m, gone)
    ensures forall n :: n in m ==> SameElement(m[n], n)
  {
  }

  lemma AllDistinct(w: Before, m: map<Node, Node>, gone: set<Node>)
    requires w.f < |w.open| && Fated(w, m, gone) && DistinctEntries(w.list)
    ensures DistinctEntries(Subst(w.list, m, gone))
  {
    NotClones(w, m, gone);
    SubstDistinct(w.list, m, gone);
  }

  lemma NotClones(w: Before, m: map<Node, Node>, gone: set<Node>)
    requires w.f < |w.open| && Fated(w, m, gone)
    ensures OneToOne(m) && forall e :: e in w.list && e.Formatting? ==> e.node !in m.Values
    ensures forall i :: 0 <= i < |w.open| ==> w.open[i] !in m.Values
  {
  }

  // Being listed, and listed after the last marker, goes over to the heir.
  lemma HeirOf(w: Before, m: map<Node, Node>, gone: set<Node>, i: nat)
    requires w.f < |w.open| && Fated(w, m, gone) && i < |w.open|
    ensures var n, list1 := w.open[i], Subst(w.list, m, gone);
            && (Active(list1, Heir(n, m)) ==> Active(w.list, n))
            && (Formatting(Heir(n, m)) in list1 ==> Formatting(n) in w.list)
            && (Formatting(Heir(n, m)) in list1 && Active(w.list, n) ==> Active(list1, Heir(n, m)))
            && (n !in gone && Active(w.list, n) ==> Active(list1, Heir(n, m)))
  {
    var n, list1 := w.open[i], Subst(w.list, m, gone);
    NotClones(w, m, gone);
    hide Subst, OneToOne;
    if n in gone {
      SubstGone(w.list, m, gone, n);
      ActiveListed(list1, n);
    } else {
      HeirActive(w.list, m, gone, n);
    }
  }

  lemma ActiveListed(list: seq<Entry>, n: Node)
    ensures Active(list, n) ==> Formatting(n) in list
  {
  }

  lemma FormattingStays(w: Before, m: map<Node, Node>, gone: set<Node>)
    requires w.f < |w.open| && Fated(w, m, gone) && Active(w.list, w.open[w.f]) && w.f < w.b
    ensures Active(Subst(w.list, m, gone), w.open[w.f]) && Heir(w.open[w.f], m) == w.open[w.f]
  {
    hide Active, Subst;
    HeirOf(w, m, gone, w.f);
  }

  lemma AnchorActive(w: Before, m: map<Node, Node>, gone: set<Node>)
    requires w.f < w.b < |w.open| && Fated(w, m, gone) && Active(w.list, w.open[w.f]) && Layered(w.open, w.list)
    ensures Active(Subst(w.list, m, gone), Anchor(w.open[w.f], Clones(w.open[w.f + 1..w.b], m)))
  {
    hide Active, Subst, Clones;
    FormattingStays(w, m, gone);
    var passed := w.open[w.f + 1..w.b];
    var clones := Clones(passed, m);
    if clones != [] {
      var n := CloneFrom(passed, m, clones[0]);
      var i :| 0 <= i < |passed| && passed[i] == n;
      assert w.open[w.f + 1 + i] == n;
      assert Active(w.list, w.open[w.f + 1 + i]);
      HeirOf(w, m, gone, w.f + 1 + i);
    }
  }

  // The clause survives, and so does the agreement of stack and list.
  ghost predicate KeepsArk(open: seq<Node>, list: seq<Entry>, open': seq<Node>, list': seq<Entry>)
  {
    Layered(open, list) ==> Layered(open', list') && (Ark(Signatures(list)) ==> Ark(Signatures(list')))
  }

  lemma KeepsArkOn(open: seq<Node>, list: seq<Entry>, open1: seq<Node>, list1: seq<Entry>, open2: seq<Node>,
      list2: seq<Entry>)
    requires KeepsArk(open, list, open1, list1) && KeepsArk(open1, list1, open2, list2)
    ensures KeepsArk(open, list, open2, list2)
  {
  }

  lemma PrefixKeepsArk(open: seq<Node>, list: seq<Entry>, n: nat)
    requires n <= |open|
    ensures KeepsArk(open, list, open[..n], list)
  {
    hide Active, Ark;
  }

  lemma RemoveKeepsArk(open: seq<Node>, list: seq<Entry>, i: nat)
    requires i < |list| && list[i] != Marker && DistinctEntries(list)
    ensures KeepsArk(open, list, open, RemoveAt(list, i))
  {
    hide Ark, Signatures, Active;
    if Layered(open, list) {
      var r := RemoveAt(list, i);
      forall p, q | 0 <= p < q < |open| && Active(r, open[p]) && Formatting(open[q]) in r ensures Active(r, open[q]) {
        ActiveRemove(list, i, open[p]);
        StillActiveWithout(list, i, open[q]);
      }
      if Ark(Signatures(list)) {
        MarkersStop(list);
        ArkRemove(Signatures(list), i);
        RemoveSignatures(list, i);
      }
    }
  }

  lemma StillActiveWithout(list: seq<Entry>, i: nat, n: Node)
    requires i < |list| && DistinctEntries(list) && list[i] != Marker && Formatting(n) in RemoveAt(list, i)
    ensures Formatting(n) in list
    ensures Active(list, n) ==> Active(RemoveAt(list, i), n)
  {
    var r := RemoveAt(list, i);
    var j :| 0 <= j < |r| && r[j] == Formatting(n);
    var k := if j < i then j else j + 1;
    assert list[k] == Formatting(n);
    if Active(list, n) {
      var p :| 0 <= p < |list| && list[p] == Formatting(n) && NoMarkerFrom(list, p);
      assert p == k;
      assert NoMarkerFrom(r, j);
    }
  }

  lemma AdoptedKeepsArk(w: Before, foster: bool, m: map<Node, Node>, gone: set<Node>, joined: Shape, c: Node,
      d: Shape, open: seq<Node>, list: seq<Entry>)
    requires Adopted(w, foster, m, gone, joined, c, d, open, list)
    requires w.f < w.b < |w.open| && Active(w.list, w.open[w.f])
    ensures KeepsArk(w.open, w.list, open, list)
  {
    hide Adopted, Active, Ark;
    if Layered(w.open, w.list) {
      AdoptedArk(w, foster, m, gone, joined, c, d, open, list);
    }
  }
}
