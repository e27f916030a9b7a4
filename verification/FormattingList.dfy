/** The Noah's Ark clause of the list of active formatting elements
    (gumbo-parser/src/parser.c). */
module FormattingList {
  import opened Attributes
  import opened Dom
  import opened Tags
  import opened OpenElements

  // What the Noah's Ark clause compares.
  datatype Signature = Stop | Signature(ns: Namespace, tag: Tag, name: string, attrs: set<(string, string)>)

  ghost function SignatureOf(e: Entry): (s: Signature)
  {
    match e
    case Marker => Stop
    case Formatting(n) =>
      Signature(n.ns, n.tag, if n.tag == UNKNOWN then Lower(n.name) else "", Pairs(n.attrs))
  }

  ghost function Signatures(list: seq<Entry>): (s: seq<Signature>)
    ensures |s| == |list|
    ensures forall i :: 0 <= i < |list| ==> s[i] == SignatureOf(list[i])
  {
    seq(|list|, i requires 0 <= i < |list| => SignatureOf(list[i]))
  }

  // Occurrences of x after the last marker.
  ghost function Count(s: seq<Signature>, x: Signature): (n: nat)
  {
    if s == [] || s[|s| - 1] == Stop then 0
    else Count(s[..|s| - 1], x) + if s[|s| - 1] == x then 1 else 0
  }

  // No section between markers holds more than three equal elements.
  ghost predicate Ark(s: seq<Signature>)
  {
    s == [] || (Ark(s[..|s| - 1]) && forall x :: Count(s, x) <= 3)
  }

  lemma {:induction false} ArkPrefix(s: seq<Signature>, n: nat)
    requires Ark(s) && n <= |s|
    ensures Ark(s[..n])
  {
    if n == |s| {
      assert s[..n] == s;
    } else {
      assert s[..|s| - 1][..n] == s[..n];
      ArkPrefix(s[..|s| - 1], n);
    }
  }

  lemma CountLast(s: seq<Signature>, e: Signature, x: Signature)
    ensures Count(s + [e], x) == if e == Stop then 0 else Count(s, x) + if e == x then 1 else 0
  {
    assert (s + [e])[..|s|] == s;
  }

  lemma {:induction false} CountRemoved(s: seq<Signature>, k: nat, x: Signature)
    requires k < |s| && s[k] != Stop
    ensures Count(RemoveAt(s, k), x) <= Count(s, x)
    ensures (forall j :: k <= j < |s| ==> s[j] != Stop) && s[k] == x ==> Count(RemoveAt(s, k), x) == Count(s, x) - 1
  {
    hide Count;
    var n := |s| - 1;
    assert s == s[..n] + [s[n]];
    CountLast(s[..n], s[n], x);
    if k == n {
      assert RemoveAt(s, k) == s[..n];
    } else {
      assert RemoveAt(s, k) == RemoveAt(s[..n], k) + [s[n]];
      CountLast(RemoveAt(s[..n], k), s[n], x);
      CountRemoved(s[..n], k, x);
    }
  }

  // Removing one element keeps the clause.
  lemma {:induction false} ArkRemove(s: seq<Signature>, k: nat)
    requires Ark(s) && k < |s| && s[k] != Stop
    ensures Ark(RemoveAt(s, k))
  {
    var n := |s| - 1;
    if k == n {
      assert RemoveAt(s, k) == s[..n];
    } else {
      assert RemoveAt(s, k)[..n - 1] == RemoveAt(s[..n], k);
      ArkRemove(s[..n], k);
      forall x ensures Count(RemoveAt(s, k), x) <= 3 {
        CountRemoved(s, k, x);
      }
    }
  }

  lemma ArkAppend(s: seq<Signature>, e: Signature)
    requires Ark(s) && (e != Stop ==> Count(s, e) <= 2)
    ensures Ark(s + [e])
  {
    var t := s + [e];
    assert t[..|t| - 1] == s;
    forall x ensures Count(t, x) <= 3 {
      if s != [] { assert Count(s, x) <= 3; }
    }
  }

  lemma ArkReplace(s: seq<Signature>, k: nat, x: Signature)
    requires Ark(s) && k < |s| && x != Stop && s[k] == x && Count(s, x) >= 3
    requires forall j :: k <= j < |s| ==> s[j] != Stop
    ensures Count(s, x) == 3 && Ark(RemoveAt(s, k) + [x])
  {
    CountRemoved(s, k, x);
    ArkRemove(s, k);
    ArkAppend(RemoveAt(s, k), x);
  }

  lemma RemoveSignatures(list: seq<Entry>, k: nat)
    requires k < |list|
    ensures Signatures(RemoveAt(list, k)) == RemoveAt(Signatures(list), k)
  {
  }

  lemma AppendSignatures(list: seq<Entry>, e: Entry)
    ensures Signatures(list + [e]) == Signatures(list) + [SignatureOf(e)]
  {
  }

  method SameFormatting(a: Node, b: Node) returns (same: bool)
    requires IsFormattingElement(a) && IsFormattingElement(b) && DistinctNames(a.attrs) && DistinctNames(b.attrs)
    ensures same <==> SignatureOf(Formatting(a)) == SignatureOf(Formatting(b))
  {
    same := AllAttributesMatch(a.attrs, b.attrs);
    same := a.ns == b.ns && a.tag == b.tag && same;
  }

  lemma MarkersStop(list: seq<Entry>)
    ensures forall i :: 0 <= i < |list| ==> (SignatureOf(list[i]) == Stop <==> list[i] == Marker)
  {
  }

  // count_formatting_elements_of_tag: the entries after the last marker that
  // equal the node, and the index of the first of them.
  method CountMatching(list: seq<Entry>, node: Node) returns (count: nat, earliest: nat)
    requires IsFormattingElement(node) && DistinctNames(node.attrs)
    requires forall i :: 0 <= i < |list| && list[i].Formatting?
               ==> IsFormattingElement(list[i].node) && DistinctNames(list[i].node.attrs)
    ensures count == Count(Signatures(list), SignatureOf(Formatting(node)))
    ensures count == 0 ==> earliest == |list|
    ensures count > 0 ==> earliest < |list| && IsEarliest(list, Formatting(node), earliest)
  {
    ghost var s, x := Signatures(list), SignatureOf(Formatting(node));
    hide SignatureOf, DistinctNames;
    MarkersStop(list);
    count, earliest := 0, |list|;
    var i := |list|;
    assert s[..i] == s;
    while i > 0
      invariant 0 <= i <= earliest <= |list| && Count(s, x) == Count(s[..i], x) + count
      invariant forall j :: i <= j < |list| ==> s[j] != Stop
      invariant count == 0 ==> earliest == |list|
      invariant count > 0 ==> earliest < |list| && s[earliest] == x
      invariant Count(s[..earliest], x) == Count(s[..i], x)
    {
      i := i - 1;
      assert s[..i + 1][..i] == s[..i];
      if list[i] == Marker {
        return;
      }
      var same := SameFormatting(list[i].node, node);
      if same {
        count := count + 1;
        earliest := i;
      }
    }
  }

  // The first entry since the last marker that equals e.
  ghost predicate IsEarliest(list: seq<Entry>, e: Entry, k: int)
    requires 0 <= k < |list|
  {
    && SignatureOf(list[k]) == SignatureOf(e) && Count(Signatures(list)[..k], SignatureOf(e)) == 0
    && (forall j :: k <= j < |list| ==> SignatureOf(list[j]) != Stop)
  }

  // add_formatting_element, with the Noah's Ark clause: of four equal elements
  // since the last marker the earliest goes.
  method AddEntry(list: seq<Entry>, e: Entry, ghost nodes: set<Node>) returns (r: seq<Entry>)
    requires ListOK(nodes, list) && Ark(Signatures(list)) && ListOK(nodes, [e]) && e !in list
    ensures ListOK(nodes, r) && Ark(Signatures(r))
    ensures e == Marker || Count(Signatures(list), SignatureOf(e)) < 3 ==> r == list + [e]
    ensures e.Formatting? && Count(Signatures(list), SignatureOf(e)) == 3 ==>
              exists k :: 0 <= k < |list| && IsEarliest(list, e, k) && r == RemoveAt(list, k) + [e]
  {
    ghost var s, x := Signatures(list), SignatureOf(e);
    MarkersStop([e]);
    assert [e][0] == e;
    r := list;
    if e.Formatting? {
      var count, earliest := CountMatching(list, e.node);
      hide Pairs, Lower, Ark, Signatures, SignatureOf, Count, ListOK;
      if count >= 3 {
        ArkReplace(s, earliest, x);
        RemoveSignatures(list, earliest);
        ListRemove(nodes, list, earliest);
        r := RemoveAt(list, earliest);
      } else {
        ArkAppend(s, x);
      }
    } else {
      hide Pairs, Lower, Ark, Signatures, SignatureOf, Count, ListOK;
      ArkAppend(s, x);
    }
    hide Pairs, Lower, Ark, Signatures, SignatureOf, Count, IsEarliest, ListOK;
    AppendSignatures(r, e);
    ListAppend(nodes, r, e);
    r := r + [e];
  }

  lemma ListRemove(nodes: set<Node>, list: seq<Entry>, k: nat)
    requires ListOK(nodes, list) && k < |list|
    ensures ListOK(nodes, RemoveAt(list, k))
    ensures forall e :: e !in list ==> e !in RemoveAt(list, k)
  {
  }

  lemma ListAppend(nodes: set<Node>, list: seq<Entry>, e: Entry)
    requires ListOK(nodes, list) && ListOK(nodes, [e]) && e !in list
    ensures ListOK(nodes, list + [e])
  {
    assert [e][0] == e;
  }

  // gumbo_vector_remove on the list.
  method RemoveEntry(list: seq<Entry>, node: Node, ghost nodes: set<Node>) returns (r: seq<Entry>)
    requires ListOK(nodes, list)
    ensures ListOK(nodes, r) && Formatting(node) !in r
    ensures r == if Formatting(node) in list then RemoveAt(list, IndexOf(list, Formatting(node))) else list
    ensures Ark(Signatures(list)) ==> Ark(Signatures(r))
  {
    var i := IndexOf(list, Formatting(node));
    r := list;
    if i != -1 {
      MarkersStop(list);
      hide Ark, Signatures, SignatureOf;
      if Ark(Signatures(list)) { ArkRemove(Signatures(list), i); }
      r := RemoveAt(list, i);
      RemoveSignatures(list, i);
    }
  }
}
