/** Why foster parenting never picks a place inside the subtree that the adoption
    agency is moving. */
module Shelter {
  import opened Attributes
  import opened Tags
  import opened Dom
  import opened OpenElements
  import opened AdoptionWalk

  ghost predicate NoMarkerFrom(list: seq<Entry>, p: int)
  {
    forall q :: p <= q < |list| && 0 <= q ==> list[q] != Marker
  }

  // Listed after the last marker.
  ghost predicate Active(list: seq<Entry>, n: Node)
  {
    exists p :: 0 <= p < |list| && list[p] == Formatting(n) && NoMarkerFrom(list, p)
  }

  // From there on, no table or template is open above a table part.
  predicate Unnested(open: seq<Node>, from: nat)
  {
    forall a, j :: from <= a < j < |open| && IsTablePart(open[a]) ==> !TableOrTemplate(open[j])
  }

  // What foster parenting relies on. Between a table part and a table or
  // template above it stands a cell, a caption or a template, and each of these
  // puts a marker in the list.
  ghost predicate Sheltered(open: seq<Node>, list: seq<Entry>, subject: Tag)
  {
    forall i :: 1 <= i < |open| && IsHtml(open[i], subject) && Active(list, open[i]) ==> Unnested(open, i - 1)
  }

  // The stack and the list have changed only in ways that keep it.
  ghost predicate Calm(w: Before, open: seq<Node>, list: seq<Entry>)
  {
    && (forall from :: 0 <= from < w.f && Unnested(w.open, from) ==> Unnested(open, from))
    && (forall n :: n in w.d && Active(list, n) ==> Active(w.list, n))
  }

  lemma UnnestedRemove(open: seq<Node>, from: nat, k: nat)
    requires Unnested(open, from) && from <= k < |open|
    ensures Unnested(RemoveAt(open, k), from)
  {
    var o := RemoveAt(open, k);
    forall a, j | from <= a < j < |o| && IsTablePart(o[a]) ensures !TableOrTemplate(o[j]) {
      assert o[a] == open[if a < k then a else a + 1] && o[j] == open[if j < k then j else j + 1];
    }
  }

  lemma UnnestedReplace(open: seq<Node>, from: nat, k: nat, c: Node)
    requires Unnested(open, from) && from <= k < |open| && IsFormattingElement(c)
    ensures Unnested(open[k := c], from)
  {
  }

  lemma UnnestedInsert(open: seq<Node>, from: nat, k: nat, c: Node)
    requires Unnested(open, from) && from <= k <= |open| && IsFormattingElement(c)
    ensures Unnested(InsertAt(open, k, c), from)
  {
    var o := InsertAt(open, k, c);
    forall a, j | from <= a < j < |o| && IsTablePart(o[a]) ensures !TableOrTemplate(o[j]) {
      if j != k && a != k {
        assert o[a] == open[if a < k then a else a - 1] && o[j] == open[if j < k then j else j - 1];
      }
    }
  }

  lemma ActiveRemove(list: seq<Entry>, i: nat, n: Node)
    requires i < |list| && list[i] != Marker && Active(RemoveAt(list, i), n)
    ensures Active(list, n)
  {
    var r := RemoveAt(list, i);
    var p :| 0 <= p < |r| && r[p] == Formatting(n) && NoMarkerFrom(r, p);
    var k := if p < i then p else p + 1;
    forall q | k <= q < |list| ensures list[q] != Marker {
      if q != i { assert list[q] == r[if q < i then q else q - 1]; }
    }
    assert list[k] == Formatting(n);
  }

  lemma ActiveReplace(list: seq<Entry>, i: nat, c: Node, n: Node)
    requires i < |list| && list[i] != Marker && n != c && Active(list[i := Formatting(c)], n)
    ensures Active(list, n)
  {
    var r := list[i := Formatting(c)];
    var p :| 0 <= p < |r| && r[p] == Formatting(n) && NoMarkerFrom(r, p);
    forall q | p <= q < |list| ensures list[q] != Marker {
      if q != i { assert list[q] == r[q]; }
    }
    assert list[p] == Formatting(n);
  }

  lemma ActiveInsert(list: seq<Entry>, i: nat, c: Node, n: Node)
    requires i <= |list| && n != c && Active(InsertAt(list, i, Formatting(c)), n)
    ensures Active(list, n)
  {
    var r := InsertAt(list, i, Formatting(c));
    var p :| 0 <= p < |r| && r[p] == Formatting(n) && NoMarkerFrom(r, p);
    var k := if p < i then p else p - 1;
    forall q | k <= q < |list| ensures list[q] != Marker {
      assert list[q] == r[if q < i then q else q + 1];
    }
    assert list[k] == Formatting(n);
  }

  lemma CalmDrop(w: Before, open: seq<Node>, list: seq<Entry>, k: nat)
    requires Calm(w, open, list) && w.f <= k < |open|
    ensures Calm(w, RemoveAt(open, k), list)
  {
    forall from | 0 <= from < w.f && Unnested(w.open, from) ensures Unnested(RemoveAt(open, k), from) {
      UnnestedRemove(open, from, k);
    }
  }

  lemma CalmUnlist(w: Before, open: seq<Node>, list: seq<Entry>, i: nat)
    requires Calm(w, open, list) && i < |list| && list[i] != Marker
    ensures Calm(w, open, RemoveAt(list, i))
  {
    forall n | n in w.d && Active(RemoveAt(list, i), n) ensures Active(w.list, n) {
      ActiveRemove(list, i, n);
    }
  }

  lemma CalmClone(w: Before, open: seq<Node>, list: seq<Entry>, k: nat, i: nat, c: Node)
    requires Calm(w, open, list) && w.f <= k < |open| && i < |list| && list[i] != Marker && c !in w.d
    requires IsFormattingElement(c)
    ensures Calm(w, open[k := c], list[i := Formatting(c)])
  {
    forall from | 0 <= from < w.f && Unnested(w.open, from) ensures Unnested(open[k := c], from) {
      UnnestedReplace(open, from, k, c);
    }
    forall n | n in w.d && Active(list[i := Formatting(c)], n) ensures Active(w.list, n) {
      ActiveReplace(list, i, c, n);
    }
  }

  lemma CalmInsert(w: Before, open: seq<Node>, list: seq<Entry>, k: nat, i: nat, c: Node)
    requires Calm(w, open, list) && w.f <= k <= |open| && i <= |list| && c !in w.d && IsFormattingElement(c)
    ensures Calm(w, InsertAt(open, k, c), InsertAt(list, i, Formatting(c)))
  {
    forall from | 0 <= from < w.f && Unnested(w.open, from) ensures Unnested(InsertAt(open, k, c), from) {
      UnnestedInsert(open, from, k, c);
    }
    forall n | n in w.d && Active(InsertAt(list, i, Formatting(c)), n) ensures Active(w.list, n) {
      ActiveInsert(list, i, c, n);
    }
  }

  lemma StillSheltered(w: Before, open: seq<Node>, list: seq<Entry>, subject: Tag)
    requires Ready(w) && Sheltered(w.open, w.list, subject) && Calm(w, open, list)
    requires IsHtml(w.open[w.f], subject) && Active(w.list, w.open[w.f])
    requires w.f <= |open| && open[..w.f] == w.open[..w.f]
    ensures Sheltered(open, list, subject)
  {
    forall i | 1 <= i < |open| && IsHtml(open[i], subject) && Active(list, open[i]) ensures Unnested(open, i - 1) {
      if i < w.f {
        assert open[i] == open[..w.f][i] == w.open[i];
        assert w.open[i] in w.d;
      } else {
        assert Unnested(w.open, w.f - 1);
        assert Unnested(open, w.f - 1);
      }
    }
  }
}
