/** Attributes of elements and their comparison, as in
    gumbo-parser/src/attribute.c and gumbo-parser/src/parser.c. */
module Attributes {

  datatype Attr = Attr(name: string, value: string)

  // gumbo_ascii_tolower on one character, and on a name.
  function LowerChar(c: char): (r: char)
  {
    if 'A' <= c <= 'Z' then (c as int + 32) as char else c
  }

  function Lower(s: string): (r: string)
    ensures |r| == |s|
  {
    seq(|s|, i requires 0 <= i < |s| => LowerChar(s[i]))
  }

  // What tells two attributes apart: the name without regard to case.
  function Pair(a: Attr): (p: (string, string))
  {
    (Lower(a.name), a.value)
  }

  ghost predicate DistinctNames(attrs: seq<Attr>)
  {
    forall i, j :: 0 <= i < j < |attrs| ==> Lower(attrs[i].name) != Lower(attrs[j].name)
  }

  ghost function Pairs(attrs: seq<Attr>): (s: set<(string, string)>)
  {
    set i | 0 <= i < |attrs| :: Pair(attrs[i])
  }

  // gumbo_get_attribute: index of the first attribute of that name, or -1.
  method GetAttribute(attrs: seq<Attr>, name: string) returns (i: int)
    ensures -1 <= i < |attrs|
    ensures i >= 0 ==> Lower(attrs[i].name) == Lower(name)
    ensures forall j :: 0 <= j < (if i >= 0 then i else |attrs|) ==> Lower(attrs[j].name) != Lower(name)
  {
    i := 0;
    while i < |attrs|
      invariant 0 <= i <= |attrs| && forall j :: 0 <= j < i ==> Lower(attrs[j].name) != Lower(name)
    {
      if Lower(attrs[i].name) == Lower(name) {
        return;
      }
      i := i + 1;
    }
    i := -1;
  }

  lemma {:induction false} PairsSize(attrs: seq<Attr>)
    requires DistinctNames(attrs)
    ensures |Pairs(attrs)| == |attrs|
  {
    if attrs == [] {
      assert Pairs(attrs) == {};
    } else {
      var n := |attrs| - 1;
      PairsSize(attrs[..n]);
      assert Pairs(attrs) == Pairs(attrs[..n]) + {Pair(attrs[n])};
      assert Pair(attrs[n]) !in Pairs(attrs[..n]);
    }
  }

  lemma {:induction false} SubsetOfSameSize<T>(a: set<T>, b: set<T>)
    requires a <= b
    ensures |a| <= |b| && (|a| == |b| ==> a == b)
  {
    if a != {} {
      var x :| x in a;
      SubsetOfSameSize(a - {x}, b - {x});
      if |a| == |b| { assert a == (a - {x}) + {x} && b == (b - {x}) + {x}; }
    } else if |b| == 0 {
      assert b == {};
    }
  }

  // all_attributes_match: with distinct names the counter of unmatched
  // attributes never goes below zero and the answer is equality of the
  // attribute sets.
  method AllAttributesMatch(attr1: seq<Attr>, attr2: seq<Attr>) returns (same: bool)
    requires DistinctNames(attr1) && DistinctNames(attr2)
    ensures same <==> Pairs(attr1) == Pairs(attr2)
  {
    var unmatched: nat := |attr2|;
    PairsSize(attr1);
    PairsSize(attr2);
    var i := 0;
    while i < |attr1|
      invariant 0 <= i <= |attr1| && unmatched == |attr2| - i
      invariant Pairs(attr1[..i]) <= Pairs(attr2)
    {
      var j := GetAttribute(attr2, attr1[i].name);
      if j >= 0 && attr2[j].value == attr1[i].value {
        assert Pairs(attr1[..i + 1]) == Pairs(attr1[..i]) + {Pair(attr1[i])};
        assert Pair(attr1[i]) == Pair(attr2[j]);
        PrefixDistinct(attr1, i + 1);
        PairsSize(attr1[..i + 1]);
        SubsetOfSameSize(Pairs(attr1[..i + 1]), Pairs(attr2));
        unmatched := unmatched - 1;
      } else {
        assert Pair(attr1[i]) !in Pairs(attr2);
        assert Pair(attr1[i]) in Pairs(attr1);
        return false;
      }
      i := i + 1;
    }
    assert attr1[..i] == attr1;
    SubsetOfSameSize(Pairs(attr1), Pairs(attr2));
    return unmatched == 0;
  }

  lemma PrefixDistinct(attrs: seq<Attr>, n: nat)
    requires DistinctNames(attrs) && n <= |attrs|
    ensures DistinctNames(attrs[..n])
  {
  }
}
