/** How much of a malformed sequence the decoder of gumbo-parser/src/utf8.c takes
    for one replacement character: the longest start of an encoding. And the
    examples of RFC 3629. */
module Utf8Laws {
  import opened Utf8

  // The bytes begin the encoding of some scalar value.
  ghost predicate Begins(p: seq<bv8>)
  {
    exists c :: IsScalar(c) && p <= Encode(c)
  }

  // Within the first n bytes it does not matter what follows them.
  lemma {:induction false} SameStart(s: seq<bv8>, z: seq<bv8>, n: nat, i: nat, d: Decoder)
    requires 1 <= n <= |s| && n <= |z| && s[..n] == z[..n] && i <= n
    requires !ReadFrom(s, i, d).valid && ReadFrom(s, i, d).width < n
    ensures !ReadFrom(z, i, d).valid
    decreases n - i
  {
    hide Step;
    Wide(s, i, d);
    if i < n {
      assert s[..n][i] == z[..n][i];
      assert s[i] == z[i];
      var d' := Step(d, s[i]);
      if d'.state != ACCEPT && d'.state != REJECT {
        SameStart(s, z, n, i + 1, d');
      }
    }
  }

  // Nothing is given back but the byte that does not fit.
  lemma {:induction false} Wide(s: seq<bv8>, i: nat, d: Decoder)
    requires i <= |s| && s != []
    ensures ReadFrom(s, i, d).width >= i
    decreases |s| - i
  {
    hide Step;
    if i < |s| {
      Wide(s, i + 1, Step(d, s[i]));
    }
  }

  // In the middle of a sequence.
  predicate Midway(q: nat)
  {
    q == 24 || q == 36 || q == 48 || q == 60 || q == 72 || q == 84 || q == 96
  }

  lemma StaysMidway(d: Decoder, b: bv8)
    requires d.state == ACCEPT || Midway(d.state)
    ensures var q := Step(d, b).state; q == ACCEPT || q == REJECT || Midway(q)
  {
    hide LeadMask;
  }

  // A byte that the table accepts there, and the state it leads to.
  function Fitting(q: nat): (b: bv8)
    requires Midway(q)
    ensures var r := NextState(q, Class(b));
            r == if q == 24 then ACCEPT else if q == 36 || q == 48 || q == 60 then 24 else 36
  {
    if q == 48 then 0xa0 else if q == 72 then 0x90 else 0x80
  }

  lemma {:induction false} Completes(p: seq<bv8>, d: Decoder) returns (t: seq<bv8>)
    requires p != [] && Midway(d.state)
    ensures var r := ReadFrom(p + t, |p|, d); r.valid && r.width == |p + t|
    decreases if d.state == 24 then 0 else if d.state <= 60 then 1 else 2
  {
    hide Class, NextState, LeadMask;
    var b := Fitting(d.state);
    var d' := Step(d, b);
    if d.state == 24 {
      t := [b];
      assert (p + t)[|p|] == b;
    } else {
      var t' := Completes(p + [b], d');
      t := [b] + t';
      assert p + t == p + [b] + t';
      assert (p + t)[|p|] == b;
    }
  }

  lemma {:induction false} Extends(s: seq<bv8>, i: nat, d: Decoder) returns (t: seq<bv8>)
    requires i <= |s| && s != [] && (if i == 0 then d == START else Midway(d.state))
    requires var r := ReadFrom(s, i, d); !r.valid && r.width >= 2
    ensures i <= ReadFrom(s, i, d).width
    ensures var w := ReadFrom(s, i, d).width;
            var r := ReadFrom(s[..w] + t, i, d); r.valid && r.width == |s[..w] + t|
    decreases |s| - i
  {
    hide Step;
    var w := ReadFrom(s, i, d).width;
    Wide(s, i, d);
    if i == w {
      t := Completes(s[..w], d);
    } else {
      StaysMidway(d, s[i]);
      var d' := Step(d, s[i]);
      t := Extends(s, i + 1, d');
      assert (s[..w] + t)[i] == s[i];
    }
  }

  // A malformed read takes the longest start of an encoding that stands there,
  // and a single byte when not even that begins one.
  lemma LongestStart(s: seq<bv8>)
    requires s != [] && !ReadFrom(s, 0, START).valid
    ensures var r := ReadFrom(s, 0, START);
            && r.code == REPLACEMENT
            && (Begins(s[..r.width]) || r.width == 1)
            && forall n :: r.width < n <= |s| ==> !Begins(s[..n])
  {
    hide ReadFrom, Encode;
    var w := ReadFrom(s, 0, START).width;
    Replaced(s, 0, START);
    if w >= 2 {
      var t := Extends(s, 0, START);
      var z := s[..w] + t;
      AcceptsOnlyEncodings(z);
      var c := ReadFrom(z, 0, START).code;
      assert z[..|z|] == z && s[..w] <= z;
      assert s[..w] <= Encode(c);
    }
    forall n | w < n <= |s| ensures !Begins(s[..n]) {
      if Begins(s[..n]) {
        var c :| IsScalar(c) && s[..n] <= Encode(c);
        ReadsBack(c, []);
        assert Encode(c) + [] == Encode(c);
        assert Encode(c)[..n] == s[..n];
        SameStart(s, Encode(c), n, 0, START);
      }
    }
  }

  lemma {:induction false} Replaced(s: seq<bv8>, i: nat, d: Decoder)
    requires i <= |s| && s != []
    ensures !ReadFrom(s, i, d).valid ==> ReadFrom(s, i, d).code == REPLACEMENT
    decreases |s| - i
  {
    hide Step;
    if i < |s| {
      Replaced(s, i + 1, Step(d, s[i]));
    }
  }

  // The examples in section 7 of RFC 3629.
  lemma RfcExamples()
    ensures Encode(0x41) == [0x41] && Encode(0x2262) == [0xe2, 0x89, 0xa2]
    ensures Encode(0x391) == [0xce, 0x91] && Encode(0x2e) == [0x2e]
    ensures Encode(0xd55c) == [0xed, 0x95, 0x9c] && Encode(0x65e5) == [0xe6, 0x97, 0xa5]
    ensures Encode(0x233b4) == [0xf0, 0xa3, 0x8e, 0xb4]
  {
  }
}
