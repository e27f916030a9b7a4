/** The escaping of serialised text, output_escaped_string of
    ext/nokogiri/xml_node.c, and what the tokenizer reads back from it. */
module Escaping {
  import opened Utf8
  import CharRefs

  datatype Special = Ordinary | Amp | Nbsp | Quot | Lt | Gt

  // The replacement of a character, in ASCII.
  function Word(k: Special): (w: seq<bv32>)
    ensures forall i :: 0 <= i < |w| ==> w[i] <= 0x7f
  {
    match k
    case Ordinary => []
    case Amp => [0x26, 0x61, 0x6d, 0x70, 0x3b]
    case Nbsp => [0x26, 0x6e, 0x62, 0x73, 0x70, 0x3b]
    case Quot => [0x26, 0x71, 0x75, 0x6f, 0x74, 0x3b]
    case Lt => [0x26, 0x6c, 0x74, 0x3b]
    case Gt => [0x26, 0x67, 0x74, 0x3b]
  }

  function Narrow(w: seq<bv32>): (r: seq<bv8>)
    requires forall i :: 0 <= i < |w| ==> w[i] <= 0x7f
    ensures |r| == |w|
  {
    if w == [] then [] else Narrow(w[..|w| - 1]) + [NarrowOne(w[|w| - 1])]
  }

  function NarrowOne(c: bv32): (b: bv8)
    requires c <= 0x7f
  {
    c as bv8
  }

  // What stands at the front of a byte string; its end reads as NUL.
  function SpecialByte(s: seq<bv8>, attr: bool): (k: Special)
    requires s != []
  {
    if s[0] == 0x26 then Amp
    else if s[0] == 0xc2 && |s| > 1 && s[1] == 0xa0 then Nbsp
    else if attr && s[0] == 0x22 then Quot
    else if !attr && s[0] == 0x3c then Lt
    else if !attr && s[0] == 0x3e then Gt
    else Ordinary
  }

  function Width(k: Special): (n: nat)
  {
    if k == Nbsp then 2 else 1
  }

  // Byte by byte replacement.
  function EscapeBytes(s: seq<bv8>, attr: bool): (r: seq<bv8>)
  {
    if s == [] then []
    else
      var k := SpecialByte(s, attr);
      (if k == Ordinary then [s[0]] else Narrow(Word(k))) + EscapeBytes(s[Width(k)..], attr)
  }

  // What is left in the output: no quote in an attribute value, no angle bracket
  // in text, and no U+00A0, which is written in two bytes.
  ghost predicate Harmless(r: seq<bv8>, attr: bool)
  {
    && (forall i :: 0 <= i < |r| ==> if attr then r[i] != 0x22 else r[i] != 0x3c && r[i] != 0x3e)
    && forall i :: 0 <= i < |r| - 1 ==> !(r[i] == 0xc2 && r[i + 1] == 0xa0)
  }

  lemma {:induction false} NothingSpecialLeft(s: seq<bv8>, attr: bool)
    ensures Harmless(EscapeBytes(s, attr), attr)
    ensures s != [] && EscapeBytes(s, attr) != [] && EscapeBytes(s, attr)[0] == 0xa0 ==> s[0] == 0xa0
    decreases |s|
  {
    hide Word, Narrow;
    if s != [] {
      var k := SpecialByte(s, attr);
      var rest := s[Width(k)..];
      NothingSpecialLeft(rest, attr);
      if k == Ordinary {
        OnePlain(s[0], EscapeBytes(rest, attr), attr);
      } else {
        WordHarmless(k);
        OneWord(Narrow(Word(k)), EscapeBytes(rest, attr), attr);
      }
    }
  }

  lemma OnePlain(b: bv8, r: seq<bv8>, attr: bool)
    requires Harmless(r, attr) && (if attr then b != 0x22 else b != 0x3c && b != 0x3e)
    requires b == 0xc2 && r != [] ==> r[0] != 0xa0
    ensures Harmless([b] + r, attr)
  {
    var z := [b] + r;
    forall i | 0 <= i < |z| - 1 ensures !(z[i] == 0xc2 && z[i + 1] == 0xa0) {
      if i > 0 { assert z[i] == r[i - 1] && z[i + 1] == r[i]; }
    }
  }

  lemma WordHarmless(k: Special)
    requires k != Ordinary
    ensures var w := Narrow(Word(k));
            |w| > 0 && w[0] == 0x26
            && forall i :: 0 <= i < |w| ==> w[i] != 0x22 && w[i] != 0x3c && w[i] != 0x3e && w[i] != 0xc2
  {
    hide Narrow, NarrowOne;
    var w := Narrow(Word(k));
    forall i | 0 <= i < |w|
      ensures w[i] != 0x22 && w[i] != 0x3c && w[i] != 0x3e && w[i] != 0xc2 && (i == 0 ==> w[i] == 0x26)
    {
      NarrowAt(Word(k), i);
      NarrowSame(Word(k)[i]);
    }
  }

  lemma {:induction false} NarrowAt(w: seq<bv32>, i: nat)
    requires (forall j :: 0 <= j < |w| ==> w[j] <= 0x7f) && i < |w|
    ensures Narrow(w)[i] == NarrowOne(w[i])
  {
    hide NarrowOne;
    if i < |w| - 1 {
      NarrowAt(w[..|w| - 1], i);
    }
  }

  lemma NarrowSame(c: bv32)
    requires c <= 0x7f
    ensures var b := NarrowOne(c);
            && (b == 0x22 <==> c == 0x22) && (b == 0x3c <==> c == 0x3c) && (b == 0x3e <==> c == 0x3e)
            && (b == 0x26 <==> c == 0x26) && b != 0xc2
  {
  }

  lemma OneWord(w: seq<bv8>, r: seq<bv8>, attr: bool)
    requires Harmless(r, attr)
    requires forall i :: 0 <= i < |w| ==> w[i] != 0x22 && w[i] != 0x3c && w[i] != 0x3e && w[i] != 0xc2
    ensures Harmless(w + r, attr)
  {
    var z := w + r;
    forall i | 0 <= i < |z| - 1 ensures !(z[i] == 0xc2 && z[i + 1] == 0xa0) {
      if i >= |w| { assert z[i] == r[i - |w|] && z[i + 1] == r[i + 1 - |w|]; } else { assert z[i] == w[i]; }
    }
  }

  // The references written, spelled out.
  lemma Spelling()
    ensures NameOf(Amp) == CharsOf("amp;") && NameOf(Nbsp) == CharsOf("nbsp;") && NameOf(Quot) == CharsOf("quot;")
    ensures NameOf(Lt) == CharsOf("lt;") && NameOf(Gt) == CharsOf("gt;")
  {
  }

  function CharsOf(w: string): (r: seq<int>)
    ensures |r| == |w| && forall i :: 0 <= i < |w| ==> r[i] == w[i] as int
  {
    seq(|w|, i requires 0 <= i < |w| => w[i] as int)
  }

  // output_escaped_string: stretches without special characters are copied in
  // one piece.
  method OutputEscaped(s: seq<bv8>, attr: bool) returns (out: seq<bv8>)
    ensures out == EscapeBytes(s, attr) && Harmless(out, attr)
  {
    hide EscapeBytes, SpecialByte, Word, Narrow, Width, Harmless;
    NothingSpecialLeft(s, attr);
    out := [];
    var start, next := 0, 0;
    assert [] + s[0..0] + EscapeBytes(s[0..], attr) == EscapeBytes(s, attr) by { assert s[0..] == s && s[0..0] == []; }
    while next < |s|
      invariant 0 <= start <= next <= |s|
      invariant out + s[start..next] + EscapeBytes(s[next..], attr) == EscapeBytes(s, attr)
    {
      var k := SpecialByte(s[next..], attr);
      Unfold(s, next, attr);
      if k == Ordinary {
        Longer(out, s, start, next, EscapeBytes(s[next + 1..], attr));
        next := next + 1;
      } else {
        Replaced(out + s[start..next], Narrow(Word(k)), EscapeBytes(s[next + Width(k)..], attr), s, next + Width(k));
        out := out + s[start..next] + Narrow(Word(k));
        next := next + Width(k);
        start := next;
      }
    }
    out := out + s[start..next];
    Nothing(out, s, attr);
  }

  lemma Longer(out: seq<bv8>, s: seq<bv8>, start: nat, next: nat, tail: seq<bv8>)
    requires start <= next < |s|
    ensures out + s[start..next] + ([s[next]] + tail) == out + s[start..next + 1] + tail
  {
  }

  lemma Replaced(a: seq<bv8>, w: seq<bv8>, tail: seq<bv8>, s: seq<bv8>, i: nat)
    requires i <= |s|
    ensures a + (w + tail) == a + w + s[i..i] + tail
  {
  }

  lemma Nothing(out: seq<bv8>, s: seq<bv8>, attr: bool)
    ensures out + EscapeBytes(s[|s|..], attr) == out
  {
  }

  lemma Unfold(s: seq<bv8>, i: nat, attr: bool)
    requires i < |s|
    ensures var k := SpecialByte(s[i..], attr);
            && 0 < Width(k) && i + Width(k) <= |s| && (k == Ordinary ==> Width(k) == 1)
            && EscapeBytes(s[i..], attr)
               == (if k == Ordinary then [s[i]] else Narrow(Word(k))) + EscapeBytes(s[i + Width(k)..], attr)
  {
    var k := SpecialByte(s[i..], attr);
    assert s[i..][Width(k)..] == s[i + Width(k)..];
  }

  function SpecialOf(c: bv32, attr: bool): (k: Special)
  {
    if c == 0x26 then Amp
    else if c == 0xa0 then Nbsp
    else if attr && c == 0x22 then Quot
    else if !attr && c == 0x3c then Lt
    else if !attr && c == 0x3e then Gt
    else Ordinary
  }

  // Character by character replacement.
  function Escape(cs: seq<bv32>, attr: bool): (r: seq<bv32>)
  {
    if cs == [] then []
    else
      var k := SpecialOf(cs[0], attr);
      (if k == Ordinary then [cs[0]] else Word(k)) + Escape(cs[1..], attr)
  }

  lemma {:induction false} EncodeAscii(w: seq<bv32>)
    requires forall i :: 0 <= i < |w| ==> w[i] <= 0x7f
    ensures EncodeAll(w) == Narrow(w)
  {
    if w != [] {
      var n := |w| - 1;
      EncodeAscii(w[..n]);
      OneByte(w[n]);
    }
  }

  lemma NoCharacters()
    ensures EncodeAll([]) == []
  {
  }

  lemma {:induction false} EncodeConcat(a: seq<bv32>, b: seq<bv32>)
    ensures EncodeAll(a + b) == EncodeAll(a) + EncodeAll(b)
  {
    hide *;
    if a == [] {
      assert a + b == b;
      NoCharacters();
    } else {
      var c, rest := a[0], a[1..];
      EncodeConcat(rest, b);
      assert a + b == [c] + (rest + b) && a == [c] + rest;
      EncodeCons(c, rest + b);
      EncodeCons(c, rest);
      var x, y, z := Encode(c), EncodeAll(rest), EncodeAll(b);
      assert x + (y + z) == (x + y) + z;
    }
  }

  // A byte of a multi-byte character other than U+00A0 passes unchanged.
  lemma PassOne(b: bv8, rest: seq<bv8>, attr: bool)
    requires b >= 0x80 && (b == 0xc2 ==> rest == [] || rest[0] != 0xa0)
    ensures EscapeBytes([b] + rest, attr) == [b] + EscapeBytes(rest, attr)
  {
    assert ([b] + rest)[1..] == rest;
  }

  lemma {:induction false} PassThrough(bs: seq<bv8>, rest: seq<bv8>, attr: bool)
    requires forall i :: 0 <= i < |bs| ==> bs[i] >= 0x80
    requires forall i :: 0 <= i < |bs| && bs[i] == 0xc2 ==> i + 1 < |bs| && bs[i + 1] != 0xa0
    ensures EscapeBytes(bs + rest, attr) == bs + EscapeBytes(rest, attr)
  {
    hide EscapeBytes;
    if bs == [] {
      assert bs + rest == rest;
    } else {
      PassThrough(bs[1..], rest, attr);
      PassOne(bs[0], bs[1..] + rest, attr);
      assert bs + rest == [bs[0]] + (bs[1..] + rest);
      assert [bs[0]] + (bs[1..] + EscapeBytes(rest, attr)) == bs + EscapeBytes(rest, attr);
    }
  }

  lemma ContinuationByte(c: bv32, i: nat)
    requires i <= 3
    ensures 0x80 <= Continuation(c, i) <= 0xbf
  {
  }

  lemma TwoByteShape(c: bv32)
    requires 0x7f < c <= 0x7ff
    ensures Encode(c) == [Lead(c), Continuation(c, 0)] && Lead(c) >= 0xc2
    ensures Lead(c) == 0xc2 && Continuation(c, 0) == 0xa0 <==> c == 0xa0
  {
    assert Lead(c) as bv32 == 0xc0 | (c >> 6);
    assert Continuation(c, 0) as bv32 == 0x80 | (0x3f & c);
  }

  lemma ManyByteShape(c: bv32)
    requires 0x7ff < c <= 0x10ffff
    ensures Lead(c) >= 0xe0
  {
    if c <= 0xffff {
      assert Lead(c) as bv32 == 0xe0 | (c >> 12);
    } else {
      assert Lead(c) as bv32 == 0xf0 | (c >> 18);
    }
  }

  lemma {:induction false} TailShape(c: bv32, n: nat)
    requires n <= 3
    ensures forall i :: 0 <= i < n ==> 0x80 <= Tail(c, n)[i] <= 0xbf
  {
    hide Continuation;
    if n > 0 {
      ContinuationByte(c, n - 1);
      TailShape(c, n - 1);
    }
  }

  // One character of the encoded string.
  lemma EscapeOne(c: bv32, rest: seq<bv8>, attr: bool)
    requires IsScalar(c)
    ensures var k := SpecialOf(c, attr);
            EscapeBytes(Encode(c) + rest, attr) ==
            (if k == Ordinary then Encode(c) else Narrow(Word(k))) + EscapeBytes(rest, attr)
  {
    if c <= 0x7f {
      OneByte(c);
      EscapeAscii(c, rest, attr);
    } else if c == 0xa0 {
      TwoByteShape(c);
      assert ([0xc2 as bv8, 0xa0 as bv8] + rest)[2..] == rest;
    } else if c <= 0x7ff {
      EscapeTwo(c, rest, attr);
    } else {
      EscapeMany(c, rest, attr);
    }
  }

  lemma EscapeAscii(c: bv32, rest: seq<bv8>, attr: bool)
    requires c <= 0x7f
    ensures var k := SpecialOf(c, attr);
            EscapeBytes([c as bv8] + rest, attr) ==
            (if k == Ordinary then [c as bv8] else Narrow(Word(k))) + EscapeBytes(rest, attr)
  {
    hide Word, Narrow;
    assert ([c as bv8] + rest)[1..] == rest;
  }

  lemma EscapeTwo(c: bv32, rest: seq<bv8>, attr: bool)
    requires 0x7f < c <= 0x7ff && c != 0xa0
    ensures EscapeBytes(Encode(c) + rest, attr) == Encode(c) + EscapeBytes(rest, attr)
  {
    hide EscapeBytes, Lead, Continuation;
    TwoByteShape(c);
    ContinuationByte(c, 0);
    PassThrough(Encode(c), rest, attr);
  }

  lemma EscapeMany(c: bv32, rest: seq<bv8>, attr: bool)
    requires 0x7ff < c <= 0x10ffff
    ensures EscapeBytes(Encode(c) + rest, attr) == Encode(c) + EscapeBytes(rest, attr)
  {
    hide EscapeBytes, Lead, Tail;
    ManyByteShape(c);
    TailShape(c, Continuations(c));
    PassThrough(Encode(c), rest, attr);
  }

  // Replacing bytes of the encoded string is replacing characters.
  lemma {:induction false} EscapedEncoding(cs: seq<bv32>, attr: bool)
    requires forall i :: 0 <= i < |cs| ==> IsScalar(cs[i])
    ensures EscapeBytes(EncodeAll(cs), attr) == EncodeAll(Escape(cs, attr))
  {
    hide Encode, EscapeBytes, IsScalar, Word, Narrow;
    if cs == [] {
      assert EscapeBytes([], attr) == [] by { NoBytes(attr); }
    } else {
      var c, rest := cs[0], cs[1..];
      var k := SpecialOf(c, attr);
      assert cs == [c] + rest;
      EncodeCons(c, rest);
      EscapeOne(c, EncodeAll(rest), attr);
      EscapedEncoding(rest, attr);
      var piece := if k == Ordinary then [c] else Word(k);
      EncodeConcat(piece, Escape(rest, attr));
      if k == Ordinary {
        EncodeSingle(c);
      } else {
        EncodeAscii(Word(k));
      }
    }
  }

  lemma NoBytes(attr: bool)
    ensures EscapeBytes([], attr) == []
  {
  }

  lemma EncodeSingle(c: bv32)
    ensures EncodeAll([c]) == Encode(c)
  {
    hide Encode;
    assert [c][..0] == [] && [c][0] == c;
  }

  function Code(c: bv32): (n: int)
  {
    c as int
  }

  // The characters as the tokenizer sees them.
  function Codes(cs: seq<bv32>): (r: seq<int>)
    ensures |r| == |cs| && forall i :: 0 <= i < |cs| ==> r[i] == Code(cs[i])
  {
    if cs == [] then [] else [Code(cs[0])] + Codes(cs[1..])
  }

  lemma CodesConcat(a: seq<bv32>, b: seq<bv32>)
    ensures Codes(a + b) == Codes(a) + Codes(b)
  {
    hide Code;
  }

  // The replacement without its ampersand, and the character it stands for.
  function NameOf(k: Special): (w: seq<int>)
  {
    match k
    case Ordinary => []
    case Amp => [97, 109, 112, 59]
    case Nbsp => [110, 98, 115, 112, 59]
    case Quot => [113, 117, 111, 116, 59]
    case Lt => [108, 116, 59]
    case Gt => [103, 116, 59]
  }

  function CharOf(k: Special): (c: int)
  {
    match k
    case Ordinary => 0
    case Amp => 0x26
    case Nbsp => 0xa0
    case Quot => 0x22
    case Lt => 0x3c
    case Gt => 0x3e
  }

  lemma WordCodes(k: Special)
    requires k != Ordinary
    ensures Codes(Word(k)) == [0x26] + NameOf(k)
  {
  }

  lemma SpecialCode(c: bv32, attr: bool)
    ensures SpecialOf(c, attr) != Ordinary ==> Code(c) == CharOf(SpecialOf(c, attr))
    ensures SpecialOf(c, attr) == Ordinary ==>
              Code(c) != 0x26 && (attr ==> Code(c) != 0x22) && (!attr ==> Code(c) != 0x3c)
    ensures Code(c) == 0 <==> c == 0
  {
  }

  // match_named_char_ref finds the five references, whatever follows them.
  ghost predicate Knows(named: seq<int> -> CharRefs.Match)
  {
    forall k: Special, t: seq<int> {:trigger named(NameOf(k) + t)} ::
      k != Ordinary ==> named(NameOf(k) + t) == CharRefs.Match(|NameOf(k)|, CharOf(k), CharRefs.NO_CHAR)
  }

  // The text or the attribute value may stand in a longer input, before
  // something that ends it.
  lemma {:induction false} DecodeEscaped(pre: seq<int>, cs: seq<bv32>, post: seq<int>,
      named: seq<int> -> CharRefs.Match, p: CharRefs.Place)
    requires p == CharRefs.InData || p == CharRefs.InDoubleQuoted || p == CharRefs.InRcdata
    requires p != CharRefs.InData ==> 0 !in cs
    requires Knows(named) && (post == [] || CharRefs.Stops(p, post[0]))
    requires CharRefs.IsMatcher(pre + Codes(Escape(cs, CharRefs.InAttribute(p))) + post, named)
    ensures var e := Codes(Escape(cs, CharRefs.InAttribute(p)));
            CharRefs.Decode(pre + e + post, named, p, |pre|) == CharRefs.Decoded(Codes(cs), |pre| + |e|)
    decreases |cs|
  {
    hide CharRefs.Decode, Code, Word, NameOf, CharOf, SpecialOf, Knows, CharRefs.IsMatcher, Codes, Escape,
         CharRefs.Stops;
    if cs == [] {
      DecodeNothing(pre, post, named, p);
    } else {
      var attr := CharRefs.InAttribute(p);
      var c, rest := cs[0], cs[1..];
      var k := SpecialOf(c, attr);
      var piece := if k == Ordinary then [Code(c)] else [0x26] + NameOf(k);
      EscapeCons(cs, attr);
      var more := Codes(Escape(rest, attr));
      Regroup(pre, piece, more, post);
      var whole := pre + piece + (more + post);
      DecodeEscaped(pre + piece, rest, post, named, p);
      DecodePiece(whole, c, pre, more + post, |pre + piece|, named, p);
    }
  }

  lemma Regroup(pre: seq<int>, piece: seq<int>, more: seq<int>, post: seq<int>)
    ensures pre + (piece + more) + post == pre + piece + (more + post) == pre + piece + more + post
  {
  }

  lemma EscapeCons(cs: seq<bv32>, attr: bool)
    requires cs != []
    ensures Codes(cs) == [Code(cs[0])] + Codes(cs[1..])
    ensures var k := SpecialOf(cs[0], attr);
            Codes(Escape(cs, attr)) ==
            (if k == Ordinary then [Code(cs[0])] else [0x26] + NameOf(k)) + Codes(Escape(cs[1..], attr))
    ensures 0 !in cs ==> cs[0] != 0
  {
    hide Code, Word, NameOf, SpecialOf;
    var k := SpecialOf(cs[0], attr);
    CodesConcat(if k == Ordinary then [cs[0]] else Word(k), Escape(cs[1..], attr));
    OneCode(cs[0]);
    if k != Ordinary { WordCodes(k); }
  }

  lemma DecodePiece(whole: seq<int>, c: bv32, pre: seq<int>, tail: seq<int>, e: nat,
      named: seq<int> -> CharRefs.Match, p: CharRefs.Place)
    requires p == CharRefs.InData || p == CharRefs.InDoubleQuoted || p == CharRefs.InRcdata
    requires CharRefs.IsMatcher(whole, named) && Knows(named) && (p != CharRefs.InData ==> c != 0)
    requires var k := SpecialOf(c, CharRefs.InAttribute(p));
             && whole == pre + (if k == Ordinary then [Code(c)] else [0x26] + NameOf(k)) + tail
             && e == |pre| + if k == Ordinary then 1 else 1 + |NameOf(k)|
    ensures CharRefs.Decode(whole, named, p, |pre|) == CharRefs.Cons([Code(c)], CharRefs.Decode(whole, named, p, e))
  {
    hide *;
    var k := SpecialOf(c, CharRefs.InAttribute(p));
    SpecialCode(c, CharRefs.InAttribute(p));
    if k == Ordinary {
      StopsAt(p, Code(c));
      AttributePlace(p);
      Middle(pre, [Code(c)], tail);
      DecodeOrdinary(whole, c, |pre|, named, p);
    } else {
      DecodeWord(whole, k, pre, tail, named, p);
    }
  }

  lemma Middle(pre: seq<int>, x: seq<int>, tail: seq<int>)
    requires |x| == 1
    ensures (pre + x + tail)[|pre|] == x[0]
  {
  }

  lemma AttributePlace(p: CharRefs.Place)
    ensures p == CharRefs.InDoubleQuoted ==> CharRefs.InAttribute(p)
    ensures p == CharRefs.InData || p == CharRefs.InRcdata ==> !CharRefs.InAttribute(p)
  {
  }

  lemma DecodeNothing(pre: seq<int>, post: seq<int>, named: seq<int> -> CharRefs.Match, p: CharRefs.Place)
    requires post == [] || CharRefs.Stops(p, post[0])
    requires CharRefs.IsMatcher(pre + Codes(Escape([], CharRefs.InAttribute(p))) + post, named)
    ensures var e := Codes(Escape([], CharRefs.InAttribute(p)));
            CharRefs.Decode(pre + e + post, named, p, |pre|) == CharRefs.Decoded(Codes([]), |pre| + |e|)
  {
  }

  lemma OneCode(c: bv32)
    ensures Codes([c]) == [Code(c)]
  {
  }

  lemma StopsAt(p: CharRefs.Place, c: int)
    requires p == CharRefs.InData || p == CharRefs.InDoubleQuoted || p == CharRefs.InRcdata
    ensures CharRefs.Stops(p, c) <==> c == if CharRefs.InAttribute(p) then 0x22 else 0x3c
  {
  }

  lemma DecodeOrdinary(whole: seq<int>, c: bv32, k: nat, named: seq<int> -> CharRefs.Match, p: CharRefs.Place)
    requires CharRefs.IsMatcher(whole, named) && k < |whole| && whole[k] == Code(c) != 0x26
    requires !CharRefs.Stops(p, Code(c)) && (p != CharRefs.InData ==> Code(c) != 0)
    ensures CharRefs.Decode(whole, named, p, k) == CharRefs.Cons([Code(c)], CharRefs.Decode(whole, named, p, k + 1))
  {
    hide Code;
  }

  lemma DecodeWord(whole: seq<int>, k: Special, pre: seq<int>, tail: seq<int>,
      named: seq<int> -> CharRefs.Match, p: CharRefs.Place)
    requires CharRefs.IsMatcher(whole, named) && Knows(named) && k != Ordinary
    requires whole == pre + ([0x26] + NameOf(k)) + tail
    ensures var e := |pre| + 1 + |NameOf(k)|;
            && e <= |whole|
            && CharRefs.Decode(whole, named, p, |pre|) ==
               CharRefs.Cons([CharOf(k)], CharRefs.Decode(whole, named, p, e))
  {
    hide CharRefs.IsMatcher;
    var name := NameOf(k);
    assert whole[|pre| + 1..] == name + tail;
    assert whole[|pre|] == 0x26 && whole[|pre| + 1] == name[0] && CharRefs.IsAlnum(name[0]);
    var e := |pre| + 1 + |name|;
    assert whole[e - 1] == name[|name| - 1] == 59;
    assert [CharOf(k)] + [] == [CharOf(k)];
  }

  // Text that has been escaped, encoded, decoded and tokenised in the data state
  // is the original text with its newlines normalised: character tokens only, up
  // to the end of the input.
  lemma TextSurvives(cs: seq<bv32>, named: seq<int> -> CharRefs.Match)
    requires forall i :: 0 <= i < |cs| ==> IsScalar(cs[i])
    requires Knows(named) && CharRefs.IsMatcher(Codes(ReadAll(EscapeBytes(EncodeAll(cs), false))), named)
    ensures var input := Codes(ReadAll(EscapeBytes(EncodeAll(cs), false)));
            CharRefs.Decode(input, named, CharRefs.InData, 0) == CharRefs.Decoded(Codes(Normalised(cs)), |input|)
  {
    hide *;
    AttributePlace(CharRefs.InData);
    EscapedReading(cs, false);
    var e := Codes(Escape(Normalised(cs), false));
    assert [] + e + [] == e;
    DecodeEscaped([], Normalised(cs), [], named, CharRefs.InData);
  }

  // An attribute value, with whatever follows its closing quote.
  lemma ValueSurvives(cs: seq<bv32>, rest: seq<int>, named: seq<int> -> CharRefs.Match)
    requires forall i :: 0 <= i < |cs| ==> IsScalar(cs[i])
    requires 0 !in cs && Knows(named)
    requires CharRefs.IsMatcher(Codes(ReadAll(EscapeBytes(EncodeAll(cs), true))) + ['"' as int] + rest, named)
    ensures var value := Codes(ReadAll(EscapeBytes(EncodeAll(cs), true)));
            CharRefs.Decode(value + ['"' as int] + rest, named, CharRefs.InDoubleQuoted, 0)
            == CharRefs.Decoded(Codes(Normalised(cs)), |value|)
  {
    hide *;
    AttributePlace(CharRefs.InDoubleQuoted);
    EscapedReading(cs, true);
    NormalisedCharacters(cs);
    var e := Codes(Escape(Normalised(cs), true));
    var post := ['"' as int] + rest;
    assert [] + e + post == e + ['"' as int] + rest;
    StopsAt(CharRefs.InDoubleQuoted, post[0]);
    DecodeEscaped([], Normalised(cs), post, named, CharRefs.InDoubleQuoted);
  }

  lemma EscapedReading(cs: seq<bv32>, attr: bool)
    requires forall i :: 0 <= i < |cs| ==> IsScalar(cs[i])
    ensures ReadAll(EscapeBytes(EncodeAll(cs), attr)) == Escape(Normalised(cs), attr)
  {
    hide *;
    EscapedEncoding(cs, attr);
    EscapeKeeps(cs, attr);
    RoundTrip(Escape(cs, attr));
    EscapeNormalised(cs, attr);
  }

  lemma {:induction false} EscapeKeeps(cs: seq<bv32>, attr: bool)
    requires forall i :: 0 <= i < |cs| ==> IsScalar(cs[i])
    ensures forall i :: 0 <= i < |Escape(cs, attr)| ==> IsScalar(Escape(cs, attr)[i])
  {
    if cs != [] {
      hide IsScalar, Word;
      EscapeKeeps(cs[1..], attr);
      WordIsText(SpecialOf(cs[0], attr));
    }
  }

  lemma WordIsText(k: Special)
    ensures CR !in Word(k) && LF !in Word(k) && forall i :: 0 <= i < |Word(k)| ==> IsScalar(Word(k)[i])
  {
  }

  // Normalisation passes through anything without carriage returns.
  lemma {:induction false} NormalisedPrefix(w: seq<bv32>, rest: seq<bv32>)
    requires CR !in w
    ensures Normalised(w + rest) == w + Normalised(rest)
  {
    if w == [] {
      assert w + rest == rest;
    } else {
      assert (w + rest)[1..] == w[1..] + rest;
      NormalisedPrefix(w[1..], rest);
      assert [w[0]] + (w[1..] + Normalised(rest)) == w + Normalised(rest);
    }
  }

  lemma {:induction false} EscapeNormalised(cs: seq<bv32>, attr: bool)
    ensures Normalised(Escape(cs, attr)) == Escape(Normalised(cs), attr)
    decreases |cs|
  {
    if cs != [] {
      var c, rest := cs[0], cs[1..];
      if c != CR {
        EscapeNormalised(rest, attr);
        KeptFirst(cs, attr);
      } else {
        hide Word, SpecialOf;
        EscapeCR(attr);

        var after := if rest != [] && rest[0] == LF then rest[1..] else rest;
        NewlineFirst(rest, attr);
        EscapeNormalised(after, attr);
        EscapeFirst(LF, Normalised(after), attr);
      }
    }
  }

  lemma KeptFirst(cs: seq<bv32>, attr: bool)
    requires cs != [] && cs[0] != CR && Normalised(Escape(cs[1..], attr)) == Escape(Normalised(cs[1..]), attr)
    ensures Normalised(Escape(cs, attr)) == Escape(Normalised(cs), attr)
  {
    hide Word;
    var c, rest := cs[0], cs[1..];
    var k := SpecialOf(c, attr);
    WordIsText(k);
    NormalisedPrefix(if k == Ordinary then [c] else Word(k), Escape(rest, attr));
    EscapeFirst(c, Normalised(rest), attr);
  }

  lemma EscapeCR(attr: bool)
    ensures SpecialOf(CR, attr) == Ordinary && SpecialOf(LF, attr) == Ordinary
  {
  }

  lemma EscapeFirst(c: bv32, rest: seq<bv32>, attr: bool)
    ensures Escape([c] + rest, attr) ==
            (if SpecialOf(c, attr) == Ordinary then [c] else Word(SpecialOf(c, attr))) + Escape(rest, attr)
  {
    assert ([c] + rest)[1..] == rest;
  }

  // A carriage return takes a line feed after it along, also when escaped.
  lemma NewlineFirst(rest: seq<bv32>, attr: bool)
    ensures var after := if rest != [] && rest[0] == LF then rest[1..] else rest;
            Normalised([CR] + Escape(rest, attr)) == [LF] + Normalised(Escape(after, attr))
  {
    var s := [CR] + Escape(rest, attr);
    assert s[1..] == Escape(rest, attr);
    if rest != [] {
      WordStart(SpecialOf(rest[0], attr));
      assert SpecialOf(rest[0], attr) == Ordinary ==> s[1] == rest[0];
      if rest[0] == LF {
        assert s[2..] == Escape(rest[1..], attr);
      }
    }
  }

  lemma WordStart(k: Special)
    ensures k != Ordinary ==> |Word(k)| > 0 && Word(k)[0] == 0x26
  {
  }

  lemma {:induction false} NormalisedCharacters(cs: seq<bv32>)
    ensures CR !in Normalised(cs) && (0 !in cs ==> 0 !in Normalised(cs))
    decreases |cs|
  {
    if cs != [] {
      if cs[0] == CR && |cs| > 1 && cs[1] == LF {
        NormalisedCharacters(cs[2..]);
      } else {
        NormalisedCharacters(cs[1..]);
      }
    }
  }

  // So text comes back as it was exactly when it has no carriage return.
  lemma SurvivesExactly(cs: seq<bv32>, named: seq<int> -> CharRefs.Match)
    requires forall i :: 0 <= i < |cs| ==> IsScalar(cs[i])
    requires Knows(named) && CharRefs.IsMatcher(Codes(ReadAll(EscapeBytes(EncodeAll(cs), false))), named)
    ensures var input := Codes(ReadAll(EscapeBytes(EncodeAll(cs), false)));
            CharRefs.Decode(input, named, CharRefs.InData, 0) == CharRefs.Decoded(Codes(cs), |input|) <==> CR !in cs
  {
    hide *;
    TextSurvives(cs, named);
    NormalisedCharacters(cs);
    CodesHaveCR(cs);
    CodesHaveCR(Normalised(cs));
    if CR !in cs { NormalisedWithoutCR(cs); }
  }

  lemma CodeOfCR(c: bv32)
    ensures Code(c) == 0xd <==> c == CR
  {
  }

  lemma CodesHaveCR(cs: seq<bv32>)
    ensures 0xd in Codes(cs) <==> CR in cs
  {
    hide Code;
    forall i | 0 <= i < |cs| ensures Codes(cs)[i] == 0xd <==> cs[i] == CR {
      CodeOfCR(cs[i]);
    }
  }
}
