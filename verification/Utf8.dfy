/** UTF-8 encoding as appended by gumbo-parser/src/string_buffer.c and the
    table-driven decoder of gumbo-parser/src/utf8.c (RFC 3629, section 3). */
module Utf8 {

  const ACCEPT: nat := 0
  const REJECT: nat := 12

  // c >> (6 * n)
  function Shift6(c: bv32, n: nat): (r: bv32)
    requires n <= 3
  {
    if n == 0 then c else if n == 1 then c >> 6 else if n == 2 then c >> 12 else c >> 18
  }

  // Number of continuation bytes.
  function Continuations(c: bv32): (n: nat)
    ensures n <= 3
  {
    if c <= 0x7f then 0 else if c <= 0x7ff then 1 else if c <= 0xffff then 2 else 3
  }

  function Prefix(n: nat): (p: bv32)
  {
    if n == 0 then 0 else if n == 1 then 0xc0 else if n == 2 then 0xe0 else 0xf0
  }

  function Lead(c: bv32): (b: bv8)
  {
    ((Prefix(Continuations(c)) | Shift6(c, Continuations(c))) & 0xff) as bv8
  }

  function Continuation(c: bv32, i: nat): (b: bv8)
    requires i <= 3
  {
    (0x80 | (0x3f & Shift6(c, i))) as bv8
  }

  function Tail(c: bv32, n: nat): (s: seq<bv8>)
    requires n <= 3
    ensures |s| == n
  {
    if n == 0 then [] else [Continuation(c, n - 1)] + Tail(c, n - 1)
  }

  // The bytes gumbo_string_buffer_append_codepoint appends.
  function Encode(c: bv32): (s: seq<bv8>)
    ensures 1 <= |s| <= 4
  {
    [Lead(c)] + Tail(c, Continuations(c))
  }

  function EncodeAll(cs: seq<bv32>): (s: seq<bv8>)
  {
    if cs == [] then [] else EncodeAll(cs[..|cs| - 1]) + Encode(cs[|cs| - 1])
  }

  predicate IsScalar(c: bv32)
  {
    c <= 0x10ffff && !(0xd800 <= c <= 0xdfff)
  }

  // First half of the decoder's table: the class of a byte.
  function Class(b: bv8): (k: nat)
    ensures k <= 11
  {
    if b <= 0x7f then 0
    else if b <= 0x8f then 1
    else if b <= 0x9f then 9
    else if b <= 0xbf then 7
    else if b <= 0xc1 then 8
    else if b <= 0xdf then 2
    else if b == 0xe0 then 10
    else if b == 0xed then 4
    else if b <= 0xef then 3
    else if b == 0xf0 then 11
    else if b <= 0xf3 then 6
    else if b == 0xf4 then 5
    else 8
  }

  // Second half: the next state.
  function NextState(state: nat, k: nat): (r: nat)
  {
    match state
    case 0 =>
      (match k
       case 0 => 0 case 2 => 24 case 3 => 36 case 4 => 60 case 5 => 96
       case 6 => 84 case 10 => 48 case 11 => 72 case _ => 12)
    case 24 => if k == 1 || k == 7 || k == 9 then 0 else 12
    case 36 => if k == 1 || k == 7 || k == 9 then 24 else 12
    case 48 => if k == 7 then 24 else 12
    case 60 => if k == 1 || k == 9 then 24 else 12
    case 72 => if k == 7 || k == 9 then 36 else 12
    case 84 => if k == 1 || k == 7 || k == 9 then 36 else 12
    case 96 => if k == 1 then 36 else 12
    case _ => 12
  }

  datatype Decoder = Decoder(state: nat, codep: bv32)

  // 0xff >> k
  function LeadMask(k: nat): (m: bv32)
  {
    match k
    case 0 => 0xff case 1 => 0x7f case 2 => 0x3f case 3 => 0x1f case 4 => 0xf case 5 => 7
    case 6 => 3 case 7 => 1 case _ => 0
  }

  function Step(d: Decoder, b: bv8): (r: Decoder)
  {
    var k := Class(b);
    var byte := b as bv32;
    Decoder(NextState(d.state, k),
      if d.state != ACCEPT then (byte & 0x3f) | (d.codep << 6) else LeadMask(k) & byte)
  }

  const REPLACEMENT: bv32 := 0xfffd
  const START := Decoder(ACCEPT, 0)

  // One read of the input: bytes consumed, code point, and whether it was valid.
  datatype Read = Read(width: nat, code: bv32, valid: bool)

  function ReadFrom(s: seq<bv8>, i: nat, d: Decoder): (r: Read)
    requires i <= |s| && s != []
    ensures 1 <= r.width <= |s|
    decreases |s| - i
  {
    if i == |s| then Read(|s|, REPLACEMENT, false)
    else
      var d' := Step(d, s[i]);
      if d'.state == ACCEPT then Read(i + 1, d'.codep, true)
      else if d'.state == REJECT then Read(if i == 0 then 1 else i, REPLACEMENT, false)
      else ReadFrom(s, i + 1, d')
  }

  // The decoding loop of read_char.
  method DecodeOne(s: seq<bv8>) returns (r: Read)
    requires s != []
    ensures r == ReadFrom(s, 0, START)
  {
    var d := START;
    var c := 0;
    while c < |s|
      invariant 0 <= c <= |s| && ReadFrom(s, c, d) == ReadFrom(s, 0, START)
    {
      d := Step(d, s[c]);
      if d.state == ACCEPT {
        return Read(c + 1, d.codep, true);
      } else if d.state == REJECT {
        return Read(if c == 0 then 1 else c, REPLACEMENT, false);
      }
      c := c + 1;
    }
    return Read(|s|, REPLACEMENT, false);
  }

  lemma OneByte(c: bv32)
    requires c <= 0x7f
    ensures Encode(c) == [c as bv8] && Class(c as bv8) == 0 && LeadMask(0) & (c as bv8 as bv32) == c
  {
    assert Shift6(c, 0) == c;
  }

  lemma TwoBytes(c: bv32)
    requires 0x7f < c <= 0x7ff
    ensures Encode(c) == [Lead(c), Continuation(c, 0)]
    ensures Class(Lead(c)) == 2
    ensures Class(Continuation(c, 0)) in {1, 7, 9}
  {
    assert Tail(c, 1) == [Continuation(c, 0)];
  }

  lemma ThreeBytes(c: bv32)
    requires 0x7ff < c <= 0xffff
    ensures Encode(c) == [Lead(c), Continuation(c, 1), Continuation(c, 0)]
    ensures Class(Lead(c)) == (if c <= 0xfff then 10 else if 0xd000 <= c <= 0xdfff then 4 else 3)
    ensures Class(Continuation(c, 1)) in {1, 7, 9} && Class(Continuation(c, 0)) in {1, 7, 9}
    ensures c <= 0xfff ==> Class(Continuation(c, 1)) == 7
    ensures 0xd000 <= c <= 0xdfff ==> (Class(Continuation(c, 1)) == 7 <==> 0xd800 <= c)
  {
    assert Tail(c, 1) == [Continuation(c, 0)];
    assert Tail(c, 2) == [Continuation(c, 1)] + Tail(c, 1);
  }

  lemma FourBytes(c: bv32)
    requires 0xffff < c <= 0x10ffff
    ensures Encode(c) == [Lead(c), Continuation(c, 2), Continuation(c, 1), Continuation(c, 0)]
    ensures Class(Lead(c)) == (if c <= 0x3ffff then 11 else if c <= 0xfffff then 6 else 5)
    ensures Class(Continuation(c, 2)) in {1, 7, 9} && Class(Continuation(c, 1)) in {1, 7, 9}
    ensures Class(Continuation(c, 0)) in {1, 7, 9}
    ensures c <= 0x3ffff ==> Class(Continuation(c, 2)) in {7, 9}
    ensures 0xfffff < c ==> Class(Continuation(c, 2)) == 1
  {
    assert Tail(c, 1) == [Continuation(c, 0)];
    assert Tail(c, 2) == [Continuation(c, 1)] + Tail(c, 1);
    assert Tail(c, 3) == [Continuation(c, 2)] + Tail(c, 2);
  }

  lemma Rejoin(x: bv32, b: bv8, e: bv32)
    requires b == (0x80 | (0x3f & x)) as bv8 && e == x >> 6
    ensures ((b as bv32) & 0x3f) | (e << 6) == x
  {
  }

  // A continuation byte puts back the six bits it carries.
  lemma ContinuationStep(x: bv32, b: bv8, d: Decoder)
    requires b == (0x80 | (0x3f & x)) as bv8 && d.state != ACCEPT && d.codep == x >> 6
    ensures Step(d, b) == Decoder(NextState(d.state, Class(b)), x)
  {
    hide Class, NextState, LeadMask;
    Rejoin(x, b, d.codep);
  }

  lemma ContinuationBytes(c: bv32)
    ensures Continuation(c, 0) == (0x80 | (0x3f & c)) as bv8
    ensures Continuation(c, 1) == (0x80 | (0x3f & (c >> 6))) as bv8
    ensures Continuation(c, 2) == (0x80 | (0x3f & (c >> 12))) as bv8
  {
  }

  lemma LeadStep(c: bv32)
    requires 0x7f < c <= 0x10ffff
    ensures Step(START, Lead(c)).codep == if c <= 0x7ff then c >> 6 else if c <= 0xffff then c >> 12 else c >> 18
    ensures Step(START, Lead(c)).state == NextState(0, Class(Lead(c)))
  {
    hide NextState;
    if c <= 0x7ff {
      assert Lead(c) as bv32 == 0xc0 | (c >> 6);
    } else if c <= 0xffff {
      assert Lead(c) as bv32 == 0xe0 | (c >> 12);
    } else {
      assert Lead(c) as bv32 == 0xf0 | (c >> 18);
    }
  }

  // One decoding step that neither accepts nor rejects.
  lemma Continues(s: seq<bv8>, i: nat, d: Decoder)
    requires i < |s| && Step(d, s[i]).state != ACCEPT && Step(d, s[i]).state != REJECT
    ensures ReadFrom(s, i, d) == ReadFrom(s, i + 1, Step(d, s[i]))
  {
  }

  lemma Accepts(s: seq<bv8>, i: nat, d: Decoder)
    requires i < |s| && Step(d, s[i]).state == ACCEPT
    ensures ReadFrom(s, i, d) == Read(i + 1, Step(d, s[i]).codep, true)
  {
  }

  lemma ReadsBack2(c: bv32, s: seq<bv8>)
    requires 0x7f < c <= 0x7ff && |s| >= 2 && s[..2] == Encode(c)
    ensures ReadFrom(s, 0, START) == Read(2, c, true)
  {
    TwoBytes(c);
    LeadStep(c);
    ContinuationStep(c, Continuation(c, 0), Step(START, Lead(c)));
    hide Class, Lead, Continuation, LeadMask, Step;
    assert s[0] == s[..2][0] && s[1] == s[..2][1];
    Continues(s, 0, START);
  }

  // Two and three continuation bytes in a row, whatever the class of the lead.
  lemma TwoContinuations(x1: bv32, x0: bv32, b1: bv8, b0: bv8, d1: Decoder)
    requires b1 == (0x80 | (0x3f & x1)) as bv8 && b0 == (0x80 | (0x3f & x0)) as bv8
    requires d1.codep == x1 >> 6 && x1 == x0 >> 6 && d1.state != ACCEPT
    requires NextState(d1.state, Class(b1)) == 24 && NextState(24, Class(b0)) == ACCEPT
    ensures Step(d1, b1) == Decoder(24, x1) && Step(Step(d1, b1), b0) == Decoder(ACCEPT, x0)
  {
    hide NextState, Class;
    ContinuationStep(x1, b1, d1);
    ContinuationStep(x0, b0, Decoder(24, x1));
  }

  lemma ThreeContinuations(x2: bv32, x1: bv32, x0: bv32, b2: bv8, b1: bv8, b0: bv8, d1: Decoder)
    requires b2 == (0x80 | (0x3f & x2)) as bv8 && b1 == (0x80 | (0x3f & x1)) as bv8 && b0 == (0x80 | (0x3f & x0)) as bv8
    requires d1.codep == x2 >> 6 && x2 == x1 >> 6 && x1 == x0 >> 6 && d1.state != ACCEPT
    requires NextState(d1.state, Class(b2)) == 36 && NextState(36, Class(b1)) == 24
    requires NextState(24, Class(b0)) == ACCEPT
    ensures Step(d1, b2) == Decoder(36, x2)
    ensures Step(Step(d1, b2), b1) == Decoder(24, x1)
    ensures Step(Step(Step(d1, b2), b1), b0) == Decoder(ACCEPT, x0)
  {
    hide NextState, Class;
    ContinuationStep(x2, b2, d1);
    TwoContinuations(x1, x0, b1, b0, Decoder(36, x2));
  }

  lemma States3(c: bv32)
    requires 0x7ff < c <= 0xffff && IsScalar(c)
    ensures var q := NextState(0, Class(Lead(c)));
            && q != ACCEPT && q != REJECT && NextState(q, Class(Continuation(c, 1))) == 24
            && NextState(24, Class(Continuation(c, 0))) == ACCEPT
  {
    ThreeBytes(c);
    hide Class, Lead, Continuation;
  }

  lemma Bits3(c: bv32)
    requires 0x7ff < c <= 0xffff
    ensures Step(START, Lead(c)).codep == (c >> 6) >> 6
    ensures Step(START, Lead(c)).state == NextState(0, Class(Lead(c)))
  {
    LeadStep(c);
    hide Class, Lead, Step, NextState;
  }

  lemma Steps3(c: bv32, d1: Decoder, d2: Decoder)
    requires 0x7ff < c <= 0xffff && IsScalar(c)
    requires d1 == Step(START, Lead(c)) && d2 == Step(d1, Continuation(c, 1))
    ensures d1.state != ACCEPT && d1.state != REJECT && d2.state == 24
    ensures Step(d2, Continuation(c, 0)) == Decoder(ACCEPT, c)
  {
    States3(c);
    Bits3(c);
    ContinuationBytes(c);
    hide *;
    TwoContinuations(c >> 6, c, Continuation(c, 1), Continuation(c, 0), d1);
  }

  lemma ReadsBack3(c: bv32, s: seq<bv8>)
    requires 0x7ff < c <= 0xffff && IsScalar(c) && |s| >= 3
    requires s[0] == Lead(c) && s[1] == Continuation(c, 1) && s[2] == Continuation(c, 0)
    ensures ReadFrom(s, 0, START) == Read(3, c, true)
  {
    var d1 := Step(START, Lead(c));
    var d2 := Step(d1, Continuation(c, 1));
    Steps3(c, d1, d2);
    hide *;
    Continues(s, 0, START);
    Continues(s, 1, d1);
    Accepts(s, 2, d2);
  }

  lemma SurrogateRejected(c: bv32, s: seq<bv8>)
    requires 0xd800 <= c <= 0xdfff && |s| >= 3 && s[..3] == Encode(c)
    ensures ReadFrom(s, 0, START) == Read(1, REPLACEMENT, false)
  {
    ThreeBytes(c);
    LeadStep(c);
    var d1 := Step(START, Lead(c));
    ContinuationStep(c >> 6, Continuation(c, 1), d1);
    hide Class, Lead, Continuation, LeadMask, Step, Encode;
    assert s[0] == s[..3][0] && s[1] == s[..3][1];
    Continues(s, 0, START);
  }

  lemma States4(c: bv32)
    requires 0xffff < c <= 0x10ffff
    ensures var q := NextState(0, Class(Lead(c)));
            && q != ACCEPT && q != REJECT && NextState(q, Class(Continuation(c, 2))) == 36
            && NextState(36, Class(Continuation(c, 1))) == 24 && NextState(24, Class(Continuation(c, 0))) == ACCEPT
  {
    FourBytes(c);
    hide Class, Lead, Continuation;
  }

  lemma Bits4(c: bv32)
    requires 0xffff < c <= 0x10ffff
    ensures Step(START, Lead(c)).codep == (c >> 12) >> 6 && c >> 12 == (c >> 6) >> 6
    ensures Step(START, Lead(c)).state == NextState(0, Class(Lead(c)))
  {
    LeadStep(c);
    hide Class, Lead, Step, NextState;
  }

  lemma Steps4(c: bv32, d1: Decoder, d2: Decoder, d3: Decoder)
    requires 0xffff < c <= 0x10ffff
    requires d1 == Step(START, Lead(c)) && d2 == Step(d1, Continuation(c, 2)) && d3 == Step(d2, Continuation(c, 1))
    ensures d1.state != ACCEPT && d1.state != REJECT && d2.state == 36 && d3.state == 24
    ensures Step(d3, Continuation(c, 0)) == Decoder(ACCEPT, c)
  {
    States4(c);
    Bits4(c);
    ContinuationBytes(c);
    hide *;
    ThreeContinuations(c >> 12, c >> 6, c, Continuation(c, 2), Continuation(c, 1), Continuation(c, 0), d1);
  }

  lemma ReadsBack4(c: bv32, s: seq<bv8>)
    requires 0xffff < c <= 0x10ffff && |s| >= 4
    requires s[0] == Lead(c) && s[1] == Continuation(c, 2) && s[2] == Continuation(c, 1) && s[3] == Continuation(c, 0)
    ensures ReadFrom(s, 0, START) == Read(4, c, true)
  {
    var d1 := Step(START, Lead(c));
    var d2 := Step(d1, Continuation(c, 2));
    var d3 := Step(d2, Continuation(c, 1));
    Steps4(c, d1, d2, d3);
    hide *;
    Continues(s, 0, START);
    Continues(s, 1, d1);
    Continues(s, 2, d2);
    Accepts(s, 3, d3);
  }

  // The decoder reads back exactly what was encoded, whatever follows it; a
  // surrogate is the one kind of code point it rejects.
  lemma ReadsBack(c: bv32, rest: seq<bv8>)
    requires c <= 0x10ffff
    ensures var r := ReadFrom(Encode(c) + rest, 0, START);
            if IsScalar(c) then r == Read(|Encode(c)|, c, true) else r.code == REPLACEMENT && !r.valid
  {
    var s := Encode(c) + rest;
    if c <= 0x7f {
      OneByte(c);
    } else if c <= 0x7ff {
      TwoBytes(c);
      assert s[..2] == Encode(c);
      ReadsBack2(c, s);
    } else if c <= 0xffff {
      ThreeBytes(c);
      assert s[..3] == Encode(c);
      if IsScalar(c) { ReadsBack3(c, s); } else { SurrogateRejected(c, s); }
    } else {
      FourBytes(c);
      assert s[..4] == Encode(c);
      ReadsBack4(c, s);
    }
  }

  predicate IsContinuation(b: bv8)
  {
    0x80 <= b <= 0xbf
  }

  lemma Bytes2(b0: bv8, b1: bv8, c: bv32)
    requires 0xc2 <= b0 <= 0xdf && IsContinuation(b1)
    requires c == ((b1 as bv32) & 0x3f) | (((b0 as bv32) & 0x3f) << 6)
    ensures 0x7f < c <= 0x7ff && Lead(c) == b0 && Continuation(c, 0) == b1
  {
  }

  lemma Bytes3(b0: bv8, b1: bv8, b2: bv8)
    requires 0xe0 <= b0 <= 0xef && IsContinuation(b1) && IsContinuation(b2)
    requires b0 == 0xe0 ==> 0xa0 <= b1
    requires b0 == 0xed ==> b1 <= 0x9f
    ensures var c := Join(Join((b0 as bv32) & 0xf, b1), b2);
            && 0x7ff < c <= 0xffff && IsScalar(c)
            && Lead(c) == b0 && Continuation(c, 1) == b1 && Continuation(c, 0) == b2
  {
  }

  lemma Bytes4(b0: bv8, b1: bv8, b2: bv8, b3: bv8)
    requires 0xf0 <= b0 <= 0xf4 && IsContinuation(b1) && IsContinuation(b2) && IsContinuation(b3)
    requires b0 == 0xf0 ==> 0x90 <= b1
    requires b0 == 0xf4 ==> b1 <= 0x8f
    ensures var c := Join(Join(Join((b0 as bv32) & 7, b1), b2), b3);
            && 0xffff < c <= 0x10ffff && IsScalar(c)
            && Lead(c) == b0 && Continuation(c, 2) == b1 && Continuation(c, 1) == b2 && Continuation(c, 0) == b3
  {
  }

  lemma Masks(b: bv8)
    ensures b <= 0x7f ==> Step(START, b) == Decoder(ACCEPT, b as bv32)
    ensures 0xc2 <= b <= 0xdf ==> Step(START, b) == Decoder(24, (b as bv32) & 0x3f)
    ensures 0xe0 <= b <= 0xef ==>
              Step(START, b) == Decoder(if b == 0xe0 then 48 else if b == 0xed then 60 else 36, (b as bv32) & 0xf)
    ensures 0xf0 <= b <= 0xf4 ==>
              Step(START, b) == Decoder(if b == 0xf0 then 72 else if b == 0xf4 then 96 else 84, (b as bv32) & 7)
    ensures Step(START, b).state == REJECT
            || b <= 0x7f || 0xc2 <= b <= 0xdf || 0xe0 <= b <= 0xef || 0xf0 <= b <= 0xf4
  {
  }

  // After a lead byte the decoder goes on only through continuation bytes.
  lemma MiddleState(q: nat, b: bv8)
    requires q in {24, 36, 48, 60, 72, 84, 96} && NextState(q, Class(b)) != REJECT
    ensures IsContinuation(b)
    ensures q == 48 ==> 0xa0 <= b
    ensures q == 60 ==> b <= 0x9f
    ensures q == 72 ==> 0x90 <= b
    ensures q == 96 ==> b <= 0x8f
    ensures NextState(q, Class(b)) == if q == 24 then 0 else if q in {36, 48, 60} then 24 else 36
  {
  }

  function Join(e: bv32, b: bv8): (r: bv32)
  {
    ((b as bv32) & 0x3f) | (e << 6)
  }

  lemma Middle(d: Decoder, b: bv8)
    requires d.state in {24, 36, 48, 60, 72, 84, 96} && Step(d, b).state != REJECT
    ensures Step(d, b) ==
            Decoder(if d.state == 24 then 0 else if d.state in {36, 48, 60} then 24 else 36, Join(d.codep, b))
  {
    hide Class, NextState, LeadMask, IsContinuation;
    MiddleState(d.state, b);
  }

  lemma Path2(s: seq<bv8>, q: nat, e: bv32)
    requires s != [] && Step(START, s[0]) == Decoder(q, e) && q == 24 && ReadFrom(s, 0, START).valid
    ensures |s| >= 2 && NextState(24, Class(s[1])) != REJECT
    ensures ReadFrom(s, 0, START) == Read(2, Join(e, s[1]), true)
  {
    hide Class, LeadMask, NextState, Join;
    Continues(s, 0, START);
    Middle(Decoder(q, e), s[1]);
  }

  lemma Path3(s: seq<bv8>, q: nat, e: bv32)
    requires s != [] && Step(START, s[0]) == Decoder(q, e) && q in {36, 48, 60} && ReadFrom(s, 0, START).valid
    ensures |s| >= 3 && NextState(q, Class(s[1])) != REJECT && NextState(24, Class(s[2])) != REJECT
    ensures ReadFrom(s, 0, START) == Read(3, Join(Join(e, s[1]), s[2]), true)
  {
    hide Class, LeadMask, NextState, Join;
    Continues(s, 0, START);
    var d1 := Decoder(q, e);
    Middle(d1, s[1]);
    Continues(s, 1, d1);
    Middle(Step(d1, s[1]), s[2]);
  }

  lemma Path4(s: seq<bv8>, q: nat, e: bv32)
    requires s != [] && Step(START, s[0]) == Decoder(q, e) && q in {72, 84, 96} && ReadFrom(s, 0, START).valid
    ensures |s| >= 4 && NextState(q, Class(s[1])) != REJECT
    ensures NextState(36, Class(s[2])) != REJECT && NextState(24, Class(s[3])) != REJECT
    ensures ReadFrom(s, 0, START) == Read(4, Join(Join(Join(e, s[1]), s[2]), s[3]), true)
  {
    hide Class, LeadMask, NextState, Join;
    Continues(s, 0, START);
    var d1 := Decoder(q, e);
    Middle(d1, s[1]);
    Continues(s, 1, d1);
    var d2 := Step(d1, s[1]);
    Middle(d2, s[2]);
    Continues(s, 2, d2);
    Middle(Step(d2, s[2]), s[3]);
  }

  lemma Encoding2(b0: bv8, b1: bv8)
    requires 0xc2 <= b0 <= 0xdf && NextState(24, Class(b1)) != REJECT
    ensures var c := Join((b0 as bv32) & 0x3f, b1); IsScalar(c) && Encode(c) == [b0, b1]
  {
    Masks(b0);
    MiddleState(24, b1);
    var c := Join((b0 as bv32) & 0x3f, b1);
    assert 0x7f < c <= 0x7ff && Lead(c) == b0 && Continuation(c, 0) == b1 by { Bytes2(b0, b1, c); }
    hide Class, NextState, Lead, Continuation, Join, Step;
    TwoBytes(c);
  }

  lemma Encoding3(b0: bv8, b1: bv8, b2: bv8, q: nat)
    requires 0xe0 <= b0 <= 0xef && q == (if b0 == 0xe0 then 48 else if b0 == 0xed then 60 else 36)
    requires NextState(q, Class(b1)) != REJECT && NextState(24, Class(b2)) != REJECT
    ensures var c := Join(Join((b0 as bv32) & 0xf, b1), b2); IsScalar(c) && Encode(c) == [b0, b1, b2]
  {
    MiddleState(q, b1);
    MiddleState(24, b2);
    var c := Join(Join((b0 as bv32) & 0xf, b1), b2);
    hide *;
    Bytes3(b0, b1, b2);
    ThreeBytes(c);
  }

  lemma Encoding4(b0: bv8, b1: bv8, b2: bv8, b3: bv8, q: nat)
    requires 0xf0 <= b0 <= 0xf4 && q == (if b0 == 0xf0 then 72 else if b0 == 0xf4 then 96 else 84)
    requires NextState(q, Class(b1)) != REJECT && NextState(36, Class(b2)) != REJECT
    requires NextState(24, Class(b3)) != REJECT
    ensures var c := Join(Join(Join((b0 as bv32) & 7, b1), b2), b3); IsScalar(c) && Encode(c) == [b0, b1, b2, b3]
  {
    MiddleState(q, b1);
    MiddleState(36, b2);
    MiddleState(24, b3);
    var c := Join(Join(Join((b0 as bv32) & 7, b1), b2), b3);
    hide *;
    Bytes4(b0, b1, b2, b3);
    FourBytes(c);
  }

  // Conversely the decoder accepts nothing but the encoding of a scalar value,
  // so overlong forms and surrogates are rejected.
  lemma AcceptsOnlyEncodings(s: seq<bv8>)
    requires s != []
    ensures var r := ReadFrom(s, 0, START);
            r.valid ==> IsScalar(r.code) && Encode(r.code) == s[..r.width]
  {
    if ReadFrom(s, 0, START).valid {
      Masks(s[0]);
      if s[0] <= 0x7f {
        OneByte(s[0] as bv32);
        assert s[..1] == [s[0]];
      } else if 0xc2 <= s[0] <= 0xdf {
        Accepts2(s);
      } else if 0xe0 <= s[0] <= 0xef {
        Accepts3(s);
      } else {
        Accepts4(s);
      }
    }
  }

  lemma Accepts2(s: seq<bv8>)
    requires s != [] && 0xc2 <= s[0] <= 0xdf && ReadFrom(s, 0, START).valid
    ensures var r := ReadFrom(s, 0, START); IsScalar(r.code) && Encode(r.code) == s[..r.width]
  {
    Masks(s[0]);
    hide *;
    Path2(s, 24, (s[0] as bv32) & 0x3f);
    Encoding2(s[0], s[1]);
    assert s[..2] == [s[0], s[1]];
  }

  lemma Accepts3(s: seq<bv8>)
    requires s != [] && 0xe0 <= s[0] <= 0xef && ReadFrom(s, 0, START).valid
    ensures var r := ReadFrom(s, 0, START); IsScalar(r.code) && Encode(r.code) == s[..r.width]
  {
    Masks(s[0]);
    hide *;
    var q := if s[0] == 0xe0 then 48 else if s[0] == 0xed then 60 else 36;
    Path3(s, q, (s[0] as bv32) & 0xf);
    Encoding3(s[0], s[1], s[2], q);
    assert s[..3] == [s[0], s[1], s[2]];
  }

  lemma Accepts4(s: seq<bv8>)
    requires s != [] && 0xf0 <= s[0] <= 0xf4 && ReadFrom(s, 0, START).valid
    ensures var r := ReadFrom(s, 0, START); IsScalar(r.code) && Encode(r.code) == s[..r.width]
  {
    Masks(s[0]);
    hide *;
    var q := if s[0] == 0xf0 then 72 else if s[0] == 0xf4 then 96 else 84;
    Path4(s, q, (s[0] as bv32) & 7);
    Encoding4(s[0], s[1], s[2], s[3], q);
    assert s[..4] == [s[0], s[1], s[2], s[3]];
  }

  const CR: bv32 := 0x0d
  const LF: bv32 := 0x0a

  // read_char: a carriage return, with a line feed that may follow it, reads as
  // one line feed.
  function ReadChar(s: seq<bv8>): (r: Read)
    requires s != []
    ensures 1 <= r.width <= |s|
  {
    var r := ReadFrom(s, 0, START);
    if r.valid && r.code == CR then Read(if |s| > r.width && s[r.width] == 0x0a then r.width + 1 else r.width, LF, true)
    else r
  }

  // The code points the tokenizer sees.
  function ReadAll(s: seq<bv8>): (cs: seq<bv32>)
    decreases |s|
  {
    if s == [] then [] else
      var r := ReadChar(s);
      [r.code] + ReadAll(s[r.width..])
  }

  // Newline normalisation of the HTML input stream.
  function Normalised(cs: seq<bv32>): (r: seq<bv32>)
  {
    if cs == [] then []
    else if cs[0] != CR then [cs[0]] + Normalised(cs[1..])
    else [LF] + Normalised(if |cs| > 1 && cs[1] == LF then cs[2..] else cs[1..])
  }

  lemma {:induction false} EncodeCons(c: bv32, cs: seq<bv32>)
    ensures EncodeAll([c] + cs) == Encode(c) + EncodeAll(cs)
  {
    hide Encode;
    var all := [c] + cs;
    if cs == [] {
      assert all[..0] == [] && all[0] == c;
    } else {
      var n := |cs| - 1;
      assert all[..|all| - 1] == [c] + cs[..n] && all[|all| - 1] == cs[n];
      EncodeCons(c, cs[..n]);
      var x, y, z := Encode(c), EncodeAll(cs[..n]), Encode(cs[n]);
      assert (x + y) + z == x + (y + z);
    }
  }

  lemma FirstByte(c: bv32)
    requires c <= 0x10ffff
    ensures Encode(c)[0] == 0x0a <==> c == LF
    ensures c <= 0x7f ==> Encode(c) == [c as bv8]
  {
    if c <= 0x7f {
      OneByte(c);
    } else if c <= 0x7ff {
      assert Lead(c) as bv32 == 0xc0 | (c >> 6);
    } else if c <= 0xffff {
      assert Lead(c) as bv32 == 0xe0 | (c >> 12);
    } else {
      assert Lead(c) as bv32 == 0xf0 | (c >> 18);
    }
  }

  lemma ReadFirst(c: bv32, rest: seq<bv8>)
    requires IsScalar(c)
    ensures var r := ReadChar(Encode(c) + rest);
            if c != CR then r == Read(|Encode(c)|, c, true)
            else r == Read(if rest != [] && rest[0] == 0x0a then 2 else 1, LF, true)
  {
    ReadsBack(c, rest);
    FirstByte(c);
    hide Encode, ReadFrom;
  }

  // Every sequence of Unicode scalar values survives encoding and reading back,
  // up to newline normalisation.
  lemma {:induction false} RoundTrip(cs: seq<bv32>)
    requires forall i :: 0 <= i < |cs| ==> IsScalar(cs[i])
    ensures ReadAll(EncodeAll(cs)) == Normalised(cs)
    decreases |cs|
  {
    hide Encode, IsScalar, ReadChar;
    if cs != [] {
      var c, rest := cs[0], cs[1..];
      assert cs == [c] + rest;
      EncodeCons(c, rest);
      var tail := EncodeAll(rest);
      ReadFirst(c, tail);
      RoundTrip(rest);
      assert (Encode(c) + tail)[|Encode(c)|..] == tail;
      if c == CR {
        FirstByte(c);
        if rest != [] {
          var d, after := rest[0], rest[1..];
          assert rest == [d] + after;
          EncodeCons(d, after);
          ScalarBound(d);
          FirstByte(d);
          if d == LF {
            RoundTrip(after);
            assert (Encode(c) + tail)[2..] == EncodeAll(after);
          }
        }
      }
    }
  }

  lemma ScalarBound(c: bv32)
    requires IsScalar(c)
    ensures c <= 0x10ffff
  {
  }

  // Without carriage returns reading back is the identity.
  lemma {:induction false} NormalisedWithoutCR(cs: seq<bv32>)
    requires CR !in cs
    ensures Normalised(cs) == cs
  {
    if cs != [] {
      NormalisedWithoutCR(cs[1..]);
    }
  }

  // The decoder alone, without the rule for newlines.
  function DecodeAll(s: seq<bv8>): (cs: seq<bv32>)
    decreases |s|
  {
    if s == [] then [] else
      var r := ReadFrom(s, 0, START);
      [r.code] + DecodeAll(s[r.width..])
  }

  // Every sequence of scalar values comes back exactly, carriage returns included.
  lemma {:induction false} ExactRoundTrip(cs: seq<bv32>)
    requires forall i :: 0 <= i < |cs| ==> IsScalar(cs[i])
    ensures DecodeAll(EncodeAll(cs)) == cs
  {
    hide Encode, IsScalar, ReadFrom;
    if cs != [] {
      var c, rest := cs[0], cs[1..];
      assert cs == [c] + rest;
      EncodeCons(c, rest);
      ScalarBound(c);
      ReadsBack(c, EncodeAll(rest));
      ExactRoundTrip(rest);
      assert (Encode(c) + EncodeAll(rest))[|Encode(c)|..] == EncodeAll(rest);
    }
  }

  const BOM: bv32 := 0xfeff

  // utf8iterator_init drops one byte order mark at the start.
  function ReadInput(s: seq<bv8>): (cs: seq<bv32>)
  {
    if s != [] && ReadChar(s).code == BOM then ReadAll(s[ReadChar(s).width..]) else ReadAll(s)
  }

  lemma InputRoundTrip(cs: seq<bv32>)
    requires forall i :: 0 <= i < |cs| ==> IsScalar(cs[i])
    ensures ReadInput(EncodeAll(cs)) == Normalised(if cs != [] && cs[0] == BOM then cs[1..] else cs)
  {
    hide *;
    RoundTrip(cs);
    if cs == [] {
      NothingToRead();
    } else {
      FirstOfInput(cs[0], cs[1..]);
      RoundTrip(cs[1..]);
      assert cs == [cs[0]] + cs[1..];
      FromInput(EncodeAll(cs));
    }
  }

  lemma NothingToRead()
    ensures ReadInput(EncodeAll([])) == ReadAll(EncodeAll([]))
  {
  }

  lemma FromInput(s: seq<bv8>)
    requires s != []
    ensures ReadInput(s) == ReadAll(if ReadChar(s).code == BOM then s[ReadChar(s).width..] else s)
  {
  }

  lemma FirstOfInput(c: bv32, rest: seq<bv32>)
    requires IsScalar(c)
    ensures var s := EncodeAll([c] + rest);
            s != [] && (ReadChar(s).code == BOM <==> c == BOM)
            && (c == BOM ==> s[ReadChar(s).width..] == EncodeAll(rest))
  {
    hide Encode, IsScalar, ReadChar, EncodeAll;
    EncodeCons(c, rest);
    ReadFirst(c, EncodeAll(rest));
    assert (Encode(c) + EncodeAll(rest))[|Encode(c)|..] == EncodeAll(rest);
  }
}
