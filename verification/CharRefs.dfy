/** Character references in text and in attribute values: the states of
    gumbo-parser/src/tokenizer.c against a decoder with lookahead. */
module CharRefs {

  const EOF: int := -1
  const NO_CHAR: int := -1
  const REPLACEMENT: int := 0xFFFD
  const MAX_CHAR: int := 0x10FFFF

  predicate IsDigit(c: int)
  {
    48 <= c <= 57
  }

  predicate IsUpperHex(c: int)
  {
    65 <= c <= 70
  }

  predicate IsLowerHex(c: int)
  {
    97 <= c <= 102
  }

  predicate IsHexDigit(c: int)
  {
    IsDigit(c) || IsUpperHex(c) || IsLowerHex(c)
  }

  predicate IsAlnum(c: int)
  {
    IsDigit(c) || 65 <= c <= 90 || 97 <= c <= 122
  }

  predicate IsBaseDigit(c: int, hex: bool)
  {
    if hex then IsHexDigit(c) else IsDigit(c)
  }

  function DigitValue(c: int): (v: nat)
    requires IsHexDigit(c)
    ensures v < 16 && (IsDigit(c) ==> v < 10)
  {
    if IsDigit(c) then c - 0x30 else if IsUpperHex(c) then c - 0x37 else c - 0x57
  }

  // The number that the digits denote, without any limit.
  function Value(digits: seq<int>, hex: bool): (v: nat)
    requires forall i :: 0 <= i < |digits| ==> IsBaseDigit(digits[i], hex)
  {
    if digits == [] then 0
    else
      var n := |digits| - 1;
      assert IsBaseDigit(digits[n], hex);
      Value(digits[..n], hex) * (if hex then 16 else 10) + DigitValue(digits[n])
  }

  function Capped(v: nat): (r: nat)
  {
    if v > MAX_CHAR then MAX_CHAR + 1 else v
  }

  // One step of the accumulator, which stays within 32 bits.
  function Accumulate(code: nat, c: int, hex: bool): (r: nat)
    requires code <= MAX_CHAR + 1 && IsBaseDigit(c, hex)
    ensures r <= MAX_CHAR + 1
  {
    var next := code * (if hex then 16 else 10) + DigitValue(c);
    assert next < 0x8000_0000;
    if next > MAX_CHAR then MAX_CHAR + 1 else next
  }

  // For digit strings of any length the accumulator is the number, cut off
  // just above the largest code point.
  lemma AccumulatorIsValue(digits: seq<int>, c: int, hex: bool)
    requires (forall i :: 0 <= i < |digits| ==> IsBaseDigit(digits[i], hex)) && IsBaseDigit(c, hex)
    ensures Accumulate(Capped(Value(digits, hex)), c, hex) == Capped(Value(digits + [c], hex))
  {
    assert (digits + [c])[..|digits|] == digits;
  }

  predicate IsSurrogate(c: int)
  {
    0xD800 <= c <= 0xDFFF
  }

  predicate IsScalar(c: int)
  {
    0 <= c <= MAX_CHAR && !IsSurrogate(c)
  }

  predicate IsNoncharacter(c: int)
  {
    0xFDD0 <= c <= 0xFDEF || (0xFFFE <= c && c % 0x10000 >= 0xFFFE)
  }

  // utf8_is_control: the bound below 0x1F is strict.
  predicate IsControl(c: int)
  {
    c < 0x1F || 0x7F <= c <= 0x9F
  }

  predicate IsSpace(c: int)
  {
    c == 9 || c == 10 || c == 12 || c == 13 || c == 32
  }

  // The replacements for C1 controls.
  function FromWindows1252(c: int): (r: int)
  {
    match c
    case 0x80 => 0x20AC
    case 0x82 => 0x201A
    case 0x83 => 0x0192
    case 0x84 => 0x201E
    case 0x85 => 0x2026
    case 0x86 => 0x2020
    case 0x87 => 0x2021
    case 0x88 => 0x02C6
    case 0x89 => 0x2030
    case 0x8A => 0x0160
    case 0x8B => 0x2039
    case 0x8C => 0x0152
    case 0x8E => 0x017D
    case 0x91 => 0x2018
    case 0x92 => 0x2019
    case 0x93 => 0x201C
    case 0x94 => 0x201D
    case 0x95 => 0x2022
    case 0x96 => 0x2013
    case 0x97 => 0x2014
    case 0x98 => 0x02DC
    case 0x99 => 0x2122
    case 0x9A => 0x0161
    case 0x9B => 0x203A
    case 0x9C => 0x0153
    case 0x9E => 0x017E
    case 0x9F => 0x0178
    case _ => c
  }

  // The numeric character reference end state.
  function Final(code: nat): (c: int)
    ensures IsScalar(c) && c != 0
  {
    if code == 0 || code > MAX_CHAR || IsSurrogate(code) then REPLACEMENT
    else if IsNoncharacter(code) then code
    else if code == 0x0D || (IsControl(code) && !IsSpace(code)) then FromWindows1252(code)
    else code
  }

  // match_named_char_ref: length of the match or 0, and one or two code points.
  datatype Match = Match(size: nat, first: int, second: int)

  predicate IsMatcher(s: seq<int>, named: seq<int> -> Match)
  {
    forall k :: 0 <= k <= |s| ==>
      var m := named(s[k..]);
      m.size <= |s| - k && (m.size > 0 ==> m.first >= 0 && (m.second == NO_CHAR || m.second >= 0))
  }

  // The states from which a character reference is entered.
  datatype Place = InData | InRcdata | InDoubleQuoted | InSingleQuoted

  predicate InAttribute(p: Place)
  {
    p == InDoubleQuoted || p == InSingleQuoted
  }

  // What ends the text, as far as it is modelled.
  predicate Stops(p: Place, c: int)
  {
    match p
    case InData | InRcdata => c == '<' as int
    case InDoubleQuoted => c == '"' as int
    case InSingleQuoted => c == '\'' as int
  }

  function Plain(p: Place, c: int): (r: int)
  {
    if c == 0 && p != InData then REPLACEMENT else c
  }

  function DigitsEnd(s: seq<int>, k: nat, hex: bool): (e: nat)
    requires k <= |s|
    ensures k <= e <= |s| && (forall i :: k <= i < e ==> IsBaseDigit(s[i], hex))
    ensures (e < |s| ==> !IsBaseDigit(s[e], hex))
    decreases |s| - k
  {
    if k < |s| && IsBaseDigit(s[k], hex) then DigitsEnd(s, k + 1, hex) else k
  }

  lemma {:induction false} DigitsEndIs(s: seq<int>, k: nat, e: nat, hex: bool)
    requires k <= e <= |s| && (forall i :: k <= i < e ==> IsBaseDigit(s[i], hex))
    requires (e < |s| ==> !IsBaseDigit(s[e], hex))
    ensures DigitsEnd(s, k, hex) == e
    decreases |s| - k
  {
    if k < e {
      DigitsEndIs(s, k + 1, e, hex);
    }
  }

  datatype Decoded = Decoded(text: seq<int>, end: nat)

  function Cons(text: seq<int>, d: Decoded): (r: Decoded)
  {
    Decoded(text + d.text, d.end)
  }

  // The text from k on with its character references resolved, and where it
  // ends.
  function Decode(s: seq<int>, named: seq<int> -> Match, p: Place, k: nat): (d: Decoded)
    requires IsMatcher(s, named) && k <= |s|
    ensures k <= d.end <= |s|
    decreases |s| - k, 1
  {
    if k == |s| || Stops(p, s[k]) then Decoded([], k)
    else if s[k] == '&' as int then DecodeRef(s, named, p, k)
    else Cons([Plain(p, s[k])], Decode(s, named, p, k + 1))
  }

  function DecodeRef(s: seq<int>, named: seq<int> -> Match, p: Place, k: nat): (d: Decoded)
    requires IsMatcher(s, named) && k < |s|
    ensures k <= d.end <= |s|
    decreases |s| - k, 0
  {
    if k + 1 < |s| && IsAlnum(s[k + 1]) then
      var m := named(s[k + 1..]);
      var e := k + 1 + m.size;
      if m.size == 0 then Cons(['&' as int], Decode(s, named, p, k + 1))
      else if InAttribute(p) && s[e - 1] != ';' as int && e < |s| && (s[e] == '=' as int || IsAlnum(s[e])) then
        Cons(s[k..e], Decode(s, named, p, e))
      else Cons([m.first] + (if m.second == NO_CHAR then [] else [m.second]), Decode(s, named, p, e))
    else if k + 1 < |s| && s[k + 1] == '#' as int then
      var hex := k + 2 < |s| && (s[k + 2] == 'x' as int || s[k + 2] == 'X' as int);
      var digits := if hex then k + 3 else k + 2;
      var e := DigitsEnd(s, digits, hex);
      if e == digits then Cons(s[k..digits], Decode(s, named, p, digits))
      else
        var next := if e < |s| && s[e] == ';' as int then e + 1 else e;
        Cons([Final(Capped(Value(s[digits..e], hex)))], Decode(s, named, p, next))
    else Cons(['&' as int], Decode(s, named, p, k + 1))
  }

  datatype LexState =
    | Base              // the state that a reference returns to
    | CharacterReference | NamedReference | AmbiguousAmpersand
    | NumericReference | HexStart | DecimalStart | Hex | Decimal | NumericEnd
    | Stopped           // a tag, or the end of the attribute value

  // States that hand on the current character without consuming it hand it to
  // states of lower rank.
  function Rank(st: LexState): (r: nat)
  {
    match st
    case Stopped => 0
    case Base => 1
    case AmbiguousAmpersand => 2
    case NumericEnd => 2
    case Hex | Decimal => 3
    case HexStart | DecimalStart | NamedReference => 4
    case NumericReference | CharacterReference => 5
  }

  // A reference starts at the mark, and `out` has been produced before it.
  ghost predicate Marked(s: seq<int>, named: seq<int> -> Match, p: Place, goal: Decoded, pos: nat, mark: nat,
      out: seq<int>)
    requires IsMatcher(s, named) && pos <= |s|
  {
    mark < pos && s[mark] == '&' as int && goal == Cons(out, DecodeRef(s, named, p, mark))
  }

  // The mark is followed by a number sign and, when hex is set, by an x.
  ghost predicate Numeric(s: seq<int>, mark: nat, hex: bool)
  {
    && mark + 1 < |s| && s[mark + 1] == '#' as int
    && (hex <==> mark + 2 < |s| && IsX(s[mark + 2]))
  }

  // With `out` produced and the lexer in state st at pos, the goal will be met.
  ghost predicate OnCourse(s: seq<int>, named: seq<int> -> Match, p: Place, goal: Decoded, st: LexState, pos: nat,
      mark: nat, code: int, out: seq<int>)
    requires IsMatcher(s, named) && pos <= |s|
  {
    match st
    case Stopped => goal == Decoded(out, pos)
    case Base => goal == Cons(out, Decode(s, named, p, pos))
    case AmbiguousAmpersand => goal == Cons(out, Decode(s, named, p, pos))
    case NumericEnd => 0 <= code <= MAX_CHAR + 1 && goal == Cons(out + [Final(code)], Decode(s, named, p, pos))
    case CharacterReference => Marked(s, named, p, goal, pos, mark, out) && pos == mark + 1
    case NamedReference => Marked(s, named, p, goal, pos, mark, out) && pos == mark + 1 && pos < |s| && IsAlnum(s[pos])
    case NumericReference => Marked(s, named, p, goal, pos, mark, out) && pos == mark + 2 && s[mark + 1] == '#' as int
    case HexStart => Marked(s, named, p, goal, pos, mark, out) && pos == mark + 3 && Numeric(s, mark, true) && code == 0
    case DecimalStart =>
      && Marked(s, named, p, goal, pos, mark, out) && pos == mark + 2 && Numeric(s, mark, false)
      && code == 0
    case Hex =>
      && Marked(s, named, p, goal, pos, mark, out) && Numeric(s, mark, true)
      && InDigits(s, mark + 3, pos, code, true)
    case Decimal =>
      && Marked(s, named, p, goal, pos, mark, out) && Numeric(s, mark, false)
      && InDigits(s, mark + 2, pos, code, false)
  }

  predicate IsX(c: int)
  {
    c == 'x' as int || c == 'X' as int
  }

  // The digits from k up to pos have been accumulated; there is at least one.
  ghost predicate InDigits(s: seq<int>, k: nat, pos: nat, code: int, hex: bool)
  {
    && k <= pos <= |s| && k < |s| && IsBaseDigit(s[k], hex)
    && (forall i :: k <= i < pos ==> IsBaseDigit(s[i], hex))
    && code == Capped(Value(s[k..pos], hex))
  }

  // One character of plain text.
  lemma PlainStep(s: seq<int>, named: seq<int> -> Match, p: Place, goal: Decoded, st: LexState, pos: nat,
      mark: nat, code: int, out: seq<int>)
    requires IsMatcher(s, named) && pos <= |s| && OnCourse(s, named, p, goal, st, pos, mark, code, out)
    requires (st == Base || st == AmbiguousAmpersand) && pos < |s| && s[pos] != '&' as int && !Stops(p, s[pos])
    ensures OnCourse(s, named, p, goal, st, pos + 1, mark, code, out + [Plain(p, s[pos])])
  {
    var d := Decode(s, named, p, pos + 1);
    assert out + ([Plain(p, s[pos])] + d.text) == out + [Plain(p, s[pos])] + d.text;
  }

  lemma Arrived(s: seq<int>, named: seq<int> -> Match, p: Place, goal: Decoded, pos: nat, mark: nat,
      code: int, out: seq<int>)
    requires IsMatcher(s, named) && pos <= |s| && OnCourse(s, named, p, goal, Base, pos, mark, code, out)
    requires pos == |s| || Stops(p, s[pos])
    ensures goal == Decoded(out, pos) && OnCourse(s, named, p, goal, Stopped, pos, mark, code, out)
  {
    assert out + [] == out;
  }

  // A reference is resolved.
  lemma ResolveStep(s: seq<int>, named: seq<int> -> Match, p: Place, goal: Decoded, mark: nat, pos: nat,
      out: seq<int>, text: seq<int>)
    requires IsMatcher(s, named) && mark < pos <= |s|
    requires goal == Cons(out, DecodeRef(s, named, p, mark))
    requires DecodeRef(s, named, p, mark) == Cons(text, Decode(s, named, p, pos))
    ensures goal == Cons(out + text, Decode(s, named, p, pos))
  {
    var d := Decode(s, named, p, pos);
    assert out + (text + d.text) == out + text + d.text;
  }

  lemma DigitStep(s: seq<int>, k: nat, pos: nat, code: int, hex: bool)
    requires k <= pos < |s| && InDigits(s, k, pos, code, hex) && IsBaseDigit(s[pos], hex)
    ensures 0 <= code <= MAX_CHAR + 1 && InDigits(s, k, pos + 1, Accumulate(code, s[pos], hex), hex)
  {
    assert s[k..pos + 1] == s[k..pos] + [s[pos]];
    AccumulatorIsValue(s[k..pos], s[pos], hex);
  }

  // The digits end, with or without a semicolon.
  lemma DigitsDone(s: seq<int>, named: seq<int> -> Match, p: Place, goal: Decoded, st: LexState, pos: nat,
      mark: nat, code: int, out: seq<int>)
    requires IsMatcher(s, named) && pos <= |s| && OnCourse(s, named, p, goal, st, pos, mark, code, out)
    requires (st == Hex || st == Decimal)
    requires pos < |s| ==> !IsBaseDigit(s[pos], st == Hex)
    ensures OnCourse(s, named, p, goal, NumericEnd,
              if pos < |s| && s[pos] == ';' as int then pos + 1 else pos, mark, code, out)
  {
    var k := if st == Hex then mark + 3 else mark + 2;
    DigitsEndIs(s, k, pos, st == Hex);
    var next := if pos < |s| && s[pos] == ';' as int then pos + 1 else pos;
    ResolveStep(s, named, p, goal, mark, next, out, [Final(code)]);
  }

  datatype Result = Emitted | EmittedEof | Continue

  class Lexer {
    const input: seq<int>               // code points, carriage returns normalised
    const named: seq<int> -> Match
    const place: Place                  // _return_state
    ghost const goal: Decoded
    var pos: nat
    var mark: nat
    var resumePos: int                  // -1 for NULL
    var reconsume: bool
    var state: LexState
    var code: int                       // _character_reference_code
    var buffered: int                   // _buffered_emit_char
    var out: seq<int>                   // character tokens emitted, or the tag buffer

    ghost predicate Codes()
      reads this
    {
      IsMatcher(input, named) && forall i :: 0 <= i < |input| ==> input[i] >= 0
    }

    ghost predicate Reads(pos: nat)
      reads this
    {
      Codes() && pos <= |input| && OnCourse(input, named, place, goal, state, pos, mark, code, out)
    }

    // Between two calls of gumbo_lex.
    ghost predicate Valid()
      reads this
    {
      !reconsume && Settled()
    }

    ghost predicate Settled()
      reads this
    {
      && Codes() && (state == Base || state == AmbiguousAmpersand)
      && (resumePos != -1 || buffered != NO_CHAR ==> !InAttribute(place))
      && if resumePos != -1 then
           && 0 <= pos <= resumePos <= |input| && buffered == NO_CHAR
           && goal == Cons(out + input[pos..resumePos], Decode(input, named, place, resumePos))
         else if buffered != NO_CHAR then
           pos <= |input| && goal == Cons(out + [buffered], Decode(input, named, place, pos))
         else Reads(pos)
    }

    ghost predicate Ready()
      reads this
    {
      resumePos == -1 && !reconsume && buffered == NO_CHAR && Reads(pos)
    }

    constructor (input: seq<int>, from: nat, named: seq<int> -> Match, place: Place)
      requires from <= |input| && IsMatcher(input, named) && forall i :: 0 <= i < |input| ==> input[i] >= 0
      ensures Valid() && this.input == input && this.named == named && this.place == place && out == []
      ensures goal == Decode(input, named, place, from)
    {
      this.input, this.named, this.place, goal := input, named, place, Decode(input, named, place, from);
      pos, mark, resumePos, reconsume, state, code, buffered, out := from, 0, -1, false, Base, 0, NO_CHAR, [];
      new;
      assert [] + goal.text == goal.text;
    }

    function Current(): (c: int)
      reads this
    {
      if pos < |input| then input[pos] else EOF
    }

    method Next()
      modifies this`pos
      ensures pos == if old(pos) < |input| then old(pos) + 1 else old(pos)
    {
      if pos < |input| {
        pos := pos + 1;
      }
    }

    // emit_char
    method EmitChar(c: int) returns (r: Result)
      modifies this`pos, this`out
      ensures r == if c == EOF then EmittedEof else Emitted
      ensures pos == if !reconsume && old(pos) < |input| then old(pos) + 1 else old(pos)
      ensures out == if c == EOF then old(out) else old(out) + [c]
    {
      if !reconsume {
        Next();
      }
      if c != EOF {
        out := out + [c];
      }
      r := if c == EOF then EmittedEof else Emitted;
    }

    // A character becomes a token, or goes into the attribute value.
    method Put(c: int) returns (r: Result)
      modifies this`pos, this`out
      requires c != EOF
      ensures out == old(out) + [c]
      ensures if InAttribute(place) then r == Continue && pos == old(pos)
              else r == Emitted && pos == if !reconsume && old(pos) < |input| then old(pos) + 1 else old(pos)
    {
      if InAttribute(place) {
        out := out + [c];
        r := Continue;
      } else {
        r := EmitChar(c);
      }
    }

    // What one call of a state function does, started in state st0 at pos0.
    ghost predicate Stepped(st0: LexState, pos0: nat, out0: seq<int>, r: Result)
      reads this
    {
      match r
      case Continue =>
        && resumePos == -1 && buffered == NO_CHAR && pos0 <= pos && (!InAttribute(place) ==> out == out0)
        && if state == Stopped then !reconsume && pos < |input| && Reads(pos)
           else if reconsume then Reads(pos) && (pos0 < pos || Rank(state) < Rank(st0))
           else pos < |input| && Reads(pos + 1)
      case Emitted => Settled() && !InAttribute(place) && |out| == |out0| + 1
      case EmittedEof => resumePos == -1 && pos == |input| && goal == Decoded(out, pos)
    }

    // handle_data_state, handle_rcdata_state and the states for quoted values
    method HandleBase() returns (r: Result)
      requires Ready() && state == Base
      modifies this
      ensures Stepped(Base, old(pos), old(out), r)
    {
      hide Decode, DecodeRef, IsMatcher, OnCourse;
      var c := Current();
      if c == '&' as int {
        EnterRef(input, named, place, goal, pos, mark, code, out);
        state := CharacterReference;
        mark := pos;
        r := Continue;
      } else if c == EOF {
        Arrived(input, named, place, goal, pos, mark, code, out);
        r := EmitChar(EOF);
      } else if Stops(place, c) {
        Arrived(input, named, place, goal, pos, mark, code, out);
        state := Stopped;
        r := Continue;
      } else {
        PlainStep(input, named, place, goal, Base, pos, mark, code, out);
        r := Put(Plain(place, c));
      }
    }

    method ReconsumeIn(st: LexState)
      modifies this`reconsume, this`state
      ensures reconsume && state == st
    {
      reconsume := true;
      state := st;
    }

    // maybe_emit_from_mark
    method MaybeEmitFromMark() returns (r: Result)
      requires Valid() && buffered == NO_CHAR
      modifies this`pos, this`resumePos, this`out
      ensures r == if old(resumePos) == -1 || old(pos) >= old(resumePos) then Continue else Emitted
      ensures if r == Continue then Ready() && out == old(out) else Valid() && |out| == |old(out)| + 1
    {
      hide Decode, IsMatcher;
      if resumePos == -1 {
        return Continue;
      }
      if pos >= resumePos {
        assert out + input[pos..resumePos] == out;
        resumePos := -1;
        return Continue;
      }
      assert out + input[pos..resumePos] == out + [input[pos]] + input[pos + 1..resumePos];
      r := EmitChar(Current());
    }

    // flush_code_points_consumed_as_character_reference, with emit_from_mark
    method FlushConsumed(ghost st0: LexState, ghost pos0: nat) returns (r: Result)
      requires resumePos == -1 && buffered == NO_CHAR && Codes() && mark < pos <= |input| && pos0 <= pos
      requires reconsume && (state == Base || state == AmbiguousAmpersand) && (pos0 < pos || Rank(state) < Rank(st0))
      requires goal == Cons(out + input[mark..pos], Decode(input, named, place, pos))
      modifies this`pos, this`resumePos, this`reconsume, this`out
      ensures Stepped(st0, pos0, old(out), r)
    {
      hide Decode, IsMatcher;
      if InAttribute(place) {
        out := out + input[mark..pos];
        return Continue;
      }
      resumePos := pos;
      pos := mark;
      reconsume := false;
      assert out + input[pos..resumePos] == out + [input[pos]] + input[pos + 1..resumePos];
      r := EmitChar(Current());
    }

    // flush_char_ref
    method FlushCharRef(first: int, second: int, ghost st0: LexState, ghost pos0: nat) returns (r: Result)
      requires resumePos == -1 && buffered == NO_CHAR && Codes() && pos <= |input| && pos0 <= pos
      requires reconsume && state == Base && (pos0 < pos || Rank(state) < Rank(st0)) && first >= 0
      requires (second == NO_CHAR || second >= 0)
      requires goal == Cons(out + [first] + (if second == NO_CHAR then [] else [second]),
                 Decode(input, named, place, pos))
      modifies this`pos, this`buffered, this`out
      ensures Stepped(st0, pos0, old(out), r)
    {
      hide Decode, IsMatcher;
      assert out + [first] + [] == out + [first];
      if InAttribute(place) {
        out := out + [first];
        if second != NO_CHAR {
          out := out + [second];
        }
        return Continue;
      }
      buffered := second;
      r := EmitChar(first);
    }

    // handle_character_reference_state
    method HandleCharacterReference() returns (r: Result)
      requires Ready() && state == CharacterReference
      modifies this
      ensures Stepped(CharacterReference, old(pos), old(out), r)
    {
      hide Decode, DecodeRef, IsMatcher, OnCourse;
      InReference(input, named, place, goal, pos, mark, code, out);
      var c := Current();
      if IsAlnum(c) {
        ReconsumeIn(NamedReference);
        r := Continue;
      } else if c == '#' as int {
        state := NumericReference;
        r := Continue;
      } else {
        ReconsumeIn(Base);
        r := FlushConsumed(CharacterReference, old(pos));
      }
    }

    // handle_named_character_reference_state
    method HandleNamedReference() returns (r: Result)
      requires Ready() && state == NamedReference
      modifies this
      ensures Stepped(NamedReference, old(pos), old(out), r)
    {
      hide Decode, DecodeRef, OnCourse;
      NamedLookup(input, named, place, goal, pos, mark, code, out);
      var m := named(input[pos..]);
      if m.size > 0 {
        var cur := pos;
        pos := pos + m.size;
        var next := Current();
        ReconsumeIn(Base);
        if InAttribute(place) && input[cur + m.size - 1] != ';' as int && (next == '=' as int || IsAlnum(next)) {
          r := FlushConsumed(NamedReference, old(pos));
        } else {
          r := FlushCharRef(m.first, m.second, NamedReference, old(pos));
        }
      } else {
        ReconsumeIn(AmbiguousAmpersand);
        r := FlushConsumed(NamedReference, old(pos));
      }
    }

    // handle_ambiguous_ampersand_state
    method HandleAmbiguousAmpersand() returns (r: Result)
      requires Ready() && state == AmbiguousAmpersand
      modifies this
      ensures Stepped(AmbiguousAmpersand, old(pos), old(out), r)
    {
      hide Decode, DecodeRef, IsMatcher, OnCourse;
      AfterAmpersand(input, named, place, goal, pos, mark, code, out);
      var c := Current();
      if IsAlnum(c) {
        PlainStep(input, named, place, goal, AmbiguousAmpersand, pos, mark, code, out);
        r := Put(c);
      } else {
        ReconsumeIn(Base);
        r := Continue;
      }
    }

    // handle_numeric_character_reference_state
    method HandleNumericReference() returns (r: Result)
      requires Ready() && state == NumericReference
      modifies this
      ensures Stepped(NumericReference, old(pos), old(out), r)
    {
      hide Decode, DecodeRef, IsMatcher, OnCourse;
      AfterNumberSign(input, named, place, goal, pos, mark, code, out);
      code := 0;
      if IsX(Current()) {
        state := HexStart;
        r := Continue;
      } else {
        ReconsumeIn(DecimalStart);
        r := Continue;
      }
    }

    // handle_hexadecimal_character_reference_start_state and
    // handle_decimal_character_reference_start_state
    method HandleDigitsStart() returns (r: Result)
      requires Ready() && (state == HexStart || state == DecimalStart)
      modifies this
      ensures Stepped(old(state), old(pos), old(out), r)
    {
      hide Decode, DecodeRef, IsMatcher, OnCourse;
      BeforeDigits(input, named, place, goal, state, pos, mark, code, out);
      if IsBaseDigit(Current(), state == HexStart) {
        ReconsumeIn(if state == HexStart then Hex else Decimal);
        r := Continue;
      } else {
        ReconsumeIn(Base);
        r := FlushConsumed(old(state), old(pos));
      }
    }

    // handle_hexadecimal_character_reference_state and
    // handle_decimal_character_reference_state
    method HandleDigits() returns (r: Result)
      requires Ready() && (state == Hex || state == Decimal)
      modifies this
      ensures Stepped(old(state), old(pos), old(out), r)
    {
      hide Decode, DecodeRef, IsMatcher, OnCourse;
      var c := Current();
      if IsBaseDigit(c, state == Hex) {
        OneDigit(input, named, place, goal, state, pos, mark, code, out);
        code := Accumulate(code, c, state == Hex);
        return Continue;
      }
      DigitsDone(input, named, place, goal, state, pos, mark, code, out);
      if c == ';' as int {
        state := NumericEnd;
      } else {
        ReconsumeIn(NumericEnd);
      }
      r := Continue;
    }

    // handle_numeric_character_reference_end_state
    method HandleNumericEnd() returns (r: Result)
      requires Ready() && state == NumericEnd
      modifies this
      ensures Stepped(NumericEnd, old(pos), old(out), r)
    {
      hide Decode, DecodeRef, IsMatcher, OnCourse, Final;
      AtNumericEnd(input, named, place, goal, pos, mark, code, out);
      ReconsumeIn(Base);
      r := FlushCharRef(Final(code), NO_CHAR, NumericEnd, old(pos));
    }

    // dispatch_table
    method Dispatch() returns (r: Result)
      requires Ready() && state != Stopped
      modifies this
      ensures Stepped(old(state), old(pos), old(out), r)
    {
      hide OnCourse, Stepped, IsMatcher;
      match state
      case Base => r := HandleBase();
      case CharacterReference => r := HandleCharacterReference();
      case NamedReference => r := HandleNamedReference();
      case AmbiguousAmpersand => r := HandleAmbiguousAmpersand();
      case NumericReference => r := HandleNumericReference();
      case HexStart | DecimalStart => r := HandleDigitsStart();
      case Hex | Decimal => r := HandleDigits();
      case NumericEnd => r := HandleNumericEnd();
      case Stopped => assert false;
    }

    // gumbo_lex, until a token has been emitted or the text has ended. In an
    // attribute value no token is emitted before that.
    method Lex() returns (r: Result)
      requires Valid()
      modifies this
      ensures r == Emitted ==> Valid() && !InAttribute(place) && |out| == |old(out)| + 1
      ensures r != Emitted ==> goal == Decoded(out, pos) && (r == EmittedEof <==> pos == |input|)
    {
      hide OnCourse, Decode, IsMatcher;
      if buffered != NO_CHAR {
        reconsume := true;
        r := EmitChar(buffered);
        reconsume := false;
        buffered := NO_CHAR;
        AtBase();
        return;
      }
      r := MaybeEmitFromMark();
      if r == Emitted {
        return;
      }
      while true
        invariant Ready() && state != Stopped && (!InAttribute(place) ==> out == old(out))
        decreases |input| - pos, Rank(state)
      {
        r := Dispatch();
        var shouldAdvance := !reconsume;
        reconsume := false;
        if r != Continue {
          return;
        }
        if state == Stopped {
          AtStop();
          return;
        }
        if shouldAdvance {
          Next();
        }
      }
    }

    lemma AtBase()
      requires Codes() && pos <= |input| && (state == Base || state == AmbiguousAmpersand)
      requires goal == Cons(out, Decode(input, named, place, pos))
      ensures Reads(pos)
    {
    }

    lemma AtStop()
      requires Reads(pos) && state == Stopped
      ensures goal == Decoded(out, pos)
    {
    }

    lemma Shrinks()
      requires Valid()
      ensures |out| <= |goal.text|
    {
    }
  }

  lemma InReference(s: seq<int>, named: seq<int> -> Match, p: Place, goal: Decoded, pos: nat, mark: nat,
      code: int, out: seq<int>)
    requires IsMatcher(s, named) && pos <= |s| && OnCourse(s, named, p, goal, CharacterReference, pos, mark, code, out)
    ensures mark < pos && s[mark] == '&' as int
    ensures pos < |s| && IsAlnum(s[pos]) ==> OnCourse(s, named, p, goal, NamedReference, pos, mark, code, out)
    ensures pos < |s| && s[pos] == '#' as int ==>
            OnCourse(s, named, p, goal, NumericReference, pos + 1, mark, code, out)
    ensures pos == |s| || (!IsAlnum(s[pos]) && s[pos] != '#' as int) ==>
            goal == Cons(out + s[mark..pos], Decode(s, named, p, pos))
  {
    if pos == |s| || (!IsAlnum(s[pos]) && s[pos] != '#' as int) {
      assert s[mark..pos] == ['&' as int];
      ResolveStep(s, named, p, goal, mark, pos, out, s[mark..pos]);
    }
  }

  lemma NamedLookup(s: seq<int>, named: seq<int> -> Match, p: Place, goal: Decoded, pos: nat, mark: nat,
      code: int, out: seq<int>)
    requires IsMatcher(s, named) && pos <= |s| && OnCourse(s, named, p, goal, NamedReference, pos, mark, code, out)
    ensures mark < pos
    ensures var m := named(s[pos..]); var e := pos + m.size;
            && e <= |s|
            && if m.size == 0 then goal == Cons(out + s[mark..pos], Decode(s, named, p, pos))
               else if InAttribute(p) && s[e - 1] != ';' as int && e < |s| && (s[e] == '=' as int || IsAlnum(s[e])) then
                 goal == Cons(out + s[mark..e], Decode(s, named, p, e))
               else
                 goal == Cons(out + [m.first] + (if m.second == NO_CHAR then [] else [m.second]),
                         Decode(s, named, p, e))
  {
    var m := named(s[pos..]);
    var e := pos + m.size;
    if m.size == 0 {
      assert s[mark..pos] == ['&' as int];
      ResolveStep(s, named, p, goal, mark, pos, out, s[mark..pos]);
    } else if InAttribute(p) && s[e - 1] != ';' as int && e < |s| && (s[e] == '=' as int || IsAlnum(s[e])) {
      ResolveStep(s, named, p, goal, mark, e, out, s[mark..e]);
    } else {
      var second := if m.second == NO_CHAR then [] else [m.second];
      ResolveStep(s, named, p, goal, mark, e, out, [m.first] + second);
      assert out + ([m.first] + second) == out + [m.first] + second;
    }
  }

  lemma AfterAmpersand(s: seq<int>, named: seq<int> -> Match, p: Place, goal: Decoded, pos: nat, mark: nat,
      code: int, out: seq<int>)
    requires IsMatcher(s, named) && pos <= |s| && OnCourse(s, named, p, goal, AmbiguousAmpersand, pos, mark, code, out)
    ensures OnCourse(s, named, p, goal, Base, pos, mark, code, out)
  {
  }

  lemma AfterNumberSign(s: seq<int>, named: seq<int> -> Match, p: Place, goal: Decoded, pos: nat, mark: nat,
      code: int, out: seq<int>)
    requires IsMatcher(s, named) && pos <= |s| && OnCourse(s, named, p, goal, NumericReference, pos, mark, code, out)
    ensures if pos < |s| && IsX(s[pos]) then OnCourse(s, named, p, goal, HexStart, pos + 1, mark, 0, out)
            else OnCourse(s, named, p, goal, DecimalStart, pos, mark, 0, out)
  {
  }

  lemma BeforeDigits(s: seq<int>, named: seq<int> -> Match, p: Place, goal: Decoded, st: LexState, pos: nat,
      mark: nat, code: int, out: seq<int>)
    requires IsMatcher(s, named) && pos <= |s| && OnCourse(s, named, p, goal, st, pos, mark, code, out)
    requires (st == HexStart || st == DecimalStart)
    ensures mark < pos
    ensures if pos < |s| && IsBaseDigit(s[pos], st == HexStart) then
              OnCourse(s, named, p, goal, if st == HexStart then Hex else Decimal, pos, mark, code, out)
            else goal == Cons(out + s[mark..pos], Decode(s, named, p, pos))
  {
    if pos < |s| && IsBaseDigit(s[pos], st == HexStart) {
      assert s[pos..pos] == [];
    } else {
      DigitsEndIs(s, pos, pos, st == HexStart);
      ResolveStep(s, named, p, goal, mark, pos, out, s[mark..pos]);
    }
  }

  lemma OneDigit(s: seq<int>, named: seq<int> -> Match, p: Place, goal: Decoded, st: LexState, pos: nat,
      mark: nat, code: int, out: seq<int>)
    requires IsMatcher(s, named) && pos < |s| && OnCourse(s, named, p, goal, st, pos, mark, code, out)
    requires (st == Hex || st == Decimal)
    requires IsBaseDigit(s[pos], st == Hex)
    ensures 0 <= code <= MAX_CHAR + 1
    ensures OnCourse(s, named, p, goal, st, pos + 1, mark, Accumulate(code, s[pos], st == Hex), out)
  {
    hide Decode, DecodeRef;
    DigitStep(s, if st == Hex then mark + 3 else mark + 2, pos, code, st == Hex);
  }

  lemma AtNumericEnd(s: seq<int>, named: seq<int> -> Match, p: Place, goal: Decoded, pos: nat, mark: nat,
      code: int, out: seq<int>)
    requires IsMatcher(s, named) && pos <= |s| && OnCourse(s, named, p, goal, NumericEnd, pos, mark, code, out)
    ensures 0 <= code <= MAX_CHAR + 1 && goal == Cons(out + [Final(code)] + [], Decode(s, named, p, pos))
  {
    assert out + [Final(code)] + [] == out + [Final(code)];
  }



  lemma EnterRef(s: seq<int>, named: seq<int> -> Match, p: Place, goal: Decoded, pos: nat, mark: nat,
      code: int, out: seq<int>)
    requires IsMatcher(s, named) && pos <= |s| && OnCourse(s, named, p, goal, Base, pos, mark, code, out)
    requires pos < |s| && s[pos] == '&' as int
    ensures OnCourse(s, named, p, goal, CharacterReference, pos + 1, pos, code, out)
  {
  }

  // The text of an element, or of an attribute value, up to what ends it.
  method ReadText(input: seq<int>, from: nat, named: seq<int> -> Match, place: Place) returns (text: seq<int>, end: nat)
    requires from <= |input| && IsMatcher(input, named) && forall i :: 0 <= i < |input| ==> input[i] >= 0
    ensures Decoded(text, end) == Decode(input, named, place, from)
  {
    hide Decode, IsMatcher;
    var lexer := new Lexer(input, from, named, place);
    while true
      invariant fresh(lexer) && lexer.Valid()
      invariant lexer.goal == Decode(input, named, place, from)
      decreases |lexer.goal.text| - |lexer.out|
    {
      var r := lexer.Lex();
      if r != Emitted {
        break;
      }
      lexer.Shrinks();
    }
    return lexer.out, lexer.pos;
  }
}
